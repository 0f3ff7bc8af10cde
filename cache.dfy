/** The Redis cache the book service reads through: its key scheme, its
    entries and the three operations the service uses (get, set with a
    time-to-live, delete). Time is a clock reading in minutes. */
module BookCache {
  import opened Wrappers
  import opened Books
  import opened Constraints
  import Decimal

  const BookCachePrefix: string := "book:"
  const BookListCacheKey: string := "book:list"
  /** The time-to-live of every entry the service writes, in minutes. */
  const CacheExpireTime: int := 30

  /** What the service stores: one book, or a list of books. */
  datatype Entry = One(book: Book) | Many(books: seq<Book>)

  datatype CacheEntry = CacheEntry(value: Entry, expiresAt: int)

  type Cache = map<string, CacheEntry>

  /** "book:" + id, the id written in decimal. */
  function BookKey(id: int): (k: string)
    ensures |k| > 5 && k[..5] == BookCachePrefix
    ensures Decimal.IsDigit(k[5]) || k[5] == '-'
  {
    BookCachePrefix + Decimal.IntToString(id)
  }

  /** "book:" + "category:" + category (a null category is written "null"). */
  function CategoryKey(category: Option<string>): (k: string)
    ensures |k| >= 14 && k[..14] == "book:category:"
  {
    BookCachePrefix + "category:" + JavaString(category)
  }

  /** "book:" + "status:" + the status name. */
  function StatusKey(status: BookStatus): (k: string)
    ensures |k| >= 12 && k[..12] == "book:status:"
  {
    BookCachePrefix + "status:" + StatusName(status)
  }

  /** A single-book key is never the list key and never lies in the
      category or status namespace. */
  lemma BookKeyNamespace(id: int)
    ensures BookKey(id) != BookListCacheKey
    ensures !(|BookKey(id)| >= 14 && BookKey(id)[..14] == "book:category:")
    ensures !(|BookKey(id)| >= 12 && BookKey(id)[..12] == "book:status:")
  {
    assert BookListCacheKey[5] == 'l';
    assert "book:category:"[5] == 'c';
    assert "book:status:"[5] == 's';
  }

  /** Category keys, status keys and the list key never coincide. */
  lemma ListNamespaces(category: Option<string>, status: BookStatus)
    ensures CategoryKey(category) != BookListCacheKey
    ensures StatusKey(status) != BookListCacheKey
    ensures CategoryKey(category) != StatusKey(status)
  {
    assert CategoryKey(category)[5] == "book:category:"[5] == 'c';
    assert StatusKey(status)[5] == "book:status:"[5] == 's';
    assert BookListCacheKey[5] == 'l';
  }

  /** The single-book key determines the id. */
  lemma BookKeyInjective(a: int, b: int)
    requires BookKey(a) == BookKey(b)
    ensures a == b
  {
    assert Decimal.IntToString(a) == BookKey(a)[5..] == BookKey(b)[5..] == Decimal.IntToString(b);
    Decimal.IntToStringInjective(a, b);
  }

  /** The status key determines the status. */
  lemma StatusKeyInjective(a: BookStatus, b: BookStatus)
    requires StatusKey(a) == StatusKey(b)
    ensures a == b
  {
    assert StatusName(a) == StatusKey(a)[12..] == StatusKey(b)[12..] == StatusName(b);
    StatusNameInjective(a, b);
  }

  /** The category key determines the category text, but a null category
      and the category "null" share one key. */
  lemma CategoryKeyText(a: Option<string>, b: Option<string>)
    ensures CategoryKey(a) == CategoryKey(b) <==> JavaString(a) == JavaString(b)
    ensures CategoryKey(None) == CategoryKey(Some("null"))
  {
    if CategoryKey(a) == CategoryKey(b) {
      assert JavaString(a) == CategoryKey(a)[14..] == CategoryKey(b)[14..] == JavaString(b);
    }
  }

  /** Every key holds the kind of value its read site casts to: a book
      under a single-book key, a list under the list, category and status
      keys. */
  ghost predicate WellTyped(cache: Cache) {
    (forall id :: BookKey(id) in cache ==> cache[BookKey(id)].value.One?) &&
    (BookListCacheKey in cache ==> cache[BookListCacheKey].value.Many?) &&
    (forall c :: CategoryKey(c) in cache ==> cache[CategoryKey(c)].value.Many?) &&
    (forall s :: StatusKey(s) in cache ==> cache[StatusKey(s)].value.Many?)
  }

  /** RedisUtils.get: the stored value, or nothing when the key is absent
      or its time-to-live has run out. */
  function Get(cache: Cache, key: string, now: int): (r: Option<Entry>)
    ensures r.Some? <==> key in cache && now < cache[key].expiresAt
    ensures r.Some? ==> r.value == cache[key].value
  {
    if key in cache && now < cache[key].expiresAt then Some(cache[key].value) else None
  }

  /** RedisUtils.set(key, value, 30, MINUTES). */
  function Put(cache: Cache, key: string, value: Entry, now: int): (r: Cache)
    ensures key in r && r[key] == CacheEntry(value, now + CacheExpireTime)
    ensures forall k :: k != key ==> (k in r <==> k in cache) && (k in cache ==> r[k] == cache[k])
    ensures Get(r, key, now) == Some(value)
  {
    cache[key := CacheEntry(value, now + CacheExpireTime)]
  }

  /** Writing a book under its own key keeps every key well typed. */
  lemma PutBookWellTyped(cache: Cache, id: int, b: Book, now: int)
    requires WellTyped(cache)
    ensures WellTyped(Put(cache, BookKey(id), One(b), now))
  {
    var r := Put(cache, BookKey(id), One(b), now);
    BookKeyNamespace(id);
    forall c | CategoryKey(c) in r ensures r[CategoryKey(c)].value.Many? {
      assert CategoryKey(c) != BookKey(id);
    }
    forall s | StatusKey(s) in r ensures r[StatusKey(s)].value.Many? {
      assert StatusKey(s) != BookKey(id);
    }
  }

  /** Writing a list under a list key keeps every key well typed. */
  lemma PutListWellTyped(cache: Cache, key: string, books: seq<Book>, now: int)
    requires WellTyped(cache)
    requires key == BookListCacheKey || (exists c :: key == CategoryKey(c)) || (exists s :: key == StatusKey(s))
    ensures WellTyped(Put(cache, key, Many(books), now))
  {
    var r := Put(cache, key, Many(books), now);
    forall id | BookKey(id) in r ensures r[BookKey(id)].value.One? {
      BookKeyNamespace(id);
      if exists c :: key == CategoryKey(c) {
        var c :| key == CategoryKey(c);
        assert BookKey(id) != key;
      }
      if exists s :: key == StatusKey(s) {
        var s :| key == StatusKey(s);
        assert BookKey(id) != key;
      }
    }
  }

  /** A populated entry is read back for exactly 30 minutes: at every
      reading before its deadline, and at none from the deadline on. */
  lemma PutLivesThirtyMinutes(cache: Cache, key: string, value: Entry, now: int, later: int)
    requires now <= later
    ensures Get(Put(cache, key, value, now), key, later) == Some(value) <==> later < now + 30
  {
  }

  /** Dropping a book's entry and the list entry makes both miss, and
      leaves every other book's entry and every category and status entry
      as it was. */
  lemma InvalidationScope(cache: Cache, id: int, now: int)
    ensures Get(cache - {BookKey(id), BookListCacheKey}, BookKey(id), now).None?
    ensures Get(cache - {BookKey(id), BookListCacheKey}, BookListCacheKey, now).None?
    ensures forall other :: other != id ==>
              Get(cache - {BookKey(id), BookListCacheKey}, BookKey(other), now) == Get(cache, BookKey(other), now)
    ensures forall c :: Get(cache - {BookKey(id), BookListCacheKey}, CategoryKey(c), now) == Get(cache, CategoryKey(c), now)
    ensures forall s :: Get(cache - {BookKey(id), BookListCacheKey}, StatusKey(s), now) == Get(cache, StatusKey(s), now)
  {
    BookKeyNamespace(id);
    forall other | other != id
      ensures BookKey(other) != BookKey(id) && BookKey(other) != BookListCacheKey
    {
      BookKeyNamespace(other);
      if BookKey(other) == BookKey(id) {
        BookKeyInjective(other, id);
      }
    }
    forall c ensures CategoryKey(c) != BookKey(id) && CategoryKey(c) != BookListCacheKey {
      ListNamespaces(c, Available);
    }
    forall s ensures StatusKey(s) != BookKey(id) && StatusKey(s) != BookListCacheKey {
      ListNamespaces(None, s);
    }
  }

  /** Deleting keys keeps every remaining key well typed. */
  lemma DeleteWellTyped(cache: Cache, keys: set<string>)
    requires WellTyped(cache)
    ensures WellTyped(cache - keys)
  {
  }
}
