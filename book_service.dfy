/** BookServiceImpl: the book service over the store, the status validator
    chain, the search-strategy factory and the read-through cache. The
    file holds two generations of operations: the DTO-based ones, which
    never touch the cache, and the entity-based ones, which read through
    it and invalidate it on writes. */
module BookService {
  import opened Wrappers
  import opened Exceptions
  import opened Books
  import opened Constraints
  import opened BookStore
  import opened BookCache
  import opened StatusChain
  import opened SearchStrategies
  import Decimal
  import LikePattern

  /** "Book not found with id: " + id. */
  function NotFoundMessage(id: int): (m: string)
    ensures |m| > 24 && m[..24] == "Book not found with id: "
  {
    "Book not found with id: " + Decimal.IntToString(id)
  }

  /** The message names the id it was raised for. */
  lemma NotFoundMessageInjective(a: int, b: int)
    requires NotFoundMessage(a) == NotFoundMessage(b)
    ensures a == b
  {
    assert Decimal.IntToString(a) == NotFoundMessage(a)[24..] == NotFoundMessage(b)[24..] == Decimal.IntToString(b);
    Decimal.IntToStringInjective(a, b);
  }

  /** updateBookFromDTO: the eleven DTO fields overwrite the book's, a null
      status included; the id, the associations and the timestamps stay. */
  function CopyFromDto(b: Book, d: BookDto): (r: Book)
    ensures r.title == d.title && r.author == d.author && r.isbn == d.isbn
    ensures r.publishDate == d.publishDate && r.status == d.status && r.category == d.category
    ensures r.description == d.description && r.price == d.price && r.location == d.location
    ensures r.totalCopies == d.totalCopies && r.availableCopies == d.availableCopies
    ensures r.id == b.id && r.borrowRecords == b.borrowRecords && r.reservations == b.reservations
    ensures r.createdAt == b.createdAt && r.updatedAt == b.updatedAt
  {
    b.(title := d.title, author := d.author, isbn := d.isbn, publishDate := d.publishDate,
       status := d.status, category := d.category, description := d.description,
       price := d.price, location := d.location, totalCopies := d.totalCopies,
       availableCopies := d.availableCopies)
  }

  /** The DTO's constraints are the book's: a DTO passes exactly when the
      book it is copied into does. */
  lemma CopyValidIffDtoValid(b: Book, d: BookDto)
    ensures BookValid(CopyFromDto(b, d)) <==> DtoValid(d)
  {
  }

  /** The last copy wins: copying two DTOs in turn is copying the second. */
  lemma CopyOverwrites(b: Book, d1: BookDto, d2: BookDto)
    ensures CopyFromDto(CopyFromDto(b, d1), d2) == CopyFromDto(b, d2)
  {
  }

  /** findBooksByCriteria's parameters; each may be null. */
  datatype Criteria = Criteria(
    category: Option<string>,
    status: Option<BookStatus>,
    minPrice: Option<int>,
    maxPrice: Option<int>,
    startDate: Option<int>,
    endDate: Option<int>)

  /** One predicate of the criteria query. */
  datatype Restriction =
    | CategoryEquals(category: string)
    | StatusEquals(status: BookStatus)
    | PriceAtLeast(minPrice: int)
    | PriceAtMost(maxPrice: int)
    | PublishedOnOrAfter(startDate: int)
    | PublishedOnOrBefore(endDate: int)

  /** A restriction on a row; a null column satisfies none. */
  predicate Holds(r: Restriction, b: Book) {
    match r
    case CategoryEquals(c) => b.category == Some(c)
    case StatusEquals(s) => b.status == Some(s)
    case PriceAtLeast(p) => b.price.Some? && b.price.value >= p
    case PriceAtMost(p) => b.price.Some? && b.price.value <= p
    case PublishedOnOrAfter(d) => b.publishDate.Some? && b.publishDate.value >= d
    case PublishedOnOrBefore(d) => b.publishDate.Some? && b.publishDate.value <= d
  }

  /** The predicate list, one entry per non-null parameter, in the order
      the query adds them. */
  function Restrictions(c: Criteria): (rs: seq<Restriction>)
    ensures |rs| <= 6
  {
    (if c.category.Some? then [CategoryEquals(c.category.value)] else []) +
    (if c.status.Some? then [StatusEquals(c.status.value)] else []) +
    (if c.minPrice.Some? then [PriceAtLeast(c.minPrice.value)] else []) +
    (if c.maxPrice.Some? then [PriceAtMost(c.maxPrice.value)] else []) +
    (if c.startDate.Some? then [PublishedOnOrAfter(c.startDate.value)] else []) +
    (if c.endDate.Some? then [PublishedOnOrBefore(c.endDate.value)] else [])
  }

  /** cb.and over the list: every restriction holds (an empty list holds). */
  predicate AllHold(rs: seq<Restriction>, b: Book) {
    forall i :: 0 <= i < |rs| ==> Holds(rs[i], b)
  }

  /** What the criteria mean: every non-null filter is met, each bound on
      its own and inclusive. */
  predicate Admits(c: Criteria, b: Book) {
    (c.category.None? || b.category == c.category) &&
    (c.status.None? || b.status == c.status) &&
    (c.minPrice.None? || (b.price.Some? && c.minPrice.value <= b.price.value)) &&
    (c.maxPrice.None? || (b.price.Some? && b.price.value <= c.maxPrice.value)) &&
    (c.startDate.None? || (b.publishDate.Some? && c.startDate.value <= b.publishDate.value)) &&
    (c.endDate.None? || (b.publishDate.Some? && b.publishDate.value <= c.endDate.value))
  }

  lemma AllHoldAppend(a: seq<Restriction>, c: seq<Restriction>, b: Book)
    ensures AllHold(a + c, b) <==> AllHold(a, b) && AllHold(c, b)
  {
    if AllHold(a, b) && AllHold(c, b) {
      forall i | 0 <= i < |a + c| ensures Holds((a + c)[i], b) {
        if i >= |a| {
          assert (a + c)[i] == c[i - |a|];
        }
      }
    }
    if AllHold(a + c, b) {
      forall i | 0 <= i < |a| ensures Holds(a[i], b) {
        assert (a + c)[i] == a[i];
      }
      forall i | 0 <= i < |c| ensures Holds(c[i], b) {
        assert (a + c)[|a| + i] == c[i];
      }
    }
  }

  lemma AllHoldAtMostOne(rs: seq<Restriction>, b: Book)
    requires |rs| <= 1
    ensures AllHold(rs, b) <==> (|rs| == 0 || Holds(rs[0], b))
  {
  }

  /** The query's conjunction admits a book exactly when the criteria do. */
  lemma RestrictionsMeanAdmits(c: Criteria, b: Book)
    ensures AllHold(Restrictions(c), b) <==> Admits(c, b)
  {
    var r1 := (if c.category.Some? then [CategoryEquals(c.category.value)] else []);
    var r2 := (if c.status.Some? then [StatusEquals(c.status.value)] else []);
    var r3 := (if c.minPrice.Some? then [PriceAtLeast(c.minPrice.value)] else []);
    var r4 := (if c.maxPrice.Some? then [PriceAtMost(c.maxPrice.value)] else []);
    var r5 := (if c.startDate.Some? then [PublishedOnOrAfter(c.startDate.value)] else []);
    var r6 := (if c.endDate.Some? then [PublishedOnOrBefore(c.endDate.value)] else []);
    assert Restrictions(c) == r1 + r2 + r3 + r4 + r5 + r6;
    AllHoldAppend(r1 + r2 + r3 + r4 + r5, r6, b);
    AllHoldAppend(r1 + r2 + r3 + r4, r5, b);
    AllHoldAppend(r1 + r2 + r3, r4, b);
    AllHoldAppend(r1 + r2, r3, b);
    AllHoldAppend(r1, r2, b);
    AllHoldAtMostOne(r1, b);
    AllHoldAtMostOne(r2, b);
    AllHoldAtMostOne(r3, b);
    AllHoldAtMostOne(r4, b);
    AllHoldAtMostOne(r5, b);
    AllHoldAtMostOne(r6, b);
  }

  /** With every parameter null there are no restrictions and every book
      is admitted. */
  lemma NoCriteriaAdmitEverything(b: Book)
    ensures Restrictions(Criteria(None, None, None, None, None, None)) == []
    ensures Admits(Criteria(None, None, None, None, None, None), b)
  {
  }

  function CriteriaFilter(c: Criteria): Book -> bool {
    (b: Book) => AllHold(Restrictions(c), b)
  }

  /** The derived query findByTitleContainingOrAuthorContaining: a
      case-sensitive substring test on title or author, the keyword's
      wildcards escaped. */
  function TitleOrAuthorContains(keyword: string): Book -> bool {
    (b: Book) => (b.title.Some? && LikePattern.Contains(b.title.value, keyword)) ||
                 (b.author.Some? && LikePattern.Contains(b.author.value, keyword))
  }

  class BookServiceImpl {
    const store: BookStore
    const factory: SearchStrategyFactory
    const validator: Validator
    var cache: Cache

    ghost predicate Valid()
      reads this, store, validator, validator.Repr
    {
      store.Valid() && validator.Valid() && WellTyped(cache)
    }

    constructor(store: BookStore, factory: SearchStrategyFactory, validator: Validator)
      requires store.Valid() && validator.Valid()
      ensures this.store == store && this.factory == factory && this.validator == validator
      ensures cache == map[] && Valid()
    {
      this.store := store;
      this.factory := factory;
      this.validator := validator;
      cache := map[];
    }

    /** findAllBooks(pageable): one page of every book; the cache is not used. */
    function FindAllBooks(pageable: Pageable): (r: Page)
      reads store
      ensures r.total == |store.FindAll()|
      ensures |r.content| <= pageable.pageSize
      ensures forall b :: b in r.content ==> b in store.books.Values
      ensures PageOf(r, store.FindAll(), pageable)
    {
      store.FindAllPaged(pageable)
    }

    /** findBookById: the stored book, or BookNotFoundException. */
    function FindBookById(id: int): (r: Result<Book, Exception>)
      reads store
      ensures r.Success? <==> id in store.books
      ensures r.Success? ==> r.value == store.books[id]
      ensures r.Failure? ==> r.error == BookNotFound(NotFoundMessage(id))
    {
      match store.FindById(id)
      case Some(b) => Success(b)
      case None => Failure(BookNotFound(NotFoundMessage(id)))
    }

    /** createBook: a DTO that fails validation is refused before anything
        runs; otherwise a new Book filled from the DTO is persisted under
        a fresh id. The cache is not touched. */
    method CreateBook(dto: BookDto) returns (r: Result<Book, Exception>)
      requires Valid()
      modifies store
      ensures Valid()
      ensures !DtoValid(dto) ==> r == Failure(ConstraintViolation) && unchanged(store)
      ensures DtoValid(dto) ==>
                r == Success(CopyFromDto(NewBook(), dto).(id := Some(old(store.nextId)))) &&
                old(store.nextId) !in old(store.books) &&
                store.books == old(store.books)[old(store.nextId) := r.value] &&
                store.order == old(store.order) + [old(store.nextId)] &&
                store.nextId == old(store.nextId) + 1
    {
      if !DtoValid(dto) {
        return Failure(ConstraintViolation);
      }
      var book := CopyFromDto(NewBook(), dto);
      var saved := store.Save(book);
      r := Success(saved);
    }

    /** updateBook(id, dto): validation first, then BookNotFoundException
        for a missing id, otherwise the DTO is copied over the stored book.
        The cache is not touched. */
    method UpdateBookFromDto(id: int, dto: BookDto) returns (r: Result<Book, Exception>)
      requires Valid()
      modifies store
      ensures Valid()
      ensures !DtoValid(dto) ==> r == Failure(ConstraintViolation) && unchanged(store)
      ensures DtoValid(dto) && id !in old(store.books) ==>
                r == Failure(BookNotFound(NotFoundMessage(id))) && unchanged(store)
      ensures DtoValid(dto) && id in old(store.books) ==>
                r == Success(CopyFromDto(old(store.books)[id], dto)) &&
                store.books == old(store.books)[id := r.value] &&
                store.order == old(store.order) && store.nextId == old(store.nextId)
    {
      if !DtoValid(dto) {
        return Failure(ConstraintViolation);
      }
      var found := FindBookById(id);
      if found.Failure? {
        return Failure(found.error);
      }
      var updated := CopyFromDto(found.value, dto);
      var saved := store.Save(updated);
      r := Success(saved);
    }

    /** searchBooks(keyword, searchType, pageable): the strategy registered
        for the type runs its paged query, or the factory's error comes
        back. The cache is not used. */
    function SearchBooks(keyword: Option<string>, searchType: Option<string>, pageable: Pageable): (r: Result<Page, Exception>)
      reads store
      ensures r.Failure? <==> factory.GetStrategy(searchType).Failure?
      ensures r.Failure? ==> r.error == factory.GetStrategy(searchType).error
      ensures r.Success? ==>
                var s := factory.GetStrategy(searchType).value;
                r.value.total == |store.Where(Matcher(s, keyword))| &&
                |r.value.content| <= pageable.pageSize &&
                (forall b :: b in r.value.content ==> LikeMatch(SearchedField(s, b), keyword)) &&
                PageOf(r.value, store.Where(Matcher(s, keyword)), pageable)
    {
      match factory.GetStrategy(searchType)
      case Failure(e) => Failure(e)
      case Success(s) => Success(Search(s, store, keyword, pageable))
    }

    /** With the registry keyed by search type, "title" runs the paged
        title query and "author" the paged author query. */
    lemma SearchByType(keyword: Option<string>, pageable: Pageable)
      requires factory.strategyMap == SearchTypeRegistry()
      ensures SearchBooks(keyword, Some("title"), pageable) ==
              Success(store.FindByTitleContainingPaged(keyword, pageable))
      ensures SearchBooks(keyword, Some("author"), pageable) ==
              Success(store.FindByAuthorContainingPaged(keyword, pageable))
    {
      SearchTypeRegistryAccepts(factory, "title");
    }

    /** updateBookStatus: BookNotFoundException for a missing id; otherwise
        the validator chain runs first, and only a transition it accepts is
        written. The cache is not touched. */
    method UpdateBookStatus(id: int, newStatus: BookStatus) returns (r: Result<Book, Exception>)
      requires Valid()
      modifies store
      ensures Valid()
      ensures id !in old(store.books) ==>
                r == Failure(BookNotFound(NotFoundMessage(id))) && unchanged(store)
      ensures id in old(store.books) &&
              Verdict(validator.Rules, old(store.books)[id].status, newStatus).Fail? ==>
                r == Failure(Verdict(validator.Rules, old(store.books)[id].status, newStatus).error) &&
                unchanged(store)
      ensures id in old(store.books) &&
              Verdict(validator.Rules, old(store.books)[id].status, newStatus).Pass? ==>
                r == Success(old(store.books)[id].(status := Some(newStatus))) &&
                store.books == old(store.books)[id := r.value] &&
                store.order == old(store.order) && store.nextId == old(store.nextId)
    {
      var found := FindBookById(id);
      if found.Failure? {
        return Failure(found.error);
      }
      var book := found.value;
      var verdict := validator.Validate(book, newStatus);
      if verdict.Fail? {
        return Failure(verdict.error);
      }
      var saved := store.Save(book.(status := Some(newStatus)));
      r := Success(saved);
    }

    /** findBooksByCriteria: one page of the books every non-null filter
        admits, with the count of all of them. */
    function FindBooksByCriteria(c: Criteria, pageable: Pageable): (r: Page)
      reads store
      ensures r.total == |store.Where(CriteriaFilter(c))|
      ensures |r.content| <= pageable.pageSize
      ensures forall b :: b in r.content ==> b in store.books.Values && Admits(c, b)
      ensures PageOf(r, store.Where(CriteriaFilter(c)), pageable)
    {
      var p := store.PagedWhere(CriteriaFilter(c), pageable);
      assert forall b :: b in p.content ==> AllHold(Restrictions(c), b) by {
        forall b | b in p.content ensures AllHold(Restrictions(c), b) {
          assert CriteriaFilter(c)(b);
        }
      }
      assert forall b :: b in p.content ==> Admits(c, b) by {
        forall b | b in p.content ensures Admits(c, b) {
          RestrictionsMeanAdmits(c, b);
        }
      }
      p
    }

    /** addBook: save, then drop exactly the list entry. */
    method AddBook(book: Book) returns (saved: Book)
      requires Valid()
      modifies this, store
      ensures Valid()
      ensures cache == old(cache) - {BookListCacheKey}
      ensures book.id.Some? && book.id.value in old(store.books) ==>
                saved == book && store.books == old(store.books)[book.id.value := book] &&
                store.order == old(store.order) && store.nextId == old(store.nextId)
      ensures !(book.id.Some? && book.id.value in old(store.books)) ==>
                saved == book.(id := Some(old(store.nextId))) &&
                old(store.nextId) !in old(store.books) &&
                store.books == old(store.books)[old(store.nextId) := saved] &&
                store.order == old(store.order) + [old(store.nextId)] &&
                store.nextId == old(store.nextId) + 1
    {
      saved := store.Save(book);
      cache := cache - {BookListCacheKey};
    }

    /** updateBook(id, book): RuntimeException for a missing id with
        nothing changed; otherwise the book, with the id forced onto it,
        replaces the stored one and exactly that book's entry and the list
        entry are dropped. */
    method UpdateBook(id: int, book: Book) returns (r: Result<Book, Exception>)
      requires Valid()
      modifies this, store
      ensures Valid()
      ensures id !in old(store.books) ==>
                r == Failure(RuntimeError(NotFoundMessage(id))) &&
                unchanged(store) && cache == old(cache)
      ensures id in old(store.books) ==>
                r == Success(book.(id := Some(id))) &&
                store.books == old(store.books)[id := r.value] &&
                store.order == old(store.order) && store.nextId == old(store.nextId) &&
                cache == old(cache) - {BookKey(id), BookListCacheKey}
    {
      if !store.ExistsById(id) {
        return Failure(RuntimeError(NotFoundMessage(id)));
      }
      var saved := store.Save(book.(id := Some(id)));
      cache := cache - {BookKey(id), BookListCacheKey};
      r := Success(saved);
    }

    /** deleteBook(id): the not-found error with nothing changed for a
        missing id; otherwise the row goes and exactly that book's entry
        and the list entry are dropped. */
    method DeleteBook(id: int) returns (r: Outcome<Exception>)
      requires Valid()
      modifies this, store
      ensures Valid()
      ensures id !in old(store.books) ==>
                r == Fail(BookNotFound(NotFoundMessage(id))) &&
                unchanged(store) && cache == old(cache)
      ensures id in old(store.books) ==>
                r == Pass && store.books == old(store.books) - {id} &&
                store.order == Without(old(store.order), id) && store.nextId == old(store.nextId) &&
                cache == old(cache) - {BookKey(id), BookListCacheKey}
    {
      if !store.ExistsById(id) {
        return Fail(BookNotFound(NotFoundMessage(id)));
      }
      store.DeleteById(id);
      cache := cache - {BookKey(id), BookListCacheKey};
      r := Pass;
    }

    /** getBookById: a live cached entry is returned as is; on a miss the
        store is read, a missing id raises RuntimeException and leaves the
        cache alone, and a found book is cached for 30 minutes. */
    method GetBookById(id: int, now: int) returns (r: Result<Book, Exception>)
      requires Valid()
      modifies this
      ensures Valid()
      ensures Get(old(cache), BookKey(id), now).Some? ==>
                r == Success(old(cache)[BookKey(id)].value.book) && cache == old(cache)
      ensures Get(old(cache), BookKey(id), now).None? && id !in store.books ==>
                r == Failure(RuntimeError(NotFoundMessage(id))) && cache == old(cache)
      ensures Get(old(cache), BookKey(id), now).None? && id in store.books ==>
                r == Success(store.books[id]) &&
                cache == old(cache)[BookKey(id) := CacheEntry(One(store.books[id]), now + CacheExpireTime)]
    {
      var key := BookKey(id);
      var cached := Get(cache, key, now);
      if cached.Some? {
        return Success(cached.value.book);
      }
      var found := store.FindById(id);
      if found.None? {
        return Failure(RuntimeError(NotFoundMessage(id)));
      }
      PutBookWellTyped(cache, id, found.value, now);
      cache := Put(cache, key, One(found.value), now);
      r := Success(found.value);
    }

    /** getAllBooks: the live cached list, or every stored book, cached
        under the list key for 30 minutes. */
    method GetAllBooks(now: int) returns (books: seq<Book>)
      requires Valid()
      modifies this
      ensures Valid()
      ensures Get(old(cache), BookListCacheKey, now).Some? ==>
                books == old(cache)[BookListCacheKey].value.books && cache == old(cache)
      ensures Get(old(cache), BookListCacheKey, now).None? ==>
                books == store.FindAll() &&
                cache == old(cache)[BookListCacheKey := CacheEntry(Many(books), now + CacheExpireTime)]
    {
      var cached := Get(cache, BookListCacheKey, now);
      if cached.Some? {
        return cached.value.books;
      }
      books := store.FindAll();
      PutListWellTyped(cache, BookListCacheKey, books, now);
      cache := Put(cache, BookListCacheKey, Many(books), now);
    }

    /** getBooksByCategory: the live cached list for the category, or the
        category query's result, cached for 30 minutes. */
    method GetBooksByCategory(category: Option<string>, now: int) returns (books: seq<Book>)
      requires Valid()
      modifies this
      ensures Valid()
      ensures Get(old(cache), CategoryKey(category), now).Some? ==>
                books == old(cache)[CategoryKey(category)].value.books && cache == old(cache)
      ensures Get(old(cache), CategoryKey(category), now).None? ==>
                books == store.FindByCategory(category) &&
                cache == old(cache)[CategoryKey(category) := CacheEntry(Many(books), now + CacheExpireTime)]
    {
      var key := CategoryKey(category);
      var cached := Get(cache, key, now);
      if cached.Some? {
        return cached.value.books;
      }
      books := store.FindByCategory(category);
      PutListWellTyped(cache, key, books, now);
      cache := Put(cache, key, Many(books), now);
    }

    /** getBooksByStatus: the live cached list for the status, or the
        status query's result, cached for 30 minutes. */
    method GetBooksByStatus(status: BookStatus, now: int) returns (books: seq<Book>)
      requires Valid()
      modifies this
      ensures Valid()
      ensures Get(old(cache), StatusKey(status), now).Some? ==>
                books == old(cache)[StatusKey(status)].value.books && cache == old(cache)
      ensures Get(old(cache), StatusKey(status), now).None? ==>
                books == store.FindByStatus(status) &&
                cache == old(cache)[StatusKey(status) := CacheEntry(Many(books), now + CacheExpireTime)]
    {
      var key := StatusKey(status);
      var cached := Get(cache, key, now);
      if cached.Some? {
        return cached.value.books;
      }
      books := store.FindByStatus(status);
      PutListWellTyped(cache, key, books, now);
      cache := Put(cache, key, Many(books), now);
    }

    /** searchBooks(keyword, pageable): one page of the books whose title or
        author contains the keyword, with the count of all of them. The
        cache is not used. */
    function SearchBooksByKeyword(keyword: string, pageable: Pageable): (r: Page)
      reads store
      ensures r.total == |store.Where(TitleOrAuthorContains(keyword))|
      ensures |r.content| <= pageable.pageSize
      ensures forall b :: b in r.content ==>
                (b in store.books.Values &&
                 ((b.title.Some? && LikePattern.Contains(b.title.value, keyword)) ||
                  (b.author.Some? && LikePattern.Contains(b.author.value, keyword))))
      ensures PageOf(r, store.Where(TitleOrAuthorContains(keyword)), pageable)
    {
      var p := store.PagedWhere(TitleOrAuthorContains(keyword), pageable);
      assert forall b :: b in p.content ==> TitleOrAuthorContains(keyword)(b);
      p
    }
  }
}
