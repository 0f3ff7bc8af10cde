/** The book table behind BookDAOImpl: an id-keyed map of rows, the order
    in which the table returns them, and the IDENTITY counter that hands
    out new ids. `save` and `deleteById` change the table; every finder is
    a function of it. */
module BookStore {
  import opened Wrappers
  import opened Books
  import opened Constraints
  import ListUtils
  import LikePattern

  /** PageRequest.of(pageNumber, pageSize), page numbers counted from 0. */
  datatype Pageable = Pageable(pageNumber: nat, pageSize: nat)
  {
    function Offset(): nat {
      pageNumber * pageSize
    }
  }

  /** PageImpl: the rows of one page and the number of rows over all pages. */
  datatype Page = Page(content: seq<Book>, total: nat)

  /** `r` is the page `pageable` selects from the rows `all`: the rows from
      the page's offset on, at most a page of them, none when the offset is
      past the end, and the count of all rows. */
  ghost predicate PageOf(r: Page, all: seq<Book>, pageable: Pageable) {
    && r.total == |all|
    && (pageable.Offset() < |all| ==>
          r.content == all[pageable.Offset() .. ListUtils.Min(pageable.Offset() + pageable.pageSize, |all|)])
    && (pageable.Offset() >= |all| ==> r.content == [])
  }

  /** `order` without `id`. */
  function Without(order: seq<int>, id: int): (r: seq<int>)
    ensures forall x :: x in r <==> x in order && x != id
    ensures ListUtils.NoDuplicates(order) ==> ListUtils.NoDuplicates(r)
  {
    if |order| == 0 then []
    else if order[0] == id then Without(order[1..], id)
    else
      var rest := Without(order[1..], id);
      if ListUtils.NoDuplicates(order) then
        assert order[0] !in order[1..];
        assert ListUtils.NoDuplicates([order[0]] + rest);
        [order[0]] + rest
      else
        [order[0]] + rest
  }

  /** The stored rows, in table order. */
  function Rows(books: map<int, Book>, order: seq<int>): (r: seq<Book>)
    ensures |r| <= |order|
    ensures forall b :: b in r <==> exists i :: 0 <= i < |order| && order[i] in books && books[order[i]] == b
  {
    if |order| == 0 then []
    else
      var rest := Rows(books, order[1..]);
      assert forall i :: 0 <= i < |order| - 1 ==> order[1..][i] == order[i + 1];
      if order[0] in books then [books[order[0]]] + rest else rest
  }

  lemma {:induction false} RowsLength(books: map<int, Book>, order: seq<int>)
    requires forall i :: 0 <= i < |order| ==> order[i] in books
    ensures |Rows(books, order)| == |order|
  {
    if |order| > 0 {
      RowsLength(books, order[1..]);
    }
  }

  /** `LOWER(field) LIKE LOWER('%' + keyword + '%')`: a null field never
      matches, and a null keyword is concatenated as the text "null". */
  predicate LikeMatch(field: Option<string>, keyword: Option<string>) {
    field.Some? &&
    LikePattern.Like(LikePattern.LowerString(field.value),
                     LikePattern.LowerString("%" + JavaString(keyword) + "%"))
  }

  /** For a keyword without `%` or `_`, the LIKE query is a
      case-insensitive substring test. */
  lemma LikeMatchIsSubstring(field: string, keyword: string)
    requires LikePattern.NoWildcards(keyword)
    ensures LikeMatch(Some(field), Some(keyword)) <==>
            LikePattern.Contains(LikePattern.LowerString(field), LikePattern.LowerString(keyword))
  {
    var k := LikePattern.LowerString(keyword);
    LikePattern.LowerAppend("%" + keyword, "%");
    LikePattern.LowerAppend("%", keyword);
    assert LikePattern.LowerString("%") == "%";
    LikePattern.LowerKeepsWildcards(keyword);
    LikePattern.SurroundedLikeIsContains(LikePattern.LowerString(field), k);
  }

  function TitleLike(keyword: Option<string>): Book -> bool {
    (b: Book) => LikeMatch(b.title, keyword)
  }

  function AuthorLike(keyword: Option<string>): Book -> bool {
    (b: Book) => LikeMatch(b.author, keyword)
  }

  /** `b.isbn = :isbn`: SQL equality, which no NULL satisfies. */
  function IsbnIs(isbn: Option<string>): Book -> bool {
    (b: Book) => isbn.Some? && b.isbn == isbn
  }

  function CategoryIs(category: Option<string>): Book -> bool {
    (b: Book) => category.Some? && b.category == category
  }

  function StatusIs(status: BookStatus): Book -> bool {
    (b: Book) => b.status == Some(status)
  }

  /** `x BETWEEN lo AND hi`, inclusive at both ends; NULL anywhere fails. */
  predicate Between(x: Option<int>, lo: Option<int>, hi: Option<int>) {
    x.Some? && lo.Some? && hi.Some? && lo.value <= x.value <= hi.value
  }

  function PriceBetween(lo: Option<int>, hi: Option<int>): Book -> bool {
    (b: Book) => Between(b.price, lo, hi)
  }

  function PublishDateBetween(lo: Option<int>, hi: Option<int>): Book -> bool {
    (b: Book) => Between(b.publishDate, lo, hi)
  }

  class BookStore {
    var books: map<int, Book>
    var order: seq<int>
    var nextId: int

    /** Every row carries its own key, keys come from the counter, and
        `order` lists each key once. */
    ghost predicate Valid()
      reads this
    {
      nextId >= 1 &&
      (forall id :: id in books ==> id < nextId && books[id].id == Some(id)) &&
      ListUtils.NoDuplicates(order) &&
      (forall id :: id in order <==> id in books)
    }

    constructor()
      ensures Valid() && books == map[] && order == []
    {
      books := map[];
      order := [];
      nextId := 1;
    }

    /** save: a book whose id is stored is merged over that row; any other
        book (a null id, or an id the table does not hold) is inserted
        under the next generated id, which is written into it. */
    method Save(book: Book) returns (saved: Book)
      requires Valid()
      modifies this
      ensures Valid()
      ensures book.id.Some? && book.id.value in old(books) ==>
                saved == book && books == old(books)[book.id.value := book] &&
                order == old(order) && nextId == old(nextId)
      ensures !(book.id.Some? && book.id.value in old(books)) ==>
                saved == book.(id := Some(old(nextId))) && old(nextId) !in old(books) &&
                books == old(books)[old(nextId) := saved] &&
                order == old(order) + [old(nextId)] && nextId == old(nextId) + 1
    {
      if book.id.Some? && book.id.value in books {
        saved := book;
        books := books[book.id.value := book];
      } else {
        saved := book.(id := Some(nextId));
        books := books[nextId := saved];
        order := order + [nextId];
        nextId := nextId + 1;
      }
    }

    /** deleteById: removes the row if there is one and otherwise does
        nothing, so deleting twice is deleting once. */
    method DeleteById(id: int)
      requires Valid()
      modifies this
      ensures Valid()
      ensures books == old(books) - {id}
      ensures order == Without(old(order), id) && nextId == old(nextId)
    {
      if id in books {
        books := books - {id};
        order := Without(order, id);
      } else {
        assert Without(order, id) == order by {
          WithoutAbsent(order, id);
        }
      }
    }

    function FindById(id: int): (r: Option<Book>)
      reads this
      ensures r.Some? <==> id in books
      ensures r.Some? ==> r.value == books[id]
      ensures Valid() && r.Some? ==> r.value.id == Some(id)
    {
      if id in books then Some(books[id]) else None
    }

    /** existsById is defined through findById. */
    function ExistsById(id: int): (r: bool)
      reads this
      ensures r <==> FindById(id).Some?
      ensures r <==> id in books
    {
      FindById(id).Some?
    }

    /** findAll(): the stored books in table order (in a valid table each
        stored book exactly once, see RowsOfValid). */
    function FindAll(): (r: seq<Book>)
      reads this
      ensures forall b :: b in r ==> b in books.Values
      ensures |r| <= |order|
    {
      Rows(books, order)
    }

    /** The rows that satisfy `keep`, in table order. */
    function Where(keep: Book -> bool): (r: seq<Book>)
      reads this
      ensures forall b :: b in r <==> b in Rows(books, order) && keep(b)
      ensures |r| <= |Rows(books, order)|
    {
      ListUtils.Filter(Rows(books, order), keep)
    }

    /** A paged query: the window at the page's offset, at most a page
        long, and the number of all matching rows. */
    function PagedWhere(keep: Book -> bool, pageable: Pageable): (r: Page)
      reads this
      ensures r.total == |Where(keep)|
      ensures |r.content| <= pageable.pageSize
      ensures forall b :: b in r.content ==> b in Where(keep)
      ensures pageable.Offset() < r.total ==>
                r.content == Where(keep)[pageable.Offset() .. ListUtils.Min(pageable.Offset() + pageable.pageSize, r.total)]
      ensures pageable.Offset() >= r.total ==> r.content == []
      ensures PageOf(r, Where(keep), pageable)
    {
      var all := Where(keep);
      Page(ListUtils.Window(all, pageable.Offset(), pageable.pageSize), |all|)
    }

    /** findAll(pageable): one page of all rows; the total is the row count. */
    function FindAllPaged(pageable: Pageable): (r: Page)
      reads this
      ensures r.total == |FindAll()|
      ensures |r.content| <= pageable.pageSize
      ensures forall b :: b in r.content ==> b in books.Values
      ensures PageOf(r, FindAll(), pageable)
    {
      var all := FindAll();
      Page(ListUtils.Window(all, pageable.Offset(), pageable.pageSize), |all|)
    }

    function FindByTitleContaining(keyword: Option<string>): (r: seq<Book>)
      reads this
      ensures forall b :: b in r <==> b in Rows(books, order) && LikeMatch(b.title, keyword)
    {
      Where(TitleLike(keyword))
    }

    function FindByAuthorContaining(keyword: Option<string>): (r: seq<Book>)
      reads this
      ensures forall b :: b in r <==> b in Rows(books, order) && LikeMatch(b.author, keyword)
    {
      Where(AuthorLike(keyword))
    }

    /** findByIsbn: the first row with that ISBN, or empty. */
    function FindByIsbn(isbn: Option<string>): (r: Option<Book>)
      reads this
      ensures r.None? <==> forall b :: b in Rows(books, order) ==> !(isbn.Some? && b.isbn == isbn)
      ensures r.Some? ==> r.value in Rows(books, order) && r.value.isbn == isbn && isbn.Some?
    {
      var all := Where(IsbnIs(isbn));
      var r := ListUtils.GetFirst(all);
      assert r.Some? ==> r.value in all;
      r
    }

    function FindByCategory(category: Option<string>): (r: seq<Book>)
      reads this
      ensures forall b :: b in r <==> b in Rows(books, order) && category.Some? && b.category == category
    {
      Where(CategoryIs(category))
    }

    function FindByStatus(status: BookStatus): (r: seq<Book>)
      reads this
      ensures forall b :: b in r <==> b in Rows(books, order) && b.status == Some(status)
    {
      Where(StatusIs(status))
    }

    function FindByPriceBetween(minPrice: Option<int>, maxPrice: Option<int>): (r: seq<Book>)
      reads this
      ensures forall b :: b in r <==> (b in Rows(books, order) &&
        minPrice.Some? && maxPrice.Some? && b.price.Some? &&
        minPrice.value <= b.price.value <= maxPrice.value)
    {
      Where(PriceBetween(minPrice, maxPrice))
    }

    function FindByPublishDateBetween(startDate: Option<int>, endDate: Option<int>): (r: seq<Book>)
      reads this
      ensures forall b :: b in r <==> (b in Rows(books, order) &&
        startDate.Some? && endDate.Some? && b.publishDate.Some? &&
        startDate.value <= b.publishDate.value <= endDate.value)
    {
      Where(PublishDateBetween(startDate, endDate))
    }

    function FindByTitleContainingPaged(keyword: Option<string>, pageable: Pageable): (r: Page)
      reads this
      ensures r.total == |FindByTitleContaining(keyword)|
      ensures |r.content| <= pageable.pageSize
      ensures forall b :: b in r.content ==> b in Rows(books, order) && LikeMatch(b.title, keyword)
      ensures PageOf(r, FindByTitleContaining(keyword), pageable)
    {
      PagedWhere(TitleLike(keyword), pageable)
    }

    function FindByAuthorContainingPaged(keyword: Option<string>, pageable: Pageable): (r: Page)
      reads this
      ensures r.total == |FindByAuthorContaining(keyword)|
      ensures |r.content| <= pageable.pageSize
      ensures forall b :: b in r.content ==> b in Rows(books, order) && LikeMatch(b.author, keyword)
      ensures PageOf(r, FindByAuthorContaining(keyword), pageable)
    {
      PagedWhere(AuthorLike(keyword), pageable)
    }

    function FindByCategoryPaged(category: Option<string>, pageable: Pageable): (r: Page)
      reads this
      ensures r.total == |FindByCategory(category)|
      ensures |r.content| <= pageable.pageSize
      ensures forall b :: b in r.content ==> b in Rows(books, order) && b.category == category
      ensures PageOf(r, FindByCategory(category), pageable)
    {
      PagedWhere(CategoryIs(category), pageable)
    }

    function FindByStatusPaged(status: BookStatus, pageable: Pageable): (r: Page)
      reads this
      ensures r.total == |FindByStatus(status)|
      ensures |r.content| <= pageable.pageSize
      ensures forall b :: b in r.content ==> b in Rows(books, order) && b.status == Some(status)
      ensures PageOf(r, FindByStatus(status), pageable)
    {
      PagedWhere(StatusIs(status), pageable)
    }

    /** In a valid table the rows are exactly the stored books, one each. */
    lemma RowsOfValid()
      requires Valid()
      ensures forall b :: b in Rows(books, order) <==> b in books.Values
      ensures |Rows(books, order)| == |books|
    {
      assert forall id :: id in order <==> id in books;
      assert forall i :: 0 <= i < |order| ==> order[i] in order;
      assert forall i :: 0 <= i < |order| ==> order[i] in books;
      RowsLength(books, order);
      ListUtils.NoDuplicatesCard(order);
      assert forall x :: x in ListUtils.ToSet(order) <==> x in books.Keys;
      assert ListUtils.ToSet(order) == books.Keys;
      forall id | id in books ensures books[id] in Rows(books, order) {
        assert id in order;
        var i :| 0 <= i < |order| && order[i] == id;
      }
    }
  }

  lemma {:induction false} WithoutAbsent(order: seq<int>, id: int)
    requires id !in order
    ensures Without(order, id) == order
  {
    if |order| > 0 {
      WithoutAbsent(order[1..], id);
      assert order == [order[0]] + order[1..];
    }
  }
}
