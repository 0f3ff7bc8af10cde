/** The Book entity, the BookDTO request body, their field defaults, their
    validation constraints and the entity's timestamp hooks. Dates
    (LocalDate) are day numbers and prices are integers: the code only
    compares them. */
module Books {
  import opened Wrappers
  import opened Constraints
  import Isbn

  datatype BookStatus = Available | Borrowed | Reserved | Maintenance | Lost

  /** The enum constant's name, as `name()` and string concatenation write it. */
  function StatusName(s: BookStatus): (name: string)
    ensures |name| >= 4
  {
    match s
    case Available => "AVAILABLE"
    case Borrowed => "BORROWED"
    case Reserved => "RESERVED"
    case Maintenance => "MAINTENANCE"
    case Lost => "LOST"
  }

  /** Different statuses have different names. */
  lemma StatusNameInjective(a: BookStatus, b: BookStatus)
    requires StatusName(a) == StatusName(b)
    ensures a == b
  {
    assert StatusName(a)[0] == StatusName(b)[0] && StatusName(a)[1] == StatusName(b)[1];
  }

  /** Every nullable column is an Option; the two associations hold the ids
      of the borrow records and reservations that point at the book. */
  datatype Book = Book(
    id: Option<int>,
    title: Option<string>,
    author: Option<string>,
    isbn: Option<string>,
    publishDate: Option<int>,
    status: Option<BookStatus>,
    category: Option<string>,
    description: Option<string>,
    price: Option<int>,
    location: Option<string>,
    totalCopies: Option<int>,
    availableCopies: Option<int>,
    borrowRecords: Option<seq<int>>,
    reservations: Option<seq<int>>,
    createdAt: Option<int>,
    updatedAt: Option<int>)

  datatype BookDto = BookDto(
    title: Option<string>,
    author: Option<string>,
    isbn: Option<string>,
    publishDate: Option<int>,
    status: Option<BookStatus>,
    category: Option<string>,
    description: Option<string>,
    price: Option<int>,
    location: Option<string>,
    totalCopies: Option<int>,
    availableCopies: Option<int>)

  /** `new Book()`: every field null except the three with initialisers. */
  function NewBook(): (b: Book)
    ensures b.status == Some(Available)
    ensures b.totalCopies == Some(1) && b.availableCopies == Some(1)
    ensures b.id.None? && b.title.None? && b.author.None? && b.isbn.None?
    ensures b.publishDate.None? && b.category.None? && b.description.None?
    ensures b.price.None? && b.location.None?
    ensures b.borrowRecords.None? && b.reservations.None?
    ensures b.createdAt.None? && b.updatedAt.None?
  {
    Book(None, None, None, None, None, Some(Available), None, None, None, None,
         Some(1), Some(1), None, None, None, None)
  }

  /** `new BookDTO()`: the copy counts default to 1 but, unlike Book, the
      status has no default. */
  function NewBookDto(): (d: BookDto)
    ensures d.status.None? && NewBook().status.Some?
    ensures d.totalCopies == Some(1) && d.availableCopies == Some(1)
    ensures d.title.None? && d.author.None? && d.isbn.None?
  {
    BookDto(None, None, None, None, None, None, None, None, None, Some(1), Some(1))
  }

  /** @NotBlank @Size(min = 1, max = 200) on the title. */
  predicate TitleValid(title: Option<string>) {
    NotBlank(title) && SizeWithin(title, 1, 200)
  }

  /** @NotBlank @Size(min = 1, max = 100) on the author. */
  predicate AuthorValid(author: Option<string>) {
    NotBlank(author) && SizeWithin(author, 1, 100)
  }

  /** A title is valid exactly when it is present, 1 to 200 characters long
      and holds a character above U+0020. */
  lemma TitleValidIff(title: Option<string>)
    ensures TitleValid(title) <==>
      title.Some? && 1 <= |title.value| <= 200 &&
      exists i :: 0 <= i < |title.value| && !IsWhitespace(title.value[i])
  {
    if title.Some? {
      NotBlankIff(title.value);
    }
  }

  /** An author is valid exactly when it is present, 1 to 100 characters
      long and holds a character above U+0020. */
  lemma AuthorValidIff(author: Option<string>)
    ensures AuthorValid(author) <==>
      author.Some? && 1 <= |author.value| <= 100 &&
      exists i :: 0 <= i < |author.value| && !IsWhitespace(author.value[i])
  {
    if author.Some? {
      NotBlankIff(author.value);
    }
  }

  /** The constraints Bean Validation checks on a Book. */
  predicate BookValid(b: Book) {
    TitleValid(b.title) && AuthorValid(b.author) && Isbn.IsbnValid(b.isbn)
  }

  /** The constraints on a BookDTO: the same annotations, with the same
      ISBN pattern, on the same three fields. */
  predicate DtoValid(d: BookDto) {
    TitleValid(d.title) && AuthorValid(d.author) && Isbn.IsbnValid(d.isbn)
  }

  /** A fresh book or DTO fails validation until title and author are set. */
  lemma DefaultsInvalid()
    ensures !BookValid(NewBook()) && !DtoValid(NewBookDto())
  {
  }

  /** The request body the controller tests post ("Test Book", "Test
      Author", "1234567890") passes validation. */
  lemma SampleDtoValid(d: BookDto)
    requires d.title == Some("Test Book") && d.author == Some("Test Author")
    requires d.isbn == Some("1234567890")
    ensures DtoValid(d)
  {
    TitleValidIff(d.title);
    AuthorValidIff(d.author);
    assert !IsWhitespace(d.title.value[0]) && !IsWhitespace(d.author.value[0]);
    Isbn.AcceptsPlain10(d.isbn.value);
  }

  /** @PrePersist: both timestamps set from two separate readings of the
      clock; nothing else changes. */
  function OnCreate(b: Book, firstReading: int, secondReading: int): (r: Book)
    ensures r.createdAt == Some(firstReading) && r.updatedAt == Some(secondReading)
    ensures r.(createdAt := b.createdAt, updatedAt := b.updatedAt) == b
    ensures r.createdAt == r.updatedAt <==> firstReading == secondReading
  {
    b.(createdAt := Some(firstReading), updatedAt := Some(secondReading))
  }

  /** @PreUpdate: only the update timestamp moves. */
  function OnUpdate(b: Book, now: int): (r: Book)
    ensures r.updatedAt == Some(now)
    ensures r.(updatedAt := b.updatedAt) == b
  {
    b.(updatedAt := Some(now))
  }

  /** Persisting and then updating keeps the creation day and, on a clock
      that does not run backwards, leaves it no later than the update day. */
  lemma CreateThenUpdate(b: Book, first: int, second: int, later: int)
    requires first <= second <= later
    ensures OnUpdate(OnCreate(b, first, second), later).createdAt == Some(first)
    ensures OnUpdate(OnCreate(b, first, second), later).createdAt.value <=
            OnUpdate(OnCreate(b, first, second), later).updatedAt.value
  {
  }
}
