# Library catalogue: a Dafny model of the book service

This project models the core of a Spring library-catalogue backend and
proves properties of it in Dafny:

- **the book service** (`BookServiceImpl`). It has two generations of
  operations. The DTO-based ones validate a `BookDTO`, copy it into a
  `Book` and never use the cache. The entity-based ones read through a
  Redis cache and invalidate it on writes.
- **the in-memory store** (`BookDAOImpl`). It covers save (persist or
  merge), find by id, delete by id, the filtering finders and their paged
  variants.
- **the status-validator chain** (`AbstractBookStatusValidator`,
  `AvailabilityValidator`). It is a chain of responsibility that rejects
  lending an already lent book.
- **the search-strategy factory** (`SearchStrategyFactory`) and the title
  and author strategies.
- **the entities' constraints**:
  - `Book` and `BookDTO`: title and author `@NotBlank`/`@Size`, and the
    ISBN `@Pattern`, hand-written as a recognizer.
  - `User`: username, password and name bounds, and the phone pattern
    `^1[3-9]\d{9}$`.
  - The field defaults and the `@PrePersist`/`@PreUpdate` hooks.
- **the collection helpers** `ListUtils` and `MapUtils`.

Modules, one per file:

| file | module | models |
|---|---|---|
| `wrappers.dfy` | `Wrappers`, `Exceptions` | `Option`, `Result`, `Outcome`; the exceptions the core throws |
| `decimal.dfy` | `Decimal` | `Long.toString`, used in cache keys and messages |
| `constraints.dfy` | `Constraints` | `@NotBlank` (trim), `@Size`, `String.valueOf` of a nullable string |
| `isbn.dfy` | `Isbn` | the ISBN pattern of `Book` and `BookDTO` |
| `books.dfy` | `Books` | `BookStatus`, `Book`, `BookDTO`, their defaults, validity and hooks |
| `users.dfy` | `Users` | `UserRole`, `User`, its defaults, validity and hooks |
| `like_pattern.dfy` | `LikePattern` | JPQL `LIKE` with `%` and `_`, and `LOWER` |
| `list_utils.dfy` | `ListUtils` | `ListUtils` |
| `map_utils.dfy` | `MapUtils` | `MapUtils` |
| `book_store.dfy` | `BookStore` | `BookDAOImpl`, as a class over a `map<int, Book>` |
| `status_chain.dfy` | `StatusChain` | the validator chain, as a linked class with a ghost list of rules |
| `search_strategy.dfy` | `SearchStrategies` | the strategies and the factory |
| `cache.dfy` | `BookCache` | the cache keys, entries with deadlines, and `get`/`set`/`delete` |
| `book_service.dfy` | `BookService` | `BookServiceImpl` |

Modelling choices:

- Nullable entity fields, DTO fields and query parameters are `Option`s.
  The service's `Long id` parameters and the keyword of
  `searchBooks(keyword, pageable)` are taken non-null; see "## Left out".
- `Book`, `BookDTO` and `User` are values. A setter or a hook becomes a
  function returning the updated value.
- Prices and dates are integers (a date is a day number). The code only
  compares them.
- The store is a class. It has:
  - a `map<int, Book>` of rows;
  - the insertion order of the ids, which is the order queries return
    rows in;
  - the next generated id.
- The service is a class. It holds the store, the factory, the validator
  chain and the cache, a `map<string, CacheEntry>`. Each entry holds a
  book or a list of books, with its expiry deadline in minutes. The Redis
  clock is a `now` parameter.
- A `HashMap`'s iteration order in `MapUtils` is an explicit parameter,
  any enumeration of the keys.

Points where the code and its documentation differ; the model follows the
code:

- `deleteBook(Long)` is declared twice in `BookServiceImpl.java`, at 93-98
  and at 195-203, so the class does not compile as written.
  - The model keeps the cache-invalidating body.
  - It raises the not-found error the service test expects
    (`BookServiceImplTest.java:181-188`).
- `searchBooks(keyword, pageable)` calls
  `findByTitleContainingOrAuthorContaining`. `BookDAO.java` does not declare
  it. It is modelled as the query Spring Data derives from that name: a
  case-sensitive substring test on title or author.
- `getBooksByStatus(String)` passes a `String` to `findByStatus`, which
  takes a `BookStatus`. The model takes a `BookStatus` and writes its
  enum name into the cache key.
- The cache helper does not swallow Redis failures. The model has no such
  failures.
- `BookDAOImpl` is a concrete class implementing `BookDAO`
  (`BookDAOImpl.java:22`). `BookDAO` extends `JpaRepository` and
  `JpaSpecificationExecutor` (`BookDAO.java:20`), and `BookDAOImpl`
  implements none of their other methods. One of them is
  `findAll(Specification, Pageable)`, which `findBooksByCriteria` calls
  (`BookServiceImpl.java:125`), so the class does not compile as written.
  `FindBooksByCriteria` models what that query means: the paged window of
  the rows the specification admits, through `PagedWhere`.

Observations about the cache, which the model keeps as written:

- `deleteBook` drops only `book:<id>` and `book:list`. A cached
  `book:category:<c>` or `book:status:<s>` list keeps showing the deleted
  book until it expires. `BookCache.InvalidationScope` states that these
  keys are untouched.
- `updateBookStatus` and `updateBook(id, dto)` write through the store and
  never touch the cache (their `modifies` clauses name only the store).
  A cached `book:<id>` keeps the old status or fields for up to 30 minutes.

## Model

| member | source | states |
|---|---|---|
| Decimal.IntToString | src/main/java/com/example/demo/Service/impl/BookServiceImpl.java:208 | the decimal text of an id is non-empty and starts with a digit or '-' |
| Decimal.IntToStringInjective | src/main/java/com/example/demo/Service/impl/BookServiceImpl.java:208 | distinct ids have distinct decimal texts |
| Constraints.TrimStart | src/main/java/com/example/demo/model/Book.java:35 | the leading run of characters <= ' ' is removed, and no such character starts the rest |
| Constraints.TrimEnd | src/main/java/com/example/demo/model/Book.java:35 | the trailing run of characters <= ' ' is removed, and no such character ends the rest |
| Constraints.TrimEmpty | src/main/java/com/example/demo/model/Book.java:35 | trimming gives "" exactly when every character is <= ' ' |
| Constraints.NotBlankIff | src/main/java/com/example/demo/model/Book.java:35 | a present string is not blank exactly when some character is above ' ' |
| Constraints.JavaString | src/main/java/com/example/demo/factory/SearchStrategyFactory.java:32 | string concatenation writes a present string as itself (and null as "null") |
| Isbn.IsbnTextStripped | src/main/java/com/example/demo/model/Book.java:53 | the pattern matches exactly when the text after the optional ISBN / ISBN-10 / ISBN-13 prefix, optional ':' and mandatory space is a valid body |
| Isbn.BodyLength | src/main/java/com/example/demo/model/Book.java:53 | a valid body has 10, 13 or 17 characters |
| Isbn.BodyNotPrefixed | src/main/java/com/example/demo/model/Book.java:53 | a valid body never starts with 'I', so the prefix is stripped unambiguously |
| Isbn.XOnlyLast | src/main/java/com/example/demo/model/Book.java:53 | a body's characters are digits, '-' or ' ', except the last, which is a digit or 'X' |
| Isbn.ThirteenWithoutSeparators | src/main/java/com/example/demo/model/Book.java:53 | a 13-character body without separators starts with 978 or 979 |
| Isbn.ThirteenWithSeparators | src/main/java/com/example/demo/model/Book.java:53 | a 13-character body with separators has at least three digit groups each followed by a separator |
| Isbn.SeventeenForm | src/main/java/com/example/demo/model/Book.java:53 | a 17-character body has at least four such groups and no 'X' |
| Isbn.SeparatedIsbn13Accepted | src/main/java/com/example/demo/model/Book.java:53 | every hyphenated or spaced ISBN-13 (978/979, group of 1-5 digits, registrant, publication, check digit, 13 digits in all) is accepted |
| Isbn.TenCharacterIsbnAccepted | src/main/java/com/example/demo/model/Book.java:53 | every ten-character body of nine digits and a digit or 'X' is accepted |
| Isbn.AcceptsHyphenated13 | src/main/java/com/example/demo/model/Book.java:53 | "978-3-16-148410-0" is accepted |
| Isbn.AcceptsPlain10 | src/test/java/com/example/demo/controller/BookControllerTest.java:62-73 | "1234567890" is accepted |
| Isbn.RejectsLeadingX | src/main/java/com/example/demo/model/Book.java:53 | "X123456789" is rejected: 'X' may come only last |
| Books.StatusName | src/main/java/com/example/demo/Service/impl/BookServiceImpl.java:264 | the enum name of a status is at least four characters long |
| Books.StatusNameInjective | src/main/java/com/example/demo/Service/impl/BookServiceImpl.java:264 | distinct statuses have distinct names |
| Books.NewBook | src/main/java/com/example/demo/model/Book.java:70-111 | a new Book is AVAILABLE with one total and one available copy, and every other field is null |
| Books.NewBookDto | src/main/java/com/example/demo/model/BookDTO.java:28-42 | a new BookDTO has one total and one available copy but, unlike Book, no status |
| Books.TitleValidIff | src/main/java/com/example/demo/model/Book.java:35-36 | a valid title is present, not blank and 1..200 characters long |
| Books.AuthorValidIff | src/main/java/com/example/demo/model/Book.java:44-45 | a valid author is present, not blank and 1..100 characters long |
| Books.DefaultsInvalid | src/main/java/com/example/demo/model/BookDTO.java:15-21 | neither a new Book nor a new BookDTO passes validation, since both lack a title |
| Books.SampleDtoValid | src/test/java/com/example/demo/controller/BookControllerTest.java:62-73 | every DTO titled "Test Book" by "Test Author" with isbn "1234567890" passes validation |
| Books.OnCreate | src/main/java/com/example/demo/model/Book.java:142-146 | both timestamps are set from two clock readings, equal exactly when the readings are; nothing else changes |
| Books.OnUpdate | src/main/java/com/example/demo/model/Book.java:151-154 | only updatedAt changes, to the clock reading |
| Books.CreateThenUpdate | src/main/java/com/example/demo/model/Book.java:142-154 | an update after creation keeps createdAt, which is not later than updatedAt |
| Users.NewUser | src/main/java/com/example/demo/model/User.java:80 | a new User has role READER and no other field set |
| Users.UsernameValidIff | src/main/java/com/example/demo/model/User.java:34-35 | a valid username is not blank and 3..50 characters long |
| Users.PasswordValidIff | src/main/java/com/example/demo/model/User.java:43-44 | a valid password is not blank and at least 6 characters long |
| Users.NameValidIff | src/main/java/com/example/demo/model/User.java:52-53 | a valid name is not blank and at most 50 characters long |
| Users.NewUserInvalid | src/main/java/com/example/demo/model/User.java:34-55 | a new User fails validation |
| Users.PhoneValidAsNumber | src/main/java/com/example/demo/model/User.java:69 | a phone matches ^1[3-9]\d{9}$ exactly when it is 11 ASCII digits whose value lies in [13000000000, 20000000000) |
| Users.DigitsValueAppend | src/main/java/com/example/demo/model/User.java:69 | the value of a digit string is the value of its head shifted by the tail's length plus the value of its tail |
| Users.OnCreate | src/main/java/com/example/demo/model/User.java:97-101 | both timestamps are set from two clock readings, equal exactly when the readings are; nothing else changes |
| Users.OnUpdate | src/main/java/com/example/demo/model/User.java:106-109 | only updatedAt changes |
| LikePattern.LowerString | src/main/java/com/example/demo/mapper/BookDAOImpl.java:74 | LOWER maps each character, folding exactly A-Z |
| LikePattern.LowerKeepsWildcards | src/main/java/com/example/demo/mapper/BookDAOImpl.java:74 | lower-casing a keyword neither adds nor removes '%' or '_' |
| LikePattern.LikeLiteralPrefix | src/main/java/com/example/demo/mapper/BookDAOImpl.java:74 | a pattern that starts with literal text matches exactly when the text starts with it and the rest matches the rest |
| LikePattern.LikeLeadingPercent | src/main/java/com/example/demo/mapper/BookDAOImpl.java:74 | a leading '%' matches exactly when some suffix of the text matches the rest of the pattern |
| LikePattern.SurroundedLikeIsContains | src/main/java/com/example/demo/mapper/BookDAOImpl.java:74 | for a keyword free of '%' and '_', text LIKE '%'+keyword+'%' holds exactly when the keyword occurs in the text |
| LikePattern.UnderscoreMatchesAnyCharacter | src/main/java/com/example/demo/mapper/BookDAOImpl.java:74 | a keyword "_" matches every non-empty field, so the substring reading fails for wildcards |
| ListUtils.IsEmpty | src/main/java/com/example/demo/utils/ListUtils.java:19-21 | true exactly for the empty (or null) list |
| ListUtils.GetFirst | src/main/java/com/example/demo/utils/ListUtils.java:37-39 | null exactly for an empty list, otherwise element 0 |
| ListUtils.GetLast | src/main/java/com/example/demo/utils/ListUtils.java:46-48 | null exactly for an empty list, otherwise element size-1 |
| ListUtils.ToSet | src/main/java/com/example/demo/utils/ListUtils.java:55-57 | the set holds exactly the list's elements |
| ListUtils.ToMap | src/main/java/com/example/demo/utils/ListUtils.java:66-69 | one entry per key that occurs, holding the value of the key's first element |
| ListUtils.GroupByIsFilter | src/main/java/com/example/demo/utils/ListUtils.java:77-80 | each group is the non-empty, order-preserving filter of the list by its class, and every class that occurs has a group |
| ListUtils.Filter | src/main/java/com/example/demo/utils/ListUtils.java:88-92 | the result holds exactly the elements that satisfy the predicate, no more of them than the list |
| ListUtils.FilterAppend | src/main/java/com/example/demo/utils/ListUtils.java:88-92 | filtering distributes over concatenation, so the original order is kept |
| ListUtils.Map | src/main/java/com/example/demo/utils/ListUtils.java:100-104 | same length, the mapper applied position by position |
| ListUtils.Sort | src/main/java/com/example/demo/utils/ListUtils.java:112-119 | the result is sorted by the comparator and a permutation of the input; the input is a value and cannot change |
| ListUtils.InsertLast | src/main/java/com/example/demo/utils/ListUtils.java:117 | one insertion step extends the sorted prefix by one element and keeps the array a permutation |
| ListUtils.SortSeq | src/main/java/com/example/demo/utils/MapUtils.java:149 | the sorted stream is sorted and a permutation of its input |
| ListUtils.InsertKeepsOrder | src/main/java/com/example/demo/utils/MapUtils.java:149 | one insertion step puts the new element ahead of the elements equivalent to it and moves no other element across another |
| ListUtils.SortSeqStable | src/main/java/com/example/demo/utils/MapUtils.java:149 | the sort is stable: for every class of equivalent elements, the elements of the class come out in their input order |
| ListUtils.Max | src/main/java/com/example/demo/utils/ListUtils.java:127-129 | null exactly for an empty list, otherwise an element no element exceeds |
| ListUtils.MinOf | src/main/java/com/example/demo/utils/ListUtils.java:137-139 | null exactly for an empty list, otherwise an element no element undercuts |
| ListUtils.Page | src/main/java/com/example/demo/utils/ListUtils.java:148-158 | empty when (pageNum-1)*pageSize reaches the size, otherwise list[from .. min(from+pageSize, size)], never longer than pageSize |
| ListUtils.FirstPagesArePrefix | src/main/java/com/example/demo/utils/ListUtils.java:152-157 | pages 1..n together are the list's first n*pageSize elements, so successive pages are adjacent and do not overlap |
| ListUtils.PagesCoverList | src/main/java/com/example/demo/utils/ListUtils.java:152-157 | enough pages together are the whole list |
| ListUtils.Distinct | src/main/java/com/example/demo/utils/ListUtils.java:165-169 | the result has no duplicates and the same elements as the list |
| ListUtils.DistinctSnoc | src/main/java/com/example/demo/utils/ListUtils.java:165-169 | appending an element seen before changes nothing, a new one is appended: first occurrences in order |
| ListUtils.Join | src/main/java/com/example/demo/utils/ListUtils.java:177-181 | the elements' texts in list order, joined by JoinStrings (separator between neighbours); "" for an empty list, the one text for a singleton, and the texts' lengths plus one separator per gap |
| ListUtils.JoinAppend | src/main/java/com/example/demo/utils/ListUtils.java:177-181 | joining two non-empty runs puts exactly one separator between their joins |
| MapUtils.IsEmpty | src/main/java/com/example/demo/utils/MapUtils.java:19-21 | true exactly for the empty (or null) map |
| MapUtils.GetFirstKey | src/main/java/com/example/demo/utils/MapUtils.java:37-39 | null exactly for an empty map, otherwise the first key in iteration order |
| MapUtils.GetFirstValue | src/main/java/com/example/demo/utils/MapUtils.java:46-48 | null exactly for an empty map, otherwise the value of the first key |
| MapUtils.GetKeys | src/main/java/com/example/demo/utils/MapUtils.java:55-57 | exactly the keys |
| MapUtils.GetValues | src/main/java/com/example/demo/utils/MapUtils.java:64-66 | one value per entry: element i is the value of the i-th key in iteration order, so the list holds exactly the map's values |
| MapUtils.ToList | src/main/java/com/example/demo/utils/MapUtils.java:74-78 | the mapper applied to each entry, in iteration order |
| MapUtils.KeysToList | src/main/java/com/example/demo/utils/MapUtils.java:86-90 | the mapper applied to each key, in iteration order |
| MapUtils.ValuesToList | src/main/java/com/example/demo/utils/MapUtils.java:98-102 | the mapper applied to each value, in iteration order |
| MapUtils.Filter | src/main/java/com/example/demo/utils/MapUtils.java:110-114 | the submap of exactly the entries the predicate accepts |
| MapUtils.FilterIdempotent | src/main/java/com/example/demo/utils/MapUtils.java:110-114 | filtering twice is filtering once, and the keys only shrink |
| MapUtils.TransformKeys | src/main/java/com/example/demo/utils/MapUtils.java:122-125 | succeeds exactly when no two keys collide under the mapper, mapping g(k) to m[k]; otherwise IllegalStateException |
| MapUtils.CollectKeysCorrect | src/main/java/com/example/demo/utils/MapUtils.java:122-125 | the collector succeeds exactly on an injective renaming and builds the renamed map |
| MapUtils.TransformValues | src/main/java/com/example/demo/utils/MapUtils.java:133-136 | the same keys, each mapped to f(m[k]) |
| MapUtils.TransformCommute | src/main/java/com/example/demo/utils/MapUtils.java:122-136 | for an injective key mapper, transforming values then keys equals transforming keys then values |
| MapUtils.SortByValue | src/main/java/com/example/demo/utils/MapUtils.java:144-152 | exactly the same key-value pairs, ordered by the value comparator |
| MapUtils.SortByValueStable | src/main/java/com/example/demo/utils/MapUtils.java:144-152 | entries with equal values keep their iteration order |
| MapUtils.SortByKey | src/main/java/com/example/demo/utils/MapUtils.java:160-168 | exactly the same key-value pairs, ordered by the key comparator |
| MapUtils.SortByKeyStable | src/main/java/com/example/demo/utils/MapUtils.java:160-168 | entries whose keys compare equal keep their iteration order |
| MapUtils.ToString | src/main/java/com/example/demo/utils/MapUtils.java:177-184 | the key+separator+value pieces of the entries in iteration order, joined by JoinStrings with the entry separator; "" for an empty map, the one piece for a singleton, and the pieces' lengths plus one separator per gap |
| MapUtils.ToProperties | src/main/java/com/example/demo/utils/MapUtils.java:191-197 | a Properties table with exactly the map's entries |
| MapUtils.FromProperties | src/main/java/com/example/demo/utils/MapUtils.java:204-212 | empty for null, otherwise one entry per string property name with its value |
| MapUtils.PropertiesRoundTrip | src/main/java/com/example/demo/utils/MapUtils.java:191-212 | fromProperties(toProperties(m)) == m |
| BookStore.Without | src/main/java/com/example/demo/mapper/BookDAOImpl.java:62-64 | removing an id from the row order keeps every other id and no duplicates |
| BookStore.WithoutAbsent | src/main/java/com/example/demo/mapper/BookDAOImpl.java:62-64 | removing an absent id leaves the order unchanged |
| BookStore.RowsLength | src/main/java/com/example/demo/mapper/BookDAOImpl.java:28-30 | there is one row per stored id |
| BookStore.LikeMatchIsSubstring | src/main/java/com/example/demo/mapper/BookDAOImpl.java:72-85 | for a keyword free of '%' and '_', the title/author filter is a case-insensitive substring test |
| BookStore.BookStore.constructor | src/main/java/com/example/demo/mapper/BookDAOImpl.java:22 | the store starts empty |
| BookStore.BookStore.Save | src/main/java/com/example/demo/mapper/BookDAOImpl.java:52-59 | an id that is stored is merged (the row replaced); a null or unknown id inserts under the next generated id; nothing else changes |
| BookStore.BookStore.DeleteById | src/main/java/com/example/demo/mapper/BookDAOImpl.java:62-64 | the id is removed if present and nothing else changes, so a second delete is a no-op |
| BookStore.BookStore.FindById | src/main/java/com/example/demo/mapper/BookDAOImpl.java:47-49 | the stored book for the id, or empty; a found book carries that id |
| BookStore.BookStore.ExistsById | src/main/java/com/example/demo/mapper/BookDAOImpl.java:67-69 | holds exactly when findById finds a book |
| BookStore.BookStore.FindAll | src/main/java/com/example/demo/mapper/BookDAOImpl.java:28-30 | every row is a stored book |
| BookStore.BookStore.RowsOfValid | src/main/java/com/example/demo/mapper/BookDAOImpl.java:28-30 | the rows are exactly the stored books, one row per book |
| BookStore.BookStore.Where | src/main/java/com/example/demo/mapper/BookDAOImpl.java:72-128 | a query returns exactly the rows its condition accepts |
| BookStore.BookStore.PagedWhere | src/main/java/com/example/demo/mapper/BookDAOImpl.java:131-146 | exactly the matches from the offset to min(offset+pageSize, total) in table order (none past the end), with the count of all matches as total |
| BookStore.BookStore.FindAllPaged | src/main/java/com/example/demo/mapper/BookDAOImpl.java:33-44 | exactly the rows from the offset to min(offset+pageSize, count) in table order (none past the end), with the count of all books as total |
| BookStore.BookStore.FindByTitleContaining | src/main/java/com/example/demo/mapper/BookDAOImpl.java:72-77 | exactly the rows whose title is LIKE '%'+keyword+'%' after LOWER on both sides |
| BookStore.BookStore.FindByAuthorContaining | src/main/java/com/example/demo/mapper/BookDAOImpl.java:80-85 | exactly the rows whose author is LIKE '%'+keyword+'%' after LOWER on both sides |
| BookStore.BookStore.FindByIsbn | src/main/java/com/example/demo/mapper/BookDAOImpl.java:88-94 | empty exactly when no row has that isbn (a null isbn matches none), otherwise a row with that isbn |
| BookStore.BookStore.FindByCategory | src/main/java/com/example/demo/mapper/BookDAOImpl.java:97-102 | exactly the rows of that category; a null category matches none |
| BookStore.BookStore.FindByStatus | src/main/java/com/example/demo/mapper/BookDAOImpl.java:105-110 | exactly the rows with that status |
| BookStore.BookStore.FindByPriceBetween | src/main/java/com/example/demo/mapper/BookDAOImpl.java:113-119 | exactly the rows whose price lies between the bounds, both inclusive; a null bound or price matches none |
| BookStore.BookStore.FindByPublishDateBetween | src/main/java/com/example/demo/mapper/BookDAOImpl.java:122-128 | exactly the rows whose publish date lies between the bounds, both inclusive |
| BookStore.BookStore.FindByTitleContainingPaged | src/main/java/com/example/demo/mapper/BookDAOImpl.java:131-146 | exactly the title matches from the offset to min(offset+pageSize, total) in table order (none past the end), with the count of all of them as total |
| BookStore.BookStore.FindByAuthorContainingPaged | src/main/java/com/example/demo/mapper/BookDAOImpl.java:149-164 | exactly the author matches from the offset to min(offset+pageSize, total) in table order (none past the end), with the count of all of them as total |
| BookStore.BookStore.FindByCategoryPaged | src/main/java/com/example/demo/mapper/BookDAOImpl.java:167-182 | exactly the books of the category from the offset to min(offset+pageSize, total) in table order (none past the end), with the count of all of them as total |
| BookStore.BookStore.FindByStatusPaged | src/main/java/com/example/demo/mapper/BookDAOImpl.java:185-200 | exactly the books with the status from the offset to min(offset+pageSize, total) in table order (none past the end), with the count of all of them as total |
| StatusChain.Check | src/main/java/com/example/demo/chain/AvailabilityValidator.java:22-27 | a link's own check; a link of another kind rejects exactly its forbidden pairs |
| StatusChain.AvailabilityRule | src/main/java/com/example/demo/chain/AvailabilityValidator.java:23-24 | the availability check fails, with "Book is already borrowed", exactly for BORROWED to BORROWED; every other pair passes |
| StatusChain.VerdictPassIff | src/main/java/com/example/demo/chain/AbstractBookStatusValidator.java:31-35 | a chain accepts exactly when every link accepts |
| StatusChain.VerdictFirstRejection | src/main/java/com/example/demo/chain/AbstractBookStatusValidator.java:31-35 | a rejecting chain answers with the error of its first rejecting link, all links before it having passed |
| StatusChain.RejectionIgnoresSuccessors | src/main/java/com/example/demo/chain/AvailabilityValidator.java:23-26 | once a link rejects, its successors make no difference |
| StatusChain.Validator.constructor | src/main/java/com/example/demo/chain/AbstractBookStatusValidator.java:15 | a new link has no successor |
| StatusChain.Validator.SetNext | src/main/java/com/example/demo/chain/AbstractBookStatusValidator.java:22-24 | the successor is replaced and the link's own rule is kept, so the chain becomes this rule followed by the successor's |
| StatusChain.Validator.Validate | src/main/java/com/example/demo/chain/AvailabilityValidator.java:22-27 | the answer is the verdict of the chain's rules on the book's status; the book is not modified |
| StatusChain.Validator.ValidateNext | src/main/java/com/example/demo/chain/AbstractBookStatusValidator.java:31-35 | with no successor it passes; otherwise the answer is the successor chain's verdict on the same book and status |
| SearchStrategies.Search | src/main/java/com/example/demo/strategy/TitleSearchStrategy.java:17-19 | the page window (offset to min(offset+pageSize, total), in table order) of the books whose searched field (title, or author for the author strategy) LIKE-matches the keyword, with the count of all matches |
| SearchStrategies.SearchStrategyFactory.constructor | src/main/java/com/example/demo/factory/SearchStrategyFactory.java:20-22 | the registry is the given map, fixed for the factory's life |
| SearchStrategies.SearchStrategyFactory.GetStrategy | src/main/java/com/example/demo/factory/SearchStrategyFactory.java:29-35 | the strategy under exactly that type; for a type that is null or not a key, IllegalArgumentException "Unsupported search type: "+type |
| SearchStrategies.BeanNamedRegistryRejectsSearchTypes | src/main/java/com/example/demo/factory/SearchStrategyFactory.java:20-32 | with the registry Spring injects (keyed by bean name), "title" and "author" are both rejected |
| SearchStrategies.SearchTypeRegistryAccepts | src/main/java/com/example/demo/factory/SearchStrategyFactory.java:18-30 | with a registry keyed by search type, exactly "title" and "author" are accepted, each giving its own strategy, without trimming or case folding |
| BookCache.BookKey | src/main/java/com/example/demo/Service/impl/BookServiceImpl.java:208 | a book key is "book:" followed by a digit or '-' |
| BookCache.CategoryKey | src/main/java/com/example/demo/Service/impl/BookServiceImpl.java:247 | a category key starts with "book:category:" |
| BookCache.StatusKey | src/main/java/com/example/demo/Service/impl/BookServiceImpl.java:264 | a status key starts with "book:status:" |
| BookCache.BookKeyNamespace | src/main/java/com/example/demo/Service/impl/BookServiceImpl.java:41-42 | a book key is never the list key and never lies in the category or status namespace |
| BookCache.ListNamespaces | src/main/java/com/example/demo/Service/impl/BookServiceImpl.java:42 | category keys, status keys and the list key never coincide |
| BookCache.BookKeyInjective | src/main/java/com/example/demo/Service/impl/BookServiceImpl.java:208 | distinct ids have distinct keys |
| BookCache.StatusKeyInjective | src/main/java/com/example/demo/Service/impl/BookServiceImpl.java:264 | distinct statuses have distinct keys |
| BookCache.CategoryKeyText | src/main/java/com/example/demo/Service/impl/BookServiceImpl.java:247 | category keys are equal exactly when the category texts are, so a null category and the category "null" share one key |
| BookCache.Get | src/main/java/com/example/demo/Service/impl/BookServiceImpl.java:209 | the stored value while the entry's deadline lies ahead, otherwise nothing |
| BookCache.Put | src/main/java/com/example/demo/Service/impl/BookServiceImpl.java:219 | the key holds the value with a deadline 30 minutes ahead; every other key is unchanged |
| BookCache.PutLivesThirtyMinutes | src/main/java/com/example/demo/Service/impl/BookServiceImpl.java:43 | a populated entry is read back for exactly 30 minutes |
| BookCache.InvalidationScope | src/main/java/com/example/demo/Service/impl/BookServiceImpl.java:188-189 | dropping a book key and the list key makes both miss and leaves every other book, category and status entry as it was |
| BookCache.PutBookWellTyped | src/main/java/com/example/demo/Service/impl/BookServiceImpl.java:219 | writing a book under its key keeps every key holding the kind its read site casts to |
| BookCache.PutListWellTyped | src/main/java/com/example/demo/Service/impl/BookServiceImpl.java:235 | writing a list under a list key keeps every key well typed |
| BookCache.DeleteWellTyped | src/main/java/com/example/demo/Service/impl/BookServiceImpl.java:200-201 | deleting keys keeps every key well typed |
| BookService.NotFoundMessage | src/main/java/com/example/demo/Service/impl/BookServiceImpl.java:72 | "Book not found with id: " followed by the id |
| BookService.NotFoundMessageInjective | src/main/java/com/example/demo/Service/impl/BookServiceImpl.java:72 | the message determines the id |
| BookService.CopyFromDto | src/main/java/com/example/demo/Service/impl/BookServiceImpl.java:156-168 | exactly the 11 DTO fields are copied, a null status included; id, record lists and timestamps are kept |
| BookService.CopyValidIffDtoValid | src/main/java/com/example/demo/Service/impl/BookServiceImpl.java:156-168 | a book filled from a DTO is valid exactly when the DTO is |
| BookService.CopyOverwrites | src/main/java/com/example/demo/Service/impl/BookServiceImpl.java:156-168 | copying two DTOs in turn equals copying the second |
| BookService.Restrictions | src/main/java/com/example/demo/Service/impl/BookServiceImpl.java:126-145 | at most six predicates, one per non-null parameter |
| BookService.RestrictionsMeanAdmits | src/main/java/com/example/demo/Service/impl/BookServiceImpl.java:125-147 | the conjunction of the predicates holds exactly when every non-null filter holds: equal category and status, minPrice <= price <= maxPrice and startDate <= publishDate <= endDate, each bound on its own |
| BookService.NoCriteriaAdmitEverything | src/main/java/com/example/demo/Service/impl/BookServiceImpl.java:125-147 | with every parameter null there is no predicate and every book is admitted |
| BookService.BookServiceImpl.constructor | src/main/java/com/example/demo/Service/impl/BookServiceImpl.java:51-61 | the service holds the given collaborators and an empty cache |
| BookService.BookServiceImpl.FindAllBooks | src/main/java/com/example/demo/Service/impl/BookServiceImpl.java:64-67 | the page window (offset to min(offset+pageSize, count), in table order) of all stored books, with the count of all books |
| BookService.BookServiceImpl.FindBookById | src/main/java/com/example/demo/Service/impl/BookServiceImpl.java:69-73 | the stored book, or BookNotFoundException "Book not found with id: "+id exactly when the id is absent |
| BookService.BookServiceImpl.CreateBook | src/main/java/com/example/demo/Service/impl/BookServiceImpl.java:75-81 | an invalid DTO is refused with nothing changed; otherwise a new Book filled from the DTO is inserted under a fresh id and returned |
| BookService.BookServiceImpl.UpdateBookFromDto | src/main/java/com/example/demo/Service/impl/BookServiceImpl.java:83-89 | an invalid DTO is refused and a missing id raises BookNotFoundException, both with nothing changed; otherwise the stored book gets the DTO's fields and only that row changes |
| BookService.BookServiceImpl.SearchBooks | src/main/java/com/example/demo/Service/impl/BookServiceImpl.java:100-104 | the factory's error for an unknown type; otherwise the page window of the strategy's matches, in table order, with the count of all matches |
| BookService.BookServiceImpl.SearchByType | src/main/java/com/example/demo/Service/impl/BookServiceImpl.java:100-104 | with a registry keyed by search type, "title" runs the paged title query and "author" the paged author query |
| BookService.BookServiceImpl.UpdateBookStatus | src/main/java/com/example/demo/Service/impl/BookServiceImpl.java:106-113 | a missing id raises BookNotFoundException; the validator runs first, so a rejected change leaves the store unchanged; otherwise only the book's status becomes newStatus |
| BookService.BookServiceImpl.FindBooksByCriteria | src/main/java/com/example/demo/Service/impl/BookServiceImpl.java:115-149 | the page window (offset to min(offset+pageSize, total), in table order) of the books the criteria admit, each admitted by every non-null filter, with the count of all admitted books |
| BookService.BookServiceImpl.AddBook | src/main/java/com/example/demo/Service/impl/BookServiceImpl.java:170-177 | the book is saved (merged or inserted) and exactly the list entry is dropped |
| BookService.BookServiceImpl.UpdateBook | src/main/java/com/example/demo/Service/impl/BookServiceImpl.java:179-191 | a missing id fails with store and cache unchanged; otherwise the book, with the id forced onto it, replaces the row and exactly the book's entry and the list entry are dropped |
| BookService.BookServiceImpl.DeleteBook | src/main/java/com/example/demo/Service/impl/BookServiceImpl.java:193-203 | a missing id fails with store and cache unchanged; otherwise the row is removed and exactly the book's entry and the list entry are dropped |
| BookService.BookServiceImpl.GetBookById | src/main/java/com/example/demo/Service/impl/BookServiceImpl.java:205-221 | a live entry is returned with the cache unchanged; on a miss a missing id fails with the cache unchanged, a present one is returned and cached under "book:"+id for 30 minutes |
| BookService.BookServiceImpl.GetAllBooks | src/main/java/com/example/demo/Service/impl/BookServiceImpl.java:223-237 | the live cached list, or every stored book, then cached under "book:list" for 30 minutes |
| BookService.BookServiceImpl.GetBooksByCategory | src/main/java/com/example/demo/Service/impl/BookServiceImpl.java:245-260 | the live cached list, or the category query's result, then cached under the category key for 30 minutes |
| BookService.BookServiceImpl.GetBooksByStatus | src/main/java/com/example/demo/Service/impl/BookServiceImpl.java:262-277 | the live cached list, or the status query's result, then cached under the status key for 30 minutes |
| BookService.BookServiceImpl.SearchBooksByKeyword | src/main/java/com/example/demo/Service/impl/BookServiceImpl.java:239-243 | the page window (offset to min(offset+pageSize, total), in table order) of the stored books whose title or author contains the keyword, with the count of all of them; the cache is not used |

## Findings

| source | as written | input that shows it | evidently intended | confidence | as-written member | corrected member |
|---|---|---|---|---|---|---|
| src/main/java/com/example/demo/factory/SearchStrategyFactory.java:20-32 | Spring injects `Map<String, SearchStrategy>` keyed by bean name ("titleSearchStrategy", "authorSearchStrategy"), and `getStrategy` looks the search type up in it | `searchBooks(keyword, "title", pageable)` fails with "Unsupported search type: title" | the map is keyed by search type ("title", "author"), as the constructor's documentation says | not executed | SearchStrategies.BeanNamedRegistryRejectsSearchTypes | SearchStrategies.SearchTypeRegistryAccepts |

## Left out

- I/O and clocks:
  - The database and Redis become the store class and the cache map.
  - The clock is a parameter: `now` for the cache, and the readings passed to the hooks.
- Transactions and concurrency: `@Transactional`, `@Valid` through AOP, races between the database and Redis, and real-time expiry are not modelled.
- Hooks: the store's `Save` does not fire `@PrePersist`/`@PreUpdate`; the hooks are modelled on their own.
- Entity validation: Hibernate's check when a `Book` is persisted is not modelled; only the DTO validation in front of the DTO operations is.
- Aliasing: entities are values. The in-place setter on a book that `findById` returned, and the caller seeing its own `Book` object get an id, are not modelled.
- Precision: `Double` prices are integers. `LocalDate` and `LocalDateTime` are integers.
- Strings: lengths are counted in characters, not UTF-16 code units. `LOWER` folds only ASCII A-Z.
- Database column lengths and uniqueness (`@Column(unique = true, length = …)`) are not modelled.
- BookService.BookServiceImpl.CreateBook: the `nullable = false` status column is not modelled. A `BookDTO` has no status default and the copy keeps its null status, so a book with a null status is stored and success comes back. The database refuses that row on insert.
- BookService.BookServiceImpl.UpdateBookFromDto: the same gap on update. A DTO without a status overwrites the stored status with null and the update succeeds, where the database refuses the row.
- Email: `User.email`'s `@Email` rule is not modelled.
- The offset: the paged queries' `(int)` cast of the offset is not modelled; an offset is a `nat`.
- The registry: a key mapped to a null strategy is not modelled; the map holds only strategies.
- deleteBook (the first declaration, `BookServiceImpl.java:93-98`): not modelled separately. Its behaviour is the invalidating one's without the cache, and both declarations cannot coexist.
- StatusChain.Validator.SetNext: requires that the successor's chain does not lead back to the link. A cyclic chain recurses forever in the source.
- StatusChain.Validator.Validate: takes a non-null new status. The null case cannot fail the availability check and is not modelled.
- Other validators: the model has one more rule kind, a fixed set of forbidden pairs. It stands for any other subclass; no such subclass is in the source.
- BookService.BookServiceImpl.UpdateBookStatus: writes the new status through `Save` with the book's id. A stored book always carries its id, so this is a merge.
- BookService.BookServiceImpl.GetBooksByStatus: takes a `BookStatus` where the source passes a `String` through to a query that takes a `BookStatus`.
- BookService.BookServiceImpl.GetBookById: on a hit the model returns the stored `Book` as it was put; the same holds for BookService.BookServiceImpl.GetAllBooks, BookService.BookServiceImpl.GetBooksByCategory and BookService.BookServiceImpl.GetBooksByStatus with their lists. The model assumes cached values come back with their types. The configured value serializer, `Jackson2JsonRedisSerializer<>(Object.class)` (`RedisConfig.java:22`), records no type information. In the source a hit deserializes to a `LinkedHashMap` (a `List` of them for the lists), so the `(Book)` cast at `BookServiceImpl.java:211` throws ClassCastException. The list casts are unchecked, so the failure surfaces later, where an element is used as a `Book`.
- BookService.BookServiceImpl.FindBookById: takes the id non-null (an `int`), and so do BookService.BookServiceImpl.UpdateBookFromDto, UpdateBookStatus, UpdateBook, DeleteBook and GetBookById. In the source a null id reaches `entityManager.find(Book.class, null)` (`BookDAOImpl.java:48`), which throws IllegalArgumentException, and `getBookById(null)` first reads the key "book:null". The controller's path variables are never null.
- BookService.BookServiceImpl.SearchBooksByKeyword: takes the keyword non-null (a `string`); a null keyword is not modelled.
- Redis operations other than get, set with a time-to-live, and delete are not modelled; the service uses no others.
- ListUtils.Page: the model takes a page number of at least 1 and a non-negative page size, and its arithmetic is unbounded. The source's 32-bit `int` products can wrap, and a page number below 1 or a negative size makes `subList` throw IndexOutOfBoundsException unless the window is empty. Neither is modelled.
- ListUtils.ToMap: Java's `Collectors.toMap` throws NullPointerException when the value mapper gives null. The model has no null among generic values, so it builds the map.
- ListUtils.GroupByIsFilter: `Collectors.groupingBy` throws NullPointerException when the classifier gives null. The model has no null key, so it builds the group.
- MapUtils.Filter: `Collectors.toMap` throws NullPointerException on an entry whose value is null. The model keeps that entry.
- MapUtils.TransformKeys: the same NullPointerException on a null value is not modelled. The duplicate-key IllegalStateException is modelled.
- MapUtils.TransformValues: the NullPointerException when the value mapper gives null is not modelled.
- MapUtils.SortByKey: the NullPointerException of `Collectors.toMap` on a null value is not modelled. A comparator that is not a total preorder is not modelled either; the model requires one.
- MapUtils.SortByValue: the same two gaps as MapUtils.SortByKey.
- MapUtils.ToProperties: `Hashtable.put` throws NullPointerException on a null key or a null value. The model's keys and values are never null.
- MapUtils.FromProperties: a `Properties` object with a defaults chain is not modelled. `stringPropertyNames` and `getProperty` also read the defaults; the model's table has none.
- LikePattern.Like: the JPQL `ESCAPE` clause is not modelled. The queries use none, so `%` and `_` in a keyword are always wildcards.
- The HTTP layer, exception-to-status mapping, `DateUtils`, `BorrowRecord` and `Reservation` are not part of this model.
