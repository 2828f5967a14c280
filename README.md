# wolox-training core in Dafny

A model of the core of the wolox-training book-lending REST service, with proofs about it. The
model covers the following parts:

- **The User entity.** Its setters refuse bad values for the username, the name and the
  birthdate. Its owned-book list detects duplicates and absent books.
- **The Book entity.** Its ten fields, its setters, its `equals` and `hashCode`, and the
  `@NotNull`/`unique` constraints that decide which rows the store accepts.
- **The mapping of catalogue metadata onto a Book** (`BookDTO.toBook`).
- **The two hand-written queries** over the book and user tables, with an SQL `LIKE` matcher.
- **The two controllers.** They orchestrate checks and saves over the tables.
- **The controller advice.** It turns exceptions into HTTP 404/400 responses, with the 400 its
  inherited framework handler gives an invalid request body.

How Java constructs are represented:

- A Java `null` is `None`.
- A thrown exception is a `Failure`/`Fail` carrying an `ErrorKind`, whose constructors name the
  Java exception classes.
- Equality of `Book` values is the field-by-field `equals`. `BookEquals` models it exactly,
  including the `NullPointerException` a null field of the receiver raises.
- A table is a class holding a map from id to row and an identifier counter. `save` replaces
  the row under the entity's id when that row exists, and otherwise inserts under a fresh id.
- The queries are predicates filtered over the table scanned in identifier order.
- The current date, which `setBirthdate` reads from the clock, is a parameter.

Modules follow the source:

- `Books` (Book.java) and `Users` (User.java)
- `BookDtos` (BookDTO.java)
- `BookRepositories` and `UserRepositories` (the repository interfaces), with the query support
  in `LikePatterns`, `Dates` and `Filters`
- `BookControllers` and `UserControllers`
- `ExceptionHandling` (ControllerExceptionHandler.java)

Where the code and its descriptions differ, the model follows the code:

- `BookRepository.findAllByPublisherAndGenreAndYear` ORs its three groups. As a result, one null
  parameter returns every book, and three given parameters match a book when ANY of them equals
  its column.
- The user query likewise ORs its date group and its name group.
- The user query's name test is `UPPER(name) LIKE UPPER(:name)`. The pattern is not wrapped in
  `%`, so a pattern without wildcards tests case-insensitive equality, not containment.
- The code has no validators for digit-only isbns or positive page counts, so the model has none.
- The code's `findAll` takes no filter and no paging, so the model's takes none either.

## Model

| member | source | states |
|---|---|---|
| Books.BookEquals | src/main/java/wolox/training/models/Book.java:153-163 | `Success(true)` exactly for equal field values and `Success(false)` for different ones; a receiver with every required field and id set never throws; a failure is a NullPointer and happens only for a receiver missing one of them |
| Books.Utf16 | src/main/java/wolox/training/models/Book.java:168 | a character is one or two 16-bit code units, as a Java String stores it |
| Books.Utf16Decodes | src/main/java/wolox/training/models/Book.java:168 | a character takes one unit exactly when it is below U+10000, and is then that unit; otherwise its high and low surrogates are in their ranges and decode back to it |
| Books.Utf16Units | src/main/java/wolox/training/models/Book.java:168 | a string has at least one and at most two units per character |
| Books.UnitsHash | src/main/java/wolox/training/models/Book.java:168 | the `31 * h + u` fold over code units is a Java `int` |
| Books.StringHash | src/main/java/wolox/training/models/Book.java:168 | `String.hashCode` over the string's UTF-16 units is a Java `int` |
| Books.SupplementaryCharacterHash | src/main/java/wolox/training/models/Book.java:168 | U+1F600 has the units 0xD83D 0xDE00 and hashes to 1772899, as in Java |
| Books.BookHashCode | src/main/java/wolox/training/models/Book.java:166-169 | the hash is a Java `int` (in [-2^31, 2^31)), computed by `Objects.hash` over the ten fields with 32-bit wrap-around, strings hashed over their UTF-16 units |
| Books.EqualBooksHashEqually | src/main/java/wolox/training/models/Book.java:145-169 | books that `equals` reports equal have the same hash code |
| Books.BookEntity.constructor | src/main/java/wolox/training/models/Book.java:59 | a new Book has every field null |
| Books.BookEntity.SetGenre | src/main/java/wolox/training/models/Book.java:65-67 | assigns genre and no other field |
| Books.BookEntity.SetAuthor | src/main/java/wolox/training/models/Book.java:73-75 | assigns author and no other field |
| Books.BookEntity.SetImage | src/main/java/wolox/training/models/Book.java:81-83 | assigns image and no other field |
| Books.BookEntity.SetTitle | src/main/java/wolox/training/models/Book.java:89-91 | assigns title and no other field |
| Books.BookEntity.SetSubtitle | src/main/java/wolox/training/models/Book.java:97-99 | assigns subtitle and no other field |
| Books.BookEntity.SetPublisher | src/main/java/wolox/training/models/Book.java:105-107 | assigns publisher and no other field |
| Books.BookEntity.SetYear | src/main/java/wolox/training/models/Book.java:113-115 | assigns year and no other field |
| Books.BookEntity.SetPages | src/main/java/wolox/training/models/Book.java:121-123 | assigns pages and no other field |
| Books.BookEntity.SetIsbn | src/main/java/wolox/training/models/Book.java:129-131 | assigns isbn and no other field |
| Books.BookEntity.Equals | src/main/java/wolox/training/models/Book.java:146-164 | the same reference is equal; null or another class is not; any other Book is compared by the field-by-field equality |
| Books.BookEntity.EqualEntitiesHashEqually | src/main/java/wolox/training/models/Book.java:145-169 | entities that `equals` reports equal have the same `hashCode` |
| BookDtos.FirstName | src/main/java/wolox/training/models/BookDTO.java:27-29 | a null list throws NullPointer; an empty list throws IndexOutOfBounds; a null first element throws NullPointer; otherwise the "name" entry of the first element, which is null when the key is missing or mapped to null |
| BookDtos.ToBook | src/main/java/wolox/training/models/BookDTO.java:21-33 | image is "No image"; isbn, title and subtitle are copied; pages come from pageNumber and year from publishDate; publisher and author are the first entries' names; genre and id stay null; it fails exactly when reading the publishers or the authors fails, and the publishers are read first |
| BookDtos.ToBookStorable | src/main/java/wolox/training/models/BookDTO.java:21-33 | the mapped book passes the @NotNull constraints exactly when every copied field and both names are present and not null; it never has an id |
| Dates.BeforeIsStrictTotalOrder | src/main/java/wolox/training/models/User.java:111 | `isBefore` is irreflexive, transitive and total; "not after" is "before or equal" |
| LikePatterns.Upper | src/main/java/wolox/training/repositories/UserRepository.java:37-38 | `UPPER` keeps the length and upper-cases each ASCII letter in place |
| LikePatterns.LikeLiteralIsEquality | src/main/java/wolox/training/repositories/UserRepository.java:37-38 | with no `%` or `_` in the pattern, LIKE is equality |
| LikePatterns.PercentMatchesEverything | src/main/java/wolox/training/repositories/UserRepository.java:37-38 | the pattern `%` matches every string |
| LikePatterns.UpperKeepsLiteral | src/main/java/wolox/training/repositories/UserRepository.java:37-38 | upper-casing a pattern never introduces a wildcard |
| LikePatterns.LikeIgnoreCaseLiteral | src/main/java/wolox/training/repositories/UserRepository.java:37-38 | with no wildcards, `UPPER(s) LIKE UPPER(p)` holds exactly when the upper-cased strings are equal |
| LikePatterns.UpperIsIdempotent | src/main/java/wolox/training/repositories/UserRepository.java:37-38 | upper-casing twice is upper-casing once |
| LikePatterns.LikeIgnoreCaseIgnoresCase | src/main/java/wolox/training/repositories/UserRepository.java:37-38 | upper-casing either side does not change the match |
| Users.IndexOf | src/main/java/wolox/training/models/User.java:127 | the first position holding an equal book, or none when the list has no such book; each comparison has the argument as receiver, so it throws only a NullPointer and only for a book missing a required field or its id |
| Users.RemoveAt | src/main/java/wolox/training/models/User.java:143 | the list without the element at i, the others in their order |
| Users.AppendKeepsNoDuplicates | src/main/java/wolox/training/models/User.java:129-131 | appending an absent book keeps the list duplicate-free |
| Users.RemoveKeepsNoDuplicates | src/main/java/wolox/training/models/User.java:141-143 | removing an element keeps the list duplicate-free and, in such a list, leaves that book absent |
| Users.AppendThenRemoveRestores | src/main/java/wolox/training/models/User.java:126-147 | after appending an absent book, its first match is the new last position, and removing it there gives back the original list |
| Users.User.constructor | src/main/java/wolox/training/models/User.java:55-93 | a new user has every field null and an empty book list |
| Users.User.Load | src/main/java/wolox/training/models/User.java:58-93 | the entity loaded from a row holds exactly that row's values |
| Users.User.SetUsername | src/main/java/wolox/training/models/User.java:95-98 | a null or empty username is refused with IllegalArgument and nothing changes; otherwise only the username is assigned |
| Users.User.SetName | src/main/java/wolox/training/models/User.java:100-103 | a null or empty name is refused with IllegalArgument and nothing changes; otherwise only the name is assigned |
| Users.User.SetBirthdate | src/main/java/wolox/training/models/User.java:109-113 | a null date throws NullPointer; a date not strictly before today throws IllegalArgument; both leave everything unchanged; otherwise only the birthdate is assigned |
| Users.User.GetBooks | src/main/java/wolox/training/models/User.java:115-117 | returns exactly the owned books |
| Users.User.AddBook | src/main/java/wolox/training/models/User.java:126-132 | a null book throws NullPointer; a book already owned (by `equals`) throws BookAlreadyOwned; both leave the list unchanged; otherwise the book is appended at the end; a duplicate-free list stays duplicate-free |
| Users.User.RemoveBook | src/main/java/wolox/training/models/User.java:141-147 | a null book throws NullPointer; a book not owned throws BookNotFound; both leave the list unchanged; otherwise the first equal element is removed and the rest keep their order; in a duplicate-free list the book is then absent |
| Users.AddThenRemove | src/main/java/wolox/training/models/User.java:126-147 | adding and then removing a book the user does not own gives the user back its list |
| Filters.Filter | src/main/java/wolox/training/repositories/BookRepository.java:36-39 | every accepted row appears exactly as often as in the table and no other row appears; the query has no ORDER BY, so order is not promised |
| Filters.FilterKeepsAll | src/main/java/wolox/training/repositories/BookRepository.java:36-39 | a clause every row satisfies returns the whole table |
| Filters.FindFirst | src/main/java/wolox/training/repositories/BookRepository.java:26 | none exactly when no row matches; otherwise the first matching row |
| Filters.FindFirstOfUnique | src/main/java/wolox/training/repositories/BookRepository.java:41 | when only one row matches, that row is returned |
| BookRepositories.FindAllByPublisherAndGenreAndYear | src/main/java/wolox/training/repositories/BookRepository.java:36-39 | exactly the rows satisfying the three OR-ed `(param IS NULL OR column = param)` groups |
| BookRepositories.AnyNullParameterReturnsAll | src/main/java/wolox/training/repositories/BookRepository.java:36-39 | one null parameter returns every row |
| BookRepositories.AllParametersGivenIsDisjunction | src/main/java/wolox/training/repositories/BookRepository.java:36-37 | with all three given, a book matches when its publisher, genre or year equals the parameter exactly |
| BookRepositories.OrNotAnd | src/main/java/wolox/training/repositories/BookRepository.java:36-37 | a book matching only on its year is returned; a publisher differing only in case does not match |
| BookRepositories.FindByIsbn | src/main/java/wolox/training/repositories/BookRepository.java:41 | a row with that isbn, or none when no row has it |
| BookRepositories.FindByIsbnIsTheOnlyMatch | src/main/java/wolox/training/models/Book.java:47-49 | with unique isbns, `findByIsbn` returns the one book with that isbn |
| BookRepositories.FindOneByAuthor | src/main/java/wolox/training/repositories/BookRepository.java:19-26 | a row by that author, or none when no row has it |
| BookRepositories.BookRepository.constructor | src/main/java/wolox/training/repositories/BookRepository.java:17 | an empty table that meets the constraints |
| BookRepositories.BookRepository.ExistsById | src/main/java/wolox/training/repositories/BookRepository.java:17 | true exactly when `findById` finds a row |
| BookRepositories.BookRepository.Save | src/main/java/wolox/training/models/Book.java:19-54 | NotNullViolation when a @NotNull field is null, then DataIntegrityViolation when another row has the isbn, with nothing changed; otherwise only the targeted row changes and it holds the book with its id; the constraints still hold |
| BookRepositories.BookRepository.Delete | src/main/java/wolox/training/repositories/BookRepository.java:17 | removes exactly the row with the book's id |
| BookRepositories.BookRepository.RowsFromAreTheStoredRows | src/main/java/wolox/training/repositories/BookRepository.java:17 | the scan from an id holds exactly the rows at or above it |
| BookRepositories.BookRepository.RowsFromIncreasing | src/main/java/wolox/training/repositories/BookRepository.java:17 | the scan from an id lists rows by strictly increasing identifier, all at or above it |
| BookRepositories.BookRepository.RowsFromLength | src/main/java/wolox/training/repositories/BookRepository.java:17 | the scan from an id has one entry per stored identifier from it up to the counter |
| BookRepositories.BookRepository.RowsAreTheStoredBooks | src/main/java/wolox/training/repositories/BookRepository.java:17 | `findAll` returns exactly the stored books, as many as there are rows, each once, by increasing identifier, with unique isbns |
| BookRepositories.BookRepository.QueryReturnsStoredBooks | src/main/java/wolox/training/repositories/BookRepository.java:36-39 | the query result is a subset of the stored books |
| UserRepositories.FindAllByBirthdateBetweenAndNameContainingIgnoreCase | src/main/java/wolox/training/repositories/UserRepository.java:37-40 | exactly the rows satisfying the date group OR the name group |
| UserRepositories.NullParameterReturnsAll | src/main/java/wolox/training/repositories/UserRepository.java:37-38 | a null start date, end date or name returns every row |
| UserRepositories.BetweenIsInclusive | src/main/java/wolox/training/repositories/UserRepository.java:37-38 | with both bounds given, the date group holds exactly for `start <= birthdate <= end` |
| UserRepositories.InRangeIgnoresName | src/main/java/wolox/training/repositories/UserRepository.java:37-38 | a user born in range is returned whatever the name pattern |
| UserRepositories.LiteralNameIsCaseInsensitiveEquality | src/main/java/wolox/training/repositories/UserRepository.java:37-38 | with no wildcards, the name group is equality up to ASCII case |
| UserRepositories.FindOneByUsername | src/main/java/wolox/training/repositories/UserRepository.java:20-27 | a row with that username, or none when no row has it |
| UserRepositories.UserRepository.constructor | src/main/java/wolox/training/repositories/UserRepository.java:18 | an empty table that meets the constraints |
| UserRepositories.UserRepository.ExistsById | src/main/java/wolox/training/repositories/UserRepository.java:18 | true exactly when `findById` finds a row |
| UserRepositories.UserRepository.Save | src/main/java/wolox/training/models/User.java:66-93 | NotNullViolation, with nothing changed, when username, name or birthdate is null; otherwise only the targeted row changes and it holds the user with its id |
| UserRepositories.UserRepository.Delete | src/main/java/wolox/training/repositories/UserRepository.java:18 | removes exactly the row with the user's id |
| UserRepositories.UserRepository.RowsFromAreTheStoredRows | src/main/java/wolox/training/repositories/UserRepository.java:18 | the scan from an id holds exactly the rows at or above it |
| UserRepositories.UserRepository.RowsFromIncreasing | src/main/java/wolox/training/repositories/UserRepository.java:18 | the scan from an id lists rows by strictly increasing identifier, all at or above it |
| UserRepositories.UserRepository.RowsFromLength | src/main/java/wolox/training/repositories/UserRepository.java:18 | the scan from an id has one entry per stored identifier from it up to the counter |
| UserRepositories.UserRepository.RowsAreTheStoredUsers | src/main/java/wolox/training/repositories/UserRepository.java:18 | `findAll` returns exactly the stored users, as many as there are rows, each once, by increasing identifier |
| UserRepositories.UserRepository.AllNullReturnsEveryStoredUser | src/main/java/wolox/training/repositories/UserRepository.java:37-40 | with all parameters null, exactly the stored users are returned |
| ExceptionHandling.HandleNotFound | src/main/java/wolox/training/exceptions/ControllerExceptionHandler.java:28-31 | 404 with the body "Book not found", whatever the message |
| ExceptionHandling.HandleBadRequest | src/main/java/wolox/training/exceptions/ControllerExceptionHandler.java:33-42 | 400 with the exception's message as body |
| ExceptionHandling.HandleMethodArgumentNotValid | src/main/java/wolox/training/exceptions/ControllerExceptionHandler.java:22 | the inherited handler answers an invalid `@Valid` body with 400 and a null body |
| ExceptionHandling.Handle | src/main/java/wolox/training/exceptions/ControllerExceptionHandler.java:22-42 | BookNotFound and UserNotFound give 404 "Book not found"; the mismatches, ConstraintViolation and DataIntegrityViolation give 400 with the message; an invalid body gets 400 with no body from the inherited handler; any other exception gets no response from this advice |
| ExceptionHandling.ListsAreDisjoint | src/main/java/wolox/training/exceptions/ControllerExceptionHandler.java:22-38 | no exception class is claimed by two handlers |
| ExceptionHandling.UnlistedKinds | src/main/java/wolox/training/exceptions/ControllerExceptionHandler.java:22-38 | UserNotFound gets the book message; an invalid body gets 400 with no body; BookAlreadyOwned, a @NotNull violation at write time, NullPointer, IllegalArgument and IndexOutOfBounds reach no handler of this advice |
| BookControllers.BookController.constructor | src/main/java/wolox/training/controllers/BookController.java:29-32 | the controller uses the given table |
| BookControllers.BookController.FindAll | src/main/java/wolox/training/controllers/BookController.java:34-37 | returns exactly the stored books, each once |
| BookControllers.BookController.FindOne | src/main/java/wolox/training/controllers/BookController.java:39-42 | the stored book with the id, else BookNotFound |
| BookControllers.BookController.FindByAuthor | src/main/java/wolox/training/controllers/BookController.java:44-48 | a stored book by that author, else BookNotFound exactly when there is none |
| BookControllers.BookController.Create | src/main/java/wolox/training/controllers/BookController.java:50-54 | an invalid body is refused; otherwise the book is stored under the targeted id and nothing else changes, or the isbn clash fails with nothing changed |
| BookControllers.BookController.Delete | src/main/java/wolox/training/controllers/BookController.java:56-61 | BookNotFound for an absent id; otherwise exactly that book is removed |
| BookControllers.BookController.Update | src/main/java/wolox/training/controllers/BookController.java:63-71 | an invalid body, then a null body id, then an id mismatch, then an absent id are refused, with nothing changed; otherwise the row is replaced by the body and returned, unless its isbn clashes with another row |
| UserControllers.UserController.constructor | src/main/java/wolox/training/controllers/UserController.java:76-80 | the controller uses the given tables |
| UserControllers.UserController.FindAll | src/main/java/wolox/training/controllers/UserController.java:88-91 | returns exactly the stored users, each once |
| UserControllers.UserController.FindById | src/main/java/wolox/training/controllers/UserController.java:100-104 | the stored user with the id, else UserNotFound |
| UserControllers.UserController.FindOneByUsername | src/main/java/wolox/training/controllers/UserController.java:113-117 | a stored user with that username, else UserNotFound exactly when there is none |
| UserControllers.UserController.Create | src/main/java/wolox/training/controllers/UserController.java:137-141 | an invalid body is refused with nothing changed; otherwise the user is stored under the targeted id and nothing else changes |
| UserControllers.UserController.Delete | src/main/java/wolox/training/controllers/UserController.java:150-156 | UserNotFound for an absent id; otherwise exactly that user is removed |
| UserControllers.UserController.Update | src/main/java/wolox/training/controllers/UserController.java:166-177 | an invalid body, then a null body id, then an id mismatch, then an absent id are refused, with nothing changed; otherwise the row is replaced by the body, which is returned |
| UserControllers.UserController.UpdatePassword | src/main/java/wolox/training/controllers/UserController.java:232-244 | the same checks and the same store as `update` |
| UserControllers.UserController.AddBook | src/main/java/wolox/training/controllers/UserController.java:187-200 | an invalid book body, then an unknown user, then a null book id, then a book id absent from the book table, then an already-owned book are refused, with nothing changed; otherwise the stored user's list gets the book appended; duplicate-free lists stay so |
| UserControllers.UserController.RemoveBook | src/main/java/wolox/training/controllers/UserController.java:210-222 | the same checks as `addBook`, the path book id unread; a book not owned is refused with nothing changed; otherwise the first equal element of the stored user's list is removed |

## Left out

- Users.AddThenRemove: requires a book with every required field and its id, because reference
  identity in list membership is not modelled. `ArrayList.contains` and `remove` also accept
  the very same object (`this == o`, Book.java:147-149). The model compares values, so a book
  missing a required field makes `contains` throw even where Java would find the same object.
- UserControllers.UserController.AddBook: a stored user keeps value copies of its books, not
  references to the book rows through the join table (User.java:91-93). A book changed later
  through `PUT /books/{id}` is therefore still compared in its old form. Java would then refuse
  the changed book with BookAlreadyOwned; the model appends it beside the old copy.
- UserControllers.UserController.RemoveBook: for the same reason, after a book is changed
  through `PUT /books/{id}`, the model refuses the changed book with BookNotFound, where Java
  removes it. The user endpoints (`FindById`, `FindAll`) likewise return the copies.
- UserControllers.UserController.AddBook: the `MERGE`/`REFRESH` cascade on the user's books
  (User.java:91) is not modelled, so the appended body book is not merged into the book table.
- BookRepositories.BookRepository.Delete: the join-table foreign key is not modelled, so
  deleting a book some user owns succeeds, where the store refuses it.
- BookControllers.BookController.Delete: for the same reason, deleting an owned book succeeds.
- `setPassword` and BCrypt (User.java:105-107). This is a foreign library; the password is kept
  as an opaque string.
- `setUsers` and the inverse `users` list of a Book (Book.java:56-57, 137-143). The list is only
  the mapped side of the join table.
- `getAuthenticatedUser` (UserController.java:126-129). It only formats the security principal's
  name.
- Deserializing a request body through the setters. A body is given as a value, and its `@Valid`
  check is the `InvalidBody` error.
- ExceptionHandling.Handle: of the inherited framework handler, only its answer to an invalid
  `@Valid` body (400, no body) is modelled. The other framework exceptions it answers, such as an
  unreadable body, are not kinds of this model.
- `findOneByAuthor` and `findOneByUsername` raise in Spring when several rows match. The model
  returns the first match, as their Javadoc describes.
- Sequence allocation. Identifiers come from a counter starting at 1; Hibernate's allocation in
  blocks and its gaps are not modelled.
- `LIKE` escape characters and Unicode case mapping. `UPPER` is ASCII-only, and no escape
  character is recognised.
- The catalogue lookup service (OpenLibraryService.java). It makes HTTP calls. OpenLibraryService
  is not part of this model beyond the DTO it returns.
- The Lombok-generated `User.equals`/`hashCode`. Stored users are compared as values.
- Swagger, Jackson and JPA wiring, HTTP success codes and message texts. Errors are kinds, not
  strings.
