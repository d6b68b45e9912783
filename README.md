# Book records service, modelled in Dafny

This project models the logic of a small REST service for book records
(id, title, author). Requests run through three layers:

- the controller. It picks a service call for each endpoint. Search picks one of
  four calls, depending on which of its `title` and `author` parameters are
  present and not blank.
- the service, in two variants: the current `BookServiceImpl` and the older
  concrete `BookService`. It turns entities into DTOs, reports NotFound when a
  lookup misses, and applies the partial-update rule.
- the store, a table keyed by generated ids.

The exception handler turns a NotFound failure into a 404 error body, and any
other exception that reaches its catch-all handler into a 500.

Modules, one per source file or component:

- `Common`: nullable values (`Option`), the service's failure signal (`Result`,
  `Error`), HTTP status codes, Java's `String.isBlank`, and the decimal text that
  `"..." + id` produces for a `Long`.
- `Books`: the `Book` entity, a class with Lombok-style setters, and the `BookDto`
  record. Each converts into the other by copying the id, title and author. A null
  id is copied too.
- `Repository`: the store. Rows are kept in a `map<int, Row>`, ids in ascending
  order, and a counter supplies fresh ids. Lookups hand out new entity objects.
  `Save` writes an entity back.
- `UpdateRule`: the rule "overwrite a field only with a value that is non-null and
  not blank".
- `ServiceImpl` and `ServiceLegacy`: the two service classes over the same store.
- `ExceptionHandler`: maps an error to a status and an `ErrorResponseDto`.
- `Controller`: the five endpoints, the Location header of a created book, and two
  scenarios that chain endpoints. Search is a method, not a pure function,
  because each of its four branches calls a service method that reads the store;
  its contract states the outcome of each branch.

Three behaviours of the code worth knowing:

- `toEntity` copies the DTO's id into the entity (dto/BookDto.java:29), so
  `createBook` saves a POST body with its id. A body carrying the id of a stored
  book overwrites that book. It is not inserted as a new one.
- `DELETE /api/books/{id}` documents a 404 for a missing book
  (controller/BookController.java:143-147), but the code answers 200 whether or
  not the book existed (controller/BookController.java:154).
- `POST /api/books` answers 201 through `ResponseEntity.created`
  (controller/BookController.java:127). The integration test expects 200
  (BookControllerIntegrationTest.java:102).

The controller's field has the type `BookService` (controller/BookController.java:39).
In the revision with `BookServiceImpl`, that name is the interface the class
implements, and `BookService.java` is the older concrete class of the same
name. The controller is modelled against `BookServiceImpl`. The older class is
modelled on its own in `ServiceLegacy`.

## Model

| member | source | states |
|---|---|---|
| `Common.IsWhitespace` | src/main/java/de/cimtag/rateyourbooks/service/BookServiceImpl.java:125-131 | `Character.isWhitespace`: space, tab, newline and carriage return are white space; the non-breaking spaces U+00A0, U+2007, U+202F, digits and letters are not |
| `Common.IsBlank` | src/main/java/de/cimtag/rateyourbooks/service/BookServiceImpl.java:125-131 | `String.isBlank`: the empty string is blank, and a non-empty string is blank exactly when its first character is white space and the rest is blank |
| `Common.HasText` | src/main/java/de/cimtag/rateyourbooks/controller/BookController.java:61-69 | the guard `s != null && !s.isBlank()`: null never has text, a value with text is non-empty, and a string starting with a visible character has text |
| `Common.DecimalString` | src/main/java/de/cimtag/rateyourbooks/service/BookServiceImpl.java:39 | the text `"" + id` of a `Long`: non-empty, a leading minus exactly for negative ids, digits after it |
| `Common.NullableLongString` | src/main/java/de/cimtag/rateyourbooks/controller/BookController.java:127 | the text `"" + id` of a nullable `Long`: non-empty, and it starts with `n` (of `null`) exactly when the id is null |
| `Common.NatString` | src/main/java/de/cimtag/rateyourbooks/service/BookServiceImpl.java:39 | the decimal text of a number is non-empty, all digits, and one digit long exactly for numbers below 10 |
| `Common.DecimalStringInjective` | src/main/java/de/cimtag/rateyourbooks/service/BookServiceImpl.java:39 | `Long.toString` is injective: equal texts come from equal ids, negative ids included |
| `Common.NullableLongStringInjective` | src/main/java/de/cimtag/rateyourbooks/controller/BookController.java:127 | string concatenation of a nullable `Long` is injective, and `"null"` is never the text of a number |
| `Books.BookDto.ToEntity` | src/main/java/de/cimtag/rateyourbooks/dto/BookDto.java:27-33 | a new entity with the DTO's id (null included), title and author; converting it back with `toDto` gives the same DTO |
| `Books.Book.ToDto` | src/main/java/de/cimtag/rateyourbooks/model/Book.java:44-49 | a DTO with the entity's id, title and author ("the same properties"), so entities with equal DTOs agree in every field; with `toEntity` it round-trips in both directions (`ToEntity`, `EntityRoundTrip`) |
| `Books.Book.constructor` | src/main/java/de/cimtag/rateyourbooks/model/Book.java:27-37 | the all-arguments constructor sets exactly the given id, title and author |
| `Books.Book.SetId` | src/main/java/de/cimtag/rateyourbooks/model/Book.java:26-34 | sets the id; title and author are unchanged |
| `Books.Book.SetTitle` | src/main/java/de/cimtag/rateyourbooks/model/Book.java:26-36 | sets the title; id and author are unchanged |
| `Books.Book.SetAuthor` | src/main/java/de/cimtag/rateyourbooks/model/Book.java:26-37 | sets the author; id and title are unchanged |
| `Books.EntityRoundTrip` | src/main/java/de/cimtag/rateyourbooks/model/Book.java:44-49 | `book.toDto().toEntity()` is a new entity equal to `book` in id (null included), title and author |
| `Repository.Keep` | src/main/java/de/cimtag/rateyourbooks/repository/BookRepository.java:37-43 | a filtered listing holds exactly the listed ids that pass the filter, and stays in ascending order |
| `Repository.Without` | src/main/java/de/cimtag/rateyourbooks/service/BookServiceImpl.java:111 | removing an id from the listing keeps every other id and keeps the order |
| `Repository.ListingExact` | src/main/java/de/cimtag/rateyourbooks/service/BookServiceImpl.java:77-94 | mapping a listing of the matching rows to DTOs element by element yields every matching stored book, and nothing else |
| `Repository.BookRepository.FindById` | src/main/java/de/cimtag/rateyourbooks/repository/BookRepository.java:18 | a new entity with the stored row's values exactly when the id is stored, otherwise nothing |
| `Repository.BookRepository.FindByTitle` | src/main/java/de/cimtag/rateyourbooks/repository/BookRepository.java:20-26 | some stored book with the title exactly when one exists |
| `Repository.BookRepository.FindByTitleAndAuthor` | src/main/java/de/cimtag/rateyourbooks/repository/BookRepository.java:28-35 | some stored book with the title and the author exactly when one exists |
| `Repository.BookRepository.FindAllByAuthor` | src/main/java/de/cimtag/rateyourbooks/repository/BookRepository.java:37-43 | one new entity per stored book of the author, in table order |
| `Repository.BookRepository.FindAll` | src/main/java/de/cimtag/rateyourbooks/repository/BookRepository.java:18 | one new entity per stored book, in table order |
| `Repository.BookRepository.Save` | src/main/java/de/cimtag/rateyourbooks/repository/BookRepository.java:18 | an entity whose id is stored overwrites that row; any other entity gets a fresh positive id that was not in the table; no other row changes |
| `Repository.BookRepository.DeleteById` | src/main/java/de/cimtag/rateyourbooks/repository/BookRepository.java:18 | removes the id if present and nothing else; the listing keeps its order |
| `UpdateRule.MergeField` | src/main/java/de/cimtag/rateyourbooks/service/BookServiceImpl.java:125-131 | each field ends up as the incoming value or the stored one; it changes only to a value with text, and an incoming value with text always wins |
| `UpdateRule.Merged` | src/main/java/de/cimtag/rateyourbooks/service/BookService.java:49-55 | the updated row: title and author each the incoming or the stored value, changed only to a value with text, the incoming value taken whenever it has text; the DTO's id plays no part |
| `UpdateRule.EmptyUpdateKeepsRow` | src/main/java/de/cimtag/rateyourbooks/service/BookServiceImpl.java:125-131 | an update whose title and author are null or blank leaves the row as it was |
| `UpdateRule.BlankUpdateKeepsRow` | src/test/java/de/cimtag/rateyourbooks/service/BookServiceImplTest.java:224-235 | the update `{title: " ", author: " "}` leaves the row as it was |
| `UpdateRule.TitleOnlyUpdate` | src/test/java/de/cimtag/rateyourbooks/service/BookServiceImplTest.java:185-196 | an update carrying only a title changes the title and keeps the author |
| `UpdateRule.AuthorOnlyUpdate` | src/test/java/de/cimtag/rateyourbooks/service/BookServiceImplTest.java:198-209 | an update carrying only an author changes the author and keeps the title |
| `UpdateRule.MergeIdempotent` | src/main/java/de/cimtag/rateyourbooks/service/BookServiceImpl.java:125-131 | repeating an update changes nothing further |
| `ServiceImpl.IdNotFound` | src/main/java/de/cimtag/rateyourbooks/service/BookServiceImpl.java:39 | the message `Book with ID '<id>' not found!`, the id's decimal text between those fixed parts |
| `ServiceImpl.TitleNotFound` | src/main/java/de/cimtag/rateyourbooks/service/BookServiceImpl.java:55 | the message `Book with title '<title> not found!`, with no closing quote after the title, as written |
| `ServiceImpl.TitleAndAuthorNotFound` | src/main/java/de/cimtag/rateyourbooks/service/BookServiceImpl.java:71 | the message `Book with title '<title>' and author '<author>' not found!`, each part at its stated position |
| `ServiceImpl.IdNotFoundForUpdate` | src/main/java/de/cimtag/rateyourbooks/service/BookServiceImpl.java:122 | the message `Book with ID '<id>' not found for update!`, the id's decimal text between those fixed parts |
| `ServiceImpl.IdNotFoundInjective` | src/main/java/de/cimtag/rateyourbooks/service/BookServiceImpl.java:39 | equal `findBookById` messages come from equal ids: a NotFound message names exactly one id |
| `ServiceImpl.IdNotFoundForUpdateInjective` | src/main/java/de/cimtag/rateyourbooks/service/BookServiceImpl.java:122 | equal `updateBook` messages come from equal ids |
| `ServiceImpl.TitleNotFoundInjective` | src/main/java/de/cimtag/rateyourbooks/service/BookServiceImpl.java:55 | equal title-lookup messages come from equal titles, even without the closing quote |
| `ServiceImpl.TitleAndAuthorNotFoundAmbiguous` | src/main/java/de/cimtag/rateyourbooks/service/BookServiceImpl.java:71 | the pair message does not always identify the pair: a title containing `' and author '` gives the same message as a different title and author |
| `ServiceImpl.BookServiceImpl.FindBookById` | src/main/java/de/cimtag/rateyourbooks/service/BookServiceImpl.java:27-41 | the stored book's DTO (same id, title, author) exactly when the id is stored, otherwise NotFound with the id in the message |
| `ServiceImpl.BookServiceImpl.FindBookByTitle` | src/main/java/de/cimtag/rateyourbooks/service/BookServiceImpl.java:43-57 | NotFound exactly when no stored book has the title; otherwise the DTO of a stored book with that title |
| `ServiceImpl.BookServiceImpl.FindBookByTitleAndAuthor` | src/main/java/de/cimtag/rateyourbooks/service/BookServiceImpl.java:59-73 | NotFound exactly when no stored book matches the pair; otherwise the DTO of a stored book matching both |
| `ServiceImpl.BookServiceImpl.FindAllBooksByAuthor` | src/main/java/de/cimtag/rateyourbooks/service/BookServiceImpl.java:76-84 | never fails; the store's listing for the author mapped element by element to DTOs, same length and order; exactly the author's stored books |
| `ServiceImpl.BookServiceImpl.FindAllBooks` | src/main/java/de/cimtag/rateyourbooks/service/BookServiceImpl.java:86-94 | never fails; the store's full listing mapped element by element, same length and order; every stored book exactly once |
| `ServiceImpl.BookServiceImpl.CreateBook` | src/main/java/de/cimtag/rateyourbooks/service/BookServiceImpl.java:96-105 | stores the DTO's title and author and returns the saved book's DTO with its stored id; a fresh positive id unless the DTO names a stored id |
| `ServiceImpl.BookServiceImpl.DeleteBook` | src/main/java/de/cimtag/rateyourbooks/service/BookServiceImpl.java:107-113 | removes the id, present or not, without failing; other rows and their order are untouched |
| `ServiceImpl.BookServiceImpl.UpdateBook` | src/main/java/de/cimtag/rateyourbooks/service/BookServiceImpl.java:115-138 | an absent id gives NotFound and leaves the store unchanged; otherwise only that row changes, each field taking the DTO's value where it has text, and the result is the stored DTO under the same id |
| `ServiceLegacy.IdNotFound` | src/main/java/de/cimtag/rateyourbooks/service/BookService.java:18 | the message `Book with ID <id> not found!`, the id unquoted between those fixed parts |
| `ServiceLegacy.TitleNotFound` | src/main/java/de/cimtag/rateyourbooks/service/BookService.java:22 | the message `Book with Title <title> not found!`, the title unquoted |
| `ServiceLegacy.TitleAndAuthorNotFound` | src/main/java/de/cimtag/rateyourbooks/service/BookService.java:27 | the message `Book with Title <title> and author <author> not found!`, each part at its stated position |
| `ServiceLegacy.IdNotFoundInjective` | src/main/java/de/cimtag/rateyourbooks/service/BookService.java:18 | equal legacy `findBookById` messages come from equal ids |
| `ServiceLegacy.TitleAndAuthorNotFoundAmbiguous` | src/main/java/de/cimtag/rateyourbooks/service/BookService.java:27 | the unquoted pair message has the same ambiguity with ` and author ` inside a title |
| `ServiceLegacy.BookService.FindBookById` | src/main/java/de/cimtag/rateyourbooks/service/BookService.java:17-19 | NotFound exactly when the id is absent; otherwise the stored book's DTO |
| `ServiceLegacy.BookService.FindBookByTitle` | src/main/java/de/cimtag/rateyourbooks/service/BookService.java:21-23 | NotFound exactly when the title lookup is empty; otherwise a stored book with that title |
| `ServiceLegacy.BookService.FindBookByTitleAndAuthor` | src/main/java/de/cimtag/rateyourbooks/service/BookService.java:25-28 | NotFound exactly when the pair lookup is empty; otherwise a stored book matching both |
| `ServiceLegacy.BookService.FindAllBooksByAuthor` | src/main/java/de/cimtag/rateyourbooks/service/BookService.java:30-32 | the store's listing for the author as DTOs, same length and order; exactly the author's stored books |
| `ServiceLegacy.BookService.FindAllBooks` | src/main/java/de/cimtag/rateyourbooks/service/BookService.java:34-36 | the store's full listing as DTOs, same length and order; every stored book exactly once |
| `ServiceLegacy.BookService.CreateBook` | src/main/java/de/cimtag/rateyourbooks/service/BookService.java:38-40 | `toDto(save(toEntity(dto)))`: the DTO's fields stored under the id the save produced |
| `ServiceLegacy.BookService.DeleteBook` | src/main/java/de/cimtag/rateyourbooks/service/BookService.java:42-44 | removes the id unconditionally and reports nothing |
| `ServiceLegacy.BookService.UpdateBook` | src/main/java/de/cimtag/rateyourbooks/service/BookService.java:46-58 | an absent id fails through `findBookById`'s NotFound with nothing saved; otherwise the rebuilt entity keeps the original id, takes the fields that have text, and only that row changes |
| `ExceptionHandler.HandleBookNotFoundException` | src/main/java/de/cimtag/rateyourbooks/controller/BookControllerExceptionHandler.java:32-44 | status 404, body code equal to the status, title `BOOK_NOT_FOUND`, detail the exception's message |
| `ExceptionHandler.HandleAllExceptions` | src/main/java/de/cimtag/rateyourbooks/controller/BookControllerExceptionHandler.java:52-64 | status 500, body code equal to the status, title `INTERNAL_SERVER_ERROR`, detail the exception's message |
| `ExceptionHandler.Handle` | src/main/java/de/cimtag/rateyourbooks/controller/BookControllerExceptionHandler.java:32-64 | 404 exactly for NotFound and 500 exactly for any other error; the code always equals the status and the detail always equals the message |
| `Controller.Location` | src/main/java/de/cimtag/rateyourbooks/controller/BookController.java:127 | the Location header `"/api/books/" + id`: the fixed prefix, then the nullable id's text |
| `Controller.LocationIdentifiesBook` | src/main/java/de/cimtag/rateyourbooks/controller/BookController.java:127 | the Location `"/api/books/" + id` determines the id: distinct books get distinct Locations |
| `Controller.BookController.SearchBooks` | src/main/java/de/cimtag/rateyourbooks/controller/BookController.java:56-78 | title and author with text: `[the pair lookup]` or its NotFound; title only: `[the title lookup]`, author ignored; author only: the author's listing passed through, possibly empty; neither (null or blank): every book; the title branches never return an empty list |
| `Controller.BookController.FindBookById` | src/main/java/de/cimtag/rateyourbooks/controller/BookController.java:100-106 | 200 with the service's DTO, or the service's NotFound passed on |
| `Controller.BookController.CreateNewBook` | src/main/java/de/cimtag/rateyourbooks/controller/BookController.java:122-128 | 201 with the created DTO and Location `"/api/books/" + id` of that DTO; a body naming a stored id keeps that id and overwrites that row, any other body gets a fresh id appended to the listing |
| `Controller.BookController.DeleteBook` | src/main/java/de/cimtag/rateyourbooks/controller/BookController.java:149-155 | always 200 with no body, whether or not the id existed; the id is gone afterwards and the listing keeps its other ids in order |
| `Controller.BookController.UpdateBook` | src/main/java/de/cimtag/rateyourbooks/controller/BookController.java:177-183 | 200 with the service's merged DTO, only that row changed and the listing order kept, or the service's NotFound passed on with the store unchanged |
| `Controller.CreateThenFind` | src/test/java/de/cimtag/rateyourbooks/controller/BookControllerIntegrationTest.java:96-106 | fetching a book by the id it was just created under returns the created book, with the title and author sent |
| `Controller.DeleteThenFind` | src/test/java/de/cimtag/rateyourbooks/controller/BookControllerIntegrationTest.java:120-129 | after a delete, fetching the id fails with NotFound, which the handler answers with 404 and the id's message |

## Left out

- ExceptionHandler.Handle: `Unexpected` covers only exceptions that reach
  `handleAllExceptions`. The handler class extends Spring's
  `ResponseEntityExceptionHandler`, whose inherited handler answers Spring MVC's
  own exceptions (a path id that is not a number, an unreadable JSON body, an
  unsupported HTTP method) with a 4xx status and no `ErrorResponseDto`. Those
  cases are not modelled.
- HTTP routing, JSON (de)serialisation, Spring wiring and annotations, OpenAPI
  metadata, logging and the application entry point. Controller results are plain
  values: a status, an optional Location and a body. A service failure is an
  `Err`, and `ExceptionHandler.Handle` shows what the client receives for it.
- The store is modelled as a map with a fresh-id counter, not as the database.
  Listings come in ascending id order. A real database returns rows in an order
  of its own choosing when the query has no ORDER BY.
- Identity-column numbering is not modelled. The integration test expects id 6
  after five seeded rows; the model only promises a positive id not already in use.
- The integration test's seed data is not modelled.
- Repository.BookRepository.FindByTitle: when several rows share the title, the
  model returns any one of them. The persistence layer raises an error for a
  single-result query that matches several rows; that error is not modelled.
- Repository.BookRepository.FindByTitleAndAuthor: the same applies to several
  rows matching the pair.
- Repository.BookRepository.Save: an entity whose id is not in the table is
  inserted under a new id. What the persistence provider does with an unknown
  supplied id is not modelled.
- A null id argument to `findById`, `deleteById` or `updateBook` is not
  modelled; those ids are integers. The persistence layer rejects a null id
  with an exception of its own. Entity and DTO ids are nullable (`Option<int>`).
- Null title or author arguments to the service's lookups are not modelled. The
  controller only passes values that have text.
- Exception messages are never null in the model. The catch-all handler would
  copy a null message into `detail`.
- The model never produces an `Unexpected` error, because database and
  serialisation failures are outside it. `Handle` still covers that case.
- Java's whitespace set is written out from `Character.isWhitespace`. No proof
  relies on it beyond `" "` being blank.
- `ErrorResponseDto.code` is an `HttpStatusCode` in the source and an integer here.
- The integration test's post-delete `assertThrows` depends on the test
  framework's MockMvc handling and is not modelled. `Controller.DeleteThenFind`
  states what the code does instead: NotFound, answered with 404.
- A third service API, which returns `Book` entities, appears only in the older
  unit tests. It is not modelled; those tests are used only as evidence for the
  update rule.
- Concurrent requests are not modelled. Each operation runs alone.
