/**
 * `BookController` (controller/BookController.java): the five endpoints under
 * `/api/books`. Search picks one of four service calls by which of its two
 * query parameters have text; the others delegate to one service call each.
 * A service failure is returned as `Err` and answered by `ExceptionHandler.Handle`.
 */
module Controller {
  import opened Common
  import opened Books
  import opened Repository
  import opened UpdateRule
  import opened ServiceImpl
  import opened ExceptionHandler

  /** A `ResponseEntity`: status, the Location header if any, and the body. */
  datatype Response<T> = Response(status: int, location: Option<string>, body: T)

  /** The Location of a created book: `"/api/books/" + id`, "null" for a null id. */
  function Location(id: Option<int>): (r: string)
    ensures |r| > 11 && r[..11] == "/api/books/"
    ensures r[11..] == NullableLongString(id)
  {
    "/api/books/" + NullableLongString(id)
  }

  /** Different ids give different Locations: the header names exactly one book. */
  lemma LocationIdentifiesBook(a: Option<int>, b: Option<int>)
    requires Location(a) == Location(b)
    ensures a == b
  {
    NullableLongStringInjective(a, b);
  }

  class BookController {
    const service: BookServiceImpl

    constructor (service: BookServiceImpl)
      ensures this.service == service
    {
      this.service := service;
    }

    /**
     * `GET /api/books?title=&author=`. Title and author with text: the one
     * book matching both. Title only: a book with that title, whatever the
     * author parameter holds. Author only: the author's books as the service
     * lists them, possibly none. Neither: every book. The title branches give
     * exactly one book or NotFound.
     */
    method SearchBooks(title: Option<string>, author: Option<string>) returns (r: Result<Response<seq<BookDto>>>)
      requires service.repository.Valid()
      ensures r.Ok? ==> r.value.status == HTTP_OK && r.value.location.None?
      ensures HasText(title) && r.Ok? ==> |r.value.body| == 1
      ensures HasText(title) && HasText(author) ==>
        && (r.Ok? <==> HasTitleAndAuthor(service.repository.rows, title.value, author.value))
        && (r.Ok? ==> IsStored(service.repository.rows, r.value.body[0]))
        && (r.Ok? ==> r.value.body[0].title == title && r.value.body[0].author == author)
        && (r.Err? ==> r.error == NotFound(TitleAndAuthorNotFound(title.value, author.value)))
      ensures HasText(title) && !HasText(author) ==>
        && (r.Ok? <==> HasTitle(service.repository.rows, title.value))
        && (r.Ok? ==> IsStored(service.repository.rows, r.value.body[0]) && r.value.body[0].title == title)
        && (r.Err? ==> r.error == NotFound(TitleNotFound(title.value)))
      ensures !HasText(title) && HasText(author) ==>
        var ids := WithAuthor(service.repository.rows, service.repository.order, author.value);
        && r.Ok?
        && |r.value.body| == |ids|
        && (forall i :: 0 <= i < |ids| ==>
              ids[i] in service.repository.rows && r.value.body[i] == StoredDto(service.repository.rows, ids[i]))
        && (forall d :: d in r.value.body <==> IsStored(service.repository.rows, d) && d.author == author)
      ensures !HasText(title) && !HasText(author) ==>
        var ids := service.repository.order;
        && r.Ok?
        && |r.value.body| == |ids|
        && (forall i :: 0 <= i < |ids| ==>
              ids[i] in service.repository.rows && r.value.body[i] == StoredDto(service.repository.rows, ids[i]))
        && (forall d :: d in r.value.body <==> IsStored(service.repository.rows, d))
    {
      var result: seq<BookDto>;
      if HasText(title) {
        if HasText(author) {
          var found := service.FindBookByTitleAndAuthor(title.value, author.value);
          if found.Err? {
            return Err(found.error);
          }
          result := [found.value];
        } else {
          var found := service.FindBookByTitle(title.value);
          if found.Err? {
            return Err(found.error);
          }
          result := [found.value];
        }
      } else if HasText(author) {
        result := service.FindAllBooksByAuthor(author.value);
      } else {
        result := service.FindAllBooks();
      }
      r := Ok(Response(HTTP_OK, None, result));
    }

    /** `GET /api/books/{id}`: the service's answer unchanged, NotFound included. */
    method FindBookById(id: int) returns (r: Result<Response<BookDto>>)
      requires service.repository.Valid()
      ensures r.Ok? <==> id in service.repository.rows
      ensures r.Ok? ==> r.value == Response(HTTP_OK, None, StoredDto(service.repository.rows, id))
      ensures r.Err? ==> r.error == NotFound(IdNotFound(id))
    {
      var found := service.FindBookById(id);
      if found.Err? {
        return Err(found.error);
      }
      r := Ok(Response(HTTP_OK, None, found.value));
    }

    /** `POST /api/books`: 201 with the created book and a Location naming its id. */
    method CreateNewBook(dto: BookDto) returns (r: Response<BookDto>)
      requires service.repository.Valid()
      modifies service.repository
      ensures service.repository.Valid()
      ensures r.status == HTTP_CREATED && r.location == Some(Location(r.body.id))
      ensures r.body.title == dto.title && r.body.author == dto.author
      ensures IsStored(service.repository.rows, r.body)
      ensures r.body.id.Some?
      ensures service.repository.rows == old(service.repository.rows)[r.body.id.value := Row(dto.title, dto.author)]
      ensures dto.id.Some? && dto.id.value in old(service.repository.rows) ==>
        r.body.id == dto.id && service.repository.order == old(service.repository.order)
      ensures !(dto.id.Some? && dto.id.value in old(service.repository.rows)) ==>
        r.body.id.value !in old(service.repository.rows) && r.body.id.value > 0
        && service.repository.order == old(service.repository.order) + [r.body.id.value]
    {
      var created := service.CreateBook(dto);
      r := Response(HTTP_CREATED, Some(Location(created.id)), created);
    }

    /** `DELETE /api/books/{id}`: 200 whether or not the book existed. */
    method DeleteBook(id: int) returns (r: Response<()>)
      requires service.repository.Valid()
      modifies service.repository
      ensures service.repository.Valid()
      ensures r == Response(HTTP_OK, None, ())
      ensures service.repository.rows == old(service.repository.rows) - {id}
      ensures service.repository.order == Without(old(service.repository.order), id)
    {
      service.DeleteBook(id);
      r := Response(HTTP_OK, None, ());
    }

    /** `PUT /api/books/{id}`: the service's merge-update, NotFound passed on. */
    method UpdateBook(id: int, dto: BookDto) returns (r: Result<Response<BookDto>>)
      requires service.repository.Valid()
      modifies service.repository
      ensures service.repository.Valid()
      ensures r.Ok? <==> id in old(service.repository.rows)
      ensures r.Err? ==> r.error == NotFound(IdNotFoundForUpdate(id)) && unchanged(service.repository)
      ensures r.Ok? ==>
        && service.repository.rows == old(service.repository.rows)[id := Merged(old(service.repository.rows)[id], dto)]
        && service.repository.order == old(service.repository.order)
        && r.value == Response(HTTP_OK, None, StoredDto(service.repository.rows, id))
    {
      var updated := service.UpdateBook(id, dto);
      if updated.Err? {
        return Err(updated.error);
      }
      r := Ok(Response(HTTP_OK, None, updated.value));
    }
  }

  /**
   * Creating a book and then fetching it by the id it was given returns the
   * created book, with the title and author that were sent.
   */
  method CreateThenFind(c: BookController, dto: BookDto) returns (created: Response<BookDto>, found: Result<Response<BookDto>>)
    requires c.service.repository.Valid()
    modifies c.service.repository
    ensures created.body.id.Some?
    ensures found == Ok(Response(HTTP_OK, None, created.body))
    ensures created.body.title == dto.title && created.body.author == dto.author
  {
    created := c.CreateNewBook(dto);
    found := c.FindBookById(created.body.id.value);
  }

  /**
   * Deleting a book and then fetching it fails with NotFound, which the
   * exception handler answers with 404.
   */
  method DeleteThenFind(c: BookController, id: int) returns (found: Result<Response<BookDto>>)
    requires c.service.repository.Valid()
    modifies c.service.repository
    ensures found == Err(NotFound(IdNotFound(id)))
    ensures Handle(found.error).status == HTTP_NOT_FOUND
    ensures Handle(found.error).body == ErrorResponseDto(HTTP_NOT_FOUND, "BOOK_NOT_FOUND", IdNotFound(id))
  {
    var _ := c.DeleteBook(id);
    found := c.FindBookById(id);
  }
}
