/**
 * The older concrete `BookService` class (service/BookService.java): the same
 * operations as `BookServiceImpl`, written as one expression each, with its
 * own NotFound messages, and an `updateBook` that rebuilds the entity from
 * `findBookById`'s DTO instead of loading it from the store.
 */
module ServiceLegacy {
  import opened Common
  import opened Books
  import opened Repository
  import opened UpdateRule

  /** `"Book with ID " + id + " not found!"`: the id's decimal text, unquoted. */
  function IdNotFound(id: int): (m: string)
    ensures |m| > 24 && m[..13] == "Book with ID " && m[|m| - 11..] == " not found!"
    ensures m[13..|m| - 11] == DecimalString(id)
  {
    "Book with ID " + DecimalString(id) + " not found!"
  }

  /** The title, unquoted. */
  function TitleNotFound(title: string): (m: string)
    ensures |m| == |title| + 27 && m[..16] == "Book with Title " && m[|m| - 11..] == " not found!"
    ensures m[16..|m| - 11] == title
  {
    "Book with Title " + title + " not found!"
  }

  /** The title and the author, both unquoted. */
  function TitleAndAuthorNotFound(title: string, author: string): (m: string)
    ensures |m| == |title| + |author| + 39
    ensures m[..16] == "Book with Title " && m[16..16 + |title|] == title
    ensures m[16 + |title|..28 + |title|] == " and author " && m[28 + |title|..|m| - 11] == author
    ensures m[|m| - 11..] == " not found!"
  {
    "Book with Title " + title + " and author " + author + " not found!"
  }

  /** The legacy NotFound message also names exactly one id. */
  lemma IdNotFoundInjective(a: int, b: int)
    requires IdNotFound(a) == IdNotFound(b)
    ensures a == b
  {
    var m := IdNotFound(a);
    assert DecimalString(a) == m[13..|m| - 11] == DecimalString(b);
    DecimalStringInjective(a, b);
  }

  /** The unquoted pair message has the same ambiguity. */
  lemma TitleAndAuthorNotFoundAmbiguous(t: string, u: string, a: string)
    ensures TitleAndAuthorNotFound(t + " and author " + u, a)
         == TitleAndAuthorNotFound(t, u + " and author " + a)
  {
  }

  class BookService {
    const repository: BookRepository

    constructor (repository: BookRepository)
      ensures this.repository == repository
    {
      this.repository := repository;
    }

    /** `findBookById`: NotFound exactly when the id is absent, else the stored book's DTO. */
    method FindBookById(id: int) returns (r: Result<BookDto>)
      requires repository.Valid()
      ensures r.Ok? <==> id in repository.rows
      ensures r.Ok? ==> r.value == StoredDto(repository.rows, id)
      ensures r.Err? ==> r.error == NotFound(IdNotFound(id))
    {
      var found := repository.FindById(id);
      if found.None? {
        return Err(NotFound(IdNotFound(id)));
      }
      r := Ok(found.value.ToDto());
    }

    /** `findBookByTitle`: NotFound exactly when no book has the title. */
    method FindBookByTitle(title: string) returns (r: Result<BookDto>)
      requires repository.Valid()
      ensures r.Ok? <==> HasTitle(repository.rows, title)
      ensures r.Ok? ==> IsStored(repository.rows, r.value) && r.value.title == Some(title)
      ensures r.Err? ==> r.error == NotFound(TitleNotFound(title))
    {
      var found := repository.FindByTitle(title);
      if found.None? {
        return Err(NotFound(TitleNotFound(title)));
      }
      r := Ok(found.value.ToDto());
    }

    /** `findBookByTitleAndAuthor`: NotFound exactly when no book matches the pair. */
    method FindBookByTitleAndAuthor(title: string, author: string) returns (r: Result<BookDto>)
      requires repository.Valid()
      ensures r.Ok? <==> HasTitleAndAuthor(repository.rows, title, author)
      ensures r.Ok? ==> IsStored(repository.rows, r.value)
      ensures r.Ok? ==> r.value.title == Some(title) && r.value.author == Some(author)
      ensures r.Err? ==> r.error == NotFound(TitleAndAuthorNotFound(title, author))
    {
      var found := repository.FindByTitleAndAuthor(title, author);
      if found.None? {
        return Err(NotFound(TitleAndAuthorNotFound(title, author)));
      }
      r := Ok(found.value.ToDto());
    }

    /** `findAllBooksByAuthor`: the store's listing for the author, as DTOs in the same order. */
    method FindAllBooksByAuthor(author: string) returns (r: seq<BookDto>)
      requires repository.Valid()
      ensures |r| == |WithAuthor(repository.rows, repository.order, author)|
      ensures forall i :: 0 <= i < |r| ==>
        var k := WithAuthor(repository.rows, repository.order, author)[i];
        k in repository.rows && r[i] == StoredDto(repository.rows, k)
      ensures forall d :: d in r <==> IsStored(repository.rows, d) && d.author == Some(author)
    {
      var books := repository.FindAllByAuthor(author);
      r := seq(|books|, i requires 0 <= i < |books| reads books => books[i].ToDto());
      ghost var ids := WithAuthor(repository.rows, repository.order, author);
      assert forall i :: 0 <= i < |ids| ==> ids[i] in ids;
      ListingExact(repository.rows, ids, r, (row: Row) => row.author == Some(author));
    }

    /** `findAllBooks`: every stored book's DTO, in the store's order. */
    method FindAllBooks() returns (r: seq<BookDto>)
      requires repository.Valid()
      ensures |r| == |repository.order|
      ensures forall i :: 0 <= i < |r| ==>
        repository.order[i] in repository.rows && r[i] == StoredDto(repository.rows, repository.order[i])
      ensures forall d :: d in r <==> IsStored(repository.rows, d)
    {
      var books := repository.FindAll();
      r := seq(|books|, i requires 0 <= i < |books| reads books => books[i].ToDto());
      assert forall i :: 0 <= i < |repository.order| ==> repository.order[i] in repository.order;
      ListingExact(repository.rows, repository.order, r, (row: Row) => true);
    }

    /** `createBook`: `toDto(save(toEntity(dto)))`. */
    method CreateBook(dto: BookDto) returns (r: BookDto)
      requires repository.Valid()
      modifies repository
      ensures repository.Valid()
      ensures r.title == dto.title && r.author == dto.author
      ensures r.id.Some? && repository.rows == old(repository.rows)[r.id.value := Row(dto.title, dto.author)]
      ensures IsStored(repository.rows, r)
      ensures dto.id.Some? && dto.id.value in old(repository.rows) ==>
        r.id == dto.id && repository.order == old(repository.order)
      ensures !(dto.id.Some? && dto.id.value in old(repository.rows)) ==>
        r.id.value !in old(repository.rows) && r.id.value > 0
        && repository.order == old(repository.order) + [r.id.value]
    {
      var entity := dto.ToEntity();
      var saved := repository.Save(entity);
      r := saved.ToDto();
    }

    /** `deleteBook`: deletes unconditionally and never says whether a row existed. */
    method DeleteBook(id: int)
      requires repository.Valid()
      modifies repository
      ensures repository.Valid()
      ensures repository.rows == old(repository.rows) - {id}
      ensures repository.order == Without(old(repository.order), id)
    {
      repository.DeleteById(id);
    }

    /**
     * `updateBook`: fails through `findBookById` before anything is saved when
     * the id is absent; otherwise the entity rebuilt from that DTO, which
     * carries the original id, takes the fields that have text and is saved.
     */
    method UpdateBook(id: int, dto: BookDto) returns (r: Result<BookDto>)
      requires repository.Valid()
      modifies repository
      ensures repository.Valid()
      ensures r.Ok? <==> id in old(repository.rows)
      ensures r.Err? ==> r.error == NotFound(IdNotFound(id)) && unchanged(repository)
      ensures r.Ok? ==>
        && repository.rows == old(repository.rows)[id := Merged(old(repository.rows)[id], dto)]
        && repository.order == old(repository.order)
        && r.value == StoredDto(repository.rows, id)
    {
      var current := FindBookById(id);
      if current.Err? {
        return Err(current.error);
      }
      var existing := current.value.ToEntity();
      if HasText(dto.title) {
        existing.SetTitle(dto.title);
      }
      if HasText(dto.author) {
        existing.SetAuthor(dto.author);
      }
      var updated := repository.Save(existing);
      r := Ok(updated.ToDto());
    }
  }
}
