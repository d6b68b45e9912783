/**
 * `BookServiceImpl` (service/BookServiceImpl.java): lookups that fail with
 * `BookNotFoundException` when nothing matches, listings mapped element by
 * element to DTOs, and create, delete and the partial update over the store.
 */
module ServiceImpl {
  import opened Common
  import opened Books
  import opened Repository
  import opened UpdateRule

  /** `"Book with ID '" + id + "' not found!"`: the id's decimal text between fixed delimiters. */
  function IdNotFound(id: int): (m: string)
    ensures |m| > 26 && m[..14] == "Book with ID '" && m[|m| - 12..] == "' not found!"
    ensures m[14..|m| - 12] == DecimalString(id)
  {
    "Book with ID '" + DecimalString(id) + "' not found!"
  }

  /** As written in the source, without a quote after the title. */
  function TitleNotFound(title: string): (m: string)
    ensures |m| == |title| + 28 && m[..17] == "Book with title '" && m[|m| - 11..] == " not found!"
    ensures m[17..|m| - 11] == title
  {
    "Book with title '" + title + " not found!"
  }

  /** The title and the author, each in single quotes. */
  function TitleAndAuthorNotFound(title: string, author: string): (m: string)
    ensures |m| == |title| + |author| + 43
    ensures m[..17] == "Book with title '" && m[17..17 + |title|] == title
    ensures m[17 + |title|..31 + |title|] == "' and author '" && m[31 + |title|..|m| - 12] == author
    ensures m[|m| - 12..] == "' not found!"
  {
    "Book with title '" + title + "' and author '" + author + "' not found!"
  }

  /** The update's own message: the id's decimal text, then "not found for update". */
  function IdNotFoundForUpdate(id: int): (m: string)
    ensures |m| > 37 && m[..14] == "Book with ID '" && m[|m| - 23..] == "' not found for update!"
    ensures m[14..|m| - 23] == DecimalString(id)
  {
    "Book with ID '" + DecimalString(id) + "' not found for update!"
  }

  /** A NotFound message from `findBookById` names exactly one id. */
  lemma IdNotFoundInjective(a: int, b: int)
    requires IdNotFound(a) == IdNotFound(b)
    ensures a == b
  {
    var m := IdNotFound(a);
    assert DecimalString(a) == m[14..|m| - 12] == DecimalString(b);
    DecimalStringInjective(a, b);
  }

  /** A NotFound message from `updateBook` names exactly one id. */
  lemma IdNotFoundForUpdateInjective(a: int, b: int)
    requires IdNotFoundForUpdate(a) == IdNotFoundForUpdate(b)
    ensures a == b
  {
    var m := IdNotFoundForUpdate(a);
    assert DecimalString(a) == m[14..|m| - 23] == DecimalString(b);
    DecimalStringInjective(a, b);
  }

  /** A title-lookup message names exactly one title, the missing quote notwithstanding. */
  lemma TitleNotFoundInjective(a: string, b: string)
    requires TitleNotFound(a) == TitleNotFound(b)
    ensures a == b
  {
  }

  /**
   * The pair message does not always name one pair: a title that itself
   * contains "' and author '" reads the same as a different split, for
   * example ("x' and author 'y", "z") and ("x", "y' and author 'z").
   */
  lemma TitleAndAuthorNotFoundAmbiguous(t: string, u: string, a: string)
    ensures TitleAndAuthorNotFound(t + "' and author '" + u, a)
         == TitleAndAuthorNotFound(t, u + "' and author '" + a)
  {
  }

  class BookServiceImpl {
    const repository: BookRepository

    constructor (repository: BookRepository)
      ensures this.repository == repository
    {
      this.repository := repository;
    }

    /** `findBookById`: the stored book's DTO, or NotFound when the id is absent. */
    method FindBookById(id: int) returns (r: Result<BookDto>)
      requires repository.Valid()
      ensures r.Ok? <==> id in repository.rows
      ensures r.Ok? ==> r.value == StoredDto(repository.rows, id)
      ensures r.Err? ==> r.error == NotFound(IdNotFound(id))
    {
      var found := repository.FindById(id);
      match found
      case Some(book) =>
        r := Ok(book.ToDto());
      case None =>
        r := Err(NotFound(IdNotFound(id)));
    }

    /** `findBookByTitle`: a stored book with that title, or NotFound when there is none. */
    method FindBookByTitle(title: string) returns (r: Result<BookDto>)
      requires repository.Valid()
      ensures r.Ok? <==> HasTitle(repository.rows, title)
      ensures r.Ok? ==> IsStored(repository.rows, r.value) && r.value.title == Some(title)
      ensures r.Err? ==> r.error == NotFound(TitleNotFound(title))
    {
      var found := repository.FindByTitle(title);
      match found
      case Some(book) =>
        r := Ok(book.ToDto());
      case None =>
        r := Err(NotFound(TitleNotFound(title)));
    }

    /** `findBookByTitleAndAuthor`: a stored book matching both, or NotFound. */
    method FindBookByTitleAndAuthor(title: string, author: string) returns (r: Result<BookDto>)
      requires repository.Valid()
      ensures r.Ok? <==> HasTitleAndAuthor(repository.rows, title, author)
      ensures r.Ok? ==> IsStored(repository.rows, r.value)
      ensures r.Ok? ==> r.value.title == Some(title) && r.value.author == Some(author)
      ensures r.Err? ==> r.error == NotFound(TitleAndAuthorNotFound(title, author))
    {
      var found := repository.FindByTitleAndAuthor(title, author);
      match found
      case Some(book) =>
        r := Ok(book.ToDto());
      case None =>
        r := Err(NotFound(TitleAndAuthorNotFound(title, author)));
    }

    /**
     * `findAllBooksByAuthor`: the store's listing for the author, each entry
     * turned into its DTO in place; it never fails and may be empty.
     */
    method FindAllBooksByAuthor(author: string) returns (r: seq<BookDto>)
      requires repository.Valid()
      ensures |r| == |WithAuthor(repository.rows, repository.order, author)|
      ensures forall i :: 0 <= i < |r| ==>
        var k := WithAuthor(repository.rows, repository.order, author)[i];
        k in repository.rows && r[i] == StoredDto(repository.rows, k)
      ensures forall d :: d in r <==> IsStored(repository.rows, d) && d.author == Some(author)
    {
      var books := repository.FindAllByAuthor(author);
      r := seq(|books|, i requires 0 <= i < |books| reads books => books[i].ToDto());
      ghost var ids := WithAuthor(repository.rows, repository.order, author);
      assert forall i :: 0 <= i < |ids| ==> ids[i] in ids;
      ListingExact(repository.rows, ids, r, (row: Row) => row.author == Some(author));
    }

    /** `findAllBooks`: every stored book's DTO, in the store's order; it never fails. */
    method FindAllBooks() returns (r: seq<BookDto>)
      requires repository.Valid()
      ensures |r| == |repository.order|
      ensures forall i :: 0 <= i < |r| ==>
        repository.order[i] in repository.rows && r[i] == StoredDto(repository.rows, repository.order[i])
      ensures forall d :: d in r <==> IsStored(repository.rows, d)
    {
      var books := repository.FindAll();
      r := seq(|books|, i requires 0 <= i < |books| reads books => books[i].ToDto());
      assert forall i :: 0 <= i < |repository.order| ==> repository.order[i] in repository.order;
      ListingExact(repository.rows, repository.order, r, (row: Row) => true);
    }

    /**
     * `createBook`: saves the entity built from the DTO, id included, and
     * returns the saved entity's DTO. A DTO whose id names a stored book
     * overwrites that book; any other DTO gets a new id.
     */
    method CreateBook(dto: BookDto) returns (r: BookDto)
      requires repository.Valid()
      modifies repository
      ensures repository.Valid()
      ensures r.title == dto.title && r.author == dto.author
      ensures r.id.Some? && repository.rows == old(repository.rows)[r.id.value := Row(dto.title, dto.author)]
      ensures IsStored(repository.rows, r)
      ensures dto.id.Some? && dto.id.value in old(repository.rows) ==>
        r.id == dto.id && repository.order == old(repository.order)
      ensures !(dto.id.Some? && dto.id.value in old(repository.rows)) ==>
        r.id.value !in old(repository.rows) && r.id.value > 0
        && repository.order == old(repository.order) + [r.id.value]
    {
      var entity := dto.ToEntity();
      var saved := repository.Save(entity);
      r := saved.ToDto();
    }

    /** `deleteBook`: removes the row if present; reports nothing either way. */
    method DeleteBook(id: int)
      requires repository.Valid()
      modifies repository
      ensures repository.Valid()
      ensures repository.rows == old(repository.rows) - {id}
      ensures repository.order == Without(old(repository.order), id)
    {
      repository.DeleteById(id);
    }

    /**
     * `updateBook`: NotFound, with the store untouched, when the id is absent;
     * otherwise the stored book takes the DTO's title and author where they
     * have text, keeps its id, and no other row changes.
     */
    method UpdateBook(id: int, dto: BookDto) returns (r: Result<BookDto>)
      requires repository.Valid()
      modifies repository
      ensures repository.Valid()
      ensures r.Ok? <==> id in old(repository.rows)
      ensures r.Err? ==> r.error == NotFound(IdNotFoundForUpdate(id)) && unchanged(repository)
      ensures r.Ok? ==>
        && repository.rows == old(repository.rows)[id := Merged(old(repository.rows)[id], dto)]
        && repository.order == old(repository.order)
        && r.value == StoredDto(repository.rows, id)
    {
      var found := repository.FindById(id);
      if found.None? {
        return Err(NotFound(IdNotFoundForUpdate(id)));
      }
      var existing := found.value;
      if HasText(dto.title) {
        existing.SetTitle(dto.title);
      }
      if HasText(dto.author) {
        existing.SetAuthor(dto.author);
      }
      var updated := repository.Save(existing);
      r := Ok(updated.ToDto());
    }
  }
}
