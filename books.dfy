/**
 * The book entity (model/Book.java) and its wire form (dto/BookDto.java).
 * The entity is a mutable object with Lombok setters; the DTO is an immutable
 * record. Each converts into the other by copying all three fields, the id
 * included even when it is null.
 */
module Books {
  import opened Common

  /**
   * `BookDto(id, title, author)`. Title and author are declared `@NotNull`, but
   * nothing validates a request body, so either may be null here.
   */
  datatype BookDto = BookDto(id: Option<int>, title: Option<string>, author: Option<string>)
  {
    /** `toEntity`: a new entity with the same id, title and author. */
    method ToEntity() returns (b: Book)
      ensures fresh(b)
      ensures b.id == id && b.title == title && b.author == author
      ensures b.ToDto() == this
    {
      b := new Book(id, title, author);
    }
  }

  /** The `Book` entity: an id assigned by the store, a title and an author. */
  class Book {
    var id: Option<int>
    var title: Option<string>
    var author: Option<string>

    /** Lombok's all-arguments constructor (and the builder, which calls it). */
    constructor (id: Option<int>, title: Option<string>, author: Option<string>)
      ensures this.id == id && this.title == title && this.author == author
    {
      this.id := id;
      this.title := title;
      this.author := author;
    }

    /**
     * `toDto`: a DTO with the same properties as this entity, so entities
     * with equal DTOs agree in every field and `toDto` drops nothing.
     */
    function ToDto(): (d: BookDto)
      reads this
      ensures d.id == id && d.title == title && d.author == author
    {
      BookDto(id, title, author)
    }

    /** Lombok's `setId`; the store uses it to hand out a generated id. */
    method SetId(id: Option<int>)
      modifies this
      ensures this.id == id && title == old(title) && author == old(author)
    {
      this.id := id;
    }

    /** Lombok's `setTitle`: changes the title and nothing else. */
    method SetTitle(title: Option<string>)
      modifies this
      ensures this.title == title && id == old(id) && author == old(author)
    {
      this.title := title;
    }

    /** Lombok's `setAuthor`: changes the author and nothing else. */
    method SetAuthor(author: Option<string>)
      modifies this
      ensures this.author == author && id == old(id) && title == old(title)
    {
      this.author := author;
    }
  }

  /**
   * `book.toDto().toEntity()` is a new entity equal to `book` in every field,
   * a null id included.
   */
  method EntityRoundTrip(book: Book) returns (copy: Book)
    ensures fresh(copy)
    ensures copy.id == book.id && copy.title == book.title && copy.author == book.author
  {
    var dto := book.ToDto();
    copy := dto.ToEntity();
  }
}
