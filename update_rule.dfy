/**
 * The partial-update rule both service variants apply in `updateBook`: a field
 * of the stored book is overwritten only by an incoming value that is non-null
 * and not blank; a null or blank value keeps what is stored.
 */
module UpdateRule {
  import opened Common
  import opened Books
  import opened Repository

  /** One field under the rule. */
  function MergeField(current: Option<string>, incoming: Option<string>): (r: Option<string>)
    ensures r == incoming || r == current
    ensures r != current ==> HasText(r)
    ensures HasText(incoming) ==> r == incoming
  {
    if HasText(incoming) then incoming else current
  }

  /** The row that an update with `dto` leaves behind; `dto.id` plays no part. */
  function Merged(row: Row, dto: BookDto): (r: Row)
    ensures r.title == dto.title || r.title == row.title
    ensures r.author == dto.author || r.author == row.author
    ensures r.title != row.title ==> HasText(r.title)
    ensures r.author != row.author ==> HasText(r.author)
    ensures HasText(dto.title) ==> r.title == dto.title
    ensures HasText(dto.author) ==> r.author == dto.author
  {
    Row(MergeField(row.title, dto.title), MergeField(row.author, dto.author))
  }

  /** An update whose title and author are null or blank changes nothing. */
  lemma EmptyUpdateKeepsRow(row: Row, dto: BookDto)
    requires !HasText(dto.title) && !HasText(dto.author)
    ensures Merged(row, dto) == row
  {
  }

  /** The update `{title: " ", author: " "}` changes nothing. */
  lemma BlankUpdateKeepsRow(row: Row, id: Option<int>)
    ensures Merged(row, BookDto(id, Some(" "), Some(" "))) == row
  {
  }

  /** An update carrying only a title changes only the title. */
  lemma TitleOnlyUpdate(row: Row, id: Option<int>, title: string)
    requires !IsBlank(title)
    ensures Merged(row, BookDto(id, Some(title), None)) == Row(Some(title), row.author)
  {
  }

  /** An update carrying only an author changes only the author. */
  lemma AuthorOnlyUpdate(row: Row, id: Option<int>, author: string)
    requires !IsBlank(author)
    ensures Merged(row, BookDto(id, None, Some(author))) == Row(row.title, Some(author))
  {
  }

  /** Applying the same update twice is applying it once. */
  lemma MergeIdempotent(row: Row, dto: BookDto)
    ensures Merged(Merged(row, dto), dto) == Merged(row, dto)
  {
  }
}
