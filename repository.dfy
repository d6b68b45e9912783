/**
 * The store behind `BookRepository` (repository/BookRepository.java): a table
 * of rows keyed by id. Single-row lookups and listings hand out entity objects
 * built from the rows; `Save` writes an entity back, generating an id for a
 * new row. Listings come in ascending id order, which is also insertion order
 * because generated ids only grow.
 */
module Repository {
  import opened Common
  import opened Books

  /** A stored row: the columns other than the primary key. */
  datatype Row = Row(title: Option<string>, author: Option<string>)

  /** The DTO of the book stored under `id`. */
  function StoredDto(rows: map<int, Row>, id: int): BookDto
    requires id in rows
  {
    BookDto(Some(id), rows[id].title, rows[id].author)
  }

  /** `d` is the DTO of some stored book. */
  predicate IsStored(rows: map<int, Row>, d: BookDto) {
    d.id.Some? && d.id.value in rows && d == StoredDto(rows, d.id.value)
  }

  predicate HasTitle(rows: map<int, Row>, title: string) {
    exists k :: k in rows && rows[k].title == Some(title)
  }

  predicate HasTitleAndAuthor(rows: map<int, Row>, title: string, author: string) {
    exists k :: k in rows && rows[k].title == Some(title) && rows[k].author == Some(author)
  }

  predicate Increasing(ids: seq<int>) {
    forall i, j :: 0 <= i < j < |ids| ==> ids[i] < ids[j]
  }

  /** The ids of `ids` that satisfy `keep`, in their original order. */
  function Keep(ids: seq<int>, keep: int -> bool): (r: seq<int>)
    ensures forall x :: x in r <==> x in ids && keep(x)
    ensures Increasing(ids) ==> Increasing(r)
  {
    if ids == [] then []
    else
      var rest := Keep(ids[1..], keep);
      assert Increasing(ids) ==> forall x :: x in rest ==> ids[0] < x by {
        if Increasing(ids) {
          forall x | x in rest ensures ids[0] < x {
            var j :| 0 <= j < |ids[1..]| && ids[1..][j] == x;
            assert ids[j + 1] == x;
          }
        }
      }
      assert Increasing(ids) ==> Increasing(ids[1..]);
      if keep(ids[0]) then
        var r := [ids[0]] + rest;
        assert Increasing(ids) ==> Increasing(r) by {
          if Increasing(ids) {
            forall i, j | 0 <= i < j < |r| ensures r[i] < r[j] {
              assert r[j] == rest[j - 1] && rest[j - 1] in rest;
              if i > 0 {
                assert r[i] == rest[i - 1];
              }
            }
          }
        }
        r
      else rest
  }

  /** The listing `ids` with `id` taken out. */
  function Without(ids: seq<int>, id: int): (r: seq<int>)
    ensures forall x :: x in r <==> x in ids && x != id
    ensures Increasing(ids) ==> Increasing(r)
  {
    Keep(ids, x => x != id)
  }

  /** The ids of the listing `ids` whose row has author `author`. */
  function WithAuthor(rows: map<int, Row>, ids: seq<int>, author: string): seq<int> {
    Keep(ids, k => k in rows && rows[k].author == Some(author))
  }

  /**
   * A listing that names exactly the stored ids whose rows satisfy `keep`,
   * turned into DTOs element by element, holds exactly the DTOs of those
   * stored books: none is missing and nothing else appears.
   */
  lemma ListingExact(rows: map<int, Row>, ids: seq<int>, ds: seq<BookDto>, keep: Row -> bool)
    requires forall k :: k in ids <==> k in rows && keep(rows[k])
    requires |ds| == |ids|
    requires forall i :: 0 <= i < |ids| ==> ids[i] in rows && ds[i] == StoredDto(rows, ids[i])
    ensures forall d :: d in ds <==> IsStored(rows, d) && keep(Row(d.title, d.author))
  {
  }

  class BookRepository {
    /** The table: row contents by primary key. */
    var rows: map<int, Row>
    /** The primary keys in ascending order: the order listings come in. */
    var order: seq<int>
    /** The identity column's next value. */
    var nextId: int

    ghost predicate Valid()
      reads this
    {
      && nextId >= 1
      && (forall k :: k in rows ==> 0 < k < nextId)
      && (forall k :: k in rows <==> k in order)
      && Increasing(order)
    }

    /** An empty table. */
    constructor ()
      ensures Valid() && rows == map[] && order == []
    {
      rows, order, nextId := map[], [], 1;
    }

    /** `findById`: the stored book as a new entity, or nothing. */
    method FindById(id: int) returns (b: Option<Book>)
      requires Valid()
      ensures b.Some? <==> id in rows
      ensures b.Some? ==> fresh(b.value) && b.value.ToDto() == StoredDto(rows, id)
    {
      if id in rows {
        var book := new Book(Some(id), rows[id].title, rows[id].author);
        b := Some(book);
      } else {
        b := None;
      }
    }

    /**
     * `findByTitle`. Which row comes back when several share the title is up to
     * the persistence provider; here it is any one of them.
     */
    method FindByTitle(title: string) returns (b: Option<Book>)
      requires Valid()
      ensures b.Some? <==> HasTitle(rows, title)
      ensures b.Some? ==> fresh(b.value) && IsStored(rows, b.value.ToDto())
      ensures b.Some? ==> b.value.title == Some(title)
    {
      if k :| k in rows && rows[k].title == Some(title) {
        var book := new Book(Some(k), rows[k].title, rows[k].author);
        b := Some(book);
      } else {
        b := None;
      }
    }

    /** `findByTitleAndAuthor`, with the same latitude as `FindByTitle`. */
    method FindByTitleAndAuthor(title: string, author: string) returns (b: Option<Book>)
      requires Valid()
      ensures b.Some? <==> HasTitleAndAuthor(rows, title, author)
      ensures b.Some? ==> fresh(b.value) && IsStored(rows, b.value.ToDto())
      ensures b.Some? ==> b.value.title == Some(title) && b.value.author == Some(author)
    {
      if k :| k in rows && rows[k].title == Some(title) && rows[k].author == Some(author) {
        var book := new Book(Some(k), rows[k].title, rows[k].author);
        b := Some(book);
      } else {
        b := None;
      }
    }

    /** One new entity per listed id, in the listing's order. */
    method Load(ids: seq<int>) returns (bs: seq<Book>)
      requires forall i :: 0 <= i < |ids| ==> ids[i] in rows
      ensures |bs| == |ids|
      ensures forall i :: 0 <= i < |bs| ==> fresh(bs[i]) && bs[i].ToDto() == StoredDto(rows, ids[i])
    {
      bs := [];
      for i := 0 to |ids|
        invariant |bs| == i
        invariant forall j :: 0 <= j < i ==> fresh(bs[j]) && bs[j].ToDto() == StoredDto(rows, ids[j])
      {
        var book := new Book(Some(ids[i]), rows[ids[i]].title, rows[ids[i]].author);
        bs := bs + [book];
      }
    }

    /** `findAllByAuthor`: the books of one author, in table order. */
    method FindAllByAuthor(author: string) returns (bs: seq<Book>)
      requires Valid()
      ensures |bs| == |WithAuthor(rows, order, author)|
      ensures forall i :: 0 <= i < |bs| ==>
        fresh(bs[i]) && bs[i].ToDto() == StoredDto(rows, WithAuthor(rows, order, author)[i])
    {
      var ids := WithAuthor(rows, order, author);
      assert forall i :: 0 <= i < |ids| ==> ids[i] in ids;
      bs := Load(ids);
    }

    /** `findAll`: every book, in table order. */
    method FindAll() returns (bs: seq<Book>)
      requires Valid()
      ensures |bs| == |order|
      ensures forall i :: 0 <= i < |bs| ==> fresh(bs[i]) && bs[i].ToDto() == StoredDto(rows, order[i])
    {
      assert forall i :: 0 <= i < |order| ==> order[i] in order;
      bs := Load(order);
    }

    /**
     * `save`. An entity whose id names a stored row overwrites that row. Any
     * other entity is inserted under a newly generated id, which is written
     * into the entity; the entity is returned.
     */
    method Save(b: Book) returns (saved: Book)
      requires Valid()
      modifies this, b
      ensures Valid()
      ensures saved == b && b.title == old(b.title) && b.author == old(b.author)
      ensures b.id.Some? && rows == old(rows)[b.id.value := Row(b.title, b.author)]
      ensures old(b.id).Some? && old(b.id).value in old(rows) ==>
        b.id == old(b.id) && order == old(order)
      ensures !(old(b.id).Some? && old(b.id).value in old(rows)) ==>
        b.id.value !in old(rows) && b.id.value > 0 && order == old(order) + [b.id.value]
    {
      if b.id.Some? && b.id.value in rows {
        rows := rows[b.id.value := Row(b.title, b.author)];
      } else {
        var id := nextId;
        assert forall i :: 0 <= i < |order| ==> order[i] in order;
        assert forall i :: 0 <= i < |order| ==> order[i] < id;
        b.SetId(Some(id));
        rows := rows[id := Row(b.title, b.author)];
        order := order + [id];
        nextId := nextId + 1;
      }
      saved := b;
    }

    /** `deleteById`: removes the row if there is one; says nothing either way. */
    method DeleteById(id: int)
      requires Valid()
      modifies this
      ensures Valid()
      ensures rows == old(rows) - {id} && order == Without(old(order), id)
    {
      var kept := Without(order, id);
      assert Increasing(kept);
      rows, order := rows - {id}, kept;
    }
  }
}
