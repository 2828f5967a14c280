/** The book table and the queries declared on it (repositories/BookRepository.java), with the
    store's constraints from models/Book.java: the @NotNull columns and the unique isbn. */
module BookRepositories {
  import opened Wrappers
  import opened Errors
  import opened Books
  import opened Filters

  // ---------------------------------------------------------------------------------------------
  // The hand-written @Query and the derived finders, over the table as a sequence of rows.

  /** The WHERE clause of `findAllByPublisherAndGenreAndYear`:
      `(:publisher IS NULL OR b.publisher = :publisher) OR (:genre IS NULL OR b.genre = :genre)
       OR (:year IS NULL OR b.year = :year)`. A null column never equals a parameter. */
  predicate PublisherGenreYearMatch(b: Book, publisher: Option<string>, genre: Option<string>, year: Option<string>) {
    || (publisher.None? || b.publisher == publisher)
    || (genre.None? || b.genre == genre)
    || (year.None? || b.year == year)
  }

  function FindAllByPublisherAndGenreAndYear(
    rows: seq<Book>, publisher: Option<string>, genre: Option<string>, year: Option<string>): (r: seq<Book>)
    ensures |r| <= |rows|
    ensures forall i :: 0 <= i < |r| ==> r[i] in rows && PublisherGenreYearMatch(r[i], publisher, genre, year)
    ensures forall i :: 0 <= i < |rows| && PublisherGenreYearMatch(rows[i], publisher, genre, year) ==> rows[i] in r
  {
    Filter(rows, (b: Book) => PublisherGenreYearMatch(b, publisher, genre, year))
  }

  /** One null parameter makes its group true, and the groups are OR-ed: every row is returned. */
  lemma AnyNullParameterReturnsAll(rows: seq<Book>, publisher: Option<string>, genre: Option<string>, year: Option<string>)
    requires publisher.None? || genre.None? || year.None?
    ensures FindAllByPublisherAndGenreAndYear(rows, publisher, genre, year) == rows
  {
    FilterKeepsAll(rows, (b: Book) => PublisherGenreYearMatch(b, publisher, genre, year));
  }

  /** With all three parameters given, a row matches when ANY one of its columns equals its
      parameter exactly (no substring, no case folding). */
  lemma AllParametersGivenIsDisjunction(b: Book, publisher: string, genre: string, year: string)
    ensures PublisherGenreYearMatch(b, Some(publisher), Some(genre), Some(year)) <==>
      b.publisher == Some(publisher) || b.genre == Some(genre) || b.year == Some(year)
  {
  }

  /** A concrete row that matches on its year alone although publisher and genre differ, and one
      that differs only in the case of its publisher and does not match. */
  lemma OrNotAnd()
    ensures var b := NewBook.(publisher := Some("DEBATE"), genre := Some("Drama"), year := Some("2016"));
            PublisherGenreYearMatch(b, Some("Planeta"), Some("Comedy"), Some("2016"))
            && !PublisherGenreYearMatch(b, Some("debate"), Some("Comedy"), Some("2000"))
  {
  }

  /** `findByIsbn`. */
  function FindByIsbn(rows: seq<Book>, isbn: string): (r: Option<Book>)
    ensures r.None? <==> forall i :: 0 <= i < |rows| ==> rows[i].isbn != Some(isbn)
    ensures r.Some? ==> r.value in rows && r.value.isbn == Some(isbn)
  {
    FindFirst(rows, (b: Book) => b.isbn == Some(isbn))
  }

  /** No two rows share an isbn. */
  predicate UniqueIsbns(rows: seq<Book>) {
    forall i, j :: 0 <= i < |rows| && 0 <= j < |rows| && rows[i].isbn == rows[j].isbn ==> rows[i] == rows[j]
  }

  /** With unique isbns the row `findByIsbn` returns is THE row with that isbn. */
  lemma FindByIsbnIsTheOnlyMatch(rows: seq<Book>, b: Book)
    requires UniqueIsbns(rows) && b in rows && b.isbn.Some?
    ensures FindByIsbn(rows, b.isbn.value) == Some(b)
  {
    FindFirstOfUnique(rows, (x: Book) => x.isbn == b.isbn, b);
  }

  /** `findOneByAuthor`: the first row by that author, or empty. */
  function FindOneByAuthor(rows: seq<Book>, author: string): (r: Option<Book>)
    ensures r.None? <==> forall i :: 0 <= i < |rows| ==> rows[i].author != Some(author)
    ensures r.Some? ==> r.value in rows && r.value.author == Some(author)
  {
    FindFirst(rows, (b: Book) => b.author == Some(author))
  }

  // ---------------------------------------------------------------------------------------------
  // The table.

  /** The stored books by id; identifiers come from a counter. */
  class BookRepository {
    var rows: map<int, Book>
    var nextId: int

    /** Every row is keyed by its own id, drawn below the counter, satisfies the @NotNull
        constraints, and no two rows share an isbn. */
    ghost predicate Valid()
      reads this
    {
      && 1 <= nextId
      && (forall k :: k in rows ==> 1 <= k < nextId && rows[k].id == Some(k) && Storable(rows[k]))
      && (forall k, k' :: k in rows && k' in rows && rows[k].isbn == rows[k'].isbn ==> k == k')
    }

    constructor ()
      ensures Valid() && rows == map[]
    {
      rows, nextId := map[], 1;
    }

    function FindById(id: int): Option<Book>
      reads this
    {
      if id in rows then Some(rows[id]) else None
    }

    function ExistsById(id: int): (r: bool)
      reads this
      ensures r <==> FindById(id).Some?
    {
      id in rows
    }

    /** The key `save` writes: the book's own id when that row exists, else a new identifier. */
    function TargetId(b: Book): int
      reads this
    {
      if b.id.Some? && b.id.value in rows then b.id.value else nextId
    }

    /** Some row other than `except` already has this isbn. */
    predicate IsbnTaken(isbn: Option<string>, except: int)
      reads this
    {
      exists k :: k in rows && k != except && rows[k].isbn == isbn
    }

    /** `save`: refused with NotNullViolation when a @NotNull column is null and with
        DataIntegrityViolation when another row has the isbn; otherwise the row under TargetId(b)
        becomes `b` with that id. Nothing changes on failure. */
    method Save(b: Book) returns (r: Result<Book, ErrorKind>)
      requires Valid()
      modifies this
      ensures Valid()
      ensures r.Success? <==> Storable(b) && !old(IsbnTaken(b.isbn, TargetId(b)))
      ensures !Storable(b) ==> r == Failure(NotNullViolation)
      ensures Storable(b) && old(IsbnTaken(b.isbn, TargetId(b))) ==> r == Failure(DataIntegrityViolation)
      ensures r.Failure? ==> rows == old(rows) && nextId == old(nextId)
      ensures r.Success? ==>
        && r.value == b.(id := Some(old(TargetId(b))))
        && rows == old(rows)[old(TargetId(b)) := r.value]
        && (old(TargetId(b)) in old(rows) <==> nextId == old(nextId))
    {
      if !Storable(b) {
        return Failure(NotNullViolation);
      }
      var k := TargetId(b);
      if IsbnTaken(b.isbn, k) {
        return Failure(DataIntegrityViolation);
      }
      var saved := b.(id := Some(k));
      if k !in rows {
        nextId := nextId + 1;
      }
      rows := rows[k := saved];
      return Success(saved);
    }

    /** `delete(entity)`: removes the row with the entity's id; an entity without an id, or whose
        row is gone, is ignored. */
    method Delete(b: Book)
      requires Valid()
      modifies this
      ensures Valid()
      ensures rows == if b.id.Some? then old(rows) - {b.id.value} else old(rows)
      ensures nextId == old(nextId)
    {
      if b.id.Some? {
        rows := rows - {b.id.value};
      }
    }

    /** The rows with identifiers from `from` upwards, in identifier order. */
    function RowsFrom(from: int): seq<Book>
      reads this
      decreases nextId - from
    {
      if from >= nextId then []
      else (if from in rows then [rows[from]] else []) + RowsFrom(from + 1)
    }

    /** The scan from `from` lists rows by strictly increasing identifier, all at least `from`. */
    lemma {:induction false} RowsFromIncreasing(from: int)
      requires Valid() && 1 <= from
      ensures forall i :: 0 <= i < |RowsFrom(from)| ==> RowsFrom(from)[i].id.Some? && from <= RowsFrom(from)[i].id.value
      ensures forall i, j :: 0 <= i < j < |RowsFrom(from)| ==> RowsFrom(from)[i].id.value < RowsFrom(from)[j].id.value
      decreases nextId - from
    {
      if from < nextId {
        RowsFromIncreasing(from + 1);
        var rest := RowsFrom(from + 1);
        if from in rows {
          assert RowsFrom(from) == [rows[from]] + rest;
          forall i, j | 0 <= i < j < |RowsFrom(from)|
            ensures RowsFrom(from)[i].id.value < RowsFrom(from)[j].id.value
          {
            if i == 0 {
              assert RowsFrom(from)[j] == rest[j - 1];
            } else {
              assert RowsFrom(from)[i] == rest[i - 1] && RowsFrom(from)[j] == rest[j - 1];
            }
          }
        } else {
          assert RowsFrom(from) == rest;
        }
      }
    }

    /** The scan from `from` has one entry per stored identifier from `from` up to the counter. */
    lemma {:induction false} RowsFromLength(from: int)
      ensures |RowsFrom(from)| == |set k | k in rows && from <= k < nextId|
      decreases nextId - from
    {
      var above := set k | k in rows && from <= k < nextId;
      if from < nextId {
        RowsFromLength(from + 1);
        var aboveNext := set k | k in rows && from + 1 <= k < nextId;
        if from in rows {
          assert above == {from} + aboveNext;
        } else {
          assert above == aboveNext;
        }
      } else {
        assert above == {};
      }
    }

    /** The whole table as the store scans it (`findAll()`). */
    function Rows(): seq<Book>
      reads this
    {
      RowsFrom(1)
    }

    lemma {:induction false} RowsFromAreTheStoredRows(from: int, b: Book)
      requires Valid() && 1 <= from
      ensures b in RowsFrom(from) <==> exists k :: from <= k && k in rows && rows[k] == b
      decreases nextId - from
    {
      if from < nextId {
        RowsFromAreTheStoredRows(from + 1, b);
        if b in RowsFrom(from) && b !in RowsFrom(from + 1) {
          assert from in rows && rows[from] == b;
        }
      }
    }

    /** The scan returns exactly the stored books, each row once and by increasing identifier, and
        keeps the table's constraints. */
    lemma RowsAreTheStoredBooks()
      requires Valid()
      ensures forall b :: b in Rows() <==> b in rows.Values
      ensures |Rows()| == |rows|
      ensures forall i :: 0 <= i < |Rows()| ==> Rows()[i].id.Some?
      ensures forall i, j :: 0 <= i < j < |Rows()| ==> Rows()[i].id.value < Rows()[j].id.value
      ensures forall i, j :: 0 <= i < j < |Rows()| ==> Rows()[i] != Rows()[j]
      ensures UniqueIsbns(Rows())
    {
      RowsFromIncreasing(1);
      RowsFromLength(1);
      assert (set k | k in rows && 1 <= k < nextId) == rows.Keys;
      forall b ensures b in Rows() <==> b in rows.Values {
        RowsFromAreTheStoredRows(1, b);
      }
      forall i, j | 0 <= i < |Rows()| && 0 <= j < |Rows()| && Rows()[i].isbn == Rows()[j].isbn
        ensures Rows()[i] == Rows()[j]
      {
        var bi, bj := Rows()[i], Rows()[j];
        RowsFromAreTheStoredRows(1, bi);
        RowsFromAreTheStoredRows(1, bj);
      }
    }

    /** The query result holds only stored books. */
    lemma QueryReturnsStoredBooks(publisher: Option<string>, genre: Option<string>, year: Option<string>)
      requires Valid()
      ensures forall b :: b in FindAllByPublisherAndGenreAndYear(Rows(), publisher, genre, year) ==> b in rows.Values
    {
      RowsAreTheStoredBooks();
    }
  }
}
