/** The User entity: guarded setters and the owned-book list with duplicate and absence detection
    (models/User.java). */
module Users {
  import opened Wrappers
  import opened Errors
  import opened Dates
  import opened Books

  /** A user as a value, as the store keeps it. The password is the already-encoded hash. */
  datatype UserRecord = UserRecord(
    id: Option<int>,
    username: Option<string>,
    password: Option<string>,
    name: Option<string>,
    birthdate: Option<Date>,
    books: seq<Book>)

  /** The @NotNull columns are set (the book list is never null). */
  predicate Storable(u: UserRecord) {
    u.username.Some? && u.name.Some? && u.birthdate.Some?
  }

  /** Guava's `Strings.isNullOrEmpty`. */
  predicate NullOrEmpty(s: Option<string>) {
    s.None? || s.value == ""
  }

  /** No book appears twice. */
  predicate NoDuplicates(books: seq<Book>) {
    forall i, j :: 0 <= i < j < |books| ==> books[i] != books[j]
  }

  /** `books.indexOf(b)`: the first position whose element `b.equals`, None for -1; each
      comparison has `b` as receiver and may throw. */
  function IndexOf(books: seq<Book>, b: Book): (r: Result<Option<nat>, ErrorKind>)
    ensures r.Success? && r.value.Some? ==>
      r.value.value < |books| && books[r.value.value] == b && b !in books[..r.value.value]
    ensures r.Success? && r.value.None? ==> b !in books
    ensures r.Failure? ==> r.error == NullPointer && !Comparable(b)
    ensures Comparable(b) ==> r.Success?
  {
    if books == [] then Success(None)
    else
      match BookEquals(b, books[0])
      case Failure(e) => Failure(e)
      case Success(eq) =>
        if eq then Success(Some(0))
        else
          match IndexOf(books[1..], b)
          case Failure(e) => Failure(e)
          case Success(None) => Success(None)
          case Success(Some(i)) =>
            assert books[1..][..i] == books[1..i + 1];
            Success(Some(i + 1))
  }

  /** The list without its i-th element, the rest in order. */
  function RemoveAt(books: seq<Book>, i: nat): (r: seq<Book>)
    requires i < |books|
    ensures |r| == |books| - 1
    ensures forall k :: 0 <= k < i ==> r[k] == books[k]
    ensures forall k :: i <= k < |r| ==> r[k] == books[k + 1]
  {
    books[..i] + books[i + 1..]
  }

  /** Appending a book that is absent keeps the list duplicate-free. */
  lemma AppendKeepsNoDuplicates(books: seq<Book>, b: Book)
    requires NoDuplicates(books) && b !in books
    ensures NoDuplicates(books + [b])
  {
  }

  /** Removing the only occurrence of a book from a duplicate-free list leaves it absent and the
      list duplicate-free. */
  lemma RemoveKeepsNoDuplicates(books: seq<Book>, i: nat)
    requires NoDuplicates(books) && i < |books|
    ensures NoDuplicates(RemoveAt(books, i))
    ensures books[i] !in RemoveAt(books, i)
  {
    var r := RemoveAt(books, i);
    forall k | 0 <= k < |r| ensures r[k] != books[i] {
      if k >= i { assert r[k] == books[k + 1]; }
    }
  }

  /** A book can only be found where it is: once appended to a list without it, the first match is
      the new last position, and removing it there gives back the original list. */
  lemma {:induction false} AppendThenRemoveRestores(books: seq<Book>, b: Book)
    requires Comparable(b) && IndexOf(books, b) == Success(None)
    ensures IndexOf(books + [b], b) == Success(Some(|books|))
    ensures RemoveAt(books + [b], |books|) == books
  {
    if books == [] {
      assert [b][1..] == [];
    } else {
      assert (books + [b])[1..] == books[1..] + [b];
      assert books[0] != b;
      AppendThenRemoveRestores(books[1..], b);
    }
    assert (books + [b])[..|books|] == books;
  }

  /** The JPA entity. Every field is assignable; the setters guard three of them. */
  class User {
    var id: Option<int>
    var username: Option<string>
    var password: Option<string>
    var name: Option<string>
    var birthdate: Option<Date>
    var books: seq<Book>

    function Snapshot(): UserRecord
      reads this
    {
      UserRecord(id, username, password, name, birthdate, books)
    }

    /** Lombok's no-argument constructor: every field null, the book list a new empty list. */
    constructor ()
      ensures Snapshot() == UserRecord(None, None, None, None, None, [])
    {
      id, username, password, name, birthdate, books := None, None, None, None, None, [];
    }

    /** The entity as the store loads it from a row. */
    constructor Load(r: UserRecord)
      ensures Snapshot() == r
    {
      id, username, password, name, birthdate, books := r.id, r.username, r.password, r.name, r.birthdate, r.books;
    }

    /** `setUsername`: null or empty is refused and the field kept; anything else is assigned. */
    method SetUsername(username: Option<string>) returns (r: Outcome<ErrorKind>)
      modifies this`username
      ensures r == (if NullOrEmpty(username) then Fail(IllegalArgument) else Pass)
      ensures Snapshot() == if r.Pass? then old(Snapshot()).(username := username) else old(Snapshot())
    {
      if NullOrEmpty(username) {
        return Fail(IllegalArgument);
      }
      this.username := username;
      return Pass;
    }

    /** `setName`: null or empty is refused and the field kept; anything else is assigned. */
    method SetName(name: Option<string>) returns (r: Outcome<ErrorKind>)
      modifies this`name
      ensures r == (if NullOrEmpty(name) then Fail(IllegalArgument) else Pass)
      ensures Snapshot() == if r.Pass? then old(Snapshot()).(name := name) else old(Snapshot())
    {
      if NullOrEmpty(name) {
        return Fail(IllegalArgument);
      }
      this.name := name;
      return Pass;
    }

    /** `setBirthdate`, with the current date as a parameter: null throws NullPointerException, a
        date not strictly before today throws IllegalArgumentException, both keep the field. */
    method SetBirthdate(birthdate: Option<Date>, today: Date) returns (r: Outcome<ErrorKind>)
      modifies this`birthdate
      ensures birthdate.None? ==> r == Fail(NullPointer)
      ensures birthdate.Some? ==> r == (if Before(birthdate.value, today) then Pass else Fail(IllegalArgument))
      ensures Snapshot() == if r.Pass? then old(Snapshot()).(birthdate := birthdate) else old(Snapshot())
    {
      if birthdate.None? {
        return Fail(NullPointer);
      }
      if !Before(birthdate.value, today) {
        return Fail(IllegalArgument);
      }
      this.birthdate := birthdate;
      return Pass;
    }

    /** `getBooks`: a view of the list that the caller cannot change (a Dafny sequence is a value). */
    function GetBooks(): (r: seq<Book>)
      reads this
      ensures r == books
    {
      books
    }

    /** `addBook`: a null book throws NullPointerException before the list is read; a book the list
        already holds (by `equals`) throws BookAlreadyOwned; otherwise it is appended. Any failure
        leaves the list as it was. */
    method AddBook(book: Option<Book>) returns (r: Outcome<ErrorKind>)
      modifies this`books
      ensures book.None? ==> r == Fail(NullPointer)
      ensures book.Some? ==> r == match IndexOf(old(books), book.value)
                                  case Failure(e) => Fail(e)
                                  case Success(None) => Pass
                                  case Success(Some(_)) => Fail(BookAlreadyOwned)
      ensures r.Pass? ==> book.Some? && book.value !in old(books) && books == old(books) + [book.value]
      ensures r.Fail? ==> books == old(books)
      ensures NoDuplicates(old(books)) ==> NoDuplicates(books)
    {
      if book.None? {
        return Fail(NullPointer);
      }
      var found := IndexOf(books, book.value);
      match found {
        case Failure(e) =>
          return Fail(e);
        case Success(None) =>
          if NoDuplicates(books) {
            AppendKeepsNoDuplicates(books, book.value);
          }
          books := books + [book.value];
          return Pass;
        case Success(Some(_)) =>
          return Fail(BookAlreadyOwned);
      }
    }

    /** `removeBook`: a null book throws NullPointerException before the list is read; a book the
        list does not hold throws BookNotFound; otherwise its first occurrence is removed and the
        rest keep their order. Any failure leaves the list as it was. */
    method RemoveBook(book: Option<Book>) returns (r: Outcome<ErrorKind>)
      modifies this`books
      ensures book.None? ==> r == Fail(NullPointer)
      ensures book.Some? ==> r == match IndexOf(old(books), book.value)
                                  case Failure(e) => Fail(e)
                                  case Success(None) => Fail(BookNotFound)
                                  case Success(Some(_)) => Pass
      ensures r.Pass? ==> exists i :: IndexOf(old(books), book.value) == Success(Some(i))
                                      && books == RemoveAt(old(books), i)
      ensures r.Fail? ==> books == old(books)
      ensures NoDuplicates(old(books)) ==> NoDuplicates(books)
      ensures NoDuplicates(old(books)) && r.Pass? ==> book.value !in books
    {
      if book.None? {
        return Fail(NullPointer);
      }
      var found := IndexOf(books, book.value);
      match found {
        case Failure(e) =>
          return Fail(e);
        case Success(None) =>
          return Fail(BookNotFound);
        case Success(Some(i)) =>
          if NoDuplicates(books) {
            RemoveKeepsNoDuplicates(books, i);
          }
          books := RemoveAt(books, i);
          return Pass;
      }
    }
  }

  /** `user.addBook(b)` and then `user.removeBook(b)` on a user that does not own `b` gives the user
      back the list it had. */
  method AddThenRemove(user: User, b: Book)
    requires Comparable(b) && b !in user.books
    modifies user`books
    ensures user.books == old(user.books)
  {
    ghost var before := user.books;
    var added := user.AddBook(Some(b));
    assert added.Pass?;
    AppendThenRemoveRestores(before, b);
    var removed := user.RemoveBook(Some(b));
    assert removed.Pass?;
  }
}
