/** The /users endpoints (controllers/UserController.java) over the user table, reading the book
    table to check that a book exists. */
module UserControllers {
  import opened Wrappers
  import opened Errors
  import opened Books
  import opened Users
  import opened BookRepositories
  import opened UserRepositories

  class UserController {
    const userRepository: UserRepository
    const bookRepository: BookRepository

    constructor (userRepository: UserRepository, bookRepository: BookRepository)
      ensures this.userRepository == userRepository && this.bookRepository == bookRepository
    {
      this.userRepository := userRepository;
      this.bookRepository := bookRepository;
    }

    ghost predicate Valid()
      reads this, userRepository, bookRepository
    {
      userRepository.Valid() && bookRepository.Valid()
    }

    /** `findAll`: every stored user, each once. */
    method FindAll() returns (r: seq<UserRecord>)
      requires Valid()
      ensures forall u :: u in r <==> u in userRepository.rows.Values
      ensures |r| == |userRepository.rows|
      ensures forall i, j :: 0 <= i < j < |r| ==> r[i] != r[j]
    {
      userRepository.RowsAreTheStoredUsers();
      r := userRepository.Rows();
    }

    /** `findById`: the stored user with this id, or UserNotFound. */
    method FindById(id: int) returns (r: Result<UserRecord, ErrorKind>)
      ensures id in userRepository.rows ==> r == Success(userRepository.rows[id])
      ensures id !in userRepository.rows ==> r == Failure(UserNotFound)
    {
      var found := userRepository.FindById(id);
      if found.None? {
        return Failure(UserNotFound);
      }
      return Success(found.value);
    }

    /** `findOneByUsername`: a stored user with that username, or UserNotFound when there is none. */
    method FindOneByUsername(username: string) returns (r: Result<UserRecord, ErrorKind>)
      requires Valid()
      ensures r.Success? ==> r.value in userRepository.rows.Values && r.value.username == Some(username)
      ensures r.Failure? <==> forall u :: u in userRepository.rows.Values ==> u.username != Some(username)
      ensures r.Failure? ==> r.error == UserNotFound
    {
      userRepository.RowsAreTheStoredUsers();
      var found := UserRepositories.FindOneByUsername(userRepository.Rows(), username);
      if found.None? {
        forall u | u in userRepository.rows.Values ensures u.username != Some(username) {
          assert u in userRepository.Rows();
        }
        return Failure(UserNotFound);
      }
      return Success(found.value);
    }

    /** `create`: a body with a @NotNull field left null is refused; otherwise it is saved under the
        key the save targets and nothing else changes. */
    method Create(user: UserRecord) returns (r: Outcome<ErrorKind>)
      requires Valid()
      modifies userRepository
      ensures Valid()
      ensures r == if Users.Storable(user) then Pass else Fail(InvalidBody)
      ensures r.Fail? ==> userRepository.rows == old(userRepository.rows)
      ensures r.Pass? ==>
        var k := old(userRepository.TargetId(user));
        userRepository.rows == old(userRepository.rows)[k := user.(id := Some(k))]
    {
      if !Users.Storable(user) {
        return Fail(InvalidBody);
      }
      var saved := userRepository.Save(user);
      assert saved.Success?;
      return Pass;
    }

    /** `delete`: UserNotFound for an unknown id; otherwise exactly that row is removed. */
    method Delete(id: int) returns (r: Outcome<ErrorKind>)
      requires Valid()
      modifies userRepository
      ensures Valid()
      ensures r == if id in old(userRepository.rows) then Pass else Fail(UserNotFound)
      ensures userRepository.rows == old(userRepository.rows) - {id}
    {
      var found := userRepository.FindById(id);
      if found.None? {
        return Fail(UserNotFound);
      }
      userRepository.Delete(found.value);
      return Pass;
    }

    /** `update`: in this order, an invalid body, a body without id (its `equals` call throws), a
        body id different from the path id, and an unknown id are refused; otherwise the row is
        replaced by the body, which is returned. Nothing changes on failure. */
    method Update(id: int, user: UserRecord) returns (r: Result<UserRecord, ErrorKind>)
      requires Valid()
      modifies userRepository
      ensures Valid()
      ensures !Users.Storable(user) ==> r == Failure(InvalidBody)
      ensures Users.Storable(user) && user.id.None? ==> r == Failure(NullPointer)
      ensures Users.Storable(user) && user.id.Some? && user.id.value != id ==> r == Failure(UserIdMismatch)
      ensures Users.Storable(user) && user.id == Some(id) ==>
        r == if id in old(userRepository.rows) then Success(user) else Failure(UserNotFound)
      ensures r.Failure? ==> userRepository.rows == old(userRepository.rows)
      ensures r.Success? ==> userRepository.rows == old(userRepository.rows)[id := user]
    {
      if !Users.Storable(user) {
        return Failure(InvalidBody);
      }
      if user.id.None? {
        return Failure(NullPointer);
      }
      if user.id.value != id {
        return Failure(UserIdMismatch);
      }
      if !userRepository.ExistsById(id) {
        return Failure(UserNotFound);
      }
      r := userRepository.Save(user);
    }

    /** `updatePassword`: the same checks and store as `update`, without returning the user. */
    method UpdatePassword(id: int, user: UserRecord) returns (r: Outcome<ErrorKind>)
      requires Valid()
      modifies userRepository
      ensures Valid()
      ensures !Users.Storable(user) ==> r == Fail(InvalidBody)
      ensures Users.Storable(user) && user.id.None? ==> r == Fail(NullPointer)
      ensures Users.Storable(user) && user.id.Some? && user.id.value != id ==> r == Fail(UserIdMismatch)
      ensures Users.Storable(user) && user.id == Some(id) ==>
        r == if id in old(userRepository.rows) then Pass else Fail(UserNotFound)
      ensures r.Fail? ==> userRepository.rows == old(userRepository.rows)
      ensures r.Pass? ==> userRepository.rows == old(userRepository.rows)[id := user]
    {
      var updated := Update(id, user);
      if updated.Failure? {
        return Fail(updated.error);
      }
      return Pass;
    }

    /** `addBook`: in this order, an invalid book body, an unknown user, a book without id (the
        store refuses a null id) and a book id absent from the book table are refused; then the
        user's `addBook` runs, refusing a book the user already owns, and the user is saved with the
        book appended. Nothing changes on failure, and a duplicate-free list stays so. */
    method AddBook(id: int, book: Book) returns (r: Outcome<ErrorKind>)
      requires Valid()
      modifies userRepository
      ensures Valid()
      ensures !Books.Storable(book) ==> r == Fail(InvalidBody)
      ensures Books.Storable(book) && id !in old(userRepository.rows) ==> r == Fail(UserNotFound)
      ensures Books.Storable(book) && id in old(userRepository.rows) && book.id.None? ==> r == Fail(IllegalArgument)
      ensures Books.Storable(book) && id in old(userRepository.rows) && book.id.Some? && book.id.value !in bookRepository.rows ==>
        r == Fail(BookNotFound)
      ensures Books.Storable(book) && id in old(userRepository.rows) && book.id.Some? && book.id.value in bookRepository.rows ==>
        r == if book in old(userRepository.rows[id].books) then Fail(BookAlreadyOwned) else Pass
      ensures r.Fail? ==> userRepository.rows == old(userRepository.rows)
      ensures r.Pass? ==>
        && id in old(userRepository.rows)
        && var u := old(userRepository.rows[id]);
           userRepository.rows == old(userRepository.rows)[id := u.(books := u.books + [book])]
      ensures id in old(userRepository.rows) && NoDuplicates(old(userRepository.rows[id].books)) ==>
        NoDuplicates(userRepository.rows[id].books)
    {
      if !Books.Storable(book) {
        return Fail(InvalidBody);
      }
      var found := userRepository.FindById(id);
      if found.None? {
        return Fail(UserNotFound);
      }
      if book.id.None? {
        return Fail(IllegalArgument);
      }
      if !bookRepository.ExistsById(book.id.value) {
        return Fail(BookNotFound);
      }
      var user := new User.Load(found.value);
      var added := user.AddBook(Some(book));
      if added.Fail? {
        return added;
      }
      var saved := userRepository.Save(user.Snapshot());
      assert saved.Success?;
      return Pass;
    }

    /** `removeBook` (the book id in the path is not read): the same checks as `addBook`; then the
        user's `removeBook` runs, refusing a book the user does not own, and the user is saved with
        the first occurrence of the book removed. Nothing changes on failure. */
    method RemoveBook(id: int, pathBookId: int, book: Book) returns (r: Outcome<ErrorKind>)
      requires Valid()
      modifies userRepository
      ensures Valid()
      ensures !Books.Storable(book) ==> r == Fail(InvalidBody)
      ensures Books.Storable(book) && id !in old(userRepository.rows) ==> r == Fail(UserNotFound)
      ensures Books.Storable(book) && id in old(userRepository.rows) && book.id.None? ==> r == Fail(IllegalArgument)
      ensures Books.Storable(book) && id in old(userRepository.rows) && book.id.Some? && book.id.value !in bookRepository.rows ==>
        r == Fail(BookNotFound)
      ensures Books.Storable(book) && id in old(userRepository.rows) && book.id.Some? && book.id.value in bookRepository.rows ==>
        r == if book in old(userRepository.rows[id].books) then Pass else Fail(BookNotFound)
      ensures r.Fail? ==> userRepository.rows == old(userRepository.rows)
      ensures r.Pass? ==>
        && id in old(userRepository.rows)
        && var u := old(userRepository.rows[id]);
           exists i :: 0 <= i < |u.books| && u.books[i] == book && book !in u.books[..i]
                       && userRepository.rows == old(userRepository.rows)[id := u.(books := RemoveAt(u.books, i))]
      ensures id in old(userRepository.rows) && NoDuplicates(old(userRepository.rows[id].books)) ==>
        NoDuplicates(userRepository.rows[id].books)
    {
      if !Books.Storable(book) {
        return Fail(InvalidBody);
      }
      var found := userRepository.FindById(id);
      if found.None? {
        return Fail(UserNotFound);
      }
      if book.id.None? {
        return Fail(IllegalArgument);
      }
      if !bookRepository.ExistsById(book.id.value) {
        return Fail(BookNotFound);
      }
      var user := new User.Load(found.value);
      var removed := user.RemoveBook(Some(book));
      if removed.Fail? {
        return removed;
      }
      var saved := userRepository.Save(user.Snapshot());
      assert saved.Success?;
      return Pass;
    }
  }
}
