/** The /books endpoints (controllers/BookController.java) over the book table. */
module BookControllers {
  import opened Wrappers
  import opened Errors
  import opened Books
  import opened BookRepositories

  class BookController {
    const bookRepository: BookRepository

    constructor (bookRepository: BookRepository)
      ensures this.bookRepository == bookRepository
    {
      this.bookRepository := bookRepository;
    }

    /** `findAll`: every stored book, each once. */
    method FindAll() returns (r: seq<Book>)
      requires bookRepository.Valid()
      ensures forall b :: b in r <==> b in bookRepository.rows.Values
      ensures |r| == |bookRepository.rows|
      ensures forall i, j :: 0 <= i < j < |r| ==> r[i] != r[j]
    {
      bookRepository.RowsAreTheStoredBooks();
      r := bookRepository.Rows();
    }

    /** `findOne`: the stored book with this id, or BookNotFound. */
    method FindOne(id: int) returns (r: Result<Book, ErrorKind>)
      ensures id in bookRepository.rows ==> r == Success(bookRepository.rows[id])
      ensures id !in bookRepository.rows ==> r == Failure(BookNotFound)
    {
      var found := bookRepository.FindById(id);
      if found.None? {
        return Failure(BookNotFound);
      }
      return Success(found.value);
    }

    /** `findByAuthor`: a stored book by that author, or BookNotFound when there is none. */
    method FindByAuthor(author: string) returns (r: Result<Book, ErrorKind>)
      requires bookRepository.Valid()
      ensures r.Success? ==> r.value in bookRepository.rows.Values && r.value.author == Some(author)
      ensures r.Failure? <==> forall b :: b in bookRepository.rows.Values ==> b.author != Some(author)
      ensures r.Failure? ==> r.error == BookNotFound
    {
      bookRepository.RowsAreTheStoredBooks();
      var found := FindOneByAuthor(bookRepository.Rows(), author);
      if found.None? {
        forall b | b in bookRepository.rows.Values ensures b.author != Some(author) {
          assert b in bookRepository.Rows();
        }
        return Failure(BookNotFound);
      }
      return Success(found.value);
    }

    /** `create`: a body with a @NotNull field left null is refused before anything is stored;
        otherwise the book is saved, which fails only on an isbn another row already has. Only the
        row the save targets changes, and nothing changes on failure. */
    method Create(book: Book) returns (r: Outcome<ErrorKind>)
      requires bookRepository.Valid()
      modifies bookRepository
      ensures bookRepository.Valid()
      ensures !Storable(book) ==> r == Fail(InvalidBody)
      ensures Storable(book) ==>
        r == if old(bookRepository.IsbnTaken(book.isbn, bookRepository.TargetId(book)))
             then Fail(DataIntegrityViolation) else Pass
      ensures r.Fail? ==> bookRepository.rows == old(bookRepository.rows)
      ensures r.Pass? ==>
        var k := old(bookRepository.TargetId(book));
        bookRepository.rows == old(bookRepository.rows)[k := book.(id := Some(k))]
    {
      if !Storable(book) {
        return Fail(InvalidBody);
      }
      var saved := bookRepository.Save(book);
      if saved.Failure? {
        return Fail(saved.error);
      }
      return Pass;
    }

    /** `delete`: BookNotFound for an unknown id; otherwise exactly that row is removed. */
    method Delete(id: int) returns (r: Outcome<ErrorKind>)
      requires bookRepository.Valid()
      modifies bookRepository
      ensures bookRepository.Valid()
      ensures r == if id in old(bookRepository.rows) then Pass else Fail(BookNotFound)
      ensures bookRepository.rows == old(bookRepository.rows) - {id}
    {
      var found := bookRepository.FindById(id);
      if found.None? {
        return Fail(BookNotFound);
      }
      bookRepository.Delete(found.value);
      return Pass;
    }

    /** `update`: in this order, an invalid body, a body without id (its `equals` call throws), a
        body id different from the path id, and an unknown id are refused; then the row is
        replaced by the body, which fails only on an isbn another row already has. Nothing
        changes on failure. */
    method Update(id: int, book: Book) returns (r: Result<Book, ErrorKind>)
      requires bookRepository.Valid()
      modifies bookRepository
      ensures bookRepository.Valid()
      ensures !Storable(book) ==> r == Failure(InvalidBody)
      ensures Storable(book) && book.id.None? ==> r == Failure(NullPointer)
      ensures Storable(book) && book.id.Some? && book.id.value != id ==> r == Failure(BookIdMismatch)
      ensures Storable(book) && book.id == Some(id) && id !in old(bookRepository.rows) ==> r == Failure(BookNotFound)
      ensures Storable(book) && book.id == Some(id) && id in old(bookRepository.rows) ==>
        r == if old(bookRepository.IsbnTaken(book.isbn, id)) then Failure(DataIntegrityViolation) else Success(book)
      ensures r.Failure? ==> bookRepository.rows == old(bookRepository.rows)
      ensures r.Success? ==> bookRepository.rows == old(bookRepository.rows)[id := book]
    {
      if !Storable(book) {
        return Failure(InvalidBody);
      }
      if book.id.None? {
        return Failure(NullPointer);
      }
      if book.id.value != id {
        return Failure(BookIdMismatch);
      }
      var found := bookRepository.FindById(id);
      if found.None? {
        return Failure(BookNotFound);
      }
      r := bookRepository.Save(book);
    }
  }
}
