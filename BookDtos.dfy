/** The book metadata returned by the external catalogue and its mapping onto a Book
    (models/BookDTO.java). */
module BookDtos {
  import opened Wrappers
  import opened Errors
  import opened Books

  /** One author or publisher element of the catalogue's JSON: a string-to-string map, which (as
      Jackson builds it from an untyped list) may itself be null and may map a key to null. */
  type Entry = Option<map<string, Option<string>>>

  datatype BookDto = BookDto(
    isbn: Option<string>,
    title: Option<string>,
    subtitle: Option<string>,
    publishers: Option<seq<Entry>>,
    publishDate: Option<string>,
    pageNumber: Option<string>,
    authors: Option<seq<Entry>>)

  /** The image every mapped book is given. */
  const NoImage: string := "No image"

  /** `entries.get(0).get("name")`: a null list throws, an empty list throws, a null first element
      throws, and a missing key, or one mapped to null, gives null. */
  function FirstName(entries: Option<seq<Entry>>): (r: Result<Option<string>, ErrorKind>)
    ensures entries.None? ==> r == Failure(NullPointer)
    ensures entries == Some([]) ==> r == Failure(IndexOutOfBounds)
    ensures entries.Some? && entries.value != [] && entries.value[0].None? ==> r == Failure(NullPointer)
    ensures entries.Some? && entries.value != [] && entries.value[0].Some? ==>
      var first := entries.value[0].value;
      r.Success? && (r.value.Some? <==> "name" in first && first["name"].Some?)
      && (r.value.Some? ==> r.value == first["name"])
  {
    match entries
    case None => Failure(NullPointer)
    case Some(es) =>
      if es == [] then Failure(IndexOutOfBounds)
      else if es[0].None? then Failure(NullPointer)
      else if "name" in es[0].value then Success(es[0].value["name"])
      else Success(None)
  }

  /** `toBook()`: a fresh Book built from the metadata, publishers read before authors. */
  function ToBook(dto: BookDto): (r: Result<Book, ErrorKind>)
    ensures r.Success? <==> FirstName(dto.publishers).Success? && FirstName(dto.authors).Success?
    ensures r.Failure? ==>
      r.error == (if FirstName(dto.publishers).Failure? then FirstName(dto.publishers).error
                  else FirstName(dto.authors).error)
    ensures r.Success? ==>
      && r.value.image == Some(NoImage)
      && r.value.isbn == dto.isbn && r.value.title == dto.title && r.value.subtitle == dto.subtitle
      && r.value.pages == dto.pageNumber && r.value.year == dto.publishDate
      && r.value.publisher == FirstName(dto.publishers).value
      && r.value.author == FirstName(dto.authors).value
      && r.value.genre.None? && r.value.id.None?
  {
    match FirstName(dto.publishers)
    case Failure(e) => Failure(e)
    case Success(publisher) =>
      match FirstName(dto.authors)
      case Failure(e) => Failure(e)
      case Success(author) =>
        Success(NewBook.(image := Some(NoImage), isbn := dto.isbn, title := dto.title,
                         subtitle := dto.subtitle, publisher := publisher, pages := dto.pageNumber,
                         author := author, year := dto.publishDate))
  }

  /** The mapped book satisfies the store's @NotNull constraints exactly when the metadata supplies
      every copied field and both first entries carry a name; it never has an id, so it is never
      Comparable before the store assigns one. */
  lemma ToBookStorable(dto: BookDto)
    requires ToBook(dto).Success?
    ensures Storable(ToBook(dto).value) <==>
      && dto.isbn.Some? && dto.title.Some? && dto.subtitle.Some?
      && dto.publishDate.Some? && dto.pageNumber.Some?
      && "name" in dto.publishers.value[0].value && dto.publishers.value[0].value["name"].Some?
      && "name" in dto.authors.value[0].value && dto.authors.value[0].value["name"].Some?
    ensures !Comparable(ToBook(dto).value)
  {
  }
}
