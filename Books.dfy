/** The Book entity: its ten persisted fields, which of them the store requires, its equality and
    hash code (models/Book.java). */
module Books {
  import opened Wrappers
  import opened Errors

  /** A book as a value. Every field is a Java reference and may be null. */
  datatype Book = Book(
    genre: Option<string>,
    author: Option<string>,
    image: Option<string>,
    title: Option<string>,
    subtitle: Option<string>,
    publisher: Option<string>,
    year: Option<string>,
    pages: Option<string>,
    isbn: Option<string>,
    id: Option<int>)

  /** The book `new Book()` creates: every field null. */
  const NewBook := Book(None, None, None, None, None, None, None, None, None, None)

  /** The @NotNull columns are set; genre is the one nullable column. */
  predicate Storable(b: Book) {
    && b.author.Some? && b.image.Some? && b.title.Some? && b.subtitle.Some?
    && b.publisher.Some? && b.year.Some? && b.pages.Some? && b.isbn.Some?
  }

  /** Every field `equals` dereferences on the receiver is set: a storable book that has an id. */
  predicate Comparable(b: Book) {
    Storable(b) && b.id.Some?
  }

  /** `mine.equals(theirs)` with `mine` the receiver's field: throws when the receiver's field is
      null, and a non-null value never equals null. */
  function FieldEquals<T(==)>(mine: Option<T>, theirs: Option<T>): (r: Result<bool, ErrorKind>)
    ensures r.Failure? <==> mine.None?
    ensures r.Success? ==> (r.value <==> mine == theirs)
  {
    if mine.None? then Failure(NullPointer) else Success(mine == theirs)
  }

  /** Java's short-circuit `first && rest` where either operand may throw. */
  function AndThen(first: Result<bool, ErrorKind>, rest: Result<bool, ErrorKind>): (r: Result<bool, ErrorKind>) {
    if first == Success(true) then rest else first
  }

  /** `self.equals(other)` for two distinct, non-null Book references: genre through the null-safe
      Objects.equals, the other nine fields through the receiver's own `equals`, left to right, so
      a null field of the receiver throws once every field before it has matched. */
  function BookEquals(self: Book, other: Book): (r: Result<bool, ErrorKind>)
    ensures r == Success(true) ==> self == other
    ensures r == Success(false) ==> self != other
    ensures Comparable(self) ==> r == Success(self == other)
    ensures r.Failure? ==> r.error == NullPointer && !Comparable(self)
  {
    if self.genre != other.genre then Success(false)
    else
      AndThen(FieldEquals(self.author, other.author),
      AndThen(FieldEquals(self.image, other.image),
      AndThen(FieldEquals(self.title, other.title),
      AndThen(FieldEquals(self.subtitle, other.subtitle),
      AndThen(FieldEquals(self.publisher, other.publisher),
      AndThen(FieldEquals(self.year, other.year),
      AndThen(FieldEquals(self.pages, other.pages),
      AndThen(FieldEquals(self.isbn, other.isbn),
              FieldEquals(self.id, other.id)))))))))
  }

  // ---------------------------------------------------------------------------------------------
  // hashCode: Objects.hash over the same ten fields, in Java's 32-bit arithmetic.

  const Pow32: int := 0x1_0000_0000
  const Pow31: int := 0x8000_0000

  /** The Java `int` that `x` wraps around to. */
  function ToInt32(x: int): (r: int)
    ensures -Pow31 <= r < Pow31
    ensures (r - x) % Pow32 == 0
  {
    var m := x % Pow32;
    if m >= Pow31 then m - Pow32 else m
  }

  /** The UTF-16 code units of one character: itself below 0x10000, otherwise a high and a low
      surrogate. */
  function Utf16(c: char): (r: seq<int>)
    ensures 1 <= |r| <= 2
    ensures forall i :: 0 <= i < |r| ==> 0 <= r[i] < 0x1_0000
  {
    var v := c as int;
    if v < 0x1_0000 then [v]
    else [0xD800 + (v - 0x1_0000) / 0x400, 0xDC00 + (v - 0x1_0000) % 0x400]
  }

  /** A character maps to one unit exactly when it is in the Basic Multilingual Plane, and its
      surrogate pair is well formed and decodes back to it. */
  lemma Utf16Decodes(c: char)
    ensures |Utf16(c)| == 1 <==> c as int < 0x1_0000
    ensures |Utf16(c)| == 1 ==> Utf16(c)[0] == c as int
    ensures |Utf16(c)| == 2 ==>
      && 0xD800 <= Utf16(c)[0] < 0xDC00 && 0xDC00 <= Utf16(c)[1] < 0xE000
      && (Utf16(c)[0] - 0xD800) * 0x400 + (Utf16(c)[1] - 0xDC00) + 0x1_0000 == c as int
  {
  }

  /** The UTF-16 code units of a string, as a Java String holds them. */
  function Utf16Units(s: string): (r: seq<int>)
    ensures |s| <= |r| <= 2 * |s|
  {
    if s == [] then [] else Utf16Units(s[..|s| - 1]) + Utf16(s[|s| - 1])
  }

  /** h = 31 * h + u over the units, starting at 0 and wrapping at 32 bits. */
  function UnitsHash(us: seq<int>): (r: int)
    ensures -Pow31 <= r < Pow31
  {
    if us == [] then 0 else ToInt32(31 * UnitsHash(us[..|us| - 1]) + us[|us| - 1])
  }

  /** String.hashCode over the string's UTF-16 units. */
  function StringHash(s: string): (r: int)
    ensures -Pow31 <= r < Pow31
  {
    UnitsHash(Utf16Units(s))
  }

  /** A character outside the Basic Multilingual Plane is hashed as its two surrogates:
      U+1F600 has the units 0xD83D 0xDE00, so its hash is 31 * 0xD83D + 0xDE00. */
  lemma SupplementaryCharacterHash()
    ensures Utf16Units("\U{1F600}") == [0xD83D, 0xDE00]
    ensures StringHash("\U{1F600}") == 1772899
  {
    assert Utf16Units("\U{1F600}") == Utf16Units([]) + Utf16('\U{1F600}');
    assert UnitsHash([0xD83D, 0xDE00]) == ToInt32(31 * UnitsHash([0xD83D]) + 0xDE00) by {
      assert [0xD83D, 0xDE00][..1] == [0xD83D];
    }
    assert UnitsHash([0xD83D]) == 0xD83D by {
      assert [0xD83D][..0] == [];
    }
  }

  /** Long.hashCode: the low 32 bits of v ^ (v >>> 32), read as an int. */
  function LongHash(v: int): (r: int)
    ensures -Pow31 <= r < Pow31
  {
    var x := (v % 0x1_0000_0000_0000_0000) as bv64;
    ToInt32(((x ^ (x >> 32)) & 0xFFFF_FFFF) as int)
  }

  /** A null argument hashes to 0. */
  function OptionHash<T>(o: Option<T>, hash: T -> int): int {
    match o
    case None => 0
    case Some(v) => hash(v)
  }

  /** Arrays.hashCode: result = 31 * result + h, starting from 1. */
  function CombineHashes(hs: seq<int>): (r: int)
    ensures -Pow31 <= r < Pow31
  {
    if hs == [] then 1 else ToInt32(31 * CombineHashes(hs[..|hs| - 1]) + hs[|hs| - 1])
  }

  function BookHashCode(b: Book): (r: int)
    ensures -Pow31 <= r < Pow31
  {
    CombineHashes([
      OptionHash(b.genre, StringHash), OptionHash(b.author, StringHash),
      OptionHash(b.image, StringHash), OptionHash(b.title, StringHash),
      OptionHash(b.subtitle, StringHash), OptionHash(b.publisher, StringHash),
      OptionHash(b.year, StringHash), OptionHash(b.pages, StringHash),
      OptionHash(b.isbn, StringHash), OptionHash(b.id, LongHash)])
  }

  /** The hash code agrees with equality: books `equals` calls equal hash equally. */
  lemma EqualBooksHashEqually(a: Book, b: Book)
    requires BookEquals(a, b) == Success(true)
    ensures BookHashCode(a) == BookHashCode(b)
  {
  }

  // ---------------------------------------------------------------------------------------------
  // The mutable entity.

  /** The JPA entity: ten mutable fields, a setter for each except the generated id. */
  class BookEntity {
    var genre: Option<string>
    var author: Option<string>
    var image: Option<string>
    var title: Option<string>
    var subtitle: Option<string>
    var publisher: Option<string>
    var year: Option<string>
    var pages: Option<string>
    var isbn: Option<string>
    var id: Option<int>

    /** The entity's current field values. */
    function Value(): Book
      reads this
    {
      Book(genre, author, image, title, subtitle, publisher, year, pages, isbn, id)
    }

    /** `new Book()`. */
    constructor ()
      ensures Value() == NewBook
    {
      genre, author, image, title, subtitle := None, None, None, None, None;
      publisher, year, pages, isbn, id := None, None, None, None, None;
    }

    method SetGenre(genre: Option<string>)
      modifies this`genre
      ensures Value() == old(Value()).(genre := genre)
    {
      this.genre := genre;
    }

    method SetAuthor(author: Option<string>)
      modifies this`author
      ensures Value() == old(Value()).(author := author)
    {
      this.author := author;
    }

    method SetImage(image: Option<string>)
      modifies this`image
      ensures Value() == old(Value()).(image := image)
    {
      this.image := image;
    }

    method SetTitle(title: Option<string>)
      modifies this`title
      ensures Value() == old(Value()).(title := title)
    {
      this.title := title;
    }

    method SetSubtitle(subtitle: Option<string>)
      modifies this`subtitle
      ensures Value() == old(Value()).(subtitle := subtitle)
    {
      this.subtitle := subtitle;
    }

    method SetPublisher(publisher: Option<string>)
      modifies this`publisher
      ensures Value() == old(Value()).(publisher := publisher)
    {
      this.publisher := publisher;
    }

    method SetYear(year: Option<string>)
      modifies this`year
      ensures Value() == old(Value()).(year := year)
    {
      this.year := year;
    }

    method SetPages(pages: Option<string>)
      modifies this`pages
      ensures Value() == old(Value()).(pages := pages)
    {
      this.pages := pages;
    }

    method SetIsbn(isbn: Option<string>)
      modifies this`isbn
      ensures Value() == old(Value()).(isbn := isbn)
    {
      this.isbn := isbn;
    }

    /** `this.equals(o)`: the same reference is equal, null and objects of another class are not,
        and any other Book is compared field by field. */
    function Equals(o: object?): (r: Result<bool, ErrorKind>)
      reads this, o
      ensures o == this ==> r == Success(true)
      ensures o == null || !(o is BookEntity) ==> r == Success(false)
      ensures o != this && o is BookEntity ==> r == BookEquals(Value(), (o as BookEntity).Value())
    {
      if o == this then Success(true)
      else if o == null || !(o is BookEntity) then Success(false)
      else BookEquals(Value(), (o as BookEntity).Value())
    }

    /** `hashCode()` of the entity's current field values. */
    function HashCode(): int
      reads this
    {
      BookHashCode(Value())
    }

    /** Entities that are equal hash equally, whether they are one reference or two. */
    lemma EqualEntitiesHashEqually(o: BookEntity)
      requires Equals(o) == Success(true)
      ensures HashCode() == o.HashCode()
    {
    }
  }
}
