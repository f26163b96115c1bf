/** The library app's sample queries: books by author, books in a library, and a library's
    librarian, each accepting a model instance, a primary key, or a name. */
module QuerySamples {
  import opened Wrappers
  import Ordering

  datatype Author = Author(id: nat, name: string)
  datatype Book = Book(id: nat, title: string, author: nat)
  datatype Library = Library(id: nat, name: string)
  datatype Librarian = Librarian(id: nat, name: string, library: nat)

  /** The tables the queries read; `shelves` is the library–book many-to-many relation as
      (library id, book id) pairs. */
  datatype Db = Db(authors: seq<Author>, books: seq<Book>, libraries: seq<Library>,
                   librarians: seq<Librarian>, shelves: set<(nat, nat)>)

  /** The argument kinds the helpers dispatch on with `isinstance`. */
  datatype AuthorArg = AuthorInstance(author: Author) | AuthorPk(pk: int) | AuthorName(name: string) | OtherAuthorArg
  datatype LibraryArg = LibraryInstance(library: Library) | LibraryPk(pk: int) | LibraryName(name: string) | OtherLibraryArg

  /** The exceptions that leave the helpers: only "does not exist" is caught. */
  datatype QueryError = ValueError(message: string) | MultipleObjectsReturned

  const AuthorArgMessage := "author must be an Author, int (pk), or str (name)"
  const LibraryArgMessage := "library must be a Library, int (pk), or str (name)"

  function ByAuthorId(pk: int): Book -> bool {
    (b: Book) => b.author as int == pk
  }

  /** `author__name=name`: the book's author row carries exactly that name. */
  predicate AuthorNamed(authors: seq<Author>, b: Book, name: string) {
    exists a :: a in authors && a.id == b.author && a.name == name
  }

  function ByAuthorName(authors: seq<Author>, name: string): Book -> bool {
    (b: Book) => AuthorNamed(authors, b, name)
  }

  /** `books_by_author`. */
  function BooksByAuthor(db: Db, arg: AuthorArg): (r: Result<seq<Book>, QueryError>)
    ensures arg == OtherAuthorArg <==> r.Err?
    ensures r.Err? ==> r.error == ValueError(AuthorArgMessage)
    ensures r.Ok? ==> Ordering.IsSubsequence(r.value, db.books)
  {
    match arg
    case AuthorInstance(a) =>
      Ordering.FilterIsSubsequence(db.books, ByAuthorId(a.id));
      Ok(Ordering.Filter(db.books, ByAuthorId(a.id)))
    case AuthorPk(pk) =>
      Ordering.FilterIsSubsequence(db.books, ByAuthorId(pk));
      Ok(Ordering.Filter(db.books, ByAuthorId(pk)))
    case AuthorName(name) =>
      Ordering.FilterIsSubsequence(db.books, ByAuthorName(db.authors, name));
      Ok(Ordering.Filter(db.books, ByAuthorName(db.authors, name)))
    case OtherAuthorArg => Err(ValueError(AuthorArgMessage))
  }

  /** What each argument kind selects: the author's own books for an instance or a key, and
      for a name the books of an author with exactly that name (no substring or case folding). */
  predicate Selects(db: Db, arg: AuthorArg, b: Book) {
    match arg
    case AuthorInstance(a) => b.author == a.id
    case AuthorPk(pk) => b.author as int == pk
    case AuthorName(name) => exists a :: a in db.authors && a.id == b.author && a.name == name
    case OtherAuthorArg => false
  }

  lemma BooksByAuthorMembers(db: Db, arg: AuthorArg, b: Book)
    requires arg != OtherAuthorArg
    ensures b in BooksByAuthor(db, arg).value <==> b in db.books && Selects(db, arg, b)
  {
    match arg
    case AuthorInstance(a) => Ordering.FilterMembers(db.books, ByAuthorId(a.id), b);
    case AuthorPk(pk) => Ordering.FilterMembers(db.books, ByAuthorId(pk), b);
    case AuthorName(name) => Ordering.FilterMembers(db.books, ByAuthorName(db.authors, name), b);
  }

  /** Passing an author or its primary key gives the same books. */
  lemma InstanceSameAsPk(db: Db, a: Author)
    ensures BooksByAuthor(db, AuthorInstance(a)) == BooksByAuthor(db, AuthorPk(a.id))
  {
  }

  /** A name that exactly one author carries selects that author's books. */
  lemma {:induction false} UniqueNameSameAsPk(db: Db, a: Author)
    requires a in db.authors
    requires forall x :: x in db.authors && x.name == a.name ==> x == a
    ensures BooksByAuthor(db, AuthorName(a.name)) == BooksByAuthor(db, AuthorPk(a.id))
  {
    FilterSamePredicate(db.books, ByAuthorName(db.authors, a.name), ByAuthorId(a.id));
  }

  lemma {:induction false} FilterSamePredicate(s: seq<Book>, p: Book -> bool, q: Book -> bool)
    requires forall b :: b in s ==> p(b) == q(b)
    ensures Ordering.Filter(s, p) == Ordering.Filter(s, q)
  {
    if s != [] {
      FilterSamePredicate(s[1..], p, q);
    }
  }

  function Named(name: string): Library -> bool {
    (l: Library) => l.name == name
  }

  function NamedLibraries(libraries: seq<Library>, name: string): seq<Library> {
    Ordering.Filter(libraries, Named(name))
  }

  function LibraryWithId(pk: int): Library -> bool {
    (l: Library) => l.id as int == pk
  }

  /** `Library.objects.get(pk=pk)`: the library with that key, if any. */
  function LibraryWithPk(libraries: seq<Library>, pk: int): Option<Library> {
    Ordering.FirstWhere(libraries, LibraryWithId(pk))
  }

  /** The `try` block shared by the two library helpers: the library, `None` when
      `Library.DoesNotExist` was raised (and caught), or the exception that escapes. */
  function LookupLibrary(db: Db, arg: LibraryArg): (r: Result<Option<Library>, QueryError>)
    ensures arg == OtherLibraryArg ==> r == Err(ValueError(LibraryArgMessage))
    ensures arg.LibraryInstance? ==> r == Ok(Some(arg.library))
    ensures arg.LibraryPk? ==> r.Ok? && (r.value.Some? ==> r.value.value in db.libraries && r.value.value.id as int == arg.pk)
    ensures arg.LibraryPk? && r.value.None? ==> forall l :: l in db.libraries ==> l.id as int != arg.pk
    ensures arg.LibraryName? ==> match |NamedLibraries(db.libraries, arg.name)|
      case 0 => r == Ok(None)
      case 1 => r == Ok(Some(NamedLibraries(db.libraries, arg.name)[0]))
      case _ => r == Err(MultipleObjectsReturned)
  {
    match arg
    case LibraryInstance(l) => Ok(Some(l))
    case LibraryPk(pk) => Ok(LibraryWithPk(db.libraries, pk))
    case LibraryName(name) =>
      var named := NamedLibraries(db.libraries, name);
      if |named| == 0 then Ok(None)
      else if |named| == 1 then Ok(Some(named[0]))
      else Err(MultipleObjectsReturned)
    case OtherLibraryArg => Err(ValueError(LibraryArgMessage))
  }

  function OnShelf(shelves: set<(nat, nat)>, library: nat): Book -> bool {
    (b: Book) => (library, b.id) in shelves
  }

  /** `all_books_in_library`: the library's books, none when the library does not exist; a
      wrong argument kind or a name shared by several libraries is an error. */
  function AllBooksInLibrary(db: Db, arg: LibraryArg): (r: Result<seq<Book>, QueryError>)
    ensures LookupLibrary(db, arg).Err? <==> r.Err?
    ensures r.Err? ==> r.error == LookupLibrary(db, arg).error
    ensures LookupLibrary(db, arg) == Ok(None) ==> r == Ok([])
    ensures r.Ok? ==> Ordering.IsSubsequence(r.value, db.books)
  {
    match LookupLibrary(db, arg)
    case Err(e) => Err(e)
    case Ok(None) => Ok([])
    case Ok(Some(lib)) =>
      Ordering.FilterIsSubsequence(db.books, OnShelf(db.shelves, lib.id));
      Ok(Ordering.Filter(db.books, OnShelf(db.shelves, lib.id)))
  }

  /** A found library yields exactly the books the many-to-many relation puts on it. */
  lemma AllBooksInLibraryMembers(db: Db, arg: LibraryArg, b: Book)
    requires LookupLibrary(db, arg).Ok? && LookupLibrary(db, arg).value.Some?
    ensures b in AllBooksInLibrary(db, arg).value <==>
      b in db.books && (LookupLibrary(db, arg).value.value.id, b.id) in db.shelves
  {
    Ordering.FilterMembers(db.books, OnShelf(db.shelves, LookupLibrary(db, arg).value.value.id), b);
  }

  function LibrarianAt(library: nat): Librarian -> bool {
    (x: Librarian) => x.library == library
  }

  /** `lib.librarian`: the librarian attached to the library, if any. */
  function LibrarianOf(librarians: seq<Librarian>, library: nat): Option<Librarian> {
    Ordering.FirstWhere(librarians, LibrarianAt(library))
  }

  /** `librarian_for_library`: `None` when the library does not exist or has no librarian;
      the same errors as the other library helper. */
  function LibrarianForLibrary(db: Db, arg: LibraryArg): (r: Result<Option<Librarian>, QueryError>)
    ensures LookupLibrary(db, arg).Err? <==> r.Err?
    ensures r.Err? ==> r.error == LookupLibrary(db, arg).error
    ensures LookupLibrary(db, arg) == Ok(None) ==> r == Ok(None)
    ensures LookupLibrary(db, arg).Ok? && LookupLibrary(db, arg).value.Some? ==>
      var lib := LookupLibrary(db, arg).value.value;
      && (r.value.None? <==> forall x :: x in db.librarians ==> x.library != lib.id)
      && (r.value.Some? ==> r.value.value in db.librarians && r.value.value.library == lib.id)
  {
    match LookupLibrary(db, arg)
    case Err(e) => Err(e)
    case Ok(None) => Ok(None)
    case Ok(Some(lib)) => Ok(LibrarianOf(db.librarians, lib.id))
  }

  /** Library names are matched exactly: a name no library carries finds nothing, even if it
      is part of, or a differently cased form of, some library's name. */
  lemma UnknownLibraryName(db: Db, name: string)
    requires forall l :: l in db.libraries ==> l.name != name
    ensures AllBooksInLibrary(db, LibraryName(name)) == Ok([])
    ensures LibrarianForLibrary(db, LibraryName(name)) == Ok(None)
  {
    Ordering.FilterNone(db.libraries, Named(name));
  }
}
