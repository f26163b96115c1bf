/** The bookshelf's views: the title search behind its one-field form, the permission each
    editing view demands, the confirm-then-delete view, and the fixed security header. */
module BookshelfViews {
  import opened Wrappers
  import Text
  import Ordering

  datatype Book = Book(id: nat, title: string, author: string, publicationYear: int)

  const QueryMaxLength := 100

  /** `SearchForm.is_valid()` for its single required `CharField(max_length=100)`: the value
      is stripped first, then must be non-empty, hold no NUL character, and be at most 100 long. */
  function CleanQuery(query: Option<string>): (r: Option<string>)
    ensures r.Some? <==> query.Some? && 0 < |Text.Strip(query.value)| <= QueryMaxLength && !Text.HasNul(Text.Strip(query.value))
    ensures r.Some? ==> r.value == Text.Strip(query.value)
  {
    if query.None? then None
    else
      var q := Text.Strip(query.value);
      if q == "" || Text.HasNul(q) || |q| > QueryMaxLength then None else Some(q)
  }

  function TitleMatches(q: string): Book -> bool {
    (b: Book) => Text.IContains(b.title, q)
  }

  /** `search_books`: no books for an invalid form, and otherwise the books whose title
      contains the cleaned query, ignoring case, in store order. */
  function SearchBooks(books: seq<Book>, query: Option<string>): (r: seq<Book>)
    ensures CleanQuery(query).None? ==> r == []
    ensures CleanQuery(query).Some? ==> Ordering.IsSubsequence(r, books)
  {
    match CleanQuery(query)
    case None => []
    case Some(q) =>
      Ordering.FilterIsSubsequence(books, TitleMatches(q));
      Ordering.Filter(books, TitleMatches(q))
  }

  /** A book is found exactly when the form is valid and the title contains the cleaned query. */
  lemma SearchBooksMembers(books: seq<Book>, query: Option<string>, b: Book)
    ensures b in SearchBooks(books, query) <==>
      CleanQuery(query).Some? && b in books && Text.IContains(b.title, CleanQuery(query).value)
  {
    if CleanQuery(query).Some? {
      Ordering.FilterMembers(books, TitleMatches(CleanQuery(query).value), b);
    }
  }

  /** A query whose stripped form is longer than 100 characters finds nothing. */
  lemma LongQueryFindsNothing(books: seq<Book>, query: string)
    requires |Text.Strip(query)| > QueryMaxLength
    ensures SearchBooks(books, Some(query)) == []
  {
  }

  /** The search depends on the query only through its stripped form. */
  lemma SameStripSameResult(books: seq<Book>, q1: string, q2: string)
    requires Text.Strip(q1) == Text.Strip(q2)
    ensures SearchBooks(books, Some(q1)) == SearchBooks(books, Some(q2))
  {
    assert CleanQuery(Some(q1)) == CleanQuery(Some(q2));
  }

  /** Whitespace around a query changes nothing. */
  lemma PaddedQuerySameResult(books: seq<Book>, pad: string, query: string, pad2: string)
    requires Text.AllSpace(pad) && Text.AllSpace(pad2) && Text.Trimmed(query)
    ensures SearchBooks(books, Some(pad + query + pad2)) == SearchBooks(books, Some(query))
  {
    Text.StripOfPadded(pad, query, pad2);
    Text.StripOfTrimmed(query);
    SameStripSameResult(books, pad + query + pad2, query);
  }

  // ---------------------------------------------------------------- editing views

  datatype EditingView = AddBook | EditBook | DeleteBook

  /** The permission each `@permission_required` decorator names. */
  function RequiredPermission(view: EditingView): (perm: string)
    ensures view == AddBook ==> perm == "bookshelf.can_create"
    ensures view == EditBook ==> perm == "bookshelf.can_edit"
    ensures view == DeleteBook ==> perm == "bookshelf.can_delete"
  {
    match view
    case AddBook => "bookshelf.can_create"
    case EditBook => "bookshelf.can_edit"
    case DeleteBook => "bookshelf.can_delete"
  }

  /** Each view has its own permission: holding one opens no other view. */
  lemma PermissionsDistinct(v: EditingView, w: EditingView)
    requires RequiredPermission(v) == RequiredPermission(w)
    ensures v == w
  {
    assert RequiredPermission(v)[14] == RequiredPermission(w)[14];
  }

  function BookWithId(pk: nat): Book -> bool {
    (b: Book) => b.id == pk
  }

  /** `get_object_or_404(Book, pk=pk)`: the book's position in the shelf. */
  function IndexOfBook(books: seq<Book>, pk: nat): Option<nat> {
    Ordering.IndexWhere(books, BookWithId(pk))
  }

  datatype DeleteOutcome = LoginRedirect | NotFound | ConfirmPage | Deleted

  class Shelf {
    var books: seq<Book>

    constructor (books: seq<Book>)
      ensures this.books == books
    {
      this.books := books;
    }

    /** `delete_book`: without `can_delete` the user is sent to log in; an unknown pk is
        NotFound; a GET (or any method but POST) shows the confirmation page; a POST deletes
        exactly that book. */
    method Delete(permissions: set<string>, httpMethod: string, pk: nat) returns (o: DeleteOutcome)
      modifies this
      ensures RequiredPermission(DeleteBook) !in permissions ==> o == LoginRedirect
      ensures RequiredPermission(DeleteBook) in permissions && IndexOfBook(old(books), pk).None? ==> o == NotFound
      ensures o == Deleted <==>
        RequiredPermission(DeleteBook) in permissions && IndexOfBook(old(books), pk).Some? && httpMethod == "POST"
      ensures o == ConfirmPage <==>
        RequiredPermission(DeleteBook) in permissions && IndexOfBook(old(books), pk).Some? && httpMethod != "POST"
      ensures o != Deleted ==> books == old(books)
      ensures o == Deleted ==>
        var i := IndexOfBook(old(books), pk).value;
        books == old(books)[..i] + old(books)[i + 1..]
    {
      if RequiredPermission(DeleteBook) !in permissions {
        return LoginRedirect;
      }
      var found := IndexOfBook(books, pk);
      if found.None? {
        return NotFound;
      }
      if httpMethod == "POST" {
        var i := found.value;
        books := books[..i] + books[i + 1..];
        o := Deleted;
      } else {
        o := ConfirmPage;
      }
    }
  }

  // ---------------------------------------------------------------- secure_view

  const ContentSecurityPolicy := "default-src 'self'; script-src 'self' https://trusted.cdn.com"

  datatype HttpResponse = HttpResponse(content: string, headers: map<string, string>)

  /** `secure_view`: the same body and the same Content-Security-Policy header on every request. */
  function SecureView(): (r: HttpResponse)
    ensures "Content-Security-Policy" in r.headers
    ensures r.headers["Content-Security-Policy"] == ContentSecurityPolicy
    ensures r.content == "Secure content"
  {
    HttpResponse("Secure content", map["Content-Security-Policy" := ContentSecurityPolicy])
  }
}
