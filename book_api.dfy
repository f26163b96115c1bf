/** The book catalogue API: the list view's query-parameter filters, and retrieve, create,
    update and delete over an in-memory book table, with the authentication gate and the
    status codes of sections 15.3.1, 15.3.2, 15.3.5, 15.5.1, 15.5.4, 15.5.5 and 15.6.1 of RFC 9110. */
module BookApi {
  import opened Wrappers
  import opened BookSerializer
  import Text
  import Ordering

  const StatusOk := 200
  const StatusCreated := 201
  const StatusNoContent := 204
  const StatusBadRequest := 400
  const StatusForbidden := 403
  const StatusNotFound := 404
  const StatusServerError := 500

  datatype Body = BookBody(book: BookOut) | ListBody(books: seq<BookOut>) | ErrorsBody(errors: set<Field>) | NoBody

  datatype Response = Response(status: int, body: Body)

  // ---------------------------------------------------------------- the list filter

  /** `query_params.get(key)`. */
  function Param(params: map<string, string>, key: string): (r: Option<string>)
    ensures r.Some? <==> key in params
    ensures r.Some? ==> r.value == params[key]
  {
    if key in params then Some(params[key]) else None
  }

  /** Python truthiness of an optional query value: present and non-empty. */
  predicate Truthy(v: Option<string>) {
    v.Some? && v.value != ""
  }

  /** `params.get("publication_year") or params.get("year")`. */
  function YearParam(params: map<string, string>): (r: Option<string>)
    ensures Truthy(Param(params, "publication_year")) ==> r == Param(params, "publication_year")
    ensures !Truthy(Param(params, "publication_year")) ==> r == Param(params, "year")
  {
    var p := Param(params, "publication_year");
    if Truthy(p) then p else Param(params, "year")
  }

  /** `author__name__icontains=q` on one book: its author's name contains `q`, ignoring case. */
  predicate AuthorNameMatches(authors: seq<Author>, b: Book, q: string) {
    var a := FindAuthor(authors, b.authorId);
    a.Some? && Text.IContains(a.value.name, q)
  }

  /** The author filter: an all-digit value is an author id, anything else a name fragment. */
  function AuthorFilter(authors: seq<Author>, a: string): Book -> bool {
    if Text.IsDigits(a) then
      var id := Text.ParseNat(a);
      (b: Book) => b.authorId == id
    else
      (b: Book) => AuthorNameMatches(authors, b, a)
  }

  function YearFilter(y: string): Book -> bool
    requires Text.IsDigits(y)
  {
    var n := Text.ParseNat(y);
    (b: Book) => b.publicationYear == n
  }

  predicate YearApplies(params: map<string, string>) {
    var y := YearParam(params);
    y.Some? && Text.IsDigits(y.value)
  }

  /** `BookListView.get_queryset`: the store, narrowed by `author`, then by the year. */
  function ListBooks(books: seq<Book>, authors: seq<Author>, params: map<string, string>): (r: seq<Book>)
    ensures multiset(r) <= multiset(books)
  {
    var author := Param(params, "author");
    var qs := if Truthy(author) then Ordering.Filter(books, AuthorFilter(authors, author.value)) else books;
    if YearApplies(params) then Ordering.Filter(qs, YearFilter(YearParam(params).value)) else qs
  }

  predicate UniqueAuthorIds(authors: seq<Author>) {
    forall i, j :: 0 <= i < j < |authors| ==> authors[i].id != authors[j].id
  }

  /** Which books the `author` parameter keeps, stated over the author table directly. */
  ghost predicate AuthorCriterion(authors: seq<Author>, params: map<string, string>, b: Book) {
    var a := Param(params, "author");
    || !Truthy(a)
    || (Text.IsDigits(a.value) && b.authorId == Text.ParseNat(a.value))
    || (!Text.IsDigits(a.value) && exists au :: au in authors && au.id == b.authorId && Text.IContains(au.name, a.value))
  }

  /** Which books the year parameter keeps: all of them unless it is all digits. */
  ghost predicate YearCriterion(params: map<string, string>, b: Book) {
    var y := YearParam(params);
    !(y.Some? && Text.IsDigits(y.value)) || b.publicationYear == Text.ParseNat(y.value)
  }

  lemma AuthorFilterMeaning(authors: seq<Author>, params: map<string, string>, b: Book)
    requires UniqueAuthorIds(authors) && Truthy(Param(params, "author"))
    ensures AuthorFilter(authors, params["author"])(b) <==> AuthorCriterion(authors, params, b)
  {
    var a := params["author"];
    if !Text.IsDigits(a) {
      if au :| au in authors && au.id == b.authorId && Text.IContains(au.name, a) {
        var f := FindAuthor(authors, b.authorId);
        assert f.Some?;
        var i :| 0 <= i < |authors| && authors[i] == au;
        var j :| 0 <= j < |authors| && authors[j] == f.value;
        assert i == j;
      }
    }
  }

  /** A book is listed exactly when it is stored and both parameter criteria keep it. */
  lemma ListBooksMembers(books: seq<Book>, authors: seq<Author>, params: map<string, string>, b: Book)
    requires UniqueAuthorIds(authors)
    ensures b in ListBooks(books, authors, params)
        <==> b in books && AuthorCriterion(authors, params, b) && YearCriterion(params, b)
  {
    var author := Param(params, "author");
    var qs := if Truthy(author) then Ordering.Filter(books, AuthorFilter(authors, author.value)) else books;
    if Truthy(author) {
      Ordering.FilterMembers(books, AuthorFilter(authors, author.value), b);
      AuthorFilterMeaning(authors, params, b);
    }
    if YearApplies(params) {
      Ordering.FilterMembers(qs, YearFilter(YearParam(params).value), b);
    }
  }

  /** The list keeps store order: it is a subsequence of the book table. */
  lemma ListBooksIsSubsequence(books: seq<Book>, authors: seq<Author>, params: map<string, string>)
    ensures Ordering.IsSubsequence(ListBooks(books, authors, params), books)
  {
    var author := Param(params, "author");
    var r := ListBooks(books, authors, params);
    if Truthy(author) {
      var af := AuthorFilter(authors, author.value);
      if YearApplies(params) {
        var yf := YearFilter(YearParam(params).value);
        assert r == Ordering.Filter(Ordering.Filter(books, af), yf);
        Ordering.FilterFilterIsSubsequence(books, af, yf);
      } else {
        assert r == Ordering.Filter(books, af);
        Ordering.FilterIsSubsequence(books, af);
      }
    } else if YearApplies(params) {
      var yf := YearFilter(YearParam(params).value);
      assert r == Ordering.Filter(books, yf);
      Ordering.FilterIsSubsequence(books, yf);
    } else {
      assert r == books;
      Ordering.SubsequenceRefl(books);
    }
  }

  /** With no author and no usable year, the whole store is listed, in store order. */
  lemma ListBooksUnfiltered(books: seq<Book>, authors: seq<Author>, params: map<string, string>)
    requires !Truthy(Param(params, "author")) && !YearApplies(params)
    ensures ListBooks(books, authors, params) == books
  {
  }

  lemma ListBooksNoParams(books: seq<Book>, authors: seq<Author>)
    ensures ListBooks(books, authors, map[]) == books
  {
    ListBooksUnfiltered(books, authors, map[]);
  }

  /** Filtering by year first and then by author gives the same list. */
  lemma ListBooksFiltersCommute(books: seq<Book>, authors: seq<Author>, params: map<string, string>)
    requires Truthy(Param(params, "author")) && YearApplies(params)
    ensures ListBooks(books, authors, params)
         == Ordering.Filter(Ordering.Filter(books, YearFilter(YearParam(params).value)), AuthorFilter(authors, params["author"]))
  {
    Ordering.FilterCommutes(books, AuthorFilter(authors, params["author"]), YearFilter(YearParam(params).value));
  }

  // ---------------------------------------------------------------- create, as written

  /** The author of the row `perform_create` inserts, as written: validated data never carries
      one, because the serializer's `author` field is read-only. */
  function InsertedAuthorAsWritten(v: Validated): Option<nat> {
    None
  }

  /** `BookCreateView.create` as written. The inserted row's author is null, which the
      non-null foreign key refuses, so the request fails with a server error. */
  function CreateAsWritten(authenticated: bool, p: BookPayload, currentYear: int): (r: Response)
    ensures r.status != StatusCreated
    ensures r.status == StatusServerError <==> authenticated && Validate(p, false, currentYear).Ok?
  {
    if !authenticated then Response(StatusForbidden, NoBody)
    else match Validate(p, false, currentYear)
      case Err(e) => Response(StatusBadRequest, ErrorsBody(e))
      case Ok(v) => if InsertedAuthorAsWritten(v).None? then Response(StatusServerError, NoBody) else Response(StatusCreated, NoBody)
  }

  /** The title the create test sends holds no NUL character. */
  lemma TestTitleHasNoNul(title: string)
    requires title == "Brave New World"
    ensures !Text.HasNul(title)
  {
    Text.HasNulIff(title);
    assert '\0' !in title;
  }

  /** The request that the create test sends, which it expects to be answered with 201. */
  lemma CreateAsWrittenFailsForValidBook()
    ensures CreateAsWritten(true, BookPayload(Some("Brave New World"), Some("George Orwell"), Some(1932)), 2025).status
         == StatusServerError
  {
    assert Text.TrimStart("Brave New World") == "Brave New World";
    assert Text.TrimEnd("Brave New World") == "Brave New World";
    TestTitleHasNoNul("Brave New World");
    assert ValidateTitle("Brave New World") == Some("Brave New World");
  }

  // ---------------------------------------------------------------- create, corrected

  /** The author a create request names, looked up by exact name: `Author.objects.get(name=...)`
      succeeds only when exactly one author has that name. */
  function ResolveAuthor(authors: seq<Author>, name: Option<string>): (r: Option<nat>)
    ensures r.Some? ==> name.Some? && exists a :: a in authors && a.id == r.value && a.name == name.value
  {
    if name.None? then None
    else
      var matches := Ordering.Filter(authors, (a: Author) => a.name == name.value);
      if |matches| == 1 then
        assert matches[0] in multiset(authors);
        Some(matches[0].id)
      else None
  }

  /** The errors of a create request: the serializer's, plus `author` when no single author has the given name. */
  function CreateErrors(authors: seq<Author>, p: BookPayload, currentYear: int): (errs: set<Field>)
    ensures errs == {} <==> Validate(p, false, currentYear).Ok? && ResolveAuthor(authors, p.author).Some?
    ensures AuthorField in errs <==> ResolveAuthor(authors, p.author).None?
  {
    ErrorFields(p, false, currentYear) + (if ResolveAuthor(authors, p.author).None? then {AuthorField} else {})
  }

  /** The row a successful create inserts under the next primary key. */
  function CreatedBook(authors: seq<Author>, p: BookPayload, id: nat, currentYear: int): (b: Book)
    requires CreateErrors(authors, p, currentYear) == {}
    ensures b.id == id && b.title == Text.Strip(p.title.value) && b.publicationYear == p.publicationYear.value
    ensures b.publicationYear <= currentYear && 0 < |b.title| <= TitleMaxLength
    ensures exists a :: a in authors && a.id == b.authorId && a.name == p.author.value
  {
    var v := Validate(p, false, currentYear).value;
    Book(id, v.title.value, ResolveAuthor(authors, p.author).value, v.publicationYear.value)
  }

  function BookWithId(pk: nat): Book -> bool {
    (b: Book) => b.id == pk
  }

  /** The index of the book with primary key `pk`: `get_object_or_404`. */
  function IndexOf(books: seq<Book>, pk: nat): Option<nat> {
    Ordering.IndexWhere(books, BookWithId(pk))
  }

  lemma AuthorFound(authors: seq<Author>, a: Author)
    requires a in authors
    ensures FindAuthor(authors, a.id).Some?
  {
  }

  /** Primary keys are unique and below the next key to hand out; every author exists. */
  ghost predicate TableOk(authors: seq<Author>, books: seq<Book>, nextId: nat) {
    && (forall i, j :: 0 <= i < j < |books| ==> books[i].id != books[j].id)
    && (forall i :: 0 <= i < |books| ==> books[i].id < nextId && HasAuthor(authors, books[i]))
  }

  /** Appending a book under the next key, with an existing author, keeps the table sound. */
  lemma AppendKeepsTable(authors: seq<Author>, books: seq<Book>, nextId: nat, b: Book)
    requires TableOk(authors, books, nextId) && b.id == nextId && HasAuthor(authors, b)
    ensures TableOk(authors, books + [b], nextId + 1)
  {
    var s := books + [b];
    forall i | 0 <= i < |s| ensures s[i].id < nextId + 1 && HasAuthor(authors, s[i]) {
      if i < |books| {
        assert s[i] == books[i];
      }
    }
    forall i, j | 0 <= i < j < |s| ensures s[i].id != s[j].id {
      assert s[i] == books[i];
      if j < |books| {
        assert s[j] == books[j];
      }
    }
  }

  /** Replacing a book by one with the same key and author keeps the table sound. */
  lemma ReplaceKeepsTable(authors: seq<Author>, books: seq<Book>, nextId: nat, i: nat, b: Book)
    requires TableOk(authors, books, nextId) && i < |books|
    requires b.id == books[i].id && b.authorId == books[i].authorId
    ensures TableOk(authors, books[i := b], nextId)
  {
    var s := books[i := b];
    forall k | 0 <= k < |s| ensures s[k].id == books[k].id && s[k].authorId == books[k].authorId {
    }
  }

  function RemoveAt(books: seq<Book>, i: nat): seq<Book>
    requires i < |books|
  {
    books[..i] + books[i + 1..]
  }

  /** Removing one book keeps the table sound, and its key is gone. */
  lemma RemoveKeepsTable(authors: seq<Author>, books: seq<Book>, nextId: nat, i: nat)
    requires TableOk(authors, books, nextId) && i < |books|
    ensures TableOk(authors, RemoveAt(books, i), nextId)
    ensures forall k :: 0 <= k < |RemoveAt(books, i)| ==> RemoveAt(books, i)[k].id != books[i].id
  {
    var s := RemoveAt(books, i);
    forall k | 0 <= k < |s|
      ensures k < i ==> s[k] == books[k]
      ensures k >= i ==> s[k] == books[k + 1]
    {
    }
  }

  /** The book table behind the create, retrieve, update and delete views. */
  class BookTable {
    var authors: seq<Author>
    var books: seq<Book>
    var nextId: nat

    ghost predicate Valid()
      reads this
    {
      TableOk(authors, books, nextId)
    }

    constructor (authors: seq<Author>)
      ensures Valid() && this.authors == authors && books == [] && nextId == 1
    {
      this.authors := authors;
      books := [];
      nextId := 1;
    }

    /** `BookListView` (AllowAny): the response depends only on the table and the parameters. */
    method List(authenticated: bool, params: map<string, string>) returns (r: Response)
      requires Valid()
      ensures r.status == StatusOk
      ensures forall i :: 0 <= i < |ListBooks(books, authors, params)| ==> HasAuthor(authors, ListBooks(books, authors, params)[i])
      ensures r.body == ListBody(SerializeAll(authors, ListBooks(books, authors, params)))
    {
      var listed := ListBooks(books, authors, params);
      forall i | 0 <= i < |listed| ensures HasAuthor(authors, listed[i]) {
        assert listed[i] in multiset(books);
      }
      r := Response(StatusOk, ListBody(SerializeAll(authors, listed)));
    }

    /** `BookDetailView` (AllowAny): the book, or 404; never refused for authentication. */
    method Retrieve(authenticated: bool, pk: nat) returns (r: Response)
      requires Valid()
      ensures r.status == StatusOk || r.status == StatusNotFound
      ensures r.status == StatusNotFound <==> forall i :: 0 <= i < |books| ==> books[i].id != pk
      ensures IndexOf(books, pk).Some? ==> r.body == BookBody(Serialize(authors, books[IndexOf(books, pk).value]))
    {
      match IndexOf(books, pk)
      case None => r := Response(StatusNotFound, NoBody);
      case Some(i) => r := Response(StatusOk, BookBody(Serialize(authors, books[i])));
    }

    /** `BookCreateView.create` (IsAuthenticated), with the author bound from the request by name. */
    method Create(authenticated: bool, p: BookPayload, currentYear: int) returns (r: Response)
      requires Valid()
      modifies this
      ensures Valid() && authors == old(authors)
      ensures !authenticated ==> r == Response(StatusForbidden, NoBody) && books == old(books) && nextId == old(nextId)
      ensures authenticated && CreateErrors(authors, p, currentYear) != {} ==>
        r == Response(StatusBadRequest, ErrorsBody(CreateErrors(authors, p, currentYear)))
        && books == old(books) && nextId == old(nextId)
      ensures authenticated && CreateErrors(authors, p, currentYear) == {} ==>
        && books == old(books) + [CreatedBook(authors, p, old(nextId), currentYear)]
        && nextId == old(nextId) + 1
        && r == Response(StatusCreated, BookBody(Serialize(authors, books[|books| - 1])))
    {
      if !authenticated {
        r := Response(StatusForbidden, NoBody);
        return;
      }
      var errs := CreateErrors(authors, p, currentYear);
      if errs != {} {
        r := Response(StatusBadRequest, ErrorsBody(errs));
        return;
      }
      var b := CreatedBook(authors, p, nextId, currentYear);
      var a :| a in authors && a.id == b.authorId && a.name == p.author.value;
      AuthorFound(authors, a);
      Insert(b);
      r := Response(StatusCreated, BookBody(Serialize(authors, b)));
    }

    /** Saving a new book: it takes the next primary key, which is then used up. */
    method Insert(b: Book)
      requires Valid() && b.id == nextId && HasAuthor(authors, b)
      modifies this
      ensures Valid() && authors == old(authors)
      ensures books == old(books) + [b] && nextId == old(nextId) + 1
    {
      AppendKeepsTable(authors, books, nextId, b);
      books := books + [b];
      nextId := nextId + 1;
    }

    /** `BookUpdateView.update` (IsAuthenticated, no ownership check): 404 before validation,
        400 on invalid data, otherwise only the supplied fields of that one book change. */
    method Update(authenticated: bool, pk: nat, p: BookPayload, partial: bool, currentYear: int) returns (r: Response)
      requires Valid()
      modifies this
      ensures Valid() && authors == old(authors) && nextId == old(nextId)
      ensures !authenticated ==> r == Response(StatusForbidden, NoBody) && books == old(books)
      ensures authenticated && IndexOf(old(books), pk).None? ==> r == Response(StatusNotFound, NoBody) && books == old(books)
      ensures authenticated && IndexOf(old(books), pk).Some? && Validate(p, partial, currentYear).Err? ==>
        r == Response(StatusBadRequest, ErrorsBody(Validate(p, partial, currentYear).error)) && books == old(books)
      ensures authenticated && IndexOf(old(books), pk).Some? && Validate(p, partial, currentYear).Ok? ==>
        var i := IndexOf(old(books), pk).value;
        && books == old(books)[i := ApplyUpdate(old(books)[i], Validate(p, partial, currentYear).value)]
        && r == Response(StatusOk, BookBody(Serialize(authors, books[i])))
    {
      if !authenticated {
        r := Response(StatusForbidden, NoBody);
        return;
      }
      match IndexOf(books, pk)
      case None =>
        r := Response(StatusNotFound, NoBody);
      case Some(i) =>
        match Validate(p, partial, currentYear)
        case Err(e) =>
          r := Response(StatusBadRequest, ErrorsBody(e));
        case Ok(v) =>
          ReplaceKeepsTable(authors, books, nextId, i, ApplyUpdate(books[i], v));
          books := books[i := ApplyUpdate(books[i], v)];
          r := Response(StatusOk, BookBody(Serialize(authors, books[i])));
    }

    /** `BookDeleteView` (IsAuthenticated, no ownership check): removes exactly that book. */
    method Delete(authenticated: bool, pk: nat) returns (r: Response)
      requires Valid()
      modifies this
      ensures Valid() && authors == old(authors) && nextId == old(nextId)
      ensures !authenticated ==> r == Response(StatusForbidden, NoBody) && books == old(books)
      ensures authenticated && IndexOf(old(books), pk).None? ==> r == Response(StatusNotFound, NoBody) && books == old(books)
      ensures authenticated && IndexOf(old(books), pk).Some? ==>
        var i := IndexOf(old(books), pk).value;
        && books == old(books)[..i] + old(books)[i + 1..]
        && r == Response(StatusNoContent, NoBody)
        && forall k :: 0 <= k < |books| ==> books[k].id != pk
    {
      if !authenticated {
        r := Response(StatusForbidden, NoBody);
        return;
      }
      match IndexOf(books, pk)
      case None =>
        r := Response(StatusNotFound, NoBody);
      case Some(i) =>
        RemoveKeepsTable(authors, books, nextId, i);
        books := books[..i] + books[i + 1..];
        r := Response(StatusNoContent, NoBody);
    }
  }
}
