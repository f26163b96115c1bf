/** `BookSerializer` of the book catalogue API: the records it reads and renders, its
    field validation (title, publication year) and its rendering of the author by name. */
module BookSerializer {
  import opened Wrappers
  import Text
  import Ordering

  datatype Author = Author(id: nat, name: string)

  /** A row of the book table; `authorId` is the non-null foreign key to an author. */
  datatype Book = Book(id: nat, title: string, authorId: nat, publicationYear: int)

  /** The JSON body of a create or update request; a key that is absent is `None`. */
  datatype BookPayload = BookPayload(title: Option<string>, author: Option<string>, publicationYear: Option<int>)

  /** A rendered book: `author` is the author's name. */
  datatype BookOut = BookOut(id: nat, title: string, author: string, publicationYear: int)

  /** The data that survives validation. There is no author here: the field is read-only. */
  datatype Validated = Validated(title: Option<string>, publicationYear: Option<int>)

  /** The keys of `serializer.errors`. */
  datatype Field = TitleField | AuthorField | YearField

  const TitleMaxLength := 200
  const FutureYearMessage := "publication_year cannot be in the future."

  /** `validate_publication_year`, with today's year passed in. */
  function ValidatePublicationYear(value: int, currentYear: int): (r: Result<int, string>)
    ensures r.Ok? <==> value <= currentYear
    ensures r.Ok? ==> r.value == value
    ensures r.Err? ==> r.error == FutureYearMessage
  {
    if value > currentYear then Err(FutureYearMessage) else Ok(value)
  }

  /** Acceptance is downward closed: any year before an accepted one is accepted too. */
  lemma YearAcceptanceDownwardClosed(y: int, earlier: int, currentYear: int)
    requires ValidatePublicationYear(y, currentYear).Ok? && earlier <= y
    ensures ValidatePublicationYear(earlier, currentYear) == Ok(earlier)
  {
  }

  /** The title field (a model `CharField(max_length=200)`, so a REST framework `CharField`):
      surrounding whitespace is trimmed, and a blank, over-long or NUL-holding title is refused. */
  function ValidateTitle(title: string): (r: Option<string>)
    ensures r.Some? <==> 0 < |Text.Strip(title)| <= TitleMaxLength && !Text.HasNul(Text.Strip(title))
    ensures r.Some? ==> r.value == Text.Strip(title)
  {
    var t := Text.Strip(title);
    if t == [] || |t| > TitleMaxLength || Text.HasNul(t) then None else Some(t)
  }

  /** A field is in error when it is missing from a full (non-partial) request, or present and invalid. */
  predicate TitleInError(p: BookPayload, partial: bool) {
    match p.title
    case None => !partial
    case Some(t) => ValidateTitle(t).None?
  }

  predicate YearInError(p: BookPayload, partial: bool, currentYear: int) {
    match p.publicationYear
    case None => !partial
    case Some(y) => ValidatePublicationYear(y, currentYear).Err?
  }

  /** The fields that `serializer.errors` names. */
  function ErrorFields(p: BookPayload, partial: bool, currentYear: int): (errs: set<Field>)
    ensures TitleField in errs <==> TitleInError(p, partial)
    ensures YearField in errs <==> YearInError(p, partial, currentYear)
    ensures AuthorField !in errs
  {
    var titleBad := TitleInError(p, partial);
    var yearBad := YearInError(p, partial, currentYear);
    (if titleBad then {TitleField} else {}) + (if yearBad then {YearField} else {})
  }

  /** `serializer.is_valid()`: either the validated data or the field errors. */
  function Validate(p: BookPayload, partial: bool, currentYear: int): (r: Result<Validated, set<Field>>)
    ensures r.Err? <==> TitleInError(p, partial) || YearInError(p, partial, currentYear)
    ensures r.Err? ==> r.error == ErrorFields(p, partial, currentYear) && r.error != {}
    ensures r.Ok? ==> !partial ==> r.value.title.Some? && r.value.publicationYear.Some?
    ensures r.Ok? ==> (r.value.title.Some? <==> p.title.Some?)
    ensures r.Ok? ==> r.value.publicationYear == p.publicationYear
    ensures r.Ok? && p.title.Some? ==> r.value.title == ValidateTitle(p.title.value)
    ensures r.Ok? && r.value.publicationYear.Some? ==> r.value.publicationYear.value <= currentYear
  {
    var errs := ErrorFields(p, partial, currentYear);
    if errs != {} then Err(errs)
    else
      var title := match p.title case None => None case Some(t) => ValidateTitle(t);
      Ok(Validated(title, p.publicationYear))
  }

  /** A year after the current one is always refused, whatever else the request holds. */
  lemma FutureYearRejected(p: BookPayload, partial: bool, currentYear: int)
    requires p.publicationYear.Some? && p.publicationYear.value > currentYear
    ensures Validate(p, partial, currentYear).Err?
    ensures YearField in Validate(p, partial, currentYear).error
  {
  }

  /** The first author with the given primary key. */
  function AuthorWithId(id: nat): Author -> bool {
    (a: Author) => a.id == id
  }

  /** The author row a book's foreign key points to. */
  function FindAuthor(authors: seq<Author>, id: nat): Option<Author> {
    Ordering.FirstWhere(authors, AuthorWithId(id))
  }

  predicate HasAuthor(authors: seq<Author>, b: Book) {
    FindAuthor(authors, b.authorId).Some?
  }

  /** The serializer's output: the author appears by name, everything else as stored. */
  function Serialize(authors: seq<Author>, b: Book): (out: BookOut)
    requires HasAuthor(authors, b)
    ensures out.id == b.id && out.title == b.title && out.publicationYear == b.publicationYear
    ensures exists a :: a in authors && a.id == b.authorId && a.name == out.author
  {
    var a := FindAuthor(authors, b.authorId).value;
    BookOut(b.id, b.title, a.name, b.publicationYear)
  }

  function SerializeAll(authors: seq<Author>, bs: seq<Book>): (outs: seq<BookOut>)
    requires forall i :: 0 <= i < |bs| ==> HasAuthor(authors, bs[i])
    ensures |outs| == |bs|
    ensures forall i :: 0 <= i < |bs| ==> outs[i] == Serialize(authors, bs[i])
  {
    if bs == [] then [] else [Serialize(authors, bs[0])] + SerializeAll(authors, bs[1..])
  }

  /** Applying validated data to a stored book (`serializer.save()` on an instance): only the
      fields the request supplied change; the id and the author never do. */
  function ApplyUpdate(b: Book, v: Validated): (r: Book)
    ensures r.id == b.id && r.authorId == b.authorId
    ensures r.title == if v.title.Some? then v.title.value else b.title
    ensures r.publicationYear == if v.publicationYear.Some? then v.publicationYear.value else b.publicationYear
  {
    var title := if v.title.Some? then v.title.value else b.title;
    var year := if v.publicationYear.Some? then v.publicationYear.value else b.publicationYear;
    b.(title := title, publicationYear := year)
  }

  /** The author a request names is never written: a payload that differs only in its author
      field validates to the same data. */
  lemma AuthorInputIgnored(p: BookPayload, other: Option<string>, partial: bool, currentYear: int)
    ensures Validate(p.(author := other), partial, currentYear) == Validate(p, partial, currentYear)
  {
  }
}
