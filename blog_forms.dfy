/** The blog's forms: the comment-content cleaner and the sign-up form's save. */
module BlogForms {
  import opened Wrappers
  import Text

  const MaxCommentLength := 5000

  /** The comment form's validation errors: the two of the form field, then the two that
      `clean_content` raises. */
  datatype CommentError = Required | NullCharacters | EmptyComment | LongComment

  /** The text shown for each error. */
  function Message(e: CommentError): string {
    match e
    case Required => "This field is required."
    case NullCharacters => "Null characters are not allowed."
    case EmptyComment => "Comment cannot be empty."
    case LongComment => "Comment is too long (max 5000 characters)."
  }

  /** `CommentForm.clean_content`: strip, refuse an empty result, refuse more than 5000
      characters. A missing value is read as the empty string. */
  function CleanContent(content: Option<string>): (r: Result<string, CommentError>)
    ensures r.Ok? ==> content.Some? && r.value == Text.Strip(content.value)
    ensures r.Ok? ==> 1 <= |r.value| <= MaxCommentLength
    ensures r.Err? ==> r.error == EmptyComment || r.error == LongComment
  {
    var raw := if content.Some? then content.value else "";
    var stripped := Text.Strip(raw);
    if stripped == "" then Err(EmptyComment)
    else if |stripped| > MaxCommentLength then Err(LongComment)
    else Ok(stripped)
  }

  /** `clean_content` refuses as empty exactly the missing or all-whitespace content. */
  lemma CleanContentEmptyIff(content: Option<string>)
    ensures CleanContent(content) == Err(EmptyComment) <==> content.None? || Text.AllSpace(content.value)
  {
    Text.StripEmptyIff(if content.Some? then content.value else "");
  }

  /** `clean_content` refuses as too long exactly the content whose stripped form exceeds
      5000 characters. */
  lemma CleanContentLongIff(content: Option<string>)
    ensures CleanContent(content) == Err(LongComment) <==>
      content.Some? && |Text.Strip(content.value)| > MaxCommentLength
  {
  }

  /** The form field behind `content`: the model's `TextField` becomes a required
      `forms.CharField`, which strips the value, refuses an empty one as required and refuses
      a NUL character, before `clean_content` runs. A missing value is empty. */
  function CleanContentField(content: Option<string>): (r: Result<string, CommentError>)
    ensures r.Ok? ==> content.Some? && r.value == Text.Strip(content.value)
    ensures r.Ok? ==> r.value != [] && !Text.HasNul(r.value)
    ensures r.Err? ==> r.error == Required || r.error == NullCharacters
  {
    var raw := if content.Some? then content.value else "";
    var stripped := Text.Strip(raw);
    if stripped == "" then Err(Required)
    else if Text.HasNul(stripped) then Err(NullCharacters)
    else Ok(stripped)
  }

  /** The field passes exactly the content with visible characters and no NUL once stripped,
      and answers "required" exactly for missing or all-whitespace content. */
  lemma ContentFieldErrors(content: Option<string>)
    ensures CleanContentField(content).Ok? <==>
      content.Some? && !Text.AllSpace(content.value) && !Text.HasNul(Text.Strip(content.value))
    ensures CleanContentField(content) == Err(Required) <==> content.None? || Text.AllSpace(content.value)
  {
    Text.StripEmptyIff(if content.Some? then content.value else "");
  }

  /** `CommentForm.is_valid()` for `content`: the field's own cleaning, then `clean_content`
      on what it leaves. An accepted comment is the stripped content, 1 to 5000 characters
      long and free of NUL; a blank comment is refused by the field, so `clean_content`'s own
      empty-comment error is never the answer. Which error each input gets is
      `CommentFormErrors`. */
  function CleanCommentForm(content: Option<string>): (r: Result<string, CommentError>)
    ensures r.Ok? ==> content.Some? && r.value == Text.Strip(content.value)
    ensures r.Ok? ==> 1 <= |r.value| <= MaxCommentLength && !Text.HasNul(r.value)
    ensures r != Err(EmptyComment)
  {
    var raw := if content.Some? then content.value else "";
    var stripped := Text.Strip(raw);
    if stripped == "" then Err(Required)
    else if Text.HasNul(stripped) then Err(NullCharacters)
    else if |stripped| > MaxCommentLength then Err(LongComment)
    else Ok(stripped)
  }

  /** The form accepts exactly the content whose stripped form is 1 to 5000 characters long
      without a NUL, and gives each refused input the error of the first check it fails:
      required, then NUL, then length. */
  lemma CommentFormErrors(content: Option<string>)
    ensures CleanCommentForm(content).Ok? <==>
      content.Some? && 0 < |Text.Strip(content.value)| <= MaxCommentLength && !Text.HasNul(Text.Strip(content.value))
    ensures CleanCommentForm(content) == Err(Required) <==> content.None? || Text.AllSpace(content.value)
    ensures CleanCommentForm(content) == Err(NullCharacters) <==>
      content.Some? && !Text.AllSpace(content.value) && Text.HasNul(Text.Strip(content.value))
    ensures CleanCommentForm(content) == Err(LongComment) <==>
      content.Some? && !Text.HasNul(Text.Strip(content.value)) && |Text.Strip(content.value)| > MaxCommentLength
  {
    Text.StripEmptyIff(if content.Some? then content.value else "");
  }

  /** `clean_content` on text the field has already stripped: only the length check is left. */
  lemma CleanContentOfStripped(raw: string)
    requires Text.Strip(raw) != []
    ensures CleanContent(Some(Text.Strip(raw))) ==
      if |Text.Strip(raw)| > MaxCommentLength then Err(LongComment) else Ok(Text.Strip(raw))
  {
    Text.StripIdempotent(raw);
  }

  /** The form runs the field's cleaning first and `clean_content` on its result. */
  lemma CommentFormIsFieldThenCleanContent(content: Option<string>)
    ensures CleanCommentForm(content) ==
      match CleanContentField(content)
      case Err(e) => Err(e)
      case Ok(v) => CleanContent(Some(v))
  {
    var raw := if content.Some? then content.value else "";
    if Text.Strip(raw) != [] && !Text.HasNul(Text.Strip(raw)) {
      CleanContentOfStripped(raw);
    }
  }

  /** On content with visible characters and no NUL, the form answers what `clean_content` does. */
  lemma CommentFormAgreesWithCleanContent(content: string)
    requires !Text.AllSpace(content) && !Text.HasNul(Text.Strip(content))
    ensures CleanCommentForm(Some(content)) == CleanContent(Some(content))
  {
    Text.StripEmptyIff(content);
  }

  /** Cleaning an accepted comment again gives it back unchanged. */
  lemma CleanContentIdempotent(content: Option<string>)
    requires CleanContent(content).Ok?
    ensures CleanContent(Some(CleanContent(content).value)) == CleanContent(content)
  {
    Text.StripIdempotent(content.value);
  }

  /** The length limit applies after stripping: whitespace around an acceptable text does not count. */
  lemma PaddedCommentAccepted(pad: string, text: string, pad2: string)
    requires Text.AllSpace(pad) && Text.AllSpace(pad2) && Text.Trimmed(text)
    requires 1 <= |text| <= MaxCommentLength
    ensures CleanContent(Some(pad + text + pad2)) == Ok(text)
  {
    Text.StripOfPadded(pad, text, pad2);
  }

  /** A text of exactly 5000 visible characters between two spaces is accepted. */
  lemma LimitIsAfterStrip(text: string)
    requires |text| == MaxCommentLength && Text.Trimmed(text)
    ensures |" " + text + " "| > MaxCommentLength
    ensures CleanContent(Some(" " + text + " ")) == Ok(text)
  {
    PaddedCommentAccepted(" ", text, " ");
  }

  datatype SiteUser = SiteUser(username: string, email: string, password: string)

  /** The user table that `CustomUserCreationForm.save` writes to. */
  class UserTable {
    var users: seq<SiteUser>

    constructor ()
      ensures users == []
    {
      users := [];
    }

    /** `CustomUserCreationForm.save(commit)`: the user the base form builds gets the cleaned
        e-mail, and is stored only when `commit` holds. The password is kept opaque. */
    method SaveSignup(username: string, password: string, cleanedEmail: string, commit: bool) returns (u: SiteUser)
      modifies this
      ensures u == SiteUser(username, cleanedEmail, password)
      ensures users == if commit then old(users) + [u] else old(users)
    {
      u := SiteUser(username, "", password);
      u := u.(email := cleanedEmail);
      if commit {
        users := users + [u];
      }
    }
  }
}
