/** The social API's object permission for posts and comments: anyone may read, only the
    author may write. */
module PostPermissions {
  import opened Wrappers

  /** DRF's `SAFE_METHODS`. TRACE, which section 9.2.1 of RFC 9110 also counts as safe, is not among them. */
  const SafeMethods: set<string> := {"GET", "HEAD", "OPTIONS"}

  /** `IsAuthorOrReadOnly.has_object_permission`; `user` is `None` for the anonymous user,
      who is never an author. */
  function HasObjectPermission(httpMethod: string, user: Option<nat>, author: nat): (allowed: bool)
    ensures httpMethod in SafeMethods ==> allowed
    ensures httpMethod !in SafeMethods ==> (allowed <==> user == Some(author))
  {
    if httpMethod in SafeMethods then true else user == Some(author)
  }

  /** The author may use every method. */
  lemma AuthorAlwaysAllowed(httpMethod: string, author: nat)
    ensures HasObjectPermission(httpMethod, Some(author), author)
  {
  }

  /** For methods that are not safe, the answer depends only on who asks, not on the method. */
  lemma UnsafeMethodsAlike(m1: string, m2: string, user: Option<nat>, author: nat)
    requires m1 !in SafeMethods && m2 !in SafeMethods
    ensures HasObjectPermission(m1, user, author) == HasObjectPermission(m2, user, author)
  {
  }

  /** TRACE is treated as a write: only the author may send it. */
  lemma TraceIsNotSafe(user: Option<nat>, author: nat)
    ensures HasObjectPermission("TRACE", user, author) <==> user == Some(author)
  {
  }
}
