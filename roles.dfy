/** Role checks of the library app: `has_role`, the three role-gated pages, and the
    role-based redirect after login. */
module Roles {
  import opened Wrappers
  import RelationshipModels

  /** What the checks read from `request.user`: whether it is authenticated, the role of its
      related profile if it has one (`user.profile.role`), and its own `role` attribute if
      the user model has one (`getattr(user, "role", None)`). */
  datatype User = User(authenticated: bool, profileRole: Option<string>, role: Option<string>)

  /** `has_role(user, role_name)`: authenticated, with a profile, whose role is exactly `roleName`.
      The conjuncts are tested left to right, so an anonymous user's profile is never read. */
  function HasRole(user: User, roleName: string): (r: bool)
    ensures r <==> user.authenticated && user.profileRole.Some? && user.profileRole.value == roleName
  {
    if !user.authenticated then false
    else if user.profileRole.None? then false
    else user.profileRole.value == roleName
  }

  /** An anonymous user has no role, whatever its profile holds; a user without a profile has none either. */
  lemma NoRoleWithoutLoginOrProfile(user: User, roleName: string, other: Option<string>)
    ensures !user.authenticated ==> !HasRole(user, roleName) && HasRole(user.(profileRole := other), roleName) == HasRole(user, roleName)
    ensures user.profileRole.None? ==> !HasRole(user, roleName)
  {
  }

  datatype Page = AdminPage | LibrarianPage | MemberPage

  function PageRole(page: Page): string {
    match page
    case AdminPage => "Admin"
    case LibrarianPage => "Librarian"
    case MemberPage => "Member"
  }

  /** What `user_passes_test` does: render the page, or send the user to the login page. */
  datatype Gate = Render(page: Page) | RedirectToLogin

  /** `admin_view`, `librarian_view`, `member_view`: each admits exactly the users with its role. */
  function ViewGate(user: User, page: Page): (g: Gate)
    ensures g == Render(page) <==> HasRole(user, PageRole(page))
    ensures g == RedirectToLogin <==> !HasRole(user, PageRole(page))
  {
    if HasRole(user, PageRole(page)) then Render(page) else RedirectToLogin
  }

  /** A user passes at most one of the three pages. */
  lemma AtMostOnePage(user: User, p: Page, q: Page)
    requires ViewGate(user, p).Render? && ViewGate(user, q).Render?
    ensures p == q
  {
    assert PageRole(p) == user.profileRole.value == PageRole(q);
    assert PageRole(p)[0] == PageRole(q)[0];
  }

  /** The profile roles are stored in lower case, and the pages compare with capitalised names:
      no stored profile role, the default one included, opens any of the three pages. */
  lemma StoredProfileRolesOpenNoPage(user: User, page: Page)
    requires user.profileRole.Some? && RelationshipModels.IsRoleChoice(user.profileRole.value)
    ensures ViewGate(user, page) == RedirectToLogin
  {
    var stored := user.profileRole.value;
    assert stored[0] != PageRole(page)[0];
  }

  /** Where `CustomLoginView.get_success_url` sends the user. */
  datatype Target = NextUrl(url: string) | AdminView | LibrarianView | MemberView | ListBooks

  /** `get_redirect_url`: the `next` parameter when `url_has_allowed_host_and_scheme` accepts it,
      and "" otherwise (a missing `next` included). That check itself (the allowed hosts, the
      scheme, https) is not modelled: its verdict on `next` is the argument `nextIsSafe`. */
  function RedirectUrl(next: Option<string>, nextIsSafe: bool): (r: string)
    ensures r != "" <==> next.Some? && next.value != "" && nextIsSafe
    ensures r != "" ==> r == next.value
  {
    if next.Some? && nextIsSafe then next.value else ""
  }

  /** `get_success_url`: a non-empty `next` that passes the safety check wins; otherwise the
      user's own `role` attribute picks one of the role pages, and any other value, or none,
      gives the book list. */
  function SuccessUrl(next: Option<string>, nextIsSafe: bool, user: User): (t: Target)
    ensures next.Some? && next.value != "" && nextIsSafe ==> t == NextUrl(next.value)
    ensures !(next.Some? && next.value != "" && nextIsSafe) ==>
      && (t == AdminView <==> user.role == Some("Admin"))
      && (t == LibrarianView <==> user.role == Some("Librarian"))
      && (t == MemberView <==> user.role == Some("Member"))
      && (t == ListBooks <==> user.role !in {Some("Admin"), Some("Librarian"), Some("Member")})
  {
    var redirectTo := RedirectUrl(next, nextIsSafe);
    if redirectTo != "" then NextUrl(redirectTo)
    else if user.role == Some("Admin") then AdminView
    else if user.role == Some("Librarian") then LibrarianView
    else if user.role == Some("Member") then MemberView
    else ListBooks
  }

  /** Without a usable `next` the redirect is always one of the four named routes. */
  lemma SuccessUrlTotal(next: Option<string>, nextIsSafe: bool, user: User)
    requires next.None? || next.value == "" || !nextIsSafe
    ensures SuccessUrl(next, nextIsSafe, user) in {AdminView, LibrarianView, MemberView, ListBooks}
  {
  }

  /** A `next` that fails the safety check is ignored: the user lands where no `next` would send them. */
  lemma UnsafeNextIgnored(next: string, user: User)
    ensures SuccessUrl(Some(next), false, user) == SuccessUrl(None, true, user)
  {
  }

  /** The redirect and the page gates read different fields: a user whose own role is "Admin"
      but whose profile holds the stored value "admin" is sent to the admin page and refused there. */
  lemma AdminRedirectRefused()
    ensures SuccessUrl(None, true, User(true, Some(RelationshipModels.RoleAdmin), Some("Admin"))) == AdminView
    ensures ViewGate(User(true, Some(RelationshipModels.RoleAdmin), Some("Admin")), AdminPage) == RedirectToLogin
  {
    var u := User(true, Some(RelationshipModels.RoleAdmin), Some("Admin"));
    StoredProfileRolesOpenNoPage(u, AdminPage);
  }
}
