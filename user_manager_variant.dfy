/** The second version of the bookshelf models: a `CustomUserManager` that also takes an
    e-mail, a profile picture path keyed by username, and a `Book.__str__` with a space. */
module UserManagerVariant {
  import opened Wrappers
  import Text
  import UserManager
  import RelationshipModels

  /** `email or ""`: `None` and the empty string both become "". */
  function EmailOrEmpty(email: Option<string>): (r: string)
    ensures email.Some? && email.value != "" ==> r == email.value
    ensures email.None? || email.value == "" ==> r == ""
  {
    if email.Some? then email.value else ""
  }

  datatype UserRow = UserRow(username: string, email: string, password: Option<string>, fields: map<string, UserManager.Value>)

  class UserStore {
    var users: seq<UserRow>

    constructor ()
      ensures users == []
    {
      users := [];
    }

    /** `create_user`: an empty username is refused; the role defaults to "Member"; a missing
        e-mail is stored as "". */
    method CreateUser(username: string, email: Option<string>, password: Option<string>, extraFields: map<string, UserManager.Value>)
      returns (r: Result<UserRow, string>)
      modifies this
      ensures username == "" ==> r == Err(UserManager.UsernameRequired) && users == old(users)
      ensures username != "" ==>
        r == Ok(UserRow(username, EmailOrEmpty(email), password, UserManager.UserFields(extraFields))) && users == old(users) + [r.value]
    {
      if username == "" {
        return Err(UserManager.UsernameRequired);
      }
      var fields := extraFields;
      fields := UserManager.SetDefault(fields, "role", UserManager.VStr("Member"));
      var user := UserRow(username, EmailOrEmpty(email), password, fields);
      users := users + [user];
      r := Ok(user);
    }

    /** `create_superuser`: the same defaults and checks as the first version; the e-mail is
        passed on to `create_user`. */
    method CreateSuperuser(username: string, email: Option<string>, password: Option<string>, extraFields: map<string, UserManager.Value>)
      returns (r: Result<UserRow, string>)
      modifies this
      ensures UserManager.Get(UserManager.SuperuserFields(extraFields), "is_staff") != Some(UserManager.VBool(true)) ==>
        r == Err(UserManager.StaffRequired) && users == old(users)
      ensures (UserManager.Get(UserManager.SuperuserFields(extraFields), "is_staff") == Some(UserManager.VBool(true))
        && UserManager.Get(UserManager.SuperuserFields(extraFields), "is_superuser") != Some(UserManager.VBool(true))) ==>
        r == Err(UserManager.SuperuserRequired) && users == old(users)
      ensures UserManager.SuperuserFlagsOk(UserManager.SuperuserFields(extraFields)) && username == "" ==>
        r == Err(UserManager.UsernameRequired) && users == old(users)
      ensures UserManager.SuperuserFlagsOk(UserManager.SuperuserFields(extraFields)) && username != "" ==>
        r == Ok(UserRow(username, EmailOrEmpty(email), password, UserManager.SuperuserFields(extraFields)))
        && users == old(users) + [r.value]
    {
      var fields := extraFields;
      fields := UserManager.SetDefault(fields, "is_staff", UserManager.VBool(true));
      fields := UserManager.SetDefault(fields, "is_superuser", UserManager.VBool(true));
      fields := UserManager.SetDefault(fields, "role", UserManager.VStr("Admin"));
      if UserManager.Get(fields, "is_staff") != Some(UserManager.VBool(true)) {
        return Err(UserManager.StaffRequired);
      }
      if UserManager.Get(fields, "is_superuser") != Some(UserManager.VBool(true)) {
        return Err(UserManager.SuperuserRequired);
      }
      UserManager.SuperuserFieldsKeepRole(extraFields);
      r := CreateUser(username, email, password, fields);
    }
  }

  /** `profile_pic_path`: "profile_pics/<username>/<filename>". */
  function ProfilePicPath(username: string, filename: string): (r: string)
    ensures |r| == 13 + |username| + 1 + |filename|
    ensures r[..13] == "profile_pics/"
    ensures r[|r| - |filename|..] == filename
  {
    "profile_pics/" + username + "/" + filename
  }

  /** For usernames without '/', such as those that passed Django's username validator
      (letters, digits and @ . + - _ only), two users, or two file names, never share a path.
      `create_user` saves without running that validator, so the requirement is not implied. */
  lemma ProfilePicPathInjective(u: string, f: string, v: string, g: string)
    requires forall i :: 0 <= i < |u| ==> u[i] != '/'
    requires forall i :: 0 <= i < |v| ==> v[i] != '/'
    requires ProfilePicPath(u, f) == ProfilePicPath(v, g)
    ensures u == v && f == g
  {
    assert ProfilePicPath(u, f)[13..] == u + "/" + f;
    assert ProfilePicPath(v, g)[13..] == v + "/" + g;
    RelationshipModels.SplitAtSlash(u, f, v, g);
  }

  /** `Book.__str__`: "<title> by <author>, <year>". */
  function BookString(title: string, author: string, year: int): (r: string)
    ensures |r| == |title| + 4 + |author| + 2 + |Text.IntToString(year)|
    ensures r[..|title| + 4 + |author| + 2] == title + " by " + author + ", "
  {
    title + " by " + author + ", " + Text.IntToString(year)
  }

  /** Knowing the title and the author, a non-negative year is read back from the string. */
  lemma BookStringYear(title: string, author: string, year: nat)
    ensures var r := BookString(title, author, year);
      Text.ParseNat(r[|title| + 4 + |author| + 2..]) == year
  {
    var r := BookString(title, author, year);
    assert r[|title| + 4 + |author| + 2..] == Text.NatToString(year);
  }
}
