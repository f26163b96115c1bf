/** The bookshelf's `CustomUserManager`: keyword-argument defaulting with `setdefault`, the
    superuser checks, and the user rows it saves; also `Book.__str__` of the same models file. */
module UserManager {
  import opened Wrappers
  import Text

  /** A keyword-argument value, as far as the manager inspects it. `VBool(true)` is the only
      value that is `True` by identity: the integer 1 or the string "True" are not. */
  datatype Value = VBool(b: bool) | VStr(s: string) | VInt(i: int) | VNone

  /** `dict.setdefault(key, value)`: the key keeps its value if present, and gets `value` otherwise. */
  function SetDefault(fields: map<string, Value>, key: string, value: Value): (r: map<string, Value>)
    ensures r.Keys == fields.Keys + {key}
    ensures key in fields ==> r[key] == fields[key]
    ensures key !in fields ==> r[key] == value
    ensures forall k :: k in fields && k != key ==> r[k] == fields[k]
  {
    if key in fields then fields else fields[key := value]
  }

  /** `setdefault` never overrides, so applying it twice changes nothing more. */
  lemma SetDefaultIdempotent(fields: map<string, Value>, key: string, value: Value, other: Value)
    ensures SetDefault(SetDefault(fields, key, value), key, other) == SetDefault(fields, key, value)
  {
  }

  /** `dict.get(key)`. */
  function Get(fields: map<string, Value>, key: string): Option<Value> {
    if key in fields then Some(fields[key]) else None
  }

  const UsernameRequired := "The Username must be set"
  const StaffRequired := "Superuser must have is_staff=True."
  const SuperuserRequired := "Superuser must have is_superuser=True."

  /** The keyword arguments `create_user` builds the user from. */
  function UserFields(extraFields: map<string, Value>): (r: map<string, Value>)
    ensures r.Keys == extraFields.Keys + {"role"}
    ensures r["role"] == if "role" in extraFields then extraFields["role"] else VStr("Member")
    ensures forall k :: k in extraFields && k != "role" ==> r[k] == extraFields[k]
  {
    SetDefault(extraFields, "role", VStr("Member"))
  }

  /** The keyword arguments after `create_superuser`'s three defaults. */
  function SuperuserFields(extraFields: map<string, Value>): (r: map<string, Value>)
    ensures r.Keys == extraFields.Keys + {"is_staff", "is_superuser", "role"}
    ensures r["is_staff"] == if "is_staff" in extraFields then extraFields["is_staff"] else VBool(true)
    ensures r["is_superuser"] == if "is_superuser" in extraFields then extraFields["is_superuser"] else VBool(true)
    ensures r["role"] == if "role" in extraFields then extraFields["role"] else VStr("Admin")
    ensures forall k :: k in extraFields && k !in {"is_staff", "is_superuser", "role"} ==> r[k] == extraFields[k]
  {
    SetDefault(SetDefault(SetDefault(extraFields, "is_staff", VBool(true)), "is_superuser", VBool(true)), "role", VStr("Admin"))
  }

  /** Once the superuser defaults are in place, `create_user`'s own default has nothing left to do. */
  lemma SuperuserFieldsKeepRole(extraFields: map<string, Value>)
    ensures UserFields(SuperuserFields(extraFields)) == SuperuserFields(extraFields)
  {
  }

  /** Both flags are exactly `True` after the defaults: the condition under which no error is raised. */
  predicate SuperuserFlagsOk(fields: map<string, Value>) {
    Get(fields, "is_staff") == Some(VBool(true)) && Get(fields, "is_superuser") == Some(VBool(true))
  }

  /** Flags the caller leaves out pass the checks; flags the caller gives pass only when `True`. */
  lemma SuperuserFlagsOkIff(extraFields: map<string, Value>)
    ensures SuperuserFlagsOk(SuperuserFields(extraFields)) <==>
      && ("is_staff" !in extraFields || extraFields["is_staff"] == VBool(true))
      && ("is_superuser" !in extraFields || extraFields["is_superuser"] == VBool(true))
  {
  }

  /** A saved user row: the username, the password as given to `set_password` (kept opaque),
      and the remaining model fields. */
  datatype UserRow = UserRow(username: string, password: Option<string>, fields: map<string, Value>)

  class UserStore {
    var users: seq<UserRow>

    constructor ()
      ensures users == []
    {
      users := [];
    }

    /** `create_user`: an empty username is refused before anything is saved; otherwise the
        role defaults to "Member" and the user is saved. */
    method CreateUser(username: string, password: Option<string>, extraFields: map<string, Value>) returns (r: Result<UserRow, string>)
      modifies this
      ensures username == "" ==> r == Err(UsernameRequired) && users == old(users)
      ensures username != "" ==> r == Ok(UserRow(username, password, UserFields(extraFields))) && users == old(users) + [r.value]
    {
      if username == "" {
        return Err(UsernameRequired);
      }
      var fields := extraFields;
      fields := SetDefault(fields, "role", VStr("Member"));
      var user := UserRow(username, password, fields);
      users := users + [user];
      r := Ok(user);
    }

    /** `create_superuser`: the three defaults, the two checks (in that order, before the
        username is looked at), then `create_user` with the completed arguments. */
    method CreateSuperuser(username: string, password: Option<string>, extraFields: map<string, Value>) returns (r: Result<UserRow, string>)
      modifies this
      ensures Get(SuperuserFields(extraFields), "is_staff") != Some(VBool(true)) ==> r == Err(StaffRequired) && users == old(users)
      ensures Get(SuperuserFields(extraFields), "is_staff") == Some(VBool(true)) && Get(SuperuserFields(extraFields), "is_superuser") != Some(VBool(true)) ==>
        r == Err(SuperuserRequired) && users == old(users)
      ensures SuperuserFlagsOk(SuperuserFields(extraFields)) && username == "" ==> r == Err(UsernameRequired) && users == old(users)
      ensures SuperuserFlagsOk(SuperuserFields(extraFields)) && username != "" ==>
        r == Ok(UserRow(username, password, SuperuserFields(extraFields))) && users == old(users) + [r.value]
    {
      var fields := extraFields;
      fields := SetDefault(fields, "is_staff", VBool(true));
      fields := SetDefault(fields, "is_superuser", VBool(true));
      fields := SetDefault(fields, "role", VStr("Admin"));
      if Get(fields, "is_staff") != Some(VBool(true)) {
        return Err(StaffRequired);
      }
      if Get(fields, "is_superuser") != Some(VBool(true)) {
        return Err(SuperuserRequired);
      }
      SuperuserFieldsKeepRole(extraFields);
      r := CreateUser(username, password, fields);
    }
  }

  /** `Book.__str__`: "<title> by <author>,<year>)", with no space after the comma and a
      closing parenthesis that nothing opens. */
  function BookString(title: string, author: string, year: int): (r: string)
    ensures |r| == |title| + 4 + |author| + 1 + |Text.IntToString(year)| + 1
    ensures r[..|title| + 4 + |author| + 1] == title + " by " + author + ","
    ensures r[|r| - 1] == ')'
  {
    title + " by " + author + "," + Text.IntToString(year) + ")"
  }

  /** Knowing the title and the author, a non-negative year is read back from the string. */
  lemma BookStringYear(title: string, author: string, year: nat)
    ensures var r := BookString(title, author, year);
      Text.ParseNat(r[|title| + 4 + |author| + 1..|r| - 1]) == year
  {
    var r := BookString(title, author, year);
    assert r[|title| + 4 + |author| + 1..|r| - 1] == Text.NatToString(year);
  }
}
