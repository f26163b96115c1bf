/** The library app's models: the profile picture path, the profile's roles and their display
    names, the two `post_save` handlers that keep one profile per user, and the book table's
    `unique_together` constraint on (title, author). */
module RelationshipModels {
  import opened Wrappers
  import Text
  import Ordering

  // ---------------------------------------------------------------- profile picture path

  /** `f"{instance.id}"`: a saved row's primary key, or `None` before the first save. */
  function IdText(id: Option<nat>): (r: string)
    ensures forall i :: 0 <= i < |r| ==> r[i] != '/'
    ensures |r| > 0
  {
    if id.None? then "None" else Text.NatToString(id.value)
  }

  const ProfilePicsDir := "profile_pics/user_"

  /** `profile_pic_path`: "profile_pics/user_<id>/<filename>". */
  function ProfilePicPath(id: Option<nat>, filename: string): (r: string)
    ensures |r| == |ProfilePicsDir| + |IdText(id)| + 1 + |filename|
    ensures Text.IsPrefix(ProfilePicsDir, r)
    ensures r[|r| - |filename|..] == filename
  {
    ProfilePicsDir + IdText(id) + "/" + filename
  }

  lemma IdTextInjective(a: Option<nat>, b: Option<nat>)
    requires IdText(a) == IdText(b)
    ensures a == b
  {
    if a.Some? && b.Some? {
      Text.NatToStringInjective(a.value, b.value);
    } else if a.Some? || b.Some? {
      assert false;
    }
  }

  /** The position of the first '/' in `s`, or `|s|` when there is none. */
  function FirstSlash(s: string): (n: nat)
    ensures n <= |s|
  {
    if s == [] || s[0] == '/' then 0 else 1 + FirstSlash(s[1..])
  }

  lemma {:induction false} FirstSlashAfterHead(h: string, t: string)
    requires forall i :: 0 <= i < |h| ==> h[i] != '/'
    ensures FirstSlash(h + "/" + t) == |h|
  {
    if h != [] {
      assert (h + "/" + t)[0] == h[0];
      assert (h + "/" + t)[1..] == h[1..] + "/" + t;
      FirstSlashAfterHead(h[1..], t);
    }
  }

  /** Splitting at the first '/': a slash-free head is recovered from `head + "/" + tail`. */
  lemma SplitAtSlash(h1: string, t1: string, h2: string, t2: string)
    requires forall i :: 0 <= i < |h1| ==> h1[i] != '/'
    requires forall i :: 0 <= i < |h2| ==> h2[i] != '/'
    requires h1 + "/" + t1 == h2 + "/" + t2
    ensures h1 == h2 && t1 == t2
  {
    var s := h1 + "/" + t1;
    FirstSlashAfterHead(h1, t1);
    FirstSlashAfterHead(h2, t2);
    assert h1 == s[..|h1|] == (h2 + "/" + t2)[..|h2|] == h2;
    assert t1 == s[|h1| + 1..] == (h2 + "/" + t2)[|h2| + 1..] == t2;
  }

  /** Distinct users, or distinct file names, never share an upload path. */
  lemma ProfilePicPathInjective(a: Option<nat>, f: string, b: Option<nat>, g: string)
    requires ProfilePicPath(a, f) == ProfilePicPath(b, g)
    ensures a == b && f == g
  {
    var n := |ProfilePicsDir|;
    assert ProfilePicPath(a, f)[n..] == IdText(a) + "/" + f;
    assert ProfilePicPath(b, g)[n..] == IdText(b) + "/" + g;
    SplitAtSlash(IdText(a), f, IdText(b), g);
    IdTextInjective(a, b);
  }

  // ---------------------------------------------------------------- roles

  const RoleAdmin := "admin"
  const RoleLibrarian := "librarian"
  const RoleMember := "member"

  /** The stored values of `ROLE_CHOICES`. */
  predicate IsRoleChoice(role: string) {
    role == RoleAdmin || role == RoleLibrarian || role == RoleMember
  }

  /** The role a new profile gets. */
  const DefaultRole := RoleMember

  /** `get_role_display()`: the label of a choice, and the stored value itself otherwise. */
  function RoleDisplay(role: string): (shown: string)
    ensures role == RoleAdmin ==> shown == "Admin"
    ensures role == RoleLibrarian ==> shown == "Librarian"
    ensures role == RoleMember ==> shown == "Member"
    ensures !IsRoleChoice(role) ==> shown == role
  {
    if role == RoleAdmin then "Admin"
    else if role == RoleLibrarian then "Librarian"
    else if role == RoleMember then "Member"
    else role
  }

  /** The label of a stored choice is never the stored value: they differ in their first letter. */
  lemma RoleDisplayDiffersFromValue(role: string)
    requires IsRoleChoice(role)
    ensures RoleDisplay(role) != role
    ensures RoleDisplay(role)[0] != role[0]
  {
  }

  /** `UserProfile.__str__`: "<username> (<role label>)". */
  function ProfileString(username: string, role: string): (r: string)
    ensures |r| == |username| + |RoleDisplay(role)| + 3
    ensures r[..|username|] == username
    ensures r[|username|..] == " (" + RoleDisplay(role) + ")"
  {
    username + " (" + RoleDisplay(role) + ")"
  }

  // ---------------------------------------------------------------- profiles

  datatype Profile = Profile(user: nat, role: string)

  function ForUser(user: nat): Profile -> bool {
    (p: Profile) => p.user == user
  }

  /** The number of profiles that belong to `user`. */
  function ProfileCount(profiles: seq<Profile>, user: nat): nat {
    |Ordering.Filter(profiles, ForUser(user))|
  }

  lemma {:induction false} ProfileCountZero(profiles: seq<Profile>, user: nat)
    requires forall i :: 0 <= i < |profiles| ==> profiles[i].user != user
    ensures ProfileCount(profiles, user) == 0
  {
    if profiles != [] {
      ProfileCountZero(profiles[1..], user);
    }
  }

  function ProfileOf(user: nat): Profile -> bool {
    (p: Profile) => p.user == user
  }

  /** The position of the user's profile (`user.userprofile`). */
  function IndexOfProfile(profiles: seq<Profile>, user: nat): Option<nat> {
    Ordering.IndexWhere(profiles, ProfileOf(user))
  }

  /** The profile table, with its one-to-one constraint on the user column. */
  class ProfileTable {
    var profiles: seq<Profile>

    ghost predicate Valid()
      reads this
    {
      && (forall i, j :: 0 <= i < j < |profiles| ==> profiles[i].user != profiles[j].user)
      && (forall i :: 0 <= i < |profiles| ==> IsRoleChoice(profiles[i].role))
    }

    constructor ()
      ensures Valid() && profiles == []
    {
      profiles := [];
    }

    /** `UserProfile.objects.create(user=…)`: a profile with the default role, or an
        integrity error (false) when the user already has one. */
    method CreateProfile(user: nat) returns (ok: bool)
      requires Valid()
      modifies this
      ensures Valid()
      ensures ok <==> IndexOfProfile(old(profiles), user).None?
      ensures profiles == if ok then old(profiles) + [Profile(user, DefaultRole)] else old(profiles)
    {
      if IndexOfProfile(profiles, user).Some? {
        return false;
      }
      profiles := profiles + [Profile(user, DefaultRole)];
      ok := true;
    }

    /** The `post_save` handlers for a user, in registration order: `create_user_profile`
        (only on creation), then `save_user_profile`, which saves the existing profile or
        creates the missing one. An integrity error stops the chain (false). */
    method UserSaved(user: nat, created: bool) returns (ok: bool)
      requires Valid()
      modifies this
      ensures Valid()
      ensures ProfileCount(profiles, user) == 1
      ensures ok <==> !(created && IndexOfProfile(old(profiles), user).Some?)
      ensures IndexOfProfile(old(profiles), user).Some? ==> profiles == old(profiles)
      ensures IndexOfProfile(old(profiles), user).None? ==> profiles == old(profiles) + [Profile(user, DefaultRole)]
    {
      if created {
        ok := CreateProfile(user);
        if !ok {
          ProfileCountUnique(user);
          return;
        }
      }
      ok := true;
      var found := IndexOfProfile(profiles, user);
      if found.None? {
        var made := CreateProfile(user);
      }
      ProfileCountUnique(user);
    }

    /** In a valid table a user has one profile or none. */
    lemma ProfileCountUnique(user: nat)
      requires Valid()
      ensures ProfileCount(profiles, user) == if IndexOfProfile(profiles, user).Some? then 1 else 0
    {
      ProfileCountOfUnique(profiles, user);
    }
  }

  lemma {:induction false} ProfileCountOfUnique(profiles: seq<Profile>, user: nat)
    requires forall i, j :: 0 <= i < j < |profiles| ==> profiles[i].user != profiles[j].user
    ensures ProfileCount(profiles, user) == if IndexOfProfile(profiles, user).Some? then 1 else 0
  {
    if profiles != [] {
      var tail := profiles[1..];
      forall i, j | 0 <= i < j < |tail| ensures tail[i].user != tail[j].user {
        assert tail[i] == profiles[i + 1] && tail[j] == profiles[j + 1];
      }
      if profiles[0].user == user {
        forall k | 0 <= k < |tail| ensures tail[k].user != user {
          assert tail[k] == profiles[k + 1];
        }
        ProfileCountZero(tail, user);
      } else {
        ProfileCountOfUnique(tail, user);
      }
    }
  }

  // ---------------------------------------------------------------- books

  datatype LibraryBook = LibraryBook(id: nat, title: string, author: nat)

  /** The book table under `unique_together = ("title", "author")`. */
  class BookTable {
    var books: seq<LibraryBook>
    var nextId: nat

    ghost predicate Valid()
      reads this
    {
      forall i, j :: 0 <= i < j < |books| ==> (books[i].title, books[i].author) != (books[j].title, books[j].author)
    }

    constructor ()
      ensures Valid() && books == []
    {
      books := [];
      nextId := 1;
    }

    /** Inserting a book: refused (false) exactly when a book with the same title and author exists. */
    method Insert(title: string, author: nat) returns (ok: bool)
      requires Valid()
      modifies this
      ensures Valid()
      ensures ok <==> forall i :: 0 <= i < |old(books)| ==> (old(books)[i].title, old(books)[i].author) != (title, author)
      ensures ok ==> books == old(books) + [LibraryBook(old(nextId), title, author)] && nextId == old(nextId) + 1
      ensures !ok ==> books == old(books) && nextId == old(nextId)
    {
      var i := 0;
      while i < |books|
        invariant 0 <= i <= |books|
        invariant forall k :: 0 <= k < i ==> (books[k].title, books[k].author) != (title, author)
      {
        if books[i].title == title && books[i].author == author {
          return false;
        }
        i := i + 1;
      }
      books := books + [LibraryBook(nextId, title, author)];
      nextId := nextId + 1;
      ok := true;
    }
  }
}
