/** The `post_save` receiver that gives a newly created account the role "Member" when it
    was created without one. */
module RoleSignal {

  const MemberRole := "Member"

  /** The role an account holds once the receiver has run. */
  function RoleAfterSignal(role: string, created: bool): (r: string)
    ensures !created ==> r == role
    ensures role != "" ==> r == role
    ensures created && role == "" ==> r == MemberRole
    ensures created ==> r != ""
  {
    if created && role == "" then MemberRole else role
  }

  /** Running the receiver twice on the same event gives what running it once gave. */
  lemma RoleAfterSignalIdempotent(role: string, created: bool)
    ensures RoleAfterSignal(RoleAfterSignal(role, created), created) == RoleAfterSignal(role, created)
  {
  }

  /** A role somebody set is never changed, whether the save is a creation or not. */
  lemma SetRoleKept(role: string, created: bool)
    requires role != ""
    ensures RoleAfterSignal(role, created) == role
  {
  }

  /** An account instance and the role its stored row holds. */
  class Account {
    var role: string
    var storedRole: string
    ghost var saves: nat

    constructor (role: string)
      ensures this.role == role && storedRole == role && saves == 1
    {
      this.role := role;
      storedRole := role;
      saves := 1;
    }

    /** `set_default_role`: on a creation without a role, set "Member" and save again. That save
        sends `post_save` once more, now with `created` false, which does nothing. */
    method SetDefaultRole(created: bool)
      modifies this
      ensures role == RoleAfterSignal(old(role), created)
      ensures storedRole == if created && old(role) == "" then role else old(storedRole)
      ensures saves == old(saves) + (if created && old(role) == "" then 1 else 0)
      decreases if created then 2 else 0
    {
      if created && role == "" {
        role := MemberRole;
        Save();
      }
    }

    /** `instance.save()` on an existing row, with the `post_save` it sends. */
    method Save()
      modifies this
      ensures role == old(role) && storedRole == old(role) && saves == old(saves) + 1
      decreases 1
    {
      storedRole := role;
      saves := saves + 1;
      SetDefaultRole(false);
    }
  }
}
