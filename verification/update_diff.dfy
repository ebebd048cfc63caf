/**
 * The update diff engine: compares the stored user with the caller's new
 * version and produces the field-level instructions of the update, with a
 * different policy per field.
 */
module UpdateDiff {
  import opened Users
  import opened UpdateExpressions

  /** A new hash is written only when one is given and its bytes differ from the stored ones. */
  predicate PasswordChanges(oldUser: User, newUser: User) {
    newUser.passwordHash.Some? && HashBytes(oldUser.passwordHash) != newUser.passwordHash.value
  }

  /** Policy for the email: SET whenever it changed; never REMOVE. */
  function EmailDiff(oldUser: User, newUser: User): (d: seq<Instruction>)
    ensures |d| <= 1
    ensures forall i | 0 <= i < |d| :: d[i] == Set(Email, S(newUser.email))
    ensures d != [] <==> oldUser.email != newUser.email
  {
    if oldUser.email != newUser.email then [Set(Email, S(newUser.email))] else []
  }

  /** Policy for the hash: SET when it changes; a nil new hash leaves it alone; never REMOVE. */
  function PasswordDiff(oldUser: User, newUser: User): (d: seq<Instruction>)
    ensures |d| <= 1
    ensures forall i | 0 <= i < |d| :: newUser.passwordHash.Some? && d[i] == Set(PasswordHash, B(newUser.passwordHash.value))
    ensures d != [] <==> PasswordChanges(oldUser, newUser)
  {
    if PasswordChanges(oldUser, newUser) then [Set(PasswordHash, B(newUser.passwordHash.value))] else []
  }

  /** Policy for an optional string field: SET a changed non-empty value, REMOVE a value cleared to "". */
  function OptionalStringDiff(f: Field, oldValue: string, newValue: string): (d: seq<Instruction>)
    ensures |d| <= 1
    ensures forall i | 0 <= i < |d| :: d[i].field == f
    ensures d == [Set(f, S(newValue))] <==> oldValue != newValue && newValue != ""
    ensures d == [Remove(f)] <==> oldValue != newValue && newValue == ""
    ensures d == [] <==> oldValue == newValue
  {
    if oldValue == newValue then []
    else if newValue != "" then [Set(f, S(newValue))]
    else [Remove(f)]
  }

  /** The instructions that turn the stored `oldUser` into what the caller meant by `newUser`, in field order. */
  function Diff(oldUser: User, newUser: User): (d: seq<Instruction>)
    ensures Acceptable(d)
    ensures Untouched(d, Username)
  {
    EmailDiff(oldUser, newUser)
    + PasswordDiff(oldUser, newUser)
    + OptionalStringDiff(Image, oldUser.image, newUser.image)
    + OptionalStringDiff(Bio, oldUser.bio, newUser.bio)
  }

  /** Email: SET exactly when it changed, and never REMOVE. */
  lemma DiffEmailPolicy(oldUser: User, newUser: User)
    ensures Set(Email, S(newUser.email)) in Diff(oldUser, newUser) <==> oldUser.email != newUser.email
    ensures forall ins | ins in Diff(oldUser, newUser) && ins.field == Email :: ins == Set(Email, S(newUser.email))
  {
  }

  /** Password: SET exactly when a non-nil new hash differs byte-wise, carrying that hash; never REMOVE. */
  lemma DiffPasswordPolicy(oldUser: User, newUser: User)
    ensures (exists ins :: ins in Diff(oldUser, newUser) && ins.field == PasswordHash) <==> PasswordChanges(oldUser, newUser)
    ensures forall ins | ins in Diff(oldUser, newUser) && ins.field == PasswordHash ::
      newUser.passwordHash.Some? && ins == Set(PasswordHash, B(newUser.passwordHash.value))
    ensures newUser.passwordHash.None? ==> Untouched(Diff(oldUser, newUser), PasswordHash)
  {
  }

  /** Image and bio: SET a changed non-empty value, REMOVE a cleared one, nothing when unchanged. */
  lemma DiffOptionalPolicy(oldUser: User, newUser: User)
    ensures Set(Image, S(newUser.image)) in Diff(oldUser, newUser) <==> oldUser.image != newUser.image && newUser.image != ""
    ensures Remove(Image) in Diff(oldUser, newUser) <==> oldUser.image != newUser.image && newUser.image == ""
    ensures Untouched(Diff(oldUser, newUser), Image) <==> oldUser.image == newUser.image
    ensures Set(Bio, S(newUser.bio)) in Diff(oldUser, newUser) <==> oldUser.bio != newUser.bio && newUser.bio != ""
    ensures Remove(Bio) in Diff(oldUser, newUser) <==> oldUser.bio != newUser.bio && newUser.bio == ""
    ensures Untouched(Diff(oldUser, newUser), Bio) <==> oldUser.bio == newUser.bio
  {
  }

  /**
   * Applying the diff to the stored record yields what the caller asked for:
   * the new email, image and bio, the new hash when one is given, and the old
   * hash otherwise; the username never changes.
   */
  lemma DiffMeetsIntent(oldUser: User, newUser: User)
    ensures var u := ApplyUpdate(oldUser, Diff(oldUser, newUser));
      && u.username == oldUser.username
      && u.email == newUser.email
      && u.image == newUser.image
      && u.bio == newUser.bio
      && (newUser.passwordHash.None? ==> u.passwordHash == oldUser.passwordHash)
      && (newUser.passwordHash.Some? ==> HashBytes(u.passwordHash) == newUser.passwordHash.value)
  {
    DiffSetsEmail(oldUser, newUser);
    DiffSetsPassword(oldUser, newUser);
    DiffSetsImage(oldUser, newUser);
    DiffSetsBio(oldUser, newUser);
  }

  lemma DiffSetsEmail(oldUser: User, newUser: User)
    ensures ApplyUpdate(oldUser, Diff(oldUser, newUser)).email == newUser.email
  {
    var d := Diff(oldUser, newUser);
    DiffEmailPolicy(oldUser, newUser);
    if oldUser.email != newUser.email {
      var i :| 0 <= i < |d| && d[i] == Set(Email, S(newUser.email));
      assert ReadBack(ApplyUpdate(oldUser, d), d[i].field) == Written(d[i]);
    } else {
      assert forall i | 0 <= i < |d| :: d[i] in d;
    }
  }

  lemma DiffSetsPassword(oldUser: User, newUser: User)
    ensures var v := ApplyUpdate(oldUser, Diff(oldUser, newUser));
      && (newUser.passwordHash.None? ==> v.passwordHash == oldUser.passwordHash)
      && (newUser.passwordHash.Some? ==> HashBytes(v.passwordHash) == newUser.passwordHash.value)
  {
    var d := Diff(oldUser, newUser);
    DiffPasswordPolicy(oldUser, newUser);
    if PasswordChanges(oldUser, newUser) {
      var ins :| ins in d && ins.field == PasswordHash;
      var i :| 0 <= i < |d| && d[i] == ins;
      assert ReadBack(ApplyUpdate(oldUser, d), d[i].field) == Written(d[i]);
    } else {
      assert forall i | 0 <= i < |d| :: d[i] in d;
    }
  }

  lemma DiffSetsImage(oldUser: User, newUser: User)
    ensures ApplyUpdate(oldUser, Diff(oldUser, newUser)).image == newUser.image
  {
    var d := Diff(oldUser, newUser);
    DiffOptionalPolicy(oldUser, newUser);
    if oldUser.image != newUser.image {
      var ins := if newUser.image != "" then Set(Image, S(newUser.image)) else Remove(Image);
      var i :| 0 <= i < |d| && d[i] == ins;
      assert ReadBack(ApplyUpdate(oldUser, d), d[i].field) == Written(d[i]);
    }
  }

  lemma DiffSetsBio(oldUser: User, newUser: User)
    ensures ApplyUpdate(oldUser, Diff(oldUser, newUser)).bio == newUser.bio
  {
    var d := Diff(oldUser, newUser);
    DiffOptionalPolicy(oldUser, newUser);
    if oldUser.bio != newUser.bio {
      var ins := if newUser.bio != "" then Set(Bio, S(newUser.bio)) else Remove(Bio);
      var i :| 0 <= i < |d| && d[i] == ins;
      assert ReadBack(ApplyUpdate(oldUser, d), d[i].field) == Written(d[i]);
    }
  }

  /** The diff is minimal: it is empty exactly when applying it would leave the stored record as it is. */
  lemma DiffEmptyIffNoChange(oldUser: User, newUser: User)
    ensures Diff(oldUser, newUser) == [] <==>
      && oldUser.email == newUser.email
      && !PasswordChanges(oldUser, newUser)
      && oldUser.image == newUser.image
      && oldUser.bio == newUser.bio
    ensures Diff(oldUser, newUser) == [] <==> ApplyUpdate(oldUser, Diff(oldUser, newUser)) == oldUser
  {
  }
}
