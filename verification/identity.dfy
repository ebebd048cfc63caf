/**
 * The identity invariant the service keeps: the projection and the user
 * table describe the same one-to-one link between emails and usernames.
 * From it follow email uniqueness and lookups by email that agree with
 * lookups by username.
 */
module Identity {
  import opened Errors
  import opened Users
  import opened UpdateExpressions
  import opened KeyValueStore
  import opened UpdateDiff
  import opened UserService

  /** Every projection points at a user with that email, and every user's email is projected back to it. */
  predicate Consistent(s: Store) {
    && (forall e | e in s.emails :: s.emails[e] in s.users && s.users[s.emails[e]].email == e)
    && (forall k | k in s.users :: s.users[k].email in s.emails && s.emails[s.users[k].email] == k)
  }

  /** The store starts out consistent: no users and no projections. */
  lemma EmptyStoreConsistent()
    ensures Consistent(EmptyStore)
  {
  }

  /** No two stored users share an email. */
  lemma ConsistentEmailsUnique(s: Store, a: string, b: string)
    requires Consistent(s)
    requires a in s.users && b in s.users && a != b
    ensures s.users[a].email != s.users[b].email
  {
    assert s.emails[s.users[a].email] == a;
  }

  /**
   * In a consistent store a lookup by email returns the user owning that
   * email, every stored user is found by its email, and a projection never
   * dangles (the username-scoped "not found" cannot come out of it).
   */
  lemma ConsistentLookups(s: Store, email: string)
    requires Consistent(s)
    ensures GetUserByEmail(s, email).Success? ==> GetUserByEmail(s, email).value.email == email
    ensures GetUserByEmail(s, email) != Failure(InputError("username", "not found"))
    ensures forall k | k in s.users && k != "" && s.users[k].email == email && email != "" ::
      GetUserByEmail(s, email) == Success(s.users[k])
  {
  }

  /** Creating a user, whether it commits or not, keeps the store consistent. */
  lemma PutUserPreservesConsistency(s: Store, user: User, validate: User -> Option<Error>)
    requires Consistent(s)
    ensures Consistent(PutUser(s, user, validate).store)
  {
  }

  /**
   * Replacing user `k` by `u2` keeps the store consistent when the projection
   * moves with its email: nothing changes if the email stays, otherwise the
   * old email is released and the new, previously free one linked to `k`.
   */
  lemma RelinkPreservesConsistency(s: Store, s2: Store, k: string, u2: User)
    requires Consistent(s)
    requires k in s.users && u2.username == k
    requires s2.users == s.users[k := u2]
    requires s.users[k].email == u2.email ==> s2.emails == s.emails
    requires s.users[k].email != u2.email ==>
      u2.email !in s.emails && s2.emails == (s.emails - {s.users[k].email})[u2.email := k]
    ensures Consistent(s2)
  {
    var oldEmail := s.users[k].email;
    forall e | e in s2.emails
      ensures s2.emails[e] in s2.users && s2.users[s2.emails[e]].email == e
    {
      if e != u2.email {
        assert e in s.emails && s2.emails[e] == s.emails[e];
        assert s.emails[e] != k;
      }
    }
    forall j | j in s2.users
      ensures s2.users[j].email in s2.emails && s2.emails[s2.users[j].email] == j
    {
      if j != k {
        var e := s.users[j].email;
        assert s.emails[e] == j;
        assert e != oldEmail;
      }
    }
  }

  /**
   * Updating a user from a snapshot equal to the stored record, without
   * renaming it, keeps the store consistent, whether it commits or not.
   */
  lemma UpdateUserPreservesConsistency(s: Store, oldUser: User, newUser: User, validate: User -> Option<Error>)
    requires Consistent(s)
    requires oldUser.username in s.users && s.users[oldUser.username] == oldUser
    requires newUser.username == oldUser.username
    ensures Consistent(UpdateUser(s, oldUser, newUser, validate).store)
  {
    var r := UpdateUser(s, oldUser, newUser, validate);
    if r.error.None? && r.submitted.Some? {
      UpdateUserEffect(s, oldUser, newUser, validate);
      DiffMeetsIntent(oldUser, newUser);
      var u2 := ApplyUpdate(oldUser, Diff(oldUser, newUser));
      RelinkPreservesConsistency(s, r.store, oldUser.username, u2);
    }
  }

  function AcceptAll(u: User): Option<Error> { None }

  /** "ann" moved from "x" to "x2", then "bob" took "x". */
  const RacedStore: Store :=
    Store(map["ann" := User("ann", "x2", None, "", ""), "bob" := User("bob", "x", None, "", "")],
          map["x2" := "ann", "x" := "bob"])

  lemma RacedStoreConsistent()
    ensures Consistent(RacedStore)
  {
  }

  /** Ann's record as read before she moved to "x2". */
  const StaleAnn: User := User("ann", "x", None, "", "")

  /**
   * The update's conditions only test that items exist, so a snapshot that
   * is no longer the stored record can break the invariant: an update from
   * ann's stale snapshot to email "y" commits, deletes bob's projection of
   * "x", and leaves "x2" pointing at a user whose email is now "y".
   */
  lemma StaleSnapshotBreaksConsistency()
    ensures Consistent(RacedStore)
    ensures RacedStore.users["ann"] != StaleAnn
    ensures UpdateUser(RacedStore, StaleAnn, StaleAnn.(email := "y"), AcceptAll).error.None?
    ensures !Consistent(UpdateUser(RacedStore, StaleAnn, StaleAnn.(email := "y"), AcceptAll).store)
  {
    RacedStoreConsistent();
    RacedUpdateCommits();
    RacedUpdateDropsBob();
  }

  lemma RacedUpdateCommits()
    ensures UpdateUser(RacedStore, StaleAnn, StaleAnn.(email := "y"), AcceptAll).error.None?
  {
    var newUser := StaleAnn.(email := "y");
    assert Diff(StaleAnn, newUser) == [Set(Email, S("y"))];
    UpdateConditions(RacedStore, StaleAnn, newUser, UpdateTransaction(StaleAnn, newUser).value);
  }

  lemma RacedUpdateDropsBob()
    requires UpdateUser(RacedStore, StaleAnn, StaleAnn.(email := "y"), AcceptAll).error.None?
    ensures var s2 := UpdateUser(RacedStore, StaleAnn, StaleAnn.(email := "y"), AcceptAll).store;
      "bob" in s2.users && s2.users["bob"].email !in s2.emails
  {
    UpdateUserEffect(RacedStore, StaleAnn, StaleAnn.(email := "y"), AcceptAll);
  }
}
