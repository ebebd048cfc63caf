/**
 * The user repository: create, update, the lookups by username and by
 * email, and the batch fetch, over the store's atomic transactions.
 * `validate` stands for the user record's own validation, whose rules are
 * outside this model; `None` means the record is valid.
 */
module UserService {
  import opened Errors
  import opened Users
  import opened UpdateExpressions
  import opened KeyValueStore
  import opened UpdateDiff

  /** What a write call leaves behind: the store, the transaction it submitted (if any), and its error. */
  datatype WriteResult = WriteResult(store: Store, submitted: Option<seq<Op>>, error: Option<Error>)

  // ----- Lookups -----

  /** A single get on the user table. */
  function GetUserByUsername(s: Store, username: string): (r: Result<User>)
    ensures r.Success? <==> username in s.users
    ensures r.Success? ==> r.value.username == username && r.value == s.users[username]
    ensures r.Failure? ==> r.error == InputError("username", "not found")
  {
    if username in s.users then Success(s.users[username])
    else Failure(InputError("username", "not found"))
  }

  /** A single get on the projection; a missing record is an email-scoped "not found". */
  function GetUsernameByEmail(s: Store, email: string): (r: Result<string>)
    ensures r.Success? <==> email in s.emails
    ensures r.Success? ==> r.value == s.emails[email]
    ensures r.Failure? ==> r.error == InputError("email", "not found")
  {
    if email in s.emails then Success(s.emails[email])
    else Failure(InputError("email", "not found"))
  }

  /** Resolve the email through the projection, then fetch the user by username. */
  function GetUserByEmail(s: Store, email: string): (r: Result<User>)
    ensures email == "" ==> r == Failure(InputError("email", "can't be blank"))
    ensures email != "" && email !in s.emails ==> r == Failure(InputError("email", "not found"))
    ensures email != "" && email in s.emails && s.emails[email] == "" ==> r == Failure(InputError("email", "not found"))
    ensures email != "" && email in s.emails && s.emails[email] != "" ==> r == GetUserByUsername(s, s.emails[email])
    ensures r.Success? ==> email in s.emails && r.value.username == s.emails[email]
  {
    if email == "" then Failure(InputError("email", "can't be blank"))
    else
      match GetUsernameByEmail(s, email)
      case Failure(e) => Failure(e)
      case Success(username) =>
        if username == "" then Failure(InputError("email", "not found"))
        else GetUserByUsername(s, username)
  }

  // ----- Create -----

  /** The create transaction: both records, each only if its key is still free. */
  function CreateTransaction(user: User): (tx: seq<Op>)
    ensures WellFormedRequest(tx)
    ensures Targets(tx) == {UserKey(user.username), EmailKey(user.email)}
    ensures forall i | 0 <= i < |tx| :: tx[i].cond == ItemNotExists
  {
    var tx := [PutUserItem(user, ItemNotExists), PutEmailItem(EmailUser(user.email, user.username), ItemNotExists)];
    assert Target(tx[0]) == UserKey(user.username) && Target(tx[1]) == EmailKey(user.email);
    tx
  }

  /**
   * Create a user: validate, then reserve the username and the email in one
   * transaction. Which of the two keys was taken is not reported.
   */
  function PutUser(s: Store, user: User, validate: User -> Option<Error>): (r: WriteResult)
    ensures validate(user).Some? ==> r == WriteResult(s, None, validate(user))
    ensures validate(user).None? ==> r.submitted == Some(CreateTransaction(user))
    ensures r.error.None? <==> validate(user).None? && user.username !in s.users && user.email !in s.emails
    ensures validate(user).None? && (user.username in s.users || user.email in s.emails) ==> r.error == Some(TransactionCanceled)
    ensures r.error.Some? ==> r.store == s
    ensures r.error.None? ==> r.store.users == s.users[user.username := user]
    ensures r.error.None? ==> r.store.emails == s.emails[user.email := user.username]
  {
    match validate(user)
    case Some(e) => WriteResult(s, None, Some(e))
    case None =>
      var tx := CreateTransaction(user);
      var c := TransactWriteItems(s, tx);
      assert ConditionsHold(s, tx) <==> user.username !in s.users && user.email !in s.emails by {
        assert ConditionHolds(s, tx[0]) <==> user.username !in s.users;
        assert ConditionHolds(s, tx[1]) <==> user.email !in s.emails;
      }
      if c.error.None? then
        CreateEffect(s, c.store, user, tx);
        WriteResult(c.store, Some(tx), c.error)
      else
        WriteResult(c.store, Some(tx), c.error)
  }

  /** A committed create changed exactly the two reserved items. */
  lemma CreateEffect(s: Store, s2: Store, user: User, tx: seq<Op>)
    requires tx == CreateTransaction(user)
    requires forall i | 0 <= i < |tx| :: Reflects(s, s2, tx[i])
    requires forall k | UserKey(k) !in Targets(tx) :: SameUser(s, s2, k)
    requires forall e | EmailKey(e) !in Targets(tx) :: SameEmail(s, s2, e)
    ensures s2.users == s.users[user.username := user]
    ensures s2.emails == s.emails[user.email := user.username]
  {
    assert Reflects(s, s2, tx[0]) && Reflects(s, s2, tx[1]);
    forall k | k != user.username ensures SameUser(s, s2, k) {
      assert UserKey(k) !in Targets(tx);
    }
    forall e | e != user.email ensures SameEmail(s, s2, e) {
      assert EmailKey(e) !in Targets(tx);
    }
    UsersPointUpdate(s, s2, user.username, user);
    EmailsPointUpdate(s, s2, user.email, user.username);
  }

  /** After a successful create, the user is found both by username and by email. */
  lemma PutUserThenFetch(s: Store, user: User, validate: User -> Option<Error>)
    requires PutUser(s, user, validate).error.None?
    ensures GetUserByUsername(PutUser(s, user, validate).store, user.username) == Success(user)
    ensures user.email != "" && user.username != "" ==>
      GetUserByEmail(PutUser(s, user, validate).store, user.email) == Success(user)
  {
  }

  // ----- Update -----

  /**
   * The update transaction: when the email changes, link the new email and
   * unlink the old one; then update the user's fields. `None` when there is
   * nothing to write.
   */
  function UpdateTransaction(oldUser: User, newUser: User): (tx: Option<seq<Op>>)
    ensures tx.None? <==> Diff(oldUser, newUser) == []
    ensures tx.Some? ==> WellFormedRequest(tx.value)
    ensures tx.Some? ==> tx.value[|tx.value| - 1] == UpdateUserItem(oldUser.username, Diff(oldUser, newUser), ItemExists)
    ensures tx.Some? ==> forall i | 0 <= i < |tx.value| - 1 :: Target(tx.value[i]).EmailKey?
    ensures oldUser.email != newUser.email ==> tx == Some([
      PutEmailItem(EmailUser(newUser.email, newUser.username), ItemNotExists),
      DeleteEmailItem(oldUser.email, ItemExists),
      UpdateUserItem(oldUser.username, Diff(oldUser, newUser), ItemExists)])
    ensures oldUser.email == newUser.email && tx.Some? ==> |tx.value| == 1
  {
    var link :=
      if oldUser.email != newUser.email then
        [PutEmailItem(EmailUser(newUser.email, newUser.username), ItemNotExists), DeleteEmailItem(oldUser.email, ItemExists)]
      else [];
    var d := Diff(oldUser, newUser);
    if d == [] then None
    else
      var tx := link + [UpdateUserItem(oldUser.username, d, ItemExists)];
      assert forall i | 0 <= i < |tx| - 1 :: Target(tx[i]).EmailKey?;
      assert oldUser.email != newUser.email ==> tx == [link[0], link[1], UpdateUserItem(oldUser.username, d, ItemExists)];
      Some(tx)
  }

  /**
   * Update a user from the snapshot `oldUser` to `newUser`: validate, then
   * commit the email relink and the field update together, or do nothing
   * when no field changed.
   */
  function UpdateUser(s: Store, oldUser: User, newUser: User, validate: User -> Option<Error>): (r: WriteResult)
    ensures validate(newUser).Some? ==> r == WriteResult(s, None, validate(newUser))
    ensures validate(newUser).None? && Diff(oldUser, newUser) == [] ==> r == WriteResult(s, None, None)
    ensures validate(newUser).None? && Diff(oldUser, newUser) != [] ==> r.submitted == UpdateTransaction(oldUser, newUser)
    ensures r.error.Some? ==> r.store == s
    ensures r.submitted.Some? && r.error.Some? ==> r.error == Some(TransactionCanceled)
    ensures r.submitted.Some? ==>
      (r.error.None? <==> oldUser.username in s.users
                          && (oldUser.email != newUser.email ==> newUser.email !in s.emails && oldUser.email in s.emails))
  {
    match validate(newUser)
    case Some(e) => WriteResult(s, None, Some(e))
    case None =>
      match UpdateTransaction(oldUser, newUser)
      case None => WriteResult(s, None, None)
      case Some(tx) =>
        var c := TransactWriteItems(s, tx);
        UpdateConditions(s, oldUser, newUser, tx);
        WriteResult(c.store, Some(tx), c.error)
  }

  /** The conditions of the update transaction, in terms of the store. */
  lemma UpdateConditions(s: Store, oldUser: User, newUser: User, tx: seq<Op>)
    requires UpdateTransaction(oldUser, newUser) == Some(tx)
    ensures ConditionsHold(s, tx) <==>
      oldUser.username in s.users
      && (oldUser.email != newUser.email ==> newUser.email !in s.emails && oldUser.email in s.emails)
  {
    assert ConditionHolds(s, tx[|tx| - 1]) <==> oldUser.username in s.users;
    if oldUser.email != newUser.email {
      assert ConditionHolds(s, tx[0]) <==> newUser.email !in s.emails;
      assert ConditionHolds(s, tx[1]) <==> oldUser.email in s.emails;
    }
  }

  /**
   * A committed update rewrote the user item with the diff applied to the
   * stored record and, when the email changed, moved the projection from the
   * old email to the new one; nothing else changed.
   */
  lemma UpdateUserEffect(s: Store, oldUser: User, newUser: User, validate: User -> Option<Error>)
    requires UpdateUser(s, oldUser, newUser, validate).submitted.Some?
    requires UpdateUser(s, oldUser, newUser, validate).error.None?
    ensures oldUser.username in s.users
    ensures var s2 := UpdateUser(s, oldUser, newUser, validate).store;
      s2.users == s.users[oldUser.username := ApplyUpdate(s.users[oldUser.username], Diff(oldUser, newUser))]
    ensures var s2 := UpdateUser(s, oldUser, newUser, validate).store;
      s2.emails == if oldUser.email == newUser.email then s.emails
                   else (s.emails - {oldUser.email})[newUser.email := newUser.username]
  {
    var tx := UpdateTransaction(oldUser, newUser).value;
    var c := TransactWriteItems(s, tx);
    assert UpdateUser(s, oldUser, newUser, validate).store == c.store;
    UpdateConditions(s, oldUser, newUser, tx);
    UpdateUsersEffect(s, c.store, oldUser.username, Diff(oldUser, newUser), tx);
    UpdateEmailsEffect(s, c.store, oldUser.email, newUser.email, newUser.username, tx);
  }

  /** The user table after a transaction whose only user-table operation is the final update of `k`. */
  lemma UpdateUsersEffect(s: Store, s2: Store, k: string, d: seq<Instruction>, tx: seq<Op>)
    requires |tx| > 0 && tx[|tx| - 1] == UpdateUserItem(k, d, ItemExists) && Acceptable(d)
    requires forall i | 0 <= i < |tx| - 1 :: Target(tx[i]).EmailKey?
    requires k in s.users
    requires Reflects(s, s2, tx[|tx| - 1])
    requires forall u | UserKey(u) !in Targets(tx) :: SameUser(s, s2, u)
    ensures s2.users == s.users[k := ApplyUpdate(s.users[k], d)]
  {
    forall u | u != k ensures SameUser(s, s2, u) {
      assert forall i | 0 <= i < |tx| :: Target(tx[i]) != UserKey(u);
    }
    UsersPointUpdate(s, s2, k, ApplyUpdate(s.users[k], d));
  }

  /**
   * The projection after a transaction that, when the email changes, first
   * links the new email to `owner` and unlinks the old one, and otherwise
   * writes no projection item.
   */
  lemma UpdateEmailsEffect(s: Store, s2: Store, oldEmail: string, newEmail: string, owner: string, tx: seq<Op>)
    requires forall i | 0 <= i < |tx| :: WellFormedOp(tx[i])
    requires oldEmail == newEmail ==> forall i | 0 <= i < |tx| :: Target(tx[i]).UserKey?
    requires oldEmail != newEmail ==>
      && |tx| == 3
      && tx[0] == PutEmailItem(EmailUser(newEmail, owner), ItemNotExists)
      && tx[1] == DeleteEmailItem(oldEmail, ItemExists)
      && Target(tx[2]).UserKey?
    requires forall i | 0 <= i < |tx| :: Reflects(s, s2, tx[i])
    requires forall e | EmailKey(e) !in Targets(tx) :: SameEmail(s, s2, e)
    ensures s2.emails == if oldEmail == newEmail then s.emails else (s.emails - {oldEmail})[newEmail := owner]
  {
    var emails := if oldEmail == newEmail then s.emails else (s.emails - {oldEmail})[newEmail := owner];
    if oldEmail != newEmail {
      assert Reflects(s, s2, tx[0]) && Reflects(s, s2, tx[1]);
    }
    forall e | e != oldEmail && e != newEmail ensures SameEmail(s, s2, e) {
      assert forall i | 0 <= i < |tx| :: Target(tx[i]) != EmailKey(e);
    }
    forall e | oldEmail == newEmail ensures SameEmail(s, s2, e) {
      assert forall i | 0 <= i < |tx| :: Target(tx[i]) != EmailKey(e);
    }
    assert s2.emails.Keys == emails.Keys by {
      forall e ensures e in s2.emails <==> e in emails {
        if oldEmail == newEmail || (e != oldEmail && e != newEmail) { assert SameEmail(s, s2, e); }
      }
    }
    forall e | e in emails ensures s2.emails[e] == emails[e] {
      if oldEmail == newEmail || (e != oldEmail && e != newEmail) { assert SameEmail(s, s2, e); }
    }
  }

  /**
   * After a committed email change the old email no longer resolves, and the
   * new one resolves to the same record as the username.
   */
  lemma UpdateUserEmailSwitch(s: Store, oldUser: User, newUser: User, validate: User -> Option<Error>)
    requires oldUser.email != newUser.email
    requires newUser.username == oldUser.username
    requires UpdateUser(s, oldUser, newUser, validate).error.None?
    requires validate(newUser).None?
    ensures var s2 := UpdateUser(s, oldUser, newUser, validate).store;
      && oldUser.email !in s2.emails
      && GetUsernameByEmail(s2, oldUser.email) == Failure(InputError("email", "not found"))
      && GetUserByEmail(s2, oldUser.email).Failure?
    ensures var s2 := UpdateUser(s, oldUser, newUser, validate).store;
      newUser.email != "" && newUser.username != "" ==>
        && GetUserByEmail(s2, newUser.email) == GetUserByUsername(s2, oldUser.username)
        && GetUserByEmail(s2, newUser.email).Success?
        && GetUserByEmail(s2, newUser.email).value.email == newUser.email
  {
    UpdateUserEffect(s, oldUser, newUser, validate);
    var d := Diff(oldUser, newUser);
    assert exists i :: 0 <= i < |d| && d[i] == Set(Email, S(newUser.email)) by {
      DiffEmailPolicy(oldUser, newUser);
    }
  }

  /**
   * When the caller's snapshot is the stored record, the committed update
   * leaves the record the caller asked for: new email, image and bio, the new
   * hash if one was given and the old one otherwise.
   */
  lemma UpdateUserFields(s: Store, oldUser: User, newUser: User, validate: User -> Option<Error>)
    requires oldUser.username in s.users && s.users[oldUser.username] == oldUser
    requires validate(newUser).None?
    requires UpdateUser(s, oldUser, newUser, validate).error.None?
    ensures var r := GetUserByUsername(UpdateUser(s, oldUser, newUser, validate).store, oldUser.username);
      && r.Success?
      && r.value.email == newUser.email
      && r.value.image == newUser.image
      && r.value.bio == newUser.bio
      && (newUser.passwordHash.None? ==> r.value.passwordHash == oldUser.passwordHash)
      && (newUser.passwordHash.Some? ==> HashBytes(r.value.passwordHash) == newUser.passwordHash.value)
  {
    DiffMeetsIntent(oldUser, newUser);
    DiffEmptyIffNoChange(oldUser, newUser);
    if Diff(oldUser, newUser) != [] {
      UpdateUserEffect(s, oldUser, newUser, validate);
    }
  }

  // ----- Batch fetch -----

  predicate Distinct(xs: seq<string>) {
    forall i, j | 0 <= i < j < |xs| :: xs[i] != xs[j]
  }

  /** A batch get: the stored users among `keys`; the order carries no meaning. */
  function BatchGetItems(s: Store, keys: seq<string>): (items: seq<User>)
    ensures forall u | u in items :: u.username in keys && u.username in s.users && s.users[u.username] == u
    ensures forall k | k in keys && k in s.users :: s.users[k] in items
    decreases |keys|
  {
    if keys == [] then []
    else (if keys[0] in s.users then [s.users[keys[0]]] else []) + BatchGetItems(s, keys[1..])
  }

  /** The user a single fetch found, or the zero user when it found none. */
  function FoundOrZero(r: Result<User>): User {
    match r
    case Success(u) => u
    case Failure(_) => ZeroUser
  }

  /** The usernames as a set, built the way the Go code fills a `map[string]bool`. */
  method UsernameSet(usernames: seq<string>) returns (usernameSet: set<string>)
    ensures forall k :: k in usernameSet <==> k in usernames
  {
    usernameSet := {};
    var i := 0;
    while i < |usernames|
      invariant 0 <= i <= |usernames|
      invariant forall k :: k in usernameSet <==> k in usernames[..i]
    {
      assert usernames[..i + 1] == usernames[..i] + [usernames[i]];
      usernameSet := usernameSet + {usernames[i]};
      i := i + 1;
    }
    assert usernames[..i] == usernames;
  }

  /** The keys of the batch request: each element of the set once, in the arbitrary order of a Go map walk. */
  method BatchKeys(usernameSet: set<string>) returns (keys: seq<string>)
    ensures Distinct(keys)
    ensures forall k :: k in keys <==> k in usernameSet
  {
    keys := [];
    var rest := usernameSet;
    while rest != {}
      invariant rest <= usernameSet
      invariant forall k :: k in keys <==> k in usernameSet && k !in rest
      invariant Distinct(keys)
      decreases |rest|
    {
      var k :| k in rest;
      keys := keys + [k];
      rest := rest - {k};
    }
  }

  /** The batch response re-keyed by each item's own username. */
  method IndexByUsername(s: Store, items: seq<User>) returns (usersByUsername: map<string, User>)
    requires forall u | u in items :: u.username in s.users && s.users[u.username] == u
    ensures forall k | k in usersByUsername :: k in s.users && usersByUsername[k] == s.users[k]
    ensures forall u | u in items :: u.username in usersByUsername
  {
    usersByUsername := map[];
    var j := 0;
    while j < |items|
      invariant 0 <= j <= |items|
      invariant forall k | k in usersByUsername :: k in s.users && usersByUsername[k] == s.users[k]
      invariant forall m | 0 <= m < j :: items[m].username in usersByUsername
    {
      assert items[j] in items;
      usersByUsername := usersByUsername[items[j].username := items[j]];
      j := j + 1;
    }
  }

  /**
   * Fetch many users at once: deduplicate the usernames, issue one batch
   * get (none for an empty list), then answer in input order and
   * multiplicity with the zero user for names not stored. `request` is the
   * key list of the batch get, if one was issued.
   */
  method GetUserListByUsername(s: Store, usernames: seq<string>) returns (users: seq<User>, request: Option<seq<string>>)
    ensures usernames == [] ==> users == [] && request == None
    ensures usernames != [] ==> request.Some? && Distinct(request.value)
    ensures usernames != [] ==> forall k :: k in request.value <==> k in usernames
    ensures |users| == |usernames|
    ensures forall i | 0 <= i < |usernames| :: users[i] == FoundOrZero(GetUserByUsername(s, usernames[i]))
  {
    if |usernames| == 0 {
      return [], None;
    }
    var usernameSet := UsernameSet(usernames);
    var keys := BatchKeys(usernameSet);
    request := Some(keys);
    var items := BatchGetItems(s, keys);
    var usersByUsername := IndexByUsername(s, items);

    users := [];
    var n := 0;
    while n < |usernames|
      invariant 0 <= n <= |usernames|
      invariant |users| == n
      invariant forall m | 0 <= m < n :: users[m] == FoundOrZero(GetUserByUsername(s, usernames[m]))
    {
      var name := usernames[n];
      if name in s.users {
        assert s.users[name] in items;
      }
      users := users + [if name in usersByUsername then usersByUsername[name] else ZeroUser];
      n := n + 1;
    }
  }
}
