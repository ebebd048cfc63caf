/**
 * The key-value store as the service sees it: a user table keyed by
 * username, an email table keyed by email (the projection), and multi-item
 * transactions that apply all of their operations or none.
 */
module KeyValueStore {
  import opened Errors
  import opened Users
  import opened UpdateExpressions

  /** The user table: an item's key is always its own Username attribute. */
  type UserTable = m: map<string, User> | forall k | k in m :: m[k].username == k
    witness map[]

  datatype Store = Store(users: UserTable, emails: map<string, string>)

  const EmptyStore: Store := Store(map[], map[])

  /** The condition expression of one operation, on the item's key attribute. */
  datatype Condition = Unconditional | ItemNotExists | ItemExists

  /** One operation of a write transaction. */
  datatype Op =
    | PutUserItem(user: User, cond: Condition)
    | UpdateUserItem(username: string, update: seq<Instruction>, cond: Condition)
    | PutEmailItem(item: EmailUser, cond: Condition)
    | DeleteEmailItem(email: string, cond: Condition)

  /** The item an operation writes. */
  datatype ItemKey = UserKey(username: string) | EmailKey(email: string)

  function Target(op: Op): ItemKey {
    match op
    case PutUserItem(u, _) => UserKey(u.username)
    case UpdateUserItem(k, _, _) => UserKey(k)
    case PutEmailItem(item, _) => EmailKey(item.email)
    case DeleteEmailItem(e, _) => EmailKey(e)
  }

  function Targets(ops: seq<Op>): set<ItemKey> {
    set i | 0 <= i < |ops| :: Target(ops[i])
  }

  predicate Exists(s: Store, key: ItemKey) {
    match key
    case UserKey(k) => k in s.users
    case EmailKey(e) => e in s.emails
  }

  predicate ConditionHolds(s: Store, op: Op) {
    match op.cond
    case Unconditional => true
    case ItemNotExists => !Exists(s, Target(op))
    case ItemExists => Exists(s, Target(op))
  }

  predicate ConditionsHold(s: Store, ops: seq<Op>) {
    forall i | 0 <= i < |ops| :: ConditionHolds(s, ops[i])
  }

  predicate WellFormedOp(op: Op) {
    op.UpdateUserItem? ==> Acceptable(op.update)
  }

  predicate DistinctTargets(ops: seq<Op>) {
    forall i, j | 0 <= i < j < |ops| :: Target(ops[i]) != Target(ops[j])
  }

  /** A request the store accepts: at least one operation, each item at most once, each update well formed. */
  predicate WellFormedRequest(ops: seq<Op>) {
    && |ops| > 0
    && DistinctTargets(ops)
    && forall i | 0 <= i < |ops| :: WellFormedOp(ops[i])
  }

  /** The item an update starts from; an update without a condition creates a missing item. */
  function UpdateBase(s: Store, k: string): (u: User)
    ensures u.username == k
  {
    if k in s.users then s.users[k] else ZeroUser.(username := k)
  }

  /** `s2` holds, at `op`'s target, what `op` writes when applied to `s`. */
  predicate Reflects(s: Store, s2: Store, op: Op)
    requires WellFormedOp(op)
  {
    match op
    case PutUserItem(u, _) => u.username in s2.users && s2.users[u.username] == u
    case UpdateUserItem(k, ins, _) => k in s2.users && s2.users[k] == ApplyUpdate(UpdateBase(s, k), ins)
    case PutEmailItem(item, _) => item.email in s2.emails && s2.emails[item.email] == item.username
    case DeleteEmailItem(e, _) => e !in s2.emails
  }

  predicate SameUser(s: Store, s2: Store, k: string) {
    && (k in s.users <==> k in s2.users)
    && (k in s.users ==> s.users[k] == s2.users[k])
  }

  predicate SameEmail(s: Store, s2: Store, e: string) {
    && (e in s.emails <==> e in s2.emails)
    && (e in s.emails ==> s.emails[e] == s2.emails[e])
  }

  /** A user table that differs from `s`'s only at `k`, where it holds `u`. */
  lemma UsersPointUpdate(s: Store, s2: Store, k: string, u: User)
    requires k in s2.users && s2.users[k] == u
    requires forall j | j != k :: SameUser(s, s2, j)
    ensures s2.users == s.users[k := u]
  {
    var m := s.users[k := u];
    assert s2.users.Keys == m.Keys by {
      forall j ensures j in s2.users <==> j in m {
        if j != k { assert SameUser(s, s2, j); }
      }
    }
    forall j | j in m ensures s2.users[j] == m[j] {
      if j != k { assert SameUser(s, s2, j); }
    }
  }

  /** A projection that differs from `s`'s only at `e`, where it holds `owner`. */
  lemma EmailsPointUpdate(s: Store, s2: Store, e: string, owner: string)
    requires e in s2.emails && s2.emails[e] == owner
    requires forall j | j != e :: SameEmail(s, s2, j)
    ensures s2.emails == s.emails[e := owner]
  {
    var m := s.emails[e := owner];
    assert s2.emails.Keys == m.Keys by {
      forall j ensures j in s2.emails <==> j in m {
        if j != e { assert SameEmail(s, s2, j); }
      }
    }
    forall j | j in m ensures s2.emails[j] == m[j] {
      if j != e { assert SameEmail(s, s2, j); }
    }
  }

  /** One operation, without its condition. */
  function ApplyOp(s: Store, op: Op): (s2: Store)
    requires WellFormedOp(op)
    ensures Reflects(s, s2, op)
    ensures forall k | UserKey(k) != Target(op) :: SameUser(s, s2, k)
    ensures forall e | EmailKey(e) != Target(op) :: SameEmail(s, s2, e)
  {
    match op
    case PutUserItem(u, _) => s.(users := s.users[u.username := u])
    case UpdateUserItem(k, ins, _) => s.(users := s.users[k := ApplyUpdate(UpdateBase(s, k), ins)])
    case PutEmailItem(item, _) => s.(emails := s.emails[item.email := item.username])
    case DeleteEmailItem(e, _) => s.(emails := s.emails - {e})
  }

  /** What an operation writes depends only on the pre-state of its own item. */
  lemma ReflectsOnlyReadsTarget(s: Store, t: Store, s2: Store, op: Op)
    requires WellFormedOp(op)
    requires op.UpdateUserItem? ==> SameUser(s, t, op.username)
    requires Reflects(t, s2, op)
    ensures Reflects(s, s2, op)
  {
  }

  /** Operations on distinct items, applied in order. */
  function ApplyOps(s: Store, ops: seq<Op>): (s2: Store)
    requires forall i | 0 <= i < |ops| :: WellFormedOp(ops[i])
    requires DistinctTargets(ops)
    ensures forall i | 0 <= i < |ops| :: Reflects(s, s2, ops[i])
    ensures forall k | UserKey(k) !in Targets(ops) :: SameUser(s, s2, k)
    ensures forall e | EmailKey(e) !in Targets(ops) :: SameEmail(s, s2, e)
    decreases |ops|
  {
    if ops == [] then s
    else
      var s1 := ApplyOp(s, ops[0]);
      var s2 := ApplyOps(s1, ops[1..]);
      ApplyOpsStep(s, s1, s2, ops);
      s2
  }

  /**
   * The step of `ApplyOps`: the head's item survives the tail, and the tail
   * reads the same items from `s` as from `s1`.
   */
  lemma ApplyOpsStep(s: Store, s1: Store, s2: Store, ops: seq<Op>)
    requires |ops| > 0
    requires forall i | 0 <= i < |ops| :: WellFormedOp(ops[i])
    requires DistinctTargets(ops)
    requires s1 == ApplyOp(s, ops[0])
    requires forall i | 0 <= i < |ops| - 1 :: Reflects(s1, s2, ops[1..][i])
    requires forall k | UserKey(k) !in Targets(ops[1..]) :: SameUser(s1, s2, k)
    requires forall e | EmailKey(e) !in Targets(ops[1..]) :: SameEmail(s1, s2, e)
    ensures forall i | 0 <= i < |ops| :: Reflects(s, s2, ops[i])
    ensures forall k | UserKey(k) !in Targets(ops) :: SameUser(s, s2, k)
    ensures forall e | EmailKey(e) !in Targets(ops) :: SameEmail(s, s2, e)
  {
    var rest := ops[1..];
    assert forall j | 0 <= j < |rest| :: rest[j] == ops[j + 1];
    assert Targets(ops) == {Target(ops[0])} + Targets(rest);
    assert Target(ops[0]) !in Targets(rest);
    forall i | 0 <= i < |ops|
      ensures Reflects(s, s2, ops[i])
    {
      if i == 0 {
        match ops[0]
        case UpdateUserItem(k, _, _) => assert SameUser(s1, s2, k);
        case PutUserItem(u, _) => assert SameUser(s1, s2, u.username);
        case PutEmailItem(item, _) => assert SameEmail(s1, s2, item.email);
        case DeleteEmailItem(e, _) => assert SameEmail(s1, s2, e);
      } else {
        assert ops[i] == rest[i - 1];
        assert Target(ops[i]) != Target(ops[0]);
        if ops[i].UpdateUserItem? {
          assert SameUser(s, s1, ops[i].username);
        }
        ReflectsOnlyReadsTarget(s, s1, s2, ops[i]);
      }
    }
  }

  /** The outcome of a transaction: the store afterwards and the error, if any. */
  datatype Committed = Committed(store: Store, error: Option<Error>)

  /**
   * A write transaction. A malformed request is refused; otherwise every
   * condition is evaluated against the store before the transaction, and
   * either all operations apply or the store is left as it was.
   */
  function TransactWriteItems(s: Store, ops: seq<Op>): (c: Committed)
    ensures c.error.Some? ==> c.store == s
    ensures c.error.None? <==> WellFormedRequest(ops) && ConditionsHold(s, ops)
    ensures !WellFormedRequest(ops) ==> c.error.Some? && c.error.value.ValidationException?
    ensures WellFormedRequest(ops) && !ConditionsHold(s, ops) ==> c.error == Some(TransactionCanceled)
    ensures c.error.None? ==> forall i | 0 <= i < |ops| :: Reflects(s, c.store, ops[i])
    ensures c.error.None? ==> forall k | UserKey(k) !in Targets(ops) :: SameUser(s, c.store, k)
    ensures c.error.None? ==> forall e | EmailKey(e) !in Targets(ops) :: SameEmail(s, c.store, e)
  {
    if !WellFormedRequest(ops) then Committed(s, Some(ValidationException("malformed transaction request")))
    else if !ConditionsHold(s, ops) then Committed(s, Some(TransactionCanceled))
    else Committed(ApplyOps(s, ops), None)
  }
}
