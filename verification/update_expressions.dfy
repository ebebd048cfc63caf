/**
 * Field-level update instructions on a stored user item and how the store
 * applies them: the data-first form of an update expression.
 */
module UpdateExpressions {
  import opened Errors
  import opened Users

  /** The attributes of a user item. */
  datatype Field = Username | Email | PasswordHash | Image | Bio

  /** An attribute value: a string or a binary blob. */
  datatype AttrValue = S(str: string) | B(bytes: Bytes)

  /** `SET field = value` or `REMOVE field`. */
  datatype Instruction = Set(field: Field, value: AttrValue) | Remove(field: Field)

  /** What the store accepts on a user item: never the key attribute, and SET values of the attribute's type. */
  predicate Applicable(ins: Instruction) {
    && ins.field != Username
    && (ins.Set? ==> (ins.field == PasswordHash <==> ins.value.B?))
  }

  /** No two instructions of one update name the same attribute (the store rejects overlapping paths). */
  predicate FieldsDistinct(ins: seq<Instruction>) {
    forall i, j | 0 <= i < j < |ins| :: ins[i].field != ins[j].field
  }

  /** An update the store accepts. */
  predicate Acceptable(ins: seq<Instruction>) {
    && FieldsDistinct(ins)
    && forall i | 0 <= i < |ins| :: Applicable(ins[i])
  }

  /** No instruction of `ins` names `f`. */
  predicate Untouched(ins: seq<Instruction>, f: Field) {
    forall i | 0 <= i < |ins| :: ins[i].field != f
  }

  /** The value field `f` of `u` reads back as; a missing attribute reads as the zero value. */
  function ReadBack(u: User, f: Field): AttrValue {
    match f
    case Username => S(u.username)
    case Email => S(u.email)
    case PasswordHash => B(HashBytes(u.passwordHash))
    case Image => S(u.image)
    case Bio => S(u.bio)
  }

  /** The value an instruction leaves in its field. */
  function Written(ins: Instruction): AttrValue {
    match ins
    case Set(_, v) => v
    case Remove(f) => ReadBack(ZeroUser, f)
  }

  /** `u` and `v` agree on every field other than `f`. */
  predicate AgreeOutside(u: User, v: User, f: Field) {
    && u.username == v.username
    && (f != Email ==> u.email == v.email)
    && (f != PasswordHash ==> u.passwordHash == v.passwordHash)
    && (f != Image ==> u.image == v.image)
    && (f != Bio ==> u.bio == v.bio)
  }

  function StringWritten(ins: Instruction): string
    requires ins.Set? ==> ins.value.S?
  {
    if ins.Set? then ins.value.str else ""
  }

  /** The stored user after one instruction. */
  function ApplyInstruction(u: User, ins: Instruction): (v: User)
    requires Applicable(ins)
    ensures AgreeOutside(u, v, ins.field)
    ensures ReadBack(v, ins.field) == Written(ins)
    ensures ins == Remove(PasswordHash) ==> v.passwordHash.None?
    ensures ins.Set? && ins.field == PasswordHash ==> v.passwordHash == Some(ins.value.bytes)
  {
    if ins.field == Email then u.(email := StringWritten(ins))
    else if ins.field == PasswordHash then u.(passwordHash := if ins.Set? then Some(ins.value.bytes) else None)
    else if ins.field == Image then u.(image := StringWritten(ins))
    else u.(bio := StringWritten(ins))
  }

  /** The stored user after an update expression: its instructions in order. */
  function ApplyUpdate(u: User, ins: seq<Instruction>): (v: User)
    requires forall i | 0 <= i < |ins| :: Applicable(ins[i])
    ensures v.username == u.username
    ensures Untouched(ins, Email) ==> v.email == u.email
    ensures Untouched(ins, PasswordHash) ==> v.passwordHash == u.passwordHash
    ensures Untouched(ins, Image) ==> v.image == u.image
    ensures Untouched(ins, Bio) ==> v.bio == u.bio
    ensures FieldsDistinct(ins) ==> forall i | 0 <= i < |ins| :: ReadBack(v, ins[i].field) == Written(ins[i])
    decreases |ins|
  {
    if ins == [] then u
    else
      var v := ApplyUpdate(ApplyInstruction(u, ins[0]), ins[1..]);
      assert forall i | 1 <= i < |ins| :: ins[i] == ins[1..][i - 1];
      v
  }
}
