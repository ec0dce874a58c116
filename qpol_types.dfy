/**
 * Values shared by libqpol's access-vector and type-rule queries: the status a
 * query returns, the rule node of libsepol's rule table, and the parts of the
 * policy database the queries read.
 */
module QpolTypes {
  import opened Wrappers

  /** The errno values the queries set. */
  datatype Errno = EINVAL | ENOTSUP | ENOMEM

  /**
   * STATUS_SUCCESS, or STATUS_ERR together with what the call put in errno
   * (None: the call returned STATUS_ERR without setting errno).
   */
  datatype Status = Success | Failure(errno: Option<Errno>)

  /** What a query leaves behind: its status and the contents of its output slot. */
  datatype Reply<T> = Reply(status: Status, out: T)

  /** The qpol handle. The queries only log through it; nothing in it is read. */
  datatype Handle = Handle

  // Rule-kind bits of key.specified, and the bits of a node's merged field.
  const RuleAllow: bv32 := 0x0001
  const RuleAuditAllow: bv32 := 0x0002
  const RuleDontAudit: bv32 := 0x0004
  const RuleTypeTrans: bv32 := 0x0010
  const RuleTypeMember: bv32 := 0x0020
  const RuleTypeChange: bv32 := 0x0040
  const RuleNeverAllow: bv32 := 0x0080
  const CondRuleList: bv32 := 0x0001
  const CondRuleEnabled: bv32 := 0x0002

  /** An avtab key: 1-based type and class ids and the rule-kind bits. */
  datatype Key = Key(sourceType: nat, targetType: nat, targetClass: nat, specified: bv32)

  /** A reference to the conditional expression that governs a rule. */
  datatype CondRef = CondRef(id: nat)

  /**
   * A rule node. data is the permission word of an access-vector rule or the
   * default type id of a type rule; parseContext is present only for rules
   * compiled under a conditional; merged carries the LIST and ENABLED bits.
   */
  datatype Node = Node(key: Key, data: bv32, parseContext: Option<CondRef>, merged: bv32)

  /** A hash table of rules: its buckets, each holding its chain in next-pointer order. */
  type Table = seq<seq<Node>>

  /** An entry of type_val_to_struct; value is the type's 1-based id. */
  datatype TypeDatum = TypeDatum(value: nat)

  /** An entry of class_val_to_struct; value is the class's 1-based id. */
  datatype ClassDatum = ClassDatum(value: nat)

  /** The parts of the loaded policydb that the queries read. */
  datatype PolicyDb = PolicyDb(
    teAvtab: Table,
    teCondAvtab: Table,
    typeValToStruct: seq<TypeDatum>,
    classValToStruct: seq<ClassDatum>)

  /** A qpol policy: the database and whether its rules were loaded. */
  datatype Policy = Policy(rulesLoaded: bool, db: PolicyDb)

  /** Every pointer argument of a projection is non-null (slot: the output pointer is). */
  predicate Present(handle: Option<Handle>, policy: Option<Policy>, rule: Option<Node>, slot: bool)
  {
    handle.Some? && policy.Some? && rule.Some? && slot
  }

  /** The symbol tables are dense: the entry at 0-based slot i describes id i + 1. */
  predicate TypesNumbered(db: PolicyDb)
  {
    forall i :: 0 <= i < |db.typeValToStruct| ==> db.typeValToStruct[i].value == i + 1
  }

  predicate ClassesNumbered(db: PolicyDb)
  {
    forall i :: 0 <= i < |db.classValToStruct| ==> db.classValToStruct[i].value == i + 1
  }

  predicate TypeIdInRange(db: PolicyDb, id: nat)
  {
    1 <= id <= |db.typeValToStruct|
  }

  predicate ClassIdInRange(db: PolicyDb, id: nat)
  {
    1 <= id <= |db.classValToStruct|
  }

  /** The type struct for a 1-based type id: the 0-based table is read at id - 1. */
  function LookupType(db: PolicyDb, id: nat): (t: TypeDatum)
    requires TypeIdInRange(db, id)
    ensures TypesNumbered(db) ==> t.value == id
    ensures id == 1 ==> t == db.typeValToStruct[0]
    ensures id == |db.typeValToStruct| ==> t == db.typeValToStruct[|db.typeValToStruct| - 1]
  {
    db.typeValToStruct[id - 1]
  }

  /** The class struct for a 1-based class id, read at id - 1. */
  function LookupClass(db: PolicyDb, id: nat): (c: ClassDatum)
    requires ClassIdInRange(db, id)
    ensures ClassesNumbered(db) ==> c.value == id
    ensures id == 1 ==> c == db.classValToStruct[0]
  {
    db.classValToStruct[id - 1]
  }

  /** A C truth value of one bit: 1 if merged has flag set, else 0. */
  function FlagValue(merged: bv32, flag: bv32): (v: bv32)
    ensures v == 0 || v == 1
    ensures v == 1 <==> merged & flag != 0
  {
    if merged & flag != 0 then 1 else 0
  }
}
