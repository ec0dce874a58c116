/**
 * libqpol's type-enforcement rule queries: opening a cursor over the
 * type_transition / type_change / type_member rules and the projections from
 * a rule node to its fields. TE rules live in the same two tables as the
 * access-vector rules; only the kind mask and the meaning of the datum differ
 * (here the datum is the default type's id). The source, target, class,
 * cond and flag getters repeat those of AvruleQuery one for one, as the two
 * C files do.
 */
module TeruleQuery {
  import opened Wrappers
  import opened QpolTypes
  import opened AvtabCursor

  /** The type-enforcement rule kinds. */
  const TeRuleKinds: bv32 := RuleTypeTrans | RuleTypeChange | RuleTypeMember

  /**
   * qpol_policy_get_terule_iter: a cursor over the rules of both tables whose
   * kind bits meet ruleTypeMask. slot is whether the output pointer is non-null;
   * oom is whether allocating the state fails, createFails whether wrapping it
   * in an iterator fails (that path sets no errno of its own).
   */
  method GetTeruleIter(handle: Option<Handle>, policy: Option<Policy>, ruleTypeMask: bv32, slot: bool, oom: bool, createFails: bool)
    returns (status: Status, iter: AvtabState?)
    requires handle.Some? && policy.Some? && slot && policy.value.rulesLoaded && !oom ==> 0 < |policy.value.db.teAvtab|
    ensures handle.None? || policy.None? || !slot ==> status == Failure(Some(EINVAL))
    ensures handle.Some? && policy.Some? && slot && !policy.value.rulesLoaded ==> status == Failure(Some(ENOTSUP))
    ensures handle.Some? && policy.Some? && slot && policy.value.rulesLoaded && oom ==> status == Failure(Some(ENOMEM))
    ensures handle.Some? && policy.Some? && slot && policy.value.rulesLoaded && !oom && createFails ==> status == Failure(None)
    ensures status.Success? <==> handle.Some? && policy.Some? && slot && policy.value.rulesLoaded && !oom && !createFails
    ensures status.Failure? ==> iter == null
    ensures status.Success? ==>
      && iter != null && fresh(iter) && iter.Valid()
      && iter.ucondTab == policy.value.db.teAvtab
      && iter.condTab == policy.value.db.teCondAvtab
      && iter.ruleTypeMask == ruleTypeMask
      && Observable(iter.Buckets(), ruleTypeMask, iter.Here())
      && iter.Here() == (if SeedMatches(iter.ucondTab, ruleTypeMask) then Place(0, 0)
                         else Advance(iter.Buckets(), ruleTypeMask, Place(0, 0)))
      && iter.Remaining() == Filter(Flat(iter.ucondTab), ruleTypeMask) + Filter(Flat(iter.condTab), ruleTypeMask)
      && Yield(iter.Buckets(), ruleTypeMask, iter.Here()) == iter.Remaining()
  {
    if !slot || handle.None? || policy.None? {
      return Failure(Some(EINVAL)), null;
    }
    if !policy.value.rulesLoaded {
      return Failure(Some(ENOTSUP)), null;
    }
    if oom {
      return Failure(Some(ENOMEM)), null;
    }
    if createFails {
      return Failure(None), null;
    }
    var db := policy.value.db;
    var state := new AvtabState(db.teAvtab, db.teCondAvtab, ruleTypeMask);
    var seed := state.Current();
    if seed.None? || !Matches(seed.value, ruleTypeMask) {
      state.Next();
    }
    YieldIsFilter(state.Buckets(), ruleTypeMask, state.Here());
    return Success, state;
  }

  /** qpol_terule_get_source_type: the type struct of the rule's source type. */
  function GetSourceType(handle: Option<Handle>, policy: Option<Policy>, rule: Option<Node>, slot: bool)
    : (r: Reply<Option<TypeDatum>>)
    requires Present(handle, policy, rule, slot) ==> TypeIdInRange(policy.value.db, rule.value.key.sourceType)
    ensures r.status.Success? <==> Present(handle, policy, rule, slot)
    ensures r.status.Failure? ==> r == Reply(Failure(Some(EINVAL)), None)
    ensures r.status.Success? ==>
      r.out == Some(policy.value.db.typeValToStruct[rule.value.key.sourceType - 1])
    ensures r.status.Success? && TypesNumbered(policy.value.db) ==> r.out.value.value == rule.value.key.sourceType
  {
    if Present(handle, policy, rule, slot) then
      Reply(Success, Some(LookupType(policy.value.db, rule.value.key.sourceType)))
    else
      Reply(Failure(Some(EINVAL)), None)
  }

  /** qpol_terule_get_target_type: the type struct of the rule's target type. */
  function GetTargetType(handle: Option<Handle>, policy: Option<Policy>, rule: Option<Node>, slot: bool)
    : (r: Reply<Option<TypeDatum>>)
    requires Present(handle, policy, rule, slot) ==> TypeIdInRange(policy.value.db, rule.value.key.targetType)
    ensures r.status.Success? <==> Present(handle, policy, rule, slot)
    ensures r.status.Failure? ==> r == Reply(Failure(Some(EINVAL)), None)
    ensures r.status.Success? ==>
      r.out == Some(policy.value.db.typeValToStruct[rule.value.key.targetType - 1])
    ensures r.status.Success? && TypesNumbered(policy.value.db) ==> r.out.value.value == rule.value.key.targetType
  {
    if Present(handle, policy, rule, slot) then
      Reply(Success, Some(LookupType(policy.value.db, rule.value.key.targetType)))
    else
      Reply(Failure(Some(EINVAL)), None)
  }

  /** qpol_terule_get_object_class: the class struct of the rule's target class. */
  function GetObjectClass(handle: Option<Handle>, policy: Option<Policy>, rule: Option<Node>, slot: bool)
    : (r: Reply<Option<ClassDatum>>)
    requires Present(handle, policy, rule, slot) ==> ClassIdInRange(policy.value.db, rule.value.key.targetClass)
    ensures r.status.Success? <==> Present(handle, policy, rule, slot)
    ensures r.status.Failure? ==> r == Reply(Failure(Some(EINVAL)), None)
    ensures r.status.Success? ==>
      r.out == Some(policy.value.db.classValToStruct[rule.value.key.targetClass - 1])
    ensures r.status.Success? && ClassesNumbered(policy.value.db) ==> r.out.value.value == rule.value.key.targetClass
  {
    if Present(handle, policy, rule, slot) then
      Reply(Success, Some(LookupClass(policy.value.db, rule.value.key.targetClass)))
    else
      Reply(Failure(Some(EINVAL)), None)
  }

  /** The default type id a TE rule keeps in its datum word. */
  function DefaultTypeId(rule: Node): (id: nat)
    ensures id < 0x1_0000_0000
  {
    rule.data as nat
  }

  /**
   * qpol_terule_get_default_type: the type struct of the rule's default type,
   * whose id a TE rule keeps in its datum word.
   */
  function GetDefaultType(handle: Option<Handle>, policy: Option<Policy>, rule: Option<Node>, slot: bool)
    : (r: Reply<Option<TypeDatum>>)
    requires Present(handle, policy, rule, slot) ==> TypeIdInRange(policy.value.db, DefaultTypeId(rule.value))
    ensures r.status.Success? <==> Present(handle, policy, rule, slot)
    ensures r.status.Failure? ==> r == Reply(Failure(Some(EINVAL)), None)
    ensures r.status.Success? ==>
      r.out == Some(policy.value.db.typeValToStruct[DefaultTypeId(rule.value) - 1])
    ensures r.status.Success? && TypesNumbered(policy.value.db) ==> r.out.value.value == DefaultTypeId(rule.value)
  {
    if Present(handle, policy, rule, slot) then
      Reply(Success, Some(LookupType(policy.value.db, DefaultTypeId(rule.value))))
    else
      Reply(Failure(Some(EINVAL)), None)
  }

  /** qpol_terule_get_rule_type: the type-enforcement kind bits of the rule, and no others. */
  function GetRuleType(handle: Option<Handle>, policy: Option<Policy>, rule: Option<Node>, slot: bool)
    : (r: Reply<bv32>)
    ensures r.status.Success? <==> Present(handle, policy, rule, slot)
    ensures r.status.Failure? ==> r == Reply(Failure(Some(EINVAL)), 0)
    ensures r.out & !TeRuleKinds == 0
    ensures r.status.Success? ==> r.out & TeRuleKinds == rule.value.key.specified & TeRuleKinds
    ensures r.status.Success? && rule.value.key.specified == RuleTypeTrans ==> r.out == RuleTypeTrans
  {
    if Present(handle, policy, rule, slot) then
      Reply(Success, rule.value.key.specified & TeRuleKinds)
    else
      Reply(Failure(Some(EINVAL)), 0)
  }

  /** qpol_terule_get_cond: the rule's conditional expression; an unconditional rule gives None, successfully. */
  function GetCond(handle: Option<Handle>, policy: Option<Policy>, rule: Option<Node>, slot: bool)
    : (r: Reply<Option<CondRef>>)
    ensures r.status.Success? <==> Present(handle, policy, rule, slot)
    ensures r.status.Failure? ==> r == Reply(Failure(Some(EINVAL)), None)
    ensures r.status.Success? ==> r.out == rule.value.parseContext
  {
    if Present(handle, policy, rule, slot) then Reply(Success, rule.value.parseContext)
    else Reply(Failure(Some(EINVAL)), None)
  }

  /** qpol_terule_get_is_enabled: 1 if the rule's ENABLED bit is set, else 0. */
  function GetIsEnabled(handle: Option<Handle>, policy: Option<Policy>, rule: Option<Node>, slot: bool)
    : (r: Reply<bv32>)
    ensures r.status.Success? <==> Present(handle, policy, rule, slot)
    ensures r.status.Failure? ==> r == Reply(Failure(Some(EINVAL)), 0)
    ensures r.out == 0 || r.out == 1
    ensures r.status.Success? ==> (r.out == 1 <==> rule.value.merged & CondRuleEnabled != 0)
  {
    if Present(handle, policy, rule, slot) then Reply(Success, FlagValue(rule.value.merged, CondRuleEnabled))
    else Reply(Failure(Some(EINVAL)), 0)
  }

  /**
   * qpol_terule_get_which_list: 1 if the rule's LIST bit is set, else 0; a rule
   * without a conditional expression has no list and is refused.
   */
  function GetWhichList(handle: Option<Handle>, policy: Option<Policy>, rule: Option<Node>, slot: bool)
    : (r: Reply<bv32>)
    ensures r.status.Success? <==> Present(handle, policy, rule, slot) && rule.value.parseContext.Some?
    ensures r.status.Failure? ==> r == Reply(Failure(Some(EINVAL)), 0)
    ensures r.out == 0 || r.out == 1
    ensures r.status.Success? ==> (r.out == 1 <==> rule.value.merged & CondRuleList != 0)
  {
    if !Present(handle, policy, rule, slot) then Reply(Failure(Some(EINVAL)), 0)
    else if rule.value.parseContext.None? then Reply(Failure(Some(EINVAL)), 0)
    else Reply(Success, FlagValue(rule.value.merged, CondRuleList))
  }
}
