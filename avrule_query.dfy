/**
 * libqpol's access-vector rule queries: opening a cursor over the
 * allow / neverallow / auditallow / dontaudit rules, opening a cursor over one
 * rule's permission bits, and the projections from a rule node to its fields.
 */
module AvruleQuery {
  import opened Wrappers
  import opened QpolTypes
  import opened AvtabCursor
  import opened PermCursor

  /** The access-vector rule kinds. */
  const AvRuleKinds: bv32 := RuleAllow | RuleNeverAllow | RuleAuditAllow | RuleDontAudit

  /**
   * qpol_policy_get_avrule_iter: a cursor over the rules of both tables whose
   * kind bits meet ruleTypeMask. slot is whether the output pointer is non-null;
   * oom is whether allocating the state fails, createFails whether wrapping it
   * in an iterator fails (that path sets no errno of its own).
   */
  method GetAvruleIter(handle: Option<Handle>, policy: Option<Policy>, ruleTypeMask: bv32, slot: bool, oom: bool, createFails: bool)
    returns (status: Status, iter: AvtabState?)
    requires handle.Some? && policy.Some? && slot && policy.value.rulesLoaded && !oom ==> 0 < |policy.value.db.teAvtab|
    ensures handle.None? || policy.None? || !slot ==> status == Failure(Some(EINVAL))
    ensures handle.Some? && policy.Some? && slot && !policy.value.rulesLoaded ==> status == Failure(Some(ENOTSUP))
    ensures handle.Some? && policy.Some? && slot && policy.value.rulesLoaded && oom ==> status == Failure(Some(ENOMEM))
    ensures handle.Some? && policy.Some? && slot && policy.value.rulesLoaded && !oom && createFails ==> status == Failure(None)
    ensures status.Success? <==> handle.Some? && policy.Some? && slot && policy.value.rulesLoaded && !oom && !createFails
    ensures status.Failure? ==> iter == null
    ensures status.Success? ==>
      && iter != null && fresh(iter) && iter.Valid()
      && iter.ucondTab == policy.value.db.teAvtab
      && iter.condTab == policy.value.db.teCondAvtab
      && iter.ruleTypeMask == ruleTypeMask
      && Observable(iter.Buckets(), ruleTypeMask, iter.Here())
      && iter.Here() == (if SeedMatches(iter.ucondTab, ruleTypeMask) then Place(0, 0)
                         else Advance(iter.Buckets(), ruleTypeMask, Place(0, 0)))
      && iter.Remaining() == Filter(Flat(iter.ucondTab), ruleTypeMask) + Filter(Flat(iter.condTab), ruleTypeMask)
      && Yield(iter.Buckets(), ruleTypeMask, iter.Here()) == iter.Remaining()
  {
    if !slot || handle.None? || policy.None? {
      return Failure(Some(EINVAL)), null;
    }
    if !policy.value.rulesLoaded {
      return Failure(Some(ENOTSUP)), null;
    }
    if oom {
      return Failure(Some(ENOMEM)), null;
    }
    if createFails {
      return Failure(None), null;
    }
    var db := policy.value.db;
    var state := new AvtabState(db.teAvtab, db.teCondAvtab, ruleTypeMask);
    var seed := state.Current();
    if seed.None? || !Matches(seed.value, ruleTypeMask) {
      state.Next();
    }
    YieldIsFilter(state.Buckets(), ruleTypeMask, state.Here());
    return Success, state;
  }

  /** qpol_avrule_get_source_type: the type struct of the rule's source type. */
  function GetSourceType(handle: Option<Handle>, policy: Option<Policy>, rule: Option<Node>, slot: bool)
    : (r: Reply<Option<TypeDatum>>)
    requires Present(handle, policy, rule, slot) ==> TypeIdInRange(policy.value.db, rule.value.key.sourceType)
    ensures r.status.Success? <==> Present(handle, policy, rule, slot)
    ensures r.status.Failure? ==> r == Reply(Failure(Some(EINVAL)), None)
    ensures r.status.Success? ==>
      r.out == Some(policy.value.db.typeValToStruct[rule.value.key.sourceType - 1])
    ensures r.status.Success? && TypesNumbered(policy.value.db) ==> r.out.value.value == rule.value.key.sourceType
  {
    if Present(handle, policy, rule, slot) then
      Reply(Success, Some(LookupType(policy.value.db, rule.value.key.sourceType)))
    else
      Reply(Failure(Some(EINVAL)), None)
  }

  /** qpol_avrule_get_target_type: the type struct of the rule's target type. */
  function GetTargetType(handle: Option<Handle>, policy: Option<Policy>, rule: Option<Node>, slot: bool)
    : (r: Reply<Option<TypeDatum>>)
    requires Present(handle, policy, rule, slot) ==> TypeIdInRange(policy.value.db, rule.value.key.targetType)
    ensures r.status.Success? <==> Present(handle, policy, rule, slot)
    ensures r.status.Failure? ==> r == Reply(Failure(Some(EINVAL)), None)
    ensures r.status.Success? ==>
      r.out == Some(policy.value.db.typeValToStruct[rule.value.key.targetType - 1])
    ensures r.status.Success? && TypesNumbered(policy.value.db) ==> r.out.value.value == rule.value.key.targetType
  {
    if Present(handle, policy, rule, slot) then
      Reply(Success, Some(LookupType(policy.value.db, rule.value.key.targetType)))
    else
      Reply(Failure(Some(EINVAL)), None)
  }

  /** qpol_avrule_get_object_class: the class struct of the rule's target class. */
  function GetObjectClass(handle: Option<Handle>, policy: Option<Policy>, rule: Option<Node>, slot: bool)
    : (r: Reply<Option<ClassDatum>>)
    requires Present(handle, policy, rule, slot) ==> ClassIdInRange(policy.value.db, rule.value.key.targetClass)
    ensures r.status.Success? <==> Present(handle, policy, rule, slot)
    ensures r.status.Failure? ==> r == Reply(Failure(Some(EINVAL)), None)
    ensures r.status.Success? ==>
      r.out == Some(policy.value.db.classValToStruct[rule.value.key.targetClass - 1])
    ensures r.status.Success? && ClassesNumbered(policy.value.db) ==> r.out.value.value == rule.value.key.targetClass
  {
    if Present(handle, policy, rule, slot) then
      Reply(Success, Some(LookupClass(policy.value.db, rule.value.key.targetClass)))
    else
      Reply(Failure(Some(EINVAL)), None)
  }

  /** The rule's permission word is an audit-deny word: the rule is a dontaudit rule. */
  predicate StoresDeny(rule: Node)
    ensures StoresDeny(rule) ==> rule.key.specified != 0
  {
    rule.key.specified & RuleDontAudit != 0
  }

  /**
   * qpol_avrule_get_perm_iter: a cursor over the granted permission bits of
   * one rule, ascending. oom is whether allocating the state fails and
   * createFails whether wrapping it in an iterator fails; both paths return
   * STATUS_ERR without setting errno.
   */
  method GetPermIter(handle: Option<Handle>, policy: Option<Policy>, rule: Option<Node>, slot: bool, oom: bool, createFails: bool)
    returns (status: Status, perms: PermState?)
    ensures !Present(handle, policy, rule, slot) ==> status == Failure(Some(EINVAL))
    ensures Present(handle, policy, rule, slot) && (oom || createFails) ==> status == Failure(None)
    ensures status.Success? <==> Present(handle, policy, rule, slot) && !oom && !createFails
    ensures status.Failure? ==> perms == null
    ensures status.Success? ==>
      && perms != null && fresh(perms) && perms.Valid()
      && perms.permSet == Granted(StoresDeny(rule.value), rule.value.data)
      && perms.objClassVal == rule.value.key.targetClass
      && perms.cur == (if BitSet(perms.permSet, 0) then 0 else NextSetBit(perms.permSet, 1))
      && (perms.AtEnd() || BitSet(perms.permSet, perms.cur))
      && perms.Remaining() == SetBitsFrom(perms.permSet, 0)
  {
    if !Present(handle, policy, rule, slot) {
      return Failure(Some(EINVAL)), null;
    }
    if oom {
      return Failure(None), null;
    }
    var avrule := rule.value;
    var permSet := Granted(StoresDeny(avrule), avrule.data);
    if createFails {
      return Failure(None), null;
    }
    var ps := Start(permSet, avrule.key.targetClass);
    return Success, ps;
  }

  /** qpol_avrule_get_rule_type: the access-vector kind bits of the rule, and no others. */
  function GetRuleType(handle: Option<Handle>, policy: Option<Policy>, rule: Option<Node>, slot: bool)
    : (r: Reply<bv32>)
    ensures r.status.Success? <==> Present(handle, policy, rule, slot)
    ensures r.status.Failure? ==> r == Reply(Failure(Some(EINVAL)), 0)
    ensures r.out & !AvRuleKinds == 0
    ensures r.status.Success? ==> r.out & AvRuleKinds == rule.value.key.specified & AvRuleKinds
    ensures r.status.Success? && rule.value.key.specified == RuleAllow ==> r.out == RuleAllow
  {
    if Present(handle, policy, rule, slot) then
      Reply(Success, rule.value.key.specified & AvRuleKinds)
    else
      Reply(Failure(Some(EINVAL)), 0)
  }

  /** qpol_avrule_get_cond: the rule's conditional expression; an unconditional rule gives None, successfully. */
  function GetCond(handle: Option<Handle>, policy: Option<Policy>, rule: Option<Node>, slot: bool)
    : (r: Reply<Option<CondRef>>)
    ensures r.status.Success? <==> Present(handle, policy, rule, slot)
    ensures r.status.Failure? ==> r == Reply(Failure(Some(EINVAL)), None)
    ensures r.status.Success? ==> r.out == rule.value.parseContext
  {
    if Present(handle, policy, rule, slot) then Reply(Success, rule.value.parseContext)
    else Reply(Failure(Some(EINVAL)), None)
  }

  /** qpol_avrule_get_is_enabled: 1 if the rule's ENABLED bit is set, else 0. */
  function GetIsEnabled(handle: Option<Handle>, policy: Option<Policy>, rule: Option<Node>, slot: bool)
    : (r: Reply<bv32>)
    ensures r.status.Success? <==> Present(handle, policy, rule, slot)
    ensures r.status.Failure? ==> r == Reply(Failure(Some(EINVAL)), 0)
    ensures r.out == 0 || r.out == 1
    ensures r.status.Success? ==> (r.out == 1 <==> rule.value.merged & CondRuleEnabled != 0)
  {
    if Present(handle, policy, rule, slot) then Reply(Success, FlagValue(rule.value.merged, CondRuleEnabled))
    else Reply(Failure(Some(EINVAL)), 0)
  }

  /**
   * qpol_avrule_get_which_list: 1 if the rule's LIST bit is set, else 0; a rule
   * without a conditional expression has no list and is refused.
   */
  function GetWhichList(handle: Option<Handle>, policy: Option<Policy>, rule: Option<Node>, slot: bool)
    : (r: Reply<bv32>)
    ensures r.status.Success? <==> Present(handle, policy, rule, slot) && rule.value.parseContext.Some?
    ensures r.status.Failure? ==> r == Reply(Failure(Some(EINVAL)), 0)
    ensures r.out == 0 || r.out == 1
    ensures r.status.Success? ==> (r.out == 1 <==> rule.value.merged & CondRuleList != 0)
  {
    if !Present(handle, policy, rule, slot) then Reply(Failure(Some(EINVAL)), 0)
    else if rule.value.parseContext.None? then Reply(Failure(Some(EINVAL)), 0)
    else Reply(Success, FlagValue(rule.value.merged, CondRuleList))
  }

  /**
   * Permission inversion: a dontaudit rule enumerates exactly the bit indices
   * that the same stored word, read as a grant, does not.
   */
  lemma DontAuditEnumeratesComplement(rule: Node, k: nat)
    requires StoresDeny(rule)
    ensures k in SetBitsFrom(Granted(StoresDeny(rule), rule.data), 0) <==> k < PermBits && k !in SetBitsFrom(rule.data, 0)
  {
    if k < PermBits {
      GrantedBits(true, rule.data, k);
    }
  }
}
