/**
 * Evaluation of one rule segment against the viewer. Both versions of the
 * plugin check roles and capabilities line for line alike (`evaluate_role`
 * and `ht_evaluate_role`, and so on), so those checks are defined once here.
 * `EvaluateUser` is the class version's user check; the free-function one,
 * which returns null on a mismatch, is `HideThisLegacy.LegacyEvaluateUser`.
 */
module Evaluators {
  import opened PhpStrings
  import opened Segments
  import opened ViewerContext

  /** `check_user_role`: the viewer holds the role. No roles means no match. */
  predicate CheckUserRole(v: Viewer, role: string)
    ensures v.roles == {} ==> !CheckUserRole(v, role)
  {
    role in v.roles
  }

  /**
   * `evaluate_role`: the raw role check on the real name, compared with the
   * segment's expected value. A plain role holds when the viewer has it, a
   * negated one when the viewer lacks it.
   */
  function EvaluateRole(v: Viewer, role: string): (ok: bool)
    ensures ok <==> if IsNegative(role) then RealName(role) !in v.roles else RealName(role) in v.roles
  {
    CheckUserRole(v, RealName(role)) == ExpectedValue(role)
  }

  /**
   * `evaluate_capability`: the same comparison with `current_user_can` as the
   * raw check.
   */
  function EvaluateCapability(v: Viewer, capability: string): (ok: bool)
    ensures ok <==> if IsNegative(capability) then !v.can(RealName(capability)) else v.can(RealName(capability))
  {
    v.can(RealName(capability)) == ExpectedValue(capability)
  }

  /**
   * `evaluate_user` of the class version: for a user key, the viewer's field
   * equals the value's real name, or differs from it when the value is
   * negated. Any other key fails.
   */
  function EvaluateUser(v: Viewer, key: string, value: string): (ok: bool)
    ensures !IsUserKey(key) ==> !ok
    ensures IsUserKey(key) ==>
      (ok <==> if IsNegative(value) then UserField(v, key).value != RealName(value)
                                    else UserField(v, key).value == RealName(value))
  {
    match UserField(v, key)
    case None => false
    case Some(field) => (field == RealName(value)) == ExpectedValue(value)
  }

  /**
   * The role-and-capability branch of a rule: both segments must hold when
   * both are truthy, otherwise whichever one is truthy decides, and a rule
   * with neither never holds.
   */
  predicate RoleCapabilityMatches(v: Viewer, role: string, capability: string)
    ensures RoleCapabilityMatches(v, role, capability) <==>
      && (Truthy(role) || Truthy(capability))
      && (Truthy(role) ==> EvaluateRole(v, role))
      && (Truthy(capability) ==> EvaluateCapability(v, capability))
  {
    if Truthy(role) && Truthy(capability) then EvaluateRole(v, role) && EvaluateCapability(v, capability)
    else if Truthy(capability) then EvaluateCapability(v, capability)
    else if Truthy(role) then EvaluateRole(v, role)
    else false
  }

  /** A rule whose role and capability are both falsy ("" or "0") never holds. */
  lemma EmptyRuleNeverMatches(v: Viewer, role: string, capability: string)
    requires !Truthy(role) && !Truthy(capability)
    ensures !RoleCapabilityMatches(v, role, capability)
  {
  }

  /** Negating a role segment negates its evaluation. */
  lemma RoleNegationFlip(v: Viewer, role: string)
    requires !IsNegative(role)
    ensures EvaluateRole(v, "!" + role) == !EvaluateRole(v, role)
  {
    NegatedSegment(role);
  }

  /** Negating a capability segment negates its evaluation. */
  lemma CapabilityNegationFlip(v: Viewer, capability: string)
    requires !IsNegative(capability)
    ensures EvaluateCapability(v, "!" + capability) == !EvaluateCapability(v, capability)
  {
    NegatedSegment(capability);
  }

  /** Negating a user value negates the evaluation of a user-key rule. */
  lemma UserNegationFlip(v: Viewer, key: string, value: string)
    requires IsUserKey(key)
    requires !IsNegative(value)
    ensures EvaluateUser(v, key, "!" + value) == !EvaluateUser(v, key, value)
  {
    NegatedSegment(value);
  }
}
