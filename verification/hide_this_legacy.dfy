/**
 * The older free-function version of the shortcode (`hide_this` and the
 * `ht_*` helpers). It differs from the class version in five places: the
 * attribute list is never null, a token without `:` leaves the capability
 * null, a user-key rule is decided by the user check alone, `none` is an
 * absolute value, and the `empty` test accepts "0".
 */
module HideThisLegacy {
  import opened Nullable
  import opened PhpStrings
  import opened Segments
  import opened ViewerContext
  import opened Evaluators
  import HideThis

  type Attributes = HideThis.Attributes

  /** One parsed token; the capability is null (None) when the token has no `:`. */
  datatype LegacyRule = LegacyRule(role: string, capability: Option<string>)

  /** PHP's reading of null as a string, as `substr` and `str_replace` do: "". */
  function NullToString(s: Option<string>): string {
    match s
    case Some(value) => value
    case None => ""
  }

  // ---------------------------------------------------------------- parsing

  /**
   * `ht_make_attr_array`: one trimmed entry per comma-separated piece, in
   * order, for every input; "" gives the single entry "".
   */
  function LegacyMakeAttrArray(attribute: string): (tokens: seq<string>)
    ensures |tokens| == Count(',', attribute) + 1
    ensures forall i :: 0 <= i < |tokens| ==>
      && tokens[i] == Trim(Explode(',', attribute)[i])
      && IsTrimmed(tokens[i])
      && ',' !in tokens[i]
    ensures attribute == "" ==> tokens == [""]
  {
    var pieces := Explode(',', attribute);
    seq(|pieces|, i requires 0 <= i < |pieces| => TrimNoComma(pieces[i]))
  }

  /**
   * One token of `ht_make_rules_array`: the role is the text before the first
   * `:`; the capability is the text between the first and the second `:`, or
   * null when the token has no `:`.
   */
  function LegacyParseRule(token: string): (rule: LegacyRule)
    ensures rule.capability.None? <==> ':' !in token
    ensures ':' !in token ==> rule.role == token
    ensures ':' in token ==> HideThis.Rule(rule.role, rule.capability.value) == HideThis.ParseRule(token)
  {
    var pieces := Explode(':', token);
    if |pieces| == 1 then LegacyRule(pieces[0], None)
    else LegacyRule(pieces[0], Some(pieces[1]))
  }

  /** `ht_make_rules_array`: one rule per token, in order; no tokens give no rules. */
  function LegacyMakeRulesArray(tokens: seq<string>): (rules: seq<LegacyRule>)
    ensures |rules| == |tokens|
    ensures forall i :: 0 <= i < |rules| ==> rules[i] == LegacyParseRule(tokens[i])
  {
    seq(|tokens|, i requires 0 <= i < |tokens| => LegacyParseRule(tokens[i]))
  }

  /** The rule list read from an attribute: one rule per comma-separated piece, parsed after trimming. */
  ghost predicate LegacyParsedFrom(attribute: string, rules: seq<LegacyRule>) {
    && |rules| == Count(',', attribute) + 1
    && forall i :: 0 <= i < |rules| ==> rules[i] == LegacyParseRule(Trim(Explode(',', attribute)[i]))
  }

  /** The hide rules `hide_this` builds from `for`. */
  function LegacyHideRules(a: Attributes): (rules: seq<LegacyRule>)
    ensures LegacyParsedFrom(a.forRule, rules)
  {
    LegacyMakeRulesArray(LegacyMakeAttrArray(a.forRule))
  }

  /** The show rules `hide_this` builds from `exclude`. */
  function LegacyShowRules(a: Attributes): (rules: seq<LegacyRule>)
    ensures LegacyParsedFrom(a.excludeRule, rules)
  {
    LegacyMakeRulesArray(LegacyMakeAttrArray(a.excludeRule))
  }

  // ------------------------------------------------------------- evaluation

  /**
   * `ht_evaluate_user`: true when the class check holds, and for a user key
   * whose check fails the function falls off its end and yields null (None),
   * which the caller reads as false. Any other key gives false.
   */
  function LegacyEvaluateUser(v: Viewer, key: string, value: Option<string>): (r: Option<bool>)
    ensures !IsUserKey(key) ==> r == Some(false)
    ensures IsUserKey(key) ==> r != Some(false)
    ensures IsUserKey(key) ==> (r == Some(true) <==> EvaluateUser(v, key, NullToString(value)))
  {
    var expected := ExpectedValue(NullToString(value));
    match UserField(v, key)
    case None => Some(false)
    case Some(field) =>
      if (field == RealName(NullToString(value))) == expected then Some(true) else None
  }

  /**
   * Whether one rule applies in the free-function version: a user-key rule is
   * decided by the user check alone, any other by its role and capability.
   */
  predicate LegacyMatches(v: Viewer, rule: LegacyRule)
    ensures LegacyMatches(v, rule) ==> Truthy(rule.role) || Truthy(NullToString(rule.capability))
    ensures LegacyMatches(v, rule) ==> HideThis.Matches(v, HideThis.Rule(rule.role, NullToString(rule.capability)))
  {
    if IsUserKey(rule.role) then LegacyEvaluateUser(v, rule.role, rule.capability) == Some(true)
    else RoleCapabilityMatches(v, rule.role, NullToString(rule.capability))
  }

  /** Some rule of the list applies to the viewer. */
  predicate LegacyAnyMatches(v: Viewer, rules: seq<LegacyRule>) {
    exists i :: 0 <= i < |rules| && LegacyMatches(v, rules[i])
  }

  /** `ht_process_array`: `altered` when some rule applies, `content` otherwise. */
  function LegacyProcessArray(v: Viewer, rules: seq<LegacyRule>, content: string, altered: string): (r: string)
    ensures LegacyAnyMatches(v, rules) ==> r == altered
    ensures !LegacyAnyMatches(v, rules) ==> r == content
  {
    if rules == [] then content
    else if LegacyMatches(v, rules[0]) then altered
    else
      var r := LegacyProcessArray(v, rules[1..], content, altered);
      assert LegacyAnyMatches(v, rules) <==> LegacyAnyMatches(v, rules[1..]) by {
        if LegacyAnyMatches(v, rules) {
          var i :| 0 <= i < |rules| && LegacyMatches(v, rules[i]);
          assert rules[1..][i - 1] == rules[i];
        }
        if LegacyAnyMatches(v, rules[1..]) {
          var i :| 0 <= i < |rules[1..]| && LegacyMatches(v, rules[1..][i]);
          assert rules[i + 1] == rules[1..][i];
        }
      }
      r
  }

  /** The absolute attribute values of this version, `none` included. */
  predicate LegacyIsAbsolute(attribute: string) {
    HideThis.IsAbsolute(attribute) || attribute == "none"
  }

  /**
   * The attribute names the viewer: `all` names everyone, `none` nobody,
   * `logged` and `!logged` name by login state, and a rule list names those
   * some rule applies to.
   */
  predicate LegacyNames(v: Viewer, attribute: string, rules: seq<LegacyRule>) {
    || attribute == "all"
    || (attribute == "logged" && v.loggedIn)
    || (attribute == "!logged" && !v.loggedIn)
    || (!LegacyIsAbsolute(attribute) && LegacyAnyMatches(v, rules))
  }

  /**
   * `ht_process_content`: `all` gives the default, `none` the alternative,
   * `logged` and `!logged` choose by login state, and anything else consults
   * the rule list, where a matching rule gives the default.
   */
  function LegacyProcessContent(v: Viewer, attribute: string, rules: seq<LegacyRule>,
                                default: string, alternative: string): (r: string)
    ensures r == default || r == alternative
    ensures attribute == "all" ==> r == default
    ensures attribute == "none" ==> r == alternative
    ensures attribute == "logged" ==> r == (if v.loggedIn then default else alternative)
    ensures attribute == "!logged" ==> r == (if v.loggedIn then alternative else default)
    ensures !LegacyIsAbsolute(attribute) ==> r == (if LegacyAnyMatches(v, rules) then default else alternative)
    ensures r == (if LegacyNames(v, attribute, rules) then default else alternative)
  {
    if attribute == "all" then default
    else if attribute == "none" then alternative
    else if attribute == "logged" then (if v.loggedIn then default else alternative)
    else if attribute == "!logged" then (if !v.loggedIn then default else alternative)
    else LegacyProcessArray(v, rules, alternative, default)
  }

  /** First call of `ht_process_content` in `hide_this`: hide from those `for` names. */
  function LegacyInclusions(a: Attributes, v: Viewer, original: string): (r: string)
    ensures r == (if LegacyNames(v, a.forRule, LegacyHideRules(a)) then "" else original)
  {
    LegacyProcessContent(v, a.forRule, LegacyHideRules(a), "", original)
  }

  /** Both calls of `ht_process_content`: what the viewer sees before the test suffix. */
  function LegacyResolve(a: Attributes, v: Viewer, original: string): (r: string)
    ensures r == "" || r == original
  {
    LegacyProcessContent(v, a.excludeRule, LegacyShowRules(a), original, LegacyInclusions(a, v, original))
  }

  /**
   * `ht_test`: like the class version, except that `empty` passes for any
   * falsy content, so "0" counts as empty.
   */
  function LegacyTest(criteria: string, original: string, content: string): (r: string)
    ensures criteria != "content" && criteria != "empty" ==> r == content
    ensures criteria == "content" || criteria == "empty" ==>
      && |r| == |content| + |HideThis.Passed|
      && r[..|content|] == content
      && (r[|content|..] == HideThis.Passed || r[|content|..] == HideThis.Failed)
      && (r[|content|..] == HideThis.Passed <==> if criteria == "content" then original == content else !Truthy(content))
  {
    if Truthy(criteria) then
      if criteria == "content" then
        content + (if original == content then HideThis.Passed else HideThis.Failed)
      else if criteria == "empty" then
        content + (if !Truthy(content) then HideThis.Passed else HideThis.Failed)
      else content
    else content
  }

  /** `hide_this` without `shortcode_atts`: both passes, then the test suffix. */
  function LegacyHideThis(a: Attributes, v: Viewer, original: string): (r: string)
    ensures a.testCriteria != "content" && a.testCriteria != "empty" ==> r == "" || r == original
    ensures var shown := LegacyResolve(a, v, original); |shown| <= |r| && r[..|shown|] == shown
    ensures var shown := LegacyResolve(a, v, original);
      a.testCriteria == "content" ==> r == shown + (if shown == original then HideThis.Passed else HideThis.Failed)
    ensures var shown := LegacyResolve(a, v, original);
      a.testCriteria == "empty" ==> r == shown + (if !Truthy(shown) then HideThis.Passed else HideThis.Failed)
  {
    var shown := LegacyResolve(a, v, original);
    var r := LegacyTest(a.testCriteria, original, shown);
    assert |shown| <= |r| && r[..|shown|] == shown;
    r
  }

  // ---------------------------------------------------------------- lemmas

  /** A user-key rule is decided by the user check alone: no fall-through to roles. */
  lemma UserRuleHasNoFallThrough(v: Viewer, rule: LegacyRule)
    requires IsUserKey(rule.role)
    ensures LegacyMatches(v, rule) <==> EvaluateUser(v, rule.role, NullToString(rule.capability))
  {
  }

  /**
   * The default `exclude=""` parses to the one rule (role "", capability
   * null), which applies to nobody, so the second pass changes nothing.
   */
  lemma LegacyEmptyExcludeIsIdentity(a: Attributes, v: Viewer, original: string)
    requires a.excludeRule == ""
    ensures LegacyShowRules(a) == [LegacyRule("", None)]
    ensures LegacyResolve(a, v, original) == LegacyInclusions(a, v, original)
  {
    var rules := LegacyShowRules(a);
    assert rules[0] == LegacyParseRule("");
    assert rules == [LegacyRule("", None)];
    assert !LegacyMatches(v, rules[0]);
  }

  /** `for="none"` hides from nobody. */
  lemma LegacyForNoneShowsOriginal(a: Attributes, v: Viewer, original: string)
    requires a.forRule == "none"
    ensures LegacyInclusions(a, v, original) == original
    ensures a.excludeRule == "" ==> LegacyResolve(a, v, original) == original
  {
    if a.excludeRule == "" {
      LegacyEmptyExcludeIsIdentity(a, v, original);
    }
  }

  /** `exclude="none"` keeps the first pass's decision. */
  lemma LegacyExcludeNoneKeepsInclusion(a: Attributes, v: Viewer, original: string)
    requires a.excludeRule == "none"
    ensures LegacyResolve(a, v, original) == LegacyInclusions(a, v, original)
  {
  }

  /** `exclude="all"` gives everyone the original back. */
  lemma LegacyExcludeAllShowsOriginal(a: Attributes, v: Viewer, original: string)
    requires a.excludeRule == "all"
    ensures LegacyResolve(a, v, original) == original
  {
  }

  /**
   * `exclude="logged"` reveals the original to logged-in viewers and
   * `exclude="!logged"` to anonymous ones; everyone else keeps the first pass's result.
   */
  lemma LegacyExcludeLoggedRevealsByLoginState(a: Attributes, v: Viewer, original: string)
    ensures a.excludeRule == "logged" ==>
      LegacyResolve(a, v, original) == (if v.loggedIn then original else LegacyInclusions(a, v, original))
    ensures a.excludeRule == "!logged" ==>
      LegacyResolve(a, v, original) == (if v.loggedIn then LegacyInclusions(a, v, original) else original)
  {
  }

  /** `for="logged"` hides from logged-in viewers, `for="!logged"` from anonymous ones. */
  lemma LegacyForLoggedHidesByLoginState(a: Attributes, v: Viewer, original: string)
    requires a.excludeRule == ""
    ensures a.forRule == "logged" ==> LegacyResolve(a, v, original) == (if v.loggedIn then "" else original)
    ensures a.forRule == "!logged" ==> LegacyResolve(a, v, original) == (if v.loggedIn then original else "")
  {
    LegacyEmptyExcludeIsIdentity(a, v, original);
  }

  /** The default attributes hide the content from everyone. */
  lemma LegacyDefaultHidesFromEveryone(v: Viewer, original: string)
    ensures LegacyHideThis(HideThis.DefaultAttributes(), v, original) == ""
  {
    LegacyEmptyExcludeIsIdentity(HideThis.DefaultAttributes(), v, original);
  }

  /** A rule list in `for` hides the content exactly from viewers some rule applies to. */
  lemma LegacyForRulesHideMatchingViewers(a: Attributes, v: Viewer, original: string)
    requires !LegacyIsAbsolute(a.forRule) && a.excludeRule == ""
    ensures LegacyResolve(a, v, original) == (if LegacyAnyMatches(v, LegacyHideRules(a)) then "" else original)
  {
    LegacyEmptyExcludeIsIdentity(a, v, original);
  }

  /** An attribute without commas or padding is a list of itself alone. */
  lemma LegacySingleTokenSplits(token: string)
    requires IsTrimmed(token) && ',' !in token
    ensures LegacyMakeAttrArray(token) == [token]
  {
    ExplodeWithoutSeparator(',', token);
    TrimOfTrimmed(token);
    var tokens := LegacyMakeAttrArray(token);
    assert |tokens| == 1 && tokens[0] == token;
  }

  /** The user-rule attribute `key:x` is read as the single rule (key, x). */
  lemma LegacyUserTokenParses(key: string, x: string)
    requires IsUserKey(key)
    requires x != [] && !IsTrimChar(x[|x| - 1])
    requires ',' !in x && ':' !in x
    ensures LegacyMakeRulesArray(LegacyMakeAttrArray(key + ":" + x)) == [LegacyRule(key, Some(x))]
  {
    HideThis.UserKeyShape(key);
    var token := key + ":" + x;
    HideThis.TwoPieceTokenShape(key, x);
    LegacySingleTokenSplits(token);
    HideThis.TwoPieceRule(key, x);
    var rules := LegacyMakeRulesArray([token]);
    assert |rules| == 1 && rules[0] == LegacyParseRule(token) == LegacyRule(key, Some(x));
  }

  /**
   * `for="key:x"` for a user key hides the content from exactly the user
   * whose field is `x`: no role or capability is consulted.
   */
  lemma LegacyForUserRuleHides(a: Attributes, v: Viewer, original: string, key: string, x: string)
    requires IsUserKey(key)
    requires a.forRule == key + ":" + x && a.excludeRule == ""
    requires x != [] && !IsTrimChar(x[|x| - 1])
    requires ',' !in x && ':' !in x && '!' !in x
    ensures LegacyResolve(a, v, original) == if UserField(v, key).value == x then "" else original
  {
    LegacyUserAttributeParses(a.forRule, key, x);
    LegacySingleRuleResolves(a, v, original, LegacyRule(key, Some(x)));
    LegacyUserRuleMatches(v, key, x);
  }

  /** The attribute `key:x` is no absolute value and holds the single rule (key, x). */
  lemma LegacyUserAttributeParses(attribute: string, key: string, x: string)
    requires IsUserKey(key)
    requires attribute == key + ":" + x
    requires x != [] && !IsTrimChar(x[|x| - 1])
    requires ',' !in x && ':' !in x
    ensures !LegacyIsAbsolute(attribute)
    ensures LegacyMakeRulesArray(LegacyMakeAttrArray(attribute)) == [LegacyRule(key, Some(x))]
  {
    HideThis.UserKeyShape(key);
    HideThis.TwoPieceTokenShape(key, x);
    LegacyUserTokenParses(key, x);
  }

  /** `for` holding one rule hides the content exactly from the viewers that rule applies to. */
  lemma LegacySingleRuleResolves(a: Attributes, v: Viewer, original: string, rule: LegacyRule)
    requires !LegacyIsAbsolute(a.forRule) && a.excludeRule == ""
    requires LegacyHideRules(a) == [rule]
    ensures LegacyResolve(a, v, original) == if LegacyMatches(v, rule) then "" else original
  {
    LegacyForRulesHideMatchingViewers(a, v, original);
    assert LegacyAnyMatches(v, [rule]) <==> LegacyMatches(v, rule);
  }

  /** A plain user-key rule applies to exactly the user whose field is its value. */
  lemma LegacyUserRuleMatches(v: Viewer, key: string, x: string)
    requires IsUserKey(key)
    requires x != [] && '!' !in x
    ensures LegacyMatches(v, LegacyRule(key, Some(x))) <==> UserField(v, key).value == x
  {
    UserRuleHasNoFallThrough(v, LegacyRule(key, Some(x)));
    assert RealName(x) == x && !IsNegative(x);
  }

  /** A matching exclusion rule gives the original back. */
  lemma LegacyMatchingExclusionRevealsOriginal(a: Attributes, v: Viewer, original: string)
    requires !LegacyIsAbsolute(a.excludeRule)
    requires LegacyAnyMatches(v, LegacyShowRules(a))
    ensures LegacyResolve(a, v, original) == original
  {
  }

  /** `ht_test` with `empty` passes on the content "0". */
  lemma LegacyEmptyTestAcceptsZero(original: string)
    ensures LegacyTest("empty", original, "0") == "0" + HideThis.Passed
  {
  }
}
