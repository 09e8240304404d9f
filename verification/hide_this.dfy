/**
 * The class version of the `[hide]` shortcode (`Hide_This`). The attribute
 * `for` names who the content is hidden from, `exclude` names who gets it
 * back, and `test` asks for a diagnostic suffix.
 */
module HideThis {
  import opened Nullable
  import opened PhpStrings
  import opened Segments
  import opened ViewerContext
  import opened Evaluators

  /** The shortcode attributes after defaulting (`for` = "all", `exclude` = "", `test` = ""). */
  datatype Attributes = Attributes(forRule: string, excludeRule: string, testCriteria: string)

  /** One parsed rule token; an absent capability is the empty string. */
  datatype Rule = Rule(role: string, capability: string)

  const Passed: string := " TEST PASSED!"
  const Failed: string := " TEST FAILED!"

  /** The attribute values handled before any rule list is consulted. */
  predicate IsAbsolute(attribute: string) {
    attribute == "all" || attribute == "logged" || attribute == "!logged"
  }

  /** The attributes a shortcode without any attribute gets. */
  function DefaultAttributes(): Attributes {
    Attributes("all", "", "")
  }

  // ---------------------------------------------------------------- parsing

  /**
   * `make_attr_array`: a falsy attribute gives null; otherwise one trimmed
   * entry per comma-separated piece, in order.
   */
  function MakeAttrArray(attribute: string): (tokens: Option<seq<string>>)
    ensures !Truthy(attribute) <==> tokens.None?
    ensures tokens.Some? ==>
      && |tokens.value| == Count(',', attribute) + 1
      && forall i :: 0 <= i < |tokens.value| ==>
           && tokens.value[i] == Trim(Explode(',', attribute)[i])
           && IsTrimmed(tokens.value[i])
           && ',' !in tokens.value[i]
  {
    if Truthy(attribute) then
      var pieces := Explode(',', attribute);
      Some(seq(|pieces|, i requires 0 <= i < |pieces| => TrimNoComma(pieces[i])))
    else None
  }

  /**
   * One token of `make_rules_array`: the role is the text before the first
   * `:`, the capability the text between the first and the second `:`, or ""
   * when there is no `:`. Anything after a second `:` is dropped.
   */
  function ParseRule(token: string): (rule: Rule)
    ensures ':' !in rule.role && ':' !in rule.capability
    ensures ':' !in token ==> rule == Rule(token, "")
    ensures ':' in token ==>
      && |rule.role| < |token|
      && token[..|rule.role|] == rule.role
      && token[|rule.role|] == ':'
      && var rest := token[|rule.role| + 1..];
         |rule.capability| <= |rest|
         && rest[..|rule.capability|] == rule.capability
         && (|rule.capability| == |rest| || rest[|rule.capability|] == ':')
  {
    var pieces := Explode(':', token);
    if |pieces| == 1 then
      Rule(pieces[0], "")
    else
      ExplodeFirstTwo(':', token);
      Rule(pieces[0], pieces[1])
  }

  /** Writing a rule back as a token and parsing it gives the rule back; a third piece is ignored. */
  lemma ParseRuleRoundTrip(role: string, capability: string, extra: string)
    requires ':' !in role && ':' !in capability
    ensures ParseRule(role) == Rule(role, "")
    ensures ParseRule(role + [':'] + capability) == Rule(role, capability)
    ensures ParseRule(role + [':'] + capability + [':'] + extra) == Rule(role, capability)
  {
    ParseTwoPieces(role, capability);
    ParseThreePieces(role, capability, extra);
  }

  lemma ParseTwoPieces(role: string, capability: string)
    requires ':' !in role && ':' !in capability
    ensures Explode(':', role + [':'] + capability) == [role, capability]
  {
    ExplodeSplitsFirst(':', role, capability);
    ExplodeWithoutSeparator(':', capability);
  }

  lemma ParseThreePieces(role: string, capability: string, extra: string)
    requires ':' !in role && ':' !in capability
    ensures Explode(':', role + [':'] + capability + [':'] + extra)[..2] == [role, capability]
  {
    var tail := capability + [':'] + extra;
    assert role + [':'] + capability + [':'] + extra == role + [':'] + tail;
    ExplodeSplitsFirst(':', role, tail);
    ExplodeSplitsFirst(':', capability, extra);
  }

  /**
   * `make_rules_array`: null or an empty list gives null; otherwise one rule
   * per token, in order.
   */
  function MakeRulesArray(tokens: Option<seq<string>>): (rules: Option<seq<Rule>>)
    ensures rules.None? <==> (tokens.None? || tokens.value == [])
    ensures rules.Some? ==>
      && |rules.value| == |tokens.value|
      && forall i :: 0 <= i < |rules.value| ==> rules.value[i] == ParseRule(tokens.value[i])
  {
    match tokens
    case Some(ts) =>
      if ts == [] then None
      else Some(seq(|ts|, i requires 0 <= i < |ts| => ParseRule(ts[i])))
    case None => None
  }

  /**
   * The rule list read from an attribute: null for a falsy attribute,
   * otherwise one rule per comma-separated piece, parsed after trimming.
   */
  ghost predicate ParsedFrom(attribute: string, rules: Option<seq<Rule>>) {
    && (rules.None? <==> !Truthy(attribute))
    && (rules.Some? ==>
          && |rules.value| == Count(',', attribute) + 1
          && forall i :: 0 <= i < |rules.value| ==>
               rules.value[i] == ParseRule(Trim(Explode(',', attribute)[i])))
  }

  /** `get_hide_rules`, with the `hide_this_hide_rules` filter as the identity. */
  function HideRules(a: Attributes): (rules: Option<seq<Rule>>)
    ensures ParsedFrom(a.forRule, rules)
  {
    MakeRulesArray(MakeAttrArray(a.forRule))
  }

  /** `get_show_rules`, with the `hide_this_show_rules` filter as the identity. */
  function ShowRules(a: Attributes): (rules: Option<seq<Rule>>)
    ensures ParsedFrom(a.excludeRule, rules)
  {
    MakeRulesArray(MakeAttrArray(a.excludeRule))
  }

  // ------------------------------------------------------------- evaluation

  /**
   * Whether one rule applies to the viewer in the class version. A user-key
   * rule whose user check fails is still tried as a role/capability rule,
   * with the key itself as the role.
   */
  predicate Matches(v: Viewer, rule: Rule)
    ensures Matches(v, rule) ==> Truthy(rule.role) || Truthy(rule.capability)
    ensures EvaluateUser(v, rule.role, rule.capability) ==> Matches(v, rule)
    ensures !EvaluateUser(v, rule.role, rule.capability) ==>
      (Matches(v, rule) <==> RoleCapabilityMatches(v, rule.role, rule.capability))
  {
    || (IsUserKey(rule.role) && EvaluateUser(v, rule.role, rule.capability))
    || RoleCapabilityMatches(v, rule.role, rule.capability)
  }

  /** A rule whose role and capability are both falsy ("" or "0") applies to nobody. */
  lemma BlankRuleNeverMatches(v: Viewer, rule: Rule)
    requires !Truthy(rule.role) && !Truthy(rule.capability)
    ensures !Matches(v, rule)
  {
    EmptyRuleNeverMatches(v, rule.role, rule.capability);
  }

  /** Some rule of the (possibly null) list applies to the viewer. */
  predicate AnyMatches(v: Viewer, rules: Option<seq<Rule>>) {
    rules.Some? && exists i :: 0 <= i < |rules.value| && Matches(v, rules.value[i])
  }

  /** The index of the first rule that applies, scanning in list order. */
  function FirstMatch(v: Viewer, rules: seq<Rule>): (k: Option<nat>)
    ensures k.Some? ==>
      && k.value < |rules| && Matches(v, rules[k.value])
      && forall j :: 0 <= j < k.value ==> !Matches(v, rules[j])
    ensures k.None? ==> forall j :: 0 <= j < |rules| ==> !Matches(v, rules[j])
  {
    if rules == [] then None
    else if Matches(v, rules[0]) then Some(0)
    else
      var tail := rules[1..];
      match FirstMatch(v, tail)
      case Some(k) =>
        assert rules[k + 1] == tail[k];
        assert forall j :: 0 <= j < k + 1 ==> !Matches(v, rules[j]) by {
          forall j | 1 <= j < k + 1 ensures rules[j] == tail[j - 1] { }
        }
        Some(k + 1)
      case None =>
        assert forall j :: 0 <= j < |rules| ==> !Matches(v, rules[j]) by {
          forall j | 1 <= j < |rules| ensures rules[j] == tail[j - 1] { }
        }
        None
  }

  /**
   * `process_array`: `altered` when some rule applies, `content` otherwise
   * (in particular for a null or empty rule list).
   */
  function ProcessArray(v: Viewer, rules: Option<seq<Rule>>, content: string, altered: string): (r: string)
    ensures AnyMatches(v, rules) ==> r == altered
    ensures !AnyMatches(v, rules) ==> r == content
  {
    match rules
    case None => content
    case Some(rs) =>
      match FirstMatch(v, rs)
      case Some(_) => altered
      case None => content
  }

  /**
   * `process_array` as the source writes it: a scan that stops at the first
   * applicable rule, including the reset of an empty running result at the
   * top of each iteration, which never changes the outcome.
   */
  method ProcessArrayLoop(v: Viewer, rules: Option<seq<Rule>>, content: string, altered: string)
    returns (newContent: string)
    ensures AnyMatches(v, rules) ==> newContent == altered
    ensures !AnyMatches(v, rules) ==> newContent == content
  {
    newContent := content;
    if rules.Some? && rules.value != [] {
      var rs := rules.value;
      var i := 0;
      while i < |rs|
        invariant 0 <= i <= |rs|
        invariant newContent == content
        invariant forall j :: 0 <= j < i ==> !Matches(v, rs[j])
      {
        if !Truthy(newContent) {
          newContent := content;
        }
        var rule := rs[i];
        if Matches(v, rule) {
          newContent := altered;
          return;
        }
        i := i + 1;
      }
    }
  }

  /**
   * The attribute names the viewer: `all` names everyone, `logged` and
   * `!logged` name by login state, and a rule list names those some rule
   * applies to.
   */
  predicate Names(v: Viewer, attribute: string, rules: Option<seq<Rule>>) {
    || attribute == "all"
    || (attribute == "logged" && v.loggedIn)
    || (attribute == "!logged" && !v.loggedIn)
    || (!IsAbsolute(attribute) && AnyMatches(v, rules))
  }

  /**
   * The attribute switch of `process_content`: `all` gives the default,
   * `logged` and `!logged` choose by login state, anything else (including
   * `none` and "") consults the rule list, where a matching rule gives the
   * default.
   */
  function SelectContent(v: Viewer, attribute: string, rules: Option<seq<Rule>>,
                         default: string, alternative: string): (r: string)
    ensures r == default || r == alternative
    ensures attribute == "all" ==> r == default
    ensures attribute == "logged" ==> r == (if v.loggedIn then default else alternative)
    ensures attribute == "!logged" ==> r == (if v.loggedIn then alternative else default)
    ensures !IsAbsolute(attribute) ==> r == (if AnyMatches(v, rules) then default else alternative)
  {
    if attribute == "all" then default
    else if attribute == "logged" then (if v.loggedIn then default else alternative)
    else if attribute == "!logged" then (if !v.loggedIn then default else alternative)
    else ProcessArray(v, rules, alternative, default)
  }

  /**
   * `process_content`: the `inclusions` pass reads `for` and the hide rules,
   * the `exclusions` pass reads `exclude` and the show rules, and any other
   * pass name gives "".
   */
  function ProcessContent(a: Attributes, v: Viewer, pass: string,
                          default: string, alternative: string): (r: string)
    ensures pass != "inclusions" && pass != "exclusions" ==> r == ""
    ensures pass == "inclusions" ==> r == (if Names(v, a.forRule, HideRules(a)) then default else alternative)
    ensures pass == "exclusions" ==> r == (if Names(v, a.excludeRule, ShowRules(a)) then default else alternative)
  {
    if pass == "inclusions" then SelectContent(v, a.forRule, HideRules(a), default, alternative)
    else if pass == "exclusions" then SelectContent(v, a.excludeRule, ShowRules(a), default, alternative)
    else ""
  }

  /** Stage A: hide from those `for` names. */
  function Inclusions(a: Attributes, v: Viewer, original: string): (r: string)
    ensures r == (if Names(v, a.forRule, HideRules(a)) then "" else original)
  {
    ProcessContent(a, v, "inclusions", "", original)
  }

  /** Stages A and B of `get_content`: what the viewer sees before the test suffix. */
  function Resolve(a: Attributes, v: Viewer, original: string): (r: string)
    ensures r == "" || r == original
  {
    ProcessContent(a, v, "exclusions", original, Inclusions(a, v, original))
  }

  /**
   * `test`: the criteria `content` and `empty` append a pass or fail verdict,
   * passing when the content equals the original (for `content`) or is "" (for `empty`);
   * anything else leaves the content alone.
   */
  function Test(criteria: string, original: string, content: string): (r: string)
    ensures criteria != "content" && criteria != "empty" ==> r == content
    ensures criteria == "content" || criteria == "empty" ==>
      && |r| == |content| + |Passed|
      && r[..|content|] == content
      && (r[|content|..] == Passed || r[|content|..] == Failed)
      && (r[|content|..] == Passed <==> if criteria == "content" then original == content else content == "")
  {
    if Truthy(criteria) then
      if criteria == "content" then
        content + (if original == content then Passed else Failed)
      else if criteria == "empty" then
        content + (if "" == content then Passed else Failed)
      else content
    else content
  }

  /**
   * `get_content` without the host's `do_shortcode` and `hide_this_content`
   * filter: both stages, then the test suffix.
   */
  function GetContent(a: Attributes, v: Viewer, original: string): (r: string)
    ensures a.testCriteria != "content" && a.testCriteria != "empty" ==> r == "" || r == original
    ensures var shown := Resolve(a, v, original); |shown| <= |r| && r[..|shown|] == shown
    ensures var shown := Resolve(a, v, original);
      a.testCriteria == "content" ==> r == shown + (if shown == original then Passed else Failed)
    ensures var shown := Resolve(a, v, original);
      a.testCriteria == "empty" ==> r == shown + (if shown == "" then Passed else Failed)
  {
    var shown := Resolve(a, v, original);
    var r := Test(a.testCriteria, original, shown);
    assert |shown| <= |r| && r[..|shown|] == shown;
    r
  }

  // ---------------------------------------------------------------- lemmas

  /** With `exclude` left at "", stage B passes stage A's result through. */
  lemma EmptyExcludeIsIdentity(a: Attributes, v: Viewer, original: string)
    requires a.excludeRule == ""
    ensures Resolve(a, v, original) == Inclusions(a, v, original)
  {
  }

  /** `exclude="all"` gives everyone the original back. */
  lemma ExcludeAllShowsOriginal(a: Attributes, v: Viewer, original: string)
    requires a.excludeRule == "all"
    ensures Resolve(a, v, original) == original
  {
  }

  /** The default `for="all"` with no exclusion hides the content from everyone. */
  lemma ForAllHidesFromEveryone(a: Attributes, v: Viewer, original: string)
    requires a.forRule == "all" && a.excludeRule == ""
    ensures Resolve(a, v, original) == ""
  {
  }

  /** `for="logged"` hides from logged-in viewers, `for="!logged"` from anonymous ones. */
  lemma ForLoggedHidesByLoginState(a: Attributes, v: Viewer, original: string)
    requires a.excludeRule == ""
    ensures a.forRule == "logged" ==> Resolve(a, v, original) == (if v.loggedIn then "" else original)
    ensures a.forRule == "!logged" ==> Resolve(a, v, original) == (if v.loggedIn then original else "")
  {
  }

  /**
   * `exclude="logged"` reveals the original to logged-in viewers and
   * `exclude="!logged"` to anonymous ones; everyone else keeps stage A's result.
   */
  lemma ExcludeLoggedRevealsByLoginState(a: Attributes, v: Viewer, original: string)
    ensures a.excludeRule == "logged" ==>
      Resolve(a, v, original) == (if v.loggedIn then original else Inclusions(a, v, original))
    ensures a.excludeRule == "!logged" ==>
      Resolve(a, v, original) == (if v.loggedIn then Inclusions(a, v, original) else original)
  {
  }

  /** A rule list in `for` hides the content exactly from viewers some rule applies to. */
  lemma ForRulesHideMatchingViewers(a: Attributes, v: Viewer, original: string)
    requires !IsAbsolute(a.forRule) && a.excludeRule == ""
    ensures Resolve(a, v, original) == (if AnyMatches(v, HideRules(a)) then "" else original)
  {
  }

  /** A matching exclusion rule gives the original back, whatever `for` decided. */
  lemma MatchingExclusionRevealsOriginal(a: Attributes, v: Viewer, original: string)
    requires !IsAbsolute(a.excludeRule)
    requires AnyMatches(v, ShowRules(a))
    ensures Resolve(a, v, original) == original
  {
  }

  /** Exclusion rules that do not apply keep stage A's decision. */
  lemma FailingExclusionKeepsInclusion(a: Attributes, v: Viewer, original: string)
    requires !IsAbsolute(a.excludeRule)
    requires !AnyMatches(v, ShowRules(a))
    ensures Resolve(a, v, original) == Inclusions(a, v, original)
  {
  }

  /**
   * The class version has no `none` case: `for="none"` is a rule list with the
   * single role `none`, so it hides from a viewer holding a role of that name.
   */
  lemma ForNoneIsARoleName(a: Attributes, v: Viewer, original: string)
    requires a.forRule == "none" && a.excludeRule == ""
    ensures HideRules(a) == Some([Rule("none", "")])
    ensures Resolve(a, v, original) == (if "none" in v.roles then "" else original)
  {
    ForSingleRoleHidesHolders(a, v, original);
  }

  /** `for` naming one plain role hides the content exactly from the holders of that role. */
  lemma ForSingleRoleHidesHolders(a: Attributes, v: Viewer, original: string)
    requires Truthy(a.forRule) && IsTrimmed(a.forRule) && !IsAbsolute(a.forRule) && !IsUserKey(a.forRule)
    requires ',' !in a.forRule && ':' !in a.forRule && '!' !in a.forRule
    requires a.excludeRule == ""
    ensures HideRules(a) == Some([Rule(a.forRule, "")])
    ensures Resolve(a, v, original) == (if a.forRule in v.roles then "" else original)
  {
    var rule := Rule(a.forRule, "");
    SingleTokenParses(a.forRule);
    ForRulesHideMatchingViewers(a, v, original);
    assert AnyMatches(v, Some([rule])) <==> Matches(v, rule);
    assert Matches(v, rule) <==> a.forRule in v.roles;
  }

  /** The three user keys are plain lower-case words. */
  lemma UserKeyShape(key: string)
    requires IsUserKey(key)
    ensures Truthy(key) && |key| > 0 && key[0] == 'u'
    ensures ',' !in key && ':' !in key && '!' !in key
  {
  }

  /** The token `role:capability` parses to exactly that rule. */
  lemma TwoPieceRule(role: string, capability: string)
    requires ':' !in role && ':' !in capability
    ensures ParseRule(role + ":" + capability) == Rule(role, capability)
  {
    assert role + ":" + capability == role + [':'] + capability;
    ParseTwoPieces(role, capability);
  }

  /** `role:capability` needs no trimming, has no comma, and has a colon. */
  lemma TwoPieceTokenShape(role: string, capability: string)
    requires role != [] && !IsTrimChar(role[0]) && ',' !in role && ':' !in role
    requires capability != [] && !IsTrimChar(capability[|capability| - 1]) && ',' !in capability
    ensures IsTrimmed(role + ":" + capability) && ',' !in role + ":" + capability
    ensures ':' in role + ":" + capability
  {
    var token := role + ":" + capability;
    assert token[0] == role[0] && token[|token| - 1] == capability[|capability| - 1];
    assert token[|role|] == ':';
  }

  /**
   * The attribute `role:capability`, with nothing to trim and no separator
   * or negation in either part, is read as the single rule (role, capability).
   */
  lemma TwoPieceTokenParses(role: string, capability: string)
    requires role != [] && !IsTrimChar(role[0]) && ',' !in role && ':' !in role
    requires capability != [] && !IsTrimChar(capability[|capability| - 1])
    requires ',' !in capability && ':' !in capability
    ensures IsTrimmed(role + ":" + capability) && ',' !in role + ":" + capability
    ensures ':' in role + ":" + capability
    ensures MakeRulesArray(MakeAttrArray(role + ":" + capability)) == Some([Rule(role, capability)])
  {
    var token := role + ":" + capability;
    TwoPieceTokenShape(role, capability);
    SingleTokenSplits(token);
    TwoPieceRule(role, capability);
    var rules := MakeRulesArray(Some([token]));
    assert rules.Some? && |rules.value| == 1 && rules.value[0] == ParseRule(token) == Rule(role, capability);
    assert rules.value == [Rule(role, capability)];
  }

  /**
   * `for="key:x"` for a user key hides the content from the user whose field
   * is `x`, and, through the fall-through, from holders of a role named after
   * the key itself when `x` is falsy or a capability they have.
   */
  lemma ForUserRuleHides(a: Attributes, v: Viewer, original: string, key: string, x: string)
    requires IsUserKey(key)
    requires a.forRule == key + ":" + x && a.excludeRule == ""
    requires x != [] && !IsTrimChar(x[|x| - 1])
    requires ',' !in x && ':' !in x && '!' !in x
    ensures Resolve(a, v, original)
         == if UserField(v, key).value == x || (key in v.roles && (!Truthy(x) || v.can(x))) then "" else original
  {
    UserAttributeParses(a.forRule, key, x);
    SingleRuleResolves(a, v, original, Rule(key, x));
    UserRuleMatches(v, key, x);
  }

  /** The attribute `key:x` is no absolute value and holds the single rule (key, x). */
  lemma UserAttributeParses(attribute: string, key: string, x: string)
    requires IsUserKey(key)
    requires attribute == key + ":" + x
    requires x != [] && !IsTrimChar(x[|x| - 1])
    requires ',' !in x && ':' !in x
    ensures !IsAbsolute(attribute)
    ensures MakeRulesArray(MakeAttrArray(attribute)) == Some([Rule(key, x)])
  {
    UserKeyShape(key);
    TwoPieceTokenParses(key, x);
  }

  /** `for` holding one rule hides the content exactly from the viewers that rule applies to. */
  lemma SingleRuleResolves(a: Attributes, v: Viewer, original: string, rule: Rule)
    requires !IsAbsolute(a.forRule) && a.excludeRule == ""
    requires HideRules(a) == Some([rule])
    ensures Resolve(a, v, original) == if Matches(v, rule) then "" else original
  {
    ForRulesHideMatchingViewers(a, v, original);
    assert AnyMatches(v, Some([rule])) <==> Matches(v, rule);
  }

  /**
   * A plain user-key rule applies to the user whose field is its value, and,
   * through the fall-through, to holders of a role named after the key when
   * the value is falsy or a capability they have.
   */
  lemma UserRuleMatches(v: Viewer, key: string, x: string)
    requires IsUserKey(key)
    requires x != [] && '!' !in x
    ensures Matches(v, Rule(key, x))
        <==> UserField(v, key).value == x || (key in v.roles && (!Truthy(x) || v.can(x)))
  {
    UserKeyShape(key);
    assert RealName(x) == x && !IsNegative(x);
    assert RealName(key) == key && !IsNegative(key);
    assert EvaluateUser(v, key, x) <==> UserField(v, key).value == x;
    assert RoleCapabilityMatches(v, key, x) <==> key in v.roles && (!Truthy(x) || v.can(x));
  }

  /** An attribute that is one bare trimmed role parses to that role alone. */
  lemma SingleTokenParses(token: string)
    requires Truthy(token) && IsTrimmed(token)
    requires ',' !in token && ':' !in token
    ensures MakeRulesArray(MakeAttrArray(token)) == Some([Rule(token, "")])
  {
    SingleTokenSplits(token);
    var rules := MakeRulesArray(Some([token]));
    assert rules.Some? && |rules.value| == 1 && rules.value[0] == ParseRule(token) == Rule(token, "");
    assert rules.value == [Rule(token, "")];
  }

  /** An attribute without commas or padding is a list of itself alone. */
  lemma SingleTokenSplits(token: string)
    requires Truthy(token) && IsTrimmed(token) && ',' !in token
    ensures MakeAttrArray(token) == Some([token])
  {
    ExplodeWithoutSeparator(',', token);
    TrimOfTrimmed(token);
    var tokens := MakeAttrArray(token);
    assert tokens.Some?;
    assert |tokens.value| == 1 && tokens.value[0] == token;
    assert tokens.value == [token];
  }

  /** A later rule cannot undo an earlier match: prepending an applicable rule decides the scan. */
  lemma FirstMatchWins(v: Viewer, first: Rule, rest: seq<Rule>, content: string, altered: string)
    requires Matches(v, first)
    ensures ProcessArray(v, Some([first] + rest), content, altered) == altered
  {
    assert ([first] + rest)[0] == first;
  }

  /** Scanning a concatenation: the first list decides if any of its rules applies. */
  lemma {:induction false} ProcessArrayAppend(v: Viewer, xs: seq<Rule>, ys: seq<Rule>, content: string, altered: string)
    ensures ProcessArray(v, Some(xs + ys), content, altered)
         == if AnyMatches(v, Some(xs)) then altered else ProcessArray(v, Some(ys), content, altered)
  {
    if AnyMatches(v, Some(xs)) {
      var i :| 0 <= i < |xs| && Matches(v, xs[i]);
      assert (xs + ys)[i] == xs[i];
    } else if AnyMatches(v, Some(ys)) {
      var i :| 0 <= i < |ys| && Matches(v, ys[i]);
      assert (xs + ys)[|xs| + i] == ys[i];
    } else {
      forall j | 0 <= j < |xs + ys|
        ensures !Matches(v, (xs + ys)[j])
      {
        if j < |xs| { assert (xs + ys)[j] == xs[j]; } else { assert (xs + ys)[j] == ys[j - |xs|]; }
      }
    }
  }

  /** For criteria `content`, the suffix reports exactly whether the visible result is the original. */
  lemma TestContentReportsUnchanged(a: Attributes, v: Viewer, original: string)
    requires a.testCriteria == "content"
    ensures GetContent(a, v, original) == Resolve(a, v, original) + (if Resolve(a, v, original) == original then Passed else Failed)
  {
  }
}
