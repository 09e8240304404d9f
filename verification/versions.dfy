/**
 * How the two versions of the engine relate: where they agree, and inputs on
 * which they differ.
 */
module Versions {
  import opened Nullable
  import opened PhpStrings
  import opened Segments
  import opened ViewerContext
  import opened Evaluators
  import opened HideThis
  import opened HideThisLegacy

  /** A free-function rule read with the class version's "" for a missing capability. */
  function ToClassRule(rule: LegacyRule): Rule {
    Rule(rule.role, NullToString(rule.capability))
  }

  /** Both versions parse one token alike, up to null versus "". */
  lemma ParseRuleAgrees(token: string)
    ensures ToClassRule(LegacyParseRule(token)) == ParseRule(token)
  {
  }

  /** A free-function rule list read with the class version's "" for a missing capability. */
  function ToClassRules(rules: seq<LegacyRule>): (rs: seq<Rule>)
    ensures |rs| == |rules|
    ensures forall i :: 0 <= i < |rs| ==> rs[i] == ToClassRule(rules[i])
  {
    seq(|rules|, i requires 0 <= i < |rules| => ToClassRule(rules[i]))
  }

  /** Both versions split a truthy attribute into the same tokens. */
  lemma AttrArrayAgrees(attribute: string)
    requires Truthy(attribute)
    ensures MakeAttrArray(attribute) == Some(LegacyMakeAttrArray(attribute))
  {
    var tokens := MakeAttrArray(attribute).value;
    var legacy := LegacyMakeAttrArray(attribute);
    assert |tokens| == |legacy|;
    assert forall i :: 0 <= i < |tokens| ==> tokens[i] == legacy[i];
  }

  /** For a truthy attribute the class rule list is the free-function list, read with "" for null. */
  lemma ParsingAgrees(attribute: string)
    requires Truthy(attribute)
    ensures MakeRulesArray(MakeAttrArray(attribute))
         == Some(ToClassRules(LegacyMakeRulesArray(LegacyMakeAttrArray(attribute))))
  {
    AttrArrayAgrees(attribute);
    var tokens := LegacyMakeAttrArray(attribute);
    var legacy := LegacyMakeRulesArray(tokens);
    var rules := MakeRulesArray(Some(tokens)).value;
    var expected := ToClassRules(legacy);
    forall i | 0 <= i < |legacy|
      ensures rules[i] == expected[i]
    {
      ParseRuleAgrees(tokens[i]);
    }
    assert rules == expected;
  }

  /** Outside user keys both versions apply a rule alike; a user-key rule the free-function version applies, the class version applies too. */
  lemma MatchesAgree(v: Viewer, rule: LegacyRule)
    ensures !IsUserKey(rule.role) ==> (Matches(v, ToClassRule(rule)) <==> LegacyMatches(v, rule))
    ensures LegacyMatches(v, rule) ==> Matches(v, ToClassRule(rule))
  {
  }

  /**
   * The class version lets a failed user check fall through to the role
   * check: a viewer with id "7" who holds a role named `userid` and the
   * capability `42` matches `userid:42` there, but not in the free-function
   * version.
   */
  lemma UserFallThroughDiffers()
    ensures var v := Viewer(true, {"userid"}, "7", "", "", name => name == "42");
      && Matches(v, Rule("userid", "42"))
      && !LegacyMatches(v, LegacyRule("userid", Some("42")))
  {
    var v := Viewer(true, {"userid"}, "7", "", "", name => name == "42");
    assert RealName("42") == "42";
    assert RealName("userid") == "userid";
    assert EvaluateRole(v, "userid");
    assert EvaluateCapability(v, "42");
  }

  /**
   * `for="none"` hides the content from a viewer holding a role named `none`
   * in the class version, and from nobody in the free-function version.
   */
  lemma ForNoneDiffers(original: string)
    requires original != ""
    ensures var v := Viewer(true, {"none"}, "", "", "", name => false);
            var a := Attributes("none", "", "");
      && Resolve(a, v, original) == ""
      && LegacyResolve(a, v, original) == original
  {
    var v := Viewer(true, {"none"}, "", "", "", name => false);
    var a := Attributes("none", "", "");
    ForNoneIsARoleName(a, v, original);
    LegacyForNoneShowsOriginal(a, v, original);
  }

  /** The `empty` test tells "0" apart in the two versions: failed in the class, passed in the free functions. */
  lemma EmptyTestDiffersOnZero(original: string)
    ensures Test("empty", original, "0") == "0" + Failed
    ensures LegacyTest("empty", original, "0") == "0" + Passed
  {
  }

  /** No free-function rule has a user-key role. */
  predicate NoUserKeys(rules: seq<LegacyRule>) {
    forall i :: 0 <= i < |rules| ==> !IsUserKey(rules[i].role)
  }

  /** Both versions' rule lists for one attribute apply to the same viewers, when no rule has a user key. */
  lemma AnyMatchesAgree(v: Viewer, attribute: string)
    requires NoUserKeys(LegacyMakeRulesArray(LegacyMakeAttrArray(attribute)))
    ensures AnyMatches(v, MakeRulesArray(MakeAttrArray(attribute)))
        <==> LegacyAnyMatches(v, LegacyMakeRulesArray(LegacyMakeAttrArray(attribute)))
  {
    var legacy := LegacyMakeRulesArray(LegacyMakeAttrArray(attribute));
    if Truthy(attribute) {
      ParsingAgrees(attribute);
      ListMatchesAgree(v, legacy);
    } else {
      FalsyAttributeMatchesNobody(v, attribute);
    }
  }

  /** A rule list without user keys applies in the class version exactly when it does in the free-function one. */
  lemma ListMatchesAgree(v: Viewer, legacy: seq<LegacyRule>)
    requires NoUserKeys(legacy)
    ensures AnyMatches(v, Some(ToClassRules(legacy))) <==> LegacyAnyMatches(v, legacy)
  {
    var rules := ToClassRules(legacy);
    if LegacyAnyMatches(v, legacy) {
      var i :| 0 <= i < |legacy| && LegacyMatches(v, legacy[i]);
      MatchesAgree(v, legacy[i]);
      assert Matches(v, rules[i]);
    }
    if AnyMatches(v, Some(rules)) {
      var i :| 0 <= i < |rules| && Matches(v, rules[i]);
      MatchesAgree(v, legacy[i]);
      assert LegacyMatches(v, legacy[i]);
    }
  }

  /** A falsy attribute gives the class version no rules and the free-function version one rule that applies to nobody. */
  lemma FalsyAttributeMatchesNobody(v: Viewer, attribute: string)
    requires !Truthy(attribute)
    ensures !AnyMatches(v, MakeRulesArray(MakeAttrArray(attribute)))
    ensures !LegacyAnyMatches(v, LegacyMakeRulesArray(LegacyMakeAttrArray(attribute)))
  {
    assert IsTrimmed(attribute) && ',' !in attribute && ':' !in attribute;
    LegacySingleToken(attribute);
    EmptyRuleNeverMatches(v, attribute, "");
  }

  /** A token without `,` or `:` and without padding parses to one rule with a null capability. */
  lemma LegacySingleToken(token: string)
    requires IsTrimmed(token) && ',' !in token && ':' !in token
    ensures LegacyMakeRulesArray(LegacyMakeAttrArray(token)) == [LegacyRule(token, None)]
  {
    ExplodeWithoutSeparator(',', token);
    TrimOfTrimmed(token);
    var tokens := LegacyMakeAttrArray(token);
    assert |tokens| == 1 && tokens[0] == Trim(token) == token;
    assert tokens == [token];
    var rules := LegacyMakeRulesArray(tokens);
    assert |rules| == 1 && rules[0] == LegacyParseRule(token) == LegacyRule(token, None);
  }

  /** One pass agrees in both versions for an attribute other than `none` without user-key rules. */
  lemma PassAgrees(v: Viewer, attribute: string, default: string, alternative: string)
    requires attribute != "none"
    requires NoUserKeys(LegacyMakeRulesArray(LegacyMakeAttrArray(attribute)))
    ensures SelectContent(v, attribute, MakeRulesArray(MakeAttrArray(attribute)), default, alternative)
         == LegacyProcessContent(v, attribute, LegacyMakeRulesArray(LegacyMakeAttrArray(attribute)), default, alternative)
  {
    if !IsAbsolute(attribute) {
      var rules := MakeRulesArray(MakeAttrArray(attribute));
      var legacy := LegacyMakeRulesArray(LegacyMakeAttrArray(attribute));
      AnyMatchesAgree(v, attribute);
      assert SelectContent(v, attribute, rules, default, alternative) == ProcessArray(v, rules, alternative, default);
      assert LegacyProcessContent(v, attribute, legacy, default, alternative) == LegacyProcessArray(v, legacy, alternative, default);
    }
  }

  /**
   * Away from `none` and user-key rules the two versions show every viewer
   * the same thing.
   */
  lemma ResolveAgrees(a: Attributes, v: Viewer, original: string)
    requires a.forRule != "none" && a.excludeRule != "none"
    requires NoUserKeys(LegacyHideRules(a)) && NoUserKeys(LegacyShowRules(a))
    ensures Resolve(a, v, original) == LegacyResolve(a, v, original)
  {
    PassAgrees(v, a.forRule, "", original);
    PassAgrees(v, a.excludeRule, original, Inclusions(a, v, original));
  }

  /**
   * `for="userid:x"`: the free-function version hides the content from the
   * user whose `ID` is `x`; the class version also hides it, through the
   * fall-through, from holders of a role named `userid` when `x` is falsy or
   * a capability they have.
   */
  lemma ForUserIdHidesThatUser(a: Attributes, v: Viewer, original: string, x: string)
    requires a.forRule == "userid:" + x && a.excludeRule == ""
    requires x != [] && !IsTrimChar(x[|x| - 1])
    requires ',' !in x && ':' !in x && '!' !in x
    ensures Resolve(a, v, original)
         == if v.id == x || ("userid" in v.roles && (!Truthy(x) || v.can(x))) then "" else original
    ensures LegacyResolve(a, v, original) == if v.id == x then "" else original
  {
    ForUserRuleHides(a, v, original, "userid", x);
    LegacyForUserRuleHides(a, v, original, "userid", x);
  }

  /** `for="username:x"`: the same for the user whose login is `x`. */
  lemma ForUserNameHidesThatUser(a: Attributes, v: Viewer, original: string, x: string)
    requires a.forRule == "username:" + x && a.excludeRule == ""
    requires x != [] && !IsTrimChar(x[|x| - 1])
    requires ',' !in x && ':' !in x && '!' !in x
    ensures Resolve(a, v, original)
         == if v.login == x || ("username" in v.roles && (!Truthy(x) || v.can(x))) then "" else original
    ensures LegacyResolve(a, v, original) == if v.login == x then "" else original
  {
    ForUserRuleHides(a, v, original, "username", x);
    LegacyForUserRuleHides(a, v, original, "username", x);
  }

  /** `for="useremail:x"`: the same for the user whose email is `x`. */
  lemma ForUserEmailHidesThatUser(a: Attributes, v: Viewer, original: string, x: string)
    requires a.forRule == "useremail:" + x && a.excludeRule == ""
    requires x != [] && !IsTrimChar(x[|x| - 1])
    requires ',' !in x && ':' !in x && '!' !in x
    ensures Resolve(a, v, original)
         == if v.email == x || ("useremail" in v.roles && (!Truthy(x) || v.can(x))) then "" else original
    ensures LegacyResolve(a, v, original) == if v.email == x then "" else original
  {
    ForUserRuleHides(a, v, original, "useremail", x);
    LegacyForUserRuleHides(a, v, original, "useremail", x);
  }
}
