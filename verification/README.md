# Hide This: a verified model of the `[hide]` rule engine

The WordPress plugin *Hide This* provides a `[hide]` shortcode. Its attributes
decide who sees the enclosed content:

- `for` names the viewers the content is hidden from. The default is `all`.
- `exclude` names the viewers who get it back anyway. The default is "".
- `test` asks for a diagnostic ` TEST PASSED!` or ` TEST FAILED!` suffix.

Both rule attributes take an absolute value (`all`, `logged`, `!logged`, and in
the older version `none`) or a comma-separated list of rules:

- `role`, `role:capability`, `:capability`
- `userid:ID`, `username:login`, `useremail:email`

Any segment may carry a `!` to negate it.

The engine exists twice in the repository. Both are modelled here:

- the class `Hide_This` in `hide-this.class.php` (module `HideThis`);
- the older free functions `hide_this` and `ht_*` in `hide-this.php` (module `HideThisLegacy`).

Everything is a pure function of the attributes, the enclosed content and an
explicit `Viewer` record. That record replaces the WordPress lookups
`is_user_logged_in`, `wp_get_current_user` and `current_user_can`.

Modules:

- `Nullable`: `Option`, standing for PHP `null`.
- `PhpStrings`: the PHP built-ins the engine uses: truthiness, `explode`, `trim` and `str_replace` of `!`.
- `ViewerContext`: the viewer record and the three user keys.
- `Segments`: `is_negative`, `expected_value`, `real_name`.
- `Evaluators`: `check_user_role`, `evaluate_role`, `evaluate_capability`
  and the role/capability branch of the rule scan. Both versions check roles
  and capabilities alike (`ht_evaluate_role`, ...), so these are defined once.
  `Evaluators.EvaluateUser` is the class version's `evaluate_user`. The
  free-function `ht_evaluate_user` returns null on a mismatch and is modelled
  separately, as `HideThisLegacy.LegacyEvaluateUser`.
- `HideThis`: parsing, the rule scan, `process_content`, `test` and
  `get_content` of the class version.
- `HideThisLegacy`: the same for `hide_this` and the `ht_*` functions.
- `Versions`: where the two versions agree, and inputs on which they differ.

`for` hides on a match (hide-this.class.php:50-61). Stage A runs with
default "" and alternative the original content, so `for="all"` and a
matching `for` rule both yield "". Stage B runs with default the original
and alternative stage A's result, so a matching `exclude` rule reveals the
original again. In particular, the default attributes hide the content from
every viewer, and `for="all" test="empty"` yields " TEST PASSED!".

## Model

| member | source | states |
|---|---|---|
| PhpStrings.Explode | hide-this.class.php:314 | `explode` gives one piece more than there are separators, no piece contains the separator, and imploding the pieces restores the input |
| PhpStrings.ExplodeImplode | hide-this.class.php:314 | exploding the implosion of separator-free pieces gives the same pieces back (the other half of the round trip) |
| PhpStrings.Trim | hide-this.class.php:318 | the result of `trim` neither starts nor ends with space, tab, newline, carriage return, NUL or vertical tab |
| PhpStrings.TrimSplitsPadding | hide-this.class.php:318 | every string is its trimmed form surrounded by padding on both sides |
| PhpStrings.TrimUnique | hide-this.class.php:318 | a trimmed core surrounded by padding trims to exactly that core, so `trim` is determined by its contract |
| PhpStrings.TrimOfTrimmed | hide-this.class.php:318 | a string that neither starts nor ends with padding is left unchanged by `trim` |
| PhpStrings.TrimIdempotent | hide-this.class.php:318 | trimming twice equals trimming once |
| PhpStrings.StripChar | hide-this.class.php:385 | `str_replace('!', '', s)` leaves no `!`, shortens `s` by its number of `!`, and leaves a string without `!` unchanged |
| PhpStrings.StripCharConcat | hide-this.class.php:385 | removing a character distributes over concatenation |
| ViewerContext.UserField | hide-this.class.php:396-421 | exactly the three user keys select a field: `userid` the `ID`, `username` the `user_login`, `useremail` the `user_email` |
| Segments.IsNegative | hide-this.class.php:370-375 | a segment is negative exactly when it is some name written with a leading `!` |
| Segments.ExpectedValue | hide-this.class.php:357-362 | the expected value is true exactly for a segment not written as a negated one |
| Evaluators.CheckUserRole | hide-this.class.php:436-443 | a viewer without roles holds no role |
| Segments.RealName | hide-this.class.php:384-386 | the real name contains no `!` at all, not only no leading one, and a name without `!` is its own real name |
| Segments.SegmentRoundTrip | hide-this.class.php:357-386 | reading a written segment recovers its name through `real_name` and its polarity through `is_negative`/`expected_value` |
| Segments.NegatedSegment | hide-this.class.php:357-386 | a leading `!` leaves the real name unchanged and makes the expected value false |
| Evaluators.EvaluateRole | hide-this.class.php:279-288 | a plain role holds iff the viewer has it; a negated role holds iff the viewer lacks its real name |
| Evaluators.EvaluateCapability | hide-this.class.php:297-304 | a plain capability holds iff `current_user_can` grants it; a negated one holds iff it is refused |
| Evaluators.EvaluateUser | hide-this.class.php:395-428 | for a user key, the selected field equals the value's real name, or differs from it when the value is negated; any other key fails |
| Evaluators.RoleCapabilityMatches | hide-this.class.php:248-265 | the role/capability branch holds iff at least one of role and capability is truthy and every truthy one evaluates to true |
| Evaluators.EmptyRuleNeverMatches | hide-this.class.php:248-265 | the role/capability branch never holds for a rule whose role and capability are both falsy |
| Evaluators.RoleNegationFlip | hide-this.class.php:279-288 | for a role `r` without a leading `!`, `evaluate_role("!"+r)` is the negation of `evaluate_role(r)` |
| Evaluators.CapabilityNegationFlip | hide-this.class.php:297-304 | the same negation flip for `evaluate_capability` |
| Evaluators.UserNegationFlip | hide-this.class.php:395-428 | the same negation flip for the value of a user-key rule |
| HideThis.MakeAttrArray | hide-this.class.php:312-324 | a falsy attribute ("" or "0") gives null; otherwise one trimmed, comma-free entry per comma-separated piece, in order, so commas plus one entries |
| HideThis.ParseRule | hide-this.class.php:339-341 | the role is the text before the first `:`, the capability the text between the first and second `:`, or "" without a `:` |
| HideThis.ParseRuleRoundTrip | hide-this.class.php:339-341 | `role`, `role:cap` and `role:cap:extra` parse back to the written role and capability; a third piece is dropped |
| HideThis.MakeRulesArray | hide-this.class.php:333-349 | null or an empty list gives null; otherwise one parsed rule per token, same length and order |
| HideThis.HideRules | hide-this.class.php:106-112 | `for` gives null when falsy, otherwise one rule per comma-separated piece, parsed after trimming, in order |
| HideThis.ShowRules | hide-this.class.php:119-125 | the same for `exclude` |
| HideThis.Matches | hide-this.class.php:236-265 | a rule applies only if its role or capability is truthy; a passing user check makes it apply, and a failing one falls through to the role/capability check |
| HideThis.BlankRuleNeverMatches | hide-this.class.php:236-265 | a rule whose role and capability are both falsy ("" or "0") applies to nobody, user keys included |
| HideThis.FirstMatch | hide-this.class.php:226-267 | finds the first rule in list order that applies, with no applicable rule before it, or reports that none applies |
| HideThis.ProcessArray | hide-this.class.php:222-271 | the result is `altered_content` iff some rule applies (user rules falling through to the role/capability check), else `content`; null or empty rules give `content` |
| HideThis.ProcessArrayLoop | hide-this.class.php:222-271 | the loop with its `break`s and the reset of an empty running result computes exactly that outcome, so the reset is unobservable |
| HideThis.FirstMatchWins | hide-this.class.php:226-267 | once a rule applies, the rules after it cannot change the result |
| HideThis.ProcessArrayAppend | hide-this.class.php:226-267 | scanning `xs + ys` is decided by `xs` when any of its rules applies, and by `ys` otherwise |
| HideThis.SelectContent | hide-this.class.php:183-208 | `all` gives the default; `logged` gives the default iff the viewer is logged in and `!logged` iff not; any other attribute gives the default iff some rule applies; otherwise the alternative |
| HideThis.ProcessContent | hide-this.class.php:168-210 | an unknown pass name gives ""; the `inclusions` pass gives the default iff `for` names the viewer, the `exclusions` pass iff `exclude` does, else the alternative |
| HideThis.ExcludeLoggedRevealsByLoginState | hide-this.class.php:57-61 | `exclude="logged"` shows logged-in viewers the original and leaves anonymous ones with stage A's result; `exclude="!logged"` the other way round |
| HideThis.Inclusions | hide-this.class.php:50-54 | stage A gives "" to exactly the viewers `for` names, and the original to everyone else |
| HideThis.Resolve | hide-this.class.php:47-61 | after both stages the viewer sees either "" or the original content |
| HideThis.Test | hide-this.class.php:135-158 | `content` and `empty` append a verdict that reads PASSED iff the result equals the original, resp. is ""; any other criterion leaves it unchanged |
| HideThis.GetContent | hide-this.class.php:47-68 | the output is the resolved content followed by the test suffix: PASSED iff it equals the original for `test="content"`, PASSED iff it is "" for `test="empty"`, and no suffix otherwise, where it is "" or the original |
| HideThis.EmptyExcludeIsIdentity | hide-this.class.php:56-61 | with `exclude=""` the output of stage A passes through stage B unchanged |
| HideThis.ExcludeAllShowsOriginal | hide-this.class.php:57-61 | `exclude="all"` shows every viewer the original |
| HideThis.ForAllHidesFromEveryone | hide-this.class.php:50-61 | `for="all"` without exclusions shows every viewer "" |
| HideThis.ForLoggedHidesByLoginState | hide-this.class.php:187-200 | `for="logged"` hides from logged-in viewers and `for="!logged"` from anonymous ones |
| HideThis.ForRulesHideMatchingViewers | hide-this.class.php:50-54 | a rule list in `for` hides the content exactly from the viewers some rule applies to |
| HideThis.MatchingExclusionRevealsOriginal | hide-this.class.php:57-61 | an applicable `exclude` rule reveals the original whatever stage A decided |
| HideThis.FailingExclusionKeepsInclusion | hide-this.class.php:57-61 | `exclude` rules that do not apply keep stage A's result |
| HideThis.ForSingleRoleHidesHolders | hide-this.class.php:50-54 | `for` naming one plain role (as in `for="editor"`) hides the content exactly from the viewers holding that role |
| HideThis.ForNoneIsARoleName | hide-this.class.php:183-208 | the class has no `none` case: `for="none"` parses to the single role `none` and hides from viewers holding that role |
| HideThis.UserRuleMatches | hide-this.class.php:236-265 | a plain user-key rule applies to the user whose field is its value, and, falling through, to holders of a role named after the key when the value is falsy or a capability they have |
| HideThis.ForUserRuleHides | hide-this.class.php:50-61 | `for="key:x"` with a user key hides the content from exactly the viewers `UserRuleMatches` describes |
| HideThis.TestContentReportsUnchanged | hide-this.class.php:63-68 | with `test="content"` the output is the resolved content plus PASSED iff that equals the original |
| HideThisLegacy.LegacyMakeAttrArray | hide-this.php:281-293 | never null: one trimmed, comma-free entry per comma-separated piece, in order, and "" gives `[""]` |
| HideThisLegacy.LegacyParseRule | hide-this.php:314-317 | the capability is null exactly when the token has no `:`; otherwise role and capability are those of the class parser |
| HideThisLegacy.LegacyMakeRulesArray | hide-this.php:304-327 | one parsed rule per token, same length and order |
| HideThisLegacy.LegacyHideRules | hide-this.php:47 | `for` gives one rule per comma-separated piece, parsed after trimming, in order, whatever its truthiness |
| HideThisLegacy.LegacyShowRules | hide-this.php:48 | the same for `exclude` |
| HideThisLegacy.LegacyMatches | hide-this.php:185-225 | a rule applies only if its role or capability is truthy, and a rule that applies here also applies in the class version |
| HideThisLegacy.LegacyEvaluateUser | hide-this.php:389-431 | for a user key the result is true iff the class user check holds and null otherwise; any other key gives false |
| HideThisLegacy.LegacyProcessArray | hide-this.php:173-233 | the result is `altered_content` iff some rule applies, else `content` |
| HideThisLegacy.UserRuleHasNoFallThrough | hide-this.php:185-197 | a user-key rule applies iff its user check holds; roles and capabilities are never consulted for it |
| HideThisLegacy.LegacyProcessContent | hide-this.php:122-160 | `all` gives the default and `none` the alternative; `logged` gives the default iff the viewer is logged in and `!logged` iff not; any other attribute gives the default iff some rule applies |
| HideThisLegacy.LegacyExcludeLoggedRevealsByLoginState | hide-this.php:53 | `exclude="logged"` shows logged-in viewers the original and leaves anonymous ones with the first pass's result; `exclude="!logged"` the other way round |
| HideThisLegacy.LegacyForLoggedHidesByLoginState | hide-this.php:51-53 | without an exclusion, `for="logged"` hides from logged-in viewers and `for="!logged"` from anonymous ones |
| HideThisLegacy.LegacyInclusions | hide-this.php:51 | the first pass gives "" to exactly the viewers `for` names (`none` naming nobody), and the original to everyone else |
| HideThisLegacy.LegacyResolve | hide-this.php:47-53 | after both passes the viewer sees either "" or the original content |
| HideThisLegacy.LegacyTest | hide-this.php:71-109 | as the class test, except that `empty` passes for any falsy result, "0" included |
| HideThisLegacy.LegacyHideThis | hide-this.php:33-59 | the output is the resolved content followed by the `ht_test` suffix: PASSED iff it equals the original for `test="content"`, PASSED iff it is falsy for `test="empty"`, and no suffix otherwise, where it is "" or the original |
| HideThisLegacy.LegacyEmptyExcludeIsIdentity | hide-this.php:48-53 | `exclude=""` parses to the one rule (role "", capability null), which applies to nobody, so the second pass changes nothing |
| HideThisLegacy.LegacyForNoneShowsOriginal | hide-this.php:129-133 | `for="none"` keeps the original in the first pass, and with no exclusion the viewer sees the original |
| HideThisLegacy.LegacyExcludeNoneKeepsInclusion | hide-this.php:129-133 | `exclude="none"` keeps the first pass's result |
| HideThisLegacy.LegacyExcludeAllShowsOriginal | hide-this.php:124-126 | `exclude="all"` shows every viewer the original |
| HideThisLegacy.LegacyDefaultHidesFromEveryone | hide-this.php:40-55 | the default attributes show every viewer "" |
| HideThisLegacy.LegacyForRulesHideMatchingViewers | hide-this.php:47-53 | a rule list in `for` hides the content exactly from the viewers some rule applies to |
| HideThisLegacy.LegacyMatchingExclusionRevealsOriginal | hide-this.php:53 | an applicable `exclude` rule reveals the original |
| HideThisLegacy.LegacyUserRuleMatches | hide-this.php:185-197 | a plain user-key rule applies to exactly the user whose field is its value |
| HideThisLegacy.LegacyForUserRuleHides | hide-this.php:47-53 | `for="key:x"` with a user key hides the content from exactly the user whose field is `x` |
| HideThisLegacy.LegacyEmptyTestAcceptsZero | hide-this.php:88-97 | the `empty` test passes on the content "0" |
| Versions.ParseRuleAgrees | hide-this.php:314-317 | both parsers agree on every token, up to null versus "" for a missing capability |
| Versions.AttrArrayAgrees | hide-this.php:281-293 | for a truthy attribute both versions split it into the same tokens |
| Versions.ParsingAgrees | hide-this.php:304-327 | for a truthy attribute the class rule list is the free-function list with null read as "" |
| Versions.MatchesAgree | hide-this.php:185-225 | outside user keys both versions apply a rule alike; a user-key rule that applies in the free-function version also applies in the class version |
| Versions.UserFallThroughDiffers | hide-this.class.php:236-265 | a viewer with id 7, the role `userid` and capability `42` matches `userid:42` in the class version only |
| Versions.ForNoneDiffers | hide-this.php:129-133 | `for="none"` hides from a viewer with role `none` in the class version and from nobody in the free-function version |
| Versions.EmptyTestDiffersOnZero | hide-this.php:88-97 | on the content "0" the `empty` test fails in the class version and passes in the free-function version |
| Versions.ListMatchesAgree | hide-this.php:173-233 | a rule list without user keys applies in one version iff it applies in the other |
| Versions.FalsyAttributeMatchesNobody | hide-this.php:281-327 | a falsy attribute gives the class version no rules and the free-function version a single rule that applies to nobody |
| Versions.AnyMatchesAgree | hide-this.php:173-233 | both versions' rule lists for one attribute apply to the same viewers when no rule has a user key |
| Versions.PassAgrees | hide-this.php:122-160 | one pass returns the same content in both versions for any attribute other than `none` without user-key rules |
| Versions.ForUserIdHidesThatUser | hide-this.class.php:401-407 | `for="userid:x"` hides from the user with `ID` x in both versions, and in the class version also from holders of the role `userid` when x is falsy or a capability they have |
| Versions.ForUserNameHidesThatUser | hide-this.class.php:408-414 | the same for `username` and the `user_login` field |
| Versions.ForUserEmailHidesThatUser | hide-this.class.php:415-421 | the same for `useremail` and the `user_email` field |
| Versions.ResolveAgrees | hide-this.php:47-53 | away from `none` and user-key rules both versions show every viewer the same content |

## Left out

- The WordPress host: `is_user_logged_in`, `wp_get_current_user` and `current_user_can` become fields of the `Viewer` record. What the host stores for a logged-out visitor is whatever the record says.
- `shortcode_atts`, `add_shortcode` and the loader class `Hide_This_Loader`: registration and attribute defaulting belong to the host. `Attributes` holds the already defaulted values, and `DefaultAttributes` gives the defaults.
- `do_shortcode` and the filters `hide_this_attributes`, `hide_this_hide_rules`, `hide_this_show_rules` and `hide_this_content` are treated as the identity. Because of this the rule lists are always built from the attributes, and `is_array` on them is the `Option` case.
- The magic accessors `__get`/`__set` and the constructor wiring have no logic. `get_content` is modelled as a function of the attributes.
- PHP's loose `==` is modelled as string equality. This covers the integer user `ID` compared with a string, numeric strings such as `"1e1" == "10"`, and the comparisons made by `in_array`.
- For the `content` test the simplification changes nothing. The compared result is "" or the original, and "" is not a numeric string, so loose and strict equality agree on such a pair.
- PHP `null` passed to `substr` and `str_replace` (the capability of a token without `:` in `ht_evaluate_user`) is read as "" (`NullToString`). The deprecation notices and the "undefined offset" notice are not modelled.
- PHP strings are byte strings; the model uses sequences of characters. Every character the engine inspects (`,`, `:`, `!` and the trim set) is ASCII, so splitting, trimming and negation act on the same positions either way.
