/**
 * Ordered keyword tables. The cards classify a transport-mode string with a
 * chain of `if (/(a|b|c)/.test(t)) return X;` tests: each regular expression is
 * an alternation of plain words, so it matches exactly when the string contains
 * one of them, and the first rule that matches decides. The one pattern that is
 * not a plain word is `express\s*bus`.
 */
module KeywordRules {
  import opened JsString

  /** One alternative of a rule's regular expression. */
  datatype Pattern =
    | Keyword(word: string)   // a literal word, found anywhere in the string
    | ExpressSpaceBus         // `express\s*bus`

  /** A regular expression `(p1|p2|...)` and the value returned when it matches. */
  datatype Rule = Rule(patterns: seq<Pattern>, result: string)

  /** `\s*bus` matches at the start of t. */
  predicate SpacesThenBus(t: string)
    decreases |t|
  {
    StartsWith(t, "bus") || (|t| > 0 && IsJsSpace(t[0]) && SpacesThenBus(t[1..]))
  }

  /** `express\s*bus` matches somewhere in s. */
  predicate ExpressBusIn(s: string)
    decreases |s|
  {
    (StartsWith(s, "express") && SpacesThenBus(s[7..])) || (|s| > 0 && ExpressBusIn(s[1..]))
  }

  predicate PatternMatches(p: Pattern, s: string)
  {
    match p
    case Keyword(w) => Contains(s, w)
    case ExpressSpaceBus => ExpressBusIn(s)
  }

  /** The rule's regular expression finds a match in s. */
  predicate RuleMatches(rule: Rule, s: string)
  {
    exists i :: 0 <= i < |rule.patterns| && PatternMatches(rule.patterns[i], s)
  }

  /** A `\s*bus` match contains "bus". */
  lemma {:induction false} SpacesThenBusContainsBus(t: string)
    requires SpacesThenBus(t)
    ensures Contains(t, "bus")
    decreases |t|
  {
    if !StartsWith(t, "bus") {
      SpacesThenBusContainsBus(t[1..]);
    }
  }

  /** Every string `express\s*bus` matches also contains "bus". */
  lemma {:induction false} ExpressBusContainsBus(s: string)
    requires ExpressBusIn(s)
    ensures Contains(s, "bus")
    decreases |s|
  {
    if StartsWith(s, "express") && SpacesThenBus(s[7..]) {
      SpacesThenBusContainsBus(s[7..]);
      ContainsInSuffix(s, 7, "bus");
    } else {
      ExpressBusContainsBus(s[1..]);
    }
  }

  /** The position of the first rule that matches s, or |rules| when none does. */
  function MatchIndex(rules: seq<Rule>, s: string): (k: nat)
    ensures k <= |rules|
    ensures forall j :: 0 <= j < k ==> !RuleMatches(rules[j], s)
    ensures k < |rules| ==> RuleMatches(rules[k], s)
    decreases |rules|
  {
    if |rules| == 0 then 0
    else if RuleMatches(rules[0], s) then 0
    else 1 + MatchIndex(rules[1..], s)
  }

  /** The result of the first rule that matches s, or the fallback when none does. */
  function FirstMatch(rules: seq<Rule>, s: string, fallback: string): (r: string)
    ensures forall i :: 0 <= i < |rules| && RuleMatches(rules[i], s) && (forall j :: 0 <= j < i ==> !RuleMatches(rules[j], s))
              ==> r == rules[i].result
    ensures (forall i :: 0 <= i < |rules| ==> !RuleMatches(rules[i], s)) ==> r == fallback
  {
    var k := MatchIndex(rules, s);
    if k < |rules| then rules[k].result else fallback
  }

  /** Every result of the table lies in S. */
  predicate ResultsIn(rules: seq<Rule>, S: set<string>)
  {
    forall i :: 0 <= i < |rules| ==> rules[i].result in S
  }

  /** A table whose results and fallback lie in S always answers in S. */
  lemma FirstMatchIn(rules: seq<Rule>, s: string, fallback: string, S: set<string>)
    requires fallback in S && ResultsIn(rules, S)
    ensures FirstMatch(rules, s, fallback) in S
  {
    var k := MatchIndex(rules, s);
  }

  /** A table whose results and fallback are non-empty always answers a non-empty string. */
  lemma FirstMatchNonEmpty(rules: seq<Rule>, s: string, fallback: string)
    requires fallback != "" && forall i :: 0 <= i < |rules| ==> rules[i].result != ""
    ensures FirstMatch(rules, s, fallback) != ""
  {
    var k := MatchIndex(rules, s);
  }

  /** When no rule returns the fallback, the fallback is returned exactly when no rule matches. */
  lemma FirstMatchIsFallback(rules: seq<Rule>, s: string, fallback: string)
    requires forall i :: 0 <= i < |rules| ==> rules[i].result != fallback
    ensures FirstMatch(rules, s, fallback) == fallback <==> forall i :: 0 <= i < |rules| ==> !RuleMatches(rules[i], s)
  {
    var k := MatchIndex(rules, s);
  }

  /** A rule containing the keyword w matches every string containing w. */
  lemma KeywordRuleMatches(rule: Rule, i: nat, s: string)
    requires i < |rule.patterns| && rule.patterns[i].Keyword? && Contains(s, rule.patterns[i].word)
    ensures RuleMatches(rule, s)
  {
    assert PatternMatches(rule.patterns[i], s);
  }

  /** Two tables with the same patterns in the same order pick the same rule for every string. */
  lemma {:induction false} MatchIndexSamePatterns(a: seq<Rule>, b: seq<Rule>, s: string)
    requires |a| == |b|
    requires forall i :: 0 <= i < |a| ==> a[i].patterns == b[i].patterns
    ensures MatchIndex(a, s) == MatchIndex(b, s)
    decreases |a|
  {
    if |a| > 0 {
      assert RuleMatches(a[0], s) == RuleMatches(b[0], s);
      MatchIndexSamePatterns(a[1..], b[1..], s);
    }
  }
}
