/**
 * The shared icon helpers of the simple travel card: the mode-to-icon
 * classifier `modeIcon` and the two fixed icon names.
 */
module Icons {
  import opened JsString
  import opened Wrappers
  import opened KeywordRules

  const ArrowRight: string := "mdi:chevron-right"
  const MapMarker: string := "mdi:map-marker"

  const WalkIcon: string := "mdi:walk"
  const BusIcon: string := "mdi:bus"
  const TrainIcon: string := "mdi:train"
  const SubwayIcon: string := "mdi:subway"
  const TramIcon: string := "mdi:tram"
  const FerryIcon: string := "mdi:ferry"
  const CarIcon: string := "mdi:car"
  const FallbackIcon: string := "mdi:map-marker-path"

  /** The rules of `modeIcon`, in the order they are tried. */
  const ModeRules: seq<Rule> := [
    Rule([Keyword("walk"), Keyword("foot"), Keyword("gå")], WalkIcon),
    Rule([Keyword("bus"), Keyword("buss")], BusIcon),
    Rule([Keyword("train"), Keyword("tå"), Keyword("rail")], TrainIcon),
    Rule([Keyword("metro"), Keyword("subway"), Keyword("tunnelbana")], SubwayIcon),
    Rule([Keyword("tram"), Keyword("spårvagn")], TramIcon),
    Rule([Keyword("ferry"), Keyword("boat"), Keyword("båt")], FerryIcon),
    Rule([Keyword("car"), Keyword("bil"), Keyword("taxi")], CarIcon)
  ]

  /** The eight names `modeIcon` can return. */
  const ModeIcons: set<string> :=
    {WalkIcon, BusIcon, TrainIcon, SubwayIcon, TramIcon, FerryIcon, CarIcon, FallbackIcon}

  /**
   * `modeIcon(typeRaw)`: the input (missing counts as empty) is lowercased and
   * the icon of the first matching rule is returned, or the generic path icon.
   */
  function ModeIcon(typeRaw: Option<string>): (r: string)
    ensures r in ModeIcons
    ensures var t := Lower(if typeRaw.Some? then typeRaw.value else "");
      r == FallbackIcon <==> forall i :: 0 <= i < |ModeRules| ==> !RuleMatches(ModeRules[i], t)
  {
    var t := Lower(if typeRaw.Some? then typeRaw.value else "");
    ModeRulesResults();
    FirstMatchIn(ModeRules, t, FallbackIcon, ModeIcons);
    FirstMatchIsFallback(ModeRules, t, FallbackIcon);
    FirstMatch(ModeRules, t, FallbackIcon)
  }

  /** Each rule returns one of the icon names, and none returns the generic one. */
  lemma ModeRulesResults()
    ensures ResultsIn(ModeRules, ModeIcons)
    ensures forall i :: 0 <= i < |ModeRules| ==> ModeRules[i].result != FallbackIcon
  {
    assert |FallbackIcon| == 19;
  }

  /** The icon is that of the earliest rule matching the lowercased input. */
  lemma ModeIconFirstRule(typeRaw: string, k: nat)
    requires k < |ModeRules|
    requires RuleMatches(ModeRules[k], Lower(typeRaw))
    requires forall j :: 0 <= j < k ==> !RuleMatches(ModeRules[j], Lower(typeRaw))
    ensures ModeIcon(Some(typeRaw)) == ModeRules[k].result
  {
  }

  /** Upper and lower case do not matter. */
  lemma ModeIconIgnoresCase(s: string)
    ensures ModeIcon(Some(s)) == ModeIcon(Some(Lower(s)))
  {
    LowerIdempotent(s);
  }

  /** Empty and missing input give the generic path icon. */
  lemma ModeIconEmpty()
    ensures ModeIcon(None) == FallbackIcon
    ensures ModeIcon(Some("")) == FallbackIcon
  {
    forall i | 0 <= i < |ModeRules|
      ensures !RuleMatches(ModeRules[i], "")
    {
      forall p | 0 <= p < |ModeRules[i].patterns|
        ensures !PatternMatches(ModeRules[i].patterns[p], "")
      {
        assert |ModeRules[i].patterns[p].word| > 0;
      }
    }
  }

  /** A walking keyword wins over every other mode named in the same string. */
  lemma ModeIconWalkFirst(s: string)
    requires Contains(Lower(s), "walk") || Contains(Lower(s), "foot") || Contains(Lower(s), "gå")
    ensures ModeIcon(Some(s)) == WalkIcon
  {
    var t := Lower(s);
    var i := if Contains(t, "walk") then 0 else if Contains(t, "foot") then 1 else 2;
    assert PatternMatches(ModeRules[0].patterns[i], t);
    assert RuleMatches(ModeRules[0], t);
  }

  /** Swedish "tåg" (train) is recognised through "tå" unless an earlier rule matches. */
  lemma ModeIconTrainSwedish(s: string)
    requires Contains(Lower(s), "tåg")
    requires !RuleMatches(ModeRules[0], Lower(s)) && !RuleMatches(ModeRules[1], Lower(s))
    ensures ModeIcon(Some(s)) == TrainIcon
  {
    var t := Lower(s);
    ContainsAt("tåg", "tå", 0);
    ContainsTrans(t, "tåg", "tå");
    assert PatternMatches(ModeRules[2].patterns[1], t);
  }
}
