/**
 * What the Trafiklab travel card derives for display: the icon and label of
 * each leg, the icons of the two endpoints, the compressed row of leg columns
 * (`_renderTripRow`), the duration and time formatters, the total duration,
 * the card size and the number of trips shown. Markup and styling are not
 * modelled; a row is the sequence of columns, ellipses and arrows it shows.
 */
module TrafiklabView {
  import opened JsString
  import opened JsNum
  import opened JsValue
  import opened Wrappers
  import opened KeywordRules
  import Icons
  import opened TrafiklabData
  import MapLinks

  // ---------------------------------------------------------------- icons

  const SubwayVariantIcon: string := "mdi:subway-variant"
  const TaxiIcon: string := "mdi:taxi"

  const BusRule: Rule :=
    Rule([Keyword("bus"), Keyword("buss"), ExpressSpaceBus, Keyword("expressbuss")], Icons.BusIcon)
  const TrainRule: Rule := Rule([Keyword("train"), Keyword("tåg"), Keyword("rail")], Icons.TrainIcon)

  /** The rules of `_iconForType`, in the order they are tried. */
  const TypeRules: seq<Rule> := [
    Rule([Keyword("walk"), Keyword("foot"), Keyword("gång")], Icons.WalkIcon),
    BusRule,
    TrainRule,
    Rule([Keyword("metro"), Keyword("subway"), Keyword("tunnelbana")], SubwayVariantIcon),
    Rule([Keyword("tram"), Keyword("spårvagn")], Icons.TramIcon),
    Rule([Keyword("ferry"), Keyword("boat"), Keyword("båt")], Icons.FerryIcon),
    Rule([Keyword("car"), Keyword("bil"), Keyword("taxi")], TaxiIcon)
  ]

  /** The eight names `_iconForType` can return. */
  const TypeIcons: set<string> := {
    Icons.WalkIcon, Icons.BusIcon, Icons.TrainIcon, SubwayVariantIcon,
    Icons.TramIcon, Icons.FerryIcon, TaxiIcon, Icons.FallbackIcon
  }

  /**
   * `_iconForType`: undefined for a missing or empty type, otherwise the icon
   * of the first rule matching the lowercased type, or the generic path icon.
   */
  function IconForType(t: Option<string>): (r: Option<string>)
    ensures r.None? <==> t.None? || t.value == ""
    ensures r.Some? ==> r.value in TypeIcons
    ensures r.Some? ==>
      (r.value == Icons.FallbackIcon <==> forall i :: 0 <= i < |TypeRules| ==> !RuleMatches(TypeRules[i], Lower(t.value)))
  {
    if t.None? || t.value == "" then None
    else
      TypeRulesResults();
      FirstMatchIn(TypeRules, Lower(t.value), Icons.FallbackIcon, TypeIcons);
      FirstMatchIsFallback(TypeRules, Lower(t.value), Icons.FallbackIcon);
      Some(FirstMatch(TypeRules, Lower(t.value), Icons.FallbackIcon))
  }

  /** A type gets the icon of the earliest rule its lowercased form matches: walk, bus, train, metro, tram, ferry, car. */
  lemma IconForTypeFirstRule(s: string, k: nat)
    requires k < |TypeRules|
    requires RuleMatches(TypeRules[k], Lower(s))
    requires forall j :: 0 <= j < k ==> !RuleMatches(TypeRules[j], Lower(s))
    ensures IconForType(Some(s)) == Some(TypeRules[k].result)
  {
  }

  /** Each rule returns one of the icon names, and none returns the generic one. */
  lemma TypeRulesResults()
    ensures ResultsIn(TypeRules, TypeIcons)
    ensures forall i :: 0 <= i < |TypeRules| ==> TypeRules[i].result != Icons.FallbackIcon
  {
    assert |Icons.FallbackIcon| == 19;
  }

  /** The bus rule, with its `express\s*bus` and `expressbuss` alternatives, matches exactly the strings containing "bus". */
  lemma BusRuleIsBus(t: string)
    ensures RuleMatches(BusRule, t) <==> Contains(t, "bus")
  {
    if Contains(t, "bus") {
      assert PatternMatches(BusRule.patterns[0], t);
    }
    if RuleMatches(BusRule, t) {
      var i :| 0 <= i < 4 && PatternMatches(BusRule.patterns[i], t);
      if i == 1 {
        ContainsAt("buss", "bus", 0);
        ContainsTrans(t, "buss", "bus");
      } else if i == 2 {
        ExpressBusContainsBus(t);
      } else if i == 3 {
        assert "expressbuss"[7..10] == "bus";
        ContainsAt("expressbuss", "bus", 7);
        ContainsTrans(t, "expressbuss", "bus");
      }
    }
  }

  /** Only the first rule returns the walk icon. */
  lemma WalkIconOnlyFirst()
    ensures forall i :: 1 <= i < |TypeRules| ==> TypeRules[i].result != Icons.WalkIcon
    ensures Icons.FallbackIcon != Icons.WalkIcon
  {
    assert |Icons.WalkIcon| == 8;
  }

  /** Whatever this card shows as walking, the shared `modeIcon` shows as walking too ("gång" contains "gå"). */
  lemma WalkIconAgrees(s: string)
    requires IconForType(Some(s)) == Some(Icons.WalkIcon)
    ensures Icons.ModeIcon(Some(s)) == Icons.WalkIcon
  {
    WalkTypeMatchesFirst(Lower(s));
    WalkKeywords(Lower(s));
    Icons.ModeIconWalkFirst(s);
  }

  /** Only the first rule gives the walking icon. */
  lemma WalkTypeMatchesFirst(t: string)
    requires FirstMatch(TypeRules, t, Icons.FallbackIcon) == Icons.WalkIcon
    ensures RuleMatches(TypeRules[0], t)
  {
    WalkIconOnlyFirst();
    var k := MatchIndex(TypeRules, t);
    assert k == 0;
  }

  /** The walking rule's keywords all contain "walk", "foot" or "gå". */
  lemma WalkKeywords(t: string)
    requires RuleMatches(TypeRules[0], t)
    ensures Contains(t, "walk") || Contains(t, "foot") || Contains(t, "gå")
  {
    if !Contains(t, "walk") && !Contains(t, "foot") {
      assert PatternMatches(TypeRules[0].patterns[2], t);
      ContainsAt("gång", "gå", 0);
      ContainsTrans(t, "gång", "gå");
    }
  }

  /**
   * `_iconForEndpoint`: the map marker for a coordinate endpoint, otherwise a
   * train-and-bus icon when the boundary leg's type names a train, else a bus stop.
   */
  function IconForEndpoint(isCoord: bool, legType: Option<string>): (r: string)
    ensures isCoord ==> r == Icons.MapMarker
    ensures !isCoord ==>
      (r == "mdi:train-bus" <==> RuleMatches(TrainRule, Lower(if legType.Some? then legType.value else "")))
    ensures r in {Icons.MapMarker, "mdi:train-bus", "mdi:bus-stop-uncovered"}
  {
    if isCoord then Icons.MapMarker
    else
      var t := Lower(if legType.Some? then legType.value else "");
      if RuleMatches(TrainRule, t) then "mdi:train-bus" else "mdi:bus-stop-uncovered"
  }

  // ---------------------------------------------------------------- leg labels

  /** `_isWalk`: the leg's `category || type`, lowercased, mentions walking. */
  predicate IsWalk(leg: JValue)
  {
    var c := Lower(ToStr(Or(Get(leg, "category"), Or(Get(leg, "type"), JStr("")))));
    Contains(c, "walk") || Contains(c, "gång")
  }

  /**
   * A leg whose type is given only by `mode` has that type, and can get the
   * walking icon from it, but is never treated as a walk.
   */
  lemma IsWalkIgnoresMode(leg: map<string, JValue>, m: string)
    requires "category" !in leg && "type" !in leg && "mode" in leg && leg["mode"] == JStr(m) && m != ""
    ensures LegType(JObj(leg)) == Some(Lower(m))
    ensures !IsWalk(JObj(leg))
  {
    var c := LegTypeCandidates(JObj(leg));
    assert !Truthy(c[0]) && !Truthy(c[1]) && Truthy(c[2]);
    assert LowerText(c[2]) == Some(Lower(m));
    assert |Lower(ToStr(JStr("")))| == 0;
  }

  /**
   * `_metersLabel`: undefined for undefined/null, for a value whose number is
   * not finite and for a value that is not positive; otherwise the rounded
   * number of meters followed by " m".
   */
  function MetersLabel(m: JValue): (r: Option<string>)
    ensures r.Some? <==> !Nullish(m) && ToNumber(m).Fin? && ToNumber(m).x > 0.0
    ensures r.Some? ==>
      (|r.value| >= 3 && r.value[|r.value| - 2..] == " m" && AllDigitsIn(r.value[..|r.value| - 2], 10))
  {
    if Nullish(m) then None
    else
      var n := ToNumber(m);
      if !n.Fin? || n.x <= 0.0 then None
      else
        var k: nat := Round(n.x);
        Some(NatToDecimal(k) + " m")
  }

  /** The number written in a meters label reads back as the distance rounded to the nearest meter. */
  lemma MetersLabelReadsBack(m: JValue)
    requires MetersLabel(m).Some?
    ensures var s := MetersLabel(m).value;
      var k := StringToNumber(s[..|s| - 2]);
      k.Fin? && ToNumber(m).x - 0.5 < k.x <= ToNumber(m).x + 0.5
  {
    var n := ToNumber(m);
    var k: nat := Round(n.x);
    var s := MetersLabel(m).value;
    assert s[..|s| - 2] == NatToDecimal(k);
    NatToStringIsDecimal(k);
    NatRoundTrip(k);
  }

  /**
   * The label of a leg column (`_renderLegColumn`): "Transfer" when the leg
   * type mentions a transfer, else the meters label for a walk, else the line.
   */
  function LegLabel(leg: JValue): (r: Option<string>)
    ensures LegType(leg).Some? && Contains(LegType(leg).value, "transfer") ==> r == Some("Transfer")
    ensures !(LegType(leg).Some? && Contains(LegType(leg).value, "transfer")) && IsWalk(leg) ==>
      r == MetersLabel(Get(leg, "distance"))
    ensures !(LegType(leg).Some? && Contains(LegType(leg).value, "transfer")) && !IsWalk(leg) ==>
      r == LegLine(leg)
  {
    var t := LegType(leg);
    if t.Some? && Contains(t.value, "transfer") then Some("Transfer")
    else if IsWalk(leg) then MetersLabel(Get(leg, "distance"))
    else LegLine(leg)
  }

  /** A walk leg that is not a transfer is labelled with a distance or nothing, never with its line. */
  lemma WalkLegShowsMeters(leg: JValue)
    requires IsWalk(leg) && !(LegType(leg).Some? && Contains(LegType(leg).value, "transfer"))
    ensures LegLabel(leg).None? || LegLabel(leg).value[|LegLabel(leg).value| - 2..] == " m"
  {
  }

  // ---------------------------------------------------------------- row layout

  /** One thing shown in a trip row between the two endpoints. */
  datatype Slot =
    | Column(index: nat, hasNext: bool)  // `_renderLegColumn(legsAll[index], hasNext)`: a leg, then an arrow if hasNext
    | Dots                               // an ellipsis marking elided legs
    | Arrow                              // a lone arrow between the ellipses

  /** `Math.max(1, Number(max_legs ?? 12))` */
  function LegCap(maxLegsRaw: JValue): (r: Num)
    ensures r == NaN || LessEq(Fin(1.0), r)
    ensures maxLegsRaw == JUndefined ==> r == Fin(12.0)
  {
    Max(Fin(1.0), ToNumber(Coalesce(maxLegsRaw, JNum(Fin(12.0)))))
  }

  /** A numeric max_legs is used as it is, raised to at least 1. */
  lemma LegCapNumber(x: real)
    ensures LegCap(JNum(Fin(x))) == Max(Fin(1.0), Fin(x))
  {
    assert Coalesce(JNum(Fin(x)), JNum(Fin(12.0))) == JNum(Fin(x));
  }

  /** `legsAll.length <= maxLegs` */
  predicate Fits(total: nat, cap: Num)
  {
    LessEq(Fin(total as real), cap)
  }

  /** Columns for legs lo..hi-1; the last one has an arrow only when `arrowAfterLast`. */
  function Columns(lo: nat, hi: nat, arrowAfterLast: bool): (r: seq<Slot>)
    requires lo <= hi
    ensures |r| == hi - lo
    ensures forall k :: 0 <= k < |r| ==> r[k].Column? && r[k].index == lo + k
    ensures forall k :: 0 <= k < |r| ==> (r[k].hasNext <==> k < |r| - 1 || arrowAfterLast)
    decreases hi - lo
  {
    if lo == hi then [] else [Column(lo, lo < hi - 1 || arrowAfterLast)] + Columns(lo + 1, hi, arrowAfterLast)
  }

  /** `Math.max(2, maxLegs) - 2`: the legs shown besides the first and the last. */
  function ExtraBudget(cap: Num): Num
  {
    Sub(Max(Fin(2.0), cap), Fin(2.0))
  }

  /** `Math.floor(extra / 2)` */
  function LeftExtra(extra: Num): Num
  {
    Floor(Scale(extra, 0.5))
  }

  /** `extra - leftExtra` */
  function RightExtra(extra: Num): Num
  {
    Sub(extra, LeftExtra(extra))
  }

  /** The number of legs shown left of the ellipses: `legsAll.slice(0, leftEndIndex + 1).length`. */
  function LeftCount(total: nat, leftExtra: Num): (r: nat)
    ensures r <= total
  {
    RelativeIndex(Add(Add(Fin(0.0), leftExtra), Fin(1.0)), total)
  }

  /** Where the legs right of the ellipses start: the start index of `legsAll.slice(rightStartIndex)`. */
  function RightStart(total: nat, rightExtra: Num): (r: nat)
    ensures r <= total
  {
    RelativeIndex(Sub(Sub(Fin(total as real), Fin(1.0)), rightExtra), total)
  }

  /**
   * Which legs a trip row shows: the first `count` legs, or the legs
   * 0..leftCount-1 and rightStart..total-1 with the ellipses between them.
   */
  datatype Layout = Every(count: nat) | Gap(leftCount: nat, rightStart: nat)

  /** `legsAll.length <= maxLegs` picks every leg up to the cap; otherwise the budget is split around the ellipses. */
  function RowLayout(total: nat, cap: Num): (r: Layout)
    ensures r.Every? <==> Fits(total, cap)
    ensures r.Every? ==> r.count <= total
    ensures r.Gap? ==> r.leftCount <= total && r.rightStart <= total
  {
    if Fits(total, cap) then Every(RelativeIndex(cap, total)) else SplitAt(total, ExtraBudget(cap))
  }

  /** The split for the budget `extra`: `leftEndIndex + 1` legs on the left, from `rightStartIndex` on the right. */
  function SplitAt(total: nat, extra: Num): (r: Layout)
    ensures r.Gap? && r.leftCount <= total && r.rightStart <= total
  {
    Gap(LeftCount(total, LeftExtra(extra)), RightStart(total, RightExtra(extra)))
  }

  /** The slots of a layout: the leg columns, and for a split the two ellipsis-arrow pairs between the parts. */
  function Render(layout: Layout, total: nat): seq<Slot>
    requires layout.Gap? ==> layout.rightStart <= total
  {
    match layout
    case Every(n) => Columns(0, n, false)
    case Gap(l, rs) => Columns(0, l, true) + [Dots, Arrow, Dots, Arrow] + Columns(rs, total, false)
  }

  /** The middle of a trip row for a trip with `total` legs and the leg cap `cap`. */
  function RowSlots(total: nat, cap: Num): seq<Slot>
  {
    Render(RowLayout(total, cap), total)
  }

  /** The number of ellipses in a row. */
  function DotCount(s: seq<Slot>): nat
    decreases |s|
  {
    if |s| == 0 then 0 else (if s[0] == Dots then 1 else 0) + DotCount(s[1..])
  }

  lemma {:induction false} DotCountAppend(a: seq<Slot>, b: seq<Slot>)
    ensures DotCount(a + b) == DotCount(a) + DotCount(b)
    decreases |a|
  {
    if |a| == 0 {
      assert a + b == b;
    } else {
      assert (a + b)[0] == a[0] && (a + b)[1..] == a[1..] + b;
      DotCountAppend(a[1..], b);
    }
  }

  lemma {:induction false} DotCountColumns(s: seq<Slot>)
    requires forall k :: 0 <= k < |s| ==> s[k].Column?
    ensures DotCount(s) == 0
    decreases |s|
  {
    if |s| > 0 {
      DotCountColumns(s[1..]);
    }
  }

  /** When the legs fit under the cap, every leg is shown in order, with an arrow after all but the last, and no ellipsis. */
  lemma RowWithinCap(total: nat, cap: Num)
    requires Fits(total, cap)
    ensures RowLayout(total, cap) == Every(total)
    ensures RowSlots(total, cap) == Columns(0, total, false)
    ensures DotCount(RowSlots(total, cap)) == 0
  {
    assert RelativeIndex(cap, total) == total;
    DotCountColumns(Columns(0, total, false));
  }

  /** Halving a natural number on reals and rounding down gives its integer half. */
  lemma HalfFloor(e: nat, q: nat)
    requires e == 2 * q || e == 2 * q + 1
    ensures ((e as real) * 0.5).Floor == q
  {
    assert (e as real) * 0.5 == q as real + (e - 2 * q) as real * 0.5;
  }

  lemma LeftExtraValue(e: nat, q: nat)
    requires e == 2 * q || e == 2 * q + 1
    ensures LeftExtra(Fin(e as real)) == Fin(q as real)
  {
    HalfFloor(e, q);
    assert Scale(Fin(e as real), 0.5) == Fin((e as real) * 0.5);
  }

  lemma RightExtraValue(e: nat, q: nat, rx: nat)
    requires (e == 2 * q || e == 2 * q + 1) && rx == e - q
    ensures RightExtra(Fin(e as real)) == Fin(rx as real)
  {
    LeftExtraValue(e, q);
    AddSubFin(e as real, q as real);
  }

  lemma LeftCountValue(total: nat, q: nat)
    requires q + 1 <= total
    ensures LeftCount(total, Fin(q as real)) == q + 1
  {
    AddSubFin(0.0, q as real);
    AddSubFin(q as real, 1.0);
    RelativeIndexNat(q + 1, total);
  }

  lemma RightStartValue(total: nat, rx: nat)
    requires rx + 1 <= total
    ensures RightStart(total, Fin(rx as real)) == total - 1 - rx
  {
    AddSubFin(total as real, 1.0);
    AddSubFin((total - 1) as real, rx as real);
    RelativeIndexNat(total - 1 - rx, total);
  }

  /**
   * With the budget e = max(2, cap) - 2 and at least e + 2 legs, e is split
   * into q = floor(e / 2) legs after the first and e - q before the last.
   */
  lemma ElidedCounts(total: nat, e: nat, q: nat)
    requires total >= e + 2 && (e == 2 * q || e == 2 * q + 1)
    ensures LeftCount(total, LeftExtra(Fin(e as real))) == q + 1
    ensures RightStart(total, RightExtra(Fin(e as real))) == total - 1 - (e - q)
  {
    LeftExtraValue(e, q);
    RightExtraValue(e, q, e - q);
    LeftCountValue(total, q);
    RightStartValue(total, e - q);
  }

  /** The elided row has exactly two ellipses. */
  lemma ElidedDots(lc: nat, rs: nat, total: nat)
    requires rs <= total
    ensures DotCount(Render(Gap(lc, rs), total)) == 2
  {
    var left := Columns(0, lc, true);
    var right := Columns(rs, total, false);
    DotCountAppend(left + [Dots, Arrow, Dots, Arrow], right);
    DotCountAppend(left, [Dots, Arrow, Dots, Arrow]);
    DotCountColumns(left);
    DotCountColumns(right);
  }

  /** Over an integer cap m the budget is max(2, m) - 2 and the trip has at least max(2, m) legs. */
  lemma OverCapBudget(total: nat, m: int)
    requires !Fits(total, Max(Fin(1.0), Fin(m as real)))
    ensures var d := if m < 2 then 2 else m;
      ExtraBudget(Max(Fin(1.0), Fin(m as real))) == Fin((d - 2) as real) && total >= d
  {
    var d := if m < 2 then 2 else m;
    var c: real := if 1.0 <= m as real then m as real else 1.0;
    MaxFin(1.0, m as real);
    MaxFin(2.0, c);
    AddSubFin(d as real, 2.0);
  }

  /**
   * When the legs exceed an integer cap m, the row keeps legs 0..leftExtra
   * and total-1-rightExtra..total-1, where the budget max(2, m) minus the
   * first and last leg is split with the right side getting the odd one:
   * the sides are ordered and disjoint, the first and last legs are shown,
   * and exactly max(2, m) legs are shown.
   */
  lemma RowOverCap(total: nat, m: int)
    requires !Fits(total, Max(Fin(1.0), Fin(m as real)))
    ensures var d := if m < 2 then 2 else m;
      var leftExtra := (d - 2) / 2;
      var rightExtra := (d - 2) - leftExtra;
      && leftExtra <= rightExtra <= leftExtra + 1
      && leftExtra + 1 <= total - 1 - rightExtra < total
      && (leftExtra + 1) + (rightExtra + 1) == d
      && RowLayout(total, Max(Fin(1.0), Fin(m as real))) == Gap(leftExtra + 1, total - 1 - rightExtra)
  {
    var d := if m < 2 then 2 else m;
    OverCapBudget(total, m);
    SplitBudget(d);
    RowOverBudget(total, Max(Fin(1.0), Fin(m as real)), d - 2, (d - 2) / 2,
      (d - 2) / 2 + 1, total - 1 - ((d - 2) - (d - 2) / 2));
  }

  /** The same for any cap whose budget is e = 2 * q or 2 * q + 1. */
  lemma RowOverBudget(total: nat, cap: Num, e: nat, q: nat, leftCount: nat, rightStart: nat)
    requires !Fits(total, cap) && ExtraBudget(cap) == Fin(e as real)
    requires total >= e + 2 && (e == 2 * q || e == 2 * q + 1)
    requires leftCount == q + 1 && rightStart == total - 1 - (e - q)
    ensures RowLayout(total, cap) == Gap(leftCount, rightStart)
  {
    RowElided(total, e, q, leftCount, rightStart);
  }

  /** Over the cap, the row shows its two ellipses. */
  lemma RowOverCapDots(total: nat, cap: Num)
    requires !Fits(total, cap)
    ensures DotCount(RowSlots(total, cap)) == 2
  {
    var layout := RowLayout(total, cap);
    ElidedDots(layout.leftCount, layout.rightStart, total);
  }

  /** The budget d - 2 split in halves, the right one taking the odd leg. */
  lemma SplitBudget(d: int)
    requires d >= 2
    ensures var leftExtra := (d - 2) / 2;
      var rightExtra := (d - 2) - leftExtra;
      && (d - 2 == 2 * leftExtra || d - 2 == 2 * leftExtra + 1)
      && leftExtra <= rightExtra <= leftExtra + 1
      && (leftExtra + 1) + (rightExtra + 1) == d
  {
  }

  /**
   * Over the cap with the budget e, the row is the first floor(e / 2) + 1
   * legs, the two ellipses, and the last e - floor(e / 2) + 1 legs.
   */
  lemma RowElided(total: nat, e: nat, q: nat, leftCount: nat, rightStart: nat)
    requires total >= e + 2 && (e == 2 * q || e == 2 * q + 1)
    requires leftCount == q + 1 && rightStart == total - 1 - (e - q)
    ensures SplitAt(total, Fin(e as real)) == Gap(leftCount, rightStart)
  {
    ElidedCounts(total, e, q);
  }

  /** With max_legs 6, a 20-leg trip shows legs 0, 1, 2, the ellipses, and legs 17, 18, 19. */
  lemma RowExample()
    ensures RowLayout(20, LegCap(JNum(Fin(6 as real)))) == Gap(3, 17)
    ensures RowSlots(20, LegCap(JNum(Fin(6 as real))))
      == Columns(0, 3, true) + [Dots, Arrow, Dots, Arrow] + Columns(17, 20, false)
  {
    LegCapNumber(6 as real);
    assert !Fits(20, Max(Fin(1.0), Fin(6 as real)));
    RowOverCap(20, 6);
    assert (6 - 2) / 2 == 2;
  }

  /**
   * A cap of at most 2 that the legs exceed shows only the first and the
   * last leg around the ellipses; with max_legs 1 a two-leg trip is such a
   * trip, and nothing is actually elided between its two legs.
   */
  lemma RowCapOne(total: nat, m: int)
    requires m <= 2 && !Fits(total, Max(Fin(1.0), Fin(m as real)))
    ensures RowLayout(total, Max(Fin(1.0), Fin(m as real))) == Gap(1, total - 1)
  {
    var cap := Max(Fin(1.0), Fin(m as real));
    OverCapBudget(total, m);
    assert ExtraBudget(cap) == Fin(0 as real);
    RowOverBudget(total, cap, 0, 0, 1, total - 1);
  }

  /** A max_legs that is not a number shows the ellipses first and then every leg. */
  lemma RowNaNCap(total: nat)
    ensures RowLayout(total, NaN) == Gap(0, 0)
    ensures RowSlots(total, NaN) == [Dots, Arrow, Dots, Arrow] + Columns(0, total, false)
  {
    assert Columns(0, 0, true) == [];
    assert [] + [Dots, Arrow, Dots, Arrow] == [Dots, Arrow, Dots, Arrow];
  }

  // ---------------------------------------------------------------- endpoints

  /**
   * The layout `_renderTripRow` chooses for a trip under a configuration: the
   * legs of `trip.legs` against the cap derived from `max_legs`.
   */
  function TripLayout(trip: JValue, config: Option<map<string, JValue>>): (r: Layout)
    ensures var total := |TripLegs(trip)|;
      r.Every? <==> Fits(total, LegCap(ConfigValue(config, "max_legs")))
  {
    RowLayout(|TripLegs(trip)|, LegCap(ConfigValue(config, "max_legs")))
  }

  /** Without max_legs, a trip of at most 12 legs shows every leg. */
  lemma TripLayoutDefaultWithin(trip: JValue, config: Option<map<string, JValue>>)
    requires ConfigValue(config, "max_legs") == JUndefined && |TripLegs(trip)| <= 12
    ensures TripLayout(trip, config) == Every(|TripLegs(trip)|)
  {
    RowWithinCap(|TripLegs(trip)|, Fin(12.0));
  }

  /** Without max_legs, a trip of more than 12 legs shows its first six and its last six legs. */
  lemma TripLayoutDefaultOver(trip: JValue, config: Option<map<string, JValue>>)
    requires ConfigValue(config, "max_legs") == JUndefined && |TripLegs(trip)| > 12
    ensures TripLayout(trip, config) == Gap(6, |TripLegs(trip)| - 6)
  {
    DefaultCapOver(|TripLegs(trip)|);
  }

  /** The default cap of 12 over more than 12 legs keeps legs 0..5 and the last six. */
  lemma DefaultCapOver(total: nat)
    requires total > 12
    ensures RowLayout(total, Fin(12.0)) == Gap(6, total - 6)
  {
    MaxFin(1.0, 12 as real);
    RowOverCap(total, 12);
  }

  /**
   * The `legs` of `_renderTripRow` that give the endpoint icons their leg
   * types: every leg when there are more than the cap, else the first `cap`.
   */
  function CappedLegs(legsAll: seq<JValue>, cap: Num): (r: seq<JValue>)
    ensures Fits(|legsAll|, cap) ==> r == legsAll
    ensures cap == NaN ==> r == []
    ensures cap != NaN && !Fits(|legsAll|, cap) ==> r == legsAll
  {
    if Less(cap, Fin(|legsAll| as real)) then legsAll else legsAll[..RelativeIndex(cap, |legsAll|)]
  }

  /** The start and end icons of a trip row. */
  function EndpointIcons(trip: JValue, entity: JValue, cap: Num): (r: (string, string))
    ensures var legs := CappedLegs(TripLegs(trip), cap);
      r.0 == IconForEndpoint(StartIsCoordinate(trip, FirstCoordForTrip(trip, entity), entity), LegType(At(JArr(legs), 0)))
      && r.1 == IconForEndpoint(EndIsCoordinate(trip, LastCoordForTrip(trip, entity), entity), LegType(At(JArr(legs), |legs| - 1)))
  {
    var legs := CappedLegs(TripLegs(trip), cap);
    var startCoord := FirstCoordForTrip(trip, entity);
    var endCoord := LastCoordForTrip(trip, entity);
    (IconForEndpoint(StartIsCoordinate(trip, startCoord, entity), LegType(At(JArr(legs), 0))),
     IconForEndpoint(EndIsCoordinate(trip, endCoord, entity), LegType(At(JArr(legs), |legs| - 1))))
  }

  /**
   * A max_legs that is not a number empties the capped legs, so a
   * non-coordinate endpoint is shown as a bus stop even for a train trip.
   */
  lemma EndpointIconsNaNCap(trip: JValue, entity: JValue)
    requires !StartIsCoordinate(trip, FirstCoordForTrip(trip, entity), entity)
    ensures EndpointIcons(trip, entity, NaN).0 == "mdi:bus-stop-uncovered"
  {
    var legs := CappedLegs(TripLegs(trip), NaN);
    assert At(JArr(legs), 0) == JUndefined;
    NoLegType();
    NoLegIcon();
  }

  /** A missing leg has no type. */
  lemma NoLegType()
    ensures LegType(JUndefined) == None
  {
    var c := LegTypeCandidates(JUndefined);
    assert forall i :: 0 <= i < |c| ==> !Truthy(c[i]);
  }

  /** A non-coordinate endpoint without a leg type is a bus stop. */
  lemma NoLegIcon()
    ensures IconForEndpoint(false, None) == "mdi:bus-stop-uncovered"
  {
    assert Lower("") == "";
    forall p | 0 <= p < |TrainRule.patterns|
      ensures !PatternMatches(TrainRule.patterns[p], "")
    {
    }
  }

  /**
   * The map link of an endpoint pill: only when map links are configured and
   * the endpoint counts as a coordinate, and then only if a stop with both
   * coordinates was resolved.
   */
  function EndpointHref(config: Option<map<string, JValue>>, isCoord: bool, coord: Option<Place>, fixed6: Num -> string)
    : (r: Option<string>)
    ensures r.Some? <==> Truthy(ConfigValue(config, "show_map_links")) && isCoord && CoordResolved(coord)
    ensures r.Some? ==> r == MapLinks.MapLink(coord.value.lat, coord.value.lon, fixed6)
  {
    if Truthy(ConfigValue(config, "show_map_links")) && isCoord && coord.Some? then
      MapLinks.MapLink(coord.value.lat, coord.value.lon, fixed6)
    else None
  }

  // ---------------------------------------------------------------- durations and times

  /**
   * `_formatDurationHM`: whole minutes (negative clamped to 0) as hours, ":",
   * and the minute remainder padded to two digits. JavaScript's NaN and
   * infinities give "NaN:NaN", "Infinity:NaN" and "0:00".
   */
  function FormatDurationHM(min: Num): string
  {
    match min
    case NaN => "NaN:NaN"
    case PosInf => "Infinity:NaN"
    case NegInf => "0:00"
    case Fin(x) =>
      var m: nat := if x.Floor < 0 then 0 else x.Floor;
      NatToDecimal(m / 60) + ":" + PadStart2(NatToDecimal(m % 60))
  }

  /** Reads `H:MM` back into minutes. */
  function ParseHM(s: string): Option<nat>
  {
    var parts := Split(s, ':');
    if |parts| == 2 then HoursMinutes(parts[0], parts[1]) else None
  }

  /** Hours of any number of digits and exactly two minute digits below 60. */
  function HoursMinutes(h: string, m: string): Option<nat>
  {
    if |h| > 0 && |m| == 2 && AllDigitsIn(h, 10) && AllDigitsIn(m, 10) && DigitsValue(m, 10) < 60
    then Some(DigitsValue(h, 10) * 60 + DigitsValue(m, 10))
    else None
  }

  lemma PaddedMinutes(r: nat)
    requires r < 60
    ensures |PadStart2(NatToDecimal(r))| == 2
    ensures AllDigitsIn(PadStart2(NatToDecimal(r)), 10)
    ensures DigitsValue(PadStart2(NatToDecimal(r)), 10) == r
  {
    NatToDecimalShort(r);
    NatToDecimalValue(r);
    if r < 10 {
      DigitsValueLeadingZero(NatToDecimal(r), 10);
    }
  }

  /** `H:MM` with digit strings H and MM (below 60) reads back as H * 60 + MM minutes. */
  lemma ParseHMParts(hs: string, mm: string)
    requires |hs| > 0 && AllDigitsIn(hs, 10) && |mm| == 2 && AllDigitsIn(mm, 10) && DigitsValue(mm, 10) < 60
    ensures ParseHM(hs + ":" + mm) == Some(DigitsValue(hs, 10) * 60 + DigitsValue(mm, 10))
  {
    DigitsExclude(hs, 10, ':');
    DigitsExclude(mm, 10, ':');
    assert hs + ":" + mm == hs + [':'] + mm;
    SplitTwo(hs, mm, ':');
    HoursMinutesOf(hs, mm);
  }

  lemma HoursMinutesOf(hs: string, mm: string)
    requires |hs| > 0 && AllDigitsIn(hs, 10) && |mm| == 2 && AllDigitsIn(mm, 10) && DigitsValue(mm, 10) < 60
    ensures HoursMinutes(hs, mm) == Some(DigitsValue(hs, 10) * 60 + DigitsValue(mm, 10))
  {
  }

  /** Hours and a minute remainder written as `H:MM` read back as that many minutes. */
  lemma ParseHMOf(h: nat, r: nat)
    requires r < 60
    ensures ParseHM(NatToDecimal(h) + ":" + PadStart2(NatToDecimal(r))) == Some(h * 60 + r)
  {
    PaddedMinutes(r);
    NatToDecimalValue(h);
    ParseHMParts(NatToDecimal(h), PadStart2(NatToDecimal(r)));
  }

  /** A finite duration is written as `H:MM` and reads back as its whole minutes, clamped at 0. */
  lemma FormatDurationReadsBack(x: real)
    ensures ParseHM(FormatDurationHM(Fin(x))) == Some(if x.Floor < 0 then 0 else x.Floor)
  {
    var m: nat := if x.Floor < 0 then 0 else x.Floor;
    assert FormatDurationHM(Fin(x)) == NatToDecimal(m / 60) + ":" + PadStart2(NatToDecimal(m % 60));
    ParseHMOf(m / 60, m % 60);
    assert (m / 60) * 60 + m % 60 == m;
  }

  /**
   * `_formatTime(s)`. `parsed` is what `new Date(s)` gives: the local hours
   * and minutes, or nothing when the date is invalid. Then a string with a
   * space yields the first five characters after the first space (the time in
   * 'YYYY-MM-DD HH:MM'), or the input when that is empty.
   */
  function FormatTime(s: JValue, parsed: Option<(nat, nat)>): (r: JValue)
    ensures parsed.None? && !(s.JStr? && ' ' in s.s) ==> r == s
  {
    if parsed.Some? then JStr(PadStart2(NatToDecimal(parsed.value.0)) + ":" + PadStart2(NatToDecimal(parsed.value.1)))
    else if s.JStr? && ' ' in s.s then
      var parts := Split(s.s, ' ');
      var t := if |parts| > 1 then parts[1] else "";
      var t5 := if |t| < 5 then t else t[..5];
      if t5 != "" then JStr(t5) else s
    else s
  }

  /** 'YYYY-MM-DD HH:MM' that `Date` cannot parse is shown as HH:MM. */
  lemma FormatTimeFallback(date: string, time: string)
    requires ' ' !in date && ' ' !in time && |time| >= 5
    ensures FormatTime(JStr(date + " " + time), None) == JStr(time[..5])
  {
    assert date + " " + time == date + [' '] + time;
    SplitTwo(date, time, ' ');
    assert ' ' in date + " " + time by { assert (date + " " + time)[|date|] == ' '; }
  }

  /** A trailing space leaves nothing after it, so the input comes back unchanged. */
  lemma FormatTimeTrailingSpace(date: string)
    requires ' ' !in date
    ensures FormatTime(JStr(date + " "), None) == JStr(date + " ")
  {
    assert date + " " == date + [' '] + "";
    SplitTwo(date, "", ' ');
    assert ' ' in date + " " by { assert (date + " ")[|date|] == ' '; }
  }

  /** A parsed time is always two-digit hours and minutes. */
  lemma FormatTimeParsed(s: JValue, h: nat, m: nat)
    requires h < 24 && m < 60
    ensures FormatTime(s, Some((h, m))).JStr?
    ensures |FormatTime(s, Some((h, m))).s| == 5 && FormatTime(s, Some((h, m))).s[2] == ':'
  {
    PaddedMinutes(h);
    PaddedMinutes(m);
  }

  /** The finite numeric `duration` fields of the legs, in order. */
  function FiniteDurations(legs: seq<JValue>): seq<real>
    decreases |legs|
  {
    if |legs| == 0 then []
    else
      var d := Get(legs[|legs| - 1], "duration");
      FiniteDurations(legs[..|legs| - 1]) + (if IsFiniteNumber(d) then [d.n.x] else [])
  }

  function Sum(xs: seq<real>): real
    decreases |xs|
  {
    if |xs| == 0 then 0.0 else Sum(xs[..|xs| - 1]) + xs[|xs| - 1]
  }

  lemma {:induction false} FiniteDurationsAppend(a: seq<JValue>, b: seq<JValue>)
    ensures FiniteDurations(a + b) == FiniteDurations(a) + FiniteDurations(b)
    decreases |b|
  {
    if |b| == 0 {
      assert a + b == a;
    } else {
      assert (a + b)[..|a + b| - 1] == a + b[..|b| - 1];
      FiniteDurationsAppend(a, b[..|b| - 1]);
    }
  }

  lemma {:induction false} SumAppend(a: seq<real>, b: seq<real>)
    ensures Sum(a + b) == Sum(a) + Sum(b)
    decreases |b|
  {
    if |b| == 0 {
      assert a + b == a;
    } else {
      assert (a + b)[..|a + b| - 1] == a + b[..|b| - 1];
      SumAppend(a, b[..|b| - 1]);
    }
  }

  /** One more leg adds its finite duration, if it has one, to the list and to the sum. */
  lemma DurationStep(items: seq<JValue>, i: nat)
    requires i < |items|
    ensures var d := Get(items[i], "duration");
      var before := FiniteDurations(items[..i]);
      var after := FiniteDurations(items[..i + 1]);
      && (IsFiniteNumber(d) ==> Sum(after) == Sum(before) + d.n.x && |after| == |before| + 1)
      && (!IsFiniteNumber(d) ==> after == before)
  {
    assert items[..i + 1][..i] == items[..i];
    var d := Get(items[i], "duration");
    var fd := FiniteDurations(items[..i]);
    if IsFiniteNumber(d) {
      assert FiniteDurations(items[..i + 1]) == fd + [d.n.x];
      assert (fd + [d.n.x])[..|fd|] == fd;
    } else {
      assert FiniteDurations(items[..i + 1]) == fd + [];
      assert fd + [] == fd;
    }
  }

  /**
   * `_sumDurationMinutes`: undefined for a non-array or an empty array and
   * when no leg has a finite numeric duration; otherwise the sum of those
   * durations.
   */
  method SumDurationMinutes(legs: JValue) returns (r: Option<real>)
    ensures !legs.JArr? || |legs.items| == 0 ==> r.None?
    ensures legs.JArr? ==> (r.Some? <==> |FiniteDurations(legs.items)| > 0)
    ensures r.Some? ==> legs.JArr? && r.value == Sum(FiniteDurations(legs.items))
  {
    if !legs.JArr? || |legs.items| == 0 {
      return None;
    }
    var items := legs.items;
    var sum := 0.0;
    var any := false;
    var i := 0;
    while i < |items|
      invariant 0 <= i <= |items|
      invariant sum == Sum(FiniteDurations(items[..i]))
      invariant any <==> |FiniteDurations(items[..i])| > 0
    {
      var d := Get(items[i], "duration");
      DurationStep(items, i);
      if IsFiniteNumber(d) {
        sum := sum + d.n.x;
        any := true;
      }
      i := i + 1;
    }
    assert items[..i] == items;
    r := if any then Some(sum) else None;
  }

  // ---------------------------------------------------------------- endpoint times

  /** `legsAll[0] ? (legsAll[0].origin_time || legsAll[0].departure) : undefined` */
  function DepartureTime(legsAll: seq<JValue>): (r: JValue)
    ensures (|legsAll| == 0 || !Truthy(legsAll[0])) ==> r == JUndefined
    ensures |legsAll| > 0 && Truthy(legsAll[0]) ==> var o := Get(legsAll[0], "origin_time");
      (Truthy(o) ==> r == o) && (!Truthy(o) ==> r == Get(legsAll[0], "departure"))
  {
    if |legsAll| > 0 && Truthy(legsAll[0]) then Or(Get(legsAll[0], "origin_time"), Get(legsAll[0], "departure"))
    else JUndefined
  }

  /**
   * The arrival time as the row computes it: the last leg is read without the
   * guard the departure has, so a null or undefined last leg throws a TypeError.
   */
  function ArrivalTimeAsWritten(legsAll: seq<JValue>): (r: Result<JValue, string>)
    ensures r.Err? <==> |legsAll| > 0 && Nullish(legsAll[|legsAll| - 1])
  {
    if |legsAll| == 0 then Ok(JUndefined)
    else
      var last := legsAll[|legsAll| - 1];
      if Nullish(last) then Err("TypeError")
      else Ok(Or(Get(last, "dest_time"), Get(last, "arrival")))
  }

  /** The arrival time with the same guard as the departure: undefined when the last leg is missing. */
  function ArrivalTime(legsAll: seq<JValue>): (r: JValue)
    ensures (|legsAll| == 0 || !Truthy(legsAll[|legsAll| - 1])) ==> r == JUndefined
    ensures |legsAll| > 0 && Truthy(legsAll[|legsAll| - 1]) ==> var d := Get(legsAll[|legsAll| - 1], "dest_time");
      (Truthy(d) ==> r == d) && (!Truthy(d) ==> r == Get(legsAll[|legsAll| - 1], "arrival"))
  {
    if |legsAll| > 0 && Truthy(legsAll[|legsAll| - 1]) then
      Or(Get(legsAll[|legsAll| - 1], "dest_time"), Get(legsAll[|legsAll| - 1], "arrival"))
    else JUndefined
  }

  /** The guarded arrival time agrees with the row's code whenever that does not throw. */
  lemma ArrivalTimeAgrees(legsAll: seq<JValue>)
    ensures ArrivalTimeAsWritten(legsAll).Ok? ==> ArrivalTimeAsWritten(legsAll).value == ArrivalTime(legsAll)
  {
  }

  /** It is the departure time of the reversed trip, read from the arrival fields. */
  lemma ArrivalTimeMirrorsDeparture(legsAll: seq<JValue>)
    requires |legsAll| > 0
    ensures ArrivalTime(legsAll)
      == DepartureTime([RenameTimes(legsAll[|legsAll| - 1])])
  {
  }

  /** A leg whose arrival fields are renamed to the departure fields. */
  function RenameTimes(leg: JValue): (r: JValue)
    ensures Truthy(leg) ==> Truthy(r)
    ensures !Truthy(leg) ==> r == leg
  {
    if Truthy(leg) then
      JObj(map["origin_time" := Get(leg, "dest_time"), "departure" := Get(leg, "arrival")])
    else leg
  }

  /**
   * A sensor whose trips array holds a trip with a null leg: `_getTrips`
   * passes the trip through (only trips are filtered, not their legs), the
   * departure is guarded, and the arrival throws.
   */
  lemma ArrivalThrowsOnNullLeg()
    ensures var trip := JObj(map["legs" := JArr([JNull])]);
      var entity := JObj(map["attributes" := JObj(map["trips" := JArr([trip])])]);
      && GetTrips(entity) == [trip]
      && DepartureTime(TripLegs(trip)) == JUndefined
      && ArrivalTimeAsWritten(TripLegs(trip)).Err?
      && ArrivalTime(TripLegs(trip)) == JUndefined
  {
    var trip := JObj(map["legs" := JArr([JNull])]);
    var entity := JObj(map["attributes" := JObj(map["trips" := JArr([trip])])]);
    assert Attributes(entity) == JObj(map["trips" := JArr([trip])]);
    assert FilterTruthy([trip]) == [trip];
    assert TripLegs(trip) == [JNull];
  }

  // ---------------------------------------------------------------- card size and shown trips

  /**
   * `getCardSize`: `min(trips || 1, max_items ?? 3)` trips of one row, or two
   * with details, plus one, and at least 3.
   */
  function CardSize(config: Option<map<string, JValue>>, tripCount: nat): (r: Num)
    ensures r == NaN <==> ToNumber(Coalesce(ConfigValue(config, "max_items"), JNum(Fin(3.0)))) == NaN
    ensures r != NaN ==> LessEq(Fin(3.0), r)
  {
    var shown := Min(Fin(if tripCount == 0 then 1.0 else tripCount as real),
                     ToNumber(Coalesce(ConfigValue(config, "max_items"), JNum(Fin(3.0)))));
    var rows := Scale(shown, if Truthy(ConfigValue(config, "show_details")) then 2.0 else 1.0);
    Max(Fin(3.0), Add(rows, Fin(1.0)))
  }

  /** With an integer max_items k >= 1 the size is between 3 and 2k + 1 (and 3 when k = 1 without details). */
  lemma CardSizeBounds(config: Option<map<string, JValue>>, tripCount: nat, k: int)
    requires k >= 1 && ToNumber(Coalesce(ConfigValue(config, "max_items"), JNum(Fin(3.0)))) == Fin(k as real)
    ensures CardSize(config, tripCount).Fin?
    ensures 3.0 <= CardSize(config, tripCount).x <= if 2 * k + 1 < 3 then 3.0 else (2 * k + 1) as real
  {
  }

  /**
   * With a whole max_items k the size is exact: min(trips or 1, k) rows, two
   * each with details, plus one, and never below 3.
   */
  lemma CardSizeValue(config: Option<map<string, JValue>>, tripCount: nat, k: int)
    requires ToNumber(Coalesce(ConfigValue(config, "max_items"), JNum(Fin(3.0)))) == Fin(k as real)
    ensures var t := if tripCount == 0 then 1 else tripCount;
      var perTrip := if Truthy(ConfigValue(config, "show_details")) then 2 else 1;
      var rows := (if t <= k then t else k) * perTrip + 1;
      CardSize(config, tripCount) == Fin((if rows < 3 then 3 else rows) as real)
  {
  }

  /** The default card (three trips at most, no details) is 3 rows high with up to two trips and 4 with more. */
  lemma CardSizeDefault(tripCount: nat)
    ensures
      var config := Some(map["max_items" := JNum(Fin(3.0)), "show_details" := JBool(false)]);
      CardSize(config, tripCount) == Fin(if tripCount >= 3 then 4.0 else 3.0)
  {
  }

  /** `trips.slice(0, max_items ?? 3)` */
  function ShownTrips(trips: seq<JValue>, config: Option<map<string, JValue>>): (r: seq<JValue>)
    ensures |r| <= |trips| && r == trips[..|r|]
    ensures var n := ToNumber(Coalesce(ConfigValue(config, "max_items"), JNum(Fin(3.0))));
      n.Fin? && 0.0 <= n.x <= |trips| as real ==> |r| == n.x.Floor
    ensures var n := ToNumber(Coalesce(ConfigValue(config, "max_items"), JNum(Fin(3.0))));
      n == PosInf || (n.Fin? && n.x >= |trips| as real) ==> r == trips
    ensures var n := ToNumber(Coalesce(ConfigValue(config, "max_items"), JNum(Fin(3.0))));
      n == NaN || n == NegInf || (n.Fin? && n.x <= -(|trips| as real)) ==> r == []
    ensures var n := ToNumber(Coalesce(ConfigValue(config, "max_items"), JNum(Fin(3.0))));
      n.Fin? && n.x == n.x.Floor as real && -(|trips| as real) <= n.x < 0.0 ==> |r| == |trips| + n.x.Floor
  {
    trips[..RelativeIndex(ToNumber(Coalesce(ConfigValue(config, "max_items"), JNum(Fin(3.0)))), |trips|)]
  }
}
