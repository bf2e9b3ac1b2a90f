/**
 * The simpler travel card (`travel-card.ts`): one trip's legs taken from the
 * sensor, the start and end stops, a label and an icon per leg, and the row
 * the card renders — a start pin, the first `max_legs` legs with arrows
 * between them, and an arrow followed by the end pin.
 */
module TravelCard {
  import opened JsString
  import opened JsNum
  import opened JsValue
  import opened Wrappers
  import opened KeywordRules
  import Icons
  import TrafiklabData

  const EntityRequired: string := "entity is required"

  /** The defaults of `setConfig`; unlike the other card there is no max_items and `type` is not forced. */
  const Defaults: map<string, JValue> := map[
    "show_details" := JBool(false),
    "show_map_links" := JBool(true),
    "max_legs" := JNum(Fin(12.0))
  ]

  /** `setConfig`'s check and merge. */
  function NormalizeConfig(c: JValue): (r: Result<map<string, JValue>, string>)
    ensures r.Err? <==> !Truthy(c) || !Truthy(Get(c, "entity"))
    ensures r.Err? ==> r.error == EntityRequired
    ensures r.Ok? ==> c.JObj? && r.value.Keys == Defaults.Keys + c.fields.Keys
    ensures r.Ok? ==> forall k :: k in r.value ==> r.value[k] == (if k in c.fields then c.fields[k] else Defaults[k])
  {
    if !Truthy(c) || !Truthy(Get(c, "entity")) then Err(EntityRequired)
    else Ok(Defaults + Spread(c))
  }

  /** This card keeps a supplied `type`, where the other card overwrites it with its own. */
  lemma ConfigKeepsType(c: JValue)
    requires NormalizeConfig(c).Ok? && "type" in c.fields
    ensures NormalizeConfig(c).value["type"] == c.fields["type"]
  {
  }

  /** `this.hass?.states?.[this._config?.entity]`: with no configuration the key is "undefined". */
  function EntityFor(config: Option<map<string, JValue>>, hass: JValue): (r: JValue)
    ensures config.None? ==> r == Get(Get(hass, "states"), "undefined")
    ensures config.Some? && "entity" in config.value ==>
      r == Get(Get(hass, "states"), ToStr(config.value["entity"]))
  {
    Get(Get(hass, "states"), ToStr(TrafiklabData.ConfigValue(config, "entity")))
  }

  /**
   * The `legs` getter: the first array among `legs`, `trip.legs` and
   * `trips[0].legs`, without its falsy entries; [] when there is none.
   */
  function LegsOf(entity: JValue): (r: seq<JValue>)
    ensures !Truthy(entity) ==> r == []
    ensures var a := TrafiklabData.Attributes(entity);
      Truthy(entity) && Get(a, "legs").JArr? ==> r == FilterTruthy(Get(a, "legs").items)
    ensures var a := TrafiklabData.Attributes(entity);
      Truthy(entity) && !Get(a, "legs").JArr? && Get(Get(a, "trip"), "legs").JArr? ==>
        r == FilterTruthy(Get(Get(a, "trip"), "legs").items)
    ensures var a := TrafiklabData.Attributes(entity);
      var first := Get(At(Get(a, "trips"), 0), "legs");
      Truthy(entity) && !Get(a, "legs").JArr? && !Get(Get(a, "trip"), "legs").JArr? && Get(a, "trips").JArr? && first.JArr? ==>
        r == FilterTruthy(first.items)
    ensures var a := TrafiklabData.Attributes(entity);
      var noTrips := !Get(a, "trips").JArr? || !Get(At(Get(a, "trips"), 0), "legs").JArr?;
      Truthy(entity) && !Get(a, "legs").JArr? && !Get(Get(a, "trip"), "legs").JArr? && noTrips ==> r == []
    ensures forall i :: 0 <= i < |r| ==> Truthy(r[i])
  {
    if !Truthy(entity) then []
    else
      var a := TrafiklabData.Attributes(entity);
      var l0 := Get(a, "legs");
      var l1 := if !l0.JArr? then Get(Get(a, "trip"), "legs") else l0;
      var l2 := if !l1.JArr? then (if Get(a, "trips").JArr? then Get(At(Get(a, "trips"), 0), "legs") else JUndefined) else l1;
      FilterTruthy(ItemsOr(l2))
  }

  /**
   * Where the sensor has only a trips array whose first trip is truthy, this
   * card shows the legs of the trip the other card lists first, minus the
   * falsy legs that the other card keeps.
   */
  lemma LegsMatchFirstTrip(entity: JValue)
    requires Truthy(entity)
    requires var a := TrafiklabData.Attributes(entity);
      !Get(a, "legs").JArr? && !Get(Get(a, "trip"), "legs").JArr?
      && Get(a, "trips").JArr? && |Get(a, "trips").items| > 0 && Truthy(Get(a, "trips").items[0])
      && Get(Get(a, "trips").items[0], "legs").JArr?
    ensures |TrafiklabData.GetTrips(entity)| > 0
    ensures LegsOf(entity) == FilterTruthy(TrafiklabData.TripLegs(TrafiklabData.GetTrips(entity)[0]))
  {
    var trips := Get(TrafiklabData.Attributes(entity), "trips").items;
    assert trips == [trips[0]] + trips[1..];
    FilterTruthyAppend([trips[0]], trips[1..]);
    assert FilterTruthy([trips[0]]) == [trips[0]];
  }

  /** A stop as this card reads it; a field that is neither given nor aliased is undefined, never null. */
  datatype Stop = Stop(name: JValue, id: JValue, lat: JValue, lon: JValue)

  /** The aliases of a stop's id, `id ?? stop_id`. */
  function IdAliases(obj: JValue): seq<JValue>
  {
    [Get(obj, "id"), Get(obj, "stop_id")]
  }

  /** `stop(obj)`: undefined unless obj is a truthy object; each field the first present of its aliases. */
  function StopOf(obj: JValue): (r: Option<Stop>)
    ensures r.Some? ==> PicksFirstPresent(TrafiklabData.NameAliases(obj), r.value.name, JUndefined)
    ensures r.Some? ==> PicksFirstPresent(IdAliases(obj), r.value.id, JUndefined)
    ensures r.Some? ==> PicksFirstPresent(TrafiklabData.LatAliases(obj), r.value.lat, JUndefined)
    ensures r.Some? ==> PicksFirstPresent(TrafiklabData.LonAliases(obj), r.value.lon, JUndefined)
    ensures r.Some? <==> Truthy(obj) && IsObjectType(obj)
    ensures r.Some? ==> r.value.name != JNull && r.value.id != JNull && r.value.lat != JNull && r.value.lon != JNull
    ensures r.Some? ==>
      (Nullish(r.value.lat) <==> Nullish(Get(obj, "lat")) && Nullish(Get(obj, "latitude")))
    ensures r.Some? ==>
      (Nullish(r.value.lon) <==> Nullish(Get(obj, "lon")) && Nullish(Get(obj, "lng")) && Nullish(Get(obj, "longitude")))
  {
    if !Truthy(obj) || !IsObjectType(obj) then None
    else
      var name := TrafiklabData.NameAliases(obj);
      var id := IdAliases(obj);
      var lat := TrafiklabData.LatAliases(obj);
      var lon := TrafiklabData.LonAliases(obj);
      StopChain(name);
      StopChain(id);
      StopChain(lat);
      StopChain(lon);
      var place := TrafiklabData.PlaceOf(obj);
      assert place.lat == FirstPresent(lat) && place.lon == FirstPresent(lon);
      Some(Stop(FirstPresent(name + [JUndefined]), FirstPresent(id + [JUndefined]),
        FirstPresent(lat + [JUndefined]), FirstPresent(lon + [JUndefined])))
  }

  /** An alias chain of `stop`, ended by `undefined`: never null, and the first present alias or undefined. */
  lemma StopChain(vs: seq<JValue>)
    requires |vs| >= 1
    ensures FirstPresent(vs + [JUndefined]) != JNull
    ensures Nullish(FirstPresent(vs + [JUndefined])) <==> Nullish(FirstPresent(vs))
    ensures PicksFirstPresent(vs, FirstPresent(vs + [JUndefined]), JUndefined)
  {
    FirstPresentUndefined(vs);
    FirstPresentThenUndefined(vs);
  }

  /** Each alias chain of `stop` ends the way the chain without its trailing `undefined` would, null becoming undefined. */
  lemma NameChainUndefined(obj: JValue)
    ensures var p := TrafiklabData.PlaceOf(obj);
      && FirstPresent(TrafiklabData.NameAliases(obj) + [JUndefined]) == (if Nullish(p.name) then JUndefined else p.name)
      && FirstPresent(IdAliases(obj) + [JUndefined])
         == (if Nullish(FirstPresent(IdAliases(obj))) then JUndefined else FirstPresent(IdAliases(obj)))
      && FirstPresent(TrafiklabData.LatAliases(obj) + [JUndefined]) == (if Nullish(p.lat) then JUndefined else p.lat)
      && FirstPresent(TrafiklabData.LonAliases(obj) + [JUndefined]) == (if Nullish(p.lon) then JUndefined else p.lon)
  {
    FirstPresentUndefined(TrafiklabData.NameAliases(obj));
    FirstPresentUndefined(IdAliases(obj));
    FirstPresentUndefined(TrafiklabData.LatAliases(obj));
    FirstPresentUndefined(TrafiklabData.LonAliases(obj));
  }

  /** `s?.lat != null && s?.lon != null` */
  predicate HasCoords(s: Option<Stop>)
  {
    s.Some? && !Nullish(s.value.lat) && !Nullish(s.value.lon)
  }

  /** Both cards read the same name and coordinates from a stop object, except that null becomes undefined here. */
  lemma StopAgreesWithPlace(obj: JValue)
    requires Truthy(obj) && IsObjectType(obj)
    ensures var s := StopOf(obj).value;
      var p := TrafiklabData.PlaceOf(obj);
      && (if Nullish(p.name) then s.name == JUndefined else s.name == p.name)
      && (if Nullish(p.lat) then s.lat == JUndefined else s.lat == p.lat)
      && (if Nullish(p.lon) then s.lon == JUndefined else s.lon == p.lon)
  {
    NameChainUndefined(obj);
  }

  function TypeCandidates(leg: JValue): seq<JValue>
  {
    [Get(leg, "type"), Get(leg, "mode"), Get(Get(leg, "product"), "category"), Get(Get(leg, "product"), "mode"), JStr("")]
  }

  /** `legType(leg)`: the first truthy of type, mode, product.category and product.mode, lowercased; '' when none. */
  function LegType(leg: JValue): (r: string)
    ensures forall i :: 0 <= i < |r| ==> !IsUpper(r[i])
    ensures var c := TypeCandidates(leg);
      forall i :: 0 <= i < |c| && Truthy(c[i]) && (forall j :: 0 <= j < i ==> !Truthy(c[j])) ==> r == Lower(ToStr(c[i]))
    ensures var c := TypeCandidates(leg);
      (forall i :: 0 <= i < |c| ==> !Truthy(c[i])) ==> r == ""
  {
    Lower(ToStr(FirstTruthy(TypeCandidates(leg))))
  }

  function LineCandidates(leg: JValue): seq<JValue>
  {
    [Get(leg, "line"), Get(leg, "number"), Get(Get(leg, "product"), "line")]
  }

  /** `legLine(leg)`: the first present of line, number and product.line, as a string; undefined only when none is present. */
  function LegLine(leg: JValue): (r: Option<string>)
    ensures r.None? <==> forall i :: 0 <= i < |LineCandidates(leg)| ==> Nullish(LineCandidates(leg)[i])
    ensures var c := LineCandidates(leg);
      forall i :: 0 <= i < |c| && !Nullish(c[i]) && (forall j :: 0 <= j < i ==> Nullish(c[j])) ==> r == Some(ToStr(c[i]))
  {
    var l := FirstPresent(LineCandidates(leg));
    if Nullish(l) then None else Some(ToStr(l))
  }

  /** An empty line string is a line here and none at all in the other card. */
  lemma EmptyLineDiffers()
    ensures LegLine(JObj(map["line" := JStr("")])) == Some("")
    ensures TrafiklabData.LegLine(JObj(map["line" := JStr("")])).None?
  {
    var leg := JObj(map["line" := JStr("")]);
    assert !Nullish(LineCandidates(leg)[0]);
    assert !Nullish(TrafiklabData.LegLineCandidates(leg)[0]);
  }

  /** `fromStop(leg)`: `stop(leg.from || leg.origin)` */
  function FromStop(leg: JValue): Option<Stop>
  {
    StopOf(Or(Get(leg, "from"), Get(leg, "origin")))
  }

  /** `toStop(leg)`: `stop(leg.to || leg.destination)` */
  function ToStop(leg: JValue): Option<Stop>
  {
    StopOf(Or(Get(leg, "to"), Get(leg, "destination")))
  }

  /** A leg that carries its own coordinates, without from/origin, is a stop for the other card but not for this one. */
  lemma FlatLegHasNoStop(leg: map<string, JValue>)
    requires "from" !in leg && "origin" !in leg
    requires "lat" in leg && "lon" in leg && !Nullish(leg["lat"]) && !Nullish(leg["lon"])
    ensures FromStop(JObj(leg)).None?
    ensures var p := TrafiklabData.StopFrom(JObj(leg));
      p.Some? && TrafiklabData.HasCoords(p.value)
  {
    TrafiklabData.StopFromFlatLeg(leg);
  }

  /**
   * `firstCoord()`: the first leg's start stop when it has coordinates,
   * otherwise `start_lat ?? origin_lat ?? lat` and
   * `start_lon ?? origin_lon ?? lon ?? lng` of the entity; undefined without legs.
   */
  function FirstCoord(legs: seq<JValue>, entity: JValue): (r: Option<Stop>)
    ensures |legs| == 0 ==> r.None?
    ensures r.Some? ==> HasCoords(r)
    ensures |legs| > 0 && HasCoords(FromStop(legs[0])) ==> r == FromStop(legs[0])
    ensures |legs| > 0 && !HasCoords(FromStop(legs[0])) ==>
      var a := TrafiklabData.Attributes(entity);
      var lat := FirstPresent([Get(a, "start_lat"), Get(a, "origin_lat"), Get(a, "lat"), JUndefined]);
      var lon := FirstPresent([Get(a, "start_lon"), Get(a, "origin_lon"), Get(a, "lon"), Get(a, "lng"), JUndefined]);
      r == if !Nullish(lat) && !Nullish(lon) then Some(Stop(Coalesce(Get(a, "start_name"), Get(a, "origin_name")), JUndefined, lat, lon)) else None
  {
    if |legs| == 0 then None
    else
      var s := FromStop(legs[0]);
      if HasCoords(s) then s
      else
        var a := TrafiklabData.Attributes(entity);
        var lat := FirstPresent([Get(a, "start_lat"), Get(a, "origin_lat"), Get(a, "lat"), JUndefined]);
        var lon := FirstPresent([Get(a, "start_lon"), Get(a, "origin_lon"), Get(a, "lon"), Get(a, "lng"), JUndefined]);
        if !Nullish(lat) && !Nullish(lon) then Some(Stop(Coalesce(Get(a, "start_name"), Get(a, "origin_name")), JUndefined, lat, lon))
        else None
  }

  /**
   * `lastCoord()`: the last leg's end stop when it has coordinates,
   * otherwise only `end_lat ?? destination_lat` and `end_lon ?? destination_lon`.
   */
  function LastCoord(legs: seq<JValue>, entity: JValue): (r: Option<Stop>)
    ensures |legs| == 0 ==> r.None?
    ensures r.Some? ==> HasCoords(r)
    ensures |legs| > 0 && HasCoords(ToStop(legs[|legs| - 1])) ==> r == ToStop(legs[|legs| - 1])
    ensures var a := TrafiklabData.Attributes(entity);
      (|legs| > 0 && !HasCoords(ToStop(legs[|legs| - 1])) && Nullish(Get(a, "end_lat")) && Nullish(Get(a, "destination_lat")))
        ==> r.None?
    ensures |legs| > 0 && !HasCoords(ToStop(legs[|legs| - 1])) ==>
      var a := TrafiklabData.Attributes(entity);
      var lat := FirstPresent([Get(a, "end_lat"), Get(a, "destination_lat"), JUndefined]);
      var lon := FirstPresent([Get(a, "end_lon"), Get(a, "destination_lon"), JUndefined]);
      r == if !Nullish(lat) && !Nullish(lon) then Some(Stop(Coalesce(Get(a, "end_name"), Get(a, "destination_name")), JUndefined, lat, lon)) else None
  {
    if |legs| == 0 then None
    else
      var s := ToStop(legs[|legs| - 1]);
      if HasCoords(s) then s
      else
        var a := TrafiklabData.Attributes(entity);
        var lat := FirstPresent([Get(a, "end_lat"), Get(a, "destination_lat"), JUndefined]);
        var lon := FirstPresent([Get(a, "end_lon"), Get(a, "destination_lon"), JUndefined]);
        if !Nullish(lat) && !Nullish(lon) then Some(Stop(Coalesce(Get(a, "end_name"), Get(a, "destination_name")), JUndefined, lat, lon))
        else None
  }

  /** The labels of `prettyType`, with the same regular expressions as `modeIcon`. */
  const PrettyRules: seq<Rule> := [
    Rule([Keyword("walk"), Keyword("foot"), Keyword("gå")], "Walk"),
    Rule([Keyword("bus"), Keyword("buss")], "Bus"),
    Rule([Keyword("train"), Keyword("tå"), Keyword("rail")], "Train"),
    Rule([Keyword("metro"), Keyword("subway"), Keyword("tunnelbana")], "Metro"),
    Rule([Keyword("tram"), Keyword("spårvagn")], "Tram"),
    Rule([Keyword("ferry"), Keyword("boat"), Keyword("båt")], "Ferry"),
    Rule([Keyword("car"), Keyword("bil"), Keyword("taxi")], "Car")
  ]

  /** The input with its first character upper-cased. */
  function Capitalized(t: string): (r: string)
    requires |t| > 0
    ensures |r| >= |t| && r[|r| - (|t| - 1)..] == t[1..]
    ensures r[..|r| - (|t| - 1)] == UpperChar(t[0])
    ensures 'a' <= t[0] <= 'z' ==> |r| == |t| && r[0] == (t[0] as int - 32) as char
  {
    UpperChar(t[0]) + t[1..]
  }

  /**
   * `prettyType(t)`: '' for the empty type, else the label of the first rule
   * matching the lowercased type, else the type with its first character upper-cased.
   */
  function PrettyType(t: string): (r: string)
    ensures r == "" <==> t == ""
    ensures t != "" && (forall i :: 0 <= i < |PrettyRules| ==> !RuleMatches(PrettyRules[i], Lower(t))) ==> r == Capitalized(t)
  {
    if t == "" then ""
    else
      PrettyRulesNonEmpty();
      FirstMatchNonEmpty(PrettyRules, Lower(t), Capitalized(t));
      FirstMatch(PrettyRules, Lower(t), Capitalized(t))
  }

  /** No label in the table is empty. */
  lemma PrettyRulesNonEmpty()
    ensures forall i :: 0 <= i < |PrettyRules| ==> PrettyRules[i].result != ""
  {
    assert forall i :: 0 <= i < |PrettyRules| ==> |PrettyRules[i].result| >= 3;
  }

  /** The label and the icon of a leg type come from the same rule, or are both the fallbacks. */
  lemma PrettyTypeMatchesIcon(t: string)
    requires t != ""
    ensures var k := MatchIndex(Icons.ModeRules, Lower(t));
      if k < |Icons.ModeRules| then PrettyType(t) == PrettyRules[k].result && Icons.ModeIcon(Some(t)) == Icons.ModeRules[k].result
      else PrettyType(t) == Capitalized(t) && Icons.ModeIcon(Some(t)) == Icons.FallbackIcon
  {
    MatchIndexSamePatterns(PrettyRules, Icons.ModeRules, Lower(t));
  }

  /** `renderLeg`'s label for a type and a line: the pretty type, then a space and the line, or "Leg" when both are empty. */
  function LabelText(t: string, line: Option<string>): (r: string)
    ensures r != ""
    ensures t == "" ==> (r == "Leg" <==> line.None? || line.value == "")
    ensures t != "" ==> StartsWith(r, PrettyType(t))
    ensures t != "" ==> r == PrettyType(t) + (if line.Some? && line.value != "" then " " + line.value else "")
    ensures t == "" && line.Some? && line.value != "" ==> r == " " + line.value
  {
    var text := (if t != "" then PrettyType(t) else "") + (if line.Some? && line.value != "" then " " + line.value else "");
    assert t == "" && line.Some? && line.value != "" ==> text[0] == ' ' && "Leg"[0] == 'L';
    if text == "" then "Leg" else text
  }

  /** The label `renderLeg` shows for a leg. */
  function LegLabel(leg: JValue): string
  {
    LabelText(LegType(leg), LegLine(leg))
  }

  /** What the trip line shows, in order. */
  datatype Item = StartPin | LegItem(index: nat) | Arrow | EndPin

  /** The legs 0..n-1, with an arrow between neighbours and none after the last. */
  function LegRun(n: nat): seq<Item>
    decreases n
  {
    if n == 0 then [] else if n == 1 then [LegItem(0)] else LegRun(n - 1) + [Arrow, LegItem(n - 1)]
  }

  /** Leg i sits at position 2i, arrows at the odd positions in between, and the run ends with the last leg. */
  lemma {:induction false} LegRunShape(n: nat)
    ensures |LegRun(n)| == if n == 0 then 0 else 2 * n - 1
    ensures forall i :: 0 <= i < n ==> LegRun(n)[2 * i] == LegItem(i)
    ensures forall i :: 0 <= i < n - 1 ==> LegRun(n)[2 * i + 1] == Arrow
    decreases n
  {
    if n > 1 {
      LegRunShape(n - 1);
      var prev := LegRun(n - 1);
      assert LegRun(n) == prev + [Arrow, LegItem(n - 1)];
      forall i | 0 <= i < n
        ensures LegRun(n)[2 * i] == LegItem(i)
      {
        if i < n - 1 {
          assert LegRun(n)[2 * i] == prev[2 * i];
        }
      }
      forall i | 0 <= i < n - 1
        ensures LegRun(n)[2 * i + 1] == Arrow
      {
        if i < n - 2 {
          assert LegRun(n)[2 * i + 1] == prev[2 * i + 1];
        }
      }
    }
  }

  /** `this.legs.slice(0, max_legs)`: an undefined end keeps every leg. */
  function ShownCount(maxLegs: JValue, total: nat): (r: nat)
    ensures r <= total
    ensures maxLegs == JUndefined ==> r == total
    ensures var k := ToNumber(maxLegs);
      maxLegs != JUndefined && (k == PosInf || (k.Fin? && k.x >= total as real)) ==> r == total
    ensures var k := ToNumber(maxLegs);
      maxLegs != JUndefined && (k == NaN || k == NegInf || (k.Fin? && 0.0 <= k.x < 1.0)) ==> r == 0
  {
    if maxLegs == JUndefined then total else RelativeIndex(ToNumber(maxLegs), total)
  }

  /**
   * The trip line of `render`: the start pin when a start stop with
   * coordinates was found, the first `max_legs` legs joined by arrows, and
   * then an arrow and the end pin when an end stop was found.
   */
  function RowItems(maxLegs: JValue, total: nat, start: Option<Stop>, end: Option<Stop>): seq<Item>
  {
    (if HasCoords(start) then [StartPin] else [])
    + LegRun(ShownCount(maxLegs, total))
    + (if HasCoords(end) then [Arrow, EndPin] else [])
  }

  /** No leg beyond max_legs is shown, nothing is elided in between, and an arrow follows a leg only when another item does. */
  lemma RowItemsShape(maxLegs: JValue, total: nat, start: Option<Stop>, end: Option<Stop>, m: nat, n: nat)
    requires maxLegs == JNum(Fin(m as real)) && n == (if m <= total then m else total)
    ensures var items := RowItems(maxLegs, total, start, end);
      var off := if HasCoords(start) then 1 else 0;
      && |items| == off + (if n == 0 then 0 else 2 * n - 1) + (if HasCoords(end) then 2 else 0)
      && (forall i :: 0 <= i < n ==> items[off + 2 * i] == LegItem(i))
      && (forall i :: 0 <= i < |items| && items[i].LegItem? ==> items[i].index < n)
  {
    var head: seq<Item> := if HasCoords(start) then [StartPin] else [];
    var tail: seq<Item> := if HasCoords(end) then [Arrow, EndPin] else [];
    ShownCountNat(m, total);
    assert RowItems(maxLegs, total, start, end) == head + LegRun(n) + tail;
    LegRunShape(n);
    FramedRunPositions(head, tail, n);
    FramedRunIndices(head, tail, n);
  }

  /** A whole max_legs m shows min(m, total) legs. */
  lemma ShownCountNat(m: nat, total: nat)
    ensures ShownCount(JNum(Fin(m as real)), total) == if m <= total then m else total
  {
    assert (m as real).Floor == m;
  }

  /** Around items that are not legs, leg i of a run still sits 2i places after the start of the run. */
  lemma FramedRunPositions(head: seq<Item>, tail: seq<Item>, n: nat)
    ensures forall i :: 0 <= i < n ==> 2 * i < |LegRun(n)| && (head + LegRun(n) + tail)[|head| + 2 * i] == LegItem(i)
  {
    LegRunShape(n);
    var run := LegRun(n);
    forall i | 0 <= i < n
      ensures (head + run + tail)[|head| + 2 * i] == LegItem(i)
    {
      assert (head + run + tail)[|head| + 2 * i] == run[2 * i];
    }
  }

  /** Around items that are not legs, every leg shown is one of the run's n legs. */
  lemma FramedRunIndices(head: seq<Item>, tail: seq<Item>, n: nat)
    requires forall i :: 0 <= i < |head| ==> !head[i].LegItem?
    requires forall i :: 0 <= i < |tail| ==> !tail[i].LegItem?
    ensures var items := head + LegRun(n) + tail;
      forall i :: 0 <= i < |items| && items[i].LegItem? ==> items[i].index < n
  {
    var run := LegRun(n);
    var items := head + run + tail;
    forall i | 0 <= i < |items| && items[i].LegItem?
      ensures items[i].index < n
    {
      if |head| <= i < |head| + |run| {
        assert items[i] == run[i - |head|];
        LegRunIndices(n, i - |head|);
      }
    }
  }

  /** Every leg in a run of n legs has an index below n. */
  lemma {:induction false} LegRunIndices(n: nat, j: nat)
    requires j < |LegRun(n)| && LegRun(n)[j].LegItem?
    ensures LegRun(n)[j].index < n
    decreases n
  {
    if n > 1 {
      var prev := LegRun(n - 1);
      assert LegRun(n) == prev + [Arrow, LegItem(n - 1)];
      if j < |prev| {
        assert LegRun(n)[j] == prev[j];
        LegRunIndices(n - 1, j);
      }
    }
  }

  /** The card element: its configuration and the `hass` property. */
  class TravelCard {
    var config: Option<map<string, JValue>>
    var hass: JValue

    constructor()
      ensures config.None? && hass == JUndefined
    {
      config := None;
      hass := JUndefined;
    }

    /** `setConfig`: stores the merged configuration, or fails and keeps the previous one. */
    method SetConfig(c: JValue) returns (r: Result<(), string>)
      modifies this
      ensures r.Err? <==> NormalizeConfig(c).Err?
      ensures r.Err? ==> r.error == EntityRequired && config == old(config)
      ensures r.Ok? ==> config == Some(NormalizeConfig(c).value)
      ensures hass == old(hass)
    {
      var n := NormalizeConfig(c);
      if n.Err? {
        return Err(n.error);
      }
      config := Some(n.value);
      return Ok(());
    }

    /** Assigning the `hass` property. */
    method SetHass(h: JValue)
      modifies this
      ensures hass == h && config == old(config)
    {
      hass := h;
    }

    /** The `legs` getter on the card's entity. */
    function Legs(): (r: seq<JValue>)
      reads this
      ensures forall i :: 0 <= i < |r| ==> Truthy(r[i])
    {
      LegsOf(EntityFor(config, hass))
    }

    /**
     * `render`'s trip line; None for the "entity not found" card. Rendering
     * a found entity before any configuration is set throws a TypeError.
     */
    function Row(): (r: Result<Option<seq<Item>>, string>)
      reads this
      ensures !Truthy(EntityFor(config, hass)) ==> r == Ok(None)
      ensures Truthy(EntityFor(config, hass)) && config.None? ==> r.Err?
      ensures Truthy(EntityFor(config, hass)) && config.Some? ==>
        r == Ok(Some(RowItems(Get(JObj(config.value), "max_legs"), |Legs()|,
                              FirstCoord(Legs(), EntityFor(config, hass)), LastCoord(Legs(), EntityFor(config, hass)))))
    {
      var entity := EntityFor(config, hass);
      if !Truthy(entity) then Ok(None)
      else if config.None? then Err("TypeError")
      else
        var legs := LegsOf(entity);
        Ok(Some(RowItems(Get(JObj(config.value), "max_legs"), |legs|, FirstCoord(legs, entity), LastCoord(legs, entity))))
    }
  }
}
