/**
 * How the Trafiklab travel card reads its sensor: which entity it shows, which
 * trips it takes from the entity's attributes, and how it resolves the
 * loosely named fields of a leg (type, line, stops, coordinates). Every
 * lookup takes the first candidate that is present, where "present" means
 * truthy for `||` chains and neither undefined nor null for `??` chains.
 */
module TrafiklabData {
  import opened JsString
  import opened JsValue
  import opened Wrappers

  /** `this._config?.[key]`, undefined before a configuration is set. */
  function ConfigValue(config: Option<map<string, JValue>>, key: string): (r: JValue)
    ensures config.None? ==> r == JUndefined
    ensures config.Some? ==> r == Get(JObj(config.value), key)
  {
    if config.Some? then Get(JObj(config.value), key) else JUndefined
  }

  function ConfigEntity(config: Option<map<string, JValue>>): JValue
  {
    ConfigValue(config, "entity")
  }

  /** `_getEntity`: no entity id gives undefined, otherwise `hass?.states?.[id]`. */
  function EntityOf(config: Option<map<string, JValue>>, hass: JValue): (r: JValue)
    ensures !Truthy(ConfigEntity(config)) ==> r == JUndefined
    ensures Truthy(ConfigEntity(config)) ==> r == Get(Get(hass, "states"), ToStr(ConfigEntity(config)))
  {
    var id := ConfigEntity(config);
    if !Truthy(id) then JUndefined else Get(Get(hass, "states"), ToStr(id))
  }

  /** `entity?.attributes || {}` */
  function Attributes(entity: JValue): (r: JValue)
    ensures Truthy(r)
    ensures Truthy(Get(entity, "attributes")) ==> r == Get(entity, "attributes")
    ensures !Truthy(Get(entity, "attributes")) ==> r == JObj(map[])
  {
    Or(Get(entity, "attributes"), JObj(map[]))
  }

  /** The pseudo-trip `{ legs }` built when the sensor has legs but no trips. */
  function PseudoTrip(legs: seq<JValue>): JValue
  {
    JObj(map["legs" := JArr(legs)])
  }

  /**
   * `_getTrips`, written in the source's order, including the fallback to
   * `trips[0].legs` that the contract shows can never be taken: it is only
   * tried when `trips` is an array, and then the first branch has returned.
   */
  function GetTrips(entity: JValue): (r: seq<JValue>)
    ensures !Truthy(entity) ==> r == []
    ensures Truthy(entity) && Get(Attributes(entity), "trips").JArr? ==>
      r == FilterTruthy(Get(Attributes(entity), "trips").items)
    ensures Truthy(entity) && !Get(Attributes(entity), "trips").JArr? ==>
      var a := Attributes(entity);
      if Get(a, "legs").JArr? then r == [PseudoTrip(FilterTruthy(Get(a, "legs").items))]
      else if Get(Get(a, "trip"), "legs").JArr? then r == [PseudoTrip(FilterTruthy(Get(Get(a, "trip"), "legs").items))]
      else r == []
    ensures forall i :: 0 <= i < |r| ==> Truthy(r[i])
  {
    if !Truthy(entity) then []
    else
      var a := Attributes(entity);
      if Get(a, "trips").JArr? then FilterTruthy(Get(a, "trips").items)
      else
        var legs0 := Get(a, "legs");
        var legs1 := if !legs0.JArr? then Get(Get(a, "trip"), "legs") else legs0;
        var legs2 := if !legs1.JArr? && Get(a, "trips").JArr? then Get(At(Get(a, "trips"), 0), "legs") else legs1;
        if legs2.JArr? then [PseudoTrip(FilterTruthy(legs2.items))] else []
  }

  /** Whatever the attributes hold, the trips come back in the sensor's order, with only falsy entries dropped. */
  lemma GetTripsKeepsOrder(entity: JValue, a: seq<JValue>, b: seq<JValue>)
    requires Truthy(entity) && Get(Attributes(entity), "trips") == JArr(a + b)
    ensures GetTrips(entity) == FilterTruthy(a) + FilterTruthy(b)
  {
    FilterTruthyAppend(a, b);
  }

  /** A value converted for display: `String(v).toLowerCase()`, or undefined when that is empty. */
  function LowerText(v: JValue): (r: Option<string>)
    ensures r.None? <==> ToStr(v) == ""
    ensures r.Some? ==> |r.value| == |ToStr(v)| && forall i :: 0 <= i < |r.value| ==> !IsUpper(r.value[i])
    ensures var t := ToStr(v);
      r.Some? ==> forall i :: 0 <= i < |t| && !IsUpper(t[i]) ==> r.value[i] == t[i]
    ensures var t := ToStr(v);
      r.Some? ==> forall i :: 0 <= i < |t| && IsUpper(t[i]) ==> r.value[i] as int == t[i] as int + 32
  {
    var t := ToStr(v);
    if t == "" then None else Some(Lower(t))
  }

  /** The fields `_legType` consults, in order. */
  function LegTypeCandidates(leg: JValue): seq<JValue>
  {
    [Get(leg, "category"), Get(leg, "type"), Get(leg, "mode"), Get(leg, "transport_mode"),
     Get(Get(leg, "product"), "category"), Get(Get(leg, "product"), "mode"), JStr("")]
  }

  /**
   * `_legType`: the first truthy of category, type, mode, transport_mode,
   * product.category and product.mode, as a lowercased string; undefined
   * when there is none.
   */
  function LegType(leg: JValue): (r: Option<string>)
    ensures var c := LegTypeCandidates(leg);
      forall i :: 0 <= i < |c| && Truthy(c[i]) && (forall j :: 0 <= j < i ==> !Truthy(c[j])) ==> r == LowerText(c[i])
    ensures var c := LegTypeCandidates(leg);
      (forall i :: 0 <= i < |c| ==> !Truthy(c[i])) ==> r == None
  {
    LowerText(FirstTruthy(LegTypeCandidates(leg)))
  }

  /** The fields `_legLine` consults, in order. */
  function LegLineCandidates(leg: JValue): seq<JValue>
  {
    [Get(leg, "line"), Get(leg, "line_number"), Get(leg, "number"), Get(Get(leg, "product"), "line")]
  }

  /**
   * `_legLine`: the first of line, line_number, number and product.line that
   * is neither undefined nor null, as a string; undefined when there is none
   * or it is the empty string.
   */
  function LegLine(leg: JValue): (r: Option<string>)
    ensures var c := LegLineCandidates(leg);
      forall i :: 0 <= i < |c| && !Nullish(c[i]) && (forall j :: 0 <= j < i ==> Nullish(c[j])) ==>
        r == (if c[i] == JStr("") then None else Some(ToStr(c[i])))
    ensures (forall i :: 0 <= i < |LegLineCandidates(leg)| ==> Nullish(LegLineCandidates(leg)[i])) ==> r == None
  {
    var l := FirstPresent(LegLineCandidates(leg));
    if l != JUndefined && l != JNull && l != JStr("") then Some(ToStr(l)) else None
  }

  /** A resolved stop: the name and coordinates the card shows. */
  datatype Place = Place(name: JValue, lat: JValue, lon: JValue)

  /** `lat != null && lon != null` */
  predicate HasCoords(p: Place)
  {
    !Nullish(p.lat) && !Nullish(p.lon)
  }

  /** The aliases of a stop's name, latitude and longitude, in the order `??` tries them. */
  function NameAliases(s: JValue): seq<JValue>
  {
    [Get(s, "name"), Get(s, "stop_name"), Get(s, "stop"), Get(s, "id")]
  }

  function LatAliases(s: JValue): seq<JValue>
  {
    [Get(s, "lat"), Get(s, "latitude")]
  }

  function LonAliases(s: JValue): seq<JValue>
  {
    [Get(s, "lon"), Get(s, "lng"), Get(s, "longitude")]
  }

  /** The stop fields of an object: `name ?? stop_name ?? stop ?? id`, `lat ?? latitude`, `lon ?? lng ?? longitude`. */
  function PlaceOf(s: JValue): (r: Place)
    ensures var c := NameAliases(s);
      forall i :: 0 <= i < |c| && !Nullish(c[i]) && (forall j :: 0 <= j < i ==> Nullish(c[j])) ==> r.name == c[i]
    ensures var c := LatAliases(s);
      forall i :: 0 <= i < |c| && !Nullish(c[i]) && (forall j :: 0 <= j < i ==> Nullish(c[j])) ==> r.lat == c[i]
    ensures var c := LonAliases(s);
      forall i :: 0 <= i < |c| && !Nullish(c[i]) && (forall j :: 0 <= j < i ==> Nullish(c[j])) ==> r.lon == c[i]
    ensures (forall i :: 0 <= i < |NameAliases(s)| ==> Nullish(NameAliases(s)[i])) ==> r.name == Get(s, "id")
    ensures (forall i :: 0 <= i < |LatAliases(s)| ==> Nullish(LatAliases(s)[i])) ==> r.lat == Get(s, "latitude")
    ensures (forall i :: 0 <= i < |LonAliases(s)| ==> Nullish(LonAliases(s)[i])) ==> r.lon == Get(s, "longitude")
    ensures !Nullish(Get(s, "name")) ==> r.name == Get(s, "name")
    ensures !Nullish(Get(s, "lat")) ==> r.lat == Get(s, "lat")
    ensures !Nullish(Get(s, "lon")) ==> r.lon == Get(s, "lon")
    ensures Nullish(r.lat) <==> Nullish(Get(s, "lat")) && Nullish(Get(s, "latitude"))
    ensures Nullish(r.lon) <==> Nullish(Get(s, "lon")) && Nullish(Get(s, "lng")) && Nullish(Get(s, "longitude"))
  {
    FirstPresentNullish(LatAliases(s));
    FirstPresentNullish(LonAliases(s));
    Place(FirstPresent(NameAliases(s)), FirstPresent(LatAliases(s)), FirstPresent(LonAliases(s)))
  }

  /**
   * `_stopFrom` (key "from", then "origin") and `_stopTo` (key "to", then
   * "destination"): the nested stop object, or the object itself when both
   * keys are undefined or null; undefined unless that is a truthy object.
   */
  function StopAt(obj: JValue, key1: string, key2: string): (r: Option<Place>)
    ensures !Truthy(obj) ==> r.None?
    ensures r.Some? ==> var s := Coalesce(Get(obj, key1), Coalesce(Get(obj, key2), obj));
      Truthy(s) && IsObjectType(s) && r.value == PlaceOf(s)
    ensures var s := Coalesce(Get(obj, key1), Coalesce(Get(obj, key2), obj));
      (Truthy(obj) && Truthy(s) && IsObjectType(s)) ==> r.Some?
  {
    if !Truthy(obj) then None
    else
      var s := Coalesce(Get(obj, key1), Coalesce(Get(obj, key2), obj));
      if !Truthy(s) || !IsObjectType(s) then None else Some(PlaceOf(s))
  }

  function StopFrom(obj: JValue): Option<Place>
  {
    StopAt(obj, "from", "origin")
  }

  function StopTo(obj: JValue): Option<Place>
  {
    StopAt(obj, "to", "destination")
  }

  /** A leg object without from/origin is its own stop. */
  lemma StopFromFlatLeg(leg: map<string, JValue>)
    requires "from" !in leg && "origin" !in leg
    ensures StopFrom(JObj(leg)) == Some(PlaceOf(JObj(leg)))
  {
  }

  /** The legs of a trip: `Array.isArray(trip?.legs) ? trip.legs : []`. */
  function TripLegs(trip: JValue): seq<JValue>
  {
    ItemsOr(Get(trip, "legs"))
  }

  /**
   * `_firstCoordForTrip`: the first leg's start stop when it has coordinates,
   * otherwise the entity-level `start_lat ?? origin_lat ?? lat` and
   * `start_lon ?? origin_lon ?? lon ?? lng`; undefined for a trip without legs.
   */
  function FirstCoordForTrip(trip: JValue, entity: JValue): (r: Option<Place>)
    ensures |TripLegs(trip)| == 0 ==> r.None?
    ensures r.Some? ==> HasCoords(r.value)
    ensures (|TripLegs(trip)| > 0 && StopFrom(TripLegs(trip)[0]).Some? && HasCoords(StopFrom(TripLegs(trip)[0]).value))
      ==> r == StopFrom(TripLegs(trip)[0])
    ensures (|TripLegs(trip)| > 0 && !(StopFrom(TripLegs(trip)[0]).Some? && HasCoords(StopFrom(TripLegs(trip)[0]).value)))
      ==> var a := Attributes(entity);
          var lat := FirstPresent([Get(a, "start_lat"), Get(a, "origin_lat"), Get(a, "lat")]);
          var lon := FirstPresent([Get(a, "start_lon"), Get(a, "origin_lon"), Get(a, "lon"), Get(a, "lng")]);
          r == if !Nullish(lat) && !Nullish(lon) then Some(Place(Coalesce(Get(a, "start_name"), Get(a, "origin_name")), lat, lon)) else None
  {
    var legs := TripLegs(trip);
    if |legs| == 0 then None
    else
      var s := StopFrom(legs[0]);
      if s.Some? && HasCoords(s.value) then s
      else
        var a := Attributes(entity);
        var lat := FirstPresent([Get(a, "start_lat"), Get(a, "origin_lat"), Get(a, "lat")]);
        var lon := FirstPresent([Get(a, "start_lon"), Get(a, "origin_lon"), Get(a, "lon"), Get(a, "lng")]);
        if !Nullish(lat) && !Nullish(lon) then Some(Place(Coalesce(Get(a, "start_name"), Get(a, "origin_name")), lat, lon))
        else None
  }

  /**
   * `_lastCoordForTrip`: the last leg's end stop when it has coordinates,
   * otherwise only `end_lat ?? destination_lat` and `end_lon ?? destination_lon`.
   */
  function LastCoordForTrip(trip: JValue, entity: JValue): (r: Option<Place>)
    ensures |TripLegs(trip)| == 0 ==> r.None?
    ensures r.Some? ==> HasCoords(r.value)
    ensures var legs := TripLegs(trip);
      (|legs| > 0 && StopTo(legs[|legs| - 1]).Some? && HasCoords(StopTo(legs[|legs| - 1]).value))
      ==> r == StopTo(legs[|legs| - 1])
    ensures var legs := TripLegs(trip);
      (|legs| > 0 && !(StopTo(legs[|legs| - 1]).Some? && HasCoords(StopTo(legs[|legs| - 1]).value)))
      ==> var a := Attributes(entity);
          var lat := Coalesce(Get(a, "end_lat"), Get(a, "destination_lat"));
          var lon := Coalesce(Get(a, "end_lon"), Get(a, "destination_lon"));
          r == if !Nullish(lat) && !Nullish(lon) then Some(Place(Coalesce(Get(a, "end_name"), Get(a, "destination_name")), lat, lon)) else None
  {
    var legs := TripLegs(trip);
    if |legs| == 0 then None
    else
      var s := StopTo(legs[|legs| - 1]);
      if s.Some? && HasCoords(s.value) then s
      else
        var a := Attributes(entity);
        var lat := Coalesce(Get(a, "end_lat"), Get(a, "destination_lat"));
        var lon := Coalesce(Get(a, "end_lon"), Get(a, "destination_lon"));
        if !Nullish(lat) && !Nullish(lon) then Some(Place(Coalesce(Get(a, "end_name"), Get(a, "destination_name")), lat, lon))
        else None
  }

  /** The end falls back to entity coordinates under end_/destination_ names only, never the plain lat/lon. */
  lemma LastCoordIgnoresPlainLatLon(trip: JValue, entity: JValue)
    requires |TripLegs(trip)| > 0
    requires var legs := TripLegs(trip); StopTo(legs[|legs| - 1]).None? || !HasCoords(StopTo(legs[|legs| - 1]).value)
    requires var a := Attributes(entity);
      Nullish(Get(a, "end_lat")) && Nullish(Get(a, "destination_lat"))
    ensures LastCoordForTrip(trip, entity).None?
  {
  }

  /** The resolved endpoint has both coordinates. */
  predicate CoordResolved(coord: Option<Place>)
  {
    coord.Some? && HasCoords(coord.value)
  }

  /** `String(a.k1 || a.k2 || '').toLowerCase().includes('coord')` */
  predicate TypeSaysCoord(entity: JValue, k1: string, k2: string)
  {
    var a := Attributes(entity);
    Contains(Lower(ToStr(Or(Get(a, k1), Or(Get(a, k2), JStr(""))))), "coord")
  }

  /** The boundary leg's `k1 || k2` object has lat and lon. */
  predicate LegacyHasCoords(leg: JValue, k1: string, k2: string)
  {
    var legacy := Or(Get(leg, k1), Get(leg, k2));
    Truthy(legacy) && !Nullish(Get(legacy, "lat")) && !Nullish(Get(legacy, "lon"))
  }

  /** `_startIsCoordinate` */
  function StartIsCoordinate(trip: JValue, coord: Option<Place>, entity: JValue): (r: bool)
    ensures r <==> CoordResolved(coord)
                   || TypeSaysCoord(entity, "origin_type", "start_type")
                   || LegacyHasCoords(At(JArr(TripLegs(trip)), 0), "origin", "from")
  {
    if coord.Some? && HasCoords(coord.value) then true
    else if TypeSaysCoord(entity, "origin_type", "start_type") then true
    else
      var legs := TripLegs(trip);
      var first := if |legs| > 0 then legs[0] else JUndefined;
      var legacy := Or(Get(first, "origin"), Get(first, "from"));
      Truthy(legacy) && !Nullish(Get(legacy, "lat")) && !Nullish(Get(legacy, "lon"))
  }

  /** `_endIsCoordinate` */
  function EndIsCoordinate(trip: JValue, coord: Option<Place>, entity: JValue): (r: bool)
    ensures r <==> CoordResolved(coord)
                   || TypeSaysCoord(entity, "destination_type", "end_type")
                   || LegacyHasCoords(At(JArr(TripLegs(trip)), |TripLegs(trip)| - 1), "destination", "to")
  {
    if coord.Some? && HasCoords(coord.value) then true
    else if TypeSaysCoord(entity, "destination_type", "end_type") then true
    else
      var legs := TripLegs(trip);
      var last := if |legs| > 0 then legs[|legs| - 1] else JUndefined;
      var legacy := Or(Get(last, "destination"), Get(last, "to"));
      Truthy(legacy) && !Nullish(Get(legacy, "lat")) && !Nullish(Get(legacy, "lon"))
  }
}
