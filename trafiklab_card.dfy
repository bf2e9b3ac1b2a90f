/**
 * The Trafiklab travel card element: `setConfig` merges the defaults into the
 * configuration (or rejects it), the `hass` setter stores the Home Assistant
 * object, and the trips, the card size and the translations are read from
 * those two fields.
 */
module TrafiklabCard {
  import opened JsNum
  import opened JsValue
  import opened Wrappers
  import Localize
  import opened TrafiklabData
  import opened TrafiklabView

  const CardType: string := "trafiklab-travel-card"
  const MissingEntity: string := "Required property missing: entity"

  /** The defaults every configuration starts from (also what `getStubConfig` offers). */
  const Defaults: map<string, JValue> := map[
    "show_details" := JBool(false),
    "show_map_links" := JBool(true),
    "max_legs" := JNum(Fin(12.0)),
    "max_items" := JNum(Fin(3.0))
  ]

  /**
   * `setConfig`'s check and merge: a missing or falsy configuration or
   * entity is rejected; otherwise the defaults are overridden by the
   * supplied fields and `type` is always the card type.
   */
  function NormalizeConfig(c: JValue): (r: Result<map<string, JValue>, string>)
    ensures r.Err? <==> !Truthy(c) || !Truthy(Get(c, "entity"))
    ensures r.Err? ==> r.error == MissingEntity
    ensures r.Ok? ==> c.JObj? && r.value.Keys == Defaults.Keys + c.fields.Keys + {"type"}
    ensures r.Ok? ==> r.value["type"] == JStr(CardType) && r.value["entity"] == c.fields["entity"]
    ensures r.Ok? ==> forall k :: k in r.value && k != "type" ==>
      r.value[k] == (if k in c.fields then c.fields[k] else Defaults[k])
  {
    if !Truthy(c) || !Truthy(Get(c, "entity")) then Err(MissingEntity)
    else Ok(Defaults + Spread(c) + map["type" := JStr(CardType)])
  }

  /** Setting a configuration the card produced itself changes nothing. */
  lemma NormalizeConfigIdempotent(c: JValue)
    requires NormalizeConfig(c).Ok?
    ensures NormalizeConfig(JObj(NormalizeConfig(c).value)) == NormalizeConfig(c)
  {
    var m := NormalizeConfig(c).value;
    assert Get(JObj(m), "entity") == Get(c, "entity");
    var m2 := NormalizeConfig(JObj(m)).value;
    assert m2.Keys == m.Keys;
    assert forall k :: k in m2 ==> m2[k] == m[k];
    assert m2 == m;
  }

  /** A configuration without max_items is at most three trips high: between 3 and 7 rows. */
  lemma DefaultCardSize(c: JValue, tripCount: nat)
    requires NormalizeConfig(c).Ok? && "max_items" !in c.fields
    ensures CardSize(Some(NormalizeConfig(c).value), tripCount).Fin?
    ensures 3.0 <= CardSize(Some(NormalizeConfig(c).value), tripCount).x <= 7.0
  {
    var config := Some(NormalizeConfig(c).value);
    assert ConfigValue(config, "max_items") == JNum(Fin(3.0));
    CardSizeBounds(config, tripCount, 3);
  }

  /** The card element: its configuration (none until `setConfig` succeeds) and the Home Assistant object. */
  class TrafiklabTravelCard {
    var config: Option<map<string, JValue>>
    var hass: JValue

    constructor()
      ensures config.None? && hass == JUndefined
    {
      config := None;
      hass := JUndefined;
    }

    /** `setConfig`: stores the merged configuration, or fails and keeps the previous one. */
    method SetConfig(c: JValue) returns (r: Result<(), string>)
      modifies this
      ensures r.Err? <==> NormalizeConfig(c).Err?
      ensures r.Err? ==> r.error == MissingEntity && config == old(config)
      ensures r.Ok? ==> config == Some(NormalizeConfig(c).value)
      ensures hass == old(hass)
    {
      var n := NormalizeConfig(c);
      if n.Err? {
        return Err(n.error);
      }
      config := Some(n.value);
      return Ok(());
    }

    /** The `hass` setter. */
    method SetHass(h: JValue)
      modifies this
      ensures hass == h && config == old(config)
    {
      hass := h;
    }

    /** `_getTrips()` on the card's own entity. */
    function Trips(): (r: seq<JValue>)
      reads this
      ensures !Truthy(ConfigEntity(config)) ==> r == []
      ensures forall i :: 0 <= i < |r| ==> Truthy(r[i])
    {
      GetTrips(EntityOf(config, hass))
    }

    /** `getCardSize()` */
    function Size(): (r: Num)
      reads this
      ensures config.None? ==> r == Fin(3.0)
      ensures r != NaN ==> LessEq(Fin(3.0), r)
    {
      CardSize(config, |Trips()|)
    }

    /** The trips the card renders: at most max_items of them. */
    function Shown(): (r: seq<JValue>)
      reads this
      ensures |r| <= |Trips()| && r == Trips()[..|r|]
    {
      ShownTrips(Trips(), config)
    }

    /** `_t(path, vars)`: the same lookup and substitution as `localize`, on the card's `hass`. */
    function T(en: JValue, sv: JValue, path: string, vars: Option<seq<(string, JValue)>>): (r: Result<JValue, string>)
      reads this
      ensures r == Localize.Localize(hass, en, sv, path, vars)
      ensures vars.None? && path != "" ==> r.Ok? && Truthy(r.value)
    {
      Localize.Localize(hass, en, sv, path, vars)
    }
  }

  /** A card without a configuration is 3 rows high, since it has no trips to show. */
  lemma UnconfiguredSize(card: TrafiklabTravelCard)
    requires card.config.None?
    ensures card.Size() == Fin(3.0)
    ensures card.Trips() == []
  {
  }
}
