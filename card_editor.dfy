/**
 * The visual editor of the Trafiklab card (`trafiklab-travel-card-editor.ts`).
 * It holds a configuration and reports each change with a `config-changed`
 * event. The event targets and details are plain values here: a target is
 * the object whose `configValue`, `dataset.configValue`, `value`, `checked`
 * and `type` properties the handler reads.
 */
module CardEditor {
  import opened JsString
  import opened JsNum
  import opened JsValue
  import opened Wrappers

  const CardType: string := "trafiklab-travel-card"

  /** The fields `setConfig` starts from. */
  const EditorBase: map<string, JValue> := map[
    "type" := JStr(CardType),
    "entity" := JStr(""),
    "show_details" := JBool(false),
    "show_map_links" := JBool(true),
    "max_legs" := JNum(Fin(12.0)),
    "max_items" := JNum(Fin(3.0))
  ]

  /** `setConfig`: the base fields, overridden by the supplied ones. */
  function EditorConfig(c: JValue): (r: map<string, JValue>)
    ensures r.Keys == EditorBase.Keys + Spread(c).Keys
    ensures forall k :: k in r ==> r[k] == if k in Spread(c) then Spread(c)[k] else EditorBase[k]
    ensures Nullish(c) ==> r == EditorBase
  {
    EditorBase + Spread(c)
  }

  /** The configuration `_valueChanged` works on: the stored one, or a bare one when none is set. */
  function StartConfig(config: Option<map<string, JValue>>): (r: map<string, JValue>)
    ensures config.Some? ==> r == config.value
    ensures config.None? ==> r.Keys == {"type", "entity"} && r["type"] == JStr(CardType) && r["entity"] == JStr("")
  {
    if config.Some? then config.value else map["type" := JStr(CardType), "entity" := JStr("")]
  }

  /** `target?.configValue ?? target?.dataset?.configValue` */
  function ConfigKey(target: JValue): JValue
  {
    Coalesce(Get(target, "configValue"), Get(Get(target, "dataset"), "configValue"))
  }

  /** `detail?.value ?? target.value ?? target.checked` */
  function RawValue(target: JValue, detail: JValue): JValue
  {
    FirstPresent([Get(detail, "value"), Get(target, "value"), Get(target, "checked")])
  }

  /** The value after the `max_legs` coercion: its number when that key's value reads as a number. */
  function CoercedValue(key: JValue, v: JValue): (r: JValue)
    ensures key == JStr("max_legs") && ToNumber(v) != NaN ==> r == JNum(ToNumber(v))
    ensures key != JStr("max_legs") || ToNumber(v) == NaN ==> r == v
  {
    if key == JStr("max_legs") && ToNumber(v) != NaN then JNum(ToNumber(v)) else v
  }

  predicate IsCheckbox(target: JValue)
  {
    Get(target, "type") == JStr("checkbox")
  }

  /**
   * The configuration `_valueChanged` builds: a copy of `config` in which the
   * property named by the target's key holds `checked` for a checkbox and
   * otherwise the (coerced) value, unless that is undefined.
   */
  function ValueChangedConfig(config: map<string, JValue>, target: JValue, detail: JValue): (r: map<string, JValue>)
    ensures !Truthy(ConfigKey(target)) ==> r == config
    ensures r.Keys <= config.Keys + {ToStr(ConfigKey(target))}
    ensures forall k :: k in config && k != ToStr(ConfigKey(target)) ==> k in r && r[k] == config[k]
    ensures Truthy(ConfigKey(target)) && IsCheckbox(target) ==>
      r == config[ToStr(ConfigKey(target)) := Get(target, "checked")]
    ensures var v := CoercedValue(ConfigKey(target), RawValue(target, detail));
      Truthy(ConfigKey(target)) && !IsCheckbox(target) ==>
        r == if v != JUndefined then config[ToStr(ConfigKey(target)) := v] else config
  {
    var key := ConfigKey(target);
    if !Truthy(key) then config
    else
      var v := CoercedValue(key, RawValue(target, detail));
      if IsCheckbox(target) then config[ToStr(key) := Get(target, "checked")]
      else if v != JUndefined then config[ToStr(key) := v]
      else config
  }

  /** Handling the same event twice leaves the configuration as handling it once. */
  lemma ValueChangedIdempotent(config: map<string, JValue>, target: JValue, detail: JValue)
    ensures var once := ValueChangedConfig(config, target, detail);
      ValueChangedConfig(once, target, detail) == once
  {
  }

  /** A max_legs text field holding the digits of n stores the number n. */
  lemma MaxLegsTextIsNumber(config: map<string, JValue>, target: JValue, n: nat)
    requires Get(target, "configValue") == JStr("max_legs") && !IsCheckbox(target)
    requires Get(target, "value") == JStr(NumToString(Fin(n as real)))
    ensures ValueChangedConfig(config, target, JUndefined) == config["max_legs" := JNum(Fin(n as real))]
  {
    var text := NumToString(Fin(n as real));
    TextValue(target, text);
    NatRoundTrip(n);
    assert ToNumber(JStr(text)) == Fin(n as real);
    assert ConfigKey(target) == JStr("max_legs");
    StoresValue(config, target, "max_legs", JNum(Fin(n as real)));
  }

  /** A text field whose key and coerced value are known stores that value under that key. */
  lemma StoresValue(config: map<string, JValue>, target: JValue, key: string, v: JValue)
    requires ConfigKey(target) == JStr(key) && key != "" && !IsCheckbox(target)
    requires CoercedValue(JStr(key), RawValue(target, JUndefined)) == v && v != JUndefined
    ensures ValueChangedConfig(config, target, JUndefined) == config[key := v]
  {
  }

  /** Without a detail, the raw value of a target with a text `value` is that text. */
  lemma TextValue(target: JValue, text: string)
    requires Get(target, "value") == JStr(text)
    ensures RawValue(target, JUndefined) == JStr(text)
  {
    var vs := [Get(JUndefined, "value"), Get(target, "value"), Get(target, "checked")];
    assert Nullish(vs[0]) && !Nullish(vs[1]);
  }

  /** A field other than max_legs stores its text as it is, even when it reads as a number. */
  lemma OtherKeyNotCoerced(config: map<string, JValue>, target: JValue, key: string, text: string)
    requires key != "" && key != "max_legs"
    requires Get(target, "configValue") == JStr(key) && Get(target, "value") == JStr(text) && !IsCheckbox(target)
    ensures ValueChangedConfig(config, target, JUndefined) == config[key := JStr(text)]
  {
    TextValue(target, text);
    assert ConfigKey(target) == JStr(key);
    StoresValue(config, target, key, JStr(text));
  }

  /** The form data `render` hands to the form: each field or its default. */
  function FormData(config: Option<map<string, JValue>>): (r: map<string, JValue>)
    ensures r.Keys == {"entity", "show_details", "show_map_links", "max_legs", "max_items"}
    ensures forall k :: k in r && config.Some? && k in config.value && !Nullish(config.value[k]) ==> r[k] == config.value[k]
    ensures forall k :: k in r && (config.None? || k !in config.value || Nullish(config.value[k])) ==> r[k] == EditorBase[k]
  {
    var c := if config.Some? then JObj(config.value) else JUndefined;
    map[
      "entity" := Coalesce(Get(c, "entity"), JStr("")),
      "show_details" := Coalesce(Get(c, "show_details"), JBool(false)),
      "show_map_links" := Coalesce(Get(c, "show_map_links"), JBool(true)),
      "max_legs" := Coalesce(Get(c, "max_legs"), JNum(Fin(12.0))),
      "max_items" := Coalesce(Get(c, "max_items"), JNum(Fin(3.0)))
    ]
  }

  /** A configuration set by `setConfig` shows its own fields, or the base ones, in the form. */
  lemma FormShowsSetConfig(c: JValue)
    requires forall k :: k in Spread(c) ==> !Nullish(Spread(c)[k])
    ensures forall k :: k in FormData(Some(EditorConfig(c))) ==> FormData(Some(EditorConfig(c)))[k] == EditorConfig(c)[k]
  {
  }

  /** `typeof v === 'number' ? v : Number(v) || d` */
  function NumberOr(v: JValue, d: real): (r: JValue)
    requires d != 0.0
    ensures v.JNum? ==> r == v
    ensures !v.JNum? ==> r.JNum? && Truthy(r)
    ensures !v.JNum? && Truthy(JNum(ToNumber(v))) ==> r == JNum(ToNumber(v))
    ensures !v.JNum? && !Truthy(JNum(ToNumber(v))) ==> r == JNum(Fin(d))
  {
    if v.JNum? then v else if Truthy(JNum(ToNumber(v))) then JNum(ToNumber(v)) else JNum(Fin(d))
  }

  /** The five normalised form fields of a `value-changed` detail. */
  function FormFields(detail: JValue): (r: map<string, JValue>)
    ensures r.Keys == {"entity", "show_details", "show_map_links", "max_legs", "max_items"}
    ensures var value := Or(Get(detail, "value"), JObj(map[]));
      && r["max_legs"] == NumberOr(Get(value, "max_legs"), 12.0)
      && r["max_items"] == NumberOr(Get(value, "max_items"), 3.0)
      && (Nullish(Get(value, "entity")) ==> r["entity"] == JStr(""))
  {
    var value := Or(Get(detail, "value"), JObj(map[]));
    map[
      "entity" := Coalesce(Get(value, "entity"), JStr("")),
      "show_details" := JBool(Truthy(Get(value, "show_details"))),
      "show_map_links" := JBool(Get(value, "show_map_links") != JBool(false)),
      "max_legs" := NumberOr(Get(value, "max_legs"), 12.0),
      "max_items" := NumberOr(Get(value, "max_items"), 3.0)
    ]
  }

  /**
   * The configuration the form's `value-changed` handler builds: the stored
   * configuration (or a bare one with only the card type), with the five
   * form fields normalised.
   */
  function FormConfig(config: Option<map<string, JValue>>, detail: JValue): (r: map<string, JValue>)
    ensures config.Some? ==> r.Keys == config.value.Keys + FormFields(detail).Keys
    ensures config.None? ==> r.Keys == {"type"} + FormFields(detail).Keys && r["type"] == JStr(CardType)
    ensures config.Some? ==> forall k :: k in config.value && k !in FormFields(detail) ==> r[k] == config.value[k]
    ensures !Nullish(r["entity"]) && r["show_details"].JBool? && r["show_map_links"].JBool?
    ensures r["max_legs"].JNum? && r["max_items"].JNum?
    ensures var value := Or(Get(detail, "value"), JObj(map[]));
      && (r["show_map_links"] == JBool(false) <==> Get(value, "show_map_links") == JBool(false))
      && (r["show_details"] == JBool(true) <==> Truthy(Get(value, "show_details")))
      && (!Nullish(Get(value, "entity")) ==> r["entity"] == Get(value, "entity"))
    ensures var value := Or(Get(detail, "value"), JObj(map[]));
      && r["max_legs"] == NumberOr(Get(value, "max_legs"), 12.0)
      && r["max_items"] == NumberOr(Get(value, "max_items"), 3.0)
      && (Nullish(Get(value, "entity")) ==> r["entity"] == JStr(""))
  {
    var base := if config.Some? then config.value else map["type" := JStr(CardType)];
    base + FormFields(detail)
  }

  /** Handling the same form change twice leaves the configuration as handling it once. */
  lemma FormConfigIdempotent(config: Option<map<string, JValue>>, detail: JValue)
    ensures FormConfig(Some(FormConfig(config, detail)), detail) == FormConfig(config, detail)
  {
    var once := FormConfig(config, detail);
    var twice := FormConfig(Some(once), detail);
    assert twice.Keys == once.Keys;
    assert forall k :: k in twice ==> twice[k] == once[k];
  }

  /** A configuration whose form fields are already in normal form. */
  predicate FormShaped(m: map<string, JValue>)
  {
    && "entity" in m && m["entity"].JStr?
    && "show_details" in m && m["show_details"].JBool?
    && "show_map_links" in m && m["show_map_links"].JBool?
    && "max_legs" in m && m["max_legs"].JNum?
    && "max_items" in m && m["max_items"].JNum?
  }

  /** When the form reports back the data it was shown, a normal-form configuration is unchanged. */
  lemma FormEchoUnchanged(m: map<string, JValue>)
    requires FormShaped(m)
    ensures FormConfig(Some(m), JObj(map["value" := JObj(FormData(Some(m)))])) == m
  {
    var detail := JObj(map["value" := JObj(FormData(Some(m)))]);
    FormFieldsEcho(m);
    var r := FormConfig(Some(m), detail);
    assert r.Keys == m.Keys;
    assert forall k :: k in r ==> r[k] == m[k];
  }

  /** The form data of a normal-form configuration is its five form fields. */
  lemma FormDataShaped(m: map<string, JValue>)
    requires FormShaped(m)
    ensures forall k :: k in FormData(Some(m)) ==> k in m && FormData(Some(m))[k] == m[k]
  {
    assert !Nullish(m["entity"]) && !Nullish(m["show_details"]) && !Nullish(m["show_map_links"]);
    assert !Nullish(m["max_legs"]) && !Nullish(m["max_items"]);
  }

  /** Reading the form data of a normal-form configuration back gives its five form fields. */
  lemma FormFieldsEcho(m: map<string, JValue>)
    requires FormShaped(m)
    ensures var f := FormFields(JObj(map["value" := JObj(FormData(Some(m)))]));
      forall k :: k in f ==> k in m && f[k] == m[k]
  {
    FormDataShaped(m);
    var d := FormData(Some(m));
    var detail := JObj(map["value" := JObj(d)]);
    assert Or(Get(detail, "value"), JObj(map[])) == JObj(d);
    var f := FormFields(detail);
    assert f["entity"] == m["entity"];
    assert f["show_details"] == m["show_details"];
    assert f["show_map_links"] == m["show_map_links"];
  }


  /** The form handler always writes normal-form fields. */
  lemma FormConfigShaped(config: Option<map<string, JValue>>, detail: JValue)
    requires var e := Get(Or(Get(detail, "value"), JObj(map[])), "entity"); Nullish(e) || e.JStr?
    ensures FormShaped(FormConfig(config, detail))
  {
  }

  /** The editor element: its configuration and the `config-changed` events it has dispatched. */
  class TrafiklabTravelCardEditor {
    var config: Option<map<string, JValue>>
    var events: seq<map<string, JValue>>

    constructor()
      ensures config.None? && events == []
    {
      config := None;
      events := [];
    }

    /** `setConfig`: the base fields overridden by the supplied ones; no event. */
    method SetConfig(c: JValue)
      modifies this
      ensures config == Some(EditorConfig(c)) && events == old(events)
    {
      config := Some(EditorConfig(c));
    }

    /**
     * `_valueChanged`: a missing configuration is first replaced by the bare
     * one; the updated copy is stored and dispatched exactly when its JSON
     * text differs from the stored configuration's.
     */
    method ValueChanged(target: JValue, detail: JValue)
      modifies this
      ensures var cur := StartConfig(old(config));
        var next := ValueChangedConfig(cur, target, detail);
        if JsonObject(next) != JsonObject(cur)
        then config == Some(next) && events == old(events) + [next]
        else config == Some(cur) && events == old(events)
      ensures !Truthy(ConfigKey(target)) ==> events == old(events)
    {
      if config.None? {
        config := Some(map["type" := JStr(CardType), "entity" := JStr("")]);
      }
      var cur := config.value;
      var next := ValueChangedConfig(cur, target, detail);
      if JsonObject(next) != JsonObject(cur) {
        config := Some(next);
        events := events + [next];
      }
    }

    /**
     * The form's `value-changed` handler: the normalised configuration is
     * stored and dispatched when there was none, or when its JSON text
     * differs from the stored one's.
     */
    method FormChanged(detail: JValue)
      modifies this
      ensures var next := FormConfig(old(config), detail);
        if old(config).None? || JsonObject(next) != JsonObject(old(config).value)
        then config == Some(next) && events == old(events) + [next]
        else config == old(config) && events == old(events)
    {
      var next := FormConfig(config, detail);
      if config.None? || JsonObject(next) != JsonObject(config.value) {
        config := Some(next);
        events := events + [next];
      }
    }
  }

  /** Changing a stored field to a value with another JSON form changes the configuration's JSON form. */
  lemma ChangedFieldChangesJson(m: map<string, JValue>, k: string, v: JValue)
    requires k in m && m[k] != JUndefined && v != JUndefined && JsonForm(v) != JsonForm(m[k])
    ensures JsonObject(m[k := v]) != JsonObject(m)
  {
    var a := JsonObject(m[k := v]);
    var b := JsonObject(m);
    assert a.fields[k] == JsonForm(v);
    assert b.fields[k] == JsonForm(m[k]);
  }

  /** Toggling a stored checkbox setting emits an event carrying the new setting. */
  lemma ToggleEmits(m: map<string, JValue>, key: string, b: bool)
    requires key != "" && key in m && m[key] == JBool(!b)
    ensures var target := JObj(map["configValue" := JStr(key), "type" := JStr("checkbox"), "checked" := JBool(b)]);
      var next := ValueChangedConfig(m, target, JUndefined);
      JsonObject(next) != JsonObject(m) && next[key] == JBool(b)
  {
    var target := JObj(map["configValue" := JStr(key), "type" := JStr("checkbox"), "checked" := JBool(b)]);
    assert ConfigKey(target) == JStr(key);
    assert IsCheckbox(target);
    assert Get(target, "checked") == JBool(b);
    ChangedFieldChangesJson(m, key, JBool(b));
  }
}
