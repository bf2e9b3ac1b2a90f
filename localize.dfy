/**
 * `localize(hass, path, vars)`: the language is chosen from the Home Assistant
 * object, the dot-separated path is looked up in the English or Swedish
 * dictionary (falling back to the path itself), and `{key}` placeholders are
 * replaced by the variables. The dictionaries are parameters: their contents
 * are not part of the model.
 */
module Localize {
  import opened JsString
  import opened JsValue
  import opened Wrappers

  /** `hass?.locale?.language || hass?.language || 'en'` */
  function Language(hass: JValue): (r: JValue)
    ensures Truthy(r)
    ensures Truthy(Get(Get(hass, "locale"), "language")) ==> r == Get(Get(hass, "locale"), "language")
    ensures !Truthy(Get(Get(hass, "locale"), "language")) && Truthy(Get(hass, "language")) ==> r == Get(hass, "language")
    ensures !Truthy(Get(Get(hass, "locale"), "language")) && !Truthy(Get(hass, "language")) ==> r == JStr("en")
  {
    Or(Get(Get(hass, "locale"), "language"), Or(Get(hass, "language"), JStr("en")))
  }

  /** The Swedish dictionary is used exactly when the lowercased language starts with "sv". */
  predicate IsSwedish(lang: JValue)
  {
    StartsWith(Lower(ToStr(lang)), "sv")
  }

  /** `lang.toLowerCase().startsWith('sv') ? sv : en` */
  function Dictionary(hass: JValue, en: JValue, sv: JValue): (r: JValue)
    ensures r == sv || r == en
  {
    if IsSwedish(Language(hass)) then sv else en
  }

  /**
   * For two different dictionaries, the Swedish one is chosen exactly when the
   * language text begins with "s" or "S" followed by "v" or "V".
   */
  lemma DictionaryRule(hass: JValue, en: JValue, sv: JValue)
    requires en != sv
    ensures var l := ToStr(Language(hass));
      Dictionary(hass, en, sv) == sv <==> |l| >= 2 && (l[0] == 's' || l[0] == 'S') && (l[1] == 'v' || l[1] == 'V')
  {
  }

  /**
   * The locale's language wins over `hass.language`, the prefix "sv" is read
   * in any case, and without any language the English dictionary is used.
   */
  lemma DictionaryExamples(en: JValue, sv: JValue)
    ensures Dictionary(JObj(map["locale" := JObj(map["language" := JStr("SV-se")]), "language" := JStr("en")]), en, sv) == sv
    ensures Dictionary(JObj(map["language" := JStr("en-GB")]), en, sv) == en
    ensures Dictionary(JObj(map["language" := JStr("sv")]), en, sv) == sv
    ensures Dictionary(JUndefined, en, sv) == en
  {
    assert Lower("SV-se")[..2] == "sv";
    assert Lower("sv")[..2] == "sv";
    assert Lower("en-GB")[..2] != "sv" by { assert Lower("en-GB")[0] == 'e'; }
    assert Lower("en")[..2] != "sv" by { assert Lower("en")[0] == 'e'; }
  }

  /** `keys.reduce((acc, key) => (acc ? acc[key] : undefined), acc)` */
  function Descend(acc: JValue, keys: seq<string>): JValue
    decreases |keys|
  {
    if |keys| == 0 then acc
    else Descend(if Truthy(acc) then Get(acc, keys[0]) else JUndefined, keys[1..])
  }

  /** Once the descent reaches a falsy value, it stays undefined. */
  lemma {:induction false} DescendFalsy(acc: JValue, keys: seq<string>)
    requires !Truthy(acc) && |keys| > 0
    ensures Descend(acc, keys) == JUndefined
    decreases |keys|
  {
    if |keys| > 1 {
      DescendFalsy(JUndefined, keys[1..]);
    }
  }

  /** Descending along a + b is descending along a, then along b. */
  lemma {:induction false} DescendAppend(acc: JValue, a: seq<string>, b: seq<string>)
    ensures Descend(acc, a + b) == Descend(Descend(acc, a), b)
    decreases |a|
  {
    if |a| == 0 {
      assert a + b == b;
    } else {
      assert (a + b)[0] == a[0];
      assert (a + b)[1..] == a[1..] + b;
      DescendAppend(if Truthy(acc) then Get(acc, a[0]) else JUndefined, a[1..], b);
    }
  }

  /** `path.split('.').reduce(...) || path` */
  function Lookup(dict: JValue, path: string): (r: JValue)
    ensures path != "" ==> Truthy(r)
    ensures Truthy(Descend(dict, Split(path, '.'))) ==> r == Descend(dict, Split(path, '.'))
    ensures !Truthy(Descend(dict, Split(path, '.'))) ==> r == JStr(path)
  {
    Or(Descend(dict, Split(path, '.')), JStr(path))
  }

  /** A path made of dot-free segments is looked up segment by segment. */
  lemma LookupSegments(dict: JValue, parts: seq<string>)
    requires |parts| >= 1
    requires forall i :: 0 <= i < |parts| ==> '.' !in parts[i]
    ensures Truthy(Descend(dict, parts)) ==> Lookup(dict, Join(parts, '.')) == Descend(dict, parts)
    ensures !Truthy(Descend(dict, parts)) ==> Lookup(dict, Join(parts, '.')) == JStr(Join(parts, '.'))
  {
    SplitJoin(parts, '.');
  }

  /** A two-level key resolving to a non-empty string gives that string. */
  lemma LookupTwoLevels(m: map<string, JValue>, k1: string, k2: string, text: string)
    requires '.' !in k1 && '.' !in k2
    requires k1 in m && m[k1].JObj? && k2 in m[k1].fields && m[k1].fields[k2] == JStr(text) && text != ""
    ensures Lookup(JObj(m), k1 + "." + k2) == JStr(text)
  {
    var parts := [k1, k2];
    assert Join(parts, '.') == k1 + "." + k2 by {
      assert Join(parts[1..], '.') == k2;
    }
    assert parts[1..] == [k2] && [k2][1..] == [];
    assert Descend(JObj(m), parts) == Descend(m[k1], [k2]);
    assert Descend(m[k1], [k2]) == Descend(JStr(text), []);
    LookupSegments(JObj(m), parts);
  }

  /** A missing top-level segment gives the path itself. */
  lemma LookupMissingKey(m: map<string, JValue>, k: string, rest: seq<string>)
    requires k !in m && '.' !in k
    requires forall i :: 0 <= i < |rest| ==> '.' !in rest[i]
    ensures Lookup(JObj(m), Join([k] + rest, '.')) == JStr(Join([k] + rest, '.'))
  {
    var parts := [k] + rest;
    assert parts[0] == k && parts[1..] == rest;
    forall i | 0 <= i < |parts|
      ensures '.' !in parts[i]
    {
      if i > 0 { assert parts[i] == rest[i - 1]; }
    }
    LookupSegments(JObj(m), parts);
    if |rest| > 0 {
      DescendFalsy(JUndefined, rest);
    }
  }

  /** The placeholder `{k}` a variable named k replaces. */
  function Placeholder(k: string): (p: string)
    ensures |p| == |k| + 2 && p[0] == '{' && p[|p| - 1] == '}'
  {
    "{" + k + "}"
  }

  /** `Object.entries(vars).reduce((str, [k, v]) => str.replaceAll(`{${k}}`, String(v)), s)` */
  function Substitute(s: string, vars: seq<(string, JValue)>): string
    decreases |vars|
  {
    if |vars| == 0 then s
    else Substitute(ReplaceAll(s, Placeholder(vars[0].0), ToStr(vars[0].1)), vars[1..])
  }

  /** A string with none of the placeholders is returned unchanged. */
  lemma {:induction false} SubstituteAbsent(s: string, vars: seq<(string, JValue)>)
    requires forall i :: 0 <= i < |vars| ==> !Contains(s, Placeholder(vars[i].0))
    ensures Substitute(s, vars) == s
    decreases |vars|
  {
    if |vars| > 0 {
      ReplaceAllAbsent(s, Placeholder(vars[0].0), ToStr(vars[0].1));
      SubstituteAbsent(s, vars[1..]);
    }
  }

  /** Variables are applied one after the other, in entry order. */
  lemma {:induction false} SubstituteAppend(s: string, a: seq<(string, JValue)>, b: seq<(string, JValue)>)
    ensures Substitute(s, a + b) == Substitute(Substitute(s, a), b)
    decreases |a|
  {
    if |a| == 0 {
      assert a + b == b;
    } else {
      assert (a + b)[0] == a[0];
      assert (a + b)[1..] == a[1..] + b;
      SubstituteAppend(ReplaceAll(s, Placeholder(a[0].0), ToStr(a[0].1)), a[1..], b);
    }
  }

  /** One variable replaces the leftmost placeholder and goes on after it. */
  lemma SubstituteOne(s: string, k: string, v: JValue, i: nat)
    requires i + |Placeholder(k)| <= |s| && s[i..i + |Placeholder(k)|] == Placeholder(k)
    requires forall j :: 0 <= j < i ==> !StartsWith(s[j..], Placeholder(k))
    ensures Substitute(s, [(k, v)])
      == s[..i] + ToStr(v) + ReplaceAll(s[i + |Placeholder(k)|..], Placeholder(k), ToStr(v))
  {
    NoMatchBeforeOf(s, Placeholder(k), i);
    ReplaceAllLeftmost(s, Placeholder(k), ToStr(v), i);
    assert [(k, v)][1..] == [];
    assert Substitute(s, [(k, v)]) == ReplaceAll(s, Placeholder(k), ToStr(v));
  }

  /**
   * `localize(hass, path, vars)`. Without variables the dictionary entry (or
   * the path) is returned as it is, whatever its type; with at least one
   * variable an entry that is not a string makes `replaceAll` throw a TypeError.
   */
  function Localize(hass: JValue, en: JValue, sv: JValue, path: string, vars: Option<seq<(string, JValue)>>)
    : (r: Result<JValue, string>)
    ensures vars.None? ==> r == Ok(Lookup(Dictionary(hass, en, sv), path))
    ensures vars.Some? && |vars.value| == 0 ==> r == Ok(Lookup(Dictionary(hass, en, sv), path))
    ensures r.Err? <==> vars.Some? && |vars.value| > 0 && !Lookup(Dictionary(hass, en, sv), path).JStr?
    ensures vars.Some? && Lookup(Dictionary(hass, en, sv), path).JStr? ==>
      r == Ok(JStr(Substitute(Lookup(Dictionary(hass, en, sv), path).s, vars.value)))
  {
    var value := Lookup(Dictionary(hass, en, sv), path);
    if vars.None? then Ok(value)
    else if |vars.value| == 0 then Ok(value)
    else if value.JStr? then Ok(JStr(Substitute(value.s, vars.value)))
    else Err("TypeError")
  }

  /** A path missing from the chosen dictionary comes back as itself, with placeholders substituted. */
  lemma LocalizeMissing(hass: JValue, en: JValue, sv: JValue, path: string, vars: seq<(string, JValue)>)
    requires !Truthy(Descend(Dictionary(hass, en, sv), Split(path, '.')))
    ensures Localize(hass, en, sv, path, None) == Ok(JStr(path))
    ensures Localize(hass, en, sv, path, Some(vars)) == Ok(JStr(Substitute(path, vars)))
  {
  }
}
