/**
 * The OpenStreetMap link both cards build for a stop with coordinates
 * (`_mapLink` and `mapLink`). `Number(x).toFixed(6)` is a parameter: its
 * rounding is not part of the model.
 */
module MapLinks {
  import opened JsString
  import opened JsNum
  import opened JsValue
  import opened Wrappers

  const LinkPrefix: string := "https://www.openstreetmap.org/?mlat="

  /**
   * The link for a stop with latitude `lat` and longitude `lon`: undefined
   * when either is undefined or null, otherwise both rendered with `fixed6`
   * and written once as query parameters and once in the map fragment.
   */
  function MapLink(lat: JValue, lon: JValue, fixed6: Num -> string): (r: Option<string>)
    ensures r.None? <==> Nullish(lat) || Nullish(lon)
  {
    if Nullish(lat) || Nullish(lon) then None
    else
      Some(Link(fixed6(ToNumber(lat)), fixed6(ToNumber(lon))))
  }

  /** The link text for rendered coordinates `la` and `lo`. */
  function Link(la: string, lo: string): string
  {
    LinkPrefix + la + "&mlon=" + lo + "#map=16/" + la + "/" + lo
  }

  /** The part of a link before its `#`. */
  function Query(url: string): string
  {
    Split(url, '#')[0]
  }

  /** The latitude and longitude written in the query, `?mlat=A&mlon=B`. */
  function QueryCoords(url: string): Option<(string, string)>
  {
    var q := Split(Query(url), '&');
    if |q| == 2 && StartsWith(q[0], LinkPrefix) && StartsWith(q[1], "mlon=")
    then Some((q[0][|LinkPrefix|..], q[1][5..]))
    else None
  }

  /** The latitude and longitude written in the fragment, `#map=16/A/B`. */
  function FragmentCoords(url: string): Option<(string, string)>
  {
    var parts := Split(url, '#');
    if |parts| == 2 then
      var f := Split(parts[1], '/');
      if |f| == 3 && f[0] == "map=16" then Some((f[1], f[2])) else None
    else None
  }

  predicate Plain(s: string)
  {
    '#' !in s && '&' !in s && '/' !in s
  }

  /** A link splits at its `#` into the query and the map fragment. */
  lemma LinkParts(la: string, lo: string)
    requires Plain(la) && Plain(lo)
    ensures Split(Link(la, lo), '#') == [LinkPrefix + la + "&" + "mlon=" + lo, "map=16" + "/" + la + "/" + lo]
  {
    var q := LinkPrefix + la + "&" + "mlon=" + lo;
    var f := "map=16" + "/" + la + "/" + lo;
    assert Link(la, lo) == q + "#" + f;
    LinkPrefixPlain();
    assert '#' !in "mlon=" && '#' !in "map=16";
    SplitTwo(q, f, '#');
  }

  lemma LinkPrefixPlain()
    ensures '#' !in LinkPrefix && '&' !in LinkPrefix
  {
  }

  /** The query holds the coordinates. */
  lemma LinkQuery(la: string, lo: string)
    requires Plain(la) && Plain(lo)
    ensures QueryCoords(Link(la, lo)) == Some((la, lo))
  {
    LinkParts(la, lo);
    var p0 := LinkPrefix + la;
    var p1 := "mlon=" + lo;
    LinkPrefixPlain();
    assert '&' !in "mlon=";
    assert Query(Link(la, lo)) == p0 + "&" + p1;
    SplitTwo(p0, p1, '&');
    assert p0[..|LinkPrefix|] == LinkPrefix && p0[|LinkPrefix|..] == la;
    assert p1[..5] == "mlon=" && p1[5..] == lo;
  }

  /** The fragment holds the coordinates. */
  lemma LinkFragment(la: string, lo: string)
    requires Plain(la) && Plain(lo)
    ensures FragmentCoords(Link(la, lo)) == Some((la, lo))
  {
    LinkParts(la, lo);
    assert '/' !in "map=16";
    SplitThree("map=16", la, lo, '/');
  }

  /**
   * A link shows the same rendered coordinates in its query and in its
   * fragment, as long as the rendering has no URL delimiters (`toFixed`
   * writes only digits, a sign and a point).
   */
  lemma MapLinkCoordsAgree(lat: JValue, lon: JValue, fixed6: Num -> string)
    requires !Nullish(lat) && !Nullish(lon)
    requires Plain(fixed6(ToNumber(lat))) && Plain(fixed6(ToNumber(lon)))
    ensures MapLink(lat, lon, fixed6).Some?
    ensures QueryCoords(MapLink(lat, lon, fixed6).value) == Some((fixed6(ToNumber(lat)), fixed6(ToNumber(lon))))
    ensures FragmentCoords(MapLink(lat, lon, fixed6).value) == Some((fixed6(ToNumber(lat)), fixed6(ToNumber(lon))))
  {
    LinkQuery(fixed6(ToNumber(lat)), fixed6(ToNumber(lon)));
    LinkFragment(fixed6(ToNumber(lat)), fixed6(ToNumber(lon)));
  }
}
