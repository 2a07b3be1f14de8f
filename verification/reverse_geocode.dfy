/** The map page's `reverseGeocode(lng, lat)`: the range check, the
    coordinate query it sends to the geocoding route, and the fallback label
    it returns whenever no place name comes back. */
module ReverseGeocode {
  import opened Wrappers
  import opened JsNumbers
  import opened JsValues
  import opened Text
  import GeocodeRoute

  /** Longitude within [-180, 180] and latitude within [-90, 90]. */
  predicate InRange(lng: real, lat: real) {
    -180.0 <= lng <= 180.0 && -90.0 <= lat <= 90.0
  }

  const LabelPrefix: string := "Location at "

  /** The label used when no place name is available: latitude first, then
      longitude, each to 4 decimals. */
  function FallbackLabel(lng: real, lat: real): string {
    LabelPrefix + ToFixed(lat, 4) + ", " + ToFixed(lng, 4)
  }

  /** The query sent for a point: longitude first, then latitude, each to 6
      decimals, separated by a comma. */
  function CoordinateQuery(lng: real, lat: real): string {
    ToFixed(lng, 6) + "," + ToFixed(lat, 6)
  }

  /** What the request to the geocoding route produced: a response with its
      status and its body when that parses as JSON, or a thrown error. */
  datatype Fetched = Fetched(status: int, json: Option<JsValue>) | FetchFailed

  /** The response the client sees for a reply of the route. */
  function FromRoute(reply: GeocodeRoute.Reply): Fetched {
    Fetched(reply.status, Some(reply.body))
  }

  /** `data.features[0].place_name` when `data.features` is non-empty; `None`
      when the fallback is taken instead (no features, or reading them
      throws). */
  function FirstPlaceName(data: JsValue): (r: Option<JsValue>)
    ensures r.Some? ==> (Get(data, "features").Arr? && |Get(data, "features").items| > 0)
                        || (Get(data, "features").Str? && |Get(data, "features").s| > 0)
  {
    var features := Get(data, "features");
    match features
    case Arr(items) =>
      if |items| == 0 || items[0].Null? || items[0].Undefined? then None
      else Some(Get(items[0], "place_name"))
    case Str(s) => if |s| > 0 then Some(Undefined) else None
    case _ => None
  }

  /** One call: the query requested (if any) and the value resolved. */
  datatype Lookup = Lookup(query: Option<string>, result: JsValue)

  function ReverseLookup(lng: real, lat: real, fetched: Fetched): (r: Lookup)
    ensures !InRange(lng, lat) ==> r == Lookup(None, Str(FallbackLabel(lng, lat)))
    ensures InRange(lng, lat) ==> r.query == Some(CoordinateQuery(lng, lat))
    ensures (InRange(lng, lat) && (fetched.FetchFailed? || !GeocodeRoute.IsOk(fetched.status)
                                   || fetched.json.None? || FirstPlaceName(fetched.json.value).None?))
              ==> r.result == Str(FallbackLabel(lng, lat))
    ensures (InRange(lng, lat) && fetched.Fetched? && GeocodeRoute.IsOk(fetched.status)
             && fetched.json.Some? && FirstPlaceName(fetched.json.value).Some?)
              ==> r.result == FirstPlaceName(fetched.json.value).value
    ensures r.result != Str(FallbackLabel(lng, lat)) ==>
              fetched.Fetched? && GeocodeRoute.IsOk(fetched.status) && fetched.json.Some?
              && FirstPlaceName(fetched.json.value) == Some(r.result)
  {
    var fallback := Str(FallbackLabel(lng, lat));
    if !InRange(lng, lat) then Lookup(None, fallback)
    else
      var result :=
        match fetched
        case FetchFailed => fallback
        case Fetched(status, json) =>
          if !GeocodeRoute.IsOk(status) || json.None? then fallback
          else FirstPlaceName(json.value).GetOr(fallback);
      Lookup(Some(CoordinateQuery(lng, lat)), result)
  }

  /** The query for any point splits at its single comma into the two
      numbers, longitude first, each within half a unit of the sixth decimal
      of the coordinate it came from; so the route always reads it as a
      reverse lookup and asks for one result. */
  lemma CoordinateQueryIsReverse(lng: real, lat: real)
    ensures var parts := Split(CoordinateQuery(lng, lat), ',');
            |parts| == 2
            && ParseFloat(parts[0]).Finite? && ParseFloat(parts[1]).Finite?
            && -HalfUnit(6) <= ParseFloat(parts[0]).value - lng <= HalfUnit(6)
            && -HalfUnit(6) <= ParseFloat(parts[1]).value - lat <= HalfUnit(6)
    ensures GeocodeRoute.IsReverseQuery(CoordinateQuery(lng, lat))
    ensures GeocodeRoute.Limit(CoordinateQuery(lng, lat)) == 1
  {
    var a, b := ToFixed(lng, 6), ToFixed(lat, 6);
    var q := CoordinateQuery(lng, lat);
    ToFixedChars(lng, 6);
    ToFixedChars(lat, 6);
    assert Join([a, b], ',') == q;
    SplitJoin([a, b], ',');
    ToFixedParses(lng, 6);
    ToFixedParses(lat, 6);
    assert OccursAt(q, ",", |a|) by {
      assert q[|a|..|a| + 1] == ",";
    }
    ContainsIff(q, ",");
  }

  /** Whatever the provider does, a lookup of an in-range point goes through
      the route as a reverse lookup limited to one result. */
  lemma LookupUsesReverseEndpoint(lng: real, lat: real, token: string, upstream: GeocodeRoute.Upstream)
    requires InRange(lng, lat) && |token| > 0
    ensures var q := CoordinateQuery(lng, lat);
            var run := GeocodeRoute.HandleGet(Some(q), Some(token), upstream);
            run.fetched == Some(GeocodeRoute.BeforeToken(q) + token + "&limit=1")
  {
    var q := CoordinateQuery(lng, lat);
    ToFixedChars(lng, 6);
    assert |q| > 0;
    CoordinateQueryIsReverse(lng, lat);
    assert NatToString(1) == "1";
    assert GeocodeRoute.AfterToken(q) == "&limit=1";
    var run := GeocodeRoute.HandleGet(Some(q), Some(token), upstream);
    assert run.fetched == Some(GeocodeRoute.Endpoint(q, token));
  }

  /** The fallback label names latitude first: after the prefix it splits
      at its single comma into the latitude and then the longitude, each
      within half a unit of the fourth decimal. */
  lemma FallbackLabelOrder(lng: real, lat: real)
    ensures LabelPrefix <= FallbackLabel(lng, lat)
    ensures var parts := Split(FallbackLabel(lng, lat)[|LabelPrefix|..], ',');
            |parts| == 2
            && ParseFloat(parts[0]).Finite? && ParseFloat(parts[1]).Finite?
            && -HalfUnit(4) <= ParseFloat(parts[0]).value - lat <= HalfUnit(4)
            && -HalfUnit(4) <= ParseFloat(parts[1]).value - lng <= HalfUnit(4)
  {
    var a, b := ToFixed(lat, 4), ToFixed(lng, 4);
    LabelParts(lng, lat);
    ToFixedParses(lat, 4);
    ToFixedParses(lng, 4);
    ParseFloatAfterSpace(b);
  }

  /** After the prefix, the fallback label splits at its comma into the
      fixed latitude and the space-led fixed longitude. */
  lemma LabelParts(lng: real, lat: real)
    ensures LabelPrefix <= FallbackLabel(lng, lat)
    ensures Split(FallbackLabel(lng, lat)[|LabelPrefix|..], ',')
         == [ToFixed(lat, 4), " " + ToFixed(lng, 4)]
  {
    var a, b := ToFixed(lat, 4), ToFixed(lng, 4);
    var text := FallbackLabel(lng, lat);
    assert text == LabelPrefix + (a + "," + (" " + b));
    assert text[|LabelPrefix|..] == a + "," + (" " + b);
    ToFixedChars(lat, 4);
    ToFixedChars(lng, 4);
    assert Join([a, " " + b], ',') == a + "," + (" " + b);
    SplitJoin([a, " " + b], ',');
  }

  /** `parseFloat` skips a leading space. */
  lemma ParseFloatAfterSpace(t: string)
    ensures ParseFloat(" " + t) == ParseFloat(t)
  {
    assert (" " + t)[1..] == t;
    assert TrimStart(" " + t) == TrimStart(t);
  }
}
