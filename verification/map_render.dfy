/** The render filter and projection of the map page (`updateMapData`):
    films whose coordinates are usable become GeoJSON point features,
    longitude first as section 3.1.2 of RFC 7946 requires. */
module MapRender {
  import opened JsNumbers
  import opened JsValues
  import opened Films

  /** `typeof v === 'number' && !isNaN(v)`: infinities pass. */
  predicate IsNumber(v: JsValue) {
    v.Number? && !v.n.NaN?
  }

  /** The validity test: coordinates present, and both `lat` and `lng`
      numbers other than NaN. No range is checked. */
  predicate HasValidCoords(c: JsValue) {
    Truthy(c) && IsNumber(Get(c, "lat")) && IsNumber(Get(c, "lng"))
  }

  /** Coordinates present and exactly at latitude 0, longitude 0. */
  predicate IsAtOrigin(c: JsValue) {
    Truthy(c) && Get(c, "lat") == Real(0.0) && Get(c, "lng") == Real(0.0)
  }

  predicate Renderable(f: Film) {
    HasValidCoords(f.coordinates) && !IsAtOrigin(f.coordinates)
  }

  /** A point feature: `coordinates` is the geometry's `[lng, lat]`; the
      other fields are its properties. */
  datatype Feature = Feature(
    coordinates: seq<JsValue>,
    id: string,
    title: string,
    location: string,
    year: int,
    description: string)

  function FeatureOf(f: Film): (x: Feature)
    ensures |x.coordinates| == 2
    ensures x.coordinates[0] == Get(f.coordinates, "lng")
    ensures x.coordinates[1] == Get(f.coordinates, "lat")
    ensures x.id == f.id
  {
    Feature([Get(f.coordinates, "lng"), Get(f.coordinates, "lat")],
            f.id, f.title, f.location, f.year, f.description)
  }

  /** The features of a film list: every renderable film, in order. */
  function Features(films: seq<Film>): (r: seq<Feature>)
    ensures |r| <= |films|
    ensures forall f :: f in films && Renderable(f) ==> FeatureOf(f) in r
    ensures forall x :: x in r ==> exists f :: f in films && Renderable(f) && x == FeatureOf(f)
    ensures forall k :: 0 <= k < |r| ==>
              |r[k].coordinates| == 2
              && IsNumber(r[k].coordinates[0]) && IsNumber(r[k].coordinates[1])
              && !(r[k].coordinates[0] == Real(0.0) && r[k].coordinates[1] == Real(0.0))
  {
    if |films| == 0 then []
    else
      var rest := Features(films[1..]);
      assert forall f :: f in films[1..] ==> f in films;
      if Renderable(films[0]) then [FeatureOf(films[0])] + rest else rest
  }

  /** The projection keeps the order of the films: the features of a
      concatenation are the concatenation of the features. */
  lemma {:induction false} FeaturesConcat(a: seq<Film>, b: seq<Film>)
    ensures Features(a + b) == Features(a) + Features(b)
    decreases |a|
  {
    if |a| == 0 {
      assert a + b == b;
    } else {
      assert (a + b)[0] == a[0];
      assert (a + b)[1..] == a[1..] + b;
      FeaturesConcat(a[1..], b);
    }
  }

  /** No range is checked: a film at longitude 200 is still drawn. */
  lemma OutOfRangeRendered(f: Film)
    requires f.coordinates == Obj(map["lng" := Real(200.0), "lat" := Real(10.0)])
    ensures Renderable(f)
    ensures Features([f]) == [FeatureOf(f)]
  {
    assert Get(f.coordinates, "lng") == Real(200.0);
  }
}
