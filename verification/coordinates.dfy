/** Coordinate normalisation of the map page (`parseCoordinates`): an object
    that already has `lng` and `lat`, a well-known-text point string
    `POINT(lng lat)` (longitude first, as in clause 7 of OGC 06-103r4), or a
    GeoJSON-style object whose `coordinates` array lists longitude then
    latitude (section 3.1.2 of RFC 7946). Anything else becomes the origin. */
module Coordinates {
  import opened Wrappers
  import opened JsNumbers
  import opened JsValues

  // ---------------------------------------------------------------------------
  // The pattern /POINT\(([^ ]+) ([^ ]+)\)/
  // ---------------------------------------------------------------------------

  const Prefix: string := "POINT("

  /** What the pattern matches, given its two groups. */
  function PointText(g1: string, g2: string): string {
    Prefix + g1 + " " + g2 + ")"
  }

  /** The pattern matches at index `i` of `s` with groups `g1` and `g2`. */
  ghost predicate PointAt(s: string, i: nat, g1: string, g2: string) {
    var w := PointText(g1, g2);
    i + |w| <= |s| && s[i..i + |w|] == w
    && |g1| >= 1 && ' ' !in g1 && |g2| >= 1 && ' ' !in g2
  }

  /** The longest prefix of `s` without a space: what a greedy `[^ ]+`
      consumes before backtracking. */
  function NonSpaceRun(s: string): (r: string)
    ensures r <= s && ' ' !in r
    ensures |r| == |s| || s[|r|] == ' '
  {
    if |s| == 0 || s[0] == ' ' then "" else [s[0]] + NonSpaceRun(s[1..])
  }

  /** The last position, other than the first, of a `)` in `run`. */
  function LastCloseParen(run: string): (r: Option<nat>)
    ensures r.Some? ==> 1 <= r.value < |run| && run[r.value] == ')'
    ensures r.Some? ==> forall j :: r.value < j < |run| ==> run[j] != ')'
    ensures r.None? ==> forall j :: 1 <= j < |run| ==> run[j] != ')'
    decreases |run|
  {
    if |run| <= 1 then None
    else if run[|run| - 1] == ')' then Some(|run| - 1)
    else LastCloseParen(run[..|run| - 1])
  }

  /** The backtracking matcher started at index `i`. The first group must
      be the whole run of non-spaces, since a shorter one is not followed by
      a space. The second group is the longest prefix of the next run of
      non-spaces that a `)` follows; when there is none the attempt fails. */
  function MatchAt(s: string, i: nat): (r: Option<(string, string)>)
    requires i <= |s|
    ensures r.Some? ==> PointAt(s, i, r.value.0, r.value.1)
  {
    var t := s[i..];
    if !(Prefix <= t) then None
    else
      var u := t[|Prefix|..];
      var g1 := NonSpaceRun(u);
      if |g1| == 0 || |g1| == |u| then None
      else
        var rest := u[|g1| + 1..];
        var run := NonSpaceRun(rest);
        match LastCloseParen(run)
        case None => None
        case Some(j) =>
          GroupsFollow(s, i, g1, run, j);
          Some((g1, run[..j]))
  }

  /** The text after the prefix is the first group, a space, then a run of
      non-spaces whose character `j` is `)`: the point pattern occurs at
      `i` with the run's first `j` characters as second group. */
  lemma GroupsFollow(s: string, i: nat, g1: string, run: string, j: nat)
    requires i <= |s| && Prefix <= s[i..]
    requires |g1| >= 1 && ' ' !in g1
    requires |g1| < |s[i..][|Prefix|..]|
    requires g1 <= s[i..][|Prefix|..] && s[i..][|Prefix|..][|g1|] == ' '
    requires run <= s[i..][|Prefix|..][|g1| + 1..] && ' ' !in run
    requires 1 <= j < |run| && run[j] == ')'
    ensures PointAt(s, i, g1, run[..j])
  {
    var t := s[i..];
    var u := t[|Prefix|..];
    var rest := u[|g1| + 1..];
    var g2 := run[..j];
    var tail := g2 + ")";
    assert tail == rest[..j + 1];
    assert forall c :: c in g2 ==> c in run;
    var m := g1 + " " + tail;
    assert m == u[..|g1| + 1 + j + 1];
    var w := PointText(g1, g2);
    assert w == Prefix + m;
    assert w == t[..|Prefix| + |m|];
    assert s[i..i + |w|] == w;
  }

  /** The pattern occurs at no index from `lo` up to, but excluding, `hi`. */
  ghost predicate NoPointBetween(s: string, lo: nat, hi: nat) {
    forall k: nat, g1: string, g2: string :: lo <= k < hi ==> !PointAt(s, k, g1, g2)
  }

  /** The matcher started at `i` fails only when the pattern does not occur
      at `i`: the first group must be the whole run of non-spaces, and the
      `)` closing any occurrence lies in the second run. */
  lemma MatchAtComplete(s: string, i: nat, g1: string, g2: string)
    requires PointAt(s, i, g1, g2)
    ensures MatchAt(s, i).Some?
  {
    var t := s[i..];
    var w := PointText(g1, g2);
    assert t[..|w|] == w;
    assert Prefix <= t;
    var u := t[|Prefix|..];
    var after := u[|g1| + 1 + |g2| + 1..];
    assert u == g1 + (" " + g2 + ")" + after);
    NonSpaceRunOf(g1, " " + g2 + ")" + after);
    assert NonSpaceRun(" " + g2 + ")" + after) == "";
    assert g1 + "" == g1;
    assert NonSpaceRun(u) == g1;
    var rest := u[|g1| + 1..];
    assert rest == g2 + (")" + after);
    NonSpaceRunOf(g2, ")" + after);
    NonSpaceRunOf(")", after);
    var run := NonSpaceRun(rest);
    assert run == g2 + (")" + NonSpaceRun(after));
    assert run[|g2|] == ')';
  }

  lemma MatchAtNone(s: string, i: nat)
    requires i <= |s| && MatchAt(s, i).None?
    ensures NoPointBetween(s, i, i + 1)
  {
    forall k: nat, g1: string, g2: string | i <= k < i + 1
      ensures !PointAt(s, k, g1, g2)
    {
      if PointAt(s, k, g1, g2) {
        MatchAtComplete(s, k, g1, g2);
      }
    }
  }

  /** The leftmost match at or after index `i`: where there is one, the
      pattern occurs nowhere between `i` and its start; where there is
      none, the pattern occurs nowhere from `i` on. */
  function MatchFrom(s: string, i: nat): (r: Option<(string, string)>)
    requires i <= |s|
    ensures r.Some? ==> exists k: nat :: i <= k <= |s| && PointAt(s, k, r.value.0, r.value.1)
                                         && NoPointBetween(s, i, k)
    ensures r.None? ==> NoPointBetween(s, i, |s| + 1)
    decreases |s| - i
  {
    match MatchAt(s, i)
    case Some(g) =>
      assert PointAt(s, i, g.0, g.1) && NoPointBetween(s, i, i);
      Some(g)
    case None =>
      MatchAtNone(s, i);
      if i == |s| then None
      else
        var r := MatchFrom(s, i + 1);
        NoPointJoin(s, i, r);
        r
  }

  /** No occurrence at `i` extends the leftmost-match facts of `i + 1` to `i`. */
  lemma NoPointJoin(s: string, i: nat, r: Option<(string, string)>)
    requires i < |s| && NoPointBetween(s, i, i + 1)
    requires r.Some? ==> exists k: nat :: i + 1 <= k <= |s| && PointAt(s, k, r.value.0, r.value.1)
                                          && NoPointBetween(s, i + 1, k)
    requires r.None? ==> NoPointBetween(s, i + 1, |s| + 1)
    ensures r.Some? ==> exists k: nat :: i <= k <= |s| && PointAt(s, k, r.value.0, r.value.1)
                                         && NoPointBetween(s, i, k)
    ensures r.None? ==> NoPointBetween(s, i, |s| + 1)
  {
    if r.Some? {
      var k: nat :| i + 1 <= k <= |s| && PointAt(s, k, r.value.0, r.value.1) && NoPointBetween(s, i + 1, k);
      assert NoPointBetween(s, i, k);
    }
  }

  /** `s.match(/POINT\(([^ ]+) ([^ ]+)\)/)`: the two groups of the leftmost
      match, if any; `None` exactly when the pattern occurs nowhere. */
  function MatchPoint(s: string): (r: Option<(string, string)>)
    ensures r.Some? ==> exists k: nat :: k <= |s| && PointAt(s, k, r.value.0, r.value.1)
                                         && forall j: nat, h1: string, h2: string :: j < k ==> !PointAt(s, j, h1, h2)
    ensures r.None? ==> forall k: nat, g1: string, g2: string :: !PointAt(s, k, g1, g2)
  {
    var r := MatchFrom(s, 0);
    assert r.None? ==> forall k: nat, g1: string, g2: string :: !PointAt(s, k, g1, g2) by {
      if r.None? {
        forall k: nat, g1: string, g2: string ensures !PointAt(s, k, g1, g2) {
          if k <= |s| {
            assert 0 <= k < |s| + 1;
          }
        }
      }
    }
    r
  }

  lemma {:induction false} NonSpaceRunOf(a: string, b: string)
    requires ' ' !in a
    ensures NonSpaceRun(a + b) == a + NonSpaceRun(b)
    decreases |a|
  {
    if |a| > 0 {
      assert (a + b)[0] == a[0] && a[0] in a;
      assert (a + b)[1..] == a[1..] + b;
      NonSpaceRunOf(a[1..], b);
      assert [a[0]] + a[1..] == a;
    } else {
      assert a + b == b;
    }
  }

  /** A point written with space-free coordinates, the second of which also
      has no `)`, matches with exactly those two groups. */
  lemma MatchPointText(g1: string, g2: string)
    requires |g1| >= 1 && ' ' !in g1
    requires |g2| >= 1 && ' ' !in g2 && ')' !in g2
    ensures MatchPoint(PointText(g1, g2)) == Some((g1, g2))
  {
    var s := PointText(g1, g2);
    assert s[0..] == s;
    var u := s[|Prefix|..];
    assert u == g1 + (" " + g2 + ")");
    NonSpaceRunOf(g1, " " + g2 + ")");
    assert NonSpaceRun(" " + g2 + ")") == "";
    assert g1 + "" == g1;
    assert NonSpaceRun(u) == g1;
    assert |g1| < |u|;
    var rest := u[|g1| + 1..];
    assert rest == g2 + ")";
    NonSpaceRunOf(g2 + ")", "");
    assert rest + "" == rest;
    assert NonSpaceRun(rest) == rest;
    assert LastCloseParen(rest) == Some(|g2|);
    assert rest[..|g2|] == g2;
    assert Prefix <= s[0..];
    assert s[0..][|Prefix|..] == u;
    assert MatchAt(s, 0) == Some((g1, g2));
  }

  // ---------------------------------------------------------------------------
  // parseCoordinates
  // ---------------------------------------------------------------------------

  /** The object `{ lng, lat }`. */
  function LngLat(lng: JsValue, lat: JsValue): (r: JsValue)
    ensures Has(r, "lng") && Get(r, "lng") == lng
    ensures Has(r, "lat") && Get(r, "lat") == lat
  {
    Obj(map["lng" := lng, "lat" := lat])
  }

  /** The value returned when no format is recognised. */
  const Origin: JsValue := LngLat(Real(0.0), Real(0.0))

  /** `parseCoordinates(v)`, its four cases tried in order. */
  function ParseCoordinates(v: JsValue): (r: JsValue)
    ensures Has(r, "lng") && Has(r, "lat")
    ensures Has(v, "lng") && Has(v, "lat") ==> r == v
    ensures !(Has(v, "lng") && Has(v, "lat")) && v.Str? && MatchPoint(v.s).Some? ==>
              var g := MatchPoint(v.s).value;
              r == LngLat(Number(ParseFloat(g.0)), Number(ParseFloat(g.1)))
    ensures v.Str? && MatchPoint(v.s).None? ==> r == Origin
    ensures v.Obj? && !(Has(v, "lng") && Has(v, "lat")) && Get(v, "coordinates").Arr? ==>
              var items := Get(v, "coordinates").items;
              r == LngLat(Index(items, 0), Index(items, 1))
    ensures v.Obj? && !(Has(v, "lng") && Has(v, "lat")) && !Get(v, "coordinates").Arr? ==>
              r == Origin
    ensures !v.Obj? && !v.Str? ==> r == Origin
  {
    if Truthy(v) && TypeOf(v) == "object" && Has(v, "lng") && Has(v, "lat") then v
    else if v.Str? && MatchPoint(v.s).Some? then
      var g := MatchPoint(v.s).value;
      LngLat(Number(ParseFloat(g.0)), Number(ParseFloat(g.1)))
    else
      var c := if Truthy(v) then Get(v, "coordinates") else Undefined;
      if Truthy(c) && c.Arr? then LngLat(Index(c.items, 0), Index(c.items, 1))
      else Origin
  }

  /** Normalising twice is normalising once: every result has `lng` and
      `lat`, so the first case returns it unchanged. */
  lemma ParseCoordinatesIdempotent(v: JsValue)
    ensures ParseCoordinates(ParseCoordinates(v)) == ParseCoordinates(v)
  {
  }

  // ---------------------------------------------------------------------------
  // Round trip with the text the submission form stores
  // ---------------------------------------------------------------------------

  /** `` `POINT(${lng} ${lat})` `` for two finite numbers. */
  function Wkt(lng: real, lat: real): string {
    PointText(NumberToString(lng), NumberToString(lat))
  }

  /** `x` has an exact decimal expansion of at most `MaxFractionDigits`
      places, so that its written form is exact. */
  ghost predicate ExactDecimal(x: real) {
    exists k: nat :: k <= MaxFractionDigits && WholeAt(Abs(x), k)
  }

  /** The well-known text the submission form stores for a point is read
      back by `parseCoordinates` as the same longitude and latitude, in the
      same order. */
  lemma WktRoundTrip(lng: real, lat: real)
    requires ExactDecimal(lng) && ExactDecimal(lat)
    ensures ParseCoordinates(Str(Wkt(lng, lat))) == LngLat(Real(lng), Real(lat))
  {
    var a, b := NumberToString(lng), NumberToString(lat);
    NumberToStringChars(lng);
    NumberToStringChars(lat);
    MatchPointText(a, b);
    var k1: nat :| k1 <= MaxFractionDigits && WholeAt(Abs(lng), k1);
    var k2: nat :| k2 <= MaxFractionDigits && WholeAt(Abs(lat), k2);
    NumberToStringParses(lng, k1);
    NumberToStringParses(lat, k2);
  }
}
