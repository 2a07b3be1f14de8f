/** The archive page: the three filters, the grouping of the filtered
    films by decade, the decades newest first, and the films of a decade
    oldest first. */
module Archive {
  import opened JsNumbers
  import opened Text
  import opened Films

  // ---------------------------------------------------------------------------
  // Filters
  // ---------------------------------------------------------------------------

  /** The search term, the year and the location typed by the user. */
  datatype Filters = Filters(search: string, year: string, location: string)

  /** What "Clear Filters" sets. */
  const Cleared: Filters := Filters("", "", "")

  /** Case-insensitive substring test: `a.toLowerCase().includes(b.toLowerCase())`. */
  predicate ContainsIgnoringCase(a: string, b: string) {
    Contains(ToLower(a), ToLower(b))
  }

  predicate MatchesSearch(f: Film, term: string) {
    term == "" || ContainsIgnoringCase(f.title, term) || ContainsIgnoringCase(f.description, term)
  }

  predicate MatchesYear(f: Film, year: string) {
    year == "" || IntToString(f.year) == year
  }

  predicate MatchesLocation(f: Film, place: string) {
    place == "" || ContainsIgnoringCase(f.location, place)
  }

  predicate Matches(f: Film, q: Filters) {
    MatchesSearch(f, q.search) && MatchesYear(f, q.year) && MatchesLocation(f, q.location)
  }

  /** The filtered films, in their original order. */
  function FilterFilms(films: seq<Film>, q: Filters): (r: seq<Film>)
    ensures |r| <= |films|
    ensures forall f :: f in r <==> f in films && Matches(f, q)
  {
    if |films| == 0 then []
    else if Matches(films[0], q) then [films[0]] + FilterFilms(films[1..], q)
    else FilterFilms(films[1..], q)
  }

  /** With the filters cleared every film is shown, in order. */
  lemma {:induction false} ClearedShowsAll(films: seq<Film>)
    ensures FilterFilms(films, Cleared) == films
    decreases |films|
  {
    if |films| > 0 {
      ClearedShowsAll(films[1..]);
      assert [films[0]] + films[1..] == films;
    }
  }

  /** The year filter is equality of years: a film matches the written
      form of a year exactly when it is from that year. */
  lemma YearFilterIsEquality(f: Film, y: int)
    ensures MatchesYear(f, IntToString(y)) <==> f.year == y
  {
    if IntToString(f.year) == IntToString(y) {
      IntToStringInjective(f.year, y);
    }
    assert |IntToString(y)| > 0 by {
      assert |NatToString(if y < 0 then -y else y)| >= 1;
    }
  }

  lemma ToLowerIdempotent(s: string)
    ensures ToLower(ToLower(s)) == ToLower(s)
  {
    assert forall i :: 0 <= i < |s| ==> ToLower(ToLower(s))[i] == ToLower(s)[i];
  }

  /** Changing the letter case of what is typed does not change what is
      found. */
  lemma SearchIgnoresCase(f: Film, term: string)
    ensures MatchesSearch(f, term) <==> MatchesSearch(f, ToLower(term))
    ensures MatchesLocation(f, term) <==> MatchesLocation(f, ToLower(term))
  {
    ToLowerIdempotent(term);
  }

  // ---------------------------------------------------------------------------
  // Decades
  // ---------------------------------------------------------------------------

  /** `Math.floor(year / 10) * 10`. */
  function Decade(year: int): (d: int)
    ensures d <= year < d + 10 && d % 10 == 0
  {
    (year / 10) * 10
  }

  /** The films of decade `d`, in order. */
  function InDecade(films: seq<Film>, d: int): (r: seq<Film>)
    ensures |r| <= |films|
    ensures forall f :: f in r <==> f in films && Decade(f.year) == d
    decreases |films|
  {
    if |films| == 0 then []
    else
      var last := films[|films| - 1];
      var init := films[..|films| - 1];
      assert films == init + [last];
      InDecade(init, d) + (if Decade(last.year) == d then [last] else [])
  }

  /** The `reduce` that builds the buckets: a decade is a key exactly when
      some film is from it, and its bucket holds that decade's films in
      order. */
  function GroupByDecade(films: seq<Film>): (g: map<int, seq<Film>>)
    ensures forall d :: d in g <==> InDecade(films, d) != []
    ensures forall d :: d in g ==> g[d] == InDecade(films, d)
    decreases |films|
  {
    if |films| == 0 then map[]
    else
      var init := films[..|films| - 1];
      var last := films[|films| - 1];
      var g := GroupByDecade(init);
      var d := Decade(last.year);
      if d !in g then g[d := [last]]
      else g[d := g[d] + [last]]
  }

  /** Each film lands in the bucket of its own decade and in no other. */
  lemma EachFilmInOneBucket(films: seq<Film>, f: Film)
    requires f in films
    ensures var g := GroupByDecade(films);
            Decade(f.year) in g && f in g[Decade(f.year)]
            && forall d :: d in g && f in g[d] ==> d == Decade(f.year)
  {
    var r := InDecade(films, Decade(f.year));
    assert f in r;
    assert r != [];
  }

  /** The decades of the films, each once, in order of first appearance
      (the order in which the buckets were created). */
  function DecadesOf(films: seq<Film>): (ds: seq<int>)
    ensures Distinct(ds)
    ensures forall d :: d in ds <==> InDecade(films, d) != []
    decreases |films|
  {
    if |films| == 0 then []
    else
      var init := films[..|films| - 1];
      var last := films[|films| - 1];
      var ds := DecadesOf(init);
      if Decade(last.year) in ds then ds else ds + [Decade(last.year)]
  }

  predicate Distinct(xs: seq<int>) {
    forall i, j :: 0 <= i < j < |xs| ==> xs[i] != xs[j]
  }

  predicate StrictlyDescending(xs: seq<int>) {
    forall i, j :: 0 <= i < j < |xs| ==> xs[i] > xs[j]
  }

  /** Insertion into a strictly descending sequence. */
  function InsertDescending(x: int, s: seq<int>): (r: seq<int>)
    ensures multiset(r) == multiset(s) + multiset{x}
    ensures forall k :: 0 <= k < |r| ==> r[k] == x || r[k] in s
  {
    if |s| == 0 || x > s[0] then [x] + s
    else
      assert s == [s[0]] + s[1..];
      [s[0]] + InsertDescending(x, s[1..])
  }

  lemma {:induction false} InsertDescendingSorted(x: int, s: seq<int>)
    requires StrictlyDescending(s) && x !in s
    ensures StrictlyDescending(InsertDescending(x, s))
    decreases |s|
  {
    if |s| > 0 && x <= s[0] {
      InsertDescendingSorted(x, s[1..]);
      var t := InsertDescending(x, s[1..]);
      assert x < s[0] by { assert s[0] in s; }
      forall k | 0 <= k < |t| ensures t[k] < s[0] {
        if t[k] != x {
          var i :| 0 <= i < |s[1..]| && s[1..][i] == t[k];
          assert s[i + 1] == t[k];
        }
      }
    }
  }

  /** `keys.sort((a, b) => b - a)`: newest decade first. */
  function SortDescending(xs: seq<int>): (r: seq<int>)
    ensures multiset(r) == multiset(xs)
  {
    if |xs| == 0 then []
    else
      assert xs == [xs[0]] + xs[1..];
      InsertDescending(xs[0], SortDescending(xs[1..]))
  }

  lemma {:induction false} SortDescendingSorted(xs: seq<int>)
    requires Distinct(xs)
    ensures StrictlyDescending(SortDescending(xs))
    decreases |xs|
  {
    if |xs| > 0 {
      var rest := SortDescending(xs[1..]);
      SortDescendingSorted(xs[1..]);
      assert xs[0] !in xs[1..];
      assert xs[0] !in multiset(rest);
      InsertDescendingSorted(xs[0], rest);
    }
  }

  /** The decade headings: every decade that has a film, each once, newest
      first. */
  function SortedDecades(films: seq<Film>): (r: seq<int>)
    ensures StrictlyDescending(r)
    ensures forall d :: d in r <==> d in GroupByDecade(films)
  {
    var ds := DecadesOf(films);
    SortDescendingSorted(ds);
    var r := SortDescending(ds);
    assert forall d :: d in r <==> d in multiset(ds);
    r
  }

  // ---------------------------------------------------------------------------
  // Films of a decade, oldest first
  // ---------------------------------------------------------------------------

  /** The films of year `y`, in order. */
  function WithYear(films: seq<Film>, y: int): seq<Film> {
    if |films| == 0 then []
    else (if films[0].year == y then [films[0]] else []) + WithYear(films[1..], y)
  }

  predicate SortedByYear(s: seq<Film>) {
    forall i, j :: 0 <= i < j < |s| ==> s[i].year <= s[j].year
  }

  /** Insert `f` before the first film of the same year or later. */
  function InsertByYear(f: Film, s: seq<Film>): (r: seq<Film>)
    ensures multiset(r) == multiset(s) + multiset{f}
    ensures forall k :: 0 <= k < |r| ==> r[k] == f || r[k] in s
  {
    if |s| == 0 || f.year <= s[0].year then [f] + s
    else
      assert s == [s[0]] + s[1..];
      [s[0]] + InsertByYear(f, s[1..])
  }

  lemma {:induction false} InsertByYearSorted(f: Film, s: seq<Film>)
    requires SortedByYear(s)
    ensures SortedByYear(InsertByYear(f, s))
    decreases |s|
  {
    if |s| > 0 && f.year > s[0].year {
      InsertByYearSorted(f, s[1..]);
      var t := InsertByYear(f, s[1..]);
      forall k | 0 <= k < |t| ensures s[0].year <= t[k].year {
        if t[k] != f {
          var i :| 0 <= i < |s[1..]| && s[1..][i] == t[k];
          assert s[i + 1] == t[k];
        }
      }
    }
  }

  /** `films.sort((a, b) => a.year - b.year)`, a stable sort. */
  function SortByYear(s: seq<Film>): (r: seq<Film>)
    ensures multiset(r) == multiset(s)
  {
    if |s| == 0 then []
    else
      assert s == [s[0]] + s[1..];
      InsertByYear(s[0], SortByYear(s[1..]))
  }

  lemma {:induction false} SortByYearSorted(s: seq<Film>)
    ensures SortedByYear(SortByYear(s))
    decreases |s|
  {
    if |s| > 0 {
      SortByYearSorted(s[1..]);
      InsertByYearSorted(s[0], SortByYear(s[1..]));
    }
  }

  lemma {:induction false} InsertByYearStable(f: Film, s: seq<Film>, y: int)
    ensures WithYear(InsertByYear(f, s), y) == (if f.year == y then [f] else []) + WithYear(s, y)
    decreases |s|
  {
    if |s| == 0 || f.year <= s[0].year {
      assert ([f] + s)[1..] == s;
    } else {
      InsertByYearStable(f, s[1..], y);
      var t := InsertByYear(f, s[1..]);
      assert ([s[0]] + t)[1..] == t;
    }
  }

  /** The sort is stable: the films of each year keep their relative
      order. */
  lemma {:induction false} SortByYearStable(s: seq<Film>, y: int)
    ensures WithYear(SortByYear(s), y) == WithYear(s, y)
    decreases |s|
  {
    if |s| > 0 {
      SortByYearStable(s[1..], y);
      InsertByYearStable(s[0], SortByYear(s[1..]), y);
    }
  }

  // ---------------------------------------------------------------------------
  // The page
  // ---------------------------------------------------------------------------

  /** The films in the order the page lists them, decade by decade. */
  function Listed(films: seq<Film>, decades: seq<int>): seq<Film> {
    if |decades| == 0 then []
    else SortByYear(InDecade(films, decades[0])) + Listed(films, decades[1..])
  }

  /** What the page lists for the given filters. */
  function Page(films: seq<Film>, q: Filters): seq<Film> {
    var shown := FilterFilms(films, q);
    Listed(shown, SortedDecades(shown))
  }

  lemma {:induction false} ListedSnoc(init: seq<Film>, f: Film, ds: seq<int>)
    requires forall i, j :: 0 <= i < j < |ds| ==> ds[i] != ds[j]
    ensures multiset(Listed(init + [f], ds))
         == multiset(Listed(init, ds)) + (if Decade(f.year) in ds then multiset{f} else multiset{})
    decreases |ds|
  {
    if |ds| > 0 {
      ListedSnoc(init, f, ds[1..]);
      var films := init + [f];
      var d := ds[0];
      assert films[..|films| - 1] == init;
      var added := if Decade(f.year) == d then [f] else [];
      assert InDecade(films, d) == InDecade(init, d) + added;
      var here := multiset(SortByYear(InDecade(films, d)));
      assert here == multiset(InDecade(init, d)) + multiset(added);
      var later := multiset(Listed(films, ds[1..]));
      assert multiset(Listed(films, ds)) == here + later;
      assert multiset(Listed(init, ds)) == multiset(InDecade(init, d)) + multiset(Listed(init, ds[1..]));
      if Decade(f.year) == d {
        assert Decade(f.year) !in ds[1..];
      } else {
        assert (Decade(f.year) in ds) == (Decade(f.year) in ds[1..]);
      }
    }
  }

  lemma {:induction false} ListedPermutes(films: seq<Film>, ds: seq<int>)
    requires forall i, j :: 0 <= i < j < |ds| ==> ds[i] != ds[j]
    requires forall f :: f in films ==> Decade(f.year) in ds
    ensures multiset(Listed(films, ds)) == multiset(films)
    decreases |films|
  {
    if |films| == 0 {
      EmptyListed(films, ds);
    } else {
      var init := films[..|films| - 1];
      var last := films[|films| - 1];
      assert films == init + [last];
      assert forall f :: f in init ==> f in films;
      ListedPermutes(init, ds);
      ListedSnoc(init, last, ds);
    }
  }

  lemma {:induction false} EmptyListed(films: seq<Film>, ds: seq<int>)
    requires |films| == 0
    ensures Listed(films, ds) == []
    decreases |ds|
  {
    if |ds| > 0 {
      EmptyListed(films, ds[1..]);
    }
  }

  /** The page lists every film that passes the filters exactly once, and
      nothing else. */
  lemma PageListsFilteredFilms(films: seq<Film>, q: Filters)
    ensures multiset(Page(films, q)) == multiset(FilterFilms(films, q))
  {
    var shown := FilterFilms(films, q);
    var ds := SortedDecades(shown);
    forall f | f in shown ensures Decade(f.year) in ds {
      EachFilmInOneBucket(shown, f);
    }
    ListedPermutes(shown, ds);
  }
}
