/** The film record shared by the map, the archive, the dashboard and the
    moderation panel, and the list operations they all perform on it. */
module Films {
  import opened Wrappers
  import opened JsValues

  /** The moderation states a film row may carry. The column is free text:
      any other value is possible and is shown as unknown. */
  const Pending: string := "pending"
  const Approved: string := "approved"
  const Rejected: string := "rejected"

  /** A row of the films table as the pages hold it. `coordinates` is
      whatever the page stored there (normally `{lng, lat}`). */
  datatype Film = Film(
    id: string,
    title: string,
    director: Option<string>,
    location: string,
    year: int,
    description: string,
    coordinates: JsValue,
    imageUrl: Option<string>,
    userId: string,
    status: string,
    rejectionReason: Option<string>)

  /** `films.filter(f => f.id !== id)`. */
  function RemoveId(films: seq<Film>, id: string): (r: seq<Film>)
    ensures |r| <= |films|
    ensures forall f :: f in r ==> f in films && f.id != id
    ensures forall f :: f in films && f.id != id ==> f in r
  {
    if |films| == 0 then []
    else if films[0].id == id then RemoveId(films[1..], id)
    else [films[0]] + RemoveId(films[1..], id)
  }

  /** Removing an id from a concatenation removes it from each part: the
      films that stay keep their relative order. */
  lemma {:induction false} RemoveIdConcat(a: seq<Film>, b: seq<Film>, id: string)
    ensures RemoveId(a + b, id) == RemoveId(a, id) + RemoveId(b, id)
    decreases |a|
  {
    if |a| > 0 {
      assert (a + b)[0] == a[0];
      assert (a + b)[1..] == a[1..] + b;
      RemoveIdConcat(a[1..], b, id);
      var ra, rb := RemoveId(a[1..], id), RemoveId(b, id);
      if a[0].id != id {
        assert [a[0]] + (ra + rb) == ([a[0]] + ra) + rb;
      }
    } else {
      assert a + b == b;
    }
  }

  /** Removing an id that no film carries changes nothing. */
  lemma {:induction false} RemoveAbsentId(films: seq<Film>, id: string)
    requires forall f :: f in films ==> f.id != id
    ensures RemoveId(films, id) == films
    decreases |films|
  {
    if |films| > 0 {
      assert films[0] in films;
      assert forall f :: f in films[1..] ==> f in films;
      RemoveAbsentId(films[1..], id);
      assert [films[0]] + films[1..] == films;
    }
  }

  /** `films.filter(f => f.status === status)`. */
  function WithStatus(films: seq<Film>, status: string): (r: seq<Film>)
    ensures |r| <= |films|
    ensures forall f :: f in r <==> f in films && f.status == status
  {
    if |films| == 0 then []
    else if films[0].status == status then [films[0]] + WithStatus(films[1..], status)
    else WithStatus(films[1..], status)
  }
}
