/** The owner's dashboard: the per-status counts, the status badge, which
    films offer editing and deletion, when a rejection reason is shown, and
    the local list after a delete. */
module Dashboard {
  import opened Wrappers
  import opened JsValues
  import opened Films
  import Moderation

  /** The three counts shown, from exact-match status filters. */
  datatype Counts = Counts(pending: nat, approved: nat, rejected: nat)

  function CountStatuses(films: seq<Film>): (c: Counts)
    ensures c.pending == |WithStatus(films, Pending)|
    ensures c.approved == |WithStatus(films, Approved)|
    ensures c.rejected == |WithStatus(films, Rejected)|
  {
    Counts(|WithStatus(films, Pending)|, |WithStatus(films, Approved)|, |WithStatus(films, Rejected)|)
  }

  /** A status the dashboard knows. */
  predicate KnownStatus(s: string) {
    s == Pending || s == Approved || s == Rejected
  }

  /** The counts never exceed the number of films, and they add up to it
      exactly when every film has a known status. */
  lemma {:induction false} CountsBound(films: seq<Film>)
    ensures var c := CountStatuses(films);
            c.pending + c.approved + c.rejected <= |films|
    ensures var c := CountStatuses(films);
            c.pending + c.approved + c.rejected == |films| <==> forall f :: f in films ==> KnownStatus(f.status)
    decreases |films|
  {
    if |films| > 0 {
      CountsBound(films[1..]);
      assert forall f :: f in films[1..] ==> f in films;
      assert forall f :: f in films ==> f == films[0] || f in films[1..];
    }
  }

  /** The badge for a status. */
  datatype Badge = ApprovedBadge | PendingBadge | RejectedBadge | UnknownBadge {
    function Label(): string {
      match this
      case ApprovedBadge => "Approved"
      case PendingBadge => "Pending Review"
      case RejectedBadge => "Rejected"
      case UnknownBadge => "Unknown"
    }
  }

  function StatusBadge(status: string): (b: Badge)
    ensures b.UnknownBadge? <==> !KnownStatus(status)
    ensures b.PendingBadge? <==> status == Pending
    ensures b.ApprovedBadge? <==> status == Approved
    ensures b.RejectedBadge? <==> status == Rejected
  {
    if status == Approved then ApprovedBadge
    else if status == Pending then PendingBadge
    else if status == Rejected then RejectedBadge
    else UnknownBadge
  }

  /** The films shown with badge `b`, in order. */
  function WithBadge(films: seq<Film>, b: Badge): (r: seq<Film>)
    ensures forall f :: f in r <==> f in films && StatusBadge(f.status) == b
  {
    if |films| == 0 then []
    else if StatusBadge(films[0].status) == b then [films[0]] + WithBadge(films[1..], b)
    else WithBadge(films[1..], b)
  }

  /** The badges agree with the counts: the films with each known badge are
      exactly the films that status's count counts, and the films with the
      unknown badge are the ones no count counts. */
  lemma {:induction false} BadgesMatchCounts(films: seq<Film>)
    ensures WithBadge(films, PendingBadge) == WithStatus(films, Pending)
    ensures WithBadge(films, ApprovedBadge) == WithStatus(films, Approved)
    ensures WithBadge(films, RejectedBadge) == WithStatus(films, Rejected)
    ensures var c := CountStatuses(films);
            |WithBadge(films, UnknownBadge)| + c.pending + c.approved + c.rejected == |films|
    decreases |films|
  {
    if |films| > 0 {
      BadgesMatchCounts(films[1..]);
    }
  }

  /** Edit and delete are offered for pending films only. */
  predicate OffersEditAndDelete(f: Film) {
    f.status == Pending
  }

  /** The rejection reason is shown for a rejected film with a non-empty
      reason. */
  predicate ShowsRejectionReason(f: Film) {
    f.status == Rejected && f.rejectionReason.Some? && |f.rejectionReason.value| > 0
  }

  /** Once a moderator's update has gone through, the owner can no longer
      edit or delete the film, and a rejected film shows its reason. */
  lemma ModeratedFilmIsLocked(f: Film, u: Moderation.StatusUpdate)
    requires f.id == u.id && u.status != Pending
    requires u.status == Rejected ==> u.rejectionReason.Some? && |u.rejectionReason.value| > 0
    ensures !OffersEditAndDelete(Moderation.ApplyUpdate([f], u)[0])
    ensures u.status == Rejected ==> ShowsRejectionReason(Moderation.ApplyUpdate([f], u)[0])
  {
    assert Moderation.ApplyUpdate([f], u)[0].status == u.status;
  }

  /** One delete click: whether the repository was called, the list after
      it and the alert shown (if any). */
  datatype DeleteClick = DeleteClick(called: bool, films: seq<Film>, alert: Option<string>)

  /** `handleDeleteFilm(id)`, given the answer to the confirmation and the
      repository's result. */
  function HandleDeleteFilm(films: seq<Film>, id: string, confirmed: bool,
                            outcome: Result<bool, JsError>): (r: DeleteClick)
    ensures !confirmed ==> r == DeleteClick(false, films, None)
    ensures confirmed ==> r.called
    ensures confirmed && outcome.Success? ==> r.films == RemoveId(films, id) && r.alert.None?
    ensures confirmed && outcome.Failure? ==> r.films == films && r.alert == Some("Failed to delete film. Please try again.")
  {
    if !confirmed then DeleteClick(false, films, None)
    else if outcome.Success? then DeleteClick(true, RemoveId(films, id), None)
    else DeleteClick(true, films, Some("Failed to delete film. Please try again."))
  }

  /** A successful delete removes exactly the films with that id: every
      other film stays, in the same order, and deleting again changes
      nothing. */
  lemma DeleteRemovesExactlyThatId(films: seq<Film>, id: string, pre: seq<Film>, post: seq<Film>, f: Film)
    requires films == pre + [f] + post && f.id != id
    ensures var after := HandleDeleteFilm(films, id, true, Success(true)).films;
            after == RemoveId(pre, id) + [f] + RemoveId(post, id)
            && HandleDeleteFilm(after, id, true, Success(true)).films == after
  {
    RemoveIdConcat(pre + [f], post, id);
    RemoveIdConcat(pre, [f], id);
    var after := RemoveId(films, id);
    RemoveAbsentId(after, id);
  }
}
