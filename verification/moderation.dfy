/** The moderation panel: the administrator gate, the pending list it
    loads, and the approve and reject actions with their local list
    update. The films table is a sequence of rows; the backend's replies
    are inputs. */
module Moderation {
  import opened Wrappers
  import opened JsValues
  import opened Films

  /** The panel's state once loading has finished. */
  datatype Panel = Panel(isAdmin: bool, pending: seq<Film>, error: Option<string>)

  /** The rows the panel asks for: those whose status is exactly pending. */
  function PendingOf(table: seq<Film>): (r: seq<Film>)
    ensures forall f :: f in r <==> f in table && f.status == Pending
  {
    WithStatus(table, Pending)
  }

  /** Loading the panel, given what `getUser` returned (`None` for no user),
      the profile lookup, the films table and the error of the films query
      (if any). Only an administrator's panel lists anything. */
  function LoadPanel(user: Result<Option<string>, JsError>, profile: Result<JsValue, JsError>,
                     table: seq<Film>, fetchError: Option<JsError>): (p: Panel)
    ensures p.isAdmin <==> (user.Success? && user.value.Some? && profile.Success?
                            && Truthy(Get(profile.value, "is_admin")))
    ensures |p.pending| > 0 ==> p.isAdmin && fetchError.None?
    ensures p.isAdmin && fetchError.None? ==> p.pending == PendingOf(table) && p.error.None?
  {
    match user
    case Failure(e) => Panel(false, [], e.message)
    case Success(None) => Panel(false, [], Some("Not authenticated"))
    case Success(Some(_)) =>
      match profile
      case Failure(e) => Panel(false, [], e.message)
      case Success(row) =>
        if !Truthy(Get(row, "is_admin")) then Panel(false, [], None)
        else
          match fetchError
          case Some(e) => Panel(true, [], e.message)
          case None => Panel(true, PendingOf(table), None)
  }

  /** What the panel shows. */
  datatype View = Nothing | ErrorCard(message: string) | PendingList(films: seq<Film>)

  /** A non-administrator sees nothing, even when loading failed. */
  function Render(p: Panel): (v: View)
    ensures !p.isAdmin <==> v == Nothing
    ensures p.isAdmin && p.error.Some? && |p.error.value| > 0 ==> v == ErrorCard(p.error.value)
    ensures p.isAdmin && !(p.error.Some? && |p.error.value| > 0) ==> v == PendingList(p.pending)
  {
    if !p.isAdmin then Nothing
    else if p.error.Some? && |p.error.value| > 0 then ErrorCard(p.error.value)
    else PendingList(p.pending)
  }

  /** What the panel shows once loaded: nothing to anyone but an
      administrator, whatever failed; the films query's error for an
      administrator when it failed with a message; otherwise exactly the
      table's pending rows. */
  lemma LoadedView(user: Result<Option<string>, JsError>, profile: Result<JsValue, JsError>,
                   table: seq<Film>, fetchError: Option<JsError>)
    ensures var admin := user.Success? && user.value.Some? && profile.Success?
                         && Truthy(Get(profile.value, "is_admin"));
            var v := Render(LoadPanel(user, profile, table, fetchError));
            (!admin <==> v == Nothing)
            && (admin && fetchError.None? ==> v == PendingList(PendingOf(table)))
            && ((admin && fetchError.Some? && fetchError.value.message.Some?
                 && |fetchError.value.message.value| > 0)
                  ==> v == ErrorCard(fetchError.value.message.value))
  {
  }

  /** The change written to the row with id `id`. */
  datatype StatusUpdate = StatusUpdate(id: string, status: string, rejectionReason: Option<string>)

  /** The table after a successful update: every row with that id takes the
      new status (and reason, when one is given). */
  function ApplyUpdate(table: seq<Film>, u: StatusUpdate): (r: seq<Film>)
    ensures |r| == |table|
    ensures forall k :: 0 <= k < |table| && table[k].id != u.id ==> r[k] == table[k]
    ensures forall k :: 0 <= k < |table| && table[k].id == u.id ==> r[k].status == u.status
  {
    if |table| == 0 then []
    else
      var f := table[0];
      var g := if f.id != u.id then f
               else if u.rejectionReason.Some? then f.(status := u.status, rejectionReason := u.rejectionReason)
               else f.(status := u.status);
      [g] + ApplyUpdate(table[1..], u)
  }

  /** One action: the update sent (if any), the panel after it, and the
      alert shown (if any). */
  datatype Action = Action(update: Option<StatusUpdate>, panel: Panel, alert: Option<string>)

  /** `'…' + err.message`. */
  function MessageText(e: JsError): string {
    e.message.GetOr("undefined")
  }

  /** Approving `id`: the update is always sent; only when it succeeds does
      the film leave the local list. */
  function Approve(p: Panel, id: string, updateError: Option<JsError>): (a: Action)
    ensures a.update == Some(StatusUpdate(id, Approved, None))
    ensures updateError.None? ==> a.panel == p.(pending := RemoveId(p.pending, id)) && a.alert.None?
    ensures updateError.Some? ==> a.panel == p && a.alert == Some("Failed to approve film: " + MessageText(updateError.value))
  {
    var u := StatusUpdate(id, Approved, None);
    match updateError
    case None => Action(Some(u), p.(pending := RemoveId(p.pending, id)), None)
    case Some(e) => Action(Some(u), p, Some("Failed to approve film: " + MessageText(e)))
  }

  /** The reason stored: the one typed, or a default when it is empty. */
  function StoredReason(typed: string): (r: string)
    ensures |typed| > 0 ==> r == typed
    ensures |typed| == 0 ==> r == "No reason provided"
  {
    if |typed| > 0 then typed else "No reason provided"
  }

  /** Rejecting `id` with the prompt's answer (`None` when cancelled): a
      cancelled prompt sends nothing; otherwise as for approval, with the
      reason stored alongside. */
  function Reject(p: Panel, id: string, prompt: Option<string>, updateError: Option<JsError>): (a: Action)
    ensures prompt.None? ==> a == Action(None, p, None)
    ensures prompt.Some? ==> a.update == Some(StatusUpdate(id, Rejected, Some(StoredReason(prompt.value))))
    ensures prompt.Some? && updateError.None? ==> a.panel == p.(pending := RemoveId(p.pending, id)) && a.alert.None?
    ensures prompt.Some? && updateError.Some? ==>
              a.panel == p && a.alert == Some("Failed to reject film: " + MessageText(updateError.value))
  {
    match prompt
    case None => Action(None, p, None)
    case Some(typed) =>
      var u := StatusUpdate(id, Rejected, Some(StoredReason(typed)));
      match updateError
      case None => Action(Some(u), p.(pending := RemoveId(p.pending, id)), None)
      case Some(e) => Action(Some(u), p, Some("Failed to reject film: " + MessageText(e)))
  }

  /** Dropping the updated id from the pending rows gives the pending rows
      of the updated table, for any update that moves away from pending. */
  lemma {:induction false} PendingAfterUpdate(table: seq<Film>, u: StatusUpdate)
    requires u.status != Pending
    ensures RemoveId(PendingOf(table), u.id) == PendingOf(ApplyUpdate(table, u))
    decreases |table|
  {
    if |table| > 0 {
      PendingAfterUpdate(table[1..], u);
      var f := table[0];
      var rest := ApplyUpdate(table[1..], u);
      assert ApplyUpdate(table, u)[1..] == rest;
      if f.status == Pending && f.id != u.id {
        assert PendingOf(table) == [f] + PendingOf(table[1..]);
      }
    }
  }

  /** The local list stays what a reload would show: if it was the table's
      pending rows before an approve or reject, it is the pending rows of
      the table as the action leaves it (updated on success, untouched on
      failure or cancel). */
  lemma ActionsKeepListInSync(p: Panel, table: seq<Film>, id: string, prompt: Option<string>,
                              updateError: Option<JsError>)
    requires p.pending == PendingOf(table)
    ensures var a := Approve(p, id, updateError);
            a.panel.pending == PendingOf(if updateError.None? then ApplyUpdate(table, a.update.value) else table)
    ensures var a := Reject(p, id, prompt, updateError);
            a.panel.pending == PendingOf(if a.update.Some? && updateError.None? then ApplyUpdate(table, a.update.value) else table)
  {
    PendingAfterUpdate(table, StatusUpdate(id, Approved, None));
    if prompt.Some? {
      PendingAfterUpdate(table, StatusUpdate(id, Rejected, Some(StoredReason(prompt.value))));
    }
  }
}
