/** Map-click dispatch of the map page: the read-only flag, placing the
    temporary marker and its confirmation popup, the confirm button, the
    popup's close listener, and filling the form's location from the
    reverse lookup. The temporary marker and popup live in globals of the
    page; here they are fields of the state. */
module MapInteraction {
  import opened Wrappers
  import opened JsValues

  datatype Point = Point(lng: real, lat: real)

  /** The add-film form's fields, as the inputs hold them. */
  datatype Form = Form(title: string, director: string, location: string, year: string, description: string)

  const EmptyForm: Form := Form("", "", "", "", "")

  /** `selected` is the selected location; `marker` and `popup` are the
      temporary marker and confirmation popup on the map, at their points. */
  datatype MapUi = MapUi(
    selected: Option<Point>,
    marker: Option<Point>,
    popup: Option<Point>,
    showAddModal: bool,
    form: Form)

  const InitialUi: MapUi := MapUi(None, None, None, false, EmptyForm)

  /** The page is read-only when the caller says so (any value other than
      `undefined` decides, by its truthiness); otherwise exactly when nobody
      is signed in. */
  function ReadOnly(explicit: JsValue, signedIn: bool): (r: bool)
    ensures explicit.Undefined? ==> (r <==> !signedIn)
    ensures !explicit.Undefined? ==> (r <==> Truthy(explicit))
  {
    if !explicit.Undefined? then Truthy(explicit) else !signedIn
  }

  /** A click on an empty part of the map starts a place-name lookup and
      moves the selection exactly when the page is not read-only: without
      an explicit flag, exactly when someone is signed in. Otherwise the
      click changes nothing. */
  lemma ClickNeedsWriteAccess(ui: MapUi, explicit: JsValue, signedIn: bool, p: Point)
    ensures var c := OnMapClick(ui, ReadOnly(explicit, signedIn), false, p);
            c.lookup.Some? <==> (if explicit.Undefined? then signedIn else !Truthy(explicit))
    ensures explicit.Undefined? && !signedIn ==>
              OnMapClick(ui, ReadOnly(explicit, signedIn), false, p) == Click(ui, None)
    ensures explicit.Undefined? && signedIn ==>
              OnMapClick(ui, ReadOnly(explicit, signedIn), false, p).ui.selected == Some(p)
  {
  }

  /** The popup's `close` listener. It was created when the map was built,
      so the `showAddModal` it reads is the value from that moment. */
  function OnPopupClose(ui: MapUi, showAddModalSeen: bool): (r: MapUi)
    ensures ui.marker.Some? && !showAddModalSeen ==> r == ui.(marker := None, selected := None)
    ensures !(ui.marker.Some? && !showAddModalSeen) ==> r == ui
  {
    if ui.marker.Some? && !showAddModalSeen then ui.(marker := None, selected := None) else ui
  }

  /** The value of `showAddModal` when the map (and its click handler) was
      created: the initial state's. */
  const ShowAddModalAtMapCreation: bool := InitialUi.showAddModal

  /** The result of a click: the new state, and the point whose place name
      is requested (the lookup resolves later). */
  datatype Click = Click(ui: MapUi, lookup: Option<Point>)

  /** A click on the map at `p`. Nothing happens in read-only mode or when
      the click hits a film or a cluster. Otherwise the old marker and
      popup are removed (removing the popup fires its close listener), and
      the selection, marker and popup move to `p`; the add modal is not
      opened. */
  function OnMapClick(ui: MapUi, readOnly: bool, hitsFeature: bool, p: Point): (r: Click)
    ensures readOnly || hitsFeature ==> r == Click(ui, None)
    ensures !readOnly && !hitsFeature ==>
              r.lookup == Some(p) && r.ui.selected == Some(p) && r.ui.marker == Some(p)
              && r.ui.popup == Some(p) && r.ui.showAddModal == ui.showAddModal && r.ui.form == ui.form
  {
    if readOnly || hitsFeature then Click(ui, None)
    else
      var closed := if ui.popup.Some? then OnPopupClose(ui, ShowAddModalAtMapCreation) else ui;
      Click(closed.(selected := Some(p), marker := Some(p), popup := Some(p)), Some(p))
  }

  /** The popup's confirm button as written: it opens the modal and removes
      the popup, whose close listener still sees `showAddModal` as false and
      so also removes the marker and clears the selection. */
  function OnConfirm(ui: MapUi): (r: MapUi)
    ensures r.showAddModal && r.popup.None?
    ensures ui.marker.Some? ==> r.selected.None? && r.marker.None?
    ensures r.form == ui.form
  {
    OnPopupClose(ui.(showAddModal := true, popup := None), ShowAddModalAtMapCreation)
  }

  /** The confirm button with a close listener that reads the current
      `showAddModal`: the marker and the selection stay. */
  function OnConfirmCorrected(ui: MapUi): (r: MapUi)
    ensures r == ui.(showAddModal := true, popup := None)
  {
    var shown := ui.(showAddModal := true, popup := None);
    OnPopupClose(shown, shown.showAddModal)
  }

  /** The popup's own close button: the marker and the selection go too. */
  function OnPopupCloseButton(ui: MapUi): (r: MapUi)
    ensures r.popup.None? && r.showAddModal == ui.showAddModal && r.form == ui.form
    ensures ui.marker.Some? ==> r.selected.None? && r.marker.None?
    ensures ui.marker.None? ==> r.selected == ui.selected
  {
    OnPopupClose(ui.(popup := None), ShowAddModalAtMapCreation)
  }

  /** The reverse lookup's result: a truthy place name becomes the form's
      location; anything else leaves the form alone. */
  function OnPlaceName(ui: MapUi, placeName: JsValue): (r: MapUi)
    ensures Truthy(placeName) ==> r == ui.(form := ui.form.(location := ToStr(placeName)))
    ensures !Truthy(placeName) ==> r == ui
  {
    if Truthy(placeName) then ui.(form := ui.form.(location := ToStr(placeName))) else ui
  }

  /** The marker is shown exactly at the selected location. */
  ghost predicate MarkerMatchesSelection(ui: MapUi) {
    ui.marker == ui.selected
  }

  /** Every event keeps the marker at the selected location. */
  lemma EventsKeepMarkerOnSelection(ui: MapUi, readOnly: bool, hitsFeature: bool, p: Point, placeName: JsValue)
    requires MarkerMatchesSelection(ui)
    ensures MarkerMatchesSelection(OnMapClick(ui, readOnly, hitsFeature, p).ui)
    ensures MarkerMatchesSelection(OnConfirm(ui))
    ensures MarkerMatchesSelection(OnConfirmCorrected(ui))
    ensures MarkerMatchesSelection(OnPopupCloseButton(ui))
    ensures MarkerMatchesSelection(OnPlaceName(ui, placeName))
  {
  }

  /** After a click places the marker, confirming as written leaves the
      modal open with no selected location; with the corrected listener the
      clicked point is still selected. */
  lemma ConfirmAfterClick(ui: MapUi, p: Point)
    ensures var placed := OnMapClick(ui, false, false, p).ui;
            OnConfirm(placed).showAddModal && OnConfirm(placed).selected.None?
    ensures var placed := OnMapClick(ui, false, false, p).ui;
            OnConfirmCorrected(placed).showAddModal && OnConfirmCorrected(placed).selected == Some(p)
  {
  }
}
