/** The add-film submission of the map page (`handleAddFilm`): the checks
    that abort it, the record it assembles with its defaults, the film it
    appends on success, and how a failure is reported. */
module Submission {
  import opened Wrappers
  import opened JsNumbers
  import opened JsValues
  import opened Text
  import opened Films
  import opened Coordinates
  import opened MapInteraction
  import opened FilmService
  import ReverseGeocode

  const NoLocationAlert: string := "Please select a location on the map first"
  const NotSignedInAlert: string := "You must be logged in to add a film"
  const SessionExpiredAlert: string := "Your session may have expired. Please sign out and sign in again."
  const SuccessAlert: string := "Film added successfully! It will be visible to others after review."

  const RlsViolation: string := "violates row-level security policy"
  const UniqueViolationCode: string := "23505"
  const DataExceptionClass: string := "22"

  /** How a failure is reported, most specific first. */
  datatype ErrorKind = PermissionDenied | DuplicateTitle | BadData | OtherFailure(message: string)

  /** The error's kind: a row-level-security message first, then the
      unique-violation code, then any data-exception code (class 22), and
      otherwise the message itself, or "Unknown error" when it is empty or
      missing. */
  function Classify(e: JsError): (k: ErrorKind)
    ensures k.PermissionDenied? <==> e.message.Some? && Contains(e.message.value, RlsViolation)
    ensures k.DuplicateTitle? <==> !k.PermissionDenied? && e.code == Some(UniqueViolationCode)
    ensures k.BadData? <==>
              !k.PermissionDenied? && e.code != Some(UniqueViolationCode)
              && e.code.Some? && DataExceptionClass <= e.code.value
    ensures k.OtherFailure? ==>
              k.message == (if e.message.Some? && |e.message.value| > 0 then e.message.value else "Unknown error")
  {
    if e.message.Some? && Contains(e.message.value, RlsViolation) then PermissionDenied
    else if e.code == Some(UniqueViolationCode) then DuplicateTitle
    else if e.code.Some? && DataExceptionClass <= e.code.value then BadData
    else OtherFailure(if e.message.Some? && |e.message.value| > 0 then e.message.value else "Unknown error")
  }

  function ErrorAlert(k: ErrorKind): string {
    match k
    case PermissionDenied =>
      "Permission error: " + "Your session may have expired. " + "Please try signing out and back in."
    case DuplicateTitle => "A film with this title already exists. " + "Please use a different title."
    case BadData => "There was an issue with the data format. " + "Please check your inputs."
    case OtherFailure(m) => "Failed to add film: " + m + ". Please try again."
  }

  /** Each kind of failure has its own alert. */
  lemma ErrorAlertsDistinct(k1: ErrorKind, k2: ErrorKind)
    ensures ErrorAlert(k1) == ErrorAlert(k2) ==> k1 == k2
  {
    var a1, a2 := ErrorAlert(k1), ErrorAlert(k2);
    var pre := "Failed to add film: ";
    if a1 == a2 {
      if k1.OtherFailure? && k2.OtherFailure? {
        assert a1 == pre + k1.message + ". Please try again.";
        assert a2 == pre + k2.message + ". Please try again.";
        assert a1[|pre|..|pre| + |k1.message|] == k1.message;
        assert a2[|pre|..|pre| + |k2.message|] == k2.message;
      } else {
        assert a1[0] == a2[0];
      }
    }
  }

  /** `x || fallback` for a form field. */
  function OrDefault(s: string, fallback: string): (r: string)
    ensures |s| > 0 ==> r == s
    ensures |s| == 0 ==> r == fallback
  {
    if |s| > 0 then s else fallback
  }

  /** `parseInt(year, 10) || currentYear`. */
  function DraftYear(year: string, currentYear: int): (y: int)
    ensures ParseInt(year).Some? && ParseInt(year).value != 0 ==> y == ParseInt(year).value
    ensures ParseInt(year).None? || ParseInt(year) == Some(0) ==> y == currentYear
  {
    match ParseInt(year)
    case Some(n) => if n != 0 then n else currentYear
    case None => currentYear
  }

  /** The fields of the record sent to `addFilm`. */
  datatype FilmDraft = FilmDraft(
    title: string,
    director: JsValue,
    location: string,
    coordinates: string,
    year: int,
    description: string,
    userId: string,
    status: string,
    imageUrl: JsValue)

  /** The draft for the form, the selected point, the session's user and
      the uploaded image's URL, with the defaults for empty fields. */
  function Draft(form: Form, p: Point, userId: string, imageUrl: Option<string>, currentYear: int): (d: FilmDraft)
    ensures d.status == Pending && d.userId == userId
    ensures d.coordinates == Wkt(p.lng, p.lat)
    ensures d.title == OrDefault(form.title, "Untitled Film")
    ensures d.director == if |form.director| > 0 then Str(form.director) else Null
    ensures d.location == OrDefault(form.location, ReverseGeocode.FallbackLabel(p.lng, p.lat))
    ensures d.year == DraftYear(form.year, currentYear)
    ensures d.description == OrDefault(form.description, "No description provided")
    ensures d.imageUrl == if imageUrl.Some? then Str(imageUrl.value) else Null
  {
    FilmDraft(
      OrDefault(form.title, "Untitled Film"),
      if |form.director| > 0 then Str(form.director) else Null,
      OrDefault(form.location, ReverseGeocode.FallbackLabel(p.lng, p.lat)),
      Wkt(p.lng, p.lat),
      DraftYear(form.year, currentYear),
      OrDefault(form.description, "No description provided"),
      userId,
      Pending,
      if imageUrl.Some? then Str(imageUrl.value) else Null)
  }

  /** The draft as the object literal passed to `addFilm`. */
  function DraftObject(d: FilmDraft): (m: map<string, JsValue>)
    ensures "coordinates" in m && m["coordinates"] == Str(d.coordinates)
    ensures "year" in m && m["year"] == Real(d.year as real)
  {
    map[
      "title" := Str(d.title),
      "director" := d.director,
      "location" := Str(d.location),
      "description" := Str(d.description),
      "user_id" := Str(d.userId),
      "status" := Str(d.status),
      "image_url" := d.imageUrl,
      "coordinates" := Str(d.coordinates),
      "year" := Real(d.year as real)]
  }

  /** A draft is already in the repository's normal form: `addFilm`
      inserts it unchanged. */
  lemma DraftIsClean(d: FilmDraft, currentYear: int)
    ensures CleanData(DraftObject(d), currentYear) == Success(DraftObject(d))
  {
    var m := DraftObject(d);
    assert Get(Obj(m), "coordinates") == Str(d.coordinates);
    assert Get(Obj(m), "year") == Real(d.year as real);
    assert CleanCoordinates(Str(d.coordinates)) == Success(Str(d.coordinates));
    assert CleanYear(Real(d.year as real), currentYear) == Real(d.year as real);
    assert m["coordinates" := Str(d.coordinates)] == m;
    assert m["year" := Real(d.year as real)] == m;
  }

  /** The stored coordinates read back as the selected point. */
  lemma DraftCoordinatesRoundTrip(form: Form, p: Point, userId: string, imageUrl: Option<string>, currentYear: int)
    requires ExactDecimal(p.lng) && ExactDecimal(p.lat)
    ensures ParseCoordinates(Str(Draft(form, p, userId, imageUrl, currentYear).coordinates))
         == LngLat(Real(p.lng), Real(p.lat))
  {
    WktRoundTrip(p.lng, p.lat);
  }

  /** The page state a submission reads and writes. */
  datatype Page = Page(films: seq<Film>, ui: MapUi, imageFile: Option<ImageFile>)

  /** One submission: the resulting page, the alert shown, the image file
      name uploaded (if any) and the record passed to `addFilm` (if any). */
  datatype SubmitRun = SubmitRun(page: Page, alert: string, uploadedAs: Option<string>, sent: Option<FilmDraft>)

  /** The film added to the page: the inserted row with the selected point
      as its coordinates. */
  function AddedFilm(row: Film, p: Point): (f: Film)
    ensures f.coordinates == LngLat(Real(p.lng), Real(p.lat))
    ensures f == row.(coordinates := f.coordinates)
  {
    row.(coordinates := LngLat(Real(p.lng), Real(p.lat)))
  }

  /** The page after a successful submission. */
  function Reset(page: Page, added: Film): (r: Page)
    ensures r.films == page.films + [added]
    ensures r.ui.form == EmptyForm && r.ui.selected.None? && r.ui.marker.None? && !r.ui.showAddModal
    ensures r.imageFile.None?
  {
    Page(page.films + [added],
         page.ui.(form := EmptyForm, selected := None, showAddModal := false, marker := None),
         None)
  }

  /** `handleAddFilm`, given the signed-in user, the session check, the
      time, what the image upload and the insert return, and the current
      year. */
  function HandleAddFilm(page: Page, user: Option<string>, session: SessionLookup, now: nat,
                         upload: Result<string, JsError>, insert: Result<Film, JsError>,
                         currentYear: int): (run: SubmitRun)
    ensures page.ui.selected.None? ==> run == SubmitRun(page, NoLocationAlert, None, None)
    ensures page.ui.selected.Some? && user.None? ==> run == SubmitRun(page, NotSignedInAlert, None, None)
    ensures page.ui.selected.Some? && user.Some? && !session.Session? ==>
              run == SubmitRun(page, SessionExpiredAlert, None, None)
    ensures run.page.films == page.films
            || (|run.page.films| == |page.films| + 1 && run.page.films == page.films + [run.page.films[|page.films|]])
    ensures run.page.films != page.films ==>
              run.alert == SuccessAlert && insert.Success?
              && run.page == Reset(page, AddedFilm(insert.value, page.ui.selected.value))
              && run.sent.Some? && run.sent.value.status == Pending
              && run.sent.value.coordinates == Wkt(page.ui.selected.value.lng, page.ui.selected.value.lat)
              && run.sent.value.userId == session.userId
    ensures run.page.films == page.films ==> run.page == page
    ensures page.ui.selected.Some? && user.Some? && session.Session?
            && (page.imageFile.None? || upload.Success?) && insert.Success? ==>
              run.page.films == page.films + [AddedFilm(insert.value, page.ui.selected.value)]
              && run.alert == SuccessAlert
    ensures page.ui.selected.Some? && user.Some? && session.Session?
            && page.imageFile.Some? && upload.Failure? ==>
              run == SubmitRun(page, ErrorAlert(Classify(upload.error)),
                               Some(StoredFileName(now, page.imageFile.value.name)), None)
    ensures page.ui.selected.Some? && user.Some? && session.Session?
            && (page.imageFile.None? || upload.Success?) && insert.Failure? ==>
              run.page == page && run.alert == ErrorAlert(Classify(insert.error)) && run.sent.Some?
    ensures run.sent.Some? ==> page.ui.selected.Some? && user.Some? && session.Session?
    ensures run.uploadedAs.Some? ==> page.imageFile.Some? && session.Session?
  {
    match page.ui.selected
    case None => SubmitRun(page, NoLocationAlert, None, None)
    case Some(p) =>
      if user.None? then SubmitRun(page, NotSignedInAlert, None, None)
      else if !session.Session? then SubmitRun(page, SessionExpiredAlert, None, None)
      else
        var up := UploadFilmImage(page.imageFile, now, upload);
        match up.result
        case Failure(e) => SubmitRun(page, ErrorAlert(Classify(e)), up.uploadedAs, None)
        case Success(imageUrl) =>
          var draft := Draft(page.ui.form, p, session.userId, imageUrl, currentYear);
          DraftIsClean(draft, currentYear);
          var added := AddFilm(DraftObject(draft), Some(session.userId), currentYear, insert);
          match added.result
          case Failure(e) => SubmitRun(page, ErrorAlert(Classify(e)), up.uploadedAs, Some(draft))
          case Success(row) =>
            SubmitRun(Reset(page, AddedFilm(row, p)), SuccessAlert, up.uploadedAs, Some(draft))
  }

  /** Placing a point and pressing the popup's confirm button, as written,
      leaves no selected location, so the submission that follows is
      refused whatever the user, the session and the backend do. With the
      corrected close listener the same sequence, with every call
      succeeding, appends exactly one film located at the clicked point. */
  lemma ConfirmThenSubmit(page: Page, p: Point, userId: string, sessionUser: string, now: nat,
                          upload: Result<string, JsError>, insert: Result<Film, JsError>, currentYear: int)
    ensures var placed := OnMapClick(page.ui, false, false, p).ui;
            var run := HandleAddFilm(page.(ui := OnConfirm(placed)), Some(userId), Session(sessionUser),
                                     now, upload, insert, currentYear);
            run.alert == NoLocationAlert && run.page.films == page.films && run.sent.None?
    ensures var placed := OnMapClick(page.ui, false, false, p).ui;
            var run := HandleAddFilm(page.(ui := OnConfirmCorrected(placed)), Some(userId), Session(sessionUser),
                                     now, upload, insert, currentYear);
            upload.Success? && insert.Success? ==>
              run.alert == SuccessAlert && run.page.films == page.films + [AddedFilm(insert.value, p)]
  {
    ConfirmAfterClick(page.ui, p);
  }
}
