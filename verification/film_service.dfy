/** The film repository's decision logic: the normalisation `addFilm`
    applies before inserting, the session/owner/admin gate and best-effort
    image removal of `deleteFilm`, and the file name `uploadFilmImage`
    stores under. The backend calls are inputs: each is given as the
    outcome it produces. */
module FilmService {
  import opened Wrappers
  import opened JsNumbers
  import opened JsValues
  import opened Text
  import opened Films

  // ---------------------------------------------------------------------------
  // addFilm
  // ---------------------------------------------------------------------------

  /** The error thrown when reading `lng` from null or undefined. */
  function ReadLngError(c: JsValue): JsError {
    Error("Cannot read properties of " + ToStr(c) + " (reading 'lng')")
  }

  /** The stored form of the coordinates: a string is kept as it is; any
      other value `c` becomes `POINT(${c.lng} ${c.lat})`; null or undefined
      throws. */
  function CleanCoordinates(c: JsValue): (r: Result<JsValue, JsError>)
    ensures c.Str? ==> r == Success(c)
    ensures c.Undefined? || c.Null? ==> r.Failure?
    ensures !c.Str? && !c.Undefined? && !c.Null? ==>
              r == Success(Str("POINT(" + ToStr(Get(c, "lng")) + " " + ToStr(Get(c, "lat")) + ")"))
  {
    if c.Str? then Success(c)
    else if c.Undefined? || c.Null? then Failure(ReadLngError(c))
    else Success(Str("POINT(" + ToStr(Get(c, "lng")) + " " + ToStr(Get(c, "lat")) + ")"))
  }

  /** The stored year: a number is kept as it is (even NaN); anything else
      is read with `parseInt(String(y), 10)`, falling back to the current
      year when that is NaN or 0. */
  function CleanYear(y: JsValue, currentYear: int): (r: JsValue)
    ensures y.Number? ==> r == y
    ensures !y.Number? ==> r.Number? && r.n.Finite?
    ensures !y.Number? && ParseInt(ToStr(y)).Some? && ParseInt(ToStr(y)).value != 0 ==>
              r == Real(ParseInt(ToStr(y)).value as real)
    ensures !y.Number? && (ParseInt(ToStr(y)).None? || ParseInt(ToStr(y)) == Some(0)) ==>
              r == Real(currentYear as real)
  {
    if y.Number? then y
    else
      match ParseInt(ToStr(y))
      case Some(n) => if n != 0 then Real(n as real) else Real(currentYear as real)
      case None => Real(currentYear as real)
  }

  /** `{ ...filmData, coordinates: …, year: … }`. */
  function CleanData(data: map<string, JsValue>, currentYear: int): (r: Result<map<string, JsValue>, JsError>)
    ensures r.Success? <==> CleanCoordinates(Get(Obj(data), "coordinates")).Success?
    ensures r.Success? ==>
              r.value.Keys == data.Keys + {"coordinates", "year"}
              && r.value["coordinates"] == CleanCoordinates(Get(Obj(data), "coordinates")).value
              && r.value["year"] == CleanYear(Get(Obj(data), "year"), currentYear)
              && forall k :: k in data && k != "coordinates" && k != "year" ==> r.value[k] == data[k]
  {
    var coordinates :- CleanCoordinates(Get(Obj(data), "coordinates"));
    var year := CleanYear(Get(Obj(data), "year"), currentYear);
    Success(data["coordinates" := coordinates]["year" := year])
  }

  /** One `addFilm` call: the record sent to the backend (if it got that
      far) and the result. */
  datatype AddRun = AddRun(inserted: Option<map<string, JsValue>>, result: Result<Film, JsError>)

  /** `addFilm(filmData)`, given the session's user id (only compared and
      logged), the current year, and what the insert returns. */
  function AddFilm(data: map<string, JsValue>, sessionUserId: Option<string>, currentYear: int,
                   insert: Result<Film, JsError>): (run: AddRun)
    ensures run.inserted.Some? <==> CleanData(data, currentYear).Success?
    ensures run.inserted.Some? ==> run.inserted.value == CleanData(data, currentYear).value && run.result == insert
    ensures run.inserted.None? ==> run.result.Failure?
  {
    // A session user id other than `data["user_id"]` only produces a warning.
    match CleanData(data, currentYear)
    case Failure(e) => AddRun(None, Failure(e))
    case Success(clean) => AddRun(Some(clean), insert)
  }

  /** Whose session it is has no bearing on what is inserted or returned. */
  lemma AddFilmIgnoresSession(data: map<string, JsValue>, s1: Option<string>, s2: Option<string>,
                              currentYear: int, insert: Result<Film, JsError>)
    ensures AddFilm(data, s1, currentYear, insert) == AddFilm(data, s2, currentYear, insert)
  {
  }

  // ---------------------------------------------------------------------------
  // deleteFilm
  // ---------------------------------------------------------------------------

  /** What `getSession` returned. */
  datatype SessionLookup = SessionError(error: JsError) | NoSession | Session(userId: string)

  /** The film's owner and image, as the lookup by id returns them. */
  datatype OwnerRow = OwnerRow(userId: string, imageUrl: Option<string>)

  const AuthErrorMessage: string := "Authentication error. Please sign in again."
  const NoSessionMessage: string := "No active session. Please sign in again."
  const NotFoundMessage: string := "Film not found"
  const NoPermissionMessage: string := "You do not have permission to delete this film"

  /** `userData?.is_admin || false`: a failed profile lookup counts as not
      an administrator. */
  predicate IsAdmin(profile: Result<JsValue, JsError>) {
    profile.Success? && Truthy(Get(profile.value, "is_admin"))
  }

  predicate MayDelete(row: OwnerRow, userId: string, profile: Result<JsValue, JsError>) {
    row.userId == userId || IsAdmin(profile)
  }

  /** The storage path of an image: the last `/`-separated segment of its
      URL. */
  function ImagePath(url: string): (path: string)
    ensures '/' !in path
    ensures '/' !in url ==> path == url
    ensures '/' in url ==> exists pre :: url == pre + ['/'] + path
  {
    LastSegmentSpec(url, '/');
    LastSegment(url, '/')
  }

  /** One `deleteFilm` call: the image removal requested (if any), whether
      the row delete was issued, and the result. */
  datatype DeleteRun = DeleteRun(removedImage: Option<string>, rowDeleted: bool, result: Result<bool, JsError>)

  /** `deleteFilm(id)`, given the session, the film lookup (`None` when no
      row came back), the caller's profile and the error the row delete
      reports (if any). Whether removing the image fails does not matter:
      a failed removal is only logged, and the row delete is issued
      regardless. */
  function DeleteFilm(session: SessionLookup, film: Result<Option<OwnerRow>, JsError>,
                      profile: Result<JsValue, JsError>, deleteError: Option<JsError>): (run: DeleteRun)
    ensures session.SessionError? ==> run == DeleteRun(None, false, Failure(Error(AuthErrorMessage)))
    ensures session.NoSession? ==> run == DeleteRun(None, false, Failure(Error(NoSessionMessage)))
    ensures run.rowDeleted <==>
              session.Session? && film.Success? && film.value.Some?
              && MayDelete(film.value.value, session.userId, profile)
    ensures run.removedImage.Some? <==>
              run.rowDeleted && film.value.value.imageUrl.Some? && |film.value.value.imageUrl.value| > 0
    ensures run.removedImage.Some? ==> run.removedImage.value == ImagePath(film.value.value.imageUrl.value)
    ensures run.result.Success? <==> run.rowDeleted && deleteError.None?
    ensures run.result.Success? ==> run.result.value
  {
    match session
    case SessionError(_) => DeleteRun(None, false, Failure(Error(AuthErrorMessage)))
    case NoSession => DeleteRun(None, false, Failure(Error(NoSessionMessage)))
    case Session(userId) =>
      match film
      case Failure(e) => DeleteRun(None, false, Failure(e))
      case Success(None) => DeleteRun(None, false, Failure(Error(NotFoundMessage)))
      case Success(Some(row)) =>
        if !MayDelete(row, userId, profile) then
          DeleteRun(None, false, Failure(Error(NoPermissionMessage)))
        else
          var removed :=
            if row.imageUrl.Some? && |row.imageUrl.value| > 0 then Some(ImagePath(row.imageUrl.value))
            else None;
          match deleteError
          case Some(e) => DeleteRun(removed, true, Failure(e))
          case None => DeleteRun(removed, true, Success(true))
  }

  /** Owners and administrators are let through; anyone else is refused
      with the permission error, and a failed profile lookup never grants
      the right. */
  lemma DeletePermission(userId: string, row: OwnerRow, profile: Result<JsValue, JsError>,
                         deleteError: Option<JsError>)
    ensures var run := DeleteFilm(Session(userId), Success(Some(row)), profile, deleteError);
            (row.userId != userId && !IsAdmin(profile)) <==> run == DeleteRun(None, false, Failure(Error(NoPermissionMessage)))
    ensures profile.Failure? && row.userId != userId ==>
              !DeleteFilm(Session(userId), Success(Some(row)), profile, deleteError).rowDeleted
  {
  }

  // ---------------------------------------------------------------------------
  // uploadFilmImage
  // ---------------------------------------------------------------------------

  datatype ImageFile = ImageFile(name: string, mimeType: string, size: nat)

  /** `${Date.now()}.${name.split('.').pop()}`. */
  function StoredFileName(now: nat, name: string): (fileName: string)
    ensures NatToString(now) + "." <= fileName
  {
    NatToString(now) + "." + LastSegment(name, '.')
  }

  /** The stored name keeps the original's extension: its last `.`-segment
      is the original's last `.`-segment (the whole name when it has no
      dot), and what precedes it is the timestamp. */
  lemma StoredFileNameExtension(now: nat, name: string)
    ensures LastSegment(StoredFileName(now, name), '.') == LastSegment(name, '.')
    ensures '.' !in name ==> StoredFileName(now, name) == NatToString(now) + "." + name
  {
    LastSegmentSpec(name, '.');
    LastSegmentAfter(NatToString(now), LastSegment(name, '.'), '.');
  }

  /** One `uploadFilmImage` call: the name uploaded under (if any) and the
      result, the public URL or `None` for no file. */
  datatype UploadRun = UploadRun(uploadedAs: Option<string>, result: Result<Option<string>, JsError>)

  /** `uploadFilmImage(file)`, given the time and what the upload returns
      (the public URL of the stored file, or an error). */
  function UploadFilmImage(file: Option<ImageFile>, now: nat, upload: Result<string, JsError>): (run: UploadRun)
    ensures file.None? ==> run == UploadRun(None, Success(None))
    ensures file.Some? ==> run.uploadedAs == Some(StoredFileName(now, file.value.name))
    ensures file.Some? && upload.Failure? ==> run.result == Failure(upload.error)
    ensures file.Some? && upload.Success? ==> run.result == Success(Some(upload.value))
  {
    match file
    case None => UploadRun(None, Success(None))
    case Some(f) =>
      var fileName := StoredFileName(now, f.name);
      match upload
      case Failure(e) => UploadRun(Some(fileName), Failure(e))
      case Success(url) => UploadRun(Some(fileName), Success(Some(url)))
  }
}
