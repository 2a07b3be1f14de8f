# Queer Films Map — a Dafny model of its decision logic

The Queer Films Map is a web application. It shows queer films on a world
map at the places where they were made or set. Signed-in users submit films
by clicking the map. An administrator approves or rejects each submission.
Owners follow their submissions on a dashboard, and everyone can browse the
archive by decade.

This project models the small, exact decisions inside that application as
pure Dafny functions over immutable datatypes, and proves properties about
them:

- how the map page normalises the coordinates it reads (`Coordinates`);
- which films it draws and how (`MapRender`);
- what a map click, the confirmation popup and its close listener do
  (`MapInteraction`);
- what a submission checks, sends and appends (`Submission`);
- the label the reverse lookup falls back to (`ReverseGeocode`);
- the server-side geocoding route (`GeocodeRoute`);
- the repository's normalisation, delete gate and upload file name
  (`FilmService`);
- the moderation panel (`Moderation`) and the owner's dashboard
  (`Dashboard`);
- the archive's filters, decade buckets and sort orders (`Archive`);
- the image picker's checks (`ImageUpload`);
- the sign-up form's password checks (`SignUp`).

The JavaScript the application relies on is modelled in these modules:

- `JsValues`: dynamically typed values, truthiness, `typeof`, property
  access and template-literal conversion.
- `JsNumbers`: `parseFloat`, `parseInt`, `toFixed` and number-to-string
  conversion, over exact rationals.
- `Text`: `includes`, `replace`, `split`, ASCII `toLowerCase` and UTF-16
  length.

The backend, the map widget, `fetch`, clocks and dialogs are not modelled.
Each of them enters as a parameter that gives what it returned: a session, a
query result, an upload URL, the current time, the answer to a `confirm` or
`prompt`.

Where the code and its documentation differ, the model follows the code:

- The map draws every film whose coordinates are numbers other than NaN and
  not exactly (0, 0). No longitude or latitude range is checked
  (`MapRender.OutOfRangeRendered`).
- The query for a reverse lookup is longitude first (`"{lng},{lat}"`). The
  fallback label is latitude first (`ReverseGeocode.FallbackLabelOrder`).
- The image type check is an unanchored match of `image`. Any type that
  contains the word passes (`ImageUpload.ImageFamilyAccepted`).

## Model

| member | source | states |
|---|---|---|
| Coordinates.ParseCoordinates | src/components/QueerFilmsMap.js:737-765 | An input that already has `lng` and `lat` is returned unchanged. A string the point pattern matches gives `parseFloat` of its two groups, longitude first. An object whose `coordinates` is an array gives its items 0 and 1 (undefined past the end). Any other string, object or value gives the origin. The result always has `lng` and `lat`. |
| Coordinates.MatchPoint | src/components/QueerFilmsMap.js:748 | A match means the text `POINT(` + g1 + space + g2 + `)` occurs in the string with both groups non-empty and free of spaces, and the pattern occurs at no earlier index. No match means the pattern occurs at no index at all. |
| Coordinates.MatchAtComplete | src/components/QueerFilmsMap.js:748 | Wherever the pattern occurs, the backtracking matcher started at that index finds a match. |
| Coordinates.MatchPointText | src/components/QueerFilmsMap.js:748 | The text of a point with space-free coordinates, the second free of `)`, is matched with exactly those two groups. |
| Coordinates.WktRoundTrip | src/components/QueerFilmsMap.js:639 | The point text the submission writes, for coordinates with a finite decimal expansion, is parsed back by `parseCoordinates` as the same longitude and latitude, in the same order. |
| MapRender.Features | src/components/QueerFilmsMap.js:464-507 | A film is drawn exactly when its coordinates are present, both are non-NaN numbers and they are not both zero. Each feature's geometry is `[lng, lat]` and it carries the film's id. |
| MapRender.FeaturesConcat | src/components/QueerFilmsMap.js:464-507 | The features of a concatenation of film lists are the concatenation of their features, so the order of the films is kept. |
| MapRender.OutOfRangeRendered | src/components/QueerFilmsMap.js:466-485 | A film at longitude 200 is still drawn: no range is checked. |
| MapInteraction.ReadOnly | src/components/QueerFilmsMap.js:137 | A read-only flag given by the caller (any value but `undefined`) decides by its truthiness. Without one, the page is read-only exactly when nobody is signed in. |
| MapInteraction.ClickNeedsWriteAccess | src/components/QueerFilmsMap.js:341-344 | A click on an empty part of the map starts a lookup exactly when the page is not read-only. Without an explicit flag, nobody signed in means the click changes nothing, and someone signed in means the clicked point is selected. |
| MapInteraction.OnMapClick | src/components/QueerFilmsMap.js:341-428 | A click does nothing in read-only mode or on a film or cluster. Otherwise the selection, the marker and the popup move to the clicked point, a place-name lookup for that point starts, and the modal and form are left as they were. |
| MapInteraction.OnPopupCloseButton | src/components/QueerFilmsMap.js:420-427 | Closing the popup removes it. When a marker is shown, the marker and the selection go as well. |
| MapInteraction.OnPlaceName | src/components/QueerFilmsMap.js:367-375 | A truthy place name becomes the form's location as its string form. Any other value leaves the page alone. |
| MapInteraction.OnConfirm | src/components/QueerFilmsMap.js:393-403 | The confirm button as written opens the modal and removes the popup. The close listener still sees the modal as closed, so when a marker is shown the selection and the marker are cleared. |
| MapInteraction.OnConfirmCorrected | src/components/QueerFilmsMap.js:393-403 | With a close listener that reads the current modal flag, confirming only opens the modal and removes the popup. The selection and the marker stay. |
| ReverseGeocode.ReverseLookup | src/components/QueerFilmsMap.js:546-583 | Out-of-range coordinates give the fallback label without any request. Otherwise the coordinate query is requested. A failed request, a non-ok status, a missing body or no features give the fallback label. An ok response with features gives the first feature's `place_name`, and any result other than the fallback label comes from such a response. |
| ReverseGeocode.CoordinateQueryIsReverse | src/components/QueerFilmsMap.js:555 | The query for any point splits at its one comma into two numbers, longitude then latitude, each within half a unit in the sixth decimal. The geocoding route therefore reads it as a reverse lookup and asks for one result. |
| ReverseGeocode.LookupUsesReverseEndpoint | src/app/api/geocode/route.js:23-31 | For any in-range point and any token, the route fetches the reverse endpoint with `limit=1`. |
| ReverseGeocode.FallbackLabelOrder | src/components/QueerFilmsMap.js:551 | After the prefix `Location at `, the fallback label splits at its one comma into the latitude and then the longitude, each within half a unit in the fourth decimal. |
| GeocodeRoute.HandleGet | src/app/api/geocode/route.js:3-56 | A missing or empty query gives 400 and a missing token gives 500 "Configuration error", both without a fetch. Otherwise the endpoint with the encoded query is fetched and the redacted endpoint is logged. A non-ok upstream status is returned with that same status and a message naming it. An ok upstream JSON body is returned as it is, with status 200. A network error or a body that is not JSON gives 500 "Failed to geocode location". |
| GeocodeRoute.Limit | src/app/api/geocode/route.js:23-35 | The provider is asked for 1 result exactly when the query is a reverse query and for 5 otherwise. A reverse query contains a comma, and its first two comma pieces both start with a number `parseFloat` accepts. |
| GeocodeRoute.LoggedEndpointRedacted | src/app/api/geocode/route.js:37 | When the token does not occur earlier in the URL, the logged endpoint shows `REDACTED` in its place and everything else as sent. |
| GeocodeRoute.EncodeUriComponent | src/app/api/geocode/route.js:31 | The encoded query holds only unreserved characters and `%`. It cannot add a path segment, a parameter or a fragment to the URL. |
| GeocodeRoute.EncodeUnreserved | src/app/api/geocode/route.js:31 | A query of unreserved characters is placed in the URL unchanged. |
| Submission.HandleAddFilm | src/components/QueerFilmsMap.js:595-696 | The submission aborts with its alert, before any upload or insert, when there is no selected location, no user or no session, in that order. Past those checks, a successful upload (or no image) and insert append the inserted row at the selected point and show the success alert. A failed upload shows the alert for its error's kind and sends nothing. A failed insert shows the alert for its error's kind and leaves the page unchanged. Conversely, an appended film means the success alert, a reset form and selection, and a pending record with the point's text and the session's user id. |
| Submission.Draft | src/components/QueerFilmsMap.js:634-646 | The record is pending, carries the session's user id and the point's text, and applies the defaults: "Untitled Film", a null director, the fallback label, the current year when the year does not parse or is 0, "No description provided", and a null image. |
| Submission.DraftIsClean | src/lib/services/filmService.js:48-58 | The record the page sends is already normalised: the repository inserts it unchanged. |
| Submission.DraftCoordinatesRoundTrip | src/components/QueerFilmsMap.js:639 | The stored coordinates of a draft read back as the selected point. |
| Submission.ErrorAlertsDistinct | src/components/QueerFilmsMap.js:683-692 | Different kinds of failure show different alerts, and two "Failed to add film" alerts differ exactly when their messages do. |
| Submission.Classify | src/components/QueerFilmsMap.js:683-692 | A failure is a permission error exactly when its message mentions row-level security. Otherwise it is a duplicate title exactly when its code is 23505, then a data error exactly when its code starts with 22. Anything else reports its message, or "Unknown error" when the message is missing or empty. |
| Submission.ConfirmThenSubmit | src/components/QueerFilmsMap.js:393-427 | Clicking a point, confirming and submitting aborts as written with "Please select a location on the map first", whatever the user, session and backend. With the corrected listener the same steps append exactly one film located at the clicked point. |
| FilmService.CleanCoordinates | src/lib/services/filmService.js:51-53 | String coordinates are kept verbatim. Null or undefined throws. Any other value is written as `POINT(lng lat)` from its `lng` and `lat`. |
| FilmService.CleanYear | src/lib/services/filmService.js:55-57 | A numeric year is kept. Anything else becomes a finite number: `parseInt` of its text, or the current year when that is NaN or 0. |
| FilmService.CleanData | src/lib/services/filmService.js:48-58 | Normalisation succeeds exactly when the coordinates can be normalised. It then sets `coordinates` and `year`, adds no other key and passes every other field through unchanged. |
| FilmService.AddFilm | src/lib/services/filmService.js:42-58 | The normalised record is inserted exactly when normalisation succeeds, and the insert's result is returned. |
| FilmService.DeleteFilm | src/lib/services/filmService.js:96-185 | A session error or no session fails with its message and deletes nothing. The row delete is attempted exactly when the film is found and the caller owns it or is an administrator. The image is removed exactly when the delete is attempted and the film has a non-empty image URL, and the path removed is the URL's last segment. A failed removal changes nothing. The call succeeds exactly when the row delete reports no error. |
| FilmService.ImagePath | src/lib/services/filmService.js:150-151 | The removed path holds no `/`. It is the whole URL when the URL has no `/`, and otherwise what follows the URL's last `/`. |
| FilmService.StoredFileNameExtension | src/lib/services/filmService.js:197-198 | The stored name is the timestamp, a dot, then the original's extension. Its last dot-segment is the original's last dot-segment, which is the whole name when it has no dot. |
| FilmService.UploadFilmImage | src/lib/services/filmService.js:190-198 | No file gives null without an upload. A file is uploaded under its stored name, and the upload's URL or error is returned. |
| Moderation.LoadPanel | src/components/AdminPanel.js:52-73 | The panel is an administrator's exactly when a user and their profile were found and the profile's `is_admin` is truthy. Only an administrator's panel lists films, and when the query succeeds it lists exactly the pending rows. |
| Moderation.Render | src/components/AdminPanel.js:138-172 | A non-administrator sees nothing at all. An administrator sees the error card when the panel holds a non-empty error, and otherwise the panel's pending list. |
| Moderation.LoadedView | src/components/AdminPanel.js:52-73 | Once loaded, the panel shows nothing exactly when the caller is not an administrator, whatever failed. An administrator whose films query succeeded sees exactly the table's pending rows, and one whose query failed with a message sees that message. |
| Moderation.Approve | src/components/AdminPanel.js:80-97 | The update to approved is always sent. On success exactly that id leaves the local list. On failure the list is unchanged and the error is shown. |
| Moderation.Reject | src/components/AdminPanel.js:100-124 | A cancelled prompt sends nothing and changes nothing. Otherwise the update to rejected is sent with the typed reason, or "No reason provided" when it is empty. On success exactly that id leaves the list; on failure the list is unchanged. |
| Moderation.ActionsKeepListInSync | src/components/AdminPanel.js:84-123 | When the local list is the table's pending rows, it still is after an approve or a reject. The table is updated when the update succeeds and untouched when it fails or is cancelled. |
| Moderation.PendingAfterUpdate | src/components/AdminPanel.js:92 | Removing an id from the pending rows gives the pending rows of the table after that id moves away from pending. |
| Dashboard.CountsBound | src/app/dashboard/DashboardPage.js:144-146 | The three status counts never exceed the number of films. They add up to it exactly when every film has a known status. |
| Dashboard.StatusBadge | src/app/dashboard/DashboardPage.js:159-190 | Each known status gets its own badge. Any other value gets the unknown badge. |
| Dashboard.BadgesMatchCounts | src/app/dashboard/DashboardPage.js:144-190 | The films with the pending, approved and rejected badges are exactly the films each count counts, and the films with the unknown badge are exactly those no count counts. |
| Dashboard.ModeratedFilmIsLocked | src/app/dashboard/DashboardPage.js:281-301 | After a moderator's update, edit and delete are no longer offered. A film rejected with a reason shows it. |
| Dashboard.HandleDeleteFilm | src/app/dashboard/DashboardPage.js:98-110 | A declined confirmation makes no call. A successful delete removes the films with that id. A failed one leaves the list unchanged and shows the alert. |
| Dashboard.DeleteRemovesExactlyThatId | src/app/dashboard/DashboardPage.js:105 | After a successful delete every other film stays, in the same order, and deleting the same id again changes nothing. |
| Films.RemoveId | src/app/dashboard/DashboardPage.js:105 | The remaining films are exactly those with another id. |
| Archive.FilterFilms | src/app/films/FilmsIndexPage.js:46-61 | A film is kept exactly when the search, year and location tests all hold. An empty term matches everything. |
| Archive.ClearedShowsAll | src/app/films/FilmsIndexPage.js:141-145 | With the filters cleared, every film is listed, in order. |
| Archive.YearFilterIsEquality | src/app/films/FilmsIndexPage.js:53-54 | A film matches the written form of a year exactly when it is from that year. |
| Archive.SearchIgnoresCase | src/app/films/FilmsIndexPage.js:48-58 | Changing the letter case of the search or location term does not change what is found. |
| Archive.GroupByDecade | src/app/films/FilmsIndexPage.js:64-71 | A decade is a key exactly when some film is from it. Its bucket is that decade's films, in order. |
| Archive.EachFilmInOneBucket | src/app/films/FilmsIndexPage.js:64-71 | Every film is in the bucket of its own decade and in no other. |
| Archive.SortedDecades | src/app/films/FilmsIndexPage.js:74 | The decade headings are strictly descending, and they are exactly the bucket keys. |
| Archive.SortByYearSorted | src/app/films/FilmsIndexPage.js:204 | The films of a decade are listed in non-decreasing year order. |
| Archive.SortByYearStable | src/app/films/FilmsIndexPage.js:204 | The sort is stable: the films of each year keep their relative order. |
| Archive.PageListsFilteredFilms | src/app/films/FilmsIndexPage.js:64-74 | The page lists every film that passes the filters exactly once, and nothing else. |
| ImageUpload.OnFileSelected | src/components/ImageUpload.js:16-44 | An empty selection does nothing. A file is passed to the parent exactly when its type contains `image` and it is at most 5 MiB, and only then does reading start. A refused file shows the type alert first, then the size alert. |
| ImageUpload.SizeLimitInclusive | src/components/ImageUpload.js:27-30 | A file of exactly 5 MiB is passed on, and one byte more is refused. |
| ImageUpload.NonImageRefused | src/components/ImageUpload.js:21-24 | A type without `image` in it is refused whatever the size, and nothing reaches the parent. |
| ImageUpload.ImageFamilyAccepted | src/components/ImageUpload.js:21 | Every `image/...` type passes the type check, and so does any type that merely contains the word. |
| ImageUpload.Clear | src/components/ImageUpload.js:46-52 | Clearing removes the preview and reports null to the parent. |
| ImageUpload.ClearUndoesSelection | src/components/ImageUpload.js:16-52 | An accepted file becomes the parent's file, and a refused one leaves the parent's file as it was. Clearing afterwards leaves the parent with no file and the picker with no preview. |
| SignUp.HandleSignUp | src/app/auth/SignUpForm.js:33-75 | A validation failure shows its message, stops loading and never calls sign-up. Otherwise sign-up is called: its error's message is shown, or the page goes to the verify-email page. |
| SignUp.Validate | src/app/auth/SignUpForm.js:39-49 | Validation passes exactly when the two passwords are equal and at least 6 UTF-16 units long. A mismatch is reported before a short password. |
| SignUp.LengthInCodeUnits | src/app/auth/SignUpForm.js:45 | The length is counted in UTF-16 units: three emoji make a long enough password, and five ASCII letters do not. |
| JsNumbers.ToFixedParses | src/components/QueerFilmsMap.js:551-555 | The text `toFixed(f)` writes parses back to a number within half a unit in the f-th decimal of the original. |
| JsNumbers.NumberToStringParses | src/components/QueerFilmsMap.js:639 | A number with at most 20 decimals is written in a form that parses back to exactly that number. |
| Text.SplitJoin | src/app/api/geocode/route.js:23-25 | Splitting a join of separator-free parts gives the parts back. |
| Text.ContainsIff | src/app/films/FilmsIndexPage.js:49 | `includes` holds exactly when the term occurs at some position. |

## Left out

- The map widget's lifecycle is not modelled: creating the map, its sources, layers, clusters and popups, and the timer that retries `updateMapData`. The model keeps only the state the click handler reads and writes.
- The backend calls (sessions, queries, inserts, updates, storage) are not modelled. Each enters as a parameter holding what the call returned.
- `handleSearch`, `resetState`, the debugging helpers and the logging are not modelled. They decide nothing the rest depends on.
- `Modal.js` and the presentation-only pages and components are not modelled.
- JsNumbers: numbers are exact rationals, so IEEE-754 rounding, exponent notation (`1e21`, `1e-7`) and more than 20 decimals in a number's text are not modelled.
- JsNumbers.ToFixed: the switch to exponent notation at 1e21 is not modelled.
- Text.ToLower: only ASCII letters are folded. Other Unicode case mappings are not modelled.
- MapInteraction.ReadOnly: the click handler captures `readOnly` once, at map creation. The model passes the current value to each click.
- ReverseGeocode.ReverseLookup: `data.features` is read as an array or a string. An object with a positive numeric `length` is treated as having no features, where the page would read its property `0`.
- MapInteraction.OnPlaceName: the form's location is a string field. A truthy `place_name` that is not a string is stored as its string form, where the page stores the value itself.
- ReverseGeocode.ReverseLookup: the query travels through `encodeURIComponent` and the URL parser, and the model assumes the route receives it unchanged.
- Archive.FilterFilms: a missing title, description or location throws in the page. Here they are strings and cannot be missing.
- FilmService.CleanYear: `parseInt` of a long digit string rounds to a double. The model keeps the exact integer.
- SignUp.HandleSignUp: the request itself, and a thrown error other than the backend's answer, are not modelled.

## Findings

| source | as written | input that shows it | evidently intended | confidence | as-written member | corrected member |
|---|---|---|---|---|---|---|
| src/components/QueerFilmsMap.js:393-427 | The popup's close listener reads `showAddModal` from the closure created with the map, where it is always false. The confirm button opens the modal and then removes the popup, which fires the close listener. | Click a point on the map, press "Add a film here?", fill in the form and submit. The listener has removed the marker and cleared the selection, so the submission stops with "Please select a location on the map first". | The close listener keeps the marker and the selection when the modal is being opened, and the submission goes through. | medium (not executed; it relies on the map library's `Popup.remove()` firing `close`) | Submission.ConfirmThenSubmit | MapInteraction.OnConfirmCorrected |
