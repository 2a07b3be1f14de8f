/** The image picker of the submission form: the type and size checks on
    the selected file, the preview, and clearing the picture. */
module ImageUpload {
  import opened Wrappers
  import opened Text
  import opened FilmService

  /** 5 MiB; a file of exactly this size is accepted, since the check is
      strictly greater. */
  const MaxImageBytes: nat := 5 * 1024 * 1024

  const NotAnImageAlert: string := "Please select an image file (jpg, png, etc.)"
  const TooLargeAlert: string := "File size exceeds 5MB. Please choose a smaller image."

  /** The picker's own state: the preview shown and whether a file is
      being read. */
  datatype Picker = Picker(preview: Option<string>, uploading: bool)

  /** The picker as mounted, showing the film's existing picture if any. */
  function Mounted(existingImageUrl: Option<string>): (p: Picker)
    ensures p.preview == existingImageUrl && !p.uploading
  {
    Picker(existingImageUrl, false)
  }

  /** What an event did: the new state, the alert shown, and what was
      reported to the parent through `onImageChange` — `None` when it was
      not called, `Some(None)` when it was called with `null`. */
  datatype Change = Change(picker: Picker, alert: Option<string>, reported: Option<Option<ImageFile>>)

  /** `type.match('image.*')`: the pattern is unanchored and `.*` may be
      empty, so it holds exactly when `image` occurs in the type. */
  predicate IsImageType(mimeType: string) {
    Contains(mimeType, "image")
  }

  /** The reason a file is refused, the type check first. */
  function Refusal(file: ImageFile): (r: Option<string>)
    ensures r.None? <==> IsImageType(file.mimeType) && file.size <= MaxImageBytes
    ensures !IsImageType(file.mimeType) ==> r == Some(NotAnImageAlert)
    ensures IsImageType(file.mimeType) && file.size > MaxImageBytes ==> r == Some(TooLargeAlert)
  {
    if !IsImageType(file.mimeType) then Some(NotAnImageAlert)
    else if file.size > MaxImageBytes then Some(TooLargeAlert)
    else None
  }

  /** `handleFileChange` with the first selected file, if any. */
  function OnFileSelected(p: Picker, selected: Option<ImageFile>): (c: Change)
    ensures selected.None? ==> c == Change(p, None, None)
    ensures c.reported.Some? <==> selected.Some? && Refusal(selected.value).None?
    ensures c.reported.Some? ==> c.reported.value == selected && c.alert.None?
                                 && c.picker == p.(uploading := true)
    ensures selected.Some? && Refusal(selected.value).Some? ==>
              c == Change(p, Refusal(selected.value), None)
  {
    match selected
    case None => Change(p, None, None)
    case Some(file) =>
      match Refusal(file)
      case Some(text) => Change(p, Some(text), None)
      case None => Change(p.(uploading := true), None, Some(Some(file)))
  }

  /** The file reader has produced the data URL: it becomes the preview. */
  function OnPreviewRead(p: Picker, dataUrl: string): (q: Picker)
    ensures q.preview == Some(dataUrl) && !q.uploading
  {
    Picker(Some(dataUrl), false)
  }

  /** `clearImage`: no preview, and `null` reported to the parent. */
  function Clear(p: Picker): (c: Change)
    ensures c.picker.preview.None? && c.picker.uploading == p.uploading
    ensures c.alert.None? && c.reported == Some(None)
  {
    Change(p.(preview := None), None, Some(None))
  }

  /** The file the parent holds after a change: the one reported, or the
      one it held when nothing was reported. */
  function ParentImage(held: Option<ImageFile>, c: Change): (r: Option<ImageFile>)
    ensures c.reported.None? ==> r == held
    ensures c.reported.Some? ==> r == c.reported.value
  {
    if c.reported.Some? then c.reported.value else held
  }

  /** Clearing undoes a selection: an accepted file reaches the parent and,
      once read, is previewed; clearing then leaves the parent with no file
      and the picker with no preview, ready for the next selection. A
      refused file leaves the parent's file as it was. */
  lemma ClearUndoesSelection(p: Picker, held: Option<ImageFile>, file: ImageFile, dataUrl: string)
    ensures ParentImage(held, OnFileSelected(p, Some(file)))
         == (if Refusal(file).None? then Some(file) else held)
    ensures var c1 := OnFileSelected(p, Some(file));
            var shown := if c1.picker.uploading then OnPreviewRead(c1.picker, dataUrl) else c1.picker;
            var c2 := Clear(shown);
            ParentImage(ParentImage(held, c1), c2).None? && c2.picker.preview.None?
            && (Refusal(file).None? ==> c2.picker == Picker(None, false))
  {
  }

  /** The file input is disabled while a file is being read, so a selection
      then triggers nothing. */
  function OnInput(p: Picker, selected: Option<ImageFile>): (c: Change)
    ensures p.uploading ==> c == Change(p, None, None)
    ensures !p.uploading ==> c == OnFileSelected(p, selected)
  {
    if p.uploading then Change(p, None, None) else OnFileSelected(p, selected)
  }

  /** The size limit is inclusive: an image of exactly 5 MiB is passed on,
      one byte more is refused. */
  lemma SizeLimitInclusive(p: Picker, name: string, mimeType: string)
    requires IsImageType(mimeType)
    ensures OnFileSelected(p, Some(ImageFile(name, mimeType, MaxImageBytes))).reported.Some?
    ensures OnFileSelected(p, Some(ImageFile(name, mimeType, MaxImageBytes + 1))).alert == Some(TooLargeAlert)
  {
  }

  /** Every MIME type of the image family passes the type check, and so does
      any other type that merely contains the word. */
  lemma ImageFamilyAccepted(subtype: string, before: string, after: string)
    ensures IsImageType("image/" + subtype)
    ensures IsImageType(before + "image" + after)
  {
    ContainsIff("image/" + subtype, "image");
    assert OccursAt("image/" + subtype, "image", 0);
    var s := before + "image" + after;
    ContainsIff(s, "image");
    assert s[|before|..|before| + 5] == "image";
    assert OccursAt(s, "image", |before|);
  }

  /** A type with no `image` in it is refused whatever the size, and nothing
      reaches the parent. */
  lemma NonImageRefused(p: Picker, file: ImageFile)
    requires forall i :: !OccursAt(file.mimeType, "image", i)
    ensures OnFileSelected(p, Some(file)) == Change(p, Some(NotAnImageAlert), None)
  {
    ContainsIff(file.mimeType, "image");
  }
}
