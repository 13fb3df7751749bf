/**
 * The avatar upload zone: the selected image (`selectedAvatar`), the status line below the
 * zone and the zone's `error` flag, and how uploads, the zone click, the Remove and Change
 * buttons and a form submission change them. The zone shows the upload prompt while no image
 * is selected (Empty) and a preview with Remove and Change buttons once one is (Selected).
 */
module AvatarUpload {
  import opened Options
  import opened Validators

  const DefaultHint: string := "Upload your photo (JPG or PNG, max size: 500KB)"

  /** What `FileReader.readAsDataURL` delivers: a `data:` URL, never empty, so a selected
      avatar is always truthy in the source. */
  type DataUrl = s: string | |s| >= 5 && s[..5] == "data:" witness "data:"

  /** A file the user dropped or picked, with the data URL its read yields. */
  datatype PickedFile = PickedFile(file: ImageFile, dataUrl: DataUrl)

  datatype Zone = Zone(selected: Option<DataUrl>, status: string, error: bool)

  /** The zone as the page loads it and as Remove restores it. */
  const Initial: Zone := Zone(None, DefaultHint, false)

  /** The status line shows the default hint when the zone is not flagged, and one of the
      validator's two messages when it is. */
  predicate StatusAgrees(z: Zone) {
    if z.error then z.status == TypeMessage || z.status == SizeMessage else z.status == DefaultHint
  }

  /** `handleAvatarUpload`, with the read completed at once: a rejected file leaves the
      selection and sets the status to the validator's message with the error flag; an
      accepted one becomes the selection and restores the hint. */
  function Upload(z: Zone, p: PickedFile): (r: Zone)
    ensures r.selected == (if IsAcceptableImage(p.file) then Some(p.dataUrl) else z.selected)
    ensures r.error <==> !IsAcceptableImage(p.file)
    ensures StatusAgrees(r)
    ensures r.error ==> r.status == ValidateImageFile(p.file).message
  {
    match ValidateImageFile(p.file)
    case Rejected(message) => z.(status := message, error := true)
    case Accepted => Zone(Some(p.dataUrl), DefaultHint, false)
  }

  /** `removeImage`, whatever the prior state: nothing selected, the default hint, no error. */
  function Remove(z: Zone): (r: Zone)
    ensures r.selected.None? && r.status == DefaultHint && !r.error
  {
    Initial
  }

  /** The part of `handleFormSubmit` that resets the zone: the selection is kept, and the
      status line and the flag return to their unflagged agreement. */
  function ResetStatus(z: Zone): (r: Zone)
    ensures r.selected == z.selected && !r.error && StatusAgrees(r)
  {
    z.(status := DefaultHint, error := false)
  }

  /** What the user can do to the zone. A picker yields at most one file; a drop may carry
      several, of which the first is used. The Remove and Change buttons exist only in the
      preview, so clicking them is possible only while an image is selected. */
  datatype Event =
    | Dropped(files: seq<PickedFile>)
    | ZoneClicked(choice: Option<PickedFile>)
    | RemoveClicked
    | ChangeClicked(choice: Option<PickedFile>)
    | FormSubmitted

  /** One event. A delivered file is uploaded: an acceptable one becomes the selection, a
      rejected one sets the validator's message and the flag. Remove on a selected image
      restores the initial zone, a submit resets the status, and any other event changes
      nothing. A zone click opens the picker only while nothing is selected. */
  function Step(z: Zone, e: Event): (r: Zone)
    ensures Delivered(z, e).Some? ==>
              var f := Delivered(z, e).value.file;
              && r.selected == (if IsAcceptableImage(f) then Some(Delivered(z, e).value.dataUrl) else z.selected)
              && (r.error <==> !IsAcceptableImage(f))
              && (r.error ==> r.status == ValidateImageFile(f).message)
    ensures e == RemoveClicked && z.selected.Some? ==> r == Initial
    ensures e == FormSubmitted ==> r.selected == z.selected && !r.error && r.status == DefaultHint
    ensures Delivered(z, e).None? && e != FormSubmitted && !(e == RemoveClicked && z.selected.Some?) ==> r == z
    ensures StatusAgrees(z) ==> StatusAgrees(r)
    ensures || r.selected == z.selected
            || (e == RemoveClicked && r.selected.None?)
            || (Delivered(z, e).Some? && IsAcceptableImage(Delivered(z, e).value.file)
                && r.selected == Some(Delivered(z, e).value.dataUrl))
  {
    match e
    case Dropped(files) => if |files| > 0 then Upload(z, files[0]) else z
    case ZoneClicked(choice) => if z.selected.None? && choice.Some? then Upload(z, choice.value) else z
    case RemoveClicked => if z.selected.Some? then Remove(z) else z
    case ChangeClicked(choice) => if z.selected.Some? && choice.Some? then Upload(z, choice.value) else z
    case FormSubmitted => ResetStatus(z)
  }

  /** The events in order. A selected avatar is lost over a run only if Remove was clicked. */
  function Run(z: Zone, es: seq<Event>): (r: Zone)
    ensures z.selected.Some? && r.selected.None? ==> RemoveClicked in es
    decreases |es|
  {
    if es == [] then z else Run(Step(z, es[0]), es[1..])
  }

  /** The file `e` hands to `Upload` in state `z`, if any. */
  function Delivered(z: Zone, e: Event): Option<PickedFile> {
    match e
    case Dropped(files) => if |files| > 0 then Some(files[0]) else None
    case ZoneClicked(choice) => if z.selected.None? then choice else None
    case ChangeClicked(choice) => if z.selected.Some? then choice else None
    case _ => None
  }

  /** `url` is the data URL of an acceptable file that some event of `es` offers. */
  ghost predicate OfferedAccepted(es: seq<Event>, url: DataUrl) {
    exists i, p :: 0 <= i < |es| && p in Files(es[i]) && p.dataUrl == url && IsAcceptableImage(p.file)
  }

  /** The files an event can hand to `Upload`: the first file of a drop, or the picker's choice. */
  function Files(e: Event): set<PickedFile> {
    match e
    case Dropped(files) => if |files| > 0 then {files[0]} else {}
    case ZoneClicked(choice) => if choice.Some? then {choice.value} else {}
    case ChangeClicked(choice) => if choice.Some? then {choice.value} else {}
    case _ => {}
  }

  /** The state machine: a step leaves Empty only by an upload of an acceptable file, and
      leaves Selected only by Remove. */
  lemma StepTransitions(z: Zone, e: Event)
    ensures z.selected.None? && Step(z, e).selected.Some? <==>
              z.selected.None? && Delivered(z, e).Some? && IsAcceptableImage(Delivered(z, e).value.file)
    ensures z.selected.Some? && Step(z, e).selected.None? <==> z.selected.Some? && e == RemoveClicked
    ensures Step(z, e).selected.Some? && Step(z, e).selected != z.selected ==>
              Delivered(z, e).Some? && IsAcceptableImage(Delivered(z, e).value.file)
              && Step(z, e).selected == Some(Delivered(z, e).value.dataUrl)
  {
  }

  /** Every reachable zone keeps its status line and error flag in agreement. */
  lemma {:induction false} RunKeepsStatusAgreement(z: Zone, es: seq<Event>)
    requires StatusAgrees(z)
    ensures StatusAgrees(Run(z, es))
    decreases |es|
  {
    if es != [] {
      RunKeepsStatusAgreement(Step(z, es[0]), es[1..]);
    }
  }

  /** A rejected file never becomes the avatar: whatever the zone selects after a run of
      events is what it selected before or an acceptable file that one of the events offered. */
  lemma {:induction false} RunSelectsOnlyAccepted(z: Zone, es: seq<Event>)
    ensures var r := Run(z, es);
            r.selected.Some? ==> r.selected == z.selected || OfferedAccepted(es, r.selected.value)
    decreases |es|
  {
    if es != [] {
      var z1 := Step(z, es[0]);
      RunSelectsOnlyAccepted(z1, es[1..]);
      var r := Run(z, es);
      assert r == Run(z1, es[1..]);
      if r.selected != z.selected && r.selected.Some? {
        if r.selected == z1.selected {
          StepTransitions(z, es[0]);
          var p := Delivered(z, es[0]).value;
          assert p in Files(es[0]);
          assert OfferedAccepted(es, r.selected.value);
        } else {
          var i, p :| 0 <= i < |es[1..]| && p in Files(es[1..][i]) && p.dataUrl == r.selected.value
                      && IsAcceptableImage(p.file);
          assert es[1..][i] == es[i + 1];
          assert OfferedAccepted(es, r.selected.value);
        }
      }
    }
  }

  /** From the page's initial zone, a valid upload selects the image with the default hint,
      and Remove brings back exactly the initial zone. */
  lemma UploadThenRemove(p: PickedFile)
    requires IsAcceptableImage(p.file)
    ensures Run(Initial, [Dropped([p])]) == Zone(Some(p.dataUrl), DefaultHint, false)
    ensures Run(Initial, [Dropped([p]), RemoveClicked]) == Initial
  {
    var z1 := Step(Initial, Dropped([p]));
    assert Run(Initial, [Dropped([p])]) == Run(z1, []);
    assert [Dropped([p]), RemoveClicked][1..] == [RemoveClicked];
    assert Run(Initial, [Dropped([p]), RemoveClicked]) == Run(z1, [RemoveClicked]);
    assert Run(z1, [RemoveClicked]) == Run(Step(z1, RemoveClicked), []);
  }

  /** An oversized file leaves the zone empty with the size message and the error flag; a
      following valid upload clears both. */
  lemma OversizedThenValid(big: PickedFile, good: PickedFile)
    requires big.file.mimeType in AllowedTypes && big.file.size > MaxImageSize
    requires IsAcceptableImage(good.file)
    ensures Run(Initial, [Dropped([big])]) == Zone(None, SizeMessage, true)
    ensures Run(Initial, [Dropped([big]), Dropped([good])]) == Zone(Some(good.dataUrl), DefaultHint, false)
  {
    var z1 := Step(Initial, Dropped([big]));
    assert Run(Initial, [Dropped([big])]) == Run(z1, []);
    assert [Dropped([big]), Dropped([good])][1..] == [Dropped([good])];
    assert Run(Initial, [Dropped([big]), Dropped([good])]) == Run(z1, [Dropped([good])]);
    assert Run(z1, [Dropped([good])]) == Run(Step(z1, Dropped([good])), []);
  }
}
