# Conference ticket form: a verified model of its decision logic

The original is a client-side form. It asks for a name, an e-mail address and a GitHub
handle. It accepts an avatar image by drag-and-drop or a click-to-pick picker. When the
form is submitted and valid, it shows a generated conference ticket.

This project models what `script.js` decides, and leaves out how it draws. It covers:

- the two validators: the e-mail format check and the avatar file check;
- the inline error messages, kept as a map from each node's `data-field-error` key to its text,
  plus the set of inputs marked invalid;
- the avatar zone's state machine: the selected image, the status line and the zone's error flag;
- the submit handler: trimming, clearing, the three checks in order, and building the ticket.

Modules, one per component of the script:

| module | file | holds |
|---|---|---|
| `Options` | options.dfy | the `Option` type that stands for the script's `null` |
| `Text` | text.dfy | JavaScript white space (`\s` and `String.prototype.trim` agree on it), `Trim`, `Count` |
| `Validators` | validators.dfy | `IsValidEmail`, its regex-shaped reference `MatchesEmailPattern`, the scan `ScanEmail`, `ValidateImageFile` |
| `ErrorPresenter` | error_presenter.dfy | the error registry, with the key as written and the corrected key |
| `AvatarUpload` | avatar_upload.dfy | the zone as a value, its transitions, user events and runs of events |
| `TicketRenderer` | ticket_renderer.dfy | the form snapshot and the ticket record |
| `FormOrchestrator` | form_orchestrator.dfy | which error each field gets, the registry after a submit, and the class `TicketForm` |

`TicketForm` stands for the page's mutable state. It holds the module global `selectedAvatar`,
the status text, the zone flag, the error nodes and the invalid marks. It has one method per
operation of the script. Each method's `ensures` ties the new state to a pure function of the
old state, and the lemmas prove their properties about those functions.

Modelling choices:

- The file read is synchronous and always succeeds. It yields a `DataUrl`, a string starting with
  `data:`. So the avatar is selected exactly when `selectedAvatar` is `Some`, which is how the
  script's truthiness tests (`!selectedAvatar`, `formData.avatar || …`) read it.
- A picked file is its declared MIME type and its size in bytes, plus the data URL read from it.
- The raw values of the three inputs are parameters of `HandleFormSubmit`.
- The ticket is the record of the four values the template is filled with. No HTML is built.
- A drop replaces the avatar in either state, because the drop listener stays on the zone
  while the preview shows.
- The e-mail pattern needs `x`, `y` and `z` in `x@y.z` to be free of `@` as well as of white
  space.
- The key of an error node changes when the input is marked invalid. See "Findings".

## Model

| member | source | states |
|---|---|---|
| `Text.TrimStart` | script.js:270-272 | the result is a suffix of the input, only white space was dropped, and it does not start with white space |
| `Text.TrimEnd` | script.js:270-272 | the result is a prefix of the input, only white space was dropped, and it does not end with white space |
| `Text.Trim` | script.js:270-272 | the trimmed value is no longer than the input and has no white space at either end |
| `Text.TrimIsTrimmedSlice` | script.js:270-272 | `Trim(s)` is a contiguous slice of `s` with only white space cut off on either side |
| `Text.TrimmedSliceIsTrim` | script.js:270-272 | any such slice equals `Trim(s)`, so the slice property characterises trimming |
| `Text.TrimEmptyIff` | script.js:270-272 | an input trims to the empty string exactly when it is all white space |
| `Text.TrimIdempotent` | script.js:270-272 | trimming twice is trimming once |
| `Validators.IsValidEmail` | script.js:5-7 | the string form of the pattern; an accepted address has at least five characters and holds an `@` and a `.` |
| `Validators.EmailPatternEquivalence` | script.js:5-7 | the string predicate holds exactly when the input splits as `a@b.c` into three non-empty runs free of white space and `@`, which is the whole-string match of `^[^\s@]+@[^\s@]+\.[^\s@]+$` |
| `Validators.ScanEmail` | script.js:5-7 | a single left-to-right scan returns true exactly when the address is valid |
| `Validators.EmailNeedsAtAndDot` | script.js:5-7 | a string without `@` is rejected, and so is one with no `.` that has an `@` before it with a character in between and a character after it |
| `Validators.ValidateImageFile` | script.js:40-53 | accepted exactly for `image/jpeg`, `image/jpg` or `image/png` of at most 512000 bytes; any other type gets "Only JPG or PNG files are allowed" whatever its size; an allowed type above the limit gets "The file is too large (maximum 500KB)" |
| `Validators.SizeBoundary` | script.js:41-52 | for each allowed type, 512000 bytes pass and 512001 bytes fail with the size message |
| `Validators.TypeCheckedBeforeSize` | script.js:44-46 | a type outside the allow-list gets the type message for every size |
| `ErrorPresenter.KeyAsWritten` | script.js:10-38 | `field.id \|\| field.className` on the current attributes: the id when there is one; otherwise the class attribute until the input is marked invalid, and a different string from then on |
| `ErrorPresenter.ShowErrorAsWritten` | script.js:10-29 | as written: the node under the current key shows the message, the input is marked, every other node is kept, and no other key gains a node |
| `ErrorPresenter.ClearErrorAsWritten` | script.js:31-38 | as written: no node remains under the current key, the input is unmarked, every other node is kept, and no key gains a node |
| `ErrorPresenter.StaleErrorAsWritten` | script.js:10-38 | as written, for an input without an id, `clearError` after `showError` leaves the node and its message in place |
| `ErrorPresenter.StaleNameErrorExample` | script.js:10-38 | the concrete case: an input `class="name-input"` keeps "The name is required" after it is cleared |
| `ErrorPresenter.Key` | script.js:10-38 | the corrected key, equal to the key the code computes whenever the input is not marked invalid |
| `ErrorPresenter.ShowError` | script.js:10-29 | after showing, the key has exactly one node with the message, the input is marked invalid, and no other node changed |
| `ErrorPresenter.ClearError` | script.js:31-38 | with the corrected key: after clearing, no node has the input's key, the input is unmarked, and every other node is kept |
| `ErrorPresenter.ShowErrorReplaces` | script.js:10-29 | with the corrected key: showing twice leaves one node per key, holding the second message |
| `ErrorPresenter.ClearErrorNoOp` | script.js:31-38 | clearing an input that has no node and no invalid mark changes nothing |
| `ErrorPresenter.ClearAfterShow` | script.js:10-38 | with the corrected key, clearing after showing equals clearing alone, and no node remains under the key |
| `ErrorPresenter.ShowErrorTracks` | script.js:10-29 | showing keeps the invariant: nodes only for the three inputs, and an input is marked invalid exactly when its node exists |
| `ErrorPresenter.ClearErrorTracks` | script.js:31-38 | clearing keeps the same invariant |
| `AvatarUpload.Upload` | script.js:126-146 | the selection becomes the data URL exactly when the file is an acceptable image and is otherwise unchanged; the error flag is set exactly for a rejected file, and the status shows the validator's message or the default hint |
| `AvatarUpload.Remove` | script.js:55-69 | nothing is selected, the status is the default hint and the flag is cleared, whatever the prior state |
| `AvatarUpload.ResetStatus` | script.js:280-283 | the selection is kept, the flag is cleared and the status line agrees with it |
| `AvatarUpload.Step` | script.js:92-124 | a delivered file (the first of a drop in either state, a zone click's choice while nothing is selected, the Change picker's choice while an image is selected) is uploaded: an acceptable one becomes the selection, a rejected one keeps it and sets the validator's message and the flag; Remove while an image is selected restores the initial zone; a submit keeps the selection and resets the status and flag; any other event changes nothing; every step keeps the status line in agreement with the flag |
| `AvatarUpload.Run` | script.js:55-146 | over any run of events, a selected avatar is lost only if Remove was clicked |
| `AvatarUpload.StepTransitions` | script.js:55-146 | a step leaves Empty only by delivering an acceptable file (a drop, or a zone click while empty); it leaves Selected only by Remove; the selection changes only to the data URL of an acceptable delivered file |
| `AvatarUpload.RunKeepsStatusAgreement` | script.js:55-146 | across any run of events, the status line shows the default hint when the zone is unflagged, and one of the two validator messages when it is flagged |
| `AvatarUpload.RunSelectsOnlyAccepted` | script.js:126-146 | after any run of events, the selected avatar is either the one selected before the run or the data URL of an acceptable file that one of the events offered |
| `AvatarUpload.UploadThenRemove` | script.js:55-69 | from the page's initial zone, a valid upload selects the image with the default hint, and Remove then restores exactly the initial zone |
| `AvatarUpload.OversizedThenValid` | script.js:126-146 | an oversized upload leaves the zone empty with the size message and the flag set; a following valid upload clears both and selects the image |
| `TicketRenderer.GenerateTicket` | script.js:227-254 | the ticket carries the name, e-mail and GitHub handle unchanged; it shows the selected avatar, or the placeholder `./assets/images/image-avatar.jpg` exactly when none is selected |
| `FormOrchestrator.Snapshot` | script.js:269-274 | each value is the trimmed raw input, so it has no white space at either end and is no longer than the raw input; the avatar is the one selected |
| `FormOrchestrator.MessageFor` | script.js:285-303 | a field gets its "required" message exactly when its value is empty; it passes exactly when it is non-empty and, for the e-mail, valid; the only other message is the e-mail's "Invalid email format" |
| `FormOrchestrator.FormErrors` | script.js:285-303 | at most three failures, in the order name, e-mail, GitHub; a failure is listed exactly when it is that field's message |
| `FormOrchestrator.NoErrorsIff` | script.js:285-307 | there is no failure exactly when the name and GitHub handle are non-empty and the e-mail is non-empty and valid |
| `FormOrchestrator.EmailMessagesExclusive` | script.js:287-303 | the e-mail gets "The email is required" exactly when it is empty, and "Invalid email format" exactly when it is non-empty and invalid, never both; each of the other fields fails exactly when it is empty |
| `FormOrchestrator.BlankInputsRequired` | script.js:269-303 | a field is reported as required exactly when its raw input is empty or all white space |
| `FormOrchestrator.AllBlankReportsThree` | script.js:285-303 | three blank inputs give exactly the three "required" failures, in order |
| `FormOrchestrator.TicketFieldsValid` | script.js:269-310 | a ticket built after a submit with no failure has a trimmed non-empty name and GitHub handle, a trimmed e-mail that matches the pattern, and the placeholder avatar exactly when none is selected |
| `FormOrchestrator.Report` | script.js:285-303 | a failing check shows its message under its input's key and marks the input; a passing check changes nothing; no other key's node changes |
| `FormOrchestrator.ClearInputs` | script.js:276-278 | with the corrected key: no node of the three inputs and no mark on them remain, and every other node is kept |
| `FormOrchestrator.SubmitRegistry` | script.js:276-303 | after a submit, only the three inputs' nodes and marks can differ from before |
| `FormOrchestrator.SubmitShowsCurrentErrors` | script.js:276-303 | with the corrected key: after a submit, each input shows exactly the message of its current failure, or nothing when it passes, and is marked invalid exactly then; no message from an earlier submit survives; nodes under other keys are untouched |
| `FormOrchestrator.SubmitTracks` | script.js:276-303 | a submit keeps the registry invariant |
| `FormOrchestrator.TicketForm.constructor` | script.js:3 | the page starts with no avatar, the default hint, no zone error and no error nodes |
| `FormOrchestrator.TicketForm.ShowFieldError` | script.js:10-29 | the new registry is the old one with the input's node set to the message and the input marked invalid; the zone is untouched |
| `FormOrchestrator.TicketForm.ClearFieldError` | script.js:31-38 | with the corrected key: the new registry is the old one with the input's node and mark removed; the zone is untouched |
| `FormOrchestrator.TicketForm.HandleAvatarUpload` | script.js:126-146 | the zone becomes `Upload` of the old zone for the picked file; the error registry is untouched |
| `FormOrchestrator.TicketForm.RemoveImage` | script.js:55-69 | from any state, the zone returns to the initial zone: no avatar, the default hint, no error flag |
| `FormOrchestrator.TicketForm.ClickZone` | script.js:99-111 | a picker opens exactly when no avatar is selected, and the picked file, if any, is then uploaded |
| `FormOrchestrator.TicketForm.DropFiles` | script.js:92-97 | the first dropped file, if any, is uploaded in either state |
| `FormOrchestrator.TicketForm.ChangeImage` | script.js:114-124 | the picked file, if any, is uploaded; while an avatar is selected this is the Change button's step |
| `FormOrchestrator.TicketForm.ClearInputErrors` | script.js:276-278 | with the corrected key: the three inputs' errors are cleared |
| `FormOrchestrator.TicketForm.ResetAvatarStatus` | script.js:280-283 | the status returns to the default hint and the flag is cleared; the avatar is kept |
| `FormOrchestrator.TicketForm.CheckField` | script.js:287-303 | one check shows its field's message exactly when that field fails, and reports whether it failed |
| `FormOrchestrator.TicketForm.CheckAll` | script.js:285-303 | the three checks run in order, and the returned flag is set exactly when some check failed |
| `FormOrchestrator.TicketForm.HandleFormSubmit` | script.js:266-311 | with the corrected key: on the trimmed snapshot, the registry ends as `SubmitRegistry` of the old one, the zone status is reset, and a ticket is returned exactly when there is no failure, built from the snapshot with the avatar selected at submit time |

## Findings

| source | as written | input that shows it | evidently intended | confidence | as-written member | corrected member |
|---|---|---|---|---|---|---|
| script.js:10-38 | the node key is `field.id \|\| field.className`, read at each call; `showError` adds the class `error` after creating the node, so the next `clearError` on an id-less input looks for `"<class> error"` and misses the node | an input `class="name-input"` without an id: submit with the name empty, then submit with the name filled and the e-mail empty; "The name is required" stays shown beside the new e-mail error | the key identifies the input whatever its error styling, so clearing removes what showing created | not executed; applies only if the inputs have no id | `ErrorPresenter.StaleErrorAsWritten` | `ErrorPresenter.ClearAfterShow` / `FormOrchestrator.SubmitShowsCurrentErrors` |

`ErrorPresenter.StaleNameErrorExample` is the concrete case of the as-written lemma. The
same drift has a second effect in the code as written: showing twice on an id-less input,
with no clear in between, leaves two nodes, `"name-input"` and `"name-input error"`. A submit
never does this, because it clears before it shows. `ErrorPresenter.ShowErrorReplaces` is
about the corrected key.

`ErrorPresenter.ClearAfterShow` states the corrected round trip for a single input. The page
model, `TicketForm`, uses the corrected key: the input's id, or else its class attribute
without `error`. Every member built on `ErrorPresenter.ClearError` therefore describes the
corrected behaviour, not the code as written, for an input without an id.

## Left out

- Rendering: the `innerHTML` templates, their inline styles and class names, the ticket's fixed
  logo, date ("Jan 31, 2025 / Austin, TX") and number ("#01609"), and `showTicket`, which hides
  the form and appends the ticket. The ticket is a record; `HandleFormSubmit` returns it.
- HTML escaping of the interpolated values: the script does none, and the record carries the
  values as they are.
- The colour of the status line (`var(--orange)` / `var(--gray-light)`): it changes together
  with the zone's `error` class, so the single flag `zoneError` stands for both.
- The error node's `role` and `aria-live` attributes and its position after the input. The
  `aria-invalid` attribute and the `error` class of the input are both represented by
  membership in the invalid set.
- Listener re-binding through `cloneNode`/`replaceWith` and the drag `preventDefaults` handlers
  (script.js:71-90, 175-190): browser event plumbing with no effect on the state.
- The asynchronous `FileReader` read: it is modelled as completed at once, and the read's
  failure (unhandled in the script) is not modelled.
- `setupAvatarUpload` (script.js:195-225): it is never called.
- The `DOMContentLoaded` wiring (script.js:313-343): Enter on the submit button calls the same
  submit handler; focus/blur classes and `aria-labelledby` are presentation. The transient
  `focused` class is assumed absent at submit time, so it does not change an input's class
  attribute there.
- The `$`/`$$` query helpers: dom.js is not part of this model.
- Text is a sequence of Unicode scalar values, while a JavaScript input value is UTF-16 and may
  hold lone surrogates. No decision depends on them: none is white space, `@` or `.`.
- Regular-expression engine semantics: the pattern is restated as string predicates.
- Error nodes are keyed by their `data-field-error` value alone, not per parent node. The
  constructor of `TicketForm` requires the three inputs to have distinct keys: distinct ids, or
  the distinct classes the script selects them by (`.name-input`, `.email-input`,
  `.github-input`).
- `classList` normalising the class attribute (removing duplicate tokens, collapsing spaces):
  the markup's class attribute is assumed normalised and without `error`.
- The initial status text comes from the markup; it is taken to be the default hint that
  `removeImage` restores.
- `AvatarUpload.Step`: clicking Remove or Change is possible only while the preview shows those
  buttons, so in the Empty state these events leave the zone unchanged. The class methods
  `RemoveImage` and `ChangeImage` model the script's functions themselves, which have no guard.
