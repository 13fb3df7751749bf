/**
 * `handleFormSubmit` and the page state it works on. The pure part says which error each
 * field gets, in which order the failures are reported, and what the error registry looks
 * like afterwards; the class `TicketForm` holds the page's mutable state (the selected
 * avatar, the zone's status line and flag, the error nodes and invalid marks) and has one
 * method per operation of the page.
 */
module FormOrchestrator {
  import opened Options
  import opened Text
  import opened Validators
  import opened ErrorPresenter
  import opened AvatarUpload
  import opened TicketRenderer

  const NameRequired: string := "The name is required"
  const EmailRequired: string := "The email is required"
  const EmailInvalid: string := "Invalid email format"
  const GithubRequired: string := "The GitHub username is required"

  datatype FormField = NameField | EmailField | GithubField

  /** The position of a field's check in the fixed order name, e-mail, GitHub. */
  function Rank(f: FormField): nat {
    match f
    case NameField => 0
    case EmailField => 1
    case GithubField => 2
  }

  datatype FieldError = FieldError(field: FormField, message: string)

  /** The snapshot of the form: each input trimmed, and the avatar as selected. */
  function Snapshot(rawName: string, rawEmail: string, rawGithub: string, avatar: Option<DataUrl>): (d: FormData)
    ensures d == FormData(Trim(rawName), Trim(rawEmail), Trim(rawGithub), avatar)
    ensures NoEdgeWhitespace(d.name) && NoEdgeWhitespace(d.email) && NoEdgeWhitespace(d.github)
    ensures |d.name| <= |rawName| && |d.email| <= |rawEmail| && |d.github| <= |rawGithub|
    ensures d.avatar == avatar
  {
    FormData(Trim(rawName), Trim(rawEmail), Trim(rawGithub), avatar)
  }

  /** The value the check of field `f` looks at. */
  function ValueOf(d: FormData, f: FormField): string {
    match f
    case NameField => d.name
    case EmailField => d.email
    case GithubField => d.github
  }

  /** The "required" message of field `f`. */
  function RequiredMessage(f: FormField): string {
    match f
    case NameField => NameRequired
    case EmailField => EmailRequired
    case GithubField => GithubRequired
  }

  /** The message the check of field `f` produces for `d`, if it fails: the field's
      "required" message exactly when its value is empty; otherwise only the e-mail can fail,
      with the format message, and exactly when it is not a valid address. */
  function MessageFor(d: FormData, f: FormField): (m: Option<string>)
    ensures m == Some(RequiredMessage(f)) <==> ValueOf(d, f) == ""
    ensures m.None? <==> ValueOf(d, f) != "" && (f == EmailField ==> IsValidEmail(d.email))
    ensures m.Some? && m.value != RequiredMessage(f) ==> f == EmailField && m.value == EmailInvalid
  {
    match f
    case NameField => if d.name == "" then Some(NameRequired) else None
    case EmailField =>
      if d.email == "" then Some(EmailRequired)
      else if !IsValidEmail(d.email) then Some(EmailInvalid)
      else None
    case GithubField => if d.github == "" then Some(GithubRequired) else None
  }

  /** The failure of field `f`'s check, if any, as a list of at most one. */
  function ErrorsOf(d: FormData, f: FormField): (es: seq<FieldError>)
    ensures |es| <= 1
    ensures forall e :: e in es <==> e.field == f && MessageFor(d, f) == Some(e.message)
  {
    match MessageFor(d, f)
    case None => []
    case Some(m) => [FieldError(f, m)]
  }

  /** Every failure of the three checks, in check order: at most one per field, each with the
      field's message, none missing. */
  function FormErrors(d: FormData): (errs: seq<FieldError>)
    ensures |errs| <= 3
    ensures forall e :: e in errs <==> MessageFor(d, e.field) == Some(e.message)
    ensures forall i, j :: 0 <= i < j < |errs| ==> Rank(errs[i].field) < Rank(errs[j].field)
  {
    ErrorsOf(d, NameField) + ErrorsOf(d, EmailField) + ErrorsOf(d, GithubField)
  }

  /** No failure at all exactly when every field passes its check. */
  lemma NoErrorsIff(d: FormData)
    ensures FormErrors(d) == [] <==> d.name != "" && d.email != "" && IsValidEmail(d.email) && d.github != ""
  {
  }

  /** The e-mail field gets the "required" message or the "format" message, never both, and
      the checks are independent: each blank input contributes its own failure. */
  lemma EmailMessagesExclusive(d: FormData)
    ensures !(FieldError(EmailField, EmailRequired) in FormErrors(d) && FieldError(EmailField, EmailInvalid) in FormErrors(d))
    ensures FieldError(EmailField, EmailRequired) in FormErrors(d) <==> d.email == ""
    ensures FieldError(EmailField, EmailInvalid) in FormErrors(d) <==> d.email != "" && !IsValidEmail(d.email)
    ensures FieldError(NameField, NameRequired) in FormErrors(d) <==> d.name == ""
    ensures FieldError(GithubField, GithubRequired) in FormErrors(d) <==> d.github == ""
  {
  }

  /** A field is reported as required exactly when its raw input is blank (empty or only
      white space). */
  lemma BlankInputsRequired(rawName: string, rawEmail: string, rawGithub: string, avatar: Option<DataUrl>)
    ensures var d := Snapshot(rawName, rawEmail, rawGithub, avatar);
            && (MessageFor(d, NameField) == Some(NameRequired) <==> AllWhitespace(rawName))
            && (MessageFor(d, EmailField) == Some(EmailRequired) <==> AllWhitespace(rawEmail))
            && (MessageFor(d, GithubField) == Some(GithubRequired) <==> AllWhitespace(rawGithub))
  {
    TrimEmptyIff(rawName);
    TrimEmptyIff(rawEmail);
    TrimEmptyIff(rawGithub);
  }

  /** Submitting three blank inputs reports exactly three failures, in check order. */
  lemma AllBlankReportsThree(rawName: string, rawEmail: string, rawGithub: string, avatar: Option<DataUrl>)
    requires AllWhitespace(rawName) && AllWhitespace(rawEmail) && AllWhitespace(rawGithub)
    ensures FormErrors(Snapshot(rawName, rawEmail, rawGithub, avatar)) ==
              [FieldError(NameField, NameRequired), FieldError(EmailField, EmailRequired),
               FieldError(GithubField, GithubRequired)]
  {
    var d := Snapshot(rawName, rawEmail, rawGithub, avatar);
    TrimEmptyIff(rawName);
    TrimEmptyIff(rawEmail);
    TrimEmptyIff(rawGithub);
    assert ErrorsOf(d, NameField) == [FieldError(NameField, NameRequired)];
    assert ErrorsOf(d, EmailField) == [FieldError(EmailField, EmailRequired)];
    assert ErrorsOf(d, GithubField) == [FieldError(GithubField, GithubRequired)];
  }

  /** A ticket is only ever built from a snapshot without failures, and then it shows a
      non-empty name and GitHub handle and a well-formed e-mail, none with white space at
      either end, and the placeholder avatar exactly when none is selected. */
  lemma TicketFieldsValid(rawName: string, rawEmail: string, rawGithub: string, avatar: Option<DataUrl>)
    requires FormErrors(Snapshot(rawName, rawEmail, rawGithub, avatar)) == []
    ensures var t := GenerateTicket(Snapshot(rawName, rawEmail, rawGithub, avatar));
            && t.name == Trim(rawName) != "" && NoEdgeWhitespace(t.name)
            && t.github == Trim(rawGithub) != "" && NoEdgeWhitespace(t.github)
            && t.email == Trim(rawEmail) && IsValidEmail(t.email) && MatchesEmailPattern(t.email)
            && (t.avatarUrl == DefaultAvatar <==> avatar.None?)
  {
    var d := Snapshot(rawName, rawEmail, rawGithub, avatar);
    NoErrorsIff(d);
    EmailPatternEquivalence(d.email);
  }

  // ------------------------------------------------------------ effect on the error registry

  function InputOf(ins: Inputs, f: FormField): Element {
    match f
    case NameField => ins.name
    case EmailField => ins.email
    case GithubField => ins.github
  }

  /** The `showError` call of field `f`'s check, if it fails: a failing field's node shows
      its message and the input is marked; a passing field changes nothing; no node of
      another key changes. */
  function Report(r: Registry, ins: Inputs, d: FormData, f: FormField): (r': Registry)
    ensures MessageFor(d, f).None? ==> r' == r
    ensures MessageFor(d, f).Some? ==>
              && Key(InputOf(ins, f)) in r'.nodes && r'.nodes[Key(InputOf(ins, f))] == MessageFor(d, f).value
              && r'.invalid == r.invalid + {InputOf(ins, f)}
              && r'.nodes.Keys == r.nodes.Keys + {Key(InputOf(ins, f))}
    ensures forall k :: k in r.nodes && k != Key(InputOf(ins, f)) ==> r'.nodes[k] == r.nodes[k]
  {
    match MessageFor(d, f)
    case None => r
    case Some(m) => ShowError(r, InputOf(ins, f), m)
  }

  /** The three `clearError` calls at the start of a submission: no node of the three inputs
      and no invalid mark on them remain, and every other node is kept. */
  function ClearInputs(r: Registry, ins: Inputs): (r': Registry)
    ensures r'.nodes.Keys == r.nodes.Keys - Keys(ins)
    ensures r'.invalid == r.invalid - Members(ins)
    ensures forall k :: k in r'.nodes ==> r'.nodes[k] == r.nodes[k]
  {
    ClearError(ClearError(ClearError(r, ins.name), ins.email), ins.github)
  }

  /** The registry after a submission: cleared, then each check reported in order. Only the
      three inputs' nodes and marks can differ from before. */
  function SubmitRegistry(r: Registry, ins: Inputs, d: FormData): (r': Registry)
    ensures r'.invalid - Members(ins) == r.invalid - Members(ins)
    ensures forall k :: k !in Keys(ins) ==> (k in r'.nodes <==> k in r.nodes)
    ensures forall k :: k in r.nodes && k !in Keys(ins) ==> r'.nodes[k] == r.nodes[k]
  {
    Report(Report(Report(ClearInputs(r, ins), ins, d, NameField), ins, d, EmailField), ins, d, GithubField)
  }

  predicate ShowsExactly(r: Registry, ins: Inputs, d: FormData, f: FormField) {
    var k := Key(InputOf(ins, f));
    && (k in r.nodes <==> MessageFor(d, f).Some?)
    && (MessageFor(d, f).Some? ==> r.nodes[k] == MessageFor(d, f).value)
    && (InputOf(ins, f) in r.invalid <==> MessageFor(d, f).Some?)
  }

  /** After a submission each input shows exactly the message of its current failure, or
      nothing when it passes; messages of earlier submissions never survive; nodes of other
      keys are untouched. */
  lemma SubmitShowsCurrentErrors(r: Registry, ins: Inputs, d: FormData)
    requires DistinctKeys(ins)
    ensures ShowsExactly(SubmitRegistry(r, ins, d), ins, d, NameField)
    ensures ShowsExactly(SubmitRegistry(r, ins, d), ins, d, EmailField)
    ensures ShowsExactly(SubmitRegistry(r, ins, d), ins, d, GithubField)
    ensures forall k :: k !in Keys(ins) ==>
              (k in SubmitRegistry(r, ins, d).nodes <==> k in r.nodes)
              && (k in r.nodes ==> SubmitRegistry(r, ins, d).nodes[k] == r.nodes[k])
  {
  }

  /** A submission keeps the registry's invariant. */
  lemma SubmitTracks(r: Registry, ins: Inputs, d: FormData)
    requires DistinctKeys(ins) && Tracks(r, ins)
    ensures Tracks(SubmitRegistry(r, ins, d), ins)
  {
    SubmitShowsCurrentErrors(r, ins, d);
  }

  // ------------------------------------------------------------ the page

  class TicketForm {
    const inputs: Inputs
    var selectedAvatar: Option<DataUrl>
    var statusText: string
    var zoneError: bool
    var errorNodes: map<string, string>
    var invalidInputs: set<Element>

    function CurrentZone(): Zone
      reads this
    {
      Zone(selectedAvatar, statusText, zoneError)
    }

    function CurrentErrors(): Registry
      reads this
    {
      Registry(errorNodes, invalidInputs)
    }

    ghost predicate Valid()
      reads this
    {
      DistinctKeys(inputs) && Tracks(CurrentErrors(), inputs) && StatusAgrees(CurrentZone())
    }

    /** The page as loaded: no avatar, the default hint, no error shown. */
    constructor (inputs: Inputs)
      requires DistinctKeys(inputs)
      ensures Valid() && this.inputs == inputs
      ensures CurrentZone() == Initial && CurrentErrors() == NoErrors
    {
      this.inputs := inputs;
      selectedAvatar, statusText, zoneError := None, DefaultHint, false;
      errorNodes, invalidInputs := map[], {};
    }

    method ShowFieldError(e: Element, message: string)
      requires Valid() && e in Members(inputs)
      modifies this
      ensures Valid()
      ensures CurrentErrors() == ShowError(old(CurrentErrors()), e, message)
      ensures CurrentZone() == old(CurrentZone())
    {
      ShowErrorTracks(CurrentErrors(), inputs, e, message);
      errorNodes := errorNodes[Key(e) := message];
      invalidInputs := invalidInputs + {e};
    }

    method ClearFieldError(e: Element)
      requires Valid() && e in Members(inputs)
      modifies this
      ensures Valid()
      ensures CurrentErrors() == ClearError(old(CurrentErrors()), e)
      ensures CurrentZone() == old(CurrentZone())
    {
      ClearErrorTracks(CurrentErrors(), inputs, e);
      errorNodes := errorNodes - {Key(e)};
      invalidInputs := invalidInputs - {e};
    }

    method HandleAvatarUpload(p: PickedFile)
      requires Valid()
      modifies this
      ensures Valid()
      ensures CurrentZone() == Upload(old(CurrentZone()), p)
      ensures CurrentErrors() == old(CurrentErrors())
    {
      var validation := ValidateImageFile(p.file);
      if validation.Rejected? {
        statusText := validation.message;
        zoneError := true;
        return;
      }
      statusText := DefaultHint;
      zoneError := false;
      selectedAvatar := Some(p.dataUrl);
    }

    method RemoveImage()
      requires Valid()
      modifies this
      ensures Valid()
      ensures CurrentZone() == Remove(old(CurrentZone())) == Initial
      ensures CurrentErrors() == old(CurrentErrors())
    {
      selectedAvatar := None;
      statusText := DefaultHint;
      zoneError := false;
    }

    /** A click on the zone; `choice` is what the picker yields if it opens. */
    method ClickZone(choice: Option<PickedFile>) returns (pickerShown: bool)
      requires Valid()
      modifies this
      ensures Valid()
      ensures pickerShown == old(selectedAvatar).None?
      ensures CurrentZone() == Step(old(CurrentZone()), ZoneClicked(choice))
      ensures CurrentErrors() == old(CurrentErrors())
    {
      pickerShown := selectedAvatar.None?;
      if pickerShown && choice.Some? {
        HandleAvatarUpload(choice.value);
      }
    }

    /** A drop on the zone, in either state. */
    method DropFiles(files: seq<PickedFile>)
      requires Valid()
      modifies this
      ensures Valid()
      ensures CurrentZone() == Step(old(CurrentZone()), Dropped(files))
      ensures CurrentErrors() == old(CurrentErrors())
    {
      if |files| > 0 {
        HandleAvatarUpload(files[0]);
      }
    }

    /** `changeImage`: opens a picker directly; `choice` is what it yields. */
    method ChangeImage(choice: Option<PickedFile>)
      requires Valid()
      modifies this
      ensures Valid()
      ensures CurrentZone() == if choice.Some? then Upload(old(CurrentZone()), choice.value) else old(CurrentZone())
      ensures old(selectedAvatar).Some? ==> CurrentZone() == Step(old(CurrentZone()), ChangeClicked(choice))
      ensures CurrentErrors() == old(CurrentErrors())
    {
      if choice.Some? {
        HandleAvatarUpload(choice.value);
      }
    }

    /** One check of `handleFormSubmit`: show the field's message if it fails. */
    method CheckField(d: FormData, f: FormField) returns (failed: bool)
      requires Valid()
      modifies this
      ensures Valid()
      ensures failed <==> MessageFor(d, f).Some?
      ensures CurrentErrors() == Report(old(CurrentErrors()), inputs, d, f)
      ensures CurrentZone() == old(CurrentZone())
    {
      failed := false;
      match f
      case NameField =>
        if d.name == "" {
          ShowFieldError(inputs.name, NameRequired);
          failed := true;
        }
      case EmailField =>
        if d.email == "" {
          ShowFieldError(inputs.email, EmailRequired);
          failed := true;
        } else {
          var wellFormed := ScanEmail(d.email);
          if !wellFormed {
            ShowFieldError(inputs.email, EmailInvalid);
            failed := true;
          }
        }
      case GithubField =>
        if d.github == "" {
          ShowFieldError(inputs.github, GithubRequired);
          failed := true;
        }
    }

    /** The three `clearError` calls that start a submission. */
    method ClearInputErrors()
      requires Valid()
      modifies this
      ensures Valid()
      ensures CurrentErrors() == ClearInputs(old(CurrentErrors()), inputs)
      ensures CurrentZone() == old(CurrentZone())
    {
      ClearFieldError(inputs.name);
      ClearFieldError(inputs.email);
      ClearFieldError(inputs.github);
    }

    /** The three checks in order, each reporting its own failure. */
    method CheckAll(d: FormData) returns (hasErrors: bool)
      requires Valid()
      modifies this
      ensures Valid()
      ensures hasErrors <==> FormErrors(d) != []
      ensures CurrentErrors() ==
                Report(Report(Report(old(CurrentErrors()), inputs, d, NameField), inputs, d, EmailField), inputs, d, GithubField)
      ensures CurrentZone() == old(CurrentZone())
    {
      ghost var r0 := CurrentErrors();
      hasErrors := false;
      var failed := CheckField(d, NameField);
      hasErrors := hasErrors || failed;
      ghost var r1 := CurrentErrors();
      failed := CheckField(d, EmailField);
      hasErrors := hasErrors || failed;
      ghost var r2 := CurrentErrors();
      failed := CheckField(d, GithubField);
      hasErrors := hasErrors || failed;
      assert r1 == Report(r0, inputs, d, NameField);
      assert r2 == Report(r1, inputs, d, EmailField);
      NoErrorsIff(d);
    }

    /** The reset of the avatar status line and zone flag at the start of a submission. */
    method ResetAvatarStatus()
      requires Valid()
      modifies this
      ensures Valid()
      ensures CurrentZone() == Step(old(CurrentZone()), FormSubmitted)
      ensures CurrentErrors() == old(CurrentErrors())
    {
      statusText := DefaultHint;
      zoneError := false;
    }

    /** `handleFormSubmit` on the raw input values: a ticket exactly when no check fails. */
    method HandleFormSubmit(rawName: string, rawEmail: string, rawGithub: string) returns (ticket: Option<Ticket>)
      requires Valid()
      modifies this
      ensures Valid()
      ensures var d := Snapshot(rawName, rawEmail, rawGithub, old(selectedAvatar));
              && CurrentErrors() == SubmitRegistry(old(CurrentErrors()), inputs, d)
              && ticket == (if FormErrors(d) == [] then Some(GenerateTicket(d)) else None)
      ensures CurrentZone() == Step(old(CurrentZone()), FormSubmitted)
    {
      var d := Snapshot(rawName, rawEmail, rawGithub, selectedAvatar);
      ClearInputErrors();
      ResetAvatarStatus();
      var hasErrors := CheckAll(d);
      if hasErrors {
        return None;
      }
      ticket := Some(GenerateTicket(d));
    }
  }
}
