/** The email-capture form: the field's text, the inline error and the
    submitted flag, and the two handlers that change them. */
module SignupForm {
  import opened EmailValidation

  /** Shown when the field is empty on submit. */
  const EmptyEmailError: string := "Введите email адрес"
  /** Shown when the field fails the address pattern on submit. */
  const InvalidEmailError: string := "Введите корректный email адрес"
  /** No error shown. */
  const NoError: string := ""

  /** The form's part of the component state. */
  datatype FormState = FormState(email: string, emailError: string, isSubmitted: bool)

  /** The state at mount: empty field, no error, not submitted. */
  function InitialForm(): (r: FormState)
    ensures !r.isSubmitted && r.emailError == NoError
    ensures !ValidateEmail(r.email)
  {
    FormState("", NoError, false)
  }

  /** `handleSubmit`: clear the error, then report an empty field, then an
      address the pattern rejects; otherwise mark the form submitted. The
      field's text is never changed. */
  function Submit(f: FormState): (r: FormState)
    ensures r.email == f.email
  {
    var cleared := f.(emailError := NoError);
    if f.email == "" then cleared.(emailError := EmptyEmailError)
    else if !ValidateEmail(f.email) then cleared.(emailError := InvalidEmailError)
    else cleared.(isSubmitted := true)
  }

  /** `handleEmailChange`: store the new text and drop any error shown. */
  function EditEmail(f: FormState, value: string): (r: FormState)
    ensures r.email == value && r.emailError == NoError && r.isSubmitted == f.isSubmitted
  {
    var stored := f.(email := value);
    if stored.emailError != NoError then stored.(emailError := NoError) else stored
  }

  /** A user action on the form. */
  datatype FormEvent = EmailChanged(value: string) | SubmitClicked

  function Apply(f: FormState, e: FormEvent): FormState {
    match e
    case EmailChanged(v) => EditEmail(f, v)
    case SubmitClicked => Submit(f)
  }

  /** The state after handling `events` in order. */
  function ApplyAll(f: FormState, events: seq<FormEvent>): FormState
    decreases |events|
  {
    if events == [] then f else Apply(ApplyAll(f, events[..|events| - 1]), events[|events| - 1])
  }

  /** The three outcomes of a submit: the empty-field error exactly when the
      field is empty, the format error exactly when it is non-empty and the
      address pattern rejects it, and otherwise no error and the form marked
      submitted. The field's text is kept, and a rejected submit does not
      change the submitted flag. */
  lemma SubmitOutcomes(f: FormState)
    ensures Submit(f).email == f.email
    ensures Submit(f).emailError == EmptyEmailError <==> f.email == ""
    ensures Submit(f).emailError == InvalidEmailError <==> f.email != "" && !MatchesEmailRegex(f.email)
    ensures Submit(f).emailError == NoError <==> MatchesEmailRegex(f.email)
    ensures Submit(f).isSubmitted <==> f.isSubmitted || MatchesEmailRegex(f.email)
  {
    ValidateEmailIffRegex(f.email);
    if f.email == "" {
      assert !ValidateEmail(f.email);
    }
  }

  /** No handler ever clears the submitted flag. */
  lemma {:induction false} SubmittedIsMonotone(f: FormState, events: seq<FormEvent>)
    requires f.isSubmitted
    ensures ApplyAll(f, events).isSubmitted
    decreases |events|
  {
    if events != [] {
      SubmittedIsMonotone(f, events[..|events| - 1]);
    }
  }

  /** A form becomes submitted only through a submit made while the field
      held an address the pattern accepts. */
  lemma {:induction false} SubmittedOnlyByValidSubmit(f: FormState, events: seq<FormEvent>)
    requires !f.isSubmitted && ApplyAll(f, events).isSubmitted
    ensures exists i :: 0 <= i < |events| && events[i] == SubmitClicked &&
                        MatchesEmailRegex(ApplyAll(f, events[..i]).email)
    decreases |events|
  {
    var n := |events| - 1;
    var before := events[..n];
    if ApplyAll(f, before).isSubmitted {
      SubmittedOnlyByValidSubmit(f, before);
      var i :| 0 <= i < |before| && before[i] == SubmitClicked &&
               MatchesEmailRegex(ApplyAll(f, before[..i]).email);
      assert before[..i] == events[..i];
    } else {
      SubmitOutcomes(ApplyAll(f, before));
      assert events[..n] == before;
    }
  }

  /** Editing the field and then submitting is judged on the new text alone:
      whatever error was shown before the edit plays no part. */
  lemma EditThenSubmit(f: FormState, g: FormState, value: string)
    requires f.isSubmitted == g.isSubmitted
    ensures Submit(EditEmail(f, value)) == Submit(EditEmail(g, value))
  {
  }

  /** Three sample submits: an empty field, a string without an '@', and an
      ordinary address. */
  lemma SubmitExamples()
    ensures Submit(InitialForm()).emailError == EmptyEmailError
    ensures !Submit(InitialForm()).isSubmitted
    ensures Submit(EditEmail(InitialForm(), "not-an-email")).emailError == InvalidEmailError
    ensures !Submit(EditEmail(InitialForm(), "not-an-email")).isSubmitted
    ensures Submit(EditEmail(InitialForm(), "user@example.com")).emailError == NoError
    ensures Submit(EditEmail(InitialForm(), "user@example.com")).isSubmitted
  {
    var bad := "not-an-email";
    assert forall i :: 0 <= i < |bad| ==> bad[i] != '@';
    assert !ValidateEmail(bad);
    var good := "user@example.com";
    assert good[..4] == "user" && good[5..] == "example.com";
    assert "example.com"[7] == '.';
    assert SplitsAt(good, 4);
  }
}
