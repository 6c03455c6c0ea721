/** The landing-page component's state as one object: the form fields, the
    values the fade sequence writes, and the counters of its timer chain. Each
    handler and each timer callback is one atomic update. */
module LandingPage {
  import opened EmailValidation
  import opened SignupForm
  import opened FadeChoreography

  class Component {
    var email: string
    var emailError: string
    var isSubmitted: bool

    var displayText: string
    var textOpacity: real
    var formOpacity: real

    var phase: Phase
    var fadeOutStep: nat
    var fadeInStep: nat
    var formFadeStep: nat
    /** Virtual clock of the fade sequence, in milliseconds. */
    var elapsedMs: nat

    /** Timer callbacks run since the fade sequence began. */
    ghost var ticks: nat

    function Form(): FormState
      reads this
    {
      FormState(email, emailError, isSubmitted)
    }

    function Fade(): FadeState
      reads this
    {
      FadeState(phase, fadeOutStep, fadeInStep, formFadeStep, textOpacity, formOpacity, displayText, elapsedMs)
    }

    /** The fade sequence is idle until the form is submitted, and from then on
        is exactly `ticks` timer callbacks into its one run. */
    ghost predicate Valid()
      reads this
    {
      (!isSubmitted ==> Fade() == Initial()) &&
      (isSubmitted ==> Fade() == Expected(ticks))
    }

    /** Mount: empty field, no error, original headline, both opacities 1. */
    constructor ()
      ensures Valid()
      ensures Form() == InitialForm() && Fade() == Initial()
    {
      email, emailError, isSubmitted := "", NoError, false;
      displayText, textOpacity, formOpacity := OriginalText, 1.0, 1.0;
      phase, fadeOutStep, fadeInStep, formFadeStep, elapsedMs := Idle, 0, 0, 0, 0;
      ticks := 0;
    }

    /** `handleEmailChange`. */
    method HandleEmailChange(value: string)
      requires Valid()
      modifies this
      ensures Valid()
      ensures Form() == EditEmail(old(Form()), value)
      ensures Fade() == old(Fade())
    {
      email := value;
      if emailError != NoError {
        emailError := NoError;
      }
    }

    /** `handleSubmit`, followed by the effect that starts the fade sequence
        when `isSubmitted` turns true. */
    method HandleSubmit()
      requires Valid()
      modifies this
      ensures Valid()
      ensures Form() == Submit(old(Form()))
      ensures Fade() == if !old(isSubmitted) && isSubmitted then Begin(old(Fade())) else old(Fade())
    {
      emailError := NoError;
      if email == "" {
        emailError := EmptyEmailError;
        return;
      }
      if !ValidateEmail(email) {
        emailError := InvalidEmailError;
        return;
      }
      var wasSubmitted := isSubmitted;
      isSubmitted := true;
      if !wasSubmitted {
        phase, fadeOutStep := FadingOutText, 0;
        ticks := 0;
      }
    }

    /** One callback of whichever fade timer is pending; nothing when none is. */
    method TimerTick()
      requires Valid()
      modifies this
      ensures Valid()
      ensures Form() == old(Form())
      ensures Fade() == Step(old(Fade()))
    {
      RunPendingCallback();
      if isSubmitted {
        StepExpected(ticks);
        ticks := ticks + 1;
      }
    }

    /** The body of the pending timer's callback, as the source writes it. */
    method RunPendingCallback()
      modifies this
      ensures Form() == old(Form()) && ticks == old(ticks)
      ensures Fade() == Step(old(Fade()))
    {
      match phase {
        case Idle =>
        case Done =>
        case FadingOutText =>
          textOpacity := 1.0 - (fadeOutStep as real) / (TextFadeSteps as real);
          fadeOutStep := fadeOutStep + 1;
          elapsedMs := elapsedMs + FadeOutTickMs;
          if fadeOutStep >= TextFadeSteps {
            displayText := NewText;
            fadeInStep := 0;
            phase := FadingInText;
          }
        case FadingInText =>
          textOpacity := (fadeInStep as real) / (TextFadeSteps as real);
          fadeInStep := fadeInStep + 1;
          elapsedMs := elapsedMs + FadeInTickMs;
          if fadeInStep >= TextFadeSteps {
            textOpacity := 1.0;
            phase := HandOff;
          }
        case HandOff =>
          formFadeStep := 0;
          phase := FadingOutForm;
          elapsedMs := elapsedMs + HandOffDelayMs;
        case FadingOutForm =>
          formOpacity := 1.0 - (formFadeStep as real) / (FormFadeSteps as real);
          formFadeStep := formFadeStep + 1;
          elapsedMs := elapsedMs + FormTickMs;
          if formFadeStep >= FormFadeSteps {
            formOpacity := 0.0;
            phase := Done;
          }
      }
    }

    /** Let every pending fade timer fire until none is left: the page ends
        with the confirmation headline fully visible and the form invisible,
        6000 ms after the submit, with the form fields untouched. */
    method DrainTimers()
      requires Valid() && isSubmitted
      modifies this
      ensures Valid() && isSubmitted
      ensures Form() == old(Form())
      ensures phase == Done && textOpacity == 1.0 && formOpacity == 0.0
      ensures displayText == NewText && elapsedMs == 6000
    {
      while phase != Done
        invariant Valid() && isSubmitted
        invariant Form() == old(Form())
        decreases TotalTicks - ticks
      {
        TimerTick();
      }
    }
  }
}
