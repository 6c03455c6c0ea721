/** The fade sequence that runs after a successful submit. Each callback of a
    `setInterval` or `setTimeout` timer is one tick; `elapsedMs` is the virtual
    clock, advanced by the delay of the timer whose callback ran. */
module FadeChoreography {

  const OriginalText: string := "Новый опыт взаимодействия близко"
  const NewText: string := "Вскоре вы получите приглашение: адрес принят"

  const FadeOutDurationMs: nat := 1500
  const FadeInDurationMs: nat := 1500
  /** Ticks of the headline fade-out, and (the source reuses the constant) of the fade-in. */
  const TextFadeSteps: nat := 30
  /** Ticks of the form fade-out. */
  const FormFadeSteps: nat := 60
  /** Interval of the headline fade-out timer. */
  const FadeOutTickMs: nat := FadeOutDurationMs / TextFadeSteps
  /** Interval of the headline fade-in timer. */
  const FadeInTickMs: nat := FadeInDurationMs / TextFadeSteps
  /** Delay of the hand-off timeout between the text and form animations. */
  const HandOffDelayMs: nat := 0
  /** Interval of the form fade-out timer. */
  const FormTickMs: nat := 50

  /** Which timer, if any, is pending. */
  datatype Phase = Idle | FadingOutText | FadingInText | HandOff | FadingOutForm | Done

  /** The visible values (`textOpacity`, `formOpacity`, `displayText`) and the
      timer chain's own counters. */
  datatype FadeState = FadeState(
    phase: Phase,
    fadeOutStep: nat,
    fadeInStep: nat,
    formFadeStep: nat,
    textOpacity: real,
    formOpacity: real,
    displayText: string,
    elapsedMs: nat)

  /** The state at mount: both opacities 1, the original headline, no timer. */
  function Initial(): (r: FadeState)
    ensures r.phase == Idle && r.displayText == OriginalText
    ensures Step(r) == r
  {
    FadeState(Idle, 0, 0, 0, 1.0, 1.0, OriginalText, 0)
  }

  /** The effect on `isSubmitted` becoming true: start the fade-out interval. */
  function Begin(s: FadeState): (r: FadeState)
    requires s.phase == Idle
    ensures r.phase == FadingOutText && r.fadeOutStep == 0
    ensures r.textOpacity == s.textOpacity && r.formOpacity == s.formOpacity
    ensures r.displayText == s.displayText && r.elapsedMs == s.elapsedMs
  {
    s.(phase := FadingOutText, fadeOutStep := 0)
  }

  /** Position of a phase in the one-way sequence. */
  function PhaseOrder(p: Phase): nat {
    match p
    case Idle => 0
    case FadingOutText => 1
    case FadingInText => 2
    case HandOff => 3
    case FadingOutForm => 4
    case Done => 5
  }

  /** One timer callback. It never moves the sequence backwards, never starts
      it from idle, changes nothing once it is done, never turns the clock back,
      and never restores the original headline. */
  function Step(s: FadeState): (r: FadeState)
    ensures PhaseOrder(s.phase) <= PhaseOrder(r.phase) <= PhaseOrder(s.phase) + 1
    ensures s.phase == Idle || s.phase == Done ==> r == s
    ensures r.elapsedMs >= s.elapsedMs
    ensures s.displayText == NewText ==> r.displayText == NewText
  {
    match s.phase
    case Idle => s
    case Done => s
    case FadingOutText =>
      var written := 1.0 - (s.fadeOutStep as real) / (TextFadeSteps as real);
      var next := s.fadeOutStep + 1;
      var ticked := s.(textOpacity := written, fadeOutStep := next, elapsedMs := s.elapsedMs + FadeOutTickMs);
      if next >= TextFadeSteps
      then ticked.(displayText := NewText, fadeInStep := 0, phase := FadingInText)
      else ticked
    case FadingInText =>
      var written := (s.fadeInStep as real) / (TextFadeSteps as real);
      var next := s.fadeInStep + 1;
      var ticked := s.(textOpacity := written, fadeInStep := next, elapsedMs := s.elapsedMs + FadeInTickMs);
      if next >= TextFadeSteps
      then ticked.(textOpacity := 1.0, phase := HandOff)
      else ticked
    case HandOff =>
      s.(formFadeStep := 0, phase := FadingOutForm, elapsedMs := s.elapsedMs + HandOffDelayMs)
    case FadingOutForm =>
      var written := 1.0 - (s.formFadeStep as real) / (FormFadeSteps as real);
      var next := s.formFadeStep + 1;
      var ticked := s.(formOpacity := written, formFadeStep := next, elapsedMs := s.elapsedMs + FormTickMs);
      if next >= FormFadeSteps
      then ticked.(formOpacity := 0.0, phase := Done)
      else ticked
  }

  /** The state after `n` ticks from `s`. */
  function Run(s: FadeState, n: nat): FadeState {
    if n == 0 then s else Step(Run(s, n - 1))
  }

  /** Number of ticks from `Begin` to `Done`: 30 fade-out, 30 fade-in, the
      hand-off timeout and 60 form ticks. */
  const TotalTicks: nat := 2 * TextFadeSteps + 1 + FormFadeSteps

  /** The state `t` ticks after `Begin(Initial())`, in closed form. */
  function Expected(t: nat): FadeState {
    if t < 30 then
      FadeState(FadingOutText, t, 0, 0,
                if t == 0 then 1.0 else 1.0 - ((t - 1) as real) / 30.0,
                1.0, OriginalText, 50 * t)
    else if t < 60 then
      FadeState(FadingInText, 30, t - 30, 0,
                if t == 30 then 1.0 / 30.0 else ((t - 31) as real) / 30.0,
                1.0, NewText, 50 * t)
    else if t == 60 then
      FadeState(HandOff, 30, 30, 0, 1.0, 1.0, NewText, 3000)
    else if t < 121 then
      FadeState(FadingOutForm, 30, 30, t - 61, 1.0,
                if t == 61 then 1.0 else 1.0 - ((t - 62) as real) / 60.0,
                NewText, 3000 + 50 * (t - 61))
    else
      FadeState(Done, 30, 30, 60, 1.0, 0.0, NewText, 6000)
  }

  /** One tick moves the closed form forward by one. */
  lemma StepExpected(t: nat)
    ensures Step(Expected(t)) == Expected(t + 1)
  {
  }

  /** The timer chain follows the closed form from its first tick on. */
  lemma {:induction false} RunFromBegin(t: nat)
    ensures Run(Begin(Initial()), t) == Expected(t)
  {
    if t > 0 {
      RunFromBegin(t - 1);
      StepExpected(t - 1);
    }
  }

  /** Headline fade-out: the `k`-th tick writes `1 - (k-1)/30`, and the
      headline changes to the confirmation only on the 30th tick, 1500 ms in. */
  lemma TextFadeOut(k: nat)
    requires 1 <= k <= TextFadeSteps
    ensures Run(Begin(Initial()), k).textOpacity == 1.0 - ((k - 1) as real) / 30.0
    ensures Run(Begin(Initial()), k).displayText == (if k < TextFadeSteps then OriginalText else NewText)
    ensures Run(Begin(Initial()), k).elapsedMs == k * FadeOutTickMs
    ensures Run(Begin(Initial()), k).formOpacity == 1.0
  {
    assert FadeOutTickMs == 50;
    RunFromBegin(k);
  }

  /** Headline fade-in: the `k`-th tick writes `(k-1)/30`, except that the 30th
      forces full opacity, 3000 ms in. */
  lemma TextFadeIn(k: nat)
    requires 1 <= k <= TextFadeSteps
    ensures Run(Begin(Initial()), TextFadeSteps + k).textOpacity ==
            (if k < TextFadeSteps then ((k - 1) as real) / 30.0 else 1.0)
    ensures Run(Begin(Initial()), TextFadeSteps + k).displayText == NewText
    ensures Run(Begin(Initial()), TextFadeSteps + k).elapsedMs == FadeOutDurationMs + k * FadeInTickMs
    ensures Run(Begin(Initial()), TextFadeSteps + k).formOpacity == 1.0
  {
    assert FadeInTickMs == 50;
    RunFromBegin(TextFadeSteps + k);
  }

  /** Form fade-out: the `k`-th form tick writes `1 - (k-1)/60`, except that the
      60th forces 0; it starts 3000 ms in and ends 6000 ms in. */
  lemma FormFadeOut(k: nat)
    requires 1 <= k <= FormFadeSteps
    ensures Run(Begin(Initial()), 2 * TextFadeSteps + 1 + k).formOpacity ==
            (if k < FormFadeSteps then 1.0 - ((k - 1) as real) / 60.0 else 0.0)
    ensures Run(Begin(Initial()), 2 * TextFadeSteps + 1 + k).textOpacity == 1.0
    ensures Run(Begin(Initial()), 2 * TextFadeSteps + 1 + k).elapsedMs ==
            FadeOutDurationMs + FadeInDurationMs + HandOffDelayMs + k * FormTickMs
  {
    RunFromBegin(2 * TextFadeSteps + 1 + k);
  }

  /** When the text is swapped the headline is at 1/30, not 0; the first
      fade-in tick, 1550 ms in, drops it to 0. */
  lemma TextSwapOpacity()
    ensures Run(Begin(Initial()), TextFadeSteps).textOpacity == 1.0 / 30.0
    ensures Run(Begin(Initial()), TextFadeSteps + 1).textOpacity == 0.0
    ensures Run(Begin(Initial()), TextFadeSteps + 1).elapsedMs == 1550
  {
    RunFromBegin(TextFadeSteps);
    RunFromBegin(TextFadeSteps + 1);
  }

  /** After `TotalTicks` ticks the sequence is done: headline at full opacity
      showing the confirmation, form invisible, 6000 ms elapsed; nothing changes
      after that. */
  lemma Completes(t: nat)
    requires t >= TotalTicks
    ensures Run(Begin(Initial()), t).phase == Done
    ensures Run(Begin(Initial()), t) == Run(Begin(Initial()), TotalTicks)
    ensures Run(Begin(Initial()), t).textOpacity == 1.0
    ensures Run(Begin(Initial()), t).formOpacity == 0.0
    ensures Run(Begin(Initial()), t).displayText == NewText
    ensures Run(Begin(Initial()), t).elapsedMs == 6000
  {
    RunFromBegin(t);
    RunFromBegin(TotalTicks);
  }

  /** Opacities stay within [0, 1], the sequence never returns to idle, and the
      confirmation is shown exactly from the 30th tick on. */
  lemma Bounded(t: nat)
    ensures 0.0 <= Run(Begin(Initial()), t).textOpacity <= 1.0
    ensures 0.0 <= Run(Begin(Initial()), t).formOpacity <= 1.0
    ensures Run(Begin(Initial()), t).phase != Idle
    ensures Run(Begin(Initial()), t).displayText == NewText <==> t >= TextFadeSteps
  {
    RunFromBegin(t);
  }

  /** The form dims only once the headline is back at full opacity; the first
      tick that dims it is the 63rd (the first form tick writes 1 again). */
  lemma FormFadesAfterText(t: nat)
    requires Run(Begin(Initial()), t).formOpacity < 1.0
    ensures Run(Begin(Initial()), t).textOpacity == 1.0
    ensures Run(Begin(Initial()), t).displayText == NewText
    ensures t >= 2 * TextFadeSteps + 3
  {
    RunFromBegin(t);
  }

  /** Monotonicity: the headline never brightens during the fade-out, never
      dims during the fade-in, and the form never brightens at all. */
  lemma Monotone(t1: nat, t2: nat)
    requires t1 <= t2
    ensures t2 <= TextFadeSteps ==>
              Run(Begin(Initial()), t2).textOpacity <= Run(Begin(Initial()), t1).textOpacity
    ensures TextFadeSteps < t1 ==>
              Run(Begin(Initial()), t1).textOpacity <= Run(Begin(Initial()), t2).textOpacity
    ensures Run(Begin(Initial()), t2).formOpacity <= Run(Begin(Initial()), t1).formOpacity
  {
    RunFromBegin(t1);
    RunFromBegin(t2);
    ExpectedMonotone(t1, t2);
  }

  /** The opacity orderings of `Monotone`, read off the closed form. */
  lemma ExpectedMonotone(t1: nat, t2: nat)
    requires t1 <= t2
    ensures t2 <= TextFadeSteps ==> Expected(t2).textOpacity <= Expected(t1).textOpacity
    ensures TextFadeSteps < t1 ==> Expected(t1).textOpacity <= Expected(t2).textOpacity
    ensures Expected(t2).formOpacity <= Expected(t1).formOpacity
  {
  }
}
