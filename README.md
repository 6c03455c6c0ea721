# Coming-soon landing page: signup form, fade sequence and halftone grid

A Dafny model of the logic in the landing-page component
`components/halftone-waves.tsx`:

- **Email check** (`EmailValidation`, `email.dfy`). `validateEmail` tests the anchored
  pattern `^[^\s@]+@[^\s@]+\.[^\s@]+$`. The model states the language it accepts as a
  predicate: some '@' splits the string into a non-empty local part and a domain. Both
  parts are free of whitespace and '@', and the domain holds a '.' with a character on
  either side. A second, ghost predicate reads the pattern piece by piece
  (user, '@', host, '.', tld). A lemma proves that the two accept the same strings.
  The `\s` class is written out as the ECMAScript WhiteSpace and LineTerminator code points.
- **Signup form** (`SignupForm`, `signup.dfy`). The state is `{email, emailError, isSubmitted}`.
  `Submit` models `handleSubmit` and `EditEmail` models `handleEmailChange`, both as
  pure transitions. Lemmas cover the three outcomes of a submit, show that the
  submitted flag never goes back to false, and show that it is only set by a submit
  of an accepted address.
- **Fade sequence** (`FadeChoreography`, `fade.dfy`). This is the effect that runs when
  `isSubmitted` becomes true. Each timer callback is one tick of `Step`, and a virtual
  clock advances by that timer's delay. `Expected(t)` gives the state `t` ticks after
  the start in closed form, and `RunFromBegin` proves the tick function follows it.
  The per-phase opacities, the text swap, the timing (1500 ms, 3000 ms, 6000 ms),
  the bounds, monotonicity and the final state are all proved from that.
- **Grid dimensions** (`HalftoneGrid`, `grid.dfy`). The cell size is 15 below a
  768 px viewport width and 20 otherwise. Rows and columns are the ceiling of the
  canvas size over the cell size.
- **Component** (`LandingPage`, `page.dfy`). The imperative form: one `Component`
  class whose fields are the component's state and the timer chain's counters.
  Its methods are the two handlers and one timer callback, each proved against the
  pure transitions above. The class invariant says the fade sequence is idle until
  the form is submitted. After that, the state is exactly `ticks` callbacks into the
  sequence's single run.

One might expect the headline to reach opacity 0 at 1.5 s, when the text is
swapped. In the code, the last fade-out callback writes `1 - 29/30 = 1/30` and swaps the text. The first
fade-in callback, 50 ms later, writes 0 (`TextSwapOpacity`). Likewise, the last
fade-in callback and the last form callback write 29/30 and 1/60, and then
overwrite them in the same callback with 1 and 0.

## Model

| member | source | states |
|---|---|---|
| `EmailValidation.IsSpace` | components/halftone-waves.tsx:138 | the `\s` class: space, tab, line feed and carriage return are in it; '@' and '.', which the pattern names literally, are not |
| `EmailValidation.ValidateEmail` | components/halftone-waves.tsx:137-140 | `validateEmail`: some '@' splits the string into a non-empty local part and a domain, both free of `\s` and '@', the domain with a '.' strictly inside; an accepted string has at least five characters and starts with a character other than '@' or whitespace |
| `EmailValidation.SplitMatchesRegex` | components/halftone-waves.tsx:138 | a split at an '@' yields the user, host and tld pieces of the pattern |
| `EmailValidation.ValidateEmailIffRegex` | components/halftone-waves.tsx:137-140 | the validator accepts a string exactly when the anchored pattern `[^\s@]+ @ [^\s@]+ \. [^\s@]+` matches all of it (both directions) |
| `EmailValidation.ValidateEmailMatchesRegex` | components/halftone-waves.tsx:137-140 | every string the validator accepts is matched by the anchored pattern |
| `EmailValidation.RegexMatchValidates` | components/halftone-waves.tsx:137-140 | every string the anchored pattern matches is accepted by the validator |
| `EmailValidation.AcceptedAddressShape` | components/halftone-waves.tsx:137-140 | every accepted address has exactly one '@', no whitespace character, and at least five characters |
| `EmailValidation.SplitIsUnique` | components/halftone-waves.tsx:138 | the '@' at which an accepted address splits into local part and domain is unique |
| `HalftoneGrid.GridSize` | components/halftone-waves.tsx:36-37 | the cell size is positive, and below the 768 px breakpoint it is smaller than the desktop size |
| `HalftoneGrid.CeilDiv` | components/halftone-waves.tsx:38-39 | `Math.ceil(n / d)` on non-negative integers is the least `q` with `q * d >= n` |
| `HalftoneGrid.Layout` | components/halftone-waves.tsx:36-39 | the cell size comes from the viewport width; the columns (rows) are the fewest cells that cover the canvas width (height) |
| `HalftoneGrid.CentresOnCanvas` | components/halftone-waves.tsx:41-44 | every drawn centre `(x * gridSize, y * gridSize)` with `x < cols`, `y < rows` lies inside the canvas |
| `HalftoneGrid.EveryPixelColumnCovered` | components/halftone-waves.tsx:39-43 | each pixel column of the canvas lies in the cell of some drawn column |
| `HalftoneGrid.EmptyCanvasDrawsNothing` | components/halftone-waves.tsx:38-39 | a zero-sized canvas dimension gives zero rows or columns, and only a zero dimension does |
| `SignupForm.InitialForm` | components/halftone-waves.tsx:10-12 | at mount the form is not submitted and shows no error, and its empty text is not an acceptable address |
| `SignupForm.Submit` | components/halftone-waves.tsx:142-158 | a submit never changes the field's text |
| `SignupForm.EditEmail` | components/halftone-waves.tsx:160-165 | an edit stores the new text, always leaves no error shown, and keeps the submitted flag |
| `SignupForm.SubmitOutcomes` | components/halftone-waves.tsx:142-156 | the empty-field error appears iff the field is empty; the format error iff it is non-empty and the pattern rejects it; no error iff the pattern accepts it; the flag is set iff it was set or the pattern accepts; the text is kept |
| `SignupForm.SubmittedIsMonotone` | components/halftone-waves.tsx:142-165 | no sequence of edits and submits clears the submitted flag |
| `SignupForm.SubmittedOnlyByValidSubmit` | components/halftone-waves.tsx:151-156 | a form that becomes submitted did so through a submit made while the field held an address the pattern accepts |
| `SignupForm.EditThenSubmit` | components/halftone-waves.tsx:144-165 | after an edit, a submit's outcome does not depend on the error shown before the edit |
| `SignupForm.SubmitExamples` | components/halftone-waves.tsx:137-156 | submitting "" gives the empty-field error, "not-an-email" the format error, and "user@example.com" success |
| `FadeChoreography.Initial` | components/halftone-waves.tsx:13-15 | at mount the original headline is shown, no timer is pending, and a tick changes nothing |
| `FadeChoreography.Step` | components/halftone-waves.tsx:94-133 | one timer callback (the fade-out, fade-in, hand-off or form callback that is pending): it never moves the sequence backwards or more than one phase on, does nothing when idle or done, never turns the clock back, and never restores the original headline |
| `FadeChoreography.Begin` | components/halftone-waves.tsx:85-97 | the effect starts the fade-out interval with its step counter at 0 and leaves opacities, text and clock as they were |
| `FadeChoreography.StepExpected` | components/halftone-waves.tsx:94-133 | one timer callback moves the closed-form state `Expected(t)` to `Expected(t + 1)` |
| `FadeChoreography.RunFromBegin` | components/halftone-waves.tsx:85-135 | `t` callbacks after the start, the sequence is in the closed-form state `Expected(t)` |
| `FadeChoreography.TextFadeOut` | components/halftone-waves.tsx:92-103 | the k-th fade-out callback (k in 1..30) writes text opacity `1 - (k-1)/30` at `50k` ms; the text becomes the confirmation only at k = 30; the form stays at 1 |
| `FadeChoreography.TextFadeIn` | components/halftone-waves.tsx:104-113 | the k-th fade-in callback writes `(k-1)/30`, the 30th forces 1; the confirmation stays shown; the clock reads `1500 + 50k` ms |
| `FadeChoreography.FormFadeOut` | components/halftone-waves.tsx:115-128 | the k-th form callback (k in 1..60) writes form opacity `1 - (k-1)/60`, the 60th forces 0; text opacity is 1; the clock reads `3000 + 50k` ms |
| `FadeChoreography.TextSwapOpacity` | components/halftone-waves.tsx:95-108 | at the text swap the opacity is 1/30, and the first fade-in callback at 1550 ms drops it to 0 |
| `FadeChoreography.Completes` | components/halftone-waves.tsx:85-135 | after 121 callbacks the sequence is done: text opacity 1, form opacity 0, confirmation shown, 6000 ms elapsed; further callbacks change nothing |
| `FadeChoreography.Bounded` | components/halftone-waves.tsx:92-127 | both opacities stay within [0, 1]; the sequence never returns to idle; the confirmation is shown iff at least 30 callbacks have run |
| `FadeChoreography.FormFadesAfterText` | components/halftone-waves.tsx:111-121 | the form's opacity drops below 1 only after the headline is back at full opacity with the confirmation shown, and not before the 63rd callback (the first form callback writes 1) |
| `FadeChoreography.Monotone` | components/halftone-waves.tsx:94-127 | text opacity never rises during the fade-out and never falls during the fade-in; form opacity never rises |
| `FadeChoreography.ExpectedMonotone` | components/halftone-waves.tsx:94-127 | in the closed form, text opacity falls through the fade-out and rises after it, and form opacity never rises |
| `LandingPage.Component.constructor` | components/halftone-waves.tsx:10-15 | at mount: empty field, no error, not submitted, original headline, both opacities 1 |
| `LandingPage.Component.HandleEmailChange` | components/halftone-waves.tsx:160-165 | the fields change as `EditEmail` says; the fade state is untouched |
| `LandingPage.Component.HandleSubmit` | components/halftone-waves.tsx:142-158 | the fields change as `Submit` says; the fade sequence starts exactly when the flag turns from false to true |
| `LandingPage.Component.TimerTick` | components/halftone-waves.tsx:94-133 | one timer callback changes the fade state as `Step` says, keeps the form fields and the class invariant |
| `LandingPage.Component.RunPendingCallback` | components/halftone-waves.tsx:94-133 | the pending callback's body, written as in the source, updates the fields exactly as `Step` says |
| `LandingPage.Component.DrainTimers` | components/halftone-waves.tsx:85-135 | after a submit, running callbacks until none is pending ends with the confirmation at opacity 1, the form at 0 and the clock at 6000 ms |

## Left out

- The wave drawing (lines 45-59, 64-72): distances, `Math.sin`, `Math.sqrt` and the `time += 0.03` clock are floating point, and `arc`/`fill`/`fillRect` are canvas calls.
- `requestAnimationFrame`, the resize listener and its cleanup (lines 74-82): browser event plumbing. The canvas size and the viewport width are parameters of `HalftoneGrid.Layout`. The resize handler keeps them equal, but a frame may see them differ, so they are kept separate.
- Opacities are exact rationals (`real`) where JavaScript computes doubles, so written values such as `1 - 29/30` (1/30 in `TextSwapOpacity`, 0.033333333333333326 in JavaScript) differ from the browser's by rounding. The bounds, the monotonicity and the forced final values 1 and 0 are unaffected, since rounded subtraction and division are monotone.
- `HalftoneGrid.CeilDiv`: models `Math.ceil(h / g)` as exact integer ceiling division. Floating-point division of canvas sizes by 15 or 20 is exact enough that the two agree.
- Real timer scheduling: each interval or timeout callback is one tick, and the clock is advanced by the timer's nominal delay. Timer jitter, and the timers that go on running after unmount (they are never cleared), are outside a sequential model.
- React hooks, re-rendering and batching: each handler and each callback is one atomic update. Only the last value a callback writes to a state is kept. The `isSubmitted` effect is modelled as running inside `HandleSubmit`, when the flag turns true. Its double run in development strict mode is not modelled.
- `FadeChoreography.Begin` requires the idle state because the effect's dependencies change only once. A second, overlapping timer chain cannot arise and is not modelled.
- The `console.log` of the submitted address (line 157), the JSX layout and the logo image: output and UI.
- `EmailValidation.IsSpace` lists the ECMAScript `\s` code points of current Unicode (the Space_Separator category plus the fixed ones). A later change to that category would not be tracked.
