# Countdown timer state machine

A model of the countdown timer in the `App` component of the CountdownTimer
web application. The component keeps four pieces of state: the configured
`minutes` and `seconds`, the `isRunning` flag and the remaining `timeLeft` in
seconds. Four button handlers (Start, Pause, Resume, Reset), the change
handlers of the two number inputs and a one-second interval update that state.
The interval is armed only while `isRunning && timeLeft > 0`. The digit
display splits `timeLeft` into minutes and seconds. Two view conditions depend
on the state: the setup view (inputs and Start) and the "Time's up!" message.

Two modules:

- `CountdownModel` (`model.dfy`) is the pure side. `Snapshot` is the component
  state as a value. `Started`, `Paused`, `Resumed`, `Reset`, `Ticked`,
  `WithMinutes` and `WithSeconds` are the state transitions. `Second` and
  `Elapse` describe one and k seconds of wall-clock time, with the interval
  firing only while armed. `FormatTime` is the display split and `ClampInput`
  is the input clamping. `SetupView` and `CompletionShown` are the two view
  conditions. `Step` and `Run` describe the component as a user drives it: a
  control that the current view does not render cannot be used. The lemmas
  prove the properties of these functions.
- `CountdownTimer` (`timer.dfy`) holds the class `Timer`. Its four fields are
  updated in place by one method per handler, by `Tick` (one firing of the
  interval, whose precondition is the arming guard) and by `RunSeconds`
  (k seconds of the repeating interval). Each method states the new field
  values, keeps `Valid()` (nothing negative) and ties its new `State()` to
  the matching transition of `CountdownModel`. The lemmas about those
  transitions therefore apply to the object.

The component has no stopwatch mode, language toggle, music or fullscreen. The seconds input takes any number and is only clamped at
zero, and the completion message is not tied to a countdown having run.

## Model

| member | source | states |
|---|---|---|
| CountdownModel.SetupView | src/App.jsx:127 | the inputs and Start show exactly when stopped with nothing left (as at line 185); no interval is armed then (lemmas: StartLeavesSetupIff, ResetReturnsToSetup) |
| CountdownModel.CompletionShown | src/App.jsx:216 | the message shows only together with the setup view and never without a positive input (lemmas: CompletionShownInitially, CompletionIffSetupAndStartable) |
| CountdownModel.Started | src/App.jsx:87-93 | with a positive total (`TotalSeconds`, minutes*60 + seconds as at line 88) the interval is armed with the whole total left, otherwise nothing changes; the configuration is kept (lemmas: StartLeavesSetupIff, StartThenElapse) |
| CountdownModel.Paused | src/App.jsx:95-97 | the interval is disarmed; time left and configuration are kept (lemma: PauseIdempotent) |
| CountdownModel.Resumed | src/App.jsx:99-101 | the timer runs, armed exactly when time is left; nothing else changes (lemmas: PauseResumeRoundTrip, ResumeOnlyWithTimeLeft) |
| CountdownModel.Reset | src/App.jsx:103-106 | the setup view shows and the configuration is kept (lemma: ResetReturnsToSetup) |
| CountdownModel.Ticked | src/App.jsx:66-72 | from any previous value, the result is never negative and running only with time left; a positive time left drops by exactly one (lemma: TickCountsDown) |
| CountdownModel.Second | src/App.jsx:63-85 | the updater runs only under the arming guard `Armed` (isRunning && timeLeft > 0, line 64): a disarmed state is unchanged; an armed one loses exactly one second and keeps running exactly while time is left |
| CountdownModel.Elapse | src/App.jsx:63-85 | k seconds keep the configuration, and a non-negative time left stays non-negative and never grows (lemmas: ElapseWhenDisarmed, ElapseCountsDown) |
| CountdownModel.WithMinutes | src/App.jsx:137 | the stored minutes are non-negative: a non-negative number entered is stored as entered, anything else stores 0; nothing else changes |
| CountdownModel.WithSeconds | src/App.jsx:147 | the stored seconds are non-negative: a non-negative number entered is stored as entered (so not limited to 59), anything else stores 0; nothing else changes |
| CountdownModel.Step | src/App.jsx:184-213 | only rendered controls act: Start runs Started in the setup view and does nothing elsewhere; Reset always ends in the setup view with the configuration kept; Pause/Resume does nothing in the setup view and flips isRunning elsewhere; the inputs store their clamped value (WithMinutes, WithSeconds) in the setup view, do nothing elsewhere, and never change the time left; a passing second is one Second (lemma: StepPreservesConsistent) |
| CountdownModel.Run | src/App.jsx:184-213 | a run in which only seconds pass equals Elapse over that many seconds (lemmas: RunPreservesConsistent, ReachableConsistent) |
| CountdownModel.FormatTime | src/App.jsx:108-112 | for every non-negative time, the displayed seconds lie in 0..59 and minutes*60 + seconds gives back the time (floor division, and `JsRemainder` for JavaScript's truncating `%` at line 110) |
| CountdownModel.FormatTimeUnique | src/App.jsx:108-112 | a non-negative time has only one split with seconds in 0..59, and FormatTime returns that split |
| CountdownModel.ClampInput | src/App.jsx:137 | an input handler stores a value that is never negative; the value is either 0 or exactly the number entered; any number entered that is not negative is stored unchanged, even above 59 |
| CountdownModel.StartLeavesSetupIff | src/App.jsx:87-93 | from the setup view, Start leaves it exactly when minutes*60 + seconds > 0; with a zero total the state is unchanged; the configuration is never changed |
| CountdownModel.StartDisplaysConfiguration | src/App.jsx:87-114 | right after Start, the display shows minutes + seconds/60 and seconds mod 60 for any non-negative inputs, which is exactly the configuration when the seconds are in 0..59 |
| CountdownModel.OverlongSecondsNormalised | src/App.jsx:142-147 | the max of 59 is not enforced: entering 75 seconds in the initial state stores 75, counts down from 75 and displays 01:15 |
| CountdownModel.PauseIdempotent | src/App.jsx:95-97 | pausing twice equals pausing once; pause stops the timer and keeps timeLeft, minutes and seconds |
| CountdownModel.PauseResumeRoundTrip | src/App.jsx:95-101 | Resume after Pause restores a running state exactly; resuming a running timer changes nothing |
| CountdownModel.ResetReturnsToSetup | src/App.jsx:103-106 | after Reset the setup view is shown with the previous minutes and seconds, and Start then starts the same countdown as before; Start then Reset from the setup view gives back the setup state exactly |
| CountdownModel.TickCountsDown | src/App.jsx:64-72 | an armed tick lowers timeLeft by exactly one, keeps the configuration, and leaves the timer running exactly when time is left |
| CountdownModel.CompletionShownInitially | src/App.jsx:57-60 | the completion message and the setup view already show in the initial state (0 min, 10 s, stopped, 0 left) |
| CountdownModel.CompletionIffSetupAndStartable | src/App.jsx:216 | with non-negative inputs, the message shows exactly when the setup view shows and the configured total is positive, whether the countdown ran out or was reset |
| CountdownModel.ElapseOneMore | src/App.jsx:63-85 | k+1 seconds are k seconds followed by one more |
| CountdownModel.ElapseWhenDisarmed | src/App.jsx:63-85 | when the interval is not armed (paused, stopped or at zero), no number of seconds changes the state |
| CountdownModel.ElapseCountsDown | src/App.jsx:63-85 | a running countdown with t left has t-k left after k < t seconds; from t seconds on it holds 0 and has stopped by itself; the configuration is untouched |
| CountdownModel.StartThenElapse | src/App.jsx:63-93 | after starting at total T, k <= T seconds leave T-k, running exactly when T-k > 0; after T seconds the setup view and the completion message show |
| CountdownModel.StepPreservesConsistent | src/App.jsx:127-216 | every event the view allows keeps inputs and timeLeft non-negative, timeLeft at most the configured total, and running only with time left |
| CountdownModel.RunPreservesConsistent | src/App.jsx:127-216 | any sequence of allowed events keeps that invariant |
| CountdownModel.ReachableConsistent | src/App.jsx:57-106 | every state reachable from the initial state satisfies the invariant, so timeLeft never goes negative |
| CountdownModel.ResumeOnlyWithTimeLeft | src/App.jsx:185-203 | in a reachable state the Resume button is offered only with time left, so resuming always arms the interval |
| CountdownTimer.Timer.constructor | src/App.jsx:57-60 | the initial state is 0 minutes, 10 seconds, not running, 0 left |
| CountdownTimer.Timer.StartTimer | src/App.jsx:87-93 | when minutes*60 + seconds > 0, timeLeft becomes that total and the timer runs; otherwise nothing changes; minutes and seconds are kept |
| CountdownTimer.Timer.PauseTimer | src/App.jsx:95-97 | isRunning becomes false and nothing else changes |
| CountdownTimer.Timer.ResumeTimer | src/App.jsx:99-101 | isRunning becomes true and nothing else changes |
| CountdownTimer.Timer.ResetTimer | src/App.jsx:103-106 | isRunning becomes false and timeLeft 0, so the setup view shows; minutes and seconds are kept |
| CountdownTimer.Timer.SetMinutes | src/App.jsx:137 | minutes becomes the clamped input and nothing else changes |
| CountdownTimer.Timer.SetSeconds | src/App.jsx:147 | seconds becomes the clamped input and nothing else changes |
| CountdownTimer.Timer.Tick | src/App.jsx:64-72 | allowed only while armed; at 1 left it sets timeLeft 0 and stops, otherwise it lowers timeLeft by one and keeps running |
| CountdownTimer.Timer.RunSeconds | src/App.jsx:63-85 | k seconds of the repeating interval leave the object in Elapse(old state, k), which the Elapse lemmas describe |

## Left out

- Animation presets, per-digit animation keys and all JSX markup (src/App.jsx:5-54, 115-228): these are visual only. The two view conditions are kept as `SetupView` and `CompletionShown`.
- React hooks, `setInterval`/`clearInterval` and effect cleanup (src/App.jsx:61-85): the effect re-arms the interval after every change of `isRunning` or `timeLeft`. This is modelled as one `Second` per elapsed second that ticks only while armed. Interval phase, timer drift and callback races are not modelled.
- `parseInt` string parsing (src/App.jsx:137, 147): the input arrives as `Option<int>`, with `None` for NaN. Partial parses such as "12abc" and fractional or exponent input are not modelled.
- `padStart` two-digit formatting (src/App.jsx:162, 175): cosmetic only.
- JavaScript numbers are modelled as unbounded integers. Precision loss above 2^53 is not modelled.
- `ResumeTimer` has no guard in the component, and the class models it that way. `Timer.Valid()` therefore does not include "running only with time left". That invariant is proved for the states a user can reach through the rendered controls (`Consistent`, `ReachableConsistent`).
