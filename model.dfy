/** The countdown timer of the App component as pure values: the four pieces of
    component state, the effect of each handler and of one interval tick on them,
    the time split used by the digit display, the input clamping, the two view
    conditions, and the user-visible behaviour over any sequence of events. */
module CountdownModel {

  datatype Option<T> = None | Some(value: T)

  /** The component state: the configured inputs, the running flag, and the
      remaining seconds. */
  datatype Snapshot = Snapshot(minutes: int, seconds: int, isRunning: bool, timeLeft: int)

  /** A remaining time split for display as minutes and seconds. */
  datatype Clock = Clock(m: int, s: int)

  /** The state the component mounts with: 0 minutes, 10 seconds, stopped, nothing left. */
  const INITIAL_STATE := Snapshot(0, 10, false, 0)

  /** The configured duration in seconds, as the Start handler computes it. */
  function TotalSeconds(st: Snapshot): int {
    st.minutes * 60 + st.seconds
  }

  /** The condition under which the effect arms the one-second interval. */
  predicate Armed(st: Snapshot) {
    st.isRunning && st.timeLeft > 0
  }

  /** The input fields and the Start button are shown (rather than the digits
      with Pause/Resume and Reset). No interval is armed while they are. */
  predicate SetupView(st: Snapshot): (b: bool)
    ensures b ==> !Armed(st)
  {
    !st.isRunning && st.timeLeft == 0
  }

  /** The "Time's up!" message is shown. It only ever appears together with
      the setup view, and never without a positive input. */
  predicate CompletionShown(st: Snapshot): (b: bool)
    ensures b ==> SetupView(st)
    ensures st.minutes <= 0 && st.seconds <= 0 ==> !b
  {
    st.timeLeft == 0 && !st.isRunning && (st.minutes > 0 || st.seconds > 0)
  }

  // ---------------------------------------------------------------------------
  // Transitions of the component state

  /** Start: with a positive configured duration the interval is armed with
      the whole duration left; otherwise nothing happens. The configuration is
      kept either way. */
  function Started(st: Snapshot): (r: Snapshot)
    ensures r.minutes == st.minutes && r.seconds == st.seconds
    ensures TotalSeconds(st) > 0 ==> Armed(r) && r.timeLeft == TotalSeconds(st)
    ensures TotalSeconds(st) <= 0 ==> r == st
  {
    var total := TotalSeconds(st);
    if total > 0 then st.(timeLeft := total, isRunning := true) else st
  }

  /** Pause: the interval is disarmed; time left and configuration are kept. */
  function Paused(st: Snapshot): (r: Snapshot)
    ensures !Armed(r) && !r.isRunning
    ensures r.timeLeft == st.timeLeft
    ensures r.minutes == st.minutes && r.seconds == st.seconds
  {
    st.(isRunning := false)
  }

  /** Resume: the timer runs again, and the interval is armed exactly when
      time is left; nothing else changes. */
  function Resumed(st: Snapshot): (r: Snapshot)
    ensures r.isRunning
    ensures Armed(r) <==> st.timeLeft > 0
    ensures r.timeLeft == st.timeLeft
    ensures r.minutes == st.minutes && r.seconds == st.seconds
  {
    st.(isRunning := true)
  }

  /** Reset: back to the setup view with the configuration kept. */
  function Reset(st: Snapshot): (r: Snapshot)
    ensures SetupView(r)
    ensures r.minutes == st.minutes && r.seconds == st.seconds
  {
    st.(isRunning := false, timeLeft := 0)
  }

  /** The functional update the interval runs on the remaining time. Whatever
      the previous value, the result is never negative and the timer is left
      running only with time left; a positive time left drops by exactly one. */
  function Ticked(st: Snapshot): (r: Snapshot)
    ensures r.timeLeft >= 0
    ensures r.isRunning ==> r.timeLeft > 0
    ensures st.timeLeft >= 1 ==> r.timeLeft == st.timeLeft - 1
    ensures r.minutes == st.minutes && r.seconds == st.seconds
  {
    if st.timeLeft <= 1 then st.(isRunning := false, timeLeft := 0)
    else st.(timeLeft := st.timeLeft - 1)
  }

  /** One second of wall-clock time: the updater runs only if the interval is
      armed, so a disarmed state stays as it is and an armed one loses exactly
      one second. */
  function Second(st: Snapshot): (r: Snapshot)
    ensures !Armed(st) ==> r == st
    ensures Armed(st) ==> r.timeLeft == st.timeLeft - 1 && (r.isRunning <==> r.timeLeft > 0)
    ensures r.minutes == st.minutes && r.seconds == st.seconds
  {
    if Armed(st) then Ticked(st) else st
  }

  /** k seconds of wall-clock time. They never change the configuration, and
      a non-negative time left stays non-negative and never grows. */
  function Elapse(st: Snapshot, k: nat): (r: Snapshot)
    ensures r.minutes == st.minutes && r.seconds == st.seconds
    ensures st.timeLeft >= 0 ==> 0 <= r.timeLeft <= st.timeLeft
    decreases k
  {
    if k == 0 then st else Elapse(Second(st), k - 1)
  }

  /** What an input field's change handler stores: the parsed number if there
      is one (None stands for NaN), clamped below at zero. The result is never
      negative, and it is either zero or exactly the number entered; the
      browser's upper bound of 59 is not applied. */
  function ClampInput(input: Option<int>): (r: int)
    ensures r >= 0
    ensures r == 0 || input == Some(r)
    ensures input.Some? && input.value >= 0 ==> r == input.value
  {
    match input
    case None => 0
    case Some(v) => if v > 0 then v else 0
  }

  /** The minutes field's change handler: stores a non-negative value, which
      is the number entered whenever that is not negative, and touches nothing
      else. */
  function WithMinutes(st: Snapshot, input: Option<int>): (r: Snapshot)
    ensures r.minutes >= 0 && (r.minutes == 0 || input == Some(r.minutes))
    ensures input.Some? && input.value >= 0 ==> r.minutes == input.value
    ensures r.seconds == st.seconds && r.isRunning == st.isRunning && r.timeLeft == st.timeLeft
  {
    st.(minutes := ClampInput(input))
  }

  /** The seconds field's change handler: stores a non-negative value, which
      is the number entered whenever that is not negative (so not limited to
      59), and touches nothing else. */
  function WithSeconds(st: Snapshot, input: Option<int>): (r: Snapshot)
    ensures r.seconds >= 0 && (r.seconds == 0 || input == Some(r.seconds))
    ensures input.Some? && input.value >= 0 ==> r.seconds == input.value
    ensures r.minutes == st.minutes && r.isRunning == st.isRunning && r.timeLeft == st.timeLeft
  {
    st.(seconds := ClampInput(input))
  }

  /** JavaScript's `%`, which truncates toward zero (the result takes the sign
      of the dividend), for a positive divisor. */
  function JsRemainder(a: int, b: int): int
    requires b > 0
  {
    if a >= 0 then a % b else -((-a) % b)
  }

  /** The digit display's split of a number of seconds: `Math.floor(time / 60)`
      minutes and `time % 60` seconds. For every time that can occur (never
      negative) the seconds are a proper clock value and the two parts add
      back up to the time. */
  function FormatTime(time: int): (r: Clock)
    ensures time >= 0 ==> 0 <= r.s < 60 && r.m * 60 + r.s == time
  {
    // Dafny's `/` by a positive divisor is floor division, as Math.floor(time / 60).
    Clock(time / 60, JsRemainder(time, 60))
  }

  // ---------------------------------------------------------------------------
  // Properties of single transitions

  /** A non-negative time has exactly one proper split, and FormatTime returns it. */
  lemma FormatTimeUnique(time: int, m: int, s: int)
    requires m >= 0 && 0 <= s < 60 && m * 60 + s == time
    ensures FormatTime(time) == Clock(m, s)
  {
  }

  /** Starting from the setup view leaves it exactly when the configured
      duration is positive; with a zero duration nothing changes. */
  lemma StartLeavesSetupIff(st: Snapshot)
    requires SetupView(st)
    ensures !SetupView(Started(st)) <==> TotalSeconds(st) > 0
    ensures TotalSeconds(st) <= 0 ==> Started(st) == st
    ensures Started(st).minutes == st.minutes && Started(st).seconds == st.seconds
  {
  }

  /** Right after Start, the display shows the configured minutes and seconds,
      with whole minutes carried out of a seconds input above 59; when the
      seconds input is a proper clock value that is exactly the configuration. */
  lemma StartDisplaysConfiguration(st: Snapshot)
    requires st.minutes >= 0 && st.seconds >= 0 && TotalSeconds(st) > 0
    ensures FormatTime(Started(st).timeLeft)
            == Clock(st.minutes + st.seconds / 60, st.seconds % 60)
    ensures st.seconds < 60 ==>
              FormatTime(Started(st).timeLeft) == Clock(st.minutes, st.seconds)
  {
    FormatTimeUnique(TotalSeconds(st), st.minutes + st.seconds / 60, st.seconds % 60);
  }

  /** The seconds input is not limited to 59: entering 75 seconds in the
      initial state stores 75, counts down from 75 and displays as 01:15. */
  lemma OverlongSecondsNormalised()
    ensures WithSeconds(INITIAL_STATE, Some(75)).seconds == 75
    ensures Started(WithSeconds(INITIAL_STATE, Some(75))).timeLeft == 75
    ensures FormatTime(75) == Clock(1, 15)
  {
  }

  /** Pausing twice is pausing once, and a pause freezes the time left and the
      configuration. */
  lemma PauseIdempotent(st: Snapshot)
    ensures Paused(Paused(st)) == Paused(st)
    ensures !Paused(st).isRunning
    ensures Paused(st).timeLeft == st.timeLeft
    ensures Paused(st).minutes == st.minutes && Paused(st).seconds == st.seconds
  {
  }

  /** Pause followed by Resume restores a running state exactly, and resuming
      a timer that is already running changes nothing. */
  lemma PauseResumeRoundTrip(st: Snapshot)
    requires st.isRunning
    ensures Resumed(Paused(st)) == st
    ensures Resumed(st) == st
  {
  }

  /** Reset returns to the setup view and keeps the configuration, so Start
      afterwards starts the same countdown again; Start then Reset from the
      setup view gives back the setup state exactly. */
  lemma ResetReturnsToSetup(st: Snapshot)
    ensures SetupView(Reset(st))
    ensures Reset(st).minutes == st.minutes && Reset(st).seconds == st.seconds
    ensures Started(Reset(st)) == Started(Reset(Started(st)))
    ensures SetupView(st) ==> Reset(Started(st)) == st
  {
  }

  /** One tick of an armed interval counts down by exactly one and never below
      zero; it stops the timer exactly when it reaches zero. */
  lemma TickCountsDown(st: Snapshot)
    requires Armed(st)
    ensures Ticked(st).timeLeft == st.timeLeft - 1
    ensures Ticked(st).isRunning <==> Ticked(st).timeLeft > 0
    ensures Ticked(st).minutes == st.minutes && Ticked(st).seconds == st.seconds
  {
  }

  /** The completion message does not depend on a countdown having run: it is
      shown in the state the component mounts with. */
  lemma CompletionShownInitially()
    ensures CompletionShown(INITIAL_STATE)
    ensures SetupView(INITIAL_STATE)
  {
  }

  /** With non-negative inputs, the completion message is shown exactly when
      the setup view is shown and Start would start a countdown — after Reset
      as much as after a countdown that ran out. */
  lemma CompletionIffSetupAndStartable(st: Snapshot)
    requires st.minutes >= 0 && st.seconds >= 0
    ensures CompletionShown(st) <==> SetupView(st) && TotalSeconds(st) > 0
    ensures CompletionShown(Reset(st)) <==> TotalSeconds(st) > 0
  {
  }

  // ---------------------------------------------------------------------------
  // Several seconds of wall-clock time

  /** Appending one second at the end of k seconds. */
  lemma {:induction false} ElapseOneMore(st: Snapshot, k: nat)
    ensures Elapse(st, k + 1) == Second(Elapse(st, k))
    decreases k
  {
    if k > 0 {
      ElapseOneMore(Second(st), k - 1);
    }
  }

  /** No interval is armed while paused, stopped or at zero, so no number of
      seconds changes anything. */
  lemma {:induction false} ElapseWhenDisarmed(st: Snapshot, k: nat)
    requires !Armed(st)
    ensures Elapse(st, k) == st
    decreases k
  {
    if k > 0 {
      ElapseWhenDisarmed(Second(st), k - 1);
    }
  }

  /** A running countdown with t seconds left: after k seconds, t - k are left
      while k < t, and from then on zero are left and the timer has stopped by
      itself. The configuration is untouched throughout. */
  lemma {:induction false} ElapseCountsDown(st: Snapshot, k: nat)
    requires Armed(st)
    ensures Elapse(st, k).timeLeft == if k < st.timeLeft then st.timeLeft - k else 0
    ensures Elapse(st, k).isRunning <==> k < st.timeLeft
    ensures Elapse(st, k).minutes == st.minutes && Elapse(st, k).seconds == st.seconds
    decreases k
  {
    if k > 0 {
      var next := Second(st);
      if st.timeLeft <= 1 {
        ElapseWhenDisarmed(next, k - 1);
      } else {
        ElapseCountsDown(next, k - 1);
      }
    }
  }

  /** Starting at a configured total T and letting k <= T seconds pass leaves
      T - k seconds, running exactly while T - k > 0; after exactly T seconds
      the setup view and the completion message are shown. */
  lemma StartThenElapse(st: Snapshot, k: nat)
    requires TotalSeconds(st) > 0 && k <= TotalSeconds(st)
    ensures Elapse(Started(st), k).timeLeft == TotalSeconds(st) - k
    ensures Elapse(Started(st), k).isRunning <==> TotalSeconds(st) - k > 0
    ensures Elapse(Started(st), k).minutes == st.minutes
    ensures Elapse(Started(st), k).seconds == st.seconds
    ensures k == TotalSeconds(st) ==>
              SetupView(Elapse(Started(st), k)) && CompletionShown(Elapse(Started(st), k))
  {
    ElapseCountsDown(Started(st), k);
  }

  // ---------------------------------------------------------------------------
  // The component as the user drives it

  /** What can happen to the component: a click on one of its buttons, a change
      in one of its input fields (None when the field holds no number), or one
      second passing. */
  datatype Event =
    | PressStart
    | PressPauseResume
    | PressReset
    | EnterMinutes(minutesInput: Option<int>)
    | EnterSeconds(secondsInput: Option<int>)
    | SecondPasses

  /** The effect of one event. A control that the current view does not render
      cannot be used, so an event aimed at it changes nothing; the single
      Pause/Resume button calls pause while running and resume otherwise.
      In particular the configuration can change only while the setup view is
      shown, and no button changes the time left outside Start and Reset. */
  function Step(st: Snapshot, e: Event): (r: Snapshot)
    ensures !SetupView(st) ==> r.minutes == st.minutes && r.seconds == st.seconds
    ensures (e.PressPauseResume? || e.EnterMinutes? || e.EnterSeconds?) ==> r.timeLeft == st.timeLeft
    ensures e == SecondPasses ==> r == Second(st)
    ensures e == PressStart ==> r == (if SetupView(st) then Started(st) else st)
    ensures e == PressReset ==> SetupView(r) && r.minutes == st.minutes && r.seconds == st.seconds
    ensures e == PressPauseResume && SetupView(st) ==> r == st
    ensures e == PressPauseResume && !SetupView(st) ==> r.isRunning == !st.isRunning
    ensures (e.EnterMinutes? || e.EnterSeconds?) && !SetupView(st) ==> r == st
    ensures e.EnterMinutes? && SetupView(st) ==> r == WithMinutes(st, e.minutesInput)
    ensures e.EnterSeconds? && SetupView(st) ==> r == WithSeconds(st, e.secondsInput)
  {
    match e
    case PressStart => if SetupView(st) then Started(st) else st
    case PressPauseResume =>
      if SetupView(st) then st else if st.isRunning then Paused(st) else Resumed(st)
    case PressReset => if SetupView(st) then st else Reset(st)
    case EnterMinutes(input) => if SetupView(st) then WithMinutes(st, input) else st
    case EnterSeconds(input) => if SetupView(st) then WithSeconds(st, input) else st
    case SecondPasses => Second(st)
  }

  /** A sequence of events, one after the other. A run in which only time
      passes is the same as that many seconds elapsing. */
  function Run(st: Snapshot, events: seq<Event>): (r: Snapshot)
    ensures (forall i :: 0 <= i < |events| ==> events[i] == SecondPasses) ==>
              r == Elapse(st, |events|)
    decreases |events|
  {
    if events == [] then st else Run(Step(st, events[0]), events[1..])
  }

  /** The invariant of the component as driven through its view: inputs and
      time left are never negative, the time left never exceeds the configured
      duration, and the timer only runs with time left. */
  predicate Consistent(st: Snapshot) {
    st.minutes >= 0 && st.seconds >= 0 &&
    0 <= st.timeLeft <= TotalSeconds(st) &&
    (st.isRunning ==> st.timeLeft > 0)
  }

  lemma StepPreservesConsistent(st: Snapshot, e: Event)
    requires Consistent(st)
    ensures Consistent(Step(st, e))
  {
  }

  lemma {:induction false} RunPreservesConsistent(st: Snapshot, events: seq<Event>)
    requires Consistent(st)
    ensures Consistent(Run(st, events))
    decreases |events|
  {
    if events != [] {
      StepPreservesConsistent(st, events[0]);
      RunPreservesConsistent(Step(st, events[0]), events[1..]);
    }
  }

  /** Whatever the user does and however much time passes, the time left is
      never negative, never above the configured duration, and the timer never
      runs at zero. */
  lemma ReachableConsistent(events: seq<Event>)
    ensures Consistent(Run(INITIAL_STATE, events))
    ensures Run(INITIAL_STATE, events).timeLeft >= 0
  {
    RunPreservesConsistent(INITIAL_STATE, events);
  }

  /** In a consistent state the Resume button is offered only with time left,
      so its unguarded handler never leaves the timer running at zero. */
  lemma ResumeOnlyWithTimeLeft(st: Snapshot)
    requires Consistent(st) && !SetupView(st) && !st.isRunning
    ensures st.timeLeft > 0
    ensures Armed(Resumed(st))
  {
  }
}
