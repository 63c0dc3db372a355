/** The App component's countdown state as an object whose handlers update its
    four fields in place. */
module CountdownTimer {
  import opened CountdownModel

  class Timer {
    var minutes: int
    var seconds: int
    var isRunning: bool
    var timeLeft: int

    /** The current component state as a value. */
    function State(): Snapshot
      reads this
    {
      Snapshot(minutes, seconds, isRunning, timeLeft)
    }

    /** Neither input nor the time left is ever negative. */
    predicate Valid()
      reads this
    {
      minutes >= 0 && seconds >= 0 && timeLeft >= 0
    }

    constructor ()
      ensures Valid()
      ensures State() == INITIAL_STATE
      ensures minutes == 0 && seconds == 10 && !isRunning && timeLeft == 0
    {
      minutes, seconds, isRunning, timeLeft := 0, 10, false, 0;
    }

    /** Starts a countdown from the configured duration, if it is positive. */
    method StartTimer()
      requires Valid()
      modifies this
      ensures Valid()
      ensures minutes == old(minutes) && seconds == old(seconds)
      ensures old(minutes * 60 + seconds) > 0 ==>
                timeLeft == old(minutes * 60 + seconds) && isRunning
      ensures old(minutes * 60 + seconds) <= 0 ==>
                timeLeft == old(timeLeft) && isRunning == old(isRunning)
      ensures State() == Started(old(State()))
    {
      var totalSeconds := minutes * 60 + seconds;
      if totalSeconds > 0 {
        timeLeft := totalSeconds;
        isRunning := true;
      }
    }

    method PauseTimer()
      requires Valid()
      modifies this`isRunning
      ensures Valid()
      ensures !isRunning
      ensures State() == Paused(old(State()))
    {
      isRunning := false;
    }

    /** Resumes unconditionally; the view offers it only when paused with time left. */
    method ResumeTimer()
      requires Valid()
      modifies this`isRunning
      ensures Valid()
      ensures isRunning
      ensures State() == Resumed(old(State()))
    {
      isRunning := true;
    }

    /** Stops the countdown and clears the time left, keeping the configuration. */
    method ResetTimer()
      requires Valid()
      modifies this`isRunning, this`timeLeft
      ensures Valid()
      ensures !isRunning && timeLeft == 0
      ensures SetupView(State())
      ensures State() == Reset(old(State()))
    {
      isRunning := false;
      timeLeft := 0;
    }

    /** The minutes field's change handler. */
    method SetMinutes(input: Option<int>)
      requires Valid()
      modifies this`minutes
      ensures Valid()
      ensures minutes == ClampInput(input)
      ensures State() == WithMinutes(old(State()), input)
    {
      var parsed := match input case Some(v) => v case None => 0;
      minutes := if parsed > 0 then parsed else 0;
    }

    /** The seconds field's change handler. */
    method SetSeconds(input: Option<int>)
      requires Valid()
      modifies this`seconds
      ensures Valid()
      ensures seconds == ClampInput(input)
      ensures State() == WithSeconds(old(State()), input)
    {
      var parsed := match input case Some(v) => v case None => 0;
      seconds := if parsed > 0 then parsed else 0;
    }

    /** One firing of the armed interval. */
    method Tick()
      requires Valid()
      requires isRunning && timeLeft > 0
      modifies this`isRunning, this`timeLeft
      ensures Valid()
      ensures old(timeLeft) <= 1 ==> timeLeft == 0 && !isRunning
      ensures old(timeLeft) > 1 ==> timeLeft == old(timeLeft) - 1 && isRunning
      ensures State() == Ticked(old(State()))
    {
      var prev := timeLeft;
      if prev <= 1 {
        isRunning := false;
        timeLeft := 0;
      } else {
        timeLeft := prev - 1;
      }
    }

    /** k seconds of wall-clock time: each second the interval fires only while
        the effect keeps it armed. */
    method RunSeconds(k: nat)
      requires Valid()
      modifies this`isRunning, this`timeLeft
      ensures Valid()
      ensures State() == Elapse(old(State()), k)
    {
      var i := 0;
      while i < k
        invariant 0 <= i <= k
        invariant Valid()
        invariant State() == Elapse(old(State()), i)
      {
        ElapseOneMore(old(State()), i);
        if isRunning && timeLeft > 0 {
          Tick();
        }
        i := i + 1;
      }
    }
  }
}
