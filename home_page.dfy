/** The home page of the Pomodoro app: the timer fields and the operations
    that update them in place. Each method leaves the page in the state the
    matching function of TimerSpec computes from the state before, so what
    the lemmas of TimerSpec prove about sequences of operations holds of
    the page. The one-second interval is the flag driverActive and the
    method Tick; the five-second delay before a break is the counter
    pendingBreaks and the method FireBreakDelay. */
module Home {
  import opened Clock
  import opened TimerSpec

  class HomePage {
    var timerDisplay: string
    var isRunning: bool
    var isPaused: bool
    var timerDuration: int
    var timeLeft: int

    var pomodoroMinutes: int
    var pomodoroSeconds: int
    var breakMinutes: int
    var breakSeconds: int

    var endCallback: Completion

    // the scheduled one-second interval and the duration its body captured
    var driverActive: bool
    var tickDuration: int
    // scheduled five-second delays, each of which will call startBreak
    var pendingBreaks: nat
    // what updateCircle was last given
    var progress: Progress
    // what notify was asked to show, in order
    var notifications: seq<string>

    function State(): TimerState
      reads this
    {
      TimerState(timerDisplay, isRunning, isPaused, timerDuration, timeLeft,
                 pomodoroMinutes, pomodoroSeconds, breakMinutes, breakSeconds,
                 endCallback, driverActive, tickDuration, pendingBreaks, progress, notifications)
    }

    ghost predicate Valid()
      reads this
    {
      TimerSpec.Valid(State())
    }

    constructor()
      ensures State() == Initial() && Valid()
    {
      timerDisplay := "";
      isRunning := false;
      timerDuration := 0;
      timeLeft := 0;
      isPaused := false;
      pomodoroMinutes := 25;
      breakMinutes := 5;
      pomodoroSeconds := 0;
      breakSeconds := 0;
      endCallback := NoCallback;
      driverActive := false;
      tickDuration := 0;
      pendingBreaks := 0;
      progress := NO_PROGRESS;
      notifications := [];
    }

    /** The select lists bound to the four configuration fields. */
    method Configure(newPomodoroMinutes: int, newPomodoroSeconds: int, newBreakMinutes: int, newBreakSeconds: int)
      requires Valid()
      requires ConfigInRange(newPomodoroMinutes, newPomodoroSeconds, newBreakMinutes, newBreakSeconds)
      modifies this
      ensures Valid()
      ensures State() == TimerSpec.Configure(old(State()), newPomodoroMinutes, newPomodoroSeconds, newBreakMinutes, newBreakSeconds)
    {
      ConfigureEffect(State(), newPomodoroMinutes, newPomodoroSeconds, newBreakMinutes, newBreakSeconds);
      pomodoroMinutes := newPomodoroMinutes;
      pomodoroSeconds := newPomodoroSeconds;
      breakMinutes := newBreakMinutes;
      breakSeconds := newBreakSeconds;
    }

    method StartPomodoro()
      requires Valid()
      modifies this
      ensures Valid()
      ensures State() == TimerSpec.StartPomodoro(old(State()))
    {
      StartPomodoroEffect(State());
      if isRunning {
        return;
      }
      isRunning := true;
      isPaused := false;
      timerDuration := pomodoroMinutes * 60 + pomodoroSeconds;
      StartTimer(timerDuration, FocusDone);
    }

    method StartBreak()
      requires Valid()
      modifies this
      ensures Valid()
      ensures State() == TimerSpec.StartBreak(old(State()))
    {
      StartBreakEffect(State());
      timerDuration := breakMinutes * 60 + breakSeconds;
      isPaused := false;
      StartTimer(timerDuration, BreakDone);
    }

    method StartTimer(duration: int, callback: Completion)
      modifies this
      ensures State() == TimerSpec.StartTimer(old(State()), duration, callback)
    {
      ghost var started := old(State()).(timeLeft := duration, endCallback := callback);
      timeLeft := duration;
      endCallback := callback;
      assert State() == started;
      UpdateDisplay(timeLeft);
      assert State() == TimerSpec.UpdateDisplay(started, duration);
      progress := NO_PROGRESS;
      // clearInterval, then setInterval: one interval, counting from duration
      driverActive := true;
      tickDuration := duration;
    }

    /** One firing of the interval scheduled by StartTimer. */
    method Tick()
      requires Valid()
      modifies this
      ensures Valid()
      ensures State() == TimerSpec.Tick(old(State()))
    {
      TickEffect(State());
      if !driverActive {
        // a cleared interval fires no more
        return;
      }
      if isPaused {
        return;
      }
      CountDown();
      if timeLeft <= 0 {
        driverActive := false;
        RunCompletion(endCallback);
      }
    }

    /** timeLeft--, updateDisplay and updateCircle in the interval body. */
    method CountDown()
      modifies this
      ensures State() == TimerSpec.CountDown(old(State()))
    {
      var t := timeLeft - 1;
      timeLeft := t;
      UpdateDisplay(t);
      progress := Progress(tickDuration - t, tickDuration);
    }

    /** The interval body calling the handler it was started with. */
    method RunCompletion(callback: Completion)
      modifies this
      ensures State() == TimerSpec.Complete(old(State()), callback)
    {
      match callback
      case FocusDone => FocusCompleted();
      case BreakDone => BreakCompleted();
      case NoCallback =>
    }

    /** The handler startPomodoro passes to startTimer. */
    method FocusCompleted()
      modifies this
      ensures State() == TimerSpec.FocusCompleted(old(State()))
    {
      Notify(FOCUS_MESSAGE);
      pendingBreaks := pendingBreaks + 1;
    }

    /** The handler startBreak passes to startTimer. */
    method BreakCompleted()
      modifies this
      ensures State() == TimerSpec.BreakCompleted(old(State()))
    {
      Notify(BREAK_MESSAGE);
      isRunning := false;
      timerDisplay := "";
      progress := NO_PROGRESS;
    }

    /** One of the delays scheduled by FocusCompleted runs out. */
    method FireBreakDelay()
      requires Valid()
      modifies this
      ensures Valid()
      ensures State() == TimerSpec.FireBreakDelay(old(State()))
    {
      FireBreakDelayEffect(State());
      if pendingBreaks == 0 {
        return;
      }
      pendingBreaks := pendingBreaks - 1;
      StartBreak();
    }

    method Notify(message: string)
      modifies this
      ensures State() == TimerSpec.Notify(old(State()), message)
    {
      notifications := notifications + [message];
    }

    method UpdateDisplay(seconds: int)
      modifies this
      ensures State() == TimerSpec.UpdateDisplay(old(State()), seconds)
    {
      timerDisplay := FormatTime(seconds);
    }

    method TogglePause()
      requires Valid()
      modifies this
      ensures Valid()
      ensures State() == TimerSpec.TogglePause(old(State()))
    {
      TogglePauseEffect(State());
      if !isRunning {
        return;
      }
      if isPaused {
        isPaused := false;
        StartTimer(timeLeft, endCallback);
      } else {
        isPaused := true;
        driverActive := false;
      }
    }

    method ResetTimer()
      requires Valid()
      modifies this
      ensures Valid()
      ensures State() == TimerSpec.Reset(old(State()))
    {
      ResetEffect(State());
      driverActive := false;
      timerDisplay := "";
      timeLeft := 0;
      isRunning := false;
      isPaused := false;
      progress := NO_PROGRESS;
    }
  }
}
