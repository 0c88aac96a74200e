# Pomodoro timer home page — a verified model

The app is a single-screen Pomodoro timer. Its home page (`HomePage` in
`src/app/home/home.page.ts`) runs a focus countdown. When the countdown
reaches zero, a notification is shown and a break countdown starts five
seconds later. The user can pause, resume and reset the timer, and can pick
the focus and break lengths from select lists. The display shows the time
left as `MM:SS`.

The model has three modules:

- `Clock` (`clock.dfy`) models the `MM:SS` text that `updateDisplay` builds.
  It uses JavaScript's `Math.floor`, its truncating `%`, `Number.toString`
  and `padStart(2, '0')`. The lemmas show that the text reads back to the
  number of seconds, and they cover the displayed examples and the negative
  case.
- `TimerSpec` (`timer_spec.dfy`) holds the page's timer fields as a
  `TimerState` value. Each operation is a function from state to state.
  One `…Effect` lemma per operation states its contract, including that it
  keeps the invariant `Valid`. Further lemmas describe sequences of
  operations: a countdown of D seconds ends after exactly D ticks and runs its
  handler once; pause and resume keep the time left; the whole
  focus → break → idle cycle; a reset during the five-second delay.
- `Home` (`home_page.dfy`) holds the class `HomePage`. Its fields are the
  source's fields, and its methods update them in place step by step, as
  the TypeScript does. Each method ensures `State() == TimerSpec.F(old(State()))`,
  so the `TimerSpec` lemmas hold for the page.

The timers are made explicit:

- The one-second `setInterval` becomes the flag `driverActive` and the method
  `Tick`. The `duration` the interval body captures becomes `tickDuration`,
  which is a separate field from `timerDuration`. A stopped interval fires
  nothing, so `Tick` does nothing when `driverActive` is false.
- The five-second `setTimeout` before a break becomes the counter
  `pendingBreaks` and the method `FireBreakDelay`. It is a counter and not a
  flag because a second focus completion can be scheduled before the first
  delay runs out. This happens when the user pauses and resumes during the
  delay (`TimerSpec.PauseResumeAfterFocus`).
- The stored `endCallback` becomes the tagged value
  `Completion = NoCallback | FocusDone | BreakDone`. `startTimer` always
  stores the closure's `callback` in `endCallback` at the same moment it
  starts the interval. So the handler the interval calls is always
  `endCallback`, and `Tick` dispatches on that field.
- `notify` becomes an append to the log `notifications`. The value passed to
  `updateCircle` is kept as the integer pair `Progress(elapsed, total)`, and
  `updateCircle(0)` is `Progress(0, 1)`.

These quirks of the code are kept, not fixed:

- Resuming calls `startTimer(timeLeft, …)`. So the interval's duration
  becomes the remaining time, and the progress ring starts again from empty.
- `startBreak` never sets `isRunning`.
- `resetTimer` does not cancel a pending break delay. After a reset during
  the delay, the break still starts and counts down with `isRunning` false,
  and its notification is still shown (`TimerSpec.ResetKeepsScheduledBreak`).
- `timeLeft` can drop below 0. A zero-length countdown takes it to -1; the
  display then shows `-1:-1` and the ring receives 1/0
  (`TimerSpec.ZeroFocusOvershoots`). Pausing and resuming after a focus
  countdown has ended does the same, and runs the focus handler a second
  time, scheduling a second break (`TimerSpec.PauseResumeAfterFocus`).
- The break handler only notifies and clears `isRunning`, the display and
  the ring. `isPaused`, `timeLeft` and `endCallback` keep their values.

## Model

| member | source | states |
|---|---|---|
| Clock.Decimal | src/app/home/home.page.ts:122-123 | `toString` of a non-negative integer: never empty, and a single character exactly for numbers below ten |
| Clock.NumberToString | src/app/home/home.page.ts:122-123 | `toString` of an integer: never empty, and it starts with `-` exactly when the number is negative |
| Clock.PadStart2 | src/app/home/home.page.ts:122-123 | `padStart(2, '0')`; what the padded text is, is stated by `Clock.PadStart2Shape` |
| Clock.PadStart2Shape | src/app/home/home.page.ts:122-123 | the padded text has length max(2, length), ends with the original text, and everything in front of it is '0' |
| Clock.FormatTime | src/app/home/home.page.ts:122-124 | `updateDisplay`'s text; what it says is stated by `Clock.FormatTimeDigits`, `Clock.ClockRoundTrip` and the example lemmas below |
| Clock.DecimalShape | src/app/home/home.page.ts:122-123 | `toString` of a non-negative integer is a non-empty digit string with no leading zero, one digit exactly below ten |
| Clock.DecimalRoundTrip | src/app/home/home.page.ts:122-123 | the numeral `toString` writes reads back as the number it came from |
| Clock.NumberToStringRoundTrip | src/app/home/home.page.ts:122-123 | a negative number is written as `-` followed by the numeral of its magnitude; both forms read back to the number |
| Clock.JsRem | src/app/home/home.page.ts:123 | JavaScript's `%` for a positive divisor b: the dividend minus the result is a multiple of b, and the result lies in [0, b) for a non-negative dividend and in (-b, 0] for a negative one (which fixes it uniquely) |
| Clock.PaddedTwoDigits | src/app/home/home.page.ts:122-123 | for 0 <= m < 100, `m.toString().padStart(2, '0')` is the tens digit followed by the units digit |
| Clock.FormatTimeDigits | src/app/home/home.page.ts:121-125 | for 0 <= s < 6000 the display is pad2(floor(s/60)) + ":" + pad2(s % 60) |
| Clock.ClockRoundTrip | src/app/home/home.page.ts:121-125 | for 0 <= s < 6000 the display is well-formed MM:SS text, its seconds field starts with a digit at most 5, and it reads back to exactly s |
| Clock.FormatTwoMinutesFive | src/app/home/home.page.ts:121-125 | 125 seconds display as "02:05" |
| Clock.FormatFiftyNine | src/app/home/home.page.ts:121-125 | 59 seconds display as "00:59" |
| Clock.FormatZero | src/app/home/home.page.ts:121-125 | 0 seconds display as "00:00" |
| Clock.FormatMinusOne | src/app/home/home.page.ts:122-123 | -1 seconds display as "-1:-1" (floor and truncating remainder, padStart leaves two characters alone) |
| TimerSpec.Initial | src/app/home/home.page.ts:14-31 | the new page is idle, with no interval or delay scheduled, 25 minutes of focus and 5 of break, and satisfies the invariant |
| TimerSpec.ConfigureEffect | src/app/home/home.page.ts:22-29 | picking values in the select lists sets the focus length below 3600 s and the break length below 1800 s, leaves the countdown alone and keeps the invariant |
| TimerSpec.StartPomodoroEffect | src/app/home/home.page.ts:69-83 | does nothing while running; otherwise running, unpaused, timerDuration == timeLeft == captured duration == the focus length, interval started with the focus handler, display showing the full time, ring empty, log and delays unchanged; keeps the invariant |
| TimerSpec.StartBreakEffect | src/app/home/home.page.ts:86-95 | timerDuration == timeLeft == captured duration == the break length, unpaused, interval started with the break handler; isRunning, log and delays unchanged; keeps the invariant |
| TimerSpec.TickEffect | src/app/home/home.page.ts:105-117 | a stopped or paused interval changes nothing; otherwise timeLeft drops by exactly 1 and the interval stays active iff time is left. While time is left nothing is notified and the ring gets (duration - timeLeft)/duration. At timeLeft <= 0 the handler's message is logged exactly once; the focus handler schedules one more break and leaves isRunning alone, the break handler clears isRunning, the display and the ring. Keeps the invariant |
| TimerSpec.FireBreakDelayEffect | src/app/home/home.page.ts:79-81 | with no delay pending nothing happens; otherwise one delay is used up and a break starts with the break length, isRunning unchanged; keeps the invariant |
| TimerSpec.TogglePauseEffect | src/app/home/home.page.ts:140-150 | does nothing unless running. Pausing only sets isPaused and stops the interval. Resuming clears isPaused and restarts the interval from the same timeLeft with the same handler, the ring empty. Keeps the invariant |
| TimerSpec.ResetEffect | src/app/home/home.page.ts:153-160 | from any state: timeLeft 0, not running, not paused, display "", interval stopped, ring empty; pending break delays and the log unchanged; keeps the invariant |
| TimerSpec.TicksAdd | src/app/home/home.page.ts:105-117 | a + b interval firings are a firings followed by b |
| TimerSpec.TicksWhileStopped | src/app/home/home.page.ts:106-114 | while the interval is stopped or paused, any number of firings leaves the whole state unchanged |
| TimerSpec.CountdownPrefix | src/app/home/home.page.ts:105-117 | k < timeLeft firings of a running interval leave 0 < timeLeft = timeLeft - k with only the display and ring changed |
| TimerSpec.CountdownReachesZero | src/app/home/home.page.ts:105-117 | exactly timeLeft firings reach the state of the last tick: time 0, ring full, interval stopped, handler run |
| TimerSpec.CountdownCompletes | src/app/home/home.page.ts:105-117 | after exactly timeLeft firings: timeLeft 0, interval stopped, handler message logged once. Focus end schedules one break and keeps running with "00:00". Break end stops running and clears display and ring. Further firings change nothing |
| TimerSpec.CountdownKeepsValid | src/app/home/home.page.ts:105-117 | a countdown to completion keeps the invariant |
| TimerSpec.FocusCountdown | src/app/home/home.page.ts:69-117 | for a focus of D > 0 seconds: before D ticks, 0 < timeLeft <= D, the interval runs and nothing is notified; after D ticks, timeLeft 0, interval stopped, one focus message, one break scheduled, still running |
| TimerSpec.FullCycle | src/app/home/home.page.ts:69-95 | idle → D focus ticks → delay → B break ticks ends idle again: not running, nothing scheduled, display "" and exactly the focus then the break message logged |
| TimerSpec.PauseResume | src/app/home/home.page.ts:140-150 | pausing, any number of firings, then resuming keeps timeLeft, the handler, the log and the delays; the interval restarts from timeLeft with an empty ring |
| TimerSpec.PauseResumeAfterFocus | src/app/home/home.page.ts:140-150 | pause and resume after a focus countdown has ended: the next firing takes timeLeft to -1, runs the focus handler again, logs the focus message twice in all and leaves two breaks scheduled |
| TimerSpec.DisplayShowsTimeLeft | src/app/home/home.page.ts:99-111 | while the interval runs (and timeLeft is not negative), the display is well-formed MM:SS text that reads back as exactly timeLeft |
| TimerSpec.StartPomodoroIdempotent | src/app/home/home.page.ts:70 | calling startPomodoro twice is the same as once |
| TimerSpec.ResetKeepsScheduledBreak | src/app/home/home.page.ts:79-81 | a reset during the break delay does not cancel it: the break still starts (isRunning false) and its notification is still logged when it ends |
| TimerSpec.ZeroFocusOvershoots | src/app/home/home.page.ts:106-116 | a zero-length focus: one tick gives timeLeft -1, display "-1:-1", ring 1/0, interval stopped, focus message logged |
| TimerSpec.ThreeSecondFocus | src/app/home/home.page.ts:98-116 | a 3-second focus: the ticks hand the ring 1/3, 2/3, 3/3, the third logs the focus message and the delay then starts the configured break |
| Home.HomePage.constructor | src/app/home/home.page.ts:14-31 | the field initialisers: the state is TimerSpec.Initial() and the invariant holds |
| Home.HomePage.Configure | src/app/home/home.page.ts:22-29 | the select-list bindings change exactly the four configuration fields, keeping the invariant |
| Home.HomePage.StartPomodoro | src/app/home/home.page.ts:69-83 | updates the fields in place to TimerSpec.StartPomodoro of the old state, keeping the invariant |
| Home.HomePage.StartBreak | src/app/home/home.page.ts:86-95 | updates the fields in place to TimerSpec.StartBreak of the old state, keeping the invariant |
| Home.HomePage.StartTimer | src/app/home/home.page.ts:98-117 | stores duration and handler, shows the time, empties the ring and replaces the interval by one that captured this duration |
| Home.HomePage.Tick | src/app/home/home.page.ts:105-117 | one firing of the interval, in place: the new state is TimerSpec.Tick of the old, keeping the invariant |
| Home.HomePage.CountDown | src/app/home/home.page.ts:108-111 | `timeLeft--`, the display update and the ring's elapsed fraction, in place |
| Home.HomePage.RunCompletion | src/app/home/home.page.ts:113-116 | calling the stored handler: the focus or break completion |
| Home.HomePage.FocusCompleted | src/app/home/home.page.ts:75-82 | the focus handler: logs the focus message and schedules one break delay |
| Home.HomePage.BreakCompleted | src/app/home/home.page.ts:89-94 | the break handler: logs the break message, clears isRunning, the display and the ring |
| Home.HomePage.FireBreakDelay | src/app/home/home.page.ts:79-81 | a scheduled delay runs out and calls startBreak; nothing when none is scheduled |
| Home.HomePage.Notify | src/app/home/home.page.ts:51-66 | appends the message to the notification log and changes nothing else |
| Home.HomePage.UpdateDisplay | src/app/home/home.page.ts:121-125 | sets only timerDisplay, to the MM:SS text of the given seconds |
| Home.HomePage.TogglePause | src/app/home/home.page.ts:140-150 | in place: the new state is TimerSpec.TogglePause of the old, keeping the invariant |
| Home.HomePage.ResetTimer | src/app/home/home.page.ts:153-160 | in place: the new state is TimerSpec.Reset of the old, keeping the invariant |

## Left out

- `notify` is only logged. The permission check, the `Notification` object,
  the icon and the `Audio` playback (src/app/home/home.page.ts:51-66) are
  browser calls. A missing permission changes nothing in the timer.
- `requestNotificationPermission` (src/app/home/home.page.ts:41-48) is an
  asynchronous browser permission request with no effect on the timer.
- `updateCircle` (src/app/home/home.page.ts:128-137) queries the DOM and
  computes floating-point stroke offsets. The model records only the
  fraction it is given, as an integer pair.
- The wall clock in `ngOnInit` (src/app/home/home.page.ts:33-38) uses the
  system time and locale formatting.
- Real timing is not modelled. The 1000 ms and 5000 ms delays are replaced
  by explicit `Tick` and `FireBreakDelay` steps that the environment may take
  in any order. There is no concurrency to model.
- JavaScript numbers are doubles. The model uses unbounded integers, which
  agree with the doubles because every value the timer computes is a small
  integer.
- capacitor.config.ts holds only static plugin configuration.
- In the source, a resume with a missing handler would throw when the
  countdown ends. The invariant `Valid` rules this out, because a running
  page always has a handler. So the `NoCallback` case of completion does
  nothing.
