# Countdown timer — Dafny model

This project models the countdown engine of a small Android countdown-timer
app (`MainActivity.kt`). The engine is the `CountDownViewModel` class. It keeps
three observable fields: `isRunning`, the `HH:MM:SS` text
`countDownDisplayProgress`, and the ring value `countDownProgress`. It also
holds the installed `CountDownTimer`. The model also covers the Start/Stop
button handler in `MyApp`. That handler turns the hours, minutes and seconds
fields into a millisecond total and either starts or stops the countdown.

The model is functional. The view model's state is an immutable record, and each
event has its own pure transition function: construction, `startCountDown`,
the timer's `onTick` and `onFinish` callbacks, and `endCountDown`. Timer
callbacks become explicit events. A tick carries `millisUntilFinished`.

Modules, one file each:

- `Wrappers` (`wrappers.dfy`): `Option`.
- `KotlinLong` (`kotlin_long.dfy`): the 64-bit `Long`. It has the
  two's-complement wrap-around of `*` and `+` and the clamping used by
  saturating conversions.
- `TimeUnit` (`time_unit.dfy`): the `java.util.concurrent.TimeUnit`
  conversions the tick handler calls. Down-conversions divide. `HOURS.toMinutes`
  and `MINUTES.toSeconds` multiply and saturate.
- `Decimal` (`decimal.dfy`): the `%d` spelling of a non-negative number, `%02d`
  zero padding, and reading a digit string back.
- `TimeDisplay` (`time_display.dfy`): splitting a millisecond count into
  hours, minutes and seconds, and the `%02d:%02d:%02d` display text. It also
  parses that text back.
- `CountDownViewModel` (`view_model.dfy`): the state record and one transition
  per event.
- `CountDownApp` (`app.dfy`): the click handler's duration and dispatch, the
  event stream (`Step`, `Run`), the state invariant, the lifecycle
  abstraction and scenario lemmas.

The progress value is symbolic and never computed. `Full` stands for the
literal `1.0`. `Ratio(ms, d)` stands for the quotient a tick would store. A
timer's callbacks reach the view model only while that timer is live, meaning
it is installed and neither cancelled nor finished. This is the platform's
guarantee, and `Step` encodes it.

Behaviour of the code worth noting, which the model keeps:

- `startCountDown` does not cancel a timer that is already installed. It
  replaces the reference. The button starts a countdown only when nothing is
  running. `StartNeverOrphansTimer` and the invariant `Inv` show that no live
  timer is ever replaced this way.
- A manual stop leaves the display and progress as the last tick set them.
  It does not reset them. A natural finish clears them.
- Starting does not refresh the display. Until the first tick, the display
  shows whatever the previous run left there.
- A total of zero or less finishes at once. `CountDownTimer.start()` calls
  `onFinish` before it returns when the duration is not positive. So a click
  on Start with the default fields `0`/`0`/`0`, or with a total that
  overflowed to a negative number, ends idle: not running, display cleared,
  progress 1.0.

## Model

| member | source | states |
|---|---|---|
| KotlinLong.Wrap | app/src/main/java/com/example/androiddevchallenge/MainActivity.kt:187-190 | the Long that Long arithmetic yields is the unique representable value congruent to the exact result modulo 2^64, and equals the exact result when it fits |
| TimeUnit.TimesSixtySaturating | app/src/main/java/com/example/androiddevchallenge/MainActivity.kt:70-75 | `HOURS.toMinutes` / `MINUTES.toSeconds` give the exact product by 60 pulled back into the Long range instead of wrapping |
| TimeDisplay.Decompose | app/src/main/java/com/example/androiddevchallenge/MainActivity.kt:68-76 | minutes and seconds each lie in 0..59, hours are `ms div 3600000` and unbounded, and hours*3600 + minutes*60 + seconds equals the whole seconds in `ms`, so only the sub-second part is lost |
| TimeDisplay.DecomposeUnique | app/src/main/java/com/example/androiddevchallenge/MainActivity.kt:68-76 | any clock with minutes and seconds below 60 that totals the whole seconds of `ms` is exactly the decomposition of `ms` |
| TimeDisplay.DecomposeByRemainders | app/src/main/java/com/example/androiddevchallenge/MainActivity.kt:69-76 | the subtract-the-larger-unit computation agrees with the remainder definition: minutes = (ms div 60000) mod 60, seconds = (ms div 1000) mod 60 |
| Decimal.DecimalDigits | app/src/main/java/com/example/androiddevchallenge/MainActivity.kt:79 | the `%d` spelling is all decimal digits, has no leading zero for a positive number, and has one digit below 10 and at most two below 100 |
| Decimal.ParseDecimalDigits | app/src/main/java/com/example/androiddevchallenge/MainActivity.kt:79 | reading the `%d` spelling back yields the number |
| Decimal.ZeroPad | app/src/main/java/com/example/androiddevchallenge/MainActivity.kt:79 | zero padding to a width keeps the whole digit string at the end, puts only zeros in front, and truncates nothing |
| Decimal.Pad2 | app/src/main/java/com/example/androiddevchallenge/MainActivity.kt:79 | a `%02d` field is all digits, at least two wide, and exactly two wide iff the value is below 100 |
| Decimal.ParsePad2 | app/src/main/java/com/example/androiddevchallenge/MainActivity.kt:79 | reading a `%02d` field back yields the value it was formatted from, its leading zero included |
| TimeDisplay.FormatClock | app/src/main/java/com/example/androiddevchallenge/MainActivity.kt:78-79 | for a clock with minutes and seconds below 60, the text is the hours field followed by `:MM:SS`, i.e. six characters longer than the hours field |
| TimeDisplay.DisplayText | app/src/main/java/com/example/androiddevchallenge/MainActivity.kt:68-79 | the display text is at least eight characters long, and exactly eight iff less than 100 hours remain |
| TimeDisplay.ParseFormatClock | app/src/main/java/com/example/androiddevchallenge/MainActivity.kt:78-79 | the formatted text of a well-formed clock parses back to that clock: three colon-separated decimal fields |
| TimeDisplay.ParseDisplayText | app/src/main/java/com/example/androiddevchallenge/MainActivity.kt:67-79 | the text a tick displays reads back as the hours, minutes and seconds of the time left |
| TimeDisplay.DisplayOneHourOneMinuteOneSecond | app/src/main/java/com/example/androiddevchallenge/MainActivity.kt:68-79 | 3661000 ms is displayed as `01:01:01` |
| CountDownViewModel.Init | app/src/main/java/com/example/androiddevchallenge/MainActivity.kt:59-62 | a new view model is not running, shows an empty display and progress 1.0, and holds no timer at all |
| CountDownViewModel.Retire | app/src/main/java/com/example/androiddevchallenge/MainActivity.kt:94 | `countDown?.cancel()` leaves a missing timer missing and makes an installed one unable to fire, keeping its duration |
| CountDownViewModel.StartCountDown | app/src/main/java/com/example/androiddevchallenge/MainActivity.kt:64-89 | starting installs a timer for exactly the requested duration; a positive duration leaves it running with that timer live and display and progress as they were; a duration of zero or less finishes inside `start()`, ending idle with the timer unable to fire |
| CountDownViewModel.OnTick | app/src/main/java/com/example/androiddevchallenge/MainActivity.kt:67-82 | a tick makes the display read back as the decomposition of the time left, makes the progress the ratio of time left to duration, and changes neither the running flag nor the timer |
| CountDownViewModel.OnFinish | app/src/main/java/com/example/androiddevchallenge/MainActivity.kt:84-88 | a finish stops the countdown, sets progress to 1.0 and clears the display |
| CountDownViewModel.EndCountDown | app/src/main/java/com/example/androiddevchallenge/MainActivity.kt:92-95 | a stop clears running and leaves no timer that can fire, and leaves display and progress untouched |
| CountDownViewModel.EndCountDownKeepsStoppedView | app/src/main/java/com/example/androiddevchallenge/MainActivity.kt:92-95 | stopping when already stopped changes nothing observable: running, display and progress stay as they were |
| CountDownViewModel.EndCountDownIdempotent | app/src/main/java/com/example/androiddevchallenge/MainActivity.kt:92-95 | stopping twice is the same as stopping once |
| CountDownViewModel.EndCountDownWhenStopped | app/src/main/java/com/example/androiddevchallenge/MainActivity.kt:92-95 | stopping when already stopped with no live timer changes nothing |
| CountDownViewModel.FinishClearsStopKeeps | app/src/main/java/com/example/androiddevchallenge/MainActivity.kt:84-95 | after a tick, finish clears the display but stop keeps that tick's text and progress |
| CountDownViewModel.TickOverwrites | app/src/main/java/com/example/androiddevchallenge/MainActivity.kt:67-82 | a later tick fully overwrites an earlier one's effect |
| CountDownApp.TotalMillis | app/src/main/java/com/example/androiddevchallenge/MainActivity.kt:187-190 | the click's total is `hr*3600000 + min*60000 + sec*1000` reduced into the Long range, and exactly that sum whenever it fits |
| CountDownApp.TotalMillisOverflowExample | app/src/main/java/com/example/androiddevchallenge/MainActivity.kt:189-190 | 2562047788016 hours wrap the total to a negative duration |
| CountDownApp.OnClick | app/src/main/java/com/example/androiddevchallenge/MainActivity.kt:186-196 | when idle with a positive total, a click starts running with a live timer for exactly that total, leaving display and progress; when idle with a total of zero or less, it ends idle at once; when running it only stops, leaving no live timer and display and progress untouched |
| CountDownApp.Step | app/src/main/java/com/example/androiddevchallenge/MainActivity.kt:66-89 | the timer's callbacks reach the view model only while that timer can fire: a tick runs `onTick` with the duration the installed timer captured, a finish clears the view and retires the timer, a click is the button's handler, and a tick or finish with no live timer changes nothing |
| CountDownApp.InitInv | app/src/main/java/com/example/androiddevchallenge/MainActivity.kt:59-62 | a new view model satisfies the invariant |
| CountDownApp.StepInv | app/src/main/java/com/example/androiddevchallenge/MainActivity.kt:64-95 | every click, tick and finish preserves the invariant: running iff a live timer exists, and the display is empty iff the progress is `Full`, the reset value that construction and finish assign (never a tick's ratio, even one whose value is 1.0) |
| CountDownApp.RunInv | app/src/main/java/com/example/androiddevchallenge/MainActivity.kt:64-95 | every event sequence preserves the invariant |
| CountDownApp.StartNeverOrphansTimer | app/src/main/java/com/example/androiddevchallenge/MainActivity.kt:192-193 | whenever the button would start, no earlier timer can still fire, so at most one tick stream ever feeds the view model; the new timer is live exactly when the total is positive |
| CountDownApp.StoppedIgnoresTimer | app/src/main/java/com/example/androiddevchallenge/MainActivity.kt:92-95 | once stopped or finished, ticks and finishes leave the whole state unchanged |
| CountDownApp.StepFollowsLifecycle | app/src/main/java/com/example/androiddevchallenge/MainActivity.kt:64-95 | every event moves between Idle, Running and Stopped as the code allows: a click stops a running countdown, and otherwise starts one for a positive total or lands in Idle; ticks keep the phase; a finish from Running lands in Idle |
| CountDownApp.StopPhase | app/src/main/java/com/example/androiddevchallenge/MainActivity.kt:194-196 | stopping lands in Stopped iff a reading is on display, and in Idle otherwise |
| CountDownApp.FullDurationDisplaysInput | app/src/main/java/com/example/androiddevchallenge/MainActivity.kt:186-193 | for fields with minutes and seconds below 60 whose total fits in a Long, a tick at the full duration displays exactly the entered hours, minutes and seconds |
| CountDownApp.TicksKeepTimer | app/src/main/java/com/example/androiddevchallenge/MainActivity.kt:67-82 | any run of ticks leaves the running flag and the timer as they were, and changes nothing at all when no timer can fire |
| CountDownApp.FinishAfterTicks | app/src/main/java/com/example/androiddevchallenge/MainActivity.kt:64-89 | for any seconds-only total and any number of ticks (for example 5 s with five ticks), start, the ticks, then a finish end idle with no live timer |
| CountDownApp.OneHourOneMinuteOneSecondRun | app/src/main/java/com/example/androiddevchallenge/MainActivity.kt:64-82 | starting 1 h 1 min 1 s and ticking at the full duration shows `01:01:01` with full ratio |
| CountDownApp.StopAfterTwoTicks | app/src/main/java/com/example/androiddevchallenge/MainActivity.kt:64-95 | start with a positive total, two ticks, stop: not running, the second tick's text and progress remain, and a late tick changes nothing |
| CountDownApp.FinishRightAfterStart | app/src/main/java/com/example/androiddevchallenge/MainActivity.kt:84-89 | a finish right after a start ends idle with no live timer, whatever the total |
| CountDownApp.NonPositiveTotalFinishesAtOnce | app/src/main/java/com/example/androiddevchallenge/MainActivity.kt:186-193 | from a stopped state, a click whose total is zero or less ends idle with no live timer; later ticks and finishes change nothing; clicking again with the same fields lands in the same state |
| CountDownApp.DefaultFieldsTotalZero | app/src/main/java/com/example/androiddevchallenge/MainActivity.kt:121-123 | the default field values `0`, `0`, `0` give a total of zero, so clicking Start before typing finishes at once |

## Left out

- Jetpack Compose UI: layout, `AnimatedVisibility`, the `ShowProgress` ring, the button label, themes and previews. These are presentation only.
- `CountDownTimer` scheduling: the 1000 ms interval, real-time tick delivery, and decreasing `millisUntilFinished` values. The model has no clock. Ticks and finishes are events with arbitrary payloads, delivered only while the timer is live. The immediate `onFinish` inside `start()` for a duration of zero or less is modelled, because it does not depend on time.
- CountDownViewModel.OnTick: the progress is recorded as the symbolic `Ratio(ms, duration)` and not evaluated. The value is `(ms / 1000.0) / (duration / 1000)`, which is floating point and divides by zero for durations under 1000 ms.
- `String.toLong()` parsing of the three text fields is left out. It is a library call that throws on non-numeric input. All three fields are parsed before the running check, so a Stop click with a non-numeric field throws instead of stopping. The fields enter as already-parsed non-negative Longs. Negative input, which `toLong` accepts, is not modelled.
- Timers orphaned by a direct `startCountDown` call while running are left out. The model tracks only the installed timer. The button never makes such a call (`StartNeverOrphansTimer`).
- LiveData observation, the `ViewModel` lifecycle, and the `MainActivity`/`onCreate` wiring are left out.
- `String.format` uses the default locale. The model renders ASCII digits only.
