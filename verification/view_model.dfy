/** `CountDownViewModel`: three observable fields and the installed timer,
    changed by `startCountDown`, the timer's `onTick` and `onFinish`
    callbacks, and `endCountDown`. Each is a pure transition on an immutable
    state record. */
module CountDownViewModel {
  import opened Wrappers
  import opened KotlinLong
  import opened TimeDisplay

  /** The value of `countDownProgress`. It is kept symbolic: `Full` is the
      literal `1.0`; `Ratio(ms, d)` stands for the floating-point quotient
      `(ms / 1000.0) / (d / 1000)` that a tick stores, which is never
      evaluated here. */
  datatype Progress = Full | Ratio(remainingMillis: NonNegLong, durationMillis: Long)

  /** The `CountDownTimer` held in `countDown`: the duration it was created
      with and whether it can still deliver callbacks (false once cancelled
      or finished). */
  datatype Timer = Timer(durationMillis: Long, live: bool)

  /** `isRunning`, `countDownDisplayProgress`, `countDownProgress` and the
      nullable `countDown` reference. */
  datatype State = State(running: bool, display: string, progress: Progress, countDown: Option<Timer>)

  /** The installed timer exists and has not been cancelled or finished. */
  predicate HasLiveTimer(s: State)
  {
    s.countDown.Some? && s.countDown.value.live
  }

  /** What an observer of the three LiveData fields sees. */
  predicate SameView(s: State, t: State)
  {
    s.running == t.running && s.display == t.display && s.progress == t.progress
  }

  /** The idle view a fresh view model starts in and a natural finish returns to. */
  predicate IdleView(s: State)
  {
    !s.running && s.display == "" && s.progress == Full
  }

  /** A freshly constructed view model. */
  function Init(): (s: State)
    ensures IdleView(s)
    ensures s.countDown == None
  {
    State(false, "", Full, None)
  }

  /** The timer after `cancel()` (or after it has run out): it delivers
      nothing more. A missing timer stays missing. */
  function Retire(t: Option<Timer>): (r: Option<Timer>)
    ensures r.None? <==> t.None?
    ensures r.Some? ==> !r.value.live && r.value.durationMillis == t.value.durationMillis
  {
    match t
    case None => None
    case Some(timer) => Some(timer.(live := false))
  }

  /** `startCountDown(timeInMillis)`: marks the countdown running and installs
      a new timer for the duration. The display and progress are left as they
      were until the first tick; any previously installed timer is replaced,
      not cancelled. A timer whose duration is zero or less runs `onFinish`
      inside `start()` itself, so such a start ends already finished: idle,
      with a timer that can no longer fire. */
  function StartCountDown(s: State, timeInMillis: Long): (r: State)
    ensures r.countDown.Some? && r.countDown.value.durationMillis == timeInMillis
    ensures timeInMillis > 0 ==> r.running && HasLiveTimer(r)
    ensures timeInMillis > 0 ==> r.display == s.display && r.progress == s.progress
    ensures timeInMillis <= 0 ==> IdleView(r) && !HasLiveTimer(r)
  {
    if timeInMillis > 0 then State(true, s.display, s.progress, Some(Timer(timeInMillis, true)))
    else OnFinish(State(true, s.display, s.progress, Some(Timer(timeInMillis, false))))
  }

  /** `onTick(millisUntilFinished)` of the timer created for `timeInMillis`:
      the display shows the time left as `HH:MM:SS` and the progress becomes
      the ratio of time left to duration. Nothing else changes. */
  function OnTick(s: State, timeInMillis: Long, millisUntilFinished: NonNegLong): (r: State)
    ensures ParseDisplay(r.display) == Some(Decompose(millisUntilFinished))
    ensures r.display != ""
    ensures r.progress == Ratio(millisUntilFinished, timeInMillis)
    ensures r.running == s.running && r.countDown == s.countDown
  {
    ParseDisplayText(millisUntilFinished);
    s.(display := DisplayText(millisUntilFinished), progress := Ratio(millisUntilFinished, timeInMillis))
  }

  /** `onFinish()`: the countdown stops and the view is cleared back to the
      idle view. The timer reference itself is not touched. */
  function OnFinish(s: State): (r: State)
    ensures IdleView(r)
    ensures r.countDown == s.countDown
  {
    s.(running := false, progress := Full, display := "")
  }

  /** `endCountDown()`: the countdown stops and the installed timer, if any,
      is cancelled. Unlike a natural finish, the display and progress keep
      whatever the last tick left there. */
  function EndCountDown(s: State): (r: State)
    ensures !r.running && !HasLiveTimer(r)
    ensures r.display == s.display && r.progress == s.progress
    ensures r.countDown.Some? <==> s.countDown.Some?
  {
    s.(running := false, countDown := Retire(s.countDown))
  }

  /** Stopping when already stopped changes nothing an observer can see,
      whatever timer is installed. */
  lemma EndCountDownKeepsStoppedView(s: State)
    requires !s.running
    ensures SameView(EndCountDown(s), s)
  {
  }

  /** Stopping twice is the same as stopping once. */
  lemma EndCountDownIdempotent(s: State)
    ensures EndCountDown(EndCountDown(s)) == EndCountDown(s)
  {
  }

  /** Stopping a view model that is already stopped, with no timer that can
      still fire, changes nothing. */
  lemma EndCountDownWhenStopped(s: State)
    requires !s.running && !HasLiveTimer(s)
    ensures EndCountDown(s) == s
  {
  }

  /** The finish/stop asymmetry: after a tick has shown some time, a natural
      finish clears the view while a stop leaves the last reading on it. */
  lemma FinishClearsStopKeeps(s: State, timeInMillis: Long, ms: NonNegLong)
    ensures OnFinish(OnTick(s, timeInMillis, ms)).display == ""
    ensures EndCountDown(OnTick(s, timeInMillis, ms)).display == DisplayText(ms)
    ensures EndCountDown(OnTick(s, timeInMillis, ms)).progress == Ratio(ms, timeInMillis)
  {
  }

  /** A tick never starts or stops the countdown, and a later tick simply
      overwrites what an earlier one showed. */
  lemma TickOverwrites(s: State, timeInMillis: Long, ms1: NonNegLong, ms2: NonNegLong)
    ensures OnTick(OnTick(s, timeInMillis, ms1), timeInMillis, ms2) == OnTick(s, timeInMillis, ms2)
  {
  }
}
