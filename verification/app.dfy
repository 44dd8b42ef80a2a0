/** The logic of `MyApp`'s Start/Stop button, and the view model driven by a
    sequence of events: button clicks and the callbacks of the installed
    timer. */
module CountDownApp {
  import opened Wrappers
  import opened KotlinLong
  import opened TimeUnit
  import opened TimeDisplay
  import opened CountDownViewModel

  /** The exact duration, in milliseconds, that the three input fields denote. */
  function ExactMillis(hr: nat, min: nat, sec: nat): nat
  {
    hr * MillisPerHour + min * MillisPerMinute + sec * MillisPerSecond
  }

  /** `total` in the click handler: `sec * 1000 + min * 60000 + hr * 3600000`
      evaluated in Long arithmetic, each product and sum wrapping on overflow.
      It equals the exact duration reduced into the Long range, and is the
      exact duration whenever that fits. */
  function TotalMillis(hr: NonNegLong, min: NonNegLong, sec: NonNegLong): (total: Long)
    ensures total == Wrap(ExactMillis(hr, min, sec))
    ensures ExactMillis(hr, min, sec) <= LongMax ==> total == ExactMillis(hr, min, sec)
  {
    var totalSeconds := Times(sec, 1000);
    var totalMinutes := Times(min, 60000);
    var totalHours := Times(hr, 3600000);
    WrapSum3(sec * 1000, min * 60000, hr * 3600000);
    Plus(Plus(totalSeconds, totalMinutes), totalHours)
  }

  /** Wrapping each term and each partial sum gives the wrapped total. */
  lemma WrapSum3(a: int, b: int, c: int)
    ensures Wrap(Wrap(Wrap(a) + Wrap(b)) + Wrap(c)) == Wrap(a + b + c)
  {
    // Every wrap moves its argument by a multiple of 2^64 (the `k`s below),
    // so the result is congruent to the exact sum and `WrapUnique` applies.
    var ka := (Wrap(a) - a) / TwoTo64;
    var kb := (Wrap(b) - b) / TwoTo64;
    var kc := (Wrap(c) - c) / TwoTo64;
    assert Wrap(a) - a == ka * TwoTo64;
    assert Wrap(b) - b == kb * TwoTo64;
    assert Wrap(c) - c == kc * TwoTo64;
    var r := Wrap(Wrap(a) + Wrap(b));
    var kr := (r - (Wrap(a) + Wrap(b))) / TwoTo64;
    assert r - (Wrap(a) + Wrap(b)) == kr * TwoTo64;
    var w := Wrap(r + Wrap(c));
    var kw := (w - (r + Wrap(c))) / TwoTo64;
    assert w - (r + Wrap(c)) == kw * TwoTo64;
    assert w - (a + b + c) == (kw + kr + ka + kb + kc) * TwoTo64;
    WrapUnique(a + b + c, w);
  }

  /** Hours large enough to overflow the product wrap the duration negative. */
  lemma TotalMillisOverflowExample()
    ensures TotalMillis(2_562_047_788_016, 0, 0) < 0
  {
    var exact := ExactMillis(2_562_047_788_016, 0, 0);
    assert exact == 9_223_372_036_857_600_000;
    WrapUnique(exact, exact - TwoTo64);
  }

  /** The button's `onClick`: when not running it starts a countdown for the
      total of the fields (one that finishes at once when the total is zero or
      less); when running it only stops, whatever numbers the fields hold. */
  function OnClick(s: State, hr: NonNegLong, min: NonNegLong, sec: NonNegLong): (r: State)
    ensures !s.running && TotalMillis(hr, min, sec) > 0 ==>
      && r.running && HasLiveTimer(r)
      && r.countDown.value.durationMillis == TotalMillis(hr, min, sec)
      && r.display == s.display && r.progress == s.progress
    ensures !s.running && TotalMillis(hr, min, sec) <= 0 ==> IdleView(r) && !HasLiveTimer(r)
    ensures s.running ==> !r.running && !HasLiveTimer(r)
    ensures s.running ==> r.display == s.display && r.progress == s.progress
  {
    if !s.running then StartCountDown(s, TotalMillis(hr, min, sec))
    else EndCountDown(s)
  }

  /** What can happen to the view model: a button click with the current
      field values, or a callback of the installed timer. A timer that was
      cancelled or has finished delivers nothing. */
  datatype Event =
    | Click(hr: NonNegLong, min: NonNegLong, sec: NonNegLong)
    | TimerTick(millisUntilFinished: NonNegLong)
    | TimerFinish

  /** The state after one event. A tick is handled by the installed timer's
      callback, which knows the duration that timer was created with; a
      finish retires the timer that delivered it; a timer that cannot fire
      delivers nothing. */
  function Step(s: State, e: Event): (r: State)
    ensures e.Click? ==> r == OnClick(s, e.hr, e.min, e.sec)
    ensures e.TimerTick? && HasLiveTimer(s) ==>
      r == OnTick(s, s.countDown.value.durationMillis, e.millisUntilFinished)
    ensures e.TimerFinish? && HasLiveTimer(s) ==> IdleView(r) && !HasLiveTimer(r) && r.countDown.Some?
    ensures !e.Click? && !HasLiveTimer(s) ==> r == s
  {
    match e
    case Click(hr, min, sec) => OnClick(s, hr, min, sec)
    case TimerTick(ms) =>
      if HasLiveTimer(s) then OnTick(s, s.countDown.value.durationMillis, ms) else s
    case TimerFinish =>
      if HasLiveTimer(s) then OnFinish(s.(countDown := Retire(s.countDown))) else s
  }

  /** The state after a sequence of events, oldest first. */
  function Run(s: State, events: seq<Event>): State
    decreases |events|
  {
    if |events| == 0 then s else Run(Step(s, events[0]), events[1..])
  }

  /** The state invariant: the countdown is running exactly while a timer can
      still fire (so at most one timer ever feeds the view model), and the
      display is empty exactly when the progress is `Full`, the reset value
      that construction and finish assign (never a tick's ratio, even one
      whose value is 1.0). */
  predicate Inv(s: State)
  {
    && (s.running <==> HasLiveTimer(s))
    && (s.display == "" <==> s.progress == Full)
  }

  lemma InitInv()
    ensures Inv(Init())
  {
  }

  /** Every event preserves the invariant. */
  lemma StepInv(s: State, e: Event)
    requires Inv(s)
    ensures Inv(Step(s, e))
  {
  }

  /** Every sequence of events preserves the invariant. */
  lemma {:induction false} RunInv(s: State, events: seq<Event>)
    requires Inv(s)
    ensures Inv(Run(s, events))
    decreases |events|
  {
    if |events| > 0 {
      StepInv(s, events[0]);
      RunInv(Step(s, events[0]), events[1..]);
    }
  }

  /** A click that starts a countdown never leaves an earlier timer running
      alongside the new one: whenever the button would start, no timer can
      still fire. */
  lemma StartNeverOrphansTimer(s: State, hr: NonNegLong, min: NonNegLong, sec: NonNegLong)
    requires Inv(s) && !s.running
    ensures !HasLiveTimer(s)
    ensures HasLiveTimer(OnClick(s, hr, min, sec)) <==> TotalMillis(hr, min, sec) > 0
  {
  }

  /** Once stopped or finished, timer callbacks change nothing: no tick of
      the old run is observed after a stop. */
  lemma StoppedIgnoresTimer(s: State, ms: NonNegLong)
    requires Inv(s) && !s.running
    ensures Step(s, TimerTick(ms)) == s
    ensures Step(s, TimerFinish) == s
  {
  }

  /** The three lifecycle phases an observer can tell apart. `Stopped` is the
      manual stop that left the last reading on display. */
  datatype Phase = Idle | Running | Stopped

  function PhaseOf(s: State): Phase
  {
    if s.running then Running else if s.display == "" then Idle else Stopped
  }

  /** The observable lifecycle: a click stops a running countdown, and
      otherwise starts one, or lands idle at once when the total is zero or
      less; ticks keep the phase; a finish returns a running countdown to idle;
      timer events do nothing when not running. */
  predicate AllowedTransition(p: Phase, e: Event, q: Phase)
  {
    match e
    case Click(hr, min, sec) =>
      if p == Running then q != Running
      else if TotalMillis(hr, min, sec) > 0 then q == Running
      else q == Idle
    case TimerTick(_) => q == p
    case TimerFinish => if p == Running then q == Idle else q == p
  }

  /** Every step of the view model follows the lifecycle. */
  lemma StepFollowsLifecycle(s: State, e: Event)
    requires Inv(s)
    ensures AllowedTransition(PhaseOf(s), e, PhaseOf(Step(s, e)))
  {
  }

  /** Stopping a running countdown leaves it stopped with the last reading
      exactly when a tick has shown one; otherwise it is back to idle. */
  lemma StopPhase(s: State, hr: NonNegLong, min: NonNegLong, sec: NonNegLong)
    requires Inv(s) && s.running
    ensures PhaseOf(OnClick(s, hr, min, sec)) == (if s.display == "" then Idle else Stopped)
  {
  }

  /** When the fields hold a well-formed time that fits in a Long, the display
      shown by a tick at the full duration reads back exactly the fields
      entered. */
  lemma FullDurationDisplaysInput(hr: NonNegLong, min: NonNegLong, sec: NonNegLong)
    requires min < 60 && sec < 60
    requires ExactMillis(hr, min, sec) <= LongMax
    ensures ParseDisplay(DisplayText(TotalMillis(hr, min, sec))) == Some(Clock(hr, min, sec))
  {
    var total := TotalMillis(hr, min, sec);
    assert total / MillisPerSecond == hr * 3600 + min * 60 + sec;
    DecomposeUnique(total, Clock(hr, min, sec));
    ParseDisplayText(total);
  }

  /** From a stopped state, a start, any run of ticks and the finish end in
      the idle view with no timer left. */
  lemma FinishAfterTicks(s: State, sec: NonNegLong, ticks: seq<Event>)
    requires !s.running
    requires forall i :: 0 <= i < |ticks| ==> ticks[i].TimerTick?
    ensures var r := Run(s, [Click(0, 0, sec)] + ticks + [TimerFinish]);
      IdleView(r) && !HasLiveTimer(r)
  {
    RunAppend(s, [Click(0, 0, sec)] + ticks, [TimerFinish]);
    RunAppend(s, [Click(0, 0, sec)], ticks);
    var s1 := Run(s, [Click(0, 0, sec)]);
    RunCons(s, Click(0, 0, sec), []);
    TicksKeepTimer(s1, ticks);
  }

  /** Ticks alone never start, stop, or replace the timer, and without a
      timer that can fire they change nothing at all. */
  lemma {:induction false} TicksKeepTimer(s: State, events: seq<Event>)
    requires forall i :: 0 <= i < |events| ==> events[i].TimerTick?
    ensures Run(s, events).running == s.running
    ensures Run(s, events).countDown == s.countDown
    ensures !HasLiveTimer(s) ==> Run(s, events) == s
    decreases |events|
  {
    if |events| > 0 {
      TicksKeepTimer(Step(s, events[0]), events[1..]);
    }
  }

  /** Running two event sequences one after the other is running their
      concatenation. */
  lemma {:induction false} RunAppend(s: State, first: seq<Event>, second: seq<Event>)
    ensures Run(s, first + second) == Run(Run(s, first), second)
    decreases |first|
  {
    if |first| > 0 {
      assert (first + second)[1..] == first[1..] + second;
      RunAppend(Step(s, first[0]), first[1..], second);
    } else {
      assert first + second == second;
    }
  }

  /** Start 1 h 1 min 1 s: a tick at the full duration shows `01:01:01`. */
  lemma OneHourOneMinuteOneSecondRun()
    ensures var s := Run(Init(), [Click(1, 1, 1), TimerTick(3_661_000)]);
      s.running && s.display == "01:01:01" && s.progress == Ratio(3_661_000, 3_661_000)
  {
    assert TotalMillis(1, 1, 1) == 3_661_000;
    var s1 := Step(Init(), Click(1, 1, 1));
    RunCons(Init(), Click(1, 1, 1), [TimerTick(3_661_000)]);
    RunCons(s1, TimerTick(3_661_000), []);
    DisplayOneHourOneMinuteOneSecond();
  }

  /** Start a positive duration, two ticks, stop: stopped at once with the
      last reading kept, and a late tick of the cancelled run is not delivered. */
  lemma StopAfterTwoTicks(s: State, hr: NonNegLong, min: NonNegLong, sec: NonNegLong,
                          ms1: NonNegLong, ms2: NonNegLong, late: NonNegLong)
    requires !s.running
    requires TotalMillis(hr, min, sec) > 0
    ensures var stopped := Run(s, [Click(hr, min, sec), TimerTick(ms1), TimerTick(ms2), Click(hr, min, sec)]);
      && !stopped.running
      && stopped.display == DisplayText(ms2)
      && stopped.progress == Ratio(ms2, TotalMillis(hr, min, sec))
      && Step(stopped, TimerTick(late)) == stopped
  {
    var start := Click(hr, min, sec);
    var s1 := Step(s, start);
    var s2 := Step(s1, TimerTick(ms1));
    var s3 := Step(s2, TimerTick(ms2));
    var s4 := Step(s3, start);
    assert HasLiveTimer(s1) && s1.countDown.value.durationMillis == TotalMillis(hr, min, sec);
    assert s3.running && s3.countDown == s1.countDown;
    RunCons(s, start, [TimerTick(ms1), TimerTick(ms2), start]);
    RunCons(s1, TimerTick(ms1), [TimerTick(ms2), start]);
    RunCons(s2, TimerTick(ms2), [start]);
    RunCons(s3, start, []);
  }

  /** A finish right after a start ends in the idle view, whatever the
      duration. */
  lemma FinishRightAfterStart(s: State, hr: NonNegLong, min: NonNegLong, sec: NonNegLong)
    requires !s.running
    ensures var r := Run(s, [Click(hr, min, sec), TimerFinish]);
      IdleView(r) && !HasLiveTimer(r)
  {
    var s1 := Step(s, Click(hr, min, sec));
    RunCons(s, Click(hr, min, sec), [TimerFinish]);
    RunCons(s1, TimerFinish, []);
  }

  /** Start with a total of zero or less, such as the default fields
      `0`/`0`/`0`: the click itself ends idle with the view cleared, timer
      events change nothing, and clicking again lands in the same state. */
  lemma NonPositiveTotalFinishesAtOnce(s: State, hr: NonNegLong, min: NonNegLong, sec: NonNegLong, ms: NonNegLong)
    requires !s.running
    requires TotalMillis(hr, min, sec) <= 0
    ensures var r := Step(s, Click(hr, min, sec));
      && IdleView(r) && !HasLiveTimer(r)
      && Step(r, TimerTick(ms)) == r
      && Step(r, TimerFinish) == r
      && Step(r, Click(hr, min, sec)) == r
  {
  }

  /** The default fields give a total of zero. */
  lemma DefaultFieldsTotalZero()
    ensures TotalMillis(0, 0, 0) == 0
  {
  }

  /** Running `e` then `rest` is one step followed by the rest. */
  lemma RunCons(s: State, e: Event, rest: seq<Event>)
    ensures Run(s, [e] + rest) == Run(Step(s, e), rest)
  {
  }
}
