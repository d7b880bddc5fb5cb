/** `TimerModule`: a countdown timer with four states. Times are whole
    milliseconds; the wall clock is the parameter `now`. The percentage is the
    exact ratio the program converts to a float. */
module Timer {
  import opened Common

  datatype TimerState = Stopped | Running | Paused | Finished
  datatype FillType = Complete | Sides
  datatype TailType = Fill | Short | Long

  datatype TimerConfig = TimerConfig(fillType: FillType, fillColor: LedColor, tailType: TailType)

  /** `TimerConfig()`: the whole strip, white at full opacity, short tail. */
  function DefaultConfig(): TimerConfig
  {
    TimerConfig(Complete, Full, Short)
  }

  datatype Timer = Timer(state: TimerState, duration: int, timeLeft: int, percentage: real,
                         timerStarted: Option<int>, config: TimerConfig)

  /** The timer before anything is started: stopped, one minute. */
  function InitialTimer(): Timer
  {
    Timer(Stopped, 60_000, 60_000, 0.0, None, DefaultConfig())
  }

  /** `startTimer`: whatever the state, run afresh for `duration`. */
  function Start(duration: int, config: TimerConfig, now: int): (r: Timer)
    ensures r.state == Running && Elapsed(r, now) == 0
    ensures duration >= 0 ==> Tick(r, now) == r
  {
    Timer(Running, duration, duration, 0.0, Some(now), config)
  }

  /** `pauseTimer`: only a running timer pauses; it forgets its start. */
  function Pause(t: Timer): (r: Timer)
    ensures r.state != Running && (t.state == Running <==> r.state == Paused && t.state != Paused)
    ensures r.timeLeft == t.timeLeft && r.percentage == t.percentage && r.duration == t.duration
  {
    if t.state == Running then t.(state := Paused, timerStarted := None) else t
  }

  /** `resumeTimer`: only a paused timer resumes; its start is set back by the
      time already used, `duration - timeLeft`. */
  function Resume(t: Timer, now: int): (r: Timer)
    ensures r.state != Paused
    ensures r.timeLeft == t.timeLeft && r.percentage == t.percentage && r.duration == t.duration
    ensures t.state == Paused ==> r.state == Running && Elapsed(r, now) == t.duration - t.timeLeft
  {
    if t.state == Paused then t.(state := Running, timerStarted := Some(now - (t.duration - t.timeLeft)))
    else t
  }

  /** `stopTimer`: whatever the state, stop and forget the start. */
  function Stop(t: Timer): (r: Timer)
    ensures r.state == Stopped && r.duration == t.duration && r.timeLeft == t.timeLeft
    ensures Pause(r) == r && forall now :: Resume(r, now) == r && Tick(r, now) == r
  {
    t.(state := Stopped, timerStarted := None)
  }

  /** `now - (timerStarted ?: now)` */
  function Elapsed(t: Timer, now: int): int
  {
    now - (if t.timerStarted.Some? then t.timerStarted.value else now)
  }

  /** The share of `duration` that `passed` is, 0 for a zero duration. */
  function Fraction(passed: int, duration: int): real
  {
    if duration == 0 then 0.0 else passed as real / duration as real
  }

  /** One pass of the timer job's loop body: a running timer either finishes
      (time left would be negative) or records time left and percentage. */
  function Tick(t: Timer, now: int): (r: Timer)
    ensures r.duration == t.duration && r.config == t.config && r.timerStarted == t.timerStarted
    ensures t.state != Running ==> r == t
    ensures r.state == t.state || r.state == Finished
    ensures r.state == Running ==> r.timeLeft == t.duration - Elapsed(t, now) >= 0
  {
    if t.state != Running then t
    else
      var passed := Elapsed(t, now);
      var left := t.duration - passed;
      if left < 0 then t.(state := Finished)
      else t.(timeLeft := left, percentage := Fraction(passed, t.duration))
  }

  /** The ticks at the clock readings `nows`, in order. */
  function TickAll(t: Timer, nows: seq<int>): (r: Timer)
    ensures r.duration == t.duration && r.config == t.config && r.timerStarted == t.timerStarted
    ensures t.state != Running ==> r == t
  {
    if nows == [] then t else Tick(TickAll(t, nows[..|nows| - 1]), nows[|nows| - 1])
  }

  /** What every reachable timer satisfies at clock `now`: time left lies
      within the duration, the percentage is the used share of it, a running
      timer started no later than `now`, and a paused or stopped one has no
      start. */
  ghost predicate Consistent(t: Timer, now: int)
  {
    0 <= t.timeLeft <= t.duration &&
    t.percentage == Fraction(t.duration - t.timeLeft, t.duration) &&
    (t.state == Running ==> t.timerStarted.Some? && t.timerStarted.value <= now) &&
    (t.state == Paused || t.state == Stopped ==> t.timerStarted.None?)
  }

  lemma InitialConsistent(now: int)
    ensures Consistent(InitialTimer(), now)
  {
  }

  /** A start with a duration that is not negative gives a consistent timer. */
  lemma StartConsistent(duration: int, config: TimerConfig, now: int, later: int)
    requires duration >= 0 && now <= later
    ensures Consistent(Start(duration, config, now), later)
  {
  }

  /** Each transition keeps a timer consistent as the clock moves on. */
  lemma TransitionsConsistent(t: Timer, now: int, later: int)
    requires Consistent(t, now) && now <= later
    ensures Consistent(Pause(t), later)
    ensures Consistent(Resume(t, later), later)
    ensures Consistent(Stop(t), later)
    ensures Consistent(Tick(t, later), later)
  {
  }

  /** The percentage of a consistent timer is between 0 and 1. */
  lemma PercentageBounds(t: Timer, now: int)
    requires Consistent(t, now)
    ensures 0.0 <= t.percentage <= 1.0
  {
    if t.duration != 0 {
      var used := (t.duration - t.timeLeft) as real;
      var d := t.duration as real;
      assert t.percentage == used / d;
      assert used / d <= d / d;
    }
  }

  /** A tick finishes the timer exactly when it is running and more than its
      duration has passed; at exactly the duration it stays running at 100%,
      with no time left. */
  lemma TickFinishes(t: Timer, now: int)
    ensures Tick(t, now).state == Finished <==>
              t.state == Finished || (t.state == Running && Elapsed(t, now) > t.duration)
    ensures t.state == Running && Elapsed(t, now) == t.duration && t.duration > 0 ==>
              Tick(t, now).state == Running && Tick(t, now).timeLeft == 0 && Tick(t, now).percentage == 1.0
    ensures Tick(t, now).state == Finished && t.state == Running ==>
              Tick(t, now) == t.(state := Finished)
  {
  }

  /** Across a pause, no time is lost or gained: the first tick after resuming
      at `r` counts down from the time left when the timer paused. */
  lemma NoTimeLostAcrossPause(t: Timer, r: int, later: int)
    requires t.state == Running
    ensures var after := Tick(Resume(Pause(t), r), later);
            (after.state == Running <==> t.timeLeft - (later - r) >= 0) &&
            (after.state == Running ==> after.timeLeft == t.timeLeft - (later - r))
  {
  }

  /** Pausing twice is pausing once; resuming is undone by pausing. */
  lemma PauseResumeRoundTrip(t: Timer, now: int)
    ensures Pause(Pause(t)) == Pause(t)
    ensures t.state == Paused && t.timerStarted.None? ==> Pause(Resume(t, now)) == t
  {
  }

  /** Clock readings that never go back, starting at or after `now`. */
  predicate Monotone(now: int, nows: seq<int>)
  {
    (forall i :: 0 <= i < |nows| ==> now <= nows[i]) &&
    forall i, j :: 0 <= i < j < |nows| ==> nows[i] <= nows[j]
  }

  function LastReading(now: int, nows: seq<int>): int
  {
    if nows == [] then now else nows[|nows| - 1]
  }

  /** Any run of ticks at a clock that never goes back keeps the timer
      consistent, and never changes its duration or configuration. */
  lemma {:induction false} TickAllConsistent(t: Timer, now: int, nows: seq<int>)
    requires Consistent(t, now) && Monotone(now, nows)
    ensures Consistent(TickAll(t, nows), LastReading(now, nows))
    ensures TickAll(t, nows).duration == t.duration && TickAll(t, nows).config == t.config
  {
    if nows != [] {
      var init := nows[..|nows| - 1];
      TickAllConsistent(t, now, init);
      TransitionsConsistent(TickAll(t, init), LastReading(now, init), nows[|nows| - 1]);
    }
  }

  /** A running timer ticked at some reading beyond its end has finished by
      the end of the run, whatever the other readings are. */
  lemma {:induction false} TickAllFinishes(t: Timer, nows: seq<int>, k: int)
    requires t.state == Running
    requires 0 <= k < |nows| && Elapsed(t, nows[k]) > t.duration
    ensures TickAll(t, nows).state == Finished
  {
    var init := nows[..|nows| - 1];
    var last := nows[|nows| - 1];
    var before := TickAll(t, init);
    TickAllStarted(t, init);
    if k == |nows| - 1 {
      assert Elapsed(before, last) >= Elapsed(t, last) || before.state != Running;
    } else {
      assert init[k] == nows[k];
      TickAllFinishes(t, init, k);
    }
  }

  /** Ticks do not move the start of a running timer, and a timer that has
      stopped running never runs again. */
  lemma {:induction false} TickAllStarted(t: Timer, nows: seq<int>)
    requires t.state == Running
    ensures TickAll(t, nows).state == Running || TickAll(t, nows).state == Finished
    ensures TickAll(t, nows).state == Running ==> TickAll(t, nows).timerStarted == t.timerStarted
    ensures TickAll(t, nows).duration == t.duration
  {
    if nows != [] {
      TickAllStarted(t, nows[..|nows| - 1]);
    }
  }

  /** The used share of a duration grows with the time used. */
  lemma FractionMonotone(p: int, q: int, d: int)
    requires 0 <= p <= q && 0 <= d
    ensures Fraction(p, d) <= Fraction(q, d)
  {
    if d != 0 {
      var dr := d as real;
      assert (q as real) / dr - (p as real) / dr == (q - p) as real / dr;
      assert (q - p) as real / dr >= 0.0;
    }
  }

  /** While a timer runs, a later tick never shows a lower percentage than an
      earlier one. */
  lemma TickPercentageMonotone(t: Timer, a: int, b: int)
    requires t.state == Running && t.timerStarted.Some? && t.timerStarted.value <= a <= b
    ensures Tick(t, a).state == Running && Tick(Tick(t, a), b).state == Running ==>
              Tick(t, a).percentage <= Tick(Tick(t, a), b).percentage
  {
    var s := t.timerStarted.value;
    if Tick(t, a).state == Running && Tick(Tick(t, a), b).state == Running {
      FractionMonotone(a - s, b - s, t.duration);
    }
  }

  /** After the first tick of a run, a running timer shows the share of its
      duration used by the last reading. */
  lemma {:induction false} TickAllRunningShare(t: Timer, nows: seq<int>, k: int)
    requires t.state == Running && t.timerStarted.Some?
    requires 1 <= k <= |nows|
    ensures var r := TickAll(t, nows[..k]);
            r.state == Running ==>
              r.timerStarted == t.timerStarted &&
              r.percentage == Fraction(nows[k - 1] - t.timerStarted.value, t.duration) &&
              nows[k - 1] - t.timerStarted.value <= t.duration
  {
    var init := nows[..k][..k - 1];
    assert init == nows[..k - 1];
    TickAllStarted(t, init);
  }

  /** Over readings that never go back, from the first tick on, the shown
      percentage never decreases, and once the timer has finished it never
      changes again. */
  lemma {:induction false} TickAllPercentageMonotone(t: Timer, nows: seq<int>, i: int, j: int)
    requires t.state == Running && t.timerStarted.Some? && Monotone(t.timerStarted.value, nows)
    requires 1 <= i <= j <= |nows|
    ensures TickAll(t, nows[..i]).percentage <= TickAll(t, nows[..j]).percentage
    ensures TickAll(t, nows[..i]).state == Finished ==> TickAll(t, nows[..j]) == TickAll(t, nows[..i])
    decreases j - i
  {
    if i < j {
      var before := TickAll(t, nows[..i]);
      assert nows[..i + 1][..i] == nows[..i];
      assert TickAll(t, nows[..i + 1]) == Tick(before, nows[i]);
      TickAllStarted(t, nows[..i]);
      if before.state == Running {
        TickAllRunningShare(t, nows, i);
        if Tick(before, nows[i]).state == Running {
          TickAllRunningShare(t, nows, i + 1);
          FractionMonotone(nows[i - 1] - t.timerStarted.value, nows[i] - t.timerStarted.value, t.duration);
        }
      }
      TickAllPercentageMonotone(t, nows, i + 1, j);
    }
  }

  /** The timer module: the current timer, updated by the controls and by the
      timer job's loop. */
  class TimerModule {
    var timer: Timer

    constructor ()
      ensures timer == InitialTimer()
    {
      timer := InitialTimer();
    }

    method StartTimer(duration: int, config: TimerConfig, now: int)
      modifies this
      ensures timer == Start(duration, config, now)
    {
      timer := Start(duration, config, now);
    }

    method PauseTimer()
      modifies this
      ensures timer == Pause(old(timer))
    {
      if timer.state == Running {
        timer := timer.(state := Paused, timerStarted := None);
      }
    }

    method ResumeTimer(now: int)
      modifies this
      ensures timer == Resume(old(timer), now)
    {
      var state := timer.state;
      if state == Paused {
        timer := timer.(state := Running, timerStarted := Some(now - (timer.duration - timer.timeLeft)));
      }
    }

    method StopTimer()
      modifies this
      ensures timer == Stop(old(timer))
    {
      timer := timer.(state := Stopped, timerStarted := None);
    }

    /** The timer job: while the timer runs, tick at the next clock reading.
        It ends when the timer no longer runs or the readings run out;
        `ticks` readings were used, each while the timer was running. */
    method RunTimerJob(nows: seq<int>) returns (ticks: nat)
      modifies this
      ensures ticks <= |nows|
      ensures timer == TickAll(old(timer), nows[..ticks])
      ensures forall j :: 0 <= j < ticks ==> TickAll(old(timer), nows[..j]).state == Running
      ensures ticks < |nows| ==> timer.state != Running
    {
      ghost var t0 := timer;
      ticks := 0;
      while ticks < |nows| && timer.state == Running
        invariant ticks <= |nows|
        invariant timer == TickAll(t0, nows[..ticks])
        invariant forall j :: 0 <= j < ticks ==> TickAll(t0, nows[..j]).state == Running
      {
        assert nows[..ticks + 1][..ticks] == nows[..ticks];
        timer := Tick(timer, nows[ticks]);
        ticks := ticks + 1;
      }
    }
  }
}
