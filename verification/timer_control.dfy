/** `TimerViewModel`: the duration and configuration being entered, and the
    buttons that start, pause, resume, reset and stop the timer module. */
module TimerControl {
  import opened Common
  import opened Timer

  /** `setTimerDuration` stores a negative duration as zero. */
  function ClampDuration(duration: int): (r: int)
    ensures r >= 0
    ensures duration >= 0 ==> r == duration
    ensures duration < 0 ==> r == 0
  {
    if duration < 0 then 0 else duration
  }

  /** The timer after the start/pause button: a running timer pauses, a paused
      one resumes, and a stopped or finished one starts with the input. */
  function StartPause(t: Timer, inputDuration: int, inputConfig: TimerConfig, now: int): Timer
  {
    match t.state
    case Running => Pause(t)
    case Paused => Resume(t, now)
    case _ => Start(inputDuration, inputConfig, now)
  }

  /** The timer after the reset button: started afresh with its own duration
      and configuration, whatever its state. */
  function Reset(t: Timer, now: int): Timer
  {
    Start(t.duration, t.config, now)
  }

  /** The start/pause button moves the timer along its cycle: running to
      paused, paused to running, anything else to running from the input,
      keeping the time left across a pause. */
  lemma StartPauseSpec(t: Timer, inputDuration: int, inputConfig: TimerConfig, now: int)
    ensures var r := StartPause(t, inputDuration, inputConfig, now);
            (r.state == Paused <==> t.state == Running) &&
            (r.state == Running <==> t.state != Running) &&
            (t.state == Running || t.state == Paused ==>
               r.duration == t.duration && r.timeLeft == t.timeLeft && r.config == t.config) &&
            (t.state == Stopped || t.state == Finished ==>
               r.duration == inputDuration && r.timeLeft == inputDuration && r.config == inputConfig)
  {
  }

  /** With an input that is not negative, the start/pause button keeps the
      timer consistent. */
  lemma StartPauseConsistent(t: Timer, inputDuration: int, inputConfig: TimerConfig, now: int, later: int)
    requires Consistent(t, now) && now <= later && inputDuration >= 0
    ensures Consistent(StartPause(t, inputDuration, inputConfig, later), later)
  {
    TransitionsConsistent(t, now, later);
    StartConsistent(inputDuration, inputConfig, later, later);
  }

  /** A reset restarts a consistent timer with its whole duration, so the
      result is consistent too. */
  lemma ResetConsistent(t: Timer, now: int, later: int)
    requires Consistent(t, now) && now <= later
    ensures Consistent(Reset(t, later), later)
    ensures Reset(t, later).state == Running && Reset(t, later).timeLeft == t.duration
  {
  }

  class TimerViewModel {
    const timerModule: TimerModule
    /** `_inputDuration`, in milliseconds. */
    var inputDuration: int
    /** `_inputConfig` */
    var inputConfig: TimerConfig

    ghost predicate Valid()
      reads this
    {
      inputDuration >= 0
    }

    /** Input starts at zero with the default configuration. */
    constructor (timerModule: TimerModule)
      ensures Valid() && this.timerModule == timerModule
      ensures inputDuration == 0 && inputConfig == DefaultConfig()
    {
      this.timerModule := timerModule;
      inputDuration := 0;
      inputConfig := DefaultConfig();
    }

    method SetTimerDuration(duration: int)
      modifies this
      ensures Valid()
      ensures inputDuration == ClampDuration(duration) && inputConfig == old(inputConfig)
    {
      inputDuration := if duration < 0 then 0 else duration;
    }

    method SetTimerColor(color: LedColor)
      modifies this
      ensures inputConfig == old(inputConfig).(fillColor := color) && inputDuration == old(inputDuration)
    {
      inputConfig := inputConfig.(fillColor := color);
    }

    method SetTimerFillType(fillType: FillType)
      modifies this
      ensures inputConfig == old(inputConfig).(fillType := fillType) && inputDuration == old(inputDuration)
    {
      inputConfig := inputConfig.(fillType := fillType);
    }

    method SetTimerTail(tailType: TailType)
      modifies this
      ensures inputConfig == old(inputConfig).(tailType := tailType) && inputDuration == old(inputDuration)
    {
      inputConfig := inputConfig.(tailType := tailType);
    }

    /** `startPauseTimer`: dispatch on the module's current state. */
    method StartPauseTimer(now: int)
      modifies timerModule
      ensures timerModule.timer == StartPause(old(timerModule.timer), inputDuration, inputConfig, now)
    {
      match timerModule.timer.state {
        case Running => timerModule.PauseTimer();
        case Paused => timerModule.ResumeTimer(now);
        case _ => timerModule.StartTimer(inputDuration, inputConfig, now);
      }
    }

    /** `resetTimer` */
    method ResetTimer(now: int)
      modifies timerModule
      ensures timerModule.timer == Reset(old(timerModule.timer), now)
    {
      var timer := timerModule.timer;
      timerModule.StartTimer(timer.duration, timer.config, now);
    }

    /** `stopTimer`: forwarded to the module. */
    method StopTimer()
      modifies timerModule
      ensures timerModule.timer == Stop(old(timerModule.timer))
    {
      timerModule.StopTimer();
    }
  }
}
