/**
 The download-detection state machine of the network monitor, as pure values.

 One tick of the monitor looks at how many bytes were received since the
 previous tick, turns that into a rate over the fixed check interval, and
 advances a two-variable state: whether a download is in progress, and when
 (if ever) the current cooldown timer was started. A tick that finds the
 cooldown over reports `DownloadCompleted`, the only event on which the
 machine would be shut down.
 */
module StateMachine {

  /** Seconds between two samples of the network counters. */
  const CheckInterval: int := 2

  /** Bytes per second above which the host counts as downloading (1 MiB/s). */
  const HighUsageThreshold: int := 1 * 1024 * 1024

  /** Seconds the rate must stay low before a download counts as complete. */
  const CooldownPeriod: int := 5 * 60

  datatype Option<T> = None | Some(value: T)

  /** `cooldownStart` is the time (in whole seconds) at which the cooldown timer started. */
  datatype MonitorState = MonitorState(downloading: bool, cooldownStart: Option<int>)

  /** The state the monitor starts in: not downloading, no timer. */
  const Initial: MonitorState := MonitorState(false, None)

  /** Which branch of the tick was taken; each one is logged differently. */
  datatype Event =
    | EnteredDownloading   // idle, rate above the threshold
    | CooldownCanceled     // downloading with a timer, rate above the threshold
    | StillDownloading     // downloading without a timer, rate above the threshold
    | CooldownStarted      // downloading without a timer, rate below the threshold
    | StillCoolingDown     // timer running, rate below the threshold, cooldown not over
    | DownloadCompleted    // timer running, rate below the threshold, cooldown over: shut down
    | StaleTimerReset      // idle with a timer: the defensive reset
    | StillIdle            // idle, rate below the threshold

  /** One tick's inputs: the growth of the received-bytes counter and the current time. */
  datatype TickInput = TickInput(recvDiff: int, now: int)

  datatype StepResult = StepResult(state: MonitorState, event: Event)

  /** A running cooldown timer only ever exists while downloading. */
  predicate Consistent(s: MonitorState) {
    s.cooldownStart.Some? ==> s.downloading
  }

  /** Bytes per second over one check interval (a true division, as the source's `/`). */
  function Rate(diff: int): (rate: real) {
    diff as real / CheckInterval as real
  }

  /**
   The strict threshold test on the download rate. Because the interval is a
   positive constant it is the same as comparing the raw counter growth with
   threshold * interval; a rate exactly at the threshold is not above it, and
   a negative growth (a counter reset) is below it.
   */
  function AboveThreshold(recvDiff: int): (above: bool)
    ensures above <==> recvDiff > HighUsageThreshold * CheckInterval
  {
    Rate(recvDiff) > HighUsageThreshold as real
  }

  /** One tick of the state machine. */
  function Step(s: MonitorState, t: TickInput): (r: StepResult)
    ensures Consistent(s) ==> Consistent(r.state)
    ensures r.event == StaleTimerReset ==> !Consistent(s)
  {
    if AboveThreshold(t.recvDiff) then
      if !s.downloading then
        StepResult(MonitorState(true, None), EnteredDownloading)
      else if s.cooldownStart.Some? then
        StepResult(MonitorState(true, None), CooldownCanceled)
      else
        StepResult(s, StillDownloading)
    else if s.downloading then
      match s.cooldownStart
      case None =>
        StepResult(MonitorState(true, Some(t.now)), CooldownStarted)
      case Some(start) =>
        if t.now - start >= CooldownPeriod then
          StepResult(Initial, DownloadCompleted)
        else
          StepResult(s, StillCoolingDown)
    else if s.cooldownStart.Some? then
      StepResult(MonitorState(false, None), StaleTimerReset)
    else
      StepResult(s, StillIdle)
  }

  /** The shutdown fires exactly when a timer runs, the rate is low and the cooldown is over. */
  lemma FiresIff(s: MonitorState, t: TickInput)
    requires Consistent(s)
    ensures Step(s, t).event == DownloadCompleted <==>
              (s.cooldownStart.Some? && !AboveThreshold(t.recvDiff) &&
               t.now - s.cooldownStart.value >= CooldownPeriod)
  {
  }

  /** From idle, a busy tick starts a download with no timer. */
  lemma IdleAboveStartsDownload(s: MonitorState, t: TickInput)
    requires !s.downloading && AboveThreshold(t.recvDiff)
    ensures Step(s, t) == StepResult(MonitorState(true, None), EnteredDownloading)
  {
  }

  /** A busy tick during cooldown cancels the timer, however long the timer has run. */
  lemma BusyTickCancelsCooldown(start: int, t: TickInput)
    requires AboveThreshold(t.recvDiff)
    ensures Step(MonitorState(true, Some(start)), t) ==
              StepResult(MonitorState(true, None), CooldownCanceled)
  {
  }

  /** A busy tick while downloading without a timer changes nothing. */
  lemma BusyTickWhileDownloading(t: TickInput)
    requires AboveThreshold(t.recvDiff)
    ensures Step(MonitorState(true, None), t) ==
              StepResult(MonitorState(true, None), StillDownloading)
  {
  }

  /** The first quiet tick of a download starts the timer at that tick's time. */
  lemma QuietTickStartsCooldown(t: TickInput)
    requires !AboveThreshold(t.recvDiff)
    ensures Step(MonitorState(true, None), t) ==
              StepResult(MonitorState(true, Some(t.now)), CooldownStarted)
  {
  }

  /** A quiet tick before the cooldown is over leaves the state as it was. */
  lemma QuietTickKeepsCooling(start: int, t: TickInput)
    requires !AboveThreshold(t.recvDiff) && t.now - start < CooldownPeriod
    ensures Step(MonitorState(true, Some(start)), t) ==
              StepResult(MonitorState(true, Some(start)), StillCoolingDown)
  {
  }

  /** A quiet tick once the cooldown is over fires and resets to the initial state. */
  lemma QuietTickCompletes(start: int, t: TickInput)
    requires !AboveThreshold(t.recvDiff) && t.now - start >= CooldownPeriod
    ensures Step(MonitorState(true, Some(start)), t) == StepResult(Initial, DownloadCompleted)
  {
  }

  /** In a consistent idle state a quiet tick changes nothing. */
  lemma QuietTickWhileIdle(s: MonitorState, t: TickInput)
    requires Consistent(s) && !s.downloading && !AboveThreshold(t.recvDiff)
    ensures Step(s, t) == StepResult(Initial, StillIdle)
  {
  }
}
