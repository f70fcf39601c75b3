/**
 The polling loop's mutable state: the download flag, the cooldown timer and
 the counter readings of the previous tick, all updated in place on every tick.
 */
module Monitor {
  import opened StateMachine
  import opened Runs

  class DownloadMonitor {
    var downloading: bool
    var cooldownStart: Option<int>
    var oldBytesSent: int
    var oldBytesRecv: int

    /** The state-machine part of the fields. */
    function State(): MonitorState
      reads this
    {
      MonitorState(downloading, cooldownStart)
    }

    /** A running timer implies a download in progress. */
    ghost predicate Valid()
      reads this
    {
      Consistent(State())
    }

    /** Starts idle, with the counters as first read. */
    constructor (initialSent: int, initialRecv: int)
      ensures Valid() && State() == Initial
      ensures oldBytesSent == initialSent && oldBytesRecv == initialRecv
    {
      downloading := false;
      cooldownStart := None;
      oldBytesSent := initialSent;
      oldBytesRecv := initialRecv;
    }

    /**
     One pass of the loop body: difference the counters, keep the new
     readings for the next pass, and advance the state machine. Only the
     received bytes reach the state; the sent bytes are merely remembered.
     */
    method Tick(newSent: int, newRecv: int, now: int) returns (event: Event)
      modifies this
      ensures StepResult(State(), event) ==
                Step(old(State()), TickInput(newRecv - old(oldBytesRecv), now))
      ensures oldBytesSent == newSent && oldBytesRecv == newRecv
      ensures old(Valid()) ==> Valid()
    {
      var bytesSentDiff := newSent - oldBytesSent;
      var bytesRecvDiff := newRecv - oldBytesRecv;
      var downloadRate := Rate(bytesRecvDiff);
      var uploadRate := Rate(bytesSentDiff);
      oldBytesSent := newSent;
      oldBytesRecv := newRecv;

      if downloadRate > HighUsageThreshold as real {
        if !downloading {
          downloading := true;
          cooldownStart := None;
          event := EnteredDownloading;
        } else if cooldownStart.Some? {
          cooldownStart := None;
          event := CooldownCanceled;
        } else {
          event := StillDownloading;
        }
      } else if downloading {
        if cooldownStart.None? {
          cooldownStart := Some(now);
          event := CooldownStarted;
        } else {
          var elapsed := now - cooldownStart.value;
          if elapsed >= CooldownPeriod {
            downloading := false;
            cooldownStart := None;
            event := DownloadCompleted;
          } else {
            event := StillCoolingDown;
          }
        }
      } else if cooldownStart.Some? {
        cooldownStart := None;
        event := StaleTimerReset;
      } else {
        event := StillIdle;
      }
    }

    /**
     The polling loop over a finite sequence of readings: the events and the
     final state are those of the pure run over the tick inputs the readings
     give, and the last reading is kept for the next interval.
     */
    method Watch(readings: seq<Reading>) returns (events: seq<Event>)
      modifies this
      ensures RunResult(State(), events) == Run(old(State()), Ticks(old(oldBytesRecv), readings))
      ensures oldBytesSent == if readings == [] then old(oldBytesSent) else readings[|readings| - 1].bytesSent
      ensures oldBytesRecv == if readings == [] then old(oldBytesRecv) else readings[|readings| - 1].bytesRecv
      ensures old(Valid()) ==> Valid()
    {
      ghost var whole := Resume([], State(), oldBytesRecv, readings);
      assert readings[0..] == readings;
      events := [];
      var i := 0;
      while i < |readings|
        invariant 0 <= i <= |readings|
        invariant Resume(events, State(), oldBytesRecv, readings[i..]) == whole
        invariant oldBytesSent == if i == 0 then old(oldBytesSent) else readings[i - 1].bytesSent
        invariant oldBytesRecv == if i == 0 then old(oldBytesRecv) else readings[i - 1].bytesRecv
        invariant old(Valid()) ==> Valid()
      {
        ghost var before, lastRecv := State(), oldBytesRecv;
        var r := readings[i];
        var event := Tick(r.bytesSent, r.bytesRecv, r.now);
        ResumeStep(events, before, lastRecv, readings, i, State(), event);
        events := events + [event];
        i := i + 1;
      }
      assert readings[i..] == [] && events + [] == events;
      assert [] + Run(old(State()), Ticks(old(oldBytesRecv), readings)).events ==
               Run(old(State()), Ticks(old(oldBytesRecv), readings)).events;
    }
  }
}
