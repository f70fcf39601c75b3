/**
 Finite runs of the polling loop: the cumulative counter readings taken at
 each tick, the per-tick inputs derived from them, and the sequence of
 events the state machine produces.
 */
module Runs {
  import opened StateMachine

  /** What one tick reads: the cumulative byte counters and the current time. */
  datatype Reading = Reading(bytesSent: int, bytesRecv: int, now: int)

  datatype RunResult = RunResult(state: MonitorState, events: seq<Event>)

  /**
   The tick inputs of a run: each tick's received-bytes growth is its reading
   minus the previous reading (or `lastRecv` for the first), with no clamping.
   */
  function Ticks(lastRecv: int, readings: seq<Reading>): (ticks: seq<TickInput>)
    ensures |ticks| == |readings|
    ensures forall k :: 0 <= k < |ticks| ==> ticks[k].now == readings[k].now
    decreases |readings|
  {
    if readings == [] then []
    else
      [TickInput(readings[0].bytesRecv - lastRecv, readings[0].now)]
      + Ticks(readings[0].bytesRecv, readings[1..])
  }

  /** The final state and the event of every tick, from state `s`. */
  function Run(s: MonitorState, ticks: seq<TickInput>): (r: RunResult)
    ensures |r.events| == |ticks|
    ensures Consistent(s) ==> Consistent(r.state)
    decreases |ticks|
  {
    if ticks == [] then RunResult(s, [])
    else
      var first := Step(s, ticks[0]);
      var rest := Run(first.state, ticks[1..]);
      RunResult(rest.state, [first.event] + rest.events)
  }

  /** The events `done` so far, followed by the run over the remaining readings. */
  function Resume(done: seq<Event>, s: MonitorState, lastRecv: int, readings: seq<Reading>): (r: RunResult) {
    var rest := Run(s, Ticks(lastRecv, readings));
    RunResult(rest.state, done + rest.events)
  }

  /** Consuming reading `i` with one step moves the run forward by one reading. */
  lemma ResumeStep(done: seq<Event>, s: MonitorState, lastRecv: int, readings: seq<Reading>, i: nat,
                   next: MonitorState, event: Event)
    requires i < |readings|
    requires StepResult(next, event) == Step(s, TickInput(readings[i].bytesRecv - lastRecv, readings[i].now))
    ensures Resume(done, s, lastRecv, readings[i..]) ==
              Resume(done + [event], next, readings[i].bytesRecv, readings[i + 1..])
  {
  }

  /** Number of ticks on which the shutdown fired. */
  function Completions(events: seq<Event>): (n: nat)
    decreases |events|
  {
    if events == [] then 0
    else (if events[0] == DownloadCompleted then 1 else 0) + Completions(events[1..])
  }

  predicate AllQuiet(ticks: seq<TickInput>) {
    forall k :: 0 <= k < |ticks| ==> !AboveThreshold(ticks[k].recvDiff)
  }

  /** The tick comes at least the cooldown period after the timer's start. */
  predicate Due(start: int, t: TickInput) {
    t.now - start >= CooldownPeriod
  }

  /** No tick before index `j` is due. */
  predicate NoneDueBefore(start: int, ticks: seq<TickInput>, j: int)
    requires j <= |ticks|
  {
    forall i :: 0 <= i < j ==> !Due(start, ticks[i])
  }

  /** Each tick's rate depends only on its own interval: the two readings around it. */
  lemma {:induction false} TickDeltaAt(lastRecv: int, readings: seq<Reading>, k: nat)
    requires k < |readings|
    ensures Ticks(lastRecv, readings)[k].recvDiff ==
              readings[k].bytesRecv - (if k == 0 then lastRecv else readings[k - 1].bytesRecv)
    decreases |readings|
  {
    if k > 0 {
      TickDeltaAt(readings[0].bytesRecv, readings[1..], k - 1);
    }
  }

  /** The sent-bytes counter never influences the tick inputs, hence never the state. */
  lemma {:induction false} UploadIgnored(lastRecv: int, a: seq<Reading>, b: seq<Reading>)
    requires |a| == |b|
    requires forall k :: 0 <= k < |a| ==> a[k].bytesRecv == b[k].bytesRecv && a[k].now == b[k].now
    ensures Ticks(lastRecv, a) == Ticks(lastRecv, b)
    decreases |a|
  {
    if a != [] {
      UploadIgnored(a[0].bytesRecv, a[1..], b[1..]);
    }
  }

  /** Running two stretches of ticks in turn is running them together. */
  lemma {:induction false} RunAppend(s: MonitorState, xs: seq<TickInput>, ys: seq<TickInput>)
    ensures Run(s, xs + ys) ==
              var first := Run(s, xs);
              var second := Run(first.state, ys);
              RunResult(second.state, first.events + second.events)
    decreases |xs|
  {
    if xs == [] {
      assert xs + ys == ys;
    } else {
      assert (xs + ys)[1..] == xs[1..] + ys;
      RunAppend(Step(s, xs[0]).state, xs[1..], ys);
    }
  }

  /** From a consistent state the defensive stale-timer reset is never taken. */
  lemma {:induction false} NoStaleTimerReset(s: MonitorState, ticks: seq<TickInput>)
    requires Consistent(s)
    ensures StaleTimerReset !in Run(s, ticks).events
    decreases |ticks|
  {
    if ticks != [] {
      NoStaleTimerReset(Step(s, ticks[0]).state, ticks[1..]);
    }
  }

  /** Quiet ticks leave a consistent idle monitor idle, and it never fires. */
  lemma {:induction false} QuietIdleStaysIdle(s: MonitorState, ticks: seq<TickInput>)
    requires Consistent(s) && !s.downloading && AllQuiet(ticks)
    ensures Run(s, ticks).state == Initial
    ensures forall k :: 0 <= k < |ticks| ==> Run(s, ticks).events[k] == StillIdle
    ensures Completions(Run(s, ticks).events) == 0
    decreases |ticks|
  {
    if ticks == [] {
      assert s == Initial;
    } else {
      QuietIdleStaysIdle(Initial, ticks[1..]);
    }
  }

  /**
   Repeated quiet ticks before the cooldown is over are idempotent: the timer
   keeps its start and nothing fires.
   */
  lemma {:induction false} CoolingIdempotent(start: int, ticks: seq<TickInput>)
    requires AllQuiet(ticks)
    requires forall k :: 0 <= k < |ticks| ==> ticks[k].now - start < CooldownPeriod
    ensures Run(MonitorState(true, Some(start)), ticks).state == MonitorState(true, Some(start))
    ensures forall k :: 0 <= k < |ticks| ==>
              Run(MonitorState(true, Some(start)), ticks).events[k] == StillCoolingDown
    decreases |ticks|
  {
    if ticks != [] {
      CoolingIdempotent(start, ticks[1..]);
    }
  }

  /**
   Once the timer runs, a stretch of quiet ticks fires exactly once if some
   tick comes at least the cooldown period after the start, and never
   otherwise; after firing the monitor is back in its initial state.
   */
  lemma {:induction false} QuietCooldownFiresOnce(start: int, ticks: seq<TickInput>)
    requires AllQuiet(ticks)
    ensures var r := Run(MonitorState(true, Some(start)), ticks);
            var due := exists k :: 0 <= k < |ticks| && ticks[k].now - start >= CooldownPeriod;
            && Completions(r.events) == (if due then 1 else 0)
            && r.state == (if due then Initial else MonitorState(true, Some(start)))
    decreases |ticks|
  {
    if ticks != [] {
      if ticks[0].now - start >= CooldownPeriod {
        QuietIdleStaysIdle(Initial, ticks[1..]);
      } else {
        QuietCooldownFiresOnce(start, ticks[1..]);
        if exists k :: 0 <= k < |ticks| && ticks[k].now - start >= CooldownPeriod {
          var k :| 0 <= k < |ticks| && ticks[k].now - start >= CooldownPeriod;
          assert ticks[1..][k - 1] == ticks[k];
        }
      }
    }
  }

  /**
   Tick by tick, with the timer running and only quiet ticks: every tick
   before the first due one reports waiting, the first due tick fires, and
   every later tick finds the monitor idle.
   */
  lemma {:induction false} QuietCooldownEventAt(start: int, ticks: seq<TickInput>, j: nat)
    requires AllQuiet(ticks) && j < |ticks|
    ensures Run(MonitorState(true, Some(start)), ticks).events[j] ==
              if !NoneDueBefore(start, ticks, j) then StillIdle
              else if Due(start, ticks[j]) then DownloadCompleted
              else StillCoolingDown
    decreases j
  {
    var rest := ticks[1..];
    if j > 0 {
      if Due(start, ticks[0]) {
        QuietIdleStaysIdle(Initial, rest);
        assert !NoneDueBefore(start, ticks, j);
      } else {
        QuietCooldownEventAt(start, rest, j - 1);
        assert NoneDueBefore(start, ticks, j) <==> NoneDueBefore(start, rest, j - 1) by {
          forall i | 0 < i < j ensures ticks[i] == rest[i - 1] { }
        }
      }
    }
  }

  /** Starting from idle, the shutdown cannot fire before a download has been entered. */
  lemma {:induction false} NoCompletionBeforeEntering(s: MonitorState, ticks: seq<TickInput>, j: nat)
    requires !s.downloading
    requires j < |ticks| && Run(s, ticks).events[j] == DownloadCompleted
    ensures exists i :: 0 <= i < j && Run(s, ticks).events[i] == EnteredDownloading
    decreases |ticks|
  {
    var first := Step(s, ticks[0]);
    if first.event != EnteredDownloading {
      assert j > 0 && !first.state.downloading;
      NoCompletionBeforeEntering(first.state, ticks[1..], j - 1);
      var i :| 0 <= i < j - 1 && Run(first.state, ticks[1..]).events[i] == EnteredDownloading;
      assert Run(s, ticks).events[i + 1] == EnteredDownloading;
    } else {
      assert j > 0 && Run(s, ticks).events[0] == EnteredDownloading;
    }
  }

  /** Between any two shutdowns a new download must have been entered. */
  lemma {:induction false} CompletionsSeparated(s: MonitorState, ticks: seq<TickInput>, i: nat, j: nat)
    requires i < j < |ticks|
    requires Run(s, ticks).events[i] == DownloadCompleted
    requires Run(s, ticks).events[j] == DownloadCompleted
    ensures exists k :: i < k < j && Run(s, ticks).events[k] == EnteredDownloading
    decreases |ticks|
  {
    var first := Step(s, ticks[0]);
    var rest := Run(first.state, ticks[1..]);
    assert Run(s, ticks).events == [first.event] + rest.events;
    if i == 0 {
      NoCompletionBeforeEntering(first.state, ticks[1..], j - 1);
      var k :| 0 <= k < j - 1 && rest.events[k] == EnteredDownloading;
      assert Run(s, ticks).events[k + 1] == EnteredDownloading;
    } else {
      CompletionsSeparated(first.state, ticks[1..], i - 1, j - 1);
      var k :| i - 1 < k < j - 1 && rest.events[k] == EnteredDownloading;
      assert Run(s, ticks).events[k + 1] == EnteredDownloading;
    }
  }

  /**
   A busy tick during cooldown cancels the timer, and the next quiet tick
   restarts it from that later tick, not from the original start.
   */
  lemma CancelThenRestart(start: int, busy: TickInput, quiet: TickInput)
    requires AboveThreshold(busy.recvDiff) && !AboveThreshold(quiet.recvDiff)
    ensures Run(MonitorState(true, Some(start)), [busy, quiet]) ==
              RunResult(MonitorState(true, Some(quiet.now)), [CooldownCanceled, CooldownStarted])
  {
    var s := MonitorState(true, Some(start));
    assert [busy, quiet][1..] == [quiet];
    assert Step(s, busy).state == MonitorState(true, None);
    assert Run(MonitorState(true, None), [quiet]) ==
             RunResult(MonitorState(true, Some(quiet.now)), [CooldownStarted]);
  }

  /** Completions of two stretches of events add up. */
  lemma {:induction false} CompletionsAppend(a: seq<Event>, b: seq<Event>)
    ensures Completions(a + b) == Completions(a) + Completions(b)
    decreases |a|
  {
    if a == [] {
      assert a + b == b;
    } else {
      assert (a + b)[1..] == a[1..] + b;
      CompletionsAppend(a[1..], b);
    }
  }

  /** One busy tick from the initial state, then one quiet tick. */
  lemma EnterThenCool(busy: TickInput, first: TickInput)
    requires AboveThreshold(busy.recvDiff) && !AboveThreshold(first.recvDiff)
    ensures Run(Initial, [busy, first]) ==
              RunResult(MonitorState(true, Some(first.now)), [EnteredDownloading, CooldownStarted])
  {
    var cooling := MonitorState(true, Some(first.now));
    assert Run(MonitorState(true, None), [first]) == RunResult(cooling, [CooldownStarted]) by {
      assert [first][1..] == [];
    }
    assert [busy, first][1..] == [first];
  }

  /**
   A download followed by silence: from the initial state one busy tick enters
   the download, the first quiet tick starts the timer at its own time, and the
   shutdown fires exactly once if a later quiet tick comes at least the
   cooldown period after that, never otherwise.
   */
  lemma DownloadThenQuiet(busy: TickInput, first: TickInput, later: seq<TickInput>)
    requires AboveThreshold(busy.recvDiff) && !AboveThreshold(first.recvDiff) && AllQuiet(later)
    ensures var r := Run(Initial, [busy, first] + later);
            var due := exists k :: 0 <= k < |later| && later[k].now - first.now >= CooldownPeriod;
            && r.events[..2] == [EnteredDownloading, CooldownStarted]
            && Completions(r.events) == (if due then 1 else 0)
            && r.state == (if due then Initial else MonitorState(true, Some(first.now)))
  {
    var head := [EnteredDownloading, CooldownStarted];
    EnterThenCool(busy, first);
    RunAppend(Initial, [busy, first], later);
    QuietCooldownFiresOnce(first.now, later);
    var tail := Run(MonitorState(true, Some(first.now)), later).events;
    CompletionsAppend(head, tail);
    assert Completions(head) == 0 by {
      assert head[1..] == [CooldownStarted] && head[1..][1..] == [];
    }
    assert (head + tail)[..2] == head;
  }
}
