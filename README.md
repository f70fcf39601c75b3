# Download-then-shutdown monitor, modelled in Dafny

The program watches the host's cumulative network counters. Every
`CHECK_INTERVAL` (2 s) it reads them and computes the download rate over the
interval. It then advances a small state machine: `downloading` (a flag) and
`cooldown_start_time` (an optional timestamp). A rate strictly above
`HIGH_USAGE_THRESHOLD` (1 MiB/s) means a download is running. When the rate
drops, a cooldown timer starts. If the rate stays low for `COOLDOWN_PERIOD`
(300 s), the download counts as complete, the machine is shut down, and the
state returns to idle.

The model has three modules:

- `StateMachine` (state_machine.dfy): the constants, the state
  `MonitorState(downloading, cooldownStart)`, the strict threshold test and
  `Step`, one tick as a pure function. `Step` returns the new state and an
  `Event` naming the branch the tick took. `DownloadCompleted` is the event
  on which the shutdown fires. Lemmas state each branch's post-state.
- `Runs` (runs.dfy): finite runs of the loop. `Ticks` turns cumulative
  readings into per-tick inputs. `Run` folds `Step` over those inputs.
  Lemmas by induction cover:
  - the timer-implies-downloading invariant, which makes the defensive
    stale-timer reset unreachable;
  - idempotence of waiting in cooldown;
  - the shutdown firing exactly once after a quiet stretch, on the first due tick;
  - two shutdowns always being separated by a new download;
  - the upload counter never mattering.
- `Monitor` (monitor.dfy): the class `DownloadMonitor`. Its fields are the
  loop's local variables. `Tick` performs the loop body in place. `Watch`
  runs the loop over a finite sequence of readings. Both are proved equal to
  the pure functions above.

Time is a whole number of seconds, passed in as `now`. Counter readings are
parameters.

Two points where the code may surprise a reader, both modelled as written:

- The code does not clamp a negative counter difference to zero
  (main.py:31-32). A negative difference simply takes the below-threshold path.
- When idle with a timer set, the code takes a defensive reset branch
  (main.py:86-89). This branch is modelled as `StaleTimerReset` and proved
  unreachable from any consistent state.

## Model

| member | source | states |
|---|---|---|
| StateMachine.AboveThreshold | main.py:35-43 | the rate test is strict and equals `recvDiff > HIGH_USAGE_THRESHOLD * CHECK_INTERVAL`: a rate exactly at the threshold, or a negative difference, is below |
| StateMachine.Step | main.py:43-91 | one tick keeps "a timer implies downloading"; the stale-timer reset only happens from a state that breaks it |
| StateMachine.FiresIff | main.py:70-81 | from a consistent state the shutdown fires exactly when a timer runs, the rate is not above the threshold and `now - start >= COOLDOWN_PERIOD` |
| StateMachine.IdleAboveStartsDownload | main.py:46-50 | idle plus a busy tick gives downloading with no timer |
| StateMachine.BusyTickCancelsCooldown | main.py:51-55 | a busy tick with a timer running clears the timer and keeps downloading, whatever the elapsed time |
| StateMachine.BusyTickWhileDownloading | main.py:56-57 | a busy tick while downloading without a timer changes nothing |
| StateMachine.QuietTickStartsCooldown | main.py:61-65 | the first quiet tick of a download starts the timer at that tick's time |
| StateMachine.QuietTickKeepsCooling | main.py:66-83 | a quiet tick before the cooldown is over leaves the state unchanged and does not fire |
| StateMachine.QuietTickCompletes | main.py:70-81 | a quiet tick once the cooldown is over fires and resets to the initial state |
| StateMachine.QuietTickWhileIdle | main.py:84-91 | in a consistent idle state a quiet tick changes nothing |
| Runs.Ticks | main.py:27-39 | one tick input per reading, at the reading's time |
| Runs.TickDeltaAt | main.py:31-39 | each tick's received-bytes difference is its reading minus the previous one (the stored old counter), unclamped |
| Runs.UploadIgnored | main.py:31-43 | readings that differ only in the sent counter give the same tick inputs, so the upload rate never affects the state |
| Runs.Run | main.py:25-91 | a run has one event per tick and keeps "a timer implies downloading" |
| Runs.NoStaleTimerReset | main.py:84-89 | from a consistent state, including the initial one of main.py:13-14, the defensive reset of a timer found while idle never happens |
| Runs.QuietIdleStaysIdle | main.py:84-91 | quiet ticks leave an idle monitor idle and never fire |
| Runs.CoolingIdempotent | main.py:66-83 | repeated quiet ticks before the cooldown is over keep the timer's start and all report waiting |
| Runs.QuietCooldownFiresOnce | main.py:66-81 | with a timer running, a quiet stretch fires exactly once if some tick is at least the cooldown after the start, and never otherwise; after firing the state is initial |
| Runs.QuietCooldownEventAt | main.py:61-91 | with a timer running and only quiet ticks, tick by tick: every tick before the first one at least the cooldown after the start reports waiting, that first due tick fires, and every later tick finds the monitor idle |
| Runs.NoCompletionBeforeEntering | main.py:43-81 | from idle, no shutdown fires before a download has been entered |
| Runs.CompletionsSeparated | main.py:46-81 | between any two shutdowns a new download is entered |
| Runs.CancelThenRestart | main.py:53-65 | a busy tick during cooldown cancels the timer, and the next quiet tick restarts it from its own time, not from the original start |
| Runs.DownloadThenQuiet | main.py:43-81 | from the initial state, a busy tick and then quiet ticks give entered and cooldown-started; the shutdown fires exactly once if a later tick is at least the cooldown after the first quiet one, and never otherwise |
| Monitor.DownloadMonitor.constructor | main.py:12-17 | the monitor starts idle with no timer, holding the first counter readings |
| Monitor.DownloadMonitor.Tick | main.py:27-91 | the loop body: the new state and event are `Step` on the received-bytes difference, the stored counters become the new readings, and the invariant is kept |
| Monitor.DownloadMonitor.Watch | main.py:25-91 | the loop over a finite list of readings produces the events and final state of `Run` over their tick inputs; both stored counters become the last reading, or stay as they were when there is none |

## Left out

- Reading the OS counters (`psutil.net_io_counters`, main.py:16-17, 27) is a foreign call. The readings are parameters.
- `time.sleep` and the unbounded `while True` loop (main.py:25-26) are left out. `Watch` runs the loop body over a finite list of readings.
- `time.time`, `time.strftime` and `time.localtime` (main.py:64-67) read and format the wall clock. The time is an integer parameter `now` in whole seconds, so sub-second elapsed times are not modelled.
- The shutdown command `os.system("shutdown /s /t 5")` and the `test_mode` switch (main.py:7, 72-77) are an OS side effect. The model reports the `DownloadCompleted` event; what the caller does with it is not modelled.
- All console logging and the KB/MB formatting (main.py:19-23, 41 and every `print`) are left out. The `Event` names the logged branch instead.
- StateMachine.AboveThreshold: the rate is an exact real quotient, where the source uses Python floating-point division. Rounding for counter differences beyond 2^53 bytes is not modelled.
- The upload rate (main.py:36) is computed and discarded, as in the source. `UploadIgnored` states that it has no effect.
