# Database liveness monitor: the tick state machine

This project models the core of a small database monitor. A periodic callback probes the
database every 500 ms (`run_periodic`). When a probe fails, a notifier decides whether to
report it (`notify_error`). It is meant to report a failure if nothing has been reported
yet, or if at least five minutes have passed since the last report, the five-minute
boundary itself counting as passed. As written it raises a TypeError instead when nothing
has been reported yet, so no failure is ever reported (see Findings); the model proves
the properties of the guarded reading and, separately, the behaviour as written. When
the database answers again after a failure, the monitor reports "back up" once and
forgets the time of the last failure report.

The two module-level globals, `DATABASE_STATE_CHANGED` and `LAST_NOTIFIED`, become:

- the value type `App.State`, used by the specification function `App.Step`, which maps
  one tick to the new globals and the event the tick reports (`Quiet`, `Recovery` or
  `Failure`);
- the fields of the class `App.Monitor`. Its methods `Tick` and `NotifyError` update
  those fields in place, as the source's `global` assignments do. Each method is proved
  against `App.Step` or `App.ShouldNotify`.

Time is an integer number of microseconds, the resolution of the source's timestamps.
The window is 300 000 000 µs. The current time and the probe's outcome are parameters
of each tick. Module `Traces` states properties of whole runs, where a run is the
sequence of (probe outcome, time) pairs fed to successive ticks. Module `AsWritten`
models the failure path in the order the source actually writes it (see Findings).

Because the debounce test is inclusive (`>=`), a probe failing every half second from 0 s
to 600 s is, under the guarded reading, reported at 0 s, 300 s and 600 s
(`Traces.HalfSecondTicksForTenMinutes`).

## Model

| member | source | states |
|---|---|---|
| App.ShouldNotify | app.py:81-86 | Guarded reading: with nothing on record, a failure is reported. Otherwise it is reported exactly when `now` is at least one window (five minutes) after the last report; exactly five minutes counts as due. |
| App.Step | app.py:47-56 | One tick. A success that ends an episode clears the flag, clears the last report time and reports one recovery. A success with the flag clear changes nothing and reports nothing. A failure always leaves the flag set and never reports a recovery. A failure is reported iff the debounce test passes, and then the last report time becomes `now`; otherwise that time is unchanged. In a consistent state with no open episode, a failure is reported at once. Every tick keeps the invariant "a report time on record implies the flag is set". |
| App.Monitor.constructor | app.py:29-30 | The globals start with no open episode and no report on record. This initial state satisfies the invariant. |
| App.Monitor.NotifyError | app.py:69-92 | The notifier reports exactly when `ShouldNotify` says so. It records `now` as the last report time when it reports, and changes nothing otherwise. |
| App.Monitor.Tick | app.py:33-56 | The in-place tick produces exactly the new globals and the event that `Step` gives for the old globals. It keeps the invariant. |
| Traces.RunKeepsConsistent | app.py:29-56 | From a consistent state (the initial one among them), any run of ticks ends in a consistent state: a report time on record implies the flag is set. |
| Traces.FailuresAreSpaced | app.py:81-91 | Any two failure reports with no recovery report between them are at least five minutes apart, for every run, including runs whose clock goes backwards. |
| Traces.RecoveryResetsDebounce | app.py:49-56 | After a recovery report, the first failed probe is reported, however recent the previous failure report was. |
| Traces.RecoveryOncePerEpisode | app.py:49-55 | Between two recovery reports, at least one probe failed. |
| Traces.FirstRecoveryFollowsFailure | app.py:49-55 | Starting with no open episode (as the initial globals are), a recovery is reported only after some probe has failed, so the first episode, like every later one, has a failure before its recovery. |
| Traces.PeriodicFailures | app.py:81-91 | Take a probe that fails at every tick of a steady clock whose period divides the window p times. Failures are then reported at exactly every p-th tick, starting with the first, and the other ticks report nothing. |
| Traces.HalfSecondTicksForTenMinutes | app.py:81-103 | Ticks every 500 ms from 0 s to 600 s, with every probe failing: failures are reported at 0 s, 300 s and 600 s and at no other tick. |
| AsWritten.StepAsWritten | app.py:54-86 | One tick, with the window arithmetic done before the `None` test. A failed probe with no report on record raises a TypeError after the flag has been set. Every other tick behaves as `Step`. |
| AsWritten.AsWrittenNeverReportsFailure | app.py:29-91 | As written, starting from the initial globals, no report time is ever recorded. Every failed probe ends in the TypeError, and no failure is ever reported, whatever the probes and the clock. |
| AsWritten.FirstFailureIsLost | app.py:82-86 | The first failed probe after start raises as written. The guarded reading reports it and records its time. |
| AsWritten.OutageGoesUnreported | app.py:82-91 | A database that is down for the first ten minutes, probed every 500 ms, gets failure reports at exactly 0 s, 300 s and 600 s under the guarded reading and none at all as written. |

## Findings

| source | as written | input that shows it | evidently intended | confidence | as-written member | corrected member |
|---|---|---|---|---|---|---|
| app.py:82-86 | `cutoff = LAST_NOTIFIED + timedelta(minutes=5)` is computed before the `LAST_NOTIFIED is not None` test. It raises a TypeError whenever no report is on record. That is always the case, because only a completed report can record one, so no database failure is ever reported. | The first failed probe after start, with `LAST_NOTIFIED` = `None` | No report on record means "report now" (the `else: valid = True` branch) | high; not executed | AsWritten.AsWrittenNeverReportsFailure | App.Step |

## Left out

- The probe (`MongoClient` and `collection_names`, app.py:23-27, 49) is a bool parameter of each tick. Which exception it raises does not matter to the state machine.
- The failure event does not carry the database error text. The `print` calls (app.py:26, 66, 92, 115, 120) become returned `Event` values, and message formatting is not modelled.
- `datetime.utcnow()` (app.py:81) is an external clock. Its value is the `now` parameter, an integer number of microseconds.
- The tornado `Application`, `PeriodicCallback`, `IOLoop`, `listen` and the port fallback (app.py:95-125) are event-loop and HTTP plumbing. The model assumes that ticks run one after another and never overlap.
- AsWritten: after the TypeError, the model goes on to the next tick. It relies on the periodic callback logging the exception and continuing, and that callback is not part of this model.
- `sys.exit` on startup failure (app.py:27) is process control.
- web/js/app.js is browser UI code (DOM updates, XHR polling, a WebSocket client) and states no logic of the monitor.
- The docstring at app.py:41-42 speaks of notifying registered subscribers, but app.py has no subscriber registry, broadcast fan-out or status-message rendering, so the model does not invent them.
