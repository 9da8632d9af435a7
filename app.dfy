/** The database-liveness state machine of the monitor: the periodic tick
    that probes the database (run_periodic) and the debounce decision taken
    when the probe fails (notify_error).

    Time is an integer count of microseconds, the resolution of the
    timestamps the monitor compares; the clock itself is outside the model
    and every operation receives the current time as a parameter. The probe
    is outside the model too: a tick receives its outcome as a bool. */
module App {

  datatype Option<T> = None | Some(value: T)

  /** The debounce window, five minutes, in microseconds. */
  const Window: int := 5 * 60 * 1_000_000

  /** What one tick reports: nothing, "database back up", or a failure
      notification. */
  datatype Event = Quiet | Recovery | Failure

  /** The two module-level globals of the monitor: whether a failure has
      been seen and not yet followed by a reported recovery, and the time of
      the last failure notification (None: none since start or since the
      last recovery). */
  datatype State = State(stateChanged: bool, lastNotified: Option<int>)

  /** The values the globals have when the process starts. */
  const Initial: State := State(false, None)

  /** The invariant every tick keeps: a failure notification is on record
      only while a failure episode is open. */
  predicate Consistent(s: State) {
    s.lastNotified.Some? ==> s.stateChanged
  }

  /** The debounce test: notify if nothing has been notified yet, or if at
      least a full window has passed since the last notification (exactly
      one window counts as "passed"). */
  function ShouldNotify(last: Option<int>, now: int): (valid: bool)
    ensures last == None ==> valid
    ensures last.Some? && now < last.value + Window ==> !valid
    ensures last.Some? && now >= last.value + Window ==> valid
  {
    match last
    case None => true
    case Some(t) => now >= t + Window
  }

  /** The state after a tick and what the tick reports. */
  datatype Transition = Transition(next: State, event: Event)

  /** One tick of the monitor on a probe outcome, as a function of the
      globals before the tick. */
  function Step(s: State, probeOk: bool, now: int): (r: Transition)
    // a success that ends a failure episode reports the recovery once and
    // forgets the last notification
    ensures probeOk && s.stateChanged ==> r == Transition(State(false, None), Recovery)
    // a success in a healthy state changes nothing and reports nothing
    ensures probeOk && !s.stateChanged ==> r == Transition(s, Quiet)
    // a failure always opens (or keeps open) the episode and never reports a recovery
    ensures !probeOk ==> r.next.stateChanged && r.event != Recovery
    // a failure is reported exactly when the debounce test lets it through ...
    ensures !probeOk ==> (r.event == Failure <==> ShouldNotify(s.lastNotified, now))
    // ... and only a reported failure moves the last-notified time, to now
    ensures !probeOk ==> r.next.lastNotified == (if r.event == Failure then Some(now) else s.lastNotified)
    // in a consistent state with no open episode, a failure is reported at once
    ensures Consistent(s) && !s.stateChanged && !probeOk ==> r.event == Failure
    // every tick keeps the invariant
    ensures Consistent(s) ==> Consistent(r.next)
  {
    if probeOk then
      if s.stateChanged then Transition(State(false, None), Recovery)
      else Transition(s, Quiet)
    else
      var valid := ShouldNotify(s.lastNotified, now);
      Transition(State(true, if valid then Some(now) else s.lastNotified),
                 if valid then Failure else Quiet)
  }

  /** The monitor, holding the two globals as fields that its methods update
      in place. */
  class Monitor {
    var stateChanged: bool
    var lastNotified: Option<int>

    /** The globals as a value. */
    function Snapshot(): (s: State)
      reads this
    {
      State(stateChanged, lastNotified)
    }

    constructor ()
      ensures Snapshot() == Initial
      ensures Consistent(Snapshot())
    {
      stateChanged := false;
      lastNotified := None;
    }

    /** The failure notifier: decides whether the failure is reported and,
        if so, records now as the last notification time. */
    method NotifyError(now: int) returns (emitted: bool)
      modifies this`lastNotified
      ensures emitted == ShouldNotify(old(lastNotified), now)
      ensures lastNotified == (if emitted then Some(now) else old(lastNotified))
    {
      var valid: bool;
      if lastNotified.Some? {
        valid := now >= lastNotified.value + Window;
      } else {
        valid := true;
      }
      if valid {
        lastNotified := Some(now);
      }
      emitted := valid;
    }

    /** The periodic runner: one probe outcome in, one event out. */
    method Tick(probeOk: bool, now: int) returns (event: Event)
      modifies this
      ensures Transition(Snapshot(), event) == Step(old(Snapshot()), probeOk, now)
      ensures old(Consistent(Snapshot())) ==> Consistent(Snapshot())
    {
      if probeOk {
        if stateChanged {
          stateChanged := false;
          lastNotified := None;
          event := Recovery;
        } else {
          event := Quiet;
        }
      } else {
        stateChanged := true;
        var emitted := NotifyError(now);
        event := if emitted then Failure else Quiet;
      }
    }
  }
}
