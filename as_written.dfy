/** The failure path of the tick exactly as app.py orders it. The notifier
    adds the five-minute window to the last notification time BEFORE it
    tests whether there is one; when there is none, that addition raises a
    TypeError. The error escapes the tick after the tick has already set
    the failure flag, and the periodic callback goes on to the next tick.

    Since the monitor starts with no notification on record, and only a
    completed failure notification can put one there, every failed probe
    ends in that TypeError and no failure is ever reported. Recoveries are
    still reported. The rest of the model uses the guarded reading (App.Step),
    under which no notification on record means "notify". */
module AsWritten {
  import opened App
  import opened Traces

  /** How a tick ends as written: it returns normally with the transition,
      or it raises a TypeError, leaving the globals as they were when the
      error was raised. */
  datatype Outcome = Returned(t: Transition) | TypeError(next: State)

  function NextState(o: Outcome): (s: State) {
    match o
    case Returned(t) => t.next
    case TypeError(s) => s
  }

  predicate ReportsFailure(o: Outcome) {
    o.Returned? && o.t.event == Failure
  }

  /** One tick as written: the failure flag is set first, then the missing
      notification time makes the window arithmetic fail. */
  function StepAsWritten(s: State, probeOk: bool, now: int): (r: Outcome)
    // a failed probe with no notification on record raises, after the flag is set
    ensures !probeOk && s.lastNotified == None ==> r == TypeError(State(true, None))
    // in every other case the tick behaves as the guarded reading says
    ensures probeOk || s.lastNotified.Some? ==> r == Returned(Step(s, probeOk, now))
  {
    if probeOk then
      if s.stateChanged then Returned(Transition(State(false, None), Recovery))
      else Returned(Transition(s, Quiet))
    else
      match s.lastNotified
      case None => TypeError(State(true, None))
      case Some(t) =>
        var valid := now >= t + Window;
        Returned(Transition(State(true, if valid then Some(now) else s.lastNotified),
                            if valid then Failure else Quiet))
  }

  /** The globals after every tick of the run, as written. */
  function RunAsWritten(s: State, run: seq<Probe>): (t: State)
    decreases |run|
  {
    if run == [] then s
    else
      var last := run[|run| - 1];
      NextState(StepAsWritten(RunAsWritten(s, run[..|run| - 1]), last.ok, last.at))
  }

  /** How every tick of the run ends, as written. */
  function OutcomesAsWritten(s: State, run: seq<Probe>): (os: seq<Outcome>)
    ensures |os| == |run|
    decreases |run|
  {
    if run == [] then []
    else
      var last := run[|run| - 1];
      OutcomesAsWritten(s, run[..|run| - 1])
        + [StepAsWritten(RunAsWritten(s, run[..|run| - 1]), last.ok, last.at)]
  }

  /** As written, from the initial globals, no notification time is ever
      recorded, every failed probe ends in a TypeError, and no failure is
      ever reported, whatever the probe outcomes and the clock. */
  lemma {:induction false} AsWrittenNeverReportsFailure(run: seq<Probe>)
    ensures RunAsWritten(Initial, run).lastNotified == None
    ensures forall k :: 0 <= k < |run| ==> (OutcomesAsWritten(Initial, run)[k].TypeError? <==> !run[k].ok)
    ensures forall k :: 0 <= k < |run| ==> !ReportsFailure(OutcomesAsWritten(Initial, run)[k])
    decreases |run|
  {
    if run != [] {
      var init := run[..|run| - 1];
      AsWrittenNeverReportsFailure(init);
      var os := OutcomesAsWritten(Initial, run);
      assert os == OutcomesAsWritten(Initial, init)
        + [StepAsWritten(RunAsWritten(Initial, init), run[|run| - 1].ok, run[|run| - 1].at)];
      forall k | 0 <= k < |run| - 1
        ensures (os[k].TypeError? <==> !run[k].ok) && !ReportsFailure(os[k])
      {
        assert os[k] == OutcomesAsWritten(Initial, init)[k];
        assert run[k] == init[k];
      }
    }
  }

  /** The input that shows the defect: the first failed probe after start.
      The guarded reading reports it; as written the tick raises and the
      notification time stays unset. */
  lemma FirstFailureIsLost(now: int)
    ensures StepAsWritten(Initial, false, now) == TypeError(State(true, None))
    ensures Step(Initial, false, now) == Transition(State(true, Some(now)), Failure)
  {
  }

  /** The same defect over a run: a database that is down from the start,
      probed every half second for ten minutes, gets failure reports at
      exactly 0 s, 300 s and 600 s under the guarded reading and none as
      written. */
  lemma OutageGoesUnreported()
    ensures forall k :: 0 <= k < 1201 ==>
      !ReportsFailure(OutcomesAsWritten(Initial, FailingEvery(1201, 500_000))[k])
    ensures forall k :: 0 <= k < 1201 ==>
      (Events(Initial, FailingEvery(1201, 500_000))[k] == Failure <==> k in {0, 600, 1200})
  {
    AsWrittenNeverReportsFailure(FailingEvery(1201, 500_000));
    forall k | 0 <= k < 1201
      ensures Events(Initial, FailingEvery(1201, 500_000))[k] == Failure <==> k in {0, 600, 1200}
    {
      HalfSecondTicksForTenMinutes(k);
    }
  }
}
