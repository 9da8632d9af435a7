/** Properties of runs of the monitor: a run is the sequence of probe
    outcomes the periodic callback feeds to successive ticks, each with the
    time the tick happened. */
module Traces {
  import opened App

  /** One tick's input: the probe outcome and the tick's time. */
  datatype Probe = Probe(ok: bool, at: int)

  /** The globals after every tick of the run, starting from s. */
  function Run(s: State, run: seq<Probe>): (t: State)
    decreases |run|
  {
    if run == [] then s
    else
      var last := run[|run| - 1];
      Step(Run(s, run[..|run| - 1]), last.ok, last.at).next
  }

  /** What each tick of the run reports, one event per tick. */
  function Events(s: State, run: seq<Probe>): (evs: seq<Event>)
    ensures |evs| == |run|
    decreases |run|
  {
    if run == [] then []
    else
      var last := run[|run| - 1];
      Events(s, run[..|run| - 1]) + [Step(Run(s, run[..|run| - 1]), last.ok, last.at).event]
  }

  /** Running one more tick extends the run by one step. */
  lemma RunSnoc(s: State, run: seq<Probe>, m: nat)
    requires m < |run|
    ensures Run(s, run[..m + 1]) == Step(Run(s, run[..m]), run[m].ok, run[m].at).next
  {
    assert run[..m + 1][..m] == run[..m];
  }

  /** The event of tick k is the one Step reports on the state the first k
      ticks leave behind. */
  lemma {:induction false} EventAt(s: State, run: seq<Probe>, k: nat)
    requires k < |run|
    ensures Events(s, run)[k] == Step(Run(s, run[..k]), run[k].ok, run[k].at).event
    decreases |run|
  {
    var init := run[..|run| - 1];
    if k < |run| - 1 {
      EventAt(s, init, k);
      assert init[..k] == run[..k];
    } else {
      assert run[..k] == init;
    }
  }

  /** Starting from a consistent state (the initial one among them), every
      run ends in a consistent state. */
  lemma {:induction false} RunKeepsConsistent(s: State, run: seq<Probe>)
    requires Consistent(s)
    ensures Consistent(Run(s, run))
    decreases |run|
  {
    if run != [] {
      RunKeepsConsistent(s, run[..|run| - 1]);
    }
  }

  /** After a reported failure at tick i and no reported recovery in the
      ticks up to m, the episode is still open and the last notification is
      no earlier than tick i. */
  lemma {:induction false} StillNotifiedSince(s: State, run: seq<Probe>, i: nat, m: nat)
    requires i < m <= |run|
    requires Events(s, run)[i] == Failure
    requires forall k :: i < k < m ==> Events(s, run)[k] != Recovery
    ensures Run(s, run[..m]).stateChanged
    ensures Run(s, run[..m]).lastNotified.Some?
    ensures run[i].at <= Run(s, run[..m]).lastNotified.value
    decreases m
  {
    if m == i + 1 {
      EventAt(s, run, i);
      RunSnoc(s, run, i);
    } else {
      StillNotifiedSince(s, run, i, m - 1);
      EventAt(s, run, m - 1);
      RunSnoc(s, run, m - 1);
    }
  }

  /** Debounce spacing: two failure notifications with no recovery reported
      between them are at least one window apart, whatever the clock does in
      between (a reported failure only ever moves the last notification time
      forward, by at least a window). */
  lemma FailuresAreSpaced(s: State, run: seq<Probe>, i: nat, j: nat)
    requires i < j < |run|
    requires Events(s, run)[i] == Failure && Events(s, run)[j] == Failure
    requires forall k :: i < k < j ==> Events(s, run)[k] != Recovery
    ensures run[i].at + Window <= run[j].at
  {
    StillNotifiedSince(s, run, i, j);
    EventAt(s, run, j);
  }

  /** After a reported recovery at tick i, as long as the probe keeps
      succeeding the globals stay at their healthy values. */
  lemma {:induction false} HealthyAfterRecovery(s: State, run: seq<Probe>, i: nat, m: nat)
    requires i < m <= |run|
    requires Events(s, run)[i] == Recovery
    requires forall k :: i < k < m ==> run[k].ok
    ensures Run(s, run[..m]) == State(false, None)
    decreases m
  {
    if m == i + 1 {
      EventAt(s, run, i);
      RunSnoc(s, run, i);
    } else {
      HealthyAfterRecovery(s, run, i, m - 1);
      RunSnoc(s, run, m - 1);
    }
  }

  /** A recovery resets the debounce window: the first failed probe after a
      reported recovery is reported, however recent the previous failure
      notification was. */
  lemma RecoveryResetsDebounce(s: State, run: seq<Probe>, i: nat, j: nat)
    requires i < j < |run|
    requires Events(s, run)[i] == Recovery
    requires forall k :: i < k < j ==> run[k].ok
    requires !run[j].ok
    ensures Events(s, run)[j] == Failure
  {
    HealthyAfterRecovery(s, run, i, j);
    EventAt(s, run, j);
  }

  /** One recovery per episode: between two reported recoveries the probe
      failed at least once. */
  lemma {:induction false} RecoveryOncePerEpisode(s: State, run: seq<Probe>, i: nat, j: nat)
    requires i < j < |run|
    requires Events(s, run)[i] == Recovery && Events(s, run)[j] == Recovery
    ensures exists k :: i < k < j && !run[k].ok
  {
    if forall k :: i < k < j ==> run[k].ok {
      HealthyAfterRecovery(s, run, i, j);
      EventAt(s, run, j);
      assert false;
    }
  }

  /** From a state with no open episode, as long as the probe keeps
      succeeding nothing changes. */
  lemma {:induction false} HealthyWhileOk(s: State, run: seq<Probe>, m: nat)
    requires !s.stateChanged
    requires m <= |run|
    requires forall k :: 0 <= k < m ==> run[k].ok
    ensures Run(s, run[..m]) == s
    decreases m
  {
    if m > 0 {
      HealthyWhileOk(s, run, m - 1);
      RunSnoc(s, run, m - 1);
    }
  }

  /** The first episode too has a failure: starting with no open episode
      (the initial globals among such states), a recovery is reported only
      after some probe has failed. */
  lemma {:induction false} FirstRecoveryFollowsFailure(s: State, run: seq<Probe>, j: nat)
    requires !s.stateChanged
    requires j < |run|
    requires Events(s, run)[j] == Recovery
    ensures exists k :: 0 <= k < j && !run[k].ok
  {
    if forall k :: 0 <= k < j ==> run[k].ok {
      HealthyWhileOk(s, run, j);
      EventAt(s, run, j);
      assert false;
    }
  }

  /** n ticks, h microseconds apart from time 0, every one with a failed
      probe. */
  function FailingEvery(n: nat, h: nat): (run: seq<Probe>)
  {
    seq(n, k => Probe(false, k * h))
  }

  /** For h > 0: a * h >= b * h exactly when a >= b. */
  lemma MulCompare(a: int, b: int, h: int)
    requires h > 0
    ensures a * h >= b * h <==> a >= b
  {
    if a >= b {
      assert a * h - b * h == (a - b) * h;
    } else {
      assert b * h - a * h == (b - a) * h;
    }
  }

  /** x = c * p + r with 0 <= r < p determines the quotient and remainder. */
  lemma DivModUnique(x: int, p: int, c: int, r: int)
    requires p > 0 && 0 <= r < p && x == c * p + r
    ensures x / p == c && x % p == r
  {
    var q, s := x / p, x % p;
    assert (q - c) * p == r - s;
    if q > c {
      MulCompare(q - c, 1, p);
    } else if q < c {
      MulCompare(c - q, 1, p);
    }
  }

  /** The arithmetic of one tick of a steady clock with period h, the window
      being p periods: with the last notification at the start of the window
      that tick k - 1 falls in, tick k is due exactly when k starts a window. */
  lemma NextTick(k: int, p: int, h: int)
    requires k >= 1 && p > 0 && h > 0 && p * h == Window
    ensures k * h >= (k - 1) / p * p * h + Window <==> k % p == 0
    ensures k % p == 0 ==> k / p * p * h == k * h
    ensures k % p != 0 ==> k / p == (k - 1) / p
  {
    var q, r := (k - 1) / p, (k - 1) % p;
    assert k == q * p + r + 1;
    assert q * p * h + Window == (q * p + p) * h;
    if r == p - 1 {
      assert k == (q + 1) * p;
      DivModUnique(k, p, q + 1, 0);
      assert k * h == (q * p + p) * h;
    } else {
      DivModUnique(k, p, q, r + 1);
      MulCompare(k, q * p + p, h);
    }
  }

  /** While the probe fails at every tick of a steady clock whose period
      divides the window p times, the last notification after m ticks is
      the start of the window tick m - 1 falls in. */
  lemma {:induction false} PeriodicState(n: nat, h: nat, p: nat, m: nat)
    requires h > 0 && p > 0 && p * h == Window
    requires 1 <= m <= n
    ensures Run(Initial, FailingEvery(n, h)[..m]) == State(true, Some((m - 1) / p * p * h))
    decreases m
  {
    var run := FailingEvery(n, h);
    RunSnoc(Initial, run, m - 1);
    var k := m - 1;
    if k == 0 {
      assert run[0] == Probe(false, 0);
    } else {
      PeriodicState(n, h, p, k);
      NextTick(k, p, h);
      var last := (k - 1) / p * p * h;
      var before := State(true, Some(last));
      assert Run(Initial, run[..k]) == before;
      assert run[k] == Probe(false, k * h);
      assert ShouldNotify(Some(last), k * h) <==> k % p == 0;
    }
  }

  /** With the probe failing at every tick of a steady clock whose period
      divides the window p times, a failure is reported exactly at every
      p-th tick, starting with the first. */
  lemma PeriodicFailures(n: nat, h: nat, p: nat, k: nat)
    requires h > 0 && p > 0 && p * h == Window
    requires k < n
    ensures Events(Initial, FailingEvery(n, h))[k] == (if k % p == 0 then Failure else Quiet)
  {
    var run := FailingEvery(n, h);
    EventAt(Initial, run, k);
    if k > 0 {
      PeriodicState(n, h, p, k);
      NextTick(k, p, h);
    }
  }

  /** Ticks every half second from 0 s to 600 s, the probe failing at every
      one: failures are reported at 0 s, 300 s and 600 s and at no other
      tick. */
  lemma HalfSecondTicksForTenMinutes(k: nat)
    requires k < 1201
    ensures FailingEvery(1201, 500_000)[k].at == k * 500_000
    ensures Events(Initial, FailingEvery(1201, 500_000))[k] == Failure <==> k in {0, 600, 1200}
  {
    PeriodicFailures(1201, 500_000, 600, k);
  }
}
