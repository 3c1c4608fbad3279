/** The in-process failure gate: one report per interval, and this process's own opinion of whether
    failure is sustained. */
module FailureWindow {

  const REPORT_INTERVAL: real := 15.0
  const PROBE_INTERVAL: real := 60.0
  const IDLE_RESET: real := 180.0
  const COLD_START_GRACE: real := 5.0
  const ALERT_MIN_FAILURES: int := 3
  const ALERT_MIN_SECONDS: real := 60.0

  datatype Gate = Gate(lastReportAt: real, lastProbeAt: real, startedAt: real, lastFailureAt: real, failures: int)

  /** A process that started when the clock read `bootedAt`. */
  function Fresh(bootedAt: real): Gate {
    Gate(0.0, bootedAt - PROBE_INTERVAL + COLD_START_GRACE, 0.0, 0.0, 0)
  }

  class Monitor {
    var gate: Gate

    constructor (bootedAt: real)
      ensures gate == Fresh(bootedAt)
    {
      gate := Fresh(bootedAt);
    }

    /** `_note_failure_window`. */
    method NoteFailureWindow(now: real) returns (sustained: bool)
      modifies this
      ensures gate == Noted(old(gate), now)
      ensures sustained == IsSustained(gate, now)
    {
      if now - gate.lastFailureAt > IDLE_RESET {
        gate := gate.(startedAt := now);
        gate := gate.(failures := 0);
      }
      gate := gate.(lastFailureAt := now);
      gate := gate.(failures := gate.failures + 1);
      return gate.failures >= ALERT_MIN_FAILURES && now - gate.startedAt >= ALERT_MIN_SECONDS;
    }

    /** `observe_failure` up to its await: whether it goes on to report, and what it would say. */
    method ObserveFailure(now: real) returns (reports: bool, sustained: bool)
      modifies this
      ensures gate == Next(old(gate), Failure(now))
      ensures reports == Reports(old(gate), Failure(now)) && sustained == IsSustained(gate, now)
    {
      sustained := NoteFailureWindow(now);
      if now - gate.lastReportAt < REPORT_INTERVAL {
        return false, sustained;
      }
      gate := gate.(lastReportAt := now);
      return true, sustained;
    }

    /** `observe_success` up to its await. */
    method ObserveSuccess(now: real) returns (probes: bool)
      modifies this
      ensures gate == Next(old(gate), Success(now))
      ensures probes == (now - old(gate).lastProbeAt >= PROBE_INTERVAL)
    {
      if now - gate.lastProbeAt < PROBE_INTERVAL {
        return false;
      }
      gate := gate.(lastProbeAt := now);
      return true;
    }
  }

  function Noted(g: Gate, now: real): Gate {
    if now - g.lastFailureAt > IDLE_RESET
    then g.(startedAt := now, lastFailureAt := now, failures := 1)
    else g.(lastFailureAt := now, failures := g.failures + 1)
  }

  predicate IsSustained(g: Gate, now: real) {
    g.failures >= ALERT_MIN_FAILURES && now - g.startedAt >= ALERT_MIN_SECONDS
  }

  // --- What happens in a process, in any interleaving ----------------------------------------

  datatype Event =
    | Failure(now: real)
    | Success(now: real)
    | Answered(now: real)    // an awaited report or probe comes back

  predicate Reports(g: Gate, e: Event) {
    e.Failure? && e.now - g.lastReportAt >= REPORT_INTERVAL
  }

  function Next(g: Gate, e: Event): Gate {
    match e
    case Failure(now) =>
      var noted := Noted(g, now);
      if Reports(g, e) then noted.(lastReportAt := now) else noted
    case Success(now) => if now - g.lastProbeAt < PROBE_INTERVAL then g else g.(lastProbeAt := now)
    case Answered(_) => g
  }

  function After(start: Gate, events: seq<Event>): Gate {
    if events == [] then start else Next(After(start, events[..|events| - 1]), events[|events| - 1])
  }

  ghost predicate Chronological(events: seq<Event>) {
    && (forall i, j :: 0 <= i <= j < |events| ==> events[i].now <= events[j].now)
    && (forall i :: 0 <= i < |events| ==> events[i].now >= 0.0)
  }

  // --- Reports are spaced ---------------------------------------------------------------------

  predicate ReportedAt(start: Gate, events: seq<Event>, i: nat)
    requires i < |events|
  {
    Reports(After(start, events[..i]), events[i])
  }

  /** The last report is where `lastReportAt` says, or there has been none. */
  lemma {:induction false} LastReport(start: Gate, events: seq<Event>) returns (last: int)
    ensures -1 <= last < |events|
    ensures last >= 0 ==> ReportedAt(start, events, last) && After(start, events).lastReportAt == events[last].now
    ensures last < 0 ==> After(start, events).lastReportAt == start.lastReportAt
    ensures forall i :: last < i < |events| ==> !ReportedAt(start, events, i)
  {
    if events == [] {
      last := -1;
    } else {
      var n := |events| - 1;
      var front := events[..n];
      last := LastReport(start, front);
      assert events[..n] == front;
      forall i | 0 <= i < n
        ensures ReportedAt(start, front, i) == ReportedAt(start, events, i)
      {
        assert front[..i] == events[..i] && front[i] == events[i];
      }
      assert forall i :: last < i < n ==> !ReportedAt(start, front, i);
      if Reports(After(start, front), events[n]) {
        last := n;
      }
    }
  }

  /** Any two forwarded reports are at least an interval apart, however many are still awaiting. */
  lemma {:induction false} ReportsAreSpaced(start: Gate, events: seq<Event>, i: nat, j: nat)
    requires Chronological(events) && i < j < |events|
    requires ReportedAt(start, events, i) && ReportedAt(start, events, j)
    ensures events[j].now - events[i].now >= REPORT_INTERVAL
  {
    var last := LastReport(start, events[..j]);
    assert forall k :: 0 <= k < j ==> events[..j][..k] == events[..k] && events[..j][k] == events[k];
    assert ReportedAt(start, events[..j], i);
    assert last >= i;
  }

  /** No failure waits longer than an interval for a report: each is forwarded, or one was less than
      an interval before it, or the clock itself is younger than an interval. */
  lemma EveryFailureIsCovered(bootedAt: real, events: seq<Event>, j: nat)
    requires Chronological(events) && j < |events| && events[j].Failure?
    ensures ReportedAt(Fresh(bootedAt), events, j)
            || events[j].now < REPORT_INTERVAL
            || exists i :: 0 <= i < j && ReportedAt(Fresh(bootedAt), events, i) && events[j].now - events[i].now < REPORT_INTERVAL
  {
    var last := LastReport(Fresh(bootedAt), events[..j]);
    assert forall k :: 0 <= k < j ==> events[..j][..k] == events[..k] && events[..j][k] == events[k];
    if last >= 0 {
      assert ReportedAt(Fresh(bootedAt), events, last);
    }
  }

  // --- Probes are spaced ----------------------------------------------------------------------

  /** A success that goes on to probe. */
  predicate ProbedAt(start: Gate, events: seq<Event>, i: nat)
    requires i < |events|
  {
    events[i].Success? && events[i].now - After(start, events[..i]).lastProbeAt >= PROBE_INTERVAL
  }

  /** The last probe is where `lastProbeAt` says, or there has been none. */
  lemma {:induction false} LastProbe(start: Gate, events: seq<Event>) returns (last: int)
    ensures -1 <= last < |events|
    ensures last >= 0 ==> ProbedAt(start, events, last) && After(start, events).lastProbeAt == events[last].now
    ensures last < 0 ==> After(start, events).lastProbeAt == start.lastProbeAt
    ensures forall i :: last < i < |events| ==> !ProbedAt(start, events, i)
  {
    if events == [] {
      last := -1;
    } else {
      var n := |events| - 1;
      var front := events[..n];
      last := LastProbe(start, front);
      forall i | 0 <= i < n
        ensures ProbedAt(start, front, i) == ProbedAt(start, events, i)
      {
        assert front[..i] == events[..i] && front[i] == events[i];
      }
      assert forall i :: last < i < n ==> !ProbedAt(start, front, i);
      if ProbedAt(start, events, n) {
        last := n;
      }
    }
  }

  /** Any two probes are at least an interval apart. */
  lemma ProbesAreSpaced(start: Gate, events: seq<Event>, i: nat, j: nat)
    requires Chronological(events) && i < j < |events| && ProbedAt(start, events, i) && ProbedAt(start, events, j)
    ensures events[j].now - events[i].now >= PROBE_INTERVAL
  {
    var last := LastProbe(start, events[..j]);
    assert forall k :: 0 <= k < j ==> events[..j][..k] == events[..k] && events[..j][k] == events[k];
    assert ProbedAt(start, events[..j], i);
    assert last >= i;
  }

  /** No process probes in its first seconds. */
  lemma {:induction false} FirstProbeWaits(bootedAt: real, events: seq<Event>, i: nat)
    requires Chronological(events) && i < |events| && ProbedAt(Fresh(bootedAt), events, i)
    ensures events[i].now >= bootedAt + COLD_START_GRACE
    decreases i
  {
    var last := LastProbe(Fresh(bootedAt), events[..i]);
    assert forall k :: 0 <= k < i ==> events[..i][..k] == events[..k] && events[..i][k] == events[k];
    if last >= 0 {
      assert ProbedAt(Fresh(bootedAt), events, last);
      FirstProbeWaits(bootedAt, events, last);
    }
  }

  /** Each success is a probe, or less than an interval after one, or in the first seconds of the process. */
  lemma EverySuccessIsCovered(bootedAt: real, events: seq<Event>, j: nat)
    requires Chronological(events) && j < |events| && events[j].Success?
    ensures ProbedAt(Fresh(bootedAt), events, j)
            || events[j].now < bootedAt + COLD_START_GRACE
            || exists i :: 0 <= i < j && ProbedAt(Fresh(bootedAt), events, i) && events[j].now - events[i].now < PROBE_INTERVAL
  {
    var last := LastProbe(Fresh(bootedAt), events[..j]);
    assert forall k :: 0 <= k < j ==> events[..j][..k] == events[..k] && events[..j][k] == events[k];
    if last >= 0 {
      assert ProbedAt(Fresh(bootedAt), events, last);
    }
  }

  // --- Sustained -------------------------------------------------------------------------------

  /** The times of the failures among some events. */
  function Failures(events: seq<Event>): seq<real> {
    if events == [] then []
    else
      var last := events[|events| - 1];
      Failures(events[..|events| - 1]) + (if last.Failure? then [last.now] else [])
  }

  /** Where the longest run of failures ending now begins: its gaps are all within the idle reset. */
  function ChainStart(f: seq<real>): (s: nat)
    requires f != []
    ensures s < |f|
    ensures forall k :: s < k < |f| ==> f[k] - f[k - 1] <= IDLE_RESET
    ensures s > 0 ==> f[s] - f[s - 1] > IDLE_RESET
  {
    var n := |f| - 1;
    if n == 0 then 0
    else if f[n] - f[n - 1] > IDLE_RESET then n
    else
      var s := ChainStart(f[..n]);
      assert forall k :: s < k < n ==> f[..n][k] - f[..n][k - 1] <= IDLE_RESET;
      s
  }

  /** What "sustained" means: enough failures in that run, over enough time. */
  predicate SustainedRun(f: seq<real>)
    requires f != []
  {
    var s := ChainStart(f);
    |f| - s >= ALERT_MIN_FAILURES && f[|f| - 1] - f[s] >= ALERT_MIN_SECONDS
  }

  /** The first run began before the clock passed the idle reset, so the code dates it from zero. */
  predicate DatedFromZero(f: seq<real>)
    requires f != []
  {
    ChainStart(f) == 0 && f[0] <= IDLE_RESET
  }

  /** One more failure starts a run of its own, or lengthens the run before it. */
  lemma ChainStep(f: seq<real>, now: real)
    requires f != []
    ensures ChainStart(f + [now]) == if now - f[|f| - 1] > IDLE_RESET then |f| else ChainStart(f)
  {
    assert (f + [now])[..|f|] == f;
  }

  lemma {:induction false} FailuresAreTimes(events: seq<Event>)
    requires Chronological(events)
    ensures forall t <- Failures(events) :: 0.0 <= t <= events[|events| - 1].now
  {
    if events != [] {
      FailuresAreTimes(events[..|events| - 1]);
    }
  }

  ghost predicate KeepsTheRun(g: Gate, f: seq<real>) {
    if f == [] then g.lastFailureAt == 0.0 && g.startedAt == 0.0 && g.failures == 0
    else
      && g.lastFailureAt == f[|f| - 1] && g.failures == |f| - ChainStart(f)
      && g.startedAt == if DatedFromZero(f) then 0.0 else f[ChainStart(f)]
  }

  lemma NotedKeepsTheRun(g: Gate, f: seq<real>, now: real)
    requires KeepsTheRun(g, f)
    ensures KeepsTheRun(Noted(g, now), f + [now])
  {
    if f != [] {
      ChainStep(f, now);
    }
    hide ChainStart;
    if f == [] {
      assert ChainStart(f + [now]) == 0;
    }
  }

  /** The window the gate keeps is that run. */
  lemma {:induction false} GateKeepsTheRun(bootedAt: real, events: seq<Event>)
    ensures KeepsTheRun(After(Fresh(bootedAt), events), Failures(events))
  {
    hide ChainStart;
    if events != [] {
      var n := |events| - 1;
      GateKeepsTheRun(bootedAt, events[..n]);
      var before := After(Fresh(bootedAt), events[..n]);
      if events[n].Failure? {
        NotedKeepsTheRun(before, Failures(events[..n]), events[n].now);
        assert Failures(events) == Failures(events[..n]) + [events[n].now];
      } else {
        assert Failures(events) == Failures(events[..n]);
      }
    }
  }

  /** At a failure, the process says "sustained" exactly when the longest run of failures ending there
      is; except in a first run that began within the idle reset of the clock's zero, at a third or later
      failure at least `ALERT_MIN_SECONDS` on the clock but not that long after the first. */
  lemma SustainedIff(bootedAt: real, events: seq<Event>)
    requires Chronological(events) && events != [] && events[|events| - 1].Failure?
    ensures var f := Failures(events);
            && f != []
            && (var now := f[|f| - 1];
               (IsSustained(After(Fresh(bootedAt), events), now) <==> SustainedRun(f))
               <==> !(DatedFromZero(f) && |f| >= ALERT_MIN_FAILURES && now >= ALERT_MIN_SECONDS && now - f[0] < ALERT_MIN_SECONDS))
  {
    GateKeepsTheRun(bootedAt, events);
    FailuresAreTimes(events);
    hide ChainStart, After;
    var f := Failures(events);
    assert f[|f| - 1] == events[|events| - 1].now;
    assert f[0] in f;
  }

  /** Failures at 30, 40 and 70 seconds on the clock: called sustained, 40 seconds after the first of them. */
  lemma EarlyFailuresAreCalledSustained(bootedAt: real)
    ensures var events := [Failure(30.0), Failure(40.0), Failure(70.0)];
            && Failures(events) == [30.0, 40.0, 70.0] && !SustainedRun(Failures(events))
            && IsSustained(After(Fresh(bootedAt), events), 70.0)
  {
    var events := [Failure(30.0), Failure(40.0), Failure(70.0)];
    ThreeFailures();
    hide ChainStart, Failures, After;
    SustainedIff(bootedAt, events);
  }

  lemma OneMoreFailure(events: seq<Event>, now: real)
    ensures Failures(events + [Failure(now)]) == Failures(events) + [now] && Failures([]) == []
  {
    assert (events + [Failure(now)])[..|events|] == events;
  }

  lemma ThreeFailures()
    ensures Failures([Failure(30.0), Failure(40.0), Failure(70.0)]) == [30.0, 40.0, 70.0]
    ensures ChainStart([30.0, 40.0, 70.0]) == 0
  {
    hide Failures, ChainStart;
    OneMoreFailure([], 30.0);
    OneMoreFailure([Failure(30.0)], 40.0);
    OneMoreFailure([Failure(30.0), Failure(40.0)], 70.0);
    assert [] + [Failure(30.0)] == [Failure(30.0)] && [Failure(30.0)] + [Failure(40.0)] == [Failure(30.0), Failure(40.0)];
    assert [Failure(30.0), Failure(40.0)] + [Failure(70.0)] == [Failure(30.0), Failure(40.0), Failure(70.0)];
    assert [] + [30.0] == [30.0] && [30.0] + [40.0] == [30.0, 40.0] && [30.0, 40.0] + [70.0] == [30.0, 40.0, 70.0];
    ChainStep([30.0], 40.0);
    ChainStep([30.0, 40.0], 70.0);
  }

  /** After start-up there is no exception. */
  lemma SustainedAfterStartUp(bootedAt: real, events: seq<Event>)
    requires Chronological(events) && events != [] && events[|events| - 1].Failure?
    requires Failures(events) != [] && Failures(events)[0] > IDLE_RESET
    ensures var f := Failures(events);
            IsSustained(After(Fresh(bootedAt), events), f[|f| - 1]) <==> SustainedRun(f)
  {
    SustainedIff(bootedAt, events);
  }
}
