/** The read-throttle alert: one claim per (bucket, user), taken before an alert is sent and
    given back when the send fails. Tasks interleave at the awaited send. */
module ThrottleAlert {

  datatype Key = Key(bucket: string, user: int)

  const COOLDOWN: real := 3600.0
  const SEND_TIMEOUT: real := 8.0

  /** The module's `_READ_ALERTED_AT`, and the two pieces of `_alert_read_throttle` that run
      without an await between them. */
  class AlertClaims {
    var alertedAt: map<Key, real>

    constructor ()
      ensures alertedAt == map[]
    {
      alertedAt := map[];
    }

    /** Up to the send. True when this task goes on to send. */
    method Claim(key: Key, now: real) returns (claimed: bool)
      modifies this
      ensures claimed <==> MayClaim(old(alertedAt), key, now)
      ensures alertedAt == if claimed then old(alertedAt)[key := now] else old(alertedAt)
    {
      if key in alertedAt && now - alertedAt[key] < COOLDOWN {
        return false;
      }
      alertedAt := alertedAt[key := now];
      return true;
    }

    /** `_release_claim`: `now` is the instant this task claimed at. */
    method Release(key: Key, now: real)
      modifies this
      ensures alertedAt == Released(old(alertedAt), key, now)
    {
      if key in alertedAt && alertedAt[key] == now {
        alertedAt := alertedAt - {key};
      }
    }
  }

  predicate MayClaim(claims: map<Key, real>, key: Key, now: real) {
    key in claims ==> now - claims[key] >= COOLDOWN
  }

  function Released(claims: map<Key, real>, key: Key, now: real): map<Key, real> {
    if key in claims && claims[key] == now then claims - {key} else claims
  }

  // --- The protocol as a state machine ------------------------------------------------

  /** How a task that claimed came to its end. */
  datatype End =
    | Landed            // the alert was delivered
    | NotConfigured     // alerting is off: logged, and the claim is kept
    | Failed            // raised, timed out, cancelled, or landed nowhere

  /** A task that claimed: still waiting on its send, or ended with its alert delivered or logged.
      A failed task is forgotten. */
  datatype Task = Task(key: Key, started: real, sending: bool)

  datatype Step =
    | Refuse(id: nat, key: Key)   // a 429: the task runs up to its send
    | Finish(id: nat, end: End)   // the awaited send of task `id` comes back
    | Tick(now: real)             // time passes

  datatype State = State(claims: map<Key, real>, now: real, tasks: map<nat, Task>)

  predicate Sending(s: State, id: nat) {
    id in s.tasks && s.tasks[id].sending
  }

  predicate Enabled(s: State, step: Step) {
    match step
    case Refuse(id, _) => id !in s.tasks
    case Finish(id, _) => Sending(s, id)
    case Tick(now) => now >= s.now
  }

  function Next(s: State, step: Step): State
    requires Enabled(s, step)
  {
    match step
    case Refuse(id, key) =>
      if MayClaim(s.claims, key, s.now) then
        State(s.claims[key := s.now], s.now, s.tasks[id := Task(key, s.now, true)])
      else s
    case Finish(id, end) =>
      var t := s.tasks[id];
      if end == Failed then
        State(Released(s.claims, t.key, t.started), s.now, s.tasks - {id})
      else
        s.(tasks := s.tasks[id := t.(sending := false)])
    case Tick(now) => s.(now := now)
  }

  /** The states of a run from a fresh process, any number of tasks interleaving in any order. */
  ghost predicate IsRun(run: seq<State>, steps: seq<Step>) {
    && |run| == |steps| + 1
    && run[0].claims == map[] && run[0].tasks == map[]
    && (forall i :: 0 <= i < |steps| ==> Enabled(run[i], steps[i]) && run[i + 1] == Next(run[i], steps[i]))
  }

  /** No send outlives the timeout. */
  ghost predicate SendsAreBounded(s: State) {
    forall id :: Sending(s, id) ==> s.now <= s.tasks[id].started + SEND_TIMEOUT
  }

  // --- What every step keeps ---------------------------------------------------------------

  ghost predicate Holds(s: State, t: Task) {
    t.key in s.claims && s.claims[t.key] == t.started
  }

  /** The claim of a task is still in place, or a whole cooldown has gone by and any newer claim is
      at least that much newer. */
  ghost predicate Covered(s: State, t: Task) {
    && t.started <= s.now
    && (Holds(s, t) || s.now - t.started >= COOLDOWN)
    && (t.key in s.claims ==> s.claims[t.key] == t.started || s.claims[t.key] - t.started >= COOLDOWN)
  }

  ghost predicate Apart(t: Task, u: Task) {
    t.started - u.started >= COOLDOWN || u.started - t.started >= COOLDOWN
  }

  ghost predicate Inv(s: State) {
    && (forall id :: id in s.tasks ==> Covered(s, s.tasks[id]))
    && (forall i, j :: i in s.tasks && j in s.tasks && i != j && s.tasks[i].key == s.tasks[j].key ==>
          Apart(s.tasks[i], s.tasks[j]))
  }

  lemma StepKeepsInv(s: State, step: Step)
    requires Inv(s) && Enabled(s, step)
    ensures Inv(Next(s, step))
  {
    match step
    case Refuse(id, key) => RefuseKeepsInv(s, id, key);
    case Finish(id, end) => FinishKeepsInv(s, id, end);
    case Tick(_) =>
      assert forall i :: i in s.tasks ==> Covered(s, s.tasks[i]) ==> Covered(Next(s, step), s.tasks[i]);
  }

  lemma RefuseKeepsInv(s: State, id: nat, key: Key)
    requires Inv(s) && Enabled(s, Refuse(id, key))
    ensures Inv(Next(s, Refuse(id, key)))
  {
    var s' := Next(s, Refuse(id, key));
    forall i | i in s'.tasks
      ensures Covered(s', s'.tasks[i])
      ensures i != id && s' != s && s'.tasks[i].key == key ==> Apart(s'.tasks[i], s'.tasks[id])
    {
      assert i != id ==> Covered(s, s.tasks[i]);
    }
  }

  /** A released claim was the task's own, so no other task of that key held it. */
  lemma FinishKeepsInv(s: State, id: nat, end: End)
    requires Inv(s) && Enabled(s, Finish(id, end))
    ensures Inv(Next(s, Finish(id, end)))
  {
    var s' := Next(s, Finish(id, end));
    forall i | i in s'.tasks
      ensures Covered(s', s'.tasks[i])
    {
      assert Covered(s, s.tasks[i]) && Covered(s, s.tasks[id]);
      assert i != id && s.tasks[i].key == s.tasks[id].key ==> Apart(s.tasks[i], s.tasks[id]);
    }
  }

  lemma {:induction false} RunKeepsInv(run: seq<State>, steps: seq<Step>, n: nat)
    requires IsRun(run, steps) && n < |run|
    ensures Inv(run[n])
  {
    if n > 0 {
      RunKeepsInv(run, steps, n - 1);
      StepKeepsInv(run[n - 1], steps[n - 1]);
    }
  }

  // --- What that gives over whole runs -------------------------------------------------------

  /** At step `i` the task claims the key: its refusal goes on to send an alert. */
  ghost predicate ClaimsAt(run: seq<State>, steps: seq<Step>, i: nat, id: nat, key: Key)
    requires IsRun(run, steps)
  {
    i < |steps| && steps[i] == Refuse(id, key) && Sending(run[i + 1], id)
  }

  /** After step `i` and before step `n`, the task's send failed. */
  ghost predicate FailedBetween(steps: seq<Step>, id: nat, i: nat, n: nat)
    requires n <= |steps|
  {
    exists f :: i < f < n && steps[f] == Finish(id, Failed)
  }

  /** The first end of the task after step `i` is at step `f`, and it is not a failure. */
  ghost predicate EndsWell(steps: seq<Step>, id: nat, i: nat, f: nat) {
    && i < f < |steps| && (steps[f] == Finish(id, Landed) || steps[f] == Finish(id, NotConfigured))
    && forall m, end :: i < m < f ==> steps[m] != Finish(id, end)
  }

  lemma {:induction false} ClockNeverGoesBack(run: seq<State>, steps: seq<Step>, i: nat, n: nat)
    requires IsRun(run, steps) && i <= n < |run|
    ensures run[i].now <= run[n].now
  {
    if i < n {
      ClockNeverGoesBack(run, steps, i, n - 1);
      assert Enabled(run[n - 1], steps[n - 1]) && run[n] == Next(run[n - 1], steps[n - 1]);
    }
  }

  /** A task that claimed stays on record until its send fails. */
  lemma {:induction false} TaskStays(run: seq<State>, steps: seq<Step>, i: nat, id: nat, key: Key, n: nat)
    requires IsRun(run, steps) && ClaimsAt(run, steps, i, id, key) && i < n < |run| && !FailedBetween(steps, id, i, n)
    ensures id in run[n].tasks && run[n].tasks[id].key == key && run[n].tasks[id].started == run[i].now
  {
    assert Enabled(run[n - 1], steps[n - 1]) && run[n] == Next(run[n - 1], steps[n - 1]);
    if i + 1 < n {
      TaskStays(run, steps, i, id, key, n - 1);
    }
  }

  /** Once it ended well it never ends again. */
  lemma {:induction false} EndsForGood(run: seq<State>, steps: seq<Step>, i: nat, id: nat, key: Key, f: nat, n: nat)
    requires IsRun(run, steps) && ClaimsAt(run, steps, i, id, key) && EndsWell(steps, id, i, f) && f < n < |run|
    ensures !FailedBetween(steps, id, i, n) && id in run[n].tasks && !Sending(run[n], id)
  {
    assert Enabled(run[n - 1], steps[n - 1]) && run[n] == Next(run[n - 1], steps[n - 1]);
    if n == f + 1 {
      assert !FailedBetween(steps, id, i, f);
      TaskStays(run, steps, i, id, key, f);
    } else {
      EndsForGood(run, steps, i, id, key, f, n - 1);
    }
  }

  /** Two claims of one key are at least a cooldown apart, unless the send of the first failed before the second. */
  lemma ClaimsAreApart(run: seq<State>, steps: seq<Step>, key: Key, i: nat, id: nat, j: nat, other: nat)
    requires IsRun(run, steps) && ClaimsAt(run, steps, i, id, key) && ClaimsAt(run, steps, j, other, key) && i < j
    requires !FailedBetween(steps, id, i, j)
    ensures run[j].now - run[i].now >= COOLDOWN
  {
    assert Enabled(run[j], steps[j]) && run[j + 1] == Next(run[j], steps[j]);
    TaskStays(run, steps, i, id, key, j);
    RunKeepsInv(run, steps, j + 1);
    ClockNeverGoesBack(run, steps, i, j);
    assert Apart(run[j + 1].tasks[id], run[j + 1].tasks[other]);
  }

  /** Two alerts of one key that were delivered, or logged, claimed at least a cooldown apart, whatever the
      interleaving and however long the sends take. */
  lemma AlertsAreACooldownApart(run: seq<State>, steps: seq<Step>, key: Key, i: nat, id: nat, f: nat, j: nat, other: nat, g: nat)
    requires IsRun(run, steps) && ClaimsAt(run, steps, i, id, key) && ClaimsAt(run, steps, j, other, key) && i < j
    requires EndsWell(steps, id, i, f) && EndsWell(steps, other, j, g)
    ensures run[j].now - run[i].now >= COOLDOWN
  {
    if f < j {
      EndsForGood(run, steps, i, id, key, f, j);
    } else {
      assert !FailedBetween(steps, id, i, j);
    }
    ClaimsAreApart(run, steps, key, i, id, j, other);
  }

  /** Whatever claim is in place was made by a task whose send has not failed since. */
  lemma {:induction false} ClaimIsOnRecord(run: seq<State>, steps: seq<Step>, key: Key, n: nat) returns (i: nat, id: nat)
    requires IsRun(run, steps) && n < |run| && key in run[n].claims
    ensures i < n && ClaimsAt(run, steps, i, id, key) && run[i].now == run[n].claims[key] && !FailedBetween(steps, id, i, n)
  {
    var s, step := run[n - 1], steps[n - 1];
    assert Enabled(s, step) && run[n] == Next(s, step);
    if step.Refuse? && step.key == key && MayClaim(s.claims, key, s.now) {
      i, id := n - 1, step.id;
    } else {
      i, id := ClaimIsOnRecord(run, steps, key, n - 1);
      if step == Finish(id, Failed) {
        TaskStays(run, steps, i, id, key, n - 1);
      }
    }
  }

  /** A refusal sends an alert if and only if every claim of its key within the last cooldown has failed. */
  lemma RefusalSendsIff(run: seq<State>, steps: seq<Step>, n: nat, next: nat, key: Key)
    requires IsRun(run, steps) && n < |run| && next !in run[n].tasks
    ensures Sending(Next(run[n], Refuse(next, key)), next)
            <==> forall i: nat, id: nat :: i < n && ClaimsAt(run, steps, i, id, key) && run[n].now - run[i].now < COOLDOWN
                                 ==> FailedBetween(steps, id, i, n)
    ensures !Sending(Next(run[n], Refuse(next, key)), next) ==> Next(run[n], Refuse(next, key)) == run[n]
  {
    forall i: nat, id: nat | i < n && ClaimsAt(run, steps, i, id, key) && !FailedBetween(steps, id, i, n)
      ensures MayClaim(run[n].claims, key, run[n].now) ==> run[n].now - run[i].now >= COOLDOWN
    {
      TaskStays(run, steps, i, id, key, n);
      RunKeepsInv(run, steps, n);
      assert Covered(run[n], run[n].tasks[id]);
    }
    if !MayClaim(run[n].claims, key, run[n].now) {
      var i, id := ClaimIsOnRecord(run, steps, key, n);
    }
  }

  /** A task that fails gives back its own claim or nothing: whatever claim another task holds, it
      still holds afterwards. */
  lemma FailureReleasesOnlyItsOwnClaim(run: seq<State>, steps: seq<Step>, n: nat, id: nat, other: nat)
    requires IsRun(run, steps) && n < |steps| && steps[n] == Finish(id, Failed)
    requires other in run[n].tasks && other != id && Holds(run[n], run[n].tasks[other])
    ensures Holds(run[n + 1], run[n].tasks[other])
  {
    RunKeepsInv(run, steps, n);
    var s := run[n];
    assert s.tasks[id].key == s.tasks[other].key ==> Apart(s.tasks[id], s.tasks[other]);
  }

  /** With sends bounded by their timeout, a key has at most one send in flight. */
  lemma AtMostOneSendInFlight(run: seq<State>, steps: seq<Step>, n: nat, i: nat, j: nat)
    requires IsRun(run, steps) && n < |run| && SendsAreBounded(run[n])
    requires Sending(run[n], i) && Sending(run[n], j) && run[n].tasks[i].key == run[n].tasks[j].key
    ensures i == j
  {
    RunKeepsInv(run, steps, n);
    var s := run[n];
    assert Covered(s, s.tasks[i]) && Covered(s, s.tasks[j]);
    assert i != j ==> Apart(s.tasks[i], s.tasks[j]);
  }

  /** After a failed send, the next refusal of that key sends again, however soon it comes. */
  lemma NextRefusalAfterAFailureSends(run: seq<State>, steps: seq<Step>, n: nat, id: nat, next: nat)
    requires IsRun(run, steps) && n < |steps| && steps[n] == Finish(id, Failed)
    requires SendsAreBounded(run[n]) && next !in run[n + 1].tasks
    ensures Sending(Next(run[n + 1], Refuse(next, run[n].tasks[id].key)), next)
  {
    RunKeepsInv(run, steps, n);
    assert Covered(run[n], run[n].tasks[id]);
  }

  /** A refusal within the cooldown of an alert that was delivered, or logged, sends nothing and changes nothing. */
  lemma QuietDuringTheCooldown(run: seq<State>, steps: seq<Step>, key: Key, i: nat, id: nat, f: nat, n: nat, next: nat)
    requires IsRun(run, steps) && ClaimsAt(run, steps, i, id, key) && EndsWell(steps, id, i, f) && f < n < |run|
    requires next !in run[n].tasks && run[n].now - run[i].now < COOLDOWN
    ensures Next(run[n], Refuse(next, key)) == run[n]
  {
    EndsForGood(run, steps, i, id, key, f, n);
    RefusalSendsIff(run, steps, n, next, key);
  }

  /** Without the bound on sends two of them can be in flight: one stalls for a whole cooldown, and
      the next refusal claims in its turn. */
  lemma UnboundedSendsOverlap() returns (run: seq<State>, steps: seq<Step>)
    ensures IsRun(run, steps) && |run| == 4
    ensures Sending(run[3], 1) && Sending(run[3], 2) && run[3].tasks[1].key == run[3].tasks[2].key
  {
    var key := Key("read:export", 7);
    steps := [Refuse(1, key), Tick(COOLDOWN), Refuse(2, key)];
    var start := State(map[], 0.0, map[]);
    var a := Next(start, steps[0]);
    var b := Next(a, steps[1]);
    run := [start, a, b, Next(b, steps[2])];
  }
}
