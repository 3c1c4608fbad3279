/** Several windows at once: `_check_windows` records a hit in every window or in none, and all
    the budgets of one bucket hold together. */
module WindowBudgets {
  import opened Counting
  import opened RateLimit
  import opened RateLimitHistory

  ghost predicate DistinctNames(bucket: string, ws: seq<Window>) {
    forall i, j :: 0 <= i < j < |ws| ==> NameOf(bucket, ws[i]) != NameOf(bucket, ws[j])
  }

  ghost predicate Nondecreasing(clock: seq<real>) {
    forall i, j :: 0 <= i <= j < |clock| ==> clock[i] <= clock[j]
  }

  predicate Full(windows: map<BucketName, Bucket>, bucket: string, a: Actor, w: Window, now: real) {
    Over(Lookup(windows, NameOf(bucket, w)), a, w.limit, w.seconds, now)
  }

  /** The first window from `i` on that is full at `now`, or `|ws|`. */
  function FirstFull(windows: map<BucketName, Bucket>, bucket: string, a: Actor, ws: seq<Window>, i: nat, now: real): (f: nat)
    requires i <= |ws|
    ensures i <= f <= |ws|
    ensures forall k :: i <= k < f ==> !Full(windows, bucket, a, ws[k], now)
    ensures f < |ws| ==> Full(windows, bucket, a, ws[f], now)
    decreases |ws| - i
  {
    if i == |ws| || Full(windows, bucket, a, ws[i], now) then i
    else FirstFull(windows, bucket, a, ws, i + 1, now)
  }

  function Names(bucket: string, ws: seq<Window>): seq<BucketName> {
    seq(|ws|, i requires 0 <= i < |ws| => NameOf(bucket, ws[i]))
  }

  /** Either the call was let through and every window gained this one hit, or it was refused and
      no window gained any. */
  ghost predicate AllOrNothing(o: Outcome, bucket: string, ws: seq<Window>) {
    if o.refused then o.recorded == [] else o.recorded == Names(bucket, ws)
  }

  // --- Any readings of the clock ------------------------------------------------------

  lemma {:induction false} InspectSkips(o: Outcome, bucket: string, a: Actor, ws: seq<Window>, i: nat, j: nat, clock: seq<real>)
    requires i <= j <= |ws| && !o.refused && o.ticks + (|ws| - i) <= |clock| && 0 < |clock|
    requires forall k :: i <= k < j ==> !Full(o.windows, bucket, a, ws[k], clock[0])
    ensures Inspect(o, bucket, a, ws, i, clock) == Inspect(o, bucket, a, ws, j, clock)
    decreases j - i
  {
    hide OneCheck, Over;
    if i < j {
      InspectSkips(o, bucket, a, ws, i + 1, j, clock);
    }
  }

  lemma {:induction false} InspectGrows(o: Outcome, bucket: string, a: Actor, ws: seq<Window>, i: nat, clock: seq<real>)
    requires i <= |ws| && !o.refused && o.ticks + (|ws| - i) <= |clock|
    ensures |Inspect(o, bucket, a, ws, i, clock).recorded| >= |o.recorded|
    decreases |ws| - i
  {
    hide Checked, Over;
    if i < |ws| {
      if Full(o.windows, bucket, a, ws[i], clock[0]) {
        var o' := OneCheck(o, NameOf(bucket, ws[i]), a, ws[i], clock);
        if !o'.refused {
          InspectGrows(o', bucket, a, ws, i + 1, clock);
        }
      } else {
        InspectGrows(o, bucket, a, ws, i + 1, clock);
      }
    }
  }

  lemma {:induction false} RecordGrows(o: Outcome, bucket: string, a: Actor, ws: seq<Window>, i: nat, clock: seq<real>)
    requires i <= |ws| && !o.refused && o.ticks + (|ws| - i) <= |clock|
    ensures var r := Record(o, bucket, a, ws, i, clock);
            |r.recorded| >= |o.recorded| && (!r.refused ==> |r.recorded| == |o.recorded| + |ws| - i)
    decreases |ws| - i
  {
    hide Checked, Over;
    if i < |ws| {
      var o' := OneCheck(o, NameOf(bucket, ws[i]), a, ws[i], clock);
      if !o'.refused {
        RecordGrows(o', bucket, a, ws, i + 1, clock);
      }
    }
  }

  /** Waiting can only free a window, never fill it. */
  lemma NotFullLater(windows: map<BucketName, Bucket>, bucket: string, a: Actor, w: Window, now: real, later: real)
    requires now <= later && !Full(windows, bucket, a, w, now)
    ensures !Full(windows, bucket, a, w, later)
  {
    LiveTwice(Lookup(windows, NameOf(bucket, w)).Log(a), now - w.seconds, later - w.seconds);
  }

  lemma {:induction false} RecordsAll(o: Outcome, bucket: string, a: Actor, ws: seq<Window>, i: nat, clock: seq<real>)
    requires i <= |ws| && !o.refused && o.ticks + (|ws| - i) <= |clock| && 0 < |clock|
    requires DistinctNames(bucket, ws) && Nondecreasing(clock)
    requires forall k :: i <= k < |ws| ==> !Full(o.windows, bucket, a, ws[k], clock[0])
    ensures var r := Record(o, bucket, a, ws, i, clock);
            !r.refused && r.recorded == o.recorded + Names(bucket, ws)[i..]
    decreases |ws| - i
  {
    FirstName(bucket, ws, i);
    if i < |ws| {
      var o' := OneCheck(o, NameOf(bucket, ws[i]), a, ws[i], clock);
      RecordsOne(o, bucket, a, ws, i, clock);
      assert Record(o, bucket, a, ws, i, clock) == Record(o', bucket, a, ws, i + 1, clock);
      hide *;
      RecordsAll(o', bucket, a, ws, i + 1, clock);
      OneMoreName(o.recorded, NameOf(bucket, ws[i]), Names(bucket, ws)[i + 1..]);
    }
  }

  lemma OneMoreName(a: seq<BucketName>, name: BucketName, b: seq<BucketName>)
    ensures (a + [name]) + b == a + ([name] + b)
  {
  }

  lemma FirstName(bucket: string, ws: seq<Window>, i: nat)
    requires i <= |ws|
    ensures i < |ws| ==> Names(bucket, ws)[i..] == [NameOf(bucket, ws[i])] + Names(bucket, ws)[i + 1..]
    ensures i == |ws| ==> Names(bucket, ws)[i..] == []
  {
  }

  lemma RecordsOne(o: Outcome, bucket: string, a: Actor, ws: seq<Window>, i: nat, clock: seq<real>)
    requires i < |ws| && o.ticks < |clock| && 0 < |clock| && DistinctNames(bucket, ws) && Nondecreasing(clock)
    requires forall k :: i <= k < |ws| ==> !Full(o.windows, bucket, a, ws[k], clock[0])
    ensures var o' := OneCheck(o, NameOf(bucket, ws[i]), a, ws[i], clock);
            && !o'.refused && o'.recorded == o.recorded + [NameOf(bucket, ws[i])]
            && forall k :: i + 1 <= k < |ws| ==> !Full(o'.windows, bucket, a, ws[k], clock[0])
  {
    hide Checked, Over, Live;
    NotFullLater(o.windows, bucket, a, ws[i], clock[0], clock[o.ticks]);
    OthersUntouched(o, bucket, a, ws, i, clock);
  }

  lemma OthersUntouched(o: Outcome, bucket: string, a: Actor, ws: seq<Window>, i: nat, clock: seq<real>)
    requires i < |ws| && o.ticks < |clock| && DistinctNames(bucket, ws)
    ensures var o' := OneCheck(o, NameOf(bucket, ws[i]), a, ws[i], clock);
            forall k :: 0 <= k < |ws| && k != i ==>
              Lookup(o'.windows, NameOf(bucket, ws[k])) == Lookup(o.windows, NameOf(bucket, ws[k]))
  {
    hide Checked, Over, Live;
    forall k | 0 <= k < |ws| && k != i
      ensures NameOf(bucket, ws[k]) != NameOf(bucket, ws[i])
    {
      assert if k < i then NameOf(bucket, ws[k]) != NameOf(bucket, ws[i]) else NameOf(bucket, ws[i]) != NameOf(bucket, ws[k]);
    }
  }

  /** The promise "every window or none" holds exactly when the first window found full is still
      full at the next reading of the clock, the one `_check` takes itself. */
  lemma AllOrNothingIff(windows: map<BucketName, Bucket>, bucket: string, a: Actor, ws: seq<Window>, clock: seq<real>)
    requires DistinctNames(bucket, ws) && Nondecreasing(clock) && |clock| > 2 * |ws|
    ensures var f := FirstFull(windows, bucket, a, ws, 0, clock[0]);
            AllOrNothing(CheckedWindows(windows, bucket, a, ws, clock), bucket, ws)
            <==> (f < |ws| ==> Full(windows, bucket, a, ws[f], clock[1]))
  {
    var f := FirstFull(windows, bucket, a, ws, 0, clock[0]);
    if f == |ws| {
      NoneFull(windows, bucket, a, ws, clock);
    } else {
      FirstIsChecked(windows, bucket, a, ws, clock, f);
      hide *;
      FirstDecides(windows, bucket, a, ws, clock, f);
    }
  }

  /** With no window full at the first reading, all are recorded. */
  lemma NoneFull(windows: map<BucketName, Bucket>, bucket: string, a: Actor, ws: seq<Window>, clock: seq<real>)
    requires DistinctNames(bucket, ws) && Nondecreasing(clock) && |clock| > 2 * |ws|
    requires forall k :: 0 <= k < |ws| ==> !Full(windows, bucket, a, ws[k], clock[0])
    ensures AllOrNothing(CheckedWindows(windows, bucket, a, ws, clock), bucket, ws)
  {
    var start := Outcome(windows, false, [], 1);
    InspectSkips(start, bucket, a, ws, 0, |ws|, clock);
    RecordsAll(start, bucket, a, ws, 0, clock);
    hide Full, DistinctNames, Nondecreasing;
  }

  /** The check of the first full window, at the next reading. */
  function FirstCheck(windows: map<BucketName, Bucket>, bucket: string, a: Actor, ws: seq<Window>, clock: seq<real>, f: nat): Outcome
    requires f < |ws| && |clock| > 2 * |ws|
  {
    OneCheck(Outcome(windows, false, [], 1), NameOf(bucket, ws[f]), a, ws[f], clock)
  }

  lemma FirstIsChecked(windows: map<BucketName, Bucket>, bucket: string, a: Actor, ws: seq<Window>, clock: seq<real>, f: nat)
    requires |clock| > 2 * |ws| && f == FirstFull(windows, bucket, a, ws, 0, clock[0]) < |ws|
    ensures var o := FirstCheck(windows, bucket, a, ws, clock, f);
            && (o.refused <==> Full(windows, bucket, a, ws[f], clock[1])) && o.ticks == 2 && (o.refused ==> o.recorded == [])
            && (!o.refused ==> |o.recorded| == 1)
            && Inspect(Outcome(windows, false, [], 1), bucket, a, ws, 0, clock)
               == if o.refused then o else Inspect(o, bucket, a, ws, f + 1, clock)
  {
    hide Checked, Live;
    InspectSkips(Outcome(windows, false, [], 1), bucket, a, ws, 0, f, clock);
  }

  /** What has been recorded once stays, and all the windows come on top of it. */
  lemma OneTooMany(o: Outcome, bucket: string, a: Actor, ws: seq<Window>, f: nat, clock: seq<real>)
    requires |clock| > 2 * |ws| && f < |ws| && !o.refused && o.ticks == 2 && |o.recorded| == 1
    ensures var inspected := Inspect(o, bucket, a, ws, f + 1, clock);
            && |inspected.recorded| >= 1
            && (!inspected.refused ==>
                  var r := Record(inspected, bucket, a, ws, 0, clock);
                  |r.recorded| >= 1 && (!r.refused ==> |r.recorded| > |ws|))
  {
    hide Inspect, Record;
    InspectGrows(o, bucket, a, ws, f + 1, clock);
    var inspected := Inspect(o, bucket, a, ws, f + 1, clock);
    if !inspected.refused {
      RecordGrows(inspected, bucket, a, ws, 0, clock);
    }
  }

  lemma NotAllOrNothing(o: Outcome, bucket: string, ws: seq<Window>)
    requires |o.recorded| >= 1 && (!o.refused ==> |o.recorded| > |ws|)
    ensures !AllOrNothing(o, bucket, ws)
  {
    assert |Names(bucket, ws)| == |ws|;
  }

  /** When it is let through, something is recorded, and with all the others that is one too many. */
  lemma FirstDecides(windows: map<BucketName, Bucket>, bucket: string, a: Actor, ws: seq<Window>, clock: seq<real>, f: nat)
    requires |clock| > 2 * |ws| && f < |ws|
    requires var o := FirstCheck(windows, bucket, a, ws, clock, f);
             && o.ticks == 2 && (o.refused ==> o.recorded == []) && (!o.refused ==> |o.recorded| == 1)
             && Inspect(Outcome(windows, false, [], 1), bucket, a, ws, 0, clock)
                == if o.refused then o else Inspect(o, bucket, a, ws, f + 1, clock)
    ensures AllOrNothing(CheckedWindows(windows, bucket, a, ws, clock), bucket, ws)
            <==> FirstCheck(windows, bucket, a, ws, clock, f).refused
  {
    hide FirstCheck, Inspect, Record, Names, OneCheck, Full, Over, Lookup;
    var o := FirstCheck(windows, bucket, a, ws, clock, f);
    if !o.refused {
      hide AllOrNothing;
      OneTooMany(o, bucket, a, ws, f, clock);
      NotAllOrNothing(CheckedWindows(windows, bucket, a, ws, clock), bucket, ws);
    }
  }

  /** With one window, a full one is checked twice. */
  lemma OneWindowIsCheckedTwice(windows: map<BucketName, Bucket>, bucket: string, a: Actor, w: Window, clock: seq<real>)
    requires |clock| > 2 && Full(windows, bucket, a, w, clock[0])
    ensures var first := OneCheck(Outcome(windows, false, [], 1), NameOf(bucket, w), a, w, clock);
            CheckedWindows(windows, bucket, a, [w], clock)
            == if first.refused then first else OneCheck(first, NameOf(bucket, w), a, w, clock)
  {
    hide Over, OneCheck;
    var start := Outcome(windows, false, [], 1);
    var first := OneCheck(start, NameOf(bucket, w), a, w, clock);
    if !first.refused {
      assert Inspect(first, bucket, a, [w], 1, clock) == first;
      var second := OneCheck(first, NameOf(bucket, w), a, w, clock);
      assert !second.refused ==> Record(second, bucket, a, [w], 1, clock) == second;
    }
  }

  /** Two readings apart, one limit of one: the hit ages out between them, is recorded, and the
      second loop then refuses the call that has already been counted. */
  lemma AgingBetweenReadingsBreaksIt()
    ensures var w := Window(1, 10.0);
            var log := map[Windowed("read:browse", 10) := Bucket([User(7)], map[User(7) := [0.0]])];
            var o := CheckedWindows(log, "read:browse", User(7), [w], [9.5, 10.0, 10.5]);
            o.refused && o.recorded == [Windowed("read:browse", 10)]
  {
    var w, clock := Window(1, 10.0), [9.5, 10.0, 10.5];
    var b := Bucket([User(7)], map[User(7) := [0.0]]);
    var name := Windowed("read:browse", 10);
    var log := map[name := b];
    assert NameOf("read:browse", w) == name;
    assert Live([0.0], -0.5) == [0.0] && Live([0.0], 0.0) == [] && Live([10.0], 0.5) == [10.0];
    CheckedLog(b, Touch(User(7), 10.0), User(7), Config(1, 10.0, MAX_ACTORS_PER_BUCKET));
    hide Live, Checked, NameOf, CheckedWindows;
    OneWindowIsCheckedTwice(log, "read:browse", User(7), w, clock);
    var first := OneCheck(Outcome(log, false, [], 1), name, User(7), w, clock);
    assert !first.refused && first.recorded == [] + [name] && first.ticks == 2;
    assert Lookup(first.windows, name).Log(User(7)) == [10.0];
  }

  // --- One instant per call: every window cuts one shared history -------------------------

  /** Every reading of the clock during one call is the same instant. */
  function Instant(now: real, ws: seq<Window>): seq<real> {
    seq(2 * |ws| + 1, _ => now)
  }

  function Called(windows: map<BucketName, Bucket>, bucket: string, e: Touch, ws: seq<Window>): Outcome {
    CheckedWindows(windows, bucket, e.actor, ws, Instant(e.at, ws))
  }

  /** The buckets after a run of calls to `_check_windows` that started with none. */
  function AfterCalls(run: seq<Touch>, bucket: string, ws: seq<Window>): map<BucketName, Bucket> {
    if run == [] then map[] else Called(AfterCalls(Front(run), bucket, ws), bucket, Last(run), ws).windows
  }

  predicate CallAdmitted(run: seq<Touch>, bucket: string, ws: seq<Window>)
    requires run != []
  {
    !Called(AfterCalls(Front(run), bucket, ws), bucket, Last(run), ws).refused
  }

  /** The times `a` was let through. */
  function AdmittedCalls(run: seq<Touch>, a: Actor, bucket: string, ws: seq<Window>): seq<real> {
    if run == [] then []
    else AdmittedCalls(Front(run), a, bucket, ws)
         + (if Last(run).actor == a && CallAdmitted(run, bucket, ws) then [Last(run).at] else [])
  }

  /** Two states agree on a window. */
  predicate SameIn(before: map<BucketName, Bucket>, after: map<BucketName, Bucket>, bucket: string, w: Window) {
    Lookup(after, NameOf(bucket, w)) == Lookup(before, NameOf(bucket, w))
  }

  /** Between two states, a window had one check. */
  predicate CheckedIn(before: map<BucketName, Bucket>, after: map<BucketName, Bucket>, bucket: string, w: Window, e: Touch) {
    Lookup(after, NameOf(bucket, w))
    == Checked(Lookup(before, NameOf(bucket, w)), e.actor, w.limit, w.seconds, e.at, MAX_ACTORS_PER_BUCKET)
  }

  lemma OneCheckEffect(o: Outcome, bucket: string, e: Touch, ws: seq<Window>, i: nat)
    requires i < |ws| && o.ticks < 2 * |ws| + 1 && DistinctNames(bucket, ws)
    ensures var o' := OneCheck(o, NameOf(bucket, ws[i]), e.actor, ws[i], Instant(e.at, ws));
            && (o'.refused <==> Full(o.windows, bucket, e.actor, ws[i], e.at))
            && CheckedIn(o.windows, o'.windows, bucket, ws[i], e)
            && forall k :: 0 <= k < |ws| && k != i ==> SameIn(o.windows, o'.windows, bucket, ws[k])
  {
    hide Checked, Live;
    OthersUntouched(o, bucket, e.actor, ws, i, Instant(e.at, ws));
  }

  lemma SameMeansSame(before: map<BucketName, Bucket>, after: map<BucketName, Bucket>, bucket: string, w: Window, e: Touch)
    requires SameIn(before, after, bucket, w)
    ensures Full(after, bucket, e.actor, w, e.at) == Full(before, bucket, e.actor, w, e.at)
    ensures forall end :: CheckedIn(after, end, bucket, w, e) <==> CheckedIn(before, end, bucket, w, e)
    ensures forall start :: CheckedIn(start, after, bucket, w, e) <==> CheckedIn(start, before, bucket, w, e)
  {
    hide Checked, Over;
  }

  /** A check before the others: what it changed they leave, and what it left they change. */
  lemma Glue(before: map<BucketName, Bucket>, middle: map<BucketName, Bucket>, after: map<BucketName, Bucket>,
             bucket: string, e: Touch, ws: seq<Window>, i: nat)
    requires i < |ws|
    requires forall k :: 0 <= k < |ws| && k != i ==> SameIn(before, middle, bucket, ws[k])
    requires CheckedIn(before, middle, bucket, ws[i], e)
    requires forall k :: 0 <= k < i + 1 ==> SameIn(middle, after, bucket, ws[k])
    requires forall k :: i + 1 <= k < |ws| ==> CheckedIn(middle, after, bucket, ws[k], e)
    ensures forall k :: 0 <= k < i ==> SameIn(before, after, bucket, ws[k])
    ensures forall k :: i <= k < |ws| ==> CheckedIn(before, after, bucket, ws[k], e)
  {
    forall k | 0 <= k < i
      ensures SameIn(before, after, bucket, ws[k])
    {
      assert SameIn(before, middle, bucket, ws[k]) && SameIn(middle, after, bucket, ws[k]);
    }
    hide *;
    forall k | i <= k < |ws|
      ensures CheckedIn(before, after, bucket, ws[k], e)
    {
      if k == i {
        SameMeansSame(middle, after, bucket, ws[i], e);
      } else {
        SameMeansSame(before, middle, bucket, ws[k], e);
      }
    }
  }

  lemma {:induction false} RecordEffect(o: Outcome, bucket: string, e: Touch, ws: seq<Window>, i: nat)
    requires i <= |ws| && !o.refused && o.ticks + (|ws| - i) <= 2 * |ws| + 1 && DistinctNames(bucket, ws)
    requires forall k :: i <= k < |ws| ==> !Full(o.windows, bucket, e.actor, ws[k], e.at)
    ensures var r := Record(o, bucket, e.actor, ws, i, Instant(e.at, ws));
            && !r.refused
            && (forall k :: 0 <= k < i ==> SameIn(o.windows, r.windows, bucket, ws[k]))
            && (forall k :: i <= k < |ws| ==> CheckedIn(o.windows, r.windows, bucket, ws[k], e))
    decreases |ws| - i
  {
    hide OneCheck, Full, CheckedIn, NameOf, DistinctNames;
    if i < |ws| {
      var clock := Instant(e.at, ws);
      var o' := OneCheck(o, NameOf(bucket, ws[i]), e.actor, ws[i], clock);
      OneCheckEffect(o, bucket, e, ws, i);
      hide SameIn;
      forall k | i + 1 <= k < |ws|
        ensures !Full(o'.windows, bucket, e.actor, ws[k], e.at)
      {
        SameMeansSame(o.windows, o'.windows, bucket, ws[k], e);
      }
      RecordEffect(o', bucket, e, ws, i + 1);
      Glue(o.windows, o'.windows, Record(o', bucket, e.actor, ws, i + 1, clock).windows, bucket, e, ws, i);
    }
  }

  /** One call at one instant: it is refused exactly when some window is full. Then the first full window had
      one check and no other was touched; otherwise every window had one. */
  lemma CallEffect(windows: map<BucketName, Bucket>, bucket: string, e: Touch, ws: seq<Window>)
    requires DistinctNames(bucket, ws)
    ensures var o := Called(windows, bucket, e, ws);
            var f := FirstFull(windows, bucket, e.actor, ws, 0, e.at);
            && (o.refused <==> f < |ws|)
            && forall k :: 0 <= k < |ws| ==>
                 if !o.refused || k == f then CheckedIn(windows, o.windows, bucket, ws[k], e) else SameIn(windows, o.windows, bucket, ws[k])
  {
    hide OneCheck, Full, CheckedIn, SameIn, DistinctNames;
    var f := FirstFull(windows, bucket, e.actor, ws, 0, e.at);
    var start := Outcome(windows, false, [], 1);
    var clock := Instant(e.at, ws);
    assert clock[0] == e.at;
    InspectSkips(start, bucket, e.actor, ws, 0, f, clock);
    if f == |ws| {
      RecordEffect(start, bucket, e, ws, 0);
    } else {
      OneCheckEffect(start, bucket, e, ws, f);
      FullIsChecked(start, bucket, e.actor, ws, f, clock);
    }
  }

  lemma FullIsChecked(o: Outcome, bucket: string, a: Actor, ws: seq<Window>, i: nat, clock: seq<real>)
    requires i < |ws| && !o.refused && o.ticks + (|ws| - i) <= |clock| && 0 < |clock|
    requires Full(o.windows, bucket, a, ws[i], clock[0])
    ensures var o' := OneCheck(o, NameOf(bucket, ws[i]), a, ws[i], clock);
            o'.refused ==> Inspect(o, bucket, a, ws, i, clock) == o'
  {
    hide Over, OneCheck;
  }

  // --- A window by itself ---------------------------------------------------------------------

  function ConfigOf(w: Window): Config {
    Config(w.limit, w.seconds, MAX_ACTORS_PER_BUCKET)
  }

  /** The checks window `k` had: those of the calls let through, and those of the calls it refused. */
  function ChecksOf(run: seq<Touch>, bucket: string, ws: seq<Window>, k: nat): seq<Touch> {
    if run == [] then []
    else
      ChecksOf(Front(run), bucket, ws, k)
      + (if CallAdmitted(run, bucket, ws) || FirstFull(AfterCalls(Front(run), bucket, ws), bucket, Last(run).actor, ws, 0, Last(run).at) == k
         then [Last(run)] else [])
  }

  /** The bucket of every window is what its own checks make of it. */
  lemma {:induction false} WindowFollowsItsChecks(run: seq<Touch>, bucket: string, ws: seq<Window>, k: nat)
    requires DistinctNames(bucket, ws) && k < |ws|
    ensures Lookup(AfterCalls(run, bucket, ws), NameOf(bucket, ws[k])) == After(ChecksOf(run, bucket, ws, k), ConfigOf(ws[k]))
  {
    hide Called, NameOf, Checked, DistinctNames, FirstFull;
    if run != [] {
      WindowFollowsItsChecks(Front(run), bucket, ws, k);
      CallEffect(AfterCalls(Front(run), bucket, ws), bucket, Last(run), ws);
      var past := ChecksOf(Front(run), bucket, ws, k);
      LastOf(past, Last(run));
      assert past + [] == past;
    }
  }

  lemma LastOf<T>(past: seq<T>, e: T)
    ensures past + [e] != [] && Front(past + [e]) == past && Last(past + [e]) == e
  {
  }

  /** What the last call was in a window that it checked. */
  lemma LastCheck(run: seq<Touch>, bucket: string, ws: seq<Window>, k: nat)
    requires DistinctNames(bucket, ws) && k < |ws| && run != []
    ensures var checks := ChecksOf(run, bucket, ws, k);
            var past := ChecksOf(Front(run), bucket, ws, k);
            var f := FirstFull(AfterCalls(Front(run), bucket, ws), bucket, Last(run).actor, ws, 0, Last(run).at);
            && (CallAdmitted(run, bucket, ws) <==> f == |ws|)
            && (checks == past || (checks != [] && Front(checks) == past && Last(checks) == Last(run)))
            && (f == |ws| ==> checks == past + [Last(run)] && checks != [] && Admits(checks, ConfigOf(ws[k])))
            && (f == k ==> checks == past + [Last(run)] && checks != [] && !Admits(checks, ConfigOf(ws[k])))
            && (f != |ws| && f != k ==> checks == past)
  {
    hide Called, NameOf, DistinctNames, Over;
    var past := ChecksOf(Front(run), bucket, ws, k);
    LastOf(past, Last(run));
    assert past + [] == past;
    CallEffect(AfterCalls(Front(run), bucket, ws), bucket, Last(run), ws);
    WindowFollowsItsChecks(Front(run), bucket, ws, k);
  }

  /** Every window let through the same calls: those that all windows let through. */
  lemma {:induction false} EveryWindowAdmitsTheSame(run: seq<Touch>, a: Actor, bucket: string, ws: seq<Window>, k: nat)
    requires DistinctNames(bucket, ws) && k < |ws|
    ensures Admitted(ChecksOf(run, bucket, ws, k), a, ConfigOf(ws[k])) == AdmittedCalls(run, a, bucket, ws)
  {
    if run != [] {
      EveryWindowAdmitsTheSame(Front(run), a, bucket, ws, k);
      LastCheck(run, bucket, ws, k);
      hide CallAdmitted, ChecksOf, Admits, FirstFull, DistinctNames;
      var past := AdmittedCalls(Front(run), a, bucket, ws);
      assert past + [] == past;
    }
  }

  lemma {:induction false} ChecksAreChronological(run: seq<Touch>, bucket: string, ws: seq<Window>, k: nat)
    requires Chronological(run)
    ensures Chronological(ChecksOf(run, bucket, ws, k))
    ensures forall e <- ChecksOf(run, bucket, ws, k) :: e in run
  {
    hide CallAdmitted, FirstFull;
    if run != [] {
      var past, e := Front(run), Last(run);
      assert e == run[|run| - 1] && forall i :: 0 <= i < |past| ==> past[i] == run[i];
      ChecksAreChronological(past, bucket, ws, k);
      var checks := ChecksOf(past, bucket, ws, k);
      forall t | t in checks
        ensures t.at <= e.at && t in run
      {
        assert t in past;
      }
    }
  }

  // --- One shared history ---------------------------------------------------------------------

  /** In no window was the actor pushed out while a hit of its own could still count. */
  ghost predicate NeverForgotten(run: seq<Touch>, a: Actor, bucket: string, ws: seq<Window>) {
    forall k :: 0 <= k < |ws| ==> NeverOutAged(ChecksOf(run, bucket, ws, k), a, ConfigOf(ws[k]))
  }

  lemma NeverForgottenFront(run: seq<Touch>, a: Actor, bucket: string, ws: seq<Window>)
    requires run != [] && DistinctNames(bucket, ws) && NeverForgotten(run, a, bucket, ws)
    ensures NeverForgotten(Front(run), a, bucket, ws)
  {
    hide NeverOutAged, ChecksOf, DistinctNames;
    forall k | 0 <= k < |ws|
      ensures NeverOutAged(ChecksOf(Front(run), bucket, ws, k), a, ConfigOf(ws[k]))
    {
      LastCheck(run, bucket, ws, k);
      if ChecksOf(run, bucket, ws, k) != ChecksOf(Front(run), bucket, ws, k) {
        NeverOutAgedFront(ChecksOf(run, bucket, ws, k), a, ConfigOf(ws[k]));
      }
    }
  }

  /** The shared history: a call counts when, on that history, no window is full. */
  function Shared(run: seq<Touch>, a: Actor, ws: seq<Window>): seq<real>
    decreases |run|, 0
  {
    if run == [] then []
    else Shared(Front(run), a, ws) + (if Last(run).actor == a && SharedRoom(run, ws) then [Last(run).at] else [])
  }

  predicate SharedRoom(run: seq<Touch>, ws: seq<Window>)
    requires run != []
    decreases |run| - 1, 1
  {
    forall k :: 0 <= k < |ws| ==> RoomIn(Shared(Front(run), Last(run).actor, ws), Last(run).at, ws[k])
  }

  predicate RoomIn(history: seq<real>, now: real, w: Window) {
    |Live(history, now - w.seconds)| < w.limit
  }

  lemma {:induction false} AdmittedIsShared(run: seq<Touch>, a: Actor, bucket: string, ws: seq<Window>)
    requires Chronological(run) && DistinctNames(bucket, ws) && NeverForgotten(run, a, bucket, ws)
    ensures AdmittedCalls(run, a, bucket, ws) == Shared(run, a, ws)
    decreases |run|, 1
  {
    hide CallAdmitted, NeverForgotten, SharedRoom, DistinctNames;
    if run != [] {
      ChronologicalFront(run);
      NeverForgottenFront(run, a, bucket, ws);
      AdmittedIsShared(Front(run), a, bucket, ws);
      if Last(run).actor == a {
        DecidesOnTheSharedHistory(run, bucket, ws);
      }
    }
  }

  lemma ChronologicalFront(run: seq<Touch>)
    requires run != [] && Chronological(run)
    ensures Chronological(Front(run))
  {
    assert forall i :: 0 <= i < |Front(run)| ==> Front(run)[i] == run[i];
  }

  /** A call of an actor never forgotten is let through exactly when no window is full on its shared history. */
  lemma {:induction false} DecidesOnTheSharedHistory(run: seq<Touch>, bucket: string, ws: seq<Window>)
    requires run != [] && Chronological(run) && DistinctNames(bucket, ws) && NeverForgotten(run, Last(run).actor, bucket, ws)
    ensures CallAdmitted(run, bucket, ws) <==> SharedRoom(run, ws)
    decreases |run| - 1, 2
  {
    var a := Last(run).actor;
    ChronologicalFront(run);
    NeverForgottenFront(run, a, bucket, ws);
    AdmittedIsShared(Front(run), a, bucket, ws);
    var f := FirstFull(AfterCalls(Front(run), bucket, ws), bucket, a, ws, 0, Last(run).at);
    CallEffect(AfterCalls(Front(run), bucket, ws), bucket, Last(run), ws);
    hide AfterCalls, Called, FirstFull, RoomIn, DistinctNames, Chronological;
    if f == |ws| {
      forall k | 0 <= k < |ws|
        ensures RoomIn(Shared(Front(run), a, ws), Last(run).at, ws[k])
      {
        WindowDecides(run, bucket, ws, k);
      }
    } else {
      WindowDecides(run, bucket, ws, f);
    }
  }

  /** A window that was checked decided on the shared history. */
  lemma WindowDecides(run: seq<Touch>, bucket: string, ws: seq<Window>, k: nat)
    requires run != [] && k < |ws| && DistinctNames(bucket, ws) && Chronological(run) && NeverForgotten(run, Last(run).actor, bucket, ws)
    requires AdmittedCalls(Front(run), Last(run).actor, bucket, ws) == Shared(Front(run), Last(run).actor, ws)
    ensures var f := FirstFull(AfterCalls(Front(run), bucket, ws), bucket, Last(run).actor, ws, 0, Last(run).at);
            && (f == |ws| ==> RoomIn(Shared(Front(run), Last(run).actor, ws), Last(run).at, ws[k]))
            && (f == k ==> !RoomIn(Shared(Front(run), Last(run).actor, ws), Last(run).at, ws[k]))
  {
    hide *;
    var a, c := Last(run).actor, ConfigOf(ws[k]);
    ForgottenInNone(run, a, bucket, ws, k);
    ConfigIs(ws[k]);
    LastCheck(run, bucket, ws, k);
    var checks := ChecksOf(run, bucket, ws, k);
    if checks != ChecksOf(Front(run), bucket, ws, k) {
      ChecksAreChronological(run, bucket, ws, k);
      EveryWindowAdmitsTheSame(Front(run), a, bucket, ws, k);
      CheckDecides(checks, c);
      RoomIs(Admitted(Front(checks), a, c), Last(run).at, ws[k]);
    }
  }

  lemma ForgottenInNone(run: seq<Touch>, a: Actor, bucket: string, ws: seq<Window>, k: nat)
    requires NeverForgotten(run, a, bucket, ws) && k < |ws|
    ensures NeverOutAged(ChecksOf(run, bucket, ws, k), a, ConfigOf(ws[k]))
  {
  }

  /** A check decides on what was let through before it. */
  lemma CheckDecides(checks: seq<Touch>, c: Config)
    requires c.cap >= 1 && checks != [] && Chronological(checks) && NeverOutAged(checks, Last(checks).actor, c)
    ensures Admits(checks, c) <==> |Live(Admitted(Front(checks), Last(checks).actor, c), Last(checks).at - c.window)| < c.limit
  {
    IdealDecides(checks, c);
    hide *;
    DecidesAsIdeal(checks, c);
    NeverOutAgedFront(checks, Last(checks).actor, c);
    ChronologicalFront(checks);
    AdmittedIsIdeal(Front(checks), Last(checks).actor, c);
  }

  lemma IdealDecides(checks: seq<Touch>, c: Config)
    requires checks != []
    ensures IdealAdmits(checks, c) <==> |Live(Ideal(Front(checks), Last(checks).actor, c), Last(checks).at - c.window)| < c.limit
  {
  }

  lemma RoomIs(history: seq<real>, now: real, w: Window)
    ensures RoomIn(history, now, w) <==> |Live(history, now - ConfigOf(w).window)| < ConfigOf(w).limit
  {
  }

  function LogIn(windows: map<BucketName, Bucket>, bucket: string, w: Window, a: Actor): seq<real> {
    Lookup(windows, NameOf(bucket, w)).Log(a)
  }

  /** The log of an actor never forgotten is its shared history, cut to the window's length: the two agree on
      every hit later than a cutoff no earlier than any used for it, while the window keeps it. */
  lemma EveryLogCutsTheSharedHistory(run: seq<Touch>, a: Actor, bucket: string, ws: seq<Window>, k: nat, cutoff: real)
    requires Chronological(run) && DistinctNames(bucket, ws) && NeverForgotten(run, a, bucket, ws) && k < |ws|
    requires Stale(run, a, cutoff + ws[k].seconds)
    requires |OthersSince(ChecksOf(run, bucket, ws, k), a)| < MAX_ACTORS_PER_BUCKET || Stale(run, a, cutoff)
    ensures Live(LogIn(AfterCalls(run, bucket, ws), bucket, ws[k], a), cutoff) == Live(Shared(run, a, ws), cutoff)
  {
    var checks, c := ChecksOf(run, bucket, ws, k), ConfigOf(ws[k]);
    ChecksAreChronological(run, bucket, ws, k);
    StaleChecks(run, checks, a, cutoff);
    StaleChecks(run, checks, a, cutoff + ws[k].seconds);
    hide Stale, Chronological, DistinctNames, Live, NeverOutAged, ChecksOf, OthersSince;
    WindowFollowsItsChecks(run, bucket, ws, k);
    LogsAgree(checks, a, c, cutoff);
    AdmittedIsIdeal(checks, a, c);
    EveryWindowAdmitsTheSame(run, a, bucket, ws, k);
    AdmittedIsShared(run, a, bucket, ws);
  }

  lemma StaleChecks(run: seq<Touch>, checks: seq<Touch>, a: Actor, cutoff: real)
    requires forall e <- checks :: e in run
    ensures Stale(run, a, cutoff) ==> Stale(checks, a, cutoff)
  {
    forall i | 0 <= i < |checks| && checks[i].actor == a && Stale(run, a, cutoff)
      ensures checks[i].at <= cutoff
    {
      assert checks[i] in run;
    }
  }

  /** All the budgets of a bucket hold at once over any run of calls, for every actor never forgotten: in each
      window in which it was never out-aged. */
  lemma AllBudgetsHold(run: seq<Touch>, a: Actor, bucket: string, ws: seq<Window>, k: nat, after: real)
    requires Chronological(run) && DistinctNames(bucket, ws) && k < |ws| && ws[k].limit >= 0
    requires NeverOutAged(ChecksOf(run, bucket, ws, k), a, ConfigOf(ws[k]))
    ensures |Within(AdmittedCalls(run, a, bucket, ws), after, after + ws[k].seconds)| <= ws[k].limit
  {
    hide *;
    ChecksAreChronological(run, bucket, ws, k);
    ConfigIs(ws[k]);
    EveryWindowAdmitsTheSame(run, a, bucket, ws, k);
    AtMostLimitInAnyWindow(ChecksOf(run, bucket, ws, k), a, ConfigOf(ws[k]), after);
  }

  lemma ConfigIs(w: Window)
    ensures ConfigOf(w).limit == w.limit && ConfigOf(w).window == w.seconds && ConfigOf(w).cap >= 1
  {
  }

  function ActorsOf(run: seq<Touch>): set<Actor> {
    set e | e in run :: e.actor
  }

  /** Nobody is forgotten in a run of no more actors than one bucket holds. */
  lemma FewActorsAreNeverForgotten(run: seq<Touch>, a: Actor, bucket: string, ws: seq<Window>)
    requires Chronological(run) && |ActorsOf(run)| <= MAX_ACTORS_PER_BUCKET
    ensures NeverForgotten(run, a, bucket, ws)
  {
    forall k | 0 <= k < |ws|
      ensures NeverOutAged(ChecksOf(run, bucket, ws, k), a, ConfigOf(ws[k]))
    {
      var checks := ChecksOf(run, bucket, ws, k);
      ChecksAreChronological(run, bucket, ws, k);
      hide ChecksOf, OthersSince, Chronological, Stale;
      forall n | 0 <= n < |checks| && checks[n].actor == a
        ensures |OthersSince(checks[..n], a)| < MAX_ACTORS_PER_BUCKET
      {
        OthersAreActors(checks[..n], a);
        assert checks[n] in checks && checks[n] in run;
        assert a in ActorsOf(run);
        FewerOthers(OthersSince(checks[..n], a), ActorsOf(run), a);
      }
    }
  }

  lemma FewerOthers(others: set<Actor>, all: set<Actor>, a: Actor)
    requires others <= all && a in all && a !in others
    ensures |others| < |all|
  {
    SubsetCount(others, all - {a});
  }

  lemma {:induction false} OthersAreActors(run: seq<Touch>, a: Actor)
    ensures OthersSince(run, a) <= ActorsOf(run) && a !in OthersSince(run, a)
  {
    if run != [] {
      OthersAreActors(Front(run), a);
      assert forall e :: e in run <==> e in Front(run) || e == Last(run);
    }
  }

  // --- The configured buckets ---------------------------------------------------------------

  const BROWSE_WINDOWS := [Window(240, 60.0), Window(2400, 3600.0)]
  const EXPORT_WINDOWS := [Window(20, 600.0), Window(60, 3600.0)]
  const CONTACT_LIST_WINDOWS := [Window(30, 600.0), Window(60, 3600.0)]

  /** So the results above apply to every bucket the application configures. */
  lemma ConfiguredWindowsAreDistinct(bucket: string)
    ensures DistinctNames(bucket, BROWSE_WINDOWS)
    ensures DistinctNames(bucket, EXPORT_WINDOWS)
    ensures DistinctNames(bucket, CONTACT_LIST_WINDOWS)
  {
    assert NameOf(bucket, Window(240, 60.0)).seconds == 60;
    assert NameOf(bucket, Window(2400, 3600.0)).seconds == 3600;
    assert NameOf(bucket, Window(20, 600.0)).seconds == 600;
  }
}
