/** Pruning old runs: which folders go, which stay, and what a dry run may promise. */
module Retention {
  import opened Wrappers
  import opened Counting
  import opened Text
  import opened Sorting
  import opened BackupFolders

  function Filter<T>(s: seq<T>, keep: T -> bool): seq<T> {
    if s == [] then [] else (if keep(s[0]) then [s[0]] else []) + Filter(s[1..], keep)
  }

  predicate IsRun(c: Child) {
    IsRunName(c.name) && c.isDir && !c.isLink
  }

  predicate IsOk(c: Child) {
    c.manifest.Some? && c.manifest.value.ok
  }

  function NewestFirst(): (Child, Child) -> bool {
    (a: Child, b: Child) => Leq(b.name, a.name)
  }

  function RunFolders(children: seq<Child>): seq<Child> {
    Sort(Filter(children, IsRun), NewestFirst())
  }

  function OkRuns(children: seq<Child>): seq<Child> {
    Filter(RunFolders(children), IsOk)
  }

  ghost predicate DistinctNames(children: seq<Child>) {
    forall i, j :: 0 <= i < j < |children| ==> children[i].name != children[j].name
  }

  /** `--keep` below one is refused. */
  function PlanPrune(children: seq<Child>, keep: int, current: string): Result<seq<Child>, string> {
    if keep < 1 then Err("--keep must be at least 1.")
    else Ok(Doomed(OkRuns(children), keep, current))
  }

  /** Beyond the `keep` newest, save for the run being written and the newest. */
  function Doomed(ok: seq<Child>, keep: nat, current: string): seq<Child> {
    if |ok| <= keep then [] else Filter(ok[keep..], NotNamed([current, ok[0].name]))
  }

  function NotNamed(names: seq<string>): Child -> bool {
    (c: Child) => c.name !in names
  }

  /** The folders a dry run names. */
  function DryRunDoomed(children: seq<Child>, keep: int): seq<Child>
    requires keep >= 1
  {
    var ok := OkRuns(children);
    if |ok| <= keep - 1 then [] else ok[keep - 1..]
  }

  /** A folder, not a link, named like a run, whose manifest can be read and says OK. */
  ghost predicate IsOkRun(c: Child) {
    IsRunName(c.name) && c.isDir && !c.isLink && c.manifest.Some? && c.manifest.value.ok
  }

  lemma OkRunIs(c: Child)
    ensures IsOkRun(c) <==> IsRun(c) && IsOk(c)
  {
  }

  /** The OK runs newer than a name. */
  ghost function NewerOk(children: seq<Child>, name: string): set<Child> {
    set c | c in children && IsOkRun(c) && Leq(name, c.name) && c.name != name
  }

  function Remaining(children: seq<Child>, names: seq<string>): seq<Child> {
    Filter(children, NotNamed(names))
  }

  function NamesOf(cs: seq<Child>): seq<string> {
    seq(|cs|, i requires 0 <= i < |cs| => cs[i].name)
  }

  lemma NamesAre(cs: seq<Child>)
    ensures |NamesOf(cs)| == |cs| && forall i :: 0 <= i < |cs| ==> NamesOf(cs)[i] == cs[i].name
  {
  }

  /** The names deleted before the first that cannot be. */
  function UntilStuck(names: seq<string>, stuck: set<string>): (r: seq<string>)
    ensures r <= names && forall n <- r :: n !in stuck
    ensures |r| < |names| ==> names[|r|] in stuck
  {
    if names == [] || names[0] in stuck then [] else [names[0]] + UntilStuck(names[1..], stuck)
  }

  /** The directory after pruning: without what was deleted, and with the first folder whose deletion raised
      left in some state, with the files `left` and a manifest if `readable`. */
  function Pruned(children: seq<Child>, plan: seq<string>, stuck: set<string>, left: map<string, Bytes>, readable: bool): seq<Child> {
    var deleted := UntilStuck(plan, stuck);
    var rest := Remaining(children, deleted);
    if |deleted| < |plan| then DamageAll(rest, plan[|deleted|], left, readable) else rest
  }

  class BackupDir {
    var children: seq<Child>

    constructor (children: seq<Child>)
      ensures this.children == children
    {
      this.children := children;
    }

    /** `prune_old_runs`. `stuck` names the folders whose deletion raises. */
    method PruneOldRuns(keep: int, current: string, stuck: set<string>, left: map<string, Bytes>, readable: bool)
        returns (deleted: seq<string>, raised: bool)
      requires keep >= 1 && DistinctNames(children)
      modifies this
      ensures var plan := NamesOf(PlanPrune(old(children), keep, current).value);
              && deleted == UntilStuck(plan, stuck)
              && (raised <==> exists n :: n in plan && n in stuck)
              && children == Pruned(old(children), plan, stuck, left, readable)
    {
      var plan := PlanPrune(children, keep, current).value;
      ghost var before := children;
      deleted := [];
      RemainingNone(children);
      NamesAre(plan);
      hide *;
      for i := 0 to |plan|
        invariant deleted == NamesOf(plan)[..i]
        invariant children == Remaining(before, deleted)
        invariant forall n :: n in deleted ==> n !in stuck
      {
        if plan[i].name in stuck {
          children := DamageAll(children, plan[i].name, left, readable);
          StuckHere(before, NamesOf(plan), i, stuck, left, readable);
          return deleted, true;
        }
        RemainingTwice(before, deleted, plan[i].name);
        children := Remaining(children, [plan[i].name]);
        deleted := deleted + [plan[i].name];
      }
      StuckHere(before, NamesOf(plan), |plan|, stuck, left, readable);
      return deleted, false;
    }
  }

  /** Where pruning ends. */
  lemma StuckHere(children: seq<Child>, plan: seq<string>, i: nat, stuck: set<string>, left: map<string, Bytes>, readable: bool)
    requires i <= |plan| && (forall n <- plan[..i] :: n !in stuck) && (i < |plan| ==> plan[i] in stuck)
    ensures UntilStuck(plan, stuck) == plan[..i]
    ensures Pruned(children, plan, stuck, left, readable)
            == if i < |plan| then DamageAll(Remaining(children, plan[..i]), plan[i], left, readable) else Remaining(children, plan[..i])
  {
    hide Remaining, DamageAll;
    var r := UntilStuck(plan, stuck);
    assert forall k :: 0 <= k < i ==> plan[k] == plan[..i][k] && plan[k] !in stuck;
    assert forall k :: 0 <= k < |r| ==> plan[k] == r[k] && plan[k] !in stuck;
  }

  /** A folder is the one it was, or damaged. */
  predicate Survives(after: Child, before: Child) {
    after.name == before.name && (after.manifest == before.manifest || after.manifest.None?)
  }

  /** Pruning touches only what is planned, and what is left is what was there, one of them damaged perhaps. */
  lemma PrunedFacts(children: seq<Child>, plan: seq<string>, stuck: set<string>, left: map<string, Bytes>, readable: bool)
    requires DistinctNames(children)
    ensures var after := Pruned(children, plan, stuck, left, readable);
            && DistinctNames(after)
            && (forall c <- children :: c.name !in plan ==> c in after)
            && (forall c <- after :: exists b <- children :: Survives(c, b))
  {
    var deleted := UntilStuck(plan, stuck);
    var rest := Remaining(children, deleted);
    FilterMembers(children, NotNamed(deleted));
    FilterDistinctNames(children, NotNamed(deleted));
    assert forall c <- children :: c.name !in plan ==> c in rest;
    assert forall c <- rest :: Survives(c, c) && c in children;
    if |deleted| < |plan| {
      hide Remaining, Filter, NotNamed;
      DamageFacts(rest, plan[|deleted|], left, readable);
      forall c | c in DamageAll(rest, plan[|deleted|], left, readable)
        ensures exists b <- children :: Survives(c, b)
      {
        var b :| b in rest && Survives(c, b);
        assert b in children;
      }
    }
  }

  lemma DamageFacts(children: seq<Child>, name: string, left: map<string, Bytes>, readable: bool)
    requires DistinctNames(children)
    ensures var after := DamageAll(children, name, left, readable);
            && DistinctNames(after)
            && (forall c <- children :: c.name != name ==> c in after)
            && (forall c <- after :: exists b <- children :: Survives(c, b))
  {
    var after := DamageAll(children, name, left, readable);
    DamageEach(children, name, left, readable);
    hide DamageAll, Survives;
    assert forall i :: 0 <= i < |after| ==> after[i].name == children[i].name && children[i] in children;
  }

  lemma DamageEach(children: seq<Child>, name: string, left: map<string, Bytes>, readable: bool)
    ensures var after := DamageAll(children, name, left, readable);
            && |after| == |children|
            && forall i :: 0 <= i < |after| ==>
                 Survives(after[i], children[i]) && after[i].name == children[i].name && (children[i].name != name ==> after[i] == children[i])
  {
  }

  // --- Facts about filtering -----------------------------------------------------------

  lemma {:induction false} FilterMembers<T>(s: seq<T>, keep: T -> bool)
    ensures forall x :: x in Filter(s, keep) <==> x in s && keep(x)
    ensures |Filter(s, keep)| <= |s|
  {
    if s != [] {
      FilterMembers(s[1..], keep);
      assert forall x :: x in s <==> x == s[0] || x in s[1..];
    }
  }

  lemma {:induction false} FilterConcat<T>(s: seq<T>, t: seq<T>, keep: T -> bool)
    ensures Filter(s + t, keep) == Filter(s, keep) + Filter(t, keep)
  {
    if s == [] {
      assert s + t == t;
    } else {
      var first := if keep(s[0]) then [s[0]] else [];
      assert (s + t)[0] == s[0] && (s + t)[1..] == s[1..] + t;
      FilterConcat(s[1..], t, keep);
      assert first + (Filter(s[1..], keep) + Filter(t, keep)) == (first + Filter(s[1..], keep)) + Filter(t, keep);
    }
  }

  /** Dropping the one element that fails. */
  lemma {:induction false} FilterDropsOne<T>(s: seq<T>, k: nat, keep: T -> bool)
    requires k < |s| && !keep(s[k]) && forall i :: 0 <= i < |s| && i != k ==> keep(s[i])
    ensures |Filter(s, keep)| == |s| - 1
  {
    if k == 0 {
      FilterAll(s[1..], keep);
    } else {
      FilterDropsOne(s[1..], k - 1, keep);
    }
  }

  lemma {:induction false} FilterAll<T>(s: seq<T>, keep: T -> bool)
    requires forall i :: 0 <= i < |s| ==> keep(s[i])
    ensures Filter(s, keep) == s
  {
    if s != [] {
      FilterAll(s[1..], keep);
    }
  }

  lemma {:induction false} FilterTwice<T>(s: seq<T>, p: T -> bool, q: T -> bool, both: T -> bool)
    requires forall x :: x in s ==> both(x) == (p(x) && q(x))
    ensures Filter(Filter(s, p), q) == Filter(s, both)
  {
    if s != [] {
      FilterTwice(s[1..], p, q, both);
      FilterConcat(if p(s[0]) then [s[0]] else [], Filter(s[1..], p), q);
      assert s[0] in s;
    }
  }

  lemma RemainingNone(children: seq<Child>)
    ensures Remaining(children, []) == children
  {
    FilterAll(children, NotNamed([]));
  }

  lemma RemainingTwice(children: seq<Child>, names: seq<string>, name: string)
    ensures Remaining(Remaining(children, names), [name]) == Remaining(children, names + [name])
  {
    FilterTwice(children, NotNamed(names), NotNamed([name]), NotNamed(names + [name]));
  }

  /** A list in strictly decreasing order of name. */
  ghost predicate Descending(s: seq<Child>) {
    forall i, j :: 0 <= i < j < |s| ==> Leq(s[j].name, s[i].name) && s[i].name != s[j].name
  }

  lemma {:induction false} FilterDescending(s: seq<Child>, keep: Child -> bool)
    requires Descending(s)
    ensures Descending(Filter(s, keep))
  {
    if s != [] {
      FilterDescending(s[1..], keep);
      FilterMembers(s[1..], keep);
      var rest := Filter(s[1..], keep);
      forall j | 0 <= j < |rest|
        ensures Leq(rest[j].name, s[0].name) && s[0].name != rest[j].name
      {
        assert rest[j] in s[1..];
        var k :| 0 <= k < |s[1..]| && s[1..][k] == rest[j];
        assert s[k + 1] == rest[j];
      }
    }
  }

  // --- The OK runs, newest first ----------------------------------------------------------

  lemma NewestFirstOrders()
    ensures TotalPreorder(NewestFirst())
  {
    forall a: Child, b: Child
      ensures NewestFirst()(a, b) || NewestFirst()(b, a)
    {
      LeqTotal(a.name, b.name);
    }
    forall a: Child, b: Child, c: Child | NewestFirst()(a, b) && NewestFirst()(b, c)
      ensures NewestFirst()(a, c)
    {
      LeqTransitive(c.name, b.name, a.name);
    }
  }

  lemma {:induction false} FilterDistinctNames(s: seq<Child>, keep: Child -> bool)
    requires DistinctNames(s)
    ensures DistinctNames(Filter(s, keep))
  {
    if s != [] {
      FilterDistinctNames(s[1..], keep);
      FilterMembers(s[1..], keep);
      var rest := Filter(s[1..], keep);
      forall j | 0 <= j < |rest|
        ensures s[0].name != rest[j].name
      {
        assert rest[j] in s[1..];
        var k :| 0 <= k < |s[1..]| && s[1..][k] == rest[j];
        assert s[k + 1] == rest[j];
      }
    }
  }

  lemma DistinctNamesPermute(s: seq<Child>, t: seq<Child>)
    requires DistinctNames(s) && multiset(s) == multiset(t)
    ensures DistinctNames(t)
  {
    DistinctPermutes(s, t);
    forall i, j | 0 <= i < j < |t|
      ensures t[i].name != t[j].name
    {
      assert t[i] in multiset(s) && t[j] in multiset(s);
      var a :| 0 <= a < |s| && s[a] == t[i];
      var b :| 0 <= b < |s| && s[b] == t[j];
      assert a < b || b < a;
    }
  }

  lemma OkRunsFacts(children: seq<Child>)
    requires DistinctNames(children)
    ensures Descending(OkRuns(children))
    ensures forall c :: c in OkRuns(children) <==> c in children && IsRun(c) && IsOk(c)
  {
    var runs := Filter(children, IsRun);
    var sorted := RunFolders(children);
    FilterMembers(children, IsRun);
    FilterDistinctNames(children, IsRun);
    SortPermutes(runs, NewestFirst());
    NewestFirstOrders();
    SortSorts(runs, NewestFirst());
    DistinctNamesPermute(runs, sorted);
    assert Descending(sorted) by {
      forall i, j | 0 <= i < j < |sorted|
        ensures Leq(sorted[j].name, sorted[i].name)
      {
        assert NewestFirst()(sorted[i], sorted[j]);
      }
    }
    FilterDescending(sorted, IsOk);
    FilterMembers(sorted, IsOk);
    forall c
      ensures c in sorted <==> c in runs
    {
      assert c in sorted <==> c in multiset(sorted);
      assert c in runs <==> c in multiset(runs);
    }
  }

  /** In a descending list, what stands before a position is what is newer. */
  lemma NewerStandBefore(children: seq<Child>, i: nat)
    requires DistinctNames(children) && i < |OkRuns(children)|
    ensures NewerOk(children, OkRuns(children)[i].name) == Elements(OkRuns(children)[..i])
    ensures |NewerOk(children, OkRuns(children)[i].name)| == i
  {
    var ok := OkRuns(children);
    OkRunsFacts(children);
    hide OkRuns, IsRun, IsOk;
    var newer := Elements(ok[..i]);
    forall c
      ensures c in NewerOk(children, ok[i].name) <==> c in newer
    {
      if c in newer {
        var k :| 0 <= k < i && ok[k] == c;
        assert c in ok;
      }
      if c in NewerOk(children, ok[i].name) {
        assert c in ok;
        var k :| 0 <= k < |ok| && ok[k] == c;
        if k > i {
          assert Leq(ok[k].name, ok[i].name);
          LeqAntisymmetric(ok[k].name, ok[i].name);
        }
        assert k < i;
        assert ok[..i][k] == c;
      }
    }
    DescendingCount(ok, i);
  }

  lemma DescendingCount(s: seq<Child>, i: nat)
    requires Descending(s) && i <= |s|
    ensures |Elements(s[..i])| == i
  {
    DistinctCount(s[..i]);
  }

  function Min(a: int, b: int): int {
    if a <= b then a else b
  }

  // --- What pruning deletes -------------------------------------------------------------------

  /** A folder is pruned exactly when it is an OK run with at least `keep` newer OK runs and is not the
      run being written: never a FAILED run, a folder without a manifest, or the newest OK run. */
  lemma PrunedIff(children: seq<Child>, keep: int, current: string, c: Child)
    requires DistinctNames(children) && keep >= 1
    ensures c in PlanPrune(children, keep, current).value
            <==> c in children && IsOkRun(c) && |NewerOk(children, c.name)| >= keep && c.name != current
  {
    OkRunIs(c);
    var ok := OkRuns(children);
    OkRunsFacts(children);
    hide OkRuns, IsRun, IsOk, Doomed;
    DoomedAreOk(ok, keep, current, c);
    if c in ok {
      var i :| 0 <= i < |ok| && ok[i] == c;
      NewerStandBefore(children, i);
      DoomedAt(ok, keep, current, i);
    }
  }

  lemma DoomedAreOk(ok: seq<Child>, keep: nat, current: string, c: Child)
    ensures c in Doomed(ok, keep, current) ==> c in ok
  {
    if |ok| > keep {
      FilterMembers(ok[keep..], NotNamed([current, ok[0].name]));
    }
  }

  lemma DoomedAt(ok: seq<Child>, keep: nat, current: string, i: nat)
    requires Descending(ok) && i < |ok| && keep >= 1
    ensures ok[i] in Doomed(ok, keep, current) <==> i >= keep && ok[i].name != current
  {
    if |ok| > keep {
      FilterMembers(ok[keep..], NotNamed([current, ok[0].name]));
      InTail(ok, i, keep);
    }
  }

  lemma InTail(ok: seq<Child>, i: nat, n: nat)
    requires Descending(ok) && i < |ok| && n <= |ok|
    ensures ok[i] in ok[n..] <==> i >= n
    ensures i > 0 ==> ok[i].name != ok[0].name
  {
    if i >= n {
      assert ok[n..][i - n] == ok[i];
    }
    if ok[i] in ok[n..] {
      var k :| 0 <= k < |ok[n..]| && ok[n..][k] == ok[i];
      assert ok[n + k] == ok[i];
    }
  }

  lemma NewestIsNotPruned(children: seq<Child>, keep: int, current: string)
    requires DistinctNames(children) && keep >= 1 && OkRuns(children) != []
    ensures OkRuns(children)[0].name !in NamesOf(PlanPrune(children, keep, current).value)
  {
    var newest := OkRuns(children)[0];
    OkRunsFacts(children);
    NewerStandBefore(children, 0);
    assert newest in OkRuns(children);
    hide OkRuns, PlanPrune, IsRun, IsOk, NewerOk;
    var plan := PlanPrune(children, keep, current).value;
    if newest.name in NamesOf(plan) {
      var k :| 0 <= k < |NamesOf(plan)| && NamesOf(plan)[k] == newest.name;
      PrunedIff(children, keep, current, plan[k]);
    }
  }

  /** The newest OK run is never pruned, so once there is one, one always remains. */
  lemma AnOkRunRemains(children: seq<Child>, keep: int, current: string)
    requires DistinctNames(children) && keep >= 1 && OkRuns(children) != []
    ensures var left := Remaining(children, NamesOf(PlanPrune(children, keep, current).value));
            OkRuns(children)[0] in left && OkRuns(left) != []
  {
    var newest := OkRuns(children)[0];
    var names := NamesOf(PlanPrune(children, keep, current).value);
    NewestIsNotPruned(children, keep, current);
    OkRunsFacts(children);
    assert newest in OkRuns(children);
    hide OkRuns, PlanPrune, IsRun, IsOk;
    FilterMembers(children, NotNamed(names));
    FilterDistinctNames(children, NotNamed(names));
    OkRunsFacts(Remaining(children, names));
    assert newest in OkRuns(Remaining(children, names));
  }

  // --- How many survive ---------------------------------------------------------------------------

  /** The survivors are the `keep` newest OK runs, plus the run being written when `keep` or more OK
      runs are newer than it. */
  lemma SurvivorCount(children: seq<Child>, keep: int, current: string)
    requires DistinctNames(children) && keep >= 1
    ensures var ok := OkRuns(children);
            |ok| - |PlanPrune(children, keep, current).value|
            == Min(|ok|, keep) + (if exists c :: c in ok && c.name == current && |NewerOk(children, current)| >= keep then 1 else 0)
  {
    var ok := OkRuns(children);
    OkRunsFacts(children);
    hide OkRuns, IsRun, IsOk;
    if |ok| > keep {
      forall i | 0 <= i < |ok|
        ensures |NewerOk(children, ok[i].name)| == i
      {
        NewerStandBefore(children, i);
      }
      TailWithout(ok, keep, current);
    } else {
      forall c | c in ok && c.name == current
        ensures |NewerOk(children, current)| < keep
      {
        var i :| 0 <= i < |ok| && ok[i] == c;
        NewerStandBefore(children, i);
      }
    }
  }

  lemma TailWithout(ok: seq<Child>, keep: nat, current: string)
    requires Descending(ok) && 1 <= keep < |ok|
    ensures var plan := Filter(ok[keep..], NotNamed([current, ok[0].name]));
            |plan| == |ok| - keep - (if exists i :: keep <= i < |ok| && ok[i].name == current then 1 else 0)
  {
    var tail, p := ok[keep..], NotNamed([current, ok[0].name]);
    if i :| keep <= i < |ok| && ok[i].name == current {
      FilterDropsOne(tail, i - keep, p);
    } else {
      FilterAll(tail, p);
    }
  }

  // --- The dry run ----------------------------------------------------------------------------------

  /** The directory after the run `latest` has been written OK. */
  ghost predicate IsFreshRun(children: seq<Child>, latest: Child) {
    IsRun(latest) && IsOk(latest) && DistinctNames(children + [latest])
  }

  /** Adding one run puts it in its place among the OK runs. */
  lemma FreshRunTakesItsPlace(children: seq<Child>, latest: Child) returns (p: nat)
    requires IsFreshRun(children, latest)
    ensures p <= |OkRuns(children)| && p == |NewerOk(children, latest.name)|
    ensures OkRuns(children + [latest]) == OkRuns(children)[..p] + [latest] + OkRuns(children)[p..]
  {
    var all := children + [latest];
    DistinctNamesFront(children, latest);
    var ok, ok' := OkRuns(children), OkRuns(all);
    FreshMembers(children, latest);
    OkRunsFacts(children);
    OkRunsFacts(all);
    p :| 0 <= p < |ok'| && ok'[p] == latest;
    NewerStandBefore(all, p);
    hide OkRuns, IsRun, IsOk, NewerOk, Elements;
    WithoutOne(ok', p);
    DescendingIsUnique(ok'[..p] + ok'[p + 1..], ok);
    PutBack(ok, ok', p);
  }

  lemma PutBack(s: seq<Child>, t: seq<Child>, p: nat)
    requires p < |t| && s == t[..p] + t[p + 1..]
    ensures p <= |s| && t == s[..p] + [t[p]] + s[p..]
  {
  }

  lemma FreshMembers(children: seq<Child>, latest: Child)
    requires IsFreshRun(children, latest) && DistinctNames(children)
    ensures latest in OkRuns(children + [latest])
    ensures Elements(OkRuns(children)) == Elements(OkRuns(children + [latest])) - {latest}
    ensures NewerOk(children + [latest], latest.name) == NewerOk(children, latest.name)
  {
    var all := children + [latest];
    DistinctNamesFront(children, latest);
    OkRunsFacts(children);
    OkRunsFacts(all);
    hide OkRuns, IsRun, IsOk;
    assert all[|children|] == latest;
    assert forall c :: c in all <==> c in children || c == latest;
  }

  lemma DistinctNamesFront(children: seq<Child>, last: Child)
    requires DistinctNames(children + [last])
    ensures DistinctNames(children)
    ensures forall c :: c in children ==> c.name != last.name
  {
    var all := children + [last];
    assert forall i :: 0 <= i < |children| ==> all[i] == children[i];
    assert all[|children|] == last;
  }

  lemma WithoutOne(s: seq<Child>, p: nat)
    requires Descending(s) && p < |s|
    ensures Descending(s[..p] + s[p + 1..])
    ensures Elements(s[..p] + s[p + 1..]) == Elements(s) - {s[p]}
  {
    var rest := s[..p] + s[p + 1..];
    assert forall k :: 0 <= k < |rest| ==> rest[k] == s[if k < p then k else k + 1];
    forall c | c in s && c != s[p]
      ensures c in rest
    {
      var k :| 0 <= k < |s| && s[k] == c;
      assert rest[if k < p then k else k - 1] == c;
    }
  }

  lemma {:induction false} DescendingIsUnique(s: seq<Child>, t: seq<Child>)
    requires Descending(s) && Descending(t) && Elements(s) == Elements(t)
    ensures s == t
  {
    if s == [] {
      FirstIsElement(t);
    } else {
      assert s[0] in Elements(t);
      assert t[0] in Elements(s);
      FirstIsLargest(s, t);
      WithoutFirst(s);
      WithoutFirst(t);
      hide Descending, Elements;
      DescendingIsUnique(s[1..], t[1..]);
    }
  }

  lemma WithoutFirst(s: seq<Child>)
    requires Descending(s) && s != []
    ensures Descending(s[1..]) && Elements(s[1..]) == Elements(s) - {s[0]}
    ensures s == [s[0]] + s[1..]
  {
    WithoutOne(s, 0);
    assert s[..0] + s[0 + 1..] == s[1..];
  }

  lemma FirstIsElement<T>(t: seq<T>)
    ensures t != [] ==> t[0] in Elements(t)
  {
  }

  lemma FirstIsLargest(s: seq<Child>, t: seq<Child>)
    requires Descending(s) && Descending(t) && s != [] && s[0] in t && t != [] && t[0] in s
    ensures s[0] == t[0]
  {
    var i :| 0 <= i < |t| && t[i] == s[0];
    var j :| 0 <= j < |s| && s[j] == t[0];
    if i > 0 && j > 0 {
      assert Leq(s[0].name, t[0].name);
      assert Leq(t[0].name, s[0].name);
      LeqAntisymmetric(s[0].name, t[0].name);
    }
  }

  /** A dry run names exactly the folders the real run would delete if and only if fewer than `keep` OK
      runs are newer than the run it stands for; in particular when that run is the newest. */
  lemma DryRunIsExactIff(children: seq<Child>, latest: Child, keep: int)
    requires IsFreshRun(children, latest) && keep >= 1
    ensures PlanPrune(children + [latest], keep, latest.name).value == DryRunDoomed(children, keep)
            <==> |NewerOk(children, latest.name)| < keep
  {
    var p := FreshRunTakesItsPlace(children, latest);
    var ok, ok' := OkRuns(children), OkRuns(children + [latest]);
    OkRunsFacts(children + [latest]);
    hide OkRuns, IsRun, IsOk;
    assert |ok'| == |ok| + 1;
    if |ok'| > keep {
      if p < keep {
        assert ok'[keep..] == ok[keep - 1..];
        forall i | keep <= i < |ok'|
          ensures ok'[i].name != latest.name && ok'[i].name != ok'[0].name
        {
          assert ok'[p] == latest;
        }
        FilterAll(ok'[keep..], NotNamed([latest.name, ok'[0].name]));
      } else {
        TailWithout(ok', keep, latest.name);
        assert ok'[p].name == latest.name;
      }
    }
  }

  function RunOf(i: Instant): Child {
    Child(UtcStamp(i), true, false, Some(Manifest(true, "project", map[])), map[])
  }

  /** With an OK run stamped after it, the dry run of a run that keeps one names a folder that the real run
      would not delete. */
  lemma ANewerRunMisleadsTheDryRun() returns (newer: Child, latest: Child)
    ensures IsFreshRun([newer], latest)
    ensures PlanPrune([newer, latest], 1, latest.name).value == [] && DryRunDoomed([newer], 1) == [newer]
  {
    var earlier, later := Instant(2026, 1, 1, 0, 0, 0), Instant(2026, 1, 2, 0, 0, 0);
    newer, latest := RunOf(later), RunOf(earlier);
    TwoRunsAreApart(earlier, later);
    hide *;
    TwoRuns(newer, latest);
  }

  lemma TwoRunsAreApart(earlier: Instant, later: Instant)
    requires Writable(earlier) && Writable(later) && NoLater(earlier, later) && !NoLater(later, earlier)
    ensures var newer, older := RunOf(later), RunOf(earlier);
            IsRun(newer) && IsOk(newer) && IsRun(older) && IsOk(older) && Leq(older.name, newer.name) && newer.name != older.name
  {
    StampIsARunName(earlier);
    StampIsARunName(later);
    StampOrderIsTimeOrder(earlier, later);
    StampOrderIsTimeOrder(later, earlier);
    hide UtcStamp, IsRunName, Leq, NoLater;
  }

  lemma TwoRuns(newer: Child, older: Child)
    requires IsRun(newer) && IsOk(newer) && IsRun(older) && IsOk(older)
    requires Leq(older.name, newer.name) && newer.name != older.name
    ensures IsFreshRun([newer], older)
    ensures PlanPrune([newer, older], 1, older.name).value == [] && DryRunDoomed([newer], 1) == [newer]
  {
    assert [newer] + [older] == [newer, older];
    FilterAll([newer], IsRun);
    FilterAll([newer, older], IsRun);
    FilterAll([newer], IsOk);
    FilterAll([newer, older], IsOk);
    SortTwo(newer, older, NewestFirst());
    hide IsRun, IsOk, Sort;
    assert OkRuns([newer]) == [newer] && OkRuns([newer, older]) == [newer, older];
    hide OkRuns;
    assert [newer, older][1..] == [older] && [older][1..] == [];
    assert Filter([older], NotNamed([older.name, newer.name])) == [];
  }

  lemma SortTwo<T>(a: T, b: T, le: (T, T) -> bool)
    requires le(a, b)
    ensures Sort([a], le) == [a] && Sort([a, b], le) == [a, b]
  {
    assert [a][..0] == [] && [a, b][..1] == [a];
    assert Sort([], le) == [] && Insert([], a, le) == [a];
    assert Insert([a], b, le) == [a] + [b];
  }
}
