/** The in-process rate limiter: a sliding log of hits per actor, inside a bucket
    that is a least-recently-touched map with a hard ceiling on its size. */
module RateLimit {
  import opened Sorting

  datatype Actor = User(id: int) | Client(key: string)

  /** `_check_windows` spells a window's bucket `<bucket>:<seconds>s`. */
  datatype BucketName = Plain(name: string) | Windowed(name: string, seconds: int)

  const MAX_ACTORS_PER_BUCKET: nat := 10_000

  /** An ordered dictionary: `order` has the least recently touched actor first. */
  datatype Bucket = Bucket(order: seq<Actor>, hits: map<Actor, seq<real>>) {
    ghost predicate Valid() {
      && Distinct(order)
      && (forall a :: a in order <==> a in hits)
    }

    function Log(a: Actor): seq<real> {
      if a in hits then hits[a] else []
    }
  }

  const EMPTY: Bucket := Bucket([], map[])

  // --- Pieces of one check -------------------------------------------------------

  /** The hits later than `cutoff`, in order. */
  function Live(hits: seq<real>, cutoff: real): seq<real> {
    if hits == [] then []
    else (if hits[0] > cutoff then [hits[0]] else []) + Live(hits[1..], cutoff)
  }

  predicate Over(b: Bucket, a: Actor, limit: int, window: real, now: real) {
    |Live(b.Log(a), now - window)| >= limit
  }

  function Without<T(==)>(s: seq<T>, x: T): seq<T> {
    if s == [] then [] else (if s[0] == x then [] else [s[0]]) + Without(s[1..], x)
  }

  function Newest<T>(s: seq<T>, cap: nat): seq<T> {
    if |s| <= cap then s else s[|s| - cap..]
  }

  function Reseat(b: Bucket, a: Actor, log: seq<real>): Bucket {
    Bucket(Without(b.order, a) + [a], b.hits[a := log])
  }

  function Trim(b: Bucket, cap: nat): Bucket {
    var kept := Newest(b.order, cap);
    Bucket(kept, map x | x in b.hits && x in kept :: b.hits[x])
  }

  /** `popitem(last=False)`. */
  function PopOldest(b: Bucket): Bucket
    requires b.order != []
  {
    Bucket(b.order[1..], b.hits - {b.order[0]})
  }

  /** What one check leaves in its bucket. */
  function Checked(b: Bucket, a: Actor, limit: int, window: real, now: real, cap: nat): Bucket {
    var live := Live(b.Log(a), now - window);
    Trim(Reseat(b, a, if |live| >= limit then live else live + [now]), cap)
  }

  function Lookup(windows: map<BucketName, Bucket>, name: BucketName): Bucket {
    if name in windows then windows[name] else EMPTY
  }

  // --- The limiter object --------------------------------------------------------

  datatype Window = Window(limit: int, seconds: real)

  function NameOf(bucket: string, w: Window): BucketName {
    Windowed(bucket, w.seconds.Floor)
  }

  /** One call to `_check_windows`: the buckets it leaves, whether it raised, the
      buckets it recorded a hit in (in order), and how often it read the clock. */
  datatype Outcome = Outcome(windows: map<BucketName, Bucket>, refused: bool,
                             recorded: seq<BucketName>, ticks: nat)

  function OneCheck(o: Outcome, name: BucketName, a: Actor, w: Window, clock: seq<real>): (r: Outcome)
    requires o.ticks < |clock|
    ensures r.ticks == o.ticks + 1
  {
    var b := Lookup(o.windows, name);
    var now := clock[o.ticks];
    var over := Over(b, a, w.limit, w.seconds, now);
    Outcome(o.windows[name := Checked(b, a, w.limit, w.seconds, now, MAX_ACTORS_PER_BUCKET)],
            over, if over then o.recorded else o.recorded + [name], o.ticks + 1)
  }

  /** The first loop: look at every window at the reading `clock[0]`, and check the full ones. */
  function Inspect(o: Outcome, bucket: string, a: Actor, ws: seq<Window>, i: nat, clock: seq<real>): (r: Outcome)
    requires i <= |ws| && !o.refused && o.ticks + (|ws| - i) <= |clock|
    ensures r.ticks <= o.ticks + (|ws| - i)
    decreases |ws| - i
  {
    if i == |ws| then o
    else
      var name := NameOf(bucket, ws[i]);
      if Over(Lookup(o.windows, name), a, ws[i].limit, ws[i].seconds, clock[0]) then
        var o' := OneCheck(o, name, a, ws[i], clock);
        if o'.refused then o' else Inspect(o', bucket, a, ws, i + 1, clock)
      else
        Inspect(o, bucket, a, ws, i + 1, clock)
  }

  /** The second loop: check every window in turn until one raises. */
  function Record(o: Outcome, bucket: string, a: Actor, ws: seq<Window>, i: nat, clock: seq<real>): Outcome
    requires i <= |ws| && !o.refused && o.ticks + (|ws| - i) <= |clock|
    decreases |ws| - i
  {
    if i == |ws| then o
    else
      var o' := OneCheck(o, NameOf(bucket, ws[i]), a, ws[i], clock);
      if o'.refused then o' else Record(o', bucket, a, ws, i + 1, clock)
  }

  function CheckedWindows(windows: map<BucketName, Bucket>, bucket: string, a: Actor, ws: seq<Window>, clock: seq<real>): Outcome
    requires |clock| > 2 * |ws|
  {
    var o := Inspect(Outcome(windows, false, [], 1), bucket, a, ws, 0, clock);
    if o.refused then o else Record(o, bucket, a, ws, 0, clock)
  }

  ghost predicate ValidWindows(windows: map<BucketName, Bucket>) {
    forall n :: n in windows ==> windows[n].Valid()
  }

  class Limiter {
    var windows: map<BucketName, Bucket>

    constructor ()
      ensures windows == map[]
    {
      windows := map[];
    }

    /** `_check`: false stands for the raised 429. */
    method Check(name: BucketName, a: Actor, limit: int, window: real, now: real) returns (admitted: bool)
      requires ValidWindows(windows)
      modifies this
      ensures ValidWindows(windows)
      ensures windows == old(windows)[name := Checked(Lookup(old(windows), name), a, limit, window, now, MAX_ACTORS_PER_BUCKET)]
      ensures admitted <==> !Over(Lookup(old(windows), name), a, limit, window, now)
    {
      hide Trim, Reseat, Live;
      var before := Lookup(windows, name);
      var live := Live(before.Log(a), now - window);
      var over := |live| >= limit;
      if !over {
        live := live + [now];
      }
      var b := Reseat(before, a, live);
      ghost var full := b;
      ReseatValid(before, a, live);
      TrimFacts(full, |full.order|);
      while |b.order| > MAX_ACTORS_PER_BUCKET
        invariant MAX_ACTORS_PER_BUCKET <= |b.order| <= |full.order| || b == full
        invariant b == Trim(full, |b.order|) && windows == old(windows)
      {
        EvictOne(full, |b.order|);
        b := PopOldest(b);
      }
      TrimFacts(full, MAX_ACTORS_PER_BUCKET);
      windows := windows[name := b];
      admitted := !over;
    }

    /** `_check_windows`: `clock` lists what successive clock readings return. */
    method CheckWindows(bucket: string, a: Actor, ws: seq<Window>, clock: seq<real>) returns (admitted: bool)
      requires ValidWindows(windows) && |clock| > 2 * |ws|
      modifies this
      ensures ValidWindows(windows)
      ensures var o := CheckedWindows(old(windows), bucket, a, ws, clock);
              windows == o.windows && admitted == !o.refused
    {
      hide Checked, Trim, Reseat, Over, Live;
      var now := clock[0];
      ghost var o := Outcome(windows, false, [], 1);
      var ticks := 1;
      ghost var inspected := Inspect(o, bucket, a, ws, 0, clock);
      for i := 0 to |ws|
        invariant ValidWindows(windows) && windows == o.windows && ticks == o.ticks <= i + 1 && !o.refused
        invariant inspected == Inspect(o, bucket, a, ws, i, clock)
      {
        var name := NameOf(bucket, ws[i]);
        if Over(Lookup(windows, name), a, ws[i].limit, ws[i].seconds, now) {
          o := OneCheck(o, name, a, ws[i], clock);
          var ok := Check(name, a, ws[i].limit, ws[i].seconds, clock[ticks]);
          ticks := ticks + 1;
          if !ok {
            return false;
          }
        }
      }
      ghost var goal := Record(o, bucket, a, ws, 0, clock);
      for i := 0 to |ws|
        invariant ValidWindows(windows) && windows == o.windows && ticks == o.ticks <= |ws| + i + 1 && !o.refused
        invariant goal == Record(o, bucket, a, ws, i, clock)
      {
        o := OneCheck(o, NameOf(bucket, ws[i]), a, ws[i], clock);
        var ok := Check(NameOf(bucket, ws[i]), a, ws[i].limit, ws[i].seconds, clock[ticks]);
        ticks := ticks + 1;
        if !ok {
          return false;
        }
      }
      return true;
    }
  }

  // --- Facts about the pieces ----------------------------------------------------

  lemma WithoutFacts<T>(s: seq<T>, x: T)
    requires Distinct(s)
    ensures forall y :: y in Without(s, x) <==> y in s && y != x
    ensures Distinct(Without(s, x))
    ensures |Without(s, x)| == if x in s then |s| - 1 else |s|
  {
    if s != [] {
      var r := Without(s[1..], x);
      assert Distinct(s[1..]);
      WithoutFacts(s[1..], x);
      assert forall y :: y in s <==> y == s[0] || y in s[1..];
      forall i, j | 0 <= i < j < |Without(s, x)|
        ensures Without(s, x)[i] != Without(s, x)[j]
      {
        if s[0] != x && i == 0 {
          assert r[j - 1] in r;
        }
      }
    }
  }

  lemma ReseatValid(b: Bucket, a: Actor, log: seq<real>)
    requires b.Valid()
    ensures Reseat(b, a, log).Valid()
  {
    WithoutFacts(b.order, a);
  }

  lemma TrimFacts(b: Bucket, cap: nat)
    requires b.Valid()
    ensures |b.order| <= cap ==> Trim(b, cap) == b
    ensures Trim(b, cap).Valid()
  {
  }

  lemma EvictOne(full: Bucket, n: nat)
    requires full.Valid() && 0 < n <= |full.order|
    ensures |Trim(full, n).order| == n
    ensures PopOldest(Trim(full, n)) == Trim(full, n - 1)
  {
    NewestShrinks(full.order, n);
    var most := Newest(full.order, n);
    hide Newest, Distinct;
    OldestOut(full.hits, most);
  }

  lemma NewestShrinks<T>(s: seq<T>, n: nat)
    requires Distinct(s) && 0 < n <= |s|
    ensures |Newest(s, n)| == n && Newest(s, n - 1) == Newest(s, n)[1..] && Distinct(Newest(s, n))
  {
  }

  lemma OldestOut<T, U>(hits: map<T, U>, most: seq<T>)
    requires most != [] && Distinct(most)
    ensures (map x | x in hits && x in most :: hits[x]) - {most[0]} == map x | x in hits && x in most[1..] :: hits[x]
  {
    assert forall x :: x in most <==> x == most[0] || x in most[1..];
    assert most[0] !in most[1..];
  }
}
