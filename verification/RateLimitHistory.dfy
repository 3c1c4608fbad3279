/** What a bucket decides over a whole run of checks, against an ideal limiter
    that never forgets a hit. */
module RateLimitHistory {
  import opened Sorting
  import opened Counting
  import opened RateLimit

  /** One call to `_check` on one bucket. */
  datatype Touch = Touch(actor: Actor, at: real)

  /** A bucket's configuration: one limit and one window, and its ceiling. */
  datatype Config = Config(limit: int, window: real, cap: nat)

  ghost predicate Chronological(run: seq<Touch>) {
    forall i, j :: 0 <= i < j < |run| ==> run[i].at <= run[j].at
  }

  function Front<T>(s: seq<T>): seq<T>
    requires s != []
  {
    s[..|s| - 1]
  }

  function Last<T>(s: seq<T>): T
    requires s != []
  {
    s[|s| - 1]
  }

  /** The bucket after a run that started empty. */
  function After(run: seq<Touch>, c: Config): Bucket {
    if run == [] then EMPTY
    else Checked(After(Front(run), c), Last(run).actor, c.limit, c.window, Last(run).at, c.cap)
  }

  /** Whether the last call of the run was let through. */
  predicate Admits(run: seq<Touch>, c: Config)
    requires run != []
  {
    !Over(After(Front(run), c), Last(run).actor, c.limit, c.window, Last(run).at)
  }

  /** The times `a` was let through. */
  function Admitted(run: seq<Touch>, a: Actor, c: Config): seq<real> {
    if run == [] then []
    else Admitted(Front(run), a, c) + (if Last(run).actor == a && Admits(run, c) then [Last(run).at] else [])
  }

  // --- The ideal limiter: every hit ever admitted is kept ---------------------------

  function Ideal(run: seq<Touch>, a: Actor, c: Config): seq<real>
    decreases |run|, 0
  {
    if run == [] then []
    else Ideal(Front(run), a, c) + (if Last(run).actor == a && IdealAdmits(run, c) then [Last(run).at] else [])
  }

  predicate IdealAdmits(run: seq<Touch>, c: Config)
    requires run != []
    decreases |run| - 1, 1
  {
    |Live(Ideal(Front(run), Last(run).actor, c), Last(run).at - c.window)| < c.limit
  }

  // --- Who is remembered ------------------------------------------------------------

  /** The actors touched after the last touch of `a` (all of them, if `a` never was). */
  function OthersSince(run: seq<Touch>, a: Actor): set<Actor> {
    if run == [] || Last(run).actor == a then {} else OthersSince(Front(run), a) + {Last(run).actor}
  }

  ghost predicate Touched(run: seq<Touch>, a: Actor) {
    exists i :: 0 <= i < |run| && run[i].actor == a
  }

  /** Every touch of `a` so far is at or before `cutoff`. */
  ghost predicate Stale(run: seq<Touch>, a: Actor, cutoff: real) {
    forall i :: 0 <= i < |run| && run[i].actor == a ==> run[i].at <= cutoff
  }

  /** At no touch of `a` had it been pushed out of the bucket while a hit of its own could still count. */
  ghost predicate NeverOutAged(run: seq<Touch>, a: Actor, c: Config) {
    forall n :: 0 <= n < |run| && run[n].actor == a ==>
      |OthersSince(run[..n], a)| < c.cap || Stale(run[..n], a, run[n].at - c.window)
  }

  // --- The order of a bucket ----------------------------------------------------------

  lemma {:induction false} WithoutConcat<T>(s: seq<T>, t: seq<T>, x: T)
    ensures Without(s + t, x) == Without(s, x) + Without(t, x)
  {
    if s == [] {
      assert s + t == t;
    } else {
      assert (s + t)[0] == s[0] && (s + t)[1..] == s[1..] + t;
      WithoutConcat(s[1..], t, x);
    }
  }

  lemma DistinctParts<T>(o: seq<T>, a: T, n: seq<T>)
    requires Distinct(o + [a] + n)
    ensures a !in o && a !in n && Distinct(o) && Distinct(n)
  {
    var s := o + [a] + n;
    assert forall i :: 0 <= i < |o| ==> o[i] == s[i];
    assert forall i :: 0 <= i < |n| ==> n[i] == s[|o| + 1 + i];
    assert s[|o|] == a;
  }

  /** Re-seating `x` at the fresh end puts it, and nobody else, after `a`. */
  lemma ReseatSplit<T>(o: seq<T>, a: T, n: seq<T>, x: T) returns (o': seq<T>, n': seq<T>)
    requires Distinct(o + [a] + n) && x != a
    ensures Without(o + [a] + n, x) + [x] == o' + [a] + n'
    ensures Elements(n') == Elements(n) + {x}
    ensures Distinct(n') && a !in n'
  {
    DistinctParts(o, a, n);
    WithoutConcat(o + [a], n, x);
    WithoutConcat(o, [a], x);
    o', n' := Without(o, x), Without(n, x) + [x];
    assert Without(o + [a] + n, x) + [x] == o' + [a] + n';
    WithoutFacts(n, x);
    assert n'[|n'| - 1] == x;
    ElementsConcat(Without(n, x), [x]);
    assert Elements(Without(n, x)) + {x} == Elements(n) + {x};
  }

  lemma ElementsConcat<T>(s: seq<T>, t: seq<T>)
    ensures Elements(s + t) == Elements(s) + Elements(t)
  {
  }

  /** Dropping the oldest entries keeps `a` as long as fewer than `cap` stand after it. */
  lemma NewestSplit<T>(o: seq<T>, a: T, n: seq<T>, cap: nat) returns (older: seq<T>)
    requires |n| < cap
    ensures Newest(o + [a] + n, cap) == older + [a] + n
  {
    var s := o + [a] + n;
    older := if |s| <= cap then o else o[|s| - cap..];
    assert Newest(s, cap) == older + [a] + n;
  }

  lemma NewestDrops<T>(o: seq<T>, a: T, n: seq<T>, cap: nat)
    requires a !in n && |n| >= cap
    ensures a !in Newest(o + [a] + n, cap)
  {
    var s := o + [a] + n;
    assert Newest(s, cap) == n[|n| - cap..];
  }

  lemma {:induction false} BucketIsValid(run: seq<Touch>, c: Config)
    ensures After(run, c).Valid() && |After(run, c).order| <= c.cap
  {
    if run != [] {
      BucketIsValid(Front(run), c);
      var b := After(Front(run), c);
      var e := Last(run);
      var live := Live(b.Log(e.actor), e.at - c.window);
      var log := if |live| >= c.limit then live else live + [e.at];
      ReseatValid(b, e.actor, log);
      TrimFacts(Reseat(b, e.actor, log), c.cap);
    }
  }

  /** An actor is in the bucket exactly when fewer than `cap` others were touched after it;
      those others are the ones that stand after it in the order. */
  lemma {:induction false} KeptIffRecent(run: seq<Touch>, a: Actor, c: Config) returns (older: seq<Actor>, newer: seq<Actor>)
    requires c.cap >= 1
    ensures a in After(run, c).order <==> Touched(run, a) && |OthersSince(run, a)| < c.cap
    ensures a in After(run, c).order ==>
              After(run, c).order == older + [a] + newer && Elements(newer) == OthersSince(run, a)
  {
    older, newer := [], [];
    if run != [] {
      var past := After(Front(run), c).order;
      var e := Last(run);
      var all := Without(past, e.actor) + [e.actor];
      BucketIsValid(Front(run), c);
      WithoutFacts(past, e.actor);
      TouchedStep(run, a);
      assert After(run, c).order == Newest(all, c.cap);
      assert OthersSince(run, a) == if e.actor == a then {} else OthersSince(Front(run), a) + {e.actor};
      hide After, OthersSince, Touched, Without;
      if e.actor == a {
        assert Newest(all, c.cap) == Newest(all, c.cap)[..|Newest(all, c.cap)| - 1] + [a] + [];
        older := Newest(all, c.cap)[..|Newest(all, c.cap)| - 1];
      } else {
        var o, n := KeptIffRecent(Front(run), a, c);
        if a in past {
          older, newer := ReseatSplit(o, a, n, e.actor);
          DistinctCount(newer);
          if |newer| < c.cap {
            older := NewestSplit(older, a, newer, c.cap);
          } else {
            NewestDrops(older, a, newer, c.cap);
          }
        } else {
          assert OthersSince(Front(run), a) <= OthersSince(run, a);
          SubsetCount(OthersSince(Front(run), a), OthersSince(run, a));
          assert a !in all;
        }
      }
    }
  }

  lemma TouchedStep(run: seq<Touch>, a: Actor)
    requires run != []
    ensures Touched(run, a) <==> Touched(Front(run), a) || Last(run).actor == a
  {
    if Touched(Front(run), a) {
      var i :| 0 <= i < |Front(run)| && Front(run)[i].actor == a;
      assert run[i].actor == a;
    }
    if Touched(run, a) && Last(run).actor != a {
      var i :| 0 <= i < |run| && run[i].actor == a;
      assert Front(run)[i].actor == a;
    }
    assert Last(run) == run[|run| - 1];
  }

  // --- Facts about live hits --------------------------------------------------------

  lemma {:induction false} LiveConcat(s: seq<real>, t: seq<real>, cutoff: real)
    ensures Live(s + t, cutoff) == Live(s, cutoff) + Live(t, cutoff)
  {
    if s == [] {
      assert s + t == t;
    } else {
      assert (s + t)[0] == s[0] && (s + t)[1..] == s[1..] + t;
      LiveConcat(s[1..], t, cutoff);
    }
  }

  /** Pruning early loses nothing that a later, stricter prune would keep. */
  lemma {:induction false} LiveTwice(s: seq<real>, early: real, late: real)
    requires early <= late
    ensures Live(Live(s, early), late) == Live(s, late)
    ensures |Live(s, late)| <= |Live(s, early)|
  {
    if s != [] {
      LiveTwice(s[1..], early, late);
      LiveConcat(if s[0] > early then [s[0]] else [], Live(s[1..], early), late);
    }
  }

  lemma {:induction false} NothingLive(s: seq<real>, cutoff: real)
    requires forall i :: 0 <= i < |s| ==> s[i] <= cutoff
    ensures Live(s, cutoff) == []
  {
    if s != [] {
      NothingLive(s[1..], cutoff);
    }
  }

  lemma {:induction false} LiveAll(s: seq<real>, cutoff: real)
    requires forall i :: 0 <= i < |s| ==> s[i] > cutoff
    ensures Live(s, cutoff) == s
  {
    if s != [] {
      assert forall i :: 0 <= i < |s[1..]| ==> s[1..][i] == s[i + 1];
      LiveAll(s[1..], cutoff);
    }
  }

  /** Whatever bounds all the hits bounds the live ones. */
  lemma {:induction false} LiveBound(s: seq<real>, cutoff: real, top: real)
    requires forall i :: 0 <= i < |s| ==> s[i] <= top
    ensures forall i :: 0 <= i < |Live(s, cutoff)| ==> Live(s, cutoff)[i] <= top
  {
    if s != [] {
      LiveBound(s[1..], cutoff, top);
    }
  }

  // --- A pruned, bounded log decides as the ideal one ---------------------------------

  lemma TrimLog(b: Bucket, a: Actor, cap: nat)
    requires b.Valid()
    ensures Trim(b, cap).Log(a) == if a in Trim(b, cap).order then b.Log(a) else []
  {
  }

  /** What one check does to the log of any actor. */
  lemma CheckedLog(b: Bucket, e: Touch, a: Actor, c: Config)
    requires b.Valid() && c.cap >= 1
    ensures var next := Checked(b, e.actor, c.limit, c.window, e.at, c.cap);
            var live := Live(b.Log(e.actor), e.at - c.window);
            && (e.actor == a ==> next.Log(a) == if |live| >= c.limit then live else live + [e.at])
            && (e.actor != a ==> next.Log(a) == if a in next.order then b.Log(a) else [])
  {
    hide Live, Trim, Without;
    var live := Live(b.Log(e.actor), e.at - c.window);
    var reseated := Reseat(b, e.actor, if |live| >= c.limit then live else live + [e.at]);
    ReseatValid(b, e.actor, if |live| >= c.limit then live else live + [e.at]);
    TrimLog(reseated, a, c.cap);
    FreshStays(reseated, c.cap);
  }

  lemma FreshStays(b: Bucket, cap: nat)
    requires b.order != [] && cap >= 1
    ensures b.order[|b.order| - 1] in Trim(b, cap).order
  {
    assert Newest(b.order, cap)[|Newest(b.order, cap)| - 1] == b.order[|b.order| - 1];
  }

  /** Every stored or ideal hit of `a` is the time of one of its touches. */
  lemma {:induction false} HitsAreTouches(run: seq<Touch>, a: Actor, c: Config, cutoff: real)
    requires c.cap >= 1 && Stale(run, a, cutoff)
    ensures forall i :: 0 <= i < |Ideal(run, a, c)| ==> Ideal(run, a, c)[i] <= cutoff
    ensures forall i :: 0 <= i < |After(run, c).Log(a)| ==> After(run, c).Log(a)[i] <= cutoff
  {
    hide Checked, Live;
    if run != [] {
      var past, e := Front(run), Last(run);
      assert forall i :: 0 <= i < |past| ==> past[i] == run[i];
      assert Stale(past, a, cutoff);
      HitsAreTouches(past, a, c, cutoff);
      assert e == run[|run| - 1];
      BucketIsValid(past, c);
      CheckedLog(After(past, c), e, a, c);
      LiveBound(After(past, c).Log(a), e.at - c.window, cutoff);
    }
  }

  lemma NeverOutAgedFront(run: seq<Touch>, a: Actor, c: Config)
    requires run != [] && NeverOutAged(run, a, c)
    ensures NeverOutAged(Front(run), a, c)
  {
    forall n | 0 <= n < |Front(run)| && Front(run)[n].actor == a
      ensures |OthersSince(Front(run)[..n], a)| < c.cap || Stale(Front(run)[..n], a, Front(run)[n].at - c.window)
    {
      assert Front(run)[n] == run[n] && Front(run)[..n] == run[..n];
    }
  }

  /** The bucket's log of `a` and the ideal history agree on every hit later than `cutoff`, as long
      as `cutoff` is no earlier than any cutoff used for `a`, and `a` is kept or has no such hit. */
  lemma {:induction false} LogsAgree(run: seq<Touch>, a: Actor, c: Config, cutoff: real)
    requires c.cap >= 1 && Chronological(run) && NeverOutAged(run, a, c)
    requires Stale(run, a, cutoff + c.window)
    requires |OthersSince(run, a)| < c.cap || Stale(run, a, cutoff)
    ensures Live(After(run, c).Log(a), cutoff) == Live(Ideal(run, a, c), cutoff)
    decreases |run|, 0
  {
    hide Live, Checked;
    if Stale(run, a, cutoff) {
      HitsAreTouches(run, a, c, cutoff);
      NothingLive(After(run, c).Log(a), cutoff);
      NothingLive(Ideal(run, a, c), cutoff);
    } else {
      var past, e := Front(run), Last(run);
      assert e == run[|run| - 1] && past == run[..|run| - 1];
      assert forall i :: 0 <= i < |past| ==> past[i] == run[i];
      NeverOutAgedFront(run, a, c);
      BucketIsValid(past, c);
      CheckedLog(After(past, c), e, a, c);
      if e.actor == a {
        LogsAgreeAfterTouch(run, a, c, cutoff);
      } else {
        assert Touched(run, a);
        var _, _ := KeptIffRecent(run, a, c);
        assert OthersSince(past, a) <= OthersSince(run, a);
        SubsetCount(OthersSince(past, a), OthersSince(run, a));
        LogsAgree(past, a, c, cutoff);
        assert Ideal(run, a, c) == Ideal(past, a, c);
      }
    }
  }

  lemma {:induction false} LogsAgreeAfterTouch(run: seq<Touch>, a: Actor, c: Config, cutoff: real)
    requires c.cap >= 1 && Chronological(run) && NeverOutAged(run, a, c)
    requires run != [] && Last(run).actor == a && Last(run).at - c.window <= cutoff
    ensures Live(After(run, c).Log(a), cutoff) == Live(Ideal(run, a, c), cutoff)
    decreases |run|, -1
  {
    hide Live, Checked;
    var past, e := Front(run), Last(run);
    var now := e.at - c.window;
    var log, ideal := After(past, c).Log(a), Ideal(past, a, c);
    DecidesAsIdeal(run, c);
    BeforeLastTouch(run, c);
    BucketIsValid(past, c);
    CheckedLog(After(past, c), e, a, c);
    LiveTwice(log, now, cutoff);
    LiveTwice(ideal, now, cutoff);
    LiveConcat(Live(log, now), [e.at], cutoff);
    LiveConcat(ideal, [e.at], cutoff);
    assert ideal + [] == ideal;
  }

  /** Just before a check, the live hits the bucket holds for its actor are the ideal ones. */
  lemma {:induction false} BeforeLastTouch(run: seq<Touch>, c: Config)
    requires c.cap >= 1 && run != [] && Chronological(run) && NeverOutAged(run, Last(run).actor, c)
    ensures var e := Last(run);
            Live(After(Front(run), c).Log(e.actor), e.at - c.window) == Live(Ideal(Front(run), e.actor, c), e.at - c.window)
    decreases |run| - 1, 1
  {
    hide Live, Checked;
    var e, past := Last(run), Front(run);
    NeverOutAgedFront(run, e.actor, c);
    assert run[|run| - 1] == e && run[..|run| - 1] == past;
    assert forall i :: 0 <= i < |past| ==> past[i] == run[i];
    LogsAgree(past, e.actor, c, e.at - c.window);
  }

  /** For an actor that was never out-aged, a check lets the call through exactly when a limiter
      that remembers every hit would. */
  lemma DecidesAsIdeal(run: seq<Touch>, c: Config)
    requires c.cap >= 1 && run != [] && Chronological(run) && NeverOutAged(run, Last(run).actor, c)
    ensures Admits(run, c) <==> IdealAdmits(run, c)
    decreases |run| - 1, 2
  {
    hide Live, Checked;
    BeforeLastTouch(run, c);
  }

  lemma {:induction false} AdmittedIsIdeal(run: seq<Touch>, a: Actor, c: Config)
    requires c.cap >= 1 && Chronological(run) && NeverOutAged(run, a, c)
    ensures Admitted(run, a, c) == Ideal(run, a, c)
  {
    if run != [] {
      NeverOutAgedFront(run, a, c);
      AdmittedIsIdeal(Front(run), a, c);
      if Last(run).actor == a {
        DecidesAsIdeal(run, c);
      }
    }
  }

  // --- The budget ---------------------------------------------------------------------

  /** The hits in the half-open window `(after, upTo]`. */
  function Within(s: seq<real>, after: real, upTo: real): seq<real> {
    if s == [] then []
    else (if after < s[0] <= upTo then [s[0]] else []) + Within(s[1..], after, upTo)
  }

  lemma {:induction false} WithinConcat(s: seq<real>, t: seq<real>, after: real, upTo: real)
    ensures Within(s + t, after, upTo) == Within(s, after, upTo) + Within(t, after, upTo)
  {
    if s == [] {
      assert s + t == t;
    } else {
      assert (s + t)[0] == s[0] && (s + t)[1..] == s[1..] + t;
      WithinConcat(s[1..], t, after, upTo);
    }
  }

  /** One more hit is one more in the window exactly when it is after its start and no later than its end. */
  lemma WithinOneMore(s: seq<real>, t: real, after: real, upTo: real)
    ensures Within([], after, upTo) == []
    ensures Within(s + [t], after, upTo) == if t > after && t <= upTo then Within(s, after, upTo) + [t] else Within(s, after, upTo)
  {
    WithinConcat(s, [t], after, upTo);
    assert [t][1..] == [];
    assert Within(s, after, upTo) + [] == Within(s, after, upTo);
  }

  lemma {:induction false} WithinAtMostLive(s: seq<real>, after: real, upTo: real)
    ensures |Within(s, after, upTo)| <= |Live(s, after)|
  {
    if s != [] {
      WithinAtMostLive(s[1..], after, upTo);
    }
  }

  /** A hit that found fewer than `limit` live ones keeps every window of that length within the limit. */
  lemma BudgetStep(h: seq<real>, t: real, limit: int, window: real, after: real)
    requires |Live(h, t - window)| < limit
    requires |Within(h, after, after + window)| <= limit
    ensures |Within(h + [t], after, after + window)| <= limit
  {
    WithinConcat(h, [t], after, after + window);
    if after < t <= after + window {
      WithinAtMostLive(h, after, after + window);
      LiveTwice(h, t - window, after);
    }
  }

  lemma {:induction false} IdealWithinBudget(run: seq<Touch>, a: Actor, c: Config, after: real)
    requires c.limit >= 0
    ensures |Within(Ideal(run, a, c), after, after + c.window)| <= c.limit
  {
    if run != [] {
      var h := Ideal(Front(run), a, c);
      IdealWithinBudget(Front(run), a, c, after);
      assert h + [] == h;
      if Last(run).actor == a && IdealAdmits(run, c) {
        BudgetStep(h, Last(run).at, c.limit, c.window, after);
      }
    }
  }

  /** The promise of `_check`: at most `limit` calls get through in any half-open window. */
  lemma AtMostLimitInAnyWindow(run: seq<Touch>, a: Actor, c: Config, after: real)
    requires c.limit >= 0 && c.cap >= 1 && Chronological(run) && NeverOutAged(run, a, c)
    ensures |Within(Admitted(run, a, c), after, after + c.window)| <= c.limit
  {
    AdmittedIsIdeal(run, a, c);
    IdealWithinBudget(run, a, c, after);
  }

  // --- Out-aging really does hand out a clean budget --------------------------------------

  function Flood(n: nat): seq<Touch> {
    seq(n, _ => Touch(User(0), 0.0))
  }

  function Crowd(n: nat): seq<Touch> {
    seq(n, i => Touch(User(i + 1), 0.0))
  }

  lemma {:induction false} FloodFillsBudget(n: nat, c: Config)
    requires n <= c.limit && c.window > 0.0
    ensures Ideal(Flood(n), User(0), c) == seq(n, _ => 0.0)
  {
    if n > 0 {
      assert Front(Flood(n)) == Flood(n - 1);
      FloodFillsBudget(n - 1, c);
      LiveAll(seq(n - 1, _ => 0.0), 0.0 - c.window);
      assert seq(n, _ => 0.0) == seq(n - 1, _ => 0.0) + [0.0];
    }
  }

  lemma {:induction false} CrowdPushesOut(base: seq<Touch>, n: nat, c: Config)
    requires base != [] && Last(base).actor == User(0)
    ensures OthersSince(base + Crowd(n), User(0)) == Users(n)
    ensures Ideal(base + Crowd(n), User(0), c) == Ideal(base, User(0), c)
  {
    CrowdStep(base, n);
    if n > 0 {
      hide *;
      CrowdPushesOut(base, n - 1, c);
      SomeoneElsePasses(base + Crowd(n), User(0), c);
      OneMoreUser(n);
    } else {
      assert OthersSince(base, User(0)) == {};
      hide *;
      NoUsers();
    }
  }

  function Users(n: nat): set<Actor> {
    set i | 0 < i <= n :: User(i)
  }

  lemma NoUsers()
    ensures Users(0) == {}
  {
  }

  lemma OneMoreUser(n: nat)
    requires n > 0
    ensures Users(n) == Users(n - 1) + {User(n)} && User(n) !in Users(n - 1)
  {
    forall a | a in Users(n)
      ensures a in Users(n - 1) + {User(n)}
    {
      var i :| 0 < i <= n && a == User(i);
      assert i < n ==> User(i) in Users(n - 1);
    }
  }

  lemma {:induction false} UsersCount(n: nat)
    ensures |Users(n)| == n
  {
    if n == 0 {
      NoUsers();
    } else {
      OneMoreUser(n);
      UsersCount(n - 1);
    }
  }

  lemma CrowdStep(base: seq<Touch>, n: nat)
    requires base != []
    ensures n == 0 ==> base + Crowd(n) == base
    ensures n > 0 ==> Front(base + Crowd(n)) == base + Crowd(n - 1) && Last(base + Crowd(n)) == Touch(User(n), 0.0)
  {
  }

  lemma SomeoneElsePasses(run: seq<Touch>, a: Actor, c: Config)
    requires run != [] && Last(run).actor != a
    ensures OthersSince(run, a) == OthersSince(Front(run), a) + {Last(run).actor}
    ensures Ideal(run, a, c) == Ideal(Front(run), a, c)
  {
    hide Live;
    assert Ideal(run, a, c) == Ideal(Front(run), a, c) + [];
  }

  /** Whatever the ceiling, an actor that spends its whole budget and then sees `cap` others go by is
      let through again at once, where a limiter with full memory would refuse. */
  lemma OutAgedActorGetsCleanBudget(c: Config) returns (run: seq<Touch>)
    requires c.limit >= 1 && c.cap >= 1 && c.window > 0.0
    ensures run != [] && Chronological(run) && Admits(run, c) && !IdealAdmits(run, c)
    ensures !NeverOutAged(run, Last(run).actor, c)
  {
    var before := Flood(c.limit) + Crowd(c.cap);
    run := before + [Touch(User(0), 0.0)];
    RunOfOneMore(c.limit, c.cap);
    hide *;
    Forgotten(c);
    if NeverOutAged(run, User(0), c) {
      DecidesAsIdeal(run, c);
    }
  }

  lemma RunOfOneMore(n: nat, m: nat)
    ensures var run := Flood(n) + Crowd(m) + [Touch(User(0), 0.0)];
            Chronological(run) && run != [] && Front(run) == Flood(n) + Crowd(m) && Last(run) == Touch(User(0), 0.0)
  {
  }

  /** By then the bucket has dropped the actor, and full memory has its whole budget spent. */
  lemma Forgotten(c: Config)
    requires c.limit >= 1 && c.cap >= 1 && c.window > 0.0
    ensures var run := Flood(c.limit) + Crowd(c.cap) + [Touch(User(0), 0.0)];
            run != [] && Admits(run, c) && !IdealAdmits(run, c)
  {
    RunOfOneMore(c.limit, c.cap);
    var run := Flood(c.limit) + Crowd(c.cap) + [Touch(User(0), 0.0)];
    BucketForgets(c);
    MemoryIsSpent(c);
    hide *;
    NoLogIsRoom(run, c);
    SpentIsRefused(run, c);
  }

  lemma NoLogIsRoom(run: seq<Touch>, c: Config)
    requires run != [] && After(Front(run), c).Log(Last(run).actor) == [] && c.limit >= 1
    ensures Admits(run, c)
  {
    hide After;
  }

  lemma SpentIsRefused(run: seq<Touch>, c: Config)
    requires run != [] && |Live(Ideal(Front(run), Last(run).actor, c), Last(run).at - c.window)| == c.limit
    ensures !IdealAdmits(run, c)
  {
    hide Ideal, Live;
  }

  lemma BucketForgets(c: Config)
    requires c.limit >= 1 && c.cap >= 1
    ensures After(Flood(c.limit) + Crowd(c.cap), c).Log(User(0)) == []
  {
    var before := Flood(c.limit) + Crowd(c.cap);
    FloodIsOurs(c.limit);
    hide *;
    CrowdPushesOut(Flood(c.limit), c.cap, c);
    UsersCount(c.cap);
    var _, _ := KeptIffRecent(before, User(0), c);
    NoLogOfTheForgotten(before, User(0), c);
  }

  lemma NoLogOfTheForgotten(run: seq<Touch>, a: Actor, c: Config)
    requires c.cap >= 1 && a !in After(run, c).order
    ensures After(run, c).Log(a) == []
  {
    BucketIsValid(run, c);
  }

  lemma MemoryIsSpent(c: Config)
    requires c.limit >= 1 && c.cap >= 1 && c.window > 0.0
    ensures |Live(Ideal(Flood(c.limit) + Crowd(c.cap), User(0), c), 0.0 - c.window)| == c.limit
  {
    FloodIsOurs(c.limit);
    hide *;
    FloodFillsBudget(c.limit, c);
    CrowdPushesOut(Flood(c.limit), c.cap, c);
    LiveAll(seq(c.limit, _ => 0.0), 0.0 - c.window);
  }

  lemma FloodIsOurs(n: nat)
    requires n > 0
    ensures Flood(n) != [] && Last(Flood(n)).actor == User(0)
  {
  }
}
