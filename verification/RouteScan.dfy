/** The security scan's route check: walking the live route graph, collecting each route's
    dependencies, and reporting the routes nobody authenticates. */
module RouteScan {
  import opened Wrappers
  import opened Counting

  /** Route objects are known by identity, like `id(route)`. */
  type Id = nat

  /** A dependency: what it calls, the guards carried by a class-based one, and its own dependencies. */
  datatype Dependency = Dependency(call: Option<string>, guards: seq<string>, dependencies: seq<Dependency>)

  /** A route object. An included router exposes the real one's routes; a real route has a dependency
      tree; either may carry nested routes. */
  datatype Route = Route(
    originalRouter: Option<seq<Id>>,
    dependant: Option<seq<Dependency>>,
    nested: seq<Id>,
    path: string, name: string, methods: set<string>)

  type Graph = map<Id, Route>

  /** Every route object mentioned exists. */
  ghost predicate Closed(g: Graph) {
    forall r :: r in g ==> forall c :: c in Children(g[r]) ==> c in g
  }

  /** Where the walk goes from a route object. */
  function Children(r: Route): seq<Id> {
    if r.originalRouter.Some? then r.originalRouter.value else r.nested
  }

  predicate IsReal(r: Route) {
    r.originalRouter.None? && r.dependant.Some?
  }

  // --- The walk ----------------------------------------------------------------------------

  /** `_walk_routes`, as an object that holds the shared `seen` set and the routes yielded. */
  class Walker {
    const g: Graph
    var seen: set<Id>
    var yielded: seq<Id>

    constructor (g: Graph)
      ensures this.g == g && seen == {} && yielded == []
    {
      this.g := g;
      seen, yielded := {}, [];
    }

    method Walk(routes: seq<Id>)
      requires Closed(g) && seen <= g.Keys && forall r :: r in routes ==> r in g
      modifies this
      ensures old(seen) <= seen <= g.Keys
      ensures forall r :: r in routes ==> r in seen
      // Whatever was newly seen is reachable from the roots, and its children are seen too.
      ensures Explored(g, routes, old(seen), seen)
      // The real ones among them are yielded, each once, after what was yielded before.
      ensures old(yielded) <= yielded
      ensures YieldsNew(g, old(seen), seen, yielded[|old(yielded)|..])
      decreases g.Keys - seen, |routes|
    {
      hide Explored, YieldsNew;
      NothingYet(g, routes, seen);
      ghost var before := yielded;
      assert yielded[|before|..] == [];
      ghost var start := seen;
      for i := 0 to |routes|
        invariant start <= seen <= g.Keys
        invariant forall j :: 0 <= j < i ==> routes[j] in seen
        invariant Explored(g, routes, start, seen)
        invariant before <= yielded
        invariant YieldsNew(g, start, seen, yielded[|before|..])
      {
        var id := routes[i];
        var route := g[id];
        if id !in seen {
          ghost var s0, y0 := seen, yielded;
          seen := seen + {id};
          if route.originalRouter.None? && route.dependant.Some? {
            yielded := yielded + [id];
          }
          ghost var s1, y1 := seen, yielded;
          Walk(Children(route));
          ExploredMore(g, routes, start, s0, i, seen);
          YieldOne(g, start, s0, id, y0[|before|..]);
          assert y1[|before|..] == y0[|before|..] + (if IsReal(route) then [id] else []);
          assert yielded[|before|..] == y1[|before|..] + yielded[|y1|..];
          YieldMore(g, start, s1, seen, y1[|before|..], yielded[|y1|..]);
        }
      }
    }
  }

  /** Everything newly seen is reachable from the roots and has its children seen. */
  ghost predicate Explored(g: Graph, roots: seq<Id>, before: set<Id>, after: set<Id>) {
    forall r :: r in after && r !in before ==> r in g && Reaches(g, roots, r) && forall c :: c in Children(g[r]) ==> c in after
  }

  /** Having explored root `i` and then its children. */
  lemma ExploredMore(g: Graph, roots: seq<Id>, start: set<Id>, before: set<Id>, i: nat, after: set<Id>)
    requires i < |roots| && roots[i] in g && before + {roots[i]} <= after
    requires Explored(g, roots, start, before) && Explored(g, Children(g[roots[i]]), before + {roots[i]}, after)
    requires forall c :: c in Children(g[roots[i]]) ==> c in after
    ensures Explored(g, roots, start, after)
  {
    RootReaches(g, roots, i);
    forall r | r in after && r !in start
      ensures r in g && Reaches(g, roots, r) && forall c :: c in Children(g[r]) ==> c in after
    {
      if r !in before + {roots[i]} {
        ChildReaches(g, roots, roots[i], r);
      }
    }
  }

  /** Whether the walk goes from one route object to another: through an included router to its routes, and
      otherwise to the nested routes. */
  ghost predicate LeadsTo(r: Route, c: Id) {
    if r.originalRouter.Some? then c in r.originalRouter.value else c in r.nested
  }

  /** A path from one of the roots. */
  ghost predicate Reaches(g: Graph, roots: seq<Id>, r: Id) {
    exists path: seq<Id> :: IsPath(g, roots, path) && path[|path| - 1] == r
  }

  ghost predicate IsPath(g: Graph, roots: seq<Id>, path: seq<Id>) {
    && path != [] && path[0] in roots
    && (forall i :: 0 <= i < |path| ==> path[i] in g)
    && (forall i :: 0 <= i < |path| - 1 ==> LeadsTo(g[path[i]], path[i + 1]))
  }

  /** The sequence lists exactly the real routes seen since, each once. */
  ghost predicate YieldsNew(g: Graph, before: set<Id>, after: set<Id>, out: seq<Id>) {
    && (forall r :: r in out ==> r in g)
    && (forall r :: r in out <==> r in after && r !in before && r in g && IsReal(g[r]))
    && (forall i, j :: 0 <= i < j < |out| ==> out[i] != out[j])
  }

  /** Every route of an included router that is reached is reached, whatever else the wrapper carries; and so is every
      nested route of any other route that is. */
  lemma IncludedRoutesAreReached(g: Graph, roots: seq<Id>, id: Id, r: Id)
    requires id in g && r in g && Reaches(g, roots, id)
    requires (g[id].originalRouter.Some? && r in g[id].originalRouter.value) || (g[id].originalRouter.None? && r in g[id].nested)
    ensures Reaches(g, roots, r)
  {
    var path :| IsPath(g, roots, path) && path[|path| - 1] == id;
    assert IsPath(g, roots, path + [r]);
    assert (path + [r])[|path + [r]| - 1] == r;
  }

  lemma RootReaches(g: Graph, roots: seq<Id>, i: nat)
    requires i < |roots| && roots[i] in g
    ensures Reaches(g, roots, roots[i])
  {
    assert IsPath(g, roots, [roots[i]]);
  }

  /** What is reachable from the children of a reachable route is reachable. */
  lemma ChildReaches(g: Graph, roots: seq<Id>, id: Id, r: Id)
    requires id in g && Reaches(g, roots, id) && Reaches(g, Children(g[id]), r)
    ensures Reaches(g, roots, r)
  {
    var p :| IsPath(g, roots, p) && p[|p| - 1] == id;
    var q :| IsPath(g, Children(g[id]), q) && q[|q| - 1] == r;
    assert IsPath(g, roots, p + q);
    assert (p + q)[|p + q| - 1] == r;
  }

  lemma NothingYet(g: Graph, roots: seq<Id>, seen: set<Id>)
    ensures Explored(g, roots, seen, seen) && YieldsNew(g, seen, seen, [])
  {
  }

  lemma YieldOne(g: Graph, start: set<Id>, seen: set<Id>, id: Id, out: seq<Id>)
    requires YieldsNew(g, start, seen, out) && start <= seen && id !in seen && id in g
    ensures YieldsNew(g, start, seen + {id}, out + (if IsReal(g[id]) then [id] else []))
  {
  }

  lemma YieldMore(g: Graph, start: set<Id>, middle: set<Id>, end: set<Id>, a: seq<Id>, b: seq<Id>)
    requires start <= middle <= end && YieldsNew(g, start, middle, a) && YieldsNew(g, middle, end, b)
    ensures YieldsNew(g, start, end, a + b)
  {
    forall i, j | 0 <= i < |a| && 0 <= j < |b|
      ensures a[i] != b[j]
    {
      assert a[i] in a && b[j] in b;
    }
  }

  /** Seen from a first walk is exactly reachable, shared or cyclic as the graph may be. */
  lemma SeenIffReachable(g: Graph, roots: seq<Id>, seen: set<Id>, r: Id)
    requires Explored(g, roots, {}, seen) && forall x :: x in roots ==> x in seen
    ensures r in seen <==> r in g && Reaches(g, roots, r)
  {
    if Reaches(g, roots, r) {
      var path :| IsPath(g, roots, path) && path[|path| - 1] == r;
      PathIsSeen(g, roots, seen, path, |path| - 1);
    }
  }

  lemma {:induction false} PathIsSeen(g: Graph, roots: seq<Id>, seen: set<Id>, path: seq<Id>, n: nat)
    requires Explored(g, roots, {}, seen) && (forall x :: x in roots ==> x in seen)
    requires IsPath(g, roots, path) && n < |path|
    ensures path[n] in seen
  {
    if n > 0 {
      PathIsSeen(g, roots, seen, path, n - 1);
      assert LeadsTo(g[path[n - 1]], path[n - 1 + 1]);
    }
  }

  // --- Dependencies ----------------------------------------------------------------------------

  function OwnNames(d: Dependency): set<string> {
    if d.call.None? then {} else {d.call.value} + set n | n in d.guards
  }

  /** Every callable name in a forest of dependencies. */
  function AllNames(ds: seq<Dependency>): set<string>
    decreases ds
  {
    if ds == [] then {} else OwnNames(ds[0]) + AllNames(ds[0].dependencies) + AllNames(ds[1..])
  }

  function Size(ds: seq<Dependency>): nat
    decreases ds
  {
    if ds == [] then 0 else 1 + Size(ds[0].dependencies) + Size(ds[1..])
  }

  lemma {:induction false} ForestConcat(a: seq<Dependency>, b: seq<Dependency>)
    ensures AllNames(a + b) == AllNames(a) + AllNames(b)
    ensures Size(a + b) == Size(a) + Size(b)
  {
    hide OwnNames;
    if a == [] {
      assert a + b == b;
    } else {
      assert (a + b)[0] == a[0] && (a + b)[1..] == a[1..] + b;
      ForestConcat(a[1..], b);
    }
  }

  lemma PopLast(stack: seq<Dependency>)
    requires stack != []
    ensures var top, rest := stack[|stack| - 1], stack[..|stack| - 1];
            && AllNames(stack) == AllNames(rest) + OwnNames(top) + AllNames(top.dependencies)
            && Size(stack) == Size(rest) + 1 + Size(top.dependencies)
  {
    hide OwnNames;
    var top, rest := stack[|stack| - 1], stack[..|stack| - 1];
    assert stack == rest + [top];
    ForestConcat(rest, [top]);
    assert [top][1..] == [];
  }

  /** The name is called, or guards what is called, somewhere in the forest. */
  ghost predicate Mentions(ds: seq<Dependency>, name: string)
    decreases ds
  {
    exists d <- ds :: (d.call.Some? && (name == d.call.value || name in d.guards)) || Mentions(d.dependencies, name)
  }

  lemma {:induction false} AllNamesAreMentioned(ds: seq<Dependency>, name: string)
    ensures name in AllNames(ds) <==> Mentions(ds, name)
    decreases ds
  {
    if ds != [] {
      AllNamesAreMentioned(ds[0].dependencies, name);
      AllNamesAreMentioned(ds[1..], name);
      assert forall d :: d in ds <==> d == ds[0] || d in ds[1..];
    }
  }

  /** `_dependency_names`: with an explicit stack, last in first out. */
  method DependencyNames(dependencies: seq<Dependency>) returns (names: set<string>)
    ensures names == AllNames(dependencies)
  {
    hide AllNames, Size;
    names := {};
    var stack := dependencies;
    while stack != []
      invariant names + AllNames(stack) == AllNames(dependencies)
      decreases Size(stack)
    {
      var dep := stack[|stack| - 1];
      PopLast(stack);
      stack := stack[..|stack| - 1];
      if dep.call.Some? {
        names := names + {dep.call.value};
        names := names + set n | n in dep.guards;
      }
      ForestConcat(stack, dep.dependencies);
      stack := stack + dep.dependencies;
    }
    NoNames();
  }

  lemma NoNames()
    ensures AllNames([]) == {}
  {
  }

  // --- The check ---------------------------------------------------------------------------------

  /** What the check is configured with: the resolvers that authenticate, the paths open by design,
      and the reviewed public list. */
  datatype Policy = Policy(resolvers: set<string>, byDesign: set<string>, expectedPublic: set<(string, string)>)

  datatype Live = Live(verb: string, path: string, name: string, dependencies: set<string>)

  datatype Finding = Unauthenticated(verb: string, path: string, name: string) | StaleAllowlist(verb: string, path: string)

  /** A live route resolves no user and is not open by design. */
  predicate Open(l: Live, p: Policy) {
    l.dependencies * p.resolvers == {} && l.path !in p.byDesign
  }

  function VerbsOf(r: Route): set<string> {
    r.methods - {"HEAD", "OPTIONS"}
  }

  /** The live routes of one real route, its verbs in the given order. */
  function LiveOf(r: Route, verbs: seq<string>): seq<Live>
    requires r.dependant.Some?
  {
    seq(|verbs|, i requires 0 <= i < |verbs| => Live(verbs[i], r.path, r.name, AllNames(r.dependant.value)))
  }

  /** `live_routes`: `sortVerbs` lists a set of verbs in order. */
  method LiveRoutes(g: Graph, roots: seq<Id>, sortVerbs: set<string> -> seq<string>) returns (out: seq<Live>)
    requires Closed(g) && forall r :: r in roots ==> r in g
    requires forall s: set<string>, v :: v in sortVerbs(s) <==> v in s
    ensures forall l :: l in out <==> IsLive(g, roots, l)
  {
    var walker := new Walker(g);
    walker.Walk(roots);
    var routes := walker.yielded;
    assert routes == walker.yielded[0..];
    RoutesAreReachable(g, roots, walker.seen, routes);
    assert RealOnes(g, routes);
    out := [];
    assert ListsLive(g, routes[..0], out);
    hide *;
    for i := 0 to |routes|
      invariant ListsLive(g, routes[..i], out)
    {
      RealOne(g, routes, i);
      var r := g[routes[i]];
      var names := DependencyNames(r.dependant.value);
      var verbs := sortVerbs(VerbsOf(r));
      LiveOfRoute(g, routes[i], verbs);
      OneMoreListed(g, routes, i, out, LiveOf(r, verbs));
      out := out + LiveOf(r, verbs);
    }
    AllListed(g, roots, routes, out);
  }

  ghost predicate RealOnes(g: Graph, routes: seq<Id>) {
    forall r <- routes :: r in g && IsReal(g[r])
  }

  lemma RealOne(g: Graph, routes: seq<Id>, i: nat)
    requires RealOnes(g, routes) && i < |routes|
    ensures routes[i] in g && IsReal(g[routes[i]]) && g[routes[i]].dependant.Some?
  {
  }

  ghost predicate ListsLive(g: Graph, routes: seq<Id>, out: seq<Live>) {
    forall l :: l in out <==> exists r <- routes :: LiveAt(g, r, l)
  }

  lemma OneMoreListed(g: Graph, routes: seq<Id>, i: nat, out: seq<Live>, some: seq<Live>)
    requires i < |routes| && ListsLive(g, routes[..i], out) && forall l :: l in some <==> LiveAt(g, routes[i], l)
    ensures ListsLive(g, routes[..i + 1], out + some)
  {
    hide LiveAt;
    assert forall r :: r in routes[..i + 1] <==> r in routes[..i] || r == routes[i];
  }

  lemma AllListed(g: Graph, roots: seq<Id>, routes: seq<Id>, out: seq<Live>)
    requires ListsLive(g, routes[..|routes|], out) && forall r :: r in routes <==> r in g && Reaches(g, roots, r) && IsReal(g[r])
    ensures forall l :: l in out <==> IsLive(g, roots, l)
  {
    assert routes[..|routes|] == routes;
    forall r, l | LiveAt(g, r, l)
      ensures r in g && IsReal(g[r])
    {
    }
    hide LiveAt, Reaches, IsReal;
  }

  lemma LiveOfRoute(g: Graph, id: Id, verbs: seq<string>)
    requires id in g && IsReal(g[id]) && g[id].dependant.Some? && forall v :: v in verbs <==> v in VerbsOf(g[id])
    ensures forall l :: l in LiveOf(g[id], verbs) <==> LiveAt(g, id, l)
  {
    forall n
      ensures n in AllNames(g[id].dependant.value) <==> Mentions(g[id].dependant.value, n)
    {
      AllNamesAreMentioned(g[id].dependant.value, n);
    }
    hide AllNames, Mentions;
    forall l | LiveAt(g, id, l)
      ensures l in LiveOf(g[id], verbs)
    {
      assert l.dependencies == AllNames(g[id].dependant.value);
      assert l.verb in VerbsOf(g[id]) && l.verb in verbs;
      var k :| 0 <= k < |verbs| && verbs[k] == l.verb;
      assert LiveOf(g[id], verbs)[k] == l;
    }
    forall l | l in LiveOf(g[id], verbs)
      ensures LiveAt(g, id, l)
    {
      assert l.verb in verbs && l.verb in VerbsOf(g[id]);
    }
  }

  /** A verb of a real route, other than HEAD and OPTIONS, with the names in its dependency tree. */
  ghost predicate LiveAt(g: Graph, r: Id, l: Live) {
    && r in g && g[r].originalRouter.None? && g[r].dependant.Some? && l.path == g[r].path && l.name == g[r].name
    && l.verb in g[r].methods && l.verb != "HEAD" && l.verb != "OPTIONS"
    && forall n :: n in l.dependencies <==> Mentions(g[r].dependant.value, n)
  }

  ghost predicate IsLive(g: Graph, roots: seq<Id>, l: Live) {
    exists r :: r in g && Reaches(g, roots, r) && LiveAt(g, r, l)
  }

  lemma RoutesAreReachable(g: Graph, roots: seq<Id>, seen: set<Id>, routes: seq<Id>)
    requires Explored(g, roots, {}, seen) && (forall r :: r in roots ==> r in seen) && YieldsNew(g, {}, seen, routes)
    ensures forall r :: r in routes <==> r in g && Reaches(g, roots, r) && IsReal(g[r])
    ensures forall i, j :: 0 <= i < j < |routes| ==> routes[i] != routes[j]
  {
    forall r
      ensures r in routes <==> r in g && Reaches(g, roots, r) && IsReal(g[r])
    {
      SeenIffReachable(g, roots, seen, r);
    }
  }

  /** The open verb and path pairs among some live routes. */
  function OpenPairs(routes: seq<Live>, p: Policy): set<(string, string)> {
    set l | l in routes && Open(l, p) :: (l.verb, l.path)
  }

  function Criticals(routes: seq<Live>, p: Policy): set<Finding> {
    set l | l in routes && Open(l, p) && (l.verb, l.path) !in p.expectedPublic :: Unauthenticated(l.verb, l.path, l.name)
  }

  lemma OneMoreRoute(routes: seq<Live>, i: nat, p: Policy)
    requires i < |routes|
    ensures var l, before, after := routes[i], routes[..i], routes[..i + 1];
            && OpenPairs(after, p) == OpenPairs(before, p) + (if Open(l, p) then {(l.verb, l.path)} else {})
            && Criticals(after, p) == Criticals(before, p)
                 + (if Open(l, p) && (l.verb, l.path) !in p.expectedPublic then {Unauthenticated(l.verb, l.path, l.name)} else {})
  {
    var l, before, after := routes[i], routes[..i], routes[..i + 1];
    assert after == before + [l];
    assert l in after;
    assert forall x :: x in before ==> x in after;
  }

  lemma ElementsAppend<T>(s: seq<T>, x: T)
    ensures Elements(s + [x]) == Elements(s) + {x}
  {
    assert (s + [x])[|s|] == x;
    assert forall y :: y in s ==> y in s + [x];
  }

  /** `check_unauthenticated_routes` over the live routes: critical for the open pairs that were not
      reviewed, stale for the reviewed pairs that are not open. */
  method CheckUnauthenticated(routes: seq<Live>, p: Policy, sortPairs: set<(string, string)> -> seq<(string, string)>)
      returns (findings: seq<Finding>)
    requires forall s: set<(string, string)>, x :: x in sortPairs(s) <==> x in s
    ensures forall f :: f in findings ==> f.Unauthenticated? || f.StaleAllowlist?
    ensures forall f: Finding :: f.Unauthenticated? ==> (f in findings <==> f in Criticals(routes, p))
    ensures forall f: Finding :: f.StaleAllowlist? ==> (f in findings <==> (f.verb, f.path) in p.expectedPublic - OpenPairs(routes, p))
  {
    hide OpenPairs, Criticals;
    findings := [];
    var seenPublic: set<(string, string)> := {};
    NoRoutes(p);
    assert routes[..0] == [];
    for i := 0 to |routes|
      invariant seenPublic == OpenPairs(routes[..i], p)
      invariant Elements(findings) == Criticals(routes[..i], p)
    {
      var l := routes[i];
      OneMoreRoute(routes, i, p);
      if l.dependencies * p.resolvers != {} {
        continue;
      }
      if l.path in p.byDesign {
        continue;
      }
      seenPublic := seenPublic + {(l.verb, l.path)};
      if (l.verb, l.path) !in p.expectedPublic {
        ElementsAppend(findings, Unauthenticated(l.verb, l.path, l.name));
        findings := findings + [Unauthenticated(l.verb, l.path, l.name)];
      }
    }
    assert routes[..|routes|] == routes;
    ghost var criticals := findings;
    CriticalsAreCritical(routes, p);
    assert forall f :: f in criticals <==> f in Elements(criticals);
    var stale := sortPairs(p.expectedPublic - seenPublic);
    for i := 0 to |stale|
      invariant forall f: Finding :: f.Unauthenticated? ==> (f in findings <==> f in criticals)
      invariant forall f: Finding :: f.StaleAllowlist? ==> (f in findings <==> (f.verb, f.path) in stale[..i])
    {
      assert stale[..i + 1] == stale[..i] + [stale[i]];
      findings := findings + [StaleAllowlist(stale[i].0, stale[i].1)];
    }
    assert stale[..|stale|] == stale;
  }

  lemma NoRoutes(p: Policy)
    ensures OpenPairs([], p) == {} && Criticals([], p) == {}
  {
  }

  lemma CriticalsAreCritical(routes: seq<Live>, p: Policy)
    ensures forall f :: f in Criticals(routes, p) ==> f.Unauthenticated?
  {
  }

  /** A verb, path and name that nobody authenticates: of a real route that is reached, whose dependency tree nowhere
      mentions a resolver and whose path is not open by design. */
  ghost predicate IsOpenRoute(g: Graph, roots: seq<Id>, p: Policy, r: Id, verb: string, path: string, name: string) {
    && r in g && Reaches(g, roots, r) && g[r].originalRouter.None? && g[r].dependant.Some?
    && verb in g[r].methods && verb != "HEAD" && verb != "OPTIONS" && path == g[r].path && name == g[r].name
    && path !in p.byDesign && forall n <- p.resolvers :: !Mentions(g[r].dependant.value, n)
  }

  lemma OpenLiveIff(g: Graph, roots: seq<Id>, p: Policy, verb: string, path: string, name: string)
    ensures (exists deps :: IsLive(g, roots, Live(verb, path, name, deps)) && Open(Live(verb, path, name, deps), p))
            <==> exists r :: IsOpenRoute(g, roots, p, r, verb, path, name)
  {
    hide Mentions, Reaches;
    if deps :| IsLive(g, roots, Live(verb, path, name, deps)) && Open(Live(verb, path, name, deps), p) {
      var r :| r in g && Reaches(g, roots, r) && LiveAt(g, r, Live(verb, path, name, deps));
      assert forall n <- p.resolvers :: n !in deps * p.resolvers;
      assert IsOpenRoute(g, roots, p, r, verb, path, name);
    }
    if r :| IsOpenRoute(g, roots, p, r, verb, path, name) {
      var deps := AllNames(g[r].dependant.value);
      forall n
        ensures n in deps <==> Mentions(g[r].dependant.value, n)
      {
        AllNamesAreMentioned(g[r].dependant.value, n);
      }
      assert LiveAt(g, r, Live(verb, path, name, deps));
      assert IsLive(g, roots, Live(verb, path, name, deps)) && Open(Live(verb, path, name, deps), p);
    }
  }

  /** The whole check, from the graph to the findings: a critical finding for exactly the open routes that were not
      reviewed, and a stale one for exactly the reviewed ones that are not open. */
  method CheckApp(g: Graph, roots: seq<Id>, p: Policy,
                  sortVerbs: set<string> -> seq<string>, sortPairs: set<(string, string)> -> seq<(string, string)>)
      returns (findings: seq<Finding>)
    requires Closed(g) && forall r :: r in roots ==> r in g
    requires forall s: set<string>, v :: v in sortVerbs(s) <==> v in s
    requires forall s: set<(string, string)>, x :: x in sortPairs(s) <==> x in s
    ensures forall v, path, n :: Unauthenticated(v, path, n) in findings
              <==> (v, path) !in p.expectedPublic && exists r :: IsOpenRoute(g, roots, p, r, v, path, n)
    ensures forall v, path :: StaleAllowlist(v, path) in findings
              <==> (v, path) in p.expectedPublic && !exists r, n :: IsOpenRoute(g, roots, p, r, v, path, n)
  {
    var routes := LiveRoutes(g, roots, sortVerbs);
    findings := CheckUnauthenticated(routes, p, sortPairs);
    FindingsAreOpenRoutes(g, roots, p, routes);
    hide IsOpenRoute, Criticals, OpenPairs;
  }

  lemma FindingsAreOpenRoutes(g: Graph, roots: seq<Id>, p: Policy, routes: seq<Live>)
    requires forall l :: l in routes <==> IsLive(g, roots, l)
    ensures forall v, path, n :: Unauthenticated(v, path, n) in Criticals(routes, p)
              <==> (v, path) !in p.expectedPublic && exists r :: IsOpenRoute(g, roots, p, r, v, path, n)
    ensures forall v, path :: (v, path) in OpenPairs(routes, p) <==> exists r, n :: IsOpenRoute(g, roots, p, r, v, path, n)
  {
    hide IsLive, Open, IsOpenRoute;
    forall v, path, n
      ensures Unauthenticated(v, path, n) in Criticals(routes, p)
              <==> (v, path) !in p.expectedPublic && exists r :: IsOpenRoute(g, roots, p, r, v, path, n)
    {
      OpenLiveIff(g, roots, p, v, path, n);
      if deps :| IsLive(g, roots, Live(v, path, n, deps)) && Open(Live(v, path, n, deps), p) {
        assert Live(v, path, n, deps) in routes;
      }
      if Unauthenticated(v, path, n) in Criticals(routes, p) {
        var l :| l in routes && Open(l, p) && Unauthenticated(l.verb, l.path, l.name) == Unauthenticated(v, path, n);
        assert l == Live(v, path, n, l.dependencies);
      }
    }
    forall v, path
      ensures (v, path) in OpenPairs(routes, p) <==> exists r, n :: IsOpenRoute(g, roots, p, r, v, path, n)
    {
      if r, n :| IsOpenRoute(g, roots, p, r, v, path, n) {
        OpenLiveIff(g, roots, p, v, path, n);
        var deps :| IsLive(g, roots, Live(v, path, n, deps)) && Open(Live(v, path, n, deps), p);
        assert Live(v, path, n, deps) in routes;
      }
      if (v, path) in OpenPairs(routes, p) {
        var l :| l in routes && Open(l, p) && (l.verb, l.path) == (v, path);
        assert l == Live(v, path, l.name, l.dependencies);
        OpenLiveIff(g, roots, p, v, path, l.name);
      }
    }
  }
}
