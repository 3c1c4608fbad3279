/** The survey-photo tool: which listed objects no row names, and when it deletes them. */
module OrphanDeletion {
  import opened Wrappers
  import opened Text
  import opened BucketTree
  import opened OrphanListing

  const DEFAULT_BATCH_SIZE: nat := 50
  const PAGE_SIZE: nat := 100
  const MAX_PAGES: nat := 200

  // --- Sorted sets of paths ------------------------------------------------------------------------

  predicate IsLeast(s: set<string>, x: string) {
    x in s && forall y <- s :: Leq(x, y)
  }

  lemma {:induction false} LeastExists(s: set<string>) returns (x: string)
    requires s != {}
    ensures IsLeast(s, x)
  {
    var z :| z in s;
    if s == {z} {
      LeqTotal(z, z);
      x := z;
    } else {
      var least := LeastExists(s - {z});
      x := Lesser(s, z, least);
    }
  }

  lemma Lesser(s: set<string>, z: string, least: string) returns (x: string)
    requires z in s && IsLeast(s - {z}, least)
    ensures IsLeast(s, x)
  {
    hide Leq;
    LeqTotal(least, z);
    LeqTotal(z, z);
    x := if Leq(least, z) then least else z;
    forall y | y in s
      ensures Leq(x, y)
    {
      if y != z {
        LeqTotal(least, least);
        LeqTransitive(x, least, y);
      }
    }
  }

  lemma LeastIsUnique(s: set<string>, x: string, y: string)
    requires IsLeast(s, x) && IsLeast(s, y)
    ensures x == y
  {
    LeqAntisymmetric(x, y);
  }

  function Least(s: set<string>): (x: string)
    requires s != {}
    ensures x in s && forall y <- s :: Leq(x, y)
  {
    assert exists x :: IsLeast(s, x) by {
      var x := LeastExists(s);
    }
    assert forall x, y :: IsLeast(s, x) && IsLeast(s, y) ==> x == y by {
      forall x, y | IsLeast(s, x) && IsLeast(s, y)
        ensures x == y
      {
        LeastIsUnique(s, x, y);
      }
    }
    var x :| x in s && IsLeast(s, x);
    x
  }

  function SortedPaths(s: set<string>): (r: seq<string>)
    ensures |r| == |s| && forall x :: x in r <==> x in s
  {
    if s == {} then [] else [Least(s)] + SortedPaths(s - {Least(s)})
  }

  predicate Increasing(r: seq<string>) {
    forall i, j :: 0 <= i < j < |r| ==> Leq(r[i], r[j]) && r[i] != r[j]
  }

  lemma IncreasingFrom(x: string, rest: seq<string>)
    requires Increasing(rest) && forall y <- rest :: Leq(x, y) && x != y
    ensures Increasing([x] + rest)
  {
    hide Leq;
    var r := [x] + rest;
    forall i, j | 0 <= i < j < |r|
      ensures Leq(r[i], r[j]) && r[i] != r[j]
    {
      assert r[j] == rest[j - 1] && rest[j - 1] in rest;
      assert i > 0 ==> r[i] == rest[i - 1];
    }
  }

  lemma {:induction false} SortedPathsIncrease(s: set<string>)
    ensures Increasing(SortedPaths(s))
  {
    hide Leq, Increasing;
    if s == {} {
      NothingIncreases();
    } else {
      SortedPathsIncrease(s - {Least(s)});
      IncreasingFrom(Least(s), SortedPaths(s - {Least(s)}));
    }
  }

  lemma NothingIncreases()
    ensures Increasing([])
  {
  }

  // --- The reconciliation --------------------------------------------------------------------------

  datatype Diff = Diff(orphans: seq<string>, referenced: seq<string>, dangling: seq<string>, outside: seq<string>)

  function TrimmedValue(raw: Option<string>): string {
    if raw.None? then "" else Strip(raw.value)
  }

  /** The paths some rows name, once trimmed. */
  function Named(rows: seq<Option<string>>): (s: set<string>)
    ensures "" !in s
  {
    if rows == [] then {}
    else
      var path := TrimmedValue(rows[|rows| - 1]);
      Named(rows[..|rows| - 1]) + (if path == "" then {} else {path})
  }

  function Below(paths: set<string>, prefix: string): set<string> {
    set p | p in paths && prefix <= p
  }

  /** `diff_references`. Sizes do not take part in it, and follow their paths. */
  method DiffReferences(objects: Objects, rows: seq<Option<string>>, prefix: string) returns (d: Diff)
    ensures d == DiffOf(objects.Keys, Named(rows), prefix)
  {
    hide Strip, SortedPaths;
    var referenced: set<string>, outside: set<string> := {}, {};
    for i := 0 to |rows|
      invariant referenced == Below(Named(rows[..i]), prefix)
      invariant outside == Named(rows[..i]) - referenced
    {
      assert rows[..i + 1][..i] == rows[..i];
      var path := TrimmedValue(rows[i]);
      if path == "" {
        continue;
      }
      if prefix <= path {
        referenced := referenced + {path};
      } else {
        outside := outside + {path};
      }
    }
    assert rows[..|rows|] == rows;
    d := Diff(SortedPaths(objects.Keys - referenced), SortedPaths(objects.Keys * referenced),
              SortedPaths(referenced - objects.Keys), SortedPaths(outside));
  }

  function DiffOf(listed: set<string>, named: set<string>, prefix: string): Diff {
    var referenced := Below(named, prefix);
    Diff(SortedPaths(listed - referenced), SortedPaths(listed * referenced),
         SortedPaths(referenced - listed), SortedPaths(named - referenced))
  }

  /** Where everything listed is under the prefix: an orphan is a listed path that no row names, a dangling
      path is named and not listed, and every listed or named path is in exactly one of the four lists. */
  lemma DiffTellsApart(listed: set<string>, named: set<string>, prefix: string, path: string)
    requires forall p <- listed :: prefix <= p
    ensures var d := DiffOf(listed, named, prefix);
            && (path in d.orphans <==> path in listed && path !in named)
            && (path in d.referenced <==> path in listed && path in named)
            && (path in d.dangling <==> path !in listed && path in named && prefix <= path)
            && (path in d.outside <==> path in named && !(prefix <= path))
            && |d.orphans| + |d.referenced| == |listed|
            && |d.referenced| + |d.dangling| + |d.outside| == |named|
  {
    var referenced := Below(named, prefix);
    assert listed == (listed - referenced) + (listed * referenced);
    assert named == referenced + (named - referenced);
    assert referenced == (listed * referenced) + (referenced - listed);
  }

  // --- Deleting ------------------------------------------------------------------------------------

  /** `batched`. */
  function Batched<T>(items: seq<T>, size: int): (b: seq<seq<T>>)
    decreases |items|
  {
    var n := if size < 1 then 1 else size;
    if items == [] then []
    else if |items| <= n then [items]
    else [items[..n]] + Batched(items[n..], size)
  }

  function Joined<T>(batches: seq<seq<T>>): seq<T> {
    if batches == [] then [] else batches[0] + Joined(batches[1..])
  }

  /** Batches hold the items in order, every batch but the last is full, and none is empty. */
  lemma {:induction false} BatchesAreTheItems<T>(items: seq<T>, size: int)
    ensures Joined(Batched(items, size)) == items
    ensures forall i :: 0 <= i < |Batched(items, size)| ==>
              0 < |Batched(items, size)[i]| <= (if size < 1 then 1 else size)
              && (i < |Batched(items, size)| - 1 ==> |Batched(items, size)[i]| == if size < 1 then 1 else size)
    decreases |items|
  {
    var n := if size < 1 then 1 else size;
    if items != [] && |items| > n {
      BatchesAreTheItems(items[n..], size);
      var rest := Batched(items[n..], size);
      assert ([items[..n]] + rest)[1..] == rest;
    } else if items != [] {
      assert [items][1..] == [];
    }
  }

  /** Whether the service deletes an object: (how many calls before, path) -> done, or a failure. */
  type Deleter = (nat, string) -> bool

  /** The paths among some deletes that worked, or that did not; the calls are numbered from `n`. */
  function Outcomes(paths: seq<string>, delete: Deleter, worked: bool): seq<string> {
    if paths == [] then []
    else
      var n := |paths| - 1;
      Outcomes(paths[..n], delete, worked) + (if delete(n, paths[n]) == worked then [paths[n]] else [])
  }

  ghost predicate Deleting(orphans: seq<string>, delete: Deleter, done: nat, removed: seq<string>, deleted: nat, failed: seq<string>) {
    && done <= |orphans| && deleted == |removed|
    && removed == Outcomes(orphans[..done], delete, true)
    && failed == Outcomes(orphans[..done], delete, false)
  }

  lemma DeleteNext(orphans: seq<string>, delete: Deleter, done: nat, removed: seq<string>, deleted: nat, failed: seq<string>)
    requires done < |orphans| && Deleting(orphans, delete, done, removed, deleted, failed)
    ensures if delete(done, orphans[done])
            then Deleting(orphans, delete, done + 1, removed + [orphans[done]], deleted + 1, failed)
            else Deleting(orphans, delete, done + 1, removed, deleted, failed + [orphans[done]])
  {
    assert orphans[..done + 1][..done] == orphans[..done];
    assert forall f: seq<string> {:trigger f + []} :: f + [] == f;
  }

  lemma DeleteStart(orphans: seq<string>, delete: Deleter)
    ensures Deleting(orphans, delete, 0, [], 0, [])
  {
  }

  lemma DeleteEnd(orphans: seq<string>, delete: Deleter, done: nat, removed: seq<string>, deleted: nat, failed: seq<string>)
    requires Deleting(orphans, delete, done, removed, deleted, failed) && orphans[done..] == []
    ensures removed == Outcomes(orphans, delete, true) && deleted == |removed| && failed == Outcomes(orphans, delete, false)
  {
    assert orphans[..done] == orphans;
  }

  /** `delete_orphans`: every orphan is asked for once, in order, whatever fails before it. */
  method DeleteOrphans(orphans: seq<string>, delete: Deleter, batchSize: int) returns (removed: seq<string>, deleted: nat, failed: seq<string>)
    ensures removed == Outcomes(orphans, delete, true) && deleted == |removed|
    ensures failed == Outcomes(orphans, delete, false)
  {
    hide *;
    removed, deleted, failed := [], 0, [];
    var batches := Batched(orphans, batchSize);
    BatchesAreTheItems(orphans, batchSize);
    var done: nat := 0;
    Asked(orphans, batches, 0);
    DeleteStart(orphans, delete);
    for b := 0 to |batches|
      invariant done <= |orphans| && orphans[done..] == Joined(batches[b..])
      invariant Deleting(orphans, delete, done, removed, deleted, failed)
    {
      var batch := batches[b];
      ghost var start := done;
      Asked(orphans, batches, b);
      FirstBatch(orphans, start, batch, Joined(batches[b + 1..]));
      for i := 0 to |batch|
        invariant done == start + i <= |orphans|
        invariant Deleting(orphans, delete, done, removed, deleted, failed)
      {
        DeleteNext(orphans, delete, done, removed, deleted, failed);
        if delete(done, batch[i]) {
          removed := removed + [batch[i]];
          deleted := deleted + 1;
        } else {
          failed := failed + [batch[i]];
        }
        done := done + 1;
      }
    }
    Asked(orphans, batches, |batches|);
    DeleteEnd(orphans, delete, done, removed, deleted, failed);
  }

  lemma Asked(orphans: seq<string>, batches: seq<seq<string>>, b: nat)
    requires b <= |batches|
    ensures Joined(batches[b..]) == if b == |batches| then [] else batches[b] + Joined(batches[b + 1..])
    ensures batches[0..] == batches && orphans[0..] == orphans
  {
    if b < |batches| {
      assert batches[b..][1..] == batches[b + 1..];
    }
  }

  lemma FirstBatch(orphans: seq<string>, start: nat, batch: seq<string>, rest: seq<string>)
    requires start <= |orphans| && orphans[start..] == batch + rest
    ensures start + |batch| <= |orphans|
    ensures forall i :: 0 <= i < |batch| ==> batch[i] == orphans[start + i]
    ensures orphans[start + |batch|..] == rest
  {
    assert forall i :: 0 <= i < |batch| ==> orphans[start..][i] == orphans[start + i];
    assert orphans[start..][|batch|..] == orphans[start + |batch|..];
  }

  /** What was deleted and what failed make up the orphans. */
  lemma {:induction false} DeletedPlusFailed(paths: seq<string>, delete: Deleter)
    ensures multiset(Outcomes(paths, delete, true)) + multiset(Outcomes(paths, delete, false)) == multiset(paths)
    ensures |Outcomes(paths, delete, true)| + |Outcomes(paths, delete, false)| == |paths|
  {
    if paths != [] {
      var n := |paths| - 1;
      assert paths == paths[..n] + [paths[n]];
      DeletedPlusFailed(paths[..n], delete);
    }
  }

  // --- A run ---------------------------------------------------------------------------------------

  datatype Args = Args(delete: bool, expectRef: Option<string>, allowNoReferences: bool, batchSize: int)

  datatype Settings = Settings(supabaseUrl: Option<string>, serviceKey: Option<string>, databaseUrl: Option<string>)

  /** `ref in url`. */
  predicate Contains(url: string, ref: string) {
    ref <= url || (url != "" && Contains(url[1..], ref))
  }

  predicate IsSet(v: Option<string>) {
    v.Some? && v.value != ""
  }

  /** `project_ref_problems`, for one of the two URLs: nothing wrong with it. */
  predicate CarriesRef(url: Option<string>, expected: string) {
    Strip(expected) != "" && IsSet(url) && Contains(url.value, Strip(expected))
  }

  lemma {:induction false} ContainsIff(url: string, ref: string)
    ensures Contains(url, ref) <==> exists before: string, after: string :: url == before + ref + after
  {
    if ref <= url {
      assert url == "" + ref + url[|ref|..];
    } else if url != "" {
      ContainsIff(url[1..], ref);
      if before: string, after: string :| url[1..] == before + ref + after {
        assert url == ([url[0]] + before) + ref + after;
      }
    }
    if before: string, after: string :| url == before + ref + after {
      if before == "" {
        assert ref <= url;
      } else {
        assert url[1..] == before[1..] + ref + after;
      }
    }
  }

  /** The text stands in both addresses, between whatever else. */
  ghost predicate StandsIn(url: Option<string>, ref: string) {
    url.Some? && exists before: string, after: string :: url.value == before + ref + after
  }

  /** What a run is started with: both addresses and the key; a project named, if it is to delete; and whatever
      project is named carried by the storage's address, and by the database's too if it is to delete. */
  ghost predicate IsAccepted(args: Args, settings: Settings) {
    && settings.supabaseUrl.Some? && settings.supabaseUrl.value != ""
    && settings.serviceKey.Some? && settings.serviceKey.value != ""
    && settings.databaseUrl.Some? && settings.databaseUrl.value != ""
    && (args.delete ==> args.expectRef.Some? && Strip(args.expectRef.value) != "")
    && (args.expectRef.Some? && args.expectRef.value != "" ==>
          && Strip(args.expectRef.value) != "" && StandsIn(settings.supabaseUrl, Strip(args.expectRef.value))
          && (args.delete ==> StandsIn(settings.databaseUrl, Strip(args.expectRef.value))))
  }

  lemma AcceptedIff(args: Args, settings: Settings)
    ensures IsAccepted(args, settings) <==> ParseArgs(args) && MayStart(args, settings)
  {
    if args.expectRef.Some? {
      var ref := Strip(args.expectRef.value);
      var l, r := TrimParts(args.expectRef.value, IsSpace);
      hide Strip, Contains;
      if settings.supabaseUrl.Some? {
        ContainsIff(settings.supabaseUrl.value, ref);
      }
      if settings.databaseUrl.Some? {
        ContainsIff(settings.databaseUrl.value, ref);
      }
    }
  }

  /** The command line is accepted: a deletion must say which project it means. */
  predicate ParseArgs(args: Args) {
    args.delete ==> args.expectRef.Some? && Strip(args.expectRef.value) != ""
  }

  /** The guards before anything is read. */
  predicate MayStart(args: Args, settings: Settings) {
    && IsSet(settings.supabaseUrl) && IsSet(settings.serviceKey) && IsSet(settings.databaseUrl)
    && (IsSet(args.expectRef) ==>
          CarriesRef(settings.supabaseUrl, args.expectRef.value)
          && (args.delete ==> CarriesRef(settings.databaseUrl, args.expectRef.value)))
  }

  /** `main` and `_run`: rows are the staged paths loaded from the table, None when that failed. */
  method Run(args: Args, settings: Settings, rows: Option<seq<Option<string>>>, list: Service, ghost root: Tree, delete: Deleter)
    returns (code: int, removed: seq<string>, failed: seq<string>, listing: Option<Listing>)
    requires WellFormed(root) && Serves(list, root)
    ensures listing.Some? <==> IsAccepted(args, settings) && rows.Some?
    ensures listing.Some? ==> Within(listing.value.objects, SeenUnder(root, STAGED_PREFIX))
                              && (listing.value.complete ==> HasPaths(listing.value.objects, SeenUnder(root, STAGED_PREFIX)))
                              && (listing.value.complete && Trimmed(Top(root, STAGED_PREFIX).tree) ==>
                                    Lists(listing.value.objects, ObjectsUnder(root, STAGED_PREFIX)))
    ensures listing.Some? && NeverFails(list) ==> (listing.value.complete <==> Fits(Top(root, STAGED_PREFIX).tree, PAGE_SIZE, MAX_PAGES))
    ensures removed == if listing.Some? && MayDelete(args, rows.value, listing.value)
                       then Outcomes(OrphansOf(listing.value, rows.value, STAGED_PREFIX), delete, true) else []
    ensures failed == if listing.Some? && MayDelete(args, rows.value, listing.value)
                      then Outcomes(OrphansOf(listing.value, rows.value, STAGED_PREFIX), delete, false) else []
    // Nothing is deleted in a dry run, after an incomplete listing, or with no rows and no permission to have none;
    // and the last two, when something was to be deleted, do not end well.
    ensures !args.delete || listing.None? || !listing.value.complete || (rows == Some([]) && !args.allowNoReferences) ==> removed == [] && failed == []
    ensures listing.Some? && !listing.value.complete ==> code != 0
    ensures listing.Some? && args.delete && rows == Some([]) && !args.allowNoReferences && OrphansOf(listing.value, [], STAGED_PREFIX) != [] ==> code != 0
    ensures code == 0 <==> && listing.Some? && listing.value.complete && failed == []
                           && (args.delete ==> OrphansOf(listing.value, rows.value, STAGED_PREFIX) == [] || MayDelete(args, rows.value, listing.value))
  {
    hide Strip, SortedPaths, WellFormed, Fits, Contains, Named, Outcomes, Lists, Within, HasPaths, Trimmed, Top, ObjectsUnder, SeenUnder;
    removed, failed, listing := [], [], None;
    AcceptedIff(args, settings);
    hide IsAccepted;
    if !ParseArgs(args) {
      return 2, removed, failed, listing;
    }
    if !IsSet(settings.supabaseUrl) || !IsSet(settings.serviceKey) || !IsSet(settings.databaseUrl) {
      return 2, removed, failed, listing;
    }
    if IsSet(args.expectRef) {
      if !CarriesRef(settings.supabaseUrl, args.expectRef.value) {
        return 2, removed, failed, listing;
      }
      if !CarriesRef(settings.databaseUrl, args.expectRef.value) && args.delete {
        return 2, removed, failed, listing;
      }
    }
    if rows.None? {
      return 2, removed, failed, listing;
    }
    var l := WalkListing(list, root, STAGED_PREFIX, PAGE_SIZE, MAX_PAGES);
    listing := Some(l);
    var diff := DiffReferences(l.objects, rows.value, STAGED_PREFIX);
    if !args.delete {
      return if l.complete then 0 else 1, removed, failed, listing;
    }
    if !l.complete {
      return 1, removed, failed, listing;
    }
    if diff.orphans == [] {
      NothingToDelete(delete);
      return 0, removed, failed, listing;
    }
    if rows.value == [] && !args.allowNoReferences {
      return 1, removed, failed, listing;
    }
    var deleted: nat;
    removed, deleted, failed := DeleteOrphans(diff.orphans, delete, args.batchSize);
    code := if failed != [] then 1 else 0;
  }

  lemma NothingToDelete(delete: Deleter)
    ensures Outcomes([], delete, true) == [] && Outcomes([], delete, false) == []
  {
  }

  function OrphansOf(listing: Listing, rows: seq<Option<string>>, prefix: string): seq<string> {
    DiffOf(listing.objects.Keys, Named(rows), prefix).orphans
  }

  /** The guards before a deletion. */
  predicate MayDelete(args: Args, rows: seq<Option<string>>, listing: Listing) {
    args.delete && listing.complete && (rows != [] || args.allowNoReferences)
  }

  // --- What a run does to the bucket ---------------------------------------------------------------

  function PathsUnder(root: Tree, prefix: string): (s: set<string>)
  {
    set o | o in ObjectsUnder(root, prefix) :: o.path
  }

  lemma ListedAreUnder(root: Tree, prefix: string, listing: Listing)
    requires WellFormed(root) && IsFolder(prefix) && Within(listing.objects, SeenUnder(root, prefix))
    ensures forall p <- listing.objects.Keys :: prefix <= p
  {
    var os := SeenUnder(root, prefix);
    FolderTop(root, prefix);
    TopIsPlaced(root, prefix);
    hide WellFormed, Top;
    forall p | p in listing.objects
      ensures prefix <= p
    {
      var o :| o in os && o.path == p;
      var tree := Top(root, prefix).tree;
      SeenIsTrimmed(prefix, tree, |tree.entries|, o);
    }
  }

  lemma ListedPaths(root: Tree, prefix: string, listing: Listing)
    requires Lists(listing.objects, ObjectsUnder(root, prefix))
    ensures listing.objects.Keys == PathsUnder(root, prefix)
  {
    hide ObjectsUnder;
  }

  predicate IsFolder(prefix: string) {
    prefix != "" && prefix[|prefix| - 1] == '/'
  }

  lemma FolderTop(root: Tree, prefix: string)
    requires IsFolder(prefix)
    ensures Top(root, prefix).prefix == prefix
  {
  }

  lemma {:induction false} OutcomesAreSome(paths: seq<string>, delete: Deleter, worked: bool)
    ensures forall p <- Outcomes(paths, delete, worked) :: p in paths
    ensures forall p <- paths :: p in Outcomes(paths, delete, worked) || p in Outcomes(paths, delete, !worked)
  {
    if paths != [] {
      var n := |paths| - 1;
      assert paths == paths[..n] + [paths[n]];
      OutcomesAreSome(paths[..n], delete, worked);
    }
  }

  /** Whatever a run may delete was listed and is named by no row it loaded, in any bucket; what it deletes and
      what fails are together the orphans, each asked for once. Of a trimmed folder the orphans are exactly
      the bucket's paths under the prefix that no row names. */
  lemma OnlyUnnamedAreDeleted(args: Args, rows: seq<Option<string>>, listing: Listing, root: Tree, prefix: string, delete: Deleter, path: string)
    requires WellFormed(root) && IsFolder(prefix) && MayDelete(args, rows, listing)
    requires Within(listing.objects, SeenUnder(root, prefix))
    ensures var orphans := OrphansOf(listing, rows, prefix);
            var removed, failed := Outcomes(orphans, delete, true), Outcomes(orphans, delete, false);
            && (path in orphans <==> path in listing.objects && path !in Named(rows))
            && (Lists(listing.objects, ObjectsUnder(root, prefix)) ==>
                  (path in orphans <==> path in PathsUnder(root, prefix) && path !in Named(rows)))
            && (path in removed || path in failed <==> path in orphans)
            && |removed| + |failed| == |orphans|
            && Increasing(orphans)
  {
    hide *;
    ListedAreUnder(root, prefix, listing);
    DiffTellsApart(listing.objects.Keys, Named(rows), prefix, path);
    OrphansAre(listing, rows, prefix);
    SortedPathsIncrease(listing.objects.Keys - Below(Named(rows), prefix));
    OutcomesAreSome(OrphansOf(listing, rows, prefix), delete, true);
    OutcomesAreSome(OrphansOf(listing, rows, prefix), delete, false);
    DeletedPlusFailed(OrphansOf(listing, rows, prefix), delete);
    if Lists(listing.objects, ObjectsUnder(root, prefix)) {
      ListedPaths(root, prefix, listing);
    }
  }

  lemma OrphansAre(listing: Listing, rows: seq<Option<string>>, prefix: string)
    ensures OrphansOf(listing, rows, prefix) == SortedPaths(listing.objects.Keys - Below(Named(rows), prefix))
    ensures OrphansOf(listing, rows, prefix) == DiffOf(listing.objects.Keys, Named(rows), prefix).orphans
  {
  }

  /** The paths some objects are seen under. */
  function SeenKeys(paths: set<string>, prefix: string): set<string> {
    set p | p in paths && prefix <= p && SeenName(p[|prefix|..]).Some? :: prefix + SeenName(p[|prefix|..]).value
  }

  /** A complete listing has the paths that the paths of the bucket's objects are seen under, and no other. */
  lemma ListedKeys(root: Tree, prefix: string, m: Objects)
    requires WellFormed(root) && IsFolder(prefix)
    requires Within(m, SeenUnder(root, prefix)) && HasPaths(m, SeenUnder(root, prefix))
    ensures m.Keys == SeenKeys(PathsUnder(root, prefix), prefix)
  {
    hide *;
    forall key | key in m.Keys + SeenKeys(PathsUnder(root, prefix), prefix)
      ensures key in m.Keys && key in SeenKeys(PathsUnder(root, prefix), prefix)
    {
      if key in m.Keys {
        ListedIsAKey(root, prefix, m, key);
      } else {
        KeyIsListed(root, prefix, m, key);
      }
    }
  }

  lemma ListedIsAKey(root: Tree, prefix: string, m: Objects, key: string)
    requires WellFormed(root) && IsFolder(prefix) && Within(m, SeenUnder(root, prefix)) && key in m
    ensures key in SeenKeys(PathsUnder(root, prefix), prefix)
  {
    FolderTop(root, prefix);
    TopIsPlaced(root, prefix);
    hide WellFormed, Top, SeenName, SeenUpTo, ObjectsOf;
    var tree := Top(root, prefix).tree;
    var s :| s in SeenUnder(root, prefix) && s.path == key;
    var o := SeenComesFrom(prefix, tree, |tree.entries|, s);
    assert o.path in PathsUnder(root, prefix);
    assert key == prefix + SeenName(o.path[|prefix|..]).value;
  }

  lemma KeyIsListed(root: Tree, prefix: string, m: Objects, key: string)
    requires WellFormed(root) && IsFolder(prefix) && HasPaths(m, SeenUnder(root, prefix))
    requires key in SeenKeys(PathsUnder(root, prefix), prefix)
    ensures key in m
  {
    FolderTop(root, prefix);
    TopIsPlaced(root, prefix);
    hide WellFormed, Top, SeenName, SeenUpTo, ObjectsOf;
    var p :| p in PathsUnder(root, prefix) && prefix <= p && SeenName(p[|prefix|..]).Some? && key == prefix + SeenName(p[|prefix|..]).value;
    var o :| o in ObjectsUnder(root, prefix) && o.path == p;
    var s := ObjectIsSeenAs(prefix, Top(root, prefix).tree, o);
    assert s in SeenUnder(root, prefix);
  }

  /** An object in a folder the tool comes to whose own name has whitespace at an end and is not blank: it is
      listed under another path than its own. */
  predicate Misread(path: string, prefix: string) {
    prefix <= path && SeenName(path[|prefix|..]).Some? && SeenName(path[|prefix|..]).value != path[|prefix|..]
  }

  /** What is misread, by directory and name. */
  lemma MisreadIff(prefix: string, dir: string, name: string)
    requires IsPrefix(dir) && '/' !in name
    ensures Misread(prefix + dir + name, prefix) <==> TrimmedPath(dir) && Strip(name) != "" && Strip(name) != name
  {
    SeenNameIs(dir, name);
    SamePrefix(dir, Strip(name), name);
    hide *;
    assert (prefix + dir + name)[|prefix|..] == dir + name;
    assert prefix <= prefix + dir + name;
  }

  /** What a second run sees, once the first has deleted what was seen and not named. */
  lemma LeftKeys(paths: set<string>, prefix: string, named: set<string>)
    ensures SeenKeys(paths - (SeenKeys(paths, prefix) - named), prefix) <= named
            <==> forall p <- paths :: Misread(p, prefix) ==> prefix + SeenName(p[|prefix|..]).value in named
  {
    hide SeenName;
    var removed := SeenKeys(paths, prefix) - named;
    var left := SeenKeys(paths - removed, prefix);
    if left <= named {
      forall p | p in paths && Misread(p, prefix)
        ensures prefix + SeenName(p[|prefix|..]).value in named
      {
        MisreadIsUnseen(paths, prefix, p);
        assert prefix + SeenName(p[|prefix|..]).value in left;
      }
    }
    if forall p <- paths :: Misread(p, prefix) ==> prefix + SeenName(p[|prefix|..]).value in named {
      forall key | key in left
        ensures key in named
      {
        var p :| p in paths - removed && prefix <= p && SeenName(p[|prefix|..]).Some? && key == prefix + SeenName(p[|prefix|..]).value;
        if !Misread(p, prefix) {
          assert key == p;
          assert p in SeenKeys(paths, prefix);
        }
      }
    }
  }

  /** What is misread is under no path that anything is seen under. */
  lemma MisreadIsUnseen(paths: set<string>, prefix: string, p: string)
    requires Misread(p, prefix)
    ensures p !in SeenKeys(paths, prefix)
  {
    hide SeenName;
    if p in SeenKeys(paths, prefix) {
      var p' :| p' in paths && prefix <= p' && SeenName(p'[|prefix|..]).Some? && p == prefix + SeenName(p'[|prefix|..]).value;
      assert p[|prefix|..] == SeenName(p'[|prefix|..]).value;
      SeenNameTwice(p'[|prefix|..]);
    }
  }

  /** Nothing failed, so the bucket holds the old paths without those deleted, and the rows are the same. */
  ghost predicate Cleaned(rows: seq<Option<string>>, first: Listing, root: Tree, left: Tree, prefix: string, delete: Deleter) {
    var orphans := OrphansOf(first, rows, prefix);
    && Outcomes(orphans, delete, false) == []
    && PathsUnder(left, prefix) == PathsUnder(root, prefix) - (set p | p in Outcomes(orphans, delete, true))
  }

  /** When no delete failed, a second run finds no orphans if and only if every object that is misread is listed
      under a path some row names. The tool deletes the paths it lists, and a misread object is under another. */
  lemma SecondRunFindsNothingIff(args: Args, rows: seq<Option<string>>, first: Listing, second: Listing, root: Tree, left: Tree, prefix: string, delete: Deleter)
    requires WellFormed(root) && WellFormed(left) && IsFolder(prefix) && MayDelete(args, rows, first)
    requires Within(first.objects, SeenUnder(root, prefix)) && HasPaths(first.objects, SeenUnder(root, prefix))
    requires Within(second.objects, SeenUnder(left, prefix)) && HasPaths(second.objects, SeenUnder(left, prefix))
    requires Cleaned(rows, first, root, left, prefix, delete)
    ensures OrphansOf(second, rows, prefix) == [] <==>
            forall p <- PathsUnder(root, prefix) :: Misread(p, prefix) ==> prefix + SeenName(p[|prefix|..]).value in Named(rows)
  {
    WhatIsLeft(rows, first, root, left, prefix, delete);
    hide *;
    ListedKeys(root, prefix, first.objects);
    ListedKeys(left, prefix, second.objects);
    LeftKeys(PathsUnder(root, prefix), prefix, Named(rows));
    OrphansAreKeys(rows, second, left, prefix);
  }

  lemma WhatIsLeft(rows: seq<Option<string>>, first: Listing, root: Tree, left: Tree, prefix: string, delete: Deleter)
    requires WellFormed(root) && IsFolder(prefix) && Within(first.objects, SeenUnder(root, prefix))
    requires Cleaned(rows, first, root, left, prefix, delete)
    ensures PathsUnder(left, prefix) == PathsUnder(root, prefix) - (first.objects.Keys - Named(rows))
  {
    hide WellFormed, Within, SeenUnder, PathsUnder, Named, OrphansOf, Outcomes;
    OrphansAreKeys(rows, first, root, prefix);
    var orphans := OrphansOf(first, rows, prefix);
    OutcomesAreSome(orphans, delete, true);
    assert (set p | p in Outcomes(orphans, delete, true)) == first.objects.Keys - Named(rows);
  }

  lemma OrphansAreKeys(rows: seq<Option<string>>, listing: Listing, root: Tree, prefix: string)
    requires WellFormed(root) && IsFolder(prefix) && Within(listing.objects, SeenUnder(root, prefix))
    ensures forall p :: p in OrphansOf(listing, rows, prefix) <==> p in listing.objects.Keys - Named(rows)
    ensures OrphansOf(listing, rows, prefix) == [] <==> listing.objects.Keys <= Named(rows)
  {
    hide *;
    ListedAreUnder(root, prefix, listing);
    OrphansAre(listing, rows, prefix);
    forall p
      ensures p in OrphansOf(listing, rows, prefix) <==> p in listing.objects.Keys - Named(rows)
    {
      DiffTellsApart(listing.objects.Keys, Named(rows), prefix, p);
    }
    var orphans := OrphansOf(listing, rows, prefix);
    if orphans != [] {
      assert orphans[0] in orphans;
    } else {
      forall p | p in listing.objects.Keys
        ensures p in Named(rows)
      {
        assert p !in orphans;
      }
    }
  }

  /** In a trimmed folder nothing is misread, and a second run finds nothing. */
  lemma SecondRunFindsNothing(args: Args, rows: seq<Option<string>>, first: Listing, second: Listing, root: Tree, left: Tree, prefix: string, delete: Deleter)
    requires WellFormed(root) && WellFormed(left) && IsFolder(prefix) && MayDelete(args, rows, first)
    requires Within(first.objects, SeenUnder(root, prefix)) && HasPaths(first.objects, SeenUnder(root, prefix))
    requires Within(second.objects, SeenUnder(left, prefix)) && HasPaths(second.objects, SeenUnder(left, prefix))
    requires Cleaned(rows, first, root, left, prefix, delete) && Trimmed(Top(root, prefix).tree)
    ensures OrphansOf(second, rows, prefix) == []
  {
    hide *;
    SecondRunFindsNothingIff(args, rows, first, second, root, left, prefix, delete);
    TrimmedLists(root, prefix, first.objects);
    ListedPaths(root, prefix, first);
    ListedKeys(root, prefix, first.objects);
    forall p | p in PathsUnder(root, prefix)
      ensures !Misread(p, prefix)
    {
      if Misread(p, prefix) {
        MisreadIsUnseen(PathsUnder(root, prefix), prefix, p);
      }
    }
  }

  // --- A row that comes late -----------------------------------------------------------------------

  /** The service deleted the path when it was asked to. */
  ghost predicate DeleteWorks(paths: seq<string>, delete: Deleter, path: string) {
    exists i :: 0 <= i < |paths| && paths[i] == path && delete(i, paths[i])
  }

  lemma {:induction false} RemovedIff(paths: seq<string>, delete: Deleter, path: string)
    ensures path in Outcomes(paths, delete, true) <==> DeleteWorks(paths, delete, path)
  {
    if paths != [] {
      var n := |paths| - 1;
      RemovedIff(paths[..n], delete, path);
      if DeleteWorks(paths, delete, path) {
        var i :| 0 <= i < |paths| && paths[i] == path && delete(i, paths[i]);
        assert i < n ==> paths[..n][i] == path;
      }
      if DeleteWorks(paths[..n], delete, path) {
        var i :| 0 <= i < n && paths[..n][i] == path && delete(i, paths[..n][i]);
        assert paths[i] == path;
      }
      if delete(n, paths[n]) && paths[n] == path {
        assert DeleteWorks(paths, delete, path);
      }
    }
  }

  /** The rows are read before the bucket is listed, and no row written since protects a photo: a listed path is
      deleted if and only if no row named it when the rows were read and its delete worked. */
  lemma ALateRowLosesItsPhotoIff(args: Args, rows: seq<Option<string>>, listing: Listing, root: Tree, prefix: string, delete: Deleter, path: string)
    requires WellFormed(root) && IsFolder(prefix) && MayDelete(args, rows, listing)
    requires Within(listing.objects, SeenUnder(root, prefix)) && path in listing.objects
    ensures var orphans := OrphansOf(listing, rows, prefix);
            path in Outcomes(orphans, delete, true) <==> path !in Named(rows) && DeleteWorks(orphans, delete, path)
  {
    hide *;
    OnlyUnnamedAreDeleted(args, rows, listing, root, prefix, delete, path);
    RemovedIff(OrphansOf(listing, rows, prefix), delete, path);
    OutcomesAreSome(OrphansOf(listing, rows, prefix), delete, true);
  }

  const PHOTO: string := "survey-pending/7"

  /** The bucket holds one staged photo. */
  function OnePhoto(name: string): Tree {
    Tree([Sub("survey-pending", Tree([PlainFile(name, 1)]))])
  }

  function ServiceOf(root: Tree): Service {
    (calls: nat, prefix: string, limit: nat, offset: nat) => Some(Slice(RowsAt(root, prefix), offset, limit))
  }

  /** No delete fails: to delete what is not there counts as done. */
  function Always(): Deleter {
    (n: nat, path: string) => true
  }

  /** A row of another photo, so that nothing else need be allowed for a deletion. */
  function OtherRow(): seq<Option<string>> {
    [Some("survey-pending/1")]
  }

  /** A run over the one photo, its name with or without a space before it, that no row names. */
  method DeletePhoto(name: string) returns (code: int, removed: seq<string>)
    requires name == "7" || name == " 7"
    ensures code == 0 && PHOTO in removed
  {
    PhotoBucket(name);
    OtherIsNamed();
    RefIsCarried();
    var args := Args(true, Some("ref"), false, DEFAULT_BATCH_SIZE);
    var settings := Settings(Some("ref"), Some("key"), Some("ref"));
    assert ParseArgs(args) && MayStart(args, settings);
    AcceptedIff(args, settings);
    hide *;
    var root := OnePhoto(name);
    var exit, gone, failed, listing := Run(args, settings, Some(OtherRow()), ServiceOf(root), root, Always());
    MayDeleteSome(args, OtherRow(), listing.value);
    ListedKeys(root, STAGED_PREFIX, listing.value.objects);
    OnlyUnnamedAreDeleted(args, OtherRow(), listing.value, root, STAGED_PREFIX, Always(), PHOTO);
    NothingFails(OrphansOf(listing.value, OtherRow(), STAGED_PREFIX));
    code, removed := exit, gone;
  }

  /** No row names the photo when the run reads the rows; one is written before the run lists the bucket; the
      run deletes the photo. */
  method ALateRowLosesItsPhoto() returns (code: int, removed: seq<string>, later: seq<Option<string>>)
    ensures later == OtherRow() + [Some(PHOTO)] && PHOTO in Named(later)
    ensures PHOTO in PathsUnder(OnePhoto("7"), STAGED_PREFIX) && PHOTO in removed && code == 0
  {
    later := OtherRow() + [Some(PHOTO)];
    PhotoIsNamed(OtherRow());
    PhotoPath("7");
    assert STAGED_PREFIX + "7" == PHOTO;
    hide *;
    code, removed := DeletePhoto("7");
  }

  /** The photo's name has a space before it. A run reports a path deleted that no object has, which leaves
      the bucket as it was, and the next run finds the same orphan and reports the same. */
  method ASpacedPhotoStays() returns (code: int, first: seq<string>, codeAgain: int, second: seq<string>)
    ensures code == codeAgain == 0 && PHOTO in first && PHOTO in second
    ensures var paths := PathsUnder(OnePhoto(" 7"), STAGED_PREFIX);
            paths == {STAGED_PREFIX + " 7"} && PHOTO !in paths
  {
    PhotoPath(" 7");
    assert (STAGED_PREFIX + " 7")[|STAGED_PREFIX|] == ' ' && PHOTO[|STAGED_PREFIX|] == '7';
    hide *;
    code, first := DeletePhoto(" 7");
    codeAgain, second := DeletePhoto(" 7");
  }

  lemma MayDeleteSome(args: Args, rows: seq<Option<string>>, listing: Listing)
    requires args.delete && rows != [] && listing.complete
    ensures MayDelete(args, rows, listing)
  {
  }

  lemma {:induction false} NothingFails(paths: seq<string>)
    ensures Outcomes(paths, Always(), false) == []
  {
    if paths != [] {
      NothingFails(paths[..|paths| - 1]);
    }
  }

  lemma RefIsCarried()
    ensures Strip("ref") == "ref" && CarriesRef(Some("ref"), "ref")
  {
    TrimmedStays("ref", IsSpace);
    hide Strip;
    assert "ref" <= "ref";
  }

  lemma PhotoIsNamed(rows: seq<Option<string>>)
    ensures Named(rows + [Some(PHOTO)]) == Named(rows) + {PHOTO}
  {
    TrimmedStays(PHOTO, IsSpace);
    hide Strip;
    assert (rows + [Some(PHOTO)])[..|rows|] == rows;
  }

  lemma OtherIsNamed()
    ensures PHOTO !in Named(OtherRow())
  {
    var path := "survey-pending/1";
    TrimmedStays(path, IsSpace);
    hide Strip;
    assert OtherRow()[..0] == [] && Named([]) == {};
    assert path[15] != PHOTO[15];
  }

  lemma PhotoBucket(name: string)
    requires name == "7" || name == " 7"
    ensures var root := OnePhoto(name);
            && WellFormed(root) && Serves(ServiceOf(root), root) && NeverFails(ServiceOf(root)) && IsFolder(STAGED_PREFIX)
            && Fits(Top(root, STAGED_PREFIX).tree, PAGE_SIZE, MAX_PAGES)
            && PHOTO in SeenKeys(PathsUnder(root, STAGED_PREFIX), STAGED_PREFIX)
  {
    assert STAGED_PREFIX[|STAGED_PREFIX| - 1] == '/';
    var root, photos := OnePhoto(name), Tree([PlainFile(name, 1)]);
    PhotoTree(name);
    FolderIsWellFormed("survey-pending", photos);
    ServiceServes(root);
    PhotoTop(name);
    PhotoPath(name);
    PhotoIsSeen(name);
    hide *;
  }

  lemma PhotoIsSeen(name: string)
    requires name == "7" || name == " 7"
    ensures forall paths: set<string> :: STAGED_PREFIX + name in paths ==> PHOTO in SeenKeys(paths, STAGED_PREFIX)
  {
    StripOfSeven();
    SeenNameOfFile(name);
    hide SeenName, Strip;
    var path := STAGED_PREFIX + name;
    assert path[|STAGED_PREFIX|..] == name && STAGED_PREFIX <= path;
    assert STAGED_PREFIX + "7" == PHOTO;
  }

  lemma StripOfSeven()
    ensures Strip(" 7") == "7" && Strip("7") == "7"
  {
    TrimmedStays("7", IsSpace);
    TrimIs(" ", "7", "", IsSpace);
    assert " " + "7" + "" == " 7";
  }

  lemma FolderIsWellFormed(name: string, t: Tree)
    requires WellFormed(t) && IsSegment(name)
    ensures WellFormed(Tree([Sub(name, t)]))
  {
  }

  lemma ServiceServes(root: Tree)
    ensures Serves(ServiceOf(root), root) && NeverFails(ServiceOf(root))
  {
  }

  lemma PhotoTree(name: string)
    requires IsSegment(name)
    ensures var photos := Tree([PlainFile(name, 1)]); WellFormed(photos) && Fits(photos, PAGE_SIZE, MAX_PAGES)
  {
    hide Strip, IsSegment;
    var photos := Tree([PlainFile(name, 1)]);
    assert Pages(photos.entries, PAGE_SIZE) == 1;
    assert SubsFit(photos, 0, PAGE_SIZE, MAX_PAGES) && SubsFit(photos, 1, PAGE_SIZE, MAX_PAGES);
  }

  lemma PhotoTop(name: string)
    ensures Top(OnePhoto(name), STAGED_PREFIX) == Place(STAGED_PREFIX, Tree([PlainFile(name, 1)]))
  {
    var root := OnePhoto(name);
    FoundHere(root, "survey-pending");
    assert "survey-pending" + "/" == STAGED_PREFIX;
    assert FindSub(root.entries, "survey-pending") == Some(Tree([PlainFile(name, 1)]));
  }

  lemma PhotoPath(name: string)
    ensures PathsUnder(OnePhoto(name), STAGED_PREFIX) == {STAGED_PREFIX + name}
  {
    PhotoTop(name);
    hide Top;
    var e := PlainFile(name, 1);
    assert [e][1..] == [];
    assert ObjectsOf(STAGED_PREFIX, [e]) == [ObjectAt(STAGED_PREFIX, e)];
    assert ObjectsUnder(OnePhoto(name), STAGED_PREFIX) == [ObjectAt(STAGED_PREFIX, e)];
  }
}
