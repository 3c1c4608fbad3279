/** Histories of backup runs: full and incremental, failing and pruning, over folders that may be
    damaged in between. Every run recorded OK is complete on its own. */
module BackupHistory {
  import opened Wrappers
  import opened Text
  import opened Sorting
  import opened BucketWalk
  import opened BucketTree
  import opened BackupFolders
  import opened Retention
  import opened BackupRun

  /** The bucket as one run sees it: what the walk lists, and the bytes behind each key. */
  datatype Bucket = Bucket(project: string, objects: seq<StorageObject>, content: map<string, Bytes>)

  const LIST_PAGE_SIZE: nat := 100

  /** The bucket itself: its tree of objects, and the bytes behind each of their keys. */
  datatype Source = Source(project: string, tree: Tree, content: map<string, Bytes>)

  ghost predicate IsSource(s: Source) {
    && WellFormed(s.tree) && HoldsObjects(s.tree)
    && s.content.Keys == Keys(ObjectsOf("", s.tree.entries))
    && (forall o :: o in ObjectsOf("", s.tree.entries) ==> o.path in s.content && |s.content[o.path]| == o.size)
  }

  /** What `walk_bucket` lists of it; nothing when the walk gives up. */
  function Listing(t: Tree): seq<StorageObject> {
    var r := Walked(ListerOf(t), LIST_PAGE_SIZE);
    if r.Ok? then r.value else []
  }

  function Seen(s: Source): Bucket {
    Bucket(s.project, Listing(s.tree), s.content)
  }

  /** A listing in which every path is a key of the bucket, once. */
  ghost predicate Consistent(b: Bucket) {
    && (forall i, j :: 0 <= i < j < |b.objects| ==> b.objects[i].path != b.objects[j].path)
    && Keys(b.objects) == b.content.Keys
    && (forall o :: o in b.objects ==> o.path in b.content && |b.content[o.path]| == o.size)
  }

  ghost predicate Injective(hash: Hash) {
    forall x, y :: hash(x) == hash(y) ==> x == y
  }

  /** A completed download of the listed length is the object. */
  ghost predicate FaithfulInputs(inp: Inputs, b: Bucket) {
    && (inp.listing.Some? ==> inp.listing.value == b.objects)
    && (forall k :: k in b.content && inp.download(k).Some? && |inp.download(k).value| == |b.content[k]| ==>
          inp.download(k).value == b.content[k])
  }

  lemma SameKeys(a: seq<StorageObject>, b: seq<StorageObject>)
    requires multiset(a) == multiset(b)
    ensures Keys(a) == Keys(b) && forall o :: o in a <==> o in b
  {
    forall o
      ensures o in a <==> o in b
    {
      assert o in a <==> o in multiset(a);
      assert o in b <==> o in multiset(b);
    }
  }

  /** A trimmed bucket is listed consistently. */
  lemma TrimmedIsConsistent(s: Source)
    requires IsSource(s) && Trimmed(s.tree) && Walked(ListerOf(s.tree), LIST_PAGE_SIZE).Ok?
    ensures Consistent(Seen(s))
  {
    hide Walked, ObjectsOf, Trimmed, HoldsObjects, Keys;
    var all, listed := ObjectsOf("", s.tree.entries), Listing(s.tree);
    WalkReturnsEverythingIffItFits(s.tree, LIST_PAGE_SIZE);
    DistinctHere(s.tree);
    hide WellFormed;
    DistinctPathsPermute(all, listed);
    SameKeys(listed, all);
  }

  lemma DistinctHere(t: Tree)
    requires WellFormed(t)
    ensures DistinctPaths(ObjectsOf("", t.entries))
  {
    KeysAreDistinct("", t.entries);
  }

  /** Of a bucket that is not trimmed, some key is not listed. */
  lemma UntrimmedMissesAKey(s: Source) returns (key: string)
    requires IsSource(s) && !Trimmed(s.tree)
    ensures key in s.content && key !in Keys(Listing(s.tree))
  {
    if Walked(ListerOf(s.tree), LIST_PAGE_SIZE).Ok? {
      WalkReturnsTheBucketIffTrimmed(s.tree, LIST_PAGE_SIZE);
      var o :| o in ObjectsOf("", s.tree.entries) && forall p <- Walked(ListerOf(s.tree), LIST_PAGE_SIZE).value :: p.path != o.path;
      key := o.path;
    } else {
      var o := AnUntrimmedObject("", s.tree);
      key := o.path;
    }
  }

  // --- One capture --------------------------------------------------------------------------

  /** The file of one object, as it should be recorded and stored. */
  ghost predicate Stored(c: Captured, o: StorageObject, b: Bucket, hash: Hash) {
    && o.path in b.content
    && STORAGE + o.path in c.disk && c.disk[STORAGE + o.path] == b.content[o.path]
    && STORAGE + o.path in c.files
    && c.files[STORAGE + o.path] == FileRecord(o.size, hash(b.content[o.path]), o.etag, o.updatedAt)
  }

  /** After capturing `objects`: each of them is stored or was reported, nothing else was added, and
      the counters count what was stored. */
  ghost predicate CapturedSoFar(c: Captured, objects: seq<StorageObject>, b: Bucket, hash: Hash) {
    && (forall o :: o in objects ==> Stored(c, o, b, hash) || o.path in c.mismatched)
    && (forall key :: STORAGE + key in c.disk ==> key in Keys(objects))
    && c.files.Keys == c.disk.Keys
    && c.downloaded + c.reused + |c.mismatched| == |objects|
    && (c.mismatched == [] ==> c.downloadedBytes + c.reusedBytes == TotalSize(objects))
  }

  /** Records of the previous run that may be reused carry the hash of what the bucket holds now. */
  ghost predicate RecordsTell(previous: Option<Previous>, b: Bucket, hash: Hash) {
    previous.Some? ==> forall o :: o in b.objects && SafeToReuse(o, previous.value.records) ==>
      o.path in b.content && previous.value.records[o.path].sha256 == Some(hash(b.content[o.path]))
  }

  lemma KeyTellsSafe(objects: seq<StorageObject>, known: map<string, Record>, o: StorageObject)
    requires o in objects && o.path in Keys(Select(objects, known, true))
    requires forall p :: p in objects && p.path == o.path ==> p == o
    ensures SafeToReuse(o, known)
  {
    var p :| p in Select(objects, known, true) && p.path == o.path;
    PlanReusesIffSafe(objects, known, p);
  }

  /** Whichever way one object is captured, what is stored is what the bucket holds. */
  lemma WhatIsStored(c: Captured, o: StorageObject, inp: Inputs, b: Bucket, hash: Hash)
    requires Consistent(b) && FaithfulInputs(inp, b) && Injective(hash) && RecordsTell(inp.previous, b, hash)
    requires inp.listing == Some(b.objects) && o in b.objects
    ensures var c' := CaptureOne(c, o, ReuseKeys(b.objects, inp.previous), inp, hash);
            || c'.raised
            || c' == c.(mismatched := c.mismatched + [o.path])
            || c' == Store(c, o, b.content[o.path], true, hash)
            || c' == Store(c, o, b.content[o.path], false, hash)
  {
    hide SafeKey, SafeToReuse, Select;
    var reuse := ReuseKeys(b.objects, inp.previous);
    if inp.previous.Some? && o.path in reuse {
      KeyTellsSafe(b.objects, inp.previous.value.records, o);
    }
  }

  lemma StoreKeeps(c: Captured, objects: seq<StorageObject>, o: StorageObject, copied: bool, b: Bucket, hash: Hash)
    requires CapturedSoFar(c, objects, b, hash) && o.path in b.content && |b.content[o.path]| == o.size
    requires o.path !in Keys(objects)
    ensures CapturedSoFar(Store(c, o, b.content[o.path], copied, hash), objects + [o], b, hash)
  {
    var c' := Store(c, o, b.content[o.path], copied, hash);
    assert (objects + [o])[..|objects + [o]| - 1] == objects;
    OnlyThisKey(o.path);
    KeysAppend(objects, o);
    forall p | p in objects
      ensures Stored(c', p, b, hash) || p.path in c'.mismatched
    {
      assert p.path in Keys(objects);
    }
    assert Stored(c', o, b, hash);
  }

  lemma MismatchKeeps(c: Captured, objects: seq<StorageObject>, o: StorageObject, b: Bucket, hash: Hash)
    requires CapturedSoFar(c, objects, b, hash)
    ensures CapturedSoFar(c.(mismatched := c.mismatched + [o.path]), objects + [o], b, hash)
  {
    KeysAppend(objects, o);
    var c' := c.(mismatched := c.mismatched + [o.path]);
    assert c'.mismatched[|c.mismatched|] == o.path;
    forall p | p in objects
      ensures Stored(c', p, b, hash) || p.path in c'.mismatched
    {
    }
  }

  lemma KeysAppend(objects: seq<StorageObject>, o: StorageObject)
    ensures Keys(objects + [o]) == Keys(objects) + {o.path}
  {
    forall k | k in Keys(objects) + {o.path}
      ensures k in Keys(objects + [o])
    {
      if k == o.path {
        assert o in objects + [o];
      } else {
        var p :| p in objects && p.path == k;
        assert p in objects + [o];
      }
    }
  }

  lemma CaptureOneIsFaithful(c: Captured, objects: seq<StorageObject>, o: StorageObject, inp: Inputs, b: Bucket, hash: Hash)
    requires Consistent(b) && FaithfulInputs(inp, b) && Injective(hash) && RecordsTell(inp.previous, b, hash)
    requires inp.listing == Some(b.objects) && o in b.objects && o.path !in Keys(objects)
    requires CapturedSoFar(c, objects, b, hash)
    ensures var c' := CaptureOne(c, o, ReuseKeys(b.objects, inp.previous), inp, hash);
            !c'.raised ==> CapturedSoFar(c', objects + [o], b, hash)
  {
    WhatIsStored(c, o, inp, b, hash);
    hide CapturedSoFar, CaptureOne, RecordsTell, FaithfulInputs, Store;
    StoreKeeps(c, objects, o, true, b, hash);
    StoreKeeps(c, objects, o, false, b, hash);
    MismatchKeeps(c, objects, o, b, hash);
  }

  lemma OnlyThisKey(key: string)
    ensures forall other: string :: STORAGE + other == STORAGE + key ==> other == key
  {
    forall other: string | STORAGE + other == STORAGE + key
      ensures other == key
    {
      assert (STORAGE + other)[|STORAGE|..] == other && (STORAGE + key)[|STORAGE|..] == key;
    }
  }

  lemma {:induction false} CaptureIsFaithful(start: Captured, n: nat, inp: Inputs, b: Bucket, hash: Hash)
    requires Consistent(b) && FaithfulInputs(inp, b) && Injective(hash) && RecordsTell(inp.previous, b, hash)
    requires inp.listing == Some(b.objects) && n <= |b.objects|
    requires CapturedSoFar(start, [], b, hash) && !start.raised
    ensures var c := CaptureAll(start, b.objects[..n], ReuseKeys(b.objects, inp.previous), inp, hash);
            !c.raised ==> CapturedSoFar(c, b.objects[..n], b, hash)
  {
    hide CapturedSoFar, RecordsTell, CaptureOne, FaithfulInputs;
    if n > 0 {
      var front := b.objects[..n - 1];
      assert b.objects[..n][..n - 1] == front && b.objects[..n] == front + [b.objects[n - 1]];
      CaptureIsFaithful(start, n - 1, inp, b, hash);
      var c := CaptureAll(start, front, ReuseKeys(b.objects, inp.previous), inp, hash);
      if !c.raised {
        CaptureOneIsFaithful(c, front, b.objects[n - 1], inp, b, hash);
      }
    }
  }

  /** The bucket part of a folder is exactly the bucket. */
  ghost predicate HoldsExactly(disk: map<string, Bytes>, b: Bucket) {
    && (forall key :: STORAGE + key in disk <==> key in b.content)
    && (forall key :: key in b.content ==> disk[STORAGE + key] == b.content[key])
  }

  /** A manifest that records exactly what the bucket held. */
  ghost predicate Truthful(m: Manifest, b: Bucket, hash: Hash) {
    && (forall key :: STORAGE + key in m.files <==> key in b.content)
    && (forall o :: o in b.objects && o.path in b.content ==>
          m.files[STORAGE + o.path] == Record(Some(o.size), Some(hash(b.content[o.path])), o.etag, o.updatedAt))
  }

  function ManifestOf(o: Outcome, project: string): Manifest {
    Manifest(o.failures == [], project, map name | name in o.captured.files :: AsManifest(o.captured.files[name]))
  }

  /** A run that ends without a failure stored and recorded exactly the bucket it listed. */
  lemma OkStepsAreComplete(inp: Inputs, b: Bucket, hash: Hash)
    requires Consistent(b) && FaithfulInputs(inp, b) && Injective(hash) && RecordsTell(inp.previous, b, hash)
    requires Steps(inp, hash).failures == []
    ensures HoldsExactly(Steps(inp, hash).captured.disk, b)
    ensures Truthful(ManifestOf(Steps(inp, hash), b.project), b, hash)
  {
    assert inp.listing == Some(b.objects);
    hide FaithfulInputs, RecordsTell, CaptureAll, ReuseKeys, TotalSize, Stored;
    var start := WithFile(WithFile(NOTHING, "database.dump", inp.dump.value, hash), "auth.sql", inp.authSql.value, hash);
    StartIsEmpty(start, inp.dump.value, inp.authSql.value, b, hash);
    CaptureIsFaithful(start, |b.objects|, inp, b, hash);
    assert b.objects[..|b.objects|] == b.objects;
    var c := Steps(inp, hash).captured;
    assert c.mismatched == [];
    AllStored(c, b, hash);
  }

  lemma StartIsEmpty(start: Captured, dump: Bytes, authSql: Bytes, b: Bucket, hash: Hash)
    requires start == WithFile(WithFile(NOTHING, "database.dump", dump, hash), "auth.sql", authSql, hash)
    ensures CapturedSoFar(start, [], b, hash)
  {
    forall key: string
      ensures STORAGE + key !in start.disk
    {
      assert (STORAGE + key)[0] == 's';
    }
  }

  lemma AllStored(c: Captured, b: Bucket, hash: Hash)
    requires Consistent(b) && CapturedSoFar(c, b.objects, b, hash) && c.mismatched == []
    ensures HoldsExactly(c.disk, b)
    ensures forall failures :: Truthful(ManifestOf(Outcome(c, failures), b.project), b, hash)
  {
    forall key | key in b.content
      ensures STORAGE + key in c.disk && c.disk[STORAGE + key] == b.content[key]
    {
      assert key in Keys(b.objects);
      var o :| o in b.objects && o.path == key;
      assert Stored(c, o, b, hash);
    }
    forall o | o in b.objects
      ensures Stored(c, o, b, hash)
    {
    }
  }

  // --- The previous run ------------------------------------------------------------------------

  predicate Qualifies(c: Child, exclude: string, project: string) {
    c.name != exclude && IsOk(c) && c.manifest.value.projectRef == project
  }

  function FirstQualifying(runs: seq<Child>, exclude: string, project: string): (r: Option<Child>)
    ensures r.Some? ==> r.value in runs && Qualifies(r.value, exclude, project)
  {
    if runs == [] then None
    else if Qualifies(runs[0], exclude, project) then Some(runs[0])
    else FirstQualifying(runs[1..], exclude, project)
  }

  /** A folder, not a link, named like a run and not excluded, whose manifest can be read, says OK and is of the project. */
  ghost predicate MayBeReused(c: Child, exclude: string, project: string) {
    && IsRunName(c.name) && c.isDir && !c.isLink && c.name != exclude
    && c.manifest.Some? && c.manifest.value.ok && c.manifest.value.projectRef == project
  }

  /** `find_previous_ok_run`: the newest OK run of this project, whatever else is in the directory. */
  method FindPreviousOkRun(children: seq<Child>, exclude: string, project: string) returns (r: Option<Child>)
    requires DistinctNames(children)
    ensures r == FirstQualifying(RunFolders(children), exclude, project)
    ensures r.Some? ==> r.value in children && MayBeReused(r.value, exclude, project)
    ensures r.Some? ==> forall c <- children :: MayBeReused(c, exclude, project) ==> Leq(c.name, r.value.name)
    ensures r.None? ==> forall c <- children :: !MayBeReused(c, exclude, project)
  {
    var runs := RunFolders(children);
    RunFoldersFacts(children);
    hide RunFolders, Leq, IsRun;
    for i := 0 to |runs|
      invariant FirstQualifying(runs, exclude, project) == FirstQualifying(runs[i..], exclude, project)
      invariant forall j :: 0 <= j < i ==> !Qualifies(runs[j], exclude, project)
    {
      assert runs[i..][0] == runs[i] && runs[i..][1..] == runs[i + 1..];
      if Qualifies(runs[i], exclude, project) {
        NoneNewerQualifies(runs, i, exclude, project);
        return Some(runs[i]);
      }
    }
    return None;
  }

  lemma RunFoldersFacts(children: seq<Child>)
    requires DistinctNames(children)
    ensures Sorted(RunFolders(children), NewestFirst())
    ensures forall c :: c in RunFolders(children) <==> c in children && IsRun(c)
  {
    var runs := Filter(children, IsRun);
    FilterMembers(children, IsRun);
    SortPermutes(runs, NewestFirst());
    NewestFirstOrders();
    SortSorts(runs, NewestFirst());
    forall c
      ensures c in RunFolders(children) <==> c in runs
    {
      assert c in RunFolders(children) <==> c in multiset(RunFolders(children));
      assert c in runs <==> c in multiset(runs);
    }
  }

  lemma NoneNewerQualifies(runs: seq<Child>, i: nat, exclude: string, project: string)
    requires Sorted(runs, NewestFirst()) && i < |runs|
    requires forall j :: 0 <= j < i ==> !Qualifies(runs[j], exclude, project)
    ensures forall c :: c in runs && Qualifies(c, exclude, project) ==> Leq(c.name, runs[i].name)
  {
    forall c | c in runs && Qualifies(c, exclude, project)
      ensures Leq(c.name, runs[i].name)
    {
      var k :| 0 <= k < |runs| && runs[k] == c;
      LeqTotal(c.name, c.name);
      assert k == i || NewestFirst()(runs[i], runs[k]);
    }
  }

  // --- Runs as a state machine ---------------------------------------------------------------------

  /** The backup directory, and the bucket that each grounded OK run backed up. */
  datatype World = World(children: seq<Child>, truth: map<string, Bucket>)

  datatype Step =
    // One invocation: its folder name, the bucket during it, how its steps went, its flags, and how its pruning went.
    | BackUp(name: string, source: Source, inp: Inputs, incremental: bool, keep: Option<int>, manifestWritten: bool,
             stuck: set<string>, left: map<string, Bytes>, readable: bool)
    // A folder's files change on disk in any way; its manifest is as it was or can no longer be read.
    | Damage(name: string, files: map<string, Bytes>, readable: bool)
    | RemovedByHand(name: string)

  /** The run that an incremental run reuses from. */
  function PreviousRun(w: World, name: string, project: string, incremental: bool): Option<Child> {
    if incremental then FirstQualifying(RunFolders(w.children), name, project) else None
  }

  function PreviousFor(w: World, name: string, project: string, incremental: bool): Option<Previous> {
    var found := PreviousRun(w, name, project, incremental);
    if found.None? then None else Some(Previous(StorageRecords(found.value.manifest.value), found.value.files))
  }

  /** A run that is not incremental reuses nothing; an incremental one reuses from the newest folder that may be, by
      its records and its files. */
  lemma ReusesFromTheNewest(w: World, name: string, project: string, incremental: bool)
    requires DistinctNames(w.children)
    ensures PreviousFor(w, name, project, incremental).Some? <==> incremental && exists c <- w.children :: MayBeReused(c, name, project)
    ensures PreviousFor(w, name, project, incremental).Some? ==>
              exists c <- w.children :: MayBeReused(c, name, project)
                && PreviousFor(w, name, project, incremental) == Some(Previous(StorageRecords(c.manifest.value), c.files))
                && forall d <- w.children :: MayBeReused(d, name, project) ==> Leq(d.name, c.name)
  {
    RunFoldersFacts(w.children);
    var runs := RunFolders(w.children);
    FirstIsTheNewest(runs, name, project);
    hide RunFolders, StorageRecords, IsRunName, Sorted, DistinctNames;
    forall c | c in w.children
      ensures MayBeReused(c, name, project) <==> c in runs && Qualifies(c, name, project)
    {
    }
    hide MayBeReused, Qualifies, FirstQualifying, Leq;
  }

  lemma {:induction false} FirstIsTheNewest(runs: seq<Child>, exclude: string, project: string)
    requires Sorted(runs, NewestFirst())
    ensures var r := FirstQualifying(runs, exclude, project);
            && (r.None? ==> forall c <- runs :: !Qualifies(c, exclude, project))
            && (r.Some? ==> forall c <- runs :: Qualifies(c, exclude, project) ==> Leq(c.name, r.value.name))
  {
    hide Qualifies, Leq;
    if runs != [] {
      assert forall i :: 0 <= i < |runs| - 1 ==> runs[1..][i] == runs[i + 1];
      FirstIsTheNewest(runs[1..], exclude, project);
      assert forall c :: c in runs <==> c == runs[0] || c in runs[1..];
      if Qualifies(runs[0], exclude, project) {
        FirstIsLast(runs, exclude, project);
      }
    }
  }

  lemma FirstIsLast(runs: seq<Child>, exclude: string, project: string)
    requires Sorted(runs, NewestFirst()) && runs != []
    ensures forall c <- runs :: Leq(c.name, runs[0].name)
  {
    forall c | c in runs
      ensures Leq(c.name, runs[0].name)
    {
      var k :| 0 <= k < |runs| && runs[k] == c;
      LeqTotal(c.name, c.name);
      assert k > 0 ==> NewestFirst()(runs[0], runs[k]);
    }
  }

  /** The run found the bucket trimmed, and so did the run it reuses from, and so on down to one that reuses
      from none. */
  predicate Grounded(w: World, step: Step)
    requires step.BackUp?
  {
    var found := PreviousRun(w, step.name, step.source.project, step.incremental);
    Trimmed(step.source.tree) && (found.Some? ==> found.value.name in w.truth)
  }

  ghost predicate Exists(w: World, name: string) {
    exists c :: c in w.children && c.name == name
  }

  ghost predicate Enabled(w: World, step: Step) {
    match step
    case BackUp(name, source, inp, incremental, keep, _, _, _, _) =>
      IsRunName(name) && IsSource(source) && FaithfulInputs(inp, Seen(source))
      && inp.previous == PreviousFor(w, name, source.project, incremental)
      && (keep.Some? ==> keep.value >= 1)
    case Damage(name, _, _) => true
    case RemovedByHand(name) => true
  }

  /** The run folder a backup leaves. */
  function NewFolder(step: Step, hash: Hash): Child
    requires step.BackUp?
  {
    var o := Steps(step.inp, hash);
    Child(step.name, true, false, if step.manifestWritten then Some(ManifestOf(o, step.source.project)) else None, o.captured.disk)
  }

  /** A run prunes at its end, if it is OK and was told how many runs to keep. */
  function Kept(children: seq<Child>, child: Child, step: Step): seq<Child>
    requires step.BackUp? && (step.keep.Some? ==> step.keep.value >= 1)
  {
    if IsOk(child) && step.keep.Some?
    then Pruned(children, NamesOf(PlanPrune(children, step.keep.value, child.name).value), step.stuck, step.left, step.readable)
    else children
  }

  ghost function Next(w: World, step: Step, hash: Hash): World
    requires Enabled(w, step)
  {
    match step
    case BackUp(name, source, _, _, _, _, _, _, _) =>
      if Exists(w, name) then w   // refused: the destination already exists
      else
        var child := NewFolder(step, hash);
        World(Kept(w.children + [child], child, step),
              if IsOk(child) && Grounded(w, step) then w.truth[name := Seen(source)] else w.truth - {name})
    case Damage(name, files, readable) => w.(children := DamageAll(w.children, name, files, readable))
    case RemovedByHand(name) => w.(children := Remaining(w.children, [name]))
  }

  /** Two states of the bucket of one project: what carries the same size and agreeing change markers
      is the same content. */
  ghost predicate MarkersTell(b: Bucket, earlier: Bucket) {
    forall o, p :: o in b.objects && p in earlier.objects && SameVersion(o, p) && o.path in b.content && p.path in earlier.content ==>
      b.content[o.path] == earlier.content[p.path]
  }

  ghost predicate SameVersion(o: StorageObject, p: StorageObject) {
    && o.path == p.path && o.size == p.size
    && !SaysAnother(o.etag, p.etag) && !SaysAnother(o.updatedAt, p.updatedAt)
    && (SaysTheSame(o.etag, p.etag) || SaysTheSame(o.updatedAt, p.updatedAt))
  }

  /** And so it must be. When two versions of an object say the same by their sizes and markers and are not the same,
      an incremental run that can copy the earlier one is recorded OK with it, and lacks what the bucket holds. */
  lemma LyingMarkersGoStale(inp: Inputs, b: Bucket, earlier: Bucket, o: StorageObject, p: StorageObject, hash: Hash)
    requires Consistent(b) && inp.listing == Some(b.objects) && Steps(inp, hash).failures == []
    requires o in b.objects && p in earlier.objects && SameVersion(o, p) && p.path in earlier.content && |earlier.content[p.path]| == p.size
    requires b.content[o.path] != earlier.content[p.path]
    requires inp.previous.Some? && !inp.copyFails(o.path)
    requires var data := earlier.content[p.path];
             && p.path in inp.previous.value.records
             && inp.previous.value.records[p.path] == AsManifest(FileRecord(p.size, hash(data), p.etag, p.updatedAt))
             && STORAGE + p.path in inp.previous.value.files && inp.previous.value.files[STORAGE + p.path] == data
    ensures !HoldsExactly(Steps(inp, hash).captured.disk, b)
  {
    hide Steps, SaysTheSame, SaysAnother;
    assert SafeToReuse(o, inp.previous.value.records);
    assert Verifies(inp, o, hash);
    WhatAnOkRunHolds(inp, hash, o);
    assert HoldsTheRight(Steps(inp, hash).captured.disk, inp, o, hash);
  }

  /** The bucket states a history goes through. */
  ghost predicate MarkersTellThroughout(states: iset<Bucket>) {
    forall b, e :: b in states && e in states && b.project == e.project ==> MarkersTell(b, e)
  }

  ghost predicate IsHistory(run: seq<World>, steps: seq<Step>, states: iset<Bucket>, hash: Hash) {
    && |run| == |steps| + 1 && run[0] == World([], map[])
    && (forall i :: 0 <= i < |steps| ==> Enabled(run[i], steps[i]) && run[i + 1] == Next(run[i], steps[i], hash))
    && (forall i :: 0 <= i < |steps| && steps[i].BackUp? && Trimmed(steps[i].source.tree) ==> Seen(steps[i].source) in states)
  }

  // --- What every step keeps -------------------------------------------------------------------------

  /** A readable OK manifest of a grounded run says exactly what the bucket held when the run was made. */
  ghost predicate Believable(c: Child, truth: map<string, Bucket>, states: iset<Bucket>, hash: Hash) {
    IsOk(c) && c.name in truth ==>
      && truth[c.name] in states && Consistent(truth[c.name])
      && c.manifest.value.projectRef == truth[c.name].project
      && Truthful(c.manifest.value, truth[c.name], hash)
  }

  ghost predicate Inv(w: World, states: iset<Bucket>, hash: Hash) {
    && DistinctNames(w.children)
    && (forall c :: c in w.children ==> Believable(c, w.truth, states, hash))
  }

  /** What an incremental run may copy, by the records of a grounded run, is what the bucket holds now. */
  lemma PreviousTells(w: World, name: string, b: Bucket, incremental: bool, states: iset<Bucket>, hash: Hash)
    requires Inv(w, states, hash) && MarkersTellThroughout(states) && b in states && Consistent(b)
    requires var found := PreviousRun(w, name, b.project, incremental); found.Some? ==> found.value.name in w.truth
    ensures RecordsTell(PreviousFor(w, name, b.project, incremental), b, hash)
  {
    RunFoldersFacts(w.children);
    hide RunFolders, StorageRecords, SaysAnother, SaysTheSame;
    var found := PreviousRun(w, name, b.project, incremental);
    if found.Some? {
      var c := found.value;
      assert Believable(c, w.truth, states, hash);
      var earlier := w.truth[c.name];
      assert MarkersTell(b, earlier);
      forall o | o in b.objects && SafeToReuse(o, StorageRecords(c.manifest.value))
        ensures o.path in b.content && StorageRecords(c.manifest.value)[o.path].sha256 == Some(hash(b.content[o.path]))
      {
        StorageRecordsFacts(c.manifest.value, o.path);
        assert o.path in Keys(earlier.objects);
        var p :| p in earlier.objects && p.path == o.path;
        assert SameVersion(o, p);
      }
    }
  }

  /** A run never prunes itself. */
  lemma CurrentIsNotPruned(children: seq<Child>, keep: int, current: string)
    requires DistinctNames(children) && keep >= 1
    ensures current !in NamesOf(PlanPrune(children, keep, current).value)
  {
    var plan := PlanPrune(children, keep, current).value;
    forall k | 0 <= k < |plan|
      ensures plan[k].name != current
    {
      assert plan[k] in plan;
      PrunedIff(children, keep, current, plan[k]);
    }
  }

  /** Of the others, something else survives under another name. */
  ghost predicate OthersSurvive(before: seq<Child>, child: Child, after: seq<Child>) {
    forall c <- after :: c == child || (c.name != child.name && exists b <- before :: Survives(c, b))
  }

  /** The directory just after a run that was not refused: its folder, and what survives of the others. */
  lemma AfterBackUp(w: World, step: Step, hash: Hash)
    requires DistinctNames(w.children) && step.BackUp? && Enabled(w, step) && !Exists(w, step.name)
    ensures var child, after := NewFolder(step, hash), Next(w, step, hash).children;
            DistinctNames(after) && child.name == step.name && child in after && OthersSurvive(w.children, child, after)
  {
    hide *;
    var child := NewFolder(step, hash);
    NextChildren(w, step, hash);
    AppendDistinct(w, child);
    KeptFacts(w.children + [child], child, step);
    OldOnesSurvive(w.children, child, Kept(w.children + [child], child, step));
  }

  lemma OldOnesSurvive(before: seq<Child>, child: Child, after: seq<Child>)
    requires DistinctNames(after) && child in after && forall c <- after :: exists b <- before + [child] :: Survives(c, b)
    ensures OthersSurvive(before, child, after)
  {
    hide DistinctNames, Survives;
    forall c | c in after && c != child
      ensures c.name != child.name && exists b <- before :: Survives(c, b)
    {
      var b :| b in before + [child] && Survives(c, b);
      SurvivorName(c, b);
      if c.name == child.name {
        NameTells(after, c, child);
      }
    }
  }

  lemma NextChildren(w: World, step: Step, hash: Hash)
    requires step.BackUp? && Enabled(w, step) && !Exists(w, step.name)
    ensures var child := NewFolder(step, hash);
            && (step.keep.Some? ==> step.keep.value >= 1) && child.name == step.name
            && Next(w, step, hash).children == Kept(w.children + [child], child, step)
            && Next(w, step, hash).truth == if IsOk(child) && Grounded(w, step) then w.truth[step.name := Seen(step.source)] else w.truth - {step.name}
  {
    hide Steps, IsOk, Kept, Grounded, Seen;
  }

  lemma SurvivorName(after: Child, before: Child)
    requires Survives(after, before)
    ensures after.name == before.name && (IsOk(after) ==> IsOk(before) && after.manifest == before.manifest)
  {
  }

  lemma KeptFacts(children: seq<Child>, child: Child, step: Step)
    requires DistinctNames(children) && child in children && step.BackUp? && (step.keep.Some? ==> step.keep.value >= 1)
    ensures var after := Kept(children, child, step);
            DistinctNames(after) && child in after && forall c <- after :: exists b <- children :: Survives(c, b)
  {
    hide DistinctNames, Doomed, NamesOf, Pruned;
    if IsOk(child) && step.keep.Some? {
      CurrentIsNotPruned(children, step.keep.value, child.name);
      PrunedFacts(children, NamesOf(PlanPrune(children, step.keep.value, child.name).value), step.stuck, step.left, step.readable);
    } else {
      assert forall c <- children :: Survives(c, c);
    }
  }

  lemma AppendDistinct(w: World, child: Child)
    requires DistinctNames(w.children) && !Exists(w, child.name)
    ensures DistinctNames(w.children + [child]) && child in w.children + [child]
  {
    var children := w.children;
    assert (children + [child])[|children|] == child;
    forall i | 0 <= i < |children|
      ensures children[i].name != child.name
    {
      assert children[i] in children;
    }
  }

  /** A run without a failure walked the bucket to its end. */
  lemma OkRunListed(inp: Inputs, s: Source, hash: Hash)
    requires FaithfulInputs(inp, Seen(s)) && Steps(inp, hash).failures == []
    ensures Walked(ListerOf(s.tree), LIST_PAGE_SIZE).Ok? && inp.listing == Some(Listing(s.tree))
  {
    hide CaptureAll, Walked;
  }

  lemma NewFolderIsBelievable(w: World, step: Step, states: iset<Bucket>, hash: Hash)
    requires Inv(w, states, hash) && MarkersTellThroughout(states) && Injective(hash)
    requires step.BackUp? && Enabled(w, step) && Grounded(w, step) && Seen(step.source) in states
    requires IsOk(NewFolder(step, hash))
    ensures HoldsExactly(NewFolder(step, hash).files, Seen(step.source))
    ensures Believable(NewFolder(step, hash), w.truth[step.name := Seen(step.source)], states, hash)
  {
    OkRunListed(step.inp, step.source, hash);
    TrimmedIsConsistent(step.source);
    var b := Seen(step.source);
    assert b.project == step.source.project;
    assert FaithfulInputs(step.inp, b) && step.inp.previous == PreviousFor(w, step.name, b.project, step.incremental);
    hide Seen, Trimmed, IsSource;
    PreviousTells(w, step.name, b, step.incremental, states, hash);
    hide Steps, Truthful, HoldsExactly, PreviousFor, FaithfulInputs, RecordsTell, Consistent;
    OkStepsAreComplete(step.inp, b, hash);
  }

  /** The run of a step was recorded OK. */
  ghost predicate OkRun(w: World, step: Step, hash: Hash) {
    step.BackUp? && !Exists(w, step.name) && IsOk(NewFolder(step, hash))
  }

  /** What survives of a believable folder is believable, whatever is learnt of another. */
  lemma SurvivorIsBelievable(after: Child, before: Child, truth: map<string, Bucket>, truth': map<string, Bucket>, states: iset<Bucket>, hash: Hash)
    requires Survives(after, before) && Believable(before, truth, states, hash)
    requires after.name in truth' ==> after.name in truth && truth'[after.name] == truth[after.name]
    ensures Believable(after, truth', states, hash)
  {
    hide Truthful, Consistent;
  }

  /** Every folder stays believable, when the new one is. */
  lemma StillBelievable(before: seq<Child>, child: Child, after: seq<Child>, truth: map<string, Bucket>, truth': map<string, Bucket>, states: iset<Bucket>, hash: Hash)
    requires (forall b <- before :: Believable(b, truth, states, hash)) && Believable(child, truth', states, hash)
    requires OthersSurvive(before, child, after)
    requires forall name :: name != child.name && name in truth' ==> name in truth && truth'[name] == truth[name]
    ensures forall c <- after :: Believable(c, truth', states, hash)
  {
    hide Believable, Survives;
    forall c | c in after
      ensures Believable(c, truth', states, hash)
    {
      if c != child {
        var b :| b in before && Survives(c, b);
        SurvivorIsBelievable(c, b, truth, truth', states, hash);
      }
    }
  }

  lemma BackUpKeepsInv(w: World, step: Step, states: iset<Bucket>, hash: Hash)
    requires Inv(w, states, hash) && MarkersTellThroughout(states) && Injective(hash)
    requires step.BackUp? && Enabled(w, step) && (Trimmed(step.source.tree) ==> Seen(step.source) in states)
    ensures Inv(Next(w, step, hash), states, hash)
  {
    if !Exists(w, step.name) {
      var child, w' := NewFolder(step, hash), Next(w, step, hash);
      assert Grounded(w, step) ==> Trimmed(step.source.tree);
      hide Next, NewFolder, Believable, Enabled, Seen, Trimmed, Grounded, DistinctNames, OthersSurvive, MarkersTellThroughout, Injective, Kept, IsOk;
      AfterBackUp(w, step, hash);
      NextChildren(w, step, hash);
      if IsOk(child) && Grounded(w, step) {
        NewFolderIsBelievable(w, step, states, hash);
      } else {
        NothingToBelieve(child, w'.truth, states, hash);
      }
      StillBelievable(w.children, child, w'.children, w.truth, w'.truth, states, hash);
    }
  }

  lemma NothingToBelieve(c: Child, truth: map<string, Bucket>, states: iset<Bucket>, hash: Hash)
    requires !IsOk(c) || c.name !in truth
    ensures Believable(c, truth, states, hash)
  {
  }

  lemma DamageKeepsInv(w: World, step: Step, states: iset<Bucket>, hash: Hash)
    requires Inv(w, states, hash) && (step.Damage? || step.RemovedByHand?) && Enabled(w, step)
    ensures Inv(Next(w, step, hash), states, hash)
  {
    hide Truthful, Consistent;
    var w' := Next(w, step, hash);
    if step.RemovedByHand? {
      FilterMembers(w.children, NotNamed([step.name]));
      FilterDistinctNames(w.children, NotNamed([step.name]));
    } else {
      DamageFacts(w.children, step.name, step.files, step.readable);
      hide DistinctNames, DamageAll, Believable;
      forall c | c in w'.children
        ensures Believable(c, w'.truth, states, hash)
      {
        var b :| b in w.children && Survives(c, b);
        SurvivorIsBelievable(c, b, w.truth, w'.truth, states, hash);
      }
    }
  }

  lemma {:induction false} HistoryKeepsInv(run: seq<World>, steps: seq<Step>, states: iset<Bucket>, hash: Hash, n: nat)
    requires IsHistory(run, steps, states, hash) && MarkersTellThroughout(states) && Injective(hash) && n < |run|
    ensures Inv(run[n], states, hash)
  {
    hide Enabled, MarkersTellThroughout, Injective, Trimmed, Seen;
    if n > 0 {
      HistoryKeepsInv(run, steps, states, hash, n - 1);
      var step := steps[n - 1];
      assert run[n] == Next(run[n - 1], step, hash);
      hide Next, Inv;
      if step.BackUp? {
        BackUpKeepsInv(run[n - 1], step, states, hash);
      } else {
        DamageKeepsInv(run[n - 1], step, states, hash);
      }
    }
  }

  // --- Whole histories ---------------------------------------------------------------------------------

  /** The folder a run leaves holds exactly the objects and bytes of the bucket. */
  ghost predicate IsComplete(step: Step, hash: Hash)
    requires step.BackUp?
  {
    HoldsExactly(NewFolder(step, hash).files, Seen(step.source))
  }

  /** Every grounded run recorded OK holds in its own folder exactly the objects and bytes of the bucket during
      that run, through any chain of reuses, and whatever else ran, failed, pruned or was damaged. */
  lemma EveryOkRunIsComplete(run: seq<World>, steps: seq<Step>, states: iset<Bucket>, hash: Hash, n: nat)
    requires IsHistory(run, steps, states, hash) && MarkersTellThroughout(states) && Injective(hash)
    requires n < |steps| && OkRun(run[n], steps[n], hash) && Grounded(run[n], steps[n])
    ensures NewFolder(steps[n], hash) in run[n + 1].children
    ensures IsComplete(steps[n], hash)
  {
    HistoryKeepsInv(run, steps, states, hash, n);
    assert run[n + 1] == Next(run[n], steps[n], hash) && Enabled(run[n], steps[n]);
    assert Trimmed(steps[n].source.tree);
    hide NewFolder, HoldsExactly, MarkersTellThroughout, Injective, Trimmed, Seen, Enabled, Next, Grounded;
    AfterBackUp(run[n], steps[n], hash);
    NewFolderIsBelievable(run[n], steps[n], states, hash);
  }

  /** The runs recorded OK among the first `n` steps found the bucket trimmed. */
  ghost predicate TrimmedSoFar(run: seq<World>, steps: seq<Step>, hash: Hash, n: nat)
    requires n <= |steps| < |run|
  {
    forall i :: 0 <= i < n && OkRun(run[i], steps[i], hash) ==> Trimmed(steps[i].source.tree)
  }

  ghost predicate AllGrounded(w: World) {
    forall c <- w.children :: IsOk(c) ==> c.name in w.truth
  }

  lemma TrimmedIsGrounded(w: World, step: Step)
    requires DistinctNames(w.children) && AllGrounded(w) && step.BackUp? && Trimmed(step.source.tree)
    ensures Grounded(w, step)
  {
    RunFoldersFacts(w.children);
    hide RunFolders, Trimmed;
  }

  lemma StepKeepsGrounds(w: World, step: Step, hash: Hash)
    requires DistinctNames(w.children) && AllGrounded(w) && Enabled(w, step)
    requires OkRun(w, step, hash) ==> Trimmed(step.source.tree)
    ensures AllGrounded(Next(w, step, hash))
  {
    if step.Damage? {
      DamageFacts(w.children, step.name, step.files, step.readable);
    } else if step.RemovedByHand? {
      FilterMembers(w.children, NotNamed([step.name]));
    } else if !Exists(w, step.name) {
      var child, w' := NewFolder(step, hash), Next(w, step, hash);
      AfterBackUp(w, step, hash);
      NextChildren(w, step, hash);
      hide Next, NewFolder, Grounded, Trimmed, Seen, Enabled, Survives, IsOk;
      if IsOk(child) {
        TrimmedIsGrounded(w, step);
      }
      forall c | c in w'.children && IsOk(c)
        ensures c.name in w'.truth
      {
        if c != child {
          var b :| b in w.children && Survives(c, b);
          SurvivorName(c, b);
        }
      }
    }
  }

  lemma {:induction false} TrimmedRunsAreGrounded(run: seq<World>, steps: seq<Step>, states: iset<Bucket>, hash: Hash, n: nat)
    requires IsHistory(run, steps, states, hash) && MarkersTellThroughout(states) && Injective(hash)
    requires n <= |steps| && TrimmedSoFar(run, steps, hash, n)
    ensures AllGrounded(run[n])
  {
    hide Enabled, MarkersTellThroughout, Injective, OkRun, Trimmed, Seen;
    if n > 0 {
      TrimmedRunsAreGrounded(run, steps, states, hash, n - 1);
      HistoryKeepsInv(run, steps, states, hash, n - 1);
      assert run[n] == Next(run[n - 1], steps[n - 1], hash);
      OkRunIsABackUp(run[n - 1], steps[n - 1], hash);
      hide Next, AllGrounded;
      StepKeepsGrounds(run[n - 1], steps[n - 1], hash);
    }
  }

  lemma OkRunIsABackUp(w: World, step: Step, hash: Hash)
    ensures OkRun(w, step, hash) ==> step.BackUp?
  {
  }

  lemma OneStoresItsOwn(c: Captured, o: StorageObject, reuse: set<string>, inp: Inputs, hash: Hash)
    ensures CaptureOne(c, o, reuse, inp, hash).disk.Keys <= c.disk.Keys + {STORAGE + o.path}
  {
    hide SafeKey, ReuseFromPrevious;
  }

  lemma {:induction false} StoresOnlyListed(c: Captured, objects: seq<StorageObject>, reuse: set<string>, inp: Inputs, hash: Hash, key: string)
    requires STORAGE + key in CaptureAll(c, objects, reuse, inp, hash).disk && STORAGE + key !in c.disk
    ensures key in Keys(objects)
  {
    hide CaptureOne, Keys;
    if objects != [] {
      var n := |objects| - 1;
      var front := objects[..n];
      var before := CaptureAll(c, front, reuse, inp, hash);
      OneStoresItsOwn(before, objects[n], reuse, inp, hash);
      assert objects == front + [objects[n]];
      KeysAppend(front, objects[n]);
      if STORAGE + key in before.disk {
        StoresOnlyListed(c, front, reuse, inp, hash, key);
      } else {
        OnlyThisKey(objects[n].path);
      }
    }
  }

  /** A run recorded OK over a bucket that is not trimmed lacks an object, whatever came before it. */
  lemma UntrimmedRunIsIncomplete(w: World, step: Step, hash: Hash)
    requires step.BackUp? && Enabled(w, step) && OkRun(w, step, hash) && !Trimmed(step.source.tree)
    ensures !IsComplete(step, hash)
  {
    var inp := step.inp;
    OkRunListed(inp, step.source, hash);
    var key := UntrimmedMissesAKey(step.source);
    var start := WithFile(WithFile(NOTHING, "database.dump", inp.dump.value, hash), "auth.sql", inp.authSql.value, hash);
    var objects := inp.listing.value;
    assert (STORAGE + key)[0] == 's';
    assert "database.dump"[0] != 's' && "auth.sql"[0] != 's';
    hide Listing, Keys, CaptureAll, ReuseKeys, IsSource;
    if STORAGE + key in Steps(inp, hash).captured.disk {
      StoresOnlyListed(start, objects, ReuseKeys(objects, inp.previous), inp, hash, key);
    }
  }

  /** Over any history: all the runs recorded OK are complete if and only if all of them found the bucket
      trimmed. */
  lemma AllOkRunsAreCompleteIff(run: seq<World>, steps: seq<Step>, states: iset<Bucket>, hash: Hash)
    requires IsHistory(run, steps, states, hash) && MarkersTellThroughout(states) && Injective(hash)
    ensures (forall n :: 0 <= n < |steps| && OkRun(run[n], steps[n], hash) ==> IsComplete(steps[n], hash))
            <==> TrimmedSoFar(run, steps, hash, |steps|)
  {
    assert forall n :: 0 <= n < |steps| && OkRun(run[n], steps[n], hash) ==> steps[n].BackUp?;
    assert forall n :: 0 <= n < |steps| ==> Enabled(run[n], steps[n]);
    hide IsComplete, OkRun, MarkersTellThroughout, Injective, Trimmed, Enabled, Grounded, AllGrounded;
    if TrimmedSoFar(run, steps, hash, |steps|) {
      forall n | 0 <= n < |steps| && OkRun(run[n], steps[n], hash)
        ensures IsComplete(steps[n], hash)
      {
        TrimmedRunsAreGrounded(run, steps, states, hash, n);
        HistoryKeepsInv(run, steps, states, hash, n);
        TrimmedIsGrounded(run[n], steps[n]);
        EveryOkRunIsComplete(run, steps, states, hash, n);
      }
    } else {
      var n :| 0 <= n < |steps| && OkRun(run[n], steps[n], hash) && !Trimmed(steps[n].source.tree);
      OkRunIsABackUp(run[n], steps[n], hash);
      UntrimmedRunIsIncomplete(run[n], steps[n], hash);
    }
  }

  // --- Where names fold together ------------------------------------------------------------------------

  datatype Write = Write(name: string, data: Bytes)

  /** A folder after some writes, on a file system that keeps a file under `fold` of its name. */
  function Folder(base: map<string, Bytes>, writes: seq<Write>, fold: string -> string): map<string, Bytes> {
    if writes == [] then base
    else
      var w := writes[|writes| - 1];
      Folder(base, writes[..|writes| - 1], fold)[fold(w.name) := w.data]
  }

  function Same(): string -> string {
    (name: string) => name
  }

  /** Nothing under a name was written over by another. */
  ghost predicate ReadsBack(folder: map<string, Bytes>, written: map<string, Bytes>, fold: string -> string) {
    forall name <- written :: fold(name) in folder && folder[fold(name)] == written[name]
  }

  ghost predicate FoldsApart(written: map<string, Bytes>, fold: string -> string) {
    forall a, b :: a in written && b in written && fold(a) == fold(b) ==> written[a] == written[b]
  }

  /** The file a name is kept in holds what was last written under some name that folds the same. */
  lemma {:induction false} LastWritten(base: map<string, Bytes>, writes: seq<Write>, fold: string -> string, name: string) returns (last: string)
    requires name in Folder(map[], writes, Same())
    ensures last in Folder(map[], writes, Same()) && fold(last) == fold(name) && fold(name) in Folder(base, writes, fold)
    ensures Folder(base, writes, fold)[fold(name)] == Folder(map[], writes, Same())[last]
  {
    assert writes != [];
    var n := |writes| - 1;
    if fold(writes[n].name) == fold(name) {
      last := writes[n].name;
    } else {
      last := LastWritten(base, writes[..n], fold, name);
    }
  }

  /** What was written reads back, whatever else is in the folder, if and only if names that fold together were
      last given the same bytes. */
  lemma ReadsBackIff(base: map<string, Bytes>, writes: seq<Write>, fold: string -> string)
    ensures ReadsBack(Folder(base, writes, fold), Folder(map[], writes, Same()), fold) <==> FoldsApart(Folder(map[], writes, Same()), fold)
  {
    hide Folder;
    var written := Folder(map[], writes, Same());
    if FoldsApart(written, fold) {
      forall name | name in written
        ensures fold(name) in Folder(base, writes, fold) && Folder(base, writes, fold)[fold(name)] == written[name]
      {
        var last := LastWritten(base, writes, fold, name);
      }
    }
  }

  /** What one turn of the capture loop writes, if it stores the object. */
  function WriteOf(c: Captured, o: StorageObject, reuse: set<string>, inp: Inputs, hash: Hash): seq<Write> {
    var c' := CaptureOne(c, o, reuse, inp, hash);
    if c'.raised || |c'.mismatched| > |c.mismatched| then [] else [Write(STORAGE + o.path, c'.disk[STORAGE + o.path])]
  }

  /** What the capture loop writes, in order. */
  function WritesOf(c: Captured, objects: seq<StorageObject>, reuse: set<string>, inp: Inputs, hash: Hash): seq<Write> {
    if objects == [] then []
    else
      var front := objects[..|objects| - 1];
      var before := CaptureAll(c, front, reuse, inp, hash);
      WritesOf(c, front, reuse, inp, hash)
      + (if before.raised then [] else WriteOf(before, objects[|objects| - 1], reuse, inp, hash))
  }

  lemma WriteIsOnDisk(c: Captured, o: StorageObject, reuse: set<string>, inp: Inputs, hash: Hash)
    requires !c.raised
    ensures var c' := CaptureOne(c, o, reuse, inp, hash);
            var writes := WriteOf(c, o, reuse, inp, hash);
            || (writes == [] && c'.disk == c.disk)
            || (|writes| == 1 && writes[0].name == STORAGE + o.path && c'.disk == c.disk[writes[0].name := writes[0].data])
  {
    hide SafeKey, ReuseFromPrevious;
  }

  lemma FolderStep(base: map<string, Bytes>, writes: seq<Write>, w: Write, fold: string -> string)
    ensures Folder(base, writes + [w], fold) == Folder(base, writes, fold)[fold(w.name) := w.data]
    ensures writes + [] == writes
  {
    assert (writes + [w])[..|writes|] == writes;
  }

  /** Where names do not fold, the files are those writes; each of them is of a listed object. */
  lemma {:induction false} DiskIsWhatWasWritten(c: Captured, objects: seq<StorageObject>, reuse: set<string>, inp: Inputs, hash: Hash)
    ensures CaptureAll(c, objects, reuse, inp, hash).disk == Folder(c.disk, WritesOf(c, objects, reuse, inp, hash), Same())
    ensures forall name <- Folder(map[], WritesOf(c, objects, reuse, inp, hash), Same()) :: exists key: string :: name == STORAGE + key
  {
    hide CaptureOne, WriteOf, Folder;
    if objects == [] {
      NoWrites(c.disk);
    } else {
      var front, o := objects[..|objects| - 1], objects[|objects| - 1];
      var before, writes := CaptureAll(c, front, reuse, inp, hash), WritesOf(c, front, reuse, inp, hash);
      DiskIsWhatWasWritten(c, front, reuse, inp, hash);
      assert writes + [] == writes;
      if !before.raised {
        WriteIsOnDisk(before, o, reuse, inp, hash);
        var more := WriteOf(before, o, reuse, inp, hash);
        if |more| == 1 {
          FolderStep(c.disk, writes, more[0], Same());
          FolderStep(map[], writes, more[0], Same());
          assert more == [more[0]];
        }
      }
    }
  }

  lemma NoWrites(base: map<string, Bytes>)
    ensures Folder(base, [], Same()) == base && Folder(map[], [], Same()) == map[]
  {
  }

  lemma {:induction false} WritesOverBase(base: map<string, Bytes>, writes: seq<Write>, name: string)
    requires name !in base
    ensures name in Folder(base, writes, Same()) <==> name in Folder(map[], writes, Same())
    ensures name in Folder(base, writes, Same()) ==> Folder(base, writes, Same())[name] == Folder(map[], writes, Same())[name]
  {
    if writes != [] {
      WritesOverBase(base, writes[..|writes| - 1], name);
    }
  }

  function RunWrites(inp: Inputs, hash: Hash): seq<Write> {
    if inp.dump.None? || inp.authSql.None? || inp.listing.None? then []
    else
      WritesOf(WithFile(WithFile(NOTHING, "database.dump", inp.dump.value, hash), "auth.sql", inp.authSql.value, hash),
               inp.listing.value, ReuseKeys(inp.listing.value, inp.previous), inp, hash)
  }

  /** The objects of a complete run are what it wrote. */
  lemma CompleteIsWritten(inp: Inputs, b: Bucket, hash: Hash)
    requires Steps(inp, hash).failures == [] && HoldsExactly(Steps(inp, hash).captured.disk, b)
    ensures HoldsExactly(Folder(map[], RunWrites(inp, hash), Same()), b)
    ensures forall name <- Folder(map[], RunWrites(inp, hash), Same()) :: exists key: string :: name == STORAGE + key
  {
    StepsAreCaptured(inp, hash);
    RunWritesAre(inp, hash);
    NotAmongTheDumps(inp, hash);
    hide *;
    var start, objects := StartOf(inp, hash), inp.listing.value;
    DiskIsWhatWasWritten(start, objects, ReuseKeys(objects, inp.previous), inp, hash);
    HeldIsWritten(start.disk, RunWrites(inp, hash), b);
  }

  lemma RunWritesAre(inp: Inputs, hash: Hash)
    requires Steps(inp, hash).failures == []
    ensures inp.dump.Some? && inp.authSql.Some? && inp.listing.Some?
    ensures RunWrites(inp, hash) == WritesOf(StartOf(inp, hash), inp.listing.value, ReuseKeys(inp.listing.value, inp.previous), inp, hash)
  {
    hide CaptureAll, WritesOf, ReuseKeys, CheckFailures;
  }

  lemma NotAmongTheDumps(inp: Inputs, hash: Hash)
    requires inp.dump.Some? && inp.authSql.Some?
    ensures forall key: string :: STORAGE + key !in StartOf(inp, hash).disk
  {
    assert forall key: string :: (STORAGE + key)[0] == 's';
    assert "database.dump"[0] != 's' && "auth.sql"[0] != 's';
  }

  lemma HeldIsWritten(base: map<string, Bytes>, writes: seq<Write>, b: Bucket)
    requires HoldsExactly(Folder(base, writes, Same()), b) && forall key: string :: STORAGE + key !in base
    ensures HoldsExactly(Folder(map[], writes, Same()), b)
  {
    hide Folder;
    forall key: string
      ensures STORAGE + key in Folder(map[], writes, Same()) <==> key in b.content
      ensures key in b.content ==> Folder(map[], writes, Same())[STORAGE + key] == b.content[key]
    {
      WritesOverBase(base, writes, STORAGE + key);
    }
  }

  /** A folder gives back every object of the bucket, on a file system that keeps a file under `fold` of its name. */
  ghost predicate GivesBack(folder: map<string, Bytes>, b: Bucket, fold: string -> string) {
    forall key <- b.content :: fold(STORAGE + key) in folder && folder[fold(STORAGE + key)] == b.content[key]
  }

  ghost predicate KeysFoldApart(b: Bucket, fold: string -> string) {
    forall x, y :: x in b.content && y in b.content && fold(STORAGE + x) == fold(STORAGE + y) ==> b.content[x] == b.content[y]
  }

  lemma WrittenIsTheBucket(written: map<string, Bytes>, folder: map<string, Bytes>, b: Bucket, fold: string -> string)
    requires HoldsExactly(written, b) && forall name <- written :: exists key: string :: name == STORAGE + key
    ensures ReadsBack(folder, written, fold) <==> GivesBack(folder, b, fold)
    ensures FoldsApart(written, fold) <==> KeysFoldApart(b, fold)
  {
    forall x, y | x in written && y in written && fold(x) == fold(y) && KeysFoldApart(b, fold)
      ensures written[x] == written[y]
    {
      var k: string :| x == STORAGE + k;
      var l: string :| y == STORAGE + l;
      assert k in b.content && l in b.content;
    }
  }

  /** On a file system that folds names, whatever else is in the folder, a grounded run recorded OK gives back
      every object if and only if keys that fold together have the same bytes. */
  lemma CompleteWhereNamesFoldIff(
      run: seq<World>, steps: seq<Step>, states: iset<Bucket>, hash: Hash, n: nat, base: map<string, Bytes>, fold: string -> string)
    requires IsHistory(run, steps, states, hash) && MarkersTellThroughout(states) && Injective(hash)
    requires n < |steps| && OkRun(run[n], steps[n], hash) && Grounded(run[n], steps[n])
    ensures GivesBack(Folder(base, RunWrites(steps[n].inp, hash), fold), Seen(steps[n].source), fold)
            <==> KeysFoldApart(Seen(steps[n].source), fold)
  {
    EveryOkRunIsComplete(run, steps, states, hash, n);
    var inp, b := steps[n].inp, Seen(steps[n].source);
    assert Steps(inp, hash).failures == [] && HoldsExactly(Steps(inp, hash).captured.disk, b);
    hide *;
    CompleteIsWritten(inp, b, hash);
    var writes := RunWrites(inp, hash);
    ReadsBackIff(base, writes, fold);
    WrittenIsTheBucket(Folder(map[], writes, Same()), Folder(base, writes, fold), b, fold);
  }

  /** What a run finds that captures everything it lists, from a bucket that answers for the key "a". */
  function TwoInputs(data: Bytes): Inputs {
    Inputs(Some(ALUMNI_ROW_FLOOR), Some([0]), Some([0]), Some([TwoListed(data), TwoListed(data)]), None,
           (key: string) => if key == "a" then Some(data) else None, (key: string) => false, (key: string) => false, Some(true))
  }

  function TwoListed(data: Bytes): StorageObject {
    StorageObject("a", |data|, None, None)
  }

  /** Two files " a" and "a" of one size: the first run over them is recorded OK and lacks one of them. */
  lemma TwoFilesAreRecordedOk(name: string, x: Bytes, y: Bytes, hash: Hash) returns (step: Step)
    requires IsRunName(name) && |x| == |y|
    ensures step.BackUp? && step.source == Source("project", TwoFiles(|y|), map[" a" := x, "a" := y])
    ensures Enabled(World([], map[]), step) && OkRun(World([], map[]), step, hash) && !IsComplete(step, hash)
  {
    var source := Source("project", TwoFiles(|y|), map[" a" := x, "a" := y]);
    step := BackUp(name, source, TwoInputs(y), false, None, true, {}, map[], true);
    TwoFilesOneKey(|y|, LIST_PAGE_SIZE);
    TwoIsASource(source, x, y);
    assert FaithfulInputs(TwoInputs(y), Seen(source));
    TwoStepsPass(y, hash);
    hide Steps, Walked, TwoInputs, IsSource, FaithfulInputs, Trimmed;
    assert Enabled(World([], map[]), step);
    UntrimmedRunIsIncomplete(World([], map[]), step, hash);
  }

  lemma TwoIsASource(source: Source, x: Bytes, y: Bytes)
    requires |x| == |y| && source == Source("project", TwoFiles(|y|), map[" a" := x, "a" := y])
    ensures IsSource(source)
  {
    TwoFilesOneKey(|y|, LIST_PAGE_SIZE);
    hide Walked, WellFormed, HoldsObjects, Trimmed, ObjectsOf, TwoFiles, Keys;
    var o, p := StorageObject(" a", |y|, None, None), StorageObject("a", |y|, None, None);
    KeysOfTwo(o, p);
    assert source.content.Keys == {" a", "a"};
    assert source.content[" a"] == x && source.content["a"] == y by {
      assert " a"[0] != "a"[0];
    }
    assert forall q :: q in [o, p] <==> q == o || q == p;
  }

  lemma KeysOfTwo(o: StorageObject, p: StorageObject)
    ensures Keys([o, p]) == {o.path, p.path}
  {
    KeysAppend([], o);
    KeysAppend([o], p);
    assert [] + [o] == [o] && [o] + [p] == [o, p];
  }

  lemma TwoStepsPass(data: Bytes, hash: Hash)
    ensures Steps(TwoInputs(data), hash).failures == []
  {
    var o := TwoListed(data);
    var inp := TwoInputs(data);
    var start := WithFile(WithFile(NOTHING, "database.dump", [0], hash), "auth.sql", [0], hash);
    KeyAIsSafe();
    var one := CaptureOne(start, o, {}, inp, hash);
    assert one == Store(start, o, data, false, hash);
    var two := CaptureOne(one, o, {}, inp, hash);
    assert two == Store(one, o, data, false, hash);
    assert [o, o][..1] == [o] && [o][..0] == [];
    assert CaptureAll(start, [], {}, inp, hash) == start;
    assert CaptureAll(start, [o], {}, inp, hash) == one && CaptureAll(start, [o, o], {}, inp, hash) == two;
    assert TotalSize([]) == 0 && TotalSize([o]) == |data| && TotalSize([o, o]) == 2 * |data|;
    hide CaptureAll, CaptureOne, SafeKey;
    assert StorageOk(two, [o, o]);
  }

  lemma KeyAIsSafe()
    ensures SafeKey("a")
  {
    var rest := Parts("");
    assert rest == [""] && "a"[1..] == "" && "a"[0] == 'a';
    assert ['a'] + "" == "a" && rest[1..] == [];
    assert Parts("a") == [['a'] + rest[0]] + rest[1..] == ["a"];
  }

  /** While nobody touches the directory by hand, an OK run that exists is followed by a state in which
      one exists, whatever runs, fails or prunes. */
  lemma AnOkRunAlwaysRemains(w: World, step: Step, hash: Hash)
    requires DistinctNames(w.children) && step.BackUp? && Enabled(w, step) && OkRuns(w.children) != []
    ensures OkRuns(Next(w, step, hash).children) != []
  {
    if !Exists(w, step.name) {
      var child := NewFolder(step, hash);
      assert IsRun(child);
      AfterBackUp(w, step, hash);
      NextChildren(w, step, hash);
      var after := Next(w, step, hash).children;
      OkRunsFacts(after);
      OkRunsFacts(w.children);
      hide Next, NewFolder, OkRuns, IsRun, DistinctNames, Enabled, PlanPrune, Pruned;
      if IsOk(child) {
        assert child in OkRuns(after);
      } else {
        var c := OkRuns(w.children)[0];
        assert c in OkRuns(w.children);
        assert c in OkRuns(after);
      }
    }
  }

  /** A run deletes or damages only OK runs, each with at least `keep` newer OK runs, and nothing when it fails. */
  lemma RunsDeleteOnlyOldOkRuns(w: World, step: Step, hash: Hash, c: Child)
    requires DistinctNames(w.children) && step.BackUp? && Enabled(w, step)
    requires c in w.children && c !in Next(w, step, hash).children
    ensures IsOk(NewFolder(step, hash)) && step.keep.Some?
    ensures IsRun(c) && IsOk(c)
    ensures |NewerOk(w.children + [NewFolder(step, hash)], c.name)| >= step.keep.value
  {
    var child := NewFolder(step, hash);
    var children := w.children + [child];
    NextChildren(w, step, hash);
    AppendDistinct(w, child);
    assert c in children;
    hide Next, NewFolder, PlanPrune, IsOk, IsRun, NewerOk, Pruned, DistinctNames;
    if IsOk(child) && step.keep.Some? {
      var plan := PlanPrune(children, step.keep.value, step.name).value;
      PrunedFacts(children, NamesOf(plan), step.stuck, step.left, step.readable);
      assert c.name in NamesOf(plan);
      var k :| 0 <= k < |plan| && plan[k].name == c.name;
      PrunedIff(children, step.keep.value, step.name, plan[k]);
      NameTells(children, plan[k], c);
    }
  }

  /** The run of the step wrote a manifest, and it says OK. */
  ghost predicate RecordedOk(step: Step, hash: Hash) {
    step.BackUp? && step.manifestWritten && Steps(step.inp, hash).failures == []
  }

  /** The folder of a run: what it captured, and a manifest, if it was written, of exactly that and of how it went. */
  ghost predicate IsFolderOf(c: Child, step: Step, hash: Hash)
    requires step.BackUp?
  {
    var o := Steps(step.inp, hash);
    && c.name == step.name && c.isDir && !c.isLink && c.files == o.captured.disk
    && (c.manifest.Some? <==> step.manifestWritten)
    && (c.manifest.Some? ==>
          && (c.manifest.value.ok <==> o.failures == []) && c.manifest.value.projectRef == step.source.project
          && c.manifest.value.files.Keys == o.captured.files.Keys
          && forall name <- o.captured.files :: c.manifest.value.files[name] == AsManifest(o.captured.files[name]))
  }

  /** The run is one of those a prune removes: OK, with at least so many newer OK runs, the new one counted. */
  ghost predicate IsSurplus(w: World, step: Step, hash: Hash, c: Child)
    requires step.BackUp?
  {
    && RecordedOk(step, hash) && step.keep.Some? && IsRun(c) && IsOk(c)
    && |NewerOk(w.children + [NewFolder(step, hash)], c.name)| >= step.keep.value
  }

  /** What a run leaves. Nothing changes when a folder of its name exists. Otherwise its folder is there, every old
      folder that is not surplus is there unchanged, and when every deletion works no surplus one is. */
  lemma WhatARunLeaves(w: World, step: Step, hash: Hash)
    requires DistinctNames(w.children) && step.BackUp? && Enabled(w, step)
    ensures (exists c <- w.children :: c.name == step.name) ==> Next(w, step, hash) == w
    ensures (forall c <- w.children :: c.name != step.name) ==>
              var after := Next(w, step, hash).children;
              && (exists c <- after :: IsFolderOf(c, step, hash))
              && (forall c <- w.children :: !IsSurplus(w, step, hash, c) ==> c in after)
              && (step.stuck == {} ==> forall c <- w.children :: IsSurplus(w, step, hash, c) ==> forall d <- after :: d.name != c.name)
  {
    if forall c <- w.children :: c.name != step.name {
      var child := NewFolder(step, hash);
      AfterBackUp(w, step, hash);
      NextChildren(w, step, hash);
      NewFolderIs(step, hash);
      AppendDistinct(w, child);
      hide *;
      SurplusGoes(w, step, hash);
    } else {
      hide NewFolder, Kept, Grounded;
    }
  }

  lemma NewFolderIs(step: Step, hash: Hash)
    requires step.BackUp?
    ensures IsFolderOf(NewFolder(step, hash), step, hash)
    ensures IsOk(NewFolder(step, hash)) <==> RecordedOk(step, hash)
  {
    hide Steps;
  }

  lemma SurplusGoes(w: World, step: Step, hash: Hash)
    requires step.BackUp? && (step.keep.Some? ==> step.keep.value >= 1) && DistinctNames(w.children + [NewFolder(step, hash)])
    requires NewFolder(step, hash).name == step.name && forall c <- w.children :: c.name != step.name
    ensures var child := NewFolder(step, hash); var after := Kept(w.children + [child], child, step);
            && (forall c <- w.children :: !IsSurplus(w, step, hash, c) ==> c in after)
            && (step.stuck == {} ==> forall c <- w.children :: IsSurplus(w, step, hash, c) ==> forall d <- after :: d.name != c.name)
  {
    var child := NewFolder(step, hash);
    var children := w.children + [child];
    NewFolderIs(step, hash);
    hide NewFolder, PlanPrune, IsOk, IsRun, NewerOk, Pruned, DistinctNames, RecordedOk;
    if IsOk(child) && step.keep.Some? {
      var plan := PlanOf(children, step.keep.value, step.name);
      PrunedFacts(children, NamesOf(plan), step.stuck, step.left, step.readable);
      forall c | c in w.children
        ensures c.name in NamesOf(plan) <==> IsSurplus(w, step, hash, c)
      {
        assert c in children;
        NamedIffPlanned(children, step.keep.value, step.name, c);
      }
      if step.stuck == {} {
        NothingStuck(children, NamesOf(plan), step.left, step.readable);
      }
    }
  }

  function PlanOf(children: seq<Child>, keep: int, current: string): seq<Child>
    requires keep >= 1
  {
    PlanPrune(children, keep, current).value
  }

  lemma NamedIffPlanned(children: seq<Child>, keep: int, current: string, c: Child)
    requires DistinctNames(children) && keep >= 1 && c in children && c.name != current
    ensures c.name in NamesOf(PlanOf(children, keep, current)) <==> IsRun(c) && IsOk(c) && |NewerOk(children, c.name)| >= keep
  {
    var plan := PlanOf(children, keep, current);
    PrunedIff(children, keep, current, c);
    if c.name in NamesOf(plan) {
      var k :| 0 <= k < |plan| && plan[k].name == c.name;
      PrunedIff(children, keep, current, plan[k]);
      NameTells(children, plan[k], c);
    }
    if c in plan {
      var k :| 0 <= k < |plan| && plan[k] == c;
      assert NamesOf(plan)[k] == c.name;
    }
  }

  lemma NothingStuck(children: seq<Child>, plan: seq<string>, left: map<string, Bytes>, readable: bool)
    ensures forall d <- Pruned(children, plan, {}, left, readable) :: d.name !in plan
  {
    assert UntilStuck(plan, {}) == plan;
    FilterMembers(children, NotNamed(plan));
  }

  lemma NameTells(children: seq<Child>, a: Child, b: Child)
    requires DistinctNames(children) && a in children && b in children && a.name == b.name
    ensures a == b
  {
    var i :| 0 <= i < |children| && children[i] == a;
    var j :| 0 <= j < |children| && children[j] == b;
    assert i == j || i < j || j < i;
  }
}
