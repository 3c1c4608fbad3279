/** One backup run: the incremental plan, the verified capture of every object, and the checks. */
module BackupRun {
  import opened Wrappers
  import opened Text
  import opened Sorting
  import opened BucketWalk
  import opened BackupFolders

  const STORAGE := "storage/headshots/"
  const ALUMNI_ROW_FLOOR: int := 1400

  /** A file as this run records it. */
  datatype FileRecord = FileRecord(bytes: nat, sha256: string, etag: Option<string>, updatedAt: Option<string>)

  function AsManifest(r: FileRecord): Record {
    Record(Some(r.bytes), Some(r.sha256), r.etag, r.updatedAt)
  }

  type Hash = Bytes -> string

  // --- The previous run --------------------------------------------------------------------

  /** The records of a manifest's bucket objects, by object key. */
  function StorageRecords(m: Manifest): map<string, Record> {
    map key | key in StorageKeys(m) && STORAGE + key in m.files :: m.files[STORAGE + key]
  }

  function StorageKeys(m: Manifest): set<string> {
    set name | name in m.files && STORAGE <= name :: name[|STORAGE|..]
  }

  lemma StorageRecordsFacts(m: Manifest, key: string)
    ensures key in StorageRecords(m) <==> STORAGE + key in m.files
    ensures key in StorageRecords(m) ==> StorageRecords(m)[key] == m.files[STORAGE + key]
  {
    assert (STORAGE + key)[|STORAGE|..] == key;
  }

  datatype Reason = New | NoSha256 | SizeDiffers | EtagDiffers | UpdatedAtDiffers | NoMarker | Unchanged

  /** Why an object has to be downloaded, or that it need not be. */
  function Judge(obj: StorageObject, known: map<string, Record>): Reason {
    if obj.path !in known then New
    else
      var r := known[obj.path];
      if r.sha256.None? then NoSha256
      else if r.bytes != Some(obj.size) then SizeDiffers
      else
        var etag, updated := CleanMarker(r.etag), CleanMarker(r.updatedAt);
        if obj.etag.Some? && etag.Some? && obj.etag != etag then EtagDiffers
        else if obj.updatedAt.Some? && updated.Some? && obj.updatedAt != updated then UpdatedAtDiffers
        else if (obj.etag.None? || etag.None?) && (obj.updatedAt.None? || updated.None?) then NoMarker
        else Unchanged
  }

  datatype Plan = Plan(download: seq<StorageObject>, reuse: seq<StorageObject>, removed: seq<string>, reasons: map<string, Reason>)

  function Select(objects: seq<StorageObject>, known: map<string, Record>, same: bool): seq<StorageObject> {
    if objects == [] then []
    else
      var last := objects[|objects| - 1];
      Select(objects[..|objects| - 1], known, same) + (if Judge(last, known).Unchanged? == same then [last] else [])
  }

  function Keys(objects: seq<StorageObject>): set<string> {
    set o | o in objects :: o.path
  }

  function StringsInOrder(): (string, string) -> bool {
    (a: string, b: string) => Leq(a, b)
  }

  /** `plan_incremental`; `recorded` lists the keys of `known` in the order the manifest has them. */
  method PlanIncremental(objects: seq<StorageObject>, known: map<string, Record>, recorded: seq<string>) returns (plan: Plan)
    requires forall k :: k in recorded <==> k in known
    ensures plan.download == Select(objects, known, false) && plan.reuse == Select(objects, known, true)
    ensures forall k :: k in plan.removed <==> k in known && k !in Keys(objects)
    ensures Sorted(plan.removed, StringsInOrder())
    ensures forall o :: o in plan.download ==> o.path in plan.reasons && !plan.reasons[o.path].Unchanged?
  {
    PlanStart(objects, known);
    hide Judge, Sort, Gone, Select, Keys;
    var download, reuse: seq<StorageObject>, seen: set<string> := [], [], {};
    var reasons: map<string, Reason> := map[];
    for i := 0 to |objects|
      invariant download == Select(objects[..i], known, false) && reuse == Select(objects[..i], known, true)
      invariant seen == Keys(objects[..i])
      invariant forall k :: k in reasons ==> !reasons[k].Unchanged?
      invariant forall o :: o in download ==> o.path in reasons
    {
      var obj := objects[i];
      PlanNext(objects, known, i);
      seen := seen + {obj.path};
      var reason := Judge(obj, known);
      if reason.Unchanged? {
        reuse := reuse + [obj];
      } else {
        download := download + [obj];
        reasons := reasons[obj.path := reason];
      }
    }
    plan := Plan(download, reuse, Sort(Gone(recorded, seen), StringsInOrder()), reasons);
    GoneSorted(recorded, seen);
  }

  lemma PlanStart(objects: seq<StorageObject>, known: map<string, Record>)
    ensures Select(objects[..0], known, false) == Select(objects[..0], known, true) == [] && Keys(objects[..0]) == {}
    ensures objects[..|objects|] == objects
  {
  }

  lemma PlanNext(objects: seq<StorageObject>, known: map<string, Record>, i: nat)
    requires i < |objects|
    ensures forall same ::
      Select(objects[..i + 1], known, same)
      == if Judge(objects[i], known).Unchanged? == same then Select(objects[..i], known, same) + [objects[i]] else Select(objects[..i], known, same)
    ensures Keys(objects[..i + 1]) == Keys(objects[..i]) + {objects[i].path}
  {
    assert objects[..i + 1][..i] == objects[..i];
    hide Judge;
    assert objects[..i + 1] == objects[..i] + [objects[i]];
  }

  /** The recorded keys that were not listed. */
  function Gone(recorded: seq<string>, seen: set<string>): seq<string> {
    if recorded == [] then []
    else (if recorded[0] !in seen then [recorded[0]] else []) + Gone(recorded[1..], seen)
  }

  lemma {:induction false} GoneMembers(recorded: seq<string>, seen: set<string>, k: string)
    ensures k in Gone(recorded, seen) <==> k in recorded && k !in seen
  {
    if recorded != [] {
      GoneMembers(recorded[1..], seen, k);
    }
  }

  lemma GoneSorted(recorded: seq<string>, seen: set<string>)
    ensures var sorted := Sort(Gone(recorded, seen), StringsInOrder());
            Sorted(sorted, StringsInOrder()) && forall k :: k in sorted <==> k in recorded && k !in seen
  {
    var gone := Gone(recorded, seen);
    var sorted := Sort(gone, StringsInOrder());
    SortPermutes(gone, StringsInOrder());
    StringsOrder();
    SortSorts(gone, StringsInOrder());
    forall k
      ensures k in sorted <==> k in recorded && k !in seen
    {
      GoneMembers(recorded, seen, k);
      assert k in sorted <==> k in multiset(sorted);
      assert k in gone <==> k in multiset(gone);
    }
  }

  lemma StringsOrder()
    ensures TotalPreorder(StringsInOrder())
  {
    forall a: string, b: string
      ensures StringsInOrder()(a, b) || StringsInOrder()(b, a)
    {
      LeqTotal(a, b);
    }
    forall a: string, b: string, c: string | StringsInOrder()(a, b) && StringsInOrder()(b, c)
      ensures StringsInOrder()(a, c)
    {
      LeqTransitive(a, b, c);
    }
  }

  // --- What the plan promises -----------------------------------------------------------------

  /** The marker an object is listed with, and what a record says of the same kind. */
  ghost predicate SaysTheSame(listed: Option<string>, recorded: Option<string>) {
    listed.Some? && recorded.Some? && listed.value != "" && Says(recorded.value, listed.value)
  }

  ghost predicate SaysAnother(listed: Option<string>, recorded: Option<string>) {
    listed.Some? && recorded.Some? && !Says(recorded.value, "") && !Says(recorded.value, listed.value)
  }

  /** The three conditions under which an object may be copied from the previous run. */
  ghost predicate SafeToReuse(obj: StorageObject, known: map<string, Record>) {
    && obj.path in known
    && var r := known[obj.path];
       && r.sha256.Some? && r.bytes == Some(obj.size)
       && !SaysAnother(obj.etag, r.etag) && !SaysAnother(obj.updatedAt, r.updatedAt)
       && (SaysTheSame(obj.etag, r.etag) || SaysTheSame(obj.updatedAt, r.updatedAt))
  }

  lemma CleanedSays(listed: Option<string>, recorded: Option<string>)
    ensures SaysTheSame(listed, recorded) <==> listed.Some? && CleanMarker(recorded).Some? && listed == CleanMarker(recorded)
    ensures SaysAnother(listed, recorded) <==> listed.Some? && CleanMarker(recorded).Some? && listed != CleanMarker(recorded)
  {
    if listed.Some? && recorded.Some? {
      CleaningIsWhatItSays(recorded.value, listed.value);
      CleaningIsWhatItSays(recorded.value, "");
    }
    assert CleanMarker(recorded) != Some("");
    hide Says, CleanMarker;
  }

  lemma UnchangedIffSafe(o: StorageObject, known: map<string, Record>)
    ensures Judge(o, known).Unchanged? <==> SafeToReuse(o, known)
  {
    hide CleanMarker, SaysTheSame, SaysAnother;
    if o.path in known {
      CleanedSays(o.etag, known[o.path].etag);
      CleanedSays(o.updatedAt, known[o.path].updatedAt);
    }
  }

  /** The plan reuses exactly the listed objects that are safe to reuse and downloads the rest. */
  lemma {:induction false} PlanReusesIffSafe(objects: seq<StorageObject>, known: map<string, Record>, o: StorageObject)
    ensures o in Select(objects, known, true) <==> o in objects && SafeToReuse(o, known)
    ensures o in Select(objects, known, false) <==> o in objects && !SafeToReuse(o, known)
  {
    hide Judge, SafeToReuse;
    if objects != [] {
      var front := objects[..|objects| - 1];
      assert objects == front + [objects[|objects| - 1]];
      PlanReusesIffSafe(front, known, o);
      UnchangedIffSafe(objects[|objects| - 1], known);
    }
  }

  /** The reason the plan gives says what is wrong, looking at the record, the size and then the markers. */
  lemma ReasonsAreTrue(o: StorageObject, known: map<string, Record>)
    ensures var reason := Judge(o, known);
            && (reason == New <==> o.path !in known)
            && (reason == NoSha256 <==> o.path in known && known[o.path].sha256.None?)
            && (reason == SizeDiffers <==> o.path in known && known[o.path].sha256.Some? && known[o.path].bytes != Some(o.size))
            && (reason == EtagDiffers ==> SaysAnother(o.etag, known[o.path].etag))
            && (reason == UpdatedAtDiffers ==> SaysAnother(o.updatedAt, known[o.path].updatedAt))
            && (reason == NoMarker ==> !SaysTheSame(o.etag, known[o.path].etag) && !SaysTheSame(o.updatedAt, known[o.path].updatedAt))
  {
    hide CleanMarker, SaysTheSame, SaysAnother;
    if o.path in known {
      CleanedSays(o.etag, known[o.path].etag);
      CleanedSays(o.updatedAt, known[o.path].updatedAt);
    }
  }

  /** A marker as a listing has it, that no cleaning changes. */
  ghost predicate IsPlain(m: Option<string>) {
    m.Some? && m.value != "" && IsTrimmed(m.value, IsSpace) && IsTrimmed(m.value, IsQuote)
  }

  /** An object is downloaded when a marker it was recorded with, without whitespace inside its quotes, is not
      the one it is listed with now. */
  lemma ChangedMarkerIsDownloaded(objects: seq<StorageObject>, known: map<string, Record>, o: StorageObject)
    requires o in objects && o.path in known
    requires var r := known[o.path];
             || (o.etag.Some? && IsPlain(r.etag) && r.etag != o.etag)
             || (o.updatedAt.Some? && IsPlain(r.updatedAt) && r.updatedAt != o.updatedAt)
    ensures o in Select(objects, known, false) && o !in Select(objects, known, true)
  {
    var r := known[o.path];
    if o.etag.Some? && IsPlain(r.etag) && r.etag != o.etag {
      PlainMarkerSaysItself(r.etag.value, o.etag.value);
      PlainMarkerSaysItself(r.etag.value, "");
    } else {
      PlainMarkerSaysItself(r.updatedAt.value, o.updatedAt.value);
      PlainMarkerSaysItself(r.updatedAt.value, "");
    }
    PlanReusesIffSafe(objects, known, o);
    hide Says, Select;
  }

  /** A file of five bytes, with an etag. */
  function TaggedRow(etag: string): Row {
    Row(Some("x"), Some(Metadata(Some(5), Some(etag), None, None)), None)
  }

  /** With whitespace inside the quotes it may be reused: a recorded marker is cleaned once more than a listed
      one, so an object listed with the etag "\" a\"" and then with "\"a\"" counts as unchanged. */
  lemma ASpaceInsideQuotesIsLost(prefix: string, hash: string)
    ensures See(prefix, TaggedRow("\" a\"")).Object? && See(prefix, TaggedRow("\"a\"")).Object?
    ensures var earlier, o := See(prefix, TaggedRow("\" a\"")).obj, See(prefix, TaggedRow("\"a\"")).obj;
            var known := map[earlier.path := AsManifest(FileRecord(earlier.size, hash, earlier.etag, earlier.updatedAt))];
            o.etag != earlier.etag && o in Select([o], known, true)
  {
    QuotedSays("\" a\"", " a");
    QuotedSays("\"a\"", "a");
    TaggedIsListed(prefix, "\" a\"", " a");
    TaggedIsListed(prefix, "\"a\"", "a");
    hide *;
    assert " a"[0] != "a"[0];
    ReusedWhenSaid(StorageObject(JoinKey(prefix, "x"), 5, Some("a"), None), FileRecord(5, hash, Some(" a"), None));
  }

  lemma TaggedIsListed(prefix: string, etag: string, m: string)
    requires m != "" && Says(etag, m) && !Says(etag, "")
    ensures See(prefix, TaggedRow(etag)) == Object(StorageObject(JoinKey(prefix, "x"), 5, Some(m), None))
  {
    TrimmedStays("x", IsSpace);
    CleaningIsWhatItSays(etag, m);
    hide Strip, Says, JoinKey;
    assert CleanMarker(None) == None;
    hide CleanMarker;
  }

  lemma ReusedWhenSaid(o: StorageObject, r: FileRecord)
    requires o.size == 5 == r.bytes && o.etag == Some("a") && r.etag == Some(" a") && o.updatedAt.None?
    ensures o in Select([o], map[o.path := AsManifest(r)], true)
  {
    assert IsWritten(" a", " ", "", "a", "", "");
    CleaningIsWhatItSays(" a", "a");
    CleaningIsWhatItSays(" a", "");
    hide CleanMarker, Says, Select;
    PlanReusesIffSafe([o], map[o.path := AsManifest(r)], o);
  }

  lemma QuotedSays(raw: string, m: string)
    requires m != "" && m[0] != '\"' && m[|m| - 1] != '\"' && raw == "\"" + m + "\""
    ensures Says(raw, m) && !Says(raw, "")
  {
    assert raw == "" + ("\"" + m + "\"") + "";
    assert IsWritten(raw, "", "\"", m, "\"", "");
    CleaningIsWhatItSays(raw, m);
    CleaningIsWhatItSays(raw, "");
  }

  // --- Where an object lands -----------------------------------------------------------------

  function Parts(key: string): seq<string> {
    if key == "" then [""]
    else
      var rest := Parts(key[1..]);
      if key[0] == '/' then [""] + rest
      else if rest == [] then [[key[0]]] else [[key[0]] + rest[0]] + rest[1..]
  }

  /** The keys `safe_object_destination` accepts. */
  predicate SafeKey(key: string) {
    && key != "" && '\\' !in key && ':' !in key
    && forall p :: p in Parts(key) ==> p !in {"", ".", ".."}
  }

  /** A part of a key: a stretch without a slash, between slashes or the ends of the key. */
  ghost predicate IsPart(key: string, before: string, part: string, after: string) {
    && key == before + part + after && '/' !in part
    && (before != "" ==> before[|before| - 1] == '/') && (after != "" ==> after[0] == '/')
  }

  lemma {:induction false} PartAt(key: string, i: nat) returns (before: string, after: string)
    requires i < |Parts(key)|
    ensures IsPart(key, before, Parts(key)[i], after) && (i == 0 <==> before == "")
  {
    before, after := "", "";
    if key != "" {
      assert key == [key[0]] + key[1..];
      if key[0] == '/' && i == 0 {
        after := key;
      } else {
        before, after := PartAt(key[1..], if key[0] == '/' then i - 1 else i);
        if key[0] == '/' || i > 0 {
          before := [key[0]] + before;
        }
      }
    }
  }

  lemma {:induction false} PartIsFound(key: string, before: string, part: string, after: string) returns (i: nat)
    requires IsPart(key, before, part, after)
    ensures i < |Parts(key)| && Parts(key)[i] == part && (i == 0 <==> before == "")
    decreases |key|
  {
    i := 0;
    if key == "" {
    } else if before == "" && part == "" {
    } else if before == "" {
      assert key[1..] == "" + part[1..] + after && key[0] == part[0];
      i := PartIsFound(key[1..], "", part[1..], after);
      assert part == [part[0]] + part[1..];
    } else {
      assert key[1..] == before[1..] + part + after && key[0] == before[0];
      i := PartIsFound(key[1..], before[1..], part, after);
      if key[0] == '/' {
        i := i + 1;
      }
    }
  }

  /** The accepted keys are those without a backslash or colon in which no part is empty or made of one or two dots. */
  lemma SafeKeyIff(key: string)
    ensures SafeKey(key) <==>
            && '\\' !in key && ':' !in key
            && forall before: string, part: string, after: string ::
                 IsPart(key, before, part, after) ==> part != "" && part != "." && part != ".."
  {
    hide Parts;
    forall before: string, part: string, after: string | IsPart(key, before, part, after)
      ensures part in Parts(key)
    {
      var i := PartIsFound(key, before, part, after);
    }
    forall part | part in Parts(key)
      ensures exists before: string, after: string :: IsPart(key, before, part, after)
    {
      var i :| 0 <= i < |Parts(key)| && Parts(key)[i] == part;
      var before, after := PartAt(key, i);
    }
    if key == "" {
      assert IsPart(key, "", "", "");
    }
  }

  // --- Capture ------------------------------------------------------------------------------

  datatype Previous = Previous(records: map<string, Record>, files: map<string, Bytes>)

  /** What a run finds: counts, dumps, the listing, the previous OK run, and how downloads, copies and
      writes go. None stands for a step that raised. */
  datatype Inputs = Inputs(
    alumniRows: Option<int>,
    dump: Option<Bytes>, authSql: Option<Bytes>,
    listing: Option<seq<StorageObject>>,
    previous: Option<Previous>,
    download: string -> Option<Bytes>,
    copyFails: string -> bool,
    writeFails: string -> bool,
    tocListsAlumni: Option<bool>)

  /** What a run has captured so far: its records, its files on disk, and its counters. */
  datatype Captured = Captured(
    files: map<string, FileRecord>, disk: map<string, Bytes>,
    downloaded: nat, downloadedBytes: nat, reused: nat, reusedBytes: nat,
    mismatched: seq<string>, raised: bool)

  /** `reuse_from_previous`: the verified copy, or None when it does not verify. */
  function ReuseFromPrevious(prev: Previous, obj: StorageObject, copyFails: bool, hash: Hash): Option<Bytes>
    requires obj.path in prev.records
  {
    var name, expected := STORAGE + obj.path, prev.records[obj.path].sha256;
    if !SafeKey(obj.path) || name !in prev.files || expected.None? || copyFails then None
    else
      var copied := prev.files[name];
      if |copied| != obj.size || hash(copied) != expected.value then None else Some(copied)
  }

  /** The keys the plan reuses. */
  function ReuseKeys(objects: seq<StorageObject>, previous: Option<Previous>): set<string> {
    if previous.None? then {} else Keys(Select(objects, previous.value.records, true))
  }

  /** An object stored, recorded and counted, as a copy or as a download. */
  function Store(c: Captured, o: StorageObject, data: Bytes, copied: bool, hash: Hash): Captured {
    var name := STORAGE + o.path;
    var stored := c.(files := c.files[name := FileRecord(|data|, hash(data), o.etag, o.updatedAt)], disk := c.disk[name := data]);
    if copied then stored.(reused := c.reused + 1, reusedBytes := c.reusedBytes + |data|)
    else stored.(downloaded := c.downloaded + 1, downloadedBytes := c.downloadedBytes + |data|)
  }

  /** One turn of the capture loop. */
  function CaptureOne(c: Captured, obj: StorageObject, reuse: set<string>, inp: Inputs, hash: Hash): Captured {
    if !SafeKey(obj.path) then c.(raised := true)
    else
      var copied :=
        if inp.previous.Some? && obj.path in reuse && obj.path in inp.previous.value.records
        then ReuseFromPrevious(inp.previous.value, obj, inp.copyFails(obj.path), hash) else None;
      if copied.Some? then Store(c, obj, copied.value, true, hash)
      else
        var data := inp.download(obj.path);
        if data.None? then c.(raised := true)
        else if |data.value| != obj.size then c.(mismatched := c.mismatched + [obj.path])
        else if inp.writeFails(obj.path) then c.(raised := true)
        else Store(c, obj, data.value, false, hash)
  }

  function CaptureAll(c: Captured, objects: seq<StorageObject>, reuse: set<string>, inp: Inputs, hash: Hash): Captured {
    if objects == [] then c
    else
      var before := CaptureAll(c, objects[..|objects| - 1], reuse, inp, hash);
      if before.raised then before else CaptureOne(before, objects[|objects| - 1], reuse, inp, hash)
  }

  datatype Failure = Raised | TocLacksAlumni | StorageMismatch(downloaded: nat, reused: nat) | Mismatched(path: string) | EmptyDump

  datatype Outcome = Outcome(captured: Captured, failures: seq<Failure>)

  function TotalSize(objects: seq<StorageObject>): nat {
    if objects == [] then 0 else TotalSize(objects[..|objects| - 1]) + objects[|objects| - 1].size
  }

  const NOTHING: Captured := Captured(map[], map[], 0, 0, 0, 0, [], false)

  function WithFile(c: Captured, name: string, data: Bytes, hash: Hash): Captured {
    c.(files := c.files[name := FileRecord(|data|, hash(data), None, None)], disk := c.disk[name := data])
  }

  function MismatchFailures(paths: seq<string>): seq<Failure> {
    seq(|paths|, i requires 0 <= i < |paths| => Mismatched(paths[i]))
  }

  predicate StorageOk(c: Captured, objects: seq<StorageObject>) {
    c.mismatched == [] && c.downloaded + c.reused == |objects| && c.downloadedBytes + c.reusedBytes == TotalSize(objects)
  }

  /** The failures the final checks append. */
  function CheckFailures(c: Captured, objects: seq<StorageObject>, toc: bool, dump: Bytes, authSql: Bytes): seq<Failure> {
    (if toc then [] else [TocLacksAlumni])
    + (if StorageOk(c, objects) then []
       else [StorageMismatch(c.downloaded, c.reused)]
            + MismatchFailures(c.mismatched[..if |c.mismatched| < 20 then |c.mismatched| else 20]))
    + (if |dump| > 0 && |authSql| > 0 then [] else [EmptyDump])
  }

  /** What `_run_steps` leaves, with a raised error recorded as a failure. */
  function Steps(inp: Inputs, hash: Hash): Outcome {
    if inp.alumniRows.None? || inp.alumniRows.value < ALUMNI_ROW_FLOOR || inp.dump.None? then Outcome(NOTHING, [Raised])
    else
      var dumped := WithFile(NOTHING, "database.dump", inp.dump.value, hash);
      if inp.authSql.None? then Outcome(dumped, [Raised])
      else
        var start := WithFile(dumped, "auth.sql", inp.authSql.value, hash);
        if inp.listing.None? || inp.listing.value == [] then Outcome(start, [Raised])
        else
          var objects := inp.listing.value;
          var c := CaptureAll(start, objects, ReuseKeys(objects, inp.previous), inp, hash);
          if c.raised || inp.tocListsAlumni.None? then Outcome(c, [Raised])
          else Outcome(c, CheckFailures(c, objects, inp.tocListsAlumni.value, inp.dump.value, inp.authSql.value))
  }

  /** The result object of a run, and the folder it writes. */
  class Run {
    var files: map<string, FileRecord>
    var disk: map<string, Bytes>
    var downloaded: nat
    var downloadedBytes: nat
    var reused: nat
    var reusedBytes: nat
    var failures: seq<Failure>

    constructor ()
      ensures files == map[] && disk == map[] && failures == []
      ensures downloaded == downloadedBytes == reused == reusedBytes == 0
    {
      files, disk, failures := map[], map[], [];
      downloaded, downloadedBytes, reused, reusedBytes := 0, 0, 0, 0;
    }

    function State(mismatched: seq<string>, raised: bool): Captured
      reads this
    {
      Captured(files, disk, downloaded, downloadedBytes, reused, reusedBytes, mismatched, raised)
    }

    method AddFile(name: string, data: Bytes, hash: Hash)
      modifies this
      ensures State([], false) == WithFile(old(State([], false)), name, data, hash) && failures == old(failures)
    {
      files := files[name := FileRecord(|data|, hash(data), None, None)];
      disk := disk[name := data];
    }

    /** An object captured: written to the folder, counted and recorded. */
    method Keep(obj: StorageObject, data: Bytes, copied: bool, hash: Hash, ghost mismatched: seq<string>)
      modifies this
      ensures State(mismatched, false) == Store(old(State(mismatched, false)), obj, data, copied, hash)
      ensures failures == old(failures)
    {
      disk := disk[STORAGE + obj.path := data];
      if copied {
        reused, reusedBytes := reused + 1, reusedBytes + |data|;
      } else {
        downloaded, downloadedBytes := downloaded + 1, downloadedBytes + |data|;
      }
      files := files[STORAGE + obj.path := FileRecord(|data|, hash(data), obj.etag, obj.updatedAt)];
    }

    /** The capture loop: the keys that came back with the wrong length, or that it raised. */
    method CaptureObjects(objects: seq<StorageObject>, inp: Inputs, hash: Hash) returns (mismatched: seq<string>, raised: bool)
      modifies this
      ensures State(mismatched, raised) == CaptureAll(old(State([], false)), objects, ReuseKeys(objects, inp.previous), inp, hash)
      ensures failures == old(failures)
    {
      var reuse := ReuseKeys(objects, inp.previous);
      mismatched, raised := [], false;
      assert objects[..0] == [] && objects[..|objects|] == objects;
      assert CaptureAll(old(State([], false)), [], reuse, inp, hash) == State([], false);
      hide CaptureAll, ReuseKeys, ReuseFromPrevious, SafeKey, Store;
      for i := 0 to |objects|
        invariant !raised && failures == old(failures)
        invariant State(mismatched, false) == CaptureAll(old(State([], false)), objects[..i], reuse, inp, hash)
      {
        var obj := objects[i];
        CaptureNext(old(State([], false)), objects, i, reuse, inp, hash);
        if !SafeKey(obj.path) {
          return mismatched, true;
        }
        if inp.previous.Some? && obj.path in reuse && obj.path in inp.previous.value.records {
          var copied := ReuseFromPrevious(inp.previous.value, obj, inp.copyFails(obj.path), hash);
          if copied.Some? {
            Keep(obj, copied.value, true, hash, mismatched);
            continue;
          }
        }
        var data := inp.download(obj.path);
        if data.None? {
          return mismatched, true;
        }
        if |data.value| != obj.size {
          mismatched := mismatched + [obj.path];
          continue;
        }
        if inp.writeFails(obj.path) {
          return mismatched, true;
        }
        Keep(obj, data.value, false, hash, mismatched);
      }
    }

    /** The steps, and what they leave whether they fail or not. */
    method RunSteps(inp: Inputs, hash: Hash) returns (mismatched: seq<string>, raised: bool)
      requires State([], false) == NOTHING && failures == []
      modifies this
      ensures failures == Steps(inp, hash).failures
      ensures State(mismatched, raised) == Steps(inp, hash).captured
    {
      mismatched, raised := [], false;
      hide CaptureAll, ReuseKeys, TotalSize, MismatchFailures, WithFile;
      if inp.alumniRows.None? || inp.alumniRows.value < ALUMNI_ROW_FLOOR || inp.dump.None? {
        failures := [Raised];
        return;
      }
      AddFile("database.dump", inp.dump.value, hash);
      if inp.authSql.None? {
        failures := [Raised];
        return;
      }
      AddFile("auth.sql", inp.authSql.value, hash);
      if inp.listing.None? || inp.listing.value == [] {
        failures := [Raised];
        return;
      }
      var objects := inp.listing.value;
      mismatched, raised := CaptureObjects(objects, inp, hash);
      if raised || inp.tocListsAlumni.None? {
        failures := [Raised];
        return;
      }
      Check(mismatched, objects, inp.tocListsAlumni.value, inp.dump.value, inp.authSql.value);
    }

    /** The final checks, each adding its failure. */
    method Check(mismatched: seq<string>, objects: seq<StorageObject>, toc: bool, dump: Bytes, authSql: Bytes)
      requires failures == []
      modifies this`failures
      ensures failures == CheckFailures(State(mismatched, false), objects, toc, dump, authSql)
    {
      hide TotalSize, MismatchFailures;
      if !toc {
        failures := failures + [TocLacksAlumni];
      }
      var okStorage := mismatched == [] && downloaded + reused == |objects| && downloadedBytes + reusedBytes == TotalSize(objects);
      if !okStorage {
        failures := failures + [StorageMismatch(downloaded, reused)];
        failures := failures + MismatchFailures(mismatched[..if |mismatched| < 20 then |mismatched| else 20]);
      }
      if !(|dump| > 0 && |authSql| > 0) {
        failures := failures + [EmptyDump];
      }
    }
  }

  lemma CaptureNext(c: Captured, objects: seq<StorageObject>, i: nat, reuse: set<string>, inp: Inputs, hash: Hash)
    requires i < |objects| && !CaptureAll(c, objects[..i], reuse, inp, hash).raised
    ensures CaptureAll(c, objects[..i + 1], reuse, inp, hash) == CaptureOne(CaptureAll(c, objects[..i], reuse, inp, hash), objects[i], reuse, inp, hash)
    ensures CaptureOne(CaptureAll(c, objects[..i], reuse, inp, hash), objects[i], reuse, inp, hash).raised ==>
              CaptureAll(c, objects, reuse, inp, hash) == CaptureAll(c, objects[..i + 1], reuse, inp, hash)
  {
    assert objects[..i + 1][..i] == objects[..i];
    RaisedStays(c, objects, i + 1, reuse, inp, hash);
  }

  /** Once a capture has raised, nothing more happens. */
  lemma {:induction false} RaisedStays(c: Captured, objects: seq<StorageObject>, i: nat, reuse: set<string>, inp: Inputs, hash: Hash)
    requires i <= |objects|
    ensures CaptureAll(c, objects[..i], reuse, inp, hash).raised ==>
              CaptureAll(c, objects, reuse, inp, hash) == CaptureAll(c, objects[..i], reuse, inp, hash)
    decreases |objects|
  {
    hide CaptureOne;
    if i < |objects| {
      var front := objects[..|objects| - 1];
      assert front[..i] == objects[..i];
      RaisedStays(c, front, i, reuse, inp, hash);
    } else {
      assert objects[..i] == objects;
    }
  }

  // --- When a run is recorded OK -----------------------------------------------------------------

  /** The previous run's file of an object can be copied and is what was recorded of it. */
  ghost predicate Verifies(inp: Inputs, o: StorageObject, hash: Hash) {
    && inp.previous.Some?
    && var prev := inp.previous.value;
       && (exists p <- (if inp.listing.Some? then inp.listing.value else []) :: p.path == o.path && SafeToReuse(p, prev.records))
       && STORAGE + o.path in prev.files && !inp.copyFails(o.path)
       && var data := prev.files[STORAGE + o.path];
          |data| == o.size && o.path in prev.records && prev.records[o.path].sha256 == Some(hash(data))
  }

  /** The object is downloaded whole and written. */
  ghost predicate Arrives(inp: Inputs, o: StorageObject) {
    inp.download(o.path).Some? && |inp.download(o.path).value| == o.size && !inp.writeFails(o.path)
  }

  /** The object after its turn: stored with these bytes, and counted as a copy or as a download. */
  ghost predicate StoredAs(before: Captured, after: Captured, o: StorageObject, data: Bytes, copied: bool, hash: Hash) {
    && after.disk == before.disk[STORAGE + o.path := data] && after.raised == before.raised && after.mismatched == before.mismatched
    && after.files == before.files[STORAGE + o.path := FileRecord(|data|, hash(data), o.etag, o.updatedAt)]
    && after.reused == before.reused + (if copied then 1 else 0) && after.downloaded == before.downloaded + (if copied then 0 else 1)
    && after.reusedBytes == before.reusedBytes + (if copied then |data| else 0)
    && after.downloadedBytes == before.downloadedBytes + (if copied then 0 else |data|)
  }

  lemma ReusedKeys(inp: Inputs, o: StorageObject)
    requires inp.listing.Some? && inp.previous.Some?
    ensures o.path in ReuseKeys(inp.listing.value, inp.previous)
            <==> exists p <- inp.listing.value :: p.path == o.path && SafeToReuse(p, inp.previous.value.records)
  {
    var objects, known := inp.listing.value, inp.previous.value.records;
    hide SafeToReuse, Select;
    forall p
      ensures p in Select(objects, known, true) <==> p in objects && SafeToReuse(p, known)
    {
      PlanReusesIffSafe(objects, known, p);
    }
  }

  /** A turn of the capture: an object under an unsafe key raises; one whose copy verifies is stored as that copy;
      any other is downloaded, and stored, reported, or raised for. */
  lemma OneTurn(c: Captured, o: StorageObject, inp: Inputs, hash: Hash)
    requires inp.listing.Some?
    ensures var c' := CaptureOne(c, o, ReuseKeys(inp.listing.value, inp.previous), inp, hash);
            if !SafeKey(o.path) then c' == c.(raised := true)
            else if Verifies(inp, o, hash) then StoredAs(c, c', o, inp.previous.value.files[STORAGE + o.path], true, hash)
            else if Arrives(inp, o) then StoredAs(c, c', o, inp.download(o.path).value, false, hash)
            else if inp.download(o.path).None? || |inp.download(o.path).value| == o.size then c' == c.(raised := true)
            else c' == c.(mismatched := c.mismatched + [o.path])
  {
    hide SafeKey, SafeToReuse, ReuseKeys;
    if inp.previous.Some? {
      ReusedKeys(inp, o);
    }
  }

  /** The object is stored when its turn comes. */
  ghost predicate IsStored(inp: Inputs, o: StorageObject, hash: Hash) {
    SafeKey(o.path) && (Verifies(inp, o, hash) || Arrives(inp, o))
  }

  /** Nothing has gone wrong, and everything so far is counted. */
  ghost predicate AllWell(c: Captured, objects: seq<StorageObject>) {
    && !c.raised && c.mismatched == [] && c.downloaded + c.reused == |objects|
    && c.downloadedBytes + c.reusedBytes == TotalSize(objects)
  }

  lemma {:induction false} CaptureIsWellIff(start: Captured, n: nat, inp: Inputs, hash: Hash)
    requires inp.listing.Some? && n <= |inp.listing.value| && AllWell(start, [])
    ensures var objects := inp.listing.value[..n]; var c := CaptureAll(start, objects, ReuseKeys(inp.listing.value, inp.previous), inp, hash);
            && (!c.raised && c.mismatched == [] <==> forall o <- objects :: IsStored(inp, o, hash))
            && (!c.raised && c.mismatched == [] ==> AllWell(c, objects))
  {
    hide CaptureOne, ReuseKeys, IsStored;
    var all := inp.listing.value;
    if n == 0 {
      assert all[..0] == [];
    } else {
      var o := all[n - 1];
      CaptureIsWellIff(start, n - 1, inp, hash);
      assert all[..n][..n - 1] == all[..n - 1] && all[..n] == all[..n - 1] + [o];
      var c := CaptureAll(start, all[..n - 1], ReuseKeys(all, inp.previous), inp, hash);
      if !c.raised {
        TurnIsWellIff(c, o, inp, hash);
      }
    }
  }

  lemma TurnIsWellIff(c: Captured, o: StorageObject, inp: Inputs, hash: Hash)
    requires inp.listing.Some? && !c.raised
    ensures var c' := CaptureOne(c, o, ReuseKeys(inp.listing.value, inp.previous), inp, hash);
            && (!c'.raised && c'.mismatched == [] <==> c.mismatched == [] && IsStored(inp, o, hash))
            && (IsStored(inp, o, hash) ==>
                  && c'.downloaded + c'.reused == c.downloaded + c.reused + 1
                  && c'.downloadedBytes + c'.reusedBytes == c.downloadedBytes + c.reusedBytes + o.size)
  {
    OneTurn(c, o, inp, hash);
    hide CaptureOne, SafeKey, SafeToReuse, ReuseKeys;
  }

  /** A run ends without a failure if and only if it found enough alumni, both dumps came and hold something, the
      bucket listed some objects and every one of them is stored, and the dump lists the alumni table. */
  lemma RecordedOkIff(inp: Inputs, hash: Hash)
    ensures Steps(inp, hash).failures == [] <==>
            && inp.alumniRows.Some? && inp.alumniRows.value >= 1400
            && inp.dump.Some? && |inp.dump.value| > 0 && inp.authSql.Some? && |inp.authSql.value| > 0
            && inp.listing.Some? && inp.listing.value != [] && (forall o <- inp.listing.value :: IsStored(inp, o, hash))
            && inp.tocListsAlumni == Some(true)
  {
    hide Steps, CheckFailures, CaptureAll, ReuseKeys, IsStored, TotalSize, WithFile;
    FailuresOf(inp, hash);
    if inp.dump.Some? && inp.authSql.Some? && inp.listing.Some? {
      var start := StartOf(inp, hash);
      assert inp.listing.value[..|inp.listing.value|] == inp.listing.value;
      NothingCaptured(inp, hash);
      CaptureIsWellIff(start, |inp.listing.value|, inp, hash);
      var c := CaptureAll(start, inp.listing.value, ReuseKeys(inp.listing.value, inp.previous), inp, hash);
      NoFailuresIff(c, inp.listing.value, inp.tocListsAlumni == Some(true), inp.dump.value, inp.authSql.value);
    }
  }

  /** What is captured before the bucket. */
  function StartOf(inp: Inputs, hash: Hash): Captured
    requires inp.dump.Some? && inp.authSql.Some?
  {
    WithFile(WithFile(NOTHING, "database.dump", inp.dump.value, hash), "auth.sql", inp.authSql.value, hash)
  }

  lemma FailuresOf(inp: Inputs, hash: Hash)
    ensures Steps(inp, hash).failures == [] <==>
            && inp.alumniRows.Some? && inp.alumniRows.value >= 1400 && inp.dump.Some? && inp.authSql.Some?
            && inp.listing.Some? && inp.listing.value != [] && inp.tocListsAlumni.Some?
            && var c := CaptureAll(StartOf(inp, hash), inp.listing.value, ReuseKeys(inp.listing.value, inp.previous), inp, hash);
               !c.raised && CheckFailures(c, inp.listing.value, inp.tocListsAlumni.value, inp.dump.value, inp.authSql.value) == []
  {
    hide CaptureAll, ReuseKeys, CheckFailures, WithFile;
  }

  lemma NoFailuresIff(c: Captured, objects: seq<StorageObject>, toc: bool, dump: Bytes, authSql: Bytes)
    ensures CheckFailures(c, objects, toc, dump, authSql) == [] <==> toc && StorageOk(c, objects) && |dump| > 0 && |authSql| > 0
  {
    hide TotalSize, MismatchFailures;
  }

  lemma NothingCaptured(inp: Inputs, hash: Hash)
    requires inp.dump.Some? && inp.authSql.Some?
    ensures AllWell(StartOf(inp, hash), [])
  {
  }

  /** The bytes an object is stored with: the previous run's file when it verifies, and else what was downloaded. */
  ghost predicate HoldsTheRight(disk: map<string, Bytes>, inp: Inputs, o: StorageObject, hash: Hash) {
    && STORAGE + o.path in disk
    && (if Verifies(inp, o, hash) then disk[STORAGE + o.path] == inp.previous.value.files[STORAGE + o.path]
        else inp.download(o.path) == Some(disk[STORAGE + o.path]))
  }

  lemma {:induction false} StoredStays(start: Captured, inp: Inputs, hash: Hash, i: nat, n: nat)
    requires inp.listing.Some? && i < n <= |inp.listing.value| && AllWell(start, [])
    requires forall o <- inp.listing.value :: IsStored(inp, o, hash)
    requires forall a, b :: 0 <= a < b < |inp.listing.value| ==> inp.listing.value[a].path != inp.listing.value[b].path
    ensures var c := CaptureAll(start, inp.listing.value[..n], ReuseKeys(inp.listing.value, inp.previous), inp, hash);
            !c.raised && HoldsTheRight(c.disk, inp, inp.listing.value[i], hash)
  {
    hide *;
    var all := inp.listing.value;
    var reuse := ReuseKeys(all, inp.previous);
    var before := CaptureAll(start, all[..n - 1], reuse, inp, hash);
    CaptureIsWellIff(start, n - 1, inp, hash);
    assert forall p <- all[..n - 1] :: p in all;
    CaptureLast(start, all, n, reuse, inp, hash);
    if i < n - 1 {
      StoredStays(start, inp, hash, i, n - 1);
      TurnKeeps(before, all[n - 1], inp, hash, all[i]);
    } else {
      TurnStores(before, all[n - 1], inp, hash);
    }
  }

  lemma CaptureLast(start: Captured, all: seq<StorageObject>, n: nat, reuse: set<string>, inp: Inputs, hash: Hash)
    requires 0 < n <= |all|
    ensures var before := CaptureAll(start, all[..n - 1], reuse, inp, hash);
            !before.raised ==> CaptureAll(start, all[..n], reuse, inp, hash) == CaptureOne(before, all[n - 1], reuse, inp, hash)
  {
    assert all[..n][..n - 1] == all[..n - 1] && all[..n][n - 1] == all[n - 1];
    hide CaptureOne;
  }

  lemma TurnStores(c: Captured, o: StorageObject, inp: Inputs, hash: Hash)
    requires inp.listing.Some? && !c.raised && IsStored(inp, o, hash)
    ensures var c' := CaptureOne(c, o, ReuseKeys(inp.listing.value, inp.previous), inp, hash);
            !c'.raised && HoldsTheRight(c'.disk, inp, o, hash)
  {
    OneTurn(c, o, inp, hash);
    hide CaptureOne, ReuseKeys, SafeKey, SafeToReuse;
  }

  lemma TurnKeeps(c: Captured, o: StorageObject, inp: Inputs, hash: Hash, p: StorageObject)
    requires inp.listing.Some? && !c.raised && IsStored(inp, o, hash) && p.path != o.path && HoldsTheRight(c.disk, inp, p, hash)
    ensures var c' := CaptureOne(c, o, ReuseKeys(inp.listing.value, inp.previous), inp, hash);
            !c'.raised && HoldsTheRight(c'.disk, inp, p, hash)
  {
    OneTurn(c, o, inp, hash);
    DifferentFiles(p.path, o.path);
    hide CaptureOne, ReuseKeys, SafeKey, SafeToReuse;
  }

  lemma DifferentFiles(a: string, b: string)
    requires a != b
    ensures STORAGE + a != STORAGE + b
  {
    assert (STORAGE + a)[|STORAGE|..] == a && (STORAGE + b)[|STORAGE|..] == b;
  }

  lemma StepsAreCaptured(inp: Inputs, hash: Hash)
    requires Steps(inp, hash).failures == []
    ensures inp.dump.Some? && inp.authSql.Some? && inp.listing.Some?
    ensures Steps(inp, hash).captured == CaptureAll(StartOf(inp, hash), inp.listing.value, ReuseKeys(inp.listing.value, inp.previous), inp, hash)
  {
    hide CaptureAll, ReuseKeys, CheckFailures;
  }

  /** After a run without a failure, of a listing that names no key twice, every object is stored with those bytes. */
  lemma WhatAnOkRunHolds(inp: Inputs, hash: Hash, o: StorageObject)
    requires Steps(inp, hash).failures == [] && inp.listing.Some? && o in inp.listing.value
    requires forall a, b :: 0 <= a < b < |inp.listing.value| ==> inp.listing.value[a].path != inp.listing.value[b].path
    ensures HoldsTheRight(Steps(inp, hash).captured.disk, inp, o, hash)
  {
    hide *;
    RecordedOkIff(inp, hash);
    StepsAreCaptured(inp, hash);
    NothingCaptured(inp, hash);
    var i :| 0 <= i < |inp.listing.value| && inp.listing.value[i] == o;
    StoredStays(StartOf(inp, hash), inp, hash, i, |inp.listing.value|);
    assert inp.listing.value[..|inp.listing.value|] == inp.listing.value;
  }
}
