/** The survey-photo tool's listing: every folder under a prefix, page by page, with any page liable to fail. */
module OrphanListing {
  import opened Wrappers
  import opened Text
  import opened BucketWalk
  import opened BucketTree

  const STAGED_PREFIX: string := "survey-pending/"

  type Objects = map<string, Option<int>>

  /** `failures` counts the notes; the listing is complete when there are none. */
  datatype Listing = Listing(objects: Objects, pages: nat, folders: nat, complete: bool, failures: nat)

  /** Whatever answers the listing calls: (how many calls before, prefix, limit, offset) -> rows, or a failure. */
  type Service = (nat, string, nat, nat) -> Option<seq<Row>>

  /** The service may fail at any call; when it answers, it answers from the one bucket. */
  ghost predicate Serves(list: Service, root: Tree) {
    forall calls: nat, prefix: string, limit: nat, offset: nat ::
      list(calls, prefix, limit, offset).Some? ==>
        list(calls, prefix, limit, offset).value == Slice(RowsAt(root, prefix), offset, limit)
  }

  ghost predicate NeverFails(list: Service) {
    forall calls: nat, prefix: string, limit: nat, offset: nat :: list(calls, prefix, limit, offset).Some?
  }

  // --- One page ----------------------------------------------------------------------------------

  datatype Found = Found(objects: Objects, pending: seq<string>)

  /** What the tool makes of one row. */
  function Note(folder: string, row: Row, f: Found): Found {
    var name := if row.Junk? || row.name.None? then "" else Strip(row.name.value);
    if name == "" then f
    else if row.metadata.None? then f.(pending := f.pending + [folder + name + "/"])
    else f.(objects := f.objects[folder + name := row.metadata.value.size])
  }

  function NoteAll(folder: string, rows: seq<Row>, f: Found): Found {
    if rows == [] then f else Note(folder, rows[|rows| - 1], NoteAll(folder, rows[..|rows| - 1], f))
  }

  function WithFiles(objects: Objects, files: seq<StorageObject>): Objects {
    if files == [] then objects
    else WithFiles(objects, files[..|files| - 1])[files[|files| - 1].path := Some(files[|files| - 1].size)]
  }

  lemma {:induction false} WithFilesOver(objects: Objects, a: seq<StorageObject>, b: seq<StorageObject>)
    ensures WithFiles(objects, a + b) == WithFiles(WithFiles(objects, a), b)
  {
    if b == [] {
      assert a + b == a;
    } else {
      var n := |b| - 1;
      assert (a + b)[..|a + b| - 1] == a + b[..n] && (a + b)[|a + b| - 1] == b[n];
      WithFilesOver(objects, a, b[..n]);
    }
  }

  lemma OneFile(objects: Objects, o: StorageObject)
    ensures WithFiles(objects, [o]) == objects[o.path := Some(o.size)] && WithFiles(objects, []) == objects
  {
    assert [o][..0] == [];
  }

  lemma NoteEntry(folder: string, e: Entry, f: Found)
    ensures Note(folder, RowOf(e), f) ==
            if Strip(e.name) == "" then f
            else if e.File? then f.(objects := f.objects[folder + Strip(e.name) := Some(e.size)])
            else f.(pending := f.pending + [folder + Strip(e.name) + "/"])
  {
    hide Strip;
  }

  lemma LastRow(es: seq<Entry>)
    requires es != []
    ensures var rows := RowsOf(es); var n := |es| - 1;
            |rows| == |es| && rows[n] == RowOf(es[n]) && rows[..n] == RowsOf(es[..n])
  {
  }

  /** The rows of some entries leave their files among the objects and the places they lead to pending. */
  lemma {:induction false} NoteEntries(folder: string, all: seq<Entry>, es: seq<Entry>, f: Found)
    ensures NoteAll(folder, RowsOf(es), f)
            == Found(WithFiles(f.objects, FilesIn(folder, es)), f.pending + Prefixes(SubsIn(folder, all, es)))
  {
    hide Note, Prefixes, RowsOf, RowOf, FilesIn, SubsIn, WithFiles;
    FirstEntry(folder, all, []);
    PrefixesConcat([], []);
    if es == [] {
      RowsSplit(es);
      OneFile(f.objects, StorageObject("", 0, None, None));
      assert f.pending + [] == f.pending;
    } else {
      var n := |es| - 1;
      var front, last := es[..n], es[n];
      NoteEntries(folder, all, front, f);
      LastRow(es);
      assert es == front + [last];
      FilesConcat(folder, front, [last]);
      SubsConcat(folder, all, front, [last]);
      WithFilesOver(f.objects, FilesIn(folder, front), FilesIn(folder, [last]));
      PrefixesConcat(SubsIn(folder, all, front), SubsIn(folder, all, [last]));
      LastPending(f.pending, Prefixes(SubsIn(folder, all, front)), Prefixes(SubsIn(folder, all, [last])));
      NoteOne(folder, all, last, NoteAll(folder, RowsOf(front), f));
    }
  }

  lemma NoteOne(folder: string, all: seq<Entry>, e: Entry, f: Found)
    ensures Note(folder, RowOf(e), f) == Found(WithFiles(f.objects, FilesIn(folder, [e])), f.pending + Prefixes(SubsIn(folder, all, [e])))
  {
    NoteEntry(folder, e, f);
    OneEntry(folder, all, e);
    hide Note, Prefixes, FilesIn, SubsIn, WithFiles, Strip;
    PrefixesConcat([], []);
    OneFile(f.objects, if e.File? then SeenAt(folder, e) else StorageObject("", 0, None, None));
    if e.Sub? && Strip(e.name) != "" {
      PrefixesConcat([SubPlace(folder, all, e)], []);
    }
    assert f.pending + [] == f.pending;
  }

  lemma LastPending(a: seq<string>, b: seq<string>, c: seq<string>)
    ensures a + (b + c) == (a + b) + c && (c == [] ==> a + (b + c) == a + b)
  {
  }

  /** The rows of a page, in order. */
  method NotePage(folder: string, rows: seq<Row>, f: Found) returns (r: Found)
    ensures r == NoteAll(folder, rows, f)
  {
    r := f;
    for i := 0 to |rows|
      invariant r == NoteAll(folder, rows[..i], f)
    {
      hide Note;
      assert rows[..i + 1][..i] == rows[..i];
      r := Note(folder, rows[i], r);
    }
    assert rows[..|rows|] == rows;
  }

  // --- One folder --------------------------------------------------------------------------------

  datatype End = Finished | PageFailed | PastTheCap

  lemma NoteSlice(place: Place, k: nat, size: nat, f: Found)
    requires k <= |place.tree.entries| && size > 0
    ensures var es := place.tree.entries;
            var next := if |es| - k < size then |es| else k + size;
            var rows := Slice(RowsOf(es), k, size);
            && |rows| == next - k
            && NoteAll(place.prefix, rows, Found(WithFiles(f.objects, FilesIn(place.prefix, es[..k])), f.pending + Prefixes(SubsIn(place.prefix, es, es[..k]))))
               == Found(WithFiles(f.objects, FilesIn(place.prefix, es[..next])), f.pending + Prefixes(SubsIn(place.prefix, es, es[..next])))
  {
    hide NoteAll, FilesIn, SubsIn, WithFiles, Slice, RowsOf, Prefixes;
    var es, prefix := place.tree.entries, place.prefix;
    var next := if |es| - k < size then |es| else k + size;
    var some := es[k..next];
    SliceRows(es, k, size);
    assert some == if |es| - k < size then es[k..] else es[k..k + size];
    RowsLength(some);
    assert es[..next] == es[..k] + some;
    var start := Found(WithFiles(f.objects, FilesIn(prefix, es[..k])), f.pending + Prefixes(SubsIn(prefix, es, es[..k])));
    NoteEntries(prefix, es, some, start);
    FilesConcat(prefix, es[..k], some);
    SubsConcat(prefix, es, es[..k], some);
    WithFilesOver(f.objects, FilesIn(prefix, es[..k]), FilesIn(prefix, some));
    PrefixesConcat(SubsIn(prefix, es, es[..k]), SubsIn(prefix, es, some));
    LastPending(f.pending, Prefixes(SubsIn(prefix, es, es[..k])), Prefixes(SubsIn(prefix, es, some)));
  }

  /** Paging through one folder: the first `k` of its entries are noted, all of them when it finishes; and
      when no page fails, it finishes exactly when the folder's pages fit the cap. */
  method ListFolder(list: Service, ghost root: Tree, ghost place: Place, folder: string, size: nat, maxPages: nat, calls: nat, f: Found)
    returns (r: Found, end: End, made: nat, answered: nat, ghost k: nat)
    requires Serves(list, root) && Placed(root, place) && place.prefix == folder && size > 0
    ensures k <= |place.tree.entries|
    ensures r == Found(WithFiles(f.objects, FilesIn(folder, place.tree.entries[..k])),
                       f.pending + Prefixes(SubsIn(folder, place.tree.entries, place.tree.entries[..k])))
    ensures end.Finished? ==> k == |place.tree.entries|
    ensures NeverFails(list) ==> !end.PageFailed? && (end.Finished? <==> Pages(place.tree.entries, size) <= maxPages)
    ensures made <= maxPages && made == answered + (if end.PageFailed? then 1 else 0)
  {
    hide *;
    ghost var es := place.tree.entries;
    r, made, answered, k := f, 0, 0, 0;
    NothingNoted(folder, es, f);
    var offset: nat := 0;
    while made < maxPages
      invariant made <= maxPages && answered == made
      invariant k == offset <= |es|
      invariant r == Found(WithFiles(f.objects, FilesIn(folder, es[..k])), f.pending + Prefixes(SubsIn(folder, es, es[..k])))
      invariant Paged(|es|, offset, size, made)
    {
      var rows := list(calls + made, folder, size, offset);
      made := made + 1;
      if rows.None? {
        CannotFail(list, calls + made - 1, folder, size, offset);
        return r, PageFailed, made, answered, k;
      }
      answered := answered + 1;
      Answers(list, root, place, calls + made - 1, size, offset);
      NoteSlice(place, k, size, f);
      r := NotePage(folder, rows.value, r);
      PagedOn(es, offset, size, made - 1);
      offset := offset + |rows.value|;
      k := offset;
      if |rows.value| < size {
        LastPage(es, offset - |rows.value|, size, made - 1);
        return r, Finished, made, answered, k;
      }
    }
    NotDone(es, offset, size, made);
    end := PastTheCap;
  }

  /** So far every page was full. */
  ghost predicate Paged(n: nat, offset: nat, size: nat, made: nat) {
    offset == made * size && offset <= n
  }

  lemma NothingNoted(folder: string, es: seq<Entry>, f: Found)
    ensures f == Found(WithFiles(f.objects, FilesIn(folder, es[..0])), f.pending + Prefixes(SubsIn(folder, es, es[..0])))
    ensures forall size: nat :: Paged(|es|, 0, size, 0)
  {
    assert es[..0] == [];
    assert f.pending + [] == f.pending;
  }

  lemma CannotFail(list: Service, calls: nat, folder: string, size: nat, offset: nat)
    requires list(calls, folder, size, offset).None?
    ensures !NeverFails(list)
  {
  }

  lemma Answers(list: Service, root: Tree, place: Place, calls: nat, size: nat, offset: nat)
    requires Serves(list, root) && Placed(root, place) && list(calls, place.prefix, size, offset).Some?
    ensures list(calls, place.prefix, size, offset).value == Slice(RowsOf(place.tree.entries), offset, size)
  {
  }

  lemma PagedOn(es: seq<Entry>, offset: nat, size: nat, made: nat)
    requires Paged(|es|, offset, size, made)
    ensures offset + size <= |es| ==> Paged(|es|, offset + size, size, made + 1)
  {
  }

  lemma LastPage(es: seq<Entry>, offset: nat, size: nat, made: nat)
    requires size > 0 && Paged(|es|, offset, size, made) && |es| - offset < size
    ensures Pages(es, size) == made + 1
  {
    DivisionIsUnique(|es|, size, made, |es| - offset);
  }

  lemma NotDone(es: seq<Entry>, offset: nat, size: nat, made: nat)
    requires size > 0 && Paged(|es|, offset, size, made)
    ensures Pages(es, size) > made
  {
  }

  // --- Every folder ------------------------------------------------------------------------------

  /** The first folder walked. */
  function Top(root: Tree, prefix: string): Place {
    var folder := if prefix != "" && prefix[|prefix| - 1] == '/' then prefix else prefix + "/";
    Place(folder, if Find(root, folder).Some? then Find(root, folder).value else Tree([]))
  }

  /** Every object under the prefix, and what the tool sees of them, which strips every name. */
  function ObjectsUnder(root: Tree, prefix: string): seq<StorageObject> {
    ObjectsOf(Top(root, prefix).prefix, Top(root, prefix).tree.entries)
  }

  function SeenUnder(root: Tree, prefix: string): seq<StorageObject> {
    SeenObjects(Top(root, prefix).prefix, Top(root, prefix).tree)
  }

  /** Every folder the walk comes to keeps within the cap on its pages. */
  predicate Fits(t: Tree, size: nat, maxPages: nat)
    requires size > 0
    decreases t, |t.entries| + 1
  {
    Pages(t.entries, size) <= maxPages && SubsFit(t, |t.entries|, size, maxPages)
  }

  predicate SubsFit(t: Tree, n: nat, size: nat, maxPages: nat)
    requires size > 0 && n <= |t.entries|
    decreases t, n
  {
    n == 0 ||
    (var e := t.entries[n - 1];
     && SubsFit(t, n - 1, size, maxPages)
     && (e.File? || Strip(e.name) == "" ||
         var sub := FindSub(t.entries, Strip(e.name));
         if sub.None? then 1 <= maxPages else Fits(sub.value, size, maxPages)))
  }

  predicate PlacesFit(places: seq<Place>, size: nat, maxPages: nat)
    requires size > 0
  {
    forall p <- places :: Fits(p.tree, size, maxPages)
  }

  /** What a mapping of paths to sizes says of some objects: each of them, and nothing else. */
  ghost predicate Lists(m: Objects, os: seq<StorageObject>) {
    && (forall o <- os :: o.path in m && m[o.path] == Some(o.size))
    && Within(m, os)
  }

  ghost predicate Within(m: Objects, os: seq<StorageObject>) {
    forall path <- m :: exists o <- os :: o.path == path && m[path] == Some(o.size)
  }

  /** How far the walk has come: what was found and what is pending are under the prefix, all of it while the
      listing is complete. */
  ghost predicate Walking(root: Tree, all: multiset<StorageObject>, places: seq<Place>, found: seq<StorageObject>, f: Found, complete: bool) {
    && AllPlaced(root, places) && f.pending == Prefixes(places)
    && f.objects == WithFiles(map[], found)
    && multiset(found) + ObjectsAt(places) <= all
    && (complete ==> multiset(found) + ObjectsAt(places) == all)
  }

  lemma StepDown(root: Tree, all: multiset<StorageObject>, places: seq<Place>, found: seq<StorageObject>, f: Found, complete: bool, k: nat, size: nat)
    requires size > 0 && WellFormed(root) && places != [] && k <= |places[0].tree.entries|
    requires Walking(root, all, places, found, f, complete)
    ensures var place := places[0]; var es := place.tree.entries;
            var more := FilesIn(place.prefix, es[..k]);
            var next := places[1..] + SubsIn(place.prefix, es, es[..k]);
            && Walking(root, all, next, found + more,
                       Found(WithFiles(f.objects, more), f.pending[1..] + Prefixes(SubsIn(place.prefix, es, es[..k]))),
                       complete && k == |es|)
            && PlacesCost(next, size) < PlacesCost(places, size)
  {
    hide Prefixes, WithFiles, FilesIn, SubsIn, ObjectsAt, SeenObjects, WellFormed, Find, Placed, PlacesCost, SeenCost, Pages;
    var place := places[0];
    var es, prefix := place.tree.entries, place.prefix;
    var more, subs := FilesIn(prefix, es[..k]), SubsIn(prefix, es, es[..k]);
    WithFilesOver(map[], found, more);
    PrefixesConcat([place], places[1..]);
    PrefixesConcat(places[1..], subs);
    assert places == [place] + places[1..];
    NotedArePlaced(root, place, k);
    Shares(place, k, size);
    PlacesConcat([place], places[1..], size);
    PlacesConcat(places[1..], subs, size);
    OnePlace(place, size);
    StepObjects(all, found, more, places[1..], subs, place, complete && k == |es|);
  }

  lemma StepObjects(all: multiset<StorageObject>, found: seq<StorageObject>, more: seq<StorageObject>, rest: seq<Place>, subs: seq<Place>, place: Place, complete: bool)
    requires multiset(found) + (ObjectsAt([place]) + ObjectsAt(rest)) <= all
    requires multiset(more) + ObjectsAt(subs) <= ObjectsAt([place])
    requires complete ==> multiset(found) + (ObjectsAt([place]) + ObjectsAt(rest)) == all
    requires complete ==> multiset(more) + ObjectsAt(subs) == ObjectsAt([place])
    ensures multiset(found + more) + (ObjectsAt(rest) + ObjectsAt(subs)) <= all
    ensures complete ==> multiset(found + more) + (ObjectsAt(rest) + ObjectsAt(subs)) == all
  {
    hide ObjectsAt;
    assert multiset(found + more) == multiset(found) + multiset(more);
  }

  /** The part of a folder that was noted, and what it takes to walk the rest. */
  lemma Shares(place: Place, k: nat, size: nat)
    requires size > 0 && k <= |place.tree.entries|
    ensures var es := place.tree.entries;
            var more, subs := FilesIn(place.prefix, es[..k]), SubsIn(place.prefix, es, es[..k]);
            && multiset(more) + ObjectsAt(subs) <= ObjectsAt([place])
            && (k == |es| ==> multiset(more) + ObjectsAt(subs) == ObjectsAt([place]))
            && PlacesCost(subs, size) < SeenCost(place.tree, size)
  {
    hide FilesIn, SubsIn, ObjectsAt, SeenUpTo, PlacesCost, SeenSubCost, Pages;
    var es, prefix := place.tree.entries, place.prefix;
    assert es == es[..k] + es[k..] && es[..|es|] == es;
    FilesConcat(prefix, es[..k], es[k..]);
    SubsConcat(prefix, es, es[..k], es[k..]);
    PlacesConcat(SubsIn(prefix, es, es[..k]), SubsIn(prefix, es, es[k..]), size);
    FolderObjects(prefix, place.tree, |es|);
    FolderCost(prefix, place.tree, |es|, size);
    PagesPositive(es, size);
    OnePlace(place, size);
    assert k == |es| ==> es[..k] == es;
  }

  lemma NotedArePlaced(root: Tree, place: Place, k: nat)
    requires WellFormed(root) && Placed(root, place) && k <= |place.tree.entries|
    ensures AllPlaced(root, SubsIn(place.prefix, place.tree.entries, place.tree.entries[..k]))
  {
    hide WellFormed, Find, SubsIn, Placed;
    var es := place.tree.entries;
    assert es == es[..k] + es[k..] && es[0..] == es;
    SubsConcat(place.prefix, es, es[..k], es[k..]);
    SubsArePlaced(root, place, 0);
  }

  /** Whether the rest of the walk will keep within the caps. */
  lemma FitsDown(places: seq<Place>, size: nat, maxPages: nat)
    requires size > 0 && places != []
    ensures var es := places[0].tree.entries;
            PlacesFit(places, size, maxPages)
            <==> Pages(es, size) <= maxPages && PlacesFit(places[1..] + SubsIn(places[0].prefix, es, es), size, maxPages)
  {
    hide Pages, SubsFit, SubsIn;
    var es := places[0].tree.entries;
    var subs := SubsIn(places[0].prefix, es, es);
    SubsFitAsPlaces(places[0].prefix, places[0].tree, |es|, size, maxPages);
    assert es[..|es|] == es;
    assert places == [places[0]] + places[1..];
    hide Fits;
    FitBoth([places[0]], places[1..], size, maxPages);
    FitBoth(places[1..], subs, size, maxPages);
  }

  lemma FitBoth(a: seq<Place>, b: seq<Place>, size: nat, maxPages: nat)
    requires size > 0
    ensures PlacesFit(a + b, size, maxPages) <==> PlacesFit(a, size, maxPages) && PlacesFit(b, size, maxPages)
    ensures |a| == 1 ==> (PlacesFit(a, size, maxPages) <==> Fits(a[0].tree, size, maxPages))
  {
    hide Fits;
    assert forall p :: p in a + b <==> p in a || p in b;
    assert |a| == 1 ==> a == [a[0]];
  }

  lemma {:induction false} SubsFitAsPlaces(prefix: string, t: Tree, n: nat, size: nat, maxPages: nat)
    requires size > 0 && n <= |t.entries|
    ensures SubsFit(t, n, size, maxPages) <==> PlacesFit(SubsIn(prefix, t.entries, t.entries[..n]), size, maxPages)
    decreases n
  {
    if n == 0 {
      assert t.entries[..0] == [];
    } else {
      var e := t.entries[n - 1];
      SubsFitAsPlaces(prefix, t, n - 1, size, maxPages);
      assert t.entries[..n] == t.entries[..n - 1] + [e];
      SubsConcat(prefix, t.entries, t.entries[..n - 1], [e]);
      FitBoth(SubsIn(prefix, t.entries, t.entries[..n - 1]), SubsIn(prefix, t.entries, [e]), size, maxPages);
      EntryFits(prefix, t, n, size, maxPages);
      hide *;
    }
  }

  lemma EntryFits(prefix: string, t: Tree, n: nat, size: nat, maxPages: nat)
    requires size > 0 && 0 < n <= |t.entries|
    ensures SubsFit(t, n, size, maxPages)
            <==> SubsFit(t, n - 1, size, maxPages) && PlacesFit(SubsIn(prefix, t.entries, [t.entries[n - 1]]), size, maxPages)
  {
    var e := t.entries[n - 1];
    OneEntry(prefix, t.entries, e);
    if e.Sub? && Strip(e.name) != "" {
      FitBoth([SubPlace(prefix, t.entries, e)], [], size, maxPages);
      NothingFits(size, maxPages);
    }
    hide SubsIn, Strip, Fits, FindSub;
  }

  lemma NothingFits(size: nat, maxPages: nat)
    requires size > 0
    ensures Fits(Tree([]), size, maxPages) <==> 1 <= maxPages
  {
  }

  /** Every folder of a bucket keeps within the cap. */
  predicate FoldersFit(t: Tree, size: nat, maxPages: nat)
    requires size > 0
  {
    Pages(t.entries, size) <= maxPages && forall e <- t.entries :: e.Sub? ==> FoldersFit(e.tree, size, maxPages)
  }

  /** In a trimmed bucket the folders the walk comes to are all of them. */
  lemma {:induction false} TrimmedFits(t: Tree, size: nat, maxPages: nat)
    requires WellFormed(t) && Trimmed(t) && size > 0
    ensures Fits(t, size, maxPages) <==> FoldersFit(t, size, maxPages)
    decreases t, |t.entries| + 1
  {
    TrimmedSubsFit(t, |t.entries|, size, maxPages);
    assert t.entries[..|t.entries|] == t.entries;
  }

  lemma {:induction false} TrimmedSubsFit(t: Tree, n: nat, size: nat, maxPages: nat)
    requires WellFormed(t) && Trimmed(t) && size > 0 && n <= |t.entries|
    ensures SubsFit(t, n, size, maxPages) <==> forall e <- t.entries[..n] :: e.Sub? ==> FoldersFit(e.tree, size, maxPages)
    decreases t, n
  {
    if n > 0 {
      var e := t.entries[n - 1];
      TrimmedEntry(t, n - 1);
      hide WellFormed, Trimmed, Fits, SubsFit, FoldersFit, Strip, FindSub;
      TrimmedSubsFit(t, n - 1, size, maxPages);
      if e.Sub? {
        assert e in t.entries;
        TrimmedFits(e.tree, size, maxPages);
      }
      NextSubFits(t, n, size, maxPages);
      NextFolderFits(t.entries, n, size, maxPages);
    }
  }

  lemma NextSubFits(t: Tree, n: nat, size: nat, maxPages: nat)
    requires size > 0 && 0 < n <= |t.entries| && Strip(t.entries[n - 1].name) == t.entries[n - 1].name != ""
    requires t.entries[n - 1].Sub? ==> FindSub(t.entries, t.entries[n - 1].name) == Some(t.entries[n - 1].tree)
    ensures SubsFit(t, n, size, maxPages)
            <==> SubsFit(t, n - 1, size, maxPages) && (t.entries[n - 1].Sub? ==> Fits(t.entries[n - 1].tree, size, maxPages))
  {
    hide Strip, FindSub, Fits;
  }

  lemma NextFolderFits(es: seq<Entry>, n: nat, size: nat, maxPages: nat)
    requires size > 0 && 0 < n <= |es|
    ensures (forall e <- es[..n] :: e.Sub? ==> FoldersFit(e.tree, size, maxPages))
            <==> (forall e <- es[..n - 1] :: e.Sub? ==> FoldersFit(e.tree, size, maxPages))
                 && (es[n - 1].Sub? ==> FoldersFit(es[n - 1].tree, size, maxPages))
  {
    hide FoldersFit;
    assert es[..n] == es[..n - 1] + [es[n - 1]];
  }

  lemma TopIsPlaced(root: Tree, prefix: string)
    requires WellFormed(root)
    ensures Placed(root, Top(root, prefix)) && WellFormed(Top(root, prefix).tree)
  {
    hide Find;
    var folder := Top(root, prefix).prefix;
    if Find(root, folder).Some? {
      FindIsWellFormed(root, folder);
    }
  }

  lemma AtTheTop(root: Tree, prefix: string, size: nat, maxPages: nat)
    requires WellFormed(root) && size > 0
    ensures var top := Top(root, prefix); var all := multiset(SeenUnder(root, prefix));
            && Walking(root, all, [top], [], Found(map[], [top.prefix]), true)
            && (PlacesFit([top], size, maxPages) <==> Fits(top.tree, size, maxPages))
  {
    var top := Top(root, prefix);
    TopIsPlaced(root, prefix);
    OnePlace(top, 1);
    PrefixesConcat([top], []);
    hide Placed, Top, ObjectsAt, Fits, Prefixes;
    assert [top][0] == top;
  }

  lemma {:induction false} WithFilesIsWithin(found: seq<StorageObject>)
    ensures Within(WithFiles(map[], found), found)
  {
    if found != [] {
      var n := |found| - 1;
      WithFilesIsWithin(found[..n]);
      var m := WithFiles(map[], found);
      forall path | path in m
        ensures exists o <- found :: o.path == path && m[path] == Some(o.size)
      {
        if path == found[n].path {
          assert found[n] in found;
        } else {
          var o :| o in found[..n] && o.path == path && m[path] == Some(o.size);
          assert o in found;
        }
      }
    }
  }

  lemma {:induction false} WithFilesHasAll(found: seq<StorageObject>)
    ensures forall o <- found :: o.path in WithFiles(map[], found)
  {
    if found != [] {
      var n := |found| - 1;
      WithFilesHasAll(found[..n]);
      assert found == found[..n] + [found[n]];
    }
  }

  lemma SameElements(a: seq<StorageObject>, b: seq<StorageObject>)
    requires multiset(a) <= multiset(b)
    ensures forall o <- a :: o in b
    ensures multiset(a) == multiset(b) ==> forall o <- b :: o in a
  {
    forall o | o in a
      ensures o in b
    {
      assert o in multiset(a);
    }
    if multiset(a) == multiset(b) {
      forall o | o in b
        ensures o in a
      {
        assert o in multiset(b);
      }
    }
  }

  /** The paths of some objects. */
  ghost predicate HasPaths(m: Objects, os: seq<StorageObject>) {
    forall o <- os :: o.path in m
  }

  /** What was found lists nothing but what is seen under the prefix, and when the listing is complete, all of it. */
  lemma WalkedAll(root: Tree, prefix: string, found: seq<StorageObject>, f: Found, complete: bool)
    requires WellFormed(root) && Walking(root, multiset(SeenUnder(root, prefix)), [], found, f, complete)
    ensures Within(f.objects, SeenUnder(root, prefix))
    ensures complete ==> HasPaths(f.objects, SeenUnder(root, prefix))
  {
    NoPlaces();
    WithFilesIsWithin(found);
    WithFilesHasAll(found);
    SameElements(found, SeenUnder(root, prefix));
    hide SeenUnder, WithFiles;
  }

  /** A complete listing of a trimmed folder is exactly every object under the prefix, with its size; of any
      other it is not: some object is not listed under its own path. */
  lemma ListsIffTrimmed(root: Tree, prefix: string, m: Objects)
    requires WellFormed(root) && HoldsObjects(Top(root, prefix).tree)
    requires Within(m, SeenUnder(root, prefix)) && HasPaths(m, SeenUnder(root, prefix))
    ensures Lists(m, ObjectsUnder(root, prefix)) <==> Trimmed(Top(root, prefix).tree)
  {
    var top := Top(root, prefix);
    TopIsPlaced(root, prefix);
    if Trimmed(top.tree) {
      TrimmedLists(root, prefix, m);
    } else {
      var o := AnUntrimmedObject(top.prefix, top.tree);
      if Lists(m, ObjectsUnder(root, prefix)) {
        assert o.path in m;
        var p :| p in SeenUnder(root, prefix) && p.path == o.path;
        SeenIsTrimmed(top.prefix, top.tree, |top.tree.entries|, p);
      }
    }
  }

  lemma TrimmedLists(root: Tree, prefix: string, m: Objects)
    requires WellFormed(root) && Trimmed(Top(root, prefix).tree)
    requires Within(m, SeenUnder(root, prefix)) && HasPaths(m, SeenUnder(root, prefix))
    ensures SeenUnder(root, prefix) == ObjectsUnder(root, prefix)
    ensures Lists(m, ObjectsUnder(root, prefix))
  {
    var top := Top(root, prefix);
    TopIsPlaced(root, prefix);
    TrimmedIsSeen(top.prefix, top.tree, |top.tree.entries|, 1);
    assert top.tree.entries[..|top.tree.entries|] == top.tree.entries;
    NamesTellApart(top.tree);
    KeysAreDistinct(top.prefix, top.tree.entries);
    var os := ObjectsUnder(root, prefix);
    hide SeenUnder, ObjectsUnder, WellFormed, Trimmed, Top, ObjectsOf;
    forall o | o in os
      ensures o.path in m && m[o.path] == Some(o.size)
    {
      var p :| p in os && p.path == o.path && m[o.path] == Some(p.size);
      PathTells(os, o, p);
    }
  }

  lemma PathTells(os: seq<StorageObject>, o: StorageObject, p: StorageObject)
    requires DistinctPaths(os) && o in os && p in os && o.path == p.path
    ensures o == p
  {
    var i :| 0 <= i < |os| && os[i] == o;
    var j :| 0 <= j < |os| && os[j] == p;
    assert !(i < j) && !(j < i);
  }

  /** `walk_listing`. On a finite bucket it ends, whatever fails. It lists what it sees and nothing else; a
      complete listing is all of that, and of a trimmed folder exactly every object with its size; and when
      nothing fails it is complete exactly when every folder it comes to keeps within the cap on its pages. */
  method WalkListing(list: Service, ghost root: Tree, prefix: string, size: nat, maxPages: nat) returns (listing: Listing)
    requires WellFormed(root) && Serves(list, root) && size > 0
    ensures Within(listing.objects, SeenUnder(root, prefix))
    ensures listing.complete ==> HasPaths(listing.objects, SeenUnder(root, prefix))
    ensures listing.complete && Trimmed(Top(root, prefix).tree) ==> Lists(listing.objects, ObjectsUnder(root, prefix))
    ensures NeverFails(list) ==> (listing.complete <==> Fits(Top(root, prefix).tree, size, maxPages))
    ensures listing.complete <==> listing.failures == 0
  {
    hide *;
    ghost var top := Top(root, prefix);
    ghost var all := multiset(SeenUnder(root, prefix));
    ghost var places, found := [top], [];
    AtTheTop(root, prefix, size, maxPages);
    TopPrefix(root, prefix);
    var f := Found(map[], [if prefix != "" && prefix[|prefix| - 1] == '/' then prefix else prefix + "/"]);
    var pages, folders, complete, failures, calls: nat := 0, 0, true, 0, 0;
    while f.pending != []
      invariant Walking(root, all, places, found, f, complete)
      invariant complete <==> failures == 0
      invariant NeverFails(list) ==> (complete && PlacesFit(places, size, maxPages) <==> Fits(top.tree, size, maxPages))
      decreases PlacesCost(places, size)
    {
      PendingPlaces(root, all, places, found, f, complete);
      var folder := f.pending[0];
      folders := folders + 1;
      ghost var place := places[0];
      var r, end, made, answered, k := ListFolder(list, root, place, folder, size, maxPages, calls, Found(f.objects, f.pending[1..]));
      StepDown(root, all, places, found, f, complete, k, size);
      FitsDown(places, size, maxPages);
      ghost var noted := place.tree.entries[..k];
      assert k == |place.tree.entries| ==> noted == place.tree.entries;
      pages := pages + answered;
      calls := calls + made;
      if !end.Finished? {
        complete := false;
        failures := failures + 1;
        Incomplete(root, all, places[1..] + SubsIn(folder, place.tree.entries, noted), found + FilesIn(folder, noted), r);
      }
      places := places[1..] + SubsIn(folder, place.tree.entries, noted);
      found := found + FilesIn(folder, noted);
      f := r;
    }
    NoPending(root, all, places, found, f, complete, size, maxPages);
    WalkedAll(root, prefix, found, f, complete);
    if complete && Trimmed(top.tree) {
      TrimmedLists(root, prefix, f.objects);
    }
    listing := Listing(f.objects, pages, folders, complete, failures);
  }

  lemma TopPrefix(root: Tree, prefix: string)
    ensures Top(root, prefix).prefix == if prefix != "" && prefix[|prefix| - 1] == '/' then prefix else prefix + "/"
  {
  }

  lemma PendingPlaces(root: Tree, all: multiset<StorageObject>, places: seq<Place>, found: seq<StorageObject>, f: Found, complete: bool)
    requires Walking(root, all, places, found, f, complete) && f.pending != []
    ensures places != [] && f.pending[0] == places[0].prefix && Placed(root, places[0])
  {
  }

  lemma Incomplete(root: Tree, all: multiset<StorageObject>, places: seq<Place>, found: seq<StorageObject>, f: Found)
    requires exists complete: bool :: Walking(root, all, places, found, f, complete)
    ensures Walking(root, all, places, found, f, false)
  {
  }

  lemma NoPending(root: Tree, all: multiset<StorageObject>, places: seq<Place>, found: seq<StorageObject>, f: Found, complete: bool, size: nat, maxPages: nat)
    requires size > 0 && Walking(root, all, places, found, f, complete) && f.pending == []
    ensures places == [] && PlacesFit(places, size, maxPages)
  {
    PrefixesLength(places);
  }
}
