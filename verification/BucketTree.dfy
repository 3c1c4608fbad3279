/** A bucket as the storage service shows it, a tree of virtual folders, and what the walk of it returns. */
module BucketTree {
  import opened Wrappers
  import opened Text
  import opened Sorting
  import opened BucketWalk

  datatype Tree = Tree(entries: seq<Entry>)

  datatype Entry =
    | File(name: string, size: nat, eTag: Option<string>, etag: Option<string>, lastModified: Option<string>, updatedAt: Option<string>)
    | Sub(name: string, tree: Tree)

  /** Names are single path segments, and no two files or two folders of one folder share a name. */
  ghost predicate WellFormed(t: Tree) {
    && (forall e :: e in t.entries ==> IsSegment(e.name) && (e.Sub? ==> WellFormed(e.tree)))
    && (forall i, j :: 0 <= i < j < |t.entries| ==> t.entries[i].name != t.entries[j].name || t.entries[i].Sub? != t.entries[j].Sub?)
  }

  predicate IsSegment(name: string) {
    name != "" && '/' !in name
  }

  /** No name in the tree has whitespace at an end. */
  predicate Trimmed(t: Tree) {
    forall e <- t.entries :: Strip(e.name) == e.name && (e.Sub? ==> Trimmed(e.tree))
  }

  /** Every folder holds something, as virtual folders do. */
  predicate HoldsObjects(t: Tree) {
    forall e <- t.entries :: e.Sub? ==> e.tree.entries != [] && HoldsObjects(e.tree)
  }

  // --- What the service answers ----------------------------------------------------------

  function RowOf(e: Entry): Row {
    match e
    case File(name, size, eTag, etag, lastModified, updatedAt) =>
      Row(Some(name), Some(Metadata(Some(size), eTag, etag, lastModified)), updatedAt)
    case Sub(name, _) => Row(Some(name), None, None)
  }

  function RowsOf(es: seq<Entry>): seq<Row> {
    seq(|es|, i requires 0 <= i < |es| => RowOf(es[i]))
  }

  /** The position of the first slash, or the length. */
  function Segment(path: string): (k: nat)
    ensures k <= |path| && '/' !in path[..k]
    ensures k < |path| ==> path[k] == '/'
  {
    if path == "" || path[0] == '/' then 0
    else
      var k := Segment(path[1..]);
      assert path[..k + 1] == [path[0]] + path[1..][..k];
      k + 1
  }

  function FindSub(es: seq<Entry>, name: string): (r: Option<Tree>)
    ensures r.Some? ==> exists e :: e in es && e.Sub? && e.name == name && e.tree == r.value
  {
    if es == [] then None
    else if es[0].Sub? && es[0].name == name then Some(es[0].tree)
    else FindSub(es[1..], name)
  }

  /** The folder a slash-terminated path leads to. */
  function Find(t: Tree, path: string): Option<Tree>
    decreases |path|
  {
    if path == "" then Some(t)
    else
      var k := Segment(path);
      if k == |path| then None
      else
        var sub := FindSub(t.entries, path[..k]);
        if sub.None? then None else Find(sub.value, path[k + 1..])
  }

  function Slice<T>(s: seq<T>, offset: nat, limit: nat): seq<T> {
    if offset >= |s| then [] else if offset + limit >= |s| then s[offset..] else s[offset..offset + limit]
  }

  /** The listing endpoint of a bucket that holds `root`. */
  function ListerOf(root: Tree): Lister {
    (calls: nat, prefix: string, limit: nat, offset: nat) =>
      Rows(Slice(RowsAt(root, prefix), offset, limit))
  }

  // --- What the walk should return ---------------------------------------------------------

  function ObjectAt(prefix: string, e: Entry): StorageObject
    requires e.File?
  {
    StorageObject(prefix + e.name, e.size, Either(CleanMarker(e.eTag), CleanMarker(e.etag)),
                  Either(CleanMarker(e.updatedAt), CleanMarker(e.lastModified)))
  }

  /** Every object below a folder, by structure. */
  function ObjectsOf(prefix: string, es: seq<Entry>): seq<StorageObject>
    decreases es
  {
    if es == [] then []
    else
      (match es[0]
       case File(_, _, _, _, _, _) => [ObjectAt(prefix, es[0])]
       case Sub(name, tree) => ObjectsOf(prefix + name + "/", tree.entries))
      + ObjectsOf(prefix, es[1..])
  }

  /** The pages the walk asks for: one for every full page of a folder and one more. */
  function Pages(es: seq<Entry>, size: nat): nat
    requires size > 0
  {
    |es| / size + 1
  }

  function Cost(t: Tree, size: nat): nat
    requires size > 0
    decreases t, 1
  {
    Pages(t.entries, size) + SubCost(t.entries, size)
  }

  function SubCost(es: seq<Entry>, size: nat): nat
    requires size > 0
    decreases es, 0
  {
    if es == [] then 0
    else (match es[0] case File(_, _, _, _, _, _) => 0 case Sub(_, tree) => Cost(tree, size)) + SubCost(es[1..], size)
  }

  // --- What the walk makes of it, which strips every name ----------------------------------------

  /** The folder a stripped name leads to, empty if there is none. */
  function Target(all: seq<Entry>, name: string): Tree {
    if FindSub(all, name).Some? then FindSub(all, name).value else Tree([])
  }

  /** An object under its stripped name. */
  function SeenAt(prefix: string, e: Entry): StorageObject
    requires e.File?
  {
    ObjectAt(prefix, e).(path := prefix + Strip(e.name))
  }

  /** The objects the walk reports of a folder, and of the folders its rows lead to. */
  function SeenObjects(prefix: string, t: Tree): seq<StorageObject>
    decreases t, |t.entries| + 1
  {
    SeenUpTo(prefix, t, |t.entries|)
  }

  function SeenUpTo(prefix: string, t: Tree, n: nat): seq<StorageObject>
    requires n <= |t.entries|
    decreases t, n
  {
    if n == 0 then []
    else
      var e := t.entries[n - 1];
      var name := Strip(e.name);
      SeenUpTo(prefix, t, n - 1)
      + (if name == "" then []
         else if e.File? then [SeenAt(prefix, e)]
         else
           var sub := FindSub(t.entries, name);
           if sub.None? then [] else SeenObjects(prefix + name + "/", sub.value))
  }

  /** The pages the walk asks for. */
  function SeenCost(t: Tree, size: nat): nat
    requires size > 0
    decreases t, |t.entries| + 1
  {
    Pages(t.entries, size) + SeenSubCost(t, |t.entries|, size)
  }

  function SeenSubCost(t: Tree, n: nat, size: nat): nat
    requires size > 0 && n <= |t.entries|
    decreases t, n
  {
    if n == 0 then 0
    else
      var e := t.entries[n - 1];
      SeenSubCost(t, n - 1, size)
      + (if e.File? || Strip(e.name) == "" then 0
         else
           var sub := FindSub(t.entries, Strip(e.name));
           if sub.None? then 1 else SeenCost(sub.value, size))
  }

  // --- Finding folders ----------------------------------------------------------------------

  lemma {:induction false} FindSubUnique(es: seq<Entry>, i: nat)
    requires i < |es| && es[i].Sub?
    requires forall a, b :: 0 <= a < b < |es| ==> es[a].name != es[b].name || es[a].Sub? != es[b].Sub?
    ensures FindSub(es, es[i].name) == Some(es[i].tree)
  {
    if i > 0 {
      assert es[1..][i - 1] == es[i];
      FindSubUnique(es[1..], i - 1);
    }
  }

  lemma {:induction false} SegmentOf(name: string, rest: string)
    requires '/' !in name
    ensures Segment(name + "/" + rest) == |name|
  {
    if name != "" {
      assert (name + "/" + rest)[1..] == name[1..] + "/" + rest;
      SegmentOf(name[1..], rest);
    }
  }

  lemma FindStep(t: Tree, name: string, rest: string)
    requires '/' !in name
    ensures Find(t, name + "/" + rest) ==
            var sub := FindSub(t.entries, name);
            if sub.None? then None else Find(sub.value, rest)
  {
    var path := name + "/" + rest;
    SegmentOf(name, rest);
    assert path[..|name|] == name && path[|name| + 1..] == rest;
  }

  lemma FindHere(t: Tree)
    ensures Find(t, "") == Some(t)
  {
  }

  lemma FindNoSlash(t: Tree, path: string)
    requires path != "" && Find(t, path).Some?
    ensures Segment(path) < |path|
  {
  }

  /** Going down from the folder a path leads to is looking a name up in it. */
  lemma {:induction false} FindBelow(t: Tree, path: string, folder: Tree, name: string)
    requires Find(t, path) == Some(folder) && '/' !in name
    ensures Find(t, path + name + "/") == FindSub(folder.entries, name)
    decreases |path|
  {
    hide Find, FindSub;
    FindHere(t);
    FindStep(folder, name, "");
    assert name + "/" + "" == name + "/";
    if path == "" {
      assert path + name + "/" == name + "/";
      FoundHere(folder, name);
    } else {
      FindNoSlash(t, path);
      var k := Segment(path);
      var rest := path[k + 1..];
      assert path == path[..k] + "/" + rest;
      FindStep(t, path[..k], rest);
      var sub := FindSub(t.entries, path[..k]).value;
      FindBelow(sub, rest, folder, name);
      FindStep(t, path[..k], rest + name + "/");
      assert path + name + "/" == path[..k] + "/" + (rest + name + "/");
    }
  }

  lemma FoundHere(t: Tree, name: string)
    requires '/' !in name
    ensures Find(t, name + "/") == FindSub(t.entries, name)
  {
    FindStep(t, name, "");
    assert name + "/" + "" == name + "/";
    var sub := FindSub(t.entries, name);
    if sub.Some? {
      FindHere(sub.value);
    }
  }

  lemma {:induction false} FindIsWellFormed(t: Tree, path: string)
    requires WellFormed(t) && Find(t, path).Some?
    ensures WellFormed(Find(t, path).value)
    decreases |path|
  {
    if path != "" {
      var k := Segment(path);
      FindIsWellFormed(FindSub(t.entries, path[..k]).value, path[k + 1..]);
    }
  }

  /** The prefixes the walk uses: empty, or ending in a slash. */
  predicate IsPrefix(p: string) {
    p == "" || p[|p| - 1] == '/'
  }

  lemma JoinGood(prefix: string, name: string)
    requires IsPrefix(prefix) && IsSegment(name)
    ensures JoinKey(prefix, name) == prefix + name
    ensures FolderPrefix(prefix + name) == prefix + name + "/"
  {
    assert prefix != "" ==> '/' in prefix;
    assert prefix <= name ==> forall c :: c in prefix ==> c in name;
    assert "" + name == name;
    var full := prefix + name;
    assert full[|full| - 1] == name[|name| - 1] && name[|name| - 1] in name;
  }

  lemma StripIsSegment(name: string)
    requires IsSegment(name) && Strip(name) != ""
    ensures IsSegment(Strip(name))
  {
    var l, r := TrimParts(name, IsSpace);
  }

  lemma SeeEntry(prefix: string, e: Entry)
    requires IsSegment(e.name) && IsPrefix(prefix)
    ensures See(prefix, RowOf(e)) ==
            if Strip(e.name) == "" then Nothing
            else if e.File? then Object(SeenAt(prefix, e)) else Folder(prefix + Strip(e.name) + "/")
  {
    hide Strip, JoinKey, FolderPrefix, CleanMarker;
    if Strip(e.name) != "" {
      StripIsSegment(e.name);
      JoinGood(prefix, Strip(e.name));
    }
  }

  // --- One folder ------------------------------------------------------------------------------

  /** A folder waiting to be listed. */
  datatype Place = Place(prefix: string, tree: Tree)

  function FilesIn(prefix: string, es: seq<Entry>): seq<StorageObject> {
    if es == [] then []
    else (if es[0].File? && Strip(es[0].name) != "" then [SeenAt(prefix, es[0])] else []) + FilesIn(prefix, es[1..])
  }

  /** Where the folder rows among some entries lead, in the folder that has `all`. */
  function SubsIn(prefix: string, all: seq<Entry>, es: seq<Entry>): seq<Place> {
    if es == [] then []
    else
      (if es[0].Sub? && Strip(es[0].name) != "" then [SubPlace(prefix, all, es[0])] else []) + SubsIn(prefix, all, es[1..])
  }

  function SubPlace(prefix: string, all: seq<Entry>, e: Entry): Place {
    Place(prefix + Strip(e.name) + "/", Target(all, Strip(e.name)))
  }

  lemma FirstEntry(prefix: string, all: seq<Entry>, es: seq<Entry>)
    ensures es == [] ==> FilesIn(prefix, es) == [] && SubsIn(prefix, all, es) == []
    ensures es != [] && Strip(es[0].name) == "" ==>
              FilesIn(prefix, es) == FilesIn(prefix, es[1..]) && SubsIn(prefix, all, es) == SubsIn(prefix, all, es[1..])
    ensures es != [] && Strip(es[0].name) != "" && es[0].File? ==>
              FilesIn(prefix, es) == [SeenAt(prefix, es[0])] + FilesIn(prefix, es[1..]) && SubsIn(prefix, all, es) == SubsIn(prefix, all, es[1..])
    ensures es != [] && Strip(es[0].name) != "" && es[0].Sub? ==>
              FilesIn(prefix, es) == FilesIn(prefix, es[1..])
              && SubsIn(prefix, all, es) == [SubPlace(prefix, all, es[0])] + SubsIn(prefix, all, es[1..])
  {
    hide SeenAt, SubPlace, Strip;
  }

  function Prefixes(places: seq<Place>): seq<string> {
    seq(|places|, i requires 0 <= i < |places| => places[i].prefix)
  }

  lemma {:induction false} FilesConcat(prefix: string, a: seq<Entry>, b: seq<Entry>)
    ensures FilesIn(prefix, a + b) == FilesIn(prefix, a) + FilesIn(prefix, b)
  {
    hide SeenAt, Strip;
    if a == [] {
      assert a + b == b;
    } else {
      assert (a + b)[0] == a[0] && (a + b)[1..] == a[1..] + b;
      FilesConcat(prefix, a[1..], b);
    }
  }

  lemma {:induction false} SubsConcat(prefix: string, all: seq<Entry>, a: seq<Entry>, b: seq<Entry>)
    ensures SubsIn(prefix, all, a + b) == SubsIn(prefix, all, a) + SubsIn(prefix, all, b)
  {
    hide SubPlace, Strip;
    if a == [] {
      assert a + b == b;
    } else {
      assert (a + b)[0] == a[0] && (a + b)[1..] == a[1..] + b;
      SubsConcat(prefix, all, a[1..], b);
    }
  }

  lemma RowsSplit(es: seq<Entry>)
    ensures if es == [] then RowsOf(es) == [] else RowsOf(es)[0] == RowOf(es[0]) && RowsOf(es)[1..] == RowsOf(es[1..]) && RowsOf(es) != []
  {
  }

  lemma {:induction false} TakeEntries(prefix: string, all: seq<Entry>, es: seq<Entry>, st: WalkState)
    requires IsPrefix(prefix) && forall e :: e in es ==> IsSegment(e.name)
    ensures Take(prefix, RowsOf(es), st)
            == Ok(WalkState(st.pending + Prefixes(SubsIn(prefix, all, es)), st.objects + FilesIn(prefix, es), st.pages))
  {
    hide See, SeenAt, SubPlace, IsSegment, Prefixes, RowsOf, RowOf, FilesIn, SubsIn, Strip;
    FirstEntry(prefix, all, es);
    PrefixesConcat([], []);
    RowsSplit(es);
    if es == [] {
      assert st.pending + [] == st.pending && st.objects + [] == st.objects;
    } else {
      var e := es[0];
      SeeEntry(prefix, e);
      if Strip(e.name) == "" {
        TakeEntries(prefix, all, es[1..], st);
      } else if e.File? {
        var o := SeenAt(prefix, e);
        TakeEntries(prefix, all, es[1..], st.(objects := st.objects + [o]));
        assert st.objects + [o] + FilesIn(prefix, es[1..]) == st.objects + FilesIn(prefix, es);
      } else {
        var place := SubPlace(prefix, all, e);
        SubPrefix(prefix, all, e);
        TakeEntries(prefix, all, es[1..], st.(pending := st.pending + [place.prefix]));
        PrefixesConcat([place], SubsIn(prefix, all, es[1..]));
        assert st.pending + [place.prefix] + Prefixes(SubsIn(prefix, all, es[1..])) == st.pending + Prefixes(SubsIn(prefix, all, es));
      }
    }
  }

  lemma SubPrefix(prefix: string, all: seq<Entry>, e: Entry)
    ensures SubPlace(prefix, all, e).prefix == prefix + Strip(e.name) + "/"
  {
  }

  lemma ProductIsNonNegative(a: int, b: int)
    requires a >= 0 && b >= 0
    ensures a * b >= 0
  {
  }

  lemma DivisionIsUnique(n: int, d: int, q: int, r: int)
    requires d > 0 && n == q * d + r && 0 <= r < d
    ensures n / d == q
  {
    var q' := n / d;
    var k := q' - q;
    assert q' * d == q * d + k * d;
    assert n == q' * d + n % d;
    assert (k - 1) * d == k * d - d;
    assert (-k - 1) * d == -(k * d) - d;
    if k >= 1 {
      ProductIsNonNegative(k - 1, d);
    } else if k <= -1 {
      ProductIsNonNegative(-k - 1, d);
    }
  }

  lemma OnePageMore(n: nat, size: nat)
    requires 0 < size <= n
    ensures n / size == (n - size) / size + 1
  {
    var q := (n - size) / size;
    assert n - size == q * size + (n - size) % size;
    assert (q + 1) * size == q * size + size;
    DivisionIsUnique(n, size, q + 1, (n - size) % size);
  }

  lemma SliceRows(es: seq<Entry>, offset: nat, size: nat)
    requires offset <= |es| && size > 0
    ensures var some := if |es| - offset < size then es[offset..] else es[offset..offset + size];
            Slice(RowsOf(es), offset, size) == RowsOf(some)
  {
  }

  /** The state after some entries of a folder were read, over some pages. */
  function Noted(st: WalkState, place: Place, es: seq<Entry>, pages: nat): (r: WalkState)
    ensures r.pages == st.pages + pages
  {
    WalkState(st.pending + Prefixes(SubsIn(place.prefix, place.tree.entries, es)), st.objects + FilesIn(place.prefix, es), st.pages + pages)
  }

  /** What is left of a folder is read whole, if its pages still fit. */
  ghost predicate ReadsOn(root: Tree, size: nat, place: Place, offset: nat, st: WalkState)
    requires size > 0 && st.pages <= MAX_LIST_PAGES && offset <= |place.tree.entries|
  {
    var rest := place.tree.entries[offset..];
    OneFolder(ListerOf(root), size, place.prefix, offset, st) ==
    if st.pages + Pages(rest, size) > MAX_LIST_PAGES then Err(TooManyPages)
    else Ok(Noted(st, place, rest, Pages(rest, size)))
  }

  lemma ReadsLast(root: Tree, size: nat, place: Place, offset: nat, st: WalkState)
    requires size > 0 && st.pages <= MAX_LIST_PAGES && Placed(root, place) && offset <= |place.tree.entries|
    requires st.pages == MAX_LIST_PAGES || |place.tree.entries| - offset < size
    ensures ReadsOn(root, size, place, offset, st)
  {
    if st.pages < MAX_LIST_PAGES {
      PageOf(root, size, place, offset, place.tree.entries[offset..], st);
    }
    LastOrNot(place.tree.entries[offset..], size);
    hide Noted, Pages, Placed;
  }

  lemma ReadsNext(root: Tree, size: nat, place: Place, offset: nat, st: WalkState)
    requires size > 0 && st.pages < MAX_LIST_PAGES && Placed(root, place) && offset + size <= |place.tree.entries|
    requires ReadsOn(root, size, place, offset + size, Noted(st, place, place.tree.entries[offset..offset + size], 1))
    ensures ReadsOn(root, size, place, offset, st)
  {
    hide Placed, OneFolder, Noted, Pages;
    var es := place.tree.entries;
    var page, more := es[offset..offset + size], es[offset + size..];
    PageOf(root, size, place, offset, page, st);
    SplitPage(es, offset, size);
    LastOrNot(es[offset..], size);
    NotedInTwo(place, page, more, st, Pages(more, size));
  }

  /** Paging through one folder of the bucket from `offset`. */
  lemma {:induction false} WalkOneFolder(root: Tree, size: nat, place: Place, offset: nat, st: WalkState)
    requires size > 0 && st.pages <= MAX_LIST_PAGES && Placed(root, place) && offset <= |place.tree.entries|
    ensures ReadsOn(root, size, place, offset, st)
    decreases |place.tree.entries| - offset
  {
    hide *;
    if st.pages == MAX_LIST_PAGES || |place.tree.entries| - offset < size {
      ReadsLast(root, size, place, offset, st);
    } else {
      WalkOneFolder(root, size, place, offset + size, Noted(st, place, place.tree.entries[offset..offset + size], 1));
      ReadsNext(root, size, place, offset, st);
    }
  }

  lemma NotedInTwo(place: Place, page: seq<Entry>, more: seq<Entry>, st: WalkState, pages: nat)
    ensures Noted(Noted(st, place, page, 1), place, more, pages) == Noted(st, place, page + more, pages + 1)
  {
    var prefix, all := place.prefix, place.tree.entries;
    FilesConcat(prefix, page, more);
    SubsConcat(prefix, all, page, more);
    PrefixesConcat(SubsIn(prefix, all, page), SubsIn(prefix, all, more));
    hide FilesIn, SubsIn, Prefixes;
    Regroup(st.pending, Prefixes(SubsIn(prefix, all, page)), Prefixes(SubsIn(prefix, all, more)));
    Regroup(st.objects, FilesIn(prefix, page), FilesIn(prefix, more));
  }

  lemma SplitPage<T>(s: seq<T>, offset: nat, size: nat)
    requires offset + size <= |s|
    ensures s[offset..] == s[offset..offset + size] + s[offset + size..]
    ensures s[offset..][size..] == s[offset + size..]
  {
  }

  lemma LastOrNot(rest: seq<Entry>, size: nat)
    requires size > 0
    ensures |rest| < size ==> Pages(rest, size) == 1
    ensures |rest| >= size ==> Pages(rest, size) == Pages(rest[size..], size) + 1
    ensures Pages(rest, size) >= 1
  {
    if |rest| >= size {
      OnePageMore(|rest|, size);
    }
  }

  /** One page: the rows it holds, and whether it is the last. */
  lemma PageOf(root: Tree, size: nat, place: Place, offset: nat, some: seq<Entry>, st: WalkState)
    requires size > 0 && st.pages < MAX_LIST_PAGES && Placed(root, place) && offset <= |place.tree.entries|
    requires some == if |place.tree.entries| - offset < size then place.tree.entries[offset..] else place.tree.entries[offset..offset + size]
    ensures OneFolder(ListerOf(root), size, place.prefix, offset, st) ==
            if |some| < size then Ok(Noted(st, place, some, 1))
            else OneFolder(ListerOf(root), size, place.prefix, offset + size, Noted(st, place, some, 1))
  {
    hide Take, FilesIn, SubsIn, WellFormed, Find, RowsOf, Slice, Prefixes;
    GoodNames(place.tree);
    SliceRows(place.tree.entries, offset, size);
    RowsLength(some);
    RowsHere(root, place);
    TakeEntries(place.prefix, place.tree.entries, some, st.(pages := st.pages + 1));
  }

  lemma RowsLength(es: seq<Entry>)
    ensures |RowsOf(es)| == |es|
  {
  }

  lemma PrefixesConcat(a: seq<Place>, b: seq<Place>)
    ensures a == [] ==> Prefixes(a) == []
    ensures |a| == 1 ==> Prefixes(a) == [a[0].prefix]
    ensures Prefixes(a + b) == Prefixes(a) + Prefixes(b)
  {
  }

  lemma GoodNames(t: Tree)
    requires WellFormed(t)
    ensures forall e :: e in t.entries ==> IsSegment(e.name)
  {
  }

  /** A pending folder is one of the bucket's, or one that is not there and lists as empty. */
  ghost predicate Placed(root: Tree, place: Place) {
    && IsPrefix(place.prefix) && WellFormed(place.tree)
    && (Find(root, place.prefix) == Some(place.tree) || (Find(root, place.prefix).None? && place.tree == Tree([])))
  }

  function RowsAt(root: Tree, prefix: string): seq<Row> {
    var folder := Find(root, prefix);
    if folder.None? then [] else RowsOf(folder.value.entries)
  }

  lemma RowsHere(root: Tree, place: Place)
    requires Placed(root, place)
    ensures RowsAt(root, place.prefix) == RowsOf(place.tree.entries)
  {
  }

  // --- The whole bucket ----------------------------------------------------------------------------

  ghost predicate AllPlaced(root: Tree, places: seq<Place>) {
    forall p :: p in places ==> Placed(root, p)
  }

  lemma {:induction false} SubsArePlaced(root: Tree, place: Place, n: nat)
    requires WellFormed(root) && Placed(root, place) && n <= |place.tree.entries|
    ensures AllPlaced(root, SubsIn(place.prefix, place.tree.entries, place.tree.entries[n..]))
    decreases |place.tree.entries| - n
  {
    hide Find, FindSub, IsSegment, Strip, WellFormed, SubsIn, SubPlace;
    var es := place.tree.entries;
    FirstEntry(place.prefix, es, es[n..]);
    if n < |es| {
      assert es[n..][0] == es[n] && es[n..][1..] == es[n + 1..] && es[n] in es;
      SubsArePlaced(root, place, n + 1);
      if es[n].Sub? && Strip(es[n].name) != "" {
        SubIsPlaced(root, place, es[n]);
      }
    }
  }

  lemma SubIsPlaced(root: Tree, place: Place, e: Entry)
    requires WellFormed(root) && Placed(root, place) && e in place.tree.entries && Strip(e.name) != ""
    ensures Placed(root, SubPlace(place.prefix, place.tree.entries, e))
  {
    hide Find, FindSub, Strip;
    GoodNames(place.tree);
    StripIsSegment(e.name);
    FindBelow(root, place.prefix, place.tree, Strip(e.name));
    var sub := SubPlace(place.prefix, place.tree.entries, e);
    if Find(root, sub.prefix).Some? {
      FindIsWellFormed(root, sub.prefix);
    }
  }

  function PlacesCost(places: seq<Place>, size: nat): nat
    requires size > 0
  {
    if places == [] then 0 else PlacesCost(places[..|places| - 1], size) + SeenCost(places[|places| - 1].tree, size)
  }

  function ObjectsAt(places: seq<Place>): multiset<StorageObject> {
    if places == [] then multiset{}
    else ObjectsAt(places[..|places| - 1]) + multiset(SeenObjects(places[|places| - 1].prefix, places[|places| - 1].tree))
  }

  lemma {:induction false} PlacesConcat(a: seq<Place>, b: seq<Place>, size: nat)
    requires size > 0
    ensures PlacesCost(a + b, size) == PlacesCost(a, size) + PlacesCost(b, size)
    ensures ObjectsAt(a + b) == ObjectsAt(a) + ObjectsAt(b)
  {
    hide SeenCost, SeenObjects;
    if b == [] {
      assert a + b == a;
    } else {
      var n := |b| - 1;
      assert (a + b)[..|a + b| - 1] == a + b[..n] && (a + b)[|a + b| - 1] == b[n];
      PlacesConcat(a, b[..n], size);
    }
  }

  lemma OnePlace(place: Place, size: nat)
    requires size > 0
    ensures PlacesCost([place], size) == SeenCost(place.tree, size)
    ensures ObjectsAt([place]) == multiset(SeenObjects(place.prefix, place.tree))
  {
    hide SeenCost, SeenObjects;
    assert [place][..0] == [];
  }

  lemma NoPlaces()
    ensures ObjectsAt([]) == multiset{}
  {
  }

  lemma OneEntry(prefix: string, all: seq<Entry>, e: Entry)
    ensures FilesIn(prefix, [e]) == (if e.File? && Strip(e.name) != "" then [SeenAt(prefix, e)] else [])
    ensures SubsIn(prefix, all, [e]) == (if e.Sub? && Strip(e.name) != "" then [SubPlace(prefix, all, e)] else [])
  {
    hide SeenAt, SubPlace, Strip;
    assert [e][1..] == [];
  }

  /** A folder's objects are its files and those of the places its rows lead to. */
  lemma {:induction false} FolderObjects(prefix: string, t: Tree, n: nat)
    requires n <= |t.entries|
    ensures multiset(SeenUpTo(prefix, t, n)) == multiset(FilesIn(prefix, t.entries[..n])) + ObjectsAt(SubsIn(prefix, t.entries, t.entries[..n]))
    decreases n
  {
    hide *;
    if n == 0 {
      NothingSeen(prefix, t, 1);
    } else {
      var e := t.entries[n - 1];
      FolderObjects(prefix, t, n - 1);
      assert t.entries[..n] == t.entries[..n - 1] + [e];
      EntryObjects(prefix, t, n);
      FilesConcat(prefix, t.entries[..n - 1], [e]);
      SubsConcat(prefix, t.entries, t.entries[..n - 1], [e]);
      PlacesConcat(SubsIn(prefix, t.entries, t.entries[..n - 1]), SubsIn(prefix, t.entries, [e]), 1);
      MultisetOfBoth(FilesIn(prefix, t.entries[..n - 1]), FilesIn(prefix, [e]));
    }
  }

  lemma MultisetOfBoth<T>(a: seq<T>, b: seq<T>)
    ensures multiset(a + b) == multiset(a) + multiset(b)
  {
  }

  lemma NothingSeen(prefix: string, t: Tree, size: nat)
    requires size > 0
    ensures SeenUpTo(prefix, t, 0) == [] && SeenSubCost(t, 0, size) == 0
    ensures FilesIn(prefix, t.entries[..0]) == []
    ensures ObjectsAt(SubsIn(prefix, t.entries, t.entries[..0])) == multiset{} && PlacesCost(SubsIn(prefix, t.entries, t.entries[..0]), size) == 0
  {
    assert t.entries[..0] == [];
  }

  lemma EntryObjects(prefix: string, t: Tree, n: nat)
    requires 0 < n <= |t.entries|
    ensures multiset(SeenUpTo(prefix, t, n))
            == multiset(SeenUpTo(prefix, t, n - 1)) + (multiset(FilesIn(prefix, [t.entries[n - 1]])) + ObjectsAt(SubsIn(prefix, t.entries, [t.entries[n - 1]])))
  {
    var e := t.entries[n - 1];
    NoPlaces();
    OneEntry(prefix, t.entries, e);
    if e.Sub? && Strip(e.name) != "" {
      OnePlace(SubPlace(prefix, t.entries, e), 1);
      NothingThere(prefix + Strip(e.name) + "/", 1);
    }
    hide FilesIn, SubsIn, ObjectsAt, SeenAt, Strip, SeenObjects, FindSub;
  }

  lemma NothingThere(prefix: string, size: nat)
    requires size > 0
    ensures SeenObjects(prefix, Tree([])) == [] && SeenCost(Tree([]), size) == 1
  {
  }

  lemma {:induction false} FolderCost(prefix: string, t: Tree, n: nat, size: nat)
    requires size > 0 && n <= |t.entries|
    ensures SeenSubCost(t, n, size) == PlacesCost(SubsIn(prefix, t.entries, t.entries[..n]), size)
    decreases n
  {
    hide *;
    if n == 0 {
      NothingSeen(prefix, t, size);
    } else {
      var e := t.entries[n - 1];
      FolderCost(prefix, t, n - 1, size);
      assert t.entries[..n] == t.entries[..n - 1] + [e];
      EntryCost(prefix, t, n, size);
      SubsConcat(prefix, t.entries, t.entries[..n - 1], [e]);
      PlacesConcat(SubsIn(prefix, t.entries, t.entries[..n - 1]), SubsIn(prefix, t.entries, [e]), size);
    }
  }

  lemma EntryCost(prefix: string, t: Tree, n: nat, size: nat)
    requires size > 0 && 0 < n <= |t.entries|
    ensures SeenSubCost(t, n, size) == SeenSubCost(t, n - 1, size) + PlacesCost(SubsIn(prefix, t.entries, [t.entries[n - 1]]), size)
  {
    var e := t.entries[n - 1];
    OneEntry(prefix, t.entries, e);
    if e.Sub? && Strip(e.name) != "" {
      OnePlace(SubPlace(prefix, t.entries, e), size);
      NothingThere("", size);
    }
    hide SubsIn, Strip, SeenCost, FindSub;
  }

  lemma {:induction false} WalkPlaces(root: Tree, size: nat, places: seq<Place>, st: WalkState)
    requires size > 0 && st.pages <= MAX_LIST_PAGES && WellFormed(root)
    requires AllPlaced(root, places) && st.pending == Prefixes(places)
    ensures var r := AllFolders(ListerOf(root), size, st);
            if st.pages + PlacesCost(places, size) > MAX_LIST_PAGES then r == Err(TooManyPages)
            else r.Ok? && multiset(r.value.objects) == multiset(st.objects) + ObjectsAt(places)
    decreases MAX_LIST_PAGES - st.pages
  {
    hide OneFolder, WellFormed, Find, FilesIn, SubsIn, SeenUpTo, Prefixes, Pages, SeenSubCost;
    PrefixesLength(places);
    if places != [] {
      var n := |places| - 1;
      var place := places[n];
      var es := place.tree.entries;
      WalkOneFolder(root, size, place, 0, st.(pending := st.pending[..n]));
      assert es[0..] == es;
      assert es[..|es|] == es;
      FolderObjects(place.prefix, place.tree, |es|);
      FolderCost(place.prefix, place.tree, |es|, size);
      SubsArePlaced(root, place, 0);
      var paged := st.pages + Pages(es, size);
      assert PlacesCost(places, size) == PlacesCost(places[..n], size) + Pages(es, size) + PlacesCost(SubsIn(place.prefix, es, es), size);
      if paged <= MAX_LIST_PAGES {
        var next := places[..n] + SubsIn(place.prefix, es, es);
        PrefixesConcat(places[..n], SubsIn(place.prefix, es, es));
        PlacesConcat(places[..n], SubsIn(place.prefix, es, es), size);
        PagesPositive(es, size);
        WalkPlaces(root, size, next, WalkState(Prefixes(next), st.objects + FilesIn(place.prefix, es), paged));
      }
    }
  }

  lemma PagesPositive(es: seq<Entry>, size: nat)
    requires size > 0
    ensures Pages(es, size) >= 1
  {
  }

  lemma PrefixesLength(places: seq<Place>)
    ensures |Prefixes(places)| == |places|
    ensures places != [] ==> Prefixes(places)[|places| - 1] == places[|places| - 1].prefix
    ensures places != [] ==> Prefixes(places)[..|places| - 1] == Prefixes(places[..|places| - 1])
  {
  }

  lemma ByPathOrders()
    ensures TotalPreorder(ByPath())
  {
    forall a: StorageObject, b: StorageObject
      ensures ByPath()(a, b) || ByPath()(b, a)
    {
      LeqTotal(a.path, b.path);
    }
    forall a: StorageObject, b: StorageObject, c: StorageObject | ByPath()(a, b) && ByPath()(b, c)
      ensures ByPath()(a, c)
    {
      LeqTransitive(a.path, b.path, c.path);
    }
  }

  /** What the walk of any bucket returns: the objects it sees, sorted by key, if and only if the pages it asks
      for add up to no more than `MAX_LIST_PAGES`; otherwise it says so. */
  lemma WalkReturnsWhatItSees(root: Tree, size: nat)
    requires WellFormed(root) && size > 0
    ensures var r := Walked(ListerOf(root), size);
            && (r.Ok? <==> SeenCost(root, size) <= MAX_LIST_PAGES)
            && (r.Ok? ==> multiset(r.value) == multiset(SeenObjects("", root)) && Sorted(r.value, ByPath()))
            && (r.Err? ==> r.error == TooManyPages)
  {
    var place := Place("", root);
    assert Prefixes([place]) == [""];
    FindHere(root);
    OnePlace(place, size);
    hide SeenCost, SeenObjects;
    WalkPlaces(root, size, [place], START);
    var r := AllFolders(ListerOf(root), size, START);
    if r.Ok? {
      SortPermutes(r.value.objects, ByPath());
      ByPathOrders();
      SortSorts(r.value.objects, ByPath());
    }
  }

  // --- Trimmed buckets ----------------------------------------------------------------------------------

  lemma {:induction false} ObjectsConcat(prefix: string, a: seq<Entry>, b: seq<Entry>)
    ensures ObjectsOf(prefix, a + b) == ObjectsOf(prefix, a) + ObjectsOf(prefix, b)
  {
    hide ObjectAt;
    if a == [] {
      assert a + b == b;
    } else {
      assert (a + b)[0] == a[0] && (a + b)[1..] == a[1..] + b;
      ObjectsConcat(prefix, a[1..], b);
    }
  }

  lemma {:induction false} SubCostConcat(a: seq<Entry>, b: seq<Entry>, size: nat)
    requires size > 0
    ensures SubCost(a + b, size) == SubCost(a, size) + SubCost(b, size)
  {
    hide Cost;
    if a == [] {
      assert a + b == b;
    } else {
      assert (a + b)[0] == a[0] && (a + b)[1..] == a[1..] + b;
      SubCostConcat(a[1..], b, size);
    }
  }

  /** Of a trimmed bucket the walk sees what is there, at the cost of its folders. */
  lemma {:induction false} TrimmedIsSeen(prefix: string, t: Tree, n: nat, size: nat)
    requires WellFormed(t) && Trimmed(t) && n <= |t.entries| && size > 0
    ensures SeenUpTo(prefix, t, n) == ObjectsOf(prefix, t.entries[..n])
    ensures SeenSubCost(t, n, size) == SubCost(t.entries[..n], size)
    decreases t, n
  {
    hide *;
    if n == 0 {
      NoneSeen(prefix, t, size);
    } else {
      var e := t.entries[n - 1];
      TrimmedEntry(t, n - 1);
      TrimmedIsSeen(prefix, t, n - 1, size);
      if e.Sub? {
        TrimmedIsSeen(prefix + e.name + "/", e.tree, |e.tree.entries|, size);
        AllOfThem(prefix + e.name + "/", e.tree, size);
      }
      EntryIsSeen(prefix, t, n, size);
      NextObjects(prefix, t.entries, n, size);
    }
  }

  lemma NoneSeen(prefix: string, t: Tree, size: nat)
    requires size > 0
    ensures SeenUpTo(prefix, t, 0) == ObjectsOf(prefix, t.entries[..0]) && SeenSubCost(t, 0, size) == SubCost(t.entries[..0], size)
  {
    assert t.entries[..0] == [];
  }

  lemma AllOfThem(prefix: string, t: Tree, size: nat)
    requires size > 0
    ensures t.entries[..|t.entries|] == t.entries
    ensures SeenObjects(prefix, t) == SeenUpTo(prefix, t, |t.entries|)
    ensures SeenCost(t, size) == Pages(t.entries, size) + SeenSubCost(t, |t.entries|, size)
    ensures Cost(t, size) == Pages(t.entries, size) + SubCost(t.entries, size)
  {
  }

  lemma NextObjects(prefix: string, es: seq<Entry>, n: nat, size: nat)
    requires 0 < n <= |es| && size > 0
    ensures ObjectsOf(prefix, es[..n]) == ObjectsOf(prefix, es[..n - 1]) + ObjectsOf(prefix, [es[n - 1]])
    ensures SubCost(es[..n], size) == SubCost(es[..n - 1], size) + SubCost([es[n - 1]], size)
  {
    hide *;
    assert es[..n] == es[..n - 1] + [es[n - 1]];
    ObjectsConcat(prefix, es[..n - 1], [es[n - 1]]);
    SubCostConcat(es[..n - 1], [es[n - 1]], size);
  }

  lemma TrimmedEntry(t: Tree, i: nat)
    requires WellFormed(t) && Trimmed(t) && i < |t.entries|
    ensures Strip(t.entries[i].name) == t.entries[i].name != ""
    ensures t.entries[i].Sub? ==>
              WellFormed(t.entries[i].tree) && Trimmed(t.entries[i].tree)
              && FindSub(t.entries, t.entries[i].name) == Some(t.entries[i].tree)
  {
    assert t.entries[i] in t.entries;
    if t.entries[i].Sub? {
      FindSubUnique(t.entries, i);
    }
  }

  lemma EntryIsSeen(prefix: string, t: Tree, n: nat, size: nat)
    requires 0 < n <= |t.entries| && size > 0
    requires var e := t.entries[n - 1];
             && Strip(e.name) == e.name != ""
             && (e.Sub? ==> FindSub(t.entries, e.name) == Some(e.tree)
                            && SeenObjects(prefix + e.name + "/", e.tree) == ObjectsOf(prefix + e.name + "/", e.tree.entries)
                            && SeenCost(e.tree, size) == Cost(e.tree, size))
    ensures SeenUpTo(prefix, t, n) == SeenUpTo(prefix, t, n - 1) + ObjectsOf(prefix, [t.entries[n - 1]])
    ensures SeenSubCost(t, n, size) == SeenSubCost(t, n - 1, size) + SubCost([t.entries[n - 1]], size)
  {
    var e := t.entries[n - 1];
    hide Strip, SeenObjects, SeenCost, Cost, FindSub, CleanMarker;
    assert [e][1..] == [];
    assert ObjectsOf(prefix, [e][1..]) == [] && SubCost([e][1..], size) == 0;
  }

  /** A bucket without whitespace at the ends of names comes back whole, exactly once and sorted by key, if
      and only if the pages its folders take add up to no more than `MAX_LIST_PAGES`. */
  lemma WalkReturnsEverythingIffItFits(root: Tree, size: nat)
    requires WellFormed(root) && Trimmed(root) && size > 0
    ensures var r := Walked(ListerOf(root), size);
            && (r.Ok? <==> Cost(root, size) <= MAX_LIST_PAGES)
            && (r.Ok? ==> multiset(r.value) == multiset(ObjectsOf("", root.entries)) && Sorted(r.value, ByPath()))
            && (r.Err? ==> r.error == TooManyPages)
  {
    WalkReturnsWhatItSees(root, size);
    TrimmedIsSeen("", root, |root.entries|, size);
    assert root.entries[..|root.entries|] == root.entries;
    hide Walked, WellFormed, Trimmed;
  }

  // --- Buckets that are not -------------------------------------------------------------------------------

  /** No segment of the path has whitespace at an end. */
  predicate TrimmedPath(path: string)
    decreases |path|
  {
    var k := Segment(path);
    Strip(path[..k]) == path[..k] && (k < |path| ==> TrimmedPath(path[k + 1..]))
  }

  lemma TrimmedName(name: string)
    requires '/' !in name
    ensures TrimmedPath(name) <==> Strip(name) == name
  {
    NoSlashInside(name);
    assert name[..|name|] == name;
  }

  lemma TrimmedBelow(name: string, rest: string)
    requires '/' !in name
    ensures TrimmedPath(name + "/" + rest) <==> Strip(name) == name && TrimmedPath(rest)
  {
    var path := name + "/" + rest;
    SegmentOf(name, rest);
    assert path[..|name|] == name && path[|name| + 1..] == rest;
  }

  lemma StripTwice(name: string)
    ensures Strip(Strip(name)) == Strip(name)
  {
    var l, r := TrimParts(name, IsSpace);
    TrimmedStays(Strip(name), IsSpace);
  }

  /** A path below a folder, seen from the folder above. */
  lemma SeenFromAbove(prefix: string, name: string, path: string)
    requires '/' !in name && prefix + name + "/" <= path
    ensures prefix <= path
    ensures TrimmedPath(path[|prefix|..]) <==> Strip(name) == name && TrimmedPath(path[|prefix + name + "/"|..])
  {
    var rest := path[|prefix + name + "/"|..];
    TrimmedBelow(name, rest);
    hide *;
    assert path == prefix + name + "/" + rest;
    assert path[|prefix|..] == name + "/" + rest;
  }

  lemma SeenHere(prefix: string, name: string)
    requires '/' !in name
    ensures prefix <= prefix + name && (TrimmedPath((prefix + name)[|prefix|..]) <==> Strip(name) == name)
  {
    TrimmedName(name);
    hide *;
    assert (prefix + name)[|prefix|..] == name;
  }

  /** Whatever the walk reports has a trimmed path. */
  lemma {:induction false} SeenIsTrimmed(prefix: string, t: Tree, n: nat, o: StorageObject)
    requires WellFormed(t) && n <= |t.entries| && o in SeenUpTo(prefix, t, n)
    ensures prefix <= o.path && TrimmedPath(o.path[|prefix|..])
    decreases t, n
  {
    hide TrimmedPath, CleanMarker, Strip, FindSub, WellFormed;
    GoodNames(t);
    assert 0 < n;
    var e := t.entries[n - 1];
    var name := Strip(e.name);
    if o in SeenUpTo(prefix, t, n - 1) {
      SeenIsTrimmed(prefix, t, n - 1, o);
    } else {
      assert e in t.entries;
      StripIsSegment(e.name);
      StripTwice(e.name);
      if e.File? {
        SeenHere(prefix, name);
      } else {
        var sub := FindSub(t.entries, name).value;
        SubIsWellFormed(t, name);
        var below := prefix + name + "/";
        SeenIsTrimmed(below, sub, |sub.entries|, o);
        SeenFromAbove(prefix, name, o.path);
      }
    }
  }

  lemma SubIsWellFormed(t: Tree, name: string)
    requires WellFormed(t) && FindSub(t.entries, name).Some?
    ensures WellFormed(FindSub(t.entries, name).value)
  {
  }

  lemma {:induction false} EntryObjectsAreIn(prefix: string, es: seq<Entry>, i: nat, o: StorageObject)
    requires i < |es| && o in ObjectsOfEntry(prefix, es[i])
    ensures o in ObjectsOf(prefix, es)
  {
    hide ObjectAt;
    if i > 0 {
      assert es[1..][i - 1] == es[i];
      EntryObjectsAreIn(prefix, es[1..], i - 1, o);
    }
  }

  /** A folder that holds something holds an object. */
  lemma {:induction false} AnObjectIn(prefix: string, t: Tree) returns (o: StorageObject)
    requires t.entries != [] && HoldsObjects(t)
    ensures o in ObjectsOf(prefix, t.entries)
    decreases t
  {
    var e := t.entries[0];
    assert e in t.entries;
    if e.File? {
      o := ObjectAt(prefix, e);
    } else {
      o := AnObjectIn(prefix + e.name + "/", e.tree);
    }
    EntryObjectsAreIn(prefix, t.entries, 0, o);
  }

  /** A bucket that is not trimmed holds an object whose path is not. */
  lemma {:induction false} AnUntrimmedObject(prefix: string, t: Tree) returns (o: StorageObject)
    requires WellFormed(t) && HoldsObjects(t) && !Trimmed(t)
    ensures o in ObjectsOf(prefix, t.entries) && prefix <= o.path && !TrimmedPath(o.path[|prefix|..])
    decreases t
  {
    var e :| e in t.entries && !(Strip(e.name) == e.name && (e.Sub? ==> Trimmed(e.tree)));
    var i :| 0 <= i < |t.entries| && t.entries[i] == e;
    assert IsSegment(e.name) && (e.Sub? ==> WellFormed(e.tree) && HoldsObjects(e.tree) && e.tree.entries != []);
    hide TrimmedPath, CleanMarker, Strip, WellFormed, HoldsObjects, Trimmed;
    if e.File? {
      o := ObjectAt(prefix, e);
      SeenHere(prefix, e.name);
    } else {
      var below := prefix + e.name + "/";
      if Strip(e.name) == e.name {
        o := AnUntrimmedObject(below, e.tree);
      } else {
        o := AnObjectIn(below, e.tree);
        ObjectsAreBelow(below, e.tree.entries, o);
      }
      SeenFromAbove(prefix, e.name, o.path);
    }
    EntryObjectsAreIn(prefix, t.entries, i, o);
  }

  // --- What is seen, read off the paths of the objects -----------------------------------------------------

  /** The path under which the walk sees an object, if it does: every directory must be trimmed, and the name
      itself is stripped. */
  function SeenName(path: string): Option<string>
    decreases |path|
  {
    var k := Segment(path);
    if k == |path| then (if Strip(path) == "" then None else Some(Strip(path)))
    else if Strip(path[..k]) != path[..k] then None
    else
      var rest := SeenName(path[k + 1..]);
      if rest.None? then None else Some(path[..k] + "/" + rest.value)
  }

  lemma SeenNameOfFile(name: string)
    requires '/' !in name
    ensures SeenName(name) == if Strip(name) == "" then None else Some(Strip(name))
  {
    NoSlashInside(name);
  }

  lemma SeenNameBelow(name: string, rest: string)
    requires '/' !in name
    ensures SeenName(name + "/" + rest) ==
            if Strip(name) != name || SeenName(rest).None? then None else Some(name + "/" + SeenName(rest).value)
  {
    var path := name + "/" + rest;
    SegmentOf(name, rest);
    assert path[..|name|] == name && path[|name| + 1..] == rest;
  }

  /** What is seen under its own path is what has a trimmed one. */
  lemma {:induction false} SeenUnderItself(path: string)
    requires SeenName(path).Some?
    ensures SeenName(path).value == path <==> TrimmedPath(path)
    decreases |path|
  {
    hide Strip;
    var k := Segment(path);
    if k == |path| {
      assert path[..k] == path;
    } else {
      var rest := path[k + 1..];
      SeenUnderItself(rest);
      assert path == path[..k] + "/" + rest;
      SamePrefix(path[..k] + "/", rest, SeenName(rest).value);
    }
  }

  /** What is seen is seen under itself. */
  lemma {:induction false} SeenNameTwice(path: string)
    requires SeenName(path).Some?
    ensures SeenName(SeenName(path).value) == SeenName(path)
    decreases |path|
  {
    hide Strip;
    var k := Segment(path);
    StripTwice(path);
    if k == |path| {
      assert path[..k] == path;
      StripKeepsOut(path);
      SeenNameOfFile(Strip(path));
    } else {
      var rest := path[k + 1..];
      SeenNameTwice(rest);
      SeenNameBelow(path[..k], SeenName(rest).value);
    }
  }

  lemma StripKeepsOut(name: string)
    requires '/' !in name
    ensures '/' !in Strip(name)
  {
    var l, r := TrimParts(name, IsSpace);
  }

  /** The name seen, by directory and name. */
  lemma {:induction false} SeenNameIs(dir: string, name: string)
    requires IsPrefix(dir) && '/' !in name
    ensures SeenName(dir + name) == if TrimmedPath(dir) && Strip(name) != "" then Some(dir + Strip(name)) else None
    decreases |dir|
  {
    hide Strip, SeenName, TrimmedPath, Segment;
    if dir == "" {
      SeenNameOfFile(name);
      TrimmedName("");
      StripIsShorter("");
      assert dir + name == name && dir + Strip(name) == Strip(name);
    } else {
      SlashIsFound(dir);
      var k := Segment(dir);
      var first, rest := dir[..k], dir[k + 1..];
      assert dir == first + "/" + rest;
      assert dir + name == first + "/" + (rest + name);
      assert rest != "" ==> rest[|rest| - 1] == dir[|dir| - 1];
      SeenNameIs(rest, name);
      SeenNameBelow(first, rest + name);
      TrimmedBelow(first, rest);
      assert first + "/" + (rest + Strip(name)) == dir + Strip(name);
    }
  }

  lemma StripIsShorter(name: string)
    ensures |Strip(name)| <= |name|
  {
    var l, r := TrimParts(name, IsSpace);
  }

  lemma {:induction false} SlashIsFound(path: string)
    requires '/' in path
    ensures Segment(path) < |path|
  {
    if path[0] != '/' {
      SlashIsFound(path[1..]);
    }
  }

  lemma SamePrefix(a: string, b: string, c: string)
    ensures a + b == a + c <==> b == c
  {
    assert (a + b)[|a|..] == b && (a + c)[|a|..] == c;
  }

  /** A path below a folder, named from the folder above. */
  lemma NamedFromAbove(prefix: string, name: string, path: string)
    requires '/' !in name && prefix + name + "/" <= path
    ensures prefix <= path && path[|prefix|..] == name + "/" + path[|prefix + name + "/"|..]
  {
    var rest := path[|prefix + name + "/"|..];
    assert path == prefix + name + "/" + rest;
  }

  /** Whatever the walk sees is an object of the bucket, seen as its path says. */
  lemma {:induction false} SeenComesFrom(prefix: string, t: Tree, n: nat, s: StorageObject) returns (o: StorageObject)
    requires WellFormed(t) && n <= |t.entries| && s in SeenUpTo(prefix, t, n)
    ensures o in ObjectsOf(prefix, t.entries) && prefix <= o.path && prefix <= s.path
    ensures SeenName(o.path[|prefix|..]) == Some(s.path[|prefix|..])
    decreases t, n
  {
    hide SeenName, CleanMarker, Strip, WellFormed, IsSegment;
    GoodNames(t);
    assert 0 < n;
    var e := t.entries[n - 1];
    var name := Strip(e.name);
    if s in SeenUpTo(prefix, t, n - 1) {
      o := SeenComesFrom(prefix, t, n - 1, s);
    } else {
      assert e in t.entries;
      if e.File? {
        o := FileComesFrom(prefix, t.entries, n - 1);
      } else {
        var i := SubAt(t.entries, name);
        o := SubComesFrom(prefix, t, i, e.name, s);
      }
    }
  }

  lemma FileComesFrom(prefix: string, es: seq<Entry>, i: nat) returns (o: StorageObject)
    requires i < |es| && es[i].File? && IsSegment(es[i].name) && Strip(es[i].name) != ""
    ensures o in ObjectsOf(prefix, es) && prefix <= o.path && prefix <= SeenAt(prefix, es[i]).path
    ensures SeenName(o.path[|prefix|..]) == Some(SeenAt(prefix, es[i]).path[|prefix|..])
  {
    hide Strip, SeenName, CleanMarker;
    var name := es[i].name;
    o := ObjectAt(prefix, es[i]);
    EntryObjectsAreIn(prefix, es, i, o);
    SeenNameOfFile(name);
    assert (prefix + name)[|prefix|..] == name && (prefix + Strip(name))[|prefix|..] == Strip(name);
  }

  lemma {:induction false} SubAt(es: seq<Entry>, name: string) returns (i: nat)
    requires FindSub(es, name).Some?
    ensures i < |es| && es[i].Sub? && es[i].name == name && es[i].tree == FindSub(es, name).value
  {
    if es[0].Sub? && es[0].name == name {
      i := 0;
    } else {
      i := SubAt(es[1..], name);
      i := i + 1;
    }
  }

  lemma {:induction false} SubComesFrom(prefix: string, t: Tree, i: nat, raw: string, s: StorageObject) returns (o: StorageObject)
    requires WellFormed(t) && i < |t.entries| && t.entries[i].Sub? && t.entries[i].name == Strip(raw)
    requires s in SeenObjects(prefix + Strip(raw) + "/", t.entries[i].tree)
    ensures o in ObjectsOf(prefix, t.entries) && prefix <= o.path && prefix <= s.path
    ensures SeenName(o.path[|prefix|..]) == Some(s.path[|prefix|..])
    decreases t, 0
  {
    hide SeenName, CleanMarker, Strip;
    var name, sub := t.entries[i].name, t.entries[i].tree;
    var below := prefix + name + "/";
    assert t.entries[i] in t.entries;
    o := SeenComesFrom(below, sub, |sub.entries|, s);
    hide ObjectsOf, SeenUpTo;
    StripTwice(raw);
    EntryObjectsAreIn(prefix, t.entries, i, o);
    NamedFromAbove(prefix, name, o.path);
    NamedFromAbove(prefix, name, s.path);
    SeenNameBelow(name, o.path[|below|..]);
  }

  lemma {:induction false} SeenEntryIn(prefix: string, t: Tree, i: nat, n: nat, s: StorageObject)
    requires i < n <= |t.entries| && s in SeenUpTo(prefix, t, i + 1)
    ensures s in SeenUpTo(prefix, t, n)
  {
    hide SeenAt, Strip, FindSub;
    if i + 1 < n {
      SeenEntryIn(prefix, t, i, n - 1, s);
    }
  }

  lemma FileIsSeen(prefix: string, t: Tree, i: nat) returns (s: StorageObject)
    requires i < |t.entries| && t.entries[i].File? && IsSegment(t.entries[i].name)
    requires SeenName(t.entries[i].name).Some?
    ensures s in SeenObjects(prefix, t) && s.path == prefix + SeenName(t.entries[i].name).value
  {
    var e := t.entries[i];
    SeenNameOfFile(e.name);
    s := SeenAt(prefix, e);
    assert s in SeenUpTo(prefix, t, i + 1);
    hide SeenUpTo;
    SeenEntryIn(prefix, t, i, |t.entries|, s);
  }

  lemma SubIsSeen(prefix: string, t: Tree, i: nat, s: StorageObject)
    requires i < |t.entries| && t.entries[i].Sub? && t.entries[i].name != "" && Strip(t.entries[i].name) == t.entries[i].name
    requires FindSub(t.entries, t.entries[i].name) == Some(t.entries[i].tree)
    requires s in SeenObjects(prefix + t.entries[i].name + "/", t.entries[i].tree)
    ensures s in SeenObjects(prefix, t)
  {
    hide Strip, FindSub;
    assert s in SeenUpTo(prefix, t, i + 1);
    SeenEntryIn(prefix, t, i, |t.entries|, s);
  }

  /** An object whose path says so is seen, under the path it says. */
  lemma {:induction false} ObjectIsSeenAs(prefix: string, t: Tree, o: StorageObject) returns (s: StorageObject)
    requires WellFormed(t) && o in ObjectsOf(prefix, t.entries) && prefix <= o.path
    requires SeenName(o.path[|prefix|..]).Some?
    ensures s in SeenObjects(prefix, t) && s.path == prefix + SeenName(o.path[|prefix|..]).value
    decreases t
  {
    NamesTellApart(t);
    hide *;
    var i := EntryOf(prefix, t.entries, o);
    var e := t.entries[i];
    assert e in t.entries;
    if e.File? {
      FilePath(prefix, e, o);
      s := FileIsSeen(prefix, t, i);
    } else {
      var below := prefix + e.name + "/";
      PathBelow(prefix, e, o);
      s := ObjectIsSeenAs(below, e.tree, o);
      FindSubUnique(t.entries, i);
      SubIsSeen(prefix, t, i, s);
    }
  }

  lemma FilePath(prefix: string, e: Entry, o: StorageObject)
    requires e.File? && o in ObjectsOfEntry(prefix, e)
    ensures o.path[|prefix|..] == e.name
  {
    assert o.path == prefix + e.name;
  }

  lemma PathBelow(prefix: string, e: Entry, o: StorageObject)
    requires e.Sub? && IsSegment(e.name) && o in ObjectsOfEntry(prefix, e) && prefix <= o.path && SeenName(o.path[|prefix|..]).Some?
    ensures var below := prefix + e.name + "/";
            && o in ObjectsOf(below, e.tree.entries) && below <= o.path && SeenName(o.path[|below|..]).Some?
            && Strip(e.name) == e.name != ""
            && prefix + SeenName(o.path[|prefix|..]).value == below + SeenName(o.path[|below|..]).value
  {
    var below := prefix + e.name + "/";
    ObjectsAreBelow(below, e.tree.entries, o);
    hide SeenName, Strip, ObjectsOf;
    NamedFromAbove(prefix, e.name, o.path);
    SeenNameBelow(e.name, o.path[|below|..]);
    assert below == prefix + (e.name + "/");
    Regroup(prefix, e.name + "/", SeenName(o.path[|below|..]).value);
  }

  lemma NamesTellApart(t: Tree)
    requires WellFormed(t)
    ensures forall e <- t.entries :: IsSegment(e.name) && (e.Sub? ==> WellFormed(e.tree))
    ensures forall i, j :: 0 <= i < j < |t.entries| ==> t.entries[i].name != t.entries[j].name || t.entries[i].Sub? != t.entries[j].Sub?
  {
  }

  /** Once its pages fit, a bucket comes back as it is if and only if it is trimmed: otherwise some object of
      it is not in the result under its own key. */
  lemma WalkReturnsTheBucketIffTrimmed(root: Tree, size: nat)
    requires WellFormed(root) && HoldsObjects(root) && size > 0 && Walked(ListerOf(root), size).Ok?
    ensures multiset(Walked(ListerOf(root), size).value) == multiset(ObjectsOf("", root.entries)) <==> Trimmed(root)
    ensures !Trimmed(root) ==> exists o <- ObjectsOf("", root.entries) :: forall p <- Walked(ListerOf(root), size).value :: p.path != o.path
  {
    WalkReturnsWhatItSees(root, size);
    if Trimmed(root) {
      WalkReturnsEverythingIffItFits(root, size);
    } else {
      var o := AnUntrimmedObject("", root);
      var os := Walked(ListerOf(root), size).value;
      assert o.path[0..] == o.path;
      hide Walked, TrimmedPath;
      forall p | p in os
        ensures p.path != o.path
      {
        assert p in multiset(SeenObjects("", root));
        SeenIsTrimmed("", root, |root.entries|, p);
        assert p.path[0..] == p.path;
      }
      assert o !in multiset(os) && o in multiset(ObjectsOf("", root.entries));
    }
  }

  /** So the walk returns every object of the bucket, each once, if and only if the bucket is trimmed and the
      pages its folders take fit. */
  lemma WalkIsExactIff(root: Tree, size: nat)
    requires WellFormed(root) && HoldsObjects(root) && size > 0
    ensures var r := Walked(ListerOf(root), size);
            r.Ok? && multiset(r.value) == multiset(ObjectsOf("", root.entries)) <==> Trimmed(root) && Cost(root, size) <= MAX_LIST_PAGES
  {
    if Walked(ListerOf(root), size).Ok? {
      WalkReturnsTheBucketIffTrimmed(root, size);
    }
    if Trimmed(root) {
      WalkReturnsEverythingIffItFits(root, size);
    }
  }

  function PlainFile(name: string, size: nat): Entry {
    File(name, size, None, None, None, None)
  }

  /** Two files whose names differ by a space are reported under one key, twice. */
  function TwoFiles(size: nat): Tree {
    Tree([PlainFile(" a", size), PlainFile("a", size)])
  }

  lemma TwoFilesOneKey(bytes: nat, size: nat)
    requires size > 2
    ensures WellFormed(TwoFiles(bytes)) && HoldsObjects(TwoFiles(bytes)) && !Trimmed(TwoFiles(bytes))
    ensures Walked(ListerOf(TwoFiles(bytes)), size)
            == Ok([StorageObject("a", bytes, None, None), StorageObject("a", bytes, None, None)])
    ensures ObjectsOf("", TwoFiles(bytes).entries) == [StorageObject(" a", bytes, None, None), StorageObject("a", bytes, None, None)]
  {
    TwoIsABucket(bytes);
    TwoAreSeen(bytes, size);
    hide *;
    WalkReturnsWhatItSees(TwoFiles(bytes), size);
    TwoOfOne(Walked(ListerOf(TwoFiles(bytes)), size).value, StorageObject("a", bytes, None, None));
  }

  lemma TwoOfOne<T>(s: seq<T>, x: T)
    requires multiset(s) == multiset([x, x])
    ensures s == [x, x]
  {
    assert |s| == |multiset(s)| == |multiset([x, x])| == 2;
    assert s[0] in multiset(s) && s[1] in multiset(s);
  }

  lemma TwoIsABucket(bytes: nat)
    ensures WellFormed(TwoFiles(bytes)) && HoldsObjects(TwoFiles(bytes)) && !Trimmed(TwoFiles(bytes))
  {
    var t := TwoFiles(bytes);
    StripsOfTwo();
    hide Strip;
    assert t.entries[0].name[0] == ' ' && t.entries[1].name[0] == 'a';
    assert t.entries[0] in t.entries;
  }

  lemma StripsOfTwo()
    ensures Strip(" a") == "a" && Strip("a") == "a"
  {
    TrimmedStays("a", IsSpace);
    TrimIs(" ", "a", "", IsSpace);
    assert " " + "a" + "" == " a";
  }

  lemma TwoAreSeen(bytes: nat, size: nat)
    requires size > 2
    ensures SeenObjects("", TwoFiles(bytes)) == [StorageObject("a", bytes, None, None), StorageObject("a", bytes, None, None)]
    ensures ObjectsOf("", TwoFiles(bytes).entries) == [StorageObject(" a", bytes, None, None), StorageObject("a", bytes, None, None)]
    ensures SeenCost(TwoFiles(bytes), size) == 1
  {
    var t := TwoFiles(bytes);
    var first, second := PlainFile(" a", bytes), PlainFile("a", bytes);
    StripsOfTwo();
    assert "" + " a" == " a" && "" + "a" == "a";
    var o := StorageObject("a", bytes, None, None);
    assert SeenAt("", first) == o && SeenAt("", second) == o;
    assert ObjectAt("", first) == StorageObject(" a", bytes, None, None) && ObjectAt("", second) == o;
    hide Strip, ObjectAt, SeenAt;
    assert SeenUpTo("", t, 0) == [] && SeenUpTo("", t, 1) == [o] && SeenUpTo("", t, 2) == [o, o];
    assert SeenSubCost(t, 0, size) == 0 && SeenSubCost(t, 1, size) == 0 && SeenSubCost(t, 2, size) == 0;
    assert t.entries[1..] == [second] && [second][1..] == [];
    assert ObjectsOf("", [second]) == [o];
  }

  // --- A service that answers whole keys ----------------------------------------------------------------

  /** A row under its whole key, a folder's with its slash. */
  function Carrying(prefix: string, row: Row): Row {
    if row.Row? && row.name.Some?
    then row.(name := Some(prefix + row.name.value + (if row.metadata.None? then "/" else ""))) else row
  }

  function CarryAll(prefix: string, rows: seq<Row>): (r: seq<Row>)
    ensures |r| == |rows|
  {
    seq(|rows|, i requires 0 <= i < |rows| => Carrying(prefix, rows[i]))
  }

  /** The listing endpoint of such a service. */
  function WholeKeysLister(root: Tree): Lister {
    (calls: nat, prefix: string, limit: nat, offset: nat) =>
      Rows(CarryAll(prefix, Slice(RowsAt(root, prefix), offset, limit)))
  }

  /** A prefix the walk can come to in a trimmed bucket. */
  predicate IsCleanPrefix(p: string) {
    p == "" || (!IsSpace(p[0]) && p[|p| - 1] == '/')
  }

  predicate IsCleanRow(row: Row) {
    row.Row? && row.name.Some? && IsSegment(row.name.value) && Strip(row.name.value) == row.name.value
  }

  ghost predicate AllClean(prefixes: seq<string>) {
    forall p <- prefixes :: IsCleanPrefix(p)
  }

  /** A row that already carries the prefix is seen as the one that does not. */
  lemma CarriedPrefixIsTheSame(prefix: string, row: Row)
    requires IsCleanPrefix(prefix) && IsCleanRow(row)
    ensures See(prefix, Carrying(prefix, row)) == See(prefix, row)
    ensures See(prefix, row).Folder? ==> IsCleanPrefix(See(prefix, row).prefix)
  {
    var name := row.name.value;
    var slash := if row.metadata.None? then "/" else "";
    CarriedIsTrimmed(prefix, name, slash);
    CleanJoins(prefix, name);
    CarriedJoins(prefix, name, prefix + name + slash);
    SlashesGo(prefix + name);
    hide Strip, CleanMarker, StripSlashes, JoinKey, FolderPrefix, IsCleanPrefix, IsSegment;
    assert slash == "" ==> prefix + name + slash == prefix + name;
  }

  lemma CarriedIsTrimmed(prefix: string, name: string, slash: string)
    requires IsCleanPrefix(prefix) && name != "" && Strip(name) == name && (slash == "" || slash == "/")
    ensures Strip(prefix + name + slash) == prefix + name + slash != ""
  {
    var full := prefix + name + slash;
    var l, r := TrimParts(name, IsSpace);
    hide TrimLeft, TrimRight;
    assert full[0] == if prefix == "" then name[0] else prefix[0];
    assert full[|full| - 1] == if slash == "" then name[|name| - 1] else '/';
    TrimmedStays(full, IsSpace);
  }

  lemma CleanJoins(prefix: string, name: string)
    requires IsCleanPrefix(prefix) && IsSegment(name) && Strip(name) == name
    ensures JoinKey(prefix, name) == prefix + name && FolderPrefix(prefix + name) == prefix + name + "/"
    ensures IsCleanPrefix(prefix + name + "/")
  {
    JoinGood(prefix, name);
    CarriedIsTrimmed(prefix, name, "/");
    var full := prefix + name + "/";
    var l, r := TrimParts(full, IsSpace);
    hide Strip, JoinKey, FolderPrefix, IsSegment;
  }

  lemma CarriedJoins(prefix: string, name: string, full: string)
    requires prefix + name <= full
    ensures JoinKey(prefix, full) == full
  {
    assert prefix <= full;
  }

  /** A trailing slash makes no difference to the folder a row leads to. */
  lemma SlashesGo(key: string)
    ensures FolderPrefix(key + "/") == FolderPrefix(key)
  {
    assert (key + "/")[..|key|] == key;
  }

  lemma {:induction false} CarriedRowsAreTheSame(prefix: string, rows: seq<Row>, st: WalkState)
    requires IsCleanPrefix(prefix) && (forall row <- rows :: IsCleanRow(row)) && AllClean(st.pending)
    ensures Take(prefix, CarryAll(prefix, rows), st) == Take(prefix, rows, st)
    ensures Take(prefix, rows, st).Ok? ==> AllClean(Take(prefix, rows, st).value.pending)
  {
    hide See, Carrying, IsCleanRow, IsCleanPrefix;
    if rows != [] {
      CarriedPrefixIsTheSame(prefix, rows[0]);
      assert CarryAll(prefix, rows)[0] == Carrying(prefix, rows[0]) && CarryAll(prefix, rows)[1..] == CarryAll(prefix, rows[1..]);
      match See(prefix, rows[0])
      case Nothing => CarriedRowsAreTheSame(prefix, rows[1..], st);
      case Folder(p) => CarriedRowsAreTheSame(prefix, rows[1..], st.(pending := st.pending + [p]));
      case Object(o) => CarriedRowsAreTheSame(prefix, rows[1..], st.(objects := st.objects + [o]));
      case Broken(path) =>
    }
  }

  lemma {:induction false} FindIsTrimmed(t: Tree, path: string)
    requires WellFormed(t) && Trimmed(t) && Find(t, path).Some?
    ensures WellFormed(Find(t, path).value) && Trimmed(Find(t, path).value)
    decreases |path|
  {
    if path != "" {
      var k := Segment(path);
      FindIsTrimmed(FindSub(t.entries, path[..k]).value, path[k + 1..]);
    }
  }

  lemma RowsAreClean(root: Tree, prefix: string, limit: nat, offset: nat)
    requires WellFormed(root) && Trimmed(root)
    ensures forall row <- Slice(RowsAt(root, prefix), offset, limit) :: IsCleanRow(row)
  {
    if Find(root, prefix).Some? {
      FindIsTrimmed(root, prefix);
    }
    hide Strip, Find;
    var rows := RowsAt(root, prefix);
    assert forall i :: 0 <= i < |rows| ==> IsCleanRow(rows[i]);
    assert forall row <- Slice(rows, offset, limit) :: row in rows;
  }

  lemma {:induction false} WholeKeysInOneFolder(root: Tree, size: nat, prefix: string, offset: nat, st: WalkState)
    requires WellFormed(root) && Trimmed(root) && IsCleanPrefix(prefix) && AllClean(st.pending) && st.pages <= MAX_LIST_PAGES
    ensures OneFolder(WholeKeysLister(root), size, prefix, offset, st) == OneFolder(ListerOf(root), size, prefix, offset, st)
    ensures var r := OneFolder(ListerOf(root), size, prefix, offset, st); r.Ok? ==> AllClean(r.value.pending)
    decreases MAX_LIST_PAGES - st.pages
  {
    hide RowsAt, WellFormed, Trimmed, IsCleanPrefix, IsCleanRow, AllClean, Take, Slice, CarryAll;
    if st.pages + 1 <= MAX_LIST_PAGES {
      var rows := Slice(RowsAt(root, prefix), offset, size);
      RowsAreClean(root, prefix, size, offset);
      var started := st.(pages := st.pages + 1);
      CarriedRowsAreTheSame(prefix, rows, started);
      var taken := Take(prefix, rows, started);
      if taken.Ok? && |rows| >= size {
        WholeKeysInOneFolder(root, size, prefix, offset + |rows|, taken.value);
      }
    }
  }

  lemma {:induction false} WholeKeysInAllFolders(root: Tree, size: nat, st: WalkState)
    requires WellFormed(root) && Trimmed(root) && AllClean(st.pending) && st.pages <= MAX_LIST_PAGES
    ensures AllFolders(WholeKeysLister(root), size, st) == AllFolders(ListerOf(root), size, st)
    decreases MAX_LIST_PAGES - st.pages
  {
    hide WellFormed, Trimmed, IsCleanPrefix, OneFolder;
    if st.pending != [] {
      var n := |st.pending| - 1;
      assert st.pending[n] in st.pending && forall p <- st.pending[..n] :: p in st.pending;
      var next := st.(pending := st.pending[..n]);
      WholeKeysInOneFolder(root, size, st.pending[n], 0, next);
      var r := OneFolder(ListerOf(root), size, st.pending[n], 0, next);
      if r.Ok? {
        WholeKeysInAllFolders(root, size, r.value);
      }
    }
  }

  /** A storage service that answers whole keys instead of names, and folders with a slash, is walked alike: the same objects or the same error,
      of any trimmed bucket. */
  lemma WholeKeysAreWalkedAlike(root: Tree, size: nat)
    requires WellFormed(root) && Trimmed(root)
    ensures Walked(WholeKeysLister(root), size) == Walked(ListerOf(root), size)
  {
    WholeKeysInAllFolders(root, size, START);
  }

  // --- Exactly once: no key is returned twice -----------------------------------------------------------

  /** The part of a path below a folder starts with the entry it came from. */
  ghost predicate Under(prefix: string, path: string, e: Entry) {
    && prefix <= path
    && Segment(path[|prefix|..]) == |e.name|
    && path[|prefix|..][..|e.name|] == e.name
    && (e.Sub? <==> |e.name| < |path[|prefix|..]|)
  }

  function ObjectsOfEntry(prefix: string, e: Entry): seq<StorageObject> {
    match e
    case File(_, _, _, _, _, _) => [ObjectAt(prefix, e)]
    case Sub(name, tree) => ObjectsOf(prefix + name + "/", tree.entries)
  }

  lemma {:induction false} ObjectsAreBelow(prefix: string, es: seq<Entry>, o: StorageObject)
    requires o in ObjectsOf(prefix, es)
    ensures prefix <= o.path
    decreases es
  {
    if o in ObjectsOf(prefix, es[1..]) {
      ObjectsAreBelow(prefix, es[1..], o);
    } else if es[0].Sub? {
      ObjectsAreBelow(prefix + es[0].name + "/", es[0].tree.entries, o);
    }
  }

  lemma {:induction false} NoSlashInside(name: string)
    requires '/' !in name
    ensures Segment(name) == |name|
  {
    if name != "" {
      NoSlashInside(name[1..]);
    }
  }

  lemma EntryIsInItsPaths(prefix: string, e: Entry, o: StorageObject)
    requires IsSegment(e.name) && o in ObjectsOfEntry(prefix, e)
    ensures Under(prefix, o.path, e)
  {
    hide CleanMarker, Segment;
    if e.Sub? {
      var below := prefix + e.name + "/";
      ObjectsAreBelow(below, e.tree.entries, o);
      hide ObjectsOf;
      SlashAfterName(prefix, e.name, o.path);
    } else {
      assert o.path[|prefix|..] == e.name;
      NoSlashInside(e.name);
    }
  }

  lemma SlashAfterName(prefix: string, name: string, path: string)
    requires '/' !in name && prefix + name + "/" <= path
    ensures prefix <= path && Segment(path[|prefix|..]) == |name| < |path[|prefix|..]| && path[|prefix|..][..|name|] == name
  {
    hide Segment;
    var rest := path[|prefix + name + "/"|..];
    assert path == prefix + name + "/" + rest;
    assert path[|prefix|..] == name + "/" + rest;
    SegmentOf(name, rest);
  }

  lemma {:induction false} EntryOf(prefix: string, es: seq<Entry>, o: StorageObject) returns (i: nat)
    requires o in ObjectsOf(prefix, es)
    ensures i < |es| && o in ObjectsOfEntry(prefix, es[i])
  {
    hide ObjectAt;
    if o in ObjectsOf(prefix, es[1..]) {
      i := EntryOf(prefix, es[1..], o);
      i := i + 1;
    } else {
      i := 0;
    }
  }

  ghost predicate DistinctPaths(os: seq<StorageObject>) {
    forall i, j :: 0 <= i < j < |os| ==> os[i].path != os[j].path
  }

  /** No two objects of a bucket share a key. */
  lemma {:induction false} KeysAreDistinct(prefix: string, es: seq<Entry>)
    requires forall e :: e in es ==> IsSegment(e.name) && (e.Sub? ==> WellFormed(e.tree))
    requires forall i, j :: 0 <= i < j < |es| ==> es[i].name != es[j].name || es[i].Sub? != es[j].Sub?
    ensures DistinctPaths(ObjectsOf(prefix, es))
    decreases es
  {
    hide ObjectAt, IsSegment, Segment;
    if es != [] {
      var first, rest := ObjectsOfEntry(prefix, es[0]), ObjectsOf(prefix, es[1..]);
      KeysAreDistinct(prefix, es[1..]);
      if es[0].Sub? {
        KeysAreDistinct(prefix + es[0].name + "/", es[0].tree.entries);
      }
      forall o, o' | o in first && o' in rest
        ensures o.path != o'.path
      {
        var k := EntryOf(prefix, es[1..], o');
        EntryIsInItsPaths(prefix, es[0], o);
        EntryIsInItsPaths(prefix, es[1..][k], o');
        assert es[1..][k] == es[k + 1];
      }
      DistinctAcross(first, rest);
    }
  }

  lemma DistinctAcross(a: seq<StorageObject>, b: seq<StorageObject>)
    requires DistinctPaths(a) && DistinctPaths(b)
    requires forall o, o' :: o in a && o' in b ==> o.path != o'.path
    ensures DistinctPaths(a + b)
  {
  }

  lemma DistinctPathsPermute(s: seq<StorageObject>, t: seq<StorageObject>)
    requires DistinctPaths(s) && multiset(s) == multiset(t)
    ensures DistinctPaths(t)
  {
    DistinctPermutes(s, t);
    forall i, j | 0 <= i < j < |t|
      ensures t[i].path != t[j].path
    {
      assert t[i] in multiset(s) && t[j] in multiset(s);
      var a :| 0 <= a < |s| && s[a] == t[i];
      var b :| 0 <= b < |s| && s[b] == t[j];
      assert a < b || b < a;
    }
  }

  /** So the keys the walk returns are strictly increasing. */
  lemma KeysStrictlyIncrease(root: Tree, size: nat)
    requires WellFormed(root) && Trimmed(root) && size > 0 && Cost(root, size) <= MAX_LIST_PAGES
    ensures Walked(ListerOf(root), size).Ok? && KeysIncrease(Walked(ListerOf(root), size).value)
  {
    hide Walked, Cost;
    WalkReturnsEverythingIffItFits(root, size);
    KeysAreDistinct("", root.entries);
    var os := Walked(ListerOf(root), size).value;
    DistinctPathsPermute(ObjectsOf("", root.entries), os);
    forall i, j | 0 <= i < j < |os|
      ensures Leq(os[i].path, os[j].path) && !Leq(os[j].path, os[i].path)
    {
      assert ByPath()(os[i], os[j]);
      if Leq(os[j].path, os[i].path) {
        LeqAntisymmetric(os[i].path, os[j].path);
      }
    }
  }

  ghost predicate KeysIncrease(os: seq<StorageObject>) {
    forall i, j :: 0 <= i < j < |os| ==> Leq(os[i].path, os[j].path) && !Leq(os[j].path, os[i].path)
  }
}
