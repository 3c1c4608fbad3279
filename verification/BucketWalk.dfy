/** Listing a bucket: `walk_bucket` pages through every virtual folder and returns every object. */
module BucketWalk {
  import opened Wrappers
  import opened Text
  import opened Sorting

  const MAX_LIST_PAGES: nat := 500

  datatype StorageObject = StorageObject(path: string, size: nat, etag: Option<string>, updatedAt: Option<string>)

  /** The metadata of a listing row: the size may be missing, the markers may be absent. */
  datatype Metadata = Metadata(size: Option<int>, eTag: Option<string>, etag: Option<string>, lastModified: Option<string>)

  /** One row of a page; a row without metadata is a folder placeholder. */
  datatype Row =
    | Junk                                                                 // not a mapping
    | Row(name: Option<string>, metadata: Option<Metadata>, updatedAt: Option<string>)

  datatype Page = NotAList | Rows(rows: seq<Row>)

  /** Whatever answers the listing calls: (how many calls before, prefix, limit, offset) -> page. */
  type Lister = (nat, string, nat, nat) -> Page

  datatype WalkError = TooManyPages | BadPage | NoSize(path: string)

  predicate IsQuote(c: char) {
    c == '\"'
  }

  /** `_clean_marker`: a non-empty marker without the quotes of an HTTP etag. */
  function CleanMarker(m: Option<string>): Option<string> {
    if m.None? then None
    else
      var cleaned := Trim(Strip(m.value), IsQuote);
      if cleaned == "" then None else Some(cleaned)
  }

  function Either<T>(a: Option<T>, b: Option<T>): Option<T> {
    if a.Some? then a else b
  }

  function JoinKey(prefix: string, name: string): string {
    if prefix == "" then name else if prefix <= name then name else prefix + name
  }

  function StripSlashes(s: string): string {
    if s != "" && s[|s| - 1] == '/' then StripSlashes(s[..|s| - 1]) else s
  }

  function FolderPrefix(full: string): string {
    StripSlashes(full) + "/"
  }

  /** What the walk makes of one row of a page. */
  datatype Seen = Nothing | Folder(prefix: string) | Object(obj: StorageObject) | Broken(path: string)

  function See(prefix: string, row: Row): Seen {
    var name := if row.Junk? || row.name.None? then "" else Strip(row.name.value);
    if name == "" then Nothing
    else
      var full := JoinKey(prefix, name);
      if row.metadata.None? then Folder(FolderPrefix(full))
      else
        var m := row.metadata.value;
        if m.size.None? || m.size.value < 0 then Broken(full)
        else Object(StorageObject(full, m.size.value, Either(CleanMarker(m.eTag), CleanMarker(m.etag)),
                                  Either(CleanMarker(row.updatedAt), CleanMarker(m.lastModified))))
  }

  // --- What a marker says --------------------------------------------------------------------

  /** How a marker is written: between whitespace, between quotes, and with no quote at an end of its own. */
  ghost predicate IsWritten(raw: string, left: string, open: string, m: string, close: string, right: string) {
    var quoted := open + m + close;
    && raw == left + quoted + right
    && (forall c <- left + right :: IsSpace(c)) && (forall c <- open + close :: c == '\"')
    && (quoted != "" ==> !IsSpace(quoted[0]) && !IsSpace(quoted[|quoted| - 1]))
    && (m != "" ==> m[0] != '\"' && m[|m| - 1] != '\"')
  }

  /** The raw text says the marker `m`; it says none when `m` is empty. */
  ghost predicate Says(raw: string, m: string) {
    exists left: string, open: string, close: string, right: string :: IsWritten(raw, left, open, m, close, right)
  }

  /** What cleaning makes of a marker is what it says. */
  lemma CleaningIsWhatItSays(raw: string, m: string)
    ensures Says(raw, m) <==> CleanMarker(Some(raw)) == if m == "" then None else Some(m)
  {
    hide Trim;
    if Says(raw, m) {
      var left, open, close, right :| IsWritten(raw, left, open, m, close, right);
      assert forall c :: c in left || c in right ==> c in left + right;
      TrimIs(left, open + m + close, right, IsSpace);
      assert forall c :: c in open || c in close ==> c in open + close;
      TrimIs(open, m, close, IsQuote);
    } else {
      var left, right := TrimParts(raw, IsSpace);
      var open, close := TrimParts(Strip(raw), IsQuote);
      assert IsWritten(raw, left, open, Trim(Strip(raw), IsQuote), close, right);
    }
  }

  /** A marker says itself, when it has neither whitespace nor a quote at an end, and nothing else. */
  lemma PlainMarkerSaysItself(m: string, other: string)
    requires IsTrimmed(m, IsSpace) && IsTrimmed(m, IsQuote)
    ensures Says(m, other) <==> other == m
  {
    TrimmedStays(m, IsSpace);
    TrimmedStays(m, IsQuote);
    CleaningIsWhatItSays(m, other);
  }

  /** Of two places a marker can stand, the first that says one counts. */
  ghost predicate FirstSays(first: Option<string>, second: Option<string>, m: string) {
    if first.Some? && !Says(first.value, "") then Says(first.value, m) else second.Some? && Says(second.value, m)
  }

  /** The markers an object is listed with. */
  lemma ListedMarkers(prefix: string, row: Row, m: string)
    requires See(prefix, row).Object? && m != ""
    ensures See(prefix, row).obj.etag == Some(m) <==> FirstSays(row.metadata.value.eTag, row.metadata.value.etag, m)
    ensures See(prefix, row).obj.updatedAt == Some(m) <==> FirstSays(row.updatedAt, row.metadata.value.lastModified, m)
    ensures See(prefix, row).obj.etag != Some("") && See(prefix, row).obj.updatedAt != Some("")
  {
    var data := row.metadata.value;
    FirstMarker(data.eTag, data.etag, m);
    FirstMarker(row.updatedAt, data.lastModified, m);
    hide Says, CleanMarker, FirstSays;
  }

  lemma FirstMarker(first: Option<string>, second: Option<string>, m: string)
    requires m != ""
    ensures Either(CleanMarker(first), CleanMarker(second)) == Some(m) <==> FirstSays(first, second, m)
    ensures Either(CleanMarker(first), CleanMarker(second)) != Some("")
  {
    if first.Some? {
      CleaningIsWhatItSays(first.value, m);
      CleaningIsWhatItSays(first.value, "");
    }
    if second.Some? {
      CleaningIsWhatItSays(second.value, m);
    }
    assert CleanMarker(first) != Some("") && CleanMarker(second) != Some("");
    hide CleanMarker, Says;
  }

  function ByPath(): (StorageObject, StorageObject) -> bool {
    (a: StorageObject, b: StorageObject) => Leq(a.path, b.path)
  }

  // --- The walk --------------------------------------------------------------------------

  datatype WalkState = WalkState(pending: seq<string>, objects: seq<StorageObject>, pages: nat)

  /** The rows of one page, in order, up to the first that has no usable size. */
  function Take(prefix: string, rows: seq<Row>, st: WalkState): (r: Result<WalkState, WalkError>)
    ensures r.Ok? ==> r.value.pages == st.pages
  {
    if rows == [] then Ok(st)
    else
      match See(prefix, rows[0])
      case Nothing => Take(prefix, rows[1..], st)
      case Folder(p) => Take(prefix, rows[1..], st.(pending := st.pending + [p]))
      case Object(o) => Take(prefix, rows[1..], st.(objects := st.objects + [o]))
      case Broken(path) => Err(NoSize(path))
  }

  lemma TakeRow(prefix: string, rows: seq<Row>, i: nat, st: WalkState)
    requires i < |rows|
    ensures Take(prefix, rows[i..], st) ==
            match See(prefix, rows[i])
            case Nothing => Take(prefix, rows[i + 1..], st)
            case Folder(p) => Take(prefix, rows[i + 1..], st.(pending := st.pending + [p]))
            case Object(o) => Take(prefix, rows[i + 1..], st.(objects := st.objects + [o]))
            case Broken(path) => Err(NoSize(path))
  {
    assert rows[i..][0] == rows[i] && rows[i..][1..] == rows[i + 1..];
  }

  lemma TakeNone(prefix: string, rows: seq<Row>, st: WalkState)
    ensures Take(prefix, rows[|rows|..], st) == Ok(st)
    ensures rows[0..] == rows
  {
  }

  /** One folder, page by page from `offset`. */
  function OneFolder(list: Lister, size: nat, prefix: string, offset: nat, st: WalkState): (r: Result<WalkState, WalkError>)
    requires st.pages <= MAX_LIST_PAGES
    ensures r.Ok? ==> st.pages < r.value.pages <= MAX_LIST_PAGES
    decreases MAX_LIST_PAGES - st.pages
  {
    if st.pages + 1 > MAX_LIST_PAGES then Err(TooManyPages)
    else
      var page := list(st.pages, prefix, size, offset);
      if page.NotAList? then Err(BadPage)
      else
        var taken := Take(prefix, page.rows, st.(pages := st.pages + 1));
        if taken.Err? || |page.rows| < size then taken
        else OneFolder(list, size, prefix, offset + |page.rows|, taken.value)
  }

  /** Every pending folder, the last one first. */
  function AllFolders(list: Lister, size: nat, st: WalkState): Result<WalkState, WalkError>
    requires st.pages <= MAX_LIST_PAGES
    decreases MAX_LIST_PAGES - st.pages
  {
    if st.pending == [] then Ok(st)
    else
      var n := |st.pending| - 1;
      var r := OneFolder(list, size, st.pending[n], 0, st.(pending := st.pending[..n]));
      if r.Err? then r else AllFolders(list, size, r.value)
  }

  const START: WalkState := WalkState([""], [], 0)

  function Walked(list: Lister, size: nat): Result<seq<StorageObject>, WalkError> {
    var r := AllFolders(list, size, START);
    if r.Err? then Err(r.error) else Ok(Sort(r.value.objects, ByPath()))
  }

  lemma OneFolderStep(list: Lister, size: nat, prefix: string, offset: nat, st: WalkState)
    requires st.pages <= MAX_LIST_PAGES
    ensures OneFolder(list, size, prefix, offset, st) ==
            if st.pages + 1 > MAX_LIST_PAGES then Err(TooManyPages)
            else
              var page := list(st.pages, prefix, size, offset);
              if page.NotAList? then Err(BadPage)
              else
                var taken := Take(prefix, page.rows, st.(pages := st.pages + 1));
                if taken.Err? || |page.rows| < size then taken
                else OneFolder(list, size, prefix, offset + |page.rows|, taken.value)
  {
    hide Take;
  }

  lemma NextFolder(list: Lister, size: nat, st: WalkState)
    requires st.pages <= MAX_LIST_PAGES
    ensures if st.pending == [] then AllFolders(list, size, st) == Ok(st)
            else
              var n := |st.pending| - 1;
              var r := OneFolder(list, size, st.pending[n], 0, st.(pending := st.pending[..n]));
              AllFolders(list, size, st) == if r.Err? then r else AllFolders(list, size, r.value)
  {
    hide OneFolder;
  }

  /** Whatever answers the listing, the walk stops within `MAX_LIST_PAGES` fetches. */
  method WalkBucket(list: Lister, size: nat) returns (r: Result<seq<StorageObject>, WalkError>, fetches: nat)
    ensures r == Walked(list, size)
    ensures fetches <= MAX_LIST_PAGES
  {
    hide See, Sort, Take, OneFolder, AllFolders;
    var objects: seq<StorageObject> := [];
    var pending := [""];
    fetches := 0;
    while pending != []
      invariant fetches <= MAX_LIST_PAGES
      invariant AllFolders(list, size, START) == AllFolders(list, size, WalkState(pending, objects, fetches))
      decreases MAX_LIST_PAGES - fetches, 1
    {
      ghost var started := fetches;
      NextFolder(list, size, WalkState(pending, objects, fetches));
      var prefix := pending[|pending| - 1];
      pending := pending[..|pending| - 1];
      var offset: nat := 0;
      ghost var folder := OneFolder(list, size, prefix, 0, WalkState(pending, objects, fetches));
      while true
        invariant started <= fetches <= MAX_LIST_PAGES
        invariant folder == OneFolder(list, size, prefix, offset, WalkState(pending, objects, fetches))
        decreases MAX_LIST_PAGES - fetches
      {
        OneFolderStep(list, size, prefix, offset, WalkState(pending, objects, fetches));
        if fetches + 1 > MAX_LIST_PAGES {
          return Err(TooManyPages), fetches;
        }
        var page := list(fetches, prefix, size, offset);
        fetches := fetches + 1;
        if page.NotAList? {
          return Err(BadPage), fetches;
        }
        ghost var taken := Take(prefix, page.rows, WalkState(pending, objects, fetches));
        for i := 0 to |page.rows|
          invariant taken == Take(prefix, page.rows[i..], WalkState(pending, objects, fetches))
        {
          TakeRow(prefix, page.rows, i, WalkState(pending, objects, fetches));
          match See(prefix, page.rows[i])
          case Nothing =>
          case Folder(p) => pending := pending + [p];
          case Object(o) => objects := objects + [o];
          case Broken(path) => return Err(NoSize(path)), fetches;
        }
        TakeNone(prefix, page.rows, WalkState(pending, objects, fetches));
        if |page.rows| < size {
          break;
        }
        offset := offset + |page.rows|;
      }
    }
    NextFolder(list, size, WalkState(pending, objects, fetches));
    r := Ok(Sort(objects, ByPath()));
  }
}
