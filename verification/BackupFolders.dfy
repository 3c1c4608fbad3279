/** The backup directory: run folders, their names, and which of them pruning deletes. */
module BackupFolders {
  import opened Wrappers
  import opened Text
  import opened Numerals

  type Bytes = seq<bv8>

  /** One file of a manifest, as read back: every field may be missing. */
  datatype Record = Record(bytes: Option<int>, sha256: Option<string>, etag: Option<string>, updatedAt: Option<string>)

  datatype Manifest = Manifest(ok: bool, projectRef: string, files: map<string, Record>)

  /** An entry of the backup directory. A missing or unreadable manifest is None. */
  datatype Child = Child(name: string, isDir: bool, isLink: bool, manifest: Option<Manifest>, files: map<string, Bytes>)

  /** A folder's files change on disk, and its manifest may no longer be read. */
  function DamageOne(c: Child, name: string, files: map<string, Bytes>, readable: bool): Child {
    if c.name == name then c.(files := files, manifest := if readable then c.manifest else None) else c
  }

  function DamageAll(cs: seq<Child>, name: string, files: map<string, Bytes>, readable: bool): seq<Child> {
    seq(|cs|, i requires 0 <= i < |cs| => DamageOne(cs[i], name, files, readable))
  }

  // --- Stamps --------------------------------------------------------------------------

  datatype Instant = Instant(year: nat, month: nat, day: nat, hour: nat, minute: nat, second: nat)

  /** The instants `strftime` writes with a four-digit year. */
  predicate Writable(i: Instant) {
    1000 <= i.year <= 9999 && i.month < 100 && i.day < 100 && i.hour < 100 && i.minute < 100 && i.second < 100
  }

  predicate NoLater(a: Instant, b: Instant) {
    || a.year < b.year
    || (a.year == b.year && (a.month < b.month
    || (a.month == b.month && (a.day < b.day
    || (a.day == b.day && (a.hour < b.hour
    || (a.hour == b.hour && (a.minute < b.minute
    || (a.minute == b.minute && a.second <= b.second)))))))))
  }

  function UtcStamp(i: Instant): string {
    Digits(i.year, 4) + ("-" + (Digits(i.month, 2) + ("-" + (Digits(i.day, 2)
    + ("T" + (Digits(i.hour, 2) + (Digits(i.minute, 2) + (Digits(i.second, 2) + "Z"))))))))
  }

  lemma SameStart(c: char, x: string, y: string)
    ensures Leq([c] + x, [c] + y) <==> Leq(x, y)
  {
    LeqSamePrefix([c], x, y);
  }

  /** The names of run folders sort in time order. */
  lemma StampOrderIsTimeOrder(a: Instant, b: Instant)
    requires Writable(a) && Writable(b)
    ensures Leq(UtcStamp(a), UtcStamp(b)) <==> NoLater(a, b)
  {
    assert Power10(1) == 10 && Power10(2) == 100 && Power10(3) == 1000 && Power10(4) == 10000;
    var sa, sb := Digits(a.second, 2) + "Z", Digits(b.second, 2) + "Z";
    DigitsOrder(a.second, b.second, 2, "Z", "Z");
    var ma, mb := Digits(a.minute, 2) + sa, Digits(b.minute, 2) + sb;
    DigitsOrder(a.minute, b.minute, 2, sa, sb);
    var ha, hb := Digits(a.hour, 2) + ma, Digits(b.hour, 2) + mb;
    DigitsOrder(a.hour, b.hour, 2, ma, mb);
    var da, db := Digits(a.day, 2) + ("T" + ha), Digits(b.day, 2) + ("T" + hb);
    SameStart('T', ha, hb);
    DigitsOrder(a.day, b.day, 2, "T" + ha, "T" + hb);
    var oa, ob := Digits(a.month, 2) + ("-" + da), Digits(b.month, 2) + ("-" + db);
    SameStart('-', da, db);
    DigitsOrder(a.month, b.month, 2, "-" + da, "-" + db);
    SameStart('-', oa, ob);
    DigitsOrder(a.year, b.year, 4, "-" + oa, "-" + ob);
  }

  predicate MatchesStamp(s: string) {
    && |s| == 18
    && (forall i :: 0 <= i < 18 && i !in {4, 7, 10, 17} ==> IsDigit(s[i]))
    && s[4] == '-' && s[7] == '-' && s[10] == 'T' && s[17] == 'Z'
  }

  /** The pattern of a run folder's name; `$` also matches before one trailing newline. */
  predicate IsRunName(s: string) {
    MatchesStamp(s) || (s != "" && s[|s| - 1] == '\n' && MatchesStamp(s[..|s| - 1]))
  }

  lemma StampIsARunName(i: Instant)
    requires Writable(i)
    ensures IsRunName(UtcStamp(i))
  {
    DigitsAreDigits(i.year, 4);
    DigitsAreDigits(i.month, 2);
    DigitsAreDigits(i.day, 2);
    DigitsAreDigits(i.hour, 2);
    DigitsAreDigits(i.minute, 2);
    DigitsAreDigits(i.second, 2);
  }

  ghost predicate AreDigits(s: string, n: nat) {
    |s| == n && forall c <- s :: '0' <= c <= '9'
  }

  /** A name in five parts: a year, a month, a day and a time in digits, and what may follow. */
  ghost predicate IsStamped(s: string, year: string, month: string, day: string, time: string, rest: string) {
    && s == year + "-" + month + "-" + day + "T" + time + "Z" + rest && (rest == "" || rest == "\n")
    && AreDigits(year, 4) && AreDigits(month, 2) && AreDigits(day, 2) && AreDigits(time, 6)
  }

  /** What counts as a run folder's name has the shape of a stamp, and whatever has that shape counts. */
  lemma RunNameIff(s: string)
    ensures IsRunName(s) <==>
            exists year: string, month: string, day: string, time: string, rest: string :: IsStamped(s, year, month, day, time, rest)
  {
    hide *;
    if IsRunName(s) {
      var year, month, day, time, rest := PartsOfARunName(s);
    }
    if year: string, month: string, day: string, time: string, rest: string :| IsStamped(s, year, month, day, time, rest) {
      StampedMatches(s, year, month, day, time, rest);
    }
  }

  lemma PartsOfARunName(s: string) returns (year: string, month: string, day: string, time: string, rest: string)
    requires IsRunName(s)
    ensures IsStamped(s, year, month, day, time, rest)
  {
    rest := if MatchesStamp(s) then "" else "\n";
    var t := s[..18];
    assert s == t + rest;
    year, month, day, time := t[..4], t[5..7], t[8..10], t[11..17];
    assert t == year + "-" + month + "-" + day + "T" + time + "Z";
  }

  lemma StampedMatches(s: string, year: string, month: string, day: string, time: string, rest: string)
    requires IsStamped(s, year, month, day, time, rest)
    ensures IsRunName(s)
  {
    var t := year + "-" + month + "-" + day + "T" + time + "Z";
    assert s == t + rest;
    assert forall k :: 0 <= k < 4 ==> t[k] == year[k] && year[k] in year;
    assert forall k :: 0 <= k < 2 ==> t[5 + k] == month[k] && month[k] in month;
    assert forall k :: 0 <= k < 2 ==> t[8 + k] == day[k] && day[k] in day;
    assert forall k :: 0 <= k < 6 ==> t[11 + k] == time[k] && time[k] in time;
    assert MatchesStamp(t);
    assert rest != "" ==> s[..18] == t;
  }
}
