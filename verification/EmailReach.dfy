/** Who can be e-mailed: the Python rule the send loop uses, and the SQL predicate the counts use. */
module EmailReach {
  import opened Wrappers
  import opened Text

  const UNSENDABLE_DOMAINS: set<string> :=
    {"example.com", "example.org", "example.net", "test", "localhost", "invalid"}

  datatype Source = Personal | Work

  /** Where `c` first stands in `s`, or the length of `s`. */
  function IndexOf(s: string, c: char): (n: nat)
    ensures n <= |s| && c !in s[..n]
    ensures n < |s| ==> s[n] == c
    ensures c in s <==> n < |s|
  {
    if s == "" || s[0] == c then 0 else 1 + IndexOf(s[1..], c)
  }

  function Local(s: string): string {
    s[..IndexOf(s, '@')]
  }

  /** What follows the first '@'. */
  function Domain(s: string): string
    requires '@' in s
  {
    s[IndexOf(s, '@') + 1..]
  }

  // --- Python ----------------------------------------------------------------------------------

  function IsSendable(email: Option<string>): bool {
    if email.None? || email.value == "" || '@' !in email.value then false
    else
      var domain := Lower(Strip(Domain(email.value)));
      if Strip(Local(email.value)) == "" || '.' !in domain then false
      else domain !in UNSENDABLE_DOMAINS
  }

  function ResolveEmail(personal: Option<string>, work: Option<string>): Option<(string, Source)> {
    if IsSendable(personal) then Some((personal.value, Personal))
    else if IsSendable(work) then Some((work.value, Work))
    else None
  }

  // --- SQL -------------------------------------------------------------------------------------

  /** The three truth values of a SQL predicate. */
  datatype Tri = True | False | Null

  function And(a: Tri, b: Tri): Tri {
    if a == False || b == False then False else if a == True && b == True then True else Null
  }

  function Or(a: Tri, b: Tri): Tri {
    if a == True || b == True then True else if a == False && b == False then False else Null
  }

  /** SQL's truth tables: an unknown operand leaves the result unknown unless the other one settles it. */
  lemma TruthTables(a: Tri, b: Tri)
    ensures And(a, b) == True <==> a == True && b == True
    ensures And(a, b) == False <==> a == False || b == False
    ensures Or(a, b) == True <==> a == True || b == True
    ensures Or(a, b) == False <==> a == False && b == False
  {
  }

  function Truth(b: bool): Tri {
    if b then True else False
  }

  // NULL in, NULL out.
  function SqlBtrim(v: Option<string>): Option<string> {
    if v.None? then None else Some(Btrim(v.value))
  }

  function SqlLower(v: Option<string>): Option<string> {
    if v.None? then None else Some(Lower(v.value))
  }

  /** Counted from one; zero when it is not there. */
  function SqlStrpos(v: Option<string>, c: char): Option<int> {
    if v.None? then None else if c in v.value then Some(IndexOf(v.value, c) + 1) else Some(0)
  }

  /** `substr(v, start)`: a start before the string takes all of it. */
  function SqlSubstr(v: Option<string>, start: Option<int>): Option<string> {
    if v.None? || start.None? then None
    else if start.value < 1 then v
    else if start.value > |v.value| then Some("")
    else Some(v.value[start.value - 1..])
  }

  /** `split_part(v, c, 1)`. */
  function SqlSplitPart1(v: Option<string>, c: char): Option<string> {
    if v.None? then None else Some(v.value[..IndexOf(v.value, c)])
  }

  function SqlPlus1(n: Option<int>): Option<int> {
    if n.None? then None else Some(n.value + 1)
  }

  function SqlPositive(n: Option<int>): Tri {
    if n.None? then Null else Truth(n.value > 0)
  }

  function SqlNotEmpty(v: Option<string>): Tri {
    if v.None? then Null else Truth(v.value != "")
  }

  function SqlNotIn(v: Option<string>, names: set<string>): Tri {
    if v.None? then Null else Truth(v.value !in names)
  }

  function NonBlank(col: Option<string>): Tri {
    And(Truth(col.Some?), SqlNotEmpty(SqlBtrim(col)))
  }

  function SendableSql(col: Option<string>): Tri {
    var domain := SqlLower(SqlBtrim(SqlSubstr(col, SqlPlus1(SqlStrpos(col, '@')))));
    And(NonBlank(col),
        And(SqlPositive(SqlStrpos(col, '@')),
            And(SqlNotEmpty(SqlBtrim(SqlSplitPart1(col, '@'))),
                And(SqlPositive(SqlStrpos(domain, '.')),
                    SqlNotIn(domain, UNSENDABLE_DOMAINS)))))
  }

  function HasEmailValueSql(personal: Option<string>, work: Option<string>): Tri {
    Or(NonBlank(personal), NonBlank(work))
  }

  function ReachableSql(personal: Option<string>, work: Option<string>): Tri {
    Or(SendableSql(personal), SendableSql(work))
  }

  // --- The two trims ---------------------------------------------------------------------------

  lemma StripFacts(s: string, c: char)
    requires !IsSpace(c)
    ensures c in Strip(s) <==> c in s
    ensures c in Btrim(s) <==> c in s
  {
    var l, r := TrimParts(s, IsSpace);
    var bl, br := TrimParts(s, IsBlank);
  }

  /** Whatever spaces alone leave blank, whitespace leaves blank. */
  lemma BlankEitherWay(s: string)
    requires Btrim(s) == ""
    ensures Strip(s) == ""
  {
    var l, r := TrimParts(s, IsBlank);
    assert s == s + "" + "" && All(s, IsSpace);
    TrimIs(s, "", "", IsSpace);
  }

  /** Where trimming spaces leaves nothing that whitespace trimming would take, the two agree. */
  lemma SameTrim(s: string)
    requires IsTrimmed(Btrim(s), IsSpace)
    ensures Strip(s) == Btrim(s)
  {
    var l, r := TrimParts(s, IsBlank);
    TrimIs(l, Btrim(s), r, IsSpace);
  }

  predicate OnlySpaces(s: string) {
    forall c <- s :: IsSpace(c) ==> c == ' '
  }

  lemma SameTrimOnSpaces(s: string)
    requires OnlySpaces(s)
    ensures Strip(s) == Btrim(s)
  {
    var l, r := TrimParts(s, IsBlank);
    var m := Btrim(s);
    assert m != "" ==> m[0] in s && m[|m| - 1] in s;
    SameTrim(s);
  }

  /** A reserved name holds no whitespace, so spaces around it are the only thing `btrim` must remove. */
  lemma ReservedIsTrimmed(m: string)
    requires Lower(m) in UNSENDABLE_DOMAINS
    ensures IsTrimmed(m, IsSpace)
  {
    var x := Lower(m);
    assert forall name <- UNSENDABLE_DOMAINS :: name != "" && 'a' <= name[0] <= 'z' && 'a' <= name[|name| - 1] <= 'z';
    assert x[0] == LowerChar(m[0]) && x[|x| - 1] == LowerChar(m[|m| - 1]);
  }

  // --- The twins -------------------------------------------------------------------------------

  /** What the SQL predicate says of a row's value, as a two-valued test. */
  predicate SqlAccepts(s: string) {
    && '@' in s
    && Btrim(Local(s)) != ""
    && '.' in Domain(s)
    && Lower(Btrim(Domain(s))) !in UNSENDABLE_DOMAINS
  }

  lemma LowerKeepsDot(s: string)
    ensures '.' in Lower(s) <==> '.' in s
  {
    var x := Lower(s);
    if '.' in x {
      var i :| 0 <= i < |x| && x[i] == '.';
      assert s[i] == '.';
    }
    if '.' in s {
      var i :| 0 <= i < |s| && s[i] == '.';
      assert x[i] == '.';
    }
  }

  /** The predicate is never NULL, and `partition` and `strpos` cut at the same '@'. */
  lemma SqlDecides(col: Option<string>)
    ensures SendableSql(col) == Truth(col.Some? && SqlAccepts(col.value))
    ensures NonBlank(col) == Truth(col.Some? && Btrim(col.value) != "")
    ensures SendableSql(col) == True ==> NonBlank(col) == True
  {
    if col.Some? && '@' in col.value {
      var s := col.value;
      var n := IndexOf(s, '@');
      StripFacts(s, '@');
      StripFacts(Domain(s), '.');
      hide Trim, Lower, IsSpace;
      assert n + 1 == |s| ==> s[n + 1..] == "";
      assert SqlSubstr(col, Some(n + 2)) == Some(Domain(s));
      LowerKeepsDot(Btrim(Domain(s)));
    }
  }

  /** Every address the send loop would use is counted, whatever its characters. */
  lemma SendableIsCounted(email: Option<string>)
    requires IsSendable(email)
    ensures SendableSql(email) == True
  {
    SqlDecides(email);
    PythonDecides(email.value);
    var s := email.value;
    if Btrim(Local(s)) == "" {
      BlankEitherWay(Local(s));
    }
    if Lower(Btrim(Domain(s))) in UNSENDABLE_DOMAINS {
      ReservedIsTrimmed(Btrim(Domain(s)));
      SameTrim(Domain(s));
    }
  }

  lemma PythonDecides(s: string)
    ensures IsSendable(Some(s)) <==>
            && '@' in s
            && Strip(Local(s)) != ""
            && '.' in Domain(s)
            && Lower(Strip(Domain(s))) !in UNSENDABLE_DOMAINS
  {
    if '@' in s {
      LowerKeepsDot(Strip(Domain(s)));
      StripFacts(Domain(s), '.');
    }
  }

  /** A local part of whitespace only, some of it not a space; or a reserved domain with such
      whitespace at an end. */
  predicate HidesBehindWhitespace(s: string)
    requires '@' in s
  {
    var local, domain := Local(s), Domain(s);
    || (All(local, IsSpace) && !OnlySpaces(local) && Lower(Btrim(domain)) !in UNSENDABLE_DOMAINS)
    || (!All(local, IsBlank) && Lower(Strip(domain)) in UNSENDABLE_DOMAINS && Strip(domain) != Btrim(domain))
  }

  lemma BlankIff(s: string)
    ensures Strip(s) == "" <==> All(s, IsSpace)
    ensures Btrim(s) == "" <==> All(s, IsBlank)
  {
    var l, r := TrimParts(s, IsSpace);
    var bl, br := TrimParts(s, IsBlank);
    assert s == s + "" + "";
    if All(s, IsSpace) {
      TrimIs(s, "", "", IsSpace);
    }
    if All(s, IsBlank) {
      TrimIs(s, "", "", IsBlank);
    }
  }

  /** The predicate and the rule differ on exactly one family of values: those with an '@', a dot in the
      domain, and whitespace other than spaces around a missing local part or a reserved domain. */
  lemma TwinsAgreeIff(col: Option<string>)
    ensures (SendableSql(col) == Truth(IsSendable(col)))
            <==> !(col.Some? && '@' in col.value && '.' in Domain(col.value) && HidesBehindWhitespace(col.value))
  {
    SqlDecides(col);
    if col.Some? {
      var s := col.value;
      PythonDecides(s);
      hide Trim, Lower, IsSpace, IsBlank, SendableSql, IsSendable, IndexOf;
      if '@' in s {
        BlankIff(Local(s));
        TrimsOfADomain(Domain(s));
        SpacesOrNot(Local(s));
      }
    }
  }

  lemma TrimsOfADomain(domain: string)
    ensures Lower(Btrim(domain)) in UNSENDABLE_DOMAINS ==> Strip(domain) == Btrim(domain)
  {
    if Lower(Btrim(domain)) in UNSENDABLE_DOMAINS {
      ReservedIsTrimmed(Btrim(domain));
      SameTrim(domain);
    }
  }

  lemma SpacesOrNot(local: string)
    ensures All(local, IsSpace) && OnlySpaces(local) <==> All(local, IsBlank)
  {
  }

  /** Where spaces are the only whitespace, the twins are equal. */
  lemma TwinsAgreeOnSpaces(col: Option<string>)
    requires col.Some? ==> OnlySpaces(col.value)
    ensures SendableSql(col) == Truth(IsSendable(col))
  {
    TwinsAgreeIff(col);
    if col.Some? && '@' in col.value {
      var s := col.value;
      assert forall c <- Local(s) :: c in s;
      assert forall c <- Domain(s) :: c in s;
      SameTrimOnSpaces(Domain(s));
    }
  }

  /** A tab in place of a name is reachable to the counts and not to the send loop. */
  lemma ATabIsCountedAndNeverMailed()
    ensures IsSendable(Some("\t@byu.edu")) == false
    ensures SendableSql(Some("\t@byu.edu")) == True
  {
    var s := "\t@byu.edu";
    TabIsNoName(s);
    PlainDomain("byu.edu");
    SqlDecides(Some(s));
    PythonDecides(s);
    hide *;
  }

  lemma TabIsNoName(s: string)
    requires s == "\t@byu.edu"
    ensures '@' in s && Local(s) == "\t" && Domain(s) == "byu.edu"
    ensures Strip("\t") == "" && Btrim("\t") != ""
  {
    assert s[1] == '@';
    BlankIff("\t");
    assert !All("\t", IsBlank) by { assert "\t"[0] == '\t'; }
  }

  lemma PlainDomain(domain: string)
    requires domain == "byu.edu"
    ensures '.' in domain && Lower(Btrim(domain)) !in UNSENDABLE_DOMAINS
  {
    TrimmedStays(domain, IsBlank);
    assert domain[3] == '.' && Lower(domain)[0] == 'b';
    assert forall name <- UNSENDABLE_DOMAINS :: name[0] != 'b';
  }

  // --- Reach -----------------------------------------------------------------------------------

  /** Whoever resolves to an address is counted reachable, and the address is one of their own that may
      be sent to, the personal one whenever that may. */
  lemma ResolvedIsReachable(personal: Option<string>, work: Option<string>)
    requires ResolveEmail(personal, work).Some?
    ensures ReachableSql(personal, work) == True
    ensures var (address, source) := ResolveEmail(personal, work).value;
            && IsSendable(Some(address))
            && Some(address) == (if source == Personal then personal else work)
            && (source == Work ==> !IsSendable(personal))
  {
    if IsSendable(personal) {
      SendableIsCounted(personal);
    } else {
      SendableIsCounted(work);
    }
  }

  /** Where spaces are the only whitespace, the count is exactly the people the send loop would mail. */
  lemma ReachableIffResolved(personal: Option<string>, work: Option<string>)
    requires personal.Some? ==> OnlySpaces(personal.value)
    requires work.Some? ==> OnlySpaces(work.value)
    ensures ReachableSql(personal, work) == Truth(ResolveEmail(personal, work).Some?)
  {
    TwinsAgreeOnSpaces(personal);
    TwinsAgreeOnSpaces(work);
  }

  /** The reachable have a value, so negating both never counts fewer unreachable than missing. */
  lemma ReachableHasAValue(personal: Option<string>, work: Option<string>)
    ensures ReachableSql(personal, work) == True ==> HasEmailValueSql(personal, work) == True
    ensures ReachableSql(personal, work) != Null && HasEmailValueSql(personal, work) != Null
  {
    SqlDecides(personal);
    SqlDecides(work);
  }

  type Row = (Option<string>, Option<string>)

  function Unreachable(rows: seq<Row>): nat {
    if rows == [] then 0
    else (if ReachableSql(rows[0].0, rows[0].1) == False then 1 else 0) + Unreachable(rows[1..])
  }

  function Missing(rows: seq<Row>): nat {
    if rows == [] then 0
    else (if HasEmailValueSql(rows[0].0, rows[0].1) == False then 1 else 0) + Missing(rows[1..])
  }

  /** A value is one that is not spaces alone. */
  ghost predicate HasText(v: Option<string>) {
    v.Some? && exists c <- v.value :: c != ' '
  }

  lemma HasTextIff(v: Option<string>)
    ensures NonBlank(v) == Truth(HasText(v))
  {
    if v.Some? {
      var l, r := TrimParts(v.value, IsBlank);
      var m := Btrim(v.value);
      if m == "" {
        assert forall c <- v.value :: c == ' ';
      } else {
        assert m[0] in v.value && m[0] != ' ';
      }
      hide Trim;
    }
  }

  /** What each row adds to the two counts: one to the unreachable unless the predicate holds, and one to the missing
      unless one of the two addresses is not spaces alone. */
  lemma CountsGrow(rows: seq<Row>, personal: Option<string>, work: Option<string>)
    ensures Unreachable([]) == 0 && Missing([]) == 0
    ensures Unreachable([(personal, work)] + rows) == Unreachable(rows) + (if ReachableSql(personal, work) == True then 0 else 1)
    ensures Missing([(personal, work)] + rows) == Missing(rows) + (if HasText(personal) || HasText(work) then 0 else 1)
  {
    assert ([(personal, work)] + rows)[1..] == rows;
    ReachableHasAValue(personal, work);
    HasTextIff(personal);
    HasTextIff(work);
    hide ReachableSql, NonBlank, HasText;
  }

  /** Over any table, the unreachable are at least the missing. */
  lemma {:induction false} UnreachableIsAtLeastMissing(rows: seq<Row>)
    ensures Unreachable(rows) >= Missing(rows)
  {
    if rows != [] {
      ReachableHasAValue(rows[0].0, rows[0].1);
      UnreachableIsAtLeastMissing(rows[1..]);
    }
  }
}
