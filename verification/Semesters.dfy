/** The semester calendar, read on the clock of Denver: instants are microseconds, counted from the start of
    the year 1, and days are counted from zero on 1 January of that year, a Monday. */
module Semesters {
  import opened Wrappers
  import opened Text
  import opened Numerals
  import opened Sorting

  function Hours(n: int): int {
    n * 3_600_000_000
  }

  /** When a day starts. */
  function Midnight(day: int): int {
    day * 86_400_000_000
  }

  function DayOf(t: int): (day: int)
    ensures Midnight(day) <= t < Midnight(day + 1)
  {
    t / 86_400_000_000
  }

  // --- The calendar ----------------------------------------------------------------------------

  predicate IsLeap(year: int) {
    year % 4 == 0 && (year % 100 != 0 || year % 400 == 0)
  }

  function DaysInMonth(year: int, month: int): int {
    if month == 2 then (if IsLeap(year) then 29 else 28)
    else if month in {4, 6, 9, 11} then 30
    else 31
  }

  /** The first day of a month; months are counted on through the years, January of the year 1 being the
      twelfth. */
  function FirstDay(m: nat): (d: nat)
    requires m >= 12
  {
    if m == 12 then 0 else FirstDay(m - 1) + DaysInMonth((m - 1) / 12, (m - 1) % 12 + 1)
  }

  function MonthFrom(m: nat, day: nat): (r: nat)
    requires m >= 12 && FirstDay(m) <= day
    ensures r >= m && FirstDay(r) <= day < FirstDay(r + 1)
    decreases day - FirstDay(m)
  {
    if day < FirstDay(m + 1) then m else MonthFrom(m + 1, day)
  }

  /** The month a day is in. */
  function MonthOf(day: nat): nat {
    MonthFrom(12, day)
  }

  lemma {:induction false} MonthsIncrease(a: nat, b: nat)
    requires 12 <= a <= b
    ensures FirstDay(a) + 28 * (b - a) <= FirstDay(b)
  {
    if a < b {
      MonthsIncrease(a, b - 1);
    }
  }

  lemma MonthOfIff(day: nat, m: nat)
    requires m >= 12
    ensures MonthOf(day) >= m <==> day >= FirstDay(m)
  {
    var r := MonthOf(day);
    if r >= m {
      MonthsIncrease(m, r);
    } else {
      MonthsIncrease(r + 1, m);
    }
  }

  /** The first day of a month of a year, the thirteenth being the next January. */
  function First(year: nat, month: nat): nat
    requires year >= 1 && 1 <= month <= 13
  {
    FirstDay(12 * year + month - 1)
  }

  lemma MonthStep(year: nat, month: nat)
    requires year >= 1 && 1 <= month <= 12
    ensures First(year, month + 1) == First(year, month) + DaysInMonth(year, month)
  {
    var m := 12 * year + month;
    assert (m - 1) / 12 == year && (m - 1) % 12 == month - 1;
  }

  /** From March on, months start at the same distances in every year. */
  lemma DaysFromMarch(year: nat)
    requires year >= 1
    ensures var march := First(year, 3);
            && march - 60 <= First(year, 1) <= march - 59
            && First(year, 4) == march + 31 && First(year, 5) == march + 61
            && First(year, 7) == march + 122 && First(year, 9) == march + 184
            && First(year, 11) == march + 245 && First(year, 13) == march + 306
  {
    hide First;
    MonthStep(year, 1); MonthStep(year, 2); MonthStep(year, 3); MonthStep(year, 4);
    MonthStep(year, 5); MonthStep(year, 6); MonthStep(year, 7); MonthStep(year, 8);
    MonthStep(year, 9); MonthStep(year, 10); MonthStep(year, 11); MonthStep(year, 12);
  }

  // --- The clock of Denver ---------------------------------------------------------------------

  /** The first Sunday on or after a day, and the last on or before one. */
  function SundayFrom(day: int): (d: int)
    ensures d % 7 == 6 && day <= d < day + 7
  {
    day + (6 - day % 7)
  }

  function SundayUpTo(day: int): (d: int)
    ensures d % 7 == 6 && day - 7 < d <= day
  {
    day - (day + 1) % 7
  }

  /** Daylight time begins at 09:00 UTC on the second Sunday of March, before 2007 the first of April. */
  function DstStart(year: nat): int
    requires year >= 1
  {
    Midnight(if year >= 2007 then SundayFrom(First(year, 3)) + 7 else SundayFrom(First(year, 4))) + Hours(9)
  }

  /** It ends at 08:00 UTC on the first Sunday of November, before 2007 the last of October. */
  function DstEnd(year: nat): int
    requires year >= 1
  {
    Midnight(if year >= 2007 then SundayFrom(First(year, 11)) else SundayUpTo(First(year, 11) - 1)) + Hours(8)
  }

  function YearOf(t: int): (y: nat)
    requires t >= 0
    ensures y >= 1
  {
    MonthOf(DayOf(t)) / 12
  }

  /** What the clock shows at an instant. */
  function ToLocal(t: int): (local: int)
    requires t >= 0
    ensures t - Hours(7) <= local <= t - Hours(6)
  {
    var y := YearOf(t);
    if DstStart(y) <= t < DstEnd(y) then t - Hours(6) else t - Hours(7)
  }

  /** The instant of a time on the clock, the earlier one when there are two (`fold=0`). */
  function ToUtc(local: int): (t: int)
    requires local >= 0
    ensures local + Hours(6) <= t <= local + Hours(7)
  {
    var y := YearOf(local);
    if DstStart(y) - Hours(6) <= local < DstEnd(y) - Hours(6) then local + Hours(6) else local + Hours(7)
  }

  /** Daylight time runs from within March or April to within October or November. */
  lemma DstSeason(year: nat)
    requires year >= 1
    ensures var march := First(year, 3);
            && Midnight(march + 7) <= DstStart(year) < Midnight(march + 39)
            && Midnight(march + 237) <= DstEnd(year) < Midnight(march + 253)
  {
    DaysFromMarch(year);
    hide First, SundayFrom, SundayUpTo;
  }

  lemma YearStarts(t: int, year: nat)
    requires t >= 0 && year >= 1
    ensures YearOf(t) >= year <==> t >= Midnight(First(year, 1))
  {
    hide FirstDay, MonthOf;
    MonthOfIff(DayOf(t), 12 * year);
  }

  lemma YearIs(t: int, year: nat)
    requires t >= 0 && year >= 1
    ensures YearOf(t) == year <==> Midnight(First(year, 1)) <= t < Midnight(First(year, 13))
  {
    YearStarts(t, year);
    YearStarts(t, year + 1);
    assert First(year, 13) == First(year + 1, 1);
  }

  /** At the midnight a term starts it is daylight time, except in January. */
  lemma TermMidnight(year: nat, month: nat)
    requires year >= 1 && month in {1, 5, 7, 9}
    ensures var midnight := Midnight(First(year, month));
            ToUtc(midnight) == midnight + Hours(if month == 1 then 7 else 6)
  {
    var midnight := Midnight(First(year, month));
    DaysFromMarch(year);
    DstSeason(year);
    YearIs(midnight, year);
    hide First, DstStart, DstEnd, YearOf;
  }

  /** Where a term starts, the clock reads midnight or later exactly from one instant on. */
  lemma TermsStartCleanly(year: nat, month: nat, t: int)
    requires year >= 1 && month in {1, 5, 7, 9} && t >= 0
    ensures var midnight := Midnight(First(year, month));
            ToLocal(t) >= midnight <==> t >= ToUtc(midnight)
  {
    TermMidnight(year, month);
    DaysFromMarch(year);
    DstSeason(year);
    YearIs(t, year);
    hide First, DstStart, DstEnd, YearOf, ToUtc;
    if YearOf(t) != year {
      hide ToLocal;
    }
  }

  // --- Semesters -------------------------------------------------------------------------------

  datatype Term = Winter | Spring | Summer | Fall

  datatype Semester = Semester(term: Term, year: nat)

  function FirstMonth(term: Term): nat {
    match term
    case Winter => 1
    case Spring => 5
    case Summer => 7
    case Fall => 9
  }

  function LastMonth(term: Term): nat {
    match term
    case Winter => 4
    case Spring => 6
    case Summer => 8
    case Fall => 12
  }

  function TermForMonth(month: nat): Term {
    if month <= 4 then Winter else if month <= 6 then Spring else if month <= 8 then Summer else Fall
  }

  /** `Semester.bounds`. */
  function Bounds(s: Semester): (int, int)
    requires s.year >= 1
  {
    (ToUtc(Midnight(First(s.year, FirstMonth(s.term)))), ToUtc(Midnight(EndDay(s))))
  }

  /** The day after a term's last. */
  function EndDay(s: Semester): nat
    requires s.year >= 1
  {
    if LastMonth(s.term) == 12 then First(s.year + 1, 1) else First(s.year, LastMonth(s.term) + 1)
  }

  /** `semester_of`: the semester the clock of Denver is in. */
  function SemesterOf(t: int): (s: Semester)
    requires t >= Hours(7)
    ensures s.year >= 1
  {
    var m := MonthOf(DayOf(ToLocal(t)));
    Semester(TermForMonth(m % 12 + 1), m / 12)
  }

  function Next(s: Semester): (next: Semester)
    ensures next.year >= s.year
  {
    match s.term
    case Winter => Semester(Spring, s.year)
    case Spring => Semester(Summer, s.year)
    case Summer => Semester(Fall, s.year)
    case Fall => Semester(Winter, s.year + 1)
  }

  function Position(term: Term): nat {
    match term
    case Winter => 0
    case Spring => 1
    case Summer => 2
    case Fall => 3
  }

  function SortKey(s: Semester): (nat, nat) {
    (s.year, Position(s.term))
  }

  predicate Before(a: Semester, b: Semester) {
    var (x, i) := SortKey(a);
    var (y, j) := SortKey(b);
    x < y || (x == y && i < j)
  }

  function StartMonth(s: Semester): nat
    requires s.year >= 1
    ensures StartMonth(s) >= 12
  {
    12 * s.year + FirstMonth(s.term) - 1
  }

  lemma BoundsStart(s: Semester)
    requires s.year >= 1
    ensures Bounds(s).0 == Midnight(FirstDay(StartMonth(s))) + Hours(if s.term == Winter then 7 else 6)
  {
    TermMidnight(s.year, FirstMonth(s.term));
  }

  lemma DayApart(day: int, later: int)
    requires day < later
    ensures Midnight(day) + Hours(7) < Midnight(later) + Hours(6)
    ensures Hours(6) < Hours(7)
  {
  }

  /** Each semester ends at the very instant the next one starts. */
  lemma SemestersTile(s: Semester)
    requires s.year >= 1
    ensures Bounds(s).1 == Bounds(Next(s)).0 && Bounds(s).0 < Bounds(s).1
  {
    EndIsNextStart(s);
    assert Bounds(s).1 == ToUtc(Midnight(EndDay(s))) && Bounds(Next(s)).0 == ToUtc(Midnight(First(Next(s).year, FirstMonth(Next(s).term))));
    BoundsStart(s);
    BoundsStart(Next(s));
    assert StartMonth(s) < StartMonth(Next(s));
    hide *;
    MonthsIncrease(StartMonth(s), StartMonth(Next(s)));
    DayApart(FirstDay(StartMonth(s)), FirstDay(StartMonth(Next(s))));
  }

  lemma EndIsNextStart(s: Semester)
    requires s.year >= 1
    ensures EndDay(s) == First(Next(s).year, FirstMonth(Next(s).term))
  {
    hide First;
  }

  /** The clock is at or past a term's first month exactly from the start of that term on. */
  lemma StartedIff(t: int, s: Semester)
    requires t >= Hours(7) && s.year >= 1
    ensures MonthOf(DayOf(ToLocal(t))) >= 12 * s.year + FirstMonth(s.term) - 1 <==> t >= Bounds(s).0
  {
    TermsStartCleanly(s.year, FirstMonth(s.term), t);
    MonthOfIff(DayOf(ToLocal(t)), 12 * s.year + FirstMonth(s.term) - 1);
    assert First(s.year, FirstMonth(s.term)) == FirstDay(12 * s.year + FirstMonth(s.term) - 1);
    hide FirstDay, MonthOf, ToLocal, ToUtc, First;
  }

  lemma NextMonth(s: Semester)
    ensures 12 * Next(s).year + FirstMonth(Next(s).term) - 1 == 12 * s.year + LastMonth(s.term)
  {
  }

  lemma SemesterByMonth(t: int, s: Semester)
    requires t >= Hours(7) && s.year >= 1
    ensures SemesterOf(t) == s <==>
            12 * s.year + FirstMonth(s.term) - 1 <= MonthOf(DayOf(ToLocal(t))) < 12 * s.year + LastMonth(s.term)
  {
    var m := MonthOf(DayOf(ToLocal(t)));
    hide MonthOf, ToLocal;
    MonthIn(m, s);
  }

  /** An instant is in a semester exactly when it is within its bounds, through every change of clock. */
  lemma InSemesterIff(t: int, s: Semester)
    requires t >= Hours(7) && s.year >= 1
    ensures SemesterOf(t) == s <==> Bounds(s).0 <= t < Bounds(s).1
  {
    NextMonth(s);
    SemesterByMonth(t, s);
    hide *;
    StartedIff(t, s);
    StartedIff(t, Next(s));
    SemestersTile(s);
  }

  lemma MonthIn(m: nat, s: Semester)
    requires s.year >= 1
    ensures Semester(TermForMonth(m % 12 + 1), m / 12) == s
            <==> 12 * s.year + FirstMonth(s.term) - 1 <= m < 12 * s.year + LastMonth(s.term)
  {
  }

  /** The order of sort keys is the order of time: an earlier semester is over when a later one starts. */
  lemma SortKeyIsChronological(a: Semester, b: Semester)
    requires a.year >= 1 && b.year >= 1
    ensures Before(a, b) <==> Bounds(a).1 <= Bounds(b).0
    ensures Before(a, b) <==> Bounds(a).0 < Bounds(b).0
  {
    if Before(a, b) {
      NoOverlap(a, b);
    } else if a != b {
      NoOverlap(b, a);
      SemestersTile(b);
    }
    SemestersTile(a);
  }

  lemma NextStartsFirst(a: Semester, b: Semester)
    requires a.year >= 1 && b.year >= 1 && Before(a, b)
    ensures Next(a).year >= 1 && (Next(a) == b || StartMonth(Next(a)) < StartMonth(b))
  {
  }

  lemma NoOverlap(a: Semester, b: Semester)
    requires a.year >= 1 && b.year >= 1 && Before(a, b)
    ensures Bounds(a).1 <= Bounds(b).0
  {
    NextStartsFirst(a, b);
    hide *;
    SemestersTile(a);
    BoundsStart(Next(a));
    BoundsStart(b);
    if Next(a) != b {
      MonthsIncrease(StartMonth(Next(a)), StartMonth(b));
      DayApart(FirstDay(StartMonth(Next(a))), FirstDay(StartMonth(b)));
    }
  }

  /** As time goes on the semester never goes back. */
  lemma SemesterFollowsTime(t: int, u: int)
    requires Hours(7) <= t <= u
    ensures !Before(SemesterOf(u), SemesterOf(t))
  {
    var a, b := SemesterOf(t), SemesterOf(u);
    InSemesterIff(t, a);
    InSemesterIff(u, b);
    SortKeyIsChronological(b, a);
  }

  // --- The query parameter ---------------------------------------------------------------------

  const MIN_YEAR: nat := 2000
  const MAX_YEAR: nat := 2100
  const MAX_SEMESTERS: nat := 12

  datatype Error = BadShape | BadYear | TooMany

  function TermName(term: Term): string {
    match term
    case Winter => "Winter"
    case Spring => "Spring"
    case Summer => "Summer"
    case Fall => "Fall"
  }

  function Key(s: Semester): string {
    TermName(s.term) + "-" + Decimal(s.year)
  }

  /** What follows a term's name and a hyphen. */
  function After(raw: string, term: Term): Option<string> {
    var head := TermName(term) + "-";
    if head <= raw then Some(raw[|head|..]) else None
  }

  function ParseYear(term: Term, digits: string): Result<Semester, Error> {
    if |digits| != 4 || !All(digits, IsDigit) then Err(BadShape)
    else if MIN_YEAR <= Value(digits) <= MAX_YEAR then Ok(Semester(term, Value(digits)))
    else Err(BadYear)
  }

  /** `parse_semester`. */
  function ParseSemester(raw: string): Result<Semester, Error> {
    if After(raw, Winter).Some? then ParseYear(Winter, After(raw, Winter).value)
    else if After(raw, Spring).Some? then ParseYear(Spring, After(raw, Spring).value)
    else if After(raw, Summer).Some? then ParseYear(Summer, After(raw, Summer).value)
    else if After(raw, Fall).Some? then ParseYear(Fall, After(raw, Fall).value)
    else Err(BadShape)
  }

  lemma OneTerm(raw: string, a: Term, b: Term)
    requires After(raw, a).Some? && After(raw, b).Some?
    ensures a == b
  {
    assert TermName(a)[0] == raw[0] == TermName(b)[0];
    assert TermName(a)[1] == raw[1] == TermName(b)[1];
  }

  lemma ParsesByTerm(raw: string, term: Term)
    requires After(raw, term).Some?
    ensures ParseSemester(raw) == ParseYear(term, After(raw, term).value)
  {
    forall other: Term | After(raw, other).Some?
      ensures other == term
    {
      OneTerm(raw, term, other);
    }
    hide After;
  }

  lemma YearIff(term: Term, digits: string, s: Semester)
    ensures ParseYear(term, digits) == Ok(s) <==> s.term == term && MIN_YEAR <= s.year <= MAX_YEAR && digits == Decimal(s.year)
  {
    assert Power10(1) == 10 && Power10(2) == 100 && Power10(3) == 1000 && Power10(4) == 10000;
    if MIN_YEAR <= s.year <= MAX_YEAR {
      DecimalWidth(s.year, 4);
      if |digits| == 4 && All(digits, IsDigit) && Value(digits) == s.year {
        SameLengthSameValue(digits, Decimal(s.year));
      }
    }
  }

  /** A value is accepted as a semester exactly when it is that semester's key and the year is in range. */
  lemma ParsesIffKey(raw: string, s: Semester)
    ensures ParseSemester(raw) == Ok(s) <==> raw == Key(s) && MIN_YEAR <= s.year <= MAX_YEAR
  {
    if ParseSemester(raw) == Ok(s) {
      var term := TermOf(raw);
      hide *;
      ParsesByTerm(raw, term);
      YearIff(term, After(raw, term).value, s);
      AfterIs(raw, term);
      KeyIs(s);
    }
    if raw == Key(s) && MIN_YEAR <= s.year <= MAX_YEAR {
      hide *;
      KeyIs(s);
      AfterKey(s.term, Decimal(s.year));
      ParsesByTerm(raw, s.term);
      YearIff(s.term, Decimal(s.year), s);
    }
  }

  lemma TermOf(raw: string) returns (term: Term)
    requires ParseSemester(raw).Ok?
    ensures After(raw, term).Some?
  {
    term := if After(raw, Winter).Some? then Winter else if After(raw, Spring).Some? then Spring
            else if After(raw, Summer).Some? then Summer else Fall;
    hide After;
  }

  lemma KeyIs(s: Semester)
    ensures Key(s) == TermName(s.term) + "-" + Decimal(s.year)
  {
  }

  lemma AfterIs(raw: string, term: Term)
    requires After(raw, term).Some?
    ensures raw == TermName(term) + "-" + After(raw, term).value
  {
    hide TermName;
  }

  lemma AfterKey(term: Term, digits: string)
    ensures After(TermName(term) + "-" + digits, term) == Some(digits)
  {
    hide TermName;
    var raw, head := TermName(term) + "-" + digits, TermName(term) + "-";
    assert head <= raw && raw[|head|..] == digits;
  }

  /** The keys, by their words: a term's name, a hyphen, and a year from 2000 to 2100. */
  lemma KeysByWords(raw: string, s: Semester)
    ensures ParseSemester(raw) == Ok(s) <==>
            && 2000 <= s.year <= 2100
            && raw == (match s.term case Winter => "Winter-" case Spring => "Spring-" case Summer => "Summer-" case Fall => "Fall-") + Decimal(s.year)
    ensures Decimal(2026) == "2026"
  {
    ParsesIffKey(raw, s);
    assert "Winter" + "-" == "Winter-" && "Spring" + "-" == "Spring-" && "Summer" + "-" == "Summer-" && "Fall" + "-" == "Fall-";
    assert Decimal(2) == "2" && Decimal(20) == "20" && Decimal(202) == "202";
  }

  /** The terms, by the months on the clock of Denver. */
  lemma TermsByMonths(t: int)
    requires t >= Hours(7)
    ensures var month := MonthOf(DayOf(ToLocal(t))) % 12 + 1; var term := SemesterOf(t).term;
            && (term == Winter <==> 1 <= month <= 4) && (term == Spring <==> 5 <= month <= 6)
            && (term == Summer <==> 7 <= month <= 8) && (term == Fall <==> 9 <= month <= 12)
  {
    hide MonthOf, ToLocal;
  }

  /** The values in turn, up to the first that is refused. */
  function ParseAll(raw: seq<string>): Result<seq<Semester>, Error> {
    if raw == [] then Ok([])
    else
      var front := ParseAll(raw[..|raw| - 1]);
      var last := ParseSemester(raw[|raw| - 1]);
      if front.Err? then front
      else if last.Err? then Err(last.error)
      else Ok(front.value + [last.value])
  }

  function Unique<T(==,!new)>(s: seq<T>): (u: seq<T>)
    ensures Distinct(u) && forall x :: x in u <==> x in s
    ensures |u| <= |s|
  {
    if s == [] then []
    else
      var front := Unique(s[..|s| - 1]);
      assert s == s[..|s| - 1] + [s[|s| - 1]];
      if s[|s| - 1] in front then front else front + [s[|s| - 1]]
  }

  predicate NewerFirst(a: Semester, b: Semester) {
    !Before(a, b)
  }

  /** `parse_semesters`. */
  function ParseSemesters(raw: Option<seq<string>>): Result<seq<Semester>, Error> {
    if raw.None? || raw.value == [] then Ok([])
    else if |raw.value| > MAX_SEMESTERS then Err(TooMany)
    else
      var parsed := ParseAll(raw.value);
      if parsed.Err? then Err(parsed.error) else Ok(Sort(Unique(parsed.value), NewerFirst))
  }

  lemma {:induction false} ParseAllFacts(raw: seq<string>)
    ensures ParseAll(raw).Ok? <==> forall v <- raw :: ParseSemester(v).Ok?
    ensures ParseAll(raw).Ok? ==>
              && |ParseAll(raw).value| == |raw|
              && forall s :: s in ParseAll(raw).value <==> exists v <- raw :: ParseSemester(v) == Ok(s)
  {
    hide ParseSemester;
    if raw != [] {
      var n := |raw| - 1;
      assert raw == raw[..n] + [raw[n]];
      ParseAllFacts(raw[..n]);
    }
  }

  lemma NewerFirstIsTotal()
    ensures TotalPreorder(NewerFirst)
  {
  }

  lemma NewerFirstTells(a: Semester, b: Semester)
    requires NewerFirst(a, b) && NewerFirst(b, a)
    ensures a == b
  {
  }

  /** The order in which the set of parsed semesters is walked does not matter. */
  lemma AnyOrderSortsTheSame(a: seq<Semester>, b: seq<Semester>)
    requires Distinct(a) && Distinct(b) && forall s :: s in a <==> s in b
    ensures Sort(a, NewerFirst) == Sort(b, NewerFirst)
  {
    NewerFirstIsTotal();
    DistinctCounts(a);
    DistinctCounts(b);
    assert multiset(a) == multiset(b) by {
      forall s
        ensures multiset(a)[s] == multiset(b)[s]
      {
        if s in a {
          assert s in b;
        } else {
          assert s !in b && s !in multiset(a) && s !in multiset(b);
        }
      }
    }
    SortPermutes(a, NewerFirst);
    SortPermutes(b, NewerFirst);
    SortSorts(a, NewerFirst);
    SortSorts(b, NewerFirst);
    assert TellsApart(Sort(a, NewerFirst), NewerFirst) by {
      forall x, y | NewerFirst(x, y) && NewerFirst(y, x)
        ensures x == y
      {
        NewerFirstTells(x, y);
      }
    }
    hide Sort, Sorted, TellsApart, NewerFirst;
    SortedIsUnique(Sort(a, NewerFirst), Sort(b, NewerFirst), NewerFirst);
  }

  lemma KeyTells(a: Semester, b: Semester)
    requires Key(a) == Key(b)
    ensures a == b
  {
    assert TermName(a.term)[0] == Key(a)[0] && TermName(b.term)[0] == Key(b)[0];
    assert TermName(a.term)[1] == Key(a)[1] && TermName(b.term)[1] == Key(b)[1];
    assert a.term == b.term;
    var n := |TermName(a.term) + "-"|;
    assert Key(a)[n..] == Decimal(a.year) && Key(b)[n..] == Decimal(b.year);
  }

  lemma SortedUnique(l: seq<Semester>)
    ensures var r := Sort(Unique(l), NewerFirst);
            && |r| <= |l|
            && (forall s :: s in r <==> s in l)
            && (forall i, j :: 0 <= i < j < |r| ==> Before(r[j], r[i]))
  {
    var u := Unique(l);
    var r := Sort(u, NewerFirst);
    NewerFirstIsTotal();
    SortPermutes(u, NewerFirst);
    SortSorts(u, NewerFirst);
    DistinctPermutes(u, r);
    assert |r| == |multiset(r)| == |multiset(u)| == |u|;
    forall s
      ensures s in r <==> s in l
    {
      assert s in r <==> s in multiset(r);
      assert s in u <==> s in multiset(u);
    }
    forall i, j | 0 <= i < j < |r|
      ensures Before(r[j], r[i])
    {
      assert NewerFirst(r[i], r[j]) && r[i] != r[j];
      if NewerFirst(r[j], r[i]) {
        NewerFirstTells(r[i], r[j]);
      }
    }
  }

  /** What ticking some boxes selects: refused over twelve values or on any that is no key; else exactly the
      semesters whose keys were given, once each, newest first. */
  lemma TickedFacts(raw: seq<string>)
    ensures ParseSemesters(Some(raw)).Ok? <==> |raw| <= MAX_SEMESTERS && forall v <- raw :: ParseSemester(v).Ok?
    ensures ParseSemesters(Some(raw)) == Err(TooMany) <==> |raw| > MAX_SEMESTERS
    ensures ParseSemesters(Some(raw)).Ok? ==>
              var r := ParseSemesters(Some(raw)).value;
              && |r| <= MAX_SEMESTERS
              && (forall s :: s in r <==> Key(s) in raw)
              && (forall i, j :: 0 <= i < j < |r| ==> Before(r[j], r[i]))
  {
    ParseAllFacts(raw);
    NotTooMany(raw);
    if ParseSemesters(Some(raw)).Ok? {
      SortedUnique(ParseAll(raw).value);
      var r := ParseSemesters(Some(raw)).value;
      hide Sort, Unique, Before;
      forall s
        ensures s in r <==> Key(s) in raw
      {
        hide Key;
        if Key(s) in raw {
          var parsed := ParseSemester(Key(s)).value;
          ParsesIffKey(Key(s), parsed);
          KeyTells(s, parsed);
        }
        if s in r {
          assert raw != [];
          assert s in ParseAll(raw).value;
          var v :| v in raw && ParseSemester(v) == Ok(s);
          ParsesIffKey(v, s);
        }
      }
    }
  }

  lemma {:induction false} NotTooMany(raw: seq<string>)
    ensures ParseAll(raw) != Err(TooMany)
  {
    if raw != [] {
      NotTooMany(raw[..|raw| - 1]);
    }
  }

  /** The list's filter: a union of half-open ranges, one for each key; no keys, no restriction. */
  predicate FilterAdmits(keys: seq<string>, t: int) {
    keys == [] || exists key <- keys :: InRangeOf(key, t)
  }

  predicate InRangeOf(key: string, t: int) {
    && ParseSemester(key).Ok? && ParseSemester(key).value.year >= 1
    && Bounds(ParseSemester(key).value).0 <= t < Bounds(ParseSemester(key).value).1
  }

  lemma RangeOfAKey(s: Semester, t: int)
    requires ParseSemester(Key(s)).Ok? && t >= Hours(7)
    ensures InRangeOf(Key(s), t) <==> SemesterOf(t) == s
  {
    var parsed := ParseSemester(Key(s)).value;
    ParsesIffKey(Key(s), parsed);
    KeyTells(s, parsed);
    InSemesterIff(t, s);
  }

  function Keys(semesters: seq<Semester>): (k: seq<string>)
    ensures |k| == |semesters| && forall i :: 0 <= i < |k| ==> k[i] == Key(semesters[i])
  {
    seq(|semesters|, i requires 0 <= i < |semesters| => Key(semesters[i]))
  }

  /** From the boxes to the rows: a link is listed exactly when nothing was ticked or the semester it was
      submitted in was. */
  lemma FilterIsWhatWasTicked(raw: seq<string>, t: int)
    requires ParseSemesters(Some(raw)).Ok? && t >= Hours(7)
    ensures FilterAdmits(Keys(ParseSemesters(Some(raw)).value), t) <==> raw == [] || Key(SemesterOf(t)) in raw
  {
    TickedFacts(raw);
    var r := ParseSemesters(Some(raw)).value;
    var s := SemesterOf(t);
    var keys := Keys(r);
    if raw != [] {
      SomethingIsTicked(raw);
      hide *;
      forall i | 0 <= i < |r|
        ensures InRangeOf(keys[i], t) <==> r[i] == s
      {
        assert r[i] in r && Key(r[i]) in raw;
        RangeOfAKey(r[i], t);
      }
      InSomeRange(r, s, t);
    }
  }

  lemma InSomeRange(r: seq<Semester>, s: Semester, t: int)
    requires r != [] && forall i :: 0 <= i < |r| ==> (InRangeOf(Keys(r)[i], t) <==> r[i] == s)
    ensures FilterAdmits(Keys(r), t) <==> s in r
  {
    hide InRangeOf, Key;
    var keys := Keys(r);
    if s in r {
      var i :| 0 <= i < |r| && r[i] == s;
      assert keys[i] in keys;
    }
    if key :| key in keys && InRangeOf(key, t) {
      var i :| 0 <= i < |keys| && keys[i] == key;
      assert r[i] == s;
    }
  }

  lemma SomethingIsTicked(raw: seq<string>)
    requires ParseSemesters(Some(raw)).Ok? && raw != []
    ensures ParseSemesters(Some(raw)).value != []
  {
    TickedFacts(raw);
    var s := ParseSemester(raw[0]).value;
    assert raw[0] in raw;
    ParsesIffKey(raw[0], s);
    assert s in ParseSemesters(Some(raw)).value;
  }

  /** In a list ordered by submission, newest first, every semester is one unbroken run of rows. */
  lemma EachSemesterIsOneRun(submitted: seq<int>, i: nat, j: nat, k: nat)
    requires forall a, b :: 0 <= a < b < |submitted| ==> submitted[a] >= submitted[b]
    requires forall a :: 0 <= a < |submitted| ==> submitted[a] >= Hours(7)
    requires i < j < k < |submitted|
    ensures SemesterOf(submitted[i]) == SemesterOf(submitted[k]) ==> SemesterOf(submitted[j]) == SemesterOf(submitted[i])
  {
    hide SemesterOf;
    SemesterFollowsTime(submitted[k], submitted[j]);
    SemesterFollowsTime(submitted[j], submitted[i]);
  }
}
