/** The order of the alumni list, and paging through it by offset. */
module AlumniOrder {
  import opened Wrappers
  import opened Text
  import opened Sorting

  /** One matching row: the columns and expressions it can be sorted by, any of them NULL but the key. */
  datatype Row = Row(
    alumniId: int,
    lastName: Option<string>,
    graduationYear: Option<int>,
    gender: Option<string>,
    updatedAt: Option<int>,
    primaryIndustry: Option<string>,
    secondaryIndustry: Option<string>,
    city: Option<string>,
    state: Option<string>,
    employer: Option<string>,
    relevance: Option<real>)

  /** `nullif(trim(v), '')`. */
  function TrimToNull(v: Option<string>): Option<string> {
    if v.None? || Btrim(v.value) == "" then None else Some(Btrim(v.value))
  }

  /** `displayed_industry`. */
  function DisplayedIndustry(primary: Option<string>, secondary: Option<string>): Option<string> {
    if primary.Some? && Lower(primary.value) == "other" && TrimToNull(secondary).Some?
    then TrimToNull(secondary)
    else TrimToNull(primary)
  }

  // --- Comparing one column --------------------------------------------------------------------

  datatype Value = Null | Text(s: string) | Number(n: int) | Score(x: real)

  datatype Column = LastName | AlumniId | GraduationYear | Gender | UpdatedAt | Industry | City | State | Employer | Relevance

  /** An item of an ORDER BY. In PostgreSQL an ascending item puts NULLs last unless told otherwise, a
      descending one first. */
  datatype Item = Item(column: Column, descending: bool, nullsFirst: bool)

  function Asc(c: Column): Item {
    Item(c, false, false)
  }

  function Desc(c: Column): Item {
    Item(c, true, true)
  }

  function NullsLast(i: Item): Item {
    i.(nullsFirst := false)
  }

  function OfText(v: Option<string>): Value {
    if v.None? then Null else Text(v.value)
  }

  function OfNumber(v: Option<int>): Value {
    if v.None? then Null else Number(v.value)
  }

  function ValueOf(c: Column, r: Row): Value {
    match c
    case LastName => OfText(r.lastName)
    case AlumniId => Number(r.alumniId)
    case GraduationYear => OfNumber(r.graduationYear)
    case Gender => OfText(r.gender)
    case UpdatedAt => OfNumber(r.updatedAt)
    case Industry => OfText(DisplayedIndustry(r.primaryIndustry, r.secondaryIndustry))
    case City => OfText(r.city)
    case State => OfText(r.state)
    case Employer => OfText(r.employer)
    case Relevance => if r.relevance.None? then Null else Score(r.relevance.value)
  }

  /** How two values that are not NULL compare; texts by the collation. */
  predicate ValueLe(a: Value, b: Value, collation: (string, string) -> bool) {
    match (a, b)
    case (Text(s), Text(t)) => collation(s, t)
    case (Number(m), Number(n)) => m <= n
    case (Score(x), Score(y)) => x <= y
    case _ => true
  }

  predicate ItemLe(i: Item, collation: (string, string) -> bool, a: Row, b: Row) {
    var x, y := ValueOf(i.column, a), ValueOf(i.column, b);
    if x.Null? then y.Null? || i.nullsFirst
    else if y.Null? then !i.nullsFirst
    else if i.descending then ValueLe(y, x, collation)
    else ValueLe(x, y, collation)
  }

  /** The whole ORDER BY: a later item decides only where the earlier ones tie. */
  predicate OrderLe(items: seq<Item>, collation: (string, string) -> bool, a: Row, b: Row) {
    items == [] ||
    (ItemLe(items[0], collation, a, b) && (ItemLe(items[0], collation, b, a) ==> OrderLe(items[1..], collation, a, b)))
  }

  function By(items: seq<Item>, collation: (string, string) -> bool): (Row, Row) -> bool {
    (a, b) => OrderLe(items, collation, a, b)
  }

  // --- The sort tokens -------------------------------------------------------------------------

  /** `alumni_order_by`; `supplied` are the related tokens whose expression the caller gives. */
  function AlumniOrderBy(sort: Option<string>, supplied: set<string>): seq<Item> {
    var byName := [Asc(LastName), Asc(AlumniId)];
    var token := if sort.None? || sort.value == "" then "name" else sort.value;
    if token == "grad_desc" then [NullsLast(Desc(GraduationYear)), Asc(LastName), Asc(AlumniId)]
    else if token == "grad_asc" then [NullsLast(Asc(GraduationYear)), Asc(LastName), Asc(AlumniId)]
    else if token == "gender" then [NullsLast(Asc(Gender)), Asc(LastName), Asc(AlumniId)]
    else if token == "updated" then [NullsLast(Desc(UpdatedAt)), Asc(AlumniId)]
    else if token == "industry" && token in supplied then [NullsLast(Asc(Industry)), Asc(LastName), Asc(AlumniId)]
    else if token == "city" && token in supplied then [NullsLast(Asc(City)), Asc(LastName), Asc(AlumniId)]
    else if token == "state" && token in supplied then [NullsLast(Asc(State)), Asc(LastName), Asc(AlumniId)]
    else if token == "employer" && token in supplied then [NullsLast(Asc(Employer)), Asc(LastName), Asc(AlumniId)]
    else if token == "relevance" && token in supplied then [Desc(Relevance), Asc(LastName), Asc(AlumniId)]
    else byName
  }

  /** The token `list_page` sorts by: what was asked for, else relevance for a search, else the name. */
  function ListOrder(sort: Option<string>, isSearch: bool): seq<Item> {
    var token := if sort.Some? && sort.value != "" then sort.value else if isSearch then "relevance" else "name";
    AlumniOrderBy(Some(token), {"industry", "city", "state", "employer"} + (if isSearch then {"relevance"} else {}))
  }

  // --- It is a total order ---------------------------------------------------------------------

  lemma ItemIsTotal(i: Item, collation: (string, string) -> bool, a: Row, b: Row, c: Row)
    requires TotalPreorder(collation)
    ensures ItemLe(i, collation, a, b) || ItemLe(i, collation, b, a)
    ensures ItemLe(i, collation, a, b) && ItemLe(i, collation, b, c) ==> ItemLe(i, collation, a, c)
  {
    hide DisplayedIndustry;
  }

  lemma {:induction false} OrderIsTotal(items: seq<Item>, collation: (string, string) -> bool, a: Row, b: Row, c: Row)
    requires TotalPreorder(collation)
    ensures OrderLe(items, collation, a, b) || OrderLe(items, collation, b, a)
    ensures OrderLe(items, collation, a, b) && OrderLe(items, collation, b, c) ==> OrderLe(items, collation, a, c)
  {
    if items != [] {
      ItemIsTotal(items[0], collation, a, b, c);
      ItemIsTotal(items[0], collation, b, c, a);
      ItemIsTotal(items[0], collation, c, a, b);
      hide ItemLe;
      OrderIsTotal(items[1..], collation, a, b, c);
    }
  }

  /** Whatever an ORDER BY ends on, rows it cannot tell apart agree on. */
  lemma {:induction false} TiedOnTheLast(items: seq<Item>, collation: (string, string) -> bool, a: Row, b: Row)
    requires items != [] && OrderLe(items, collation, a, b) && OrderLe(items, collation, b, a)
    ensures ItemLe(items[|items| - 1], collation, a, b) && ItemLe(items[|items| - 1], collation, b, a)
  {
    hide ItemLe;
    if |items| > 1 {
      TiedOnTheLast(items[1..], collation, a, b);
    }
  }

  predicate UniqueIds(rows: seq<Row>) {
    forall a, b :: a in rows && b in rows && a.alumniId == b.alumniId ==> a == b
  }

  /** Every sort token, known or not, orders rows totally: NULLs, ties and all, the key decides. */
  lemma EveryTokenIsATotalOrder(sort: Option<string>, isSearch: bool, collation: (string, string) -> bool, rows: seq<Row>)
    requires TotalPreorder(collation) && UniqueIds(rows)
    ensures TotalPreorder(By(ListOrder(sort, isSearch), collation))
    ensures TellsApart(rows, By(ListOrder(sort, isSearch), collation))
  {
    var items := ListOrder(sort, isSearch);
    EndsOnTheKey(sort, isSearch);
    hide ListOrder, OrderLe;
    forall a, b, c
      ensures OrderLe(items, collation, a, b) || OrderLe(items, collation, b, a)
      ensures OrderLe(items, collation, a, b) && OrderLe(items, collation, b, c) ==> OrderLe(items, collation, a, c)
    {
      OrderIsTotal(items, collation, a, b, c);
    }
    forall a, b | OrderLe(items, collation, a, b) && OrderLe(items, collation, b, a)
      ensures a.alumniId == b.alumniId
    {
      TiedOnTheLast(items, collation, a, b);
    }
  }

  lemma EndsOnTheKey(sort: Option<string>, isSearch: bool)
    ensures var items := ListOrder(sort, isSearch); items != [] && items[|items| - 1] == Asc(AlumniId)
  {
  }

  // --- Paging ----------------------------------------------------------------------------------

  /** What a run of the query may return: the matching rows, arranged as the ORDER BY allows. */
  ghost predicate Arrangement(result: seq<Row>, matching: seq<Row>, le: (Row, Row) -> bool) {
    multiset(result) == multiset(matching) && Sorted(result, le)
  }

  /** LIMIT and OFFSET. */
  function Page<T>(result: seq<T>, limit: nat, offset: nat): seq<T> {
    if offset >= |result| then []
    else if offset + limit >= |result| then result[offset..]
    else result[offset..offset + limit]
  }

  function Offset(page: nat, limit: nat): nat {
    page * limit
  }

  lemma NextOffset(page: nat, limit: nat)
    ensures Offset(page + 1, limit) == Offset(page, limit) + limit && Offset(0, limit) == 0
  {
  }

  /** The first pages one after another, each cut from its own run of the query. */
  function Pages(runs: seq<seq<Row>>, limit: nat): seq<Row> {
    if runs == [] then []
    else
      var n := |runs| - 1;
      Pages(runs[..n], limit) + Page(runs[n], limit, Offset(n, limit))
  }

  lemma {:induction false} PagesOfOneList(runs: seq<seq<Row>>, list: seq<Row>, limit: nat)
    requires forall i :: 0 <= i < |runs| ==> runs[i] == list
    ensures Pages(runs, limit) == Page(list, Offset(|runs|, limit), 0)
  {
    hide Offset;
    NextOffset(0, limit);
    if runs != [] {
      var n := |runs| - 1;
      PagesOfOneList(runs[..n], list, limit);
      NextOffset(n, limit);
      hide Page;
      PageAfterPage(list, Offset(n, limit), limit);
    }
  }

  lemma PageAfterPage<T>(list: seq<T>, offset: nat, limit: nat)
    ensures Page(list, offset, 0) + Page(list, limit, offset) == Page(list, offset + limit, 0)
  {
  }

  /** Every run of the query returns the same list, and reading it page by page, each page from a run of its
      own, gives every matching row exactly once, in order, and as many as `total` says. */
  lemma PagesAreTheWholeList(
      sort: Option<string>, isSearch: bool, collation: (string, string) -> bool,
      matching: seq<Row>, runs: seq<seq<Row>>, limit: nat)
    requires TotalPreorder(collation) && UniqueIds(matching) && Distinct(matching)
    requires forall i :: 0 <= i < |runs| ==> Arrangement(runs[i], matching, By(ListOrder(sort, isSearch), collation))
    ensures var le := By(ListOrder(sort, isSearch), collation);
            && (forall i :: 0 <= i < |runs| ==> runs[i] == Sort(matching, le))
            && Pages(runs, limit) == Page(Sort(matching, le), Offset(|runs|, limit), 0)
            && Distinct(Sort(matching, le))
            && (Offset(|runs|, limit) >= |matching| ==>
                  Pages(runs, limit) == Sort(matching, le) && multiset(Pages(runs, limit)) == multiset(matching)
                  && |Pages(runs, limit)| == |matching|)
  {
    var le := By(ListOrder(sort, isSearch), collation);
    var list := Sort(matching, le);
    EveryTokenIsATotalOrder(sort, isSearch, collation, matching);
    SortPermutes(matching, le);
    SortSorts(matching, le);
    DistinctPermutes(matching, list);
    hide *;
    forall i | 0 <= i < |runs|
      ensures runs[i] == list
    {
      TheOneArrangement(runs[i], matching, le);
    }
    PagesOfOneList(runs, list, limit);
    assert |list| == |multiset(list)| == |multiset(matching)| == |matching|;
    WholePage(list, Offset(|runs|, limit));
  }

  lemma WholePage<T>(list: seq<T>, limit: nat)
    ensures limit >= |list| ==> Page(list, limit, 0) == list
  {
  }

  lemma TheOneArrangement(result: seq<Row>, matching: seq<Row>, le: (Row, Row) -> bool)
    requires TotalPreorder(le) && TellsApart(matching, le) && Arrangement(result, matching, le)
    ensures result == Sort(matching, le)
  {
    SortPermutes(matching, le);
    SortSorts(matching, le);
    hide Sort, TotalPreorder, Sorted;
    SameRows(result, matching, le);
    SortedIsUnique(result, Sort(matching, le), le);
  }

  lemma SameRows(result: seq<Row>, matching: seq<Row>, le: (Row, Row) -> bool)
    requires multiset(result) == multiset(matching) && TellsApart(matching, le)
    ensures TellsApart(result, le)
  {
    forall x | x in result
      ensures x in matching
    {
      assert x in multiset(result);
    }
  }

  /** Without a deciding key it would not be so: whenever two rows tie, another run may return them the other
      way round, and pages cut from the two runs show one of them twice and the other never. */
  lemma TiesBreakPaging(le: (Row, Row) -> bool, result: seq<Row>, i: nat, j: nat)
    requires TotalPreorder(le) && Sorted(result, le) && Distinct(result)
    requires i < j < |result| && le(result[j], result[i])
    ensures var other := result[i := result[j]][j := result[i]];
            && Arrangement(other, result, le)
            && (var pages := Page(result, j, 0) + Page(other, |result| - j, j);
               result[i] in Page(result, j, 0) && result[i] in Page(other, |result| - j, j) && result[j] !in pages)
  {
    var other := result[i := result[j]][j := result[i]];
    forall a, b | 0 <= a < b < |other|
      ensures le(other[a], other[b])
    {
      Tied(le, result, i, j, a);
      Tied(le, result, i, j, b);
    }
    assert other[j] == result[i];
    var first, second := Page(result, j, 0), Page(other, |result| - j, j);
    assert second == other[j..] && second[0] == result[i];
    assert first == result[..j] && first[i] == result[i];
    assert forall k :: 0 <= k < |second| ==> second[k] == other[j + k];
  }

  /** Between two tied positions of a sorted list everything ties. */
  lemma Tied(le: (Row, Row) -> bool, result: seq<Row>, i: nat, j: nat, k: nat)
    requires TotalPreorder(le) && Sorted(result, le) && i < j < |result| && le(result[j], result[i]) && k < |result|
    ensures i <= k <= j ==> le(result[k], result[i]) && le(result[j], result[k])
    ensures k <= j ==> le(result[k], result[j]) && (i <= k ==> le(result[i], result[k]))
    ensures k < i ==> le(result[k], result[i])
    ensures k > j ==> le(result[j], result[k]) && le(result[i], result[k])
  {
  }

  // --- What the orders mean --------------------------------------------------------------------

  type Collation = (string, string) -> bool

  /** In order, and whatever is not NULL before what is. */
  ghost predicate Alphabetical(x: Option<string>, y: Option<string>, collation: Collation) {
    y.Some? ==> x.Some? && collation(x.value, y.value)
  }

  ghost predicate Smaller(x: Option<int>, y: Option<int>) {
    y.Some? ==> x.Some? && x.value <= y.value
  }

  ghost predicate Greater(x: Option<int>, y: Option<int>) {
    y.Some? ==> x.Some? && x.value >= y.value
  }

  /** By last name, and then by key. */
  ghost predicate ByName(a: Row, b: Row, collation: Collation) {
    && Alphabetical(a.lastName, b.lastName, collation)
    && (Alphabetical(b.lastName, a.lastName, collation) ==> a.alumniId <= b.alumniId)
  }

  /** Whether one row may stand before another in the list, as each sort is documented. */
  ghost predicate MayPrecede(sort: Option<string>, isSearch: bool, collation: Collation, a: Row, b: Row) {
    var token := if sort.None? then "" else sort.value;
    if token == "grad_desc" then
      Greater(a.graduationYear, b.graduationYear) && (Greater(b.graduationYear, a.graduationYear) ==> ByName(a, b, collation))
    else if token == "grad_asc" then
      Smaller(a.graduationYear, b.graduationYear) && (Smaller(b.graduationYear, a.graduationYear) ==> ByName(a, b, collation))
    else if token == "updated" then
      Greater(a.updatedAt, b.updatedAt) && (Greater(b.updatedAt, a.updatedAt) ==> a.alumniId <= b.alumniId)
    else if token == "gender" then
      Alphabetical(a.gender, b.gender, collation) && (Alphabetical(b.gender, a.gender, collation) ==> ByName(a, b, collation))
    else if token == "city" then
      Alphabetical(a.city, b.city, collation) && (Alphabetical(b.city, a.city, collation) ==> ByName(a, b, collation))
    else if token == "state" then
      Alphabetical(a.state, b.state, collation) && (Alphabetical(b.state, a.state, collation) ==> ByName(a, b, collation))
    else if token == "employer" then
      Alphabetical(a.employer, b.employer, collation) && (Alphabetical(b.employer, a.employer, collation) ==> ByName(a, b, collation))
    else if token == "industry" then
      var x, y := DisplayedIndustry(a.primaryIndustry, a.secondaryIndustry), DisplayedIndustry(b.primaryIndustry, b.secondaryIndustry);
      Alphabetical(x, y, collation) && (Alphabetical(y, x, collation) ==> ByName(a, b, collation))
    else if isSearch && (token == "" || token == "relevance") then
      // A score that is NULL comes first.
      (a.relevance.None? || (b.relevance.Some? && a.relevance.value >= b.relevance.value))
      && (b.relevance.None? || (a.relevance.Some? && b.relevance.value >= a.relevance.value) ==> ByName(a, b, collation))
    else ByName(a, b, collation)
  }

  lemma FirstItem(i: Item, rest: seq<Item>, collation: Collation, a: Row, b: Row)
    ensures OrderLe([i] + rest, collation, a, b) <==> ItemLe(i, collation, a, b) && (ItemLe(i, collation, b, a) ==> OrderLe(rest, collation, a, b))
  {
    assert ([i] + rest)[1..] == rest;
  }

  lemma LastItems(collation: Collation, a: Row, b: Row)
    ensures OrderLe([Asc(LastName), Asc(AlumniId)], collation, a, b) <==> ByName(a, b, collation)
    ensures OrderLe([Asc(AlumniId)], collation, a, b) <==> a.alumniId <= b.alumniId
  {
    FirstItem(Asc(AlumniId), [], collation, a, b);
    FirstItem(Asc(LastName), [Asc(AlumniId)], collation, a, b);
    assert [Asc(AlumniId)] + [] == [Asc(AlumniId)];
    assert [Asc(LastName)] + [Asc(AlumniId)] == [Asc(LastName), Asc(AlumniId)];
  }

  lemma FirstItems(collation: Collation, a: Row, b: Row)
    ensures ItemLe(NullsLast(Desc(GraduationYear)), collation, a, b) <==> Greater(a.graduationYear, b.graduationYear)
    ensures ItemLe(NullsLast(Asc(GraduationYear)), collation, a, b) <==> Smaller(a.graduationYear, b.graduationYear)
    ensures ItemLe(NullsLast(Desc(UpdatedAt)), collation, a, b) <==> Greater(a.updatedAt, b.updatedAt)
    ensures ItemLe(NullsLast(Asc(Gender)), collation, a, b) <==> Alphabetical(a.gender, b.gender, collation)
    ensures ItemLe(NullsLast(Asc(City)), collation, a, b) <==> Alphabetical(a.city, b.city, collation)
    ensures ItemLe(NullsLast(Asc(State)), collation, a, b) <==> Alphabetical(a.state, b.state, collation)
    ensures ItemLe(NullsLast(Asc(Employer)), collation, a, b) <==> Alphabetical(a.employer, b.employer, collation)
    ensures ItemLe(NullsLast(Asc(Industry)), collation, a, b)
            <==> Alphabetical(DisplayedIndustry(a.primaryIndustry, a.secondaryIndustry), DisplayedIndustry(b.primaryIndustry, b.secondaryIndustry), collation)
    ensures ItemLe(Desc(Relevance), collation, a, b)
            <==> a.relevance.None? || (b.relevance.Some? && a.relevance.value >= b.relevance.value)
  {
    hide DisplayedIndustry;
  }

  /** The item that decides first, if it is not the last name. */
  function Leading(sort: Option<string>, isSearch: bool): Option<Item> {
    var token := if sort.None? then "" else sort.value;
    if token == "grad_desc" then Some(NullsLast(Desc(GraduationYear)))
    else if token == "grad_asc" then Some(NullsLast(Asc(GraduationYear)))
    else if token == "updated" then Some(NullsLast(Desc(UpdatedAt)))
    else if token == "gender" then Some(NullsLast(Asc(Gender)))
    else if token == "city" then Some(NullsLast(Asc(City)))
    else if token == "state" then Some(NullsLast(Asc(State)))
    else if token == "employer" then Some(NullsLast(Asc(Employer)))
    else if token == "industry" then Some(NullsLast(Asc(Industry)))
    else if isSearch && (token == "" || token == "relevance") then Some(Desc(Relevance))
    else None
  }

  lemma ListOrderIs(sort: Option<string>, isSearch: bool)
    ensures var first := Leading(sort, isSearch);
            ListOrder(sort, isSearch)
            == (if first.Some? then [first.value] else []) + (if sort == Some("updated") then [Asc(AlumniId)] else [Asc(LastName), Asc(AlumniId)])
  {
    hide Asc, Desc, NullsLast;
  }

  lemma MayPrecedeIs(sort: Option<string>, isSearch: bool, collation: Collation, a: Row, b: Row)
    ensures var first := Leading(sort, isSearch);
            MayPrecede(sort, isSearch, collation, a, b) <==>
            && (first.Some? ==> ItemLe(first.value, collation, a, b))
            && ((first.Some? ==> ItemLe(first.value, collation, b, a)) ==>
                  if sort == Some("updated") then a.alumniId <= b.alumniId else ByName(a, b, collation))
  {
    FirstItems(collation, a, b);
    FirstItems(collation, b, a);
    hide ItemLe, ByName, DisplayedIndustry, Alphabetical, Smaller, Greater, NullsLast, Asc, Desc;
  }

  /** The order of the list is the documented one, for every token, known or not, and every pair of rows. */
  lemma ListOrderMeans(sort: Option<string>, isSearch: bool, collation: Collation, a: Row, b: Row)
    ensures OrderLe(ListOrder(sort, isSearch), collation, a, b) <==> MayPrecede(sort, isSearch, collation, a, b)
  {
    hide *;
    ListOrderIs(sort, isSearch);
    MayPrecedeIs(sort, isSearch, collation, a, b);
    LastItems(collation, a, b);
    var first := Leading(sort, isSearch);
    var rest := if sort == Some("updated") then [Asc(AlumniId)] else [Asc(LastName), Asc(AlumniId)];
    if first.Some? {
      FirstItem(first.value, rest, collation, a, b);
    } else {
      assert [] + rest == rest;
      OnlyUpdatedHasNoName(sort, isSearch);
    }
  }

  lemma OnlyUpdatedHasNoName(sort: Option<string>, isSearch: bool)
    ensures sort == Some("updated") ==> Leading(sort, isSearch).Some?
  {
  }

  /** So the list is sorted as documented. */
  lemma ListIsSortedAsDocumented(sort: Option<string>, isSearch: bool, collation: Collation, result: seq<Row>)
    ensures Sorted(result, By(ListOrder(sort, isSearch), collation))
            <==> forall i, j :: 0 <= i < j < |result| ==> MayPrecede(sort, isSearch, collation, result[i], result[j])
  {
    forall a, b
      ensures OrderLe(ListOrder(sort, isSearch), collation, a, b) <==> MayPrecede(sort, isSearch, collation, a, b)
    {
      ListOrderMeans(sort, isSearch, collation, a, b);
    }
    hide OrderLe, MayPrecede, ListOrder;
    var items := ListOrder(sort, isSearch);
    forall i, j | 0 <= i < j < |result|
      ensures By(items, collation)(result[i], result[j]) <==> MayPrecede(sort, isSearch, collation, result[i], result[j])
    {
    }
  }

  /** A value shows as this text: it is this text between spaces, and not blank. */
  ghost predicate ShowsAs(v: Option<string>, text: string) {
    && v.Some? && text != "" && text[0] != ' ' && text[|text| - 1] != ' '
    && exists left: string, right: string :: v.value == left + text + right && forall c <- left + right :: c == ' '
  }

  lemma TrimToNullIs(v: Option<string>, text: string)
    ensures TrimToNull(v) == Some(text) <==> ShowsAs(v, text)
  {
    if v.Some? {
      hide Trim;
      var left, right := TrimParts(v.value, IsBlank);
      if ShowsAs(v, text) {
        var l: string, r: string :| v.value == l + text + r && forall c <- l + r :: c == ' ';
        assert forall c :: c in l || c in r ==> c in l + r;
        TrimIs(l, text, r, IsBlank);
      }
      if TrimToNull(v) == Some(text) {
        assert v.value == left + text + right && forall c <- left + right :: c == ' ';
      }
    }
  }

  /** What is displayed: the primary industry, or where that is "other" in any case and the secondary one is not
      blank, the secondary one. */
  lemma DisplayedMeans(primary: Option<string>, secondary: Option<string>, text: string)
    ensures DisplayedIndustry(primary, secondary) == Some(text) <==>
            if primary.Some? && Lower(primary.value) == "other" && exists t: string :: ShowsAs(secondary, t)
            then ShowsAs(secondary, text) else ShowsAs(primary, text)
  {
    TrimToNullIs(primary, text);
    TrimToNullIs(secondary, text);
    forall t: string
      ensures TrimToNull(secondary) == Some(t) <==> ShowsAs(secondary, t)
    {
      TrimToNullIs(secondary, t);
    }
    hide TrimToNull, ShowsAs;
  }

  /** Newest class first, unknown years at the end. */
  lemma GradDescMeans(isSearch: bool, collation: (string, string) -> bool, result: seq<Row>, i: nat, j: nat)
    requires Sorted(result, By(ListOrder(Some("grad_desc"), isSearch), collation)) && i < j < |result|
    ensures result[j].graduationYear.Some? ==>
              result[i].graduationYear.Some? && result[i].graduationYear.value >= result[j].graduationYear.value
  {
    var items := ListOrder(Some("grad_desc"), isSearch);
    assert OrderLe(items, collation, result[i], result[j]);
  }

  /** Industries run in the order of what the table shows: a filled-in secondary in place of "Other", blanks
      and NULLs at the end. */
  lemma IndustryMeans(isSearch: bool, collation: (string, string) -> bool, result: seq<Row>, i: nat, j: nat)
    requires Sorted(result, By(ListOrder(Some("industry"), isSearch), collation)) && i < j < |result|
    ensures var a, b := DisplayedIndustry(result[i].primaryIndustry, result[i].secondaryIndustry),
                        DisplayedIndustry(result[j].primaryIndustry, result[j].secondaryIndustry);
            b.Some? ==> a.Some? && collation(a.value, b.value)
  {
    var items := ListOrder(Some("industry"), isSearch);
    assert OrderLe(items, collation, result[i], result[j]);
    hide DisplayedIndustry;
  }

  /** A search without a sort lists better matches first; any other order than its own is only a tie-break. */
  lemma SearchMeans(collation: (string, string) -> bool, result: seq<Row>, i: nat, j: nat)
    requires Sorted(result, By(ListOrder(None, true), collation)) && i < j < |result|
    requires forall r <- result :: r.relevance.Some?
    ensures result[i].relevance.value >= result[j].relevance.value
    ensures result[i].relevance == result[j].relevance && result[i].lastName.Some? && result[j].lastName.Some? ==>
              collation(result[i].lastName.value, result[j].lastName.value)
  {
    var items := ListOrder(None, true);
    var a, b := result[i], result[j];
    assert OrderLe(items, collation, a, b);
    assert items == [Desc(Relevance), Asc(LastName), Asc(AlumniId)];
    if a.relevance == b.relevance {
      assert ItemLe(items[0], collation, b, a);
      assert items[1..][0] == Asc(LastName) && OrderLe(items[1..], collation, a, b);
      assert ItemLe(Asc(LastName), collation, a, b);
    }
  }
}
