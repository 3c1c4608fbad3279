/** The export budget that holds across instances: every export counts the caller's completed
    exports in the audit trail before it runs, and writes one row when it completes. */
module ExportBudget {
  import opened Wrappers
  import opened Counting

  // --- The audit trail ------------------------------------------------------------------

  /** The columns of an audit row that the code reads or carries across. */
  datatype AuditRow = AuditRow(user: Option<int>, action: string, entity: string, entityId: Option<int>,
                               field: Option<string>, oldValue: Option<string>, newValue: Option<string>,
                               email: Option<string>, changeSet: Option<string>, source: Option<string>)

  datatype Table = AuditLogs | EngineerActions

  /** A pending object of a session: a row for one of the two logs, or anything else. */
  datatype Pending = Insert(table: Table, row: AuditRow) | Other(id: int)

  /** Where the flush sends a pending object when audit rows are suppressed. */
  function Reroute(p: Pending): Pending {
    if p.Insert? && p.table == AuditLogs then Insert(EngineerActions, p.row) else p
  }

  function RerouteAll(ps: seq<Pending>): seq<Pending> {
    if ps == [] then [] else RerouteAll(ps[..|ps| - 1]) + [Reroute(ps[|ps| - 1])]
  }

  class Session {
    var pending: multiset<Pending>

    constructor (pending: multiset<Pending>)
      ensures this.pending == pending
    {
      this.pending := pending;
    }

    /** The `before_flush` hook; `snapshot` is `list(session.new)`. */
    method BeforeFlush(snapshot: seq<Pending>, suppressed: bool)
      requires multiset(snapshot) == pending
      modifies this
      ensures pending == if suppressed then multiset(RerouteAll(snapshot)) else old(pending)
    {
      if !suppressed {
        return;
      }
      assert snapshot[0..] == snapshot;
      for i := 0 to |snapshot|
        invariant pending == HalfRerouted(snapshot, i)
      {
        var obj := snapshot[i];
        HalfReroutedStep(snapshot, i);
        if obj.Insert? && obj.table == AuditLogs {
          pending := pending + multiset{Insert(EngineerActions, obj.row)};
          pending := pending - multiset{obj};
        }
      }
      assert snapshot[..|snapshot|] == snapshot;
    }
  }

  /** The pending objects once the first `n` have been looked at. */
  ghost function HalfRerouted(ps: seq<Pending>, n: nat): multiset<Pending>
    requires n <= |ps|
  {
    multiset(RerouteAll(ps[..n])) + multiset(ps[n..])
  }

  lemma HalfReroutedStep(ps: seq<Pending>, n: nat)
    requires n < |ps|
    ensures HalfRerouted(ps, n + 1) == HalfRerouted(ps, n) + multiset{Reroute(ps[n])} - multiset{ps[n]}
    ensures ps[n] in HalfRerouted(ps, n)
  {
    assert ps[n..] == [ps[n]] + ps[n + 1..];
    assert ps[..n + 1][..n] == ps[..n];
  }

  /** The rows a flush writes to one table. */
  function RowsFor(ps: seq<Pending>, table: Table): multiset<AuditRow> {
    if ps == [] then multiset{}
    else
      var p := ps[|ps| - 1];
      RowsFor(ps[..|ps| - 1], table) + (if p.Insert? && p.table == table then multiset{p.row} else multiset{})
  }

  /** Rerouting loses and invents nothing: the engineer log gets exactly the rows of both logs, the
      audit log gets none. */
  lemma {:induction false} RerouteConservesRows(ps: seq<Pending>)
    ensures RowsFor(RerouteAll(ps), AuditLogs) == multiset{}
    ensures RowsFor(RerouteAll(ps), EngineerActions) == RowsFor(ps, EngineerActions) + RowsFor(ps, AuditLogs)
  {
    if ps != [] {
      var n := |ps| - 1;
      RerouteConservesRows(ps[..n]);
      RerouteLast(ps);
      hide RerouteAll, Reroute;
      RowsForLast(ps, EngineerActions);
      RowsForLast(ps, AuditLogs);
      RowsForLast(RerouteAll(ps), EngineerActions);
      RowsForLast(RerouteAll(ps), AuditLogs);
    }
  }

  /** Everything else in the flush stays, in its place. */
  lemma {:induction false} RerouteKeepsTheRest(ps: seq<Pending>)
    ensures |RerouteAll(ps)| == |ps|
    ensures forall i :: 0 <= i < |ps| && ps[i].Other? ==> RerouteAll(ps)[i] == ps[i]
  {
    if ps != [] {
      RerouteKeepsTheRest(ps[..|ps| - 1]);
    }
  }

  lemma RerouteLast(ps: seq<Pending>)
    requires ps != []
    ensures var n := |ps| - 1; var all := RerouteAll(ps);
            && |all| == |ps| && all[..n] == RerouteAll(ps[..n]) && all[n] == Reroute(ps[n])
            && (ps[n].Insert? ==> Reroute(ps[n]) == Insert(EngineerActions, ps[n].row))
            && (ps[n].Other? ==> Reroute(ps[n]) == ps[n])
  {
  }

  lemma RowsForLast(ps: seq<Pending>, table: Table)
    requires ps != []
    ensures var p := ps[|ps| - 1];
            RowsFor(ps, table) == RowsFor(ps[..|ps| - 1], table) + (if p.Insert? && p.table == table then multiset{p.row} else multiset{})
  {
  }

  // --- Counting completed exports ----------------------------------------------------------

  /** Which rows a globally counted bucket counts. */
  datatype CountedRows = CountedRows(actions: set<string>, entities: Option<set<string>>) {
    predicate Includes(action: string, entity: string) {
      action in actions && (entities.Some? ==> entity in entities.value)
    }
  }

  datatype Window = Window(limit: int, seconds: real)

  /** An admitted export: who asked, when the transaction of its session began, the clock reading it counted
      with, and what the admission saw. */
  datatype Call = Call(
    user: int, serial: nat, begun: real, reading: real, failedOpen: bool,
    seen: nat,           // rows written before it was admitted
    ahead: set<nat>)     // that user's exports still running when it was admitted

  /** A committed row, with the export that wrote it if one did. */
  datatype Entry = Entry(table: Table, user: Option<int>, action: string, entity: string, stamp: real, call: Option<Call>)

  /** Who is an engineer; a user's role does not change. */
  type Roles = int -> bool

  /** The table the count reads for an actor. */
  function CountedTable(engineer: bool): Table {
    if engineer then EngineerActions else AuditLogs
  }

  /** The table an actor's audit row reaches: it is added as an audit row and flushed. */
  function WrittenTable(engineer: bool, row: AuditRow): Table {
    (if engineer then Reroute(Insert(AuditLogs, row)) else Insert(AuditLogs, row)).table
  }

  /** The rows counted for one user since an instant. */
  function CountedSince(rows: seq<Entry>, table: Table, user: int, counted: CountedRows, since: real): set<nat> {
    set i: nat | i < |rows| && rows[i].table == table && rows[i].user == Some(user)
                 && counted.Includes(rows[i].action, rows[i].entity) && rows[i].stamp >= since
  }

  /** The row is one of the user's own, in the table of the user's role, in time, with a counted action and, where
      entity types are given, a counted entity type. */
  ghost predicate CountsFor(e: Entry, user: int, engineer: bool, counted: CountedRows, since: real) {
    && e.user == Some(user) && e.table == (if engineer then EngineerActions else AuditLogs) && e.stamp >= since
    && e.action in counted.actions && (counted.entities.None? || e.entity in counted.entities.value)
  }

  /** The count goes up by one with each such row, and with no other. */
  lemma CountGrows(rows: seq<Entry>, e: Entry, user: int, engineer: bool, counted: CountedRows, since: real)
    ensures |CountedSince([], CountedTable(engineer), user, counted, since)| == 0
    ensures |CountedSince(rows + [e], CountedTable(engineer), user, counted, since)|
            == |CountedSince(rows, CountedTable(engineer), user, counted, since)| + (if CountsFor(e, user, engineer, counted, since) then 1 else 0)
  {
    assert CountedSince([], CountedTable(engineer), user, counted, since) == {};
    var before, after := CountedSince(rows, CountedTable(engineer), user, counted, since), CountedSince(rows + [e], CountedTable(engineer), user, counted, since);
    assert after == if CountsFor(e, user, engineer, counted, since) then before + {|rows|} else before;
  }

  /** `_global_export_trip`: `counts` is None when the count query failed. */
  method GlobalTrip(counts: Option<seq<nat>>, windows: seq<Window>) returns (tripped: Option<Window>)
    requires counts.Some? ==> |counts.value| == |windows|
    ensures counts.None? ==> tripped.None?
    ensures counts.Some? ==> (tripped.None? <==> forall i :: 0 <= i < |windows| ==> counts.value[i] < windows[i].limit)
    ensures tripped.Some? ==> exists i :: 0 <= i < |windows| && tripped.value == windows[i] && counts.value[i] >= windows[i].limit
                                          && forall j :: 0 <= j < i ==> counts.value[j] < windows[j].limit
  {
    if counts.None? {
      return None;
    }
    for i := 0 to |windows|
      invariant forall j :: 0 <= j < i ==> counts.value[j] < windows[j].limit
    {
      if counts.value[i] >= windows[i].limit {
        return Some(windows[i]);
      }
    }
    return None;
  }

  // --- All instances together as a state machine ---------------------------------------------

  datatype Config = Config(windows: seq<Window>, counted: CountedRows, roles: Roles)

  datatype Step =
    | Ask(user: int, begun: real, now: real, countFails: bool)   // past the in-process windows of its instance
    | Complete(serial: nat, row: AuditRow, stamp: real)
    | Abort(serial: nat)
    | OtherWrite(entry: Entry)

  datatype World = World(rows: seq<Entry>, running: map<nat, Call>, next: nat)

  const START: World := World([], map[], 0)

  /** The count lets the call through. */
  predicate UnderBudget(w: World, user: int, now: real, c: Config) {
    forall v :: v in c.windows ==> |CountedSince(w.rows, CountedTable(c.roles(user)), user, c.counted, now - v.seconds)| < v.limit
  }

  function RunningOf(w: World, user: int): set<nat> {
    set s | s in w.running && w.running[s].user == user
  }

  predicate Enabled(w: World, step: Step, c: Config) {
    match step
    // The guard before the count has used the session, so its transaction began before the reading.
    case Ask(_, begun, now, _) => begun <= now
    // One counted row, stamped with the start of the transaction that writes it: the one that was open at the
    // count, or a later one if the route committed in between. A count that failed has rolled it back.
    case Complete(serial, row, stamp) =>
      serial in w.running && row.user == Some(w.running[serial].user)
      && row.action in c.counted.actions && (c.counted.entities.Some? ==> row.entity in c.counted.entities.value)
      && stamp >= w.running[serial].begun
    case Abort(serial) => serial in w.running
    // Every other row has another action or, where entity types are given, another entity type.
    case OtherWrite(entry) =>
      entry.call.None? && (entry.action !in c.counted.actions || (c.counted.entities.Some? && entry.entity !in c.counted.entities.value))
  }

  function Next(w: World, step: Step, c: Config): World
    requires Enabled(w, step, c)
  {
    match step
    case Ask(user, begun, now, countFails) =>
      if countFails || UnderBudget(w, user, now, c) then
        World(w.rows, w.running[w.next := Call(user, w.next, begun, now, countFails, |w.rows|, RunningOf(w, user))], w.next + 1)
      else w
    case Complete(serial, row, stamp) =>
      var call := w.running[serial];
      World(w.rows + [Entry(WrittenTable(c.roles(call.user), row), row.user, row.action, row.entity, stamp, Some(call))],
            w.running - {serial}, w.next)
    case Abort(serial) => w.(running := w.running - {serial})
    case OtherWrite(entry) => w.(rows := w.rows + [entry])
  }

  /** An export is let through if and only if its count fails, or in every window fewer of the user's rows than the
      limit are counted. */
  lemma AdmittedIff(w: World, step: Step, c: Config)
    requires step.Ask? && Enabled(w, step, c)
    ensures Next(w, step, c) != w <==> step.countFails || UnderBudget(w, step.user, step.now, c)
    ensures UnderBudget(w, step.user, step.now, c) <==>
            forall v <- c.windows :: |CountedSince(w.rows, CountedTable(c.roles(step.user)), step.user, c.counted, step.now - v.seconds)| < v.limit
    ensures Next(w, step, c) != w ==>
              Next(w, step, c).running.Keys == w.running.Keys + {w.next} && Next(w, step, c).running[w.next].user == step.user
  {
    assert Next(w, step, c) != w ==> Next(w, step, c).next != w.next;
  }

  /** A row of another user, table, action or entity type changes no admission of the user's, at any instant. */
  lemma OtherRowsDoNotMatter(w: World, e: Entry, user: int, now: real, c: Config)
    requires || e.user != Some(user) || e.table != (if c.roles(user) then EngineerActions else AuditLogs)
             || e.action !in c.counted.actions || (c.counted.entities.Some? && e.entity !in c.counted.entities.value)
    ensures UnderBudget(w.(rows := w.rows + [e]), user, now, c) <==> UnderBudget(w, user, now, c)
  {
    hide CountedSince;
    forall v | v in c.windows
      ensures |CountedSince(w.rows + [e], CountedTable(c.roles(user)), user, c.counted, now - v.seconds)|
              == |CountedSince(w.rows, CountedTable(c.roles(user)), user, c.counted, now - v.seconds)|
    {
      CountGrows(w.rows, e, user, c.roles(user), c.counted, now - v.seconds);
    }
  }

  /** A completed export is one more row, counted for its own user from its stamp on and for nobody else; an aborted one
      is none, and either is no longer running; any other row counts for nobody. */
  lemma CompletedExportsCount(w: World, step: Step, c: Config, user: int, since: real)
    requires Enabled(w, step, c) && !step.Ask?
    ensures var table := CountedTable(c.roles(user));
            |CountedSince(Next(w, step, c).rows, table, user, c.counted, since)|
            == |CountedSince(w.rows, table, user, c.counted, since)|
               + (if step.Complete? && user == w.running[step.serial].user && step.stamp >= since then 1 else 0)
    ensures |Next(w, step, c).rows| == |w.rows| + (if step.Abort? then 0 else 1) && w.rows <= Next(w, step, c).rows
    ensures step.OtherWrite? ==> Next(w, step, c).rows[|w.rows|] == step.entry
    ensures Next(w, step, c).running == (if step.OtherWrite? then w.running else w.running - {step.serial}) && Next(w, step, c).next == w.next
  {
    if !step.Abort? {
      CountGrows(w.rows, Next(w, step, c).rows[|w.rows|], user, c.roles(user), c.counted, since);
    }
    hide CountedSince;
  }

  // --- What the buckets count ---------------------------------------------------------------------

  const EXPORT_ROWS: CountedRows := CountedRows(
    {"export_alumni", "export_profile", "export_event_attendees", "export_survey_no_reply", "export_survey_replied",
     "export_survey_needs_follow_up", "export_opportunity_links", "export_nettrek_report", "export_outreach_list"}, None)

  const CONTACT_LIST_ROWS: CountedRows := CountedRows({"view"}, Some({"outreach_list", "nettrek_report"}))

  /** No row spends both budgets, and a view of anything but a contact list spends neither. */
  lemma BudgetsAreApart(e: Entry, user: int, engineer: bool, since: real)
    ensures !(CountsFor(e, user, engineer, EXPORT_ROWS, since) && CountsFor(e, user, engineer, CONTACT_LIST_ROWS, since))
    ensures e.action == "view" && e.entity != "outreach_list" && e.entity != "nettrek_report" ==>
              !CountsFor(e, user, engineer, EXPORT_ROWS, since) && !CountsFor(e, user, engineer, CONTACT_LIST_ROWS, since)
  {
    assert "view"[0] == 'v';
    assert forall a <- EXPORT_ROWS.actions :: a[0] == 'e';
  }

  /** A run in which no user ever has more than `k` exports running. */
  ghost predicate IsRun(run: seq<World>, steps: seq<Step>, c: Config, k: nat) {
    && |run| == |steps| + 1 && run[0] == START
    && (forall i :: 0 <= i < |steps| ==> Enabled(run[i], steps[i], c) && run[i + 1] == Next(run[i], steps[i], c))
    && (forall i, u :: 0 <= i < |run| ==> |RunningOf(run[i], u)| <= k)
  }

  // --- What every step keeps ------------------------------------------------------------------

  /** What the admission of a call guarantees, for as long as the run goes on. */
  ghost predicate Admission(w: World, call: Call, c: Config, k: nat) {
    && call.serial < w.next && call.seen <= |w.rows|
    && |call.ahead| < k
    && (!call.failedOpen ==> forall v :: v in c.windows ==>
          |CountedSince(w.rows[..call.seen], CountedTable(c.roles(call.user)), call.user, c.counted, call.reading - v.seconds)| < v.limit)
    // Earlier exports of the user are among the rows it saw, or were running when it was admitted.
    && (forall i :: call.seen <= i < |w.rows| && Earlier(w.rows[i].call, call) ==> w.rows[i].call.value.serial in call.ahead)
    && (forall s :: s in w.running && Earlier(Some(w.running[s]), call) ==> s in call.ahead)
  }

  predicate Earlier(other: Option<Call>, call: Call) {
    other.Some? && other.value.user == call.user && other.value.serial < call.serial
  }

  ghost predicate WellRecorded(e: Entry, c: Config) {
    && (e.call.Some? <==> c.counted.Includes(e.action, e.entity))
    && (e.call.Some? ==> e.user == Some(e.call.value.user) && e.stamp >= e.call.value.begun
                         && e.table == CountedTable(c.roles(e.call.value.user)))
  }

  ghost predicate Inv(w: World, c: Config, k: nat) {
    && (forall s :: s in w.running ==> w.running[s].serial == s && Admission(w, w.running[s], c, k))
    && (forall i :: 0 <= i < |w.rows| ==> WellRecorded(w.rows[i], c))
    && (forall i :: 0 <= i < |w.rows| && w.rows[i].call.Some? ==>
          Admission(w, w.rows[i].call.value, c, k) && w.rows[i].call.value.serial !in w.running)
    && (forall i, j :: 0 <= i < j < |w.rows| && w.rows[i].call.Some? && w.rows[j].call.Some? ==>
          w.rows[i].call.value.serial != w.rows[j].call.value.serial)
  }

  /** A step never undoes what an earlier admission guaranteed. */
  lemma AdmissionKept(w: World, step: Step, call: Call, c: Config, k: nat)
    requires Enabled(w, step, c) && Inv(w, c, k) && Admission(w, call, c, k)
    ensures Admission(Next(w, step, c), call, c, k)
  {
    var w' := Next(w, step, c);
    assert w'.rows[..call.seen] == w.rows[..call.seen];
    forall i | call.seen <= i < |w'.rows| && Earlier(w'.rows[i].call, call)
      ensures w'.rows[i].call.value.serial in call.ahead
    {
      if i < |w.rows| {
        assert w'.rows[i] == w.rows[i];
      } else {
        assert step.Complete? && step.serial in w.running;
      }
    }
  }

  lemma SerialsAreBelowNext(w: World, c: Config, k: nat)
    requires Inv(w, c, k)
    ensures forall s :: s in w.running ==> s < w.next
    ensures forall i :: 0 <= i < |w.rows| && w.rows[i].call.Some? ==> w.rows[i].call.value.serial < w.next
  {
    forall s | s in w.running
      ensures s < w.next
    {
      assert w.running[s].serial == s;
    }
  }

  lemma StepKeepsInv(w: World, step: Step, c: Config, k: nat)
    requires Enabled(w, step, c) && Inv(w, c, k)
    requires forall u :: |RunningOf(Next(w, step, c), u)| <= k
    ensures Inv(Next(w, step, c), c, k)
  {
    RowsStayRecorded(w, step, c, k);
    RunningStaysAdmitted(w, step, c, k);
    RowsStayAdmitted(w, step, c, k);
    hide Next, Admission, WellRecorded, RunningOf;
  }

  lemma RunningStaysAdmitted(w: World, step: Step, c: Config, k: nat)
    requires Enabled(w, step, c) && Inv(w, c, k)
    requires forall u :: |RunningOf(Next(w, step, c), u)| <= k
    ensures var w' := Next(w, step, c); forall s :: s in w'.running ==> w'.running[s].serial == s && Admission(w', w'.running[s], c, k)
  {
    if step.Ask? && Next(w, step, c) != w {
      NewCallAdmitted(w, step, c, k);
    }
    hide Admission, UnderBudget, RunningOf, WellRecorded;
    var w' := Next(w, step, c);
    forall s | s in w'.running && s in w.running && w'.running[s] == w.running[s]
      ensures Admission(w', w'.running[s], c, k)
    {
      AdmissionKept(w, step, w.running[s], c, k);
    }
  }

  lemma RowsStayAdmitted(w: World, step: Step, c: Config, k: nat)
    requires Enabled(w, step, c) && Inv(w, c, k)
    ensures var w' := Next(w, step, c);
            && (forall i :: 0 <= i < |w'.rows| && w'.rows[i].call.Some? ==>
                  Admission(w', w'.rows[i].call.value, c, k) && w'.rows[i].call.value.serial !in w'.running)
            && (forall i, j :: 0 <= i < j < |w'.rows| && w'.rows[i].call.Some? && w'.rows[j].call.Some? ==>
                  w'.rows[i].call.value.serial != w'.rows[j].call.value.serial)
  {
    SerialsAreBelowNext(w, c, k);
    hide Admission, UnderBudget, RunningOf, WellRecorded;
    var w' := Next(w, step, c);
    forall i | 0 <= i < |w'.rows| && w'.rows[i].call.Some?
      ensures Admission(w', w'.rows[i].call.value, c, k) && w'.rows[i].call.value.serial !in w'.running
    {
      if i < |w.rows| {
        assert w'.rows[i] == w.rows[i];
        AdmissionKept(w, step, w.rows[i].call.value, c, k);
      } else {
        assert step.Complete? && w.running[step.serial].serial == step.serial;
        AdmissionKept(w, step, w.running[step.serial], c, k);
      }
    }
  }

  lemma RowsStayRecorded(w: World, step: Step, c: Config, k: nat)
    requires Enabled(w, step, c) && Inv(w, c, k)
    ensures forall i :: 0 <= i < |Next(w, step, c).rows| ==> WellRecorded(Next(w, step, c).rows[i], c)
  {
    hide Admission, UnderBudget, RunningOf;
    var w' := Next(w, step, c);
    forall i | 0 <= i < |w'.rows|
      ensures WellRecorded(w'.rows[i], c)
    {
      assert i < |w.rows| ==> w'.rows[i] == w.rows[i];
    }
  }

  lemma NewCallAdmitted(w: World, step: Step, c: Config, k: nat)
    requires step.Ask? && Enabled(w, step, c) && Inv(w, c, k) && (step.countFails || UnderBudget(w, step.user, step.now, c))
    requires forall u :: |RunningOf(Next(w, step, c), u)| <= k
    ensures Admission(Next(w, step, c), Next(w, step, c).running[w.next], c, k)
  {
    hide CountedSince;
    SerialsAreBelowNext(w, c, k);
    var w' := Next(w, step, c);
    assert forall s :: s in w.running ==> w.running[s].serial == s;
    hide Inv, WellRecorded;
    assert RunningOf(w', step.user) == RunningOf(w, step.user) + {w.next};
    assert w'.rows[..|w.rows|] == w.rows;
  }

  lemma {:induction false} RunKeepsInv(run: seq<World>, steps: seq<Step>, c: Config, k: nat, n: nat)
    requires IsRun(run, steps, c, k) && n < |run|
    ensures Inv(run[n], c, k)
  {
    if n > 0 {
      RunKeepsInv(run, steps, c, k, n - 1);
      assert run[n] == Next(run[n - 1], steps[n - 1], c);
      StepKeepsInv(run[n - 1], steps[n - 1], c, k);
    }
  }

  // --- The bound -------------------------------------------------------------------------------

  /** The exports of one user stamped in `[from, upTo]`, by the index of their row. */
  function Exports(w: World, user: int, from: real, upTo: real): set<nat> {
    set i: nat | i < |w.rows| && w.rows[i].call.Some? && w.rows[i].user == Some(user) && from <= w.rows[i].stamp <= upTo
  }

  /** Those let through because their count failed. */
  function FailedOpen(w: World, user: int, from: real, upTo: real): set<nat> {
    set i | i in Exports(w, user, from, upTo) && w.rows[i].call.value.failedOpen
  }

  /** Distinct exports have distinct serials, so they are no more than the serials they use. */
  lemma {:induction false} SerialsCount(rows: seq<Entry>, some: set<nat>, serials: set<nat>)
    requires forall i :: i in some ==> i < |rows| && rows[i].call.Some? && rows[i].call.value.serial in serials
    requires forall i, j :: i in some && j in some && i != j ==> rows[i].call.value.serial != rows[j].call.value.serial
    ensures |some| <= |serials|
  {
    if some != {} {
      var i :| i in some;
      SerialsCount(rows, some - {i}, serials - {rows[i].call.value.serial});
    }
  }

  /** The export of a non-empty set that was admitted last. */
  lemma {:induction false} LastAdmitted(rows: seq<Entry>, some: set<nat>) returns (last: nat)
    requires some != {} && forall i :: i in some ==> i < |rows| && rows[i].call.Some?
    ensures last in some
    ensures forall i :: i in some ==> rows[i].call.value.serial <= rows[last].call.value.serial
  {
    var i :| i in some;
    if some == {i} {
      last := i;
    } else {
      assert some - {i} != {};
      last := LastAdmitted(rows, some - {i});
      if rows[last].call.value.serial < rows[i].call.value.serial {
        last := i;
      }
      assert forall j :: j in some ==> j == i || j in some - {i};
    }
  }

  /** The exports of the interval that were admitted before export `last`. */
  function AdmittedBefore(w: World, user: int, from: real, upTo: real, last: nat): set<nat>
    requires last in Exports(w, user, from, upTo)
  {
    set i | i in Exports(w, user, from, upTo) && w.rows[i].call.value.serial < w.rows[last].call.value.serial
  }

  /** The rows counted, for window `v`, when `call` was admitted. */
  function CountedBy(w: World, c: Config, call: Call, v: Window): set<nat> {
    CountedSince(if call.seen <= |w.rows| then w.rows[..call.seen] else w.rows,
                 CountedTable(c.roles(call.user)), call.user, c.counted, call.reading - v.seconds)
  }

  lemma AdmissionCounts(w: World, c: Config, k: nat, v: Window, last: nat)
    requires Inv(w, c, k) && v in c.windows
    requires last < |w.rows| && w.rows[last].call.Some? && !w.rows[last].call.value.failedOpen
    ensures var call := w.rows[last].call.value;
            |CountedBy(w, c, call, v)| < v.limit && |call.ahead| < k
  {
    assert Admission(w, w.rows[last].call.value, c, k);
  }

  /** The last admitted of an interval's exports whose count did not fail. */
  ghost predicate IsLastHonest(w: World, user: int, from: real, upTo: real, last: nat) {
    && last in Exports(w, user, from, upTo) && !w.rows[last].call.value.failedOpen
    && forall i :: i in Exports(w, user, from, upTo) && !w.rows[i].call.value.failedOpen ==>
         w.rows[i].call.value.serial <= w.rows[last].call.value.serial
  }

  /** The last of them read its clock within a window of the interval's start. */
  ghost predicate LastReadInTime(w: World, user: int, from: real, upTo: real, v: Window) {
    forall last: nat :: IsLastHonest(w, user, from, upTo, last) ==> w.rows[last].call.value.reading <= from + v.seconds
  }

  /** An export admitted earlier was counted by the later admission, or was running beside it. */
  lemma SeenOrRunning(w: World, c: Config, k: nat, user: int, v: Window, from: real, upTo: real, last: nat, i: nat)
    requires Inv(w, c, k)
    requires last in Exports(w, user, from, upTo) && w.rows[last].call.value.reading <= from + v.seconds
    requires i in AdmittedBefore(w, user, from, upTo, last)
    ensures var call := w.rows[last].call.value;
            if i < call.seen then i in CountedBy(w, c, call, v) else w.rows[i].call.value.serial in call.ahead
  {
    assert WellRecorded(w.rows[i], c) && WellRecorded(w.rows[last], c);
    assert Admission(w, w.rows[last].call.value, c, k);
  }

  /** What the last admitted of a user's exports says about the others of the interval. */
  lemma CountFromLastAdmitted(w: World, c: Config, k: nat, user: int, v: Window, from: real, upTo: real, last: nat)
    requires Inv(w, c, k) && v in c.windows
    requires last in Exports(w, user, from, upTo) && !w.rows[last].call.value.failedOpen
    requires w.rows[last].call.value.reading <= from + v.seconds
    ensures |AdmittedBefore(w, user, from, upTo, last)| <= v.limit + k - 2
  {
    AdmissionCounts(w, c, k, v, last);
    DistinctSerials(w, c, k);
    hide Inv, CountedBy;
    var call := w.rows[last].call.value;
    var before := AdmittedBefore(w, user, from, upTo, last);
    forall i | i in before
      ensures if i < call.seen then i in CountedBy(w, c, call, v) else w.rows[i].call.value.serial in call.ahead
    {
      SeenOrRunning(w, c, k, user, v, from, upTo, last, i);
    }
    SplitCount(w.rows, before, call.seen, CountedBy(w, c, call, v), call.ahead);
  }

  lemma SplitCount(rows: seq<Entry>, some: set<nat>, seen: nat, counted: set<nat>, ahead: set<nat>)
    requires forall i :: i in some ==> i < |rows| && rows[i].call.Some?
    requires forall i :: i in some ==> if i < seen then i in counted else rows[i].call.value.serial in ahead
    requires forall i, j :: i in some && j in some && i != j ==> rows[i].call.value.serial != rows[j].call.value.serial
    ensures |some| <= |counted| + |ahead|
  {
    var low := set i | i in some && i < seen;
    SubsetCount(low, counted);
    SerialsCount(rows, some - low, ahead);
    assert some == low + (some - low);
  }

  lemma DistinctSerials(w: World, c: Config, k: nat)
    requires Inv(w, c, k)
    ensures forall i, j :: 0 <= i < |w.rows| && 0 <= j < |w.rows| && i != j && w.rows[i].call.Some? && w.rows[j].call.Some? ==>
              w.rows[i].call.value.serial != w.rows[j].call.value.serial
  {
  }

  /** The last admitted of the exports whose count did not fail; it was admitted after all the others. */
  lemma LastHonest(w: World, c: Config, k: nat, user: int, from: real, upTo: real) returns (last: nat)
    requires Inv(w, c, k) && !(Exports(w, user, from, upTo) <= FailedOpen(w, user, from, upTo))
    ensures IsLastHonest(w, user, from, upTo, last)
    ensures Exports(w, user, from, upTo) <= AdmittedBefore(w, user, from, upTo, last) + {last} + FailedOpen(w, user, from, upTo)
  {
    DistinctSerials(w, c, k);
    hide Inv;
    var all, open := Exports(w, user, from, upTo), FailedOpen(w, user, from, upTo);
    var i :| i in all && i !in open;
    assert i in all - open;
    last := LastAdmitted(w.rows, all - open);
    forall i | i in all
      ensures i in AdmittedBefore(w, user, from, upTo, last) + {last} + open
    {
      assert i !in open ==> i in all - open;
    }
  }

  /** An interval holds at most `limit + k - 1` of a user's completed exports, and one more for each that was
      let through because its count failed, if the last of them read its clock within the window's length of
      the interval's start: over every instance, any interleaving, for engineers and everyone else. */
  lemma AtMostLimitIfReadInTime(run: seq<World>, steps: seq<Step>, c: Config, k: nat, n: nat, user: int, v: Window, from: real, upTo: real)
    requires IsRun(run, steps, c, k) && n < |run| && k >= 1 && v in c.windows && v.limit >= 0
    requires LastReadInTime(run[n], user, from, upTo, v)
    ensures |Exports(run[n], user, from, upTo)| <= v.limit + k - 1 + |FailedOpen(run[n], user, from, upTo)|
  {
    RunKeepsInv(run, steps, c, k, n);
    WithinTheLimit(run[n], c, k, user, v, from, upTo);
  }

  lemma WithinTheLimit(w: World, c: Config, k: nat, user: int, v: Window, from: real, upTo: real)
    requires Inv(w, c, k) && k >= 1 && v in c.windows && v.limit >= 0 && LastReadInTime(w, user, from, upTo, v)
    ensures |Exports(w, user, from, upTo)| <= v.limit + k - 1 + |FailedOpen(w, user, from, upTo)|
  {
    var all, open := Exports(w, user, from, upTo), FailedOpen(w, user, from, upTo);
    if all <= open {
      SubsetCount(all, open);
    } else {
      var last := LastHonest(w, c, k, user, from, upTo);
      assert IsLastHonest(w, user, from, upTo, last);
      assert w.rows[last].call.value.reading <= from + v.seconds;
      hide Inv, LastReadInTime, FailedOpen;
      CountFromLastAdmitted(w, c, k, user, v, from, upTo, last);
      CountParts(all, AdmittedBefore(w, user, from, upTo, last), last, open);
    }
  }

  /** No admission read its clock later than `delay` after its transaction began, unless its count failed. */
  ghost predicate DelaysWithin(steps: seq<Step>, delay: real) {
    forall step <- steps :: step.Ask? && !step.countFails ==> step.now - step.begun <= delay
  }

  lemma {:induction false} DelaysStay(run: seq<World>, steps: seq<Step>, c: Config, k: nat, delay: real, n: nat)
    requires IsRun(run, steps, c, k) && DelaysWithin(steps, delay) && n < |run|
    ensures forall s :: s in run[n].running && !run[n].running[s].failedOpen ==> run[n].running[s].reading <= run[n].running[s].begun + delay
    ensures forall i :: 0 <= i < |run[n].rows| && run[n].rows[i].call.Some? && !run[n].rows[i].call.value.failedOpen ==>
              run[n].rows[i].call.value.reading <= run[n].rows[i].call.value.begun + delay
  {
    if n > 0 {
      DelaysStay(run, steps, c, k, delay, n - 1);
      assert run[n] == Next(run[n - 1], steps[n - 1], c) && steps[n - 1] in steps;
    }
  }

  /** So an interval shorter than the window by the delay from a transaction's start to its count holds at
      most `limit + k - 1`, and one more for each failed count. */
  lemma AtMostLimitPlusConcurrency(
      run: seq<World>, steps: seq<Step>, c: Config, k: nat, delay: real, n: nat, user: int, v: Window, from: real, upTo: real)
    requires IsRun(run, steps, c, k) && n < |run| && k >= 1 && v in c.windows && v.limit >= 0
    requires DelaysWithin(steps, delay) && upTo - from + delay <= v.seconds
    ensures |Exports(run[n], user, from, upTo)| <= v.limit + k - 1 + |FailedOpen(run[n], user, from, upTo)|
  {
    RunKeepsInv(run, steps, c, k, n);
    DelaysStay(run, steps, c, k, delay, n);
    ShortIsInTime(run[n], c, k, delay, user, v, from, upTo);
    AtMostLimitIfReadInTime(run, steps, c, k, n, user, v, from, upTo);
  }

  lemma ShortIsInTime(w: World, c: Config, k: nat, delay: real, user: int, v: Window, from: real, upTo: real)
    requires Inv(w, c, k) && upTo - from + delay <= v.seconds
    requires forall i :: 0 <= i < |w.rows| && w.rows[i].call.Some? && !w.rows[i].call.value.failedOpen ==>
               w.rows[i].call.value.reading <= w.rows[i].call.value.begun + delay
    ensures LastReadInTime(w, user, from, upTo, v)
  {
    hide Admission;
    forall last: nat | IsLastHonest(w, user, from, upTo, last)
      ensures w.rows[last].call.value.reading <= from + v.seconds
    {
      assert WellRecorded(w.rows[last], c);
    }
  }

  lemma CountParts(all: set<nat>, before: set<nat>, last: nat, open: set<nat>)
    requires all <= before + {last} + open
    ensures |all| <= |before| + 1 + |open|
  {
    SubsetCount(all, before + {last} + open);
  }

  /** One export at a time, and no failed counts: at most the limit in such an interval. */
  lemma SequentialExportsStayWithinTheLimit(
      run: seq<World>, steps: seq<Step>, c: Config, delay: real, n: nat, user: int, v: Window, from: real, upTo: real)
    requires IsRun(run, steps, c, 1) && n < |run| && v in c.windows && v.limit >= 0
    requires DelaysWithin(steps, delay) && upTo - from + delay <= v.seconds
    requires forall i :: 0 <= i < |steps| && steps[i].Ask? ==> !steps[i].countFails
    ensures |Exports(run[n], user, from, upTo)| <= v.limit
  {
    AtMostLimitPlusConcurrency(run, steps, c, 1, delay, n, user, v, from, upTo);
    NoneFailedOpen(run, steps, c, 1, n);
  }

  lemma {:induction false} NoneFailedOpen(run: seq<World>, steps: seq<Step>, c: Config, k: nat, n: nat)
    requires IsRun(run, steps, c, k) && n < |run|
    requires forall i :: 0 <= i < |steps| && steps[i].Ask? ==> !steps[i].countFails
    ensures forall s :: s in run[n].running ==> !run[n].running[s].failedOpen
    ensures forall i :: 0 <= i < |run[n].rows| && run[n].rows[i].call.Some? ==> !run[n].rows[i].call.value.failedOpen
  {
    if n > 0 {
      NoneFailedOpen(run, steps, c, k, n - 1);
      assert run[n] == Next(run[n - 1], steps[n - 1], c);
    }
  }

  // --- The bound is reached, and broken in longer intervals ----------------------------------------

  /** A stage of a run: `rows` exports of user 0 completed, the first `early` stamped 0 and the others `begun`,
      and `running` more going, whose transactions began at `begun` and whose counts read the clock at `now`. */
  datatype Stage = Stage(early: nat, rows: nat, running: nat, begun: real, now: real)

  ghost predicate AtStage(w: World, g: Stage) {
    && |w.rows| == g.rows && |w.running| == g.running
    && (forall s :: s in w.running ==> s < w.next && w.running[s].user == 0 && w.running[s].begun == g.begun)
    && (forall i :: 0 <= i < |w.rows| ==> w.rows[i].call.Some? && w.rows[i].user == Some(0) && !w.rows[i].call.value.failedOpen
                                          && w.rows[i].stamp == (if i < g.early then 0.0 else g.begun))
    && (forall s :: s in w.running ==> !w.running[s].failedOpen)
  }

  /** Clock readings never go back, and none is later than `delay` after its transaction began. */
  ghost predicate Orderly(steps: seq<Step>, delay: real, latest: real) {
    && DelaysWithin(steps, delay)
    && (forall step <- steps :: step.Ask? ==> !step.countFails && step.now <= latest)
    && (forall i, j :: 0 <= i < j < |steps| && steps[i].Ask? && steps[j].Ask? ==> steps[i].now <= steps[j].now)
  }

  ghost predicate Reaches(run: seq<World>, steps: seq<Step>, c: Config, k: nat, delay: real, g: Stage) {
    IsRun(run, steps, c, k) && Orderly(steps, delay, g.now) && AtStage(run[|run| - 1], g)
  }

  lemma RunningAtMost(w: World, user: int)
    ensures |RunningOf(w, user)| <= |w.running|
  {
    SubsetCount(RunningOf(w, user), w.running.Keys);
  }

  lemma Extend(run: seq<World>, steps: seq<Step>, step: Step, c: Config, k: nat)
    requires IsRun(run, steps, c, k) && Enabled(run[|run| - 1], step, c)
    requires |Next(run[|run| - 1], step, c).running| <= k
    ensures IsRun(run + [Next(run[|run| - 1], step, c)], steps + [step], c, k)
  {
    hide Next, Enabled;
    var w := Next(run[|run| - 1], step, c);
    forall u
      ensures |RunningOf(w, u)| <= k
    {
      RunningAtMost(w, u);
    }
  }

  /** A window has room at a stage, or its count no longer sees the early rows, which are all there are. */
  predicate HasRoom(v: Window, g: Stage) {
    g.rows < v.limit || (0 < v.limit && g.rows == g.early && g.now - v.seconds > 0.0)
  }

  lemma RoomIsUnderBudget(w: World, c: Config, g: Stage)
    requires AtStage(w, g) && forall v :: v in c.windows ==> HasRoom(v, g)
    ensures UnderBudget(w, 0, g.now, c)
  {
    forall v | v in c.windows
      ensures |CountedSince(w.rows, CountedTable(c.roles(0)), 0, c.counted, g.now - v.seconds)| < v.limit
    {
      var counted := CountedSince(w.rows, CountedTable(c.roles(0)), 0, c.counted, g.now - v.seconds);
      if g.rows < v.limit {
        IndicesCount(counted, g.rows);
      } else {
        assert counted == {};
      }
    }
  }

  lemma AskAt(run: seq<World>, steps: seq<Step>, c: Config, k: nat, delay: real, g: Stage)
      returns (run': seq<World>, steps': seq<Step>)
    requires Reaches(run, steps, c, k, delay, g) && g.running < k
    requires g.begun <= g.now <= g.begun + delay && forall v :: v in c.windows ==> HasRoom(v, g)
    ensures Reaches(run', steps', c, k, delay, g.(running := g.running + 1))
  {
    var w := run[|run| - 1];
    var step := Ask(0, g.begun, g.now, false);
    RoomIsUnderBudget(w, c, g);
    hide UnderBudget;
    assert w.next !in w.running;
    Extend(run, steps, step, c, k);
    run', steps' := run + [Next(w, step, c)], steps + [step];
    hide IsRun;
  }

  lemma CompleteAt(run: seq<World>, steps: seq<Step>, c: Config, k: nat, delay: real, g: Stage, row: AuditRow)
      returns (run': seq<World>, steps': seq<Step>)
    requires Reaches(run, steps, c, k, delay, g) && 0 < g.running <= k && g.early <= g.rows
    requires row.user == Some(0) && c.counted.Includes(row.action, row.entity)
    ensures Reaches(run', steps', c, k, delay, g.(rows := g.rows + 1, running := g.running - 1))
  {
    var w := run[|run| - 1];
    assert w.running.Keys != {};
    var serial :| serial in w.running;
    var step := Complete(serial, row, g.begun);
    assert (w.running - {serial}).Keys == w.running.Keys - {serial};
    Extend(run, steps, step, c, k);
    run', steps' := run + [Next(w, step, c)], steps + [step];
    hide IsRun;
  }

  lemma {:induction false} IndicesCount(some: set<nat>, n: nat)
    requires forall i :: i in some ==> i < n
    ensures |some| <= n
  {
    if n > 0 {
      IndicesCount(some - {n - 1}, n - 1);
    }
  }

  /** `rows` exports one after another at instant 0. */
  lemma {:induction false} FillAtZero(c: Config, k: nat, delay: real, rows: nat, row: AuditRow)
      returns (run: seq<World>, steps: seq<Step>)
    requires 1 <= k && 0.0 <= delay && forall v :: v in c.windows ==> rows <= v.limit
    requires row.user == Some(0) && c.counted.Includes(row.action, row.entity)
    ensures Reaches(run, steps, c, k, delay, Stage(0, rows, 0, 0.0, 0.0))
  {
    if rows == 0 {
      run, steps := [START], [];
    } else {
      run, steps := FillAtZero(c, k, delay, rows - 1, row);
      run, steps := AskAt(run, steps, c, k, delay, Stage(0, rows - 1, 0, 0.0, 0.0));
      run, steps := CompleteAt(run, steps, c, k, delay, Stage(0, rows - 1, 1, 0.0, 0.0), row);
    }
  }

  /** With nothing running, a later moment can be taken. */
  lemma Later(run: seq<World>, steps: seq<Step>, c: Config, k: nat, delay: real, rows: nat, begun: real, now: real)
    requires Reaches(run, steps, c, k, delay, Stage(0, rows, 0, 0.0, 0.0)) && now >= 0.0
    ensures Reaches(run, steps, c, k, delay, Stage(rows, rows, 0, begun, now))
  {
    hide IsRun;
  }

  /** `running` exports admitted at once. */
  lemma {:induction false} Burst(run: seq<World>, steps: seq<Step>, c: Config, k: nat, delay: real, g: Stage, running: nat)
      returns (run': seq<World>, steps': seq<Step>)
    requires Reaches(run, steps, c, k, delay, g) && g.running == 0 && running <= k
    requires g.begun <= g.now <= g.begun + delay && forall v :: v in c.windows ==> HasRoom(v, g)
    ensures Reaches(run', steps', c, k, delay, g.(running := running))
  {
    run', steps' := run, steps;
    if running > 0 {
      run', steps' := Burst(run, steps, c, k, delay, g, running - 1);
      run', steps' := AskAt(run', steps', c, k, delay, g.(running := running - 1));
    }
  }

  /** All that run complete. */
  lemma {:induction false} Finish(run: seq<World>, steps: seq<Step>, c: Config, k: nat, delay: real, g: Stage, row: AuditRow)
      returns (run': seq<World>, steps': seq<Step>)
    requires Reaches(run, steps, c, k, delay, g) && g.running <= k && g.early <= g.rows
    requires row.user == Some(0) && c.counted.Includes(row.action, row.entity)
    ensures Reaches(run', steps', c, k, delay, g.(rows := g.rows + g.running, running := 0))
    decreases g.running
  {
    run', steps' := run, steps;
    if g.running > 0 {
      run', steps' := CompleteAt(run, steps, c, k, delay, g, row);
      run', steps' := Finish(run', steps', c, k, delay, g.(rows := g.rows + 1, running := g.running - 1), row);
    }
  }

  /** The bound cannot be improved: for every limit and every `k` some run completes `limit + k - 1`
      exports of one user at one instant, with no delay and no failed count. */
  lemma BoundIsReached(limit: nat, seconds: real, counted: CountedRows, roles: Roles, k: nat, row: AuditRow)
      returns (run: seq<World>, steps: seq<Step>)
    requires limit >= 1 && k >= 1 && row.user == Some(0) && counted.Includes(row.action, row.entity)
    ensures IsRun(run, steps, Config([Window(limit, seconds)], counted, roles), k) && Orderly(steps, 0.0, 0.0)
    ensures |Exports(run[|run| - 1], 0, 0.0, 0.0)| == limit + k - 1
  {
    var c := Config([Window(limit, seconds)], counted, roles);
    var g := Stage(0, limit - 1, 0, 0.0, 0.0);
    run, steps := FillAtZero(c, k, 0.0, limit - 1, row);
    run, steps := Burst(run, steps, c, k, 0.0, g, k);
    run, steps := Finish(run, steps, c, k, 0.0, g.(running := k), row);
    AllAreExports(run[|run| - 1], g.(rows := limit - 1 + k), 0.0);
  }

  lemma AllAreExports(w: World, g: Stage, upTo: real)
    requires AtStage(w, g) && 0.0 <= g.begun <= upTo
    ensures |Exports(w, 0, 0.0, upTo)| == g.rows && FailedOpen(w, 0, 0.0, upTo) == {}
  {
    ExactCount(Exports(w, 0, 0.0, upTo), g.rows);
  }

  lemma {:induction false} ExactCount(some: set<nat>, n: nat)
    requires forall i: nat :: i in some <==> i < n
    ensures |some| == n
  {
    if n == 0 {
      assert some == {};
    } else {
      ExactCount(some - {n - 1}, n - 1);
    }
  }

  /** In an interval longer than that the bound breaks: `limit` exports at its start, and `k` more whose
      transactions begin at its end, and which count so late that they see none of the first. */
  lemma LongerIntervalsHoldMore(
      limit: nat, seconds: real, counted: CountedRows, roles: Roles, k: nat, row: AuditRow, delay: real, length: real)
      returns (run: seq<World>, steps: seq<Step>)
    requires limit >= 1 && k >= 1 && row.user == Some(0) && counted.Includes(row.action, row.entity)
    requires 0.0 <= delay && 0.0 <= length && seconds >= 0.0 && length + delay > seconds
    ensures IsRun(run, steps, Config([Window(limit, seconds)], counted, roles), k) && Orderly(steps, delay, length + delay)
    ensures |Exports(run[|run| - 1], 0, 0.0, length)| == limit + k && FailedOpen(run[|run| - 1], 0, 0.0, length) == {}
  {
    var c := Config([Window(limit, seconds)], counted, roles);
    run, steps := FillAtZero(c, k, delay, limit, row);
    var g := Stage(limit, limit, 0, length, length + delay);
    Later(run, steps, c, k, delay, limit, length, length + delay);
    run, steps := Burst(run, steps, c, k, delay, g, k);
    run, steps := Finish(run, steps, c, k, delay, g.(running := k), row);
    AllAreExports(run[|run| - 1], g.(rows := limit + k), length);
  }

  /** One at a time, with any delay at all between a transaction's start and its count, an interval of the
      window's full length can hold one export over the limit. */
  lemma OneOverTheLimitInAFullWindow(limit: nat, seconds: real, counted: CountedRows, roles: Roles, row: AuditRow, delay: real)
      returns (run: seq<World>, steps: seq<Step>)
    requires limit >= 1 && row.user == Some(0) && counted.Includes(row.action, row.entity) && delay > 0.0 && seconds >= 0.0
    ensures IsRun(run, steps, Config([Window(limit, seconds)], counted, roles), 1) && Orderly(steps, delay, seconds + delay)
    ensures |Exports(run[|run| - 1], 0, 0.0, seconds)| == limit + 1
  {
    run, steps := LongerIntervalsHoldMore(limit, seconds, counted, roles, 1, row, delay, seconds);
  }

  /** Every interval of a length holds at most `limit + k - 1` exports and the failed counts. */
  ghost predicate BudgetHolds(c: Config, k: nat, delay: real, limit: int, length: real) {
    forall run, steps :: IsRun(run, steps, c, k) && DelaysWithin(steps, delay) ==>
      forall n, user, from :: 0 <= n < |run| ==> HoldsIn(run[n], user, k, limit, from, length)
  }

  ghost predicate HoldsIn(w: World, user: int, k: nat, limit: int, from: real, length: real) {
    |Exports(w, user, from, from + length)| <= limit + k - 1 + |FailedOpen(w, user, from, from + length)|
  }

  /** The budget holds in every interval of a length, over all runs with at most that delay, if and only if
      length and delay together fit the window. */
  lemma BudgetHoldsIff(limit: nat, seconds: real, counted: CountedRows, roles: Roles, k: nat, row: AuditRow, delay: real, length: real)
    requires limit >= 1 && k >= 1 && row.user == Some(0) && counted.Includes(row.action, row.entity)
    requires 0.0 <= delay && 0.0 <= length && seconds >= 0.0
    ensures BudgetHolds(Config([Window(limit, seconds)], counted, roles), k, delay, limit, length) <==> length + delay <= seconds
  {
    var c := Config([Window(limit, seconds)], counted, roles);
    if length + delay <= seconds {
      forall run, steps | IsRun(run, steps, c, k) && DelaysWithin(steps, delay)
        ensures forall n, user, from :: 0 <= n < |run| ==> HoldsIn(run[n], user, k, limit, from, length)
      {
        forall n, user, from | 0 <= n < |run|
          ensures HoldsIn(run[n], user, k, limit, from, length)
        {
          AtMostLimitPlusConcurrency(run, steps, c, k, delay, n, user, c.windows[0], from, from + length);
        }
      }
    } else {
      var run, steps := LongerIntervalsHoldMore(limit, seconds, counted, roles, k, row, delay, length);
      hide IsRun, Exports, FailedOpen;
      var n, from := |run| - 1, 0.0;
      assert from + length == length;
      assert IsRun(run, steps, c, k) && DelaysWithin(steps, delay);
      assert !HoldsIn(run[n], 0, k, limit, from, length);
    }
  }
}
