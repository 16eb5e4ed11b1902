/** What the wiring comes to: groups by shared email, and joins of the rows linked to the first candidate. */
module DemoLaws {
  import opened Connectivity
  import opened Contract
  import opened Onboarding
  import opened OnboardingLaws
  import opened SeedLaws
  import Conflict
  import Dicts
  import Fetch
  import Inversion
  import Join
  import Locators
  import Masters
  import Matching
  import Overlay
  import Reading
  import Resolver
  import ResolverLaws
  import Scan
  import Store

  // ---- seed and onboard ----

  /** A source with the field that holds the emails of its rows. */
  datatype Crm = Crm(run: SourceRun, emailField: string)

  function EmailIn(crm: Crm, row: Row): string {
    if crm.emailField in row then row[crm.emailField] else ""
  }

  function KeyIn(crm: Crm, row: Row): RowKey {
    if crm.run.setup.keyField in row then row[crm.run.setup.keyField] else ""
  }

  function RecordOf(crm: Crm, row: Row): Inversion.EmailRecord {
    Inversion.EmailRecord(crm.run.setup.source, KeyIn(crm, row), EmailIn(crm, row))
  }

  function RecordsOf(crm: Crm, rows: seq<Row>): (records: seq<Inversion.EmailRecord>)
    ensures |records| == |rows| && forall i :: 0 <= i < |rows| ==> records[i] == RecordOf(crm, rows[i])
  {
    seq(|rows|, i requires 0 <= i < |rows| => RecordOf(crm, rows[i]))
  }

  lemma RecordsOfNext(crm: Crm, rows: seq<Row>, row: Row)
    ensures RecordsOf(crm, rows + [row]) == RecordsOf(crm, rows) + [RecordOf(crm, row)]
  {
  }

  function AllRecords(crms: seq<Crm>): seq<Inversion.EmailRecord> {
    if crms == [] then
      []
    else
      var last := crms[|crms| - 1];
      AllRecords(crms[..|crms| - 1]) + RecordsOf(last, last.run.setup.rows)
  }

  predicate RowsKeyed(crm: Crm) {
    forall row :: row in crm.run.setup.rows ==> crm.run.setup.keyField in row
  }

  ghost predicate AllKeyed(crms: seq<Crm>) {
    forall k :: 0 <= k < |crms| ==> RowsKeyed(crms[k])
  }

  /** How the rows of a source look their seeded principal up. */
  function Lookup(groups: Inversion.Groups, source: string, keyField: string): Row -> Option<PrincipalId> {
    (row: Row) =>
      if keyField in row && (source, row[keyField]) in groups then Some(groups[(source, row[keyField])]) else None
  }

  function SeededRun(groups: Inversion.Groups, crm: Crm): SourceRun {
    var e := crm.run.setup;
    crm.run.(setup := e.(principalOf := Lookup(groups, e.source, e.keyField)))
  }

  function SeededRuns(groups: Inversion.Groups, crms: seq<Crm>): (runs: seq<SourceRun>)
    ensures |runs| == |crms| && forall k :: 0 <= k < |crms| ==> runs[k] == SeededRun(groups, crms[k])
  {
    seq(|crms|, k requires 0 <= k < |crms| => SeededRun(groups, crms[k]))
  }

  lemma GroupsSeed(groups: Inversion.Groups, crms: seq<Crm>, k: nat)
    requires k < |crms|
    ensures SeededBy(SeededRuns(groups, crms)[k].setup, groups)
  {
  }

  /** What onboarding several sources in turn has done, up to the first that raises. */
  datatype Batch = Batch(
    writes: seq<Write>, proposed: Proposals, reports: map<string, Report>, raised: Option<Error>)

  function OnboardEach(runs: seq<SourceRun>, proposed: Proposals): Batch {
    if runs == [] then
      Batch([], proposed, map[], None)
    else
      var (b, last) := (OnboardEach(runs[..|runs| - 1], proposed), runs[|runs| - 1]);
      if b.raised.Some? then
        b
      else
        var p := Onboard(last.setup, last.fields, b.proposed);
        Batch(b.writes + p.writes, p.proposed,
              if p.raised.None? then b.reports[last.setup.source := p.report] else b.reports, p.raised)
  }

  lemma {:induction false} OnboardEachStuck(runs: seq<SourceRun>, proposed: Proposals, n: nat)
    requires n <= |runs| && OnboardEach(runs[..n], proposed).raised.Some?
    ensures OnboardEach(runs, proposed) == OnboardEach(runs[..n], proposed)
    decreases |runs|
  {
    if n == |runs| {
      assert runs[..n] == runs;
    } else {
      assert runs[..|runs| - 1][..n] == runs[..n];
      OnboardEachStuck(runs[..|runs| - 1], proposed, n);
    }
  }

  ghost predicate AllComplete(runs: seq<SourceRun>) {
    forall k :: 0 <= k < |runs| ==> Completes(runs[k].setup, runs[k].fields, map[])
  }

  lemma AllCompleteNext(runs: seq<SourceRun>, run: SourceRun)
    requires AllComplete(runs) && Completes(run.setup, run.fields, map[])
    ensures AllComplete(runs + [run])
  {
  }

  lemma OnboardEachNext(runs: seq<SourceRun>, proposed: Proposals)
    requires OnboardEach(runs, proposed).raised.None? && runs != []
    ensures var (b, last) := (OnboardEach(runs[..|runs| - 1], proposed), runs[|runs| - 1]);
            && b.raised.None? && OnboardEach(runs, proposed).writes == b.writes + WritesOf(last)
            && Completes(last.setup, last.fields, map[])
  {
    var (b, last) := (OnboardEach(runs[..|runs| - 1], proposed), runs[|runs| - 1]);
    ProposedIrrelevant(last.setup, last.fields, b.proposed, map[]);
  }

  /** Sources that are onboarded without an error are each onboarded as they would be alone. */
  lemma {:induction false} OnboardEachCompletes(runs: seq<SourceRun>, proposed: Proposals)
    requires OnboardEach(runs, proposed).raised.None?
    ensures OnboardEach(runs, proposed).writes == AllWrites(runs)
    ensures AllComplete(runs)
  {
    if runs != [] {
      OnboardEachNext(runs, proposed);
      OnboardEachCompletes(runs[..|runs| - 1], proposed);
      AllCompleteNext(runs[..|runs| - 1], runs[|runs| - 1]);
      assert runs == runs[..|runs| - 1] + [runs[|runs| - 1]];
    }
  }

  /** Where every source is onboarded without an error, each has the report of its own run. */
  lemma {:induction false} ReportsExactly(runs: seq<SourceRun>, proposed: Proposals, k: nat)
    requires OnboardEach(runs, proposed).raised.None? && k < |runs|
    requires forall i, j :: 0 <= i < j < |runs| ==> runs[i].setup.source != runs[j].setup.source
    ensures var (reports, run) := (OnboardEach(runs, proposed).reports, runs[k]);
            run.setup.source in reports
            && reports[run.setup.source] == Onboard(run.setup, run.fields, map[]).report
  {
    var n := |runs| - 1;
    ReportsNext(runs, proposed);
    if k < n {
      ReportsExactly(runs[..n], proposed, k);
      assert runs[..n][k] == runs[k];
    }
  }

  lemma ReportsNext(runs: seq<SourceRun>, proposed: Proposals)
    requires OnboardEach(runs, proposed).raised.None? && runs != []
    ensures var (b, last) := (OnboardEach(runs[..|runs| - 1], proposed), runs[|runs| - 1]);
            && b.raised.None?
            && OnboardEach(runs, proposed).reports ==
               b.reports[last.setup.source := Onboard(last.setup, last.fields, map[]).report]
  {
    var (b, last) := (OnboardEach(runs[..|runs| - 1], proposed), runs[|runs| - 1]);
    ProposedIrrelevant(last.setup, last.fields, b.proposed, map[]);
  }

  // ---- what is grouped ----

  /** The sources, the rows of each and the fields of each are distinct, and no two locators share an id. */
  ghost predicate DistinctSources(crms: seq<Crm>, cellIdOf: string -> CellId) {
    && Injective(cellIdOf)
    && (forall k :: 0 <= k < |crms| ==>
          && crms[k].run.setup.cellIdOf == cellIdOf
          && DistinctFields(crms[k].run.fields) && DistinctRowKeys(crms[k].run.setup))
    && forall j, k :: 0 <= j < k < |crms| ==> crms[j].run.setup.source != crms[k].run.setup.source
  }

  ghost predicate NoDigestCollision(lower: string -> string, digest: string -> string, crms: seq<Crm>) {
    forall a, b :: a in AllRecords(crms) && b in AllRecords(crms)
      && digest(EmailOf(lower, a)) == digest(EmailOf(lower, b))
      ==> EmailOf(lower, a) == EmailOf(lower, b)
  }

  /** The cell locates a field of row `row` of source `k`. */
  ghost predicate Locates(crms: seq<Crm>, k: nat, row: Row, field: string, c: Cell) {
    && k < |crms| && row in crms[k].run.setup.rows && crms[k].run.setup.keyField in row
    && MintedFor(c.ref, crms[k].run.setup.source, row[crms[k].run.setup.keyField], field)
  }

  /** The cell locates a field of a row whose email is `e`, but for case and for the white space around it. */
  ghost predicate RowEmail(lower: string -> string, crms: seq<Crm>, c: Cell, e: string) {
    exists k: nat, row, field :: Locates(crms, k, row, field, c) && HasEmail(lower, crms[k], row, e)
  }

  ghost predicate HasEmail(lower: string -> string, crm: Crm, row: Row, e: string) {
    Inversion.Normalises(lower, if crm.emailField in row then row[crm.emailField] else "", e)
  }

  lemma HasEmailExactly(lower: string -> string, crm: Crm, row: Row, e: string)
    ensures HasEmail(lower, crm, row, e) <==> EmailOf(lower, RecordOf(crm, row)) == e
  {
    Inversion.NormalisesExactly(lower, EmailIn(crm, row), e);
  }

  /** Every stored cell is of some row, and two of them are grouped together exactly when their rows share
      a non-blank normalised email. */
  ghost predicate GroupsByEmail(lower: string -> string, crms: seq<Crm>, t: Store.Table) {
    && (forall x :: x in t ==> exists e :: RowEmail(lower, crms, t[x].cell, e))
    && forall x, y, a, b ::
         x in t && y in t && RowEmail(lower, crms, t[x].cell, a) && RowEmail(lower, crms, t[y].cell, b) ==>
           ((t[x].principal.Some? && t[x].principal == t[y].principal) <==> a != "" && a == b)
  }

  lemma {:induction false} AllRecordsMember(crms: seq<Crm>, k: nat, row: Row)
    requires k < |crms| && row in crms[k].run.setup.rows
    ensures RecordOf(crms[k], row) in AllRecords(crms)
  {
    var n := |crms| - 1;
    if k < n {
      AllRecordsMember(crms[..n], k, row);
    } else {
      var i :| 0 <= i < |crms[n].run.setup.rows| && crms[n].run.setup.rows[i] == row;
      assert RecordsOf(crms[n], crms[n].run.setup.rows)[i] == RecordOf(crms[n], row);
    }
  }

  lemma {:induction false} AllRecordsOrigin(crms: seq<Crm>, r: Inversion.EmailRecord)
    requires r in AllRecords(crms)
    ensures exists k :: 0 <= k < |crms| && r.source == crms[k].run.setup.source
  {
    var n := |crms| - 1;
    if r in AllRecords(crms[..n]) {
      AllRecordsOrigin(crms[..n], r);
      var k :| 0 <= k < n && r.source == crms[..n][k].run.setup.source;
      assert crms[k] == crms[..n][k];
    }
  }

  lemma {:induction false} AllRecordsDistinct(crms: seq<Crm>, cellIdOf: string -> CellId)
    requires DistinctSources(crms, cellIdOf) && AllKeyed(crms)
    ensures Inversion.DistinctRecords(AllRecords(crms))
  {
    if crms != [] {
      var n := |crms| - 1;
      var (before, more) := (AllRecords(crms[..n]), RecordsOf(crms[n], crms[n].run.setup.rows));
      AllRecordsDistinct(crms[..n], cellIdOf);
      assert Inversion.DistinctRecords(more);
      forall i, j | 0 <= i < |before| && 0 <= j < |more|
        ensures Inversion.RowOf(before[i]) != Inversion.RowOf(more[j])
      {
        AllRecordsOrigin(crms[..n], before[i]);
      }
    }
  }

  lemma SeededWellRuns(groups: Inversion.Groups, crms: seq<Crm>, cellIdOf: string -> CellId, proposed: Proposals)
    requires DistinctSources(crms, cellIdOf) && OnboardEach(SeededRuns(groups, crms), proposed).raised.None?
    ensures WellRuns(SeededRuns(groups, crms), cellIdOf)
  {
    OnboardEachCompletes(SeededRuns(groups, crms), proposed);
  }

  lemma MintedPlace(w: Write, source: string, rowKey: RowKey, field: string)
    requires MintedFor(w.cell.ref, source, rowKey, field)
    ensures Place(w) == Ok((source, rowKey, field))
  {
    Locators.RoundTrip(source, rowKey, field);
  }

  lemma FindRecord(crms: seq<Crm>, k: nat, row: Row) returns (i: nat)
    requires k < |crms| && row in crms[k].run.setup.rows
    ensures i < |AllRecords(crms)| && AllRecords(crms)[i] == RecordOf(crms[k], row)
  {
    AllRecordsMember(crms, k, row);
    i :| 0 <= i < |AllRecords(crms)| && AllRecords(crms)[i] == RecordOf(crms[k], row);
  }

  /** The record of the row that a cell locates. */
  lemma RecordOfCell(lower: string -> string, crms: seq<Crm>, w: Write, e: string) returns (i: nat)
    requires RowEmail(lower, crms, w.cell, e)
    ensures i < |AllRecords(crms)| && EmailOf(lower, AllRecords(crms)[i]) == e
    ensures IsRecordOf(AllRecords(crms), i, w)
  {
    var k: nat, row, field :| Locates(crms, k, row, field, w.cell) && HasEmail(lower, crms[k], row, e);
    HasEmailExactly(lower, crms[k], row, e);
    i := FindRecord(crms, k, row);
    MintedPlace(w, crms[k].run.setup.source, KeyIn(crms[k], row), field);
  }

  lemma CellHasRow(
    lower: string -> string, groups: Inversion.Groups, crms: seq<Crm>, cellIdOf: string -> CellId, r: Store.Row)
    requires WellRuns(SeededRuns(groups, crms), cellIdOf)
    requires var t := WriteAll(map[], AllWrites(SeededRuns(groups, crms)));
             r.cell.cellId in t && t[r.cell.cellId] == r
    ensures exists e :: RowEmail(lower, crms, r.cell, e)
  {
    CellsExactly(SeededRuns(groups, crms), cellIdOf, r);
    var k, a, row :| 0 <= k < |crms| && IsRowOf(SeededRuns(groups, crms)[k], a, row, r);
    assert Locates(crms, k, row, a.0, r.cell);
    HasEmailExactly(lower, crms[k], row, EmailOf(lower, RecordOf(crms[k], row)));
    assert RowEmail(lower, crms, r.cell, EmailOf(lower, RecordOf(crms[k], row)));
  }

  /** From an empty table, seeding the groups and onboarding every source without an error groups the cells
      by shared email. */
  lemma SeededGroupsByEmail(
    lower: string -> string, digest: string -> string, crms: seq<Crm>, cellIdOf: string -> CellId,
    proposed: Proposals)
    requires AllKeyed(crms) && DistinctSources(crms, cellIdOf) && NoDigestCollision(lower, digest, crms)
    requires var groups := Inversion.Seeded(lower, digest, AllRecords(crms));
             OnboardEach(SeededRuns(groups, crms), proposed).raised.None?
    ensures var groups := Inversion.Seeded(lower, digest, AllRecords(crms));
            GroupsByEmail(lower, crms, WriteAll(map[], OnboardEach(SeededRuns(groups, crms), proposed).writes))
  {
    var groups := Inversion.Seeded(lower, digest, AllRecords(crms));
    var runs := SeededRuns(groups, crms);
    OnboardEachCompletes(runs, proposed);
    SeededWellRuns(groups, crms, cellIdOf, proposed);
    var t := WriteAll(map[], AllWrites(runs));
    forall x | x in t
      ensures t[x].cell.cellId == x && exists e :: RowEmail(lower, crms, t[x].cell, e)
    {
      StoredExactly(runs, cellIdOf, x);
      CellHasRow(lower, groups, crms, cellIdOf, t[x]);
    }
    forall x, y, a, b | x in t && y in t && RowEmail(lower, crms, t[x].cell, a) && RowEmail(lower, crms, t[y].cell, b)
      ensures (t[x].principal.Some? && t[x].principal == t[y].principal) <==> a != "" && a == b
    {
      PairGroupedByEmail(lower, digest, crms, cellIdOf, x, y, a, b);
    }
  }

  lemma PairGroupedByEmail(
    lower: string -> string, digest: string -> string, crms: seq<Crm>, cellIdOf: string -> CellId,
    x: CellId, y: CellId, a: string, b: string)
    requires AllKeyed(crms) && DistinctSources(crms, cellIdOf) && NoDigestCollision(lower, digest, crms)
    requires WellRuns(SeededRuns(Inversion.Seeded(lower, digest, AllRecords(crms)), crms), cellIdOf)
    requires var t := WriteAll(map[], AllWrites(SeededRuns(Inversion.Seeded(lower, digest, AllRecords(crms)), crms)));
             x in t && y in t && RowEmail(lower, crms, t[x].cell, a) && RowEmail(lower, crms, t[y].cell, b)
    ensures var t := WriteAll(map[], AllWrites(SeededRuns(Inversion.Seeded(lower, digest, AllRecords(crms)), crms)));
            (t[x].principal.Some? && t[x].principal == t[y].principal) <==> a != "" && a == b
  {
    var groups := Inversion.Seeded(lower, digest, AllRecords(crms));
    var runs := SeededRuns(groups, crms);
    var t := WriteAll(map[], AllWrites(runs));
    var (u, v) := (Write(t[x].principal, t[x].cell), Write(t[y].principal, t[y].cell));
    StoredExactly(runs, cellIdOf, x);
    StoredExactly(runs, cellIdOf, y);
    var i := RecordOfCell(lower, crms, u, a);
    var j := RecordOfCell(lower, crms, v, b);
    AllRecordsDistinct(crms, cellIdOf);
    forall k | 0 <= k < |runs|
      ensures SeededBy(runs[k].setup, groups)
    {
      GroupsSeed(groups, crms, k);
    }
    GroupedByEmailExactly(lower, digest, AllRecords(crms), runs, cellIdOf, u, i, v, j);
  }

  // ---- resolve, then join ----

  /** A refused or failed resolution ends the query; a resolved one is joined under its id. */
  function OutcomeOf(
    q: Join.Query, resolution: Resolver.Resolution, t: Store.Table, of: Labelling, s: Join.State): Join.Outcome
  {
    match resolution
    case Refused => Join.Refused
    case Failed(e) => Join.Failed(e)
    case Resolved(pid, _) => Join.JoinAll(q.(principalId := pid), t, of, s).0
  }

  function MergedIn(attempt: Resolver.Attempt): seq<seq<RowKey>> {
    if attempt.Found? then [attempt.component] else []
  }

  /** How far a resolution at `now` gets. */
  ghost function Tried(
    m: Matching.Matcher, reader: Fetch.World, t: Store.Table, cap: Capability, ctx: Context, now: int,
    refs: seq<Reference>, judge: Matching.Judge): Resolver.Attempt
  {
    Resolver.Try(m, reader, Store.AllCells(t), Resolver.GateOpen(cap, ctx, now), refs, judge).0
  }

  /** A resolution is denied exactly when the capability has expired, or it is not for a cross-source query or
      a data subject's request, or without clearance. */
  lemma TriedDenied(
    m: Matching.Matcher, reader: Fetch.World, t: Store.Table, cap: Capability, ctx: Context, now: int,
    refs: seq<Reference>, judge: Matching.Judge)
    ensures Tried(m, reader, t, cap, ctx, now, refs, judge).Denied? <==> MayNotResolve(cap, now)
  {
  }

  predicate MayNotResolve(cap: Capability, now: int) {
    || cap.expiry < now
    || (cap.purpose != "cross_source_query" && cap.purpose != "dsar_response")
    || "clearance:hr" !in cap.caveats
  }

  /** What a resolution returns, and the overlay that it leaves. */
  function Settled(attempt: Resolver.Attempt, g: Overlay.Grouping): (Resolver.Resolution, Overlay.Grouping) {
    match attempt
    case Denied => (Resolver.Refused, g)
    case Broken(e) => (Resolver.Failed(e), g)
    case Found(component, members) =>
      (Resolver.Resolved(Overlay.MergeId(g, component), members), Overlay.Merge(g, component))
  }

  /** The resolution and the outcome of the join over the overlay that it leaves. */
  function Wired(
    q: Join.Query, t: Store.Table, attempt: Resolver.Attempt, g: Overlay.Grouping, s: Join.State)
    : (Resolver.Resolution, Join.Outcome)
  {
    var (resolution, after) := Settled(attempt, g);
    (resolution, OutcomeOf(q, resolution, t, after.of, s))
  }

  function Rows(component: seq<RowKey>): set<RowKey> {
    set k | k in component
  }

  /** The cells of the node in the given rows. */
  function CellsIn(rows: seq<Store.Row>, live: Reading.Live, node: string): seq<Cell> {
    Store.CellsWhere(rows, (r: Store.Row) => r.cell.typ.ontologyNode == node && Reading.InRows(r.cell, live))
  }

  /** The stored cells of the node in the given rows, in the order of their ids. */
  function CellsOf(t: Store.Table, rows: set<RowKey>, node: string): seq<Cell> {
    CellsIn(Store.Rows(t), Reading.Live(Reading.RowKeyOf, rows), node)
  }

  lemma CellsOfExact(t: Store.Table, rows: set<RowKey>, node: string, c: Cell)
    requires Store.Keyed(t)
    ensures Masters.InOrder(CellsOf(t, rows, node))
    ensures c in CellsOf(t, rows, node) <==>
              c.cellId in t && t[c.cellId].cell == c && c.typ.ontologyNode == node
              && Reading.RowKeyOf(c).Ok? && Reading.RowKeyOf(c).value in rows
  {
    var live := Reading.Live(Reading.RowKeyOf, rows);
    CellsInExact(t, live, node, c);
  }

  lemma CellsInExact(t: Store.Table, live: Reading.Live, node: string, c: Cell)
    requires Store.Keyed(t)
    ensures Masters.InOrder(CellsIn(Store.Rows(t), live, node))
    ensures c in CellsIn(Store.Rows(t), live, node) <==>
              c.cellId in t && t[c.cellId].cell == c && c.typ.ontologyNode == node && Reading.InRows(c, live)
  {
    var keep := (r: Store.Row) => r.cell.typ.ontologyNode == node && Reading.InRows(r.cell, live);
    Masters.ReadsInOrder(t, keep);
    Masters.WhereExact(Store.Rows(t), keep, c);
    if c in CellsIn(Store.Rows(t), live, node) {
      var r :| r in Store.Rows(t) && keep(r) && r.cell == c;
      Masters.RowsExact(t, r);
    }
    if c.cellId in t && t[c.cellId].cell == c {
      Masters.RowsExact(t, t[c.cellId]);
    }
  }

  function RefsOf(t: Store.Table): Fetch.References {
    map id | id in t :: t[id].cell.ref
  }

  const FRESH_ID: PrincipalId := Overlay.OverlayId(1)

  /** The query under the first id of a fresh overlay. */
  function Named(q: Join.Query): Join.Query {
    q.(principalId := FRESH_ID)
  }

  /** No durable cell carries the first id of a fresh overlay, and every locator can be read. */
  ghost predicate NoneUnderFreshId(t: Store.Table) {
    forall id :: id in t ==> t[id].principal != Some(FRESH_ID) && Reading.RowKeyOf(t[id].cell).Ok?
  }

  /** The query's overlay id and the cache are no obstacle: the id is the overlay's own, and what is cached
      of the stored cells is what the source says. */
  ghost predicate Separate(q: Join.Query, t: Store.Table, s: Join.State) {
    Store.Keyed(t) && NoneUnderFreshId(t) && Fetch.Coherent(q.world, RefsOf(t), s.ladder.rows)
  }

  // ---- what is read through the overlay ----

  /** The cells of the node that are durably under the id. */
  function OwnCells(rows: seq<Store.Row>, pid: PrincipalId, node: string): seq<Cell> {
    Store.CellsWhere(rows, (r: Store.Row) => r.principal == Some(pid) && r.cell.typ.ontologyNode == node)
  }

  /** The cells of the node in the live rows that are not durably under the id. */
  function OtherCells(rows: seq<Store.Row>, pid: PrincipalId, live: Reading.Live, node: string): seq<Cell> {
    Store.CellsWhere(rows, (r: Store.Row) =>
      r.principal != Some(pid) && r.cell.typ.ontologyNode == node && Reading.InRows(r.cell, live))
  }

  /** First the principal's durable cells and then those of its live rows, each in the order of their ids. */
  function ThroughCells(t: Store.Table, pid: PrincipalId, rows: set<RowKey>, node: string): seq<Cell> {
    OwnCells(Store.Rows(t), pid, node)
    + OtherCells(Store.Rows(t), pid, Reading.Live(Reading.RowKeyOf, rows), node)
  }

  lemma {:induction false} WithNodeConcat(cells: seq<Cell>, more: seq<Cell>, node: Option<string>)
    ensures Reading.WithNode(cells + more, node) == Reading.WithNode(cells, node) + Reading.WithNode(more, node)
  {
    if more == [] {
      assert cells + more == cells;
    } else {
      var n := |more| - 1;
      assert (cells + more)[..|cells| + n] == cells + more[..n];
      WithNodeConcat(cells, more[..n], node);
    }
  }

  lemma WithNodeNext(cells: seq<Cell>, c: Cell, node: string)
    ensures Reading.WithNode(cells + [c], Some(node)) ==
            Reading.WithNode(cells, Some(node)) + if c.typ.ontologyNode == node then [c] else []
  {
    assert (cells + [c])[..|cells|] == cells;
  }

  lemma {:induction false} OwnIsWhere(rows: seq<Store.Row>, pid: PrincipalId, node: string)
    ensures Reading.WithNode(Store.CellsWhere(rows, (r: Store.Row) => r.principal == Some(pid)), Some(node)) ==
            OwnCells(rows, pid, node)
  {
    if rows != [] {
      var (before, last) := (rows[..|rows| - 1], rows[|rows| - 1].cell);
      var own := Store.CellsWhere(before, (r: Store.Row) => r.principal == Some(pid));
      OwnIsWhere(before, pid, node);
      WithNodeNext(own, last, node);
      assert own + [] == own;
    }
  }

  lemma LiveCellsNext(cells: seq<Cell>, live: Reading.Live, durable: seq<Cell>, node: string, c: Cell)
    ensures Reading.WithNode(Reading.LiveCells(cells + [c], live, durable), Some(node)) ==
            Reading.WithNode(Reading.LiveCells(cells, live, durable), Some(node))
            + if c.typ.ontologyNode == node && Reading.InRows(c, live) && c !in durable then [c] else []
  {
    assert (cells + [c])[..|cells|] == cells;
    var found := Reading.LiveCells(cells, live, durable);
    WithNodeNext(found, c, node);
    assert found + [] == found;
  }

  /** The durable cells are told by their grouping. */
  ghost predicate AreDurable(rows: seq<Store.Row>, pid: PrincipalId, durable: seq<Cell>) {
    forall r :: r in rows ==> (r.cell in durable <==> r.principal == Some(pid))
  }

  lemma {:induction false} LiveIsWhere(
    rows: seq<Store.Row>, pid: PrincipalId, live: Reading.Live, durable: seq<Cell>, node: string)
    requires AreDurable(rows, pid, durable)
    ensures Reading.WithNode(Reading.LiveCells(Store.CellsWhere(rows, r => true), live, durable), Some(node)) ==
            OtherCells(rows, pid, live, node)
  {
    if rows != [] {
      var (before, last) := (rows[..|rows| - 1], rows[|rows| - 1]);
      assert last in rows && forall r :: r in before ==> r in rows;
      LiveIsWhere(before, pid, live, durable, node);
      LiveCellsNext(Store.CellsWhere(before, r => true), live, durable, node, last.cell);
    }
  }

  lemma DurableByGrouping(t: Store.Table, pid: PrincipalId)
    requires Store.Keyed(t)
    ensures AreDurable(Store.Rows(t), pid, Store.CellsFor(t, pid))
  {
    forall r | r in Store.Rows(t)
      ensures r.cell in Store.CellsFor(t, pid) <==> r.principal == Some(pid)
    {
      Masters.RowsExact(t, r);
      Masters.CellsForExact(t, pid, r.cell);
    }
  }

  lemma NoLiveRows(all: seq<Cell>, live: Reading.Live, durable: seq<Cell>)
    requires live.rows == {}
    ensures Reading.LiveCells(all, live, durable) == []
  {
    if |Reading.LiveCells(all, live, durable)| > 0 {
      Reading.LiveExact(all, live, durable, Reading.LiveCells(all, live, durable)[0]);
    }
  }

  /** Where every locator can be read, the overlay reads exactly those cells. */
  lemma ReadsThrough(t: Store.Table, pid: PrincipalId, live: Reading.Live, node: string)
    requires Store.Keyed(t) && forall id :: id in t ==> live.keyOf(t[id].cell).Ok?
    ensures Reading.ReadThrough(Store.AllCells(t), Store.CellsFor(t, pid), live, Some(node)) ==
            Ok(OwnCells(Store.Rows(t), pid, node) + OtherCells(Store.Rows(t), pid, live, node))
  {
    var (all, durable) := (Store.AllCells(t), Store.CellsFor(t, pid));
    forall c | c in all
      ensures live.keyOf(c).Ok?
    {
      Masters.AllCellsExact(t, c);
    }
    DurableByGrouping(t, pid);
    LiveIsWhere(Store.Rows(t), pid, live, durable, node);
    OwnIsWhere(Store.Rows(t), pid, node);
    WithNodeConcat(durable, Reading.LiveCells(all, live, durable), Some(node));
    if live.rows == {} {
      NoLiveRows(all, live, durable);
      assert durable + [] == durable;
    }
  }

  /** What those cells are: the stored ones of the node that are durably under the id or in the rows. */
  lemma ThroughExact(t: Store.Table, pid: PrincipalId, rows: set<RowKey>, node: string, c: Cell)
    requires Store.Keyed(t)
    ensures var live := Reading.Live(Reading.RowKeyOf, rows);
            && Masters.InOrder(OwnCells(Store.Rows(t), pid, node))
            && Masters.InOrder(OtherCells(Store.Rows(t), pid, live, node))
    ensures c in ThroughCells(t, pid, rows, node) <==>
              && c.cellId in t && t[c.cellId].cell == c && c.typ.ontologyNode == node
              && (t[c.cellId].principal == Some(pid)
                  || (Reading.RowKeyOf(c).Ok? && Reading.RowKeyOf(c).value in rows))
  {
    OwnExact(t, pid, node, c);
    OtherExact(t, pid, Reading.Live(Reading.RowKeyOf, rows), node, c);
  }

  lemma WhereOfTable(t: Store.Table, keep: Store.Row -> bool, c: Cell)
    requires Store.Keyed(t)
    ensures Masters.InOrder(Store.CellsWhere(Store.Rows(t), keep))
    ensures c in Store.CellsWhere(Store.Rows(t), keep) <==>
              c.cellId in t && t[c.cellId].cell == c && keep(t[c.cellId])
  {
    Masters.ReadsInOrder(t, keep);
    Masters.WhereExact(Store.Rows(t), keep, c);
    if c in Store.CellsWhere(Store.Rows(t), keep) {
      var r :| r in Store.Rows(t) && keep(r) && r.cell == c;
      Masters.RowsExact(t, r);
    }
    if c.cellId in t && t[c.cellId].cell == c {
      Masters.RowsExact(t, t[c.cellId]);
    }
  }

  lemma OwnExact(t: Store.Table, pid: PrincipalId, node: string, c: Cell)
    requires Store.Keyed(t)
    ensures Masters.InOrder(OwnCells(Store.Rows(t), pid, node))
    ensures c in OwnCells(Store.Rows(t), pid, node) <==>
              && c.cellId in t && t[c.cellId].cell == c && c.typ.ontologyNode == node
              && t[c.cellId].principal == Some(pid)
  {
    var keep := (r: Store.Row) => r.principal == Some(pid) && r.cell.typ.ontologyNode == node;
    WhereOfTable(t, keep, c);
    Masters.WhereAgree(Store.Rows(t), keep,
      (r: Store.Row) => r.principal == Some(pid) && r.cell.typ.ontologyNode == node);
  }

  lemma OtherExact(t: Store.Table, pid: PrincipalId, live: Reading.Live, node: string, c: Cell)
    requires Store.Keyed(t)
    ensures Masters.InOrder(OtherCells(Store.Rows(t), pid, live, node))
    ensures c in OtherCells(Store.Rows(t), pid, live, node) <==>
              && c.cellId in t && t[c.cellId].cell == c && c.typ.ontologyNode == node
              && t[c.cellId].principal != Some(pid) && Reading.InRows(c, live)
  {
    var keep := (r: Store.Row) =>
      r.principal != Some(pid) && r.cell.typ.ontologyNode == node && Reading.InRows(r.cell, live);
    WhereOfTable(t, keep, c);
    Masters.WhereAgree(Store.Rows(t), keep, (r: Store.Row) =>
      r.principal != Some(pid) && r.cell.typ.ontologyNode == node && Reading.InRows(r.cell, live));
  }

  /** The rows chained to some row of the component by the lists merged into the overlay. */
  ghost function ChainedRows(history: seq<seq<RowKey>>, component: seq<RowKey>): set<RowKey> {
    set l, k | l in history && k in l && ChainedTo(history, k, component) :: k
  }

  ghost predicate ChainedTo(history: seq<seq<RowKey>>, k: RowKey, component: seq<RowKey>) {
    exists c :: c in component && Linked(Overlay.ListEdges(history), k, c)
  }

  /** After a component is merged, its id is that of exactly the rows chained to it. */
  lemma MergedRowsExactly(history: seq<seq<RowKey>>, component: seq<RowKey>)
    requires component != []
    ensures var g := Overlay.MergeAll(history);
            Reading.RowsOf(Overlay.Merge(g, component).of, Overlay.MergeId(g, component)) ==
            ChainedRows(history + [component], component)
  {
    var (g, merged) := (Overlay.MergeAll(history), history + [component]);
    var (of, pid) := (Overlay.Merge(g, component).of, Overlay.MergeId(g, component));
    Overlay.MergeAllNext(history, component);
    assert merged[|history|] == component && component[0] in component;
    forall k
      ensures k in Reading.RowsOf(of, pid) <==> k in ChainedRows(merged, component)
    {
      if k in Reading.RowsOf(of, pid) {
        Overlay.SameIdExactly(merged, k, component[0]);
        assert ChainedTo(merged, k, component);
      }
      if k in ChainedRows(merged, component) {
        var c :| c in component && Linked(Overlay.ListEdges(merged), k, c);
        assert Overlay.Mentioned(merged, k);
        Overlay.SameIdExactly(merged, k, c);
      }
    }
  }

  /** On a fresh overlay, only the cells of the component's rows are read, in the order of their ids. */
  lemma FreshThrough(t: Store.Table, rows: set<RowKey>, node: string)
    requires Store.Keyed(t) && NoneUnderFreshId(t)
    ensures ThroughCells(t, FRESH_ID, rows, node) == CellsOf(t, rows, node)
  {
    var live := Reading.Live(Reading.RowKeyOf, rows);
    forall r | r in Store.Rows(t)
      ensures r.principal != Some(FRESH_ID)
    {
      Masters.RowsExact(t, r);
    }
    FreshRows(Store.Rows(t), live, node);
  }

  lemma FreshRows(rows: seq<Store.Row>, live: Reading.Live, node: string)
    requires forall r :: r in rows ==> r.principal != Some(FRESH_ID)
    ensures OwnCells(rows, FRESH_ID, node) == [] && OtherCells(rows, FRESH_ID, live, node) == CellsIn(rows, live, node)
  {
    Masters.WhereNone(rows, (r: Store.Row) => r.principal == Some(FRESH_ID) && r.cell.typ.ontologyNode == node);
    Masters.WhereAgree(rows,
      (r: Store.Row) =>
        r.principal != Some(FRESH_ID) && r.cell.typ.ontologyNode == node && Reading.InRows(r.cell, live),
      (r: Store.Row) => r.cell.typ.ontologyNode == node && Reading.InRows(r.cell, live));
  }

  lemma FreshChain(component: seq<RowKey>)
    requires component != []
    ensures var g := Overlay.Grouping(map[], 0);
            && Overlay.MergeId(g, component) == FRESH_ID
            && Reading.RowsOf(Overlay.Merge(g, component).of, FRESH_ID) == Rows(component)
  {
    Overlay.FirstMerge(component);
  }

  /** On a fresh overlay, a resolved component reads as exactly the cells of its rows, in order. */
  lemma FreshReads(t: Store.Table, component: seq<RowKey>, node: string)
    requires Store.Keyed(t) && NoneUnderFreshId(t) && component != []
    ensures var g := Overlay.Grouping(map[], 0);
            && Overlay.MergeId(g, component) == FRESH_ID
            && Reading.CellsThrough(t, Overlay.Merge(g, component).of, FRESH_ID, Some(node)) ==
               Ok(CellsOf(t, Rows(component), node))
  {
    FreshChain(component);
    ReadsThrough(t, FRESH_ID, Reading.Live(Reading.RowKeyOf, Rows(component)), node);
    FreshThrough(t, Rows(component), node);
  }

  // ---- what is told ----

  /** What a join over `cells` tells: how it ends at the first of them that is denied or cannot be read, and
      otherwise the truth about each, in order. The status is agreed exactly when all the values are equal,
      else ordered exactly when all are timestamped, and then the default is the first of the latest. A
      symbolic join has no values. */
  ghost predicate Tells(q: Join.Query, cells: seq<Cell>, outcome: Join.Outcome) {
    if !q.ctx.symbolic && !Join.Clear(q, cells, 0) then
      outcome == Join.EndAt(q, cells[Join.FirstStop(q, cells, 0)], Join.FirstStop(q, cells, 0))
    else
      && outcome.Joined? && outcome.conflict.principalId == q.principalId && outcome.conflict.node == q.node
      && TellsStatus(outcome.conflict)
      && if q.ctx.symbolic then outcome.conflict.values == [] else AreTruths(q, cells, outcome.conflict.values)
  }

  ghost predicate AreTruths(q: Join.Query, cells: seq<Cell>, values: seq<Conflict.ConflictValue>) {
    |values| == |cells| && forall i :: 0 <= i < |cells| ==> Join.IsTruth(q, cells[i], values[i])
  }

  ghost predicate TellsStatus(c: Conflict.ConflictSet) {
    && (c.status == Conflict.Agreed <==> Conflict.AllEqual(c.values))
    && (c.status == Conflict.Ordered <==> !Conflict.AllEqual(c.values) && Conflict.AllStamped(c.values))
    && (c.status == Conflict.Agreed ==> c.defaultSelection == if c.values == [] then None else Some(0))
    && (c.status == Conflict.Ordered ==>
          c.defaultSelection.Some? && Conflict.FirstLatest(c.values, c.defaultSelection.value))
    && (c.status == Conflict.Unordered ==> c.defaultSelection == None)
  }

  lemma TruthsAreTruths(q: Join.Query, cells: seq<Cell>)
    requires forall c :: c in cells ==> Join.Readable(q, c)
    ensures AreTruths(q, cells, Join.Truths(q, cells))
  {
    forall i | 0 <= i < |cells|
      ensures |Join.Truths(q, cells)| == |cells| && Join.IsTruth(q, cells[i], Join.Truths(q, cells)[i])
    {
      Join.TruthsAt(q, cells, i);
    }
  }

  lemma ExpectedTells(q: Join.Query, cells: seq<Cell>)
    ensures Tells(q, cells, Join.Expected(q, cells, 0, []))
  {
    if q.ctx.symbolic {
      Conflict.ConflictExactly(q.principalId, q.node, []);
    } else if Join.Clear(q, cells, 0) {
      Join.ClearIsReadable(q, cells, 0);
      assert cells[0..] == cells;
      TruthsAreTruths(q, cells);
      var truths := Join.Truths(q, cells);
      assert [] + truths == truths;
      Conflict.ConflictExactly(q.principalId, q.node, truths);
    }
  }

  /** Every locator can be read, and what is cached of the stored cells is what the source says. */
  ghost predicate Answerable(q: Join.Query, t: Store.Table, s: Join.State) {
    && Store.Keyed(t) && (forall id :: id in t ==> Reading.RowKeyOf(t[id].cell).Ok?)
    && Fetch.Coherent(q.world, RefsOf(t), s.ladder.rows)
  }

  lemma RefsAreKnown(t: Store.Table, pid: PrincipalId, rows: set<RowKey>, node: string)
    requires Store.Keyed(t)
    ensures Join.RefsKnown(ThroughCells(t, pid, rows, node), RefsOf(t))
  {
    forall c | c in ThroughCells(t, pid, rows, node)
      ensures Fetch.Refers(RefsOf(t), c.cellId, c.ref)
    {
      ThroughExact(t, pid, rows, node, c);
    }
  }

  /** After a component is merged into any overlay, the join under its id tells of exactly the cells durably
      under the id and those of the rows chained to the component. */
  lemma MergedJoinExactly(
    q: Join.Query, t: Store.Table, history: seq<seq<RowKey>>, component: seq<RowKey>, s: Join.State)
    requires Answerable(q, t, s) && component != []
    ensures var g := Overlay.MergeAll(history);
            var pid := Overlay.MergeId(g, component);
            var cells := ThroughCells(t, pid, ChainedRows(history + [component], component), q.node);
            Tells(q.(principalId := pid), cells,
                  Join.JoinAll(q.(principalId := pid), t, Overlay.Merge(g, component).of, s).0)
  {
    var g := Overlay.MergeAll(history);
    var pid := Overlay.MergeId(g, component);
    MergedRowsExactly(history, component);
    JoinThrough(q.(principalId := pid), t, Overlay.Merge(g, component).of, s);
  }

  /** A join tells of exactly the cells read through the overlay under the query's id. */
  lemma JoinThrough(q: Join.Query, t: Store.Table, of: Labelling, s: Join.State)
    requires Answerable(q, t, s)
    ensures Tells(q, ThroughCells(t, q.principalId, Reading.RowsOf(of, q.principalId), q.node),
                  Join.JoinAll(q, t, of, s).0)
  {
    var (pid, rows) := (q.principalId, Reading.RowsOf(of, q.principalId));
    var cells := ThroughCells(t, pid, rows, q.node);
    ReadsThrough(t, pid, Reading.Live(Reading.RowKeyOf, rows), q.node);
    RefsAreKnown(t, pid, rows, q.node);
    Join.JoinExactly(q, RefsOf(t), cells, 0, s, []);
    ExpectedTells(q, cells);
  }

  /** After a component is merged into a fresh overlay, the join tells of exactly the cells of its rows. */
  lemma ResolvedJoinExactly(q: Join.Query, t: Store.Table, component: seq<RowKey>, s: Join.State)
    requires Separate(q, t, s) && component != []
    ensures Overlay.MergeId(Overlay.Grouping(map[], 0), component) == FRESH_ID
    ensures Tells(Named(q), CellsOf(t, Rows(component), q.node),
                  Join.JoinAll(Named(q), t, Overlay.Merge(Overlay.Grouping(map[], 0), component).of, s).0)
  {
    FreshChain(component);
    JoinThrough(Named(q), t, Overlay.Merge(Overlay.Grouping(map[], 0), component).of, s);
    FreshThrough(t, Rows(component), q.node);
  }

  // ---- both steps ----

  /** The join over the overlay that a resolution leaves. */
  lemma WiredJoin(q: Join.Query, t: Store.Table, attempt: Resolver.Attempt, g: Overlay.Grouping, s: Join.State)
    requires attempt.Found?
    ensures var pid := Overlay.MergeId(g, attempt.component);
            Wired(q, t, attempt, g, s).1 ==
            Join.JoinAll(q.(principalId := pid), t, Overlay.Merge(g, attempt.component).of, s).0
  {
  }

  /** Along any overlay, the outcome tells of exactly the cells durably under the component's id and those of
      the rows chained to the component. */
  ghost predicate ChainTells(
    q: Join.Query, t: Store.Table, attempt: Resolver.Attempt, history: seq<seq<RowKey>>, s: Join.State,
    outcome: Join.Outcome)
  {
    attempt.Found? && Answerable(q, t, s) ==>
      var pid := Overlay.MergeId(Overlay.MergeAll(history), attempt.component);
      var rows := ChainedRows(history + [attempt.component], attempt.component);
      Tells(q.(principalId := pid), ThroughCells(t, pid, rows, q.node), outcome)
  }

  /** Along a fresh overlay, the outcome tells of exactly the stored cells of the component's rows. */
  ghost predicate FreshTells(
    q: Join.Query, t: Store.Table, attempt: Resolver.Attempt, s: Join.State, outcome: Join.Outcome)
  {
    attempt.Found? && Separate(q, t, s) ==> Tells(Named(q), CellsOf(t, Rows(attempt.component), q.node), outcome)
  }

  lemma WiredChainTells(
    q: Join.Query, t: Store.Table, attempt: Resolver.Attempt, history: seq<seq<RowKey>>, s: Join.State)
    requires attempt.Found? ==> attempt.component != []
    ensures ChainTells(q, t, attempt, history, s, Wired(q, t, attempt, Overlay.MergeAll(history), s).1)
  {
    if attempt.Found? && Answerable(q, t, s) {
      MergedJoinExactly(q, t, history, attempt.component, s);
      WiredJoin(q, t, attempt, Overlay.MergeAll(history), s);
    }
  }

  lemma WiredFreshTells(q: Join.Query, t: Store.Table, attempt: Resolver.Attempt, s: Join.State)
    requires attempt.Found? ==> attempt.component != []
    ensures FreshTells(q, t, attempt, s, Wired(q, t, attempt, Overlay.MergeAll([]), s).1)
  {
    if attempt.Found? && Separate(q, t, s) {
      ResolvedJoinExactly(q, t, attempt.component, s);
      WiredJoin(q, t, attempt, Overlay.MergeAll([]), s);
    }
  }

  /** What both steps come to, along any overlay and along a fresh one. */
  ghost predicate BothTell(
    q: Join.Query, t: Store.Table, attempt: Resolver.Attempt, history: seq<seq<RowKey>>, s: Join.State,
    outcome: Join.Outcome)
  {
    && ChainTells(q, t, attempt, history, s, outcome)
    && (history == [] ==> FreshTells(q, t, attempt, s, outcome))
  }

  lemma TriedTells(
    m: Matching.Matcher, q: Join.Query, t: Store.Table, now: int, refs: seq<Reference>, judge: Matching.Judge,
    history: seq<seq<RowKey>>, g: Overlay.Grouping, s: Join.State, outcome: Join.Outcome)
    requires g == Overlay.MergeAll(history)
    requires outcome == Wired(q, t, Tried(m, q.reader, t, q.cap, q.ctx, now, refs, judge), g, s).1
    ensures BothTell(q, t, Tried(m, q.reader, t, q.cap, q.ctx, now, refs, judge), history, s, outcome)
  {
    var attempt := Tried(m, q.reader, t, q.cap, q.ctx, now, refs, judge);
    if attempt.Found? {
      ResolverLaws.FoundNotEmpty(m, q.reader, Store.AllCells(t), refs, judge);
    }
    WiredChainTells(q, t, attempt, history, s);
    WiredFreshTells(q, t, attempt, s);
  }

  /** A resolution that may not be made, or that fails, ends the query. */
  ghost predicate EndsEarly(cap: Capability, now: int, resolution: Resolver.Resolution, outcome: Join.Outcome) {
    && (resolution.Refused? <==> MayNotResolve(cap, now))
    && (resolution.Refused? ==> outcome == Join.Refused)
    && (resolution.Failed? ==> outcome == Join.Failed(resolution.error))
  }

  lemma TriedEndsEarly(
    m: Matching.Matcher, q: Join.Query, t: Store.Table, now: int, refs: seq<Reference>, judge: Matching.Judge,
    g: Overlay.Grouping, s: Join.State)
    ensures var attempt := Tried(m, q.reader, t, q.cap, q.ctx, now, refs, judge);
            EndsEarly(q.cap, now, Wired(q, t, attempt, g, s).0, Wired(q, t, attempt, g, s).1)
  {
    TriedDenied(m, q.reader, t, q.cap, q.ctx, now, refs, judge);
    WiredEarly(q, t, Tried(m, q.reader, t, q.cap, q.ctx, now, refs, judge), g, s);
  }

  lemma WiredEarly(q: Join.Query, t: Store.Table, attempt: Resolver.Attempt, g: Overlay.Grouping, s: Join.State)
    ensures var (resolution, outcome) := Wired(q, t, attempt, g, s);
            && (resolution.Refused? <==> attempt.Denied?)
            && (resolution.Refused? ==> outcome == Join.Refused)
            && (resolution.Failed? ==> outcome == Join.Failed(resolution.error))
  {
  }

  // ---- end to end ----

  /** The rows of the candidates linked to the first by chains of pairs that pass both tests. */
  ghost function LinkedRows(m: Matching.Matcher, says: Scan.Opinion, d: Dicts.Dict<Resolver.Candidate>): set<RowKey>
    requires d.keys != []
  {
    set k | k in d.at && Linked(ResolverLaws.SameEdges(m, says, Resolver.Records(d)), k, d.keys[0])
  }

  /** Along any overlay, the outcome tells of the linked rows and of those chained to them; along a fresh
      one, of exactly the stored cells of the node in the linked rows, in the order of their ids. */
  ghost predicate EndsWith(
    q: Join.Query, t: Store.Table, attempt: Resolver.Attempt, history: seq<seq<RowKey>>, s: Join.State,
    rows: set<RowKey>)
  {
    && attempt.Found? && Rows(attempt.component) == rows
    && ChainTells(q, t, attempt, history, s, Wired(q, t, attempt, Overlay.MergeAll(history), s).1)
    && (Separate(q, t, s) ==>
          Tells(Named(q), CellsOf(t, rows, q.node), Wired(q, t, attempt, Overlay.MergeAll([]), s).1))
  }

  lemma EndsWithRows(
    q: Join.Query, t: Store.Table, attempt: Resolver.Attempt, history: seq<seq<RowKey>>, s: Join.State,
    rows: set<RowKey>)
    requires attempt.Found? && attempt.component != [] && forall k :: k in attempt.component <==> k in rows
    ensures EndsWith(q, t, attempt, history, s, rows)
  {
    assert Rows(attempt.component) == rows;
    WiredChainTells(q, t, attempt, history, s);
    WiredFreshTells(q, t, attempt, s);
  }

  /** End to end, with an adjudicator that always answers alike: an allowed resolution and then the join tell
      of the rows linked to the first candidate. */
  lemma EndToEnd(
    m: Matching.Matcher, f: Scan.Fixed, refs: seq<Reference>, judge: Matching.Judge,
    q: Join.Query, t: Store.Table, history: seq<seq<RowKey>>, s: Join.State)
    requires Scan.IsFixed(m, f) && Scan.MemoOf(f, judge) && ResolverLaws.Symmetric(m, Scan.SaysOf(f))
    requires refs != [] && Resolver.Candidates(q.reader, Store.AllCells(t), refs).Ok?
    ensures var d := Resolver.Candidates(q.reader, Store.AllCells(t), refs).value;
            var attempt := Resolver.Try(m, q.reader, Store.AllCells(t), true, refs, judge).0;
            d.keys != [] && EndsWith(q, t, attempt, history, s, LinkedRows(m, Scan.SaysOf(f), d))
  {
    var d := Resolver.Candidates(q.reader, Store.AllCells(t), refs).value;
    ResolverLaws.SomeKey(q.reader, Store.AllCells(t), refs);
    var attempt := Resolver.Try(m, q.reader, Store.AllCells(t), true, refs, judge).0;
    forall k
      ensures k in attempt.component <==> k in LinkedRows(m, Scan.SaysOf(f), d)
    {
      ResolverLaws.MembersExactly(m, f, d, judge, k);
    }
    ResolverLaws.FoundNotEmpty(m, q.reader, Store.AllCells(t), refs, judge);
    EndsWithRows(q, t, attempt, history, s, LinkedRows(m, Scan.SaysOf(f), d));
  }

  /** End to end, with any adjudicator that did not fail, however its answers vary: the rows are linked by the
      verdicts in memory afterwards. */
  lemma EndToEndAsRemembered(
    m: Matching.Matcher, refs: seq<Reference>, judge: Matching.Judge,
    q: Join.Query, t: Store.Table, history: seq<seq<RowKey>>, s: Join.State)
    requires Matching.Sound(judge) && forall a, b :: m.similarity(a, b) == m.similarity(b, a)
    requires refs != [] && Resolver.Candidates(q.reader, Store.AllCells(t), refs).Ok?
    requires Scan.NoFailures(judge, Resolver.Try(m, q.reader, Store.AllCells(t), true, refs, judge).1)
    ensures var d := Resolver.Candidates(q.reader, Store.AllCells(t), refs).value;
            var (attempt, later) := Resolver.Try(m, q.reader, Store.AllCells(t), true, refs, judge);
            d.keys != [] && EndsWith(q, t, attempt, history, s, LinkedRows(m, Scan.SaysMemo(later.memo), d))
  {
    var d := Resolver.Candidates(q.reader, Store.AllCells(t), refs).value;
    ResolverLaws.SomeKey(q.reader, Store.AllCells(t), refs);
    var (attempt, later) := Resolver.Try(m, q.reader, Store.AllCells(t), true, refs, judge);
    forall k
      ensures k in attempt.component <==> k in LinkedRows(m, Scan.SaysMemo(later.memo), d)
    {
      ResolverLaws.MembersAsRemembered(m, d, judge, k);
    }
    ResolverLaws.FoundNotEmpty(m, q.reader, Store.AllCells(t), refs, judge);
    EndsWithRows(q, t, attempt, history, s, LinkedRows(m, Scan.SaysMemo(later.memo), d));
  }
}
