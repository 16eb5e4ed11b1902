/** Seeding and then onboarding every source from an empty table, and doing it again. */
module SeedLaws {
  import opened Contract
  import opened Onboarding
  import opened OnboardingLaws
  import Inversion
  import Store

  /** One source with the fields it lists. */
  datatype SourceRun = SourceRun(setup: Setup, fields: seq<string>)

  function WritesOf(run: SourceRun): seq<Write> {
    Onboard(run.setup, run.fields, map[]).writes
  }

  function AllWrites(runs: seq<SourceRun>): seq<Write> {
    if runs == [] then [] else AllWrites(runs[..|runs| - 1]) + WritesOf(runs[|runs| - 1])
  }

  /** The run raises nothing, and its fields and row keys are distinct. */
  ghost predicate WellRun(run: SourceRun, cellIdOf: string -> CellId) {
    && Completes(run.setup, run.fields, map[])
    && DistinctFields(run.fields) && DistinctRowKeys(run.setup) && run.setup.cellIdOf == cellIdOf
  }

  ghost predicate WellRuns(runs: seq<SourceRun>, cellIdOf: string -> CellId) {
    && Injective(cellIdOf)
    && (forall k :: 0 <= k < |runs| ==> WellRun(runs[k], cellIdOf))
    && forall j, k :: 0 <= j < k < |runs| ==> runs[j].setup.source != runs[k].setup.source
  }

  /** Alike but for the proposals already made. */
  ghost predicate Alike(p: Progress, q: Progress) {
    p.writes == q.writes && p.report == q.report && p.raised == q.raised
  }

  lemma RouteAlike(e: Setup, p: Progress, q: Progress, field: string, i: nat)
    requires Alike(p, q)
    ensures Alike(Route(e, p, field, i), Route(e, q, field, i))
  {
  }

  /** The proposals made before a run do not show in what it writes. */
  lemma {:induction false} ProposedIrrelevant(e: Setup, fields: seq<string>, q: Proposals, q': Proposals)
    ensures Alike(Onboard(e, fields, q), Onboard(e, fields, q'))
  {
    if fields != [] {
      var i := |fields| - 1;
      ProposedIrrelevant(e, fields[..i], q, q');
      RouteAlike(e, Onboard(e, fields[..i], q), Onboard(e, fields[..i], q'), fields[i], i);
    }
  }

  lemma {:induction false} AllWritesMember(runs: seq<SourceRun>, w: Write)
    ensures w in AllWrites(runs) <==> exists k :: 0 <= k < |runs| && w in WritesOf(runs[k])
  {
    if runs != [] {
      var n := |runs| - 1;
      AllWritesMember(runs[..n], w);
    }
  }

  /** A write is that of a row of its own source, grouped as that row is. */
  lemma WriteOrigin(run: SourceRun, cellIdOf: string -> CellId, w: Write)
    requires WellRun(run, cellIdOf) && w in WritesOf(run)
    ensures Place(w).Ok? && Place(w).value.0 == run.setup.source
    ensures w.cell.cellId == cellIdOf(w.cell.ref.locator)
    ensures exists row :: row in run.setup.rows && run.setup.keyField in row
              && row[run.setup.keyField] == Place(w).value.1 && w.principal == run.setup.principalOf(row)
  {
    WritesServe(run.setup, run.fields, map[], w);
  }

  /** Over all the sources together no cell is written twice. */
  lemma {:induction false} AllWritesDistinct(runs: seq<SourceRun>, cellIdOf: string -> CellId)
    requires WellRuns(runs, cellIdOf)
    ensures DistinctIds(AllWrites(runs))
  {
    if runs != [] {
      var n := |runs| - 1;
      var (before, last) := (AllWrites(runs[..n]), WritesOf(runs[n]));
      AllWritesDistinct(runs[..n], cellIdOf);
      WritesDistinct(runs[n].setup, runs[n].fields, map[]);
      forall x, y | 0 <= x < |before| && 0 <= y < |last|
        ensures before[x].cell.cellId != last[y].cell.cellId
      {
        AllWritesMember(runs[..n], before[x]);
        var k :| 0 <= k < n && before[x] in WritesOf(runs[..n][k]);
        assert runs[..n][k] == runs[k];
        WriteOrigin(runs[k], cellIdOf, before[x]);
        WriteOrigin(runs[n], cellIdOf, last[y]);
      }
      DistinctTogether(before, last);
    }
  }

  lemma DistinctTogether(before: seq<Write>, last: seq<Write>)
    requires DistinctIds(before) && DistinctIds(last)
    requires forall x, y :: 0 <= x < |before| && 0 <= y < |last| ==> before[x].cell.cellId != last[y].cell.cellId
    ensures DistinctIds(before + last)
  {
  }

  /** From an empty table, the stored cells are exactly those written, each as its row has it. */
  lemma StoredExactly(runs: seq<SourceRun>, cellIdOf: string -> CellId, id: CellId)
    requires WellRuns(runs, cellIdOf)
    ensures var t := WriteAll(map[], AllWrites(runs));
            && (id in t <==> exists w :: w in AllWrites(runs) && w.cell.cellId == id)
            && forall w :: w in AllWrites(runs) && w.cell.cellId == id ==>
                 id in t && t[id] == Store.Row(w.principal, w.cell)
  {
    AllWritesDistinct(runs, cellIdOf);
    TableExactly(map[], AllWrites(runs), id);
    forall w | w in AllWrites(runs) && w.cell.cellId == id
      ensures exists x :: 0 <= x < |AllWrites(runs)| && AllWrites(runs)[x] == w
    {
    }
  }

  /** The row of the table is that of row `row` of the source for its auto field `a`. */
  ghost predicate IsRowOf(run: SourceRun, a: AutoField, row: Row, r: Store.Row) {
    && a in AutoList(run.fields, Kinds(run.setup, run.fields)) && row in run.setup.rows
    && Serves(run.setup, a, row, Write(r.principal, r.cell))
  }

  lemma WrittenExactly(run: SourceRun, cellIdOf: string -> CellId, w: Write)
    requires WellRun(run, cellIdOf)
    ensures w in WritesOf(run) <==> exists a, row :: IsRowOf(run, a, row, Store.Row(w.principal, w.cell))
  {
    if w in WritesOf(run) {
      WritesServe(run.setup, run.fields, map[], w);
      var a, row :| a in AutoList(run.fields, Kinds(run.setup, run.fields)) && row in run.setup.rows
        && Serves(run.setup, a, row, w);
      assert IsRowOf(run, a, row, Store.Row(w.principal, w.cell));
    }
    if exists a, row :: IsRowOf(run, a, row, Store.Row(w.principal, w.cell)) {
      var a, row :| IsRowOf(run, a, row, Store.Row(w.principal, w.cell));
      RowsServed(run.setup, run.fields, map[], a, row);
      var w' :| w' in WritesOf(run) && Serves(run.setup, a, row, w');
      ServesOnce(run.setup, a, row, w, w');
    }
  }

  /** From an empty table, the stored rows are exactly those of each source's rows and auto fields: a cell
      that locates the field of the row at the source, and the principal of the row. */
  lemma CellsExactly(runs: seq<SourceRun>, cellIdOf: string -> CellId, r: Store.Row)
    requires WellRuns(runs, cellIdOf)
    ensures var t := WriteAll(map[], AllWrites(runs));
            (r.cell.cellId in t && t[r.cell.cellId] == r) <==>
            exists k, a, row :: 0 <= k < |runs| && IsRowOf(runs[k], a, row, r)
  {
    var w := Write(r.principal, r.cell);
    StoredExactly(runs, cellIdOf, r.cell.cellId);
    AllWritesMember(runs, w);
    forall k | 0 <= k < |runs|
      ensures w in WritesOf(runs[k]) <==> exists a, row :: IsRowOf(runs[k], a, row, r)
    {
      WrittenExactly(runs[k], cellIdOf, w);
    }
  }

  /** Onboarding every source again leaves the table as it is. */
  lemma OnboardedAgain(runs: seq<SourceRun>, cellIdOf: string -> CellId)
    requires WellRuns(runs, cellIdOf)
    ensures var t := WriteAll(map[], AllWrites(runs));
            WriteAll(t, AllWrites(runs)) == t
  {
    AllWritesDistinct(runs, cellIdOf);
    RerunChangesNothing(map[], AllWrites(runs));
  }

  // ---- grouping by email ----

  /** Rows are grouped as the seed has them. */
  ghost predicate SeededBy(e: Setup, groups: Inversion.Groups) {
    forall row :: row in e.rows && e.keyField in row ==>
      e.principalOf(row) ==
      if (e.source, row[e.keyField]) in groups then Some(groups[(e.source, row[e.keyField])]) else None
  }

  function EmailOf(lower: string -> string, r: Inversion.EmailRecord): string {
    Inversion.NormaliseEmail(lower, r.email)
  }

  /** Record `i` is the one of the row that `w` was written for. */
  ghost predicate IsRecordOf(records: seq<Inversion.EmailRecord>, i: nat, w: Write) {
    i < |records| && Place(w).Ok? && Inversion.RowOf(records[i]) == (Place(w).value.0, Place(w).value.1)
  }

  lemma PrincipalOfWrite(
    lower: string -> string, digest: string -> string, records: seq<Inversion.EmailRecord>,
    runs: seq<SourceRun>, cellIdOf: string -> CellId, w: Write, i: nat)
    requires WellRuns(runs, cellIdOf) && Inversion.DistinctRecords(records)
    requires forall k :: 0 <= k < |runs| ==> SeededBy(runs[k].setup, Inversion.Seeded(lower, digest, records))
    requires w in AllWrites(runs) && IsRecordOf(records, i, w)
    ensures w.principal ==
            if EmailOf(lower, records[i]) == "" then
              None
            else
              Some(Inversion.GroupId(digest, EmailOf(lower, records[i])))
  {
    AllWritesMember(runs, w);
    var k :| 0 <= k < |runs| && w in WritesOf(runs[k]);
    WriteOrigin(runs[k], cellIdOf, w);
    Inversion.SeededExactly(lower, digest, records, i);
  }

  /** Seeding and onboarding all the sources from an empty table groups two cells together exactly when
      their rows share a non-blank normalised email. */
  lemma GroupedByEmailExactly(
    lower: string -> string, digest: string -> string, records: seq<Inversion.EmailRecord>,
    runs: seq<SourceRun>, cellIdOf: string -> CellId, u: Write, i: nat, v: Write, j: nat)
    requires WellRuns(runs, cellIdOf) && Inversion.DistinctRecords(records)
    requires forall k :: 0 <= k < |runs| ==> SeededBy(runs[k].setup, Inversion.Seeded(lower, digest, records))
    requires forall a, b :: a in records && b in records && digest(EmailOf(lower, a)) == digest(EmailOf(lower, b))
               ==> EmailOf(lower, a) == EmailOf(lower, b)
    requires u in AllWrites(runs) && IsRecordOf(records, i, u) && v in AllWrites(runs) && IsRecordOf(records, j, v)
    ensures var t := WriteAll(map[], AllWrites(runs));
            && u.cell.cellId in t && v.cell.cellId in t
            && ((t[u.cell.cellId].principal.Some? && t[u.cell.cellId].principal == t[v.cell.cellId].principal) <==>
                EmailOf(lower, records[i]) != "" && EmailOf(lower, records[i]) == EmailOf(lower, records[j]))
  {
    StoredExactly(runs, cellIdOf, u.cell.cellId);
    StoredExactly(runs, cellIdOf, v.cell.cellId);
    PrincipalOfWrite(lower, digest, records, runs, cellIdOf, u, i);
    PrincipalOfWrite(lower, digest, records, runs, cellIdOf, v, j);
    var (a, b) := (EmailOf(lower, records[i]), EmailOf(lower, records[j]));
    assert records[i] in records && records[j] in records;
    assert Inversion.GroupId(digest, a)[4..] == digest(a) && Inversion.GroupId(digest, b)[4..] == digest(b);
  }
}
