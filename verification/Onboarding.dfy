/** The onboarding orchestrator: each field of a source is minted, proposed or deferred. */
module Onboarding {
  import opened Contract
  import Gate
  import Inversion
  import Store
  import Text

  type Row = map<string, string>

  datatype Band = Auto | Flag | ProposeNew | Quarantine

  datatype Proposal = Proposal(band: Band, node: Option<string>, evidence: string)

  /** One onboarding run: the source, the classifier as an oracle, who onboards and when. The clock
      gives the gate's reading for each field in turn. */
  datatype Setup = Setup(
    source: string,
    rows: seq<Row>,
    column: string -> seq<string>,
    principalOf: Row -> Option<PrincipalId>,
    keyField: string,
    policyId: string,
    cellIdOf: string -> CellId,
    shouldDefer: (string, seq<string>) -> bool,
    classify: (string, seq<string>) -> Proposal,
    lazy: bool,
    cap: Capability,
    clock: nat -> int)

  // ---- the bounded sample ----

  predicate OnboardingOnly(cap: Capability, ctx: Context) {
    cap.purpose == "onboarding"
  }

  function NonBlank(values: seq<string>): seq<string> {
    if values == [] then
      []
    else
      (if Text.Trim(values[0]) != "" then [values[0]] else []) + NonBlank(values[1..])
  }

  function First(values: seq<string>, n: nat): seq<string> {
    if |values| <= n then values else values[..n]
  }

  /** At most three non-blank values, and none at all behind a closed gate. */
  function Sample(e: Setup, field: string, i: nat): seq<string> {
    var ctx := Context(false, None, map["purpose" := "onboarding", "source" := e.source, "field" := field]);
    if Gate.Check(e.cap, OnboardingOnly, ctx, e.clock(i)) then First(NonBlank(e.column(field)), 3) else []
  }

  // ---- routing one field ----

  datatype Ruling = Deferred | Judged(proposal: Proposal)

  /** The locator of the sample is minted first, which an empty source or field makes fail. */
  function Rule(e: Setup, field: string, i: nat): Result<Ruling> {
    if e.source == "" || field == "" then
      Err(ValueError)
    else
      var sample := Sample(e, field, i);
      if e.lazy && e.shouldDefer(field, sample) then Ok(Deferred) else Ok(Judged(e.classify(field, sample)))
  }

  datatype Write = Write(principal: Option<PrincipalId>, cell: Cell)

  function MintRow(e: Setup, field: string, node: string, row: Row): Result<Write> {
    if e.keyField !in row then
      Err(KeyError)
    else
      var typ := TypeDescriptor("string", None, node);
      match Inversion.MintCell(e.cellIdOf, e.source, row[e.keyField], (field, typ), e.policyId)
      case Err(err) => Err(err)
      case Ok(cell) => Ok(Write(e.principalOf(row), cell))
  }

  /** The writes made for a field, and the error that cut them short if there was one. */
  function MintRows(e: Setup, field: string, node: string, rows: seq<Row>): (seq<Write>, Option<Error>) {
    if rows == [] then
      ([], None)
    else
      var (writes, raised) := MintRows(e, field, node, rows[..|rows| - 1]);
      if raised.Some? then
        (writes, raised)
      else
        match MintRow(e, field, node, rows[|rows| - 1])
        case Err(err) => (writes, Some(err))
        case Ok(w) => (writes + [w], None)
  }

  datatype Report = Report(
    bands: map<string, Option<Band>>,           // None stands for "deferred"
    proposedNodes: map<string, Option<string>>,
    proposals: map<string, string>,
    autoFields: seq<string>,
    deferred: seq<string>,
    mintedCells: nat)

  type Proposals = map<string, Proposal>

  /** What a run has done so far: the report, the cell writes and proposals made, and an error. */
  datatype Progress = Progress(report: Report, writes: seq<Write>, proposed: Proposals, raised: Option<Error>)

  function ProposalId(source: string, field: string): string {
    source + ":" + field
  }

  function Apply(e: Setup, p: Progress, field: string, proposal: Proposal): Progress {
    var ruled := p.report.(
      bands := p.report.bands[field := Some(proposal.band)],
      proposedNodes := p.report.proposedNodes[field := proposal.node]);
    if proposal.band != Auto then
      var id := ProposalId(e.source, field);
      p.(report := ruled.(proposals := ruled.proposals[field := id]), proposed := p.proposed[id := proposal])
    else if proposal.node.None? then
      p.(report := ruled.(autoFields := ruled.autoFields + [field]), raised := Some(ValueError))
    else
      var (writes, raised) := MintRows(e, field, proposal.node.value, e.rows);
      p.(report := ruled.(autoFields := ruled.autoFields + [field], mintedCells := ruled.mintedCells + |writes|),
         writes := p.writes + writes,
         raised := raised)
  }

  function Route(e: Setup, p: Progress, field: string, i: nat): Progress {
    match Rule(e, field, i)
    case Err(err) => p.(raised := Some(err))
    case Ok(Deferred) =>
      p.(report := p.report.(deferred := p.report.deferred + [field], bands := p.report.bands[field := None]))
    case Ok(Judged(proposal)) => Apply(e, p, field, proposal)
  }

  function Start(proposed: Proposals): Progress {
    Progress(Report(map[], map[], map[], [], [], 0), [], proposed, None)
  }

  function Onboard(e: Setup, fields: seq<string>, proposed: Proposals): Progress {
    if fields == [] then
      Start(proposed)
    else
      var p := Onboard(e, fields[..|fields| - 1], proposed);
      if p.raised.Some? then p else Route(e, p, fields[|fields| - 1], |fields| - 1)
  }

  /** The table after a list of upserts. */
  function WriteAll(t: Store.Table, writes: seq<Write>): Store.Table {
    if writes == [] then
      t
    else
      var w := writes[|writes| - 1];
      Store.Put(WriteAll(t, writes[..|writes| - 1]), w.principal, w.cell)
  }

  lemma {:induction false} WriteAllConcat(t: Store.Table, first: seq<Write>, second: seq<Write>)
    ensures WriteAll(t, first + second) == WriteAll(WriteAll(t, first), second)
  {
    if second == [] {
      assert first + second == first;
    } else {
      var n := |second| - 1;
      assert (first + second)[..|first| + n] == first + second[..n];
      WriteAllConcat(t, first, second[..n]);
    }
  }

  lemma {:induction false} OnboardStuck(e: Setup, fields: seq<string>, proposed: Proposals, n: nat)
    requires n <= |fields| && Onboard(e, fields[..n], proposed).raised.Some?
    ensures Onboard(e, fields, proposed) == Onboard(e, fields[..n], proposed)
    decreases |fields|
  {
    if n == |fields| {
      assert fields[..n] == fields;
    } else {
      assert fields[..|fields| - 1][..n] == fields[..n];
      OnboardStuck(e, fields[..|fields| - 1], proposed, n);
    }
  }

  lemma {:induction false} MintRowsStuck(e: Setup, field: string, node: string, rows: seq<Row>, n: nat)
    requires n <= |rows| && MintRows(e, field, node, rows[..n]).1.Some?
    ensures MintRows(e, field, node, rows) == MintRows(e, field, node, rows[..n])
    decreases |rows|
  {
    if n == |rows| {
      assert rows[..n] == rows;
    } else {
      assert rows[..|rows| - 1][..n] == rows[..n];
      MintRowsStuck(e, field, node, rows[..|rows| - 1], n);
    }
  }

  /** Proposals by id; a second proposal under one id replaces the first. */
  class ControlPlane {
    var proposed: Proposals

    constructor ()
      ensures proposed == map[]
    {
      proposed := map[];
    }

    method Propose(id: string, proposal: Proposal)
      modifies this
      ensures proposed == old(proposed)[id := proposal]
    {
      proposed := proposed[id := proposal];
    }
  }

  class Onboarder {
    const store: Store.MasterTableStore
    const controlPlane: ControlPlane

    var report: Report

    constructor (store: Store.MasterTableStore, controlPlane: ControlPlane)
      ensures this.store == store && this.controlPlane == controlPlane
    {
      this.store, this.controlPlane := store, controlPlane;
      report := Start(map[]).report;
    }

    /** The report, the proposals and the table show what `p` has done to the table `t`. */
    ghost predicate Shows(p: Progress, t: Store.Table)
      reads this, store, controlPlane
    {
      && store.Valid() && report == p.report && controlPlane.proposed == p.proposed
      && store.table == WriteAll(t, p.writes)
    }

    /** Onboards the source, updating the store and the control plane up to the first error. */
    method OnboardSource(e: Setup, fields: seq<string>) returns (raised: Option<Error>)
      requires store.Valid()
      modifies this, store, controlPlane
      ensures var p := Onboard(e, fields, old(controlPlane.proposed));
              raised == p.raised && Shows(p, old(store.table))
    {
      report := Start(map[]).report;
      ghost var before := controlPlane.proposed;
      for i := 0 to |fields|
        invariant Onboard(e, fields[..i], before).raised == None
        invariant Shows(Onboard(e, fields[..i], before), old(store.table))
      {
        assert fields[..i + 1][..i] == fields[..i];
        raised := RouteField(e, Onboard(e, fields[..i], before), old(store.table), fields[i], i);
        if raised.Some? {
          OnboardStuck(e, fields, before, i + 1);
          return;
        }
      }
      assert fields[..|fields|] == fields;
      raised := None;
    }

    method RouteField(e: Setup, ghost p: Progress, ghost t: Store.Table, field: string, i: nat)
      returns (raised: Option<Error>)
      requires p.raised == None && Shows(p, t)
      modifies this, store, controlPlane
      ensures raised == Route(e, p, field, i).raised && Shows(Route(e, p, field, i), t)
    {
      var ruling := Rule(e, field, i);
      if ruling.Err? {
        return Some(ruling.error);
      }
      match ruling.value
      case Deferred =>
        report := report.(deferred := report.deferred + [field], bands := report.bands[field := None]);
        raised := None;
      case Judged(proposal) =>
        raised := ApplyProposal(e, p, t, field, proposal);
    }

    method ApplyProposal(e: Setup, ghost p: Progress, ghost t: Store.Table, field: string, proposal: Proposal)
      returns (raised: Option<Error>)
      requires p.raised == None && Shows(p, t)
      modifies this, store, controlPlane
      ensures raised == Apply(e, p, field, proposal).raised && Shows(Apply(e, p, field, proposal), t)
    {
      report := report.(
        bands := report.bands[field := Some(proposal.band)],
        proposedNodes := report.proposedNodes[field := proposal.node]);
      if proposal.band == Auto {
        report := report.(autoFields := report.autoFields + [field]);
        if proposal.node.None? {
          return Some(ValueError);
        }
        WriteAllConcat(t, p.writes, MintRows(e, field, proposal.node.value, e.rows).0);
        raised := MintAuto(e, field, proposal.node.value);
      } else {
        var id := ProposalId(e.source, field);
        controlPlane.Propose(id, proposal);
        report := report.(proposals := report.proposals[field := id]);
        raised := None;
      }
    }

    /** Point-of-use classification of a deferred field, on a sample the caller has taken, under a
        report of its own. */
    method ClassifyDeferred(e: Setup, field: string, sample: seq<string>)
      returns (proposal: Proposal, raised: Option<Error>)
      requires store.Valid()
      modifies this, store, controlPlane
      ensures proposal == e.classify(field, sample)
      ensures var p := Apply(e, Start(old(controlPlane.proposed)), field, proposal);
              raised == p.raised && Shows(p, old(store.table))
    {
      report := Start(map[]).report;
      proposal := e.classify(field, sample);
      raised := ApplyProposal(e, Start(controlPlane.proposed), store.table, field, proposal);
    }

    method MintAuto(e: Setup, field: string, node: string) returns (raised: Option<Error>)
      requires store.Valid()
      modifies this`report, store
      ensures store.Valid()
      ensures var (writes, error) := MintRows(e, field, node, e.rows);
              && raised == error
              && store.table == WriteAll(old(store.table), writes)
              && report == old(report).(mintedCells := old(report).mintedCells + |writes|)
    {
      ghost var writes: seq<Write> := [];
      for i := 0 to |e.rows|
        invariant store.Valid() && MintRows(e, field, node, e.rows[..i]) == (writes, None)
        invariant store.table == WriteAll(old(store.table), writes)
        invariant report == old(report).(mintedCells := old(report).mintedCells + |writes|)
      {
        assert e.rows[..i + 1][..i] == e.rows[..i];
        var minted := BuildRow(e, field, node, e.rows[i]);
        if minted.Err? {
          MintRowsStuck(e, field, node, e.rows, i + 1);
          return Some(minted.error);
        }
        store.PutCellFor(minted.value.principal, minted.value.cell);
        report := report.(mintedCells := report.mintedCells + 1);
        writes := writes + [minted.value];
        assert writes[..|writes| - 1] == MintRows(e, field, node, e.rows[..i]).0;
      }
      assert e.rows[..|e.rows|] == e.rows;
      raised := None;
    }

    static method BuildRow(e: Setup, field: string, node: string, row: Row) returns (r: Result<Write>)
      ensures r == MintRow(e, field, node, row)
    {
      if e.keyField !in row {
        return Err(KeyError);
      }
      var pid := e.principalOf(row);
      var typ := TypeDescriptor("string", None, node);
      var cells := Inversion.BuildCells(e.cellIdOf, e.source, row[e.keyField], [(field, typ)], e.policyId);
      assert [(field, typ)][..0] == [];
      if cells.Err? {
        return Err(cells.error);
      }
      r := Ok(Write(pid, cells.value[0]));
    }
  }
}
