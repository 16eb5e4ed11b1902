/** What onboarding leaves behind: which fields are served, which cells are stored, and how grouped. */
module OnboardingLaws {
  import opened Contract
  import opened Onboarding
  import Inversion
  import Locators
  import Store
  import Text

  // ---- each field goes one way ----

  /** What a run makes of a field: minted under a node, deferred, proposed, or an error. */
  datatype Kind = Minted(node: string) | Later | Proposed | Bad

  function KindOf(e: Setup, field: string, i: nat): Kind {
    match Rule(e, field, i)
    case Err(_) => Bad
    case Ok(Deferred) => Later
    case Ok(Judged(proposal)) =>
      if proposal.band != Auto then Proposed else if proposal.node.Some? then Minted(proposal.node.value) else Bad
  }

  function Kinds(e: Setup, fields: seq<string>): (kinds: seq<Kind>)
    ensures |kinds| == |fields| && forall i :: 0 <= i < |fields| ==> kinds[i] == KindOf(e, fields[i], i)
  {
    seq(|fields|, i requires 0 <= i < |fields| => KindOf(e, fields[i], i))
  }

  // ---- the bounded sample ----

  /** A value is skipped exactly when it is blank. */
  lemma NonBlankOfOne(v: string)
    ensures NonBlank([v]) == if Text.IsBlank(v) then [] else [v]
  {
    Text.TrimmedAway(v);
    assert [v][1..] == [];
  }

  lemma {:induction false} NonBlankConcat(a: seq<string>, b: seq<string>)
    ensures NonBlank(a + b) == NonBlank(a) + NonBlank(b)
  {
    if a == [] {
      assert a + b == b;
    } else {
      assert (a + b)[1..] == a[1..] + b;
      NonBlankConcat(a[1..], b);
    }
  }

  /** The classifier sees at most three values of the column, the first that are not blank, and none at all
      under another purpose than onboarding or after expiry. */
  lemma SampleExactly(e: Setup, field: string, i: nat)
    ensures var (sample, open) := (Sample(e, field, i), e.cap.purpose == "onboarding" && e.clock(i) <= e.cap.expiry);
            && |sample| <= 3
            && (!open ==> sample == [])
            && (open ==> sample <= NonBlank(e.column(field)))
            && (open && |sample| < 3 ==> sample == NonBlank(e.column(field)))
  {
  }

  // ---- what is ruled ----

  /** A field of a named source is deferred exactly when the run is lazy and the classifier would defer it;
      any other goes by the classifier's proposal, which mints in the auto band and under a node. */
  lemma KindExactly(e: Setup, field: string, i: nat)
    ensures var sample := Sample(e, field, i);
            var proposal := e.classify(field, sample);
            var (named, later) := (e.source != "" && field != "", e.lazy && e.shouldDefer(field, sample));
            match KindOf(e, field, i)
            case Later => named && later
            case Proposed => named && !later && proposal.band != Auto
            case Minted(node) => named && !later && proposal.band == Auto && proposal.node == Some(node)
            case Bad => !named || (!later && proposal.band == Auto && proposal.node == None)
  {
  }

  // ---- the report ----

  /** What the report says of a field: the band, the node, and where it is proposed. */
  ghost predicate Reports(e: Setup, field: string, i: nat, r: Report) {
    var proposal := e.classify(field, Sample(e, field, i));
    && field in r.bands
    && (KindOf(e, field, i) == Later ==> r.bands[field] == None)
    && (KindOf(e, field, i) != Later ==>
          r.bands[field] == Some(proposal.band) && field in r.proposedNodes && r.proposedNodes[field] == proposal.node)
    && (KindOf(e, field, i) == Proposed ==>
          field in r.proposals && r.proposals[field] == e.source + ":" + field)
  }

  /** The reports say the same of every other field. */
  ghost predicate SameBut(r: Report, r': Report, field: string) {
    && r'.bands - {field} == r.bands - {field} && r'.proposedNodes - {field} == r.proposedNodes - {field}
    && r'.proposals - {field} == r.proposals - {field}
  }

  lemma RouteReports(e: Setup, p: Progress, field: string, i: nat)
    requires p.raised == None && Route(e, p, field, i).raised == None
    ensures Reports(e, field, i, Route(e, p, field, i).report)
    ensures SameBut(p.report, Route(e, p, field, i).report, field)
  {
  }

  lemma ReportsKept(e: Setup, field: string, i: nat, other: string, r: Report, r': Report)
    requires Reports(e, field, i, r) && other != field && SameBut(r, r', other)
    ensures Reports(e, field, i, r')
  {
    assert field in r.bands - {other} && (field in r.proposedNodes ==> field in r.proposedNodes - {other});
    assert field in r.proposals ==> field in r.proposals - {other};
  }

  lemma ReportNext(e: Setup, fields: seq<string>, proposed: Proposals)
    requires Completes(e, fields, proposed) && fields != []
    ensures var n := |fields| - 1;
            && Completes(e, fields[..n], proposed)
            && Reports(e, fields[n], n, Onboard(e, fields, proposed).report)
            && SameBut(Onboard(e, fields[..n], proposed).report, Onboard(e, fields, proposed).report, fields[n])
  {
    var n := |fields| - 1;
    OnboardNext(e, fields, proposed);
    RouteReports(e, Onboard(e, fields[..n], proposed), fields[n], n);
  }

  /** A completed run reports each of its fields so. */
  lemma {:induction false} ReportExactly(e: Setup, fields: seq<string>, proposed: Proposals, i: nat)
    requires Completes(e, fields, proposed) && DistinctFields(fields) && i < |fields|
    ensures Reports(e, fields[i], i, Onboard(e, fields, proposed).report)
  {
    var n := |fields| - 1;
    ReportNext(e, fields, proposed);
    if i < n {
      assert fields[..n][i] == fields[i];
      ReportExactly(e, fields[..n], proposed, i);
      ReportsKept(e, fields[i], i, fields[n], Onboard(e, fields[..n], proposed).report,
        Onboard(e, fields, proposed).report);
    }
  }

  // ---- which fields are minted ----

  type AutoField = (string, string)

  /** The minted fields with their nodes, in order. */
  function AutoList(fields: seq<string>, kinds: seq<Kind>): seq<AutoField>
    requires |fields| == |kinds|
  {
    if fields == [] then
      []
    else
      var n := |fields| - 1;
      AutoList(fields[..n], kinds[..n]) + if kinds[n].Minted? then [(fields[n], kinds[n].node)] else []
  }

  function OfKind(fields: seq<string>, kinds: seq<Kind>, kind: Kind): seq<string>
    requires |fields| == |kinds|
  {
    if fields == [] then
      []
    else
      var n := |fields| - 1;
      OfKind(fields[..n], kinds[..n], kind) + if kinds[n] == kind then [fields[n]] else []
  }

  function Names(autos: seq<AutoField>): (names: seq<string>)
    ensures |names| == |autos| && forall i :: 0 <= i < |autos| ==> names[i] == autos[i].0
  {
    seq(|autos|, i requires 0 <= i < |autos| => autos[i].0)
  }

  /** The writes of each auto field, row by row. */
  function Blocks(e: Setup, autos: seq<AutoField>): (blocks: seq<seq<Write>>)
    ensures |blocks| == |autos|
    ensures forall a :: 0 <= a < |autos| ==> blocks[a] == MintRows(e, autos[a].0, autos[a].1, e.rows).0
  {
    seq(|autos|, a requires 0 <= a < |autos| => MintRows(e, autos[a].0, autos[a].1, e.rows).0)
  }

  ghost predicate AllMint(e: Setup, autos: seq<AutoField>) {
    forall a :: a in autos ==> MintRows(e, a.0, a.1, e.rows).1 == None
  }

  function Flatten(blocks: seq<seq<Write>>): seq<Write> {
    if blocks == [] then [] else Flatten(blocks[..|blocks| - 1]) + blocks[|blocks| - 1]
  }

  ghost predicate Completes(e: Setup, fields: seq<string>, proposed: Proposals) {
    Onboard(e, fields, proposed).raised == None
  }

  /** The field lists, the proposals and the writes of `p` are those that `kinds` calls for. */
  ghost predicate Summarises(e: Setup, fields: seq<string>, kinds: seq<Kind>, p: Progress) {
    && |kinds| == |fields|
    && p.report.autoFields == Names(AutoList(fields, kinds))
    && p.report.deferred == OfKind(fields, kinds, Later)
    && (forall f :: f in p.report.proposals <==> f in OfKind(fields, kinds, Proposed))
    && AllMint(e, AutoList(fields, kinds))
    && p.writes == Flatten(Blocks(e, AutoList(fields, kinds)))
    && p.report.mintedCells == |p.writes|
  }

  /** Routing a field without an error, by what its ruling is. */
  lemma RouteByKind(e: Setup, p: Progress, field: string, i: nat)
    requires p.raised == None && Route(e, p, field, i).raised == None
    ensures var (kind, p') := (KindOf(e, field, i), Route(e, p, field, i));
            match kind
            case Bad => false
            case Later =>
              && p'.report.autoFields == p.report.autoFields && p'.report.deferred == p.report.deferred + [field]
              && p'.report.proposals == p.report.proposals && p'.writes == p.writes
              && p'.report.mintedCells == p.report.mintedCells
            case Proposed =>
              && p'.report.autoFields == p.report.autoFields && p'.report.deferred == p.report.deferred
              && p'.report.proposals.Keys == p.report.proposals.Keys + {field} && p'.writes == p.writes
              && p'.report.mintedCells == p.report.mintedCells
            case Minted(node) =>
              var (writes, raised) := MintRows(e, field, node, e.rows);
              && raised == None
              && p'.report.autoFields == p.report.autoFields + [field] && p'.report.deferred == p.report.deferred
              && p'.report.proposals == p.report.proposals && p'.writes == p.writes + writes
              && p'.report.mintedCells == p.report.mintedCells + |writes|
  {
  }

  lemma OnboardNext(e: Setup, fields: seq<string>, proposed: Proposals)
    requires Completes(e, fields, proposed) && fields != []
    ensures var i := |fields| - 1;
            && Completes(e, fields[..i], proposed)
            && Onboard(e, fields, proposed) == Route(e, Onboard(e, fields[..i], proposed), fields[i], i)
  {
  }

  lemma FlattenNext(blocks: seq<seq<Write>>, block: seq<Write>)
    ensures Flatten(blocks + [block]) == Flatten(blocks) + block
  {
    assert (blocks + [block])[..|blocks|] == blocks;
  }

  lemma MintedNext(e: Setup, autos: seq<AutoField>, a: AutoField)
    ensures Names(autos + [a]) == Names(autos) + [a.0]
    ensures Flatten(Blocks(e, autos + [a])) == Flatten(Blocks(e, autos)) + MintRows(e, a.0, a.1, e.rows).0
  {
    BlocksNext(e, autos, a);
    FlattenNext(Blocks(e, autos), MintRows(e, a.0, a.1, e.rows).0);
  }

  lemma BlocksNext(e: Setup, autos: seq<AutoField>, a: AutoField)
    ensures Blocks(e, autos + [a]) == Blocks(e, autos) + [MintRows(e, a.0, a.1, e.rows).0]
  {
  }

  lemma SummarisesMinted(e: Setup, autos: seq<AutoField>, a: AutoField)
    requires AllMint(e, autos) && MintRows(e, a.0, a.1, e.rows).1 == None
    ensures AllMint(e, autos + [a])
  {
  }

  lemma SummarisesNext(e: Setup, fields: seq<string>, kinds: seq<Kind>, p: Progress, i: nat, p': Progress)
    requires fields != [] && |kinds| == |fields| && i == |fields| - 1 && kinds[i] == KindOf(e, fields[i], i)
    requires Summarises(e, fields[..i], kinds[..i], p) && p' == Route(e, p, fields[i], i)
    requires p.raised == None && p'.raised == None
    ensures kinds[i] != Bad && Summarises(e, fields, kinds, p')
  {
    RouteByKind(e, p, fields[i], i);
    var autos := AutoList(fields[..i], kinds[..i]);
    if kinds[i].Minted? {
      MintedNext(e, autos, (fields[i], kinds[i].node));
      SummarisesMinted(e, autos, (fields[i], kinds[i].node));
    } else {
      assert AutoList(fields, kinds) == autos;
    }
  }

  lemma KindsNext(e: Setup, fields: seq<string>)
    requires fields != []
    ensures var i := |fields| - 1;
            && Kinds(e, fields)[..i] == Kinds(e, fields[..i])
            && Kinds(e, fields) == Kinds(e, fields[..i]) + [KindOf(e, fields[i], i)]
  {
  }

  lemma {:induction false} RunSummary(e: Setup, fields: seq<string>, proposed: Proposals)
    requires Completes(e, fields, proposed)
    ensures Summarises(e, fields, Kinds(e, fields), Onboard(e, fields, proposed)) && Bad !in Kinds(e, fields)
  {
    if fields != [] {
      var i := |fields| - 1;
      OnboardNext(e, fields, proposed);
      RunSummary(e, fields[..i], proposed);
      KindsNext(e, fields);
      SummarisesNext(e, fields, Kinds(e, fields), Onboard(e, fields[..i], proposed), i, Onboard(e, fields, proposed));
    }
  }

  ghost predicate DistinctFields(fields: seq<string>) {
    forall i, j :: 0 <= i < j < |fields| ==> fields[i] != fields[j]
  }

  lemma {:induction false} OfKindExact(fields: seq<string>, kinds: seq<Kind>, kind: Kind, field: string)
    requires |fields| == |kinds|
    ensures field in OfKind(fields, kinds, kind) <==>
              exists i :: 0 <= i < |fields| && fields[i] == field && kinds[i] == kind
  {
    if fields != [] {
      var n := |fields| - 1;
      assert forall i :: 0 <= i < n ==> fields[..n][i] == fields[i] && kinds[..n][i] == kinds[i];
      OfKindExact(fields[..n], kinds[..n], kind, field);
    }
  }

  lemma {:induction false} AutoListExact(fields: seq<string>, kinds: seq<Kind>, a: AutoField)
    requires |fields| == |kinds|
    ensures a in AutoList(fields, kinds) <==>
              exists i :: 0 <= i < |fields| && fields[i] == a.0 && kinds[i] == Minted(a.1)
  {
    if fields != [] {
      var n := |fields| - 1;
      assert forall i :: 0 <= i < n ==> fields[..n][i] == fields[i] && kinds[..n][i] == kinds[i];
      AutoListExact(fields[..n], kinds[..n], a);
    }
  }

  lemma {:induction false} AutoListDistinct(fields: seq<string>, kinds: seq<Kind>)
    requires |fields| == |kinds| && DistinctFields(fields)
    ensures DistinctFields(Names(AutoList(fields, kinds)))
  {
    if fields != [] {
      var n := |fields| - 1;
      AutoListDistinct(fields[..n], kinds[..n]);
      var before := AutoList(fields[..n], kinds[..n]);
      forall x | 0 <= x < |before|
        ensures before[x].0 != fields[n]
      {
        AutoListExact(fields[..n], kinds[..n], before[x]);
      }
    }
  }

  /** A field of a completed run is in exactly one of the lists of auto, deferred and proposed fields:
      the one its ruling calls for. No other field is in any of them. */
  lemma FieldsPartition(e: Setup, fields: seq<string>, proposed: Proposals, i: nat)
    requires Completes(e, fields, proposed) && DistinctFields(fields) && i < |fields|
    ensures var (r, kind) := (Onboard(e, fields, proposed).report, KindOf(e, fields[i], i));
            && kind != Bad
            && (fields[i] in r.autoFields <==> kind.Minted?)
            && (fields[i] in r.deferred <==> kind == Later)
            && (fields[i] in r.proposals <==> kind == Proposed)
    ensures var r := Onboard(e, fields, proposed).report;
            forall f :: f in r.autoFields || f in r.deferred || f in r.proposals ==> f in fields
  {
    RunSummary(e, fields, proposed);
    var (r, kinds) := (Onboard(e, fields, proposed).report, Kinds(e, fields));
    assert kinds[i] in kinds;
    FieldsListed(fields, kinds, i);
    forall f | f in r.autoFields || f in r.deferred || f in r.proposals
      ensures f in fields
    {
      OfKindExact(fields, kinds, Later, f);
      OfKindExact(fields, kinds, Proposed, f);
      if f in r.autoFields {
        var a :| 0 <= a < |r.autoFields| && r.autoFields[a] == f;
        AutoListExact(fields, kinds, AutoList(fields, kinds)[a]);
      }
    }
  }

  lemma FieldsListed(fields: seq<string>, kinds: seq<Kind>, i: nat)
    requires |fields| == |kinds| && DistinctFields(fields) && i < |fields|
    ensures fields[i] in Names(AutoList(fields, kinds)) <==> kinds[i].Minted?
    ensures fields[i] in OfKind(fields, kinds, Later) <==> kinds[i] == Later
    ensures fields[i] in OfKind(fields, kinds, Proposed) <==> kinds[i] == Proposed
  {
    OfKindExact(fields, kinds, Later, fields[i]);
    OfKindExact(fields, kinds, Proposed, fields[i]);
    var autos := AutoList(fields, kinds);
    if kinds[i].Minted? {
      AutoListExact(fields, kinds, (fields[i], kinds[i].node));
      var a :| 0 <= a < |autos| && autos[a] == (fields[i], kinds[i].node);
      assert Names(autos)[a] == fields[i];
    }
    if fields[i] in Names(autos) {
      var a :| 0 <= a < |autos| && Names(autos)[a] == fields[i];
      AutoListExact(fields, kinds, autos[a]);
    }
  }

  // ---- one write for each row and auto field ----

  /** Where a write's locator points. */
  ghost function Place(w: Write): Result<(string, RowKey, string)> {
    Locators.ParseLocator(w.cell.ref.locator)
  }

  /** The reference is the one minted for the place. */
  ghost predicate MintedFor(ref: Reference, source: string, rowKey: RowKey, field: string) {
    && Locators.MakeLocator(source, rowKey, field) == Ok(ref.locator)
    && ref.source == source && ref.resolver == source
  }

  /** `w` is the write of row `row` for the auto field `a`: a cell without a value, under the field's
      node, that locates the field of the row, grouped as the row is. */
  ghost predicate Serves(e: Setup, a: AutoField, row: Row, w: Write) {
    && e.keyField in row && w.principal == e.principalOf(row)
    && w.cell.cellId == e.cellIdOf(w.cell.ref.locator)
    && MintedFor(w.cell.ref, e.source, row[e.keyField], a.0)
    && w.cell.typ == TypeDescriptor("string", None, a.1) && w.cell.materialised == None && w.cell.policyId == e.policyId
    && Place(w) == Ok((e.source, row[e.keyField], a.0))
  }

  lemma MintRowServes(e: Setup, a: AutoField, row: Row)
    requires MintRow(e, a.0, a.1, row).Ok?
    ensures Serves(e, a, row, MintRow(e, a.0, a.1, row).value)
  {
    var field := (a.0, TypeDescriptor("string", None, a.1));
    Inversion.MintedCellLocates(e.cellIdOf, e.source, row[e.keyField], field, e.policyId);
  }

  lemma MintRowsNext(e: Setup, a: AutoField, rows: seq<Row>)
    requires rows != [] && MintRows(e, a.0, a.1, rows).1 == None
    ensures var (before, last) := (MintRows(e, a.0, a.1, rows[..|rows| - 1]), MintRow(e, a.0, a.1, rows[|rows| - 1]));
            before.1 == None && last.Ok? && MintRows(e, a.0, a.1, rows).0 == before.0 + [last.value]
  {
  }

  /** Each write of the block is that of its row. */
  ghost predicate ServesAll(e: Setup, a: AutoField, rows: seq<Row>, block: seq<Write>) {
    |block| == |rows| && forall r :: 0 <= r < |rows| ==> Serves(e, a, rows[r], block[r])
  }

  lemma ServesNext(e: Setup, a: AutoField, rows: seq<Row>, row: Row, block: seq<Write>, w: Write)
    requires ServesAll(e, a, rows, block) && Serves(e, a, row, w)
    ensures ServesAll(e, a, rows + [row], block + [w])
  {
  }

  lemma BlockNext(e: Setup, a: AutoField, rows: seq<Row>, row: Row, block: seq<Write>)
    requires ServesAll(e, a, rows, block) && MintRow(e, a.0, a.1, row).Ok?
    ensures ServesAll(e, a, rows + [row], block + [MintRow(e, a.0, a.1, row).value])
  {
    MintRowServes(e, a, row);
    ServesNext(e, a, rows, row, block, MintRow(e, a.0, a.1, row).value);
  }

  lemma {:induction false} BlockServes(e: Setup, a: AutoField, rows: seq<Row>)
    requires MintRows(e, a.0, a.1, rows).1 == None
    ensures var block := MintRows(e, a.0, a.1, rows).0;
            ServesAll(e, a, rows, block)
  {
    if rows != [] {
      var n := |rows| - 1;
      MintRowsNext(e, a, rows);
      BlockServes(e, a, rows[..n]);
      BlockNext(e, a, rows[..n], rows[n], MintRows(e, a.0, a.1, rows[..n]).0);
      assert rows == rows[..n] + [rows[n]];
    }
  }

  /** There is only one such write. */
  lemma ServesOnce(e: Setup, a: AutoField, row: Row, w: Write, w': Write)
    requires Serves(e, a, row, w) && Serves(e, a, row, w')
    ensures w == w'
  {
  }

  lemma {:induction false} FlattenMember(blocks: seq<seq<Write>>, w: Write)
    ensures w in Flatten(blocks) <==> exists a :: 0 <= a < |blocks| && w in blocks[a]
  {
    if blocks != [] {
      FlattenMember(blocks[..|blocks| - 1], w);
    }
  }

  lemma {:induction false} FlattenSize(blocks: seq<seq<Write>>, size: nat)
    requires forall a :: 0 <= a < |blocks| ==> |blocks[a]| == size
    ensures |Flatten(blocks)| == size * |blocks|
  {
    if blocks != [] {
      var n := |blocks| - 1;
      FlattenSize(blocks[..n], size);
      assert size * (n + 1) == size * n + size;
    }
  }

  /** A completed run counts and writes one cell for each row and auto field. */
  lemma WritesCounted(e: Setup, fields: seq<string>, proposed: Proposals)
    requires Completes(e, fields, proposed)
    ensures var p := Onboard(e, fields, proposed);
            p.report.mintedCells == |p.writes| == |e.rows| * |p.report.autoFields|
  {
    RunSummary(e, fields, proposed);
    var autos := AutoList(fields, Kinds(e, fields));
    forall a | 0 <= a < |autos|
      ensures |Blocks(e, autos)[a]| == |e.rows|
    {
      assert autos[a] in autos;
      BlockServes(e, autos[a], e.rows);
    }
    FlattenSize(Blocks(e, autos), |e.rows|);
  }

  /** Every write of a completed run is that of some row for some auto field. */
  lemma WritesServe(e: Setup, fields: seq<string>, proposed: Proposals, w: Write)
    requires Completes(e, fields, proposed) && w in Onboard(e, fields, proposed).writes
    ensures exists a, row :: a in AutoList(fields, Kinds(e, fields)) && row in e.rows && Serves(e, a, row, w)
  {
    RunSummary(e, fields, proposed);
    var autos := AutoList(fields, Kinds(e, fields));
    FlattenMember(Blocks(e, autos), w);
    var x :| 0 <= x < |autos| && w in Blocks(e, autos)[x];
    assert autos[x] in autos;
    BlockServes(e, autos[x], e.rows);
    var r :| 0 <= r < |e.rows| && Blocks(e, autos)[x][r] == w;
    assert e.rows[r] in e.rows;
  }

  lemma BlocksServe(e: Setup, autos: seq<AutoField>, a: AutoField, row: Row)
    requires AllMint(e, autos) && a in autos && row in e.rows
    ensures exists w :: w in Flatten(Blocks(e, autos)) && Serves(e, a, row, w)
  {
    var x :| 0 <= x < |autos| && autos[x] == a;
    BlockServes(e, a, e.rows);
    var r :| 0 <= r < |e.rows| && e.rows[r] == row;
    var w := Blocks(e, autos)[x][r];
    FlattenMember(Blocks(e, autos), w);
  }

  /** Every row is written for every auto field. */
  lemma RowsServed(e: Setup, fields: seq<string>, proposed: Proposals, a: AutoField, row: Row)
    requires Completes(e, fields, proposed) && a in AutoList(fields, Kinds(e, fields)) && row in e.rows
    ensures exists w :: w in Onboard(e, fields, proposed).writes && Serves(e, a, row, w)
  {
    RunSummary(e, fields, proposed);
    BlocksServe(e, AutoList(fields, Kinds(e, fields)), a, row);
  }

  // ---- no cell is written twice ----

  ghost predicate DistinctRowKeys(e: Setup) {
    forall r, s :: 0 <= r < s < |e.rows| && e.keyField in e.rows[r] && e.keyField in e.rows[s] ==>
      e.rows[r][e.keyField] != e.rows[s][e.keyField]
  }

  ghost predicate Injective(cellIdOf: string -> CellId) {
    forall x, y :: cellIdOf(x) == cellIdOf(y) ==> x == y
  }

  ghost predicate DistinctIds(writes: seq<Write>) {
    forall x, y :: 0 <= x < y < |writes| ==> writes[x].cell.cellId != writes[y].cell.cellId
  }

  lemma {:induction false} FlattenDistinct(blocks: seq<seq<Write>>)
    requires forall a :: 0 <= a < |blocks| ==> DistinctIds(blocks[a])
    requires forall a, b, u, v :: 0 <= a < b < |blocks| && u in blocks[a] && v in blocks[b] ==>
               u.cell.cellId != v.cell.cellId
    ensures DistinctIds(Flatten(blocks))
  {
    if blocks != [] {
      var n := |blocks| - 1;
      FlattenDistinct(blocks[..n]);
      var (before, last) := (Flatten(blocks[..n]), blocks[n]);
      forall x, y | 0 <= x < |before| && 0 <= y < |last|
        ensures before[x].cell.cellId != last[y].cell.cellId
      {
        FlattenMember(blocks[..n], before[x]);
        assert last[y] in blocks[n];
      }
      assert DistinctIds(before + last);
    }
  }

  lemma ServesDistinct(e: Setup, a: AutoField, row: Row, u: Write, b: AutoField, row': Row, v: Write)
    requires Injective(e.cellIdOf) && Serves(e, a, row, u) && Serves(e, b, row', v) && u.cell.cellId == v.cell.cellId
    ensures a.0 == b.0 && row[e.keyField] == row'[e.keyField]
  {
  }

  lemma AutosDistinct(e: Setup, autos: seq<AutoField>)
    requires AllMint(e, autos) && DistinctFields(Names(autos)) && DistinctRowKeys(e) && Injective(e.cellIdOf)
    ensures DistinctIds(Flatten(Blocks(e, autos)))
  {
    var blocks := Blocks(e, autos);
    forall x | 0 <= x < |autos|
      ensures |blocks[x]| == |e.rows| && forall r :: 0 <= r < |e.rows| ==> Serves(e, autos[x], e.rows[r], blocks[x][r])
    {
      assert autos[x] in autos;
      BlockServes(e, autos[x], e.rows);
    }
    BlocksDistinct(e, autos, blocks);
    FlattenDistinct(blocks);
  }

  /** With distinct row keys and fields, and an id digest without collisions, no cell id is written
      twice in a run. */
  lemma WritesDistinct(e: Setup, fields: seq<string>, proposed: Proposals)
    requires Completes(e, fields, proposed) && DistinctFields(fields) && DistinctRowKeys(e) && Injective(e.cellIdOf)
    ensures DistinctIds(Onboard(e, fields, proposed).writes)
  {
    RunSummary(e, fields, proposed);
    AutoListDistinct(fields, Kinds(e, fields));
    AutosDistinct(e, AutoList(fields, Kinds(e, fields)));
  }

  lemma BlocksDistinct(e: Setup, autos: seq<AutoField>, blocks: seq<seq<Write>>)
    requires |blocks| == |autos| && DistinctFields(Names(autos)) && DistinctRowKeys(e) && Injective(e.cellIdOf)
    requires forall x :: 0 <= x < |autos| ==>
               |blocks[x]| == |e.rows| && forall r :: 0 <= r < |e.rows| ==> Serves(e, autos[x], e.rows[r], blocks[x][r])
    ensures forall x :: 0 <= x < |blocks| ==> DistinctIds(blocks[x])
    ensures forall x, y, u, v :: 0 <= x < y < |blocks| && u in blocks[x] && v in blocks[y] ==>
              u.cell.cellId != v.cell.cellId
  {
    forall x, r, s | 0 <= x < |blocks| && 0 <= r < s < |blocks[x]|
      ensures blocks[x][r].cell.cellId != blocks[x][s].cell.cellId
    {
      if blocks[x][r].cell.cellId == blocks[x][s].cell.cellId {
        ServesDistinct(e, autos[x], e.rows[r], blocks[x][r], autos[x], e.rows[s], blocks[x][s]);
      }
    }
    forall x, y, u, v | 0 <= x < y < |blocks| && u in blocks[x] && v in blocks[y]
      ensures u.cell.cellId != v.cell.cellId
    {
      var r :| 0 <= r < |e.rows| && blocks[x][r] == u;
      var s :| 0 <= s < |e.rows| && blocks[y][s] == v;
      assert Names(autos)[x] != Names(autos)[y];
      if u.cell.cellId == v.cell.cellId {
        ServesDistinct(e, autos[x], e.rows[r], u, autos[y], e.rows[s], v);
      }
    }
  }

  // ---- the table ----

  /** Upserts to distinct ids: each cell is stored as written, a grouping that is missing keeps the
      one before, and nothing else changes. */
  lemma {:induction false} TableExactly(t: Store.Table, writes: seq<Write>, id: CellId)
    requires DistinctIds(writes)
    ensures id in WriteAll(t, writes) <==> id in t || exists x :: 0 <= x < |writes| && writes[x].cell.cellId == id
    ensures (forall x :: 0 <= x < |writes| ==> writes[x].cell.cellId != id) && id in t ==>
              WriteAll(t, writes)[id] == t[id]
    ensures forall x :: 0 <= x < |writes| && writes[x].cell.cellId == id ==>
              id in WriteAll(t, writes) &&
              WriteAll(t, writes)[id] ==
              Store.Row(
                if writes[x].principal.None? && id in t then t[id].principal else writes[x].principal,
                writes[x].cell)
  {
    if writes != [] {
      var n := |writes| - 1;
      var before := writes[..n];
      assert forall x :: 0 <= x < n ==> before[x] == writes[x];
      TableExactly(t, before, id);
    }
  }

  /** Onboarding again with the same verdicts leaves the table as it is. */
  lemma RerunChangesNothing(t: Store.Table, writes: seq<Write>)
    requires DistinctIds(writes)
    ensures WriteAll(WriteAll(t, writes), writes) == WriteAll(t, writes)
  {
    var once := WriteAll(t, writes);
    var twice := WriteAll(once, writes);
    forall id
      ensures id in twice <==> id in once
      ensures id in once ==> twice[id] == once[id]
    {
      TableExactly(t, writes, id);
      TableExactly(once, writes, id);
      if exists x :: 0 <= x < |writes| && writes[x].cell.cellId == id {
        var x :| 0 <= x < |writes| && writes[x].cell.cellId == id;
      }
    }
  }

  /** The order of writes to distinct cells does not show. */
  lemma WriteOrderHidden(t: Store.Table, writes: seq<Write>, writes': seq<Write>)
    requires DistinctIds(writes) && DistinctIds(writes') && forall w :: w in writes <==> w in writes'
    ensures WriteAll(t, writes) == WriteAll(t, writes')
  {
    var (a, b) := (WriteAll(t, writes), WriteAll(t, writes'));
    forall id
      ensures id in a <==> id in b
      ensures id in a && id in b ==> a[id] == b[id]
    {
      TableExactly(t, writes, id);
      TableExactly(t, writes', id);
      if exists x :: 0 <= x < |writes| && writes[x].cell.cellId == id {
        var x :| 0 <= x < |writes| && writes[x].cell.cellId == id;
        assert writes[x] in writes';
        var y :| 0 <= y < |writes'| && writes'[y] == writes[x];
      } else {
        forall y | 0 <= y < |writes'|
          ensures writes'[y].cell.cellId != id
        {
          assert writes'[y] in writes';
          assert writes'[y] in writes;
        }
      }
    }
  }

  // ---- deferral only delays ----

  lemma AutosDecide(e: Setup, autos: seq<AutoField>, autos': seq<AutoField>, t: Store.Table)
    requires AllMint(e, autos) && AllMint(e, autos') && forall a :: a in autos <==> a in autos'
    requires DistinctFields(Names(autos)) && DistinctFields(Names(autos')) && DistinctRowKeys(e)
               && Injective(e.cellIdOf)
    ensures WriteAll(t, Flatten(Blocks(e, autos))) == WriteAll(t, Flatten(Blocks(e, autos')))
  {
    AutosDistinct(e, autos);
    AutosDistinct(e, autos');
    forall w
      ensures w in Flatten(Blocks(e, autos)) <==> w in Flatten(Blocks(e, autos'))
    {
      AutosWithin(e, autos, autos', w);
      AutosWithin(e, autos', autos, w);
    }
    WriteOrderHidden(t, Flatten(Blocks(e, autos)), Flatten(Blocks(e, autos')));
  }

  lemma AutosWithin(e: Setup, autos: seq<AutoField>, autos': seq<AutoField>, w: Write)
    requires forall a :: a in autos ==> a in autos'
    ensures w in Flatten(Blocks(e, autos)) ==> w in Flatten(Blocks(e, autos'))
  {
    FlattenMember(Blocks(e, autos), w);
    FlattenMember(Blocks(e, autos'), w);
    if w in Flatten(Blocks(e, autos)) {
      var x :| 0 <= x < |autos| && w in Blocks(e, autos)[x];
      assert autos[x] in autos';
      var y :| 0 <= y < |autos'| && autos'[y] == autos[x];
      assert Blocks(e, autos')[y] == Blocks(e, autos)[x];
    }
  }

  /** `later` lists positions of deferred fields, none of them twice. */
  ghost predicate AllLater(e: Setup, fields: seq<string>, later: seq<nat>) {
    && (forall x {:trigger later[x]} :: 0 <= x < |later| ==>
          later[x] < |fields| && KindOf(e, fields[later[x]], later[x]) == Later)
    && forall x, y :: 0 <= x < y < |later| ==> later[x] != later[y]
  }

  /** `later` lists every deferred field, in the order in which they are classified. */
  ghost predicate ListsDeferred(e: Setup, fields: seq<string>, later: seq<nat>) {
    && AllLater(e, fields, later)
    && forall i: nat :: i < |fields| && KindOf(e, fields[i], i) == Later ==> i in later
  }

  /** What classifying the listed fields at last, each on the sample it had, makes of them. */
  ghost function LateAutos(e: Setup, fields: seq<string>, later: seq<nat>): seq<AutoField>
    requires AllLater(e, fields, later)
  {
    if later == [] then
      []
    else
      var i := later[|later| - 1];
      var proposal := e.classify(fields[i], Sample(e, fields[i], i));
      LateAutos(e, fields, later[..|later| - 1])
      + if proposal.band == Auto && proposal.node.Some? then [(fields[i], proposal.node.value)] else []
  }

  ghost function Eager(e: Setup): Setup {
    e.(lazy := false)
  }

  /** The writes of a setup do not depend on whether it is lazy. */
  lemma {:induction false} MintIgnoresLazy(e: Setup, field: string, node: string, rows: seq<Row>)
    ensures MintRows(Eager(e), field, node, rows) == MintRows(e, field, node, rows)
  {
    if rows != [] {
      MintIgnoresLazy(e, field, node, rows[..|rows| - 1]);
      assert MintRow(Eager(e), field, node, rows[|rows| - 1]) == MintRow(e, field, node, rows[|rows| - 1]);
    }
  }

  lemma {:induction false} LateAutosExact(e: Setup, fields: seq<string>, later: seq<nat>, a: AutoField)
    requires AllLater(e, fields, later)
    ensures a in LateAutos(e, fields, later) <==>
            exists x :: 0 <= x < |later| && fields[later[x]] == a.0
              && KindOf(Eager(e), fields[later[x]], later[x]) == Minted(a.1)
  {
    if later != [] {
      var (before, i) := (later[..|later| - 1], later[|later| - 1]);
      assert forall x :: 0 <= x < |before| ==> before[x] == later[x];
      LateAutosExact(e, fields, before, a);
      assert Sample(Eager(e), fields[i], i) == Sample(e, fields[i], i);
    }
  }

  lemma {:induction false} LateAutosDistinct(e: Setup, fields: seq<string>, later: seq<nat>)
    requires AllLater(e, fields, later) && DistinctFields(fields)
    ensures DistinctFields(Names(LateAutos(e, fields, later)))
  {
    if later != [] {
      var (before, i) := (later[..|later| - 1], later[|later| - 1]);
      assert forall x :: 0 <= x < |before| ==> before[x] == later[x] && before[x] != i;
      LateAutosDistinct(e, fields, before);
      var autos := LateAutos(e, fields, before);
      forall x | 0 <= x < |autos|
        ensures autos[x].0 != fields[i]
      {
        LateAutosExact(e, fields, before, autos[x]);
      }
    }
  }

  lemma EagerKind(e: Setup, field: string, i: nat)
    ensures KindOf(e, field, i) == Later || KindOf(e, field, i) == KindOf(Eager(e), field, i)
  {
    assert Sample(Eager(e), field, i) == Sample(e, field, i);
  }

  lemma EagerAutos(e: Setup, fields: seq<string>, later: seq<nat>, a: AutoField)
    requires e.lazy && ListsDeferred(e, fields, later)
    ensures a in AutoList(fields, Kinds(Eager(e), fields)) <==>
            a in AutoList(fields, Kinds(e, fields)) || a in LateAutos(e, fields, later)
  {
    AutoListExact(fields, Kinds(Eager(e), fields), a);
    AutoListExact(fields, Kinds(e, fields), a);
    LateAutosExact(e, fields, later, a);
    forall i: nat | i < |fields|
      ensures KindOf(e, fields[i], i) == Later || KindOf(e, fields[i], i) == KindOf(Eager(e), fields[i], i)
    {
      EagerKind(e, fields[i], i);
    }
  }

  /** The writes of classifying the listed fields one after the other, each under its own report. */
  ghost function LateWrites(e: Setup, fields: seq<string>, later: seq<nat>, proposed: Proposals): seq<Write>
    requires AllLater(e, fields, later)
  {
    if later == [] then
      []
    else
      var i := later[|later| - 1];
      LateWrites(e, fields, later[..|later| - 1], proposed)
      + Apply(e, Start(proposed), fields[i], e.classify(fields[i], Sample(e, fields[i], i))).writes
  }

  lemma {:induction false} LateWritesAre(e: Setup, fields: seq<string>, later: seq<nat>, proposed: Proposals)
    requires AllLater(e, fields, later)
    ensures LateWrites(e, fields, later, proposed) == Flatten(Blocks(e, LateAutos(e, fields, later)))
  {
    if later != [] {
      var (before, i) := (later[..|later| - 1], later[|later| - 1]);
      LateWritesAre(e, fields, before, proposed);
      var proposal := e.classify(fields[i], Sample(e, fields[i], i));
      ApplyWrites(e, proposed, fields[i], proposal);
      if proposal.band == Auto && proposal.node.Some? {
        MintedNext(e, LateAutos(e, fields, before), (fields[i], proposal.node.value));
      } else {
        assert LateAutos(e, fields, later) == LateAutos(e, fields, before);
      }
    }
  }

  lemma ApplyWrites(e: Setup, proposed: Proposals, field: string, proposal: Proposal)
    ensures Apply(e, Start(proposed), field, proposal).writes ==
            if proposal.band == Auto && proposal.node.Some? then
              MintRows(e, field, proposal.node.value, e.rows).0
            else
              []
  {
  }

  // ---- the proposals ----

  /** What the classifier proposes for field `i`. */
  function ProposalOf(e: Setup, field: string, i: nat): Proposal {
    e.classify(field, Sample(e, field, i))
  }

  /** The run proposes field `i`, under `id`. */
  ghost predicate Proposes(e: Setup, fields: seq<string>, i: nat, id: string) {
    i < |fields| && KindOf(e, fields[i], i) == Proposed && ProposalId(e.source, fields[i]) == id
  }

  ghost predicate SameAt(p: Proposals, q: Proposals, id: string) {
    (id in p <==> id in q) && (id in p && id in q ==> p[id] == q[id])
  }

  lemma RouteProposes(e: Setup, p: Progress, field: string, i: nat)
    requires p.raised == None && Route(e, p, field, i).raised == None
    ensures Route(e, p, field, i).proposed ==
            if KindOf(e, field, i) == Proposed then
              p.proposed[ProposalId(e.source, field) := ProposalOf(e, field, i)]
            else
              p.proposed
  {
  }

  lemma ProposalIdInjective(source: string, field: string, field': string)
    requires ProposalId(source, field) == ProposalId(source, field')
    ensures field == field'
  {
    assert ProposalId(source, field)[|source| + 1..] == field;
    assert ProposalId(source, field')[|source| + 1..] == field';
  }

  /** A completed run leaves for each field that it proposes what the classifier proposed, and the other
      proposals as they were. */
  lemma {:induction false} ProposedExactly(e: Setup, fields: seq<string>, proposed: Proposals, id: string)
    requires Completes(e, fields, proposed) && DistinctFields(fields)
    ensures forall i: nat :: Proposes(e, fields, i, id) ==>
              var p := Onboard(e, fields, proposed).proposed; id in p && p[id] == ProposalOf(e, fields[i], i)
    ensures (forall i: nat :: !Proposes(e, fields, i, id)) ==>
              SameAt(Onboard(e, fields, proposed).proposed, proposed, id)
  {
    if fields != [] {
      var n := |fields| - 1;
      OnboardNext(e, fields, proposed);
      RouteProposes(e, Onboard(e, fields[..n], proposed), fields[n], n);
      ProposedExactly(e, fields[..n], proposed, id);
      forall i: nat
        ensures Proposes(e, fields, i, id) <==>
                Proposes(e, fields[..n], i, id) || (i == n && Proposes(e, fields, n, id))
      {
        assert i < n ==> fields[..n][i] == fields[i];
      }
      forall i: nat | Proposes(e, fields, i, id) && i < n
        ensures ProposalId(e.source, fields[n]) != id
      {
        if ProposalId(e.source, fields[n]) == id { ProposalIdInjective(e.source, fields[i], fields[n]); }
      }
    }
  }

  /** The proposals after classifying the listed fields one after the other. */
  ghost function LateProposed(e: Setup, fields: seq<string>, later: seq<nat>, proposed: Proposals): Proposals
    requires AllLater(e, fields, later)
  {
    if later == [] then
      proposed
    else
      var i := later[|later| - 1];
      var before := LateProposed(e, fields, later[..|later| - 1], proposed);
      Apply(e, Start(before), fields[i], ProposalOf(e, fields[i], i)).proposed
  }

  lemma LateKind(e: Setup, field: string, i: nat)
    requires KindOf(e, field, i) == Later
    ensures KindOf(Eager(e), field, i) == Proposed <==> ProposalOf(e, field, i).band != Auto
    ensures ProposalOf(Eager(e), field, i) == ProposalOf(e, field, i)
  {
    assert Sample(Eager(e), field, i) == Sample(e, field, i);
  }

  lemma LateStep(e: Setup, fields: seq<string>, later: seq<nat>, proposed: Proposals, id: string)
    requires AllLater(e, fields, later) && later != []
    ensures var (before, n) := (later[..|later| - 1], later[|later| - 1]);
            var (p, p') := (LateProposed(e, fields, before, proposed), LateProposed(e, fields, later, proposed));
            if Proposes(Eager(e), fields, n, id) then
              id in p' && p'[id] == ProposalOf(e, fields[n], n)
            else
              SameAt(p', p, id)
  {
    var n := later[|later| - 1];
    LateKind(e, fields[n], n);
    assert ProposalId(e.source, fields[n]) == ProposalId(Eager(e).source, fields[n]);
  }

  lemma {:induction false} LateProposedExactly(
    e: Setup, fields: seq<string>, later: seq<nat>, proposed: Proposals, id: string)
    requires AllLater(e, fields, later) && DistinctFields(fields)
    ensures forall i: nat :: i in later && Proposes(Eager(e), fields, i, id) ==>
              var p := LateProposed(e, fields, later, proposed); id in p && p[id] == ProposalOf(e, fields[i], i)
    ensures (forall i: nat :: i in later ==> !Proposes(Eager(e), fields, i, id)) ==>
              SameAt(LateProposed(e, fields, later, proposed), proposed, id)
  {
    if later != [] {
      var (before, n) := (later[..|later| - 1], later[|later| - 1]);
      assert forall x :: 0 <= x < |before| ==> before[x] == later[x];
      assert later == before + [n];
      LateProposedExactly(e, fields, before, proposed, id);
      LateStep(e, fields, later, proposed, id);
      forall i: nat | i in before && Proposes(Eager(e), fields, i, id)
        ensures ProposalId(e.source, fields[n]) != id
      {
        if ProposalId(e.source, fields[n]) == id { ProposalIdInjective(e.source, fields[i], fields[n]); }
      }
    }
  }

  /** A deferred field is proposed late, any other that an eager run proposes is proposed soon. */
  lemma SoonOrLate(e: Setup, fields: seq<string>, later: seq<nat>, i: nat, id: string)
    requires e.lazy && ListsDeferred(e, fields, later)
    ensures Proposes(Eager(e), fields, i, id) <==>
            Proposes(e, fields, i, id) || (i in later && Proposes(Eager(e), fields, i, id))
    ensures i in later ==> i < |fields| && KindOf(e, fields[i], i) == Later
    ensures i < |fields| ==> ProposalOf(Eager(e), fields[i], i) == ProposalOf(e, fields[i], i)
  {
    if i < |fields| {
      EagerKind(e, fields[i], i);
      assert Sample(Eager(e), fields[i], i) == Sample(e, fields[i], i);
    }
    if i in later {
      var x :| 0 <= x < |later| && later[x] == i;
    }
  }

  /** Deferral changes no proposal. */
  lemma ProposalsOnlyDelayed(e: Setup, fields: seq<string>, proposed: Proposals, later: seq<nat>, id: string)
    requires e.lazy && ListsDeferred(e, fields, later) && DistinctFields(fields)
    requires Completes(e, fields, proposed) && Completes(Eager(e), fields, proposed)
    ensures SameAt(LateProposed(e, fields, later, Onboard(e, fields, proposed).proposed),
                   Onboard(Eager(e), fields, proposed).proposed, id)
  {
    var soon := Onboard(e, fields, proposed).proposed;
    ProposedExactly(e, fields, proposed, id);
    ProposedExactly(Eager(e), fields, proposed, id);
    LateProposedExactly(e, fields, later, soon, id);
    forall i: nat
      ensures Proposes(Eager(e), fields, i, id) <==>
              Proposes(e, fields, i, id) || (i in later && Proposes(Eager(e), fields, i, id))
    {
      SoonOrLate(e, fields, later, i, id);
    }
    if exists i: nat :: Proposes(Eager(e), fields, i, id) {
      var i: nat :| Proposes(Eager(e), fields, i, id);
      SoonOrLate(e, fields, later, i, id);
      forall j: nat | j in later && Proposes(Eager(e), fields, j, id)
        ensures j == i
      {
        ProposalIdInjective(e.source, fields[i], fields[j]);
      }
    }
  }

  lemma AllProposalsOnlyDelayed(e: Setup, fields: seq<string>, proposed: Proposals, later: seq<nat>)
    requires e.lazy && ListsDeferred(e, fields, later) && DistinctFields(fields)
    requires Completes(e, fields, proposed) && Completes(Eager(e), fields, proposed)
    ensures LateProposed(e, fields, later, Onboard(e, fields, proposed).proposed) ==
            Onboard(Eager(e), fields, proposed).proposed
  {
    var (p, q) := (LateProposed(e, fields, later, Onboard(e, fields, proposed).proposed),
                   Onboard(Eager(e), fields, proposed).proposed);
    forall id
      ensures SameAt(p, q, id)
    {
      ProposalsOnlyDelayed(e, fields, proposed, later, id);
    }
    SameEverywhere(p, q);
  }

  lemma SameEverywhere(p: Proposals, q: Proposals)
    requires forall id :: SameAt(p, q, id)
    ensures p == q
  {
    forall id
      ensures (id in p <==> id in q) && (id in p && id in q ==> p[id] == q[id])
    {
      assert SameAt(p, q, id);
    }
  }

  // ---- deferral as a whole ----

  /** Deferring a field changes when it is classified, never what becomes of it: a lazy run, followed
      by classifying every deferred field in any order on the samples they had, leaves the table and the
      proposals that an eager run would have left. */
  lemma DeferralOnlyDelays(e: Setup, fields: seq<string>, proposed: Proposals, later: seq<nat>, t: Store.Table)
    requires e.lazy && ListsDeferred(e, fields, later)
    requires Completes(e, fields, proposed) && Completes(Eager(e), fields, proposed)
    requires DistinctFields(fields) && DistinctRowKeys(e) && Injective(e.cellIdOf)
    ensures WriteAll(WriteAll(t, Onboard(e, fields, proposed).writes), LateWrites(e, fields, later, proposed)) ==
            WriteAll(t, Onboard(Eager(e), fields, proposed).writes)
    ensures LateProposed(e, fields, later, Onboard(e, fields, proposed).proposed) ==
            Onboard(Eager(e), fields, proposed).proposed
  {
    AllProposalsOnlyDelayed(e, fields, proposed, later);
    var (soon, late, eager) :=
      (AutoList(fields, Kinds(e, fields)), LateAutos(e, fields, later), AutoList(fields, Kinds(Eager(e), fields)));
    RunSummary(e, fields, proposed);
    RunSummary(Eager(e), fields, proposed);
    EagerBlocks(e, eager);
    SoonAndLate(e, fields, later);
    FlattenBoth(e, soon, late);
    AutosDecide(e, soon + late, eager, t);
    WriteAllConcat(t, Flatten(Blocks(e, soon)), Flatten(Blocks(e, late)));
    LateWritesAre(e, fields, later, proposed);
  }

  lemma EagerBlocks(e: Setup, autos: seq<AutoField>)
    ensures Blocks(Eager(e), autos) == Blocks(e, autos)
    ensures AllMint(Eager(e), autos) <==> AllMint(e, autos)
  {
    forall field, node
      ensures MintRows(Eager(e), field, node, e.rows) == MintRows(e, field, node, e.rows)
    {
      MintIgnoresLazy(e, field, node, e.rows);
    }
  }

  lemma {:induction false} FlattenConcat(soon: seq<seq<Write>>, late: seq<seq<Write>>)
    ensures Flatten(soon + late) == Flatten(soon) + Flatten(late)
  {
    if late == [] {
      assert soon + late == soon;
    } else {
      var n := |late| - 1;
      assert (soon + late)[..|soon| + n] == soon + late[..n];
      FlattenConcat(soon, late[..n]);
    }
  }

  lemma FlattenBoth(e: Setup, soon: seq<AutoField>, late: seq<AutoField>)
    ensures Flatten(Blocks(e, soon + late)) == Flatten(Blocks(e, soon)) + Flatten(Blocks(e, late))
  {
    assert Blocks(e, soon + late) == Blocks(e, soon) + Blocks(e, late);
    FlattenConcat(Blocks(e, soon), Blocks(e, late));
  }

  lemma SoonIsNotLate(e: Setup, fields: seq<string>, later: seq<nat>, a: AutoField, b: AutoField)
    requires AllLater(e, fields, later) && DistinctFields(fields)
    requires a in AutoList(fields, Kinds(e, fields)) && b in LateAutos(e, fields, later)
    ensures a.0 != b.0
  {
    AutoListExact(fields, Kinds(e, fields), a);
    LateAutosExact(e, fields, later, b);
    var i: nat :| i < |fields| && fields[i] == a.0 && Kinds(e, fields)[i] == Minted(a.1);
    var x: nat :| x < |later| && fields[later[x]] == b.0;
    assert Kinds(e, fields)[later[x]] == Later;
    assert i != later[x];
  }

  lemma NamesDistinct(soon: seq<AutoField>, late: seq<AutoField>)
    requires DistinctFields(Names(soon)) && DistinctFields(Names(late))
    requires forall a, b :: a in soon && b in late ==> a.0 != b.0
    ensures DistinctFields(Names(soon + late))
  {
    assert Names(soon + late) == Names(soon) + Names(late);
    forall x, y | 0 <= x < |soon| && 0 <= y < |late|
      ensures soon[x].0 != late[y].0
    {
      assert soon[x] in soon && late[y] in late;
    }
  }

  lemma SoonAndLate(e: Setup, fields: seq<string>, later: seq<nat>)
    requires e.lazy && ListsDeferred(e, fields, later) && DistinctFields(fields)
    ensures var (soon, late) := (AutoList(fields, Kinds(e, fields)), LateAutos(e, fields, later));
            && (forall a :: a in soon + late <==> a in AutoList(fields, Kinds(Eager(e), fields)))
            && DistinctFields(Names(soon + late))
            && DistinctFields(Names(AutoList(fields, Kinds(Eager(e), fields))))
  {
    var (soon, late) := (AutoList(fields, Kinds(e, fields)), LateAutos(e, fields, later));
    forall a
      ensures a in soon + late <==> a in AutoList(fields, Kinds(Eager(e), fields))
    {
      EagerAutos(e, fields, later, a);
    }
    AutoListDistinct(fields, Kinds(e, fields));
    AutoListDistinct(fields, Kinds(Eager(e), fields));
    LateAutosDistinct(e, fields, later);
    forall a, b | a in soon && b in late
      ensures a.0 != b.0
    {
      SoonIsNotLate(e, fields, later, a, b);
    }
    NamesDistinct(soon, late);
  }
}
