/** The master table of reference-cells, with its overridable grouping column. */
module Store {
  import opened Contract
  import Text

  datatype Row = Row(principal: Option<PrincipalId>, cell: Cell)

  type Table = map<CellId, Row>

  predicate Keyed(t: Table) {
    forall id :: id in t ==> t[id].cell.cellId == id
  }

  // ---- writes ----

  /** The upsert: the cell is replaced, and a missing grouping keeps the one already there. */
  function Put(t: Table, principal: Option<PrincipalId>, cell: Cell): Table {
    var grouping :=
      if principal.None? && cell.cellId in t then t[cell.cellId].principal else principal;
    t[cell.cellId := Row(grouping, cell)]
  }

  function Regroup(t: Table, id: CellId, principal: Option<PrincipalId>): Table {
    if id in t then t[id := Row(principal, t[id].cell)] else t
  }

  // ---- reads, all in the order of the cell ids ----

  function RowsAt(t: Table, ids: seq<CellId>): (rows: seq<Row>)
    requires forall id :: id in ids ==> id in t
    ensures |rows| == |ids| && forall i :: 0 <= i < |ids| ==> rows[i] == t[ids[i]]
  {
    seq(|ids|, i requires 0 <= i < |ids| => t[ids[i]])
  }

  function Rows(t: Table): seq<Row> {
    RowsAt(t, Text.Sorted(t.Keys))
  }

  /** The cells of the rows that satisfy `keep`, in order. */
  function CellsWhere(rows: seq<Row>, keep: Row -> bool): seq<Cell> {
    if rows == [] then
      []
    else
      var last := rows[|rows| - 1];
      CellsWhere(rows[..|rows| - 1], keep) + if keep(last) then [last.cell] else []
  }

  function AllCells(t: Table): seq<Cell> {
    CellsWhere(Rows(t), r => true)
  }

  function CellsFor(t: Table, p: PrincipalId): seq<Cell> {
    CellsWhere(Rows(t), (r: Row) => r.principal == Some(p))
  }

  function CellsForNode(t: Table, p: PrincipalId, node: string): seq<Cell> {
    CellsWhere(Rows(t), (r: Row) => r.principal == Some(p) && r.cell.typ.ontologyNode == node)
  }

  function Ungrouped(t: Table): seq<Cell> {
    CellsWhere(Rows(t), (r: Row) => r.principal == None)
  }

  function PrincipalSet(rows: seq<Row>): set<PrincipalId> {
    set r | r in rows && r.principal.Some? :: r.principal.value
  }

  function Principals(t: Table): seq<PrincipalId> {
    Text.Sorted(PrincipalSet(Rows(t)))
  }

  class MasterTableStore {
    var table: Table

    predicate Valid()
      reads this
    {
      Keyed(table)
    }

    constructor ()
      ensures Valid() && table == map[]
    {
      table := map[];
    }

    method PutCell(cell: Cell)
      requires Valid()
      modifies this
      ensures Valid() && table == Put(old(table), None, cell)
    {
      PutCellFor(None, cell);
    }

    method PutCellFor(principal: Option<PrincipalId>, cell: Cell)
      requires Valid()
      modifies this
      ensures Valid() && table == Put(old(table), principal, cell)
    {
      if cell.cellId in table {
        var grouping := if principal.Some? then principal else table[cell.cellId].principal;
        table := table[cell.cellId := Row(grouping, cell)];
      } else {
        table := table[cell.cellId := Row(principal, cell)];
      }
    }

    method SetGrouping(id: CellId, principal: Option<PrincipalId>)
      requires Valid()
      modifies this
      ensures Valid() && table == Regroup(old(table), id, principal)
    {
      if id in table {
        table := table[id := Row(principal, table[id].cell)];
      }
    }
  }

  // ---- every trace of writes ----

  datatype Write =
    | PutCell(cell: Cell)
    | PutCellFor(principal: Option<PrincipalId>, cell: Cell)
    | SetGrouping(id: CellId, principal: Option<PrincipalId>)

  function Apply(t: Table, w: Write): Table {
    match w
    case PutCell(cell) => Put(t, None, cell)
    case PutCellFor(principal, cell) => Put(t, principal, cell)
    case SetGrouping(id, principal) => Regroup(t, id, principal)
  }

  function Run(writes: seq<Write>): Table {
    if writes == [] then map[] else Apply(Run(writes[..|writes| - 1]), writes[|writes| - 1])
  }

  ghost predicate Puts(w: Write, id: CellId) {
    !w.SetGrouping? && w.cell.cellId == id
  }

  /** Write `i` sets the grouping of `id`: a put with a principal, or a regrouping of a cell that
      some earlier write has put. */
  ghost predicate Groups(writes: seq<Write>, i: nat, id: CellId)
    requires i < |writes|
  {
    match writes[i]
    case PutCell(_) => false
    case PutCellFor(principal, cell) => principal.Some? && cell.cellId == id
    case SetGrouping(id', _) => id' == id && exists j :: 0 <= j < i && Puts(writes[j], id)
  }

  ghost predicate LastPut(writes: seq<Write>, i: nat, id: CellId) {
    && i < |writes| && Puts(writes[i], id)
    && forall j :: i < j < |writes| ==> !Puts(writes[j], id)
  }

  ghost predicate LastGroups(writes: seq<Write>, i: nat, id: CellId) {
    && i < |writes| && Groups(writes, i, id)
    && forall j :: i < j < |writes| ==> !Groups(writes, j, id)
  }

  lemma {:induction false} TraceKeyed(writes: seq<Write>)
    ensures Keyed(Run(writes))
  {
    if writes != [] {
      TraceKeyed(writes[..|writes| - 1]);
    }
  }

  /** After any trace, the cells are those that were ever put. */
  lemma {:induction false} TracePresence(writes: seq<Write>, id: CellId)
    ensures id in Run(writes) <==> exists i :: 0 <= i < |writes| && Puts(writes[i], id)
  {
    if writes != [] {
      var before, last := writes[..|writes| - 1], |writes| - 1;
      TracePresence(before, id);
      assert forall i :: 0 <= i < last ==> before[i] == writes[i];
      if Puts(writes[last], id) {
        assert id in Run(writes);
      } else {
        assert id in Run(writes) <==> id in Run(before);
      }
    }
  }

  /** After any trace, each cell holds what its last put said. */
  lemma {:induction false} TraceContent(writes: seq<Write>, id: CellId, i: nat)
    requires LastPut(writes, i, id)
    ensures id in Run(writes) && Run(writes)[id].cell == writes[i].cell
  {
    var before, last := writes[..|writes| - 1], |writes| - 1;
    if i < last {
      assert forall j :: 0 <= j < last ==> before[j] == writes[j];
      TraceContent(before, id, i);
      assert !Puts(writes[last], id);
    }
  }

  lemma GroupsInPrefix(writes: seq<Write>, i: nat, id: CellId)
    requires i < |writes| - 1
    ensures Groups(writes[..|writes| - 1], i, id) <==> Groups(writes, i, id)
  {
    var before := writes[..|writes| - 1];
    assert before[i] == writes[i];
    assert forall j :: 0 <= j < i ==> before[j] == writes[j];
  }

  /** Whether the last write of a trace sets the grouping of a cell. */
  lemma LastWriteGroups(writes: seq<Write>, id: CellId)
    requires writes != []
    ensures var before, last := Run(writes[..|writes| - 1]), writes[|writes| - 1];
            Groups(writes, |writes| - 1, id) <==>
              match last
              case PutCell(_) => false
              case PutCellFor(principal, cell) => principal.Some? && cell.cellId == id
              case SetGrouping(id', _) => id' == id && id in before
  {
    var before := writes[..|writes| - 1];
    TracePresence(before, id);
    assert forall j :: 0 <= j < |writes| - 1 ==> before[j] == writes[j];
  }

  /** After any trace, each cell has the grouping that its last effective grouping write gave it. */
  lemma {:induction false} TraceGrouping(writes: seq<Write>, id: CellId, i: nat)
    requires LastGroups(writes, i, id)
    ensures id in Run(writes) && Run(writes)[id].principal == writes[i].principal
  {
    var before, last := writes[..|writes| - 1], |writes| - 1;
    LastWriteGroups(writes, id);
    if i < last {
      forall j | i <= j < last
        ensures Groups(before, j, id) <==> Groups(writes, j, id)
      {
        GroupsInPrefix(writes, j, id);
      }
      assert !Groups(writes, last, id);
      TraceGrouping(before, id, i);
      assert before[i] == writes[i];
    }
  }

  /** A cell whose grouping no write of the trace ever set is ungrouped. */
  lemma {:induction false} TraceNeverGrouped(writes: seq<Write>, id: CellId)
    requires id in Run(writes)
    requires forall i :: 0 <= i < |writes| ==> !Groups(writes, i, id)
    ensures Run(writes)[id].principal == None
  {
    var before, last := writes[..|writes| - 1], |writes| - 1;
    LastWriteGroups(writes, id);
    assert !Groups(writes, last, id);
    if id in Run(before) {
      forall j | 0 <= j < last
        ensures !Groups(before, j, id)
      {
        GroupsInPrefix(writes, j, id);
      }
      TraceNeverGrouped(before, id);
    }
  }
}
