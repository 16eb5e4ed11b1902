/** What the reads of the master table amount to, and the grid view derived from them. */
module Masters {
  import opened Contract
  import Text
  import opened Store

  lemma {:induction false} WhereExact(rows: seq<Row>, keep: Row -> bool, c: Cell)
    ensures c in CellsWhere(rows, keep) <==> exists r :: r in rows && keep(r) && r.cell == c
  {
    if rows != [] {
      var before, last := rows[..|rows| - 1], rows[|rows| - 1];
      WhereExact(before, keep, c);
      assert rows == before + [last];
    }
  }

  // ---- the reads partition the table ----

  /** The cells read for each principal of `ps` in turn. */
  function ReadEach(rows: seq<Row>, ps: seq<PrincipalId>): seq<Cell> {
    if ps == [] then
      []
    else
      CellsWhere(rows, (r: Row) => r.principal == Some(ps[0])) + ReadEach(rows, ps[1..])
  }

  lemma {:induction false} WhereSplits(rows: seq<Row>, f: Row -> bool, g: Row -> bool, h: Row -> bool)
    requires forall r :: r in rows ==> !(f(r) && g(r)) && (h(r) <==> f(r) || g(r))
    ensures multiset(CellsWhere(rows, h)) == multiset(CellsWhere(rows, f)) + multiset(CellsWhere(rows, g))
  {
    if rows != [] {
      WhereSplits(rows[..|rows| - 1], f, g, h);
    }
  }

  lemma {:induction false} WhereNone(rows: seq<Row>, f: Row -> bool)
    requires forall r :: r in rows ==> !f(r)
    ensures CellsWhere(rows, f) == []
  {
    if rows != [] {
      WhereNone(rows[..|rows| - 1], f);
    }
  }

  lemma {:induction false} WhereAgree(rows: seq<Row>, f: Row -> bool, g: Row -> bool)
    requires forall r :: r in rows ==> f(r) == g(r)
    ensures CellsWhere(rows, f) == CellsWhere(rows, g)
  {
    if rows != [] {
      WhereAgree(rows[..|rows| - 1], f, g);
    }
  }

  lemma {:induction false} ReadEachGathers(rows: seq<Row>, ps: seq<PrincipalId>)
    requires forall i, j :: 0 <= i < j < |ps| ==> ps[i] != ps[j]
    ensures multiset(ReadEach(rows, ps)) ==
            multiset(CellsWhere(rows, (r: Row) => r.principal.Some? && r.principal.value in ps))
  {
    var all := (r: Row) => r.principal.Some? && r.principal.value in ps;
    if ps == [] {
      WhereNone(rows, all);
    } else {
      var rest := ps[1..];
      ReadEachGathers(rows, rest);
      WhereSplits(rows,
        (r: Row) => r.principal == Some(ps[0]),
        (r: Row) => r.principal.Some? && r.principal.value in rest,
        all);
    }
  }

  /** Reading every principal and then the ungrouped cells reads each cell once, and no other. */
  lemma ReadsPartition(t: Table)
    ensures multiset(ReadEach(Rows(t), Principals(t))) + multiset(Ungrouped(t)) == multiset(AllCells(t))
  {
    ReadEachGathers(Rows(t), Principals(t));
    RowsPartition(Rows(t), Principals(t));
  }

  lemma RowsPartition(rows: seq<Row>, ps: seq<PrincipalId>)
    requires forall p :: p in ps <==> p in PrincipalSet(rows)
    ensures multiset(CellsWhere(rows, (r: Row) => r.principal.Some? && r.principal.value in ps))
            + multiset(CellsWhere(rows, (r: Row) => r.principal == None))
            == multiset(CellsWhere(rows, r => true))
  {
    forall r | r in rows && r.principal.Some?
      ensures r.principal.value in ps
    {
      assert r.principal.value in PrincipalSet(rows);
    }
    WhereSplits(rows,
      (r: Row) => r.principal.Some? && r.principal.value in ps,
      (r: Row) => r.principal == None,
      r => true);
  }

  // ---- reads are ordered by cell id ----

  ghost predicate InOrder(cells: seq<Cell>) {
    forall i, j :: 0 <= i < j < |cells| ==>
      cells[i].cellId != cells[j].cellId && Text.Le(cells[i].cellId, cells[j].cellId)
  }

  ghost predicate RowsInOrder(rows: seq<Row>) {
    forall i, j :: 0 <= i < j < |rows| ==>
      rows[i].cell.cellId != rows[j].cell.cellId && Text.Le(rows[i].cell.cellId, rows[j].cell.cellId)
  }

  lemma RowsExact(t: Table, r: Row)
    requires Keyed(t)
    ensures r in Rows(t) <==> r.cell.cellId in t && t[r.cell.cellId] == r
  {
    var ids := Text.Sorted(t.Keys);
    if r.cell.cellId in t && t[r.cell.cellId] == r {
      var i :| 0 <= i < |ids| && ids[i] == r.cell.cellId;
      assert Rows(t)[i] == r;
    }
  }

  lemma {:induction false} WhereInOrder(rows: seq<Row>, f: Row -> bool)
    requires RowsInOrder(rows)
    ensures InOrder(CellsWhere(rows, f))
  {
    if rows != [] {
      var before := rows[..|rows| - 1];
      WhereInOrder(before, f);
      forall c | c in CellsWhere(before, f)
        ensures c.cellId != rows[|rows| - 1].cell.cellId && Text.Le(c.cellId, rows[|rows| - 1].cell.cellId)
      {
        WhereExact(before, f, c);
        var r :| r in before && f(r) && r.cell == c;
        var i :| 0 <= i < |before| && before[i] == r;
        assert rows[i] == r;
      }
    }
  }

  /** Every read lists cells in id order, each once. */
  lemma ReadsInOrder(t: Table, keep: Row -> bool)
    requires Keyed(t)
    ensures InOrder(CellsWhere(Rows(t), keep))
  {
    WhereInOrder(Rows(t), keep);
  }

  /** A principal's cells are exactly those of the table so grouped. */
  lemma CellsForExact(t: Table, p: PrincipalId, c: Cell)
    requires Keyed(t)
    ensures c in CellsFor(t, p) <==> c.cellId in t && t[c.cellId] == Row(Some(p), c)
  {
    RowsExact(t, Row(Some(p), c));
    WhereExact(Rows(t), (r: Row) => r.principal == Some(p), c);
    if c in CellsFor(t, p) {
      var r :| r in Rows(t) && r.principal == Some(p) && r.cell == c;
      assert r == Row(Some(p), c);
    }
  }

  lemma AllCellsExact(t: Table, c: Cell)
    requires Keyed(t)
    ensures c in AllCells(t) <==> c.cellId in t && t[c.cellId].cell == c
  {
    WhereExact(Rows(t), r => true, c);
    RowsExact(t, Row(None, c));
    if c.cellId in t && t[c.cellId].cell == c {
      RowsExact(t, t[c.cellId]);
    }
    if c in AllCells(t) {
      var r :| r in Rows(t) && r.cell == c;
      RowsExact(t, r);
    }
  }

  // ---- the grid ----

  type Grid = map<PrincipalId, map<string, seq<Cell>>>

  function CellsAt(rows: seq<Row>, p: PrincipalId, node: string): seq<Cell> {
    CellsWhere(rows, (r: Row) => r.principal == Some(p) && r.cell.typ.ontologyNode == node)
  }

  /** `grid` has a row for each grouped principal, a column for each node of its cells, and under
      them exactly the list that the store reads for the pair. */
  ghost predicate IsGrid(rows: seq<Row>, grid: Grid) {
    && grid.Keys == PrincipalSet(rows)
    && (forall p, node {:trigger CellsAt(rows, p, node)} :: p in grid ==>
         (node in grid[p] <==> CellsAt(rows, p, node) != []))
    && (forall p, node {:trigger CellsAt(rows, p, node)} :: p in grid && node in grid[p] ==>
         grid[p][node] == CellsAt(rows, p, node))
  }

  function Line(grid: Grid, p: PrincipalId): map<string, seq<Cell>> {
    if p in grid then grid[p] else map[]
  }

  function Entry(line: map<string, seq<Cell>>, node: string): seq<Cell> {
    if node in line then line[node] else []
  }

  lemma CellsAtNext(rows: seq<Row>, row: Row, p: PrincipalId, node: string)
    ensures CellsAt(rows + [row], p, node) ==
            CellsAt(rows, p, node)
            + if row.principal == Some(p) && row.cell.typ.ontologyNode == node then [row.cell] else []
  {
    assert (rows + [row])[..|rows|] == rows;
  }

  lemma PrincipalsNext(rows: seq<Row>, row: Row)
    ensures PrincipalSet(rows + [row]) ==
            PrincipalSet(rows) + if row.principal.Some? then {row.principal.value} else {}
  {
  }

  lemma EntryIsCellsAt(rows: seq<Row>, grid: Grid, p: PrincipalId, node: string)
    requires IsGrid(rows, grid)
    ensures Entry(Line(grid, p), node) == CellsAt(rows, p, node)
  {
    if p !in grid {
      forall r | r in rows
        ensures r.principal != Some(p)
      {
        assert r.principal == Some(p) ==> p in PrincipalSet(rows);
      }
      WhereNone(rows, (r: Row) => r.principal == Some(p) && r.cell.typ.ontologyNode == node);
    }
  }

  lemma IsGridNext(rows: seq<Row>, row: Row, grid: Grid, grid': Grid)
    requires IsGrid(rows, grid)
    requires row.principal.None? ==> grid' == grid
    requires row.principal.Some? ==>
               var (p, node) := (row.principal.value, row.cell.typ.ontologyNode);
               grid' == grid[p := Line(grid, p)[node := Entry(Line(grid, p), node) + [row.cell]]]
    ensures IsGrid(rows + [row], grid')
  {
    PrincipalsNext(rows, row);
    forall p, node | p in grid'
      ensures Entry(grid'[p], node) == CellsAt(rows + [row], p, node)
      ensures node in grid'[p] <==> CellsAt(rows + [row], p, node) != []
    {
      CellsAtNext(rows, row, p, node);
      EntryIsCellsAt(rows, grid, p, node);
    }
  }

  /** The grid and the store's own queries tell the same: same principals, same cells, same order. */
  lemma GridAgreesWithStore(t: Table, grid: Grid, p: PrincipalId, node: string)
    requires IsGrid(Rows(t), grid)
    ensures p in grid <==> p in Principals(t)
    ensures p in grid ==> (node in grid[p] <==> CellsForNode(t, p, node) != [])
    ensures p in grid && node in grid[p] ==> grid[p][node] == CellsForNode(t, p, node)
  {
    WhereAgree(Rows(t),
      (r: Row) => r.principal == Some(p) && r.cell.typ.ontologyNode == node,
      (r: Row) => r.principal == Some(p) && r.cell.typ.ontologyNode == node);
    assert CellsAt(Rows(t), p, node) == CellsForNode(t, p, node);
  }

  lemma {:induction false} CountInOrder(cells: seq<Cell>, c: Cell)
    requires InOrder(cells)
    ensures multiset(cells)[c] == if c in cells then 1 else 0
  {
    if cells != [] {
      var before, last := cells[..|cells| - 1], cells[|cells| - 1];
      CountInOrder(before, c);
      assert cells == before + [last];
      if c in before {
        var i :| 0 <= i < |before| && before[i] == c;
        assert cells[i] == c;
      }
    }
  }

  /** A grouped cell stands in the grid under its own principal and node, once, and nowhere else. */
  lemma GridHoldsEachOnce(t: Table, grid: Grid, id: CellId, p: PrincipalId, node: string)
    requires Keyed(t) && IsGrid(Rows(t), grid) && id in t
    ensures var here := t[id].principal == Some(p) && t[id].cell.typ.ontologyNode == node;
            && (here ==> p in grid && node in grid[p])
            && (p in grid && node in grid[p] ==> multiset(grid[p][node])[t[id].cell] == if here then 1 else 0)
  {
    var rows, c := Rows(t), t[id].cell;
    var keep := (r: Row) => r.principal == Some(p) && r.cell.typ.ontologyNode == node;
    RowsExact(t, t[id]);
    ReadsInOrder(t, keep);
    WhereExact(rows, keep, c);
    CountInOrder(CellsWhere(rows, keep), c);
    assert c in CellsWhere(rows, keep) <==> keep(t[id]) by {
      if c in CellsWhere(rows, keep) {
        var r :| r in rows && keep(r) && r.cell == c;
        RowsExact(t, r);
      }
    }
    GridAgreesWithStore(t, grid, p, node);
    assert CellsWhere(rows, keep) == CellsForNode(t, p, node);
    if keep(t[id]) {
      assert p in PrincipalSet(rows);
    }
  }

  method BuildGrid(store: MasterTableStore) returns (out: Grid)
    requires store.Valid()
    ensures IsGrid(Rows(store.table), out)
  {
    out := GridOf(Rows(store.table));
  }

  lemma IsGridStart()
    ensures IsGrid([], map[])
  {
  }

  method GridOf(rows: seq<Row>) returns (out: Grid)
    ensures IsGrid(rows, out)
  {
    out := map[];
    IsGridStart();
    assert rows[..0] == [];
    for i := 0 to |rows|
      invariant IsGrid(rows[..i], out)
    {
      ghost var before := out;
      var row := rows[i];
      if row.principal.Some? {
        var p, node := row.principal.value, row.cell.typ.ontologyNode;
        var line := if p in out then out[p] else map[];
        var cells := if node in line then line[node] else [];
        out := out[p := line[node := cells + [row.cell]]];
      }
      IsGridNext(rows[..i], row, before, out);
      assert rows[..i + 1] == rows[..i] + [row];
    }
    assert rows[..|rows|] == rows;
  }
}
