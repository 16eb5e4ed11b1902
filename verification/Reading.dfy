/** Reading a principal through an overlay: its durable cells, and those of the rows merged live. */
module Reading {
  import opened Contract
  import Dicts
  import Locators
  import Masters
  import Store

  function RowKeyOf(c: Cell): Result<RowKey> {
    match Locators.ParseLocator(c.ref.locator)
    case Ok(triple) => Ok(triple.1)
    case Err(e) => Err(e)
  }

  /** Which rows are read live: how a cell names its row, and the rows of the principal. */
  datatype Live = Live(keyOf: Cell -> Result<RowKey>, rows: set<RowKey>)

  predicate InRows(c: Cell, live: Live) {
    live.keyOf(c).Ok? && live.keyOf(c).value in live.rows
  }

  function RowsOf(of: Labelling, pid: PrincipalId): set<RowKey> {
    set k | k in of && of[k] == pid
  }

  /** The cells of `all` in the given rows that are not already in `durable`. */
  function LiveCells(all: seq<Cell>, live: Live, durable: seq<Cell>): seq<Cell> {
    if all == [] then
      []
    else
      var last := all[|all| - 1];
      LiveCells(all[..|all| - 1], live, durable)
      + if InRows(last, live) && last !in durable then [last] else []
  }

  function WithNode(cells: seq<Cell>, node: Option<string>): seq<Cell> {
    if cells == [] then
      []
    else
      var last := cells[|cells| - 1];
      WithNode(cells[..|cells| - 1], node)
      + if node.Some? ==> last.typ.ontologyNode == node.value then [last] else []
  }

  lemma {:induction false} LiveExact(all: seq<Cell>, live: Live, durable: seq<Cell>, c: Cell)
    ensures c in LiveCells(all, live, durable) <==> c in all && InRows(c, live) && c !in durable
  {
    if all != [] {
      LiveExact(all[..|all| - 1], live, durable, c);
      assert all == all[..|all| - 1] + [all[|all| - 1]];
    }
  }

  lemma {:induction false} WithNodeExact(cells: seq<Cell>, node: Option<string>, c: Cell)
    ensures c in WithNode(cells, node) <==> c in cells && (node.Some? ==> c.typ.ontologyNode == node.value)
  {
    if cells != [] {
      WithNodeExact(cells[..|cells| - 1], node, c);
      assert cells == cells[..|cells| - 1] + [cells[|cells| - 1]];
    }
  }

  /** First the durable cells of the principal, then those of its live rows; a locator that does
      not parse is an error as soon as there are live rows. */
  function ReadThrough(all: seq<Cell>, durable: seq<Cell>, live: Live, node: Option<string>): Result<seq<Cell>> {
    if live.rows == {} then
      Ok(WithNode(durable, node))
    else if exists c :: c in all && live.keyOf(c).Err? then
      Err(ValueError)
    else
      Ok(WithNode(durable + LiveCells(all, live, durable), node))
  }

  function CellsThrough(t: Store.Table, of: Labelling, pid: PrincipalId, node: Option<string>): Result<seq<Cell>> {
    ReadThrough(Store.AllCells(t), Store.CellsFor(t, pid), Live(RowKeyOf, RowsOf(of, pid)), node)
  }

  /** Cells with distinct ids. */
  ghost predicate Distinct(cells: seq<Cell>) {
    forall i, j :: 0 <= i < j < |cells| ==> cells[i].cellId != cells[j].cellId
  }

  /** The cells of `part` are among those of `all`, which have distinct ids. */
  ghost predicate PartOf(part: seq<Cell>, all: seq<Cell>) {
    Distinct(part) && Distinct(all) && forall c :: c in part ==> c in all
  }

  /** `out` holds exactly `cells`, in that order and each under its own id. */
  ghost predicate Holds(out: Dicts.Dict<Cell>, cells: seq<Cell>) {
    && Dicts.IsDict(out)
    && |out.keys| == |cells|
    && forall i :: 0 <= i < |cells| ==> out.keys[i] == cells[i].cellId && out.at[out.keys[i]] == cells[i]
  }

  lemma HoldsValues(out: Dicts.Dict<Cell>, cells: seq<Cell>)
    requires Holds(out, cells)
    ensures Dicts.Values(out) == cells
  {
  }

  lemma HeldAt(out: Dicts.Dict<Cell>, cells: seq<Cell>, c: Cell)
    requires Holds(out, cells) && c in cells
    ensures c.cellId in out.at && out.at[c.cellId] == c
  {
    var i :| 0 <= i < |cells| && cells[i] == c;
    assert out.keys[i] in out.at;
  }

  lemma NotHeld(all: seq<Cell>, out: Dicts.Dict<Cell>, cells: seq<Cell>, c: Cell)
    requires Distinct(all) && c in all && Holds(out, cells) && (forall x :: x in cells ==> x in all) && c !in cells
    ensures c.cellId !in out.at
  {
    forall i | 0 <= i < |cells|
      ensures out.keys[i] != c.cellId
    {
      SameCell(all, cells[i], c);
    }
  }

  /** Setting a cell that is held already changes nothing; any other cell of the pool is added. */
  lemma SetHolds(all: seq<Cell>, out: Dicts.Dict<Cell>, cells: seq<Cell>, c: Cell)
    requires Distinct(all) && c in all && Holds(out, cells) && forall x :: x in cells ==> x in all
    ensures Holds(Dicts.Set(out, c.cellId, c), if c in cells then cells else cells + [c])
  {
    if c in cells {
      HeldAt(out, cells, c);
      Dicts.SetSame(out, c.cellId, c);
    } else {
      NotHeld(all, out, cells, c);
    }
  }

  lemma SameCell(all: seq<Cell>, x: Cell, y: Cell)
    requires Distinct(all) && x in all && y in all
    ensures x.cellId == y.cellId <==> x == y
  {
  }

  lemma NotBefore(all: seq<Cell>, part: seq<Cell>, i: nat)
    requires PartOf(part, all) && i < |part|
    ensures part[i] !in part[..i] && part[i] in all && forall x :: x in part[..i] ==> x in all
  {
  }

  lemma DurableStep(all: seq<Cell>, durable: seq<Cell>, i: nat, out: Dicts.Dict<Cell>)
    requires PartOf(durable, all) && i < |durable| && Holds(out, durable[..i])
    ensures Holds(Dicts.Set(out, durable[i].cellId, durable[i]), durable[..i + 1])
  {
    NotBefore(all, durable, i);
    SetHolds(all, out, durable[..i], durable[i]);
    assert durable[..i + 1] == durable[..i] + [durable[i]];
  }

  /** The cells gathered before cell `i` of `all`. */
  ghost function Gathered(all: seq<Cell>, i: nat, live: Live, durable: seq<Cell>): seq<Cell>
    requires i <= |all|
  {
    durable + LiveCells(all[..i], live, durable)
  }

  lemma GatheredWithin(all: seq<Cell>, i: nat, live: Live, durable: seq<Cell>, x: Cell)
    requires i <= |all| && PartOf(durable, all) && x in Gathered(all, i, live, durable)
    ensures x in all
  {
    LiveExact(all[..i], live, durable, x);
  }

  lemma GatheredNext(all: seq<Cell>, i: nat, live: Live, durable: seq<Cell>)
    requires i < |all| && PartOf(durable, all)
    ensures var before := Gathered(all, i, live, durable);
            Gathered(all, i + 1, live, durable) ==
              if InRows(all[i], live) && all[i] !in before then before + [all[i]] else before
  {
    assert all[..i + 1][..i] == all[..i];
    LiveExact(all[..i], live, durable, all[i]);
    var before := LiveCells(all[..i], live, durable);
    assert durable + (before + [all[i]]) == durable + before + [all[i]];
  }

  lemma GatherStep(all: seq<Cell>, i: nat, live: Live, durable: seq<Cell>, out: Dicts.Dict<Cell>)
    requires i < |all| && PartOf(durable, all)
    requires Holds(out, Gathered(all, i, live, durable))
    ensures Holds(if InRows(all[i], live) then Dicts.Set(out, all[i].cellId, all[i]) else out,
                  Gathered(all, i + 1, live, durable))
  {
    GatheredNext(all, i, live, durable);
    forall x | x in Gathered(all, i, live, durable)
      ensures x in all
    {
      GatheredWithin(all, i, live, durable, x);
    }
    if InRows(all[i], live) {
      SetHolds(all, out, Gathered(all, i, live, durable), all[i]);
    }
  }

  /** A principal's durable cells are a part of the table's cells. */
  lemma ReadsArePart(t: Store.Table, pid: PrincipalId)
    requires Store.Keyed(t)
    ensures PartOf(Store.CellsFor(t, pid), Store.AllCells(t))
  {
    Masters.ReadsInOrder(t, (r: Store.Row) => r.principal == Some(pid));
    Masters.ReadsInOrder(t, r => true);
    forall c
      ensures c in Store.CellsFor(t, pid) ==> c in Store.AllCells(t)
    {
      Masters.CellsForExact(t, pid, c);
      Masters.AllCellsExact(t, c);
    }
  }

  // ---- what is read through the overlay ----

  lemma {:induction false} LiveDistinct(all: seq<Cell>, live: Live, durable: seq<Cell>)
    requires Distinct(all)
    ensures Distinct(LiveCells(all, live, durable))
  {
    if all != [] {
      var (before, last) := (all[..|all| - 1], all[|all| - 1]);
      LiveDistinct(before, live, durable);
      forall c | c in LiveCells(before, live, durable)
        ensures c.cellId != last.cellId
      {
        LiveExact(before, live, durable, c);
        var i :| 0 <= i < |before| && before[i] == c;
        assert all[i] == c;
      }
    }
  }

  lemma {:induction false} WithNodeDistinct(cells: seq<Cell>, node: Option<string>)
    requires Distinct(cells)
    ensures Distinct(WithNode(cells, node))
  {
    if cells != [] {
      var (before, last) := (cells[..|cells| - 1], cells[|cells| - 1]);
      WithNodeDistinct(before, node);
      forall c | c in WithNode(before, node)
        ensures c.cellId != last.cellId
      {
        WithNodeExact(before, node, c);
        var i :| 0 <= i < |before| && before[i] == c;
        assert cells[i] == c;
      }
    }
  }

  /** Reading lists each cell of the principal once: those durably its own, and those of its live rows. */
  lemma ReadThroughExact(all: seq<Cell>, durable: seq<Cell>, live: Live, node: Option<string>, c: Cell)
    requires PartOf(durable, all) && (live.rows == {} || forall x :: x in all ==> live.keyOf(x).Ok?)
    ensures var r := ReadThrough(all, durable, live, node);
            && r.Ok? && Distinct(r.value)
            && (c in r.value <==>
                c in all && (c in durable || InRows(c, live)) && (node.Some? ==> c.typ.ontologyNode == node.value))
  {
    var gathered := LiveCells(all, live, durable);
    LiveExact(all, live, durable, c);
    LiveDistinct(all, live, durable);
    forall x, y | x in durable && y in gathered
      ensures x.cellId != y.cellId
    {
      LiveExact(all, live, durable, y);
      SameCell(all, x, y);
    }
    WithNodeExact(durable + gathered, node, c);
    WithNodeExact(durable, node, c);
    WithNodeDistinct(durable, node);
    assert Distinct(durable + gathered);
    WithNodeDistinct(durable + gathered, node);
  }

  /** Through the overlay, a principal has exactly the stored cells that are durably grouped under its
      id or whose row is merged under it, each once; an unreadable locator matters only with live rows. */
  lemma CellsThroughExactly(t: Store.Table, of: Labelling, pid: PrincipalId, node: Option<string>, c: Cell)
    requires Store.Keyed(t)
    requires RowsOf(of, pid) == {} || forall id :: id in t ==> RowKeyOf(t[id].cell).Ok?
    ensures var r := CellsThrough(t, of, pid, node);
            && r.Ok? && Distinct(r.value)
            && (c in r.value <==>
                && c.cellId in t && t[c.cellId].cell == c
                && (t[c.cellId].principal == Some(pid)
                    || (RowKeyOf(c).Ok? && RowKeyOf(c).value in of && of[RowKeyOf(c).value] == pid))
                && (node.Some? ==> c.typ.ontologyNode == node.value))
  {
    ReadsArePart(t, pid);
    forall x | x in Store.AllCells(t) && RowsOf(of, pid) != {}
      ensures RowKeyOf(x).Ok?
    {
      Masters.AllCellsExact(t, x);
    }
    Masters.AllCellsExact(t, c);
    Masters.CellsForExact(t, pid, c);
    ReadThroughExact(Store.AllCells(t), Store.CellsFor(t, pid), Live(RowKeyOf, RowsOf(of, pid)), node, c);
  }

  lemma ReadThroughFails(t: Store.Table, durable: seq<Cell>, live: Live, node: Option<string>)
    requires Store.Keyed(t)
    ensures var r := ReadThrough(Store.AllCells(t), durable, live, node);
            && (r.Err? <==> live.rows != {} && exists id :: id in t && live.keyOf(t[id].cell).Err?)
            && (r.Err? ==> r.error == ValueError)
  {
    if id :| id in t && live.keyOf(t[id].cell).Err? {
      Masters.AllCellsExact(t, t[id].cell);
    }
    if c :| c in Store.AllCells(t) && live.keyOf(c).Err? {
      Masters.AllCellsExact(t, c);
    }
  }

  /** A locator that does not parse is an error exactly when some row is merged under the id. */
  lemma CellsThroughFails(t: Store.Table, of: Labelling, pid: PrincipalId, node: Option<string>)
    requires Store.Keyed(t)
    ensures var r := CellsThrough(t, of, pid, node);
            && (r.Err? <==> (exists k :: k in of && of[k] == pid) && exists id :: id in t && RowKeyOf(t[id].cell).Err?)
            && (r.Err? ==> r.error == ValueError)
  {
    ReadThroughFails(t, Store.CellsFor(t, pid), Live(RowKeyOf, RowsOf(of, pid)), node);
    if k :| k in of && of[k] == pid {
      assert k in RowsOf(of, pid);
    }
  }
}
