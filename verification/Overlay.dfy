/** The query-scoped grouping: a partition of row keys kept by relabelling. */
module Overlay {
  import opened Contract
  import opened Connectivity
  import opened Reading
  import Dicts
  import Store
  import Text

  function OverlayId(n: nat): PrincipalId {
    "ovl_" + Text.Decimal(n)
  }

  lemma OverlayIdInjective(m: nat, n: nat)
    requires OverlayId(m) == OverlayId(n)
    ensures m == n
  {
    assert OverlayId(m)[4..] == Text.Decimal(m) && OverlayId(n)[4..] == Text.Decimal(n);
    Text.DecimalInjective(m, n);
  }

  // ---- merging, on values ----

  datatype Grouping = Grouping(of: Labelling, n: nat)

  /** The ids that `rowKeys` already have, in order. */
  function Existing(of: Labelling, rowKeys: seq<RowKey>): (ids: seq<PrincipalId>)
    ensures forall id :: id in ids <==> exists k :: k in rowKeys && k in of && of[k] == id
  {
    if rowKeys == [] then
      []
    else
      var last := rowKeys[|rowKeys| - 1];
      Existing(of, rowKeys[..|rowKeys| - 1]) + if last in of then [of[last]] else []
  }

  function MergeId(g: Grouping, rowKeys: seq<RowKey>): PrincipalId {
    var existing := Existing(g.of, rowKeys);
    if existing == [] then OverlayId(g.n + 1) else existing[0]
  }

  /** The listed rows, and every row of a class that one of them was in, get one id. */
  function Merge(g: Grouping, rowKeys: seq<RowKey>): Grouping {
    var existing, pid := Existing(g.of, rowKeys), MergeId(g, rowKeys);
    Grouping(
      map k | k in g.of.Keys + (set k | k in rowKeys) ::
        if k in rowKeys || g.of[k] in existing then pid else g.of[k],
      if existing == [] then g.n + 1 else g.n)
  }

  function MergeAll(history: seq<seq<RowKey>>): Grouping {
    if history == [] then
      Grouping(map[], 0)
    else
      Merge(MergeAll(history[..|history| - 1]), history[|history| - 1])
  }

  lemma MergeAllNext(history: seq<seq<RowKey>>, rowKeys: seq<RowKey>)
    ensures MergeAll(history + [rowKeys]) == Merge(MergeAll(history), rowKeys)
  {
    assert (history + [rowKeys])[..|history|] == history;
  }

  lemma {:induction false} FirstExisting(of: Labelling, rowKeys: seq<RowKey>, i: nat)
    requires i < |rowKeys| && rowKeys[i] in of && forall j :: 0 <= j < i ==> rowKeys[j] !in of
    ensures Existing(of, rowKeys) != [] && Existing(of, rowKeys)[0] == of[rowKeys[i]]
  {
    var n := |rowKeys| - 1;
    if i < n {
      FirstExisting(of, rowKeys[..n], i);
    } else {
      NoneExisting(of, rowKeys[..n]);
    }
  }

  lemma {:induction false} NoneExisting(of: Labelling, rowKeys: seq<RowKey>)
    requires forall k :: k in rowKeys ==> k !in of
    ensures Existing(of, rowKeys) == []
  {
    if rowKeys != [] {
      assert rowKeys[|rowKeys| - 1] in rowKeys;
      NoneExisting(of, rowKeys[..|rowKeys| - 1]);
    }
  }

  /** A merge gives the id of the first listed row that has one; with none, the next fresh id, and only then
      does the counter rise. */
  lemma MergeIdExactly(g: Grouping, rowKeys: seq<RowKey>)
    ensures forall i :: 0 <= i < |rowKeys| && rowKeys[i] in g.of && (forall j :: 0 <= j < i ==> rowKeys[j] !in g.of)
              ==> MergeId(g, rowKeys) == g.of[rowKeys[i]] && Merge(g, rowKeys).n == g.n
    ensures (forall k :: k in rowKeys ==> k !in g.of) ==>
              MergeId(g, rowKeys) == "ovl_" + Text.Decimal(g.n + 1) && Merge(g, rowKeys).n == g.n + 1
  {
    forall i | 0 <= i < |rowKeys| && rowKeys[i] in g.of && (forall j :: 0 <= j < i ==> rowKeys[j] !in g.of)
      ensures MergeId(g, rowKeys) == g.of[rowKeys[i]] && Merge(g, rowKeys).n == g.n
    {
      FirstExisting(g.of, rowKeys, i);
    }
    if forall k :: k in rowKeys ==> k !in g.of {
      NoneExisting(g.of, rowKeys);
    }
  }

  /** The first merge of a fresh overlay. */
  lemma FirstMerge(rowKeys: seq<RowKey>)
    ensures var fresh' := Grouping(map[], 0);
            && MergeId(fresh', rowKeys) == OverlayId(1)
            && Merge(fresh', rowKeys) == Grouping(map k | k in rowKeys :: OverlayId(1), 1)
  {
    NoneExisting(map[], rowKeys);
  }

  // ---- the partition law ----

  /** Two rows stand together in one merged list. */
  ghost function ListEdges(history: seq<seq<RowKey>>): Edges {
    set l, x, y | l in history && x in l && y in l :: (x, y)
  }

  ghost predicate Mentioned(history: seq<seq<RowKey>>, x: RowKey) {
    exists l :: l in history && x in l
  }

  /** Every id in use was given out before. */
  ghost predicate IdsIssued(g: Grouping) {
    forall k {:trigger g.of[k]} :: k in g.of ==> exists i: nat :: 1 <= i <= g.n && g.of[k] == OverlayId(i)
  }

  lemma FreshIdUnused(g: Grouping, k: RowKey)
    requires IdsIssued(g) && k in g.of
    ensures g.of[k] != OverlayId(g.n + 1)
  {
    var i: nat :| 1 <= i <= g.n && g.of[k] == OverlayId(i);
    if g.of[k] == OverlayId(g.n + 1) {
      OverlayIdInjective(i, g.n + 1);
    }
  }

  ghost predicate Faithful(history: seq<seq<RowKey>>, g: Grouping) {
    && Labels(ListEdges(history), g.of)
    && (forall k :: k in g.of <==> Mentioned(history, k))
    && IdsIssued(g)
  }

  /** After a merge, whoever has the merged id is chained to the merged list. */
  lemma MergedIsChained(history: seq<seq<RowKey>>, g: Grouping, rowKeys: seq<RowKey>, x: RowKey)
    requires Faithful(history, g) && rowKeys != []
    requires x in Merge(g, rowKeys).of && Merge(g, rowKeys).of[x] == MergeId(g, rowKeys)
    ensures Linked(ListEdges(history + [rowKeys]), x, rowKeys[0])
  {
    var edges, more := ListEdges(history), ListEdges(history + [rowKeys]);
    if x in rowKeys {
      LinkedStep(more, x, rowKeys[0]);
    } else {
      if g.of[x] !in Existing(g.of, rowKeys) {
        FreshIdUnused(g, x);
      }
      assert g.of[x] in Existing(g.of, rowKeys);
      var k :| k in rowKeys && k in g.of && g.of[k] == g.of[x];
      LinkedMono(edges, more, x, k);
      LinkedStep(more, k, rowKeys[0]);
      LinkedTrans(more, x, k, rowKeys[0]);
    }
  }

  lemma MergedEdge(history: seq<seq<RowKey>>, g: Grouping, rowKeys: seq<RowKey>, x: RowKey, y: RowKey)
    requires Labels(ListEdges(history), g.of) && (x, y) in ListEdges(history + [rowKeys])
    ensures var of := Merge(g, rowKeys).of; x in of && y in of && of[x] == of[y]
  {
    if (x, y) !in ListEdges(history) {
      assert x in rowKeys && y in rowKeys;
    } else if x in rowKeys {
      assert g.of[x] in Existing(g.of, rowKeys);
    } else if y in rowKeys {
      assert g.of[y] in Existing(g.of, rowKeys);
    }
  }

  lemma SameIdIsChained(history: seq<seq<RowKey>>, g: Grouping, rowKeys: seq<RowKey>, x: RowKey, y: RowKey)
    requires Faithful(history, g)
    requires var of := Merge(g, rowKeys).of; x in of && y in of && of[x] == of[y]
    ensures Linked(ListEdges(history + [rowKeys]), x, y)
  {
    var edges, more := ListEdges(history), ListEdges(history + [rowKeys]);
    if rowKeys != [] && Merge(g, rowKeys).of[x] == MergeId(g, rowKeys) {
      MergedIsChained(history, g, rowKeys, x);
      MergedIsChained(history, g, rowKeys, y);
      LinkedSym(more, y, rowKeys[0]);
      LinkedTrans(more, x, rowKeys[0], y);
    } else {
      LinkedMono(edges, more, x, y);
    }
  }

  lemma MergeKeepsLabels(history: seq<seq<RowKey>>, g: Grouping, rowKeys: seq<RowKey>)
    requires Faithful(history, g)
    ensures Labels(ListEdges(history + [rowKeys]), Merge(g, rowKeys).of)
  {
    var more, of := ListEdges(history + [rowKeys]), Merge(g, rowKeys).of;
    forall x, y | x in of && y in of && of[x] == of[y]
      ensures Linked(more, x, y)
    {
      SameIdIsChained(history, g, rowKeys, x, y);
    }
    forall x, y | (x, y) in more
      ensures x in of && y in of && of[x] == of[y]
    {
      MergedEdge(history, g, rowKeys, x, y);
    }
  }

  lemma MergeKeepsFaithful(history: seq<seq<RowKey>>, g: Grouping, rowKeys: seq<RowKey>)
    requires Faithful(history, g)
    ensures Faithful(history + [rowKeys], Merge(g, rowKeys))
  {
    MergeKeepsLabels(history, g, rowKeys);
    MergedRows(g, rowKeys);
    MentionedNext(history, rowKeys);
    MergeKeepsIssued(g, rowKeys);
  }

  lemma MergedRows(g: Grouping, rowKeys: seq<RowKey>)
    ensures forall k :: k in Merge(g, rowKeys).of <==> k in g.of || k in rowKeys
  {
  }

  lemma MentionedNext(history: seq<seq<RowKey>>, rowKeys: seq<RowKey>)
    ensures forall k :: Mentioned(history + [rowKeys], k) <==> Mentioned(history, k) || k in rowKeys
  {
    forall k | k in rowKeys
      ensures Mentioned(history + [rowKeys], k)
    {
      assert rowKeys in history + [rowKeys];
    }
    forall k | Mentioned(history, k)
      ensures Mentioned(history + [rowKeys], k)
    {
      var l :| l in history && k in l;
      assert l in history + [rowKeys];
    }
  }

  lemma MergeKeepsIssued(g: Grouping, rowKeys: seq<RowKey>)
    requires IdsIssued(g)
    ensures IdsIssued(Merge(g, rowKeys))
  {
    var g', existing := Merge(g, rowKeys), Existing(g.of, rowKeys);
    forall k | k in g'.of
      ensures exists i: nat :: 1 <= i <= g'.n && g'.of[k] == OverlayId(i)
    {
      if existing == [] && k in rowKeys {
        assert g'.of[k] == OverlayId(g'.n);
      } else {
        if existing != [] {
          assert existing[0] in existing;
        }
        var j :| j in g.of && g.of[j] == g'.of[k];
        var i: nat :| 1 <= i <= g.n && g.of[j] == OverlayId(i);
        assert g'.of[k] == OverlayId(i);
      }
    }
  }

  lemma NothingMerged()
    ensures Faithful([], Grouping(map[], 0))
  {
  }

  lemma {:induction false} MergeAllFaithful(history: seq<seq<RowKey>>)
    ensures Faithful(history, MergeAll(history))
  {
    if history == [] {
      NothingMerged();
    } else {
      var before := history[..|history| - 1];
      MergeAllFaithful(before);
      MergeKeepsFaithful(before, MergeAll(before), history[|history| - 1]);
      assert before + [history[|history| - 1]] == history;
    }
  }

  /** After any merges, two rows have one id exactly when a chain of overlapping lists links them. */
  lemma SameIdExactly(history: seq<seq<RowKey>>, x: RowKey, y: RowKey)
    ensures var of := MergeAll(history).of;
            (x in of && y in of && of[x] == of[y]) <==>
              Mentioned(history, x) && Linked(ListEdges(history), x, y)
  {
    MergeAllFaithful(history);
    if x in MergeAll(history).of {
      LabelsExact(ListEdges(history), MergeAll(history).of, x, y);
    }
  }

  /** Rows grouped together stay together, whatever is merged afterwards. */
  lemma NeverSplits(history: seq<seq<RowKey>>, later: seq<seq<RowKey>>, x: RowKey, y: RowKey)
    requires var of := MergeAll(history).of; x in of && y in of && of[x] == of[y]
    ensures var of := MergeAll(history + later).of; x in of && y in of && of[x] == of[y]
  {
    SameIdExactly(history, x, y);
    SameIdExactly(history + later, x, y);
    var l :| l in history && x in l;
    assert l in history + later;
    LinkedMono(ListEdges(history), ListEdges(history + later), x, y);
  }

  /** Merging rows that are one class already changes nothing, and gives the class's id. */
  lemma MergeOfClass(g: Grouping, rowKeys: seq<RowKey>, id: PrincipalId)
    requires rowKeys != [] && forall k :: k in rowKeys ==> k in g.of && g.of[k] == id
    ensures Merge(g, rowKeys) == g && MergeId(g, rowKeys) == id
  {
    var existing := Existing(g.of, rowKeys);
    assert g.of[rowKeys[0]] in existing;
    assert existing[0] in existing;
    assert Merge(g, rowKeys).of == g.of;
  }

  lemma MergeAgain(g: Grouping, rowKeys: seq<RowKey>)
    requires rowKeys != []
    ensures Merge(Merge(g, rowKeys), rowKeys) == Merge(g, rowKeys)
    ensures MergeId(Merge(g, rowKeys), rowKeys) == MergeId(g, rowKeys)
  {
    MergeOfClass(Merge(g, rowKeys), rowKeys, MergeId(g, rowKeys));
  }

  /** Merging a list again changes nothing, whatever was merged before it and since. */
  lemma MergeAgainLater(history: seq<seq<RowKey>>, rowKeys: seq<RowKey>, later: seq<seq<RowKey>>)
    requires rowKeys != []
    ensures Merge(MergeAll(history + [rowKeys] + later), rowKeys) == MergeAll(history + [rowKeys] + later)
  {
    var merged, all := history + [rowKeys], history + [rowKeys] + later;
    assert rowKeys[0] in rowKeys && merged[|history|] == rowKeys;
    forall k | k in rowKeys
      ensures var of := MergeAll(all).of; k in of && rowKeys[0] in of && of[k] == of[rowKeys[0]]
    {
      assert Mentioned(merged, k) && (k, rowKeys[0]) in ListEdges(merged);
      LinkedStep(ListEdges(merged), k, rowKeys[0]);
      SameIdExactly(merged, k, rowKeys[0]);
      NeverSplits(merged, later, k, rowKeys[0]);
    }
    MergeOfClass(MergeAll(all), rowKeys, MergeAll(all).of[rowKeys[0]]);
  }

  // ---- merging, in place ----

  /** `of` after assigning `pid` to each listed row in turn. */
  ghost function Assign(of: Labelling, rowKeys: seq<RowKey>, pid: PrincipalId): Labelling {
    if rowKeys == [] then
      of
    else
      Assign(of, rowKeys[..|rowKeys| - 1], pid)[rowKeys[|rowKeys| - 1] := pid]
  }

  lemma {:induction false} AssignExact(of: Labelling, rowKeys: seq<RowKey>, pid: PrincipalId)
    ensures Assign(of, rowKeys, pid) ==
            map k | k in of.Keys + (set k | k in rowKeys) :: if k in rowKeys then pid else of[k]
  {
    if rowKeys != [] {
      var before := rowKeys[..|rowKeys| - 1];
      AssignExact(of, before, pid);
      assert rowKeys == before + [rowKeys[|rowKeys| - 1]];
    }
  }

  function Relabel(of: Labelling, stale: set<PrincipalId>, pid: PrincipalId): Labelling {
    map k | k in of :: if of[k] in stale then pid else of[k]
  }

  function StaleIds(existing: seq<PrincipalId>): set<PrincipalId> {
    if existing == [] then {} else set id | id in existing[1..]
  }

  /** Assigning the listed rows and then relabelling the other ids they had is one merge. */
  lemma RelabelledIsMerged(g: Grouping, rowKeys: seq<RowKey>)
    ensures Relabel(Assign(g.of, rowKeys, MergeId(g, rowKeys)), StaleIds(Existing(g.of, rowKeys)), MergeId(g, rowKeys))
            == Merge(g, rowKeys).of
  {
    var existing, pid := Existing(g.of, rowKeys), MergeId(g, rowKeys);
    AssignExact(g.of, rowKeys, pid);
    HeadAndStale(existing);
    var listed, merged := Assign(g.of, rowKeys, pid), Merge(g, rowKeys).of;
    assert listed.Keys == merged.Keys;
    forall k | k in merged
      ensures Relabel(listed, StaleIds(existing), pid)[k] == merged[k]
    {
      if k !in rowKeys {
        assert listed[k] == g.of[k];
      }
    }
  }

  lemma HeadAndStale(existing: seq<PrincipalId>)
    ensures forall id :: id in existing <==> existing != [] && (id == existing[0] || id in StaleIds(existing))
  {
    if existing != [] {
      assert existing == [existing[0]] + existing[1..];
    }
  }

  class GroupingOverlay {
    var of: Labelling
    var n: nat

    ghost var history: seq<seq<RowKey>>  // the lists merged so far

    function State(): Grouping
      reads this
    {
      Grouping(of, n)
    }

    ghost predicate Valid()
      reads this
    {
      State() == MergeAll(history)
    }

    constructor ()
      ensures Valid() && history == [] && of == map[] && n == 0
    {
      of, n, history := map[], 0, [];
    }

    method NewId() returns (id: PrincipalId)
      modifies this`n
      ensures n == old(n) + 1 && id == OverlayId(n)
    {
      n := n + 1;
      id := OverlayId(n);
    }

    method ExistingIds(rowKeys: seq<RowKey>) returns (existing: seq<PrincipalId>)
      ensures existing == Existing(of, rowKeys)
    {
      existing := [];
      for i := 0 to |rowKeys|
        invariant existing == Existing(of, rowKeys[..i])
      {
        assert rowKeys[..i + 1][..i] == rowKeys[..i];
        if rowKeys[i] in of {
          existing := existing + [of[rowKeys[i]]];
        }
      }
      assert rowKeys[..|rowKeys|] == rowKeys;
    }

    method AssignEach(rowKeys: seq<RowKey>, pid: PrincipalId)
      modifies this`of
      ensures of == Assign(old(of), rowKeys, pid)
    {
      for i := 0 to |rowKeys|
        invariant of == Assign(old(of), rowKeys[..i], pid)
      {
        assert rowKeys[..i + 1][..i] == rowKeys[..i];
        of := of[rowKeys[i] := pid];
      }
      assert rowKeys[..|rowKeys|] == rowKeys;
    }

    method RelabelStale(stale: set<PrincipalId>, pid: PrincipalId)
      modifies this`of
      ensures of == Relabel(old(of), stale, pid)
    {
      if stale != {} {
        of := Relabel(of, stale, pid);
      } else {
        assert Relabel(of, stale, pid) == of;
      }
    }

    method MergeRows(rowKeys: seq<RowKey>) returns (pid: PrincipalId)
      requires Valid()
      modifies this
      ensures Valid()
      ensures history == old(history) + [rowKeys]
      ensures pid == MergeId(old(State()), rowKeys)
      ensures State() == Merge(old(State()), rowKeys)
    {
      RelabelledIsMerged(State(), rowKeys);
      MergeAllNext(history, rowKeys);
      var existing := ExistingIds(rowKeys);
      if existing != [] {
        pid := existing[0];
      } else {
        pid := NewId();
      }
      AssignEach(rowKeys, pid);
      RelabelStale(StaleIds(existing), pid);
      history := history + [rowKeys];
    }

    method CellsForPrincipal(store: Store.MasterTableStore, pid: PrincipalId, node: Option<string>)
      returns (r: Result<seq<Cell>>)
      requires store.Valid()
      ensures r == CellsThrough(store.table, of, pid, node)
    {
      ReadsArePart(store.table, pid);
      r := Gather(Store.AllCells(store.table), Store.CellsFor(store.table, pid),
                  Live(RowKeyOf, RowsOf(of, pid)), node);
    }

    static method Gather(all: seq<Cell>, durable: seq<Cell>, live: Live, node: Option<string>)
      returns (r: Result<seq<Cell>>)
      requires PartOf(durable, all)
      ensures r == ReadThrough(all, durable, live, node)
    {
      var out := GatherDurable(all, durable);
      HoldsValues(out, durable);
      if live.rows != {} {
        var gathered := GatherLive(all, durable, live, out);
        if gathered.Err? {
          return Err(gathered.error);
        }
        out := gathered.value;
        assert all[..|all|] == all;
        HoldsValues(out, Gathered(all, |all|, live, durable));
      }
      r := Ok(WithNode(Dicts.Values(out), node));
    }

    static method GatherDurable(ghost all: seq<Cell>, durable: seq<Cell>) returns (out: Dicts.Dict<Cell>)
      requires PartOf(durable, all)
      ensures Holds(out, durable)
    {
      out := Dicts.Empty();
      for i := 0 to |durable|
        invariant Holds(out, durable[..i])
      {
        DurableStep(all, durable, i, out);
        out := Dicts.Set(out, durable[i].cellId, durable[i]);
      }
      assert durable[..|durable|] == durable;
    }

    static method GatherLive(all: seq<Cell>, ghost durable: seq<Cell>, live: Live, out0: Dicts.Dict<Cell>)
      returns (r: Result<Dicts.Dict<Cell>>)
      requires PartOf(durable, all) && Holds(out0, durable)
      ensures r.Ok? ==> Holds(r.value, Gathered(all, |all|, live, durable))
      ensures r.Ok? <==> forall c :: c in all ==> live.keyOf(c).Ok?
      ensures r.Err? ==> r.error == ValueError
    {
      var out := out0;
      assert Gathered(all, 0, live, durable) == durable;
      for i := 0 to |all|
        invariant Holds(out, Gathered(all, i, live, durable))
        invariant forall j :: 0 <= j < i ==> live.keyOf(all[j]).Ok?
      {
        var rowKey := live.keyOf(all[i]);
        if rowKey.Err? {
          return Err(ValueError);
        }
        GatherStep(all, i, live, durable, out);
        if rowKey.value in live.rows {
          out := Dicts.Set(out, all[i].cellId, all[i]);
        }
      }
      r := Ok(out);
    }

    method PrincipalOf(rowKey: RowKey) returns (pid: Option<PrincipalId>)
      requires Valid()
      ensures pid == if rowKey in of then Some(of[rowKey]) else None
    {
      pid := if rowKey in of then Some(of[rowKey]) else None;
    }
  }
}
