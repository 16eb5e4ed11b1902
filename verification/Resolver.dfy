/** Query-time resolution: which candidates are the same person as the first, held in an overlay. */
module Resolver {
  import opened Contract
  import opened Connectivity
  import opened Matching
  import Audit
  import Dicts
  import Fetch
  import Gate
  import Locators
  import Overlay
  import Scan
  import Store
  import UnionFind

  // ---- identifying records ----

  /** One identifying cell of the row fills its field of the record; a later one overwrites it. */
  function Fill(w: Fetch.World, rec: Record, source: string, rowKey: RowKey, c: Cell): Result<Record> {
    match Locators.ParseLocator(c.ref.locator)
    case Err(e) => Err(e)
    case Ok((source', rowKey', _)) =>
      var node := c.typ.ontologyNode;
      if source' != source || rowKey' != rowKey || node !in {"person", "email", "organisation"} then
        Ok(rec)
      else
        match Fetch.ReadValue(w, c.ref)
        case Err(e) => Err(e)
        case Ok(v) =>
          Ok(if node == "person" then rec.(name := v) else if node == "email" then rec.(email := v) else rec.(org := v))
  }

  function Identify(w: Fetch.World, cells: seq<Cell>, source: string, rowKey: RowKey): Result<Record> {
    if cells == [] then
      Ok(Record("", "", ""))
    else
      match Identify(w, cells[..|cells| - 1], source, rowKey)
      case Err(e) => Err(e)
      case Ok(rec) => Fill(w, rec, source, rowKey, cells[|cells| - 1])
  }

  // ---- what a record holds ----

  /** The cell fills the field `node` of the row's record. */
  predicate Fills(c: Cell, source: string, rowKey: RowKey, node: string) {
    && c.typ.ontologyNode == node && node in {"person", "email", "organisation"}
    && Places(c, source, rowKey)
  }

  predicate Places(c: Cell, source: string, rowKey: RowKey) {
    match Locators.ParseLocator(c.ref.locator)
    case Err(_) => false
    case Ok((source', rowKey', _)) => source' == source && rowKey' == rowKey
  }

  /** Nothing about the cell raises: its locator parses, and it can be read if it fills a field. */
  predicate Harmless(w: Fetch.World, c: Cell, source: string, rowKey: RowKey) {
    && Locators.ParseLocator(c.ref.locator).Ok?
    && (Fills(c, source, rowKey, c.typ.ontologyNode) ==> Fetch.ReadValue(w, c.ref).Ok?)
  }

  function FieldOf(rec: Record, node: string): string {
    if node == "person" then rec.name else if node == "email" then rec.email else rec.org
  }

  lemma FillExactly(w: Fetch.World, rec: Record, source: string, rowKey: RowKey, c: Cell, node: string)
    requires node in {"person", "email", "organisation"}
    ensures Fill(w, rec, source, rowKey, c).Ok? <==> Harmless(w, c, source, rowKey)
    ensures Fill(w, rec, source, rowKey, c).Ok? ==>
              var field := FieldOf(Fill(w, rec, source, rowKey, c).value, node);
              if Fills(c, source, rowKey, node) then
                Fetch.ReadValue(w, c.ref) == Ok(field)
              else
                field == FieldOf(rec, node)
  {
  }

  /** A row is identified exactly when nothing about any stored cell raises. Each field of its record then
      holds the value of the last cell that fills it, and is empty if none does. */
  lemma {:induction false} IdentifyExactly(
    w: Fetch.World, cells: seq<Cell>, source: string, rowKey: RowKey, node: string)
    requires node in {"person", "email", "organisation"}
    ensures Identify(w, cells, source, rowKey).Ok? <==> forall c :: c in cells ==> Harmless(w, c, source, rowKey)
    ensures Identify(w, cells, source, rowKey).Ok? ==>
              var field := FieldOf(Identify(w, cells, source, rowKey).value, node);
              && ((forall c :: c in cells ==> !Fills(c, source, rowKey, node)) ==> field == "")
              && forall i: nat :: LastFills(cells, i, source, rowKey, node) ==>
                   Fetch.ReadValue(w, cells[i].ref) == Ok(field)
  {
    if cells != [] {
      var (before, last) := (cells[..|cells| - 1], cells[|cells| - 1]);
      assert cells == before + [last];
      IdentifyExactly(w, before, source, rowKey, node);
      if Identify(w, before, source, rowKey).Ok? {
        FillExactly(w, Identify(w, before, source, rowKey).value, source, rowKey, last, node);
        forall i: nat | LastFills(cells, i, source, rowKey, node) && i < |before|
          ensures LastFills(before, i, source, rowKey, node)
        {
          assert forall j :: i < j < |before| ==> before[j] == cells[j];
        }
      }
    }
  }

  ghost predicate LastFills(cells: seq<Cell>, i: nat, source: string, rowKey: RowKey, node: string) {
    && i < |cells| && Fills(cells[i], source, rowKey, node)
    && forall j :: i < j < |cells| ==> !Fills(cells[j], source, rowKey, node)
  }

  // ---- candidates ----

  datatype Candidate = Candidate(ref: Reference, record: Record)

  function CandidateOf(w: Fetch.World, cells: seq<Cell>, ref: Reference): Result<(RowKey, Candidate)> {
    match Locators.ParseLocator(ref.locator)
    case Err(e) => Err(e)
    case Ok((source, rowKey, _)) =>
      match Identify(w, cells, source, rowKey)
      case Err(e) => Err(e)
      case Ok(rec) => Ok((rowKey, Candidate(ref, rec)))
  }

  /** The candidates by row key alone: a repeated row key keeps its place and takes the last reference. */
  function Candidates(w: Fetch.World, cells: seq<Cell>, refs: seq<Reference>): (r: Result<Dicts.Dict<Candidate>>)
    ensures r.Ok? ==> Dicts.IsDict(r.value)
  {
    if refs == [] then
      Ok(Dicts.Empty())
    else
      match Candidates(w, cells, refs[..|refs| - 1])
      case Err(e) => Err(e)
      case Ok(d) =>
        match CandidateOf(w, cells, refs[|refs| - 1])
        case Err(e) => Err(e)
        case Ok((rowKey, candidate)) => Ok(Dicts.Set(d, rowKey, candidate))
  }

  /** A candidate is filed under the row key of its locator, with its reference and its row's record; it
      raises exactly when its locator does not parse or its row cannot be identified. */
  lemma CandidateExactly(w: Fetch.World, cells: seq<Cell>, ref: Reference)
    ensures var (parsed, r) := (Locators.ParseLocator(ref.locator), CandidateOf(w, cells, ref));
            && (parsed.Err? ==> r == Err(parsed.error))
            && (parsed.Ok? ==> IsCandidateOf(w, cells, ref, parsed.value.0, parsed.value.1, r))
  {
  }

  predicate IsCandidateOf(
    w: Fetch.World, cells: seq<Cell>, ref: Reference, source: string, rowKey: RowKey, r: Result<(RowKey, Candidate)>)
  {
    var rec := Identify(w, cells, source, rowKey);
    && (rec.Err? ==> r == Err(rec.error))
    && (rec.Ok? ==> r.Ok? && r.value.0 == rowKey && r.value.1.ref == ref && r.value.1.record == rec.value)
  }

  function Records(d: Dicts.Dict<Candidate>): Scan.Records {
    map k | k in d.at :: d.at[k].record
  }

  // ---- the component ----

  /** The keys linked to `first`, in order. */
  ghost function Component(keys: seq<RowKey>, edges: Edges, first: RowKey): (members: seq<RowKey>)
    ensures forall k :: k in members ==> k in keys
  {
    if keys == [] then
      []
    else
      var last := keys[|keys| - 1];
      Component(keys[..|keys| - 1], edges, first) + if Linked(edges, last, first) then [last] else []
  }

  lemma {:induction false} ComponentExact(keys: seq<RowKey>, edges: Edges, first: RowKey, k: RowKey)
    ensures k in Component(keys, edges, first) <==> k in keys && Linked(edges, k, first)
  {
    if keys != [] {
      ComponentExact(keys[..|keys| - 1], edges, first, k);
      assert keys == keys[..|keys| - 1] + [keys[|keys| - 1]];
    }
  }

  /** The members are listed in the order of the candidates. */
  lemma {:induction false} ComponentInOrder(
    keys: seq<RowKey>, edges: Edges, first: RowKey, i: nat, j: nat, p: nat, q: nat)
    requires forall x, y :: 0 <= x < y < |keys| ==> keys[x] != keys[y]
    requires i < j < |Component(keys, edges, first)| && p < |keys| && q < |keys|
    requires Component(keys, edges, first)[i] == keys[p] && Component(keys, edges, first)[j] == keys[q]
    ensures p < q
  {
    var n := |keys| - 1;
    var before := Component(keys[..n], edges, first);
    assert before[i] in keys[..n];
    if j < |before| {
      assert before[j] in keys[..n];
      ComponentInOrder(keys[..n], edges, first, i, j, p, q);
    }
  }

  function RefsOf(d: Dicts.Dict<Candidate>, keys: seq<RowKey>): (refs: seq<Reference>)
    requires forall k :: k in keys ==> k in d.at
    ensures |refs| == |keys| && forall i :: 0 <= i < |keys| ==> refs[i] == d.at[keys[i]].ref
  {
    seq(|keys|, i requires 0 <= i < |keys| => d.at[keys[i]].ref)
  }

  /** How far a resolution gets: the gate, the identifying reads, the component. */
  datatype Attempt = Denied | Broken(error: Error) | Found(component: seq<RowKey>, refs: seq<Reference>)

  ghost function Try(
    m: Matcher, w: Fetch.World, cells: seq<Cell>, allowed: bool, refs: seq<Reference>, judge: Judge): (Attempt, Judge)
  {
    if !allowed then
      (Denied, judge)
    else
      match Candidates(w, cells, refs)
      case Err(e) => (Broken(e), judge)
      case Ok(d) =>
        if d.keys == [] then
          (Broken(IndexError), judge)
        else
          var scanned := Scan.ScanAll(m, d.keys, Records(d), judge);
          var component := Component(d.keys, scanned.edges, d.keys[0]);
          (Found(component, RefsOf(d, component)), scanned.judge)
  }

  function GateOpen(caller: Capability, ctx: Context, now: int): bool {
    Gate.Check(caller, Gate.HrDereference, ctx, now)
  }

  function AuditRecord(caller: Capability, decision: Decision, ts: int): AuditEntry {
    AuditEntry(Resolve, ts, caller.holder, IdOf(caller), None, 0, decision)
  }

  /** What a run of resolutions merges and has audited, until the first that raises. */
  datatype Prewarmed = Prewarmed(
    history: seq<seq<RowKey>>, audited: seq<AuditEntry>, judge: Judge, raised: Option<Error>)

  /** Who asks, and when: the readings of the gate's clock and of the audit's, turn by turn. */
  datatype Asker = Asker(caller: Capability, ctx: Context, clock: nat -> (int, int))

  /** After one more attempt, audited at `ts`; one that raises is not. */
  function Added(before: Prewarmed, attempt: Attempt, judge: Judge, caller: Capability, ts: int): Prewarmed {
    match attempt
    case Denied => Prewarmed(before.history, before.audited + [AuditRecord(caller, Refuse, ts)], judge, None)
    case Broken(e) => Prewarmed(before.history, before.audited, judge, Some(e))
    case Found(component, _) =>
      Prewarmed(before.history + [component], before.audited + [AuditRecord(caller, Allow, ts)], judge, None)
  }

  ghost function TryEach(
    m: Matcher, w: Fetch.World, cells: seq<Cell>, ask: Asker, groups: seq<seq<Reference>>, judge: Judge): Prewarmed
  {
    if groups == [] then
      Prewarmed([], [], judge, None)
    else
      var n := |groups| - 1;
      var before := TryEach(m, w, cells, ask, groups[..n], judge);
      if before.raised.Some? then
        before
      else
        var open := GateOpen(ask.caller, ask.ctx, ask.clock(n).0);
        var (attempt, judge') := Try(m, w, cells, open, groups[n], before.judge);
        Added(before, attempt, judge', ask.caller, ask.clock(n).1)
  }

  lemma TryEachNext(
    m: Matcher, w: Fetch.World, cells: seq<Cell>, ask: Asker, groups: seq<seq<Reference>>, judge: Judge, n: nat)
    requires n < |groups| && TryEach(m, w, cells, ask, groups[..n], judge).raised.None?
    ensures var before := TryEach(m, w, cells, ask, groups[..n], judge);
            var open := GateOpen(ask.caller, ask.ctx, ask.clock(n).0);
            var (attempt, judge') := Try(m, w, cells, open, groups[n], before.judge);
            TryEach(m, w, cells, ask, groups[..n + 1], judge) ==
            Added(before, attempt, judge', ask.caller, ask.clock(n).1)
  {
    assert groups[..n + 1][..n] == groups[..n];
  }

  lemma {:induction false} TryEachStuck(
    m: Matcher, w: Fetch.World, cells: seq<Cell>, ask: Asker, groups: seq<seq<Reference>>, judge: Judge, n: nat)
    requires n <= |groups| && TryEach(m, w, cells, ask, groups[..n], judge).raised.Some?
    ensures TryEach(m, w, cells, ask, groups, judge) == TryEach(m, w, cells, ask, groups[..n], judge)
    decreases |groups|
  {
    if n == |groups| {
      assert groups[..n] == groups;
    } else {
      assert groups[..|groups| - 1][..n] == groups[..n];
      TryEachStuck(m, w, cells, ask, groups[..|groups| - 1], judge, n);
    }
  }

  datatype Resolution =
    | Refused
    | Failed(error: Error)
    | Resolved(principalId: PrincipalId, memberRefs: seq<Reference>)

  class Resolver {
    const matcher: Matcher
    const reader: Fetch.World
    const store: Store.MasterTableStore
    const audit: Audit.SqliteAuditSink?

    var memo: map<TextPair, Verdict>
    var calls: seq<Call>  // the adjudicator's side of the conversation

    function History(): Judge
      reads this
    {
      Judge(memo, calls)
    }

    ghost predicate Valid()
      reads this, store
    {
      store.Valid() && Sound(History())
    }

    constructor (matcher: Matcher, reader: Fetch.World, store: Store.MasterTableStore, audit: Audit.SqliteAuditSink?)
      requires store.Valid()
      ensures Valid() && memo == map[] && calls == []
      ensures this.matcher == matcher && this.reader == reader && this.store == store && this.audit == audit
    {
      this.matcher, this.reader, this.store, this.audit := matcher, reader, store, audit;
      memo, calls := map[], [];
    }

    method IdentifyRow(source: string, rowKey: RowKey) returns (r: Result<Record>)
      ensures r == Identify(reader, Store.AllCells(store.table), source, rowKey)
    {
      r := IdentifyAmong(Store.AllCells(store.table), source, rowKey);
    }

    method IdentifyAmong(cells: seq<Cell>, source: string, rowKey: RowKey) returns (r: Result<Record>)
      ensures r == Identify(reader, cells, source, rowKey)
    {
      var rec := Record("", "", "");
      for i := 0 to |cells|
        invariant Identify(reader, cells[..i], source, rowKey) == Ok(rec)
      {
        assert cells[..i + 1][..i] == cells[..i];
        var filled := Fill(reader, rec, source, rowKey, cells[i]);
        if filled.Err? {
          IdentifyStuck(reader, cells, i + 1, source, rowKey);
          return filled;
        }
        rec := filled.value;
      }
      assert cells[..|cells|] == cells;
      r := Ok(rec);
    }

    method CandidateFor(ref: Reference) returns (r: Result<(RowKey, Candidate)>)
      ensures r == CandidateOf(reader, Store.AllCells(store.table), ref)
    {
      var parsed := Locators.ParseLocator(ref.locator);
      if parsed.Err? {
        return Err(parsed.error);
      }
      var (source, rowKey, _) := parsed.value;
      var rec := IdentifyRow(source, rowKey);
      if rec.Err? {
        return Err(rec.error);
      }
      r := Ok((rowKey, Candidate(ref, rec.value)));
    }

    method BuildCandidates(refs: seq<Reference>) returns (r: Result<Dicts.Dict<Candidate>>)
      ensures r == Candidates(reader, Store.AllCells(store.table), refs)
    {
      var d: Dicts.Dict<Candidate> := Dicts.Empty();
      ghost var cells := Store.AllCells(store.table);
      for i := 0 to |refs|
        invariant Dicts.IsDict(d) && Candidates(reader, cells, refs[..i]) == Ok(d)
      {
        CandidatesStep(reader, cells, refs, i);
        var identified := CandidateFor(refs[i]);
        if identified.Err? {
          CandidatesStuck(reader, cells, refs, i + 1);
          return Err(identified.error);
        }
        d := Dicts.Set(d, identified.value.0, identified.value.1);
      }
      assert refs[..|refs|] == refs;
      r := Ok(d);
    }

    method MatchPair(a: Record, b: Record) returns (same: bool, band: Band)
      modifies this
      ensures (same, band, History()) == Match(matcher, old(History()), a, b)
    {
      if SharedEmail(matcher, a, b) {
        return true, Auto;
      }
      var (ta, tb) := (TextOf(a), TextOf(b));
      var s := matcher.similarity(ta, tb);
      if s >= matcher.high {
        return true, Auto;
      }
      if s < matcher.low {
        return false, Reject;
      }
      var key := PairKey(ta, tb);
      if key in memo {
        return memo[key].same, Flag;
      }
      var answer := matcher.answer(|calls|, ta, tb);
      calls := calls + [Call(ta, tb, answer)];
      match answer
      case Some(v) =>
        memo := memo[key := v];
        same, band := v.same, Flag;
      case None =>
        same, band := false, Flag;
    }

    /** The nested loops over the pairs, uniting those that match. */
    method UniteMatches(keys: seq<RowKey>, recs: Scan.Records, forest: UnionFind.Forest)
      requires Scan.Known(keys, recs)
      requires forest.Valid() && forest.edges == {} && forall k :: k in keys ==> k in forest.parent
      modifies this, forest
      ensures forest.Valid() && forest.parent.Keys == old(forest.parent.Keys)
      ensures Scan.State(History(), forest.edges) == Scan.ScanAll(matcher, keys, recs, old(History()))
    {
      ghost var start := Scan.State(History(), {});
      for i := 0 to |keys|
        invariant forest.Valid() && forest.parent.Keys == old(forest.parent.Keys)
        invariant Scan.ScanFrom(matcher, keys, recs, i, i + 1, Scan.State(History(), forest.edges)) ==
                  Scan.ScanFrom(matcher, keys, recs, 0, 1, start)
      {
        for k := i + 1 to |keys|
          invariant forest.Valid() && forest.parent.Keys == old(forest.parent.Keys)
          invariant Scan.ScanFrom(matcher, keys, recs, i, k, Scan.State(History(), forest.edges)) ==
                    Scan.ScanFrom(matcher, keys, recs, 0, 1, start)
        {
          UnitePair(keys[i], keys[k], recs, forest);
        }
      }
    }

    method UnitePair(a: RowKey, b: RowKey, recs: Scan.Records, forest: UnionFind.Forest)
      requires a in recs && b in recs
      requires forest.Valid() && a in forest.parent && b in forest.parent
      modifies this, forest
      ensures forest.Valid() && forest.parent.Keys == old(forest.parent.Keys)
      ensures Scan.State(History(), forest.edges) ==
              Scan.PairStep(matcher, recs, a, b, old(Scan.State(History(), forest.edges)))
    {
      if !SameBlock(matcher, recs[a], recs[b]) {
        return;
      }
      var same, _ := MatchPair(recs[a], recs[b]);
      if same {
        forest.Union(a, b);
      }
    }

    /** The keys under the root of the first, asking the forest for each. */
    method ComponentOf(keys: seq<RowKey>, forest: UnionFind.Forest) returns (component: seq<RowKey>)
      requires keys != [] && forest.Valid() && forall k :: k in keys ==> k in forest.parent
      modifies forest`parent
      ensures component == Component(keys, forest.edges, keys[0])
    {
      var root := forest.Find(keys[0]);
      component := [];
      for i := 0 to |keys|
        invariant forest.Valid() && forest.parent.Keys == old(forest.parent.Keys)
        invariant component == Component(keys[..i], forest.edges, keys[0])
      {
        assert keys[..i + 1][..i] == keys[..i];
        var r := forest.Find(keys[i]);
        LabelsExact(forest.edges, forest.ranking.rep, keys[i], keys[0]);
        if r == root {
          component := component + [keys[i]];
        }
      }
      assert keys[..|keys|] == keys;
    }

    /** `gateNow` and `auditNow` are the clock readings of the gate and of the audit entry. */
    method ResolveRefs(
      refs: seq<Reference>, caller: Capability, ctx: Context, overlay: Overlay.GroupingOverlay,
      gateNow: int, auditNow: int) returns (r: Resolution)
      requires Valid() && overlay.Valid()
      modifies this, overlay, if audit == null then {} else {audit}
      ensures Valid() && overlay.Valid()
      ensures var (attempt, judge) :=
                Try(matcher, reader, Store.AllCells(store.table), GateOpen(caller, ctx, gateNow), refs, old(History()));
              && History() == judge
              && match attempt
                 case Denied => r == Refused && overlay.history == old(overlay.history)
                 case Broken(e) => r == Failed(e) && overlay.history == old(overlay.history)
                 case Found(component, members) =>
                   && r == Resolved(Overlay.MergeId(old(overlay.State()), component), members)
                   && overlay.history == old(overlay.history) + [component]
      ensures r.Refused? <==>
                || caller.expiry < gateNow
                || (caller.purpose != "cross_source_query" && caller.purpose != "dsar_response")
                || "clearance:hr" !in caller.caveats
      ensures audit != null ==>
                audit.rows ==
                if r.Failed? then
                  old(audit.rows)
                else
                  var decision := if r.Refused? then Refuse else Allow;
                  Audit.Append(audit.hash, old(audit.rows),
                    AuditEntry(Resolve, auditNow, caller.holder, IdOf(caller), None, 0, decision))
    {
      var attempt := TryRefs(Gate.Check(caller, Gate.HrDereference, ctx, gateNow), refs);
      match attempt
      case Denied =>
        AuditResolve(caller, Refuse, auditNow);
        r := Refused;
      case Broken(e) =>
        r := Failed(e);
      case Found(component, members) =>
        var pid := overlay.MergeRows(component);
        AuditResolve(caller, Allow, auditNow);
        r := Resolved(pid, members);
    }

    /** A fresh overlay that holds the resolution of every group, unless one of them raises. Each group
        that did not raise has left one entry in the audit log, which verifies if it did before. */
    method Prewarm(
      groups: seq<seq<Reference>>, caller: Capability, ctx: Context, clock: nat -> (int, int))
      returns (overlay: Overlay.GroupingOverlay, raised: Option<Error>)
      requires Valid()
      modifies this, if audit == null then {} else {audit}
      ensures Valid() && fresh(overlay) && overlay.Valid()
      ensures var run := TryEach(matcher, reader, Store.AllCells(store.table), Asker(caller, ctx, clock), groups,
                                 old(History()));
              && overlay.history == run.history && History() == run.judge && raised == run.raised
              && (audit != null ==>
                    && audit.rows == Audit.AppendAll(audit.hash, old(audit.rows), run.audited)
                    && (Audit.Verifies(audit.hash, audit.rows) <==> Audit.Verifies(audit.hash, old(audit.rows))))
    {
      overlay := new Overlay.GroupingOverlay();
      ghost var (judge, rows) := (History(), if audit == null then [] else audit.rows);
      raised := ResolveEach(groups, caller, ctx, clock, overlay, rows);
      if audit != null {
        Audit.AppendsVerify(audit.hash, rows,
          TryEach(matcher, reader, Store.AllCells(store.table), Asker(caller, ctx, clock), groups, judge).audited);
      }
    }

    method ResolveEach(
      groups: seq<seq<Reference>>, caller: Capability, ctx: Context, clock: nat -> (int, int),
      overlay: Overlay.GroupingOverlay, ghost rows: seq<Audit.Row>) returns (raised: Option<Error>)
      requires Valid() && overlay.Valid() && overlay.history == [] && (audit != null ==> audit.rows == rows)
      modifies this, overlay, if audit == null then {} else {audit}
      ensures Valid() && overlay.Valid()
      ensures var run := TryEach(matcher, reader, Store.AllCells(store.table), Asker(caller, ctx, clock), groups,
                                 old(History()));
              Shows(run, overlay, raised, rows)
    {
      ghost var (cells, judge, ask) := (Store.AllCells(store.table), History(), Asker(caller, ctx, clock));
      for i := 0 to |groups|
        invariant Valid() && overlay.Valid()
        invariant Shows(TryEach(matcher, reader, cells, ask, groups[..i], judge), overlay, None, rows)
      {
        ghost var before := TryEach(matcher, reader, cells, ask, groups[..i], judge);
        TryEachNext(matcher, reader, cells, ask, groups, judge, i);
        raised := ResolveGroup(groups[i], caller, ctx, overlay, clock(i).0, clock(i).1, before, rows);
        if raised.Some? {
          TryEachStuck(matcher, reader, cells, ask, groups, judge, i + 1);
          return;
        }
      }
      assert groups[..|groups|] == groups;
      raised := None;
    }

    /** The overlay, the memory and the audit log, which began with `rows`, are those of the run. */
    ghost predicate Shows(run: Prewarmed, overlay: Overlay.GroupingOverlay, raised: Option<Error>, rows: seq<Audit.Row>)
      reads this, overlay, audit
    {
      && overlay.history == run.history && History() == run.judge && raised == run.raised
      && (audit != null ==> audit.rows == Audit.AppendAll(audit.hash, rows, run.audited))
    }

    /** The body of the loop. */
    method ResolveGroup(
      refs: seq<Reference>, caller: Capability, ctx: Context, overlay: Overlay.GroupingOverlay,
      gateNow: int, auditNow: int, ghost before: Prewarmed, ghost rows: seq<Audit.Row>)
      returns (raised: Option<Error>)
      requires Valid() && overlay.Valid() && Shows(before, overlay, None, rows)
      modifies this, overlay, if audit == null then {} else {audit}
      ensures Valid() && overlay.Valid()
      ensures var (attempt, judge) :=
                Try(matcher, reader, Store.AllCells(store.table), GateOpen(caller, ctx, gateNow), refs, before.judge);
              Shows(Added(before, attempt, judge, caller, auditNow), overlay, raised, rows)
    {
      if audit != null {
        Audit.AppendAllNext(audit.hash, rows, before.audited, AuditRecord(caller, Refuse, auditNow));
        Audit.AppendAllNext(audit.hash, rows, before.audited, AuditRecord(caller, Allow, auditNow));
      }
      var r := ResolveRefs(refs, caller, ctx, overlay, gateNow, auditNow);
      raised := if r.Failed? then Some(r.error) else None;
    }

    /** Everything up to the merge. */
    method TryRefs(allowed: bool, refs: seq<Reference>) returns (attempt: Attempt)
      requires Valid()
      modifies this
      ensures Valid()
      ensures (attempt, History()) ==
              Try(matcher, reader, Store.AllCells(store.table), allowed, refs, old(History()))
    {
      if !allowed {
        return Denied;
      }
      var built := BuildCandidates(refs);
      if built.Err? {
        return Broken(built.error);
      }
      var d := built.value;
      if d.keys == [] {
        return Broken(IndexError);
      }
      var component := Cluster(d);
      attempt := Found(component, RefsOf(d, component));
    }

    method Cluster(d: Dicts.Dict<Candidate>) returns (component: seq<RowKey>)
      requires Sound(History()) && Dicts.IsDict(d) && d.keys != []
      modifies this
      ensures Sound(History())
      ensures var scanned := Scan.ScanAll(matcher, d.keys, Records(d), old(History()));
              History() == scanned.judge && component == Component(d.keys, scanned.edges, d.keys[0])
    {
      Scan.ScanKeepsSound(matcher, d.keys, Records(d), 0, 1, Scan.State(History(), {}));
      var forest := new UnionFind.Forest(d.keys);
      UniteMatches(d.keys, Records(d), forest);
      component := ComponentOf(d.keys, forest);
    }

    method AuditResolve(caller: Capability, decision: Decision, ts: int)
      modifies if audit == null then {} else {audit}
      ensures audit != null ==>
                audit.rows == Audit.Append(audit.hash, old(audit.rows),
                                AuditEntry(Resolve, ts, caller.holder, IdOf(caller), None, 0, decision))
    {
      if audit != null {
        audit.AppendEntry(AuditRecord(caller, decision, ts));
      }
    }
  }

  lemma CandidatesStep(w: Fetch.World, cells: seq<Cell>, refs: seq<Reference>, i: nat)
    requires i < |refs| && Candidates(w, cells, refs[..i]).Ok?
    ensures Candidates(w, cells, refs[..i + 1]) ==
            match CandidateOf(w, cells, refs[i])
            case Err(e) => Err(e)
            case Ok((rowKey, candidate)) => Ok(Dicts.Set(Candidates(w, cells, refs[..i]).value, rowKey, candidate))
  {
    assert refs[..i + 1][..i] == refs[..i];
  }

  /** An error among the first candidates is the error of them all. */
  lemma {:induction false} CandidatesStuck(w: Fetch.World, cells: seq<Cell>, refs: seq<Reference>, n: nat)
    requires n <= |refs| && Candidates(w, cells, refs[..n]).Err?
    ensures Candidates(w, cells, refs) == Candidates(w, cells, refs[..n])
    decreases |refs|
  {
    if n == |refs| {
      assert refs[..n] == refs;
    } else {
      assert refs[..|refs| - 1][..n] == refs[..n];
      CandidatesStuck(w, cells, refs[..|refs| - 1], n);
    }
  }

  lemma {:induction false} IdentifyStuck(w: Fetch.World, cells: seq<Cell>, n: nat, source: string, rowKey: RowKey)
    requires n <= |cells| && Identify(w, cells[..n], source, rowKey).Err?
    ensures Identify(w, cells, source, rowKey) == Identify(w, cells[..n], source, rowKey)
    decreases |cells|
  {
    if n == |cells| {
      assert cells[..n] == cells;
    } else {
      assert cells[..|cells| - 1][..n] == cells[..n];
      IdentifyStuck(w, cells[..|cells| - 1], n, source, rowKey);
    }
  }
}
