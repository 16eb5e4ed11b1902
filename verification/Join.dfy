/** The cross-source join: one principal's values for one node, read through the overlay and
    served by the ladder, or a flat refusal. */
module Join {
  import opened Contract
  import opened Conflict
  import Fetch
  import FetchLaws
  import Gate
  import Locators
  import Overlay
  import Reading
  import Store

  /** Everything a join looks at besides the cells and the cache. The clock gives, for each cell in
      turn, the reading of the gate and then that of the ladder. */
  datatype Query = Query(
    principalId: PrincipalId,
    node: string,
    cap: Capability,
    ctx: Context,
    policies: Gate.Policies,
    world: Fetch.World,       // behind the adapter
    reader: Fetch.World,      // behind the reader of the ordering metadata
    ttl: int,
    parseTs: string -> Option<int>,
    clock: nat -> (int, int))

  datatype Outcome = Joined(conflict: ConflictSet) | Refused | Failed(error: Error)

  datatype State = State(ladder: Fetch.Ladder, unknownLookups: nat)

  /** The ordering field of each known source. */
  function TsField(source: string): Option<string> {
    if source == "crm_a" then Some("updated_at")
    else if source == "crm_b" then Some("last_touch")
    else None
  }

  function ReadOf(q: Query, c: Cell, i: nat): Fetch.Read {
    Fetch.Read(c.cellId, c.ref, Some(Gate.PolicyFor(q.policies, c.policyId).dereference),
      q.cap, q.ctx, q.clock(i).0, q.clock(i).1)
  }

  /** The served value with its source and timestamp; the timestamp is read past the ladder. */
  function Stamped(q: Query, c: Cell, value: string): Result<ConflictValue> {
    match Locators.ParseLocator(c.ref.locator)
    case Err(e) => Err(e)
    case Ok((source, rowKey, _)) =>
      match ReadTs(q, source, rowKey)
      case Err(e) => Err(e)
      case Ok(raw) => Ok(ConflictValue(value, source, q.parseTs(raw)))
  }

  function ReadTs(q: Query, source: string, rowKey: RowKey): Result<string> {
    match TsField(source)
    case None => Ok("")
    case Some(field) =>
      match Locators.MakeLocator(source, rowKey, field)
      case Err(e) => Err(e)
      case Ok(locator) => Fetch.ReadValue(q.reader, Reference(source, locator, source))
  }

  function Lookup(q: Query, s: State, c: Cell): State {
    State(s.ladder, s.unknownLookups + if c.policyId in q.policies then 0 else 1)
  }

  /** One turn of the loop: the values so far and the state, or the outcome that ends it. */
  datatype Turn = Next(values: seq<ConflictValue>) | Stop(outcome: Outcome)

  function TakeTurn(q: Query, c: Cell, i: nat, s: State, values: seq<ConflictValue>): (Turn, State) {
    var looked := Lookup(q, s, c);
    var (served, ladder) := Fetch.Serve(q.world, q.ttl, looked.ladder, ReadOf(q, c, i));
    var s' := State(ladder, looked.unknownLookups);
    match served
    case Refusal => (Stop(Refused), s')
    case Raised(e) => (Stop(Failed(e)), s')
    case Symbol(_) => (Next(values), s')
    case Value(v) =>
      match Stamped(q, c, v)
      case Err(e) => (Stop(Failed(e)), s')
      case Ok(stamped) => (Next(values + [stamped]), s')
  }

  /** The loop from cell `i` on. */
  function JoinFrom(q: Query, cells: seq<Cell>, i: nat, s: State, values: seq<ConflictValue>): (Outcome, State)
    requires i <= |cells|
    decreases |cells| - i
  {
    if i == |cells| then
      (Joined(BuildConflict(q.principalId, q.node, values)), s)
    else
      match TakeTurn(q, cells[i], i, s, values)
      case (Stop(outcome), s') => (outcome, s')
      case (Next(values'), s') => JoinFrom(q, cells, i + 1, s', values')
  }

  /** The whole query: the cells seen through the overlay, and the loop over them. */
  function JoinAll(q: Query, t: Store.Table, of: Labelling, s: State): (Outcome, State) {
    match Reading.CellsThrough(t, of, q.principalId, Some(q.node))
    case Err(e) => (Failed(e), s)
    case Ok(cells) => JoinFrom(q, cells, 0, s, [])
  }

  method CrossSourceQuery(
    store: Store.MasterTableStore,
    overlay: Overlay.GroupingOverlay,
    principalId: PrincipalId,
    node: string,
    cap: Capability,
    ctx: Context,
    ladder: Fetch.DefaultFetchLadder,
    registry: Gate.PolicyRegistry,
    reader: Fetch.World,
    parseTs: string -> Option<int>,
    clock: nat -> (int, int)) returns (outcome: Outcome)
    requires store.Valid()
    modifies ladder.cache, ladder.adapter, registry`unknownLookups
    ensures var q := Query(principalId, node, cap, ctx, registry.byId, ladder.adapter.world, reader,
                           ladder.defaultTtl, parseTs, clock);
            (outcome, State(ladder.State(), registry.unknownLookups)) ==
            JoinAll(q, store.table, overlay.of, old(State(ladder.State(), registry.unknownLookups)))
  {
    ghost var q := Query(principalId, node, cap, ctx, registry.byId, ladder.adapter.world, reader,
                         ladder.defaultTtl, parseTs, clock);
    var cells := overlay.CellsForPrincipal(store, principalId, Some(node));
    if cells.Err? {
      return Failed(cells.error);
    }
    outcome := JoinCells(cells.value, principalId, node, cap, ctx, ladder, registry, reader, parseTs, clock);
  }

  method JoinCells(
    cells: seq<Cell>,
    principalId: PrincipalId,
    node: string,
    cap: Capability,
    ctx: Context,
    ladder: Fetch.DefaultFetchLadder,
    registry: Gate.PolicyRegistry,
    reader: Fetch.World,
    parseTs: string -> Option<int>,
    clock: nat -> (int, int)) returns (outcome: Outcome)
    modifies ladder.cache, ladder.adapter, registry`unknownLookups
    ensures var q := Query(principalId, node, cap, ctx, registry.byId, ladder.adapter.world, reader,
                           ladder.defaultTtl, parseTs, clock);
            (outcome, State(ladder.State(), registry.unknownLookups)) ==
            JoinFrom(q, cells, 0, old(State(ladder.State(), registry.unknownLookups)), [])
  {
    var q := Query(principalId, node, cap, ctx, registry.byId, ladder.adapter.world, reader,
                   ladder.defaultTtl, parseTs, clock);
    ghost var start := State(ladder.State(), registry.unknownLookups);
    var values := [];
    for i := 0 to |cells|
      invariant registry.byId == q.policies
      invariant JoinFrom(q, cells, i, State(ladder.State(), registry.unknownLookups), values) ==
                JoinFrom(q, cells, 0, start, [])
    {
      var turn := JoinCell(q, cells[i], i, values, ladder, registry);
      match turn
      case Stop(ended) => return ended;
      case Next(values') => values := values';
    }
    outcome := Joined(BuildConflict(principalId, node, values));
  }

  /** The body of the loop. */
  method JoinCell(
    q: Query,
    c: Cell,
    i: nat,
    values: seq<ConflictValue>,
    ladder: Fetch.DefaultFetchLadder,
    registry: Gate.PolicyRegistry) returns (turn: Turn)
    requires registry.byId == q.policies && ladder.adapter.world == q.world && ladder.defaultTtl == q.ttl
    modifies ladder.cache, ladder.adapter, registry`unknownLookups
    ensures (turn, State(ladder.State(), registry.unknownLookups)) ==
            TakeTurn(q, c, i, old(State(ladder.State(), registry.unknownLookups)), values)
  {
    var policy := registry.Get(c.policyId);
    var served := ladder.ResolveValue(
      Fetch.Read(c.cellId, c.ref, Some(policy.dereference), q.cap, q.ctx, q.clock(i).0, q.clock(i).1));
    match served
    case Refusal => turn := Stop(Refused);
    case Raised(e) => turn := Stop(Failed(e));
    case Symbol(_) => turn := Next(values);
    case Value(v) =>
      var stamped := Stamped(q, c, v);
      match stamped
      case Err(e) => turn := Stop(Failed(e));
      case Ok(value) => turn := Next(values + [value]);
  }

  // ---- what a join tells ----

  predicate Allowed(q: Query, c: Cell, i: nat) {
    Fetch.Allowed(ReadOf(q, c, i))
  }

  /** The source answers for the cell: both for its value and for its timestamp. */
  predicate Readable(q: Query, c: Cell) {
    Fetch.ReadValue(q.world, c.ref).Ok? && Stamped(q, c, Fetch.ReadValue(q.world, c.ref).value).Ok?
  }

  function Truth(q: Query, c: Cell): ConflictValue
    requires Readable(q, c)
  {
    Stamped(q, c, Fetch.ReadValue(q.world, c.ref).value).value
  }

  function Truths(q: Query, cells: seq<Cell>): seq<ConflictValue>
    requires forall c :: c in cells ==> Readable(q, c)
  {
    if cells == [] then [] else [Truth(q, cells[0])] + Truths(q, cells[1..])
  }

  /** A field of a row, empty where there is none. */
  function FieldAt(w: Fetch.World, source: string, rowKey: RowKey, field: string): string {
    if source in w && rowKey in w[source] && field in w[source][rowKey] then w[source][rowKey][field] else ""
  }

  predicate HasRow(w: Fetch.World, source: string, rowKey: RowKey) {
    source in w && rowKey in w[source]
  }

  /** `v` is the field that the cell locates, under the cell's source; it is stamped by the row's
      "updated_at" if the source is crm_a, by its "last_touch" if crm_b, and otherwise by nothing. */
  ghost predicate IsTruth(q: Query, c: Cell, v: ConflictValue) {
    match Locators.ParseLocator(c.ref.locator)
    case Err(_) => false
    case Ok((source, rowKey, field)) =>
      && HasRow(q.world, source, rowKey)
      && v.value == FieldAt(q.world, source, rowKey, field) && v.source == source
      && (source == "crm_a" ==> v.timestamp == q.parseTs(FieldAt(q.reader, source, rowKey, "updated_at")))
      && (source == "crm_b" ==> v.timestamp == q.parseTs(FieldAt(q.reader, source, rowKey, "last_touch")))
      && (source != "crm_a" && source != "crm_b" ==> v.timestamp == q.parseTs(""))
  }

  /** `value` is what the source has in the field that the cell locates. */
  ghost predicate IsField(q: Query, c: Cell, value: string) {
    match Locators.ParseLocator(c.ref.locator)
    case Err(_) => false
    case Ok((source, rowKey, field)) =>
      HasRow(q.world, source, rowKey) && value == FieldAt(q.world, source, rowKey, field)
  }

  lemma StampedExactly(q: Query, c: Cell, value: string)
    ensures match Locators.ParseLocator(c.ref.locator)
            case Err(_) => Stamped(q, c, value) == Err(ValueError)
            case Ok((source, rowKey, _)) =>
              if source in {"crm_a", "crm_b"} then
                if !HasRow(q.reader, source, rowKey) then
                  Stamped(q, c, value) == Err(KeyError)
                else
                  var field := if source == "crm_a" then "updated_at" else "last_touch";
                  var ts := q.parseTs(FieldAt(q.reader, source, rowKey, field));
                  Stamped(q, c, value) == Ok(ConflictValue(value, source, ts))
              else
                Stamped(q, c, value) == Ok(ConflictValue(value, source, q.parseTs("")))
  {
    match Locators.ParseLocator(c.ref.locator)
    case Err(_) =>
    case Ok((source, rowKey, _)) =>
      ReadTsExactly(q, source, rowKey);
  }

  lemma ReadTsExactly(q: Query, source: string, rowKey: RowKey)
    requires source != "" && rowKey != ""
    ensures ReadTs(q, source, rowKey) ==
            match TsField(source)
            case None => Ok("")
            case Some(field) =>
              if HasRow(q.reader, source, rowKey) then Ok(FieldAt(q.reader, source, rowKey, field)) else Err(KeyError)
  {
    if TsField(source).Some? {
      StampRead(q, source, rowKey, TsField(source).value);
    }
  }

  /** Reading a field of a row by the locator minted for it. */
  lemma StampRead(q: Query, source: string, rowKey: RowKey, field: string)
    requires source != "" && rowKey != "" && field != ""
    ensures var locator := Locators.MakeLocator(source, rowKey, field);
            && locator.Ok?
            && Fetch.ReadValue(q.reader, Reference(source, locator.value, source)) ==
               if HasRow(q.reader, source, rowKey) then Ok(FieldAt(q.reader, source, rowKey, field)) else Err(KeyError)
  {
    Locators.RoundTrip(source, rowKey, field);
  }

  lemma ParsedIsNotEmpty(c: Cell)
    ensures match Locators.ParseLocator(c.ref.locator)
            case Err(e) => e == ValueError
            case Ok((source, rowKey, field)) => source != "" && rowKey != "" && field != ""
  {
  }

  /** What can be read: a cell whose row is at the source and, where the source has an ordering field, at
      the reader too. A locator that does not parse is a value error, a missing row a key error. */
  lemma ReadableExactly(q: Query, c: Cell)
    ensures match Locators.ParseLocator(c.ref.locator)
            case Err(_) => !Readable(q, c) && WhyUnreadable(q, c) == ValueError
            case Ok((source, rowKey, _)) =>
              && (Readable(q, c) <==>
                  && HasRow(q.world, source, rowKey)
                  && (source in {"crm_a", "crm_b"} ==> HasRow(q.reader, source, rowKey)))
              && (!Readable(q, c) ==> WhyUnreadable(q, c) == KeyError)
  {
    if Fetch.ReadValue(q.world, c.ref).Ok? {
      StampedExactly(q, c, Fetch.ReadValue(q.world, c.ref).value);
    }
  }

  lemma TruthExactly(q: Query, c: Cell)
    requires Readable(q, c)
    ensures IsTruth(q, c, Truth(q, c))
  {
    ReadIsField(q, c);
    StampedIsTruth(q, c, Fetch.ReadValue(q.world, c.ref).value);
  }

  lemma ReadIsField(q: Query, c: Cell)
    requires Fetch.ReadValue(q.world, c.ref).Ok?
    ensures IsField(q, c, Fetch.ReadValue(q.world, c.ref).value)
  {
  }

  lemma StampedIsTruth(q: Query, c: Cell, value: string)
    requires IsField(q, c, value) && Stamped(q, c, value).Ok?
    ensures IsTruth(q, c, Stamped(q, c, value).value)
  {
    StampedExactly(q, c, value);
  }

  lemma {:induction false} TruthsIndexed(q: Query, cells: seq<Cell>, i: nat)
    requires (forall c :: c in cells ==> Readable(q, c)) && i < |cells|
    ensures |Truths(q, cells)| == |cells| && Truths(q, cells)[i] == Truth(q, cells[i])
  {
    assert cells[0] in cells;
    if |cells| > 1 {
      TruthsIndexed(q, cells[1..], if i > 0 then i - 1 else 0);
    }
  }

  /** Each joined value is the truth about its cell. */
  lemma TruthsAt(q: Query, cells: seq<Cell>, i: nat)
    requires (forall c :: c in cells ==> Readable(q, c)) && i < |cells|
    ensures |Truths(q, cells)| == |cells| && IsTruth(q, cells[i], Truths(q, cells)[i])
  {
    TruthsIndexed(q, cells, i);
    assert cells[i] in cells;
    TruthExactly(q, cells[i]);
  }

  ghost predicate RefsKnown(cells: seq<Cell>, refOf: Fetch.References) {
    forall c :: c in cells ==> Fetch.Refers(refOf, c.cellId, c.ref)
  }

  /** Why the source does not answer for the cell. */
  function WhyUnreadable(q: Query, c: Cell): Error
    requires !Readable(q, c)
  {
    match Fetch.ReadValue(q.world, c.ref)
    case Err(e) => e
    case Ok(v) => Stamped(q, c, v).error
  }

  predicate Stops(q: Query, c: Cell, i: nat) {
    !Allowed(q, c, i) || !Readable(q, c)
  }

  /** How the join ends at a cell that is denied or cannot be read; a denial comes first. */
  function EndAt(q: Query, c: Cell, i: nat): Outcome
    requires Stops(q, c, i)
  {
    if !Allowed(q, c, i) then Refused else Failed(WhyUnreadable(q, c))
  }

  /** What one turn gives, whatever is cached. */
  lemma TurnExactly(q: Query, refOf: Fetch.References, c: Cell, i: nat, s: State, values: seq<ConflictValue>)
    requires Fetch.Coherent(q.world, refOf, s.ladder.rows) && Fetch.Refers(refOf, c.cellId, c.ref)
    ensures Fetch.Coherent(q.world, refOf, TakeTurn(q, c, i, s, values).1.ladder.rows)
    ensures TakeTurn(q, c, i, s, values).0 ==
            if q.ctx.symbolic then
              Next(values)
            else if Stops(q, c, i) then
              Stop(EndAt(q, c, i))
            else
              Next(values + [Truth(q, c)])
  {
    Fetch.ServeIsDirect(q.world, q.ttl, refOf, s.ladder, ReadOf(q, c, i));
  }

  /** The first position from `i` on at which the join stops, or the number of cells. */
  ghost function FirstStop(q: Query, cells: seq<Cell>, i: nat): (n: nat)
    requires i <= |cells|
    ensures i <= n <= |cells|
    ensures n < |cells| ==> Stops(q, cells[n], n)
    ensures forall j :: i <= j < n ==> !Stops(q, cells[j], j)
    decreases |cells| - i
  {
    if i < |cells| && !Stops(q, cells[i], i) then FirstStop(q, cells, i + 1) else i
  }

  /** Nothing stops the join from `i` on. */
  ghost predicate Clear(q: Query, cells: seq<Cell>, i: nat)
    requires i <= |cells|
  {
    FirstStop(q, cells, i) == |cells|
  }

  lemma ClearIsReadable(q: Query, cells: seq<Cell>, i: nat)
    requires i <= |cells| && Clear(q, cells, i)
    ensures forall c :: c in cells[i..] ==> Readable(q, c)
  {
    forall j | i <= j < |cells|
      ensures Readable(q, cells[j])
    {
      assert !Stops(q, cells[j], j);
    }
  }

  /** The outcome of a join over a coherent cache: that of the first cell that is denied or cannot be
      read, or else exactly one source-true value per cell, in order. */
  ghost function Expected(q: Query, cells: seq<Cell>, i: nat, values: seq<ConflictValue>): Outcome
    requires i <= |cells|
  {
    if q.ctx.symbolic then
      Joined(BuildConflict(q.principalId, q.node, values))
    else if !Clear(q, cells, i) then
      EndAt(q, cells[FirstStop(q, cells, i)], FirstStop(q, cells, i))
    else
      ClearIsReadable(q, cells, i);
      Joined(BuildConflict(q.principalId, q.node, values + Truths(q, cells[i..])))
  }

  lemma ExpectedNext(q: Query, cells: seq<Cell>, i: nat, values: seq<ConflictValue>)
    requires i < |cells|
    ensures Expected(q, cells, i, values) ==
            if q.ctx.symbolic then
              Expected(q, cells, i + 1, values)
            else if Stops(q, cells[i], i) then
              EndAt(q, cells[i], i)
            else
              Expected(q, cells, i + 1, values + [Truth(q, cells[i])])
  {
    if !q.ctx.symbolic && Clear(q, cells, i) {
      ClearIsReadable(q, cells, i);
      ClearIsReadable(q, cells, i + 1);
      assert cells[i..][1..] == cells[i + 1..];
      assert values + [Truth(q, cells[i])] + Truths(q, cells[i + 1..]) == values + Truths(q, cells[i..]);
    }
  }

  /** Over a coherent cache, what the cache holds does not show: the join is refused exactly when a
      denied cell comes before any that cannot be read, raises exactly in the converse case, and
      otherwise holds exactly one source-true value per cell, in order. */
  lemma {:induction false} JoinExactly(
    q: Query, refOf: Fetch.References, cells: seq<Cell>, i: nat, s: State, values: seq<ConflictValue>)
    requires i <= |cells| && Fetch.Coherent(q.world, refOf, s.ladder.rows) && RefsKnown(cells, refOf)
    ensures JoinFrom(q, cells, i, s, values).0 == Expected(q, cells, i, values)
    decreases |cells| - i
  {
    if i < |cells| {
      var (turn, s') := TakeTurn(q, cells[i], i, s, values);
      TurnExactly(q, refOf, cells[i], i, s, values);
      ExpectedNext(q, cells, i, values);
      if turn.Next? {
        JoinExactly(q, refOf, cells, i + 1, s', turn.values);
      }
    } else {
      assert cells[i..] == [] && values + [] == values;
    }
  }

  /** The caller may read a cell exactly when its policy is registered and permits it, and the capability has
      not expired by then. */
  lemma AllowedExactly(q: Query, c: Cell, i: nat)
    ensures Allowed(q, c, i) <==>
            && c.policyId in q.policies && q.policies[c.policyId].dereference(q.cap, q.ctx)
            && q.clock(i).0 <= q.cap.expiry
  {
  }

  /** A turn leaves the source alone exactly when the gate lets the caller through to a row that has not run
      out when the ladder looks, or does not let the caller through. */
  lemma TurnFetchesExactly(q: Query, c: Cell, i: nat, s: State, values: seq<ConflictValue>)
    ensures TakeTurn(q, c, i, s, values).1.ladder.fetches == s.ladder.fetches <==>
              q.ctx.symbolic || !Allowed(q, c, i) || FetchLaws.Current(s.ladder.rows, c.cellId, q.clock(i).1)
  {
    var r := ReadOf(q, c, i);
    FetchLaws.RefusedExactly(q.world, q.ttl, s.ladder, r);
    if !q.ctx.symbolic && !FetchLaws.MayNot(r) {
      FetchLaws.FetchedExactly(q.world, q.ttl, s.ladder, r);
    }
  }

  /** After expiry a join over any cell is refused at the first, whatever is cached, and reads nothing. */
  lemma ExpiredJoin(q: Query, cells: seq<Cell>, s: State)
    requires !q.ctx.symbolic && cells != [] && q.cap.expiry < q.clock(0).0
    ensures JoinFrom(q, cells, 0, s, []).0 == Refused && JoinFrom(q, cells, 0, s, []).1.ladder == s.ladder
  {
  }

  /** How many of the cells from `i` to `n` have a policy that is not registered. */
  function UnknownIn(q: Query, cells: seq<Cell>, i: nat, n: nat): nat
    requires i <= n <= |cells|
    decreases n - i
  {
    if i == n then 0 else (if cells[i].policyId in q.policies then 0 else 1) + UnknownIn(q, cells, i + 1, n)
  }

  /** Where the join has stopped looking. */
  ghost function LookedAt(q: Query, cells: seq<Cell>, i: nat): (n: nat)
    requires i <= |cells|
    ensures i <= n <= |cells|
  {
    if q.ctx.symbolic || Clear(q, cells, i) then |cells| else FirstStop(q, cells, i) + 1
  }

  lemma LookedAtNext(q: Query, cells: seq<Cell>, i: nat)
    requires i < |cells|
    ensures LookedAt(q, cells, i) ==
            if !q.ctx.symbolic && Stops(q, cells[i], i) then i + 1 else LookedAt(q, cells, i + 1)
  {
  }

  lemma LookedNext(q: Query, cells: seq<Cell>, i: nat)
    requires i < |cells|
    ensures UnknownIn(q, cells, i, LookedAt(q, cells, i)) ==
            (if cells[i].policyId in q.policies then 0 else 1)
            + if !q.ctx.symbolic && Stops(q, cells[i], i) then 0
              else UnknownIn(q, cells, i + 1, LookedAt(q, cells, i + 1))
  {
    LookedAtNext(q, cells, i);
    assert UnknownIn(q, cells, i + 1, i + 1) == 0;
  }

  /** Each cell that was looked at and has an unknown policy is counted once. */
  lemma {:induction false} LookupsExactly(
    q: Query, refOf: Fetch.References, cells: seq<Cell>, i: nat, s: State, values: seq<ConflictValue>)
    requires i <= |cells| && Fetch.Coherent(q.world, refOf, s.ladder.rows) && RefsKnown(cells, refOf)
    ensures JoinFrom(q, cells, i, s, values).1.unknownLookups ==
            s.unknownLookups + UnknownIn(q, cells, i, LookedAt(q, cells, i))
    decreases |cells| - i
  {
    if i < |cells| {
      var (turn, s') := TakeTurn(q, cells[i], i, s, values);
      TurnExactly(q, refOf, cells[i], i, s, values);
      LookedNext(q, cells, i);
      if turn.Next? {
        LookupsExactly(q, refOf, cells, i + 1, s', turn.values);
      }
    }
  }

  // ---- two worlds ----

  /** The same sources and rows; the values are free. */
  ghost predicate SameShape(w: Fetch.World, w': Fetch.World) {
    w.Keys == w'.Keys && forall source :: source in w ==> w[source].Keys == w'[source].Keys
  }

  /** All that the gate may look at is the same in both. */
  ghost predicate SameGovernance(q: Query, q': Query) {
    && q.cap == q'.cap && q.ctx == q'.ctx && q.policies == q'.policies
    && (forall i: nat :: q.clock(i).0 == q'.clock(i).0)
    && SameShape(q.world, q'.world) && SameShape(q.reader, q'.reader)
  }

  ghost predicate SameVerdict(outcome: Outcome, outcome': Outcome) {
    match outcome
    case Refused => outcome' == Refused
    case Failed(e) => outcome' == Failed(e)
    case Joined(c) => outcome'.Joined? && |outcome'.conflict.values| == |c.values|
  }

  ghost predicate SameOutcome<T, U>(r: Result<T>, r': Result<U>) {
    (r.Ok? <==> r'.Ok?) && (r.Err? && r'.Err? ==> r'.error == r.error)
  }

  lemma SameShapeReads(w: Fetch.World, w': Fetch.World, ref: Reference)
    requires SameShape(w, w')
    ensures SameOutcome(Fetch.ReadValue(w, ref), Fetch.ReadValue(w', ref))
  {
  }

  lemma SameStamped(q: Query, q': Query, c: Cell, v: string, v': string)
    requires SameShape(q.reader, q'.reader)
    ensures SameOutcome(Stamped(q, c, v), Stamped(q', c, v'))
  {
    match Locators.ParseLocator(c.ref.locator)
    case Err(_) =>
    case Ok((source, rowKey, _)) =>
      match TsField(source)
      case None =>
      case Some(field) =>
        match Locators.MakeLocator(source, rowKey, field)
        case Err(_) =>
        case Ok(locator) => SameShapeReads(q.reader, q'.reader, Reference(source, locator, source));
  }

  ghost predicate SameKind(served: Fetch.Served, served': Fetch.Served) {
    match served
    case Value(_) => served'.Value?
    case Symbol(_) => served'.Symbol?
    case Refusal => served'.Refusal?
    case Raised(e) => served' == Fetch.Raised(e)
  }

  lemma SameServed(
    q: Query, q': Query, refOf: Fetch.References, c: Cell, i: nat, ladder: Fetch.Ladder, ladder': Fetch.Ladder)
    requires SameGovernance(q, q') && Fetch.Refers(refOf, c.cellId, c.ref)
    requires Fetch.Coherent(q.world, refOf, ladder.rows) && Fetch.Coherent(q'.world, refOf, ladder'.rows)
    ensures var (served, after) := Fetch.Serve(q.world, q.ttl, ladder, ReadOf(q, c, i));
            var (served', after') := Fetch.Serve(q'.world, q'.ttl, ladder', ReadOf(q', c, i));
            && SameKind(served, served')
            && Fetch.Coherent(q.world, refOf, after.rows) && Fetch.Coherent(q'.world, refOf, after'.rows)
  {
    Fetch.ServeIsDirect(q.world, q.ttl, refOf, ladder, ReadOf(q, c, i));
    Fetch.ServeIsDirect(q'.world, q'.ttl, refOf, ladder', ReadOf(q', c, i));
    SameShapeReads(q.world, q'.world, c.ref);
  }

  lemma SameTurn(
    q: Query, q': Query, refOf: Fetch.References, c: Cell, i: nat,
    s: State, s': State, values: seq<ConflictValue>, values': seq<ConflictValue>)
    requires SameGovernance(q, q') && Fetch.Refers(refOf, c.cellId, c.ref) && |values| == |values'|
    requires Fetch.Coherent(q.world, refOf, s.ladder.rows) && Fetch.Coherent(q'.world, refOf, s'.ladder.rows)
    requires s.unknownLookups == s'.unknownLookups
    ensures var (turn, after) := TakeTurn(q, c, i, s, values);
            var (turn', after') := TakeTurn(q', c, i, s', values');
            && (turn.Next? ==> turn'.Next? && |turn.values| == |turn'.values|)
            && (turn.Stop? ==> turn' == turn && !turn.outcome.Joined?)
            && after.unknownLookups == after'.unknownLookups
            && Fetch.Coherent(q.world, refOf, after.ladder.rows)
            && Fetch.Coherent(q'.world, refOf, after'.ladder.rows)
  {
    SameServed(q, q', refOf, c, i, s.ladder, s'.ladder);
    var served := Fetch.Serve(q.world, q.ttl, s.ladder, ReadOf(q, c, i)).0;
    var served' := Fetch.Serve(q'.world, q'.ttl, s'.ladder, ReadOf(q', c, i)).0;
    if served.Value? {
      SameStamped(q, q', c, served.value, served'.value);
    }
  }

  /** Two worlds that differ in their values, caches, time-to-live and fetch counts give one verdict:
      refused in one exactly when refused in the other, failed alike, or as many values. Nothing of a
      value shows in a refusal. */
  lemma {:induction false} TwoWorlds(
    q: Query, q': Query, refOf: Fetch.References, cells: seq<Cell>, i: nat,
    s: State, s': State, values: seq<ConflictValue>, values': seq<ConflictValue>)
    requires i <= |cells| && SameGovernance(q, q') && RefsKnown(cells, refOf) && |values| == |values'|
    requires Fetch.Coherent(q.world, refOf, s.ladder.rows) && Fetch.Coherent(q'.world, refOf, s'.ladder.rows)
    requires s.unknownLookups == s'.unknownLookups
    ensures var (outcome, after) := JoinFrom(q, cells, i, s, values);
            var (outcome', after') := JoinFrom(q', cells, i, s', values');
            SameVerdict(outcome, outcome') && after.unknownLookups == after'.unknownLookups
    decreases |cells| - i
  {
    if i < |cells| {
      SameTurn(q, q', refOf, cells[i], i, s, s', values, values');
      var (turn, after) := TakeTurn(q, cells[i], i, s, values);
      var (turn', after') := TakeTurn(q', cells[i], i, s', values');
      if turn.Next? {
        TwoWorlds(q, q', refOf, cells, i + 1, after, after', turn.values, turn'.values);
      }
    }
  }

  /** The same for whole queries over one store and one overlay. */
  lemma TwoWorldQueries(
    q: Query, q': Query, refOf: Fetch.References, t: Store.Table, of: Labelling, s: State, s': State)
    requires SameGovernance(q, q') && q.principalId == q'.principalId && q.node == q'.node
    requires s.unknownLookups == s'.unknownLookups
    requires var cells := Reading.CellsThrough(t, of, q.principalId, Some(q.node));
             cells.Ok? ==> RefsKnown(cells.value, refOf)
    requires Fetch.Coherent(q.world, refOf, s.ladder.rows) && Fetch.Coherent(q'.world, refOf, s'.ladder.rows)
    ensures SameVerdict(JoinAll(q, t, of, s).0, JoinAll(q', t, of, s').0)
    ensures JoinAll(q, t, of, s).1.unknownLookups == JoinAll(q', t, of, s').1.unknownLookups
  {
    var cells := Reading.CellsThrough(t, of, q.principalId, Some(q.node));
    if cells.Ok? {
      TwoWorlds(q, q', refOf, cells.value, 0, s, s', [], []);
    }
  }
}
