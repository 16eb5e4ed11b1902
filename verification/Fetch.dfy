/** The value side: sources, the time-limited cache, and the ladder that gates every read. */
module Fetch {
  import opened Contract
  import Gate
  import Locators

  // ---- sources ----

  /** source -> row key -> field -> value */
  type World = map<string, map<RowKey, map<string, string>>>

  /** A missing source or row is an error; a missing field of a known row reads as empty. */
  function ReadValue(w: World, ref: Reference): Result<string> {
    match Locators.ParseLocator(ref.locator)
    case Err(e) => Err(e)
    case Ok((source, rowKey, field)) => ReadField(w, source, rowKey, field)
  }

  function ReadField(w: World, source: string, rowKey: RowKey, field: string): Result<string> {
    if source !in w || rowKey !in w[source] then
      Err(KeyError)
    else
      Ok(if field in w[source][rowKey] then w[source][rowKey][field] else "")
  }

  /** The one place where a raw value is read, counted. */
  class CsvAdapter {
    const world: World
    var fetchCount: nat

    constructor (world: World)
      ensures this.world == world && fetchCount == 0
    {
      this.world, fetchCount := world, 0;
    }

    method Fetch(ref: Reference) returns (r: Result<string>)
      modifies this
      ensures r == ReadValue(world, ref) && fetchCount == old(fetchCount) + 1
    {
      fetchCount := fetchCount + 1;
      r := ReadValue(world, ref);
    }
  }

  // ---- cache ----

  type CacheTable = map<CellId, MaterialisedValue>

  /** The cached value of `id` that has not expired at `now`. */
  function FreshAt(rows: CacheTable, id: CellId, now: int): Option<MaterialisedValue> {
    if id in rows && rows[id].fetchedAt + rows[id].ttl > now then Some(rows[id]) else None
  }

  class MaterialisedCache {
    var rows: CacheTable

    constructor ()
      ensures rows == map[]
    {
      rows := map[];
    }

    method Put(id: CellId, mv: MaterialisedValue)
      modifies this
      ensures rows == old(rows)[id := mv]
    {
      rows := rows[id := mv];
    }

    method Get(id: CellId) returns (mv: Option<MaterialisedValue>)
      ensures mv == if id in rows then Some(rows[id]) else None
    {
      mv := if id in rows then Some(rows[id]) else None;
    }

    method Fresh(id: CellId, now: int) returns (mv: Option<MaterialisedValue>)
      ensures mv == FreshAt(rows, id, now)
    {
      mv := Get(id);
      if mv.Some? && !(mv.value.fetchedAt + mv.value.ttl > now) {
        mv := None;
      }
    }
  }

  // ---- the ladder ----

  datatype Served = Value(value: string) | Symbol(name: CellId) | Refusal | Raised(error: Error)

  /** One read: the projected cell, who asks, and the two clock readings the read may take. */
  datatype Read = Read(
    cellId: CellId,
    ref: Reference,
    dereference: Option<Predicate>,
    cap: Capability,
    ctx: Context,
    gateNow: int,
    now: int)

  datatype Ladder = Ladder(rows: CacheTable, fetches: nat)

  predicate Allowed(r: Read) {
    r.dereference.Some? && Gate.Check(r.cap, r.dereference.value, r.ctx, r.gateNow)
  }

  function Provenance(value: string, ttl: int, r: Read): MaterialisedValue {
    MaterialisedValue(value, IdOf(r.cap), r.now, ttl,
      if r.ctx.policyId.Some? then r.ctx.policyId.value else "unknown")
  }

  /** The four tiers: symbol, gate, fresh cached value, adapter. */
  function Serve(w: World, ttl: int, s: Ladder, r: Read): (Served, Ladder) {
    if r.ctx.symbolic then
      (Symbol(r.cellId), s)
    else if !Allowed(r) then
      (Refusal, s)
    else if FreshAt(s.rows, r.cellId, r.now).Some? then
      (Value(FreshAt(s.rows, r.cellId, r.now).value.value), s)
    else
      match ReadValue(w, r.ref)
      case Err(e) => (Raised(e), Ladder(s.rows, s.fetches + 1))
      case Ok(v) => (Value(v), Ladder(s.rows[r.cellId := Provenance(v, ttl, r)], s.fetches + 1))
  }

  class DefaultFetchLadder {
    const adapter: CsvAdapter
    const cache: MaterialisedCache
    const defaultTtl: int

    constructor (adapter: CsvAdapter, cache: MaterialisedCache, defaultTtl: int)
      ensures this.adapter == adapter && this.cache == cache && this.defaultTtl == defaultTtl
    {
      this.adapter, this.cache, this.defaultTtl := adapter, cache, defaultTtl;
    }

    function State(): Ladder
      reads cache, adapter
    {
      Ladder(cache.rows, adapter.fetchCount)
    }

    method ResolveValue(r: Read) returns (served: Served)
      modifies cache, adapter
      ensures (served, State()) == Serve(adapter.world, defaultTtl, old(State()), r)
    {
      if r.ctx.symbolic {
        return Symbol(r.cellId);
      }
      if r.dereference.None? || !Gate.Check(r.cap, r.dereference.value, r.ctx, r.gateNow) {
        return Refusal;
      }
      var mv := cache.Fresh(r.cellId, r.now);
      if mv.Some? {
        return Value(mv.value.value);
      }
      var fetched := adapter.Fetch(r.ref);
      if fetched.Err? {
        return Raised(fetched.error);
      }
      cache.Put(r.cellId, Provenance(fetched.value, defaultTtl, r));
      served := Value(fetched.value);
    }
  }

  // ---- runs of reads ----

  /** What a read is served without any cache: the gate, and then the source. */
  function Direct(w: World, r: Read): Served {
    if r.ctx.symbolic then
      Symbol(r.cellId)
    else if !Allowed(r) then
      Refusal
    else
      match ReadValue(w, r.ref)
      case Err(e) => Raised(e)
      case Ok(v) => Value(v)
  }

  function Run(w: World, ttl: int, s: Ladder, trace: seq<Read>): (seq<Served>, Ladder) {
    if trace == [] then
      ([], s)
    else
      var (served, before) := Run(w, ttl, s, trace[..|trace| - 1]);
      var (last, after) := Serve(w, ttl, before, trace[|trace| - 1]);
      (served + [last], after)
  }

  /** The one reference of each cell id. */
  type References = map<CellId, Reference>

  predicate Refers(refOf: References, id: CellId, ref: Reference) {
    id in refOf && refOf[id] == ref
  }

  /** Every cached value of a known cell is what the source says now. */
  ghost predicate Coherent(w: World, refOf: References, rows: CacheTable) {
    forall id {:trigger rows[id]} :: id in rows && id in refOf ==> ReadValue(w, refOf[id]) == Ok(rows[id].value)
  }

  lemma ServeIsDirect(w: World, ttl: int, refOf: References, s: Ladder, r: Read)
    requires Coherent(w, refOf, s.rows) && Refers(refOf, r.cellId, r.ref)
    ensures Serve(w, ttl, s, r).0 == Direct(w, r)
    ensures Coherent(w, refOf, Serve(w, ttl, s, r).1.rows)
  {
  }

  /** The cache is invisible: any run of reads, by whomever and whenever, serves each of them what a
      direct gated read of the unchanging source would. */
  lemma {:induction false} RunIsDirect(w: World, ttl: int, refOf: References, s: Ladder, trace: seq<Read>)
    requires Coherent(w, refOf, s.rows)
    requires forall r :: r in trace ==> Refers(refOf, r.cellId, r.ref)
    ensures |Run(w, ttl, s, trace).0| == |trace|
    ensures forall i :: 0 <= i < |trace| ==> Run(w, ttl, s, trace).0[i] == Direct(w, trace[i])
    ensures Coherent(w, refOf, Run(w, ttl, s, trace).1.rows)
  {
    if trace != [] {
      var before, last := trace[..|trace| - 1], trace[|trace| - 1];
      RunIsDirect(w, ttl, refOf, s, before);
      ServeIsDirect(w, ttl, refOf, Run(w, ttl, s, before).1, last);
    }
  }

  // ---- refused reads ----

  /** The reads that the gate lets through. */
  function Admitted(trace: seq<Read>): seq<Read> {
    if trace == [] then
      []
    else
      var last := trace[|trace| - 1];
      Admitted(trace[..|trace| - 1]) + if !last.ctx.symbolic && Allowed(last) then [last] else []
  }

  lemma AdmittedNext(w: World, ttl: int, s: Ladder, trace: seq<Read>, r: Read)
    ensures Run(w, ttl, s, trace + [r]).1 == Serve(w, ttl, Run(w, ttl, s, trace).1, r).1
  {
    assert (trace + [r])[..|trace|] == trace;
  }

  /** A run leaves the cache and the fetch count as if its refused and symbolic reads had not been. */
  lemma {:induction false} RefusedReadsInvisible(w: World, ttl: int, s: Ladder, trace: seq<Read>)
    ensures Run(w, ttl, s, trace).1 == Run(w, ttl, s, Admitted(trace)).1
  {
    if trace != [] {
      var before, last := trace[..|trace| - 1], trace[|trace| - 1];
      RefusedReadsInvisible(w, ttl, s, before);
      if !last.ctx.symbolic && Allowed(last) {
        AdmittedNext(w, ttl, s, Admitted(before), last);
      } else {
        assert Admitted(trace) == Admitted(before);
      }
    }
  }

  // ---- how often the source is read ----

  /** `r` gets as far as the adapter. */
  predicate Misses(s: Ladder, r: Read) {
    !r.ctx.symbolic && Allowed(r) && FreshAt(s.rows, r.cellId, r.now).None?
  }

  /** `r` goes to the adapter and its value is stored. */
  predicate Stores(w: World, s: Ladder, r: Read) {
    Misses(s, r) && ReadValue(w, r.ref).Ok?
  }

  /** The times at which a run fetched and stored the value of cell `id`. */
  function FetchTimes(w: World, ttl: int, s: Ladder, trace: seq<Read>, id: CellId): seq<int> {
    if trace == [] then
      []
    else
      var before, last := trace[..|trace| - 1], trace[|trace| - 1];
      FetchTimes(w, ttl, s, before, id)
      + if last.cellId == id && Stores(w, Run(w, ttl, s, before).1, last) then [last.now] else []
  }

  ghost predicate Spaced(times: seq<int>, ttl: int) {
    forall i :: 0 <= i < |times| - 1 ==> times[i] + ttl <= times[i + 1]
  }

  /** The cache holds the last of the fetches. */
  ghost predicate LastStored(s: Ladder, ttl: int, id: CellId, times: seq<int>) {
    times != [] ==> id in s.rows && s.rows[id].fetchedAt == times[|times| - 1] && s.rows[id].ttl == ttl
  }

  lemma StoreSpaced(w: World, ttl: int, s: Ladder, r: Read, id: CellId, times: seq<int>)
    requires Spaced(times, ttl) && LastStored(s, ttl, id, times)
    ensures var times' := times + if r.cellId == id && Stores(w, s, r) then [r.now] else [];
            Spaced(times', ttl) && LastStored(Serve(w, ttl, s, r).1, ttl, id, times')
  {
    assert times + [] == times;
  }

  /** Two successive stored fetches of a cell are at least one time-to-live apart, in every run of reads
      and for any clock. */
  lemma {:induction false} FetchesSpaced(w: World, ttl: int, s: Ladder, trace: seq<Read>, id: CellId)
    ensures var times := FetchTimes(w, ttl, s, trace, id);
            Spaced(times, ttl) && LastStored(Run(w, ttl, s, trace).1, ttl, id, times)
  {
    if trace != [] {
      var before, last := trace[..|trace| - 1], trace[|trace| - 1];
      FetchesSpaced(w, ttl, s, before, id);
      StoreSpaced(w, ttl, Run(w, ttl, s, before).1, last, id, FetchTimes(w, ttl, s, before, id));
    }
  }

  /** The reads of a run that got as far as the adapter, the ones it raised on included. */
  function AdapterReads(w: World, ttl: int, s: Ladder, trace: seq<Read>): seq<Read> {
    if trace == [] then
      []
    else
      var before, last := trace[..|trace| - 1], trace[|trace| - 1];
      AdapterReads(w, ttl, s, before) + if Misses(Run(w, ttl, s, before).1, last) then [last] else []
  }

  function TimesOf(made: seq<Read>, id: CellId): seq<int> {
    if made == [] then
      []
    else
      var last := made[|made| - 1];
      TimesOf(made[..|made| - 1], id) + if last.cellId == id then [last.now] else []
  }

  lemma TimesOfNext(made: seq<Read>, r: Read, id: CellId)
    ensures TimesOf(made + [r], id) == TimesOf(made, id) + if r.cellId == id then [r.now] else []
  {
    assert (made + [r])[..|made|] == made;
  }

  /** The adapter's counter counts those reads. */
  lemma {:induction false} FetchesCounted(w: World, ttl: int, s: Ladder, trace: seq<Read>)
    ensures Run(w, ttl, s, trace).1.fetches == s.fetches + |AdapterReads(w, ttl, s, trace)|
  {
    if trace != [] {
      FetchesCounted(w, ttl, s, trace[..|trace| - 1]);
    }
  }

  lemma {:induction false} AnsweredAreStored(w: World, ttl: int, s: Ladder, trace: seq<Read>, id: CellId)
    requires forall r :: r in trace && r.cellId == id ==> ReadValue(w, r.ref).Ok?
    ensures TimesOf(AdapterReads(w, ttl, s, trace), id) == FetchTimes(w, ttl, s, trace, id)
  {
    if trace != [] {
      var before, last := trace[..|trace| - 1], trace[|trace| - 1];
      AnsweredAreStored(w, ttl, s, before, id);
      assert last in trace;
      assert AdapterReads(w, ttl, s, before) + [] == AdapterReads(w, ttl, s, before);
      TimesOfNext(AdapterReads(w, ttl, s, before), last, id);
    }
  }

  /** A source that raises is asked again at once: nothing was stored to serve the next read. */
  lemma RaisingIsNotSpaced(w: World, ttl: int, id: CellId, ref: Reference) returns (r: Read)
    requires ttl > 0 && ReadValue(w, ref).Err?
    ensures r.cellId == id && r.ref == ref
    ensures !Spaced(TimesOf(AdapterReads(w, ttl, Ladder(map[], 0), [r, r]), id), ttl)
  {
    var anyone := Capability("", "", [], 0);
    r := Read(id, ref, Some((cap, ctx) => true), anyone, Context(false, None, map[]), 0, 0);
    var s := Ladder(map[], 0);
    assert [r, r][..1] == [r] && [r][..0] == [];
    assert Run(w, ttl, s, [r]).1.rows == map[];
    assert AdapterReads(w, ttl, s, [r]) == [] + [r];
    TimesOfNext([], r, id);
    TimesOfNext([r], r, id);
    assert AdapterReads(w, ttl, s, [r, r]) == [r] + [r];
    var times := TimesOf([r] + [r], id);
    assert times == [0, 0] && times[0] + ttl > times[0 + 1];
  }

  /** Whatever the clock, the callers and the cache to begin with: the reads of a cell that reach the
      adapter are a time-to-live apart in every run exactly when the source has the cell's row. */
  lemma SpacedExactly(w: World, ttl: int, id: CellId, ref: Reference)
    requires ttl > 0
    ensures ReadValue(w, ref).Ok? <==>
            forall s: Ladder, trace: seq<Read> :: (forall r :: r in trace && r.cellId == id ==> r.ref == ref) ==>
              Spaced(TimesOf(AdapterReads(w, ttl, s, trace), id), ttl)
  {
    if ReadValue(w, ref).Ok? {
      forall s: Ladder, trace: seq<Read> | forall r :: r in trace && r.cellId == id ==> r.ref == ref
        ensures Spaced(TimesOf(AdapterReads(w, ttl, s, trace), id), ttl)
      {
        AnsweredAreStored(w, ttl, s, trace, id);
        FetchesSpaced(w, ttl, s, trace, id);
      }
    } else {
      var r := RaisingIsNotSpaced(w, ttl, id, ref);
      assert forall x :: x in [r, r] && x.cellId == id ==> x.ref == ref;
    }
  }

  function CountIn(times: seq<int>, lo: int, hi: int): nat {
    if times == [] then
      0
    else
      CountIn(times[..|times| - 1], lo, hi) + if lo <= times[|times| - 1] <= hi then 1 else 0
  }

  lemma {:induction false} SpacedBudget(times: seq<int>, ttl: nat, lo: int, hi: int)
    requires Spaced(times, ttl)
    ensures CountIn(times, lo, hi) > 0 ==>
              (CountIn(times, lo, hi) - 1) * ttl <= hi - lo
                && (CountIn(times, lo, hi) - 1) * ttl <= times[|times| - 1] - lo
  {
    if times != [] {
      var before, last := times[..|times| - 1], times[|times| - 1];
      SpacedBudget(before, ttl, lo, hi);
      var n := CountIn(before, lo, hi);
      if n > 0 {
        assert before[|before| - 1] + ttl <= last;
        assert n * ttl == (n - 1) * ttl + ttl;
      }
    }
  }

  /** At most one stored fetch of a cell per time-to-live: `n` of them inside a window of length `hi - lo`
      need `(n - 1) * ttl <= hi - lo`. */
  lemma FetchBudget(w: World, ttl: nat, s: Ladder, trace: seq<Read>, id: CellId, lo: int, hi: int)
    requires lo <= hi
    ensures (CountIn(FetchTimes(w, ttl, s, trace, id), lo, hi) - 1) * ttl <= hi - lo
  {
    var times := FetchTimes(w, ttl, s, trace, id);
    FetchesSpaced(w, ttl, s, trace, id);
    SpacedBudget(times, ttl, lo, hi);
    if CountIn(times, lo, hi) == 0 {
      assert (0 - 1) * ttl <= 0;
    }
  }

  /** Where the source has the cell's row, the same bounds all of its reads that reach the adapter. */
  lemma AdapterBudget(w: World, ttl: nat, s: Ladder, trace: seq<Read>, id: CellId, lo: int, hi: int)
    requires lo <= hi && forall r :: r in trace && r.cellId == id ==> ReadValue(w, r.ref).Ok?
    ensures (CountIn(TimesOf(AdapterReads(w, ttl, s, trace), id), lo, hi) - 1) * ttl <= hi - lo
  {
    AnsweredAreStored(w, ttl, s, trace, id);
    FetchBudget(w, ttl, s, trace, id, lo, hi);
  }
}
