/** The wiring: seed and onboard the sources, then resolve and join along one overlay. */
module Demo {
  import opened Contract
  import opened Onboarding
  import opened SeedLaws
  import opened DemoLaws
  import Fetch
  import Gate
  import Inversion
  import Join
  import Overlay
  import Resolver
  import Store

  // ---- seed and onboard ----

  /** The records of the rows of one source, unless one of them has no key. */
  method SourceRecords(crm: Crm) returns (r: Result<seq<Inversion.EmailRecord>>)
    ensures r == if RowsKeyed(crm) then Ok(RecordsOf(crm, crm.run.setup.rows)) else Err(KeyError)
  {
    var rows, records := crm.run.setup.rows, [];
    for i := 0 to |rows|
      invariant records == RecordsOf(crm, rows[..i])
      invariant forall row :: row in rows[..i] ==> crm.run.setup.keyField in row
    {
      if crm.run.setup.keyField !in rows[i] {
        return Err(KeyError);
      }
      assert rows[..i + 1] == rows[..i] + [rows[i]];
      RecordsOfNext(crm, rows[..i], rows[i]);
      records := records + [RecordOf(crm, rows[i])];
    }
    assert rows[..|rows|] == rows;
    r := Ok(records);
  }

  method GatherRecords(crms: seq<Crm>) returns (r: Result<seq<Inversion.EmailRecord>>)
    ensures r == if AllKeyed(crms) then Ok(AllRecords(crms)) else Err(KeyError)
  {
    var records := [];
    for k := 0 to |crms|
      invariant records == AllRecords(crms[..k])
      invariant forall j :: 0 <= j < k ==> RowsKeyed(crms[j])
    {
      assert crms[..k + 1][..k] == crms[..k];
      var more := SourceRecords(crms[k]);
      if more.Err? {
        return Err(KeyError);
      }
      records := records + more.value;
    }
    assert crms[..|crms|] == crms;
    r := Ok(records);
  }

  /** Seeds the groups from the rows of all the sources, then onboards each source in turn. */
  method SeedAndOnboard(
    lower: string -> string, digest: string -> string, onboarder: Onboarder, crms: seq<Crm>)
    returns (groups: Inversion.Groups, reports: map<string, Report>, raised: Option<Error>)
    requires onboarder.store.Valid()
    modifies onboarder, onboarder.store, onboarder.controlPlane
    ensures onboarder.store.Valid()
    ensures groups == if AllKeyed(crms) then Inversion.Seeded(lower, digest, AllRecords(crms)) else map[]
    ensures var b := if AllKeyed(crms) then
                       OnboardEach(SeededRuns(groups, crms), old(onboarder.controlPlane.proposed))
                     else
                       Batch([], old(onboarder.controlPlane.proposed), map[], Some(KeyError));
            && raised == b.raised && reports == b.reports
            && onboarder.controlPlane.proposed == b.proposed
            && onboarder.store.table == WriteAll(old(onboarder.store.table), b.writes)
    ensures old(onboarder.store.table) == map[] && raised.None? ==>
              forall cellIdOf :: DistinctSources(crms, cellIdOf) && NoDigestCollision(lower, digest, crms) ==>
                GroupsByEmail(lower, crms, onboarder.store.table)
  {
    ghost var (t, proposed) := (onboarder.store.table, onboarder.controlPlane.proposed);
    var records := GatherRecords(crms);
    if records.Err? {
      return map[], map[], Some(KeyError);
    }
    groups := Inversion.SeedGrouping(lower, digest, records.value);
    var runs := SeededRuns(groups, crms);
    reports, raised := OnboardAll(onboarder, runs);
    if raised.None? && t == map[] {
      forall cellIdOf | DistinctSources(crms, cellIdOf) && NoDigestCollision(lower, digest, crms)
        ensures GroupsByEmail(lower, crms, onboarder.store.table)
      {
        SeededGroupsByEmail(lower, digest, crms, cellIdOf, proposed);
      }
    }
  }

  method OnboardAll(onboarder: Onboarder, runs: seq<SourceRun>)
    returns (reports: map<string, Report>, raised: Option<Error>)
    requires onboarder.store.Valid()
    modifies onboarder, onboarder.store, onboarder.controlPlane
    ensures onboarder.store.Valid()
    ensures var b := OnboardEach(runs, old(onboarder.controlPlane.proposed));
            && raised == b.raised && reports == b.reports
            && onboarder.controlPlane.proposed == b.proposed
            && onboarder.store.table == WriteAll(old(onboarder.store.table), b.writes)
  {
    ghost var (t, before) := (onboarder.store.table, onboarder.controlPlane.proposed);
    reports, raised := map[], None;
    for k := 0 to |runs|
      invariant onboarder.store.Valid() && raised == None
      invariant OnboardEach(runs[..k], before).raised == None && reports == OnboardEach(runs[..k], before).reports
      invariant onboarder.controlPlane.proposed == OnboardEach(runs[..k], before).proposed
      invariant onboarder.store.table == WriteAll(t, OnboardEach(runs[..k], before).writes)
    {
      ghost var b := OnboardEach(runs[..k], before);
      WriteAllConcat(t, b.writes, Onboard(runs[k].setup, runs[k].fields, b.proposed).writes);
      assert runs[..k + 1][..k] == runs[..k];
      raised := onboarder.OnboardSource(runs[k].setup, runs[k].fields);
      if raised.Some? {
        OnboardEachStuck(runs, before, k + 1);
        return;
      }
      reports := reports[runs[k].setup.source := onboarder.report];
    }
    assert runs[..|runs|] == runs;
  }

  // ---- resolve, then join ----

  /** What a join looks at, apart from the id of its principal. */
  ghost function QueryFor(
    node: string, cap: Capability, ctx: Context, registry: Gate.PolicyRegistry, ladder: Fetch.DefaultFetchLadder,
    reader: Fetch.World, parseTs: string -> Option<int>, clock: nat -> (int, int)): Join.Query
    reads registry`byId
  {
    Join.Query("", node, cap, ctx, registry.byId, ladder.adapter.world, reader, ladder.defaultTtl, parseTs, clock)
  }

  method Resolve(
    resolver: Resolver.Resolver, refs: seq<Reference>, cap: Capability, ctx: Context,
    overlay: Overlay.GroupingOverlay, gateNow: int, auditNow: int) returns (resolution: Resolver.Resolution)
    requires resolver.Valid() && overlay.Valid()
    modifies resolver, overlay, if resolver.audit == null then {} else {resolver.audit}
    ensures resolver.Valid() && overlay.Valid()
    ensures var attempt := Tried(resolver.matcher, resolver.reader, resolver.store.table, cap, ctx, gateNow, refs,
                                 old(resolver.History()));
            && (resolution, overlay.State()) == Settled(attempt, old(overlay.State()))
            && overlay.history == old(overlay.history) + MergedIn(attempt)
  {
    resolution := resolver.ResolveRefs(refs, cap, ctx, overlay, gateNow, auditNow);
  }

  /** Both steps run along the one overlay; a refused or failed resolution ends the query. The outcome
      tells of the component's rows and of those chained to them, and on a fresh overlay of no other. */
  method ResolveThenJoin(
    resolver: Resolver.Resolver, refs: seq<Reference>, node: string, cap: Capability, ctx: Context,
    overlay: Overlay.GroupingOverlay, ladder: Fetch.DefaultFetchLadder, registry: Gate.PolicyRegistry,
    parseTs: string -> Option<int>, gateNow: int, auditNow: int, clock: nat -> (int, int))
    returns (resolution: Resolver.Resolution, outcome: Join.Outcome)
    requires resolver.Valid() && overlay.Valid()
    modifies resolver, overlay, ladder.cache, ladder.adapter, registry`unknownLookups
    modifies if resolver.audit == null then {} else {resolver.audit}
    ensures resolver.Valid() && overlay.Valid()
    ensures var q := old(QueryFor(node, cap, ctx, registry, ladder, resolver.reader, parseTs, clock));
            var (t, s) := (resolver.store.table, old(Join.State(ladder.State(), registry.unknownLookups)));
            var attempt := Tried(resolver.matcher, resolver.reader, t, cap, ctx, gateNow, refs,
                                 old(resolver.History()));
            && (resolution, outcome) == Wired(q, t, attempt, old(overlay.State()), s)
            && overlay.history == old(overlay.history) + MergedIn(attempt)
            && BothTell(q, t, attempt, old(overlay.history), s, outcome)
    ensures EndsEarly(cap, gateNow, resolution, outcome)
    ensures !resolution.Resolved? ==>
              ladder.State() == old(ladder.State()) && registry.unknownLookups == old(registry.unknownLookups)
  {
    ghost var q := QueryFor(node, cap, ctx, registry, ladder, resolver.reader, parseTs, clock);
    ghost var (judge, history, g, s) :=
      (resolver.History(), overlay.history, overlay.State(), Join.State(ladder.State(), registry.unknownLookups));
    resolution, outcome :=
      BothSteps(resolver, refs, node, cap, ctx, overlay, ladder, registry, parseTs, gateNow, auditNow, clock);
    TriedTells(resolver.matcher, q, resolver.store.table, gateNow, refs, judge, history, g, s, outcome);
    TriedEndsEarly(resolver.matcher, q, resolver.store.table, gateNow, refs, judge, g, s);
  }

  method BothSteps(
    resolver: Resolver.Resolver, refs: seq<Reference>, node: string, cap: Capability, ctx: Context,
    overlay: Overlay.GroupingOverlay, ladder: Fetch.DefaultFetchLadder, registry: Gate.PolicyRegistry,
    parseTs: string -> Option<int>, gateNow: int, auditNow: int, clock: nat -> (int, int))
    returns (resolution: Resolver.Resolution, outcome: Join.Outcome)
    requires resolver.Valid() && overlay.Valid()
    modifies resolver, overlay, ladder.cache, ladder.adapter, registry`unknownLookups
    modifies if resolver.audit == null then {} else {resolver.audit}
    ensures resolver.Valid() && overlay.Valid()
    ensures var q := old(QueryFor(node, cap, ctx, registry, ladder, resolver.reader, parseTs, clock));
            var (t, s) := (resolver.store.table, old(Join.State(ladder.State(), registry.unknownLookups)));
            var attempt := Tried(resolver.matcher, resolver.reader, t, cap, ctx, gateNow, refs,
                                 old(resolver.History()));
            && (resolution, outcome) == Wired(q, t, attempt, old(overlay.State()), s)
            && overlay.history == old(overlay.history) + MergedIn(attempt)
    ensures !resolution.Resolved? ==>
              ladder.State() == old(ladder.State()) && registry.unknownLookups == old(registry.unknownLookups)
  {
    ghost var s := Join.State(ladder.State(), registry.unknownLookups);
    resolution := Resolve(resolver, refs, cap, ctx, overlay, gateNow, auditNow);
    assert Join.State(ladder.State(), registry.unknownLookups) == s;
    outcome := JoinResolved(resolution, resolver.store, resolver.reader, node, cap, ctx, overlay, ladder, registry,
                 parseTs, clock);
  }

  method JoinResolved(
    resolution: Resolver.Resolution, store: Store.MasterTableStore, reader: Fetch.World,
    node: string, cap: Capability, ctx: Context,
    overlay: Overlay.GroupingOverlay, ladder: Fetch.DefaultFetchLadder, registry: Gate.PolicyRegistry,
    parseTs: string -> Option<int>, clock: nat -> (int, int)) returns (outcome: Join.Outcome)
    requires store.Valid()
    modifies ladder.cache, ladder.adapter, registry`unknownLookups
    ensures var q := old(QueryFor(node, cap, ctx, registry, ladder, reader, parseTs, clock));
            outcome == OutcomeOf(q, resolution, store.table, overlay.of,
                                 old(Join.State(ladder.State(), registry.unknownLookups)))
    ensures !resolution.Resolved? ==>
              ladder.State() == old(ladder.State()) && registry.unknownLookups == old(registry.unknownLookups)
  {
    match resolution
    case Refused =>
      outcome := Join.Refused;
    case Failed(e) =>
      outcome := Join.Failed(e);
    case Resolved(pid, _) =>
      outcome := Join.CrossSourceQuery(store, overlay, pid, node, cap, ctx, ladder, registry, reader, parseTs, clock);
  }
}
