/** What the gate, the cache and the ladder come to, in terms of clocks, sources and stored rows. */
module FetchLaws {
  import opened Contract
  import opened Fetch
  import Locators

  // ---- the source ----

  /** A read gives the stored field, or an empty text for a field that the row does not have. It raises on a
      locator that does not parse, and on a source or a row that is not there. */
  lemma ReadExactly(w: World, ref: Reference)
    ensures match Locators.ParseLocator(ref.locator)
            case Err(_) => ReadValue(w, ref) == Err(ValueError)
            case Ok((source, rowKey, field)) =>
              if source !in w || rowKey !in w[source] then
                ReadValue(w, ref) == Err(KeyError)
              else if field in w[source][rowKey] then
                ReadValue(w, ref) == Ok(w[source][rowKey][field])
              else
                ReadValue(w, ref) == Ok("")
  {
  }

  // ---- the gate ----

  /** The caller may not read: there is nothing to ask, the capability has expired, or the policy says no. */
  ghost predicate MayNot(r: Read) {
    r.dereference.None? || r.cap.expiry < r.gateNow || !r.dereference.value(r.cap, r.ctx)
  }

  /** A symbolic read gives the cell's name; any other is refused exactly when the caller may not read.
      Neither looks at the cache or the source. */
  lemma RefusedExactly(w: World, ttl: int, s: Ladder, r: Read)
    ensures r.ctx.symbolic ==> Serve(w, ttl, s, r) == (Symbol(r.cellId), s)
    ensures !r.ctx.symbolic ==> (Serve(w, ttl, s, r).0 == Refusal <==> MayNot(r))
    ensures !r.ctx.symbolic && MayNot(r) ==> Serve(w, ttl, s, r).1 == s
  {
  }

  /** Once the capability has expired, no read of a run yields a value, and nothing is fetched or stored. */
  lemma {:induction false} ExpiredRun(w: World, ttl: int, s: Ladder, trace: seq<Read>)
    requires forall r :: r in trace ==> r.cap.expiry < r.gateNow
    ensures |Run(w, ttl, s, trace).0| == |trace| && Run(w, ttl, s, trace).1 == s
    ensures forall i :: 0 <= i < |trace| ==>
              Run(w, ttl, s, trace).0[i] == if trace[i].ctx.symbolic then Symbol(trace[i].cellId) else Refusal
  {
    if trace != [] {
      var before, last := trace[..|trace| - 1], trace[|trace| - 1];
      ExpiredRun(w, ttl, s, before);
      RefusedExactly(w, ttl, s, last);
      assert last in trace;
    }
  }

  // ---- the cache ----

  /** The stored row has not run out at `now`. */
  ghost predicate Current(rows: CacheTable, id: CellId, now: int) {
    id in rows && now < rows[id].fetchedAt + rows[id].ttl
  }

  /** What the adapter's value is stored as: with the caller, the time, the time-to-live and the policy. */
  ghost predicate StoredBy(mv: MaterialisedValue, w: World, ttl: int, r: Read) {
    && ReadValue(w, r.ref) == Ok(mv.value)
    && mv.fetchedUnder == IdOf(r.cap) && mv.fetchedAt == r.now && mv.ttl == ttl
    && (r.ctx.policyId.Some? ==> mv.originPolicyId == r.ctx.policyId.value)
    && (r.ctx.policyId.None? ==> mv.originPolicyId == "unknown")
  }

  /** An allowed read leaves the source alone exactly when a stored row has not run out, and then serves it.
      Otherwise it reads the source once, and serves and stores what that says, or raises and stores nothing. */
  lemma FetchedExactly(w: World, ttl: int, s: Ladder, r: Read)
    requires !r.ctx.symbolic && !MayNot(r)
    ensures var (served, s') := Serve(w, ttl, s, r);
            && (s'.fetches == s.fetches <==> Current(s.rows, r.cellId, r.now))
            && (Current(s.rows, r.cellId, r.now) ==> s' == s && served == Value(s.rows[r.cellId].value))
            && (!Current(s.rows, r.cellId, r.now) ==>
                  && s'.fetches == s.fetches + 1
                  && match ReadValue(w, r.ref)
                     case Err(e) => served == Raised(e) && s'.rows == s.rows
                     case Ok(v) =>
                       && served == Value(v) && r.cellId in s'.rows && StoredBy(s'.rows[r.cellId], w, ttl, r)
                       && s'.rows - {r.cellId} == s.rows - {r.cellId})
  {
  }

  // ---- sources that change ----

  /** A read, and the source as it is by then. */
  datatype Timed = Timed(world: World, read: Read)

  function RunOver(ttl: int, s: Ladder, trace: seq<Timed>): (r: (seq<Served>, Ladder))
    ensures |r.0| == |trace|
  {
    if trace == [] then
      ([], s)
    else
      var (served, before) := RunOver(ttl, s, trace[..|trace| - 1]);
      var last := trace[|trace| - 1];
      var (value, after) := Serve(last.world, ttl, before, last.read);
      (served + [value], after)
  }

  /** `mv` is what the source said to read `j` of the run, stored then. */
  ghost predicate StoredAt(trace: seq<Timed>, ttl: int, j: nat, id: CellId, mv: MaterialisedValue) {
    && j < |trace| && trace[j].read.cellId == id && !trace[j].read.ctx.symbolic && !MayNot(trace[j].read)
    && StoredBy(mv, trace[j].world, ttl, trace[j].read)
  }

  /** The row stood in the cache to begin with, or was stored by a read of the run that the gate let in. */
  ghost predicate Accounted(s: Ladder, trace: seq<Timed>, ttl: int, id: CellId, mv: MaterialisedValue) {
    (id in s.rows && mv == s.rows[id]) || exists j: nat :: StoredAt(trace, ttl, j, id, mv)
  }

  ghost predicate AllAccounted(s: Ladder, trace: seq<Timed>, ttl: int, rows: CacheTable) {
    forall id {:trigger rows[id]} :: id in rows ==> Accounted(s, trace, ttl, id, rows[id])
  }

  lemma AccountedLonger(s: Ladder, trace: seq<Timed>, next: Timed, ttl: int, id: CellId, mv: MaterialisedValue)
    requires Accounted(s, trace, ttl, id, mv)
    ensures Accounted(s, trace + [next], ttl, id, mv)
  {
    if j: nat :| StoredAt(trace, ttl, j, id, mv) {
      assert (trace + [next])[j] == trace[j];
      assert StoredAt(trace + [next], ttl, j, id, mv);
    }
  }

  /** A read changes at most the row of its cell, and that to what it stores. */
  lemma ServedRow(next: Timed, ttl: int, before: Ladder, id: CellId)
    requires id in Serve(next.world, ttl, before, next.read).1.rows
    ensures var mv := Serve(next.world, ttl, before, next.read).1.rows[id];
            || (id in before.rows && mv == before.rows[id])
            || StoredAt([next], ttl, 0, id, mv)
  {
    RefusedExactly(next.world, ttl, before, next.read);
    if !next.read.ctx.symbolic && !MayNot(next.read) {
      FetchedExactly(next.world, ttl, before, next.read);
    }
  }

  lemma AccountedNext(s: Ladder, trace: seq<Timed>, next: Timed, ttl: int, before: Ladder)
    requires AllAccounted(s, trace, ttl, before.rows)
    ensures AllAccounted(s, trace + [next], ttl, Serve(next.world, ttl, before, next.read).1.rows)
  {
    var (longer, rows) := (trace + [next], Serve(next.world, ttl, before, next.read).1.rows);
    forall id | id in rows
      ensures Accounted(s, longer, ttl, id, rows[id])
    {
      ServedRow(next, ttl, before, id);
      if id in before.rows && rows[id] == before.rows[id] {
        AccountedLonger(s, trace, next, ttl, id, rows[id]);
      } else {
        assert longer[|trace|] == next && StoredAt(longer, ttl, |trace|, id, rows[id]);
      }
    }
  }

  lemma RunOverNext(ttl: int, s: Ladder, trace: seq<Timed>, next: Timed)
    ensures RunOver(ttl, s, trace + [next]).1 == Serve(next.world, ttl, RunOver(ttl, s, trace).1, next.read).1
  {
    assert (trace + [next])[..|trace|] == trace;
  }

  lemma {:induction false} RunAccounted(s: Ladder, trace: seq<Timed>, ttl: int)
    ensures AllAccounted(s, trace, ttl, RunOver(ttl, s, trace).1.rows)
  {
    if trace != [] {
      var n := |trace| - 1;
      RunAccounted(s, trace[..n], ttl);
      AccountedNext(s, trace[..n], trace[n], ttl, RunOver(ttl, s, trace[..n]).1);
      RunOverNext(ttl, s, trace[..n], trace[n]);
      assert trace == trace[..n] + [trace[n]];
    }
  }

  /** `v` is what the source says at read `i`, or what it said to an earlier read of the cell in the run,
      less than a time-to-live before, or stood in the cache to begin with and has not run out. */
  ghost predicate Recent(s: Ladder, trace: seq<Timed>, ttl: int, i: nat, v: string)
    requires i < |trace|
  {
    var r := trace[i].read;
    || ReadValue(trace[i].world, r.ref) == Ok(v)
    || (Current(s.rows, r.cellId, r.now) && s.rows[r.cellId].value == v)
    || exists j: nat, mv :: StoredBefore(trace, ttl, j, i, mv) && mv.value == v
  }

  /** Read `j` stored the row for the cell of the later read `i`, less than a time-to-live before. */
  ghost predicate StoredBefore(trace: seq<Timed>, ttl: int, j: nat, i: nat, mv: MaterialisedValue)
    requires i < |trace|
  {
    j < i && StoredAt(trace, ttl, j, trace[i].read.cellId, mv) && trace[i].read.now < trace[j].read.now + ttl
  }

  lemma ServedNow(s: Ladder, trace: seq<Timed>, ttl: int)
    requires trace != []
    ensures var n := |trace| - 1;
            var before := RunOver(ttl, s, trace[..n]).1;
            RunOver(ttl, s, trace).0[n] == Serve(trace[n].world, ttl, before, trace[n].read).0
  {
  }

  lemma LastIsRecent(s: Ladder, trace: seq<Timed>, ttl: int)
    requires trace != []
    ensures var n := |trace| - 1;
            var served := RunOver(ttl, s, trace).0[n];
            served.Value? ==> Recent(s, trace, ttl, n, served.value)
  {
    var n := |trace| - 1;
    var (before, r) := (RunOver(ttl, s, trace[..n]).1, trace[n].read);
    RunAccounted(s, trace[..n], ttl);
    ServedNow(s, trace, ttl);
    RefusedExactly(trace[n].world, ttl, before, r);
    if !r.ctx.symbolic && !MayNot(r) {
      FetchedExactly(trace[n].world, ttl, before, r);
      if Current(before.rows, r.cellId, r.now) && !(r.cellId in s.rows && before.rows[r.cellId] == s.rows[r.cellId]) {
        var j: nat :| StoredAt(trace[..n], ttl, j, r.cellId, before.rows[r.cellId]);
        assert trace[..n][j] == trace[j] && StoredBefore(trace, ttl, j, n, before.rows[r.cellId]);
      }
    }
  }

  /** However the source changes between the reads of a run, no value is served that is older than its
      time-to-live, nor any that the source did not say. */
  lemma {:induction false} StalenessBounded(s: Ladder, trace: seq<Timed>, ttl: int, i: nat)
    requires i < |trace|
    ensures var served := RunOver(ttl, s, trace).0[i]; served.Value? ==> Recent(s, trace, ttl, i, served.value)
  {
    var n := |trace| - 1;
    if i == n {
      LastIsRecent(s, trace, ttl);
    } else {
      StalenessBounded(s, trace[..n], ttl, i);
      assert RunOver(ttl, s, trace).0[i] == RunOver(ttl, s, trace[..n]).0[i];
      if RunOver(ttl, s, trace).0[i].Value? {
        RecentLonger(s, trace, ttl, i, RunOver(ttl, s, trace).0[i]);
      }
    }
  }

  lemma RecentLonger(s: Ladder, trace: seq<Timed>, ttl: int, i: nat, served: Served)
    requires i < |trace| - 1 && served.Value? && Recent(s, trace[..|trace| - 1], ttl, i, served.value)
    ensures Recent(s, trace, ttl, i, served.value)
  {
    var (shorter, r, v) := (trace[..|trace| - 1], trace[i].read, served.value);
    assert shorter[i] == trace[i];
    if exists j: nat, mv :: StoredBefore(shorter, ttl, j, i, mv) && mv.value == v {
      var j: nat, mv :| StoredBefore(shorter, ttl, j, i, mv) && mv.value == v;
      assert shorter[j] == trace[j] && StoredBefore(trace, ttl, j, i, mv);
    }
  }
}
