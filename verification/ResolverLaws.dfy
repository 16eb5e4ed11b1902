/** What resolution means: the component of the first candidate, whatever the order and the memory. */
module ResolverLaws {
  import opened Contract
  import opened Connectivity
  import opened Matching
  import opened MatchingLaws
  import opened Resolver
  import Dicts
  import Fetch
  import Overlay
  import Scan

  /** The pairs of candidates that pass both tests, without regard to any order. */
  ghost function SameEdges(m: Matcher, says: Scan.Opinion, recs: Scan.Records): Edges {
    set a, b | a in recs && b in recs && Scan.Same(m, says, recs[a], recs[b]) :: (a, b)
  }

  ghost predicate Symmetric(m: Matcher, says: Scan.Opinion) {
    && (forall a, b :: m.similarity(a, b) == m.similarity(b, a))
    && (forall a, b :: says(a, b) == says(b, a))
  }

  lemma SameSymmetric(m: Matcher, says: Scan.Opinion, a: Record, b: Record)
    requires Symmetric(m, says)
    ensures Scan.Same(m, says, a, b) == Scan.Same(m, says, b, a)
  {
    assert OrgTokens(m, a.org) * OrgTokens(m, b.org) == OrgTokens(m, b.org) * OrgTokens(m, a.org);
  }

  /** The keys of a dictionary of candidates, with their records. */
  ghost predicate Listed(keys: seq<RowKey>, recs: Scan.Records) {
    (forall k :: k in keys <==> k in recs) && forall x, y :: 0 <= x < y < |keys| ==> keys[x] != keys[y]
  }

  lemma ListedCandidates(d: Dicts.Dict<Candidate>)
    requires Dicts.IsDict(d)
    ensures Listed(d.keys, Records(d))
  {
  }

  /** A scan that follows an opinion links exactly what the opinion's own edges link. */
  lemma ScanLinks(
    m: Matcher, keys: seq<RowKey>, recs: Scan.Records, says: Scan.Opinion, judge: Judge, a: RowKey, b: RowKey)
    requires Listed(keys, recs) && Symmetric(m, says)
    requires Scan.Follows(m, keys, recs, 0, 1, says, Scan.State(judge, {}), Scan.ScanAll(m, keys, recs, judge))
    ensures Linked(Scan.ScanAll(m, keys, recs, judge).edges, a, b) <==> Linked(SameEdges(m, says, recs), a, b)
  {
    var scanned, same := Scan.ScanAll(m, keys, recs, judge).edges, SameEdges(m, says, recs);
    forall x, y | (x, y) in scanned
      ensures Linked(same, x, y)
    {
      assert Scan.PairAhead(m, keys, recs, 0, 1, says, x, y);
      LinkedStep(same, x, y);
    }
    forall x, y | (x, y) in same
      ensures Linked(scanned, x, y)
    {
      SameEdgeScanned(m, keys, recs, says, judge, x, y);
    }
    if Linked(scanned, a, b) {
      LinkedIn(scanned, same, a, b);
    }
    if Linked(same, a, b) {
      LinkedIn(same, scanned, a, b);
    }
  }

  lemma SameEdgeScanned(
    m: Matcher, keys: seq<RowKey>, recs: Scan.Records, says: Scan.Opinion, judge: Judge, a: RowKey, b: RowKey)
    requires Listed(keys, recs) && Symmetric(m, says)
    requires Scan.Follows(m, keys, recs, 0, 1, says, Scan.State(judge, {}), Scan.ScanAll(m, keys, recs, judge))
    requires (a, b) in SameEdges(m, says, recs)
    ensures Linked(Scan.ScanAll(m, keys, recs, judge).edges, a, b)
  {
    var scanned := Scan.ScanAll(m, keys, recs, judge).edges;
    var x: nat :| x < |keys| && keys[x] == a;
    var y: nat :| y < |keys| && keys[y] == b;
    SameSymmetric(m, says, recs[a], recs[b]);
    if x < y {
      assert Scan.Ahead(keys, 0, 1, x, y);
      assert Scan.PairAhead(m, keys, recs, 0, 1, says, a, b);
      LinkedStep(scanned, a, b);
    } else if y < x {
      assert Scan.Ahead(keys, 0, 1, y, x);
      assert Scan.PairAhead(m, keys, recs, 0, 1, says, b, a);
      LinkedStep(scanned, b, a);
      LinkedSym(scanned, b, a);
    } else {
      LinkedRefl(scanned, a);
    }
  }

  ghost function Members(m: Matcher, d: Dicts.Dict<Candidate>, judge: Judge): seq<RowKey>
    requires Dicts.IsDict(d) && d.keys != []
  {
    Component(d.keys, Scan.ScanAll(m, d.keys, Records(d), judge).edges, d.keys[0])
  }

  // ---- exactly the chain-connected candidates ----

  /** Whatever the adjudicator answers and when: an allowed resolution of at least one candidate that
      can be identified finds exactly the candidates chained to the first by pairs that passed both
      tests in their turn, with their references. */
  lemma ResolvesExactly(
    m: Matcher, w: Fetch.World, cells: seq<Cell>, refs: seq<Reference>, judge: Judge, k: RowKey)
    requires Candidates(w, cells, refs).Ok? && refs != []
    ensures var d := Candidates(w, cells, refs).value;
            var (attempt, after) := Try(m, w, cells, true, refs, judge);
            var scanned := Scan.ScanAll(m, d.keys, Records(d), judge);
            && d.keys != [] && attempt.Found? && after == scanned.judge
            && (k in attempt.component <==> k in d.at && Linked(scanned.edges, k, d.keys[0]))
            && attempt.refs == RefsOf(d, attempt.component)
            && forall a, b :: (a, b) in scanned.edges <==>
                 Scan.PassesAhead(m, d.keys, Records(d), 0, 1, Scan.State(judge, {}), a, b)
  {
    var d := Candidates(w, cells, refs).value;
    SomeKey(w, cells, refs);
    var scanned := Scan.ScanAll(m, d.keys, Records(d), judge);
    ComponentExact(d.keys, scanned.edges, d.keys[0], k);
    forall a, b
      ensures (a, b) in scanned.edges <==> Scan.PassesAhead(m, d.keys, Records(d), 0, 1, Scan.State(judge, {}), a, b)
    {
      Scan.EdgesExactly(m, d.keys, Records(d), 0, 1, Scan.State(judge, {}), a, b);
    }
  }

  lemma SomeKey(w: Fetch.World, cells: seq<Cell>, refs: seq<Reference>)
    requires Candidates(w, cells, refs).Ok? && refs != []
    ensures Candidates(w, cells, refs).value.keys != []
  {
  }

  /** With an adjudicator that always answers alike: a candidate is a member exactly when a chain of
      pairs, each passing both tests, links it to the first. */
  lemma MembersExactly(m: Matcher, f: Scan.Fixed, d: Dicts.Dict<Candidate>, judge: Judge, k: RowKey)
    requires Dicts.IsDict(d) && d.keys != []
    requires Scan.IsFixed(m, f) && Scan.MemoOf(f, judge) && Symmetric(m, Scan.SaysOf(f))
    ensures k in Members(m, d, judge) <==>
            k in d.at && Linked(SameEdges(m, Scan.SaysOf(f), Records(d)), k, d.keys[0])
  {
    ListedCandidates(d);
    Scan.ScanFixed(m, f, d.keys, Records(d), 0, 1, Scan.State(judge, {}));
    ScanLinks(m, d.keys, Records(d), Scan.SaysOf(f), judge, k, d.keys[0]);
    ComponentExact(d.keys, Scan.ScanAll(m, d.keys, Records(d), judge).edges, d.keys[0], k);
  }

  /** With any adjudicator that did not fail, however its answers vary: the chains are those of the
      verdicts in memory afterwards. */
  lemma MembersAsRemembered(m: Matcher, d: Dicts.Dict<Candidate>, judge: Judge, k: RowKey)
    requires Dicts.IsDict(d) && d.keys != [] && Sound(judge)
    requires forall a, b :: m.similarity(a, b) == m.similarity(b, a)
    requires Scan.NoFailures(judge, Scan.ScanAll(m, d.keys, Records(d), judge).judge)
    ensures var memo := Scan.ScanAll(m, d.keys, Records(d), judge).judge.memo;
            k in Members(m, d, judge) <==>
            k in d.at && Linked(SameEdges(m, Scan.SaysMemo(memo), Records(d)), k, d.keys[0])
  {
    ListedCandidates(d);
    var says := Scan.SaysMemo(Scan.ScanAll(m, d.keys, Records(d), judge).judge.memo);
    forall a, b
      ensures says(a, b) == says(b, a)
    {
      PairKeySymmetric(a, b);
    }
    Scan.ScanSettles(m, d.keys, Records(d), 0, 1, Scan.State(judge, {}));
    ScanLinks(m, d.keys, Records(d), says, judge, k, d.keys[0]);
    ComponentExact(d.keys, Scan.ScanAll(m, d.keys, Records(d), judge).edges, d.keys[0], k);
  }

  // ---- order of the candidates ----

  ghost predicate AllIdentified(w: Fetch.World, cells: seq<Cell>, refs: seq<Reference>) {
    forall i {:trigger refs[i]} :: 0 <= i < |refs| ==> CandidateOf(w, cells, refs[i]).Ok?
  }

  /** Each reference's row key and candidate, in order. */
  ghost function Filed(w: Fetch.World, cells: seq<Cell>, refs: seq<Reference>): (pairs: seq<(RowKey, Candidate)>)
    requires AllIdentified(w, cells, refs)
    ensures |pairs| == |refs| && forall i :: 0 <= i < |refs| ==> pairs[i] == CandidateOf(w, cells, refs[i]).value
  {
    seq(|refs|, i requires 0 <= i < |refs| => CandidateOf(w, cells, refs[i]).value)
  }

  lemma FiledNext(w: Fetch.World, cells: seq<Cell>, refs: seq<Reference>)
    requires AllIdentified(w, cells, refs) && refs != []
    ensures AllIdentified(w, cells, refs[..|refs| - 1]) && CandidateOf(w, cells, refs[|refs| - 1]).Ok?
    ensures Filed(w, cells, refs) ==
            Filed(w, cells, refs[..|refs| - 1]) + [CandidateOf(w, cells, refs[|refs| - 1]).value]
  {
    assert forall i :: 0 <= i < |refs| - 1 ==> refs[..|refs| - 1][i] == refs[i];
  }

  /** Candidates that can each be identified are filed in turn: a repeated row key takes its last
      reference. */
  lemma {:induction false} CandidatesFiled(w: Fetch.World, cells: seq<Cell>, refs: seq<Reference>)
    requires AllIdentified(w, cells, refs)
    ensures Candidates(w, cells, refs) == Ok(Dicts.SetAll(Filed(w, cells, refs)))
  {
    if refs != [] {
      FiledNext(w, cells, refs);
      CandidatesFiled(w, cells, refs[..|refs| - 1]);
      CandidatesNext(w, cells, refs);
      var (rowKey, candidate) := CandidateOf(w, cells, refs[|refs| - 1]).value;
      Dicts.SetAllNext(Filed(w, cells, refs[..|refs| - 1]), rowKey, candidate);
    }
  }

  lemma CandidatesNext(w: Fetch.World, cells: seq<Cell>, refs: seq<Reference>)
    requires refs != [] && Candidates(w, cells, refs[..|refs| - 1]).Ok? && CandidateOf(w, cells, refs[|refs| - 1]).Ok?
    ensures var (rowKey, candidate) := CandidateOf(w, cells, refs[|refs| - 1]).value;
            var before := Candidates(w, cells, refs[..|refs| - 1]).value;
            Candidates(w, cells, refs) == Ok(Dicts.Set(before, rowKey, candidate))
  {
  }

  /** With distinct row keys, reordering the candidates changes only the order of the keys. */
  lemma CandidatesPermuted(w: Fetch.World, cells: seq<Cell>, refs: seq<Reference>, refs': seq<Reference>)
    requires AllIdentified(w, cells, refs) && forall ref :: ref in refs <==> ref in refs'
    requires forall i, j :: 0 <= i < |refs| && 0 <= j < |refs|
               && Filed(w, cells, refs)[i].0 == Filed(w, cells, refs)[j].0
               ==> refs[i] == refs[j]
    ensures Candidates(w, cells, refs).Ok? && Candidates(w, cells, refs').Ok?
    ensures Candidates(w, cells, refs).value.at == Candidates(w, cells, refs').value.at
  {
    IdentifiedAlike(w, cells, refs, refs');
    CandidatesFiled(w, cells, refs);
    CandidatesFiled(w, cells, refs');
    FiledAlike(w, cells, refs, refs');
    FiledAlike(w, cells, refs', refs);
    FiledOnce(w, cells, refs);
    Dicts.SetAllPermuted(Filed(w, cells, refs), Filed(w, cells, refs'));
  }

  lemma FiledOnce(w: Fetch.World, cells: seq<Cell>, refs: seq<Reference>)
    requires AllIdentified(w, cells, refs)
    requires forall i, j :: 0 <= i < |refs| && 0 <= j < |refs|
               && Filed(w, cells, refs)[i].0 == Filed(w, cells, refs)[j].0
               ==> refs[i] == refs[j]
    ensures forall p, q :: p in Filed(w, cells, refs) && q in Filed(w, cells, refs) && p.0 == q.0 ==> p == q
  {
  }

  lemma IdentifiedAlike(w: Fetch.World, cells: seq<Cell>, refs: seq<Reference>, refs': seq<Reference>)
    requires AllIdentified(w, cells, refs) && forall ref :: ref in refs' ==> ref in refs
    ensures AllIdentified(w, cells, refs')
  {
    forall i | 0 <= i < |refs'|
      ensures CandidateOf(w, cells, refs'[i]).Ok?
    {
      assert refs'[i] in refs;
    }
  }

  lemma FiledAlike(w: Fetch.World, cells: seq<Cell>, refs: seq<Reference>, refs': seq<Reference>)
    requires AllIdentified(w, cells, refs) && AllIdentified(w, cells, refs')
    requires forall ref :: ref in refs ==> ref in refs'
    ensures forall p :: p in Filed(w, cells, refs) ==> p in Filed(w, cells, refs')
  {
    forall i | 0 <= i < |refs|
      ensures Filed(w, cells, refs)[i] in Filed(w, cells, refs')
    {
      assert refs[i] in refs';
      var j :| 0 <= j < |refs'| && refs'[j] == refs[i];
      assert Filed(w, cells, refs')[j] == Filed(w, cells, refs)[i];
    }
  }

  /** The members do not depend on the order of the candidates, nor on what is remembered, as long as
      the first stays within the component. */
  lemma OrderIndependent(
    m: Matcher, f: Scan.Fixed, d: Dicts.Dict<Candidate>, d': Dicts.Dict<Candidate>, judge: Judge, judge': Judge,
    k: RowKey)
    requires Dicts.IsDict(d) && Dicts.IsDict(d') && d.keys != [] && d'.keys != [] && d.at == d'.at
    requires Scan.IsFixed(m, f) && Scan.MemoOf(f, judge) && Scan.MemoOf(f, judge') && Symmetric(m, Scan.SaysOf(f))
    requires d'.keys[0] in Members(m, d, judge)
    ensures k in Members(m, d, judge) <==> k in Members(m, d', judge')
  {
    var same, first, first' := SameEdges(m, Scan.SaysOf(f), Records(d)), d.keys[0], d'.keys[0];
    MembersExactly(m, f, d, judge, k);
    MembersExactly(m, f, d', judge', k);
    MembersExactly(m, f, d, judge, first');
    assert Records(d) == Records(d');
    if Linked(same, k, first) {
      LinkedSym(same, first', first);
      LinkedTrans(same, k, first, first');
    }
    if Linked(same, k, first') {
      LinkedTrans(same, k, first', first);
    }
  }

  /** Reordering the candidates of a resolution does not change its members, as long as the one that
      now comes first is among them. */
  lemma ReorderedResolve(
    m: Matcher, f: Scan.Fixed, w: Fetch.World, cells: seq<Cell>, refs: seq<Reference>, refs': seq<Reference>,
    judge: Judge, judge': Judge, k: RowKey)
    requires refs != [] && refs' != [] && AllIdentified(w, cells, refs) && forall ref :: ref in refs <==> ref in refs'
    requires forall i, j :: 0 <= i < |refs| && 0 <= j < |refs|
               && Filed(w, cells, refs)[i].0 == Filed(w, cells, refs)[j].0
               ==> refs[i] == refs[j]
    requires Scan.IsFixed(m, f) && Scan.MemoOf(f, judge) && Scan.MemoOf(f, judge') && Symmetric(m, Scan.SaysOf(f))
    requires var (attempt, first) :=
               (Try(m, w, cells, true, refs, judge).0, CandidateOf(w, cells, refs'[0]));
             first.Ok? && attempt.Found? && first.value.0 in attempt.component
    ensures var (attempt, attempt') := (Try(m, w, cells, true, refs, judge).0, Try(m, w, cells, true, refs', judge').0);
            attempt'.Found? && (k in attempt.component <==> k in attempt'.component)
  {
    CandidatesPermuted(w, cells, refs, refs');
    var (d, d') := (Candidates(w, cells, refs).value, Candidates(w, cells, refs').value);
    SomeKey(w, cells, refs);
    SomeKey(w, cells, refs');
    FirstKey(w, cells, refs');
    OrderIndependent(m, f, d, d', judge, judge', k);
  }

  /** The first key is that of the first candidate. */
  lemma {:induction false} FirstKey(w: Fetch.World, cells: seq<Cell>, refs: seq<Reference>)
    requires refs != [] && Candidates(w, cells, refs).Ok?
    ensures Candidates(w, cells, refs).value.keys != []
    ensures CandidateOf(w, cells, refs[0]).Ok?
    ensures Candidates(w, cells, refs).value.keys[0] == CandidateOf(w, cells, refs[0]).value.0
  {
    if |refs| > 1 {
      FirstKey(w, cells, refs[..|refs| - 1]);
    }
  }

  // ---- adjudicators that fail ----

  /** Whatever calls fail, a verdict that is remembered is that of the adjudicator that never fails. */
  lemma RememberedIsSame(m: Matcher, f: Scan.Fixed, m': Matcher, memo: map<TextPair, Verdict>, a: Record, b: Record)
    requires m' == m.(answer := m'.answer) && (forall x, y :: f(x, y) == f(y, x))
    requires forall key :: key in memo ==> f(key.0, key.1) == Some(memo[key])
    ensures Scan.Same(m', Scan.SaysMemo(memo), a, b) ==> Scan.Same(m, Scan.SaysOf(f), a, b)
  {
    assert OrgTokens(m', a.org) == OrgTokens(m, a.org) && OrgTokens(m', b.org) == OrgTokens(m, b.org);
    var (ta, tb) := (TextOf(a), TextOf(b));
    assert f(ta, tb) == f(tb, ta);
  }

  /** An adjudicator that fails more often, at whichever calls, can only lose members: it may fail on a
      pair of texts and later answer, since no failure is remembered. */
  lemma FailuresOnlyShrink(
    m: Matcher, f: Scan.Fixed, m': Matcher, d: Dicts.Dict<Candidate>, judge: Judge, judge': Judge, k: RowKey)
    requires Dicts.IsDict(d) && d.keys != [] && m' == m.(answer := m'.answer)
    requires Scan.IsFixed(m, f) && Scan.MemoOf(f, judge) && Symmetric(m, Scan.SaysOf(f))
    requires Scan.AnswersLike(m', f) && Scan.MemoOf(f, judge') && Sound(judge')
    requires k in Members(m', d, judge')
    ensures k in Members(m, d, judge)
  {
    var (recs, start) := (Records(d), Scan.State(judge', {}));
    var scanned := Scan.ScanAll(m', d.keys, recs, judge');
    var all := SameEdges(m, Scan.SaysOf(f), recs);
    Scan.ScanKeepsMemo(m', f, d.keys, recs, 0, 1, start);
    forall a, b | (a, b) in scanned.edges
      ensures Linked(all, a, b)
    {
      Scan.EdgesGrounded(m', d.keys, recs, 0, 1, start, a, b);
      RememberedIsSame(m, f, m', scanned.judge.memo, recs[a], recs[b]);
      LinkedStep(all, a, b);
    }
    ComponentExact(d.keys, scanned.edges, d.keys[0], k);
    LinkedIn(scanned.edges, all, k, d.keys[0]);
    MembersExactly(m, f, d, judge, k);
  }

  // ---- what callers share ----

  lemma SharedScan(m: Matcher, recs: Scan.Records, a: RowKey, b: RowKey, judge: Judge)
    requires a in recs && b in recs && SameBlock(m, recs[a], recs[b])
    ensures Scan.ScanAll(m, [a, b], recs, judge) == Scan.PairStep(m, recs, a, b, Scan.State(judge, {}))
  {
    var keys, next := [a, b], Scan.PairStep(m, recs, a, b, Scan.State(judge, {}));
    assert Scan.ScanFrom(m, keys, recs, 2, 3, next) == next;
    assert Scan.ScanFrom(m, keys, recs, 1, 2, next) == next;
    assert Scan.ScanFrom(m, keys, recs, 0, 2, next) == next;
  }

  lemma NoEdgesNoLink(a: RowKey, b: RowKey)
    requires a != b
    ensures !Linked({}, a, b)
  {
    var apart := map[a := a, b := b];
    LinkedRefl({}, a);
    LinkedRefl({}, b);
    LabelsExact({}, apart, a, b);
  }

  /** The members of two candidates in the middle band, by what the memory says of their texts. */
  lemma MembersOfTwo(m: Matcher, d: Dicts.Dict<Candidate>, judge: Judge, a: RowKey, b: RowKey)
    requires Dicts.IsDict(d) && d.keys == [a, b] && a != b
    requires SameBlock(m, d.at[a].record, d.at[b].record) && BandOf(m, d.at[a].record, d.at[b].record) == Flag
    ensures b in Members(m, d, judge) <==> Ask(m, judge, TextOf(d.at[a].record), TextOf(d.at[b].record)).0.same
  {
    var recs := Records(d);
    SharedScan(m, recs, a, b, judge);
    var edges := Scan.ScanAll(m, d.keys, recs, judge).edges;
    ComponentExact(d.keys, edges, a, b);
    if (a, b) in edges {
      LinkedStep(edges, b, a);
    } else {
      assert edges == {};
      NoEdgesNoLink(b, a);
    }
  }

  lemma UnblockedScan(m: Matcher, recs: Scan.Records, a: RowKey, b: RowKey, judge: Judge)
    requires a in recs && b in recs && !SameBlock(m, recs[a], recs[b])
    ensures Scan.ScanAll(m, [a, b], recs, judge) == Scan.State(judge, {})
  {
    var (keys, s) := ([a, b], Scan.State(judge, {}));
    assert Scan.ScanFrom(m, keys, recs, 2, 3, s) == s;
    assert Scan.ScanFrom(m, keys, recs, 1, 2, s) == s;
    assert Scan.ScanFrom(m, keys, recs, 0, 2, s) == s;
  }

  /** Of two candidates, the second is a member exactly when they are blocked together, by a shared token or a
      shared initial, and share an email, or are like enough, or are not too unlike and the verdict is yes. */
  lemma SecondIsMemberExactly(m: Matcher, d: Dicts.Dict<Candidate>, judge: Judge, a: RowKey, b: RowKey)
    requires Dicts.IsDict(d) && d.keys == [a, b] && a != b
    ensures var (ra, rb) := (d.at[a].record, d.at[b].record);
            var s := m.similarity(ra.name + " | " + ra.org, rb.name + " | " + rb.org);
            b in Members(m, d, judge) <==>
              && (SharesToken(m, ra, rb) || SharesInitial(m, ra, rb))
              && (SharesEmail(m, ra, rb) || s >= m.high
                  || (m.low <= s && SaysYes(m, judge, ra.name + " | " + ra.org, rb.name + " | " + rb.org)))
  {
    var (recs, ra, rb) := (Records(d), d.at[a].record, d.at[b].record);
    BlockExactly(m, ra, rb);
    MatchExactly(m, judge, ra, rb);
    if SameBlock(m, ra, rb) {
      SharedScan(m, recs, a, b, judge);
    } else {
      UnblockedScan(m, recs, a, b, judge);
    }
    var edges := Scan.ScanAll(m, d.keys, recs, judge).edges;
    ComponentExact(d.keys, edges, a, b);
    if (a, b) in edges {
      LinkedStep(edges, b, a);
    } else {
      assert edges == {};
      NoEdgesNoLink(b, a);
    }
  }

  /** The memory is shared by all callers of a resolver, and it shows in what another caller resolves of two
      such candidates exactly when what it holds of them is not what the adjudicator would answer now. */
  lemma MemoryShowsExactly(m: Matcher, d: Dicts.Dict<Candidate>, judge: Judge, a: RowKey, b: RowKey)
    requires Dicts.IsDict(d) && d.keys == [a, b] && a != b
    requires SameBlock(m, d.at[a].record, d.at[b].record) && BandOf(m, d.at[a].record, d.at[b].record) == Flag
    ensures var (ta, tb) := (TextOf(d.at[a].record), TextOf(d.at[b].record));
            var now := m.answer(|judge.calls|, ta, tb);
            (b in Members(m, d, judge) <==> b in Members(m, d, Judge(map[], judge.calls))) <==>
            (PairKey(ta, tb) in judge.memo ==> judge.memo[PairKey(ta, tb)].same == (now.Some? && now.value.same))
  {
    MembersOfTwo(m, d, judge, a, b);
    MembersOfTwo(m, d, Judge(map[], judge.calls), a, b);
  }

  /** So it can: an adjudicator says yes to a first caller and would say no to a second, who is given the
      first one's verdict. */
  lemma OthersVerdictDecides() returns (m: Matcher, d: Dicts.Dict<Candidate>, judge: Judge, b: RowKey)
    ensures Dicts.IsDict(d) && d.keys != []
    ensures judge == Scan.ScanAll(m, d.keys, Records(d), Judge(map[], [])).judge
    ensures b in Members(m, d, judge) && b !in Members(m, d, Judge(map[], judge.calls))
  {
    var (yes, no) := (Verdict(true, ""), Verdict(false, ""));
    m := Matcher(s => s, (x, y) => 0.5, 0.9, 0.1, (n, x, y) => Some(if n == 0 then yes else no));
    var someone := Candidate(Reference("", "", ""), Record("A", "", ""));
    d := Dicts.Dict(["a", "b"], map["a" := someone, "b" := someone]);
    b := "b";
    assert SameBlock(m, someone.record, someone.record) && BandOf(m, someone.record, someone.record) == Flag;
    judge := Scan.ScanAll(m, d.keys, Records(d), Judge(map[], [])).judge;
    SharedScan(m, Records(d), "a", "b", Judge(map[], []));
    MembersOfTwo(m, d, judge, "a", "b");
    MembersOfTwo(m, d, Judge(map[], judge.calls), "a", "b");
  }

  // ---- repetition ----

  /** Repeating an allowed resolution that met no failure, on unchanged data and any time later, asks
      nobody and finds the same members. */
  lemma RepeatedTry(
    m: Matcher, w: Fetch.World, cells: seq<Cell>, refs: seq<Reference>, judge: Judge, later: Judge)
    requires Sound(judge)
    requires var (attempt, judge') := Try(m, w, cells, true, refs, judge);
             attempt.Found? && Scan.NoFailures(judge, judge') && Extends(judge', later)
    ensures Try(m, w, cells, true, refs, later) == (Try(m, w, cells, true, refs, judge).0, later)
  {
    var d := Candidates(w, cells, refs).value;
    Scan.RepeatedScan(m, d.keys, Records(d), judge, later);
  }

  lemma FoundNotEmpty(m: Matcher, w: Fetch.World, cells: seq<Cell>, refs: seq<Reference>, judge: Judge)
    requires Try(m, w, cells, true, refs, judge).0.Found?
    ensures Try(m, w, cells, true, refs, judge).0.component != []
  {
    var d := Candidates(w, cells, refs).value;
    var edges := Scan.ScanAll(m, d.keys, Records(d), judge).edges;
    LinkedRefl(edges, d.keys[0]);
    ComponentExact(d.keys, edges, d.keys[0], d.keys[0]);
  }

  /** And at once, it gives the same id and leaves the overlay as it is. */
  lemma RepeatedResolve(
    m: Matcher, w: Fetch.World, cells: seq<Cell>, refs: seq<Reference>, judge: Judge, overlay: Overlay.Grouping)
    requires Sound(judge)
    requires var (attempt, judge') := Try(m, w, cells, true, refs, judge);
             attempt.Found? && Scan.NoFailures(judge, judge')
    ensures var (attempt, judge') := Try(m, w, cells, true, refs, judge);
            var after := Overlay.Merge(overlay, attempt.component);
            && Try(m, w, cells, true, refs, judge') == (attempt, judge')
            && Overlay.MergeId(after, attempt.component) == Overlay.MergeId(overlay, attempt.component)
            && Overlay.Merge(after, attempt.component) == after
  {
    var (attempt, judge') := Try(m, w, cells, true, refs, judge);
    RepeatedTry(m, w, cells, refs, judge, judge');
    FoundNotEmpty(m, w, cells, refs, judge);
    Overlay.MergeAgain(overlay, attempt.component);
  }

  // ---- every sequence of resolutions ----

  /** One call of `resolve`: the data as they are by then, the gate's answer, and the candidates. */
  datatype Step = Step(world: Fetch.World, cells: seq<Cell>, allowed: bool, refs: seq<Reference>)

  ghost function TryStep(m: Matcher, step: Step, judge: Judge): (Attempt, Judge) {
    Try(m, step.world, step.cells, step.allowed, step.refs, judge)
  }

  /** What one resolver remembers after any calls, by whomever, on whatever data; a call that is refused
      or raises does not end the sequence. */
  ghost function AfterSteps(m: Matcher, steps: seq<Step>, judge: Judge): Judge {
    if steps == [] then
      judge
    else
      var n := |steps| - 1;
      TryStep(m, steps[n], AfterSteps(m, steps[..n], judge)).1
  }

  lemma TryKeepsSound(
    m: Matcher, w: Fetch.World, cells: seq<Cell>, allowed: bool, refs: seq<Reference>, judge: Judge)
    requires Sound(judge)
    ensures Sound(Try(m, w, cells, allowed, refs, judge).1) && Extends(judge, Try(m, w, cells, allowed, refs, judge).1)
  {
    if allowed {
      match Candidates(w, cells, refs)
      case Err(_) =>
      case Ok(d) =>
        if d.keys != [] {
          Scan.ScanKeepsSound(m, d.keys, Records(d), 0, 1, Scan.State(judge, {}));
        }
    }
  }

  lemma ExtendsTrans(a: Judge, b: Judge, c: Judge)
    requires Extends(a, b) && Extends(b, c)
    ensures Extends(a, c)
  {
  }

  /** Over any sequence of resolutions by one resolver: what was remembered stays, only given verdicts
      are remembered, and no pair of texts is decided twice. */
  lemma {:induction false} SequenceKeepsSound(m: Matcher, steps: seq<Step>, judge: Judge)
    requires Sound(judge)
    ensures Sound(AfterSteps(m, steps, judge)) && Extends(judge, AfterSteps(m, steps, judge))
  {
    if steps != [] {
      var n := |steps| - 1;
      var before := AfterSteps(m, steps[..n], judge);
      SequenceKeepsSound(m, steps[..n], judge);
      TryKeepsSound(m, steps[n].world, steps[n].cells, steps[n].allowed, steps[n].refs, before);
      ExtendsTrans(judge, before, AfterSteps(m, steps, judge));
    }
  }

  /** The lists that the calls merge into one overlay. */
  ghost function MergedBy(m: Matcher, steps: seq<Step>, judge: Judge): seq<seq<RowKey>> {
    if steps == [] then
      []
    else
      var n := |steps| - 1;
      var attempt := TryStep(m, steps[n], AfterSteps(m, steps[..n], judge)).0;
      MergedBy(m, steps[..n], judge) + if attempt.Found? then [attempt.component] else []
  }

  /** An allowed resolution that met no failure, repeated after any further calls along the same overlay:
      nobody is asked, the members are the same, and the overlay stays as it is. */
  lemma RepeatedAfterSteps(
    m: Matcher, w: Fetch.World, cells: seq<Cell>, refs: seq<Reference>, judge: Judge,
    history: seq<seq<RowKey>>, steps: seq<Step>)
    requires Sound(judge)
    requires var (attempt, judge') := Try(m, w, cells, true, refs, judge);
             attempt.Found? && Scan.NoFailures(judge, judge')
    ensures var (attempt, judge') := Try(m, w, cells, true, refs, judge);
            var later := AfterSteps(m, steps, judge');
            var overlay := Overlay.MergeAll(history + [attempt.component] + MergedBy(m, steps, judge'));
            && Try(m, w, cells, true, refs, later) == (attempt, later)
            && Overlay.Merge(overlay, attempt.component) == overlay
  {
    var (attempt, judge') := Try(m, w, cells, true, refs, judge);
    TryKeepsSound(m, w, cells, true, refs, judge);
    SequenceKeepsSound(m, steps, judge');
    RepeatedTry(m, w, cells, refs, judge, AfterSteps(m, steps, judge'));
    FoundNotEmpty(m, w, cells, refs, judge);
    Overlay.MergeAgainLater(history, attempt.component, MergedBy(m, steps, judge'));
  }

  /** The same for the groups of a prewarming, up to the first that raises. */
  lemma {:induction false} PrewarmKeepsSound(
    m: Matcher, w: Fetch.World, cells: seq<Cell>, ask: Asker, groups: seq<seq<Reference>>, judge: Judge)
    requires Sound(judge)
    ensures Sound(TryEach(m, w, cells, ask, groups, judge).judge)
    ensures Extends(judge, TryEach(m, w, cells, ask, groups, judge).judge)
  {
    if groups != [] {
      var n := |groups| - 1;
      PrewarmKeepsSound(m, w, cells, ask, groups[..n], judge);
      var before := TryEach(m, w, cells, ask, groups[..n], judge);
      TryKeepsSound(m, w, cells, GateOpen(ask.caller, ask.ctx, ask.clock(n).0), groups[n], before.judge);
      TryEachJudge(m, w, cells, ask, groups, judge);
      ExtendsTrans(judge, before.judge, TryEach(m, w, cells, ask, groups, judge).judge);
    }
  }

  lemma TryEachJudge(
    m: Matcher, w: Fetch.World, cells: seq<Cell>, ask: Asker, groups: seq<seq<Reference>>, judge: Judge)
    requires groups != []
    ensures var n := |groups| - 1;
            var before := TryEach(m, w, cells, ask, groups[..n], judge);
            var open := GateOpen(ask.caller, ask.ctx, ask.clock(n).0);
            TryEach(m, w, cells, ask, groups, judge).judge ==
            if before.raised.Some? then before.judge else Try(m, w, cells, open, groups[n], before.judge).1
  {
  }
}
