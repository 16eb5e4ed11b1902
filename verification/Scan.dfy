/** The pair loop of `resolve`: every two candidates in turn, blocked, matched and joined. */
module Scan {
  import opened Contract
  import opened Connectivity
  import opened Matching

  datatype State = State(judge: Judge, edges: set<(RowKey, RowKey)>)

  type Records = map<RowKey, Record>

  /** One pair: skipped unless blocked together, and an edge if it matches. */
  function PairStep(m: Matcher, recs: Records, a: RowKey, b: RowKey, s: State): State
    requires a in recs && b in recs
  {
    if !SameBlock(m, recs[a], recs[b]) then
      s
    else
      var (same, _, judge) := Match(m, s.judge, recs[a], recs[b]);
      State(judge, if same then s.edges + {(a, b)} else s.edges)
  }

  ghost predicate Known(keys: seq<RowKey>, recs: Records) {
    forall k :: k in keys ==> k in recs
  }

  /** The nested loops from the pair of positions `(i, k)` on. */
  function ScanFrom(m: Matcher, keys: seq<RowKey>, recs: Records, i: nat, k: nat, s: State): State
    requires Known(keys, recs)
    decreases |keys| - i, |keys| - k
  {
    if i >= |keys| then
      s
    else if k >= |keys| then
      ScanFrom(m, keys, recs, i + 1, i + 2, s)
    else
      ScanFrom(m, keys, recs, i, k + 1, PairStep(m, recs, keys[i], keys[k], s))
  }

  function ScanAll(m: Matcher, keys: seq<RowKey>, recs: Records, judge: Judge): State
    requires Known(keys, recs)
  {
    ScanFrom(m, keys, recs, 0, 1, State(judge, {}))
  }

  /** The pair of positions `(x, y)` is still to come at `(i, k)`. */
  ghost predicate Ahead(keys: seq<RowKey>, i: nat, k: nat, x: nat, y: nat) {
    x < y < |keys| && (i < x || (i == x && k <= y))
  }

  // ---- the adjudicator over a scan ----

  lemma PairStepKeepsSound(m: Matcher, recs: Records, a: RowKey, b: RowKey, s: State)
    requires a in recs && b in recs && Sound(s.judge)
    ensures Sound(PairStep(m, recs, a, b, s).judge)
    ensures Extends(s.judge, PairStep(m, recs, a, b, s).judge)
  {
    MatchKeepsSound(m, s.judge, recs[a], recs[b]);
  }

  /** Over any scan: verdicts are only added, never changed, and each pair of texts gets at most one. */
  lemma {:induction false} ScanKeepsSound(m: Matcher, keys: seq<RowKey>, recs: Records, i: nat, k: nat, s: State)
    requires Known(keys, recs) && Sound(s.judge)
    ensures Sound(ScanFrom(m, keys, recs, i, k, s).judge)
    ensures Extends(s.judge, ScanFrom(m, keys, recs, i, k, s).judge)
    decreases |keys| - i, |keys| - k
  {
    if i < |keys| {
      if k < |keys| {
        PairStepKeepsSound(m, recs, keys[i], keys[k], s);
        ScanKeepsSound(m, keys, recs, i, k + 1, PairStep(m, recs, keys[i], keys[k], s));
      } else {
        ScanKeepsSound(m, keys, recs, i + 1, i + 2, s);
      }
    }
  }

  // ---- which pairs become edges ----

  predicate Passes(m: Matcher, judge: Judge, a: Record, b: Record) {
    SameBlock(m, a, b) && Match(m, judge, a, b).0
  }

  /** What the scan from `(i, k)` has remembered when it comes to the pair `(x, y)`. */
  ghost function JudgeAt(m: Matcher, keys: seq<RowKey>, recs: Records, i: nat, k: nat, s: State, x: nat, y: nat): Judge
    requires Known(keys, recs) && Ahead(keys, i, k, x, y) && i < k
    decreases |keys| - i, |keys| - k
  {
    if i == x && k == y then
      s.judge
    else if k >= |keys| then
      JudgeAt(m, keys, recs, i + 1, i + 2, s, x, y)
    else
      JudgeAt(m, keys, recs, i, k + 1, PairStep(m, recs, keys[i], keys[k], s), x, y)
  }

  /** The pair `(a, b)` is still to come, and passes both tests when its turn comes. */
  ghost predicate PassesAhead(
    m: Matcher, keys: seq<RowKey>, recs: Records, i: nat, k: nat, s: State, a: RowKey, b: RowKey)
    requires Known(keys, recs) && i < k
  {
    exists x: nat, y: nat ::
      Ahead(keys, i, k, x, y) && keys[x] == a && keys[y] == b
      && Passes(m, JudgeAt(m, keys, recs, i, k, s, x, y), recs[a], recs[b])
  }

  lemma PassesAheadNext(m: Matcher, keys: seq<RowKey>, recs: Records, i: nat, k: nat, s: State, a: RowKey, b: RowKey)
    requires Known(keys, recs) && i < |keys| && i < k
    ensures PassesAhead(m, keys, recs, i, k, s, a, b) <==>
            if k < |keys| then
              PassesAhead(m, keys, recs, i, k + 1, PairStep(m, recs, keys[i], keys[k], s), a, b)
              || (keys[i] == a && keys[k] == b && Passes(m, s.judge, recs[a], recs[b]))
            else
              PassesAhead(m, keys, recs, i + 1, i + 2, s, a, b)
  {
    var (i', k', s') := if k < |keys| then (i, k + 1, PairStep(m, recs, keys[i], keys[k], s)) else (i + 1, i + 2, s);
    forall x: nat, y: nat
      ensures Ahead(keys, i, k, x, y) <==> (k < |keys| && x == i && y == k) || Ahead(keys, i', k', x, y)
      ensures Ahead(keys, i', k', x, y) ==>
                JudgeAt(m, keys, recs, i, k, s, x, y) == JudgeAt(m, keys, recs, i', k', s', x, y)
    {
    }
    if k < |keys| {
      assert Ahead(keys, i, k, i, k) && JudgeAt(m, keys, recs, i, k, s, i, k) == s.judge;
    }
  }

  /** For any adjudicator, whatever it answers and when: the edges are exactly the pairs that pass
      both tests in their turn. */
  lemma {:induction false} EdgesExactly(
    m: Matcher, keys: seq<RowKey>, recs: Records, i: nat, k: nat, s: State, a: RowKey, b: RowKey)
    requires Known(keys, recs) && i < k
    ensures (a, b) in ScanFrom(m, keys, recs, i, k, s).edges <==>
            (a, b) in s.edges || PassesAhead(m, keys, recs, i, k, s, a, b)
    decreases |keys| - i, |keys| - k
  {
    if i < |keys| {
      PassesAheadNext(m, keys, recs, i, k, s, a, b);
      if k < |keys| {
        var next := PairStep(m, recs, keys[i], keys[k], s);
        assert (a, b) in next.edges <==>
               (a, b) in s.edges || (keys[i] == a && keys[k] == b && Passes(m, s.judge, recs[a], recs[b]));
        EdgesExactly(m, keys, recs, i, k + 1, next, a, b);
      } else {
        EdgesExactly(m, keys, recs, i + 1, i + 2, s, a, b);
      }
    }
  }

  /** A judgement of the middle band that does not depend on when it is asked. */
  type Opinion = (string, string) -> bool

  /** The pair is one person, given an opinion on the middle band. */
  predicate Same(m: Matcher, says: Opinion, a: Record, b: Record) {
    && SameBlock(m, a, b)
    && match BandOf(m, a, b)
       case Auto => true
       case Reject => false
       case Flag => says(TextOf(a), TextOf(b))
  }

  /** Each pair from `(i, k)` on becomes an edge exactly when the opinion has it the same. */
  ghost predicate Follows(
    m: Matcher, keys: seq<RowKey>, recs: Records, i: nat, k: nat, says: Opinion, s: State, s': State)
    requires Known(keys, recs)
  {
    forall a, b :: (a, b) in s'.edges <==> (a, b) in s.edges || PairAhead(m, keys, recs, i, k, says, a, b)
  }

  ghost predicate PairAhead(
    m: Matcher, keys: seq<RowKey>, recs: Records, i: nat, k: nat, says: Opinion, a: RowKey, b: RowKey)
    requires Known(keys, recs)
  {
    exists x: nat, y: nat :: Ahead(keys, i, k, x, y) && keys[x] == a && keys[y] == b && Same(m, says, recs[a], recs[b])
  }

  lemma PairAheadNext(
    m: Matcher, keys: seq<RowKey>, recs: Records, i: nat, k: nat, says: Opinion, a: RowKey, b: RowKey)
    requires Known(keys, recs) && i < |keys| && i < k
    ensures PairAhead(m, keys, recs, i, k, says, a, b) <==>
            if k < |keys| then
              PairAhead(m, keys, recs, i, k + 1, says, a, b)
              || (keys[i] == a && keys[k] == b && Same(m, says, recs[a], recs[b]))
            else
              PairAhead(m, keys, recs, i + 1, i + 2, says, a, b)
  {
    if PairAhead(m, keys, recs, i, k, says, a, b) {
      var x: nat, y: nat :| Ahead(keys, i, k, x, y) && keys[x] == a && keys[y] == b && Same(m, says, recs[a], recs[b]);
      if k < |keys| {
        assert (x == i && y == k) || Ahead(keys, i, k + 1, x, y);
      } else {
        assert Ahead(keys, i + 1, i + 2, x, y);
      }
    }
    if k < |keys| {
      if keys[i] == a && keys[k] == b && Same(m, says, recs[a], recs[b]) {
        assert Ahead(keys, i, k, i, k);
      }
      if PairAhead(m, keys, recs, i, k + 1, says, a, b) {
        var x: nat, y: nat :| Ahead(keys, i, k + 1, x, y) && keys[x] == a && keys[y] == b
          && Same(m, says, recs[a], recs[b]);
        assert Ahead(keys, i, k, x, y);
      }
    } else if PairAhead(m, keys, recs, i + 1, i + 2, says, a, b) {
      var x: nat, y: nat :| Ahead(keys, i + 1, i + 2, x, y) && keys[x] == a && keys[y] == b
        && Same(m, says, recs[a], recs[b]);
      assert Ahead(keys, i, k, x, y);
    }
  }

  /** One turn of the scan that follows an opinion, and the rest that does, follow it together. */
  lemma FollowsNext(
    m: Matcher, keys: seq<RowKey>, recs: Records, i: nat, k: nat, says: Opinion, s: State, next: State, s': State)
    requires Known(keys, recs) && i < |keys| && i < k
    requires next.edges ==
             if k < |keys| && Same(m, says, recs[keys[i]], recs[keys[k]]) then
               s.edges + {(keys[i], keys[k])}
             else
               s.edges
    requires if k < |keys| then
               Follows(m, keys, recs, i, k + 1, says, next, s')
             else
               Follows(m, keys, recs, i + 1, i + 2, says, next, s')
    ensures Follows(m, keys, recs, i, k, says, s, s')
  {
    forall a, b
      ensures (a, b) in s'.edges <==> (a, b) in s.edges || PairAhead(m, keys, recs, i, k, says, a, b)
    {
      PairAheadNext(m, keys, recs, i, k, says, a, b);
    }
  }

  // ---- an adjudicator that always answers alike ----

  type Fixed = (string, string) -> Option<Verdict>

  function SaysOf(f: Fixed): Opinion {
    (a, b) => f(a, b).Some? && f(a, b).value.same
  }

  ghost predicate IsFixed(m: Matcher, f: Fixed) {
    && (forall n, a, b :: m.answer(n, a, b) == f(a, b))
    && (forall a, b :: f(a, b) == f(b, a))
  }

  ghost predicate MemoOf(f: Fixed, judge: Judge) {
    forall key :: key in judge.memo ==> f(key.0, key.1) == Some(judge.memo[key])
  }

  lemma PairStepFixed(m: Matcher, f: Fixed, recs: Records, a: RowKey, b: RowKey, s: State)
    requires a in recs && b in recs && IsFixed(m, f) && MemoOf(f, s.judge)
    ensures var s' := PairStep(m, recs, a, b, s);
            && MemoOf(f, s'.judge)
            && s'.edges == if Same(m, SaysOf(f), recs[a], recs[b]) then s.edges + {(a, b)} else s.edges
  {
    var (ta, tb) := (TextOf(recs[a]), TextOf(recs[b]));
    assert f(ta, tb) == f(tb, ta);
  }

  /** With an adjudicator that always answers a pair of texts alike, memory and order of asking do
      not show: the edges are exactly the pairs that pass both tests. */
  lemma {:induction false} ScanFixed(
    m: Matcher, f: Fixed, keys: seq<RowKey>, recs: Records, i: nat, k: nat, s: State)
    requires Known(keys, recs) && i < k && IsFixed(m, f) && MemoOf(f, s.judge)
    ensures MemoOf(f, ScanFrom(m, keys, recs, i, k, s).judge)
    ensures Follows(m, keys, recs, i, k, SaysOf(f), s, ScanFrom(m, keys, recs, i, k, s))
    decreases |keys| - i, |keys| - k
  {
    if i < |keys| {
      var next := if k < |keys| then PairStep(m, recs, keys[i], keys[k], s) else s;
      if k < |keys| {
        PairStepFixed(m, f, recs, keys[i], keys[k], s);
        ScanFixed(m, f, keys, recs, i, k + 1, next);
      } else {
        ScanFixed(m, f, keys, recs, i + 1, i + 2, next);
      }
      FollowsNext(m, keys, recs, i, k, SaysOf(f), s, next, ScanFrom(m, keys, recs, i, k, s));
    }
  }

  // ---- failures and repetition ----

  /** Whenever the adjudicator answers, it answers as `f` does; it may fail at any call. */
  ghost predicate AnswersLike(m: Matcher, f: Fixed) {
    && (forall n, a, b {:trigger m.answer(n, a, b)} :: m.answer(n, a, b).Some? ==> m.answer(n, a, b) == f(a, b))
    && (forall a, b :: f(a, b) == f(b, a))
  }

  lemma PairStepKeepsMemo(m: Matcher, f: Fixed, recs: Records, a: RowKey, b: RowKey, s: State)
    requires a in recs && b in recs && AnswersLike(m, f) && MemoOf(f, s.judge)
    ensures MemoOf(f, PairStep(m, recs, a, b, s).judge)
  {
    var (ta, tb) := (TextOf(recs[a]), TextOf(recs[b]));
    assert f(ta, tb) == f(tb, ta);
  }

  /** What is remembered then are verdicts of `f`, whichever calls failed. */
  lemma {:induction false} ScanKeepsMemo(
    m: Matcher, f: Fixed, keys: seq<RowKey>, recs: Records, i: nat, k: nat, s: State)
    requires Known(keys, recs) && AnswersLike(m, f) && MemoOf(f, s.judge)
    ensures MemoOf(f, ScanFrom(m, keys, recs, i, k, s).judge)
    decreases |keys| - i, |keys| - k
  {
    if i < |keys| && k < |keys| {
      PairStepKeepsMemo(m, f, recs, keys[i], keys[k], s);
      ScanKeepsMemo(m, f, keys, recs, i, k + 1, PairStep(m, recs, keys[i], keys[k], s));
    } else if i < |keys| {
      ScanKeepsMemo(m, f, keys, recs, i + 1, i + 2, s);
    }
  }

  /** With any adjudicator, failing ones included: each edge of a scan is a pair blocked together that is
      one person by its band, or by a verdict that was given and is remembered. No failure adds one. */
  lemma {:induction false} EdgesGrounded(
    m: Matcher, keys: seq<RowKey>, recs: Records, i: nat, k: nat, s: State, a: RowKey, b: RowKey)
    requires Known(keys, recs) && Sound(s.judge)
    requires var s' := ScanFrom(m, keys, recs, i, k, s); (a, b) in s'.edges && (a, b) !in s.edges
    ensures a in recs && b in recs
    ensures Same(m, SaysMemo(ScanFrom(m, keys, recs, i, k, s).judge.memo), recs[a], recs[b])
    decreases |keys| - i, |keys| - k
  {
    if i < |keys| && k < |keys| {
      var next := PairStep(m, recs, keys[i], keys[k], s);
      PairStepKeepsSound(m, recs, keys[i], keys[k], s);
      if (a, b) in next.edges {
        ScanKeepsSound(m, keys, recs, i, k + 1, next);
        EdgeGrounded(m, recs, a, b, s, ScanFrom(m, keys, recs, i, k, s).judge);
      } else {
        EdgesGrounded(m, keys, recs, i, k + 1, next, a, b);
      }
    } else if i < |keys| {
      EdgesGrounded(m, keys, recs, i + 1, i + 2, s, a, b);
    }
  }

  lemma EdgeGrounded(m: Matcher, recs: Records, a: RowKey, b: RowKey, s: State, later: Judge)
    requires a in recs && b in recs
    requires var s' := PairStep(m, recs, a, b, s);
             (a, b) in s'.edges && (a, b) !in s.edges && Extends(s'.judge, later)
    ensures Same(m, SaysMemo(later.memo), recs[a], recs[b])
  {
  }

  function SaysMemo(memo: map<TextPair, Verdict>): Opinion {
    (a, b) => PairKey(a, b) in memo && memo[PairKey(a, b)].same
  }

  /** Nobody needs to be asked about the pair any more. */
  ghost predicate Settled(m: Matcher, memo: map<TextPair, Verdict>, a: Record, b: Record) {
    SameBlock(m, a, b) && BandOf(m, a, b) == Flag ==> PairKey(TextOf(a), TextOf(b)) in memo
  }

  /** Every pair from `(i, k)` on is settled. */
  ghost predicate SettledFrom(
    m: Matcher, keys: seq<RowKey>, recs: Records, i: nat, k: nat, memo: map<TextPair, Verdict>)
    requires Known(keys, recs)
    decreases |keys| - i, |keys| - k
  {
    if i >= |keys| then
      true
    else if k >= |keys| then
      SettledFrom(m, keys, recs, i + 1, i + 2, memo)
    else
      Settled(m, memo, recs[keys[i]], recs[keys[k]]) && SettledFrom(m, keys, recs, i, k + 1, memo)
  }

  ghost predicate NoFailures(judge: Judge, judge': Judge) {
    forall n :: |judge.calls| <= n < |judge'.calls| ==> judge'.calls[n].answer.Some?
  }

  lemma PairStepSettles(m: Matcher, recs: Records, a: RowKey, b: RowKey, s: State, later: Judge)
    requires a in recs && b in recs && Sound(s.judge)
    requires var s' := PairStep(m, recs, a, b, s); NoFailures(s.judge, s'.judge) && Extends(s'.judge, later)
    ensures Settled(m, later.memo, recs[a], recs[b])
    ensures PairStep(m, recs, a, b, s).edges ==
            if Same(m, SaysMemo(later.memo), recs[a], recs[b]) then s.edges + {(a, b)} else s.edges
  {
    var s' := PairStep(m, recs, a, b, s);
    if SameBlock(m, recs[a], recs[b]) && BandOf(m, recs[a], recs[b]) == Flag {
      var key := PairKey(TextOf(recs[a]), TextOf(recs[b]));
      if key !in s.judge.memo {
        assert s'.judge.calls[|s.judge.calls|].answer.Some?;
      }
      assert later.memo[key] == s'.judge.memo[key];
    }
  }

  /** Without failures, a scan leaves every pair settled, and its edges are those that the memory it
      ends with tells. */
  lemma {:induction false} ScanSettles(m: Matcher, keys: seq<RowKey>, recs: Records, i: nat, k: nat, s: State)
    requires Known(keys, recs) && i < k && Sound(s.judge)
    requires NoFailures(s.judge, ScanFrom(m, keys, recs, i, k, s).judge)
    ensures var s' := ScanFrom(m, keys, recs, i, k, s);
            SettledFrom(m, keys, recs, i, k, s'.judge.memo)
            && Follows(m, keys, recs, i, k, SaysMemo(s'.judge.memo), s, s')
    decreases |keys| - i, |keys| - k
  {
    if i < |keys| {
      var s' := ScanFrom(m, keys, recs, i, k, s);
      var next := if k < |keys| then PairStep(m, recs, keys[i], keys[k], s) else s;
      if k < |keys| {
        PairStepKeepsSound(m, recs, keys[i], keys[k], s);
        ScanKeepsSound(m, keys, recs, i, k + 1, next);
        NoFailuresSplit(s.judge, next.judge, s'.judge);
        PairStepSettles(m, recs, keys[i], keys[k], s, s'.judge);
        ScanSettles(m, keys, recs, i, k + 1, next);
      } else {
        ScanSettles(m, keys, recs, i + 1, i + 2, next);
      }
      FollowsNext(m, keys, recs, i, k, SaysMemo(s'.judge.memo), s, next, s');
    }
  }

  lemma NoFailuresSplit(judge: Judge, middle: Judge, judge': Judge)
    requires Extends(judge, middle) && Extends(middle, judge') && NoFailures(judge, judge')
    ensures NoFailures(judge, middle) && NoFailures(middle, judge')
  {
    assert forall n :: 0 <= n < |middle.calls| ==> middle.calls[n] == judge'.calls[n];
  }

  /** Where every pair is settled, a scan asks nobody. */
  lemma {:induction false} ScanOfSettled(m: Matcher, keys: seq<RowKey>, recs: Records, i: nat, k: nat, s: State)
    requires Known(keys, recs) && i < k && SettledFrom(m, keys, recs, i, k, s.judge.memo)
    ensures var s' := ScanFrom(m, keys, recs, i, k, s);
            s'.judge == s.judge && Follows(m, keys, recs, i, k, SaysMemo(s.judge.memo), s, s')
    decreases |keys| - i, |keys| - k
  {
    if i < |keys| {
      var next := if k < |keys| then PairStep(m, recs, keys[i], keys[k], s) else s;
      assert next.judge == s.judge;
      if k < |keys| {
        ScanOfSettled(m, keys, recs, i, k + 1, next);
      } else {
        ScanOfSettled(m, keys, recs, i + 1, i + 2, next);
      }
      FollowsNext(m, keys, recs, i, k, SaysMemo(s.judge.memo), s, next, ScanFrom(m, keys, recs, i, k, s));
    }
  }

  /** What is settled stays so, and is judged alike, as more is remembered. */
  lemma {:induction false} SettledLater(
    m: Matcher, keys: seq<RowKey>, recs: Records, i: nat, k: nat, judge: Judge, later: Judge, edges: Edges)
    requires Known(keys, recs) && i < k && SettledFrom(m, keys, recs, i, k, judge.memo) && Extends(judge, later)
    ensures ScanFrom(m, keys, recs, i, k, State(later, edges)) ==
            State(later, ScanFrom(m, keys, recs, i, k, State(judge, edges)).edges)
    decreases |keys| - i, |keys| - k
  {
    if i < |keys| && k < |keys| {
      var next := PairStep(m, recs, keys[i], keys[k], State(judge, edges));
      SettledStep(m, recs, keys[i], keys[k], judge, later, edges);
      SettledLater(m, keys, recs, i, k + 1, judge, later, next.edges);
    } else if i < |keys| {
      SettledLater(m, keys, recs, i + 1, i + 2, judge, later, edges);
    }
  }

  lemma SettledStep(m: Matcher, recs: Records, a: RowKey, b: RowKey, judge: Judge, later: Judge, edges: Edges)
    requires a in recs && b in recs && Settled(m, judge.memo, recs[a], recs[b]) && Extends(judge, later)
    ensures var next := PairStep(m, recs, a, b, State(judge, edges));
            next.judge == judge && PairStep(m, recs, a, b, State(later, edges)) == State(later, next.edges)
  {
  }

  /** Scanning the same candidates again, any time after a scan without failures, asks nobody and joins
      the same pairs. */
  lemma RepeatedScan(m: Matcher, keys: seq<RowKey>, recs: Records, judge: Judge, later: Judge)
    requires Known(keys, recs) && Sound(judge)
    requires var once := ScanAll(m, keys, recs, judge); NoFailures(judge, once.judge) && Extends(once.judge, later)
    ensures ScanAll(m, keys, recs, later) == State(later, ScanAll(m, keys, recs, judge).edges)
  {
    var once := ScanAll(m, keys, recs, judge);
    ScanSettles(m, keys, recs, 0, 1, State(judge, {}));
    ScanOfSettled(m, keys, recs, 0, 1, State(once.judge, {}));
    SettledLater(m, keys, recs, 0, 1, once.judge, later, {});
    SameEdges(ScanAll(m, keys, recs, once.judge).edges, once.edges);
  }

  lemma SameEdges(some: Edges, others: Edges)
    requires forall a, b :: (a, b) in some <==> (a, b) in others
    ensures some == others
  {
    forall e | true
      ensures e in some <==> e in others
    {
      assert e == (e.0, e.1);
    }
  }
}
