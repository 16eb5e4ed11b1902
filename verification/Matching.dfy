/** Whether two records are one person: blocking, similarity bands, and a memoised adjudicator. */
module Matching {
  import opened Contract
  import Inversion
  import Text

  datatype Record = Record(name: string, email: string, org: string)

  datatype Verdict = Verdict(same: bool, reason: string)

  /** The oracles and thresholds. `answer(n, a, b)` is what call number `n` of the adjudicator gives
      for the texts `a` and `b`, where None is an exception: nothing ties one call to another. */
  datatype Matcher = Matcher(
    lower: string -> string,
    similarity: (string, string) -> real,
    high: real,
    low: real,
    answer: (nat, string, string) -> Option<Verdict>)

  datatype Band = Auto | Reject | Flag

  // ---- blocking ----

  predicate IsTokenChar(c: char) {
    'a' <= c <= 'z' || '0' <= c <= '9'
  }

  function OrgTokens(m: Matcher, org: string): set<string> {
    set token | token in Text.Runs(m.lower(org), IsTokenChar)
  }

  predicate IsWordChar(c: char) {
    c != ',' && !Text.IsSpace(c)
  }

  /** Empty for a name without words. */
  function SurnameInitial(m: Matcher, name: string): string {
    var parts := Text.Runs(name, IsWordChar);
    if parts == [] then
      ""
    else
      assert parts[|parts| - 1] in parts;
      m.lower(parts[|parts| - 1][..1])
  }

  predicate SameBlock(m: Matcher, a: Record, b: Record) {
    || OrgTokens(m, a.org) * OrgTokens(m, b.org) != {}
    || (a.name != "" && b.name != "" && SurnameInitial(m, a.name) == SurnameInitial(m, b.name))
  }

  // ---- matching ----

  predicate SharedEmail(m: Matcher, a: Record, b: Record) {
    var (ea, eb) := (Inversion.NormaliseEmail(m.lower, a.email), Inversion.NormaliseEmail(m.lower, b.email));
    ea != "" && eb != "" && ea == eb
  }

  function TextOf(r: Record): string {
    r.name + " | " + r.org
  }

  type TextPair = (string, string)

  /** The two texts in order: one key for both directions of a pair. */
  function PairKey(a: string, b: string): TextPair {
    if Text.Le(a, b) then (a, b) else (b, a)
  }

  lemma PairKeySymmetric(a: string, b: string)
    ensures PairKey(a, b) == PairKey(b, a)
  {
    Text.LeTotal(a, b);
    if Text.Le(a, b) && Text.Le(b, a) {
      Text.LeAntisymmetric(a, b);
    }
  }

  /** The key is the two texts in their own order, and tells nothing of which came first. */
  lemma PairKeyExactly(a: string, b: string, c: string, d: string)
    ensures PairKey(a, b) == PairKey(c, d) <==> (a == c && b == d) || (a == d && b == c)
    ensures PairKey(a, b) in {(a, b), (b, a)} && Text.Le(PairKey(a, b).0, PairKey(a, b).1)
  {
    Text.LeTotal(a, b);
    PairKeySymmetric(a, b);
  }

  datatype Call = Call(a: string, b: string, answer: Option<Verdict>)

  /** The verdicts in memory, and every call the adjudicator has had. */
  datatype Judge = Judge(memo: map<TextPair, Verdict>, calls: seq<Call>)

  function Ask(m: Matcher, j: Judge, a: string, b: string): (Verdict, Judge) {
    var key := PairKey(a, b);
    if key in j.memo then
      (j.memo[key], j)
    else
      var answer := m.answer(|j.calls|, a, b);
      var calls := j.calls + [Call(a, b, answer)];
      match answer
      case Some(v) => (v, Judge(j.memo[key := v], calls))
      case None => (Verdict(false, "adjudicator error"), Judge(j.memo, calls))
  }

  /** The band that a pair falls in before anyone is asked. */
  function BandOf(m: Matcher, a: Record, b: Record): Band {
    if SharedEmail(m, a, b) then
      Auto
    else
      var s := m.similarity(TextOf(a), TextOf(b));
      if s >= m.high then Auto else if s < m.low then Reject else Flag
  }

  function Match(m: Matcher, j: Judge, a: Record, b: Record): (bool, Band, Judge) {
    match BandOf(m, a, b)
    case Auto => (true, Auto, j)
    case Reject => (false, Reject, j)
    case Flag =>
      var (v, j') := Ask(m, j, TextOf(a), TextOf(b));
      (v.same, Flag, j')
  }

  // ---- the adjudicator's history ----

  ghost predicate Extends(j: Judge, j': Judge) {
    && j.memo.Keys <= j'.memo.Keys && (forall key :: key in j.memo ==> j'.memo[key] == j.memo[key])
    && j.calls <= j'.calls
  }

  ghost function KeyOf(c: Call): TextPair {
    PairKey(c.a, c.b)
  }

  /** Call `n` gave the verdict on the pair `key`. */
  ghost predicate Decides(calls: seq<Call>, n: nat, key: TextPair) {
    n < |calls| && calls[n].answer.Some? && KeyOf(calls[n]) == key
  }

  ghost predicate RemembersAll(j: Judge) {
    forall n: nat, key :: Decides(j.calls, n, key) ==> key in j.memo && j.memo[key] == j.calls[n].answer.value
  }

  ghost predicate InventsNone(j: Judge) {
    forall key :: key in j.memo ==> exists n: nat :: Decides(j.calls, n, key)
  }

  ghost predicate DecidesOnce(calls: seq<Call>) {
    forall n: nat, p: nat, key :: Decides(calls, n, key) && Decides(calls, p, key) ==> n == p
  }

  /** The memory holds exactly the verdicts that were given, and no pair of texts got two. */
  ghost predicate Sound(j: Judge) {
    RemembersAll(j) && InventsNone(j) && DecidesOnce(j.calls)
  }

  lemma DecidesNext(calls: seq<Call>, c: Call, n: nat, key: TextPair)
    ensures Decides(calls + [c], n, key) <==>
            if n < |calls| then Decides(calls, n, key) else n == |calls| && c.answer.Some? && KeyOf(c) == key
  {
  }

  /** What is remembered after a call about the texts of `pair`. */
  ghost function Heard(j: Judge, c: Call): Judge {
    Judge(if c.answer.Some? then j.memo[KeyOf(c) := c.answer.value] else j.memo, j.calls + [c])
  }

  lemma HeardKeepsSound(j: Judge, c: Call)
    requires Sound(j) && KeyOf(c) !in j.memo
    ensures Sound(Heard(j, c)) && Extends(j, Heard(j, c))
  {
    var j' := Heard(j, c);
    forall n: nat, key
      ensures Decides(j'.calls, n, key) <==>
              if n < |j.calls| then Decides(j.calls, n, key) else n == |j.calls| && c.answer.Some? && KeyOf(c) == key
    {
      DecidesNext(j.calls, c, n, key);
    }
    assert c.answer.Some? ==> Decides(j'.calls, |j.calls|, KeyOf(c));
    InventsNoneNext(j, j', KeyOf(c));
  }

  lemma AskKeepsSound(m: Matcher, j: Judge, a: string, b: string)
    requires Sound(j)
    ensures Sound(Ask(m, j, a, b).1) && Extends(j, Ask(m, j, a, b).1)
  {
    if PairKey(a, b) !in j.memo {
      var c := Call(a, b, m.answer(|j.calls|, a, b));
      HeardKeepsSound(j, c);
      assert Ask(m, j, a, b).1 == Heard(j, c);
    }
  }

  lemma MatchKeepsSound(m: Matcher, j: Judge, a: Record, b: Record)
    requires Sound(j)
    ensures Sound(Match(m, j, a, b).2) && Extends(j, Match(m, j, a, b).2)
  {
    AskKeepsSound(m, j, TextOf(a), TextOf(b));
  }

  lemma InventsNoneNext(j: Judge, j': Judge, pair: TextPair)
    requires InventsNone(j) && j.calls <= j'.calls
    requires forall key :: key in j'.memo ==>
               key in j.memo || (key == pair && exists n: nat :: Decides(j'.calls, n, pair))
    ensures InventsNone(j')
  {
    forall key | key in j'.memo
      ensures exists n: nat :: Decides(j'.calls, n, key)
    {
      if key in j.memo {
        var n: nat :| Decides(j.calls, n, key);
        assert Decides(j'.calls, n, key);
      }
    }
  }
}
