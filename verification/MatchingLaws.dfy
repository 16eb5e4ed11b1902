/** What blocking and the bands come to, in terms of the records' texts. */
module MatchingLaws {
  import opened Contract
  import opened Matching
  import Inversion
  import Text

  // ---- shared emails ----

  /** The emails are one and not empty, but for case and for the white space around them. */
  ghost predicate SharesEmail(m: Matcher, a: Record, b: Record) {
    exists e :: e != "" && Inversion.Normalises(m.lower, a.email, e) && Inversion.Normalises(m.lower, b.email, e)
  }

  lemma SharedEmailExactly(m: Matcher, a: Record, b: Record)
    ensures SharedEmail(m, a, b) <==> SharesEmail(m, a, b)
  {
    var (ea, eb) := (Inversion.NormaliseEmail(m.lower, a.email), Inversion.NormaliseEmail(m.lower, b.email));
    Inversion.NormalisesExactly(m.lower, a.email, ea);
    Inversion.NormalisesExactly(m.lower, b.email, ea);
    if e :| e != "" && Inversion.Normalises(m.lower, a.email, e) && Inversion.Normalises(m.lower, b.email, e) {
      Inversion.NormalisesExactly(m.lower, a.email, e);
      Inversion.NormalisesExactly(m.lower, b.email, e);
    }
  }

  // ---- the bands ----

  /** How the records are compared by similarity. */
  function Likeness(m: Matcher, a: Record, b: Record): real {
    m.similarity(a.name + " | " + a.org, b.name + " | " + b.org)
  }

  /** A shared email and a high similarity match without a call, whatever the adjudicator says; a low one
      does not match, without a call; in between, the remembered verdict decides, or one call. */
  lemma MatchExactly(m: Matcher, j: Judge, a: Record, b: Record)
    ensures var (same, band, j') := Match(m, j, a, b);
            var (ta, tb) := (a.name + " | " + a.org, b.name + " | " + b.org);
            var answer := m.answer(|j.calls|, ta, tb);
            if SharesEmail(m, a, b) || Likeness(m, a, b) >= m.high then
              same && band == Auto && j' == j
            else if Likeness(m, a, b) < m.low then
              !same && band == Reject && j' == j
            else if PairKey(ta, tb) in j.memo then
              same == j.memo[PairKey(ta, tb)].same && band == Flag && j' == j
            else
              && same == (answer.Some? && answer.value.same) && band == Flag
              && j'.calls == j.calls + [Call(ta, tb, answer)]
              && j'.memo == if answer.Some? then j.memo[PairKey(ta, tb) := answer.value] else j.memo
  {
    SharedEmailExactly(m, a, b);
  }

  /** The verdict on two texts: the one remembered, or what the adjudicator answers now; a failure is a no. */
  ghost predicate SaysYes(m: Matcher, j: Judge, ta: string, tb: string) {
    if PairKey(ta, tb) in j.memo then
      j.memo[PairKey(ta, tb)].same
    else
      m.answer(|j.calls|, ta, tb).Some? && m.answer(|j.calls|, ta, tb).value.same
  }

  // ---- blocking ----

  ghost predicate IsTokenOf(text: string, token: string) {
    Text.IsRunOf(text, token, c => 'a' <= c <= 'z' || '0' <= c <= '9')
  }

  /** The lower-cased organisations have a stretch of letters and digits in common that neither goes on. */
  ghost predicate SharesToken(m: Matcher, a: Record, b: Record) {
    exists token :: IsTokenOf(m.lower(a.org), token) && IsTokenOf(m.lower(b.org), token)
  }

  lemma TokensExactly(m: Matcher, org: string, token: string)
    ensures token in OrgTokens(m, org) <==> IsTokenOf(m.lower(org), token)
  {
    var keep: char -> bool := c => 'a' <= c <= 'z' || '0' <= c <= '9';
    Text.RunsAgree(m.lower(org), IsTokenChar, keep);
    Text.RunsExactly(m.lower(org), keep, token);
  }

  predicate IsGap(s: string) {
    forall c :: c in s ==> c == ',' || Text.IsSpace(c)
  }

  /** `word` is the last word of the name: commas and white space follow it, and come before it. */
  ghost predicate IsLastWord(name: string, front: string, word: string, rest: string) {
    && name == front + word + rest && IsGap(rest)
    && word != "" && (forall c :: c in word ==> c != ',' && !Text.IsSpace(c))
    && (front != "" ==> IsGap([front[|front| - 1]]))
  }

  /** The lower-cased first letter of the last word; a name without words has an empty one. */
  ghost predicate HasInitial(m: Matcher, name: string, initial: string) {
    || (IsGap(name) && initial == "")
    || exists front, word, rest :: IsLastWord(name, front, word, rest) && initial == m.lower(word[..1])
  }

  lemma InitialOfWord(m: Matcher, name: string, front: string, word: string, rest: string)
    requires IsLastWord(name, front, word, rest)
    ensures SurnameInitial(m, name) == m.lower(word[..1])
  {
    if front != "" {
      assert front[|front| - 1] in [front[|front| - 1]];
    }
    if rest != "" {
      assert rest[0] in rest;
    }
    Text.RunsAround(name, front, word, rest, IsWordChar);
    Text.RunsOfGap(rest, IsWordChar);
  }

  lemma InitialOfGap(m: Matcher, name: string)
    requires IsGap(name)
    ensures SurnameInitial(m, name) == ""
  {
    Text.RunsOfGap(name, IsWordChar);
  }

  /** The word that a text ends with. */
  lemma {:induction false} EndingWord(s: string) returns (front: string, word: string)
    requires s != "" && IsWordChar(s[|s| - 1])
    ensures IsLastWord(s, front, word, "")
  {
    var n := |s| - 1;
    if n > 0 && IsWordChar(s[n - 1]) {
      front, word := EndingWord(s[..n]);
      word := word + [s[n]];
    } else {
      front, word := s[..n], [s[n]];
    }
    assert s == front + word + "";
  }

  lemma {:induction false} LastWordExists(name: string) returns (front: string, word: string, rest: string)
    requires !IsGap(name)
    ensures IsLastWord(name, front, word, rest)
  {
    var n := |name| - 1;
    if IsWordChar(name[n]) {
      front, word := EndingWord(name);
      rest := "";
    } else {
      assert name == name[..n] + [name[n]];
      front, word, rest := LastWordExists(name[..n]);
      rest := rest + [name[n]];
    }
  }

  lemma InitialExactly(m: Matcher, name: string, initial: string)
    ensures SurnameInitial(m, name) == initial <==> HasInitial(m, name, initial)
  {
    if IsGap(name) {
      InitialOfGap(m, name);
    } else {
      var front, word, rest := LastWordExists(name);
      InitialOfWord(m, name, front, word, rest);
    }
    if front, word, rest :| IsLastWord(name, front, word, rest) && initial == m.lower(word[..1]) {
      InitialOfWord(m, name, front, word, rest);
    }
  }

  /** Both names are given and have one initial. */
  ghost predicate SharesInitial(m: Matcher, a: Record, b: Record) {
    a.name != "" && b.name != "" && exists i :: HasInitial(m, a.name, i) && HasInitial(m, b.name, i)
  }

  lemma TokensShared(m: Matcher, a: Record, b: Record)
    ensures OrgTokens(m, a.org) * OrgTokens(m, b.org) != {} <==> SharesToken(m, a, b)
  {
    var common := OrgTokens(m, a.org) * OrgTokens(m, b.org);
    if common != {} {
      var token :| token in common;
      TokensExactly(m, a.org, token);
      TokensExactly(m, b.org, token);
    }
    if token :| IsTokenOf(m.lower(a.org), token) && IsTokenOf(m.lower(b.org), token) {
      TokensExactly(m, a.org, token);
      TokensExactly(m, b.org, token);
      assert token in common;
    }
  }

  /** Two records are compared at all exactly when their organisations share a token or their surnames an
      initial. */
  lemma BlockExactly(m: Matcher, a: Record, b: Record)
    ensures SameBlock(m, a, b) <==> SharesToken(m, a, b) || SharesInitial(m, a, b)
  {
    TokensShared(m, a, b);
    InitialExactly(m, a.name, SurnameInitial(m, a.name));
    InitialExactly(m, b.name, SurnameInitial(m, a.name));
    if i :| HasInitial(m, a.name, i) && HasInitial(m, b.name, i) {
      InitialExactly(m, a.name, i);
      InitialExactly(m, b.name, i);
    }
  }
}
