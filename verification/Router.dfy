/** The concept router: from a concept to the sources that hold it, over a single-parent hierarchy. */
module Router {
  import opened Contract
  import Text

  /** concept -> its parent, if it has one */
  type Hierarchy = map<string, Option<string>>

  type Sources = map<string, string>

  predicate Validated(concepts: Hierarchy, sources: Sources) {
    && (forall name | name in concepts :: concepts[name].Some? ==> concepts[name].value in concepts)
    && (forall source | source in sources :: sources[source] in concepts)
  }

  function ParentOf(h: Hierarchy, concept: string): Option<string> {
    if concept in h then h[concept] else None
  }

  /** How much of a walk may be left: the concepts not seen, and whether there is one to see. */
  ghost function Left(h: Hierarchy, cur: Option<string>, seen: set<string>): nat {
    2 * |h.Keys - seen| + if cur.Some? then 1 else 0
  }

  lemma LeftDrops(h: Hierarchy, cur: string, seen: set<string>)
    requires cur !in seen
    ensures Left(h, ParentOf(h, cur), seen + {cur}) < Left(h, Some(cur), seen)
  {
    if cur in h {
      assert h.Keys - (seen + {cur}) == (h.Keys - seen) - {cur};
    } else {
      assert h.Keys - (seen + {cur}) == h.Keys - seen;
    }
  }

  /** The walk upwards from `cur` that stops at a root, or where it has been before. */
  function Walk(h: Hierarchy, cur: Option<string>, seen: set<string>): seq<string>
    decreases Left(h, cur, seen)
  {
    if cur.None? || cur.value in seen then
      []
    else
      LeftDrops(h, cur.value, seen);
      [cur.value] + Walk(h, ParentOf(h, cur.value), seen + {cur.value})
  }

  lemma WalkNext(h: Hierarchy, cur: string, seen: set<string>, out: seq<string>)
    requires cur !in seen
    ensures out + Walk(h, Some(cur), seen) == out + [cur] + Walk(h, ParentOf(h, cur), seen + {cur})
  {
  }

  function Ancestors(h: Hierarchy, concept: string): seq<string> {
    Walk(h, Some(concept), {})
  }

  function Descendants(h: Hierarchy, concept: string): set<string> {
    set c | c in h && concept in Ancestors(h, c)
  }

  function SourcesFor(h: Hierarchy, sources: Sources, concept: string): seq<string> {
    Text.Sorted(set source | source in sources && sources[source] in Descendants(h, concept))
  }

  /** More than one meaning among the sources of the concept. */
  predicate IsAmbiguous(h: Hierarchy, sources: Sources, concept: string) {
    |set source | source in SourcesFor(h, sources, concept) && source in sources :: sources[source]| > 1
  }

  // ---- the query's concept ----

  function Words(s: string): seq<string> {
    Text.Runs(s, c => !Text.IsSpace(c))
  }

  function JoinWords(words: seq<string>): string {
    if words == [] then "" else if |words| == 1 then words[0] else words[0] + " " + JoinWords(words[1..])
  }

  /** A leading word that names a concept qualifies the rest; anything else is under the root. */
  function ResolveConcept(lower: string -> string, h: Hierarchy, query: string, root: string): (string, string) {
    var parts := Words(query);
    if parts == [] then
      (root, "")
    else
      var head := lower(parts[0]);
      if head in h && head != root then (head, Text.Trim(JoinWords(parts[1..]))) else (root, Text.Trim(query))
  }

  class ConceptRouter {
    const concepts: Hierarchy
    const sources: Sources

    constructor (concepts: Hierarchy, sources: Sources)
      requires Validated(concepts, sources)
      ensures this.concepts == concepts && this.sources == sources
    {
      this.concepts, this.sources := concepts, sources;
    }

    /** Construction with its checks: an unknown parent or concept is an error. */
    static method Create(concepts: Hierarchy, sources: Sources) returns (r: Result<ConceptRouter>)
      ensures r.Ok? <==> Validated(concepts, sources)
      ensures r.Err? <==>
                || (exists name :: name in concepts && concepts[name].Some? && concepts[name].value !in concepts)
                || exists source :: source in sources && sources[source] !in concepts
      ensures r.Err? ==> r.error == ValueError
      ensures r.Ok? ==> fresh(r.value) && r.value.concepts == concepts && r.value.sources == sources
    {
      if !Validated(concepts, sources) {
        return Err(ValueError);
      }
      var router := new ConceptRouter(concepts, sources);
      r := Ok(router);
    }

    method AncestorsOf(concept: string) returns (out: seq<string>)
      ensures out == Ancestors(concepts, concept)
    {
      var cur, seen := Some(concept), {};
      out := [];
      while cur.Some? && cur.value !in seen
        invariant Ancestors(concepts, concept) == out + Walk(concepts, cur, seen)
        decreases Left(concepts, cur, seen)
      {
        LeftDrops(concepts, cur.value, seen);
        WalkNext(concepts, cur.value, seen, out);
        out := out + [cur.value];
        seen := seen + {cur.value};
        cur := ParentOf(concepts, cur.value);
      }
      assert Walk(concepts, cur, seen) == [];
    }

    method DescendantsOf(concept: string) returns (out: set<string>)
      ensures out == Descendants(concepts, concept)
    {
      out := {};
      var rest := concepts.Keys;
      while rest != {}
        invariant rest <= concepts.Keys
        invariant out == set c | c in concepts && c !in rest && concept in Ancestors(concepts, c)
        decreases |rest|
      {
        var c :| c in rest;
        var up := AncestorsOf(c);
        if concept in up {
          out := out + {c};
        }
        rest := rest - {c};
      }
    }
  }

  // ---- ancestors are what the parent links reach ----

  /** `n` parent links up from `concept`. */
  function Up(h: Hierarchy, concept: string, n: nat): Option<string> {
    if n == 0 then
      Some(concept)
    else
      match Up(h, concept, n - 1)
      case None => None
      case Some(c) => ParentOf(h, c)
  }

  ghost predicate Reaches(h: Hierarchy, concept: string, ancestor: string) {
    exists n: nat :: Up(h, concept, n) == Some(ancestor)
  }

  lemma {:induction false} UpFrom(h: Hierarchy, concept: string, m: nat, middle: string, n: nat)
    requires Up(h, concept, m) == Some(middle)
    ensures Up(h, concept, m + n) == Up(h, middle, n)
  {
    if n > 0 {
      UpFrom(h, concept, m, middle, n - 1);
    }
  }

  lemma ReachesTrans(h: Hierarchy, a: string, b: string, c: string)
    requires Reaches(h, a, b) && Reaches(h, b, c)
    ensures Reaches(h, a, c)
  {
    var m: nat :| Up(h, a, m) == Some(b);
    var n: nat :| Up(h, b, n) == Some(c);
    UpFrom(h, a, m, b, n);
  }

  lemma {:induction false} WalkIsUp(h: Hierarchy, concept: string, n: nat, seen: set<string>, a: string)
    requires a in Walk(h, Up(h, concept, n), seen)
    ensures Reaches(h, concept, a) && a !in seen
    decreases Left(h, Up(h, concept, n), seen)
  {
    var c := Up(h, concept, n).value;
    LeftDrops(h, c, seen);
    if a != c {
      assert Up(h, concept, n + 1) == ParentOf(h, c);
      WalkIsUp(h, concept, n + 1, seen + {c}, a);
    }
  }

  ghost predicate ClosedBut(h: Hierarchy, s: set<string>, cur: Option<string>) {
    forall x {:trigger ParentOf(h, x)} :: x in s && ParentOf(h, x).Some? ==>
      ParentOf(h, x).value in s || ParentOf(h, x) == cur
  }

  /** All that has been seen when the walk is over. */
  ghost function Visited(h: Hierarchy, cur: Option<string>, seen: set<string>): set<string> {
    seen + set x | x in Walk(h, cur, seen)
  }

  lemma VisitedNext(h: Hierarchy, cur: string, seen: set<string>)
    requires cur !in seen
    ensures Visited(h, Some(cur), seen) == Visited(h, ParentOf(h, cur), seen + {cur})
  {
    assert Walk(h, Some(cur), seen) == [cur] + Walk(h, ParentOf(h, cur), seen + {cur});
  }

  lemma ClosedNext(h: Hierarchy, cur: string, seen: set<string>)
    requires ClosedBut(h, seen, Some(cur))
    ensures ClosedBut(h, seen + {cur}, ParentOf(h, cur))
  {
  }

  /** A finished walk leaves no parent unvisited. */
  lemma {:induction false} WalkCloses(h: Hierarchy, cur: Option<string>, seen: set<string>)
    requires ClosedBut(h, seen, cur)
    ensures ClosedBut(h, Visited(h, cur, seen), None)
    ensures cur.Some? ==> cur.value in Visited(h, cur, seen)
    decreases Left(h, cur, seen)
  {
    if cur.Some? && cur.value !in seen {
      LeftDrops(h, cur.value, seen);
      ClosedNext(h, cur.value, seen);
      VisitedNext(h, cur.value, seen);
      WalkCloses(h, ParentOf(h, cur.value), seen + {cur.value});
      assert cur.value in Walk(h, cur, seen);
    } else {
      assert Visited(h, cur, seen) == seen;
    }
  }

  lemma {:induction false} ClosedUnderUp(h: Hierarchy, s: set<string>, concept: string, n: nat)
    requires ClosedBut(h, s, None) && concept in s && Up(h, concept, n).Some?
    ensures Up(h, concept, n).value in s
  {
    if n > 0 {
      ClosedUnderUp(h, s, concept, n - 1);
    }
  }

  /** For every hierarchy, one with cycles included: the ancestors are exactly what the parent links
      reach, the concept itself among them. */
  lemma AncestorsExactly(h: Hierarchy, concept: string, a: string)
    ensures a in Ancestors(h, concept) <==> Reaches(h, concept, a)
  {
    if a in Ancestors(h, concept) {
      assert Up(h, concept, 0) == Some(concept);
      WalkIsUp(h, concept, 0, {}, a);
    }
    if Reaches(h, concept, a) {
      var n: nat :| Up(h, concept, n) == Some(a);
      WalkCloses(h, Some(concept), {});
      ClosedUnderUp(h, Visited(h, Some(concept), {}), concept, n);
    }
  }

  ghost predicate NoRepeats(walk: seq<string>, seen: set<string>) {
    && (forall i :: 0 <= i < |walk| ==> walk[i] !in seen)
    && forall i, j :: 0 <= i < j < |walk| ==> walk[i] != walk[j]
  }

  lemma NoRepeatsNext(cur: string, walk: seq<string>, seen: set<string>)
    requires cur !in seen && NoRepeats(walk, seen + {cur})
    ensures NoRepeats([cur] + walk, seen)
  {
  }

  lemma {:induction false} WalkNoRepeats(h: Hierarchy, cur: Option<string>, seen: set<string>)
    ensures NoRepeats(Walk(h, cur, seen), seen)
    decreases Left(h, cur, seen)
  {
    if cur.Some? && cur.value !in seen {
      LeftDrops(h, cur.value, seen);
      WalkNext(h, cur.value, seen, []);
      WalkNoRepeats(h, ParentOf(h, cur.value), seen + {cur.value});
      NoRepeatsNext(cur.value, Walk(h, ParentOf(h, cur.value), seen + {cur.value}), seen);
    }
  }

  /** A walk goes from each concept to its parent, and ends at a root, at a concept that is not known, or
      where it would come to a concept again. */
  ghost predicate IsClimb(h: Hierarchy, walk: seq<string>, seen: set<string>) {
    && (forall i :: 0 <= i < |walk| - 1 ==> walk[i] in h && h[walk[i]] == Some(walk[i + 1]))
    && (walk != [] ==>
          var top := walk[|walk| - 1];
          top in h && h[top].Some? ==> h[top].value in walk || h[top].value in seen)
  }

  lemma ClimbNext(h: Hierarchy, cur: string, walk: seq<string>, seen: set<string>)
    requires IsClimb(h, walk, seen + {cur})
    requires if walk == [] then
               cur in h && h[cur].Some? ==> h[cur].value in seen + {cur}
             else
               cur in h && h[cur] == Some(walk[0])
    ensures IsClimb(h, [cur] + walk, seen)
  {
    var longer := [cur] + walk;
    forall i | 0 <= i < |longer| - 1
      ensures longer[i] in h && h[longer[i]] == Some(longer[i + 1])
    {
      assert i > 0 ==> longer[i] == walk[i - 1] && longer[i + 1] == walk[i];
    }
    assert longer[|longer| - 1] == if walk == [] then cur else walk[|walk| - 1];
  }

  lemma {:induction false} WalkClimbs(h: Hierarchy, cur: Option<string>, seen: set<string>)
    ensures IsClimb(h, Walk(h, cur, seen), seen)
    ensures Walk(h, cur, seen) != [] <==> cur.Some? && cur.value !in seen
    ensures Walk(h, cur, seen) != [] ==> Walk(h, cur, seen)[0] == cur.value
    decreases Left(h, cur, seen)
  {
    if cur.Some? && cur.value !in seen {
      LeftDrops(h, cur.value, seen);
      WalkNext(h, cur.value, seen, []);
      WalkClimbs(h, ParentOf(h, cur.value), seen + {cur.value});
      ClimbNext(h, cur.value, Walk(h, ParentOf(h, cur.value), seen + {cur.value}), seen);
    }
  }

  /** The ancestors are the concept itself, then its parent, and so on up. */
  lemma AncestorsInOrder(h: Hierarchy, concept: string)
    ensures Ancestors(h, concept) != [] && Ancestors(h, concept)[0] == concept
    ensures IsClimb(h, Ancestors(h, concept), {}) && NoRepeats(Ancestors(h, concept), {})
  {
    WalkClimbs(h, Some(concept), {});
    WalkNoRepeats(h, Some(concept), {});
  }

  // ---- specificity prunes sources ----

  lemma SourcesExactly(h: Hierarchy, sources: Sources, concept: string, source: string)
    requires Validated(h, sources)
    ensures source in SourcesFor(h, sources, concept) <==> source in sources && Reaches(h, sources[source], concept)
    ensures forall i, j :: 0 <= i < j < |SourcesFor(h, sources, concept)| ==>
              var (a, b) := (SourcesFor(h, sources, concept)[i], SourcesFor(h, sources, concept)[j]);
              a != b && Text.Le(a, b)
  {
    if source in sources {
      AncestorsExactly(h, sources[source], concept);
    }
  }

  /** A concept's sources are among those of each of its ancestors. */
  lemma SourcesWiden(h: Hierarchy, sources: Sources, concept: string, ancestor: string, source: string)
    requires Validated(h, sources) && ancestor in Ancestors(h, concept)
    requires source in SourcesFor(h, sources, concept)
    ensures source in SourcesFor(h, sources, ancestor)
  {
    SourcesExactly(h, sources, concept, source);
    SourcesExactly(h, sources, ancestor, source);
    AncestorsExactly(h, concept, ancestor);
    ReachesTrans(h, sources[source], concept, ancestor);
  }

  /** Two concepts share a source only if one of them is an ancestor of the other. */
  lemma SharedSourceRelates(h: Hierarchy, sources: Sources, a: string, b: string, source: string)
    requires Validated(h, sources)
    requires source in SourcesFor(h, sources, a) && source in SourcesFor(h, sources, b)
    ensures a in Ancestors(h, b) || b in Ancestors(h, a)
  {
    SourcesExactly(h, sources, a, source);
    SourcesExactly(h, sources, b, source);
    AncestorsExactly(h, a, b);
    AncestorsExactly(h, b, a);
    var m: nat :| Up(h, sources[source], m) == Some(a);
    var n: nat :| Up(h, sources[source], n) == Some(b);
    if m <= n {
      UpFrom(h, sources[source], m, a, n - m);
      assert Up(h, a, n - m) == Some(b);
    } else {
      UpFrom(h, sources[source], n, b, m - n);
      assert Up(h, b, m - n) == Some(a);
    }
  }

  /** A concept is ambiguous exactly when two of its sources hold different concepts. */
  lemma AmbiguousExactly(h: Hierarchy, sources: Sources, concept: string)
    ensures IsAmbiguous(h, sources, concept) <==>
            exists a, b :: a in SourcesFor(h, sources, concept) && b in SourcesFor(h, sources, concept)
              && a in sources && b in sources && sources[a] != sources[b]
  {
    var found := SourcesFor(h, sources, concept);
    var hit := set source | source in found && source in sources :: sources[source];
    SeveralExactly(hit);
    if x, y :| x in hit && y in hit && x != y {
      var a :| a in found && a in sources && sources[a] == x;
      var b :| b in found && b in sources && sources[b] == y;
    }
    if a, b :| a in found && b in found && a in sources && b in sources && sources[a] != sources[b] {
      assert sources[a] in hit && sources[b] in hit;
    }
  }

  lemma SeveralExactly(s: set<string>)
    ensures |s| > 1 <==> exists x, y :: x in s && y in s && x != y
  {
    if |s| > 1 {
      var x :| x in s;
      assert |s - {x}| == |s| - 1;
      var y :| y in s - {x};
    }
    if x, y :| x in s && y in s && x != y {
      assert y in s - {x} && |s - {x}| == |s| - 1;
    }
  }

  // ---- the concept of a query ----

  predicate IsWord(s: string) {
    s != "" && forall c :: c in s ==> !Text.IsSpace(c)
  }

  predicate IsBlank(s: string) {
    forall c :: c in s ==> Text.IsSpace(c)
  }

  /** Blanks before the first word do not matter. */
  lemma {:induction false} WordsSkipBlanks(blank: string, rest: string)
    requires IsBlank(blank)
    ensures Words(blank + rest) == Words(rest)
  {
    if blank == "" {
      assert blank + rest == rest;
    } else {
      assert blank[0] in blank && (blank + rest)[1..] == blank[1..] + rest;
      WordsSkipBlanks(blank[1..], rest);
    }
  }

  lemma {:induction false} WordRuns(word: string, rest: string)
    requires (forall c :: c in word ==> !Text.IsSpace(c)) && (rest == "" || Text.IsSpace(rest[0]))
    ensures Text.RunLength(word + rest, c => !Text.IsSpace(c)) == |word|
  {
    if word != "" {
      assert word[0] in word && (word + rest)[1..] == word[1..] + rest;
      WordRuns(word[1..], rest);
    } else {
      assert word + rest == rest;
    }
  }

  lemma WordsOfWord(word: string, rest: string)
    requires IsWord(word) && (rest == "" || Text.IsSpace(rest[0]))
    ensures Words(word + rest) == [word] + Words(rest)
  {
    var s := word + rest;
    WordRuns(word, rest);
    assert word[0] in word && s[0] == word[0];
    assert s[..|word|] == word && s[|word|..] == rest;
  }

  /** Joining words with single spaces keeps them: splitting gives them back, and there is nothing to trim. */
  lemma {:induction false} JoinedWords(words: seq<string>)
    requires forall w :: w in words ==> IsWord(w)
    ensures Words(JoinWords(words)) == words
    ensures words != [] ==>
              var s := JoinWords(words); s != "" && !Text.IsSpace(s[0]) && !Text.IsSpace(s[|s| - 1])
    ensures words == [] ==> JoinWords(words) == ""
  {
    if |words| == 1 {
      var w := words[0];
      assert w in words && w[0] in w && w[|w| - 1] in w;
      WordsOfWord(w, "");
      assert w + "" == w && [w] + Words("") == words;
    } else if |words| > 1 {
      var (w, rest) := (words[0], JoinWords(words[1..]));
      assert w in words && w[0] in w;
      JoinedWords(words[1..]);
      assert w + " " + rest == w + (" " + rest);
      WordsOfWord(w, " " + rest);
      WordsSkipBlanks(" ", rest);
      assert [w] + words[1..] == words;
    }
  }

  /** A query without words is under the root, without a name. Otherwise its first word, in lower case, is
      the concept if it names one below the root, and the name is made of exactly the other words; any
      other query is under the root with its whole trimmed text. */
  lemma ConceptExactly(
    lower: string -> string, h: Hierarchy, blank: string, word: string, rest: string, root: string)
    requires IsBlank(blank) && (word == "" || IsWord(word)) && (word == "" ==> rest == "")
    requires rest == "" || Text.IsSpace(rest[0])
    ensures var query := blank + word + rest;
            var (concept, name) := ResolveConcept(lower, h, query, root);
            if word == "" then
              concept == root && name == ""
            else if lower(word) in h && lower(word) != root then
              concept == lower(word) && Words(name) == Words(rest) && Text.Trim(name) == name
            else
              concept == root && name == Text.Trim(query)
  {
    assert blank + word + rest == blank + (word + rest);
    WordsSkipBlanks(blank, word + rest);
    if word == "" {
      assert word + rest == "";
    } else {
      WordsOfWord(word, rest);
      var words := Words(rest);
      assert ([word] + words)[1..] == words;
      JoinedWords(words);
      TrimNothing(JoinWords(words));
    }
  }

  lemma TrimNothing(s: string)
    requires s != "" ==> !Text.IsSpace(s[0]) && !Text.IsSpace(s[|s| - 1])
    ensures Text.Trim(s) == s
  {
  }
}
