/** The semantic descent: query to concept, concept to sources, sources to candidate cells. */
module Descent {
  import opened Contract
  import Locators
  import Masters
  import Router
  import Store
  import Text

  const IDENTIFYING_NODE: string := "person"

  const ROOT: string := "person"

  function SourceOf(c: Cell): Result<string> {
    match Locators.ParseLocator(c.ref.locator)
    case Err(e) => Err(e)
    case Ok(triple) => Ok(triple.0)
  }

  predicate IsSurfaced(c: Cell, sources: set<string>, sourceOf: Cell -> Result<string>) {
    c.typ.ontologyNode == IDENTIFYING_NODE && sourceOf(c).Ok? && sourceOf(c).value in sources
  }

  function Select(cells: seq<Cell>, sources: set<string>, sourceOf: Cell -> Result<string>): seq<Cell> {
    if cells == [] then
      []
    else
      var last := cells[|cells| - 1];
      Select(cells[..|cells| - 1], sources, sourceOf) + if IsSurfaced(last, sources, sourceOf) then [last] else []
  }

  function SourceSet(h: Router.Hierarchy, sources: Router.Sources, concept: string): set<string> {
    set s | s in Router.SourcesFor(h, sources, concept)
  }

  /** The identifying cells of the given sources; one whose locator does not parse is an error. */
  function Surface(t: Store.Table, sources: set<string>): Result<seq<Cell>> {
    var all := Store.AllCells(t);
    if exists c :: c in all && c.typ.ontologyNode == IDENTIFYING_NODE && SourceOf(c).Err? then
      Err(ValueError)
    else
      Ok(Select(all, sources, SourceOf))
  }

  datatype DescentResult = DescentResult(
    query: string,
    concept: string,
    name: string,
    underSpecified: bool,
    sources: seq<string>,
    candidateRefs: seq<Reference>)

  function RefsOf(cells: seq<Cell>): (refs: seq<Reference>)
    ensures |refs| == |cells| && forall i :: 0 <= i < |cells| ==> refs[i] == cells[i].ref
  {
    seq(|cells|, i requires 0 <= i < |cells| => cells[i].ref)
  }

  function Query(
    lower: string -> string, h: Router.Hierarchy, sources: Router.Sources, t: Store.Table,
    text: string): Result<DescentResult>
  {
    var (concept, name) := Router.ResolveConcept(lower, h, text, ROOT);
    match Surface(t, SourceSet(h, sources, concept))
    case Err(e) => Err(e)
    case Ok(cells) =>
      Ok(DescentResult(text, concept, name, Router.IsAmbiguous(h, sources, concept),
                       Router.SourcesFor(h, sources, concept), RefsOf(cells)))
  }

  // ---- what surfaces ----

  lemma {:induction false} SelectExact(
    cells: seq<Cell>, sources: set<string>, sourceOf: Cell -> Result<string>, c: Cell)
    ensures c in Select(cells, sources, sourceOf) <==> c in cells && IsSurfaced(c, sources, sourceOf)
  {
    if cells != [] {
      SelectExact(cells[..|cells| - 1], sources, sourceOf, c);
      assert cells == cells[..|cells| - 1] + [cells[|cells| - 1]];
    }
  }

  ghost predicate IsCandidate(
    h: Router.Hierarchy, sources: Router.Sources, t: Store.Table, concept: string, c: Cell)
  {
    var surfaced := Surface(t, SourceSet(h, sources, concept));
    surfaced.Ok? && c in surfaced.value
  }

  /** A cell surfaces for a concept exactly when it is stored, identifies a person, and its source is
      registered under a concept from which the parent links lead up to this one. */
  lemma CandidateExactly(
    h: Router.Hierarchy, sources: Router.Sources, t: Store.Table, concept: string, c: Cell)
    requires Router.Validated(h, sources) && Store.Keyed(t)
    requires Surface(t, SourceSet(h, sources, concept)).Ok?
    ensures IsCandidate(h, sources, t, concept, c) <==>
            && c.cellId in t && t[c.cellId].cell == c && c.typ.ontologyNode == "person"
            && SourceOf(c).Ok? && SourceOf(c).value in sources
            && Router.Reaches(h, sources[SourceOf(c).value], concept)
  {
    SelectExact(Store.AllCells(t), SourceSet(h, sources, concept), SourceOf, c);
    Masters.AllCellsExact(t, c);
    if SourceOf(c).Ok? {
      Router.SourcesExactly(h, sources, concept, SourceOf(c).value);
    }
  }

  /** A descent raises exactly when the locator of some stored cell that identifies a person does not parse. */
  lemma SurfaceFailsExactly(t: Store.Table, sources: set<string>)
    requires Store.Keyed(t)
    ensures Surface(t, sources).Err? <==>
            exists id :: id in t && t[id].cell.typ.ontologyNode == "person" && SourceOf(t[id].cell).Err?
    ensures Surface(t, sources).Err? ==> Surface(t, sources).error == ValueError
  {
    if id :| id in t && t[id].cell.typ.ontologyNode == IDENTIFYING_NODE && SourceOf(t[id].cell).Err? {
      Masters.AllCellsExact(t, t[id].cell);
    }
    if c :| c in Store.AllCells(t) && c.typ.ontologyNode == IDENTIFYING_NODE && SourceOf(c).Err? {
      Masters.AllCellsExact(t, c);
    }
  }

  lemma SurfaceFailsAlike(t: Store.Table, some: set<string>, others: set<string>)
    ensures Surface(t, some).Ok? <==> Surface(t, others).Ok?
  {
  }

  /** Whatever surfaces for a concept surfaces for each of its ancestors. */
  lemma CandidatesWiden(
    h: Router.Hierarchy, sources: Router.Sources, t: Store.Table, concept: string, ancestor: string, c: Cell)
    requires Router.Validated(h, sources) && Store.Keyed(t)
    requires ancestor in Router.Ancestors(h, concept) && IsCandidate(h, sources, t, concept, c)
    ensures IsCandidate(h, sources, t, ancestor, c)
  {
    SurfaceFailsAlike(t, SourceSet(h, sources, concept), SourceSet(h, sources, ancestor));
    CandidateExactly(h, sources, t, concept, c);
    CandidateExactly(h, sources, t, ancestor, c);
    Router.AncestorsExactly(h, concept, ancestor);
    Router.ReachesTrans(h, sources[SourceOf(c).value], concept, ancestor);
  }

  /** A cell surfaces for two concepts only if one of them is an ancestor of the other. */
  lemma SharedCandidateRelates(
    h: Router.Hierarchy, sources: Router.Sources, t: Store.Table, a: string, b: string, c: Cell)
    requires Router.Validated(h, sources) && Store.Keyed(t)
    requires IsCandidate(h, sources, t, a, c) && IsCandidate(h, sources, t, b, c)
    ensures a in Router.Ancestors(h, b) || b in Router.Ancestors(h, a)
  {
    CandidateExactly(h, sources, t, a, c);
    CandidateExactly(h, sources, t, b, c);
    Router.SourcesExactly(h, sources, a, SourceOf(c).value);
    Router.SourcesExactly(h, sources, b, SourceOf(c).value);
    Router.SharedSourceRelates(h, sources, a, b, SourceOf(c).value);
  }

  lemma {:induction false} SelectInOrder(cells: seq<Cell>, sources: set<string>, sourceOf: Cell -> Result<string>)
    requires Masters.InOrder(cells)
    ensures Masters.InOrder(Select(cells, sources, sourceOf))
  {
    if cells != [] {
      var (before, last) := (cells[..|cells| - 1], cells[|cells| - 1]);
      SelectInOrder(before, sources, sourceOf);
      forall c | c in Select(before, sources, sourceOf)
        ensures c.cellId != last.cellId && Text.Le(c.cellId, last.cellId)
      {
        SelectExact(before, sources, sourceOf, c);
        var i :| 0 <= i < |before| && before[i] == c;
        assert cells[i] == c;
      }
    }
  }

  /** A query is routed by its concept. Its references are those of exactly the cells that surface for the
      concept, in the order of their ids, and its sources those whose concepts lead up to it. It is under-specified
      exactly when two of them hold different concepts. */
  lemma QueryExactly(
    lower: string -> string, h: Router.Hierarchy, sources: Router.Sources, t: Store.Table, text: string)
    returns (cells: seq<Cell>)
    requires Router.Validated(h, sources) && Store.Keyed(t) && Query(lower, h, sources, t, text).Ok?
    ensures var r := Query(lower, h, sources, t, text).value;
            && (r.concept, r.name) == Router.ResolveConcept(lower, h, text, "person")
            && r.query == text
            && (r.underSpecified <==>
                exists a, b :: a in r.sources && b in r.sources && a in sources && b in sources
                  && sources[a] != sources[b])
            && r.candidateRefs == RefsOf(cells) && Masters.InOrder(cells)
            && (forall c :: c in cells <==> IsCandidate(h, sources, t, r.concept, c))
            && forall s :: s in r.sources <==> s in sources && Router.Reaches(h, sources[s], r.concept)
  {
    var r := Query(lower, h, sources, t, text).value;
    cells := Surface(t, SourceSet(h, sources, r.concept)).value;
    Router.AmbiguousExactly(h, sources, r.concept);
    Masters.ReadsInOrder(t, r => true);
    SelectInOrder(Store.AllCells(t), SourceSet(h, sources, r.concept), SourceOf);
    forall s
      ensures s in r.sources <==> s in sources && Router.Reaches(h, sources[s], r.concept)
    {
      Router.SourcesExactly(h, sources, r.concept, s);
    }
  }
}
