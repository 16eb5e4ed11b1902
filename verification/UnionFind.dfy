/** The disjoint-set forest inside `Resolver.resolve`: nested `find` and `union` over `parent`. */
module UnionFind {
  import opened Contract
  import opened Connectivity

  /** The classes of `a` and `b` become one, under the representative of `b`. */
  ghost function Merged(rep: map<RowKey, RowKey>, a: RowKey, b: RowKey): map<RowKey, RowKey>
    requires a in rep && b in rep
  {
    map k | k in rep :: if rep[k] == rep[a] then rep[b] else rep[k]
  }

  /** Joining two classes accounts for exactly one more edge. */
  lemma MergedLabels(edges: Edges, rep: map<RowKey, RowKey>, a: RowKey, b: RowKey)
    requires Labels(edges, rep) && a in rep && b in rep
    ensures Labels(edges + {(a, b)}, Merged(rep, a, b))
  {
    var more := edges + {(a, b)};
    LinkedStep(more, a, b);
    LinkedSym(more, a, b);
    forall x, y | x in rep && y in rep && Merged(rep, a, b)[x] == Merged(rep, a, b)[y]
      ensures Linked(more, x, y)
    {
      if rep[x] == rep[y] {
        LinkedMono(edges, more, x, y);
      } else {
        var (end, other) := if rep[x] == rep[a] then (a, b) else (b, a);
        LinkedMono(edges, more, x, end);
        LinkedMono(edges, more, other, y);
        LinkedTrans(more, x, end, other);
        LinkedTrans(more, x, other, y);
      }
    }
  }

  /** A proof that `parent` is a forest: the root of every key, and a rank that rises up to it. */
  datatype Ranking = Ranking(rep: map<RowKey, RowKey>, rank: map<RowKey, nat>, top: nat)

  ghost predicate Climbs(parent: map<RowKey, RowKey>, r: Ranking, k: RowKey)
    requires parent.Keys == r.rep.Keys == r.rank.Keys && k in parent
  {
    && parent[k] in parent
    && r.rank[k] <= r.top
    && (parent[k] != k ==> r.rank[k] < r.rank[parent[k]])
    && r.rep[parent[k]] == r.rep[k]
    && (parent[k] == k <==> r.rep[k] == k)
    && r.rep[k] in parent
  }

  ghost predicate IsForest(parent: map<RowKey, RowKey>, r: Ranking) {
    && parent.Keys == r.rep.Keys == r.rank.Keys
    && forall k {:trigger Climbs(parent, r, k)} :: k in parent ==> Climbs(parent, r, k)
  }

  /** Moving one link a step up changes neither a root nor who leads to it. */
  lemma HalvingKeepsForest(parent: map<RowKey, RowKey>, r: Ranking, x: RowKey)
    requires IsForest(parent, r) && x in parent && parent[x] != x
    ensures Climbs(parent, r, x) && Climbs(parent, r, parent[x])
    ensures IsForest(parent[x := parent[parent[x]]], r)
  {
    assert Climbs(parent, r, x) && Climbs(parent, r, parent[x]);
    var after := parent[x := parent[parent[x]]];
    forall k | k in after
      ensures Climbs(after, r, k)
    {
      assert Climbs(parent, r, k);
    }
  }

  /** Lifts the ranks of the class of `b` above those of `a`. */
  ghost function Lifted(r: Ranking, a: RowKey, b: RowKey): Ranking
    requires r.rep.Keys == r.rank.Keys && a in r.rep && b in r.rep
  {
    if r.rep[a] == r.rep[b] then
      r
    else
      Ranking(
        Merged(r.rep, a, b),
        map k | k in r.rank :: if r.rep[k] == r.rep[b] then r.rank[k] + r.top + 1 else r.rank[k],
        r.top + r.top + 1)
  }

  /** A representative is a root. */
  lemma {:induction false} RootOfRoot(parent: map<RowKey, RowKey>, r: Ranking, k: RowKey)
    requires IsForest(parent, r) && k in parent
    ensures r.rep[k] in parent && parent[r.rep[k]] == r.rep[k] && r.rep[r.rep[k]] == r.rep[k]
    decreases r.top - r.rank[k]
  {
    assert Climbs(parent, r, k);
    if parent[k] != k {
      assert Climbs(parent, r, parent[k]);
      RootOfRoot(parent, r, parent[k]);
    }
  }

  lemma LiftedIsMerged(r: Ranking, a: RowKey, b: RowKey)
    requires r.rep.Keys == r.rank.Keys && a in r.rep && b in r.rep
    ensures Lifted(r, a, b).rep == Merged(r.rep, a, b)
    ensures Lifted(r, a, b).rep.Keys == Lifted(r, a, b).rank.Keys == r.rep.Keys
  {
    if r.rep[a] == r.rep[b] {
      assert Merged(r.rep, a, b) == r.rep;
    }
  }

  lemma LinkingKeepsForest(parent: map<RowKey, RowKey>, r: Ranking, a: RowKey, b: RowKey)
    requires IsForest(parent, r) && a in parent && b in parent
    ensures r.rep[a] in parent && r.rep[b] in parent
    ensures IsForest(parent[r.rep[a] := r.rep[b]], Lifted(r, a, b))
  {
    var ra, rb := r.rep[a], r.rep[b];
    RootOfRoot(parent, r, a);
    RootOfRoot(parent, r, b);
    if ra == rb {
      assert parent[ra := rb] == parent;
    } else {
      LiftedIsMerged(r, a, b);
      var after, lifted := parent[ra := rb], Lifted(r, a, b);
      assert after.Keys == parent.Keys;
      forall k | k in after
        ensures Climbs(after, lifted, k)
      {
        LinkingKeepsClimb(parent, r, a, b, k);
      }
    }
  }

  lemma LinkingKeepsClimb(parent: map<RowKey, RowKey>, r: Ranking, a: RowKey, b: RowKey, k: RowKey)
    requires IsForest(parent, r) && a in parent && b in parent && k in parent
    requires r.rep[a] != r.rep[b]
    ensures r.rep[a] in parent
    ensures Climbs(parent[r.rep[a] := r.rep[b]], Lifted(r, a, b), k)
  {
    RootOfRoot(parent, r, a);
    RootOfRoot(parent, r, b);
    RootOfRoot(parent, r, k);
    assert Climbs(parent, r, k) && Climbs(parent, r, parent[k]);
    assert Climbs(parent, r, r.rep[a]) && Climbs(parent, r, r.rep[b]);
  }

  class Forest {
    var parent: map<RowKey, RowKey>

    ghost var ranking: Ranking
    ghost var edges: Edges  // the pairs united so far

    ghost predicate Valid()
      reads this
    {
      IsForest(parent, ranking) && Labels(edges, ranking.rep)
    }

    constructor (keys: seq<RowKey>)
      ensures Valid()
      ensures parent == map k | k in keys :: k
      ensures ranking.rep == parent && edges == {}
    {
      parent := map k | k in keys :: k;
      ranking := Ranking(map k | k in keys :: k, map k | k in keys :: 0, 0);
      edges := {};
      new;
      forall a, b | a in ranking.rep && b in ranking.rep && ranking.rep[a] == ranking.rep[b]
        ensures Linked(edges, a, b)
      {
        LinkedRefl(edges, a);
      }
    }

    /** Walks to the root, halving the path: every other link on the way is moved up one step. */
    method Find(x: RowKey) returns (root: RowKey)
      requires Valid() && x in parent
      modifies this`parent
      ensures Valid()
      ensures parent.Keys == old(parent.Keys)
      ensures root == ranking.rep[x] && root in parent && parent[root] == root
    {
      root := x;
      while parent[root] != root
        invariant IsForest(parent, ranking) && parent.Keys == old(parent.Keys)
        invariant root in parent && ranking.rep[root] == ranking.rep[x]
        decreases ranking.top - ranking.rank[root]
      {
        HalvingKeepsForest(parent, ranking, root);
        parent := parent[root := parent[parent[root]]];
        root := parent[root];
      }
      assert Climbs(parent, ranking, root);
    }

    /** The assigned value is evaluated before the subscript, so `b` is walked first. */
    method Union(a: RowKey, b: RowKey)
      requires Valid() && a in parent && b in parent
      modifies this
      ensures Valid()
      ensures parent.Keys == old(parent.Keys)
      ensures ranking.rep == Merged(old(ranking.rep), a, b)
      ensures edges == old(edges) + {(a, b)}
    {
      var rb := Find(b);
      var ra := Find(a);
      LinkingKeepsForest(parent, ranking, a, b);
      LiftedIsMerged(ranking, a, b);
      MergedLabels(edges, ranking.rep, a, b);
      parent := parent[ra := rb];
      ranking := Lifted(ranking, a, b);
      edges := edges + {(a, b)};
    }
  }
}
