/** Chains of edges: the reflexive, symmetric and transitive closure of a set of pairs. */
module Connectivity {

  type Edges = set<(string, string)>

  ghost predicate Joined(edges: Edges, a: string, b: string) {
    (a, b) in edges || (b, a) in edges
  }

  /** Every two neighbours on `path` are an edge, in one direction or the other. */
  ghost predicate IsPath(edges: Edges, path: seq<string>) {
    && path != []
    && forall i :: 0 <= i < |path| - 1 ==> Joined(edges, path[i], path[i + 1])
  }

  ghost predicate Goes(edges: Edges, path: seq<string>, a: string, b: string) {
    IsPath(edges, path) && path[0] == a && path[|path| - 1] == b
  }

  ghost predicate Linked(edges: Edges, a: string, b: string) {
    exists path :: Goes(edges, path, a, b)
  }

  lemma LinkedRefl(edges: Edges, a: string)
    ensures Linked(edges, a, a)
  {
    assert Goes(edges, [a], a, a);
  }

  lemma LinkedStep(edges: Edges, a: string, b: string)
    requires Joined(edges, a, b)
    ensures Linked(edges, a, b)
  {
    assert Goes(edges, [a, b], a, b);
  }

  lemma LinkedTrans(edges: Edges, a: string, b: string, c: string)
    requires Linked(edges, a, b) && Linked(edges, b, c)
    ensures Linked(edges, a, c)
  {
    var p :| Goes(edges, p, a, b);
    var q :| Goes(edges, q, b, c);
    assert Goes(edges, p + q[1..], a, c);
  }

  lemma LinkedSym(edges: Edges, a: string, b: string)
    requires Linked(edges, a, b)
    ensures Linked(edges, b, a)
  {
    var p :| Goes(edges, p, a, b);
    var q := seq(|p|, i requires 0 <= i < |p| => p[|p| - 1 - i]);
    forall i | 0 <= i < |q| - 1
      ensures Joined(edges, q[i], q[i + 1])
    {
      assert Joined(edges, p[|p| - 2 - i], p[|p| - 2 - i + 1]);
    }
    assert Goes(edges, q, b, a);
  }

  lemma InitIsPath(edges: Edges, path: seq<string>)
    requires IsPath(edges, path) && |path| > 1
    ensures IsPath(edges, path[..|path| - 1])
    ensures Joined(edges, path[|path| - 2], path[|path| - 1])
  {
    var init := path[..|path| - 1];
    forall i | 0 <= i < |init| - 1
      ensures Joined(edges, init[i], init[i + 1])
    {
      assert Joined(edges, path[i], path[i + 1]);
    }
    assert Joined(edges, path[|path| - 2], path[|path| - 2 + 1]);
  }

  /** A chain survives when edges are replaced by chains: closures are monotone and idempotent. */
  lemma {:induction false} PathIn(small: Edges, path: seq<string>, big: Edges)
    requires IsPath(small, path)
    requires forall a, b :: (a, b) in small ==> Linked(big, a, b)
    ensures Linked(big, path[0], path[|path| - 1])
    decreases |path|
  {
    if |path| == 1 {
      LinkedRefl(big, path[0]);
    } else {
      var n := |path|;
      InitIsPath(small, path);
      PathIn(small, path[..n - 1], big);
      if (path[n - 1], path[n - 2]) in small {
        LinkedSym(big, path[n - 1], path[n - 2]);
      }
      LinkedTrans(big, path[0], path[n - 2], path[n - 1]);
    }
  }

  lemma LinkedIn(small: Edges, big: Edges, a: string, b: string)
    requires Linked(small, a, b)
    requires forall x, y :: (x, y) in small ==> Linked(big, x, y)
    ensures Linked(big, a, b)
  {
    var p :| Goes(small, p, a, b);
    PathIn(small, p, big);
  }

  lemma LinkedMono(small: Edges, big: Edges, a: string, b: string)
    requires Linked(small, a, b) && small <= big
    ensures Linked(big, a, b)
  {
    forall x, y | (x, y) in small
      ensures Linked(big, x, y)
    {
      LinkedStep(big, x, y);
    }
    LinkedIn(small, big, a, b);
  }

  /** A labelling that no edge changes is constant along every chain. */
  lemma {:induction false} LabelAlong(edges: Edges, path: seq<string>, cls: map<string, string>)
    requires IsPath(edges, path) && path[0] in cls
    requires forall a, b :: (a, b) in edges ==> a in cls && b in cls && cls[a] == cls[b]
    ensures path[|path| - 1] in cls && cls[path[|path| - 1]] == cls[path[0]]
    decreases |path|
  {
    if |path| > 1 {
      var n := |path|;
      InitIsPath(edges, path);
      LabelAlong(edges, path[..n - 1], cls);
    }
  }

  /** `cls` names exactly the chain-connected classes of `edges`. */
  ghost predicate Labels(edges: Edges, cls: map<string, string>) {
    && (forall a, b :: (a, b) in edges ==> a in cls && b in cls && cls[a] == cls[b])
    && (forall a, b :: a in cls && b in cls && cls[a] == cls[b] ==> Linked(edges, a, b))
  }

  lemma LabelsExact(edges: Edges, cls: map<string, string>, a: string, b: string)
    requires Labels(edges, cls) && a in cls
    ensures Linked(edges, a, b) <==> b in cls && cls[a] == cls[b]
  {
    if Linked(edges, a, b) {
      var p :| Goes(edges, p, a, b);
      LabelAlong(edges, p, cls);
    }
  }
}
