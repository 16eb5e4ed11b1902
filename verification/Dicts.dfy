/** Insertion-ordered dictionaries: setting a known key replaces its value and keeps its place. */
module Dicts {

  datatype Dict<V> = Dict(keys: seq<string>, at: map<string, V>)

  ghost predicate IsDict<V>(d: Dict<V>) {
    && (forall k :: k in d.keys <==> k in d.at)
    && forall i, j :: 0 <= i < j < |d.keys| ==> d.keys[i] != d.keys[j]
  }

  function Empty<V>(): (d: Dict<V>)
    ensures IsDict(d)
  {
    Dict([], map[])
  }

  function Set<V>(d: Dict<V>, k: string, v: V): (d': Dict<V>)
    requires IsDict(d)
    ensures IsDict(d')
  {
    Dict(if k in d.at then d.keys else d.keys + [k], d.at[k := v])
  }

  function Values<V>(d: Dict<V>): (vs: seq<V>)
    requires IsDict(d)
    ensures |vs| == |d.keys| && forall i :: 0 <= i < |vs| ==> vs[i] == d.at[d.keys[i]]
  {
    seq(|d.keys|, i requires 0 <= i < |d.keys| => d.at[d.keys[i]])
  }

  lemma SetSame<V>(d: Dict<V>, k: string, v: V)
    requires IsDict(d) && k in d.at && d.at[k] == v
    ensures Set(d, k, v) == d
  {
  }

  // ---- filling a dictionary ----

  function SetAll<V>(pairs: seq<(string, V)>): (d: Dict<V>)
    ensures IsDict(d)
  {
    if pairs == [] then
      Empty()
    else
      var (k, v) := pairs[|pairs| - 1];
      Set(SetAll(pairs[..|pairs| - 1]), k, v)
  }

  lemma SetAllNext<V>(pairs: seq<(string, V)>, k: string, v: V)
    ensures SetAll(pairs + [(k, v)]) == Set(SetAll(pairs), k, v)
  {
    assert (pairs + [(k, v)])[..|pairs|] == pairs;
  }

  lemma {:induction false} SetAllKeys<V>(pairs: seq<(string, V)>, k: string)
    ensures k in SetAll(pairs).at <==> exists i :: 0 <= i < |pairs| && pairs[i].0 == k
  {
    if pairs != [] {
      var before, n := pairs[..|pairs| - 1], |pairs| - 1;
      SetAllKeys(before, k);
      assert forall i :: 0 <= i < n ==> before[i] == pairs[i];
    }
  }

  lemma {:induction false} SetAllLast<V>(pairs: seq<(string, V)>, i: nat)
    requires i < |pairs| && forall j :: i < j < |pairs| ==> pairs[j].0 != pairs[i].0
    ensures pairs[i].0 in SetAll(pairs).at && SetAll(pairs).at[pairs[i].0] == pairs[i].1
  {
    var before, n := pairs[..|pairs| - 1], |pairs| - 1;
    if i < n {
      assert forall j :: 0 <= j < n ==> before[j] == pairs[j];
      SetAllLast(before, i);
    }
  }

  /** Each key has a value from the last pair that set it; there are no other keys. */
  lemma SetAllExact<V>(pairs: seq<(string, V)>, k: string)
    ensures k in SetAll(pairs).at <==> exists i :: 0 <= i < |pairs| && pairs[i].0 == k
    ensures forall i :: 0 <= i < |pairs| && pairs[i].0 == k && (forall j :: i < j < |pairs| ==> pairs[j].0 != k)
              ==> SetAll(pairs).at[k] == pairs[i].1
  {
    SetAllKeys(pairs, k);
    forall i | 0 <= i < |pairs| && pairs[i].0 == k && (forall j :: i < j < |pairs| ==> pairs[j].0 != k)
      ensures SetAll(pairs).at[k] == pairs[i].1
    {
      SetAllLast(pairs, i);
    }
  }

  /** The position of the first pair that sets `k`. */
  ghost predicate FirstAt<V>(pairs: seq<(string, V)>, i: nat, k: string) {
    i < |pairs| && pairs[i].0 == k && forall j :: 0 <= j < i ==> pairs[j].0 != k
  }

  /** The keys stand in the order in which they were first set. */
  lemma {:induction false} SetAllInOrder<V>(pairs: seq<(string, V)>, p: nat, q: nat, i: nat, j: nat)
    requires p < |SetAll(pairs).keys| && q < |SetAll(pairs).keys|
    requires FirstAt(pairs, i, SetAll(pairs).keys[p]) && FirstAt(pairs, j, SetAll(pairs).keys[q])
    ensures p < q <==> i < j
  {
    var before, n := pairs[..|pairs| - 1], |pairs| - 1;
    var (d, last) := (SetAll(before), pairs[n].0);
    SetAllKeys(before, last);
    SetAllKeys(before, SetAll(pairs).keys[p]);
    SetAllKeys(before, SetAll(pairs).keys[q]);
    assert forall x :: 0 <= x < n ==> before[x] == pairs[x];
    if p < |d.keys| && q < |d.keys| {
      FirstWasSet(pairs, i, d.keys[p]);
      FirstWasSet(pairs, j, d.keys[q]);
      SetAllInOrder(before, p, q, i, j);
    } else if p < |d.keys| {
      FirstWasSet(pairs, i, d.keys[p]);
    } else if q < |d.keys| {
      FirstWasSet(pairs, j, d.keys[q]);
    }
  }

  lemma FirstWasSet<V>(pairs: seq<(string, V)>, i: nat, k: string)
    requires pairs != [] && k in SetAll(pairs[..|pairs| - 1]).at && FirstAt(pairs, i, k)
    ensures i < |pairs| - 1 && FirstAt(pairs[..|pairs| - 1], i, k)
  {
    var before := pairs[..|pairs| - 1];
    SetAllKeys(before, k);
    var x :| 0 <= x < |before| && before[x].0 == k;
    assert pairs[x].0 == k;
  }

  /** With one value to each key, the order of filling shows only in the order of the keys. */
  lemma SetAllPermuted<V>(pairs: seq<(string, V)>, pairs': seq<(string, V)>)
    requires forall p, q :: p in pairs && q in pairs && p.0 == q.0 ==> p == q
    requires forall p :: p in pairs <==> p in pairs'
    ensures SetAll(pairs).at == SetAll(pairs').at
  {
    var (at, at') := (SetAll(pairs).at, SetAll(pairs').at);
    forall k
      ensures k in at <==> k in at'
      ensures k in at ==> at[k] == at'[k]
    {
      SetAllExact(pairs, k);
      SetAllExact(pairs', k);
      assert k in at <==> k in at' by {
        if k in at { assert pairs[LastIndex(pairs, k)] in pairs'; }
        if k in at' { assert pairs'[LastIndex(pairs', k)] in pairs; }
      }
      if k in at {
        var i, j := LastIndex(pairs, k), LastIndex(pairs', k);
        assert pairs[i] in pairs' && pairs'[j] in pairs;
      }
    }
  }

  /** The position of the last pair that sets `k`. */
  ghost function LastIndex<V>(pairs: seq<(string, V)>, k: string): (i: nat)
    requires exists i :: 0 <= i < |pairs| && pairs[i].0 == k
    ensures i < |pairs| && pairs[i].0 == k && forall j :: i < j < |pairs| ==> pairs[j].0 != k
  {
    var n := |pairs| - 1;
    if pairs[n].0 == k then
      n
    else
      assert forall j :: 0 <= j < n ==> pairs[..n][j] == pairs[j];
      LastIndex(pairs[..n], k)
  }
}
