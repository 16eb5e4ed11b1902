/** The conflict object: several values for one node are surfaced, never silently resolved. */
module Conflict {
  import opened Contract

  /** A timestamp is None when the source has none. */
  datatype ConflictValue = ConflictValue(value: string, source: string, timestamp: Option<int>)

  datatype Status = Agreed | Ordered | Unordered

  datatype ConflictSet = ConflictSet(
    principalId: PrincipalId,
    node: string,
    values: seq<ConflictValue>,
    status: Status,
    defaultSelection: Option<nat>)

  predicate AllStamped(values: seq<ConflictValue>) {
    forall v :: v in values ==> v.timestamp.Some?
  }

  /** `max` over the indices, by timestamp. */
  function Latest(values: seq<ConflictValue>): (i: nat)
    requires values != [] && AllStamped(values)
    ensures i < |values|
  {
    var n := |values| - 1;
    assert values[n] in values;
    if n == 0 then
      0
    else
      var best := Latest(values[..n]);
      assert values[best] in values;
      if values[n].timestamp.value > values[best].timestamp.value then n else best
  }

  function BuildConflict(principalId: PrincipalId, node: string, values: seq<ConflictValue>): ConflictSet {
    var distinct := set v | v in values :: v.value;
    if |distinct| <= 1 then
      ConflictSet(principalId, node, values, Agreed, if values != [] then Some(0) else None)
    else if values != [] && AllStamped(values) then
      ConflictSet(principalId, node, values, Ordered, Some(Latest(values)))
    else
      ConflictSet(principalId, node, values, Unordered, None)
  }

  // ---- what the status means ----

  ghost predicate AllEqual(values: seq<ConflictValue>) {
    forall i, j :: 0 <= i < |values| && 0 <= j < |values| ==> values[i].value == values[j].value
  }

  /** Position `i` holds the latest timestamp, and is the first to hold it. */
  ghost predicate FirstLatest(values: seq<ConflictValue>, i: nat)
    requires AllStamped(values)
  {
    && i < |values|
    && (forall j :: 0 <= j < |values| ==> Stamp(values, j) <= Stamp(values, i))
    && (forall j :: 0 <= j < i ==> Stamp(values, j) < Stamp(values, i))
  }

  ghost function Stamp(values: seq<ConflictValue>, i: nat): int
    requires AllStamped(values) && i < |values|
  {
    assert values[i] in values;
    values[i].timestamp.value
  }

  lemma {:induction false} LatestIsFirst(values: seq<ConflictValue>)
    requires values != [] && AllStamped(values)
    ensures FirstLatest(values, Latest(values))
  {
    var n := |values| - 1;
    if n > 0 {
      var before := values[..n];
      LatestIsFirst(before);
      assert forall j :: 0 <= j < n ==> Stamp(before, j) == Stamp(values, j);
    }
  }

  lemma AtMostOne(values: seq<ConflictValue>)
    ensures |set v | v in values :: v.value| <= 1 <==> AllEqual(values)
  {
    var distinct := set v | v in values :: v.value;
    if AllEqual(values) {
      if values != [] {
        assert distinct == {values[0].value};
      } else {
        assert distinct == {};
      }
    } else {
      var i, j :| 0 <= i < |values| && 0 <= j < |values| && values[i].value != values[j].value;
      assert {values[i].value, values[j].value} <= distinct;
      SubsetSize({values[i].value, values[j].value}, distinct);
    }
  }

  lemma {:induction false} SubsetSize(small: set<string>, big: set<string>)
    requires small <= big
    ensures |small| <= |big|
  {
    if small != {} {
      var x :| x in small;
      SubsetSize(small - {x}, big - {x});
    }
  }

  /** Every value is kept. The set is agreed exactly when all its values are equal; otherwise it is
      ordered exactly when all are timestamped, and then the first of the latest is offered. */
  lemma ConflictExactly(principalId: PrincipalId, node: string, values: seq<ConflictValue>)
    ensures var c := BuildConflict(principalId, node, values);
            && c.principalId == principalId && c.node == node && c.values == values
            && (c.status == Agreed <==> AllEqual(values))
            && (c.status == Ordered <==> !AllEqual(values) && AllStamped(values))
            && (c.status == Agreed ==> c.defaultSelection == if values == [] then None else Some(0))
            && (c.status == Unordered ==> c.defaultSelection == None)
            && (c.status == Ordered ==>
                  c.defaultSelection.Some? && FirstLatest(values, c.defaultSelection.value))
  {
    AtMostOne(values);
    if !AllEqual(values) && AllStamped(values) {
      LatestIsFirst(values);
    }
  }
}
