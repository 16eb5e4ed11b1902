/** The gate, its predicates, and the registry that fails closed. */
module Gate {
  import opened Contract

  /** Expiry first, then the predicate. `now` is the clock reading of this check. */
  predicate Check(cap: Capability, allowed: Predicate, ctx: Context, now: int) {
    !(cap.expiry < now) && allowed(cap, ctx)
  }

  predicate DenyAny(cap: Capability, ctx: Context) {
    false
  }

  /** Who may read values, and so who may have identities resolved. */
  predicate HrDereference(cap: Capability, ctx: Context) {
    cap.purpose in {"cross_source_query", "dsar_response"} && "clearance:hr" in cap.caveats
  }

  const DENY_ALL: CellPolicy := CellPolicy("__deny_all__", DenyAny, DenyAny, DenyAny, DenyAny)

  type Policies = map<string, CellPolicy>

  function PolicyFor(byId: Policies, policyId: string): CellPolicy {
    if policyId in byId then byId[policyId] else DENY_ALL
  }

  /** The policies by id, a later one replacing an earlier. */
  function ById(policies: seq<CellPolicy>): Policies {
    if policies == [] then
      map[]
    else
      var last := policies[|policies| - 1];
      ById(policies[..|policies| - 1])[last.policyId := last]
  }

  lemma {:induction false} ByIdExactly(policies: seq<CellPolicy>)
    ensures forall id :: id in ById(policies) <==> exists p :: p in policies && p.policyId == id
    ensures forall i {:trigger policies[i]} :: 0 <= i < |policies| && IsLast(policies, i) ==>
              ById(policies)[policies[i].policyId] == policies[i]
  {
    if policies != [] {
      var (before, last) := (policies[..|policies| - 1], policies[|policies| - 1]);
      ByIdExactly(before);
      assert policies == before + [last];
      forall i | 0 <= i < |before| && IsLast(policies, i)
        ensures policies[i].policyId != last.policyId && IsLast(before, i)
      {
        assert forall j :: i < j < |before| ==> before[j] == policies[j];
      }
    }
  }

  /** No later policy has the id of policy `i`. */
  ghost predicate IsLast(policies: seq<CellPolicy>, i: nat)
    requires i < |policies|
  {
    forall j :: i < j < |policies| ==> policies[j].policyId != policies[i].policyId
  }

  class PolicyRegistry {
    var byId: Policies
    var unknownLookups: nat

    constructor (policies: seq<CellPolicy>)
      ensures unknownLookups == 0
      ensures forall id :: id in byId <==> exists p :: p in policies && p.policyId == id
      ensures forall i {:trigger policies[i]} :: 0 <= i < |policies| && IsLast(policies, i) ==>
                byId[policies[i].policyId] == policies[i]
    {
      byId, unknownLookups := map[], 0;
      new;
      for i := 0 to |policies|
        invariant byId == ById(policies[..i]) && unknownLookups == 0
      {
        assert policies[..i + 1][..i] == policies[..i];
        byId := byId[policies[i].policyId := policies[i]];
      }
      assert policies[..|policies|] == policies;
      ByIdExactly(policies);
    }

    method Get(policyId: string) returns (policy: CellPolicy)
      modifies this`unknownLookups
      ensures policy == PolicyFor(byId, policyId)
      ensures policyId !in byId ==> policy.policyId == "__deny_all__"
      ensures policyId !in byId ==>
                forall cap, ctx ::
                  && !policy.dereference(cap, ctx) && !policy.seeExistence(cap, ctx)
                  && !policy.seeType(cap, ctx) && !policy.seeState(cap, ctx)
      ensures unknownLookups == old(unknownLookups) + if policyId in byId then 0 else 1
    {
      if policyId in byId {
        policy := byId[policyId];
      } else {
        unknownLookups := unknownLookups + 1;
        policy := DENY_ALL;
      }
    }

    method Register(policy: CellPolicy)
      modifies this`byId
      ensures byId == old(byId)[policy.policyId := policy]
    {
      byId := byId[policy.policyId := policy];
    }
  }
}
