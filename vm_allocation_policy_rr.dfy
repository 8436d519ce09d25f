/**
 * `VmAllocationPolicyRR`: places VMs on hosts under a PE ledger. The default
 * strategy tries hosts in ascending order of their current VM count (ties to
 * the lower index), retrying on refusal; a greedy first-fit strategy and a
 * direct placement on a given host are also offered.
 *
 * Hosts are named by their index in the host list; `hostPes[h]` is the PE
 * count of host `h`. What a host answers to `vmCreate`, and how many VMs it
 * runs, are inputs of each call.
 */
module VmAllocationPolicyRR {

  import opened Wrappers
  import opened PeLedger
  import HostSelection

  class VmAllocationPolicyRR {
    const hostPes: seq<nat>
    var vmTable: map<Uid, nat>
    var usedPes: map<Uid, int>
    var freePes: seq<int>

    function State(): Ledger
      reads this
    {
      Ledger(vmTable, usedPes, freePes)
    }

    ghost predicate Valid()
      reads this
    {
      Consistent(hostPes, State())
    }

    /** Every host starts with all its PEs free and both maps empty. */
    constructor (hostPes: seq<nat>)
      ensures Valid() && this.hostPes == hostPes
      ensures State() == Initial(hostPes)
    {
      this.hostPes := hostPes;
      freePes := hostPes;
      vmTable := map[];
      usedPes := map[];
    }

    /** The default allocation is the round-robin (least VM count) strategy. */
    method AllocateHostForVm(uid: Uid, requiredPes: nat, vmCounts: seq<nat>, accepts: seq<bool>) returns (result: bool)
      requires Valid()
      requires |vmCounts| == |accepts| == |hostPes|
      requires uid !in vmTable ==> |hostPes| > 0
      requires forall h :: 0 <= h < |vmCounts| ==> vmCounts[h] < HostSelection.IntMax
      modifies this
      ensures Valid()
      ensures uid in old(vmTable) ==> !result && State() == old(State())
      ensures uid !in old(vmTable) ==> (result <==> exists h :: 0 <= h < |accepts| && accepts[h])
      ensures !result ==> State() == old(State())
      ensures result ==> exists h :: 0 <= h < |accepts| && accepts[h] && State() == Book(old(State()), uid, h, requiredPes)
                                   && forall g :: 0 <= g < |accepts| && accepts[g] && g != h ==> HostSelection.Before(vmCounts, h, g)
    {
      result := AllocateHostForVmRR(uid, requiredPes, vmCounts, accepts);
    }

    /**
     * Least-VM-count placement with retry: the VM lands on the accepting host
     * that comes first by (VM count, index), and nowhere if every host refuses.
     */
    method AllocateHostForVmRR(uid: Uid, requiredPes: nat, vmCounts: seq<nat>, accepts: seq<bool>) returns (result: bool)
      requires Valid()
      requires |vmCounts| == |accepts| == |hostPes|
      requires uid !in vmTable ==> |hostPes| > 0
      requires forall h :: 0 <= h < |vmCounts| ==> vmCounts[h] < HostSelection.IntMax
      modifies this
      ensures Valid()
      ensures uid in old(vmTable) ==> !result && State() == old(State())
      ensures uid !in old(vmTable) ==> (result <==> exists h :: 0 <= h < |accepts| && accepts[h])
      ensures !result ==> State() == old(State())
      ensures result ==> exists h :: 0 <= h < |accepts| && accepts[h] && State() == Book(old(State()), uid, h, requiredPes)
                                   && forall g :: 0 <= g < |accepts| && accepts[g] && g != h ==> HostSelection.Before(vmCounts, h, g)
    {
      result := false;
      if uid !in vmTable {
        var index, tried := HostSelection.PickHostRR(vmCounts, accepts);
        if index != -1 {
          ghost var before := State();
          BookKeepsConsistent(hostPes, before, uid, index, requiredPes);
          var next := Book(State(), uid, index, requiredPes);
          vmTable, usedPes, freePes := next.vmTable, next.usedPes, next.freePes;
          assert State() == Book(before, uid, index, requiredPes);
          result := true;
        }
      }
    }

    /** Greedy placement: the first host in list order that creates the VM. */
    method AllocateHostForVmGreedy(uid: Uid, requiredPes: nat, accepts: seq<bool>) returns (result: bool)
      requires Valid()
      requires |accepts| == |hostPes|
      modifies this
      ensures Valid()
      ensures uid in old(vmTable) ==> !result && State() == old(State())
      ensures uid !in old(vmTable) ==> (result <==> exists h :: 0 <= h < |accepts| && accepts[h])
      ensures !result ==> State() == old(State())
      ensures result ==> exists h :: 0 <= h < |accepts| && accepts[h] && (forall g :: 0 <= g < h ==> !accepts[g])
                                   && State() == Book(old(State()), uid, h, requiredPes)
    {
      result := false;
      if uid !in vmTable {
        var index := HostSelection.PickFirstFit(accepts);
        if index != -1 {
          ghost var before := State();
          BookKeepsConsistent(hostPes, before, uid, index, requiredPes);
          var next := Book(State(), uid, index, requiredPes);
          vmTable, usedPes, freePes := next.vmTable, next.usedPes, next.freePes;
          assert State() == Book(before, uid, index, requiredPes);
          result := true;
        }
      }
    }

    /**
     * Placement on a given host (`created` is that host's `vmCreate` answer).
     * The table is not consulted: for a VM that already has an entry the old
     * reservation is overwritten and the ledger invariant is lost.
     */
    method AllocateHostForVmOnHost(uid: Uid, requiredPes: nat, host: nat, created: bool) returns (result: bool)
      requires Valid()
      requires host < |hostPes|
      modifies this
      ensures result == created
      ensures result ==> State() == Book(old(State()), uid, host, requiredPes)
      ensures !result ==> State() == old(State())
      ensures uid !in old(vmTable) || !created ==> Valid()
    {
      if created {
        if uid !in vmTable {
          BookKeepsConsistent(hostPes, State(), uid, host, requiredPes);
        }
        vmTable := vmTable[uid := host];
        usedPes := usedPes[uid := requiredPes];
        freePes := freePes[host := freePes[host] - requiredPes];
        return true;
      }
      return false;
    }

    /**
     * Removes both entries of `uid` and gives its PEs back to its host. The
     * source unboxes the removed `usedPes` entry, so the VM must be known.
     */
    method DeallocateHostForVm(uid: Uid)
      requires Valid()
      requires uid in vmTable
      modifies this
      ensures Valid()
      ensures State() == Release(old(State()), uid)
    {
      ReleaseKeepsConsistent(hostPes, State(), uid);
      var host := vmTable[uid];
      var pes := usedPes[uid];
      vmTable := vmTable - {uid};
      usedPes := usedPes - {uid};
      freePes := freePes[host := freePes[host] + pes];
    }

    /** The host recorded for `uid`, or none. */
    function GetHost(uid: Uid): (host: Option<nat>)
      reads this
      ensures host.Some? <==> uid in vmTable
      ensures host.Some? ==> host.value == vmTable[uid]
    {
      if uid in vmTable then Some(vmTable[uid]) else None
    }

    /** The lookup by VM id and user id goes through the same uid. */
    function GetHostById(vmId: int, userId: int): (host: Option<nat>)
      reads this
      ensures host == GetHost(Uid(userId, vmId))
    {
      if Uid(userId, vmId) in vmTable then Some(vmTable[Uid(userId, vmId)]) else None
    }
  }
}
