/**
 * `ContainerVmAllocationPolicyGreedy`: first-fit placement of container VMs
 * under a PE ledger. Hosts are named by their index in the host list and
 * `hostPes[h]` is the PE count of host `h`; what a host answers to
 * `containerVmCreate` is the input `accepts`.
 */
module ContainerVmAllocationPolicyGreedy {

  import opened Wrappers
  import opened PeLedger
  import HostSelection

  class ContainerVmAllocationPolicyGreedy {
    const hostPes: seq<nat>
    var vmTable: map<Uid, nat>
    var usedPes: map<Uid, int>
    var freePes: seq<int>

    function State(): Ledger
      reads this
    {
      Ledger(vmTable, usedPes, freePes)
    }

    ghost predicate Valid()
      reads this
    {
      Consistent(hostPes, State())
    }

    /** Each host starts with all its PEs free; both maps start empty. */
    constructor (hostPes: seq<nat>)
      ensures Valid() && this.hostPes == hostPes
      ensures State() == Initial(hostPes)
    {
      this.hostPes := hostPes;
      freePes := hostPes;
      vmTable := map[];
      usedPes := map[];
    }

    /**
     * First fit: hosts are asked in list order and the first that creates the
     * VM gets it; a VM already in the table is refused with no change.
     */
    method AllocateHostForVm(uid: Uid, requiredPes: nat, accepts: seq<bool>) returns (result: bool)
      requires Valid()
      requires |accepts| == |hostPes|
      modifies this
      ensures Valid()
      ensures uid in old(vmTable) ==> !result && State() == old(State())
      ensures uid !in old(vmTable) ==> (result <==> exists h :: 0 <= h < |accepts| && accepts[h])
      ensures !result ==> State() == old(State())
      ensures result ==> exists h :: 0 <= h < |accepts| && accepts[h] && (forall g :: 0 <= g < h ==> !accepts[g])
                                   && State() == Book(old(State()), uid, h, requiredPes)
    {
      result := false;
      if uid !in vmTable {
        var index := HostSelection.PickFirstFit(accepts);
        if index != -1 {
          ghost var before := State();
          BookKeepsConsistent(hostPes, before, uid, index, requiredPes);
          var next := Book(State(), uid, index, requiredPes);
          vmTable, usedPes, freePes := next.vmTable, next.usedPes, next.freePes;
          assert State() == Book(before, uid, index, requiredPes);
          result := true;
        }
      }
    }

    /**
     * Placement on a given host with the same bookkeeping. The table is not
     * consulted, so re-placing a VM that has an entry loses the invariant.
     */
    method AllocateHostForVmOnHost(uid: Uid, requiredPes: nat, host: nat, created: bool) returns (result: bool)
      requires Valid()
      requires host < |hostPes|
      modifies this
      ensures result == created
      ensures result ==> State() == Book(old(State()), uid, host, requiredPes)
      ensures !result ==> State() == old(State())
      ensures uid !in old(vmTable) || !created ==> Valid()
    {
      if created {
        if uid !in vmTable {
          BookKeepsConsistent(hostPes, State(), uid, host, requiredPes);
        }
        vmTable := vmTable[uid := host];
        usedPes := usedPes[uid := requiredPes];
        freePes := freePes[host := freePes[host] - requiredPes];
        return true;
      }
      return false;
    }

    /** Removes both entries and returns the PEs to the host; the VM must be known. */
    method DeallocateHostForVm(uid: Uid)
      requires Valid()
      requires uid in vmTable
      modifies this
      ensures Valid()
      ensures State() == Release(old(State()), uid)
    {
      ReleaseKeepsConsistent(hostPes, State(), uid);
      var host := vmTable[uid];
      var pes := usedPes[uid];
      vmTable := vmTable - {uid};
      usedPes := usedPes - {uid};
      freePes := freePes[host := freePes[host] + pes];
    }

    function GetHost(uid: Uid): (host: Option<nat>)
      reads this
      ensures host.Some? <==> uid in vmTable
      ensures host.Some? ==> host.value == vmTable[uid]
    {
      if uid in vmTable then Some(vmTable[uid]) else None
    }

    function GetHostById(vmId: int, userId: int): (host: Option<nat>)
      reads this
      ensures host == GetHost(Uid(userId, vmId))
    {
      if Uid(userId, vmId) in vmTable then Some(vmTable[Uid(userId, vmId)]) else None
    }
  }
}
