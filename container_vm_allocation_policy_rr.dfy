/**
 * `ContainerVmAllocationPolicyRR`: round-robin placement of container VMs. Each
 * allocation of a new VM draws exactly one host from the shared circular host
 * list and asks only that host; a VM already in the table counts as placed.
 *
 * A host's answer to `containerVmCreate` is the input `accepts`, and the
 * datacenter a host belongs to is the input `datacenterOf` fixed at
 * construction. `containerVmList` holds, per datacenter id, the VM list that
 * a successful placement appends to.
 */
module ContainerVmAllocationPolicyRR {

  import opened Wrappers
  import opened PeLedger
  import opened CircularHostList

  /** The VMs recorded for datacenter `d` (none yet when it has no entry). */
  function VmsOf(lists: map<int, seq<Uid>>, d: int): seq<Uid>
  {
    if d in lists then lists[d] else []
  }

  class ContainerVmAllocationPolicyRR {
    var vmTable: map<Uid, HostId>
    const hosts: CircularHostList
    const datacenterOf: HostId -> int
    var containerVmList: map<int, seq<Uid>>

    /** Every placed VM sits on a host of the rotation. */
    ghost predicate Valid()
      reads this, hosts
    {
      forall uid :: uid in vmTable ==> vmTable[uid] in hosts.list
    }

    constructor (list: seq<HostId>, datacenterOf: HostId -> int)
      ensures Valid() && fresh(hosts)
      ensures vmTable == map[] && hosts.list == list && hosts.ini == 0
      ensures containerVmList == map[] && this.datacenterOf == datacenterOf
    {
      vmTable := map[];
      hosts := new CircularHostList(list);
      this.datacenterOf := datacenterOf;
      containerVmList := map[];
    }

    /**
     * A VM already in the table is reported placed and nothing moves, not even
     * the cursor. Otherwise one host is drawn and only that host is asked.
     */
    method AllocateHostForVm(uid: Uid, accepts: HostId -> bool) returns (placed: bool)
      requires Valid()
      modifies this, hosts
      ensures Valid()
      ensures hosts.list == old(hosts.list)
      ensures uid in old(vmTable) ==>
        placed && unchanged(this) && hosts.ini == old(hosts.ini)
      ensures uid !in old(vmTable) && old(hosts.list) == [] ==>
        !placed && unchanged(this) && hosts.ini == old(hosts.ini)
      ensures uid !in old(vmTable) && old(hosts.list) != [] ==>
        var host := Draws(hosts.list, old(hosts.ini), 1)[0];
        && hosts.ini == old(hosts.ini) + 1
        && placed == accepts(host)
        && (placed ==> vmTable == old(vmTable)[uid := host]
                         && containerVmList == old(containerVmList)[datacenterOf(host) := VmsOf(old(containerVmList), datacenterOf(host)) + [uid]])
        && (!placed ==> vmTable == old(vmTable) && containerVmList == old(containerVmList))
    {
      if uid in vmTable {
        return true;
      }
      placed := false;
      var host := hosts.Next();
      if host.Some? {
        placed := AllocateHostForVmOnHost(uid, host, accepts);
      }
    }

    /**
     * Placement on a given host: succeeds exactly when there is a host and it
     * creates the VM; the table entry and the datacenter's VM list follow.
     */
    method AllocateHostForVmOnHost(uid: Uid, host: Option<HostId>, accepts: HostId -> bool) returns (placed: bool)
      modifies this
      ensures placed <==> host.Some? && accepts(host.value)
      ensures placed ==> vmTable == old(vmTable)[uid := host.value]
                          && containerVmList == old(containerVmList)[datacenterOf(host.value) := VmsOf(old(containerVmList), datacenterOf(host.value)) + [uid]]
      ensures !placed ==> vmTable == old(vmTable) && containerVmList == old(containerVmList)
      ensures old(Valid()) && (placed ==> host.value in hosts.list) ==> Valid()
    {
      if host.Some? && accepts(host.value) {
        vmTable := vmTable[uid := host.value];
        var d := datacenterOf(host.value);
        containerVmList := containerVmList[d := VmsOf(containerVmList, d) + [uid]];
        return true;
      }
      return false;
    }

    /** Drops the table entry; an unknown VM leaves the table as it was. */
    method DeallocateHostForVm(uid: Uid)
      requires Valid()
      modifies this
      ensures Valid()
      ensures vmTable == old(vmTable) - {uid}
      ensures uid !in old(vmTable) ==> vmTable == old(vmTable)
      ensures containerVmList == old(containerVmList)
    {
      vmTable := vmTable - {uid};
    }

    /** The host recorded for `uid`, or none. */
    function GetHost(uid: Uid): (host: Option<HostId>)
      reads this
      ensures host.Some? <==> uid in vmTable
      ensures host.Some? ==> host.value == vmTable[uid]
    {
      if uid in vmTable then Some(vmTable[uid]) else None
    }

    function GetHostById(vmId: int, userId: int): (host: Option<HostId>)
      reads this
      ensures host == GetHost(Uid(userId, vmId))
    {
      if Uid(userId, vmId) in vmTable then Some(vmTable[Uid(userId, vmId)]) else None
    }
  }
}
