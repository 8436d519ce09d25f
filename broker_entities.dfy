/**
 * The broker's view of VMs and cloudlets, the lookups by id it relies on, and
 * the messages it sends. A cloudlet's `vmId` is `Unbound` until it is bound
 * to a VM.
 */
module BrokerEntities {

  import opened Wrappers

  /** The VM id of a cloudlet the user did not bind. */
  const Unbound: int := -1

  /** A VM as the broker sees it: its id and its (positive) processing speed. */
  datatype Vm = Vm(id: int, mips: nat)

  /** A cloudlet (job): its id, length in instructions, PE count and bound VM. */
  datatype Cloudlet = Cloudlet(id: int, length: nat, pes: nat, vmId: int)

  /** The length over all PEs, the key the length-sorting heuristics use. */
  function TotalLength(c: Cloudlet): int
  {
    c.length * c.pes
  }

  predicate DistinctIds(cls: seq<Cloudlet>)
  {
    forall i, j :: 0 <= i < j < |cls| ==> cls[i].id != cls[j].id
  }

  function VmIds(vms: seq<Vm>): (ids: seq<int>)
    ensures |ids| == |vms| && forall k :: 0 <= k < |vms| ==> ids[k] == vms[k].id
  {
    if vms == [] then [] else VmIds(vms[..|vms| - 1]) + [vms[|vms| - 1].id]
  }

  function BoundVms(cls: seq<Cloudlet>): (ids: seq<int>)
    ensures |ids| == |cls| && forall k :: 0 <= k < |cls| ==> ids[k] == cls[k].vmId
  {
    if cls == [] then [] else BoundVms(cls[..|cls| - 1]) + [cls[|cls| - 1].vmId]
  }

  /** The first VM of `vms` with id `id`, or none. */
  function GetVmById(vms: seq<Vm>, id: int): (vm: Option<Vm>)
    ensures vm.None? <==> id !in VmIds(vms)
    ensures vm.Some? ==> vm.value in vms && vm.value.id == id
    ensures vm.Some? ==> exists k :: 0 <= k < |vms| && vms[k] == vm.value && forall j :: 0 <= j < k ==> vms[j].id != id
  {
    if vms == [] then None
    else if vms[0].id == id then
      assert VmIds(vms)[0] == id;
      Some(vms[0])
    else
      var r := GetVmById(vms[1..], id);
      assert VmIds(vms) == [vms[0].id] + VmIds(vms[1..]);
      if r.Some? then
        FirstVmShift(vms, id, r.value);
        r
      else r
  }

  /** A first match in the tail, after a head that does not match, is a first match in the whole list. */
  lemma FirstVmShift(vms: seq<Vm>, id: int, v: Vm)
    requires vms != [] && vms[0].id != id
    requires exists k :: 0 <= k < |vms[1..]| && vms[1..][k] == v && forall j :: 0 <= j < k ==> vms[1..][j].id != id
    ensures exists k :: 0 <= k < |vms| && vms[k] == v && forall j :: 0 <= j < k ==> vms[j].id != id
  {
    var k :| 0 <= k < |vms[1..]| && vms[1..][k] == v && forall j :: 0 <= j < k ==> vms[1..][j].id != id;
    assert vms[k + 1] == v;
    assert forall j :: 0 <= j < k + 1 ==> vms[j].id != id by {
      forall j | 0 <= j < k + 1 ensures vms[j].id != id {
        if j > 0 {
          assert vms[j] == vms[1..][j - 1];
        }
      }
    }
  }

  /** The position of the first cloudlet with id `id`. */
  function IndexOfId(cls: seq<Cloudlet>, id: int): (k: nat)
    requires exists i :: 0 <= i < |cls| && cls[i].id == id
    ensures k < |cls| && cls[k].id == id
    ensures forall j :: 0 <= j < k ==> cls[j].id != id
  {
    if cls[0].id == id then 0
    else
      assert exists i :: 0 <= i < |cls[1..]| && cls[1..][i].id == id by {
        var i :| 0 <= i < |cls| && cls[i].id == id;
        assert cls[1..][i - 1].id == id;
      }
      1 + IndexOfId(cls[1..], id)
  }

  /**
   * Binding by cloudlet id: the first cloudlet with that id gets `vmId`; the
   * lookup fails (the source dereferences null) when no cloudlet has it.
   */
  function BindById(cls: seq<Cloudlet>, cloudletId: int, vmId: int): (r: seq<Cloudlet>)
    requires exists i :: 0 <= i < |cls| && cls[i].id == cloudletId
    ensures |r| == |cls|
    ensures forall j :: 0 <= j < |cls| ==> r[j].id == cls[j].id && r[j].length == cls[j].length && r[j].pes == cls[j].pes
    ensures forall j :: 0 <= j < |cls| && cls[j].id != cloudletId ==> r[j] == cls[j]
    ensures exists k :: 0 <= k < |cls| && cls[k].id == cloudletId &&
                        (forall j :: 0 <= j < k ==> cls[j].id != cloudletId) &&
                        r == cls[k := cls[k].(vmId := vmId)]
  {
    var k := IndexOfId(cls, cloudletId);
    cls[k := cls[k].(vmId := vmId)]
  }

  /** With distinct ids, binding the id found at position `k` binds position `k` and nothing else. */
  lemma BindByIdAt(cls: seq<Cloudlet>, k: nat, vmId: int)
    requires DistinctIds(cls) && k < |cls|
    ensures BindById(cls, cls[k].id, vmId) == cls[k := cls[k].(vmId := vmId)]
    ensures DistinctIds(BindById(cls, cls[k].id, vmId))
  {
    assert IndexOfId(cls, cls[k].id) == k;
  }

  /** What the broker sends; every message names its destination entity. */
  datatype Message =
    | CharacteristicsRequest(to: int)       // the initial request the broker schedules to itself
    | CharacteristicsQuery(to: int)         // asks a datacenter for its characteristics
    | VmCreate(to: int, vm: Vm)
    | CloudletSubmit(to: int, cloudlet: Cloudlet)
    | VmDestroy(to: int, vm: Vm)
    | EndOfSimulation(to: int)
}
