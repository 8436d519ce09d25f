/**
 * The datacenter broker as an object: its lists, counters and maps are fields
 * the event handlers update in place, and every message it sends is appended
 * to `outbox`. Each method is proved to perform the transition of
 * `BrokerProtocol` on the state its fields spell out.
 */
module Broker {

  import opened Wrappers
  import opened Arithmetic
  import opened BrokerEntities
  import opened BindingMetrics
  import opened StableSort
  import opened Binding
  import opened BrokerProtocol

  class DatacenterBroker {

    /** The broker's own entity id, the destination of the messages it sends itself. */
    const id: int

    var vmList: seq<Vm>
    var vmsCreatedList: seq<Vm>
    var cloudletList: seq<Cloudlet>
    var cloudletSubmittedList: seq<Cloudlet>
    var cloudletReceivedList: seq<Cloudlet>
    var cloudletsSubmitted: int
    var vmsRequested: int
    var vmsAcks: int
    var vmsDestroyed: int
    var datacenterIdsList: seq<int>
    var datacenterRequestedIdsList: seq<int>
    var vmsToDatacentersMap: map<int, int>
    /** The datacenters whose characteristics have arrived (the keys of the source's map). */
    var datacenterCharacteristicsList: set<int>
    var outbox: seq<Message>

    function State(): BrokerState
      reads this
    {
      BrokerState(vmList, vmsCreatedList, cloudletList, cloudletSubmittedList, cloudletReceivedList,
                  cloudletsSubmitted, vmsRequested, vmsAcks, vmsDestroyed,
                  datacenterIdsList, datacenterRequestedIdsList, vmsToDatacentersMap,
                  datacenterCharacteristicsList, outbox)
    }

    ghost predicate Valid()
      reads this
    {
      BrokerProtocol.Valid(State())
    }

    constructor(id: int)
      ensures this.id == id && State() == Initial() && Valid()
    {
      this.id := id;
      vmList := [];
      vmsCreatedList := [];
      cloudletList := [];
      cloudletSubmittedList := [];
      cloudletReceivedList := [];
      cloudletsSubmitted := 0;
      vmsRequested := 0;
      vmsAcks := 0;
      vmsDestroyed := 0;
      datacenterIdsList := [];
      datacenterRequestedIdsList := [];
      vmsToDatacentersMap := map[];
      datacenterCharacteristicsList := {};
      outbox := [];
    }

    method SubmitVmList(list: seq<Vm>)
      modifies this
      ensures State() == old(State()).(vmList := old(vmList) + list)
    {
      vmList := vmList + list;
    }

    method SubmitCloudletList(list: seq<Cloudlet>)
      modifies this
      ensures State() == old(State()).(cloudletList := old(cloudletList) + list)
    {
      cloudletList := cloudletList + list;
    }

    /** Binds the first waiting cloudlet with id `cloudletId`; the id must be on the waiting list. */
    method BindCloudletToVm(cloudletId: int, vmId: int)
      requires exists i :: 0 <= i < |cloudletList| && cloudletList[i].id == cloudletId
      modifies this
      ensures State() == old(State()).(cloudletList := BindById(old(cloudletList), cloudletId, vmId))
    {
      cloudletList := BindById(cloudletList, cloudletId, vmId);
    }

    method ProcessEvent(ev: Event)
      requires Valid() && StepReady(State(), ev)
      modifies this
      ensures State() == Step(old(State()), id, ev) && Valid()
    {
      StepKeepsValid(State(), id, ev);
      match ev
      case CharacteristicsRequestEvent(resources) => ProcessResourceCharacteristicsRequest(resources);
      case CharacteristicsEvent(d) => ProcessResourceCharacteristics(d);
      case VmCreateAckEvent(d, vmId, success, draws) => ProcessVmCreate(d, vmId, success, draws);
      case CloudletReturnEvent(c) => ProcessCloudletReturn(c);
      case EndOfSimulationEvent =>
      case OtherEvent =>
    }

    method ProcessResourceCharacteristicsRequest(resources: seq<int>)
      modifies this
      ensures State() == CharacteristicsRequested(old(State()), resources)
    {
      var before := State();
      datacenterIdsList := resources;
      datacenterCharacteristicsList := {};
      var queries := QueryLoop(resources);
      outbox := before.outbox + queries;
      assert State() == CharacteristicsRequested(before, resources);
    }

    method ProcessResourceCharacteristics(d: int)
      modifies this
      ensures State() == CharacteristicsReceived(old(State()), d)
    {
      datacenterCharacteristicsList := datacenterCharacteristicsList + {d};
      if |datacenterCharacteristicsList| == |datacenterIdsList| {
        assert d in datacenterCharacteristicsList;
        datacenterRequestedIdsList := [];
        CreateVmsInDatacenter(datacenterIdsList[0]);
      }
    }

    method ProcessVmCreate(d: int, vmId: int, success: bool, draws: seq<int>)
      requires Valid() && VmCreateReady(State(), d, vmId, success, draws)
      modifies this
      ensures State() == VmCreated(old(State()), id, d, vmId, success, draws)
    {
      var before := State();
      if success {
        vmsToDatacentersMap := before.vmsToDatacentersMap[vmId := d];
        vmsCreatedList := before.vmsCreatedList + [GetVmById(before.vmList, vmId).value];
      }
      vmsAcks := vmsAcks + 1;
      assert State() == RecordAck(before, d, vmId, success);
      RecordAckKeepsValid(before, d, vmId, success);
      ProceedAfterAck(draws);
    }

    /**
     * After an acknowledgement: submit once every VM is up; when the current
     * datacenter has answered every request, ask the next untried one, or
     * submit on whatever was created, or give up if nothing was.
     */
    method ProceedAfterAck(draws: seq<int>)
      requires Valid() && (NextAfterAck(State()) == SubmitAll ==> SaturationReady(State(), draws))
      modifies this
      ensures State() == Proceed(old(State()), id, draws)
    {
      if |vmsCreatedList| == |vmList| - vmsDestroyed {
        SubmitCloudlets(draws);
      } else if vmsRequested == vmsAcks {
        var next := FirstUntriedLoop(datacenterIdsList, datacenterRequestedIdsList);
        if next.Some? {
          CreateVmsInDatacenter(next.value);
        } else if |vmsCreatedList| > 0 {
          SubmitCloudlets(draws);
        } else {
          FinishExecution();
        }
      }
    }

    method ProcessCloudletReturn(c: Cloudlet)
      requires Valid()
      modifies this
      ensures State() == CloudletReturned(old(State()), id, c)
    {
      cloudletReceivedList := cloudletReceivedList + [c];
      cloudletsSubmitted := cloudletsSubmitted - 1;
      if |cloudletList| == 0 && cloudletsSubmitted == 0 {
        ClearDatacenters();
        FinishExecution();
      } else if |cloudletList| > 0 && cloudletsSubmitted == 0 {
        ClearDatacenters();
        CreateVmsInDatacenter(RetryDatacenter);
      }
    }

    /** Requests every VM without a recorded datacenter from datacenter `d`. */
    method CreateVmsInDatacenter(d: int)
      modifies this
      ensures State() == CreateVms(old(State()), d)
    {
      var before := State();
      var requests, requestedVms := RequestLoop(before.vmList, before.vmsToDatacentersMap, d);
      outbox := before.outbox + requests;
      datacenterRequestedIdsList := before.datacenterRequestedIdsList + [d];
      vmsRequested := requestedVms;
      vmsAcks := 0;
    }

    /** The submit step: the saturation binder, then the dispatch loop over the created VMs. */
    method SubmitCloudlets(draws: seq<int>)
      requires Valid() && SaturationReady(State(), draws)
      modifies this
      ensures State() == Submit(old(State()), draws)
    {
      var bound, jobCount, comCost := Saturation(cloudletList, SaturatedVm, |vmList|, draws);
      cloudletList := bound;
      NoUnboundReady(cloudletList, vmsCreatedList, vmsCreatedList, vmsToDatacentersMap);
      DispatchTo(vmsCreatedList);
    }

    /** The priority variant: sort the waiting list by total length, then dispatch over the VM list. */
    method SubmitCloudletsPriority()
      requires Valid()
      requires PoolReady(SortBy(cloudletList, TotalLength), vmList, vmsCreatedList, vmsToDatacentersMap)
      modifies this
      ensures State() == Priority(old(State()))
    {
      cloudletList := SortBy(cloudletList, TotalLength);
      DispatchTo(vmList);
    }

    /**
     * One dispatch pass over the waiting list: the submissions go out in loop
     * order, the sent cloudlets join the submitted list and the counter, and the
     * skipped ones stay waiting.
     */
    method DispatchTo(pool: seq<Vm>)
      requires Valid() && PoolReady(cloudletList, pool, vmsCreatedList, vmsToDatacentersMap)
      modifies this
      ensures State() == Dispatch(old(State()), pool)
    {
      var before := State();
      var successfullySubmitted, messages, waiting :=
        DispatchLoop(before.cloudletList, pool, before.vmsCreatedList, before.vmsToDatacentersMap);
      outbox := before.outbox + messages;
      cloudletsSubmitted := before.cloudletsSubmitted + |successfullySubmitted|;
      cloudletSubmittedList := before.cloudletSubmittedList + successfullySubmitted;
      cloudletList := waiting;
      assert State() == Dispatch(before, pool);
    }

    /** Destroys every created VM in its datacenter and empties the created list. */
    method ClearDatacenters()
      requires Valid()
      modifies this
      ensures State() == Clear(old(State()))
    {
      var before := State();
      var destroys := DestroyLoop(before.vmsCreatedList, before.vmsToDatacentersMap);
      outbox := before.outbox + destroys;
      vmsCreatedList := [];
      assert State() == Clear(before);
    }

    method FinishExecution()
      modifies this
      ensures State() == Finish(old(State()), id)
    {
      outbox := outbox + [EndOfSimulation(id)];
    }

    method StartEntity()
      modifies this
      ensures State() == Start(old(State()), id)
    {
      outbox := outbox + [CharacteristicsRequest(id)];
    }
  }

  /**
   * The dispatch loop shared by the submit steps: an unbound cloudlet goes to
   * `pool` at the round-robin index, a bound one to its VM if that VM was
   * created, and the others are skipped. The source removes the sent cloudlets
   * from the waiting list afterwards; what remains is the skipped ones, in order.
   */
  method DispatchLoop(cls: seq<Cloudlet>, pool: seq<Vm>, created: seq<Vm>, m: map<int, int>)
    returns (successfullySubmitted: seq<Cloudlet>, messages: seq<Message>, waiting: seq<Cloudlet>)
    requires forall k :: 0 <= k < |created| ==> created[k].id in m
    requires PoolReady(cls, pool, created, m)
    ensures successfullySubmitted == Sent(cls, pool, created) && waiting == Deferred(cls, created)
    ensures forall k :: 0 <= k < |successfullySubmitted| ==> successfullySubmitted[k].vmId in m
    ensures messages == Submissions(successfullySubmitted, m)
  {
    var vmIndex := 0;
    successfullySubmitted, messages, waiting := [], [], [];
    DispatchStart(cls, pool, created, m);
    var i := 0;
    while i < |cls|
      invariant DispatchedUpTo(cls, pool, created, m, i, successfullySubmitted, messages, waiting, vmIndex)
      decreases |cls| - i
    {
      successfullySubmitted, messages, waiting, vmIndex :=
        DispatchOne(cls, pool, created, m, i, successfullySubmitted, messages, waiting, vmIndex);
      i := i + 1;
    }
    DispatchDone(cls, pool, created, m, successfullySubmitted, messages, waiting, vmIndex);
  }

  /** The query loop: one characteristics query per datacenter id, in order. */
  method QueryLoop(ids: seq<int>) returns (queries: seq<Message>)
    ensures queries == Queries(ids)
  {
    queries := [];
    var i := 0;
    while i < |ids|
      invariant 0 <= i <= |ids| && queries == Queries(ids[..i])
    {
      assert ids[..i + 1][..i] == ids[..i];
      queries := queries + [CharacteristicsQuery(ids[i])];
      i := i + 1;
    }
    assert ids[..i] == ids;
  }

  /** The destroy loop: one destroy message per created VM, to its recorded datacenter. */
  method DestroyLoop(vms: seq<Vm>, m: map<int, int>) returns (destroys: seq<Message>)
    requires forall k :: 0 <= k < |vms| ==> vms[k].id in m
    ensures destroys == Destroys(vms, m)
  {
    destroys := [];
    var i := 0;
    while i < |vms|
      invariant 0 <= i <= |vms| && destroys == Destroys(vms[..i], m)
    {
      assert vms[..i + 1][..i] == vms[..i];
      destroys := destroys + [VmDestroy(m[vms[i].id], vms[i])];
      i := i + 1;
    }
    assert vms[..i] == vms;
  }

  /** The scan for the first datacenter that has not been asked yet. */
  method FirstUntriedLoop(ids: seq<int>, tried: seq<int>) returns (r: Option<int>)
    ensures r == FirstUntried(ids, tried)
  {
    var i := 0;
    while i < |ids| && ids[i] in tried
      invariant 0 <= i <= |ids|
      invariant forall j :: 0 <= j < i ==> ids[j] in tried
    {
      i := i + 1;
    }
    r := if i < |ids| then Some(ids[i]) else None;
  }

  /** The request loop: one creation request per VM of `vms` that has no recorded datacenter. */
  method RequestLoop(vms: seq<Vm>, m: map<int, int>, d: int) returns (requests: seq<Message>, requestedVms: nat)
    ensures requests == CreateRequests(d, Unplaced(vms, m))
    ensures requestedVms == |Unplaced(vms, m)|
  {
    requests, requestedVms := [], 0;
    var i := 0;
    while i < |vms|
      invariant 0 <= i <= |vms|
      invariant requestedVms == |Unplaced(vms[..i], m)|
      invariant requests == CreateRequests(d, Unplaced(vms[..i], m))
    {
      var vm := vms[i];
      RequestStep(vms, m, d, i);
      if vm.id !in m {
        requests := requests + [VmCreate(d, vm)];
        requestedVms := requestedVms + 1;
      }
      i := i + 1;
    }
    assert vms[..i] == vms;
  }

  /**
   * One turn of the dispatch loop: the `i`-th cloudlet either goes to its VM
   * (an unbound one to the VM at the round-robin index) or waits.
   */
  method DispatchOne(cls: seq<Cloudlet>, pool: seq<Vm>, created: seq<Vm>, m: map<int, int>, i: nat,
                     sent: seq<Cloudlet>, messages: seq<Message>, waiting: seq<Cloudlet>, vmIndex: int)
    returns (sent1: seq<Cloudlet>, messages1: seq<Message>, waiting1: seq<Cloudlet>, vmIndex1: int)
    requires DispatchedUpTo(cls, pool, created, m, i, sent, messages, waiting, vmIndex) && i < |cls|
    ensures DispatchedUpTo(cls, pool, created, m, i + 1, sent1, messages1, waiting1, vmIndex1)
  {
    var c := cls[i];
    var vm: Vm;
    if c.vmId == Unbound {
      DispatchPick(cls, pool, created, m, i, sent, messages, waiting, vmIndex);
      vm := pool[vmIndex];
    } else {
      var found := GetVmById(created, c.vmId);
      if found.None? {
        DispatchSkipStep(cls, pool, created, m, i, sent, messages, waiting, vmIndex);
        return sent, messages, waiting + [c], vmIndex;
      }
      vm := found.value;
    }
    DispatchSendStep(cls, pool, created, m, i, sent, messages, waiting, vmIndex, vm);
    var placed := c.(vmId := vm.id);
    SubmissionsSnoc(sent, placed, m);
    sent1 := sent + [placed];
    messages1 := messages + [CloudletSubmit(m[vm.id], placed)];
    waiting1 := waiting;
    RoundRobinNext(|sent|, |created|);
    vmIndex1 := (vmIndex + 1) % |created|;
  }
}
