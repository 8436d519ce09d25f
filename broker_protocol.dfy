/**
 * The datacenter broker's protocol as pure state transitions: the broker's
 * whole observable state is a `BrokerState`, every message it sends is
 * appended to `outbox`, and each handler is a function from the state before
 * the event to the state after it. The `DatacenterBroker` class performs the
 * same transitions with the source's loops and is proved against these
 * functions.
 */
module BrokerProtocol {

  import opened Wrappers
  import opened Arithmetic
  import opened BrokerEntities
  import opened BindingMetrics
  import opened StableSort
  import opened Binding

  /** The VM the submit step hands the first 1000 cloudlets to. */
  const SaturatedVm: int := 4

  /** The datacenter id VMs are re-requested from when bound cloudlets still wait. */
  const RetryDatacenter: int := 0

  datatype BrokerState = BrokerState(
    vmList: seq<Vm>,
    vmsCreatedList: seq<Vm>,
    cloudletList: seq<Cloudlet>,
    cloudletSubmittedList: seq<Cloudlet>,
    cloudletReceivedList: seq<Cloudlet>,
    cloudletsSubmitted: int,
    vmsRequested: int,
    vmsAcks: int,
    vmsDestroyed: int,
    datacenterIdsList: seq<int>,
    datacenterRequestedIdsList: seq<int>,
    vmsToDatacentersMap: map<int, int>,
    datacenterCharacteristicsList: set<int>,
    outbox: seq<Message>)

  /** The events the broker handles; the answer data each one carries is a parameter. */
  datatype Event =
    | CharacteristicsRequestEvent(resources: seq<int>)   // the datacenter ids the simulation registry answers with
    | CharacteristicsEvent(datacenterId: int)
    | VmCreateAckEvent(datacenterId: int, vmId: int, success: bool, draws: seq<int>)
    | CloudletReturnEvent(cloudlet: Cloudlet)
    | EndOfSimulationEvent
    | OtherEvent

  function Initial(): BrokerState
  {
    BrokerState([], [], [], [], [], 0, 0, 0, 0, [], [], map[], {}, [])
  }

  /** Every created VM has a recorded datacenter, so a message about it has a destination. */
  predicate Valid(s: BrokerState)
  {
    forall k :: 0 <= k < |s.vmsCreatedList| ==> s.vmsCreatedList[k].id in s.vmsToDatacentersMap
  }

  // ---------------------------------------------------------------- messages

  function Queries(ids: seq<int>): (msgs: seq<Message>)
    ensures |msgs| == |ids| && forall k :: 0 <= k < |ids| ==> msgs[k] == CharacteristicsQuery(ids[k])
  {
    if ids == [] then [] else Queries(ids[..|ids| - 1]) + [CharacteristicsQuery(ids[|ids| - 1])]
  }

  function CreateRequests(d: int, vms: seq<Vm>): (msgs: seq<Message>)
    ensures |msgs| == |vms|
  {
    if vms == [] then [] else CreateRequests(d, vms[..|vms| - 1]) + [VmCreate(d, vms[|vms| - 1])]
  }

  /** The `k`-th request asks datacenter `d` to create the `k`-th VM. */
  lemma {:induction false} CreateRequestsAt(d: int, vms: seq<Vm>, k: nat)
    requires k < |vms|
    ensures CreateRequests(d, vms)[k] == VmCreate(d, vms[k])
  {
    var n := |vms| - 1;
    if k < n {
      CreateRequestsAt(d, vms[..n], k);
    }
  }

  function Destroys(vms: seq<Vm>, m: map<int, int>): (msgs: seq<Message>)
    requires forall k :: 0 <= k < |vms| ==> vms[k].id in m
    ensures |msgs| == |vms| && forall k :: 0 <= k < |vms| ==> msgs[k] == VmDestroy(m[vms[k].id], vms[k])
  {
    if vms == [] then [] else Destroys(vms[..|vms| - 1], m) + [VmDestroy(m[vms[|vms| - 1].id], vms[|vms| - 1])]
  }

  function Submissions(sent: seq<Cloudlet>, m: map<int, int>): (msgs: seq<Message>)
    requires forall k :: 0 <= k < |sent| ==> sent[k].vmId in m
    ensures |msgs| == |sent|
  {
    if sent == [] then []
    else Submissions(sent[..|sent| - 1], m) + [CloudletSubmit(m[sent[|sent| - 1].vmId], sent[|sent| - 1])]
  }

  /** The `k`-th submission sends the `k`-th cloudlet to the datacenter of its VM. */
  lemma {:induction false} SubmissionsAt(sent: seq<Cloudlet>, m: map<int, int>, k: nat)
    requires forall k :: 0 <= k < |sent| ==> sent[k].vmId in m
    requires k < |sent|
    ensures Submissions(sent, m)[k] == CloudletSubmit(m[sent[k].vmId], sent[k])
  {
    var n := |sent| - 1;
    if k < n {
      SubmissionsAt(sent[..n], m, k);
    }
  }

  // ------------------------------------------------------------ VM requests

  /** The VMs of `vms`, in order, that have no recorded datacenter yet. */
  function Unplaced(vms: seq<Vm>, m: map<int, int>): (r: seq<Vm>)
    ensures |r| <= |vms|
  {
    if vms == [] then []
    else
      var n := |vms| - 1;
      Unplaced(vms[..n], m) + (if vms[n].id in m then [] else [vms[n]])
  }

  /** A VM is requested exactly when it is listed and has no recorded datacenter. */
  lemma {:induction false} UnplacedMembers(vms: seq<Vm>, m: map<int, int>)
    ensures forall v :: v in Unplaced(vms, m) <==> v in vms && v.id !in m
  {
    if vms != [] {
      var n := |vms| - 1;
      UnplacedMembers(vms[..n], m);
      assert vms == vms[..n] + [vms[n]];
    }
  }

  /** How the `i`-th VM extends the requests for the first `i` VMs. */
  lemma RequestStep(vms: seq<Vm>, m: map<int, int>, d: int, i: nat)
    requires i < |vms|
    ensures vms[i].id !in m ==>
      Unplaced(vms[..i + 1], m) == Unplaced(vms[..i], m) + [vms[i]] &&
      CreateRequests(d, Unplaced(vms[..i + 1], m)) == CreateRequests(d, Unplaced(vms[..i], m)) + [VmCreate(d, vms[i])]
    ensures vms[i].id in m ==> Unplaced(vms[..i + 1], m) == Unplaced(vms[..i], m)
  {
    assert vms[..i + 1][..i] == vms[..i];
    if vms[i].id !in m {
      CreateRequestsSnoc(d, Unplaced(vms[..i], m), vms[i]);
    }
  }

  lemma CreateRequestsSnoc(d: int, pending: seq<Vm>, v: Vm)
    ensures CreateRequests(d, pending + [v]) == CreateRequests(d, pending) + [VmCreate(d, v)]
  {
    assert (pending + [v])[..|pending|] == pending;
  }

  /** Requesting VMs from datacenter `d`: one request per unplaced VM, and the ack count restarts. */
  function CreateVms(s: BrokerState, d: int): BrokerState
  {
    s.(outbox := s.outbox + CreateRequests(d, Unplaced(s.vmList, s.vmsToDatacentersMap)),
       datacenterRequestedIdsList := s.datacenterRequestedIdsList + [d],
       vmsRequested := |Unplaced(s.vmList, s.vmsToDatacentersMap)|,
       vmsAcks := 0)
  }

  // ------------------------------------------------------------ dispatching

  /** A cloudlet can be sent now when it is unbound or its VM has been created. */
  predicate Sendable(c: Cloudlet, created: seq<Vm>)
  {
    c.vmId == Unbound || c.vmId in VmIds(created)
  }

  /** The cloudlets, in order, that the dispatch loop sends. */
  function ToSend(cls: seq<Cloudlet>, created: seq<Vm>): (r: seq<Cloudlet>)
    ensures |r| <= |cls|
  {
    if cls == [] then []
    else
      var n := |cls| - 1;
      ToSend(cls[..n], created) + (if Sendable(cls[n], created) then [cls[n]] else [])
  }

  /** The cloudlets, in order, that stay waiting for their VM. */
  function Deferred(cls: seq<Cloudlet>, created: seq<Vm>): (r: seq<Cloudlet>)
    ensures |r| <= |cls|
  {
    if cls == [] then []
    else
      var n := |cls| - 1;
      Deferred(cls[..n], created) + (if Sendable(cls[n], created) then [] else [cls[n]])
  }

  /** The cloudlets sent from a prefix of the list are a prefix of those sent from the whole list. */
  lemma {:induction false} ToSendPrefix(cls: seq<Cloudlet>, created: seq<Vm>, i: nat)
    requires i <= |cls|
    ensures ToSend(cls[..i], created) <= ToSend(cls, created)
    decreases |cls| - i
  {
    if i < |cls| {
      var n := |cls| - 1;
      ToSendPrefix(cls[..n], created, i);
      assert cls[..n][..i] == cls[..i];
      SplitStep(cls, created);
    } else {
      assert cls[..i] == cls;
    }
  }

  /** The round-robin index after `sent` cloudlets over `createdCount` created VMs. */
  function RoundRobinIndex(sent: nat, createdCount: nat): (index: nat)
    ensures createdCount > 0 ==> index < createdCount
  {
    if createdCount > 0 then sent % createdCount else 0
  }

  lemma RoundRobinNext(sent: nat, createdCount: nat)
    requires createdCount > 0
    ensures (RoundRobinIndex(sent, createdCount) + 1) % createdCount == RoundRobinIndex(sent + 1, createdCount)
  {
    ModStep(sent, createdCount);
  }

  /** Position `k` of `t`, when unbound, finds a VM in `pool` at the round-robin index. */
  predicate ReachableAt(t: seq<Cloudlet>, k: int, pool: seq<Vm>, created: seq<Vm>)
    requires 0 <= k < |t|
  {
    t[k].vmId == Unbound ==> 0 < |created| && RoundRobinIndex(k, |created|) < |pool|
  }

  /** ... and that VM has a recorded datacenter. */
  predicate ReadyAt(t: seq<Cloudlet>, k: int, pool: seq<Vm>, created: seq<Vm>, m: map<int, int>)
    requires 0 <= k < |t|
  {
    ReachableAt(t, k, pool, created) &&
    (t[k].vmId == Unbound ==> pool[RoundRobinIndex(k, |created|)].id in m)
  }

  /** The `k`-th sent cloudlet: an unbound one takes the VM the round-robin index names. */
  function Placed(t: seq<Cloudlet>, k: int, pool: seq<Vm>, created: seq<Vm>): Cloudlet
    requires 0 <= k < |t| && ReachableAt(t, k, pool, created)
  {
    if t[k].vmId == Unbound then t[k].(vmId := pool[RoundRobinIndex(k, |created|)].id) else t[k]
  }

  /** Every unbound cloudlet the loop reaches finds a VM in `pool` at the round-robin index. */
  predicate Reachable(cls: seq<Cloudlet>, pool: seq<Vm>, created: seq<Vm>)
  {
    forall k :: 0 <= k < |ToSend(cls, created)| ==> ReachableAt(ToSend(cls, created), k, pool, created)
  }

  /** ... and that VM has a recorded datacenter. */
  predicate PoolReady(cls: seq<Cloudlet>, pool: seq<Vm>, created: seq<Vm>, m: map<int, int>)
  {
    Reachable(cls, pool, created) &&
    forall k :: 0 <= k < |ToSend(cls, created)| ==> ReadyAt(ToSend(cls, created), k, pool, created, m)
  }

  /** The sent cloudlets, in order, as they are sent. */
  function Sent(cls: seq<Cloudlet>, pool: seq<Vm>, created: seq<Vm>): (r: seq<Cloudlet>)
    requires Reachable(cls, pool, created)
    ensures |r| == |ToSend(cls, created)|
  {
    var t := ToSend(cls, created);
    seq(|t|, k requires 0 <= k < |t| => Placed(t, k, pool, created))
  }

  lemma {:induction false} ToSendSendable(cls: seq<Cloudlet>, created: seq<Vm>)
    ensures forall k :: 0 <= k < |ToSend(cls, created)| ==> Sendable(ToSend(cls, created)[k], created)
  {
    if cls != [] {
      ToSendSendable(cls[..|cls| - 1], created);
    }
  }

  /** The `i`-th cloudlet, when it can be sent, is the next one sent: position `|ToSend(cls[..i])|`. */
  lemma SentAt(cls: seq<Cloudlet>, pool: seq<Vm>, created: seq<Vm>, i: nat)
    requires Reachable(cls, pool, created) && i < |cls| && Sendable(cls[i], created)
    ensures var p := |ToSend(cls[..i], created)|;
      ToSend(cls[..i + 1], created) == ToSend(cls[..i], created) + [cls[i]] &&
      Deferred(cls[..i + 1], created) == Deferred(cls[..i], created) &&
      p < |ToSend(cls, created)| && ToSend(cls, created)[p] == cls[i] &&
      Sent(cls, pool, created)[p] == Placed(ToSend(cls, created), p, pool, created)
  {
    SplitStep(cls[..i + 1], created);
    assert cls[..i + 1][..i] == cls[..i];
    ToSendPrefix(cls, created, i + 1);
  }

  /** A cloudlet that cannot be sent joins the waiting list. */
  lemma DeferredAt(cls: seq<Cloudlet>, created: seq<Vm>, i: nat)
    requires i < |cls| && !Sendable(cls[i], created)
    ensures ToSend(cls[..i + 1], created) == ToSend(cls[..i], created)
    ensures Deferred(cls[..i + 1], created) == Deferred(cls[..i], created) + [cls[i]]
  {
    SplitStep(cls[..i + 1], created);
    assert cls[..i + 1][..i] == cls[..i];
  }

  /** An unbound cloudlet finds a VM with a recorded datacenter at the round-robin index. */
  lemma DispatchPick(cls: seq<Cloudlet>, pool: seq<Vm>, created: seq<Vm>, m: map<int, int>, i: nat,
                     sent: seq<Cloudlet>, messages: seq<Message>, waiting: seq<Cloudlet>, vmIndex: int)
    requires DispatchedUpTo(cls, pool, created, m, i, sent, messages, waiting, vmIndex) && i < |cls|
    requires cls[i].vmId == Unbound
    ensures 0 < |created| && 0 <= vmIndex < |pool| && pool[vmIndex].id in m
  {
    SentAt(cls, pool, created, i);
    assert ReadyAt(ToSend(cls, created), |sent|, pool, created, m);
  }

  /** The VM the loop picks for the `i`-th cloudlet is the one the specification sends it to. */
  lemma DispatchTarget(cls: seq<Cloudlet>, pool: seq<Vm>, created: seq<Vm>, m: map<int, int>,
                       i: nat, p: nat, vmIndex: int, vm: Vm)
    requires PoolReady(cls, pool, created, m)
    requires forall k :: 0 <= k < |created| ==> created[k].id in m
    requires i < |cls| && p == |ToSend(cls[..i], created)| && vmIndex == RoundRobinIndex(p, |created|)
    requires cls[i].vmId == Unbound ==> 0 <= vmIndex < |pool| && vm == pool[vmIndex]
    requires cls[i].vmId != Unbound ==> GetVmById(created, cls[i].vmId) == Some(vm)
    ensures 0 < |created| && vm.id in m
    ensures ToSend(cls[..i + 1], created) == ToSend(cls[..i], created) + [cls[i]]
    ensures Deferred(cls[..i + 1], created) == Deferred(cls[..i], created)
    ensures p < |Sent(cls, pool, created)| && Sent(cls, pool, created)[p] == cls[i].(vmId := vm.id)
  {
    SentAt(cls, pool, created, i);
    assert ReadyAt(ToSend(cls, created), p, pool, created, m);
  }

  /** Sending the `i`-th cloudlet to `vm` is one turn of the dispatch loop. */
  lemma DispatchSendStep(cls: seq<Cloudlet>, pool: seq<Vm>, created: seq<Vm>, m: map<int, int>, i: nat,
                         sent: seq<Cloudlet>, messages: seq<Message>, waiting: seq<Cloudlet>, vmIndex: int, vm: Vm)
    requires DispatchedUpTo(cls, pool, created, m, i, sent, messages, waiting, vmIndex) && i < |cls|
    requires cls[i].vmId == Unbound ==> 0 <= vmIndex < |pool| && vm == pool[vmIndex]
    requires cls[i].vmId != Unbound ==> GetVmById(created, cls[i].vmId) == Some(vm)
    ensures 0 < |created| && vm.id in m
    ensures |ToSend(cls[..i + 1], created)| <= |ToSend(cls, created)|
    ensures sent + [cls[i].(vmId := vm.id)] == Sent(cls, pool, created)[..|ToSend(cls[..i + 1], created)|]
    ensures waiting == Deferred(cls[..i + 1], created)
  {
    var all := Sent(cls, pool, created);
    var p := |sent|;
    DispatchTarget(cls, pool, created, m, i, p, vmIndex, vm);
    SliceSnoc(all, p);
  }

  /** A cloudlet whose VM was not created waits: one turn of the dispatch loop. */
  lemma DispatchSkipStep(cls: seq<Cloudlet>, pool: seq<Vm>, created: seq<Vm>, m: map<int, int>, i: nat,
                         sent: seq<Cloudlet>, messages: seq<Message>, waiting: seq<Cloudlet>, vmIndex: int)
    requires DispatchedUpTo(cls, pool, created, m, i, sent, messages, waiting, vmIndex) && i < |cls|
    requires cls[i].vmId != Unbound && GetVmById(created, cls[i].vmId).None?
    ensures DispatchedUpTo(cls, pool, created, m, i + 1, sent, messages, waiting + [cls[i]], vmIndex)
  {
    DeferredAt(cls, created, i);
  }

  lemma SliceSnoc<T>(s: seq<T>, p: nat)
    requires p < |s|
    ensures s[..p + 1] == s[..p] + [s[p]]
  {
  }

  /**
   * The dispatch loop's state after its first `i` turns: `sent` and `waiting` are
   * what the specification sends and defers from `cls[..i]`, `vmIndex` is the
   * round-robin index for the next unbound cloudlet, and `messages` are the
   * submissions of `sent`.
   */
  ghost predicate DispatchedUpTo(cls: seq<Cloudlet>, pool: seq<Vm>, created: seq<Vm>, m: map<int, int>, i: int,
                                 sent: seq<Cloudlet>, messages: seq<Message>, waiting: seq<Cloudlet>, vmIndex: int)
  {
    (forall k :: 0 <= k < |created| ==> created[k].id in m) && PoolReady(cls, pool, created, m) &&
    0 <= i <= |cls| && |ToSend(cls[..i], created)| <= |ToSend(cls, created)| &&
    sent == Sent(cls, pool, created)[..|ToSend(cls[..i], created)|] &&
    waiting == Deferred(cls[..i], created) &&
    vmIndex == RoundRobinIndex(|sent|, |created|) &&
    (forall k :: 0 <= k < |sent| ==> sent[k].vmId in m) &&
    messages == Submissions(sent, m)
  }

  /** Before the first turn nothing is sent or deferred. */
  lemma DispatchStart(cls: seq<Cloudlet>, pool: seq<Vm>, created: seq<Vm>, m: map<int, int>)
    requires forall k :: 0 <= k < |created| ==> created[k].id in m
    requires PoolReady(cls, pool, created, m)
    ensures DispatchedUpTo(cls, pool, created, m, 0, [], [], [], 0)
  {
    assert cls[..0] == [];
  }

  /** After the last turn the sent and the deferred cloudlets are the whole answer. */
  lemma DispatchDone(cls: seq<Cloudlet>, pool: seq<Vm>, created: seq<Vm>, m: map<int, int>,
                     sent: seq<Cloudlet>, messages: seq<Message>, waiting: seq<Cloudlet>, vmIndex: int)
    requires DispatchedUpTo(cls, pool, created, m, |cls|, sent, messages, waiting, vmIndex)
    ensures sent == Sent(cls, pool, created) && waiting == Deferred(cls, created)
    ensures forall k :: 0 <= k < |sent| ==> sent[k].vmId in m
    ensures messages == Submissions(sent, m)
  {
    assert cls[..|cls|] == cls;
  }

  lemma SubmissionsSnoc(sent: seq<Cloudlet>, c: Cloudlet, m: map<int, int>)
    requires forall k :: 0 <= k < |sent| ==> sent[k].vmId in m
    requires c.vmId in m
    ensures Submissions(sent + [c], m) == Submissions(sent, m) + [CloudletSubmit(m[c.vmId], c)]
  {
    assert (sent + [c])[..|sent|] == sent;
  }

  lemma SentInMap(cls: seq<Cloudlet>, pool: seq<Vm>, created: seq<Vm>, m: map<int, int>)
    requires forall k :: 0 <= k < |created| ==> created[k].id in m
    requires PoolReady(cls, pool, created, m)
    ensures forall k :: 0 <= k < |Sent(cls, pool, created)| ==> Sent(cls, pool, created)[k].vmId in m
  {
    var t := ToSend(cls, created);
    ToSendSendable(cls, created);
    forall k | 0 <= k < |t|
      ensures Sent(cls, pool, created)[k].vmId in m
    {
      assert ReadyAt(t, k, pool, created, m);
      if t[k].vmId != Unbound {
        assert t[k].vmId in VmIds(created);
      }
    }
  }

  /** One dispatch pass over the waiting list, unbound cloudlets going round robin over `pool`. */
  function Dispatch(s: BrokerState, pool: seq<Vm>): BrokerState
    requires Valid(s) && PoolReady(s.cloudletList, pool, s.vmsCreatedList, s.vmsToDatacentersMap)
  {
    var sent := Sent(s.cloudletList, pool, s.vmsCreatedList);
    SentInMap(s.cloudletList, pool, s.vmsCreatedList, s.vmsToDatacentersMap);
    s.(cloudletList := Deferred(s.cloudletList, s.vmsCreatedList),
       cloudletSubmittedList := s.cloudletSubmittedList + sent,
       outbox := s.outbox + Submissions(sent, s.vmsToDatacentersMap),
       cloudletsSubmitted := s.cloudletsSubmitted + |sent|)
  }

  lemma NoUnboundReady(cls: seq<Cloudlet>, pool: seq<Vm>, created: seq<Vm>, m: map<int, int>)
    requires forall k :: 0 <= k < |cls| ==> cls[k].vmId != Unbound
    ensures PoolReady(cls, pool, created, m)
  {
    DeferredMembers(cls, created);
    assert forall k :: 0 <= k < |ToSend(cls, created)| ==> ToSend(cls, created)[k] in ToSend(cls, created);
  }

  /** What the submit step demands: the saturation binder's preconditions. */
  predicate SaturationReady(s: BrokerState, draws: seq<int>)
  {
    DistinctIds(s.cloudletList) && |s.cloudletList| >= SaturationCount &&
    SaturatedVm < |s.vmList| &&
    |draws| == |s.cloudletList| - SaturationCount && InRange(draws, |s.vmList|)
  }

  /** The submit step: saturation binding, then dispatch over the created VMs. */
  function Submit(s: BrokerState, draws: seq<int>): BrokerState
    requires Valid(s) && SaturationReady(s, draws)
  {
    var t := s.(cloudletList := Saturated(s.cloudletList, SaturatedVm, draws));
    NoUnboundReady(t.cloudletList, t.vmsCreatedList, t.vmsCreatedList, t.vmsToDatacentersMap);
    Dispatch(t, t.vmsCreatedList)
  }

  /** The priority variant: stable sort by total length, then dispatch over the VM list. */
  function Priority(s: BrokerState): BrokerState
    requires Valid(s)
    requires PoolReady(SortBy(s.cloudletList, TotalLength), s.vmList, s.vmsCreatedList, s.vmsToDatacentersMap)
  {
    Dispatch(s.(cloudletList := SortBy(s.cloudletList, TotalLength)), s.vmList)
  }

  // ------------------------------------------------------ ending and restarting

  function Clear(s: BrokerState): BrokerState
    requires Valid(s)
  {
    s.(outbox := s.outbox + Destroys(s.vmsCreatedList, s.vmsToDatacentersMap), vmsCreatedList := [])
  }

  function Finish(s: BrokerState, self: int): BrokerState
  {
    s.(outbox := s.outbox + [EndOfSimulation(self)])
  }

  function Start(s: BrokerState, self: int): BrokerState
  {
    s.(outbox := s.outbox + [CharacteristicsRequest(self)])
  }

  // ---------------------------------------------------------------- handlers

  function CharacteristicsRequested(s: BrokerState, resources: seq<int>): BrokerState
  {
    s.(datacenterIdsList := resources, datacenterCharacteristicsList := {}, outbox := s.outbox + Queries(resources))
  }

  /** Once every datacenter has answered, the tried list restarts and the first datacenter is asked. */
  function CharacteristicsReceived(s: BrokerState, d: int): BrokerState
  {
    var t := s.(datacenterCharacteristicsList := s.datacenterCharacteristicsList + {d});
    if |t.datacenterCharacteristicsList| == |t.datacenterIdsList| then
      assert d in t.datacenterCharacteristicsList;
      CreateVms(t.(datacenterRequestedIdsList := []), t.datacenterIdsList[0])
    else t
  }

  /** The first datacenter of `ids` not in `tried`. */
  function FirstUntried(ids: seq<int>, tried: seq<int>): (r: Option<int>)
    ensures r.None? <==> forall k :: 0 <= k < |ids| ==> ids[k] in tried
    ensures r.Some? ==> exists k :: 0 <= k < |ids| && ids[k] == r.value && r.value !in tried &&
                                   forall j :: 0 <= j < k ==> ids[j] in tried
  {
    if ids == [] then None
    else if ids[0] !in tried then Some(ids[0])
    else
      var r := FirstUntried(ids[1..], tried);
      if r.Some? then
        var k :| 0 <= k < |ids[1..]| && ids[1..][k] == r.value && r.value !in tried &&
          forall j :: 0 <= j < k ==> ids[1..][j] in tried;
        assert ids[k + 1] == r.value;
        r
      else
        assert forall k :: 1 <= k < |ids| ==> ids[1..][k - 1] == ids[k];
        r
  }

  /** What an acknowledgement leads to, once it has been counted. */
  datatype AckStep = SubmitAll | TryNext(datacenterId: int) | Abort | Wait

  function NextAfterAck(s: BrokerState): AckStep
  {
    if |s.vmsCreatedList| == |s.vmList| - s.vmsDestroyed then SubmitAll
    else if s.vmsRequested == s.vmsAcks then
      match FirstUntried(s.datacenterIdsList, s.datacenterRequestedIdsList)
      case Some(d) => TryNext(d)
      case None => if |s.vmsCreatedList| > 0 then SubmitAll else Abort
    else Wait
  }

  /** Recording one acknowledgement: a created VM gets its datacenter, and the ack is counted. */
  function RecordAck(s: BrokerState, d: int, vmId: int, success: bool): BrokerState
    requires success ==> vmId in VmIds(s.vmList)
  {
    var t := if success then
        s.(vmsToDatacentersMap := s.vmsToDatacentersMap[vmId := d],
           vmsCreatedList := s.vmsCreatedList + [GetVmById(s.vmList, vmId).value])
      else s;
    t.(vmsAcks := t.vmsAcks + 1)
  }

  lemma RecordAckKeepsValid(s: BrokerState, d: int, vmId: int, success: bool)
    requires Valid(s) && (success ==> vmId in VmIds(s.vmList))
    ensures Valid(RecordAck(s, d, vmId, success))
  {
  }

  /** What the acknowledgement handler demands of the event and the state. */
  predicate VmCreateReady(s: BrokerState, d: int, vmId: int, success: bool, draws: seq<int>)
  {
    (success ==> vmId in VmIds(s.vmList)) &&
    (NextAfterAck(RecordAck(s, d, vmId, success)) == SubmitAll ==>
       SaturationReady(RecordAck(s, d, vmId, success), draws))
  }

  function VmCreated(s: BrokerState, self: int, d: int, vmId: int, success: bool, draws: seq<int>): BrokerState
    requires Valid(s) && VmCreateReady(s, d, vmId, success, draws)
  {
    RecordAckKeepsValid(s, d, vmId, success);
    Proceed(RecordAck(s, d, vmId, success), self, draws)
  }

  /** What the handler does once the acknowledgement has been counted. */
  function Proceed(t: BrokerState, self: int, draws: seq<int>): BrokerState
    requires Valid(t) && (NextAfterAck(t) == SubmitAll ==> SaturationReady(t, draws))
  {
    match NextAfterAck(t)
    case SubmitAll => Submit(t, draws)
    case TryNext(next) => CreateVms(t, next)
    case Abort => Finish(t, self)
    case Wait => t
  }

  /**
   * A returned cloudlet: when nothing is waiting or running the VMs are destroyed
   * and the simulation ends; when only waiting cloudlets remain, the VMs are
   * destroyed and requested again from datacenter 0.
   */
  function CloudletReturned(s: BrokerState, self: int, c: Cloudlet): BrokerState
    requires Valid(s)
  {
    var t := s.(cloudletReceivedList := s.cloudletReceivedList + [c], cloudletsSubmitted := s.cloudletsSubmitted - 1);
    if |t.cloudletList| == 0 && t.cloudletsSubmitted == 0 then Finish(Clear(t), self)
    else if |t.cloudletList| > 0 && t.cloudletsSubmitted == 0 then CreateVms(Clear(t), RetryDatacenter)
    else t
  }

  predicate StepReady(s: BrokerState, ev: Event)
  {
    match ev
    case VmCreateAckEvent(d, vmId, success, draws) => VmCreateReady(s, d, vmId, success, draws)
    case _ => true
  }

  /** The event dispatcher: the end of the simulation and unknown events change nothing. */
  function Step(s: BrokerState, self: int, ev: Event): BrokerState
    requires Valid(s) && StepReady(s, ev)
  {
    match ev
    case CharacteristicsRequestEvent(resources) => CharacteristicsRequested(s, resources)
    case CharacteristicsEvent(d) => CharacteristicsReceived(s, d)
    case VmCreateAckEvent(d, vmId, success, draws) => VmCreated(s, self, d, vmId, success, draws)
    case CloudletReturnEvent(c) => CloudletReturned(s, self, c)
    case EndOfSimulationEvent => s
    case OtherEvent => s
  }

  // ------------------------------------------------------------------ lemmas

  /** Every handled event keeps each created VM's datacenter recorded. */
  lemma StepKeepsValid(s: BrokerState, self: int, ev: Event)
    requires Valid(s) && StepReady(s, ev)
    ensures Valid(Step(s, self, ev))
  {
    match ev
    case CharacteristicsRequestEvent(resources) =>
    case CharacteristicsEvent(d) =>
      var t := s.(datacenterCharacteristicsList := s.datacenterCharacteristicsList + {d});
      if |t.datacenterCharacteristicsList| == |t.datacenterIdsList| {
        CreateVmsKeepsValid(t.(datacenterRequestedIdsList := []), t.datacenterIdsList[0]);
      }
    case VmCreateAckEvent(d, vmId, success, draws) => VmCreatedKeepsValid(s, self, d, vmId, success, draws);
    case CloudletReturnEvent(c) => CloudletReturnedKeepsValid(s, self, c);
    case EndOfSimulationEvent =>
    case OtherEvent =>
  }

  lemma CreateVmsKeepsValid(s: BrokerState, d: int)
    requires Valid(s)
    ensures Valid(CreateVms(s, d))
  {
  }

  lemma DispatchKeepsValid(s: BrokerState, pool: seq<Vm>)
    requires Valid(s) && PoolReady(s.cloudletList, pool, s.vmsCreatedList, s.vmsToDatacentersMap)
    ensures Valid(Dispatch(s, pool))
  {
  }

  lemma VmCreatedKeepsValid(s: BrokerState, self: int, d: int, vmId: int, success: bool, draws: seq<int>)
    requires Valid(s) && VmCreateReady(s, d, vmId, success, draws)
    ensures Valid(VmCreated(s, self, d, vmId, success, draws))
  {
    var t := RecordAck(s, d, vmId, success);
    RecordAckKeepsValid(s, d, vmId, success);
    match NextAfterAck(t)
    case SubmitAll =>
      var u := t.(cloudletList := Saturated(t.cloudletList, SaturatedVm, draws));
      NoUnboundReady(u.cloudletList, u.vmsCreatedList, u.vmsCreatedList, u.vmsToDatacentersMap);
      DispatchKeepsValid(u, u.vmsCreatedList);
    case TryNext(next) => CreateVmsKeepsValid(t, next);
    case Abort =>
    case Wait =>
  }

  lemma CloudletReturnedKeepsValid(s: BrokerState, self: int, c: Cloudlet)
    requires Valid(s)
    ensures Valid(CloudletReturned(s, self, c))
  {
    var t := s.(cloudletReceivedList := s.cloudletReceivedList + [c], cloudletsSubmitted := s.cloudletsSubmitted - 1);
    if |t.cloudletList| > 0 && t.cloudletsSubmitted == 0 {
      CreateVmsKeepsValid(Clear(t), RetryDatacenter);
    }
  }

  /** The waiting list is split, with nothing lost or duplicated, into the sent and the deferred cloudlets. */
  lemma {:induction false} DispatchPartition(cls: seq<Cloudlet>, created: seq<Vm>)
    ensures |ToSend(cls, created)| + |Deferred(cls, created)| == |cls|
    ensures multiset(ToSend(cls, created)) + multiset(Deferred(cls, created)) == multiset(cls)
  {
    if cls != [] {
      var n := |cls| - 1;
      DispatchPartition(cls[..n], created);
      assert multiset(cls) == multiset(cls[..n]) + multiset{cls[n]} by {
        assert cls == cls[..n] + [cls[n]];
      }
      SplitStep(cls, created);
    }
  }

  /** How the last cloudlet of the list extends the sent or the deferred list. */
  lemma SplitStep(cls: seq<Cloudlet>, created: seq<Vm>)
    requires cls != []
    ensures var n := |cls| - 1;
      if Sendable(cls[n], created)
      then ToSend(cls, created) == ToSend(cls[..n], created) + [cls[n]] && Deferred(cls, created) == Deferred(cls[..n], created)
      else ToSend(cls, created) == ToSend(cls[..n], created) && Deferred(cls, created) == Deferred(cls[..n], created) + [cls[n]]
  {
  }

  /** A cloudlet stays waiting exactly when it is bound to a VM that was not created. */
  lemma {:induction false} DeferredMembers(cls: seq<Cloudlet>, created: seq<Vm>)
    ensures forall c :: c in Deferred(cls, created) <==> c in cls && c.vmId != Unbound && c.vmId !in VmIds(created)
    ensures forall c :: c in ToSend(cls, created) <==> c in cls && Sendable(c, created)
  {
    if cls != [] {
      var n := |cls| - 1;
      DeferredMembers(cls[..n], created);
      assert cls == cls[..n] + [cls[n]];
    }
  }

  /**
   * In the submit step every sent cloudlet runs on a created VM, keeps its id
   * and length, and its message goes to that VM's datacenter.
   */
  lemma SentOnCreated(cls: seq<Cloudlet>, created: seq<Vm>, m: map<int, int>)
    requires forall k :: 0 <= k < |created| ==> created[k].id in m
    requires Reachable(cls, created, created)
    ensures forall k :: 0 <= k < |Sent(cls, created, created)| ==>
      var c := Sent(cls, created, created)[k];
      c.vmId in VmIds(created) && c.id == ToSend(cls, created)[k].id && c.length == ToSend(cls, created)[k].length
  {
    var t := ToSend(cls, created);
    ToSendSendable(cls, created);
    forall k | 0 <= k < |t|
      ensures Sent(cls, created, created)[k].vmId in VmIds(created)
    {
      assert ReachableAt(t, k, created, created);
      if t[k].vmId == Unbound {
        assert VmIds(created)[RoundRobinIndex(k, |created|)] == created[RoundRobinIndex(k, |created|)].id;
      }
    }
  }

  /** A dispatch pass moves cloudlets from the waiting list to the submitted list and counts each one. */
  lemma DispatchConserves(s: BrokerState, pool: seq<Vm>)
    requires Valid(s) && PoolReady(s.cloudletList, pool, s.vmsCreatedList, s.vmsToDatacentersMap)
    ensures var t := Dispatch(s, pool);
      |t.cloudletList| + |t.cloudletSubmittedList| == |s.cloudletList| + |s.cloudletSubmittedList| &&
      t.cloudletsSubmitted - s.cloudletsSubmitted == |t.cloudletSubmittedList| - |s.cloudletSubmittedList| &&
      |t.outbox| - |s.outbox| == t.cloudletsSubmitted - s.cloudletsSubmitted
  {
    DispatchPartition(s.cloudletList, s.vmsCreatedList);
  }

  /** The ack counter counts acknowledgements since the last request round, which restarts it. */
  lemma AckCounting(s: BrokerState, self: int, d: int, vmId: int, success: bool, draws: seq<int>)
    requires Valid(s) && VmCreateReady(s, d, vmId, success, draws)
    ensures var t := VmCreated(s, self, d, vmId, success, draws);
      t.vmsAcks == (if NextAfterAck(RecordAck(s, d, vmId, success)).TryNext? then 0 else s.vmsAcks + 1)
  {
  }

  function Untried(ids: seq<int>, tried: seq<int>): set<int>
  {
    set d | d in ids && d !in tried
  }

  /**
   * A retry asks a datacenter that was not yet asked, so the untried datacenters
   * shrink by one and the retries stop after at most as many rounds as there are datacenters.
   */
  lemma RetryShrinksUntried(s: BrokerState)
    requires NextAfterAck(s).TryNext?
    ensures var d := NextAfterAck(s).datacenterId;
      d in s.datacenterIdsList && d !in s.datacenterRequestedIdsList &&
      Untried(s.datacenterIdsList, s.datacenterRequestedIdsList + [d]) ==
        Untried(s.datacenterIdsList, s.datacenterRequestedIdsList) - {d} &&
      |Untried(s.datacenterIdsList, s.datacenterRequestedIdsList + [d])| <
        |Untried(s.datacenterIdsList, s.datacenterRequestedIdsList)|
  {
    var d := NextAfterAck(s).datacenterId;
    var ids, tried := s.datacenterIdsList, s.datacenterRequestedIdsList;
    assert d in Untried(ids, tried);
    assert Untried(ids, tried + [d]) == Untried(ids, tried) - {d};
  }

  /** The broker gives up only when no VM exists, every datacenter was asked and every ack arrived. */
  lemma AbortOnlyWhenExhausted(s: BrokerState)
    ensures NextAfterAck(s) == Abort <==>
      |s.vmsCreatedList| == 0 && |s.vmsCreatedList| != |s.vmList| - s.vmsDestroyed &&
      s.vmsRequested == s.vmsAcks &&
      forall k :: 0 <= k < |s.datacenterIdsList| ==> s.datacenterIdsList[k] in s.datacenterRequestedIdsList
  {
  }

  /**
   * The re-request after the last running cloudlet returns asks only for VMs
   * that never got a datacenter: none of the VMs that were running is requested again.
   */
  lemma ReRequestSkipsCreated(s: BrokerState, self: int, c: Cloudlet)
    requires Valid(s) && |s.cloudletList| > 0 && s.cloudletsSubmitted == 1
    ensures var t := CloudletReturned(s, self, c);
      var pending := Unplaced(s.vmList, s.vmsToDatacentersMap);
      t.vmsRequested == |pending| && t.vmsCreatedList == [] &&
      (forall v :: v in pending <==> v in s.vmList && v.id !in s.vmsToDatacentersMap) &&
      (forall v :: v in s.vmsCreatedList ==> v !in pending)
  {
    UnplacedMembers(s.vmList, s.vmsToDatacentersMap);
  }

  // ------------------------------------------------------- handler effects

  /**
   * `createVmsInDatacenter(d)`: one creation request to `d` for each listed VM
   * that has no recorded datacenter, in list order; the requested count is the
   * number of those requests, the ack count restarts at 0, `d` joins the tried
   * list and nothing else changes.
   */
  lemma CreateVmsEffect(s: BrokerState, d: int)
    ensures var t := CreateVms(s, d);
      && t.outbox[..|s.outbox|] == s.outbox
      && |t.outbox| == |s.outbox| + t.vmsRequested
      && (forall k :: 0 <= k < t.vmsRequested ==>
            t.outbox[|s.outbox| + k] == VmCreate(d, Unplaced(s.vmList, s.vmsToDatacentersMap)[k]))
      && (forall v :: v in Unplaced(s.vmList, s.vmsToDatacentersMap) <==> v in s.vmList && v.id !in s.vmsToDatacentersMap)
      && t.vmsAcks == 0
      && t.datacenterRequestedIdsList == s.datacenterRequestedIdsList + [d]
      && t.(outbox := s.outbox, vmsRequested := s.vmsRequested, vmsAcks := s.vmsAcks,
            datacenterRequestedIdsList := s.datacenterRequestedIdsList) == s
  {
    var t := CreateVms(s, d);
    var pending := Unplaced(s.vmList, s.vmsToDatacentersMap);
    UnplacedMembers(s.vmList, s.vmsToDatacentersMap);
    assert t.outbox == s.outbox + CreateRequests(d, pending);
    forall k | 0 <= k < t.vmsRequested
      ensures t.outbox[|s.outbox| + k] == VmCreate(d, pending[k])
    {
      CreateRequestsAt(d, pending, k);
      assert t.outbox[|s.outbox| + k] == CreateRequests(d, pending)[k];
    }
  }

  /**
   * `processVmCreate` bookkeeping: the ack counter goes up by exactly one; a
   * success records the VM's datacenter and appends the VM to the created
   * list, a failure leaves both as they were.
   */
  lemma RecordAckEffect(s: BrokerState, d: int, vmId: int, success: bool)
    requires success ==> vmId in VmIds(s.vmList)
    ensures var t := RecordAck(s, d, vmId, success);
      && t.vmsAcks == s.vmsAcks + 1
      && (success ==> t.vmsToDatacentersMap == s.vmsToDatacentersMap[vmId := d]
                      && |t.vmsCreatedList| == |s.vmsCreatedList| + 1
                      && t.vmsCreatedList[..|s.vmsCreatedList|] == s.vmsCreatedList
                      && t.vmsCreatedList[|s.vmsCreatedList|] in s.vmList
                      && t.vmsCreatedList[|s.vmsCreatedList|].id == vmId)
      && (!success ==> t.vmsToDatacentersMap == s.vmsToDatacentersMap && t.vmsCreatedList == s.vmsCreatedList)
      && t.(vmsAcks := s.vmsAcks, vmsToDatacentersMap := s.vmsToDatacentersMap, vmsCreatedList := s.vmsCreatedList) == s
  {
    if success {
      var t := RecordAck(s, d, vmId, success);
      assert t.vmsCreatedList == s.vmsCreatedList + [GetVmById(s.vmList, vmId).value];
    }
  }

  /**
   * The order of the rules after an ack: all VMs up means submit; otherwise
   * nothing happens until every request of the round is acknowledged; then the
   * first untried datacenter in list order is asked; with none left, the
   * broker submits on what exists, or gives up when nothing does.
   */
  lemma NextAfterAckRules(s: BrokerState)
    ensures |s.vmsCreatedList| == |s.vmList| - s.vmsDestroyed ==> NextAfterAck(s) == SubmitAll
    ensures |s.vmsCreatedList| != |s.vmList| - s.vmsDestroyed && s.vmsRequested != s.vmsAcks ==> NextAfterAck(s) == Wait
    ensures NextAfterAck(s).TryNext? ==>
      exists k :: 0 <= k < |s.datacenterIdsList| && s.datacenterIdsList[k] == NextAfterAck(s).datacenterId &&
        s.datacenterIdsList[k] !in s.datacenterRequestedIdsList &&
        forall j :: 0 <= j < k ==> s.datacenterIdsList[j] in s.datacenterRequestedIdsList
    ensures NextAfterAck(s) == SubmitAll <==>
      |s.vmsCreatedList| == |s.vmList| - s.vmsDestroyed ||
      (s.vmsRequested == s.vmsAcks && |s.vmsCreatedList| > 0 &&
       forall k :: 0 <= k < |s.datacenterIdsList| ==> s.datacenterIdsList[k] in s.datacenterRequestedIdsList)
  {
  }

  /**
   * `processCloudletReturn`: the cloudlet is received and the running count
   * drops by one. With nothing waiting and nothing running, every created VM
   * is destroyed and the end of the simulation is signalled; with cloudlets
   * still waiting and nothing running, every created VM is destroyed and the
   * VMs without a datacenter are requested from datacenter 0; otherwise
   * nothing else happens.
   */
  lemma CloudletReturnedEffect(s: BrokerState, self: int, c: Cloudlet)
    requires Valid(s)
    ensures var t := CloudletReturned(s, self, c);
      var r := s.(cloudletReceivedList := s.cloudletReceivedList + [c], cloudletsSubmitted := s.cloudletsSubmitted - 1);
      var destroys := Destroys(s.vmsCreatedList, s.vmsToDatacentersMap);
      && t.cloudletReceivedList == s.cloudletReceivedList + [c]
      && t.cloudletsSubmitted == s.cloudletsSubmitted - 1
      && t.cloudletList == s.cloudletList
      && (s.cloudletList == [] && s.cloudletsSubmitted == 1 ==>
            t.outbox == s.outbox + destroys + [EndOfSimulation(self)] && t.vmsCreatedList == [])
      && (s.cloudletList != [] && s.cloudletsSubmitted == 1 ==>
            t.outbox == s.outbox + destroys + CreateRequests(RetryDatacenter, Unplaced(s.vmList, s.vmsToDatacentersMap)) &&
            t.vmsCreatedList == [] && t.vmsAcks == 0 &&
            t.datacenterRequestedIdsList == s.datacenterRequestedIdsList + [RetryDatacenter])
      && (s.cloudletsSubmitted != 1 ==> t == r)
  {
  }

  /**
   * `clearDatacenters`: exactly one destroy per created VM, in order, each to
   * the datacenter recorded for it; the created list empties and the
   * VM-to-datacenter map is kept.
   */
  lemma ClearEffect(s: BrokerState)
    requires Valid(s)
    ensures var t := Clear(s);
      && |t.outbox| == |s.outbox| + |s.vmsCreatedList|
      && t.outbox[..|s.outbox|] == s.outbox
      && (forall k :: 0 <= k < |s.vmsCreatedList| ==>
            t.outbox[|s.outbox| + k] == VmDestroy(s.vmsToDatacentersMap[s.vmsCreatedList[k].id], s.vmsCreatedList[k]))
      && t.vmsCreatedList == []
      && t.vmsToDatacentersMap == s.vmsToDatacentersMap
  {
  }

  /** A second teardown right after the first sends no further destroy messages. */
  lemma ClearTwiceSendsNothingMore(s: BrokerState)
    requires Valid(s)
    ensures Valid(Clear(s)) && Clear(Clear(s)) == Clear(s)
  {
  }

  /**
   * The dispatch pass as the source states it: the `k`-th sent cloudlet is the
   * `k`-th cloudlet that can be sent; an unbound one is placed on the created VM
   * at `k mod (created count)`, a bound one keeps its VM; only the VM id changes.
   */
  lemma SentRoundRobin(cls: seq<Cloudlet>, created: seq<Vm>)
    requires Reachable(cls, created, created)
    ensures var t := ToSend(cls, created);
      forall k :: 0 <= k < |t| ==>
        var c := Sent(cls, created, created)[k];
        && c == t[k].(vmId := c.vmId)
        && (t[k].vmId == Unbound ==> |created| > 0 && c.vmId == created[k % |created|].id)
        && (t[k].vmId != Unbound ==> c == t[k])
  {
    var t := ToSend(cls, created);
    forall k | 0 <= k < |t|
      ensures var c := Sent(cls, created, created)[k];
        && c == t[k].(vmId := c.vmId)
        && (t[k].vmId == Unbound ==> |created| > 0 && c.vmId == created[k % |created|].id)
    {
      assert ReachableAt(t, k, created, created);
    }
  }
}
