# CloudSim broker and allocation policies in Dafny

This project models the part of CloudSim 4.0 that places work. It covers four pieces.

- **`DatacenterBroker`**: the broker's message protocol and its cloudlet-to-VM binding heuristics.
  - The protocol asks datacenters for their characteristics, then requests VM creation datacenter by datacenter, counting acknowledgements.
  - Once the VMs are up, it binds and submits cloudlets.
  - When the last cloudlet returns, it tears the VMs down.
  - The binding heuristics are saturation, FCFS blocks, random clusters, cost-matrix greedy, min-min, max-min and priority.
- **`VmAllocationPolicyRR`**: a PE ledger that places each VM on the host running the fewest VMs, with retry, or on the first host that fits.
- **The container-world policies**: `ContainerVmAllocationPolicyRR`, which uses a rotating `CircularHostList`, and `ContainerVmAllocationPolicyGreedy`, which places on the first host that fits.
- **`CircularHostList`** itself.

Modules follow the source's classes:

| File | What it holds |
|---|---|
| `circular_host_list.dfy` | The rotating host list, as a class. |
| `container_vm_allocation_policy_rr.dfy` | The container round-robin policy, as a class. |
| `container_vm_allocation_policy_greedy.dfy` | The container greedy policy, as a class. |
| `vm_allocation_policy_rr.dfy` | The host round-robin policy, as a class. |
| `pe_ledger.dfy` | The bookkeeping the PE-tracking policies share: `vmTable`, `usedPes`, `freePes` and the invariant linking them. |
| `host_selection.dfy` | The host-choosing loops those policies run. |
| `datacenter_broker.dfy` | The broker class; its handlers run the source's loops. |
| `broker_protocol.dfy` | The same handlers as pure transitions over a `BrokerState`, against which the class is proved. |
| `binding.dfy`, `binding_metrics.dfy`, `binding_clusters.dfy`, `cost_matrix.dfy` | The binding heuristics and what they compute. |
| `broker_entities.dfy` | VMs, cloudlets and messages. |
| `stable_sort.dfy` | The stable sort used by `Collections.sort`. |

Model conventions:

- Everything outside the broker and the policies is a parameter:
  - A host's answer to "create this VM" is a `seq<bool>` or a `HostId -> bool` oracle. A refusal changes nothing, so one snapshot of answers per call is faithful.
  - Each host's VM count is a `seq<nat>`.
  - Each `Random.nextInt` draw comes from a sequence of draws.
  - The datacenter ids the simulation registry returns arrive with the event.
- Messages the broker sends are appended to an `outbox`.
- Hosts are identified by their position in the host list, which is what `indexOf` gives on a list of distinct hosts.

## Model

| member | source | states |
|---|---|---|
| CircularHostList.CircularHostList.constructor | cloudsim-4.0/src/org/cloudbus/cloudsim/container/core/CircularHostList.java:18-20 | the list holds the given hosts and the cursor starts at 0 |
| CircularHostList.CircularHostList.Add | cloudsim-4.0/src/org/cloudbus/cloudsim/container/core/CircularHostList.java:22-24 | add always succeeds, appends the host at the end and leaves the cursor alone |
| CircularHostList.CircularHostList.Remove | cloudsim-4.0/src/org/cloudbus/cloudsim/container/core/CircularHostList.java:26-28 | remove reports whether the host was present and deletes only its first occurrence (multiset minus one copy); the cursor is kept |
| CircularHostList.RemoveFirstCutsFirstOccurrence | cloudsim-4.0/src/org/cloudbus/cloudsim/container/core/CircularHostList.java:26-28 | removing a present host cuts the list at its first index and keeps the rest in order |
| CircularHostList.CircularHostList.Next | cloudsim-4.0/src/org/cloudbus/cloudsim/container/core/CircularHostList.java:30-39 | an empty list yields no host and no cursor move; otherwise the host at cursor mod size is returned and the cursor advances by one |
| CircularHostList.CircularHostList.NextTimes | cloudsim-4.0/src/org/cloudbus/cloudsim/container/core/CircularHostList.java:30-39 | k calls of next draw exactly `list[(ini + i) mod size]` for i < k and advance the cursor by k |
| CircularHostList.FullRoundIsRotation | cloudsim-4.0/src/org/cloudbus/cloudsim/container/core/CircularHostList.java:30-39 | `size` consecutive calls of next visit every host exactly once, as a rotation of the list that starts at the cursor; from cursor 0 they give the list itself |
| CircularHostList.CircularHostList.Get | cloudsim-4.0/src/org/cloudbus/cloudsim/container/core/CircularHostList.java:46-48 | get returns the hosts in list order, one per position |
| CircularHostList.CircularHostList.Size | cloudsim-4.0/src/org/cloudbus/cloudsim/container/core/CircularHostList.java:61-63 | size is the number of hosts in the list |
| CircularHostList.CircularHostList.OrderedAscByAvailablePes | cloudsim-4.0/src/org/cloudbus/cloudsim/container/core/CircularHostList.java:65-77 | a fresh list with cursor 0, sorted ascending by free PEs, a permutation of the original; hosts with equal free PEs keep their relative order |
| CircularHostList.CircularHostList.GetWithMinimumNumberOfPesEquals | cloudsim-4.0/src/org/cloudbus/cloudsim/container/core/CircularHostList.java:50-59 | no host is returned iff every host has fewer free PEs than asked; otherwise the result has enough PEs, no qualifying host has fewer, and among the hosts tied with it it is the first in list order |
| StableSort.SortBySortsAndPermutes | cloudsim-4.0/src/org/cloudbus/cloudsim/container/core/CircularHostList.java:68-75 | the sort used by `Collections.sort` yields a sorted permutation of its input |
| StableSort.SortByIsStable | cloudsim-4.0/src/org/cloudbus/cloudsim/container/core/CircularHostList.java:68-75 | for every key, the elements with that key come out in their input order |
| ContainerVmAllocationPolicyRR.ContainerVmAllocationPolicyRR.constructor | cloudsim-4.0/src/org/cloudbus/cloudsim/container/resourceAllocators/ContainerVmAllocationPolicyRR.java:25-28 | the VM table and the per-datacenter VM lists start empty; the circular list holds the hosts with cursor 0 |
| ContainerVmAllocationPolicyRR.ContainerVmAllocationPolicyRR.AllocateHostForVm | cloudsim-4.0/src/org/cloudbus/cloudsim/container/resourceAllocators/ContainerVmAllocationPolicyRR.java:31-45 | an already-placed VM reports success and changes nothing; with no hosts nothing happens; otherwise exactly one host, the next in rotation, is tried; on acceptance the VM is recorded on it and appended to its datacenter's list; on refusal only the cursor moved |
| ContainerVmAllocationPolicyRR.ContainerVmAllocationPolicyRR.AllocateHostForVmOnHost | cloudsim-4.0/src/org/cloudbus/cloudsim/container/resourceAllocators/ContainerVmAllocationPolicyRR.java:48-61 | success iff a host was given and accepts; then the VM is recorded on it and appended to its datacenter's list; otherwise nothing changes |
| ContainerVmAllocationPolicyRR.ContainerVmAllocationPolicyRR.DeallocateHostForVm | cloudsim-4.0/src/org/cloudbus/cloudsim/container/resourceAllocators/ContainerVmAllocationPolicyRR.java:69-75 | the VM's entry leaves the table (a no-op when absent); the datacenter lists are untouched |
| ContainerVmAllocationPolicyRR.ContainerVmAllocationPolicyRR.GetHost | cloudsim-4.0/src/org/cloudbus/cloudsim/container/resourceAllocators/ContainerVmAllocationPolicyRR.java:78-80 | a host is found iff the VM is in the table, and it is the recorded host |
| ContainerVmAllocationPolicyRR.ContainerVmAllocationPolicyRR.GetHostById | cloudsim-4.0/src/org/cloudbus/cloudsim/container/resourceAllocators/ContainerVmAllocationPolicyRR.java:83-85 | lookup by (vm id, user id) is lookup by the uid built from them |
| ContainerVmAllocationPolicyGreedy.ContainerVmAllocationPolicyGreedy.constructor | cloudsim-4.0/src/org/cloudbus/cloudsim/container/resourceAllocators/ContainerVmAllocationPolicyGreedy.java:42-53 | every host's free PEs equal its PE count, the tables are empty and the ledger invariant holds |
| ContainerVmAllocationPolicyGreedy.ContainerVmAllocationPolicyGreedy.AllocateHostForVm | cloudsim-4.0/src/org/cloudbus/cloudsim/container/resourceAllocators/ContainerVmAllocationPolicyGreedy.java:57-77 | a placed VM is refused without change; otherwise success iff some host accepts, the VM is booked on the first accepting host, and the ledger invariant is kept |
| ContainerVmAllocationPolicyGreedy.ContainerVmAllocationPolicyGreedy.AllocateHostForVmOnHost | cloudsim-4.0/src/org/cloudbus/cloudsim/container/resourceAllocators/ContainerVmAllocationPolicyGreedy.java:80-96 | the result is the host's answer; on success the VM is booked on that host, otherwise nothing changes |
| ContainerVmAllocationPolicyGreedy.ContainerVmAllocationPolicyGreedy.DeallocateHostForVm | cloudsim-4.0/src/org/cloudbus/cloudsim/container/resourceAllocators/ContainerVmAllocationPolicyGreedy.java:105-113 | the VM's PEs return to its host and its entries leave both tables, keeping the ledger invariant |
| ContainerVmAllocationPolicyGreedy.ContainerVmAllocationPolicyGreedy.GetHost | cloudsim-4.0/src/org/cloudbus/cloudsim/container/resourceAllocators/ContainerVmAllocationPolicyGreedy.java:116-118 | a host is found iff the VM is in the table, and it is the recorded host |
| ContainerVmAllocationPolicyGreedy.ContainerVmAllocationPolicyGreedy.GetHostById | cloudsim-4.0/src/org/cloudbus/cloudsim/container/resourceAllocators/ContainerVmAllocationPolicyGreedy.java:121-123 | lookup by (vm id, user id) is lookup by the uid built from them |
| VmAllocationPolicyRR.VmAllocationPolicyRR.constructor | cloudsim-4.0/src/org/cloudbus/cloudsim/VmAllocationPolicyRR.java:48-59 | every host's free PEs equal its PE count, the tables are empty and the ledger invariant holds |
| VmAllocationPolicyRR.VmAllocationPolicyRR.AllocateHostForVm | cloudsim-4.0/src/org/cloudbus/cloudsim/VmAllocationPolicyRR.java:70-71 | the default allocation is the round-robin one, with the same guarantees |
| VmAllocationPolicyRR.VmAllocationPolicyRR.AllocateHostForVmRR | cloudsim-4.0/src/org/cloudbus/cloudsim/VmAllocationPolicyRR.java:117-159 | a placed VM is refused without change; otherwise success iff some host accepts; on success exactly one booking on an accepting host, on failure no change; the ledger invariant is kept |
| VmAllocationPolicyRR.VmAllocationPolicyRR.AllocateHostForVmGreedy | cloudsim-4.0/src/org/cloudbus/cloudsim/VmAllocationPolicyRR.java:163-182 | a placed VM is refused without change; otherwise success iff some host accepts, and the VM is booked on the first accepting host |
| VmAllocationPolicyRR.VmAllocationPolicyRR.AllocateHostForVmOnHost | cloudsim-4.0/src/org/cloudbus/cloudsim/VmAllocationPolicyRR.java:313-330 | the result is the host's answer; on success the VM is booked on that host, otherwise nothing changes |
| VmAllocationPolicyRR.VmAllocationPolicyRR.DeallocateHostForVm | cloudsim-4.0/src/org/cloudbus/cloudsim/VmAllocationPolicyRR.java:232-240 | the VM's PEs return to its host and its entries leave both tables, keeping the ledger invariant |
| VmAllocationPolicyRR.VmAllocationPolicyRR.GetHost | cloudsim-4.0/src/org/cloudbus/cloudsim/VmAllocationPolicyRR.java:243-245 | a host is found iff the VM is in the table, and it is the recorded host |
| VmAllocationPolicyRR.VmAllocationPolicyRR.GetHostById | cloudsim-4.0/src/org/cloudbus/cloudsim/VmAllocationPolicyRR.java:248-250 | lookup by (vm id, user id) is lookup by the uid built from them |
| HostSelection.PickHostRR | cloudsim-4.0/src/org/cloudbus/cloudsim/VmAllocationPolicyRR.java:123-156 | hosts are tried in order of fewest VMs (ties by position), each at most once, and each refused; the pick is -1 iff every host refuses; otherwise it accepts and precedes every other accepting host in that order |
| HostSelection.LowestUnmarked | cloudsim-4.0/src/org/cloudbus/cloudsim/VmAllocationPolicyRR.java:128-139 | the scan finds the unmarked host with the fewest VMs, the first such in list order |
| HostSelection.RetryExhausted | cloudsim-4.0/src/org/cloudbus/cloudsim/VmAllocationPolicyRR.java:150-156 | once every host has been tried and marked, no host accepts |
| HostSelection.PickFirstFit | cloudsim-4.0/src/org/cloudbus/cloudsim/container/resourceAllocators/ContainerVmAllocationPolicyGreedy.java:64-74 | -1 iff no host accepts; otherwise the first accepting host |
| PeLedger.Initial | cloudsim-4.0/src/org/cloudbus/cloudsim/VmAllocationPolicyRR.java:48-59 | the initial ledger is consistent, with empty tables and free PEs equal to each host's PEs |
| PeLedger.BookKeepsConsistent | cloudsim-4.0/src/org/cloudbus/cloudsim/VmAllocationPolicyRR.java:144-149 | booking a new VM keeps each host's free PEs equal to its PEs minus the PEs of the VMs recorded on it |
| PeLedger.ReleaseKeepsConsistent | cloudsim-4.0/src/org/cloudbus/cloudsim/VmAllocationPolicyRR.java:232-240 | releasing a recorded VM keeps the same invariant |
| PeLedger.ReleaseUndoesBook | cloudsim-4.0/src/org/cloudbus/cloudsim/container/resourceAllocators/ContainerVmAllocationPolicyGreedy.java:105-113 | releasing a VM right after booking it restores the ledger exactly |
| PeLedger.BookOverExistingEntryBreaksLedger | cloudsim-4.0/src/org/cloudbus/cloudsim/VmAllocationPolicyRR.java:313-320 | booking on a given host without checking the table breaks the invariant for a VM that is already placed (a concrete two-host ledger) |
| BrokerEntities.GetVmById | cloudsim-4.0/src/org/cloudbus/cloudsim/DatacenterBroker.java:271 | no VM iff no listed VM has the id; otherwise the first listed VM with that id |
| BrokerEntities.BindById | cloudsim-4.0/src/org/cloudbus/cloudsim/DatacenterBroker.java:186-188 | the result is the list with exactly one position updated: the first cloudlet carrying the id gets the new VM id; every other position, including later cloudlets with the same id, is unchanged |
| Broker.DatacenterBroker.constructor | cloudsim-4.0/src/org/cloudbus/cloudsim/DatacenterBroker.java:100-118 | all lists, counters and maps start empty or zero |
| Broker.DatacenterBroker.SubmitVmList | cloudsim-4.0/src/org/cloudbus/cloudsim/DatacenterBroker.java:155-157 | the given VMs are appended to the VM list and nothing else changes |
| Broker.DatacenterBroker.SubmitCloudletList | cloudsim-4.0/src/org/cloudbus/cloudsim/DatacenterBroker.java:173-175 | the given cloudlets are appended to the cloudlet list and nothing else changes |
| Broker.DatacenterBroker.BindCloudletToVm | cloudsim-4.0/src/org/cloudbus/cloudsim/DatacenterBroker.java:186-188 | the first cloudlet with the given id, and only that one, is bound to the VM; no other field of the broker changes |
| Broker.DatacenterBroker.ProcessEvent | cloudsim-4.0/src/org/cloudbus/cloudsim/DatacenterBroker.java:191-218 | each event tag runs its handler; end of simulation and unknown tags change nothing; the created-VM invariant is kept |
| Broker.DatacenterBroker.ProcessResourceCharacteristicsRequest | cloudsim-4.0/src/org/cloudbus/cloudsim/DatacenterBroker.java:244-254 | the registry's datacenter ids become the id list, the answers are reset, and one characteristics query goes to each id in order |
| Broker.DatacenterBroker.ProcessResourceCharacteristics | cloudsim-4.0/src/org/cloudbus/cloudsim/DatacenterBroker.java:227-235 | the answer is recorded; when every datacenter has answered, the tried list is reset and VMs are requested from the first datacenter |
| Broker.DatacenterBroker.ProcessVmCreate | cloudsim-4.0/src/org/cloudbus/cloudsim/DatacenterBroker.java:263-306 | the ack is recorded, then the state moves on by the rules after an ack |
| Broker.DatacenterBroker.ProceedAfterAck | cloudsim-4.0/src/org/cloudbus/cloudsim/DatacenterBroker.java:283-305 | depending on the counts: submit, ask the next untried datacenter, end the simulation, or wait |
| Broker.DatacenterBroker.ProcessCloudletReturn | cloudsim-4.0/src/org/cloudbus/cloudsim/DatacenterBroker.java:315-334 | the returned cloudlet is received and the running count drops; teardown or re-request follows as the counts decide |
| Broker.DatacenterBroker.CreateVmsInDatacenter | cloudsim-4.0/src/org/cloudbus/cloudsim/DatacenterBroker.java:365-382 | creation requests go out for the VMs not yet placed; the counts and tried list are updated |
| Broker.DatacenterBroker.SubmitCloudlets | cloudsim-4.0/src/org/cloudbus/cloudsim/DatacenterBroker.java:391-454 | saturation binding, then one dispatch pass over the created VMs |
| Broker.DatacenterBroker.SubmitCloudletsPriority | cloudsim-4.0/src/org/cloudbus/cloudsim/DatacenterBroker.java:1195-1253 | stable sort by total length, then one dispatch pass whose round robin runs over the VM list |
| Broker.DatacenterBroker.DispatchTo | cloudsim-4.0/src/org/cloudbus/cloudsim/DatacenterBroker.java:421-453 | sendable cloudlets are submitted (unbound ones round robin over the pool), each with a message to its VM's datacenter; the rest stay waiting |
| Broker.DatacenterBroker.ClearDatacenters | cloudsim-4.0/src/org/cloudbus/cloudsim/DatacenterBroker.java:1322-1329 | one destroy per created VM, and the created list empties |
| Broker.DatacenterBroker.FinishExecution | cloudsim-4.0/src/org/cloudbus/cloudsim/DatacenterBroker.java:1337-1339 | an end-of-simulation message to the broker itself is sent |
| Broker.DatacenterBroker.StartEntity | cloudsim-4.0/src/org/cloudbus/cloudsim/DatacenterBroker.java:1347-1350 | a characteristics request to the broker itself is sent |
| Broker.DispatchLoop | cloudsim-4.0/src/org/cloudbus/cloudsim/DatacenterBroker.java:421-453 | the loop computes exactly the specified sent list, the waiting list (what `removeAll` leaves) and one submit message per sent cloudlet |
| Broker.QueryLoop | cloudsim-4.0/src/org/cloudbus/cloudsim/DatacenterBroker.java:251-253 | one query per datacenter id, in order |
| Broker.DestroyLoop | cloudsim-4.0/src/org/cloudbus/cloudsim/DatacenterBroker.java:1323-1326 | one destroy per created VM, each to its recorded datacenter, in order |
| Broker.FirstUntriedLoop | cloudsim-4.0/src/org/cloudbus/cloudsim/DatacenterBroker.java:289-294 | the loop finds the first datacenter not yet tried, or none |
| Broker.RequestLoop | cloudsim-4.0/src/org/cloudbus/cloudsim/DatacenterBroker.java:367-376 | one creation request per VM without a datacenter, in list order, and the count of them |
| BrokerProtocol.FirstUntried | cloudsim-4.0/src/org/cloudbus/cloudsim/DatacenterBroker.java:289-294 | none iff every datacenter has been tried; otherwise the first untried one in list order |
| BrokerProtocol.StepKeepsValid | cloudsim-4.0/src/org/cloudbus/cloudsim/DatacenterBroker.java:191-218 | every handled event keeps each created VM's datacenter recorded, so every destroy and submit has a destination |
| BrokerProtocol.CreateVmsEffect | cloudsim-4.0/src/org/cloudbus/cloudsim/DatacenterBroker.java:365-382 | exactly one request to the datacenter per listed VM with no recorded datacenter, in order; requested equals that count; acks restart at 0; the datacenter joins the tried list; nothing else changes |
| BrokerProtocol.RecordAckEffect | cloudsim-4.0/src/org/cloudbus/cloudsim/DatacenterBroker.java:263-280 | every ack counts once; a success records the VM's datacenter and appends that VM to the created list; a failure changes neither |
| BrokerProtocol.AckCounting | cloudsim-4.0/src/org/cloudbus/cloudsim/DatacenterBroker.java:280-294 | after an ack the counter is one higher, unless a retry round started, which restarts it at 0 |
| BrokerProtocol.NextAfterAckRules | cloudsim-4.0/src/org/cloudbus/cloudsim/DatacenterBroker.java:283-305 | all VMs up means submit; otherwise wait while acks are missing; then the first untried datacenter; with none left, submit iff some VM exists |
| BrokerProtocol.RetryShrinksUntried | cloudsim-4.0/src/org/cloudbus/cloudsim/DatacenterBroker.java:287-294 | a retry asks a listed, untried datacenter, so the untried set strictly shrinks and retries end |
| BrokerProtocol.AbortOnlyWhenExhausted | cloudsim-4.0/src/org/cloudbus/cloudsim/DatacenterBroker.java:296-303 | the broker gives up iff no VM exists, not all are up, every ack arrived and every datacenter was tried |
| BrokerProtocol.CloudletReturnedEffect | cloudsim-4.0/src/org/cloudbus/cloudsim/DatacenterBroker.java:315-334 | the cloudlet is received and the count drops; with nothing waiting or running: destroys then end of simulation; with cloudlets waiting and none running: destroys then requests to datacenter 0; else nothing more |
| BrokerProtocol.ReRequestSkipsCreated | cloudsim-4.0/src/org/cloudbus/cloudsim/DatacenterBroker.java:326-331 | the re-request after the last cloudlet returns asks only for VMs that never got a datacenter, never for one that was running |
| BrokerProtocol.ClearEffect | cloudsim-4.0/src/org/cloudbus/cloudsim/DatacenterBroker.java:1322-1329 | exactly one destroy per created VM, in order, to its recorded datacenter; the created list empties and the VM-to-datacenter map is kept |
| BrokerProtocol.ClearTwiceSendsNothingMore | cloudsim-4.0/src/org/cloudbus/cloudsim/DatacenterBroker.java:1322-1329 | teardown is idempotent: a second one sends nothing |
| BrokerProtocol.DispatchPartition | cloudsim-4.0/src/org/cloudbus/cloudsim/DatacenterBroker.java:421-453 | the sent and the deferred cloudlets partition the waiting list, as multisets |
| BrokerProtocol.DeferredMembers | cloudsim-4.0/src/org/cloudbus/cloudsim/DatacenterBroker.java:426-436 | a cloudlet stays waiting iff it is bound to a VM that was not created; it is sent iff it is unbound or bound to a created VM |
| BrokerProtocol.SentOnCreated | cloudsim-4.0/src/org/cloudbus/cloudsim/DatacenterBroker.java:426-447 | when the round robin runs over the created VMs, every sent cloudlet lands on a created VM |
| BrokerProtocol.SentRoundRobin | cloudsim-4.0/src/org/cloudbus/cloudsim/DatacenterBroker.java:426-447 | the k-th sent cloudlet is the k-th sendable one; if unbound it goes to created VM k mod the created count, if bound it is unchanged |
| BrokerProtocol.DispatchConserves | cloudsim-4.0/src/org/cloudbus/cloudsim/DatacenterBroker.java:445-453 | dispatch moves cloudlets from waiting to submitted without loss; the submitted counter and the messages each grow by the number sent |
| Binding.Saturation | cloudsim-4.0/src/org/cloudbus/cloudsim/DatacenterBroker.java:456-485 | the first 1000 cloudlets go to the chosen VM and the rest to drawn VMs; the job counts sum to the cloudlet count and give that VM at least 1000; the communication cost is the number of VM changes, at most n-1 |
| Binding.KhalidFCFS | cloudsim-4.0/src/org/cloudbus/cloudsim/DatacenterBroker.java:487-516 | consecutive blocks of n/m cloudlets go to VMs 0..m-1; the tail keeps its binding; job counts sum to n; cost counts VM changes |
| Binding.FCFSRandomCluster | cloudsim-4.0/src/org/cloudbus/cloudsim/DatacenterBroker.java:518-585 | the first 5000 cloudlets are cut into drawn clusters of 1..100; cluster c goes to VM c mod m; later cloudlets are kept; job counts sum to n |
| Binding.RoundRobin | cloudsim-4.0/src/org/cloudbus/cloudsim/DatacenterBroker.java:556-564 | cluster c's target is VM c mod m |
| Binding.KhalidRandomCluster | cloudsim-4.0/src/org/cloudbus/cloudsim/DatacenterBroker.java:764-868 | drawn clusters are placed by the greedy cost rule on the cluster lengths; each cluster's cloudlets get its VM; cluster job counts sum to 5000 |
| Binding.KhalidCluster | cloudsim-4.0/src/org/cloudbus/cloudsim/DatacenterBroker.java:870-943 | n/100 clusters of 100 cloudlets are placed by the greedy cost rule; each block gets its cluster's VM; job counts sum to 100 per cluster |
| Binding.GreedyBindSorted | cloudsim-4.0/src/org/cloudbus/cloudsim/DatacenterBroker.java:1038-1076 | each cloudlet goes to the created VM the greedy cost rule chooses for its row |
| Binding.MinMin | cloudsim-4.0/src/org/cloudbus/cloudsim/DatacenterBroker.java:1010-1097 | cloudlets are stably sorted by ascending total length, then bound by the greedy cost rule; job counts sum to n; cost counts VM changes |
| Binding.MaxMin | cloudsim-4.0/src/org/cloudbus/cloudsim/DatacenterBroker.java:1100-1155 | cloudlets are stably sorted by descending total length, then bound by the greedy cost rule |
| Binding.SortByKeepsDistinct | cloudsim-4.0/src/org/cloudbus/cloudsim/DatacenterBroker.java:1025-1031 | sorting keeps cloudlet ids distinct |
| BindingMetrics.JobCountAndComCost | cloudsim-4.0/src/org/cloudbus/cloudsim/DatacenterBroker.java:467-479 | per-VM job counts sum to the number of cloudlets; the cost counts adjacent VM changes, at most n-1 |
| BindingMetrics.ClusterJobCountAndComCost | cloudsim-4.0/src/org/cloudbus/cloudsim/DatacenterBroker.java:847-861 | per-VM job counts weighted by cluster size sum to the total cluster size; the cost counts adjacent VM changes |
| BindingMetrics.LoadSumsToWeight | cloudsim-4.0/src/org/cloudbus/cloudsim/DatacenterBroker.java:467-471 | the per-VM loads always sum to the total weight bound |
| BindingMetrics.ChangesBounds | cloudsim-4.0/src/org/cloudbus/cloudsim/DatacenterBroker.java:472-478 | the communication cost is at most n-1, and 0 iff every cloudlet is on the same VM |
| BindingClusters.SizesCover | cloudsim-4.0/src/org/cloudbus/cloudsim/DatacenterBroker.java:530-545 | drawn cluster sizes are each between 1 and 100 and add up to exactly the remaining jobs |
| BindingClusters.DrawSizes | cloudsim-4.0/src/org/cloudbus/cloudsim/DatacenterBroker.java:530-545 | the drawing loop fills the size array with exactly the specified sizes and returns their count |
| BindingClusters.FillBoundaries | cloudsim-4.0/src/org/cloudbus/cloudsim/DatacenterBroker.java:548-554 | each boundary is the sum of the sizes before it |
| BindingClusters.MakeClusters | cloudsim-4.0/src/org/cloudbus/cloudsim/DatacenterBroker.java:530-554 | the boundaries start at 0, ascend strictly and end at 5000 |
| CostMatrix.BuildCostMatrix | cloudsim-4.0/src/org/cloudbus/cloudsim/DatacenterBroker.java:803-812 | entry (i, j) is the integer quotient of row i's length by VM j's MIPS |
| CostMatrix.GreedyCostAssign | cloudsim-4.0/src/org/cloudbus/cloudsim/DatacenterBroker.java:817-836 | every row picks the lowest-indexed column minimising its cost plus the penalty from earlier rows |
| CostMatrix.RowMinimum | cloudsim-4.0/src/org/cloudbus/cloudsim/DatacenterBroker.java:818-825 | the scan returns the first column holding the row's minimum |
| CostMatrix.GreedyChoiceUnique | cloudsim-4.0/src/org/cloudbus/cloudsim/DatacenterBroker.java:817-836 | the greedy rule determines the assignment uniquely |

## Left out

- **Floating point:** the `findMinimum` variants, the reinforcement-learning and `rank`-based allocation in `VmAllocationPolicyRR`, the ACO binder and every `double` metric. Their arithmetic is floating point, which this model does not represent.
- **The other broker variants:** `submitCloudletsKhalidRandom` and `submitCloudletsModified`. They sit outside the modelled core.
- **Logging:** all `Log` and `System.out` output. It does not affect state.
- **Kernel plumbing:** `CloudSim` event scheduling, entity lookup and `shutdownEntity`, beyond the messages appended to `outbox`.
- **MIPS:** a VM's MIPS is a positive integer, not a `double`. For positive values, `(int)(length / mips)` is integer division.
- **Integer width:**
  - Counters, lengths and the circular list's cursor are unbounded integers, so Java `int` overflow is not modelled.
  - The length comparators in min-min, max-min and the priority dispatch compute `(int)(a - b)`, which could overflow. The model sorts by the mathematical total length.
- **Object identity:** cloudlets and VMs are values. Aliasing between the broker's lists and a host's objects is not modelled.
- **Host internals:** a host's acceptance of a VM and its VM count are inputs. Hosts with equal contents are told apart by position.
- BrokerEntities.BindById: requires the cloudlet to exist. The source dereferences the lookup result and would throw otherwise.
- CircularHostList.CircularHostList.Next: the cursor is an unbounded natural. The source's `int` would wrap after 2^31 calls.
- BindingClusters.MakeClusters: requires fewer than 200 clusters, the size of the source's arrays. With draws of 0 more clusters are possible, and the source would then throw.
- Binding.KhalidRandomCluster: requires the created count to equal the VM list length. The source scans columns over one list and reads MIPS from the other.
- Binding.KhalidCluster: requires the created count to equal the VM list length, for the same reason.
- VmAllocationPolicyRR.VmAllocationPolicyRR.AllocateHostForVmOnHost: preserves the ledger invariant only when the VM was not already placed. The source does not check the table, and `PeLedger.BookOverExistingEntryBreaksLedger` shows the resulting inconsistency.
- ContainerVmAllocationPolicyGreedy.ContainerVmAllocationPolicyGreedy.AllocateHostForVmOnHost: preserves the ledger invariant only when the VM was not already placed, for the same reason.
- ContainerVmAllocationPolicyRR.ContainerVmAllocationPolicyRR.AllocateHostForVmOnHost: keeps its invariant only when the host is in the list, which the source does not check.
- Broker.DatacenterBroker.ProcessVmCreate: requires that when the ack leads to submission, the saturation step's demands hold: at least 1000 cloudlets and more than 4 VMs. Otherwise the source's binding would index out of range. It also requires a successful ack to name a VM of the VM list; the source would otherwise add a null VM to the created list. Through the saturation step it also requires distinct cloudlet ids, for the reason given under Binding.Saturation.
- Binding.Saturation: requires distinct cloudlet ids. The source binds by looking a cloudlet up by its id through `bindCloudletToVm`. With duplicate ids that lookup would rebind an earlier cloudlet instead of the one at the loop position. The model does not describe that outcome.
- Binding.KhalidFCFS: requires distinct cloudlet ids, for the same reason as Binding.Saturation. It also requires at least one VM: the source divides the cloudlet count by the VM count, which throws on 0. And it requires every cloudlet past the last full block to be bound to an existing VM: the job-count array is indexed by that VM id, so an unbound -1 throws.
- Binding.FCFSRandomCluster: requires distinct cloudlet ids, at least one VM and an in-range binding for cloudlets 5000 and later, for the same reasons as Binding.KhalidFCFS. It also requires at least 5000 cloudlets, since the source reads cloudlets 0 to 4999 by position.
- Binding.KhalidRandomCluster: requires distinct cloudlet ids, for the same reason as Binding.Saturation. It also requires at least 5000 cloudlets, as Binding.FCFSRandomCluster does.
- Binding.KhalidCluster: requires distinct cloudlet ids, for the same reason as Binding.Saturation. It also requires at least one cloudlet, because the source reads the first cloudlet's length, which throws on an empty list.
- Binding.GreedyBindSorted: requires distinct cloudlet ids, for the same reason as Binding.Saturation. It also requires:
  - no more created VMs than listed VMs, because the source reads MIPS from the VM list at every created column;
  - at least one created VM when there are cloudlets, because the source reads column 0 of each row.
- Binding.MinMin: requires distinct cloudlet ids, for the same reason as Binding.Saturation. Like Binding.GreedyBindSorted, it requires no more created VMs than listed VMs and at least one created VM when there are cloudlets.
- Binding.MaxMin: requires distinct cloudlet ids, for the same reason as Binding.Saturation. Like Binding.GreedyBindSorted, it requires no more created VMs than listed VMs and at least one created VM when there are cloudlets.
- Broker.DatacenterBroker.SubmitCloudlets: requires distinct cloudlet ids, which the saturation binder above needs.
- Broker.DatacenterBroker.DispatchTo: requires that every unbound cloudlet the loop reaches finds a VM at the round-robin index and that this VM has a recorded datacenter. This excludes the source's failures when the created list is empty (`% 0`), when the index runs past the pool, and when the datacenter lookup returns null and unboxing it throws.
- Broker.DatacenterBroker.SubmitCloudletsPriority: requires the same of the sorted list. There the round robin indexes the VM list, but its modulus is the created count.
- VmAllocationPolicyRR.VmAllocationPolicyRR.AllocateHostForVmOnHost: requires the host to be one of the policy's hosts. In the source, `indexOf` answers -1 for a foreign host, and `get(-1)` throws after the VM table has already been updated.
- ContainerVmAllocationPolicyGreedy.ContainerVmAllocationPolicyGreedy.AllocateHostForVmOnHost: requires the host to be one of the policy's hosts, for the same reason.
- VmAllocationPolicyRR.VmAllocationPolicyRR.AllocateHostForVmRR: requires every host to run fewer than `Integer.MAX_VALUE` VMs. Otherwise the scan never beats its starting minimum, leaves the index at -1, and `get(-1)` throws.
- VmAllocationPolicyRR.VmAllocationPolicyRR.AllocateHostForVm: has the same requirement, since it delegates to the round-robin allocation.
