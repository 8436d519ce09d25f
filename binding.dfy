/**
 * The job-to-VM binding heuristics of the broker. Each one reads the
 * broker's cloudlet list and binds cloudlets by id (`bindCloudletToVm`); here
 * each is a method from the cloudlet list to the re-bound list, which the
 * broker stores back. Cloudlet ids are distinct, so binding the id found at a
 * position binds that position. VM ids are the positions in the VM list, as
 * the heuristics use them.
 */
module Binding {

  import opened BrokerEntities
  import opened BindingMetrics
  import opened BindingClusters
  import opened CostMatrix
  import opened StableSort
  import opened Arithmetic

  /** The number of leading cloudlets the saturation binder puts on one VM. */
  const SaturationCount: int := 1000
  /** Jobs per cluster of the fixed-size cluster binder. */
  const ClusterSize: int := 100
  /** Length of one job of a random cluster. */
  const JobLength: int := 10000

  /** `0, 1, ..., n - 1`: block `i` of the FCFS binder goes to VM `i`. */
  function Identity(n: nat): (ids: seq<int>)
    ensures |ids| == n && forall i :: 0 <= i < n ==> ids[i] == i
  {
    if n == 0 then [] else Identity(n - 1) + [n - 1]
  }

  /** Binds cloudlet `k` to `target[k]`, for every position. */
  method BindEach(cls: seq<Cloudlet>, target: seq<int>) returns (out: seq<Cloudlet>)
    requires DistinctIds(cls) && |target| == |cls|
    ensures |out| == |cls| && DistinctIds(out)
    ensures forall k :: 0 <= k < |cls| ==> out[k] == cls[k].(vmId := target[k])
  {
    out := cls;
    var i := 0;
    while i < |cls|
      invariant 0 <= i <= |cls| && |out| == |cls| && DistinctIds(out)
      invariant forall k :: 0 <= k < |cls| ==> out[k] == if k < i then cls[k].(vmId := target[k]) else cls[k]
    {
      BindByIdAt(out, i, target[i]);
      out := BindById(out, out[i].id, target[i]);
      i := i + 1;
    }
  }

  /** Binds the cloudlets in `[lo, hi)` to `vmId`, one by one in position order. */
  method BindRange(cls: seq<Cloudlet>, lo: nat, hi: nat, vmId: int) returns (out: seq<Cloudlet>)
    requires DistinctIds(cls) && lo <= hi <= |cls|
    ensures |out| == |cls| && DistinctIds(out)
    ensures forall k :: 0 <= k < |cls| ==> out[k] == if lo <= k < hi then cls[k].(vmId := vmId) else cls[k]
  {
    out := cls;
    var j := lo;
    while j < hi
      invariant lo <= j <= hi && |out| == |cls| && DistinctIds(out)
      invariant forall k :: 0 <= k < |cls| ==> out[k] == if lo <= k < j then cls[k].(vmId := vmId) else cls[k]
    {
      BindByIdAt(out, j, vmId);
      out := BindById(out, out[j].id, vmId);
      j := j + 1;
    }
  }

  /** `width` copies of `target[0]`, then `width` copies of `target[1]`, and so on. */
  function Blocks(target: seq<int>, width: nat): seq<int>
  {
    if target == [] then [] else Blocks(target[..|target| - 1], width) + seq(width, _ => target[|target| - 1])
  }

  lemma {:induction false} BlocksLength(target: seq<int>, width: nat)
    ensures |Blocks(target, width)| == |target| * width
  {
    if target != [] {
      var n := |target| - 1;
      BlocksLength(target[..n], width);
      assert n * width + width == (n + 1) * width;
    }
  }

  /** Position `i * width + j` of the blocks holds `target[i]`. */
  lemma {:induction false} BlocksAt(target: seq<int>, width: nat, i: nat, j: nat)
    requires i < |target| && j < width
    ensures i * width + j < |Blocks(target, width)| && Blocks(target, width)[i * width + j] == target[i]
  {
    var n := |target| - 1;
    BlocksLength(target[..n], width);
    BlocksLength(target, width);
    if i < n {
      BlocksAt(target[..n], width, i, j);
    } else {
      assert Blocks(target, width) == Blocks(target[..n], width) + seq(width, _ => target[n]);
    }
  }

  /** Every entry of the blocks is one of the targets. */
  lemma {:induction false} BlocksInRange(target: seq<int>, width: nat, m: nat)
    requires InRange(target, m)
    ensures InRange(Blocks(target, width), m)
  {
    if target != [] {
      var n := |target| - 1;
      assert InRange(target[..n], m);
      BlocksInRange(target[..n], width, m);
    }
  }

  /**
   * Binds consecutive blocks of `width` cloudlets: cloudlet `i * width + j`
   * goes to `target[i]`; cloudlets past the last block keep their binding.
   */
  method BindBlocks(cls: seq<Cloudlet>, width: nat, target: seq<int>) returns (out: seq<Cloudlet>)
    requires DistinctIds(cls) && |target| * width <= |cls|
    ensures |out| == |cls| && DistinctIds(out)
    ensures var owner := Blocks(target, width);
      forall k :: 0 <= k < |cls| ==> out[k] == if k < |owner| then cls[k].(vmId := owner[k]) else cls[k]
  {
    out := cls;
    var i := 0;
    while i < |target|
      invariant 0 <= i <= |target| && |out| == |cls| && DistinctIds(out)
      invariant var owner := Blocks(target[..i], width);
        |owner| == i * width &&
        forall k :: 0 <= k < |cls| ==> out[k] == if k < |owner| then cls[k].(vmId := owner[k]) else cls[k]
    {
      ghost var owner := Blocks(target[..i], width);
      var lo := i * width;
      MulMono(i + 1, |target|, width);
      assert lo + width == (i + 1) * width;
      out := BindRange(out, lo, lo + width, target[i]);
      assert target[..i + 1][..i] == target[..i];
      BlocksLength(target[..i + 1], width);
      assert Blocks(target[..i + 1], width) == owner + seq(width, _ => target[i]);
      i := i + 1;
    }
    assert target[..i] == target;
  }

  /**
   * Binds cluster `c`, the cloudlets in `[range[c], range[c + 1])`, to
   * `target[c]`; cloudlets past the last cluster keep their binding.
   */
  method BindRanges(cls: seq<Cloudlet>, range: seq<int>, target: seq<int>) returns (out: seq<Cloudlet>)
    requires DistinctIds(cls) && |range| == |target| + 1
    requires range[0] == 0 && range[|target|] <= |cls|
    requires forall a, b :: 0 <= a <= b <= |target| ==> range[a] <= range[b]
    ensures |out| == |cls| && DistinctIds(out)
    ensures forall c, k :: 0 <= c < |target| && range[c] <= k < range[c + 1] ==> out[k] == cls[k].(vmId := target[c])
    ensures forall k :: range[|target|] <= k < |cls| ==> out[k] == cls[k]
  {
    out := cls;
    var i := 0;
    while i < |target|
      invariant 0 <= i <= |target| && |out| == |cls| && DistinctIds(out)
      invariant forall c, k :: 0 <= c < i && range[c] <= k < range[c + 1] ==> out[k] == cls[k].(vmId := target[c])
      invariant forall k :: range[i] <= k < |cls| ==> out[k] == cls[k]
    {
      ghost var before := out;
      out := BindRange(out, range[i], range[i + 1], target[i]);
      forall c, k | 0 <= c < i && range[c] <= k < range[c + 1] ensures out[k] == cls[k].(vmId := target[c]) {
        assert range[c + 1] <= range[i];
        assert out[k] == before[k];
      }
      i := i + 1;
    }
  }

  /** Cloudlet `k` bound to `vmId` for the first 1000 positions and to the `k - 1000`th draw after. */
  function Saturated(cls: seq<Cloudlet>, vmId: int, draws: seq<int>): (out: seq<Cloudlet>)
    requires |cls| >= SaturationCount && |draws| == |cls| - SaturationCount
    ensures |out| == |cls|
  {
    seq(|cls|, k requires 0 <= k < |cls| =>
      cls[k].(vmId := if k < SaturationCount then vmId else draws[k - SaturationCount]))
  }

  /**
   * Saturation: the first 1000 cloudlets go to `vmId`, each later one to a
   * drawn VM in `[0, vmCount)`; then the job counts and the communication
   * cost of the binding.
   */
  method Saturation(cls: seq<Cloudlet>, vmId: int, vmCount: nat, draws: seq<int>)
    returns (out: seq<Cloudlet>, jobCount: seq<int>, comCost: int)
    requires DistinctIds(cls) && |cls| >= SaturationCount
    requires 0 <= vmId < vmCount
    requires |draws| == |cls| - SaturationCount && InRange(draws, vmCount)
    ensures out == Saturated(cls, vmId, draws) && DistinctIds(out)
    ensures InRange(BoundVms(out), vmCount)
    ensures jobCount == Load(BoundVms(out), Ones(|cls|), vmCount)
    ensures Sum(jobCount) == |cls| && jobCount[vmId] >= SaturationCount
    ensures comCost == Changes(BoundVms(out)) && 0 <= comCost <= |cls| - 1
  {
    out := BindSaturated(cls, vmId, draws);
    SaturatedVms(cls, vmId, vmCount, draws);
    var ids := BoundVms(out);
    jobCount, comCost := JobCountAndComCost(ids, vmCount);
    LoadCountsPrefix(ids, SaturationCount, vmCount, vmId);
  }

  /** The two binding loops of the saturation binder. */
  method BindSaturated(cls: seq<Cloudlet>, vmId: int, draws: seq<int>) returns (out: seq<Cloudlet>)
    requires DistinctIds(cls) && |cls| >= SaturationCount && |draws| == |cls| - SaturationCount
    ensures out == Saturated(cls, vmId, draws) && DistinctIds(out)
  {
    ghost var target := Saturated(cls, vmId, draws);
    out := cls;
    var i := 0;
    while i < SaturationCount
      invariant 0 <= i <= SaturationCount && |out| == |cls| && DistinctIds(out)
      invariant forall k :: 0 <= k < |cls| ==> out[k] == if k < i then target[k] else cls[k]
    {
      BindByIdAt(out, i, vmId);
      out := BindById(out, out[i].id, vmId);
      i := i + 1;
    }
    while i < |cls|
      invariant SaturationCount <= i <= |cls| && |out| == |cls| && DistinctIds(out)
      invariant forall k :: 0 <= k < |cls| ==> out[k] == if k < i then target[k] else cls[k]
    {
      var draw := draws[i - SaturationCount];
      BindByIdAt(out, i, draw);
      out := BindById(out, out[i].id, draw);
      i := i + 1;
    }
  }

  /** The saturated binding puts every cloudlet on a VM in range, the first 1000 on `vmId`. */
  lemma SaturatedVms(cls: seq<Cloudlet>, vmId: int, vmCount: nat, draws: seq<int>)
    requires |cls| >= SaturationCount && 0 <= vmId < vmCount
    requires |draws| == |cls| - SaturationCount && InRange(draws, vmCount)
    ensures InRange(BoundVms(Saturated(cls, vmId, draws)), vmCount)
    ensures forall k :: 0 <= k < SaturationCount ==> BoundVms(Saturated(cls, vmId, draws))[k] == vmId
  {
    var ids := BoundVms(Saturated(cls, vmId, draws));
    forall k | 0 <= k < |ids|
      ensures 0 <= ids[k] < vmCount
    {
      if k >= SaturationCount {
        assert draws[k - SaturationCount] == ids[k];
      }
    }
  }

  /**
   * Block FCFS: with `limit = n / vmCount`, VM `i` gets cloudlets
   * `i * limit .. i * limit + limit - 1`. The last `n mod vmCount` cloudlets
   * are not re-bound, and the job count reads their VM, so they must already
   * be bound to a VM in range.
   */
  method KhalidFCFS(cls: seq<Cloudlet>, vmCount: nat) returns (out: seq<Cloudlet>, jobCount: seq<int>, comCost: int)
    requires DistinctIds(cls) && vmCount > 0
    requires forall k :: vmCount * (|cls| / vmCount) <= k < |cls| ==> 0 <= cls[k].vmId < vmCount
    ensures |out| == |cls| && DistinctIds(out)
    ensures var owner := Blocks(Identity(vmCount), |cls| / vmCount);
      |owner| == vmCount * (|cls| / vmCount) &&
      forall k :: 0 <= k < |cls| ==> out[k] == if k < |owner| then cls[k].(vmId := owner[k]) else cls[k]
    ensures InRange(BoundVms(out), vmCount)
    ensures jobCount == Load(BoundVms(out), Ones(|cls|), vmCount) && Sum(jobCount) == |cls|
    ensures comCost == Changes(BoundVms(out)) && (|cls| > 0 ==> 0 <= comCost <= |cls| - 1)
  {
    var limit := |cls| / vmCount;
    ghost var owner := Blocks(Identity(vmCount), limit);
    assert |owner| == vmCount * limit <= |cls| by {
      BlocksLength(Identity(vmCount), limit);
      assert vmCount * limit == limit * vmCount;
    }
    out := BindBlocks(cls, limit, Identity(vmCount));
    BlocksInRange(Identity(vmCount), limit, vmCount);
    BlockBindingInRange(cls, out, owner, vmCount);
    var ids := BoundVms(out);
    jobCount, comCost := JobCountAndComCost(ids, vmCount);
  }

  lemma BlockBindingInRange(cls: seq<Cloudlet>, out: seq<Cloudlet>, owner: seq<int>, vmCount: nat)
    requires |out| == |cls| && |owner| <= |cls| && InRange(owner, vmCount)
    requires forall k :: |owner| <= k < |cls| ==> 0 <= cls[k].vmId < vmCount
    requires forall k :: 0 <= k < |cls| ==> out[k] == if k < |owner| then cls[k].(vmId := owner[k]) else cls[k]
    ensures InRange(BoundVms(out), vmCount)
  {
  }

  /** The job lengths of random clusters: `size * 10000` per cluster. */
  function ClusterLengths(sizes: seq<int>): (lengths: seq<nat>)
    requires forall k :: 0 <= k < |sizes| ==> sizes[k] >= 0
    ensures |lengths| == |sizes| && forall k :: 0 <= k < |sizes| ==> lengths[k] == sizes[k] * JobLength
  {
    seq(|sizes|, k requires 0 <= k < |sizes| => sizes[k] * JobLength)
  }

  /**
   * Random clusters placed round robin: the 5000 leading cloudlets are cut
   * into random clusters and cluster `c` goes to VM `c mod vmCount`. The job
   * count reads every cloudlet's VM, so cloudlets past the 5000th must
   * already be bound to a VM in range.
   */
  method FCFSRandomCluster(cls: seq<Cloudlet>, vmCount: nat, draws: seq<int>)
    returns (out: seq<Cloudlet>, jobCount: seq<int>, comCost: int)
    requires DistinctIds(cls) && vmCount > 0 && |cls| >= JobTotal
    requires DrawsInRange(draws) && Reaches(draws, 0) && |Sizes(draws, 0)| < Slots
    requires forall k :: JobTotal <= k < |cls| ==> 0 <= cls[k].vmId < vmCount
    ensures |out| == |cls| && DistinctIds(out)
    ensures var sizes := Sizes(draws, 0);
      forall c, k :: 0 <= c < |sizes| && 0 <= k < JobTotal && Sum(sizes[..c]) <= k < Sum(sizes[..c + 1]) ==>
        out[k] == cls[k].(vmId := c % vmCount)
    ensures forall k :: JobTotal <= k < |cls| ==> out[k] == cls[k]
    ensures InRange(BoundVms(out), vmCount)
    ensures jobCount == Load(BoundVms(out), Ones(|cls|), vmCount) && Sum(jobCount) == |cls|
    ensures comCost == Changes(BoundVms(out)) && 0 <= comCost <= |cls| - 1
  {
    var sizes, range := MakeClusters(draws);
    var target := RoundRobin(|sizes|, vmCount);
    RangesAscend(sizes, range);
    out := BindRanges(cls, range, target);
    ClustersOnTargets(cls, out, sizes, range, target);
    ClustersRoundRobin(cls, out, sizes, target, vmCount);
    ClusterBindingInRange(cls, out, range, target, vmCount);
    var ids := BoundVms(out);
    jobCount, comCost := JobCountAndComCost(ids, vmCount);
  }

  /** The VM of cluster `c` is `c mod vmCount`, advanced by one per cluster as a running index. */
  method RoundRobin(n: nat, vmCount: nat) returns (target: seq<int>)
    requires vmCount > 0
    ensures |target| == n && forall c :: 0 <= c < n ==> target[c] == c % vmCount
  {
    target := [];
    var vmId := 0;
    while |target| < n
      invariant |target| <= n && vmId == |target| % vmCount
      invariant forall c :: 0 <= c < |target| ==> target[c] == c % vmCount
    {
      ModStep(|target|, vmCount);
      target := target + [vmId];
      vmId := (vmId + 1) % vmCount;
    }
  }

  /**
   * After binding every cluster of the partition to its target, each of the
   * leading 5000 cloudlets sits on its cluster's target.
   */
  lemma ClustersOnTargets(cls: seq<Cloudlet>, out: seq<Cloudlet>, sizes: seq<int>, range: seq<int>, target: seq<int>)
    requires |out| == |cls| >= JobTotal && |target| == |sizes|
    requires Boundaries(sizes, range) && range[|sizes|] == JobTotal
    requires forall c, k :: 0 <= c < |target| && 0 <= k < |out| && range[c] <= k < range[c + 1] ==>
      out[k] == cls[k].(vmId := target[c])
    ensures forall c, k :: 0 <= c < |sizes| && 0 <= k < JobTotal && Sum(sizes[..c]) <= k < Sum(sizes[..c + 1]) ==>
      out[k] == cls[k].(vmId := target[c])
  {
  }

  lemma ClustersRoundRobin(cls: seq<Cloudlet>, out: seq<Cloudlet>, sizes: seq<int>, target: seq<int>, vmCount: nat)
    requires |out| == |cls| >= JobTotal && |target| == |sizes| && vmCount > 0
    requires forall c :: 0 <= c < |target| ==> target[c] == c % vmCount
    requires forall c, k :: 0 <= c < |sizes| && 0 <= k < JobTotal && Sum(sizes[..c]) <= k < Sum(sizes[..c + 1]) ==>
      out[k] == cls[k].(vmId := target[c])
    ensures forall c, k :: 0 <= c < |sizes| && 0 <= k < JobTotal && Sum(sizes[..c]) <= k < Sum(sizes[..c + 1]) ==>
      out[k] == cls[k].(vmId := c % vmCount)
  {
  }

  /** Cloudlets in the partition sit on targets in range; the rest already were in range. */
  lemma ClusterBindingInRange(cls: seq<Cloudlet>, out: seq<Cloudlet>, range: seq<int>, target: seq<int>, vmCount: nat)
    requires |out| == |cls| >= JobTotal && |range| == |target| + 1
    requires range[0] == 0 && range[|target|] == JobTotal
    requires forall c, k :: 0 <= c < |target| && 0 <= k < |out| && range[c] <= k < range[c + 1] ==>
      out[k] == cls[k].(vmId := target[c])
    requires forall k :: JobTotal <= k < |cls| ==> out[k] == cls[k] && 0 <= cls[k].vmId < vmCount
    requires InRange(target, vmCount)
    ensures InRange(BoundVms(out), vmCount)
  {
    var ids := BoundVms(out);
    forall k | 0 <= k < |ids| ensures 0 <= ids[k] < vmCount {
      if k < JobTotal {
        var c := ClusterAt(range, k);
        assert out[k] == cls[k].(vmId := target[c]);
      }
    }
  }

  /**
   * Random clusters placed by the cost-matrix rule: the 5000 leading
   * cloudlets are cut into random clusters, cluster `c` costs
   * `size * 10000 / mips` on each VM, and the greedy rule picks each
   * cluster's VM; the job count adds each cluster's size to its VM. The
   * matrix has one column per created VM while the scan runs over the whole
   * VM list, so the two counts must agree.
   */
  method KhalidRandomCluster(cls: seq<Cloudlet>, vms: seq<Vm>, createdCount: nat, draws: seq<int>)
    returns (out: seq<Cloudlet>, result: seq<int>, jobCount: seq<int>, comCost: int)
    requires DistinctIds(cls) && |cls| >= JobTotal
    requires DrawsInRange(draws) && Reaches(draws, 0) && |Sizes(draws, 0)| < Slots
    requires createdCount == |vms| > 0 && forall j :: 0 <= j < |vms| ==> vms[j].mips > 0
    ensures var sizes := Sizes(draws, 0);
      |result| == |sizes| &&
      forall c :: 0 <= c < |sizes| ==> GreedyChoice(Costs(ClusterLengths(sizes), vms, |vms|), |vms|, result, c)
    ensures |out| == |cls| && DistinctIds(out)
    ensures var sizes := Sizes(draws, 0);
      forall c, k :: 0 <= c < |sizes| && 0 <= k < JobTotal && Sum(sizes[..c]) <= k < Sum(sizes[..c + 1]) ==>
        out[k] == cls[k].(vmId := result[c])
    ensures forall k :: JobTotal <= k < |cls| ==> out[k] == cls[k]
    ensures InRange(result, |vms|) && jobCount == Load(result, Sizes(draws, 0), |vms|) && Sum(jobCount) == JobTotal
    ensures comCost == Changes(result) && 0 <= comCost <= |result| - 1
  {
    var sizes, range := MakeClusters(draws);
    var cost := BuildCostMatrix(ClusterLengths(sizes), vms, createdCount);
    result := GreedyCostAssign(cost, |vms|);
    RangesAscend(sizes, range);
    out := BindRanges(cls, range, result);
    ClustersOnTargets(cls, out, sizes, range, result);
    jobCount, comCost := ClusterJobCountAndComCost(result, sizes, |vms|);
  }

  /**
   * Fixed clusters of 100 cloudlets: cluster `i` is cloudlets
   * `100 i .. 100 i + 99`, every cluster costs `100 * length(cloudlet 0) / mips`
   * on each VM, the greedy rule picks each cluster's VM, and the job count
   * adds 100 per cluster. Cloudlets past the last whole cluster keep their
   * binding. The first cloudlet must exist; with at least one cluster the
   * created and listed VM counts must agree, as in the random cluster binder.
   */
  method KhalidCluster(cls: seq<Cloudlet>, vms: seq<Vm>, createdCount: nat)
    returns (out: seq<Cloudlet>, result: seq<int>, jobCount: seq<int>, comCost: int)
    requires DistinctIds(cls) && |cls| >= 1
    requires |cls| >= ClusterSize ==> createdCount == |vms| > 0 && forall j :: 0 <= j < |vms| ==> vms[j].mips > 0
    ensures |result| == |cls| / ClusterSize
    ensures |cls| >= ClusterSize ==>
      var lengths := seq(|cls| / ClusterSize, _ => cls[0].length * ClusterSize);
      forall c :: 0 <= c < |result| ==> GreedyChoice(Costs(lengths, vms, |vms|), |vms|, result, c)
    ensures |out| == |cls| && DistinctIds(out)
    ensures var owner := Blocks(result, ClusterSize);
      |owner| == |result| * ClusterSize &&
      forall k :: 0 <= k < |cls| ==> out[k] == if k < |owner| then cls[k].(vmId := owner[k]) else cls[k]
    ensures InRange(result, |vms|)
    ensures jobCount == Load(result, seq(|result|, _ => ClusterSize), |vms|) && Sum(jobCount) == ClusterSize * |result|
    ensures comCost == Changes(result) && (|result| > 0 ==> 0 <= comCost <= |result| - 1)
  {
    var noOfClusters := |cls| / ClusterSize;
    var lengths := seq(noOfClusters, _ => cls[0].length * ClusterSize);
    if noOfClusters > 0 {
      var cost := BuildCostMatrix(lengths, vms, createdCount);
      result := GreedyCostAssign(cost, |vms|);
    } else {
      result := [];
    }
    out := BindBlocks(cls, ClusterSize, result);
    BlocksLength(result, ClusterSize);
    var weights := seq(noOfClusters, _ => ClusterSize);
    jobCount, comCost := ClusterJobCountAndComCost(result, weights, |vms|);
    SumConst(noOfClusters, ClusterSize);
  }

  lemma {:induction false} SumConst(n: nat, x: int)
    ensures Sum(seq(n, _ => x)) == x * n
  {
    if n > 0 {
      SumConst(n - 1, x);
      assert seq(n, _ => x)[..n - 1] == seq(n - 1, _ => x);
    }
  }

  /** The lengths the min-min and max-min cost matrices are built from. */
  function Lengths(cls: seq<Cloudlet>): (lengths: seq<nat>)
    ensures |lengths| == |cls| && forall k :: 0 <= k < |cls| ==> lengths[k] == cls[k].length
  {
    seq(|cls|, k requires 0 <= k < |cls| => cls[k].length)
  }

  /**
   * The cost-matrix rule over already sorted cloudlets, one row per
   * cloudlet: row `i` costs `length / mips` on each created VM, and cloudlet
   * `i` is bound to its row's greedy choice.
   */
  method GreedyBindSorted(sorted: seq<Cloudlet>, vms: seq<Vm>, createdCount: nat)
    returns (out: seq<Cloudlet>, result: seq<int>)
    requires DistinctIds(sorted)
    requires createdCount <= |vms| && forall j :: 0 <= j < createdCount ==> vms[j].mips > 0
    requires |sorted| > 0 ==> createdCount > 0
    ensures |result| == |sorted| && InRange(result, createdCount)
    ensures forall i :: 0 <= i < |sorted| ==> GreedyChoice(Costs(Lengths(sorted), vms, createdCount), createdCount, result, i)
    ensures |out| == |sorted| && DistinctIds(out)
    ensures forall k :: 0 <= k < |sorted| ==> out[k] == sorted[k].(vmId := result[k])
  {
    var cost := BuildCostMatrix(Lengths(sorted), vms, createdCount);
    result := GreedyCostAssign(cost, createdCount);
    out := BindEach(sorted, result);
  }

  /** The sort key of max-min: larger total lengths first. */
  function NegTotalLength(c: Cloudlet): int
  {
    -TotalLength(c)
  }

  /**
   * Min-min: the cloudlets are stably sorted by ascending total length, then
   * placed by the cost-matrix rule; the job counts and the communication
   * cost are taken over the placement.
   */
  method MinMin(cls: seq<Cloudlet>, vms: seq<Vm>, createdCount: nat)
    returns (out: seq<Cloudlet>, result: seq<int>, jobCount: seq<int>, comCost: int)
    requires DistinctIds(cls)
    requires createdCount <= |vms| && forall j :: 0 <= j < createdCount ==> vms[j].mips > 0
    requires |cls| > 0 ==> createdCount > 0
    ensures var sorted := SortBy(cls, TotalLength);
      |sorted| == |out| == |result| == |cls| && forall k :: 0 <= k < |cls| ==> out[k] == sorted[k].(vmId := result[k])
    ensures SortedBy(out, TotalLength) && DistinctIds(out)
    ensures forall i :: 0 <= i < |cls| ==>
      GreedyChoice(Costs(Lengths(SortBy(cls, TotalLength)), vms, createdCount), createdCount, result, i)
    ensures InRange(result, |vms|)
    ensures jobCount == Load(result, Ones(|cls|), |vms|) && Sum(jobCount) == |cls|
    ensures comCost == Changes(result) && (|cls| > 0 ==> 0 <= comCost <= |cls| - 1)
  {
    SortBySortsAndPermutes(cls, TotalLength);
    SortByKeepsDistinct(cls, TotalLength);
    var sorted := SortBy(cls, TotalLength);
    out, result := GreedyBindSorted(sorted, vms, createdCount);
    jobCount, comCost := JobCountAndComCost(result, |vms|);
  }

  /**
   * Max-min: the cloudlets are stably sorted by descending total length,
   * then placed by the cost-matrix rule.
   */
  method MaxMin(cls: seq<Cloudlet>, vms: seq<Vm>, createdCount: nat) returns (out: seq<Cloudlet>, result: seq<int>)
    requires DistinctIds(cls)
    requires createdCount <= |vms| && forall j :: 0 <= j < createdCount ==> vms[j].mips > 0
    requires |cls| > 0 ==> createdCount > 0
    ensures var sorted := SortBy(cls, NegTotalLength);
      |sorted| == |out| == |result| == |cls| && forall k :: 0 <= k < |cls| ==> out[k] == sorted[k].(vmId := result[k])
    ensures (forall i, j :: 0 <= i < j < |out| ==> TotalLength(out[i]) >= TotalLength(out[j])) && DistinctIds(out)
    ensures forall i :: 0 <= i < |cls| ==>
      GreedyChoice(Costs(Lengths(SortBy(cls, NegTotalLength)), vms, createdCount), createdCount, result, i)
  {
    SortBySortsAndPermutes(cls, NegTotalLength);
    SortByKeepsDistinct(cls, NegTotalLength);
    var sorted := SortBy(cls, NegTotalLength);
    out, result := GreedyBindSorted(sorted, vms, createdCount);
  }

  lemma {:induction false} InsertElems(x: Cloudlet, s: seq<Cloudlet>, key: Cloudlet -> int)
    ensures forall y :: y in Insert(x, s, key) ==> y == x || y in s
  {
    if s != [] && key(x) > key(s[0]) {
      InsertElems(x, s[1..], key);
    }
  }

  /** Inserting a cloudlet whose id is new keeps the ids distinct. */
  lemma {:induction false} InsertKeepsDistinct(x: Cloudlet, s: seq<Cloudlet>, key: Cloudlet -> int)
    requires DistinctIds(s) && forall j :: 0 <= j < |s| ==> s[j].id != x.id
    ensures DistinctIds(Insert(x, s, key))
  {
    if s != [] && key(x) > key(s[0]) {
      var t := s[1..];
      InsertKeepsDistinct(x, t, key);
      var r := Insert(x, t, key);
      InsertElems(x, t, key);
      forall j | 0 <= j < |r| ensures r[j].id != s[0].id {
        assert r[j] in r;
        if r[j] != x {
          var m :| 0 <= m < |t| && t[m] == r[j];
          assert s[m + 1] == r[j];
        }
      }
      assert Insert(x, s, key) == [s[0]] + r;
    }
  }

  /** Sorting permutes the cloudlets, so distinct ids stay distinct. */
  lemma {:induction false} SortByKeepsDistinct(s: seq<Cloudlet>, key: Cloudlet -> int)
    requires DistinctIds(s)
    ensures DistinctIds(SortBy(s, key))
  {
    if s != [] {
      var t := s[1..];
      SortByKeepsDistinct(t, key);
      SortBySortsAndPermutes(t, key);
      var u := SortBy(t, key);
      forall j | 0 <= j < |u| ensures u[j].id != s[0].id {
        assert u[j] in multiset(t);
        var m :| 0 <= m < |t| && t[m] == u[j];
        assert s[m + 1] == u[j];
      }
      InsertKeepsDistinct(s[0], u, key);
    }
  }

  /** Adjacent ascending boundaries are ascending pairwise. */
  lemma RangesAscend(sizes: seq<int>, range: seq<int>)
    requires |range| == |sizes| + 1
    requires forall k :: 0 <= k < |sizes| ==> range[k] < range[k + 1]
    ensures forall a, b :: 0 <= a <= b <= |sizes| ==> range[a] <= range[b]
  {
    forall a, b | 0 <= a <= b <= |sizes| ensures range[a] <= range[b] {
      var x := a;
      while x < b
        invariant a <= x <= b && range[a] <= range[x]
      {
        x := x + 1;
      }
    }
  }

  /** Every position covered by the boundaries lies in exactly one cluster. */
  lemma ClusterAt(range: seq<int>, k: int) returns (c: nat)
    requires |range| >= 1 && range[0] <= k < range[|range| - 1]
    ensures c < |range| - 1 && range[c] <= k < range[c + 1]
  {
    c := 0;
    while range[c + 1] <= k
      invariant c < |range| - 1 && range[c] <= k
      decreases |range| - c
    {
      c := c + 1;
    }
  }
}
