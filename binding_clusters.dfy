/**
 * The random cluster partition of the cluster binders: 5000 jobs are cut into
 * consecutive clusters whose sizes are random draws in [1, 100], the last one
 * trimmed so that the sizes add up to 5000. Sizes and cluster boundaries live
 * in fixed arrays of 200 slots. The draws of `rand.nextInt(100)` are an input.
 */
module BindingClusters {

  import opened BindingMetrics

  /** The number of jobs the partition covers. */
  const JobTotal: int := 5000
  /** The length of the size and boundary arrays. */
  const Slots: int := 200
  /** Draws lie in [0, DrawBound); a cluster gets the draw plus one. */
  const DrawBound: int := 100

  predicate DrawsInRange(draws: seq<int>)
  {
    forall k :: 0 <= k < |draws| ==> 0 <= draws[k] < DrawBound
  }

  /** The draws suffice to bring the running total from `total` to `JobTotal`. */
  predicate Reaches(draws: seq<int>, total: int)
    decreases |draws|
  {
    total >= JobTotal || (draws != [] && (total + draws[0] + 1 >= JobTotal || Reaches(draws[1..], total + draws[0] + 1)))
  }

  /** The cluster sizes produced from running total `total`, one per draw used. */
  function Sizes(draws: seq<int>, total: int): (sizes: seq<int>)
    requires 0 <= total <= JobTotal && DrawsInRange(draws) && Reaches(draws, total)
    ensures forall k :: 0 <= k < |sizes| ==> sizes[k] >= 1
    decreases |draws|
  {
    if total == JobTotal then []
    else
      var val := draws[0] + 1;
      if total + val < JobTotal then [val] + Sizes(draws[1..], total + val) else [JobTotal - total]
  }

  /** The sizes are all in [1, 100] and make up exactly the jobs still to cover. */
  lemma {:induction false} SizesCover(draws: seq<int>, total: int)
    requires 0 <= total <= JobTotal && DrawsInRange(draws) && Reaches(draws, total)
    ensures Sum(Sizes(draws, total)) == JobTotal - total
    ensures forall k :: 0 <= k < |Sizes(draws, total)| ==> 1 <= Sizes(draws, total)[k] <= DrawBound
    ensures |Sizes(draws, total)| <= |draws|
    decreases |draws|
  {
    if total == JobTotal {
    } else {
      var val := draws[0] + 1;
      if total + val < JobTotal {
        var rest := Sizes(draws[1..], total + val);
        SizesCover(draws[1..], total + val);
        SumCons(val, rest);
        assert Sizes(draws, total) == [val] + rest;
      } else {
        SumCons(JobTotal - total, []);
      }
    }
  }

  lemma SizesStep(d: seq<int>, total: int)
    requires 0 <= total < JobTotal && DrawsInRange(d) && Reaches(d, total)
    ensures d != [] && DrawsInRange(d[1..])
    ensures total + d[0] + 1 < JobTotal ==>
      Reaches(d[1..], total + d[0] + 1) && Sizes(d, total) == [d[0] + 1] + Sizes(d[1..], total + d[0] + 1)
    ensures total + d[0] + 1 >= JobTotal ==> Sizes(d, total) == [JobTotal - total]
  {
  }

  /** One turn of the drawing loop keeps the drawn sizes a prefix of `Sizes(draws, 0)`. */
  lemma DrawStep(draws: seq<int>, i: nat, total: int, done: seq<int>) returns (size: int, next: int)
    requires 0 <= total < JobTotal && i <= |draws| && |done| == i
    requires DrawsInRange(draws[i..]) && Reaches(draws[i..], total)
    requires DrawsInRange(draws) && Reaches(draws, 0)
    requires done + Sizes(draws[i..], total) == Sizes(draws, 0)
    requires i + |Sizes(draws[i..], total)| == |Sizes(draws, 0)|
    ensures i < |draws| && i < |Sizes(draws, 0)|
    ensures size == (if total + draws[i] + 1 < JobTotal then draws[i] + 1 else JobTotal - total)
    ensures next == (if total + draws[i] + 1 < JobTotal then total + draws[i] + 1 else JobTotal)
    ensures DrawsInRange(draws[i + 1..]) && Reaches(draws[i + 1..], next)
      && (done + [size]) + Sizes(draws[i + 1..], next) == Sizes(draws, 0)
      && i + 1 + |Sizes(draws[i + 1..], next)| == |Sizes(draws, 0)|
  {
    var d := draws[i..];
    SizesStep(d, total);
    assert d[1..] == draws[i + 1..];
    var val := draws[i] + 1;
    if total + val < JobTotal {
      size, next := val, total + val;
      var rest := Sizes(d[1..], total + val);
      assert done + ([val] + rest) == (done + [val]) + rest;
    } else {
      size, next := JobTotal - total, JobTotal;
      assert Sizes(draws[i + 1..], JobTotal) == [];
    }
  }

  /** Cluster `k` covers the jobs in [range[k], range[k + 1]). */
  predicate Boundaries(sizes: seq<int>, range: seq<int>)
  {
    |range| == |sizes| + 1 && forall k :: 0 <= k <= |sizes| ==> range[k] == Sum(sizes[..k])
  }

  lemma BoundariesSnoc(sizes: seq<int>, sums: seq<int>, i: nat)
    requires i < |sizes| && Boundaries(sizes[..i], sums)
    ensures Boundaries(sizes[..i + 1], sums + [Sum(sizes[..i]) + sizes[i]])
  {
    var t := sizes[..i + 1];
    var ext := sums + [Sum(sizes[..i]) + sizes[i]];
    assert t[..i] == sizes[..i];
    assert Sum(t) == Sum(sizes[..i]) + sizes[i];
    assert t[..i + 1] == t;
    forall k | 0 <= k <= i + 1 ensures ext[k] == Sum(t[..k]) {
      if k <= i {
        assert t[..k] == sizes[..i][..k];
      }
    }
  }

  lemma BoundariesAscend(sizes: seq<int>, range: seq<int>)
    requires Boundaries(sizes, range)
    requires forall k :: 0 <= k < |sizes| ==> sizes[k] >= 1
    ensures range[0] == 0 && range[|sizes|] == Sum(sizes)
    ensures forall k :: 0 <= k < |sizes| ==> range[k] < range[k + 1]
  {
    assert sizes[..|sizes|] == sizes;
    forall k | 0 <= k < |sizes| ensures range[k] < range[k + 1] {
      assert sizes[..k + 1][..k] == sizes[..k];
    }
  }

  /**
   * Draws sizes into `clusterSize` until they add up to 5000 and returns how
   * many clusters were drawn.
   */
  method DrawSizes(draws: seq<int>, clusterSize: array<int>) returns (count: nat)
    requires DrawsInRange(draws) && Reaches(draws, 0)
    requires |Sizes(draws, 0)| < clusterSize.Length
    modifies clusterSize
    ensures count == |Sizes(draws, 0)| && clusterSize[..count] == Sizes(draws, 0)
  {
    var total := 0;
    count := 0;
    ghost var target := Sizes(draws, 0);
    ghost var drawn: seq<int> := [];
    while total != JobTotal
      invariant 0 <= total <= JobTotal && 0 <= count <= |draws| && |drawn| == count
      invariant DrawsInRange(draws[count..]) && Reaches(draws[count..], total)
      invariant count + |Sizes(draws[count..], total)| == |target|
      invariant drawn + Sizes(draws[count..], total) == target
      invariant clusterSize[..count] == drawn
      decreases JobTotal - total
    {
      ghost var size, next := DrawStep(draws, count, total, drawn);
      var val := draws[count] + 1;
      if total + val < JobTotal {
        total := total + val;
        clusterSize[count] := val;
      } else {
        clusterSize[count] := JobTotal - total;
        total := JobTotal;
      }
      assert total == next && clusterSize[count] == size;
      drawn := drawn + [size];
      count := count + 1;
    }
    assert Sizes(draws[count..], JobTotal) == [];
  }

  /** Writes the running sums of the first `count` sizes into `clusterRange`, starting from 0. */
  method FillBoundaries(clusterSize: array<int>, count: nat, clusterRange: array<int>)
    requires count < clusterRange.Length && count <= clusterSize.Length
    requires clusterSize != clusterRange
    modifies clusterRange
    ensures Boundaries(clusterSize[..count], clusterRange[..count + 1])
  {
    ghost var sizes := clusterSize[..count];
    var sum := 0;
    clusterRange[0] := 0;
    ghost var sums := [0];
    var i := 0;
    while i < count
      invariant 0 <= i <= count
      invariant sum == Sum(sizes[..i])
      invariant clusterRange[..i + 1] == sums && Boundaries(sizes[..i], sums)
    {
      assert sizes[..i + 1][..i] == sizes[..i];
      sum := sum + clusterSize[i];
      clusterRange[i + 1] := sum;
      BoundariesSnoc(sizes, sums, i);
      sums := sums + [sum];
      i := i + 1;
    }
    assert sizes[..count] == sizes;
  }

  /**
   * Draws sizes until they add up to 5000, then records the boundaries as
   * running sums. The 200-slot arrays hold at most 199 clusters, since the
   * boundary after the last cluster needs a slot of its own.
   */
  method MakeClusters(draws: seq<int>) returns (sizes: seq<int>, range: seq<int>)
    requires DrawsInRange(draws) && Reaches(draws, 0)
    requires |Sizes(draws, 0)| < Slots
    ensures sizes == Sizes(draws, 0)
    ensures Boundaries(sizes, range)
    ensures Sum(sizes) == JobTotal && forall k :: 0 <= k < |sizes| ==> 1 <= sizes[k] <= DrawBound
    ensures range[0] == 0 && range[|sizes|] == JobTotal
    ensures forall k :: 0 <= k < |sizes| ==> range[k] < range[k + 1]
  {
    var clusterSize := new int[Slots];
    var clusterRange := new int[Slots];
    SizesCover(draws, 0);
    var noOfClusters := DrawSizes(draws, clusterSize);
    FillBoundaries(clusterSize, noOfClusters, clusterRange);
    sizes := clusterSize[..noOfClusters];
    range := clusterRange[..noOfClusters + 1];
    BoundariesAscend(sizes, range);
  }
}
