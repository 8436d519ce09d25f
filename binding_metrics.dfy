/**
 * The two figures every binding heuristic reports: the number of jobs per VM
 * and the communication cost, the number of adjacent jobs (or clusters) that
 * sit on different VMs.
 */
module BindingMetrics {

  function Zeros(m: nat): (z: seq<int>)
    ensures |z| == m && forall v :: 0 <= v < m ==> z[v] == 0
  {
    if m == 0 then [] else Zeros(m - 1) + [0]
  }

  function Sum(s: seq<int>): int
  {
    if s == [] then 0 else Sum(s[..|s| - 1]) + s[|s| - 1]
  }

  lemma {:induction false} SumCons(x: int, s: seq<int>)
    ensures Sum([x] + s) == x + Sum(s)
  {
    if s != [] {
      var n := |s| - 1;
      SumCons(x, s[..n]);
      assert ([x] + s)[..n + 1] == [x] + s[..n];
    }
  }

  predicate InRange(ids: seq<int>, m: nat)
  {
    forall k :: 0 <= k < |ids| ==> 0 <= ids[k] < m
  }

  /** `Load(ids, weights, m)[v]`: the total weight of the entries placed on `v`. */
  function Load(ids: seq<int>, weights: seq<int>, m: nat): (load: seq<int>)
    requires |weights| == |ids| && InRange(ids, m)
    ensures |load| == m
  {
    if ids == [] then Zeros(m)
    else
      var n := |ids| - 1;
      var prev := Load(ids[..n], weights[..n], m);
      prev[ids[n] := prev[ids[n]] + weights[n]]
  }

  function Ones(n: nat): (w: seq<int>)
    ensures |w| == n && forall k :: 0 <= k < n ==> w[k] == 1
  {
    if n == 0 then [] else Ones(n - 1) + [1]
  }

  /** Number of adjacent pairs on different VMs. */
  function Changes(ids: seq<int>): nat
  {
    if |ids| < 2 then 0
    else Changes(ids[..|ids| - 1]) + (if ids[|ids| - 2] != ids[|ids| - 1] then 1 else 0)
  }

  lemma {:induction false} SumZeros(m: nat)
    ensures Sum(Zeros(m)) == 0
  {
    if m > 0 {
      SumZeros(m - 1);
      assert Zeros(m)[..m - 1] == Zeros(m - 1);
    }
  }

  lemma {:induction false} SumUpdate(s: seq<int>, v: nat, w: int)
    requires v < |s|
    ensures Sum(s[v := s[v] + w]) == Sum(s) + w
  {
    var n := |s| - 1;
    if v < n {
      SumUpdate(s[..n], v, w);
      assert s[v := s[v] + w][..n] == s[..n][v := s[v] + w];
    } else {
      assert s[v := s[v] + w][..n] == s[..n];
    }
  }

  /** Every unit of weight lands on exactly one VM: the loads add up to the total weight. */
  lemma {:induction false} LoadSumsToWeight(ids: seq<int>, weights: seq<int>, m: nat)
    requires |weights| == |ids| && InRange(ids, m)
    ensures Sum(Load(ids, weights, m)) == Sum(weights)
  {
    if ids == [] {
      SumZeros(m);
    } else {
      var n := |ids| - 1;
      LoadSumsToWeight(ids[..n], weights[..n], m);
      SumUpdate(Load(ids[..n], weights[..n], m), ids[n], weights[n]);
    }
  }

  lemma {:induction false} SumOnes(n: nat)
    ensures Sum(Ones(n)) == n
  {
    if n > 0 {
      SumOnes(n - 1);
      assert Ones(n)[..n - 1] == Ones(n - 1);
    }
  }

  /** Job counts per VM add up to the number of jobs. */
  lemma JobCountsSumToJobs(ids: seq<int>, m: nat)
    requires InRange(ids, m)
    ensures Sum(Load(ids, Ones(|ids|), m)) == |ids|
  {
    LoadSumsToWeight(ids, Ones(|ids|), m);
    SumOnes(|ids|);
  }

  /** At most every adjacent pair differs, and no pair differs exactly when all VMs agree. */
  lemma {:induction false} ChangesBounds(ids: seq<int>)
    ensures |ids| > 0 ==> Changes(ids) <= |ids| - 1
    ensures Changes(ids) == 0 <==> forall k :: 0 <= k < |ids| ==> ids[k] == ids[0]
  {
    if |ids| >= 2 {
      var n := |ids| - 1;
      ChangesBounds(ids[..n]);
      if Changes(ids) == 0 {
        assert forall k :: 0 <= k < n ==> ids[..n][k] == ids[0];
      }
    }
  }

  /** When the first `m` entries all sit on `v`, `v` carries at least `m` jobs. */
  lemma {:induction false} LoadCountsPrefix(ids: seq<int>, m: nat, vmCount: nat, v: int)
    requires InRange(ids, vmCount) && 0 <= v < vmCount && m <= |ids|
    requires forall k :: 0 <= k < m ==> ids[k] == v
    ensures Load(ids, Ones(|ids|), vmCount)[v] >= m
  {
    if ids != [] {
      var n := |ids| - 1;
      assert Ones(|ids|)[..n] == Ones(n);
      assert InRange(ids[..n], vmCount);
      var prev := Load(ids[..n], Ones(n), vmCount);
      assert Load(ids, Ones(|ids|), vmCount) == prev[ids[n] := prev[ids[n]] + 1];
      LoadCountsPrefix(ids[..n], if m == |ids| then n else m, vmCount, v);
    }
  }

  lemma LoadStep(ids: seq<int>, weights: seq<int>, m: nat, i: nat)
    requires |weights| == |ids| && InRange(ids, m) && i < |ids|
    ensures InRange(ids[..i], m) && InRange(ids[..i + 1], m)
    ensures var prev := Load(ids[..i], weights[..i], m);
      Load(ids[..i + 1], weights[..i + 1], m) == prev[ids[i] := prev[ids[i]] + weights[i]]
  {
    assert ids[..i + 1][..i] == ids[..i];
    assert weights[..i + 1][..i] == weights[..i];
  }

  lemma ChangesStep(ids: seq<int>, i: nat)
    requires i + 1 < |ids|
    ensures Changes(ids[..i + 2]) == Changes(ids[..i + 1]) + (if ids[i] != ids[i + 1] then 1 else 0)
  {
    assert ids[..i + 2][..i + 1] == ids[..i + 1];
  }

  /**
   * One pass over the VM ids of the jobs, counting the jobs on each VM in an
   * array and the adjacent pairs that differ.
   */
  method JobCountAndComCost(ids: seq<int>, vmCount: nat) returns (jobCount: seq<int>, comCost: int)
    requires InRange(ids, vmCount)
    ensures jobCount == Load(ids, Ones(|ids|), vmCount)
    ensures comCost == Changes(ids)
    ensures Sum(jobCount) == |ids|
    ensures |ids| > 0 ==> 0 <= comCost <= |ids| - 1
  {
    var ones := Ones(|ids|);
    var counts := new int[vmCount](_ => 0);
    comCost := 0;
    var i := 0;
    while i < |ids|
      invariant 0 <= i <= |ids|
      invariant counts[..] == Load(ids[..i], ones[..i], vmCount)
      invariant comCost == Changes(ids[..if i < |ids| then i + 1 else i])
    {
      LoadStep(ids, ones, vmCount, i);
      counts[ids[i]] := counts[ids[i]] + 1;
      if i != |ids| - 1 {
        ChangesStep(ids, i);
        if ids[i] != ids[i + 1] {
          comCost := comCost + 1;
        }
      }
      i := i + 1;
    }
    assert ids[..i] == ids && ones[..i] == ones;
    jobCount := counts[..];
    JobCountsSumToJobs(ids, vmCount);
    ChangesBounds(ids);
  }

  /**
   * The cluster form: cluster `i` holds `sizes[i]` jobs and sits on VM
   * `result[i]`; each cluster adds its size to its VM, and the cost counts
   * adjacent clusters on different VMs.
   */
  method ClusterJobCountAndComCost(result: seq<int>, sizes: seq<int>, vmCount: nat) returns (jobCount: seq<int>, comCost: int)
    requires |sizes| == |result| && InRange(result, vmCount)
    ensures jobCount == Load(result, sizes, vmCount)
    ensures comCost == Changes(result)
    ensures Sum(jobCount) == Sum(sizes)
    ensures |result| > 0 ==> 0 <= comCost <= |result| - 1
  {
    var counts := new int[vmCount](_ => 0);
    comCost := 0;
    var i := 0;
    while i < |result|
      invariant 0 <= i <= |result|
      invariant counts[..] == Load(result[..i], sizes[..i], vmCount)
      invariant i < |result| ==> comCost == Changes(result[..i + 1])
      invariant i == |result| ==> comCost == Changes(result)
    {
      LoadStep(result, sizes, vmCount, i);
      ghost var prev := counts[..];
      counts[result[i]] := counts[result[i]] + sizes[i];
      assert counts[..] == prev[result[i] := prev[result[i]] + sizes[i]];
      if i == |result| - 1 {
        assert result[..i + 1] == result;
      } else {
        ChangesStep(result, i);
        if result[i] != result[i + 1] {
          comCost := comCost + 1;
        }
      }
      i := i + 1;
    }
    assert result[..i] == result && sizes[..i] == sizes;
    jobCount := counts[..];
    LoadSumsToWeight(result, sizes, vmCount);
    ChangesBounds(result);
  }
}
