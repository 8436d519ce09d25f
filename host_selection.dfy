/**
 * The host-search loops of the PE-ledger placement policies. A host's answer to
 * `vmCreate` / `containerVmCreate` is an input (`accepts[h]`): a refused
 * creation changes nothing on the host, so the answers of one call are fixed.
 */
module HostSelection {

  /** Java's `Integer.MAX_VALUE`, the initial "lowest" VM count of a scan. */
  const IntMax: int := 0x7fff_ffff

  /** Host `a` is tried before host `b`: fewer VMs, ties to the lower index. */
  predicate Before(vmCounts: seq<nat>, a: nat, b: nat)
    requires a < |vmCounts| && b < |vmCounts|
  {
    vmCounts[a] < vmCounts[b] || (vmCounts[a] == vmCounts[b] && a < b)
  }

  /** Number of marked (non-zero) slots of the mark array. */
  function Marked(arr: seq<int>): nat
  {
    if arr == [] then 0 else (if arr[|arr| - 1] != 0 then 1 else 0) + Marked(arr[..|arr| - 1])
  }

  lemma {:induction false} NoneMarked(arr: seq<int>)
    requires forall g :: 0 <= g < |arr| ==> arr[g] == 0
    ensures Marked(arr) == 0
  {
    if arr != [] { NoneMarked(arr[..|arr| - 1]); }
  }

  lemma {:induction false} MarkOne(arr: seq<int>, i: nat)
    requires i < |arr| && arr[i] == 0
    ensures Marked(arr[i := 1]) == Marked(arr) + 1
  {
    var n := |arr|;
    if i < n - 1 {
      MarkOne(arr[..n - 1], i);
      assert arr[i := 1][..n - 1] == arr[..n - 1][i := 1];
    } else {
      assert arr[i := 1][..n - 1] == arr[..n - 1];
    }
  }

  lemma {:induction false} UnmarkedExists(arr: seq<int>)
    requires Marked(arr) < |arr|
    ensures exists g :: 0 <= g < |arr| && arr[g] == 0
  {
    var n := |arr|;
    if arr[n - 1] != 0 {
      UnmarkedExists(arr[..n - 1]);
      var g :| 0 <= g < n - 1 && arr[..n - 1][g] == 0;
      assert arr[g] == 0;
    }
  }

  lemma {:induction false} AllMarked(arr: seq<int>)
    requires Marked(arr) == |arr|
    ensures forall g :: 0 <= g < |arr| ==> arr[g] != 0
  {
    var n := |arr|;
    if n > 0 {
      assert Marked(arr[..n - 1]) <= n - 1 by { MarkedBound(arr[..n - 1]); }
      AllMarked(arr[..n - 1]);
      forall g | 0 <= g < n ensures arr[g] != 0 {
        if g < n - 1 { assert arr[..n - 1][g] == arr[g]; }
      }
    }
  }

  lemma {:induction false} MarkedBound(arr: seq<int>)
    ensures Marked(arr) <= |arr|
  {
    if arr != [] { MarkedBound(arr[..|arr| - 1]); }
  }

  /**
   * The state of the retry loop of `allocateHostForVmRR` after some refused
   * tries: `marks` flags exactly the hosts in `tried`, each of which refused,
   * the hosts were tried in `Before` order, and every host tried comes before
   * every host not yet marked.
   */
  ghost predicate RetryState(vmCounts: seq<nat>, accepts: seq<bool>, marks: seq<int>, tried: seq<nat>)
  {
    |marks| == |vmCounts| == |accepts| && |tried| <= |marks| && Marked(marks) == |tried| &&
    (forall i :: 0 <= i < |tried| ==> tried[i] < |marks| && marks[tried[i]] != 0 && !accepts[tried[i]]) &&
    (forall g :: 0 <= g < |marks| && marks[g] != 0 ==> g in tried) &&
    (forall i, j :: 0 <= i < j < |tried| ==> Before(vmCounts, tried[i], tried[j])) &&
    (forall i, g :: 0 <= i < |tried| && 0 <= g < |marks| && marks[g] == 0 ==> Before(vmCounts, tried[i], g))
  }

  /** The host a scan picks: unmarked, and before every other unmarked host. */
  predicate LowestOf(vmCounts: seq<nat>, marks: seq<int>, index: int)
    requires |marks| == |vmCounts|
  {
    0 <= index < |marks| && marks[index] == 0 &&
    forall g :: 0 <= g < |marks| && marks[g] == 0 && g != index ==> Before(vmCounts, index, g)
  }

  lemma RetryStart(vmCounts: seq<nat>, accepts: seq<bool>, marks: seq<int>)
    requires |marks| == |vmCounts| == |accepts|
    requires forall g :: 0 <= g < |marks| ==> marks[g] == 0
    ensures RetryState(vmCounts, accepts, marks, [])
  {
    NoneMarked(marks);
  }

  /** A refused try marks the picked host and keeps the retry state. */
  lemma RetryRefused(vmCounts: seq<nat>, accepts: seq<bool>, marks: seq<int>, tried: seq<nat>, index: nat)
    requires RetryState(vmCounts, accepts, marks, tried)
    requires LowestOf(vmCounts, marks, index) && !accepts[index]
    ensures RetryState(vmCounts, accepts, marks[index := 1], tried + [index])
  {
    MarkOne(marks, index);
    var marks1, tried1 := marks[index := 1], tried + [index];
    MarkedBound(marks1);
    forall g | 0 <= g < |marks1| && marks1[g] != 0
      ensures g in tried1
    {
      if g != index {
        assert marks[g] != 0;
      }
    }
    forall i | 0 <= i < |tried1|
      ensures tried1[i] < |marks1| && marks1[tried1[i]] != 0 && !accepts[tried1[i]]
    {
      if i < |tried| {
        assert tried1[i] == tried[i];
      }
    }
    forall i, j | 0 <= i < j < |tried1|
      ensures Before(vmCounts, tried1[i], tried1[j])
    {
      if j == |tried| {
        assert tried1[j] == index && tried1[i] == tried[i];
      } else {
        assert tried1[i] == tried[i] && tried1[j] == tried[j];
      }
    }
    forall i, g | 0 <= i < |tried1| && 0 <= g < |marks1| && marks1[g] == 0
      ensures Before(vmCounts, tried1[i], g)
    {
      assert marks[g] == 0 && g != index;
      if i < |tried| {
        assert tried1[i] == tried[i];
      }
    }
  }

  /** While a host is unmarked the scan finds one. */
  lemma RetryFinds(vmCounts: seq<nat>, accepts: seq<bool>, marks: seq<int>, tried: seq<nat>)
    requires RetryState(vmCounts, accepts, marks, tried) && |tried| < |marks|
    ensures exists g :: 0 <= g < |marks| && marks[g] == 0
  {
    UnmarkedExists(marks);
  }

  /** Once every host is marked, every host refused. */
  lemma RetryExhausted(vmCounts: seq<nat>, accepts: seq<bool>, marks: seq<int>, tried: seq<nat>)
    requires RetryState(vmCounts, accepts, marks, tried) && |tried| == |marks|
    ensures forall h :: 0 <= h < |accepts| ==> !accepts[h]
  {
    AllMarked(marks);
    forall g | 0 <= g < |accepts| ensures !accepts[g] {
      assert marks[g] != 0;
      var i :| 0 <= i < |tried| && tried[i] == g;
    }
  }

  /** An accepting host ends the search; it comes before every other accepting host. */
  lemma RetryAccepted(vmCounts: seq<nat>, accepts: seq<bool>, marks: seq<int>, tried: seq<nat>, index: nat)
    requires RetryState(vmCounts, accepts, marks, tried)
    requires LowestOf(vmCounts, marks, index) && accepts[index]
    ensures forall i, j :: 0 <= i < j < |tried + [index]| ==> Before(vmCounts, (tried + [index])[i], (tried + [index])[j])
    ensures forall h :: 0 <= h < |accepts| && accepts[h] && h != index ==> Before(vmCounts, index, h)
  {
    forall h | 0 <= h < |accepts| && accepts[h] && h != index
      ensures Before(vmCounts, index, h)
    {
      if marks[h] != 0 {
        assert false;
      }
    }
  }

  /**
   * The retry loop of `allocateHostForVmRR`: each try scans the hosts not yet
   * marked for the one with the fewest VMs (the first such on a tie), asks it
   * to create the VM, and marks it if it refuses; at most one try per host.
   * `tried` lists the hosts asked, in order; `index` is the accepting host, or
   * -1 when every host refused.
   */
  method PickHostRR(vmCounts: seq<nat>, accepts: seq<bool>) returns (index: int, tried: seq<nat>)
    requires |vmCounts| == |accepts| > 0
    requires forall h :: 0 <= h < |vmCounts| ==> vmCounts[h] < IntMax
    ensures |tried| <= |vmCounts|
    ensures forall i :: 0 <= i < |tried| ==> tried[i] < |vmCounts|
    ensures forall i, j :: 0 <= i < j < |tried| ==> Before(vmCounts, tried[i], tried[j])
    ensures forall i :: 0 <= i < |tried| - 1 ==> !accepts[tried[i]]
    ensures index == -1 <==> forall h :: 0 <= h < |accepts| ==> !accepts[h]
    ensures index != -1 ==> 0 <= index < |accepts| && accepts[index] && tried != [] && tried[|tried| - 1] == index
    ensures index != -1 ==> forall h :: 0 <= h < |accepts| && accepts[h] && h != index ==> Before(vmCounts, index, h)
    ensures index == -1 ==> |tried| == |vmCounts|
  {
    var n := |vmCounts|;
    var arr := new int[n](_ => 0);
    tried := [];
    RetryStart(vmCounts, accepts, arr[..]);
    while |tried| < n
      invariant arr.Length == n && RetryState(vmCounts, accepts, arr[..], tried)
      decreases n - |tried|
    {
      RetryFinds(vmCounts, accepts, arr[..], tried);
      index := LowestUnmarked(vmCounts, arr[..]);
      if accepts[index] {
        RetryAccepted(vmCounts, accepts, arr[..], tried, index);
        tried := tried + [index];
        return;
      }
      RetryRefused(vmCounts, accepts, arr[..], tried, index);
      arr[index] := 1;
      tried := tried + [index];
    }
    RetryExhausted(vmCounts, accepts, arr[..], tried);
    index := -1;
  }

  /**
   * One scan of `allocateHostForVmRR` over the mark array: the unmarked host
   * with the fewest VMs, the first such on a tie.
   */
  method LowestUnmarked(vmCounts: seq<nat>, marks: seq<int>) returns (index: int)
    requires |marks| == |vmCounts|
    requires forall h :: 0 <= h < |vmCounts| ==> vmCounts[h] < IntMax
    requires exists g :: 0 <= g < |marks| && marks[g] == 0
    ensures LowestOf(vmCounts, marks, index)
  {
    var n := |marks|;
    var lowest := IntMax;
    index := -1;
    var h := 0;
    while h < n
      invariant 0 <= h <= n
      invariant index == -1 ==> lowest == IntMax && forall g :: 0 <= g < h ==> marks[g] != 0
      invariant index != -1 ==> 0 <= index < h && marks[index] == 0 && lowest == vmCounts[index]
      invariant index != -1 ==> forall g :: 0 <= g < h && marks[g] == 0 && g != index ==> Before(vmCounts, index, g)
    {
      if lowest > vmCounts[h] && marks[h] == 0 {
        lowest := vmCounts[h];
        index := h;
      }
      h := h + 1;
    }
  }

  /**
   * The first-fit loop: hosts are asked in list order and the first one that
   * creates the VM is taken; -1 when none does.
   */
  method PickFirstFit(accepts: seq<bool>) returns (index: int)
    ensures -1 <= index < |accepts|
    ensures index == -1 <==> forall h :: 0 <= h < |accepts| ==> !accepts[h]
    ensures index != -1 ==> accepts[index] && forall h :: 0 <= h < index ==> !accepts[h]
  {
    index := -1;
    var i := 0;
    while i < |accepts|
      invariant 0 <= i <= |accepts|
      invariant forall h :: 0 <= h < i ==> !accepts[h]
    {
      if accepts[i] {
        index := i;
        return;
      }
      i := i + 1;
    }
  }
}
