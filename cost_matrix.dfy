/**
 * The cost-matrix rule shared by the cluster and min-min / max-min binders.
 * Row `i` (a job or a cluster) is placed on the column (VM) whose current
 * cost is smallest, the lowest column among equals; the chosen column's
 * original cost is then charged to every other row of that column, so later
 * rows see the load already placed on each VM.
 */
module CostMatrix {

  import opened BrokerEntities

  predicate Rectangular(cost: seq<seq<int>>, cols: nat)
  {
    forall i :: 0 <= i < |cost| ==> |cost[i]| == cols
  }

  /** The matrix the binders start from: `rowLength[i] / vms[j].mips` for the first `cols` VMs. */
  function Costs(rowLength: seq<nat>, vms: seq<Vm>, cols: nat): seq<seq<int>>
    requires cols <= |vms| && forall j :: 0 <= j < cols ==> vms[j].mips > 0
  {
    seq(|rowLength|, i requires 0 <= i < |rowLength| =>
      seq(cols, j requires 0 <= j < cols => rowLength[i] / vms[j].mips))
  }

  /**
   * Entry `[i][j]` is `rowLength[i] / mips(vms[j])` truncated, for the first
   * `cols` VMs (the double division and `(int)` cast of the source, for
   * non-negative lengths and whole positive mips).
   */
  method BuildCostMatrix(rowLength: seq<nat>, vms: seq<Vm>, cols: nat) returns (cost: seq<seq<int>>)
    requires cols <= |vms|
    requires forall j :: 0 <= j < cols ==> vms[j].mips > 0
    ensures |cost| == |rowLength| && Rectangular(cost, cols)
    ensures forall i, j :: 0 <= i < |rowLength| && 0 <= j < cols ==> cost[i][j] == rowLength[i] / vms[j].mips
    ensures cost == Costs(rowLength, vms, cols)
  {
    cost := [];
    var i := 0;
    while i < |rowLength|
      invariant 0 <= i <= |rowLength|
      invariant |cost| == i && Rectangular(cost, cols)
      invariant forall r, j :: 0 <= r < i && 0 <= j < cols ==> cost[r][j] == rowLength[r] / vms[j].mips
    {
      var row := [];
      var j := 0;
      while j < cols
        invariant 0 <= j <= cols
        invariant |row| == j && forall c :: 0 <= c < j ==> row[c] == rowLength[i] / vms[c].mips
      {
        row := row + [rowLength[i] / vms[j].mips];
        j := j + 1;
      }
      cost := cost + [row];
      i := i + 1;
    }
    var spec := Costs(rowLength, vms, cols);
    forall r | 0 <= r < |rowLength| ensures cost[r] == spec[r] {
      assert |cost[r]| == |spec[r]|;
    }
  }

  /** The original cost of column `c` summed over the earlier rows placed on `c`. */
  function Penalty(cost: seq<seq<int>>, cols: nat, placed: seq<int>, c: nat): int
    requires Rectangular(cost, cols) && |placed| <= |cost| && c < cols
  {
    if placed == [] then 0
    else
      var n := |placed| - 1;
      Penalty(cost, cols, placed[..n], c) + (if placed[n] == c then cost[n][c] else 0)
  }

  /** The cost row `i` sees for column `c` once rows `0..i-1` are placed as in `placed`. */
  function Score(cost: seq<seq<int>>, cols: nat, placed: seq<int>, i: nat, c: nat): int
    requires Rectangular(cost, cols) && i <= |placed| && i < |cost| && c < cols
  {
    cost[i][c] + Penalty(cost, cols, placed[..i], c)
  }

  /** Row `i`'s column is the lowest-index minimiser of its score. */
  predicate GreedyChoice(cost: seq<seq<int>>, cols: nat, result: seq<int>, i: nat)
    requires Rectangular(cost, cols) && i < |result| <= |cost|
  {
    0 <= result[i] < cols
    && (forall c :: 0 <= c < cols ==> Score(cost, cols, result, i, result[i]) <= Score(cost, cols, result, i, c))
    && (forall c :: 0 <= c < result[i] ==> Score(cost, cols, result, i, result[i]) < Score(cost, cols, result, i, c))
  }

  lemma PenaltyStep(cost: seq<seq<int>>, cols: nat, result: seq<int>, index: int, c: nat)
    requires Rectangular(cost, cols) && |result| < |cost| && c < cols
    ensures Penalty(cost, cols, result + [index], c)
            == Penalty(cost, cols, result, c) + (if index == c then cost[|result|][c] else 0)
  {
    assert (result + [index])[..|result|] == result;
  }

  /**
   * The greedy rule on a working copy of the matrix: each row scans for its
   * smallest current entry, then charges that column's original cost to
   * every other row.
   */
  method GreedyCostAssign(cost: seq<seq<int>>, cols: nat) returns (result: seq<int>)
    requires Rectangular(cost, cols)
    requires |cost| > 0 ==> cols > 0
    ensures |result| == |cost| && forall i :: 0 <= i < |cost| ==> 0 <= result[i] < cols
    ensures forall i :: 0 <= i < |cost| ==> GreedyChoice(cost, cols, result, i)
  {
    var rows := |cost|;
    var m := new int[rows, cols];
    forall k, c | 0 <= k < rows && 0 <= c < cols {
      m[k, c] := cost[k][c];
    }
    result := [];
    var i := 0;
    while i < rows
      invariant 0 <= i <= rows && |result| == i && forall r :: 0 <= r < i ==> 0 <= result[r] < cols
      invariant forall r :: 0 <= r < i ==> GreedyChoice(cost, cols, result, r)
      invariant forall k, c :: i <= k < rows && 0 <= c < cols ==> m[k, c] == cost[k][c] + Penalty(cost, cols, result, c)
    {
      var index := RowMinimum(m, i);
      forall c | 0 <= c < cols
        ensures cost[i][index] + Penalty(cost, cols, result, index) <= cost[i][c] + Penalty(cost, cols, result, c)
        ensures c < index ==> cost[i][index] + Penalty(cost, cols, result, index) < cost[i][c] + Penalty(cost, cols, result, c)
      {
        assert m[i, c] == cost[i][c] + Penalty(cost, cols, result, c);
      }
      ChoiceHolds(cost, cols, result, index);
      ChargeColumn(m, i, index, cost[i][index]);
      forall c | 0 <= c < cols {
        PenaltyStep(cost, cols, result, index, c);
      }
      KeepChoices(cost, cols, result, index);
      result := result + [index];
      i := i + 1;
    }
  }

  /** The first column holding the smallest entry of row `i`. */
  method RowMinimum(m: array2<int>, i: nat) returns (index: nat)
    requires i < m.Length0 && m.Length1 > 0
    ensures index < m.Length1
    ensures forall c :: 0 <= c < m.Length1 ==> m[i, index] <= m[i, c]
    ensures forall c :: 0 <= c < index ==> m[i, index] < m[i, c]
  {
    var value := m[i, 0];
    index := 0;
    var j := 0;
    while j < m.Length1
      invariant 0 <= j <= m.Length1 && index < m.Length1
      invariant value == m[i, index]
      invariant forall c :: 0 <= c < j ==> value <= m[i, c]
      invariant forall c :: 0 <= c < index ==> value < m[i, c]
    {
      if value > m[i, j] {
        value := m[i, j];
        index := j;
      }
      j := j + 1;
    }
  }

  /** Adds `value` to column `index` of every row except row `i`. */
  method ChargeColumn(m: array2<int>, i: nat, index: nat, value: int)
    requires index < m.Length1
    modifies m
    ensures forall k, c :: 0 <= k < m.Length0 && 0 <= c < m.Length1 ==>
      m[k, c] == old(m[k, c]) + (if c == index && k != i then value else 0)
  {
    var k := 0;
    while k < m.Length0
      invariant 0 <= k <= m.Length0
      invariant forall k', c :: 0 <= k' < m.Length0 && 0 <= c < m.Length1 ==>
        m[k', c] == old(m[k', c]) + (if c == index && k' != i && k' < k then value else 0)
    {
      if k != i {
        m[k, index] := m[k, index] + value;
      }
      k := k + 1;
    }
  }

  lemma ChoiceHolds(cost: seq<seq<int>>, cols: nat, result: seq<int>, index: int)
    requires Rectangular(cost, cols) && |result| < |cost| && 0 <= index < cols
    requires forall c :: 0 <= c < cols ==>
      cost[|result|][index] + Penalty(cost, cols, result, index) <= cost[|result|][c] + Penalty(cost, cols, result, c)
    requires forall c :: 0 <= c < index ==>
      cost[|result|][index] + Penalty(cost, cols, result, index) < cost[|result|][c] + Penalty(cost, cols, result, c)
    ensures GreedyChoice(cost, cols, result + [index], |result|)
  {
    assert (result + [index])[..|result|] == result;
  }

  lemma KeepChoices(cost: seq<seq<int>>, cols: nat, result: seq<int>, index: int)
    requires Rectangular(cost, cols) && |result| < |cost|
    requires forall r :: 0 <= r < |result| ==> GreedyChoice(cost, cols, result, r)
    ensures forall r :: 0 <= r < |result| ==> GreedyChoice(cost, cols, result + [index], r)
  {
    var ext := result + [index];
    forall r | 0 <= r < |result| ensures GreedyChoice(cost, cols, ext, r) {
      assert ext[..r] == result[..r] && ext[r] == result[r];
      assert GreedyChoice(cost, cols, result, r);
      forall c | 0 <= c < cols ensures Score(cost, cols, ext, r, c) == Score(cost, cols, result, r, c) {
      }
    }
  }

  /**
   * The greedy choices determine the assignment: two assignments that make
   * the greedy choice at every row are the same assignment.
   */
  lemma {:induction false} GreedyChoiceUnique(cost: seq<seq<int>>, cols: nat, r1: seq<int>, r2: seq<int>, n: nat)
    requires Rectangular(cost, cols) && |r1| == |cost| && |r2| == |cost| && n <= |cost|
    requires forall i :: 0 <= i < |cost| ==> GreedyChoice(cost, cols, r1, i) && GreedyChoice(cost, cols, r2, i)
    ensures r1[..n] == r2[..n]
  {
    if n > 0 {
      var i := n - 1;
      GreedyChoiceUnique(cost, cols, r1, r2, i);
      assert r1[..n][..i] == r1[..i] && r2[..n][..i] == r2[..i];
      assert GreedyChoice(cost, cols, r1, i) && GreedyChoice(cost, cols, r2, i);
      var a, b := r1[i], r2[i];
      assert Score(cost, cols, r1, i, a) == Score(cost, cols, r2, i, a);
      assert Score(cost, cols, r1, i, b) == Score(cost, cols, r2, i, b);
      assert r1[..n] == r1[..i] + [a] && r2[..n] == r2[..i] + [b];
    }
  }
}
