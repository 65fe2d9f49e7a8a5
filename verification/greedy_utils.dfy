/**
 * Helpers shared by the C solvers: the objective evaluated by loops,
 * Fisher-Yates shuffling and the validity check of a solution.
 * `rand()` is an oracle: the caller supplies the successive draws.
 */
module GreedyUtils {
  import opened Tours
  import opened Costs

  /** Prefix-sum step for `LinLen`: one more consecutive edge. */
  lemma LinLenStep(inst: Instance, t: seq<int>, j: int)
    requires IsTour(inst, t) && 0 <= j && j + 1 < |t|
    ensures LinLen(inst, t[..j + 2]) == LinLen(inst, t[..j + 1]) + inst.D(t[j], t[j + 1])
  {
    assert t[..j + 2][..j + 1] == t[..j + 1];
  }

  /** Prefix-sum step for `NodeCosts`: one more node. */
  lemma NodeCostsStep(inst: Instance, t: seq<int>, j: int)
    requires IsTour(inst, t) && 0 <= j < |t|
    ensures NodeCosts(inst, t[..j + 1]) == NodeCosts(inst, t[..j]) + inst.C(t[j])
  {
    assert t[..j + 1][..j] == t[..j];
  }

  /** Path length and node costs of a solution, summed by the loops of the C code. */
  method CalculateCostBreakdown(inst: Instance, solution: seq<int>) returns (pathLength: int, nodeCosts: int)
    requires IsTour(inst, solution) && |solution| > 0
    ensures pathLength == PathLength(inst, solution)
    ensures nodeCosts == NodeCosts(inst, solution)
    ensures pathLength + nodeCosts == TourCost(inst, solution)
  {
    var size := |solution|;
    var length := 0;
    var j := 0;
    while j < size - 1
      invariant 0 <= j <= size - 1
      invariant length == LinLen(inst, solution[..j + 1])
    {
      LinLenStep(inst, solution, j);
      length := length + inst.dist[solution[j]][solution[j + 1]];
      j := j + 1;
    }
    assert solution[..size] == solution;
    length := length + inst.dist[solution[size - 1]][solution[0]];
    var nCosts := 0;
    j := 0;
    while j < size
      invariant 0 <= j <= size
      invariant nCosts == NodeCosts(inst, solution[..j])
    {
      NodeCostsStep(inst, solution, j);
      nCosts := nCosts + inst.costs[solution[j]];
      j := j + 1;
    }
    pathLength, nodeCosts := length, nCosts;
  }

  /** The objective of a solution (closed path length plus node costs). */
  method CalculateCost(inst: Instance, solution: seq<int>) returns (cost: int)
    requires IsTour(inst, solution) && |solution| > 0
    ensures cost == TourCost(inst, solution)
  {
    var size := |solution|;
    cost := 0;
    var j := 0;
    while j < size - 1
      invariant 0 <= j <= size - 1
      invariant cost == LinLen(inst, solution[..j + 1])
    {
      LinLenStep(inst, solution, j);
      cost := cost + inst.dist[solution[j]][solution[j + 1]];
      j := j + 1;
    }
    assert solution[..size] == solution;
    cost := cost + inst.dist[solution[size - 1]][solution[0]];
    ghost var path := cost;
    j := 0;
    while j < size
      invariant 0 <= j <= size
      invariant cost == path + NodeCosts(inst, solution[..j])
    {
      NodeCostsStep(inst, solution, j);
      cost := cost + inst.costs[solution[j]];
      j := j + 1;
    }
  }

  /**
   * Fisher-Yates shuffle: for i = n-1 down to 1, exchange position i with
   * position `draws[...] % (i + 1)`. Draw number k is used at i = n-1-k.
   */
  method ShuffleArray<T>(a: seq<T>, draws: seq<nat>) returns (r: seq<T>)
    requires |a| <= 1 || |draws| >= |a| - 1
    ensures |r| == |a|
    ensures multiset(r) == multiset(a)
    ensures |a| <= 1 ==> r == a
  {
    r := a;
    var n := |a|;
    if n > 1 {
      var i := n - 1;
      while i > 0
        invariant 0 <= i <= n - 1
        invariant |r| == n
        invariant multiset(r) == multiset(a)
      {
        var j := draws[n - 1 - i] % (i + 1);
        r := Swap(r, j, i);
        i := i - 1;
      }
    }
  }

  /**
   * A solution is valid when every entry is a node id below `numNodes` and no
   * node repeats; the C code tracks visited nodes in a flag array.
   */
  method IsValidSolution(solution: seq<int>, numNodes: nat) returns (valid: bool)
    ensures valid <==> InRange(solution, numNodes) && Distinct(solution)
  {
    var visited := seq(numNodes, _ => false);
    var i := 0;
    while i < |solution|
      invariant 0 <= i <= |solution|
      invariant |visited| == numNodes
      invariant InRange(solution[..i], numNodes) && Distinct(solution[..i])
      invariant forall v :: 0 <= v < numNodes ==> (visited[v] <==> v in solution[..i])
    {
      var node := solution[i];
      if node < 0 || node >= numNodes {
        return false;
      }
      if visited[node] {
        var p :| 0 <= p < i && solution[p] == node;
        return false;
      }
      visited := visited[node := true];
      assert solution[..i + 1] == solution[..i] + [node];
      i := i + 1;
    }
    assert solution[..i] == solution;
    valid := true;
  }
}
