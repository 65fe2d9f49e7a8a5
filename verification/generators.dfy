/**
 * The start-solution generators of the C++ solvers: nearest neighbour,
 * greedy cycle and random selection. They build a `Solution` through the
 * same operations `Solution.cpp` defines (`addNode`, `mostBeneficialNode`,
 * `setNodes`). `rand()` is an oracle: a sequence of draws consumed in order.
 */
module Generators {
  import opened Tours
  import opened Solutions
  import Constructions
  import LocalSearchSolver

  // ---------------------------------------------------------------------------
  // Shared facts

  /** A duplicate-free sequence of nodes below `n` has at most `n` entries. */
  lemma {:induction false} InRangeLength(t: seq<int>, n: nat)
    requires Distinct(t) && InRange(t, n)
    ensures |t| <= n
    decreases |t|
  {
    if |t| > 0 {
      var x := t[|t| - 1];
      var init := t[..|t| - 1];
      var u := seq(|init|, k requires 0 <= k < |init| => if init[k] == n - 1 then x else init[k]);
      forall k | 0 <= k < |u|
        ensures 0 <= u[k] < n - 1
      {
        assert t[k] == init[k] && t[k] != x;
      }
      forall p, q | 0 <= p < q < |u|
        ensures u[p] != u[q]
      {
        assert t[p] == init[p] && t[q] == init[q];
      }
      assert 0 <= x < n;
      InRangeLength(u, n - 1);
    }
  }

  /** When fewer than `n` distinct in-range nodes are listed, some node below `n` is missing. */
  lemma SomeMissing(t: seq<int>, n: int) returns (v: int)
    requires Distinct(t) && |t| < n
    ensures 0 <= v < n && v !in t
  {
    Constructions.AllPresentLength(t, n);
    v :| 0 <= v < n && v !in t;
  }

  /** What the nearest-neighbour rule scores: the distance from the previous node plus the node's cost. */
  function Score(inst: Instance, prev: int, j: int): int
  {
    inst.D(prev, j) + inst.C(j)
  }

  /** With bounded entries a score never reaches the `INT_MAX` sentinel. */
  lemma ScoreBelowMax(inst: Instance, prev: int, j: int)
    requires Constructions.IntSized(inst)
    ensures Score(inst, prev, j) < IntMax
  {
  }

  // ---------------------------------------------------------------------------
  // Nearest neighbour

  /**
   * Position `k` of `t` was chosen by the nearest-neighbour rule from
   * `t[k - 1]`: a node not chosen before, of least score over all such
   * nodes, and of lowest index among the nodes sharing that score.
   */
  ghost predicate NearestStep(inst: Instance, t: seq<int>, k: int)
    requires 1 <= k < |t|
  {
    && t[k] !in t[..k]
    && (forall j :: 0 <= j < inst.Size() && j !in t[..k] ==> Score(inst, t[k - 1], t[k]) <= Score(inst, t[k - 1], j))
    && (forall j :: 0 <= j < t[k] && j !in t[..k] ==> Score(inst, t[k - 1], t[k]) < Score(inst, t[k - 1], j))
  }

  ghost predicate NearestFrom(inst: Instance, t: seq<int>)
  {
    forall k :: 1 <= k < |t| ==> NearestStep(inst, t, k)
  }

  /** Appending a node chosen by the rule from the last node extends a nearest-neighbour sequence. */
  lemma NearestFromExtend(inst: Instance, t: seq<int>, x: int)
    requires |t| >= 1 && NearestFrom(inst, t)
    requires x !in t
    requires forall j :: 0 <= j < inst.Size() && j !in t ==> Score(inst, t[|t| - 1], x) <= Score(inst, t[|t| - 1], j)
    requires forall j :: 0 <= j < x && j !in t ==> Score(inst, t[|t| - 1], x) < Score(inst, t[|t| - 1], j)
    ensures NearestFrom(inst, t + [x])
  {
    var t' := t + [x];
    forall k | 1 <= k < |t'|
      ensures NearestStep(inst, t', k)
    {
      assert t'[..k] == if k < |t| then t[..k] else t;
      if k < |t| {
        assert NearestStep(inst, t, k);
      }
    }
  }

  /**
   * `NearestNeighbor::generate`: start at `startNode`, then repeatedly add
   * the most beneficial node from the last one until the solution holds
   * `nNodes` nodes (at least the start node). Every added node is the
   * lowest-index node of least distance-plus-cost among those not yet
   * chosen, so the nodes are distinct.
   */
  method NearestNeighborGenerate(inst: Instance, startNode: int, nNodes: int) returns (s: Solution)
    requires inst.WellFormed() && Constructions.IntSized(inst)
    requires 0 <= startNode < inst.Size() && nNodes <= inst.Size()
    ensures s.Valid() && |s.nodes| == (if nNodes < 1 then 1 else nNodes) && s.nodes[0] == startNode
    ensures Distinct(s.nodes) && InRange(s.nodes, inst.Size())
    ensures NearestFrom(inst, s.nodes)
  {
    var tmpNode := startNode;
    s := AddNode(Solution([], 0, {}), tmpNode);
    assert s.nodes == [startNode];
    while s.numNodes < nNodes
      invariant s.Valid() && 1 <= |s.nodes| <= (if nNodes < 1 then 1 else nNodes) && s.nodes[0] == startNode
      invariant Distinct(s.nodes) && InRange(s.nodes, inst.Size()) && NearestFrom(inst, s.nodes)
      invariant tmpNode == s.nodes[|s.nodes| - 1]
      decreases nNodes - s.numNodes
    {
      var v := SomeMissing(s.nodes, inst.Size());
      ScoreBelowMax(inst, tmpNode, v);
      assert 0 <= v < |inst.dist[tmpNode]| && v !in s.nodes && inst.dist[tmpNode][v] + inst.costs[v] < IntMax;
      tmpNode := MostBeneficialNode(inst.dist[tmpNode], inst.costs, s.nodes);
      forall j | 0 <= j < inst.Size()
        ensures Score(inst, s.nodes[|s.nodes| - 1], j) == inst.dist[s.nodes[|s.nodes| - 1]][j] + inst.costs[j]
      {
      }
      NearestFromExtend(inst, s.nodes, tmpNode);
      AddNodeValid(s, tmpNode);
      s := AddNode(s, tmpNode);
    }
  }

  // ---------------------------------------------------------------------------
  // Greedy cycle

  /** Nodes `a` and `b` are joined by an edge of the list, in one direction or the other. */
  predicate Linked(edges: seq<(int, int)>, a: int, b: int)
  {
    (a, b) in edges || (b, a) in edges
  }

  /**
   * One pass of the ordering loop's `for`: at each index, an edge with an
   * end at the last ordered node is erased and its other end appended; the
   * index still advances after an erase, so the edge that moved into the
   * erased slot is skipped in this pass.
   */
  function Sweep(edges: seq<(int, int)>, order: seq<int>, i: nat): (r: (seq<(int, int)>, seq<int>))
    requires |order| >= 1 && i <= |edges| + 1
    ensures |r.0| <= |edges| && |r.1| == |order| + |edges| - |r.0|
    decreases |edges| + 1 - i
  {
    if i >= |edges| then (edges, order)
    else if edges[i].0 == order[|order| - 1] then Sweep(edges[..i] + edges[i + 1..], order + [edges[i].1], i + 1)
    else if edges[i].1 == order[|order| - 1] then Sweep(edges[..i] + edges[i + 1..], order + [edges[i].0], i + 1)
    else Sweep(edges, order, i + 1)
  }

  /**
   * A pass keeps the order it started from, appends only nodes joined by an
   * edge to the node before them, and keeps only edges it was given.
   */
  lemma {:induction false} SweepFollowsEdges(edges: seq<(int, int)>, order: seq<int>, i: nat)
    requires |order| >= 1 && i <= |edges| + 1
    ensures var r := Sweep(edges, order, i);
            && r.1[..|order|] == order
            && (forall k :: |order| - 1 <= k < |r.1| - 1 ==> Linked(edges, r.1[k], r.1[k + 1]))
            && (forall e :: e in r.0 ==> e in edges)
    decreases |edges| + 1 - i
  {
    if i < |edges| {
      var last := order[|order| - 1];
      if edges[i].0 == last || edges[i].1 == last {
        var rest := edges[..i] + edges[i + 1..];
        var next := if edges[i].0 == last then edges[i].1 else edges[i].0;
        var order' := order + [next];
        SweepFollowsEdges(rest, order', i + 1);
        var r := Sweep(edges, order, i);
        assert r == Sweep(rest, order', i + 1);
        assert r.1[..|order'|] == order';
        assert edges[i] in edges;
        assert forall e :: e in rest ==> e in edges;
        forall k | |order| - 1 <= k < |r.1| - 1
          ensures Linked(edges, r.1[k], r.1[k + 1])
        {
          if k == |order| - 1 {
            assert r.1[k] == last && r.1[k + 1] == next;
          } else {
            assert Linked(rest, r.1[k], r.1[k + 1]);
          }
        }
      } else {
        SweepFollowsEdges(edges, order, i + 1);
      }
    }
  }

  /**
   * The ordering phase as written: passes over the edge list until at most
   * one edge is left. A pass that erases nothing leaves the state as it was,
   * so the `while` would never end; that outcome is `None`.
   */
  function OrderAsWritten(edges: seq<(int, int)>, order: seq<int>): Option<seq<int>>
    requires |order| >= 1
    decreases |edges|
  {
    if |edges| <= 1 then Some(order)
    else
      var r := Sweep(edges, order, 0);
      if |r.0| == |edges| then None else OrderAsWritten(r.0, r.1)
  }

  /**
   * A finished ordering keeps its start and joins every two consecutive
   * nodes by an edge of the list. It does not establish that the result
   * visits every node once.
   */
  lemma {:induction false} OrderFollowsEdges(edges: seq<(int, int)>, order: seq<int>)
    requires |order| >= 1 && OrderAsWritten(edges, order).Some?
    ensures var r := OrderAsWritten(edges, order).value;
            && |r| >= |order| && r[..|order|] == order
            && forall k :: |order| - 1 <= k < |r| - 1 ==> Linked(edges, r[k], r[k + 1])
    decreases |edges|
  {
    if |edges| > 1 {
      var p := Sweep(edges, order, 0);
      SweepFollowsEdges(edges, order, 0);
      OrderFollowsEdges(p.0, p.1);
      var r := OrderAsWritten(edges, order).value;
      assert r == OrderAsWritten(p.0, p.1).value;
      assert r[..|p.1|] == p.1;
      assert r[..|order|] == p.1[..|order|];
      forall k | |order| - 1 <= k < |r| - 1
        ensures Linked(edges, r[k], r[k + 1])
      {
        if k < |p.1| - 1 {
          assert r[k] == p.1[k] && r[k + 1] == p.1[k + 1];
        } else {
          assert Linked(p.0, r[k], r[k + 1]);
        }
      }
    }
  }

  /**
   * The greedy cycle's second node: the most beneficial node from the start
   * node, with only the start node excluded.
   */
  method SecondNode(inst: Instance, startNode: int) returns (secondNode: int)
    requires inst.WellFormed() && Constructions.IntSized(inst)
    requires 0 <= startNode < inst.Size() && 2 <= inst.Size()
    ensures 0 <= secondNode < inst.Size() && secondNode != startNode
    ensures forall j :: 0 <= j < inst.Size() && j != startNode ==> Score(inst, startNode, secondNode) <= Score(inst, startNode, j)
    ensures forall j :: 0 <= j < secondNode && j != startNode ==> Score(inst, startNode, secondNode) < Score(inst, startNode, j)
  {
    var other := if startNode == 0 then 1 else 0;
    ScoreBelowMax(inst, startNode, other);
    assert other !in [startNode] && inst.dist[startNode][other] + inst.costs[other] < IntMax;
    secondNode := MostBeneficialNode(inst.dist[startNode], inst.costs, [startNode]);
    forall j | 0 <= j < inst.Size()
      ensures Score(inst, startNode, j) == inst.dist[startNode][j] + inst.costs[j]
    {
    }
  }

  /**
   * `GreedyCycle::generate`: the start node and its most beneficial partner
   * form a two-edge cycle; then, while the solution is short of `nNodes`, the
   * first (node, edge) pair of least insertion cost replaces that edge by two
   * edges to the new node. The insertion loop is the one `greedyCycleRepair`
   * runs (without its `break`, which bounded entries and `nNodes` at most the
   * node count make unreachable). Two nodes are always added, so the
   * solution holds `max(2, nNodes)` distinct nodes and one edge per node.
   * The ordering phase then walks the edges from the start node; when it
   * finishes, its list starts at the start node, follows the edges and stays
   * within the solution's nodes.
   */
  method GreedyCycleGenerate(inst: Instance, startNode: int, nNodes: int)
    returns (s: Solution, edges: seq<(int, int)>, order: Option<seq<int>>)
    requires inst.WellFormed() && Constructions.IntSized(inst)
    requires 0 <= startNode < inst.Size() && 2 <= inst.Size() && nNodes <= inst.Size()
    ensures s.Valid() && Distinct(s.nodes) && InRange(s.nodes, inst.Size())
    ensures |s.nodes| == (if nNodes < 2 then 2 else nNodes) && s.nodes[0] == startNode
    ensures 0 <= s.nodes[1] < inst.Size() && s.nodes[1] != startNode
    ensures forall j :: 0 <= j < inst.Size() && j != startNode ==> Score(inst, startNode, s.nodes[1]) <= Score(inst, startNode, j)
    ensures forall j :: 0 <= j < s.nodes[1] && j != startNode ==> Score(inst, startNode, s.nodes[1]) < Score(inst, startNode, j)
    ensures |edges| == |s.nodes| && LocalSearchSolver.EdgesOnTour(edges, s.nodes) && LocalSearchSolver.IsCycle(edges, s.nodes)
    ensures order.Some? ==>
              && |order.value| >= 1 && order.value[0] == startNode
              && (forall k :: 0 <= k < |order.value| ==> order.value[k] in s.nodes)
              && (forall k :: 0 <= k < |order.value| - 1 ==> Linked(edges, order.value[k], order.value[k + 1]))
  {
    var secondNode := SecondNode(inst, startNode);
    var s0 := AddNode(AddNode(Solution([], 0, {}), startNode), secondNode);
    assert s0.nodes == [startNode, secondNode];
    AddNodeValid(Solution([], 0, {}), startNode);
    AddNodeValid(AddNode(Solution([], 0, {}), startNode), secondNode);
    s, edges := LocalSearchSolver.GreedyInsertion(inst, s0, nNodes);
    assert s.nodes[..2] == [startNode, secondNode];
    assert s.nodes[0] == startNode && s.nodes[1] == secondNode;
    if |s.nodes| < nNodes {
      var v := SomeMissing(s.nodes, inst.Size());
      assert edges[0] in edges;
      InsertionBelowMax(inst, edges[0], v);
    }
    InRangeLength(s.nodes, inst.Size());
    order := OrderAsWritten(edges, [startNode]);
    if order.Some? {
      OrderFollowsEdges(edges, [startNode]);
      var r := order.value;
      forall k | 0 <= k < |r|
        ensures r[k] in s.nodes
      {
        if k > 0 {
          assert Linked(edges, r[k - 1], r[k]);
        }
      }
    }
  }

  /** With bounded entries an insertion cost stays below the `INT_MAX` sentinel. */
  lemma InsertionBelowMax(inst: Instance, e: (int, int), k: int)
    requires Constructions.IntSized(inst)
    ensures LocalSearchSolver.InsertionCost(inst, e, k) < IntMax
  {
  }

  // ---------------------------------------------------------------------------
  // Random selection

  /** The draws reduced to node ids, as `rand() % total_nodes`. */
  function Picks(draws: seq<nat>, totalNodes: nat): (r: seq<int>)
    requires totalNodes >= 1
    ensures |r| == |draws| && InRange(r, totalNodes)
    ensures forall k :: 0 <= k < |draws| ==> r[k] == Pick(draws[k], totalNodes)
  {
    seq(|draws|, k requires 0 <= k < |draws| => Pick(draws[k], totalNodes) as int)
  }

  /** The values of `xs` in order of first occurrence. */
  function Dedup(xs: seq<int>): (r: seq<int>)
    ensures Distinct(r) && |r| <= |xs|
    ensures forall v :: v in r <==> v in xs
    decreases |xs|
  {
    if |xs| == 0 then []
    else
      var init := xs[..|xs| - 1];
      assert xs == init + [xs[|xs| - 1]];
      var p := Dedup(init);
      if xs[|xs| - 1] in p then p else p + [xs[|xs| - 1]]
  }

  /** First occurrences in a prefix are the first entries of the first occurrences in the whole. */
  lemma {:induction false} DedupPrefix(xs: seq<int>, i: int)
    requires 0 <= i <= |xs|
    ensures |Dedup(xs[..i])| <= |Dedup(xs)| && Dedup(xs[..i]) == Dedup(xs)[..|Dedup(xs[..i])|]
    decreases |xs|
  {
    if i < |xs| {
      var init := xs[..|xs| - 1];
      assert init[..i] == xs[..i];
      DedupPrefix(init, i);
    } else {
      assert xs[..i] == xs;
    }
  }

  /**
   * `RandomSolution::generate`: draw `rand() % total_nodes` and add each
   * node not drawn before, until `nNodes` nodes are held. The result is the
   * first `nNodes` distinct values the draws produce; `None` when the draws
   * produce fewer, which is where the C++ keeps drawing forever (always so
   * when `nNodes` exceeds the node count).
   */
  method RandomGenerate(totalNodes: nat, nNodes: nat, draws: seq<nat>) returns (r: Option<seq<int>>)
    requires totalNodes >= 1 || nNodes == 0
    ensures nNodes == 0 ==> r == Some([])
    ensures totalNodes >= 1 ==> (r.Some? <==> nNodes <= |Dedup(Picks(draws, totalNodes))|)
    ensures totalNodes >= 1 && r.Some? ==> r.value == Dedup(Picks(draws, totalNodes))[..nNodes]
    ensures r.Some? ==> |r.value| == nNodes && Distinct(r.value) && InRange(r.value, totalNodes) && nNodes <= totalNodes
  {
    var nodes: seq<int> := [];
    var i := 0;
    while |nodes| < nNodes
      invariant 0 <= i <= |draws| && |nodes| <= nNodes
      invariant totalNodes >= 1 ==> nodes == Dedup(Picks(draws, totalNodes)[..i])
      decreases |draws| - i, nNodes - |nodes|
    {
      if i == |draws| {
        assert Picks(draws, totalNodes)[..i] == Picks(draws, totalNodes);
        return None;
      }
      var nodeId := Pick(draws[i], totalNodes);
      assert Picks(draws, totalNodes)[..i + 1][..i] == Picks(draws, totalNodes)[..i];
      if nodeId !in nodes {
        nodes := nodes + [nodeId];
      }
      i := i + 1;
    }
    if totalNodes >= 1 {
      DedupPrefix(Picks(draws, totalNodes), i);
      forall k | 0 <= k < |nodes|
        ensures 0 <= nodes[k] < totalNodes
      {
        assert nodes[k] in Picks(draws, totalNodes)[..i];
      }
      InRangeLength(nodes, totalNodes);
    }
    r := Some(nodes);
  }
}
