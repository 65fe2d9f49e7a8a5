/**
 * The C++ solution object: the ordered node list, a node count kept beside
 * it, and the set of selected nodes; its edit operations, its objective and
 * its incremental move evaluations. Out-of-range indices make the edit
 * operations do nothing, as in the C++ code.
 */
module Solutions {
  import opened Tours
  import opened Costs
  import opened LocalSearch

  datatype Solution = Solution(nodes: seq<int>, numNodes: int, selected: set<int>)
  {
    /** The class invariant the edit operations maintain: the count and the set agree with the list. */
    predicate Valid()
    {
      numNodes == |nodes| && selected == Elements(nodes)
    }
  }

  function Empty(): (s: Solution)
    ensures s.Valid() && |s.nodes| == 0
  {
    Solution([], 0, {})
  }

  /** C `%` (truncating division) on a positive divisor. */
  function CRem(a: int, b: int): (r: int)
    requires b > 0
    ensures a >= 0 ==> r == a % b
    ensures a < 0 ==> r == -((-a) % b)
  {
    if a >= 0 then a % b else -((-a) % b)
  }

  // ---------------------------------------------------------------------
  // Edits
  // ---------------------------------------------------------------------

  function AddNode(s: Solution, node: int): (r: Solution)
  {
    Solution(s.nodes + [node], s.numNodes + 1, s.selected + {node})
  }

  function RemoveNode(s: Solution, index: int): (r: Solution)
  {
    if index < 0 || index >= s.numNodes || index >= |s.nodes| then s
    else Solution(s.nodes[..index] + s.nodes[index + 1..], s.numNodes - 1, s.selected - {s.nodes[index]})
  }

  /** `removeNodes`: `amount` calls of `removeNode` at the same index. */
  function RemoveNodes(s: Solution, index: int, amount: int): Solution
    decreases amount
  {
    if amount <= 0 then s else RemoveNodes(RemoveNode(s, index), index, amount - 1)
  }

  function SetNodes(s: Solution, newNodes: seq<int>): (r: Solution)
  {
    Solution(newNodes, |newNodes|, Elements(newNodes))
  }

  function Contains(s: Solution, node: int): bool
  {
    node in s.selected
  }

  function GetNodeAtIndex(s: Solution, index: int): (r: int)
  {
    if index < 0 || index >= s.numNodes || index >= |s.nodes| then -1 else s.nodes[index]
  }

  function GetNextNodeIndex(s: Solution, index: int): (r: int)
  {
    if s.numNodes <= 0 then -1 else CRem(index + 1, s.numNodes)
  }

  function GetPrevNodeIndex(s: Solution, index: int): (r: int)
  {
    if s.numNodes <= 0 then -1 else CRem(index + s.numNodes - 1, s.numNodes)
  }

  function ExchangeNodeAtIndex(s: Solution, index: int, newNode: int): (r: Solution)
  {
    if index < 0 || index >= s.numNodes || index >= |s.nodes| then s
    else Solution(s.nodes[index := newNode], s.numNodes, s.selected - {s.nodes[index]} + {newNode})
  }

  function ExchangeTwoNodes(s: Solution, index1: int, index2: int): (r: Solution)
  {
    if index1 < 0 || index1 >= s.numNodes || index1 >= |s.nodes| || index2 < 0 || index2 >= s.numNodes || index2 >= |s.nodes| then s
    else s.(nodes := Swap(s.nodes, index1, index2))
  }

  function AreConsecutive(s: Solution, index1: int, index2: int): bool
  {
    GetNextNodeIndex(s, index1) == index2 || GetPrevNodeIndex(s, index1) == index2
  }

  /** 2-opt: order the two edge indices, then reverse the nodes strictly after the first edge up to the second. */
  function ExchangeTwoEdges(s: Solution, edgeIndex1: int, edgeIndex2: int): (r: Solution)
  {
    if edgeIndex1 < 0 || edgeIndex1 >= s.numNodes || edgeIndex1 >= |s.nodes| || edgeIndex2 < 0 || edgeIndex2 >= s.numNodes || edgeIndex2 >= |s.nodes| then s
    else if edgeIndex2 < edgeIndex1 then s.(nodes := ReverseRange(s.nodes, edgeIndex2 + 1, edgeIndex1 + 1))
    else s.(nodes := ReverseRange(s.nodes, edgeIndex1 + 1, edgeIndex2 + 1))
  }

  // ---------------------------------------------------------------------
  // Properties of the edits
  // ---------------------------------------------------------------------

  /** `addNode` keeps the count and the set in step with the list, and appends. */
  lemma AddNodeValid(s: Solution, node: int)
    requires s.Valid()
    ensures var r := AddNode(s, node);
            && r.Valid() && r.nodes == s.nodes + [node]
            && (node !in s.nodes && Distinct(s.nodes) ==> Distinct(r.nodes))
  {
    var r := AddNode(s, node);
    assert forall v :: v in r.nodes <==> v in s.nodes || v == node;
  }

  /**
   * `removeNode` at a valid index erases exactly that entry; on a
   * duplicate-free list the set loses exactly that node. Any other index
   * leaves the solution as it is.
   */
  lemma RemoveNodeValid(s: Solution, index: int)
    requires s.Valid() && Distinct(s.nodes)
    ensures var r := RemoveNode(s, index);
            && r.Valid() && Distinct(r.nodes)
            && (0 <= index < |s.nodes| ==> r.nodes == s.nodes[..index] + s.nodes[index + 1..])
            && (!(0 <= index < |s.nodes|) ==> r == s)
  {
    if 0 <= index < |s.nodes| {
      var r := RemoveNode(s, index);
      var x := s.nodes[index];
      assert s.nodes == s.nodes[..index] + [x] + s.nodes[index + 1..];
      forall v
        ensures v in r.selected <==> v in r.nodes
      {
        if v == x {
          assert forall k :: 0 <= k < |r.nodes| ==> r.nodes[k] == s.nodes[if k < index then k else k + 1];
        }
      }
      forall p, q | 0 <= p < q < |r.nodes|
        ensures r.nodes[p] != r.nodes[q]
      {
        assert r.nodes[p] == s.nodes[if p < index then p else p + 1];
        assert r.nodes[q] == s.nodes[if q < index then q else q + 1];
      }
    }
  }

  /**
   * `removeNodes` on a duplicate-free list erases the `amount` entries from
   * `index` on (fewer when the list ends first); from an index outside the
   * list it erases nothing.
   */
  lemma {:induction false} RemoveNodesValid(s: Solution, index: int, amount: int)
    requires s.Valid() && Distinct(s.nodes)
    ensures var r := RemoveNodes(s, index, amount);
            && r.Valid() && Distinct(r.nodes)
            && (0 <= index <= |s.nodes| ==>
                  r.nodes == s.nodes[..index] + s.nodes[if amount <= 0 then index else Min(index + amount, |s.nodes|)..])
            && (!(0 <= index <= |s.nodes|) ==> r == s)
    decreases amount
  {
    if amount > 0 {
      var s' := RemoveNode(s, index);
      RemoveNodeValid(s, index);
      RemoveNodesValid(s', index, amount - 1);
      if 0 <= index < |s.nodes| {
        var rest := s.nodes[index + 1..];
        assert s'.nodes[..index] == s.nodes[..index];
        assert s'.nodes[index..] == rest;
        if amount - 1 > 0 {
          assert s'.nodes[Min(index + amount - 1, |s'.nodes|)..] == s.nodes[Min(index + amount, |s.nodes|)..];
        }
      } else if index == |s.nodes| {
        assert s.nodes[..index] == s.nodes;
      }
    } else if 0 <= index <= |s.nodes| {
      assert s.nodes == s.nodes[..index] + s.nodes[index..];
    }
  }

  function Min(a: int, b: int): int
  {
    if a < b then a else b
  }

  /** `setNodes` always restores the invariant. */
  lemma SetNodesValid(s: Solution, newNodes: seq<int>)
    ensures SetNodes(s, newNodes).Valid() && SetNodes(s, newNodes).nodes == newNodes
  {
  }

  /** On a valid solution `contains` is list membership. */
  lemma ContainsIsMembership(s: Solution, node: int)
    requires s.Valid()
    ensures Contains(s, node) <==> node in s.nodes
  {
  }

  /** Index helpers: within range they are `nodes[index]`, the cyclic successor and the predecessor. */
  lemma IndexHelpers(s: Solution, index: int)
    requires s.Valid() && 0 <= index < |s.nodes|
    ensures GetNodeAtIndex(s, index) == s.nodes[index]
    ensures GetNextNodeIndex(s, index) == Succ(index, |s.nodes|)
    ensures GetPrevNodeIndex(s, index) == Pred(index, |s.nodes|)
  {
    SuccPredMod(index, |s.nodes|);
  }

  /**
   * `exchangeNodeAtIndex` writes the new node at the index and moves set
   * membership from the old node to the new one; bringing in a node that is
   * not in a duplicate-free list keeps the invariant.
   */
  lemma ExchangeNodeAtIndexValid(s: Solution, index: int, newNode: int)
    requires s.Valid() && Distinct(s.nodes) && newNode !in s.nodes
    ensures var r := ExchangeNodeAtIndex(s, index, newNode);
            && r.Valid() && Distinct(r.nodes)
            && (0 <= index < |s.nodes| ==> r.nodes == s.nodes[index := newNode])
            && (!(0 <= index < |s.nodes|) ==> r == s)
  {
    if 0 <= index < |s.nodes| {
      var r := ExchangeNodeAtIndex(s, index, newNode);
      DistinctReplace(s.nodes, index, newNode);
      forall v
        ensures v in r.selected <==> v in r.nodes
      {
        if v == newNode {
          assert r.nodes[index] == v;
        } else if v == s.nodes[index] {
          forall k | 0 <= k < |r.nodes|
            ensures r.nodes[k] != v
          {
            if k != index {
              assert s.nodes[k] != s.nodes[index];
            }
          }
        } else if v in s.nodes {
          var k :| 0 <= k < |s.nodes| && s.nodes[k] == v;
          assert r.nodes[k] == v;
        } else {
          forall k | 0 <= k < |r.nodes|
            ensures r.nodes[k] != v
          {
            if k != index {
              assert r.nodes[k] == s.nodes[k];
            }
          }
        }
      }
    }
  }

  /** `exchangeTwoNodes` and `exchangeTwoEdges` only rearrange the list: count and set are unchanged. */
  lemma IntraExchangesValid(s: Solution, i: int, j: int)
    requires s.Valid()
    ensures var r := ExchangeTwoNodes(s, i, j);
            && r.Valid() && multiset(r.nodes) == multiset(s.nodes)
            && (Distinct(s.nodes) ==> Distinct(r.nodes))
    ensures var r := ExchangeTwoEdges(s, i, j);
            && r.Valid() && multiset(r.nodes) == multiset(s.nodes)
            && (Distinct(s.nodes) ==> Distinct(r.nodes))
  {
    var r1, r2 := ExchangeTwoNodes(s, i, j), ExchangeTwoEdges(s, i, j);
    SameElements(s.nodes, r1.nodes);
    SameElements(s.nodes, r2.nodes);
    if Distinct(s.nodes) {
      DistinctPermutation(s.nodes, r1.nodes);
      DistinctPermutation(s.nodes, r2.nodes);
    }
  }

  lemma SameElements(a: seq<int>, b: seq<int>)
    requires multiset(a) == multiset(b)
    ensures Elements(a) == Elements(b)
  {
    assert forall v :: v in a <==> v in multiset(a);
    assert forall v :: v in b <==> v in multiset(b);
  }

  /** `exchangeTwoEdges` with the indices in either order reverses positions `min + 1 .. max`. */
  lemma {:induction false} ExchangeTwoEdgesOrder(s: Solution, i: int, j: int)
    requires s.numNodes == |s.nodes| && 0 <= i <= j < |s.nodes|
    ensures ExchangeTwoEdges(s, i, j).nodes == ReverseRange(s.nodes, i + 1, j + 1)
    ensures ExchangeTwoEdges(s, j, i).nodes == ReverseRange(s.nodes, i + 1, j + 1)
  {
  }

  // ---------------------------------------------------------------------
  // Objective
  // ---------------------------------------------------------------------

  /** `evaluate`: 0 for an empty list, otherwise node costs plus consecutive distances plus the closing edge. */
  method Evaluate(s: Solution, inst: Instance) returns (total: int)
    requires IsTour(inst, s.nodes)
    ensures total == TourCost(inst, s.nodes)
  {
    var nodes := s.nodes;
    if |nodes| == 0 {
      return 0;
    }
    total := inst.costs[nodes[0]];
    var i := 1;
    assert nodes[..1] == [nodes[0]];
    assert NodeCosts(inst, nodes[..1]) == NodeCosts(inst, []) + inst.C(nodes[0]);
    while i < |nodes|
      invariant 1 <= i <= |nodes|
      invariant total == LinLen(inst, nodes[..i]) + NodeCosts(inst, nodes[..i])
    {
      assert nodes[..i + 1][..i] == nodes[..i];
      total := total + inst.costs[nodes[i]];
      total := total + inst.dist[nodes[i - 1]][nodes[i]];
      i := i + 1;
    }
    assert nodes[..i] == nodes;
    total := total + inst.dist[nodes[|nodes| - 1]][nodes[0]];
  }

  /**
   * `mostBeneficialNode`: the lowest index, not excluded, that minimises
   * distance plus cost; the scan starts from `INT_MAX` and needs a strictly
   * smaller value, so it reports -1 when every candidate is excluded or
   * reaches `INT_MAX`.
   */
  method MostBeneficialNode(allDistances: seq<int>, allCosts: seq<int>, excludedNodes: seq<int>) returns (minIdx: int)
    requires |allCosts| >= |allDistances|
    ensures -1 <= minIdx < |allDistances|
    ensures minIdx == -1 <==> forall i :: 0 <= i < |allDistances| && i !in excludedNodes ==> allDistances[i] + allCosts[i] >= IntMax
    ensures minIdx >= 0 ==>
              && minIdx !in excludedNodes
              && (forall i :: 0 <= i < |allDistances| && i !in excludedNodes ==>
                    allDistances[minIdx] + allCosts[minIdx] <= allDistances[i] + allCosts[i])
              && (forall i :: 0 <= i < minIdx && i !in excludedNodes ==>
                    allDistances[minIdx] + allCosts[minIdx] < allDistances[i] + allCosts[i])
  {
    minIdx := -1;
    var minTotalCost := IntMax;
    var i := 0;
    while i < |allDistances|
      invariant 0 <= i <= |allDistances| && -1 <= minIdx < i
      invariant minIdx == -1 ==> minTotalCost == IntMax
      invariant minIdx >= 0 ==> minIdx !in excludedNodes && minTotalCost == allDistances[minIdx] + allCosts[minIdx] < IntMax
      invariant forall k :: 0 <= k < i && k !in excludedNodes ==> minTotalCost <= allDistances[k] + allCosts[k]
      invariant minIdx >= 0 ==> forall k :: 0 <= k < minIdx && k !in excludedNodes ==> minTotalCost < allDistances[k] + allCosts[k]
    {
      if i !in excludedNodes {
        var tmpTotalCost := allDistances[i] + allCosts[i];
        if tmpTotalCost < minTotalCost {
          minIdx := i;
          minTotalCost := tmpTotalCost;
        }
      }
      i := i + 1;
    }
  }

  // ---------------------------------------------------------------------
  // Move evaluations
  // ---------------------------------------------------------------------

  /** `calculateDeltaInterRoute`: the replacement formula, node costs first. */
  function CalculateDeltaInterRoute(inst: Instance, s: Solution, exchangeIndex: int, newNode: int): int
    requires s.Valid() && 0 <= exchangeIndex < |s.nodes|
  {
    var n := |s.nodes|;
    var removed := s.nodes[exchangeIndex];
    var prevNode, nextNode := s.nodes[Pred(exchangeIndex, n)], s.nodes[Succ(exchangeIndex, n)];
    inst.C(newNode) - inst.C(removed)
    - inst.D(prevNode, removed) - inst.D(removed, nextNode)
    + inst.D(prevNode, newNode) + inst.D(newNode, nextNode)
  }

  /** On two or more nodes the replacement evaluation is the exact change of `exchangeNodeAtIndex`. */
  lemma CalculateDeltaInterRouteExact(inst: Instance, s: Solution, exchangeIndex: int, newNode: int)
    requires s.Valid() && 0 <= exchangeIndex < |s.nodes| && |s.nodes| >= 2
    ensures CalculateDeltaInterRoute(inst, s, exchangeIndex, newNode)
            == TourCost(inst, ExchangeNodeAtIndex(s, exchangeIndex, newNode).nodes) - TourCost(inst, s.nodes)
  {
    InterRouteExchangeAgrees(inst, s.nodes, exchangeIndex, newNode);
    DeltaInterRouteExchangeExact(inst, s.nodes, exchangeIndex, newNode);
  }

  /**
   * `calculateDeltaIntraRouteNodes` as written: when the second node
   * directly precedes the first it exchanges the two node values, but keeps
   * the neighbours it read for the original order.
   */
  function CalculateDeltaIntraRouteNodesAsWritten(inst: Instance, s: Solution, firstIndex: int, secondIndex: int): int
    requires s.Valid() && 0 <= firstIndex < |s.nodes| && 0 <= secondIndex < |s.nodes|
  {
    var n := |s.nodes|;
    var a, b := s.nodes[firstIndex], s.nodes[secondIndex];
    if a == b then 0
    else
      var firstPrev, firstNext := s.nodes[Pred(firstIndex, n)], s.nodes[Succ(firstIndex, n)];
      var secondPrev, secondNext := s.nodes[Pred(secondIndex, n)], s.nodes[Succ(secondIndex, n)];
      var first := if secondNext == a then b else a;
      var second := if secondNext == a then a else b;
      var near := - inst.D(firstPrev, first) - inst.D(second, secondNext) + inst.D(firstPrev, second) + inst.D(first, secondNext);
      if Succ(firstIndex, n) == secondIndex || Pred(firstIndex, n) == secondIndex then near
      else near - inst.D(first, firstNext) - inst.D(secondPrev, second) + inst.D(second, firstNext) + inst.D(first, secondPrev)
  }

  /**
   * For the first and last positions of a tour of four nodes at unit
   * distance from each other, the formula reports 2 although the exchange
   * leaves the objective unchanged.
   */
  lemma IntraRouteNodesFirstLast()
    ensures var inst := UnitInstance();
            var s := Solution([0, 1, 2, 3], 4, {0, 1, 2, 3});
            && CalculateDeltaIntraRouteNodesAsWritten(inst, s, 0, 3) == 2
            && TourCost(inst, ExchangeTwoNodes(s, 0, 3).nodes) - TourCost(inst, s.nodes) == 0
  {
    UnitSolutionValid();
    FirstLastReported();
    FirstLastActual();
  }

  lemma UnitSolutionValid()
    ensures Solution([0, 1, 2, 3], 4, {0, 1, 2, 3}).Valid()
  {
    assert Elements([0, 1, 2, 3]) == {0, 1, 2, 3};
  }

  lemma FirstLastReported()
    requires Solution([0, 1, 2, 3], 4, {0, 1, 2, 3}).Valid()
    ensures CalculateDeltaIntraRouteNodesAsWritten(UnitInstance(), Solution([0, 1, 2, 3], 4, {0, 1, 2, 3}), 0, 3) == 2
  {
    assert Succ(3, 4) == 0 && Pred(0, 4) == 3;
  }

  lemma FirstLastActual()
    ensures var s := Solution([0, 1, 2, 3], 4, {0, 1, 2, 3});
            TourCost(UnitInstance(), ExchangeTwoNodes(s, 0, 3).nodes) == TourCost(UnitInstance(), s.nodes)
  {
    var s := Solution([0, 1, 2, 3], 4, {0, 1, 2, 3});
    assert ExchangeTwoNodes(s, 0, 3).nodes == Swap(s.nodes, 0, 3);
    ExchangeEnds(UnitInstance(), s.nodes);
  }

  /** Four nodes, unit distance between different nodes, zero node costs. */
  function UnitInstance(): (inst: Instance)
    ensures inst.WellFormed() && inst.Size() == 4
  {
    Instance([[0, 1, 1, 1], [1, 0, 1, 1], [1, 1, 0, 1], [1, 1, 1, 0]], [0, 0, 0, 0])
  }

  /**
   * The evaluation with the wrapped pair handled: when the second position
   * directly precedes the first on the cycle, the two are a neighbouring pair
   * in the order (second, first). A two-node tour does not change.
   */
  function CalculateDeltaIntraRouteNodes(inst: Instance, s: Solution, firstIndex: int, secondIndex: int): int
    requires s.Valid() && 0 <= firstIndex < |s.nodes| && 0 <= secondIndex < |s.nodes|
  {
    var n := |s.nodes|;
    if n == 2 then 0
    else if Succ(secondIndex, n) == firstIndex && firstIndex != secondIndex then
      var a, b := s.nodes[firstIndex], s.nodes[secondIndex];
      var before, after := s.nodes[Pred(secondIndex, n)], s.nodes[Succ(firstIndex, n)];
      - inst.D(before, b) - inst.D(a, after) + inst.D(before, a) + inst.D(b, after)
    else CalculateDeltaIntraRouteNodesAsWritten(inst, s, firstIndex, secondIndex)
  }

  /** The corrected formula differs from the original only for the wrapped pair and for two-node tours. */
  lemma IntraRouteNodesAgrees(inst: Instance, s: Solution, i: int, j: int)
    requires s.Valid() && 0 <= i < |s.nodes| && 0 <= j < |s.nodes|
    requires |s.nodes| != 2 && !(Succ(j, |s.nodes|) == i && i != j)
    ensures CalculateDeltaIntraRouteNodes(inst, s, i, j) == CalculateDeltaIntraRouteNodesAsWritten(inst, s, i, j)
  {
  }

  /**
   * On a symmetric matrix and a duplicate-free tour, the corrected node
   * exchange evaluation is the exact change of `exchangeTwoNodes` for every
   * pair `i < j` the search tries, the first-and-last pair included.
   */
  lemma CalculateDeltaIntraRouteNodesExact(inst: Instance, s: Solution, i: int, j: int)
    requires inst.Symmetric() && s.Valid() && Distinct(s.nodes) && 0 <= i < j < |s.nodes|
    ensures CalculateDeltaIntraRouteNodes(inst, s, i, j)
            == TourCost(inst, ExchangeTwoNodes(s, i, j).nodes) - TourCost(inst, s.nodes)
  {
    var t, n := s.nodes, |s.nodes|;
    assert ExchangeTwoNodes(s, i, j).nodes == Swap(t, i, j);
    DeltaTwoNodesExchangeExact(inst, t, i, j);
    if n == 2 {
    } else if i == 0 && j == n - 1 {
      NodesEndsFormula(inst, s);
    } else {
      NodesInnerFormula(inst, s, i, j);
    }
  }

  /** For the first and last positions the corrected formula is the C evaluation of that pair. */
  lemma NodesEndsFormula(inst: Instance, s: Solution)
    requires inst.Symmetric() && s.Valid() && |s.nodes| >= 3
    ensures CalculateDeltaIntraRouteNodes(inst, s, 0, |s.nodes| - 1) == DeltaTwoNodesExchange(inst, s.nodes, 0, |s.nodes| - 1)
  {
    var t, n := s.nodes, |s.nodes|;
    assert inst.D(t[n - 1], t[0]) == inst.D(t[0], t[n - 1]);
  }

  /** Away from the wrapped pair the C++ formula is the C one, up to the direction of two edges. */
  lemma NodesInnerFormula(inst: Instance, s: Solution, i: int, j: int)
    requires inst.Symmetric() && s.Valid() && Distinct(s.nodes) && 0 <= i < j < |s.nodes|
    requires |s.nodes| >= 3 && !(i == 0 && j == |s.nodes| - 1)
    ensures CalculateDeltaIntraRouteNodes(inst, s, i, j) == DeltaTwoNodesExchange(inst, s.nodes, i, j)
  {
    var t, n := s.nodes, |s.nodes|;
    assert Succ(j, n) != i;
    assert t[Succ(j, n)] != t[i];
    var a, b := t[i], t[j];
    assert inst.D(a, b) == inst.D(b, a);
    assert inst.D(t[Pred(j, n)], a) == inst.D(a, t[Pred(j, n)]);
  }

  /**
   * `calculateDeltaInterRouteNodesCandidates`: replace the neighbour of
   * `firstIndex` on the given side by `candidateNode`; also reports the
   * index of the replaced neighbour.
   */
  datatype Direction = Previous | Next

  /** The C++ code compares the direction string with "previous"; anything else means next. */
  function DirectionOf(direction: string): Direction
  {
    if direction == "previous" then Previous else Next
  }

  function CalculateDeltaInterRouteNodesCandidates(inst: Instance, s: Solution, firstIndex: int, candidateNode: int, dir: Direction)
    : (r: (int, int))
    requires s.Valid() && 0 <= firstIndex < |s.nodes|
    ensures 0 <= r.1 < |s.nodes|
  {
    var n := |s.nodes|;
    var near := if dir == Previous then Pred(firstIndex, n) else Succ(firstIndex, n);
    var far := if dir == Previous then Pred(near, n) else Succ(near, n);
    var firstNode, nearNode, farNode := s.nodes[firstIndex], s.nodes[near], s.nodes[far];
    var delta := inst.C(candidateNode) - inst.C(nearNode)
                 - inst.D(firstNode, nearNode) - inst.D(nearNode, farNode)
                 + inst.D(firstNode, candidateNode) + inst.D(candidateNode, farNode);
    (delta, near)
  }

  /**
   * The candidate replacement evaluation is the exact change of writing the
   * candidate at the reported index, on three or more nodes (the previous
   * side reads the two edges backwards, so it needs a symmetric matrix).
   */
  lemma CalculateDeltaInterRouteNodesCandidatesExact(inst: Instance, s: Solution, firstIndex: int, candidateNode: int, dir: Direction)
    requires s.Valid() && 0 <= firstIndex < |s.nodes| && |s.nodes| >= 3
    requires dir == Previous ==> inst.Symmetric()
    ensures var r := CalculateDeltaInterRouteNodesCandidates(inst, s, firstIndex, candidateNode, dir);
            r.0 == TourCost(inst, s.nodes[r.1 := candidateNode]) - TourCost(inst, s.nodes)
  {
    var t, n := s.nodes, |s.nodes|;
    var removed := CalculateDeltaInterRouteNodesCandidates(inst, s, firstIndex, candidateNode, dir).1;
    SuccPredMod(firstIndex, n);
    SuccPredMod(removed, n);
    DeltaInterRouteExchangeExact(inst, t, removed, candidateNode);
    if dir == Previous {
      var far := Pred(removed, n);
      assert inst.D(t[firstIndex], t[removed]) == inst.D(t[removed], t[firstIndex]);
      assert inst.D(t[removed], t[far]) == inst.D(t[far], t[removed]);
      assert inst.D(t[firstIndex], candidateNode) == inst.D(candidateNode, t[firstIndex]);
      assert inst.D(candidateNode, t[far]) == inst.D(t[far], candidateNode);
    }
  }

  /** `calculateDeltaIntraRouteEdges`: the 2-opt formula with no guard on the two indices. */
  function CalculateDeltaIntraRouteEdges(inst: Instance, s: Solution, e1: int, e2: int): int
    requires s.Valid() && 0 <= e1 < |s.nodes| && 0 <= e2 < |s.nodes|
  {
    var n := |s.nodes|;
    var a, a' := s.nodes[e1], s.nodes[Succ(e1, n)];
    var b, b' := s.nodes[e2], s.nodes[Succ(e2, n)];
    - inst.D(a, a') - inst.D(b, b') + inst.D(a, b) + inst.D(a', b')
  }

  /**
   * On a symmetric matrix the 2-opt evaluation is the exact change of
   * `exchangeTwoEdges` for any two different edge indices, in either order.
   */
  lemma CalculateDeltaIntraRouteEdgesExact(inst: Instance, s: Solution, e1: int, e2: int)
    requires inst.Symmetric() && s.Valid() && 0 <= e1 < |s.nodes| && 0 <= e2 < |s.nodes| && e1 != e2
    ensures CalculateDeltaIntraRouteEdges(inst, s, e1, e2)
            == TourCost(inst, ExchangeTwoEdges(s, e1, e2).nodes) - TourCost(inst, s.nodes)
  {
    var t, n := s.nodes, |s.nodes|;
    var lo, hi := if e1 < e2 then e1 else e2, if e1 < e2 then e2 else e1;
    ExchangeTwoEdgesOrder(s, lo, hi);
    DeltaTwoEdgesExchangeExact(inst, t, lo, hi);
    EdgesFormula(inst, s, lo, hi);
    var a, a' := t[e1], t[Succ(e1, n)];
    var b, b' := t[e2], t[Succ(e2, n)];
    assert inst.D(a, b) == inst.D(b, a) && inst.D(a', b') == inst.D(b', a');
  }

  /** The unguarded formula equals the guarded C one, which is 0 on neighbouring edges. */
  lemma EdgesFormula(inst: Instance, s: Solution, i: int, j: int)
    requires inst.Symmetric() && s.Valid() && 0 <= i < j < |s.nodes|
    ensures CalculateDeltaIntraRouteEdges(inst, s, i, j) == DeltaTwoEdgesExchange(inst, s.nodes, i, j)
  {
    var t, n := s.nodes, |s.nodes|;
    var a, a' := t[i], t[Succ(i, n)];
    var b, b' := t[j], t[Succ(j, n)];
    assert inst.D(a, b) == inst.D(b, a) && inst.D(a', a) == inst.D(a, a');
  }
}
