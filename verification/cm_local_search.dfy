/**
 * The C candidate-move local search: each node keeps a list of the
 * `candidateListSize` nodes that are cheapest to reach from it (distance
 * plus the target's cost), and a move is evaluated only when it puts at
 * least one candidate edge into the tour; every other move evaluates to 0
 * and is never chosen. The search is steepest over 2-opt moves and over
 * exchanges of a tour node for an outside node drawn from that node's
 * candidate list, and keeps a flag array of the nodes in the tour.
 */
module CandidateLocalSearch {
  import opened Tours
  import opened Costs
  import opened LocalSearch
  import opened LocalSearchRun
  import opened Records
  import opened Ranking

  // ---------------------------------------------------------------------
  // Candidate lists
  // ---------------------------------------------------------------------

  /** The sort key of node `j` in node `i`'s list; the node itself gets `INT_MAX` so it sorts last. */
  function NodeValue(inst: Instance, i: int, j: int): int
  {
    if j == i then IntMax else inst.D(i, j) + inst.C(j)
  }

  function ValueKey(inst: Instance, i: int): int -> int
  {
    j => NodeValue(inst, i, j)
  }

  /** Node `i`'s list: all node ids sorted by value, cut to the list size. */
  function CandidateRow(inst: Instance, numNodes: nat, size: nat, i: int): (row: seq<int>)
    requires size <= numNodes
    ensures |row| == size
  {
    SortByKey(AllNodes(numNodes), ValueKey(inst, i))[..size]
  }

  /** `compute_candidate_edges`: one list per node. */
  function ComputeCandidateEdges(inst: Instance, numNodes: nat, size: nat): (cands: seq<seq<int>>)
    requires size <= numNodes
    ensures |cands| == numNodes
    ensures forall i :: 0 <= i < numNodes ==> cands[i] == CandidateRow(inst, numNodes, size, i)
  {
    seq(numNodes, i requires 0 <= i < numNodes => CandidateRow(inst, numNodes, size, i))
  }

  /**
   * Each list holds `size` different node ids, in non-decreasing order of
   * value, and they are the cheapest ones: no node left out of the list has
   * a smaller value than a node in it.
   */
  lemma CandidateRowSpec(inst: Instance, numNodes: nat, size: nat, i: int)
    requires size <= numNodes
    ensures var row := CandidateRow(inst, numNodes, size, i);
            && |row| == size && InRange(row, numNodes) && Distinct(row)
            && SortedBy(row, ValueKey(inst, i))
            && forall a, b :: a in row && 0 <= b < numNodes && b !in row ==> NodeValue(inst, i, a) <= NodeValue(inst, i, b)
  {
    var sorted := SortByKey(AllNodes(numNodes), ValueKey(inst, i));
    SortedNodes(inst, numNodes, i);
    CutIsCheapest(sorted, ValueKey(inst, i), size);
    var row := CandidateRow(inst, numNodes, size, i);
    assert row == sorted[..size];
    forall a, b | a in row && 0 <= b < numNodes && b !in row
      ensures NodeValue(inst, i, a) <= NodeValue(inst, i, b)
    {
      assert b in sorted;
      assert ValueKey(inst, i)(a) <= ValueKey(inst, i)(b);
    }
  }

  /** All node ids sorted by node `i`'s values: a sorted rearrangement of the ids. */
  lemma SortedNodes(inst: Instance, numNodes: nat, i: int)
    ensures var sorted := SortByKey(AllNodes(numNodes), ValueKey(inst, i));
            && |sorted| == numNodes && InRange(sorted, numNodes) && Distinct(sorted)
            && SortedBy(sorted, ValueKey(inst, i))
            && forall b :: 0 <= b < numNodes ==> b in sorted
  {
    var all := AllNodes(numNodes);
    var sorted := SortByKey(all, ValueKey(inst, i));
    SortByKeySorted(all, ValueKey(inst, i));
    DistinctPermutation(all, sorted);
    InRangePermutation(all, sorted, numNodes);
    forall b | 0 <= b < numNodes
      ensures b in sorted
    {
      assert b in all;
      assert b in multiset(sorted);
    }
  }

  /** The first `size` entries of a sorted list: sorted, and no later entry has a smaller key. */
  lemma CutIsCheapest(sorted: seq<int>, key: int -> int, size: nat)
    requires SortedBy(sorted, key) && size <= |sorted|
    ensures SortedBy(sorted[..size], key)
    ensures forall a, b :: a in sorted[..size] && b in sorted && b !in sorted[..size] ==> key(a) <= key(b)
  {
    var row := sorted[..size];
    forall a, b | a in row && b in sorted && b !in row
      ensures key(a) <= key(b)
    {
      var q :| 0 <= q < |sorted| && sorted[q] == b;
      assert q >= size by {
        assert forall k :: 0 <= k < size ==> row[k] == sorted[k];
      }
      assert sorted[size..][q - size] == b;
      PrefixSmallest(sorted, key, size, a, b);
    }
  }

  /**
   * A list shorter than the instance leaves the node itself out, as long as
   * every other node's value is below `INT_MAX`: the first node after the
   * cut is some other node, and the node itself, valued `INT_MAX`, cannot
   * come before it.
   */
  lemma CandidateRowExcludesSelf(inst: Instance, numNodes: nat, size: nat, i: int)
    requires size < numNodes && 0 <= i < numNodes
    requires forall j :: 0 <= j < numNodes && j != i ==> inst.D(i, j) + inst.C(j) < IntMax
    ensures i !in CandidateRow(inst, numNodes, size, i)
  {
    var all := AllNodes(numNodes);
    var sorted := SortByKey(all, ValueKey(inst, i));
    SortByKeySorted(all, ValueKey(inst, i));
    DistinctPermutation(all, sorted);
    InRangePermutation(all, sorted, numNodes);
    var row := sorted[..size];
    var b := sorted[size];
    assert b in sorted[size..];
    assert b !in row by {
      forall k | 0 <= k < size
        ensures row[k] != b
      {
        assert row[k] == sorted[k];
      }
    }
    assert b != i ==> NodeValue(inst, i, b) < IntMax;
    forall a | a in row
      ensures NodeValue(inst, i, a) <= NodeValue(inst, i, b)
    {
      PrefixSmallest(sorted, ValueKey(inst, i), size, a, b);
    }
  }

  /** An edge is a candidate edge when either end has the other in its list. */
  predicate CandidateEdge(cands: seq<seq<int>>, u: int, v: int)
  {
    (0 <= u < |cands| && v in cands[u]) || (0 <= v < |cands| && u in cands[v])
  }

  /** `is_candidate_edge`: scan `u`'s list for `v`, then `v`'s list for `u`; the answer is symmetric in the two ends. */
  method IsCandidateEdge(u: int, v: int, cands: seq<seq<int>>) returns (found: bool)
    requires 0 <= u < |cands| && 0 <= v < |cands|
    ensures found <==> CandidateEdge(cands, u, v)
    ensures found <==> CandidateEdge(cands, v, u)
  {
    var k := 0;
    while k < |cands[u]|
      invariant 0 <= k <= |cands[u]|
      invariant v !in cands[u][..k]
    {
      if cands[u][k] == v {
        return true;
      }
      assert cands[u][..k + 1] == cands[u][..k] + [cands[u][k]];
      k := k + 1;
    }
    assert cands[u][..k] == cands[u];
    k := 0;
    while k < |cands[v]|
      invariant 0 <= k <= |cands[v]|
      invariant u !in cands[v][..k]
    {
      if cands[v][k] == u {
        return true;
      }
      assert cands[v][..k + 1] == cands[v][..k] + [cands[v][k]];
      k := k + 1;
    }
    assert cands[v][..k] == cands[v];
    return false;
  }

  // ---------------------------------------------------------------------
  // Candidate-filtered evaluations
  // ---------------------------------------------------------------------

  /** The 2-opt move at edges `i`, `j` adds an edge between the two first ends or the two second ends. */
  predicate EdgesIntroduceCandidate(cands: seq<seq<int>>, t: seq<int>, i: int, j: int)
    requires 0 <= i < |t| && 0 <= j < |t|
  {
    var n := |t|;
    CandidateEdge(cands, t[i], t[j]) || CandidateEdge(cands, t[Succ(i, n)], t[Succ(j, n)])
  }

  /**
   * `delta_two_edges_exchange_candidate`: 0 for the same or adjacent edges
   * and for a move that adds no candidate edge; otherwise the plain 2-opt
   * evaluation.
   */
  function DeltaTwoEdgesExchangeCandidate(inst: Instance, cands: seq<seq<int>>, t: seq<int>, i: int, j: int): (r: int)
    requires 0 <= i < |t| && 0 <= j < |t|
    ensures r == (if EdgesIntroduceCandidate(cands, t, i, j) then DeltaTwoEdgesExchange(inst, t, i, j) else 0)
  {
    var size := |t|;
    var a, a' := t[i], t[Succ(i, size)];
    var b, b' := t[j], t[Succ(j, size)];
    if i == j then 0
    else if Succ(i, size) == j || Succ(j, size) == i then 0
    else if !(CandidateEdge(cands, a, b) || CandidateEdge(cands, a', b')) then 0
    else - inst.D(a, a') - inst.D(b, b') + inst.D(a, b) + inst.D(a', b')
  }

  /** Replacing the node at position `i` by `v` adds a candidate edge on one side. */
  predicate ExchangeIntroducesCandidate(cands: seq<seq<int>>, t: seq<int>, i: int, v: int)
    requires 0 <= i < |t|
  {
    var n := |t|;
    CandidateEdge(cands, t[Pred(i, n)], v) || CandidateEdge(cands, v, t[Succ(i, n)])
  }

  /**
   * `delta_inter_route_exchange_candidate`: 0 when neither new edge is a
   * candidate edge, otherwise the plain replacement evaluation (as written,
   * so a one-node tour is overcharged as in `delta_inter_route_exchange`).
   */
  function DeltaInterRouteExchangeCandidate(inst: Instance, cands: seq<seq<int>>, t: seq<int>, i: int, v: int): (r: int)
    requires 0 <= i < |t|
    ensures r == (if ExchangeIntroducesCandidate(cands, t, i, v) then DeltaInterRouteExchangeAsWritten(inst, t, i, v) else 0)
  {
    var size := |t|;
    var node := t[i];
    var prevI := if i == 0 then size - 1 else i - 1;
    var nextI := Succ(i, size);
    if !(CandidateEdge(cands, t[prevI], v) || CandidateEdge(cands, v, t[nextI])) then 0
    else
      - inst.D(t[prevI], node) - inst.D(node, t[nextI]) + inst.D(t[prevI], v) + inst.D(v, t[nextI])
      - inst.C(node) + inst.C(v)
  }

  // ---------------------------------------------------------------------
  // The flag array of tour nodes
  // ---------------------------------------------------------------------

  /** `in_solution[v]` is set exactly for the tour's nodes. */
  predicate FlagsValid(flags: seq<bool>, t: seq<int>, numNodes: int)
  {
    |flags| == numNodes && forall v :: 0 <= v < numNodes ==> (flags[v] <==> v in t)
  }

  /** The flags set up from the starting tour (a zeroed array, then one store per position). */
  method InitFlags(t: seq<int>, numNodes: nat) returns (flags: seq<bool>)
    requires InRange(t, numNodes)
    ensures FlagsValid(flags, t, numNodes)
  {
    flags := seq(numNodes, _ => false);
    var i := 0;
    while i < |t|
      invariant 0 <= i <= |t| && |flags| == numNodes
      invariant forall v :: 0 <= v < numNodes ==> (flags[v] <==> v in t[..i])
    {
      assert t[..i + 1] == t[..i] + [t[i]];
      flags := flags[t[i] := true];
      i := i + 1;
    }
    assert t[..i] == t;
  }

  /**
   * The inter move's bookkeeping: clear the old node's flag, store the new
   * node, set its flag. On a duplicate-free tour and an outside node this
   * keeps the flags exact.
   */
  lemma FlagsAfterExchange(flags: seq<bool>, t: seq<int>, numNodes: int, i: int, v: int)
    requires FlagsValid(flags, t, numNodes) && InRange(t, numNodes) && Distinct(t)
    requires 0 <= i < |t| && 0 <= v < numNodes && v !in t
    ensures FlagsValid(flags[t[i] := false][v := true], t[i := v], numNodes)
  {
    var t' := t[i := v];
    forall w | 0 <= w < numNodes
      ensures (flags[t[i] := false][v := true][w] <==> w in t')
    {
      if w != v && w != t[i] {
        if w in t {
          var p :| 0 <= p < |t| && t[p] == w;
          assert t'[p] == w;
        }
        if w in t' {
          var p :| 0 <= p < |t'| && t'[p] == w;
          assert t[p] == w;
        }
      } else if w == t[i] {
        forall p | 0 <= p < |t'|
          ensures t'[p] != w
        {
          if p != i {
            assert t[p] != t[i];
          }
        }
      } else {
        assert t'[i] == v;
      }
    }
  }

  /** A rearrangement of the tour keeps the flags exact. */
  lemma FlagsAfterPermutation(flags: seq<bool>, t: seq<int>, t': seq<int>, numNodes: int)
    requires FlagsValid(flags, t, numNodes) && multiset(t') == multiset(t)
    ensures FlagsValid(flags, t', numNodes)
  {
    forall v | 0 <= v < numNodes
      ensures v in t' <==> v in t
    {
      assert v in t' <==> v in multiset(t');
      assert v in t <==> v in multiset(t);
    }
  }

  // ---------------------------------------------------------------------
  // The candidate neighbourhood
  // ---------------------------------------------------------------------

  /** The entries of a candidate list whose flag is clear (the nodes outside the tour). */
  function Unflagged(row: seq<int>, flags: seq<bool>): seq<int>
    decreases |row|
  {
    if |row| == 0 then []
    else (if 0 <= row[0] < |flags| && flags[row[0]] then [] else [row[0]]) + Unflagged(row[1..], flags)
  }

  lemma {:induction false} UnflaggedMembers(row: seq<int>, flags: seq<bool>, t: seq<int>, numNodes: int)
    requires FlagsValid(flags, t, numNodes) && InRange(row, numNodes)
    ensures forall v :: v in Unflagged(row, flags) <==> v in row && v !in t
    decreases |row|
  {
    if |row| > 0 {
      UnflaggedMembers(row[1..], flags, t, numNodes);
      assert row == [row[0]] + row[1..];
    }
  }

  /** Position `i` exchanged with every outside node of its node's candidate list, in list order. */
  function CandidateInterRow(t: seq<int>, cands: seq<seq<int>>, flags: seq<bool>, i: int): seq<Move>
    requires 0 <= i < |t| && InRange(t, |cands|)
  {
    var out := Unflagged(cands[t[i]], flags);
    seq(|out|, k requires 0 <= k < |out| => Move(i, out[k], InterRoute))
  }

  function CandidateInterRows(t: seq<int>, cands: seq<seq<int>>, flags: seq<bool>, i: nat): seq<Move>
    requires InRange(t, |cands|)
    decreases |t| - i
  {
    if i >= |t| then [] else CandidateInterRow(t, cands, flags, i) + CandidateInterRows(t, cands, flags, i + 1)
  }

  /**
   * The moves one round lists, in the C order: the 2-opt pairs (the same
   * enumeration as the plain local search), then the candidate exchanges.
   */
  function CandidateNeighbourhood(t: seq<int>, cands: seq<seq<int>>, flags: seq<bool>): seq<Move>
    requires InRange(t, |cands|)
  {
    IntraRows(|t|, TwoEdges, 0) + CandidateInterRows(t, cands, flags, 0)
  }

  /** The rows of the candidate lists hold node ids of the instance. */
  ghost predicate ListsInRange(cands: seq<seq<int>>, numNodes: int)
  {
    |cands| == numNodes && forall u :: 0 <= u < numNodes ==> InRange(cands[u], numNodes)
  }

  /** A candidate exchange: a tour position and an outside node from that position's node's list. */
  ghost predicate IsCandidateExchange(t: seq<int>, cands: seq<seq<int>>, m: Move)
    requires InRange(t, |cands|)
  {
    m.kind == InterRoute && 0 <= m.i < |t| && m.j in cands[t[m.i]] && m.j !in t
  }

  lemma {:induction false} CandidateInterRowsMembers(t: seq<int>, cands: seq<seq<int>>, flags: seq<bool>, numNodes: int, i: nat)
    requires ListsInRange(cands, numNodes) && InRange(t, numNodes) && FlagsValid(flags, t, numNodes)
    ensures forall m :: m in CandidateInterRows(t, cands, flags, i) <==> IsCandidateExchange(t, cands, m) && m.i >= i
    decreases |t| - i
  {
    if i < |t| {
      var out := Unflagged(cands[t[i]], flags);
      var row := CandidateInterRow(t, cands, flags, i);
      UnflaggedMembers(cands[t[i]], flags, t, numNodes);
      forall m: Move | IsCandidateExchange(t, cands, m) && m.i == i
        ensures m in row
      {
        var k :| 0 <= k < |out| && out[k] == m.j;
        assert row[k] == m;
      }
      CandidateInterRowsMembers(t, cands, flags, numNodes, i + 1);
    }
  }

  /**
   * The listed moves are exactly the 2-opt moves of the tour and the
   * exchanges of a tour node for an outside node of its candidate list.
   */
  lemma CandidateNeighbourhoodMembers(t: seq<int>, cands: seq<seq<int>>, flags: seq<bool>, numNodes: int)
    requires ListsInRange(cands, numNodes) && InRange(t, numNodes) && FlagsValid(flags, t, numNodes)
    ensures forall m :: m in CandidateNeighbourhood(t, cands, flags)
                        <==> IsIntraMove(|t|, TwoEdges, m) || IsCandidateExchange(t, cands, m)
  {
    IntraRowsMembers(|t|, TwoEdges, 0);
    CandidateInterRowsMembers(t, cands, flags, numNodes, 0);
  }

  /** The evaluation a listed move gets. */
  function CandidateMoveDelta(inst: Instance, cands: seq<seq<int>>, t: seq<int>, m: Move): int
    requires Readable(t, m)
  {
    match m.kind
    case IntraRoute => DeltaTwoEdgesExchangeCandidate(inst, cands, t, m.i, m.j)
    case InterRoute => DeltaInterRouteExchangeCandidate(inst, cands, t, m.i, m.j)
  }

  /** No listed move has a negative evaluation. */
  ghost predicate CandidateOptimum(inst: Instance, cands: seq<seq<int>>, t: seq<int>)
  {
    forall m :: IsIntraMove(|t|, TwoEdges, m) || (InRange(t, |cands|) && IsCandidateExchange(t, cands, m))
      ==> Readable(t, m) && CandidateMoveDelta(inst, cands, t, m) >= 0
  }

  // ---------------------------------------------------------------------
  // Applying a move
  // ---------------------------------------------------------------------

  /**
   * An improving listed move keeps a duplicate-free in-range tour of the
   * same size and lowers the objective by at least the evaluation, exactly
   * by it on two or more nodes.
   */
  lemma CandidateStep(inst: Instance, cands: seq<seq<int>>, t: seq<int>, numNodes: int, m: Move)
    requires inst.Symmetric() && inst.ZeroDiagonal() && inst.NonNegative()
    requires ListsInRange(cands, numNodes) && InRange(t, numNodes) && Distinct(t)
    requires IsIntraMove(|t|, TwoEdges, m) || IsCandidateExchange(t, cands, m)
    requires Readable(t, m) && CandidateMoveDelta(inst, cands, t, m) < 0
    ensures var r := ApplyMove(t, TwoEdges, m);
            && InRange(r, numNodes) && Distinct(r) && |r| == |t|
            && TourCost(inst, r) <= TourCost(inst, t) + CandidateMoveDelta(inst, cands, t, m)
            && (|t| != 1 ==> TourCost(inst, r) == TourCost(inst, t) + CandidateMoveDelta(inst, cands, t, m))
  {
    if m.kind == IntraRoute {
      assert IsMove(t, numNodes, TwoEdges, m);
      ApplyMoveKeepsTour(t, numNodes, TwoEdges, m);
      EdgesMoveExact(inst, t, m);
    } else {
      assert m.j in cands[t[m.i]];
      assert 0 <= m.j < numNodes;
      assert IsMove(t, numNodes, TwoEdges, m);
      ApplyMoveKeepsTour(t, numNodes, TwoEdges, m);
      DeltaInterRouteExchangeExact(inst, t, m.i, m.j);
      InterRouteExchangeAgrees(inst, t, m.i, m.j);
      if |t| == 1 {
        assert inst.D(t[0], m.j) >= 0 && inst.D(m.j, t[0]) >= 0;
      }
    }
  }

  // ---------------------------------------------------------------------
  // The search loop
  // ---------------------------------------------------------------------

  /**
   * One round: evaluate every listed move, pick the first one of minimal
   * negative evaluation, apply it and add its evaluation to the running
   * objective; with no negative evaluation the tour is a candidate optimum.
   */
  method CandidateRound(inst: Instance, cands: seq<seq<int>>, t: seq<int>, flags: seq<bool>, cost: int, numNodes: nat)
    returns (t': seq<int>, flags': seq<bool>, cost': int, improved: bool)
    requires inst.Symmetric() && inst.ZeroDiagonal() && inst.NonNegative()
    requires ListsInRange(cands, numNodes) && InRange(t, numNodes) && Distinct(t) && FlagsValid(flags, t, numNodes)
    ensures InRange(t', numNodes) && Distinct(t') && |t'| == |t| && FlagsValid(flags', t', numNodes)
    ensures improved ==> && TourCost(inst, t') - TourCost(inst, t) <= cost' - cost < 0
                         && (|t| != 1 ==> TourCost(inst, t') - TourCost(inst, t) == cost' - cost)
    ensures !improved ==> t' == t && cost' == cost && CandidateOptimum(inst, cands, t)
  {
    var moves := CandidateNeighbourhood(t, cands, flags);
    CandidateNeighbourhoodMembers(t, cands, flags, numNodes);
    assert forall k :: 0 <= k < |moves| ==> moves[k] in moves;
    var deltas := seq(|moves|, k requires 0 <= k < |moves| => CandidateMoveDelta(inst, cands, t, moves[k]));
    var best := FirstMin(deltas, 0);
    if best == -1 {
      forall m | IsIntraMove(|t|, TwoEdges, m) || (InRange(t, |cands|) && IsCandidateExchange(t, cands, m))
        ensures Readable(t, m) && CandidateMoveDelta(inst, cands, t, m) >= 0
      {
        var k :| 0 <= k < |moves| && moves[k] == m;
        assert deltas[k] >= 0;
      }
      return t, flags, cost, false;
    }
    var m := moves[best];
    CandidateStep(inst, cands, t, numNodes, m);
    t', flags' := ApplyCandidateMove(t, cands, flags, numNodes, m);
    cost' := cost + deltas[best];
    improved := true;
  }

  /** Applies a listed move in place; an exchange also moves the flag from the old node to the new one. */
  method ApplyCandidateMove(t: seq<int>, cands: seq<seq<int>>, flags: seq<bool>, numNodes: nat, m: Move)
    returns (t': seq<int>, flags': seq<bool>)
    requires ListsInRange(cands, numNodes) && InRange(t, numNodes) && Distinct(t) && FlagsValid(flags, t, numNodes)
    requires IsIntraMove(|t|, TwoEdges, m) || IsCandidateExchange(t, cands, m)
    ensures Readable(t, m) && t' == ApplyMove(t, TwoEdges, m) && FlagsValid(flags', t', numNodes)
  {
    if m.kind == InterRoute {
      ExchangeKeepsFlags(t, cands, flags, numNodes, m);
      flags' := flags[t[m.i] := false][m.j := true];
    } else {
      ReversalKeepsFlags(t, flags, numNodes, m);
      flags' := flags;
    }
    t' := ApplyMoveInPlace(t, TwoEdges, m);
  }

  /** An exchange swaps the flags of the node it removes and the node it brings in. */
  lemma ExchangeKeepsFlags(t: seq<int>, cands: seq<seq<int>>, flags: seq<bool>, numNodes: nat, m: Move)
    requires ListsInRange(cands, numNodes) && InRange(t, numNodes) && Distinct(t) && FlagsValid(flags, t, numNodes)
    requires IsIntraMove(|t|, TwoEdges, m) || IsCandidateExchange(t, cands, m)
    requires m.kind == InterRoute
    ensures Readable(t, m) && FlagsValid(flags[t[m.i] := false][m.j := true], ApplyMove(t, TwoEdges, m), numNodes)
  {
    assert m.j in cands[t[m.i]];
    FlagsAfterExchange(flags, t, numNodes, m.i, m.j);
    assert ApplyMove(t, TwoEdges, m) == t[m.i := m.j];
  }

  /** A 2-opt move only rearranges the tour, so the flags stay exact. */
  lemma ReversalKeepsFlags(t: seq<int>, flags: seq<bool>, numNodes: nat, m: Move)
    requires FlagsValid(flags, t, numNodes) && IsIntraMove(|t|, TwoEdges, m)
    ensures Readable(t, m) && FlagsValid(flags, ApplyMove(t, TwoEdges, m), numNodes)
  {
    var r := ApplyMove(t, TwoEdges, m);
    assert r == ReverseRange(t, m.i + 1, m.j + 1);
    FlagsAfterPermutation(flags, t, r, numNodes);
  }

  /**
   * The candidate search on one starting tour: rounds repeat while the
   * previous one improved. The running objective is the tour's objective
   * (an upper bound on it for a one-node tour), and the tour stays a
   * duplicate-free tour of the same size whose flags stay exact.
   */
  method CandidateImprove(inst: Instance, cands: seq<seq<int>>, t0: seq<int>, numNodes: nat)
    returns (t: seq<int>, cost: int)
    requires inst.Symmetric() && inst.ZeroDiagonal() && inst.NonNegative()
    requires ListsInRange(cands, numNodes) && InRange(t0, numNodes) && Distinct(t0)
    ensures InRange(t, numNodes) && Distinct(t) && |t| == |t0|
    ensures TourCost(inst, t) <= cost <= TourCost(inst, t0)
    ensures |t0| != 1 ==> cost == TourCost(inst, t)
    ensures CandidateOptimum(inst, cands, t)
  {
    t := t0;
    var flags := InitFlags(t, numNodes);
    cost := TourCost(inst, t);
    CostNonNegative(inst, t);
    var improvement := true;
    while improvement
      invariant InRange(t, numNodes) && Distinct(t) && |t| == |t0| && FlagsValid(flags, t, numNodes)
      invariant 0 <= TourCost(inst, t) <= cost <= TourCost(inst, t0)
      invariant |t0| != 1 ==> cost == TourCost(inst, t)
      invariant !improvement ==> CandidateOptimum(inst, cands, t)
      decreases if improvement then cost + 1 else 0
    {
      ghost var before := t;
      t, flags, cost, improvement := CandidateRound(inst, cands, t, flags, cost, numNodes);
      CostNonNegative(inst, t);
    }
  }

  /**
   * What a finished candidate search guarantees about the objective: no
   * 2-opt move that adds a candidate edge lowers it.
   */
  lemma NoCandidateEdgesImprovement(inst: Instance, cands: seq<seq<int>>, t: seq<int>, i: int, j: int)
    requires inst.Symmetric() && CandidateOptimum(inst, cands, t)
    requires 0 <= i && i + 2 <= j < |t| && !(i == 0 && j == |t| - 1)
    requires EdgesIntroduceCandidate(cands, t, i, j)
    ensures TourCost(inst, ReverseRange(t, i + 1, j + 1)) >= TourCost(inst, t)
  {
    var m := Move(i, j, IntraRoute);
    assert IsIntraMove(|t|, TwoEdges, m);
    DeltaTwoEdgesExchangeExact(inst, t, i, j);
  }

  /**
   * ... and on two or more nodes no exchange of a tour node for an outside
   * node of its candidate list that adds a candidate edge lowers it.
   */
  lemma NoCandidateExchangeImprovement(inst: Instance, cands: seq<seq<int>>, t: seq<int>, i: int, v: int)
    requires CandidateOptimum(inst, cands, t) && InRange(t, |cands|)
    requires 0 <= i < |t| && |t| >= 2 && v in cands[t[i]] && v !in t
    requires ExchangeIntroducesCandidate(cands, t, i, v)
    ensures TourCost(inst, t[i := v]) >= TourCost(inst, t)
  {
    var m := Move(i, v, InterRoute);
    assert IsCandidateExchange(t, cands, m);
    InterRouteExchangeAgrees(inst, t, i, v);
    DeltaInterRouteExchangeExact(inst, t, i, v);
  }

  /**
   * `CM_LocalSearch_solve`: the lists are computed once; each of
   * `numSolutions` runs shuffles all node ids, keeps the first half as the
   * start, runs the candidate search and is folded into the best / worst /
   * total record. `rand(iter, c)` is the `c`-th `rand()` value of run `iter`.
   */
  method CandidateSolve(inst: Instance, numNodes: nat, numSolutions: nat, candidateListSize: nat, rand: (nat, nat) -> nat)
    returns (rec: Record, ghost runs: seq<Run>)
    requires inst.Symmetric() && inst.ZeroDiagonal() && inst.NonNegative()
    requires candidateListSize <= numNodes
    ensures |runs| == numSolutions && rec == RecordAll(runs)
    ensures forall k :: 0 <= k < |runs| ==>
              && |runs[k].tour| == TargetSize(numNodes) && InRange(runs[k].tour, numNodes) && Distinct(runs[k].tour)
              && TourCost(inst, runs[k].tour) <= runs[k].cost
              && (numNodes > 2 ==> runs[k].cost == TourCost(inst, runs[k].tour))
              && CandidateOptimum(inst, ComputeCandidateEdges(inst, numNodes, candidateListSize), runs[k].tour)
  {
    var cands := ComputeCandidateEdges(inst, numNodes, candidateListSize);
    forall u | 0 <= u < numNodes
      ensures InRange(cands[u], numNodes)
    {
      CandidateRowSpec(inst, numNodes, candidateListSize, u);
    }
    rec := Initial();
    runs := [];
    var iter: nat := 0;
    while iter < numSolutions
      invariant 0 <= iter <= numSolutions && |runs| == iter && rec == RecordAll(runs)
      invariant forall k :: 0 <= k < |runs| ==>
                  && |runs[k].tour| == TargetSize(numNodes) && InRange(runs[k].tour, numNodes) && Distinct(runs[k].tour)
                  && TourCost(inst, runs[k].tour) <= runs[k].cost
                  && (numNodes > 2 ==> runs[k].cost == TourCost(inst, runs[k].tour))
                  && CandidateOptimum(inst, cands, runs[k].tour)
    {
      var draws := seq(numNodes, q requires 0 <= q => rand(iter, q));
      var start := RandomStart(numNodes, draws);
      var t, cost := CandidateImprove(inst, cands, start, numNodes);
      assert (runs + [Run(t, cost)])[..iter] == runs;
      rec := Update(rec, Run(t, cost));
      runs := runs + [Run(t, cost)];
      iter := iter + 1;
    }
  }
}
