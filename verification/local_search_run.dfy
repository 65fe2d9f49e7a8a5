/**
 * The improvement loop of the C local search. Each round lists the
 * neighbourhood of the current tour in the order the C loops visit it
 * (the chosen intra-route move on all index pairs, then every exchange of a
 * position with a node outside the tour), and either applies the move with
 * the most negative change (steepest) or the first improving move of a
 * shuffled list (greedy). The running objective is updated by the move's
 * evaluation only, never recomputed.
 */
module LocalSearchRun {
  import opened Tours
  import opened Costs
  import opened GreedyUtils
  import opened LocalSearch
  import opened Records

  datatype MoveType = IntraRoute | InterRoute

  /** Intra-route moves: indices `i < j`; inter-route moves: position `i` and outside node `j`. */
  datatype Move = Move(i: int, j: int, kind: MoveType)

  /** Which intra-route move the search uses (C `intra_route_move_type` 0 / 1). */
  datatype IntraMoveType = TwoNodes | TwoEdges

  /** C `local_search_type` 0 / 1. */
  datatype SearchType = Steepest | Greedy

  // ---------------------------------------------------------------------
  // The neighbourhood
  // ---------------------------------------------------------------------

  /**
   * Intra-route moves of a tour of `size` positions: every pair `i < j` for
   * node exchange; for the 2-opt move pairs with `j >= i + 2`, except the
   * pair of the first and the last edge, which share a node.
   */
  predicate IsIntraMove(size: int, nb: IntraMoveType, m: Move)
  {
    && m.kind == IntraRoute
    && match nb
       case TwoNodes => 0 <= m.i < m.j < size
       case TwoEdges => 0 <= m.i && m.i + 2 <= m.j < size && !(m.i == 0 && m.j == size - 1)
  }

  /** Inter-route moves: a position of the tour and a node of the instance that is not in the tour. */
  predicate IsInterMove(t: seq<int>, numNodes: int, m: Move)
  {
    m.kind == InterRoute && 0 <= m.i < |t| && 0 <= m.j < numNodes && m.j !in t
  }

  predicate IsMove(t: seq<int>, numNodes: int, nb: IntraMoveType, m: Move)
  {
    IsIntraMove(|t|, nb, m) || IsInterMove(t, numNodes, m)
  }

  /** The inner loop over `j` of the C intra-route enumeration for row `i`. */
  function IntraRow(size: int, nb: IntraMoveType, i: int): seq<Move>
  {
    var lo := if nb == TwoNodes then i + 1 else i + 2;
    var hi := if nb == TwoNodes || i > 0 then size else size - 1;
    if lo >= hi then [] else seq(hi - lo, d => Move(i, lo + d, IntraRoute))
  }

  /** Row `i` lists exactly the intra-route moves whose first index is `i`. */
  lemma IntraRowMembers(size: int, nb: IntraMoveType, i: int)
    requires 0 <= i
    ensures forall m :: m in IntraRow(size, nb, i) <==> IsIntraMove(size, nb, m) && m.i == i
  {
    var lo := if nb == TwoNodes then i + 1 else i + 2;
    var row := IntraRow(size, nb, i);
    forall m: Move | IsIntraMove(size, nb, m) && m.i == i
      ensures m in row
    {
      assert row[m.j - lo] == m;
    }
  }

  /** Rows `i`, `i + 1`, ... of the intra-route enumeration. */
  function IntraRows(size: int, nb: IntraMoveType, i: nat): seq<Move>
    decreases size - i
  {
    if i >= size then [] else IntraRow(size, nb, i) + IntraRows(size, nb, i + 1)
  }

  lemma {:induction false} IntraRowsMembers(size: int, nb: IntraMoveType, i: nat)
    ensures forall m :: m in IntraRows(size, nb, i) <==> IsIntraMove(size, nb, m) && m.i >= i
    decreases size - i
  {
    if i < size {
      IntraRowMembers(size, nb, i);
      IntraRowsMembers(size, nb, i + 1);
    }
  }

  /** Nodes `v, v + 1, ..., numNodes - 1` that are not in the tour, in increasing order. */
  function Outside(t: seq<int>, numNodes: int, v: int): seq<int>
    decreases numNodes - v
  {
    if v >= numNodes then []
    else if v in t then Outside(t, numNodes, v + 1)
    else [v] + Outside(t, numNodes, v + 1)
  }

  lemma {:induction false} OutsideMembers(t: seq<int>, numNodes: int, v: int)
    ensures forall w :: w in Outside(t, numNodes, v) <==> v <= w < numNodes && w !in t
    decreases numNodes - v
  {
    if v < numNodes {
      OutsideMembers(t, numNodes, v + 1);
    }
  }

  /** Position `i` exchanged with each outside node (the C inner loop over `node_j`). */
  function InterRow(t: seq<int>, numNodes: int, i: int): seq<Move>
  {
    var out := Outside(t, numNodes, 0);
    seq(|out|, k requires 0 <= k < |out| => Move(i, out[k], InterRoute))
  }

  /** Row `i` pairs position `i` with exactly the outside nodes. */
  lemma InterRowMembers(t: seq<int>, numNodes: int, i: int)
    ensures forall m :: m in InterRow(t, numNodes, i) <==> m.kind == InterRoute && m.i == i && m.j in Outside(t, numNodes, 0)
  {
    var out := Outside(t, numNodes, 0);
    var row := InterRow(t, numNodes, i);
    forall m: Move | m.kind == InterRoute && m.i == i && m.j in out
      ensures m in row
    {
      var k :| 0 <= k < |out| && out[k] == m.j;
      assert row[k] == m;
    }
  }

  function InterRows(t: seq<int>, numNodes: int, i: nat): seq<Move>
    decreases |t| - i
  {
    if i >= |t| then [] else InterRow(t, numNodes, i) + InterRows(t, numNodes, i + 1)
  }

  lemma {:induction false} InterRowsMembers(t: seq<int>, numNodes: int, i: nat)
    ensures forall m :: m in InterRows(t, numNodes, i) <==> IsInterMove(t, numNodes, m) && m.i >= i
    decreases |t| - i
  {
    OutsideMembers(t, numNodes, 0);
    if i < |t| {
      InterRowMembers(t, numNodes, i);
      InterRowsMembers(t, numNodes, i + 1);
    }
  }

  /** The neighbourhood of `t` in the order the C code lists it. */
  function Neighbourhood(t: seq<int>, numNodes: int, nb: IntraMoveType): seq<Move>
  {
    IntraRows(|t|, nb, 0) + InterRows(t, numNodes, 0)
  }

  /** The listed neighbourhood holds exactly the moves of the search, each once per listing position. */
  lemma NeighbourhoodMembers(t: seq<int>, numNodes: int, nb: IntraMoveType)
    ensures forall m :: m in Neighbourhood(t, numNodes, nb) <==> IsMove(t, numNodes, nb, m)
  {
    IntraRowsMembers(|t|, nb, 0);
    InterRowsMembers(t, numNodes, 0);
  }

  // ---------------------------------------------------------------------
  // Evaluating and applying a move
  // ---------------------------------------------------------------------

  /** Indices of the move can be read in `t` (what every listed move satisfies). */
  predicate Readable(t: seq<int>, m: Move)
  {
    0 <= m.i < |t| && (m.kind == IntraRoute ==> m.i < m.j < |t|)
  }

  /** The evaluation the search uses for a move: the corrected deltas of `LocalSearch`, the C ones from three nodes on (`MoveDeltaAgrees`). */
  function MoveDelta(inst: Instance, t: seq<int>, nb: IntraMoveType, m: Move): int
    requires Readable(t, m)
  {
    match m.kind
    case IntraRoute =>
      if nb == TwoNodes then DeltaTwoNodesExchange(inst, t, m.i, m.j) else DeltaTwoEdgesExchange(inst, t, m.i, m.j)
    case InterRoute => DeltaInterRouteExchange(inst, t, m.i, m.j)
  }

  /** The evaluation the C loop performs: `delta_two_nodes_exchange` and `delta_inter_route_exchange` as written. */
  function MoveDeltaAsWritten(inst: Instance, t: seq<int>, nb: IntraMoveType, m: Move): int
    requires Readable(t, m)
  {
    match m.kind
    case IntraRoute =>
      if nb == TwoNodes then DeltaTwoNodesExchangeAsWritten(inst, t, m.i, m.j) else DeltaTwoEdgesExchange(inst, t, m.i, m.j)
    case InterRoute => DeltaInterRouteExchangeAsWritten(inst, t, m.i, m.j)
  }

  /**
   * The model's evaluation is the C one except on the tours the corrected
   * deltas exist for: 2-opt moves always agree, exchanges agree from two
   * nodes on, node swaps on every tour but one of two nodes. On tours of
   * three or more nodes the search below is therefore the C search.
   */
  lemma MoveDeltaAgrees(inst: Instance, t: seq<int>, nb: IntraMoveType, m: Move)
    requires Readable(t, m)
    ensures m.kind == IntraRoute && nb == TwoEdges ==> MoveDelta(inst, t, nb, m) == MoveDeltaAsWritten(inst, t, nb, m)
    ensures m.kind == InterRoute && |t| >= 2 ==> MoveDelta(inst, t, nb, m) == MoveDeltaAsWritten(inst, t, nb, m)
    ensures m.kind == IntraRoute && |t| != 2 ==> MoveDelta(inst, t, nb, m) == MoveDeltaAsWritten(inst, t, nb, m)
    ensures |t| >= 3 ==> MoveDelta(inst, t, nb, m) == MoveDeltaAsWritten(inst, t, nb, m)
  {
    if m.kind == InterRoute {
      InterRouteExchangeAgrees(inst, t, m.i, m.j);
    } else if nb == TwoNodes {
      TwoNodesExchangeAgrees(inst, t, m.i, m.j);
    }
  }

  /**
   * Why the C loop does not end on a two-node tour with node swaps (the
   * tour size for 3 or 4 nodes): the swap of the two nodes is listed and
   * reported as improving by `-2 * d(a, b)`, it yields another two-node
   * tour on which the same holds, and the real cost does not change. The C
   * `while (improvement)` loop stops only when no listed move reports a
   * negative change, so it runs forever.
   */
  lemma AsWrittenSwapNeverSettles(inst: Instance, t: seq<int>, numNodes: int)
    requires |t| == 2 && inst.ZeroDiagonal() && inst.Symmetric() && inst.D(t[0], t[1]) > 0
    ensures Move(0, 1, IntraRoute) in Neighbourhood(t, numNodes, TwoNodes)
    ensures MoveDeltaAsWritten(inst, t, TwoNodes, Move(0, 1, IntraRoute)) == -2 * inst.D(t[0], t[1]) < 0
    ensures var r := ApplyMove(t, TwoNodes, Move(0, 1, IntraRoute));
            && r == [t[1], t[0]] && inst.D(r[0], r[1]) > 0
            && TourCost(inst, r) == TourCost(inst, t)
  {
    var m := Move(0, 1, IntraRoute);
    NeighbourhoodMembers(t, numNodes, TwoNodes);
    TwoNodesExchangeAgrees(inst, t, 0, 1);
    assert inst.D(t[1], t[0]) == inst.D(t[0], t[1]);
    assert Swap(t, 0, 1) == [t[1], t[0]];
    ExchangeOnTwoNodes(inst, t);
  }

  /** The tour after the move: exchange two positions, reverse positions `i + 1 .. j`, or overwrite position `i`. */
  function ApplyMove(t: seq<int>, nb: IntraMoveType, m: Move): (r: seq<int>)
    requires Readable(t, m)
    ensures |r| == |t|
  {
    match m.kind
    case IntraRoute => if nb == TwoNodes then Swap(t, m.i, m.j) else ReverseRange(t, m.i + 1, m.j + 1)
    case InterRoute => t[m.i := m.j]
  }

  /** Every move of the search is evaluated exactly (2-opt on a symmetric matrix). */
  lemma MoveDeltaExact(inst: Instance, t: seq<int>, numNodes: int, nb: IntraMoveType, m: Move)
    requires IsMove(t, numNodes, nb, m) && inst.Symmetric()
    ensures Readable(t, m)
    ensures MoveDelta(inst, t, nb, m) == TourCost(inst, ApplyMove(t, nb, m)) - TourCost(inst, t)
  {
    if m.kind == InterRoute {
      InterMoveExact(inst, t, nb, m);
    } else if nb == TwoNodes {
      NodesMoveExact(inst, t, m);
    } else {
      EdgesMoveExact(inst, t, m);
    }
  }

  lemma InterMoveExact(inst: Instance, t: seq<int>, nb: IntraMoveType, m: Move)
    requires m.kind == InterRoute && 0 <= m.i < |t|
    ensures Readable(t, m)
    ensures MoveDelta(inst, t, nb, m) == TourCost(inst, ApplyMove(t, nb, m)) - TourCost(inst, t)
  {
    DeltaInterRouteExchangeExact(inst, t, m.i, m.j);
  }

  lemma NodesMoveExact(inst: Instance, t: seq<int>, m: Move)
    requires m.kind == IntraRoute && 0 <= m.i < m.j < |t|
    ensures Readable(t, m)
    ensures MoveDelta(inst, t, TwoNodes, m) == TourCost(inst, ApplyMove(t, TwoNodes, m)) - TourCost(inst, t)
  {
    DeltaTwoNodesExchangeExact(inst, t, m.i, m.j);
  }

  lemma EdgesMoveExact(inst: Instance, t: seq<int>, m: Move)
    requires m.kind == IntraRoute && 0 <= m.i < m.j < |t| && inst.Symmetric()
    ensures Readable(t, m)
    ensures MoveDelta(inst, t, TwoEdges, m) == TourCost(inst, ApplyMove(t, TwoEdges, m)) - TourCost(inst, t)
  {
    DeltaTwoEdgesExchangeExact(inst, t, m.i, m.j);
    EdgesMoveApplies(t, m);
    EdgesMoveEvaluates(inst, t, m);
  }

  lemma EdgesMoveApplies(t: seq<int>, m: Move)
    requires m.kind == IntraRoute && 0 <= m.i < m.j < |t|
    ensures Readable(t, m) && ApplyMove(t, TwoEdges, m) == ReverseRange(t, m.i + 1, m.j + 1)
  {
  }

  lemma EdgesMoveEvaluates(inst: Instance, t: seq<int>, m: Move)
    requires m.kind == IntraRoute && 0 <= m.i < m.j < |t|
    ensures Readable(t, m) && MoveDelta(inst, t, TwoEdges, m) == DeltaTwoEdgesExchange(inst, t, m.i, m.j)
  {
  }

  /**
   * Every move keeps a duplicate-free tour of in-range node ids duplicate-free
   * and in range: intra-route moves permute it, and an inter-route move only
   * brings in a node that was not in it.
   */
  lemma ApplyMoveKeepsTour(t: seq<int>, numNodes: int, nb: IntraMoveType, m: Move)
    requires IsMove(t, numNodes, nb, m) && InRange(t, numNodes) && Distinct(t)
    ensures Readable(t, m)
    ensures var r := ApplyMove(t, nb, m);
            InRange(r, numNodes) && Distinct(r) && |r| == |t|
  {
    var r := ApplyMove(t, nb, m);
    if m.kind == InterRoute {
      DistinctReplace(t, m.i, m.j);
    } else if nb == TwoNodes {
      DistinctSwap(t, m.i, m.j);
      InRangePermutation(t, r, numNodes);
    } else {
      DistinctReverseRange(t, m.i + 1, m.j + 1);
      InRangePermutation(t, r, numNodes);
    }
  }

  /** `is_in_solution`: a linear scan of the tour for `node`. */
  method IsInSolution(node: int, solution: seq<int>) returns (found: bool)
    ensures found <==> node in solution
  {
    var i := 0;
    while i < |solution|
      invariant 0 <= i <= |solution|
      invariant node !in solution[..i]
    {
      if solution[i] == node {
        return true;
      }
      assert solution[..i + 1] == solution[..i] + [solution[i]];
      i := i + 1;
    }
    assert solution[..i] == solution;
    return false;
  }

  /** `swap_nodes`: exchange the entries at positions `i` and `j`. */
  method SwapNodes(solution: seq<int>, i: int, j: int) returns (r: seq<int>)
    requires 0 <= i < |solution| && 0 <= j < |solution|
    ensures |r| == |solution| && multiset(r) == multiset(solution)
    ensures r[i] == solution[j] && r[j] == solution[i]
    ensures forall k :: 0 <= k < |solution| && k != i && k != j ==> r[k] == solution[k]
    ensures r == Swap(solution, i, j)
  {
    r := solution;
    var temp := r[i];
    r := r[i := r[j]];
    r := r[j := temp];
  }

  /** The 2-opt application: `reverse_segment` from the successor of `i` up to `j`. */
  method ReverseAfter(t: seq<int>, i: int, j: int) returns (r: seq<int>)
    requires 0 <= i && i + 2 <= j < |t|
    ensures r == ReverseRange(t, i + 1, j + 1)
  {
    var start := Succ(i, |t|);
    assert start == i + 1 <= j && start != 0;
    r := ReverseSegment(t, start, j);
  }

  /** Applies a listed move the way the C code does, through `swap_nodes`, `reverse_segment` or a store. */
  method ApplyMoveInPlace(t: seq<int>, nb: IntraMoveType, m: Move) returns (r: seq<int>)
    requires Readable(t, m) && (m.kind == IntraRoute && nb == TwoEdges ==> m.i + 2 <= m.j)
    ensures r == ApplyMove(t, nb, m)
  {
    if m.kind == InterRoute {
      r := t[m.i := m.j];
    } else if nb == TwoNodes {
      r := SwapNodes(t, m.i, m.j);
    } else {
      r := ReverseAfter(t, m.i, m.j);
    }
  }

  // ---------------------------------------------------------------------
  // Choosing the move
  // ---------------------------------------------------------------------

  /**
   * Steepest choice: the best evaluation starts at 0 and is replaced only by
   * a strictly smaller one, so the chosen move is the first one of minimal
   * (negative) evaluation; `-1` when nothing improves.
   */
  method FindBestMove(inst: Instance, t: seq<int>, nb: IntraMoveType, moves: seq<Move>)
    returns (best: int, bestDelta: int)
    requires forall k :: 0 <= k < |moves| ==> Readable(t, moves[k])
    ensures -1 <= best < |moves| && bestDelta <= 0
    ensures best == -1 <==> forall k :: 0 <= k < |moves| ==> MoveDelta(inst, t, nb, moves[k]) >= 0
    ensures best >= 0 ==> && bestDelta == MoveDelta(inst, t, nb, moves[best]) < 0
                          && (forall k :: 0 <= k < |moves| ==> MoveDelta(inst, t, nb, moves[k]) >= bestDelta)
                          && (forall k :: 0 <= k < best ==> MoveDelta(inst, t, nb, moves[k]) > bestDelta)
  {
    best, bestDelta := -1, 0;
    var k := 0;
    while k < |moves|
      invariant 0 <= k <= |moves| && -1 <= best < k && bestDelta <= 0
      invariant forall l :: 0 <= l < k ==> MoveDelta(inst, t, nb, moves[l]) >= bestDelta
      invariant best == -1 ==> bestDelta == 0
      invariant best >= 0 ==> && bestDelta == MoveDelta(inst, t, nb, moves[best]) < 0
                              && (forall l :: 0 <= l < best ==> MoveDelta(inst, t, nb, moves[l]) > bestDelta)
    {
      var delta := MoveDelta(inst, t, nb, moves[k]);
      if delta < bestDelta {
        best, bestDelta := k, delta;
      }
      k := k + 1;
    }
  }

  /** Greedy choice: the first move whose evaluation is negative; `-1` when nothing improves. */
  method FindFirstImproving(inst: Instance, t: seq<int>, nb: IntraMoveType, moves: seq<Move>)
    returns (first: int, delta: int)
    requires forall k :: 0 <= k < |moves| ==> Readable(t, moves[k])
    ensures -1 <= first < |moves|
    ensures first == -1 <==> forall k :: 0 <= k < |moves| ==> MoveDelta(inst, t, nb, moves[k]) >= 0
    ensures first >= 0 ==> && delta == MoveDelta(inst, t, nb, moves[first]) < 0
                           && (forall k :: 0 <= k < first ==> MoveDelta(inst, t, nb, moves[k]) >= 0)
  {
    var k := 0;
    while k < |moves|
      invariant 0 <= k <= |moves|
      invariant forall l :: 0 <= l < k ==> MoveDelta(inst, t, nb, moves[l]) >= 0
    {
      delta := MoveDelta(inst, t, nb, moves[k]);
      if delta < 0 {
        return k, delta;
      }
      k := k + 1;
    }
    return -1, 0;
  }

  /** `shuffle_moves`: the Fisher-Yates shuffle of `shuffle_array`, on moves. */
  method ShuffleMoves(moves: seq<Move>, draws: seq<nat>) returns (r: seq<Move>)
    requires |moves| <= 1 || |draws| >= |moves| - 1
    ensures |r| == |moves| && multiset(r) == multiset(moves)
    ensures forall m :: m in r <==> m in moves
  {
    r := ShuffleArray(moves, draws);
    assert forall m :: m in r <==> m in multiset(r);
  }

  // ---------------------------------------------------------------------
  // The improvement loop
  // ---------------------------------------------------------------------

  /** No move of the neighbourhood has a negative evaluation. */
  ghost predicate LocalOptimum(inst: Instance, t: seq<int>, numNodes: int, nb: IntraMoveType)
  {
    forall m :: IsMove(t, numNodes, nb, m) ==> Readable(t, m) && MoveDelta(inst, t, nb, m) >= 0
  }

  /** Every listed move can be read in `t`. */
  lemma NeighbourhoodReadable(t: seq<int>, numNodes: int, nb: IntraMoveType)
    ensures forall k :: 0 <= k < |Neighbourhood(t, numNodes, nb)| ==> Readable(t, Neighbourhood(t, numNodes, nb)[k])
  {
    var moves := Neighbourhood(t, numNodes, nb);
    NeighbourhoodMembers(t, numNodes, nb);
    forall k | 0 <= k < |moves|
      ensures Readable(t, moves[k])
    {
      assert IsMove(t, numNodes, nb, moves[k]);
    }
  }

  /** If no listed move improves, the tour is a local optimum. */
  lemma NoListedImprovement(inst: Instance, t: seq<int>, numNodes: int, nb: IntraMoveType, moves: seq<Move>)
    requires forall m :: m in moves <==> m in Neighbourhood(t, numNodes, nb)
    requires forall k :: 0 <= k < |moves| ==> Readable(t, moves[k]) && MoveDelta(inst, t, nb, moves[k]) >= 0
    ensures LocalOptimum(inst, t, numNodes, nb)
  {
    NeighbourhoodMembers(t, numNodes, nb);
    forall m | IsMove(t, numNodes, nb, m)
      ensures Readable(t, m) && MoveDelta(inst, t, nb, m) >= 0
    {
      var k :| 0 <= k < |moves| && moves[k] == m;
    }
  }

  /**
   * Applying an improving listed move: the running objective plus the
   * evaluation is the objective of the new tour, which is still a
   * duplicate-free tour and strictly cheaper.
   */
  lemma ImprovingStep(inst: Instance, t: seq<int>, numNodes: int, nb: IntraMoveType, m: Move, cost: int)
    requires m in Neighbourhood(t, numNodes, nb) && inst.Symmetric()
    requires InRange(t, numNodes) && Distinct(t) && cost == TourCost(inst, t)
    requires Readable(t, m) && MoveDelta(inst, t, nb, m) < 0
    ensures var r := ApplyMove(t, nb, m);
            && InRange(r, numNodes) && Distinct(r) && |r| == |t|
            && cost + MoveDelta(inst, t, nb, m) == TourCost(inst, r) < TourCost(inst, t)
  {
    NeighbourhoodMembers(t, numNodes, nb);
    MoveDeltaExact(inst, t, numNodes, nb, m);
    ApplyMoveKeepsTour(t, numNodes, nb, m);
  }

  /** The list a round scans: the neighbourhood in C order, shuffled for the greedy search. */
  method ListMoves(t: seq<int>, numNodes: int, ls: SearchType, nb: IntraMoveType, draws: seq<nat>)
    returns (moves: seq<Move>)
    requires |draws| + 1 >= |Neighbourhood(t, numNodes, nb)|
    ensures forall m :: m in moves <==> m in Neighbourhood(t, numNodes, nb)
    ensures forall k :: 0 <= k < |moves| ==> Readable(t, moves[k])
    ensures ls == Steepest ==> moves == Neighbourhood(t, numNodes, nb)
  {
    moves := Neighbourhood(t, numNodes, nb);
    NeighbourhoodReadable(t, numNodes, nb);
    if ls == Greedy {
      var listed := moves;
      moves := ShuffleMoves(moves, draws);
      forall k | 0 <= k < |moves|
        ensures Readable(t, moves[k])
      {
        assert moves[k] in moves;
        var p :| 0 <= p < |listed| && listed[p] == moves[k];
      }
    }
  }

  /**
   * One round of the loop: list the neighbourhood, pick a move (steepest:
   * best of the list; greedy: first improving move of the shuffled list) and
   * apply it if it improves. `draws` supplies the shuffle's `rand()` values.
   */
  method SearchRound(inst: Instance, t: seq<int>, cost: int, numNodes: int, ls: SearchType, nb: IntraMoveType, draws: seq<nat>)
    returns (r: seq<int>, newCost: int, improved: bool)
    requires inst.Symmetric() && InRange(t, numNodes) && Distinct(t) && cost == TourCost(inst, t)
    requires |draws| + 1 >= |Neighbourhood(t, numNodes, nb)|
    ensures InRange(r, numNodes) && Distinct(r) && |r| == |t| && newCost == TourCost(inst, r)
    ensures improved ==> newCost < cost
    ensures !improved ==> r == t && newCost == cost && LocalOptimum(inst, t, numNodes, nb)
  {
    var moves := ListMoves(t, numNodes, ls, nb, draws);
    var k, delta;
    if ls == Steepest {
      k, delta := FindBestMove(inst, t, nb, moves);
    } else {
      k, delta := FindFirstImproving(inst, t, nb, moves);
    }
    if k == -1 {
      NoListedImprovement(inst, t, numNodes, nb, moves);
      return t, cost, false;
    }
    var m := moves[k];
    NeighbourhoodMembers(t, numNodes, nb);
    ImprovingStep(inst, t, numNodes, nb, m, cost);
    r := ApplyMoveInPlace(t, nb, m);
    newCost := cost + delta;
    improved := true;
  }

  /**
   * The C improvement loop on one starting tour: rounds repeat while the
   * previous round improved. The running objective always equals the
   * objective of the current tour, the tour stays a duplicate-free tour of
   * in-range nodes, and the loop ends in a local optimum no worse than the
   * start. `rand(c)` is the `c`-th `rand()` value; each greedy round consumes
   * one value per listed move but one.
   */
  method Improve(inst: Instance, t0: seq<int>, numNodes: int, ls: SearchType, nb: IntraMoveType, rand: nat -> nat)
    returns (t: seq<int>, cost: int)
    requires inst.Symmetric() && inst.NonNegative()
    requires InRange(t0, numNodes) && Distinct(t0)
    ensures InRange(t, numNodes) && Distinct(t) && |t| == |t0|
    ensures cost == TourCost(inst, t) <= TourCost(inst, t0)
    ensures LocalOptimum(inst, t, numNodes, nb)
  {
    t := t0;
    cost := TourCost(inst, t0);
    var used: nat := 0;
    var improvement := true;
    CostNonNegative(inst, t);
    while improvement
      invariant InRange(t, numNodes) && Distinct(t) && |t| == |t0|
      invariant cost == TourCost(inst, t) <= TourCost(inst, t0) && cost >= 0
      invariant !improvement ==> LocalOptimum(inst, t, numNodes, nb)
      decreases if improvement then cost + 1 else 0
    {
      var n := |Neighbourhood(t, numNodes, nb)|;
      var draws := seq(n, q requires 0 <= q => rand(used + q));
      used := used + n;
      t, cost, improvement := SearchRound(inst, t, cost, numNodes, ls, nb, draws);
      CostNonNegative(inst, t);
    }
  }
  /**
   * Random starting solution: shuffle all node ids and keep the first half
   * (rounded up); `draws` supplies the shuffle's `rand()` values.
   */
  method RandomStart(numNodes: nat, draws: seq<nat>) returns (t: seq<int>)
    requires numNodes <= 1 || |draws| >= numNodes - 1
    ensures |t| == TargetSize(numNodes) && InRange(t, numNodes) && Distinct(t)
  {
    var all := AllNodes(numNodes);
    var shuffled := ShuffleArray(all, draws);
    DistinctPermutation(all, shuffled);
    InRangePermutation(all, shuffled, numNodes);
    t := shuffled[..TargetSize(numNodes)];
  }

  /**
   * `LocalSearch_solve` with random starting solutions: `numSolutions` runs
   * of start-and-improve, folded into the best / worst / total record. Every
   * recorded run is a local optimum of the right size whose recorded cost is
   * its objective. `rand(iter, c)` is the `c`-th `rand()` value of run `iter`.
   */
  method Solve(inst: Instance, numNodes: nat, numSolutions: nat, ls: SearchType, nb: IntraMoveType, rand: (nat, nat) -> nat)
    returns (rec: Record, ghost runs: seq<Run>)
    requires inst.Symmetric() && inst.NonNegative()
    ensures |runs| == numSolutions && rec == RecordAll(runs)
    ensures forall k :: 0 <= k < |runs| ==>
              && |runs[k].tour| == TargetSize(numNodes) && InRange(runs[k].tour, numNodes) && Distinct(runs[k].tour)
              && runs[k].cost == TourCost(inst, runs[k].tour)
              && LocalOptimum(inst, runs[k].tour, numNodes, nb)
  {
    rec := Initial();
    runs := [];
    var iter: nat := 0;
    while iter < numSolutions
      invariant 0 <= iter <= numSolutions && |runs| == iter && rec == RecordAll(runs)
      invariant forall k :: 0 <= k < |runs| ==>
                  && |runs[k].tour| == TargetSize(numNodes) && InRange(runs[k].tour, numNodes) && Distinct(runs[k].tour)
                  && runs[k].cost == TourCost(inst, runs[k].tour)
                  && LocalOptimum(inst, runs[k].tour, numNodes, nb)
    {
      var draws := seq(numNodes, q requires 0 <= q => rand(iter, q));
      var start := RandomStart(numNodes, draws);
      var t, cost := Improve(inst, start, numNodes, ls, nb, c => rand(iter, numNodes + c));
      assert (runs + [Run(t, cost)])[..iter] == runs;
      rec := Update(rec, Run(t, cost));
      runs := runs + [Run(t, cost)];
      iter := iter + 1;
    }
  }
}
