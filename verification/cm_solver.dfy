/**
 * The C++ candidate-move solver: per-node candidate lists (all other nodes
 * sorted by distance plus target cost, cut to `n_candidates`), a map from
 * tour node to tour position kept up to date by every move, and a steepest
 * search over 2-opt moves and node replacements drawn from the lists.
 *
 * The search reads the list of row `edge1_idx` / `node1_idx`, which are tour
 * POSITIONS, while the lists are built per node id. `RowIndex` makes that
 * choice explicit: `ByPosition` is the code as written, `ByNode` the list
 * of the node at that position. Everything about the evaluations and the
 * objective holds for both; only `ByNode` makes every evaluated move add an
 * edge to one of the scanned node's candidates.
 */
module CandidateSolver {
  import opened Tours
  import opened Costs
  import opened Solutions
  import opened LocalSearchSolver
  import opened Ranking
  import opened CandidateLocalSearch

  // ---------------------------------------------------------------------
  // Candidate lists
  // ---------------------------------------------------------------------

  /** `iota` over all node ids with `node` erased. */
  function Others(totalNodes: nat, node: int): (r: seq<int>)
    requires 0 <= node < totalNodes
    ensures |r| == totalNodes - 1 && InRange(r, totalNodes) && Distinct(r)
    ensures forall v :: v in r <==> 0 <= v < totalNodes && v != node
  {
    var r := seq(totalNodes - 1, k requires 0 <= k < totalNodes - 1 => if k < node then k else k + 1);
    forall v | 0 <= v < totalNodes && v != node
      ensures v in r
    {
      if v < node { assert r[v] == v; } else { assert r[v - 1] == v; }
    }
    r
  }

  /** The sort key of node `a` in node `node`'s list. */
  function CostKey(inst: Instance, node: int): int -> int
  {
    a => inst.D(node, a) + inst.C(a)
  }

  /** One list of `construct_candidate_nodes`: the other nodes sorted by key, cut to `nCandidates`. */
  function CandidateNodes(inst: Instance, totalNodes: nat, nCandidates: nat, node: int): (row: seq<int>)
    requires 0 <= node < totalNodes && nCandidates < totalNodes
    ensures |row| == nCandidates
  {
    SortByKey(Others(totalNodes, node), CostKey(inst, node))[..nCandidates]
  }

  /**
   * `construct_candidate_nodes`: one list per node id. The cut at
   * `n_candidates` must lie inside the `total_nodes - 1` other nodes.
   */
  function ConstructCandidateNodes(inst: Instance, totalNodes: nat, nCandidates: nat): (cands: seq<seq<int>>)
    requires totalNodes == 0 || nCandidates < totalNodes
    ensures |cands| == totalNodes
    ensures forall node :: 0 <= node < totalNodes ==> cands[node] == CandidateNodes(inst, totalNodes, nCandidates, node)
  {
    seq(totalNodes, node requires 0 <= node < totalNodes => CandidateNodes(inst, totalNodes, nCandidates, node))
  }

  /**
   * A list holds `nCandidates` different node ids other than the node
   * itself, in non-decreasing key order, and they are the cheapest: no
   * other node left out has a smaller key than a node in the list.
   */
  lemma CandidateNodesSpec(inst: Instance, totalNodes: nat, nCandidates: nat, node: int)
    requires 0 <= node < totalNodes && nCandidates < totalNodes
    ensures var row := CandidateNodes(inst, totalNodes, nCandidates, node);
            && |row| == nCandidates && InRange(row, totalNodes) && Distinct(row) && node !in row
            && SortedBy(row, CostKey(inst, node))
            && forall a, b :: a in row && 0 <= b < totalNodes && b != node && b !in row
                 ==> inst.D(node, a) + inst.C(a) <= inst.D(node, b) + inst.C(b)
  {
    CandidateNodesShape(inst, totalNodes, nCandidates, node);
    CandidateNodesCheapest(inst, totalNodes, nCandidates, node);
  }

  lemma CandidateNodesShape(inst: Instance, totalNodes: nat, nCandidates: nat, node: int)
    requires 0 <= node < totalNodes && nCandidates < totalNodes
    ensures var row := CandidateNodes(inst, totalNodes, nCandidates, node);
            && InRange(row, totalNodes) && Distinct(row) && node !in row && SortedBy(row, CostKey(inst, node))
  {
    var key := CostKey(inst, node);
    var sorted := SortByKey(Others(totalNodes, node), key);
    SortedOthers(inst, totalNodes, node);
    PrefixKeeps(sorted, key, nCandidates, totalNodes, node);
  }

  /** A prefix of a sorted, duplicate-free, in-range list without `node` is all of that too. */
  lemma PrefixKeeps(sorted: seq<int>, key: int -> int, k: nat, n: int, node: int)
    requires k <= |sorted| && InRange(sorted, n) && Distinct(sorted) && SortedBy(sorted, key) && node !in sorted
    ensures InRange(sorted[..k], n) && Distinct(sorted[..k]) && node !in sorted[..k] && SortedBy(sorted[..k], key)
  {
    assert forall v :: v in sorted[..k] ==> v in sorted;
  }

  lemma CandidateNodesCheapest(inst: Instance, totalNodes: nat, nCandidates: nat, node: int)
    requires 0 <= node < totalNodes && nCandidates < totalNodes
    ensures var row := CandidateNodes(inst, totalNodes, nCandidates, node);
            forall a, b :: a in row && 0 <= b < totalNodes && b != node && b !in row
              ==> inst.D(node, a) + inst.C(a) <= inst.D(node, b) + inst.C(b)
  {
    var key := CostKey(inst, node);
    var sorted := SortByKey(Others(totalNodes, node), key);
    SortedOthers(inst, totalNodes, node);
    CutIsCheapest(sorted, key, nCandidates);
    var row := sorted[..nCandidates];
    assert row == CandidateNodes(inst, totalNodes, nCandidates, node);
    forall a, b | a in row && 0 <= b < totalNodes && b != node && b !in row
      ensures inst.D(node, a) + inst.C(a) <= inst.D(node, b) + inst.C(b)
    {
      assert b in sorted;
      assert key(a) <= key(b);
    }
  }

  /** The other nodes sorted by key: a sorted rearrangement of exactly the other node ids. */
  lemma SortedOthers(inst: Instance, totalNodes: nat, node: int)
    requires 0 <= node < totalNodes
    ensures var sorted := SortByKey(Others(totalNodes, node), CostKey(inst, node));
            && InRange(sorted, totalNodes) && Distinct(sorted) && SortedBy(sorted, CostKey(inst, node))
            && forall v :: v in sorted <==> 0 <= v < totalNodes && v != node
  {
    var others := Others(totalNodes, node);
    var sorted := SortByKey(others, CostKey(inst, node));
    SortByKeySorted(others, CostKey(inst, node));
    DistinctPermutation(others, sorted);
    InRangePermutation(others, sorted, totalNodes);
    forall v
      ensures v in sorted <==> v in others
    {
      assert v in sorted <==> v in multiset(sorted);
      assert v in others <==> v in multiset(others);
    }
  }

  /** The constructed lists hold node ids of the instance. */
  lemma ConstructedListsInRange(inst: Instance, totalNodes: nat, nCandidates: nat)
    requires totalNodes == 0 || nCandidates < totalNodes
    ensures ListsInRange(ConstructCandidateNodes(inst, totalNodes, nCandidates), totalNodes)
  {
    var cands := ConstructCandidateNodes(inst, totalNodes, nCandidates);
    forall u | 0 <= u < totalNodes
      ensures InRange(cands[u], totalNodes)
    {
      CandidateNodesSpec(inst, totalNodes, nCandidates, u);
    }
  }

  // ---------------------------------------------------------------------
  // The node-to-position lookup
  // ---------------------------------------------------------------------

  /** Every tour node maps to its position. */
  ghost predicate LookupValid(lookup: map<int, int>, nodes: seq<int>)
  {
    forall k :: 0 <= k < |nodes| ==> nodes[k] in lookup && lookup[nodes[k]] == k
  }

  /**
   * `construct_node_idxs_lookup`: each tour node maps to the last position
   * holding it, and nothing else is mapped; on a duplicate-free tour that
   * is its only position.
   */
  method ConstructNodeLookup(nodes: seq<int>) returns (lookup: map<int, int>)
    ensures forall v :: v in lookup <==> v in nodes
    ensures forall v :: v in lookup ==> && 0 <= lookup[v] < |nodes| && nodes[lookup[v]] == v
                                        && forall k :: lookup[v] < k < |nodes| ==> nodes[k] != v
    ensures Distinct(nodes) ==> LookupValid(lookup, nodes)
  {
    lookup := map[];
    var i := 0;
    while i < |nodes|
      invariant 0 <= i <= |nodes|
      invariant forall v :: v in lookup <==> v in nodes[..i]
      invariant forall v :: v in lookup ==> && 0 <= lookup[v] < i && nodes[lookup[v]] == v
                                            && forall k :: lookup[v] < k < i ==> nodes[k] != v
    {
      assert nodes[..i + 1] == nodes[..i] + [nodes[i]];
      lookup := lookup[nodes[i] := i];
      i := i + 1;
    }
    assert nodes[..i] == nodes;
    if Distinct(nodes) {
      forall k | 0 <= k < |nodes|
        ensures nodes[k] in lookup && lookup[nodes[k]] == k
      {
        var v := nodes[k];
        assert v in nodes;
        var p := lookup[v];
        assert nodes[p] == nodes[k];
      }
    }
  }

  /**
   * `get_solution_index`: the mapped position (`operator[]` yields 0 for an
   * unmapped node; every call passes a tour node, which is always mapped).
   */
  function GetSolutionIndex(lookup: map<int, int>, node: int): int
  {
    if node in lookup then lookup[node] else 0
  }

  /** On a valid lookup a tour node's index is a position holding that node. */
  lemma LookupFindsPosition(lookup: map<int, int>, nodes: seq<int>, v: int)
    requires LookupValid(lookup, nodes) && v in nodes
    ensures v in lookup
    ensures 0 <= GetSolutionIndex(lookup, v) < |nodes| && nodes[GetSolutionIndex(lookup, v)] == v
  {
    var k :| 0 <= k < |nodes| && nodes[k] == v;
  }

  /**
   * `update_node_lookup_inter`, called after the exchange: it reads the
   * node now at `removedIdx` (which is already the new node), erases it and
   * maps the new node to `removedIdx`; the replaced node's entry stays.
   */
  function UpdateNodeLookupInter(lookup: map<int, int>, nodes: seq<int>, removedIdx: int, newNode: int): map<int, int>
    requires 0 <= removedIdx < |nodes|
  {
    var removedNode := nodes[removedIdx];
    (lookup - {removedNode})[newNode := removedIdx]
  }

  /**
   * After replacing a tour node by an outside node, the updated lookup is
   * valid for the new tour; the replaced node keeps its old entry, which no
   * later read uses, since only tour nodes are looked up.
   */
  lemma LookupAfterInter(lookup: map<int, int>, s: Solution, idx: int, v: int)
    requires s.Valid() && Distinct(s.nodes) && LookupValid(lookup, s.nodes)
    requires 0 <= idx < |s.nodes| && v !in s.nodes
    ensures var r := ExchangeNodeAtIndex(s, idx, v);
            && |r.nodes| == |s.nodes|
            && LookupValid(UpdateNodeLookupInter(lookup, r.nodes, idx, v), r.nodes)
            && s.nodes[idx] in UpdateNodeLookupInter(lookup, r.nodes, idx, v)
  {
    var r := ExchangeNodeAtIndex(s, idx, v);
    assert r.nodes == s.nodes[idx := v];
    var l' := UpdateNodeLookupInter(lookup, r.nodes, idx, v);
    assert l' == (lookup - {v})[v := idx];
    forall k | 0 <= k < |r.nodes|
      ensures r.nodes[k] in l' && l'[r.nodes[k]] == k
    {
      if k != idx {
        assert r.nodes[k] == s.nodes[k] != v;
      }
    }
    assert s.nodes[idx] != v;
  }

  /**
   * `update_node_lookup_intra_edges`: map each node of positions
   * `edge1Idx + 1 ..= edge2Idx` to its position; every other entry stays.
   */
  method UpdateNodeLookupIntraEdges(lookup: map<int, int>, nodes: seq<int>, edge1Idx: int, edge2Idx: int)
    returns (lookup': map<int, int>)
    requires -1 <= edge1Idx && edge2Idx < |nodes|
    ensures forall v :: v in lookup && (forall k :: edge1Idx < k <= edge2Idx ==> nodes[k] != v)
              ==> v in lookup' && lookup'[v] == lookup[v]
    ensures Distinct(nodes) ==> forall k :: edge1Idx < k <= edge2Idx ==> nodes[k] in lookup' && lookup'[nodes[k]] == k
  {
    lookup' := lookup;
    var i := edge1Idx + 1;
    while i < edge2Idx + 1
      invariant edge1Idx + 1 <= i
      invariant i <= edge2Idx + 1 || i == edge1Idx + 1
      invariant forall v :: v in lookup && (forall k :: edge1Idx < k < i ==> nodes[k] != v)
                  ==> v in lookup' && lookup'[v] == lookup[v]
      invariant Distinct(nodes) ==> forall k :: edge1Idx < k < i ==> nodes[k] in lookup' && lookup'[nodes[k]] == k
    {
      lookup' := lookup'[nodes[i] := i];
      i := i + 1;
    }
  }

  /** After a 2-opt move on positions `e1 < e2`, the intra-edge update leaves a valid lookup. */
  lemma LookupAfterEdges(lookup: map<int, int>, lookup': map<int, int>, s: Solution, e1: int, e2: int)
    requires s.Valid() && Distinct(s.nodes) && LookupValid(lookup, s.nodes) && 0 <= e1 < e2 < |s.nodes|
    requires var r := ExchangeTwoEdges(s, e1, e2).nodes;
             && |r| == |s.nodes|
             && (forall v :: v in lookup && (forall k :: e1 < k <= e2 ==> r[k] != v) ==> v in lookup' && lookup'[v] == lookup[v])
             && (Distinct(r) ==> forall k :: e1 < k <= e2 ==> r[k] in lookup' && lookup'[r[k]] == k)
    ensures LookupValid(lookup', ExchangeTwoEdges(s, e1, e2).nodes)
  {
    var r := ExchangeTwoEdges(s, e1, e2).nodes;
    ExchangeTwoEdgesOrder(s, e1, e2);
    DistinctPermutation(s.nodes, r);
    forall k | 0 <= k < |r|
      ensures r[k] in lookup' && lookup'[r[k]] == k
    {
      if k <= e1 || e2 < k {
        assert r[k] == s.nodes[k];
        forall m | e1 < m <= e2
          ensures r[m] != r[k]
        {
        }
      }
    }
  }

  // ---------------------------------------------------------------------
  // The two candidate searches
  // ---------------------------------------------------------------------

  /** Which list a scanned position reads: the one at the position (as written) or the one of its node. */
  datatype RowIndex = ByPosition | ByNode

  function RowAt(s: Solution, cands: seq<seq<int>>, mode: RowIndex, p: int): seq<int>
    requires 0 <= p < |s.nodes|
  {
    var u := if mode == ByPosition then p else s.nodes[p];
    if 0 <= u < |cands| then cands[u] else []
  }

  /**
   * The 2-opt evaluations for the scanned position `e1` and a tour
   * candidate at position `ci`: edges (e1, ci) when `e1 < ci - 1`, then the
   * edges just before them when their indices are more than one apart; each
   * brings `nodes[e1]` next to the candidate.
   */
  function EdgePairMoves(inst: Instance, s: Solution, lookup: map<int, int>, e1: int, cand: int): seq<Found>
    requires s.Valid() && LookupValid(lookup, s.nodes) && 0 <= e1 < |s.nodes|
  {
    if !Contains(s, cand) then []
    else
      LookupFindsPosition(lookup, s.nodes, cand);
      var ci := GetSolutionIndex(lookup, cand);
      var e1Prev, ciPrev := GetPrevNodeIndex(s, e1), GetPrevNodeIndex(s, ci);
      IndexHelpers(s, e1);
      IndexHelpers(s, ci);
      var next := if e1 < ci - 1 then [Found(CalculateDeltaIntraRouteEdges(inst, s, e1, ci), e1, ci)] else [];
      var prev := if e1Prev < ciPrev - 1 then [Found(CalculateDeltaIntraRouteEdges(inst, s, e1Prev, ciPrev), e1Prev, ciPrev)] else [];
      next + prev
  }

  function EdgeRowMoves(inst: Instance, s: Solution, lookup: map<int, int>, e1: int, row: seq<int>): seq<Found>
    requires s.Valid() && LookupValid(lookup, s.nodes) && 0 <= e1 < |s.nodes|
    decreases |row|
  {
    if |row| == 0 then []
    else EdgePairMoves(inst, s, lookup, e1, row[0]) + EdgeRowMoves(inst, s, lookup, e1, row[1..])
  }

  /** `find_best_neighbor_edges_from_candidates` in scan order: every evaluation, position by position. */
  function EdgeMoves(inst: Instance, s: Solution, lookup: map<int, int>, cands: seq<seq<int>>, mode: RowIndex, iter1: seq<int>)
    : seq<Found>
    requires s.Valid() && LookupValid(lookup, s.nodes)
    requires forall p :: p in iter1 ==> 0 <= p < |s.nodes|
    decreases |iter1|
  {
    if |iter1| == 0 then []
    else
      assert iter1[0] in iter1 && forall p :: p in iter1[1..] ==> p in iter1;
      EdgeRowMoves(inst, s, lookup, iter1[0], RowAt(s, cands, mode, iter1[0]))
      + EdgeMoves(inst, s, lookup, cands, mode, iter1[1..])
  }

  /** The two replacement evaluations for an outside candidate: its previous neighbour, then its next one. */
  function NodePairMoves(inst: Instance, s: Solution, i: int, cand: int): seq<Found>
    requires s.Valid() && 0 <= i < |s.nodes|
  {
    if Contains(s, cand) then []
    else
      var prev := CalculateDeltaInterRouteNodesCandidates(inst, s, i, cand, Previous);
      var next := CalculateDeltaInterRouteNodesCandidates(inst, s, i, cand, Next);
      [Found(prev.0, prev.1, cand), Found(next.0, next.1, cand)]
  }

  function NodeRowMoves(inst: Instance, s: Solution, i: int, row: seq<int>): seq<Found>
    requires s.Valid() && 0 <= i < |s.nodes|
    decreases |row|
  {
    if |row| == 0 then []
    else NodePairMoves(inst, s, i, row[0]) + NodeRowMoves(inst, s, i, row[1..])
  }

  /** `find_best_neighbor_nodes_from_candidates` in scan order. */
  function NodeMoves(inst: Instance, s: Solution, cands: seq<seq<int>>, mode: RowIndex, iter1: seq<int>): seq<Found>
    requires s.Valid()
    requires forall p :: p in iter1 ==> 0 <= p < |s.nodes|
    decreases |iter1|
  {
    if |iter1| == 0 then []
    else
      assert iter1[0] in iter1 && forall p :: p in iter1[1..] ==> p in iter1;
      NodeRowMoves(inst, s, iter1[0], RowAt(s, cands, mode, iter1[0])) + NodeMoves(inst, s, cands, mode, iter1[1..])
  }

  function Deltas(fs: seq<Found>): (ds: seq<int>)
    ensures |ds| == |fs| && forall k :: 0 <= k < |fs| ==> ds[k] == fs[k].delta
  {
    seq(|fs|, k requires 0 <= k < |fs| => fs[k].delta)
  }

  /**
   * What a scan `min_delta := 0; if delta < min_delta then record` returns:
   * the first evaluation of minimum value when that is negative, and
   * (0, -1, -1) when nothing is negative.
   */
  function PickBest(fs: seq<Found>): (r: Found)
    ensures r.delta <= 0
    ensures forall f :: f in fs ==> r.delta <= f.delta
    ensures (forall f :: f in fs ==> f.delta >= 0) <==> r == Found(0, -1, -1)
    ensures r.delta < 0 ==> exists k :: 0 <= k < |fs| && fs[k] == r && forall l :: 0 <= l < k ==> fs[l].delta > r.delta
  {
    var ds := Deltas(fs);
    var k := FirstMin(ds, 0);
    assert forall f :: f in fs ==> exists j :: 0 <= j < |fs| && fs[j] == f && ds[j] == f.delta;
    if k == -1 then Found(0, -1, -1) else fs[k]
  }

  // ---------------------------------------------------------------------
  // What the listed evaluations mean
  // ---------------------------------------------------------------------

  /** A listed 2-opt evaluation: two edge indices more than one apart, and the evaluation of exactly that move. */
  ghost predicate EdgeMoveOk(inst: Instance, s: Solution, f: Found)
    requires s.Valid()
  {
    0 <= f.arg1 && f.arg1 + 1 < f.arg2 < |s.nodes| && f.delta == CalculateDeltaIntraRouteEdges(inst, s, f.arg1, f.arg2)
  }

  /** A listed replacement: a tour position, an outside node id, and the replacement evaluation of that pair. */
  ghost predicate NodeMoveOk(inst: Instance, s: Solution, f: Found, totalNodes: int)
    requires s.Valid()
  {
    && 0 <= f.arg1 < |s.nodes| && 0 <= f.arg2 < totalNodes && !Contains(s, f.arg2)
    && f.delta == CalculateDeltaInterRoute(inst, s, f.arg1, f.arg2)
  }

  lemma EdgePairMovesOk(inst: Instance, s: Solution, lookup: map<int, int>, e1: int, cand: int)
    requires s.Valid() && LookupValid(lookup, s.nodes) && 0 <= e1 < |s.nodes|
    ensures forall f :: f in EdgePairMoves(inst, s, lookup, e1, cand) ==> EdgeMoveOk(inst, s, f)
  {
    if Contains(s, cand) {
      LookupFindsPosition(lookup, s.nodes, cand);
      var ci := GetSolutionIndex(lookup, cand);
      IndexHelpers(s, e1);
      IndexHelpers(s, ci);
    }
  }

  /** Every 2-opt evaluation the edge search lists is a well-formed move evaluated by the 2-opt formula. */
  lemma {:induction false} EdgeMovesOk(inst: Instance, s: Solution, lookup: map<int, int>, cands: seq<seq<int>>, mode: RowIndex, iter1: seq<int>)
    requires s.Valid() && LookupValid(lookup, s.nodes)
    requires forall p :: p in iter1 ==> 0 <= p < |s.nodes|
    ensures forall f :: f in EdgeMoves(inst, s, lookup, cands, mode, iter1) ==> EdgeMoveOk(inst, s, f)
    decreases |iter1|
  {
    if |iter1| > 0 {
      assert iter1[0] in iter1 && forall p :: p in iter1[1..] ==> p in iter1;
      EdgeRowMovesOk(inst, s, lookup, iter1[0], RowAt(s, cands, mode, iter1[0]));
      EdgeMovesOk(inst, s, lookup, cands, mode, iter1[1..]);
    }
  }

  lemma {:induction false} EdgeRowMovesOk(inst: Instance, s: Solution, lookup: map<int, int>, e1: int, row: seq<int>)
    requires s.Valid() && LookupValid(lookup, s.nodes) && 0 <= e1 < |s.nodes|
    ensures forall f :: f in EdgeRowMoves(inst, s, lookup, e1, row) ==> EdgeMoveOk(inst, s, f)
    decreases |row|
  {
    if |row| > 0 {
      EdgePairMovesOk(inst, s, lookup, e1, row[0]);
      EdgeRowMovesOk(inst, s, lookup, e1, row[1..]);
    }
  }

  /**
   * Writing the candidate over the previous (or next) neighbour is the
   * replacement at the reported index: the same six terms, with the
   * previous side read backwards, so it needs a symmetric matrix.
   */
  lemma CandidateDeltaAgrees(inst: Instance, s: Solution, i: int, cand: int, dir: Direction)
    requires inst.Symmetric() && s.Valid() && 0 <= i < |s.nodes|
    ensures var r := CalculateDeltaInterRouteNodesCandidates(inst, s, i, cand, dir);
            r.0 == CalculateDeltaInterRoute(inst, s, r.1, cand)
  {
    var t, n := s.nodes, |s.nodes|;
    SuccPredMod(i, n);
    var near := CalculateDeltaInterRouteNodesCandidates(inst, s, i, cand, dir).1;
    SuccPredMod(near, n);
    if dir == Previous {
      var far := Pred(near, n);
      assert inst.D(t[i], t[near]) == inst.D(t[near], t[i]);
      assert inst.D(t[near], t[far]) == inst.D(t[far], t[near]);
      assert inst.D(t[i], cand) == inst.D(cand, t[i]);
      assert inst.D(cand, t[far]) == inst.D(t[far], cand);
    }
  }

  lemma NodePairMovesOk(inst: Instance, s: Solution, i: int, cand: int, totalNodes: int)
    requires inst.Symmetric() && s.Valid() && 0 <= i < |s.nodes| && 0 <= cand < totalNodes
    ensures forall f :: f in NodePairMoves(inst, s, i, cand) ==> NodeMoveOk(inst, s, f, totalNodes)
  {
    CandidateDeltaAgrees(inst, s, i, cand, Previous);
    CandidateDeltaAgrees(inst, s, i, cand, Next);
  }

  lemma {:induction false} NodeRowMovesOk(inst: Instance, s: Solution, i: int, row: seq<int>, totalNodes: int)
    requires inst.Symmetric() && s.Valid() && 0 <= i < |s.nodes| && InRange(row, totalNodes)
    ensures forall f :: f in NodeRowMoves(inst, s, i, row) ==> NodeMoveOk(inst, s, f, totalNodes)
    decreases |row|
  {
    if |row| > 0 {
      NodePairMovesOk(inst, s, i, row[0], totalNodes);
      NodeRowMovesOk(inst, s, i, row[1..], totalNodes);
    }
  }

  /** Every replacement the node search lists is an outside node at a tour position, evaluated exactly by the replacement formula. */
  lemma {:induction false} NodeMovesOk(inst: Instance, s: Solution, cands: seq<seq<int>>, mode: RowIndex, iter1: seq<int>, totalNodes: int)
    requires inst.Symmetric() && s.Valid() && ListsInRange(cands, totalNodes)
    requires forall p :: p in iter1 ==> 0 <= p < |s.nodes|
    ensures forall f :: f in NodeMoves(inst, s, cands, mode, iter1) ==> NodeMoveOk(inst, s, f, totalNodes)
    decreases |iter1|
  {
    if |iter1| > 0 {
      assert iter1[0] in iter1 && forall p :: p in iter1[1..] ==> p in iter1;
      NodeRowMovesOk(inst, s, iter1[0], RowAt(s, cands, mode, iter1[0]), totalNodes);
      NodeMovesOk(inst, s, cands, mode, iter1[1..], totalNodes);
    }
  }

  // ---------------------------------------------------------------------
  // Which moves are scanned: the rows by position or by node
  // ---------------------------------------------------------------------

  lemma EdgePairIntroduces(s: Solution, lookup: map<int, int>, cands: seq<seq<int>>, inst: Instance, e1: int, cand: int)
    requires s.Valid() && LookupValid(lookup, s.nodes) && 0 <= e1 < |s.nodes|
    requires 0 <= s.nodes[e1] < |cands| && cand in cands[s.nodes[e1]]
    ensures forall f :: f in EdgePairMoves(inst, s, lookup, e1, cand) ==>
              0 <= f.arg1 < |s.nodes| && 0 <= f.arg2 < |s.nodes| && EdgesIntroduceCandidate(cands, s.nodes, f.arg1, f.arg2)
  {
    if Contains(s, cand) {
      var n := |s.nodes|;
      LookupFindsPosition(lookup, s.nodes, cand);
      var ci := GetSolutionIndex(lookup, cand);
      IndexHelpers(s, e1);
      IndexHelpers(s, ci);
      SuccPredMod(e1, n);
      SuccPredMod(ci, n);
      assert CandidateEdge(cands, s.nodes[e1], s.nodes[ci]);
    }
  }

  lemma {:induction false} EdgeRowIntroduces(s: Solution, lookup: map<int, int>, cands: seq<seq<int>>, inst: Instance, e1: int, row: seq<int>)
    requires s.Valid() && LookupValid(lookup, s.nodes) && 0 <= e1 < |s.nodes|
    requires 0 <= s.nodes[e1] < |cands| && forall v :: v in row ==> v in cands[s.nodes[e1]]
    ensures forall f :: f in EdgeRowMoves(inst, s, lookup, e1, row) ==>
              0 <= f.arg1 < |s.nodes| && 0 <= f.arg2 < |s.nodes| && EdgesIntroduceCandidate(cands, s.nodes, f.arg1, f.arg2)
    decreases |row|
  {
    if |row| > 0 {
      EdgePairIntroduces(s, lookup, cands, inst, e1, row[0]);
      EdgeRowIntroduces(s, lookup, cands, inst, e1, row[1..]);
    }
  }

  /**
   * Reading the list of the node at each scanned position, every 2-opt move
   * the edge search evaluates adds a candidate edge: the scanned node next
   * to one of its candidates.
   */
  lemma {:induction false} ByNodeEdgeMovesIntroduce(inst: Instance, s: Solution, lookup: map<int, int>, cands: seq<seq<int>>, iter1: seq<int>)
    requires s.Valid() && LookupValid(lookup, s.nodes) && InRange(s.nodes, |cands|)
    requires forall p :: p in iter1 ==> 0 <= p < |s.nodes|
    ensures forall f :: f in EdgeMoves(inst, s, lookup, cands, ByNode, iter1) ==>
              0 <= f.arg1 < |s.nodes| && 0 <= f.arg2 < |s.nodes| && EdgesIntroduceCandidate(cands, s.nodes, f.arg1, f.arg2)
    decreases |iter1|
  {
    if |iter1| > 0 {
      assert iter1[0] in iter1 && forall p :: p in iter1[1..] ==> p in iter1;
      EdgeRowIntroduces(s, lookup, cands, inst, iter1[0], RowAt(s, cands, ByNode, iter1[0]));
      ByNodeEdgeMovesIntroduce(inst, s, lookup, cands, iter1[1..]);
    }
  }

  lemma NodePairIntroduces(inst: Instance, s: Solution, cands: seq<seq<int>>, i: int, cand: int)
    requires s.Valid() && 0 <= i < |s.nodes|
    requires 0 <= s.nodes[i] < |cands| && cand in cands[s.nodes[i]]
    ensures forall f :: f in NodePairMoves(inst, s, i, cand) ==>
              0 <= f.arg1 < |s.nodes| && ExchangeIntroducesCandidate(cands, s.nodes, f.arg1, f.arg2)
  {
    var n := |s.nodes|;
    SuccPredMod(i, n);
    assert CandidateEdge(cands, s.nodes[i], cand) && CandidateEdge(cands, cand, s.nodes[i]);
  }

  lemma {:induction false} NodeRowIntroduces(inst: Instance, s: Solution, cands: seq<seq<int>>, i: int, row: seq<int>)
    requires s.Valid() && 0 <= i < |s.nodes|
    requires 0 <= s.nodes[i] < |cands| && forall v :: v in row ==> v in cands[s.nodes[i]]
    ensures forall f :: f in NodeRowMoves(inst, s, i, row) ==>
              0 <= f.arg1 < |s.nodes| && ExchangeIntroducesCandidate(cands, s.nodes, f.arg1, f.arg2)
    decreases |row|
  {
    if |row| > 0 {
      NodePairIntroduces(inst, s, cands, i, row[0]);
      NodeRowIntroduces(inst, s, cands, i, row[1..]);
    }
  }

  /** Reading the list of the node at each scanned position, every replacement puts the candidate next to that node. */
  lemma {:induction false} ByNodeNodeMovesIntroduce(inst: Instance, s: Solution, cands: seq<seq<int>>, iter1: seq<int>)
    requires s.Valid() && InRange(s.nodes, |cands|)
    requires forall p :: p in iter1 ==> 0 <= p < |s.nodes|
    ensures forall f :: f in NodeMoves(inst, s, cands, ByNode, iter1) ==>
              0 <= f.arg1 < |s.nodes| && ExchangeIntroducesCandidate(cands, s.nodes, f.arg1, f.arg2)
    decreases |iter1|
  {
    if |iter1| > 0 {
      assert iter1[0] in iter1 && forall p :: p in iter1[1..] ==> p in iter1;
      NodeRowIntroduces(inst, s, cands, iter1[0], RowAt(s, cands, ByNode, iter1[0]));
      ByNodeNodeMovesIntroduce(inst, s, cands, iter1[1..]);
    }
  }

  /** Four nodes in the tour 1, 2, 3, 0, each with a one-entry list, and the lookup of that tour. */
  function SmallTour(): Solution
  {
    Solution([1, 2, 3, 0], 4, {0, 1, 2, 3})
  }

  function SmallLists(): seq<seq<int>>
  {
    [[3], [0], [1], [2]]
  }

  function SmallLookup(): map<int, int>
  {
    map[1 := 0, 2 := 1, 3 := 2, 0 := 3]
  }

  /**
   * As written, position 0 reads node 0's list [3] although it holds node
   * 1. The edge search then evaluates the 2-opt move (0, 2), which adds the
   * edges 1-3 and 2-0, and neither is a candidate edge of any list.
   */
  lemma ByPositionScansNonCandidateMove(inst: Instance)
    ensures SmallTour().Valid() && LookupValid(SmallLookup(), SmallTour().nodes)
    ensures var f := Found(CalculateDeltaIntraRouteEdges(inst, SmallTour(), 0, 2), 0, 2);
            && f in EdgeMoves(inst, SmallTour(), SmallLookup(), SmallLists(), ByPosition, [0])
            && !EdgesIntroduceCandidate(SmallLists(), SmallTour().nodes, 0, 2)
  {
    var s := SmallTour();
    assert s.Valid() by {
      assert Elements(s.nodes) == {0, 1, 2, 3} by {
        assert s.nodes[0] == 1 && s.nodes[1] == 2 && s.nodes[2] == 3 && s.nodes[3] == 0;
      }
    }
    var lookup := SmallLookup();
    assert LookupValid(lookup, s.nodes);
    var cands := SmallLists();
    assert RowAt(s, cands, ByPosition, 0) == [3];
    assert GetSolutionIndex(lookup, 3) == 2;
    IndexHelpers(s, 0);
    IndexHelpers(s, 2);
    var f := Found(CalculateDeltaIntraRouteEdges(inst, s, 0, 2), 0, 2);
    assert EdgePairMoves(inst, s, lookup, 0, 3) == [f];
    assert EdgeRowMoves(inst, s, lookup, 0, [3]) == [f] + EdgeRowMoves(inst, s, lookup, 0, []);
    assert EdgeMoves(inst, s, lookup, cands, ByPosition, [0]) == [f] + EdgeMoves(inst, s, lookup, cands, ByPosition, []);
    assert !CandidateEdge(cands, 1, 3) && !CandidateEdge(cands, 2, 0);
  }

  // ---------------------------------------------------------------------
  // Applying a move and the search loop
  // ---------------------------------------------------------------------

  /** `apply_move`: "inter_nodes" replaces and updates one entry, "intra_edges" reverses and remaps the segment; any other string does nothing. */
  method ApplyCandidateMove(s: Solution, lookup: map<int, int>, moveType: string, arg1: int, arg2: int)
    returns (s': Solution, lookup': map<int, int>)
    requires s.Valid()
    requires moveType == "inter_nodes" ==> 0 <= arg1 < |s.nodes|
    requires moveType == "intra_edges" ==> -1 <= arg1 && arg2 < |s.nodes|
    ensures moveType == "inter_nodes" ==> s' == ExchangeNodeAtIndex(s, arg1, arg2)
    ensures moveType == "intra_edges" ==> s' == ExchangeTwoEdges(s, arg1, arg2)
    ensures moveType != "inter_nodes" && moveType != "intra_edges" ==> s' == s && lookup' == lookup
    ensures moveType == "inter_nodes" && Distinct(s.nodes) && LookupValid(lookup, s.nodes) && arg2 !in s.nodes
            ==> LookupValid(lookup', s'.nodes)
    ensures moveType == "intra_edges" && Distinct(s.nodes) && LookupValid(lookup, s.nodes) && 0 <= arg1 < arg2
            ==> LookupValid(lookup', s'.nodes)
  {
    if moveType == "inter_nodes" {
      s' := ExchangeNodeAtIndex(s, arg1, arg2);
      lookup' := UpdateNodeLookupInter(lookup, s'.nodes, arg1, arg2);
      if Distinct(s.nodes) && LookupValid(lookup, s.nodes) && arg2 !in s.nodes {
        LookupAfterInter(lookup, s, arg1, arg2);
      }
    } else if moveType == "intra_edges" {
      s' := ExchangeTwoEdges(s, arg1, arg2);
      lookup' := UpdateNodeLookupIntraEdges(lookup, s'.nodes, arg1, arg2);
      if Distinct(s.nodes) && LookupValid(lookup, s.nodes) && 0 <= arg1 < arg2 {
        ExchangeTwoEdgesOrder(s, arg1, arg2);
        DistinctPermutation(s.nodes, s'.nodes);
        LookupAfterEdges(lookup, lookup', s, arg1, arg2);
      }
    } else {
      s', lookup' := s, lookup;
    }
  }

  /** The state the search loop keeps: a duplicate-free in-range tour and a lookup valid for it. */
  ghost predicate SearchState(s: Solution, lookup: map<int, int>, totalNodes: int)
  {
    s.Valid() && Distinct(s.nodes) && InRange(s.nodes, totalNodes) && LookupValid(lookup, s.nodes)
  }

  /** Neither search lists a negative evaluation. */
  ghost predicate CandidatesExhausted(inst: Instance, s: Solution, lookup: map<int, int>, cands: seq<seq<int>>, mode: RowIndex, iter1: seq<int>)
    requires s.Valid() && LookupValid(lookup, s.nodes)
    requires forall p :: p in iter1 ==> 0 <= p < |s.nodes|
  {
    && (forall f :: f in EdgeMoves(inst, s, lookup, cands, mode, iter1) ==> f.delta >= 0)
    && (forall f :: f in NodeMoves(inst, s, cands, mode, iter1) ==> f.delta >= 0)
  }

  /**
   * One pass of `run_candidates`: the best edge move, then a strictly
   * better node move if any; stop when nothing is negative, otherwise apply
   * the move and add its evaluation to the running objective.
   */
  method CandidatesRound(inst: Instance, s: Solution, evaluation: int, lookup: map<int, int>, cands: seq<seq<int>>,
                         mode: RowIndex, iter1: seq<int>, totalNodes: int)
    returns (s': Solution, evaluation': int, lookup': map<int, int>, improved: bool)
    requires inst.Symmetric() && inst.ZeroDiagonal() && inst.NonNegative()
    requires SearchState(s, lookup, totalNodes) && ListsInRange(cands, totalNodes)
    requires forall p :: p in iter1 ==> 0 <= p < |s.nodes|
    ensures SearchState(s', lookup', totalNodes) && |s'.nodes| == |s.nodes|
    ensures improved ==> && TourCost(inst, s'.nodes) - TourCost(inst, s.nodes) <= evaluation' - evaluation < 0
                         && (|s.nodes| != 1 ==> TourCost(inst, s'.nodes) - TourCost(inst, s.nodes) == evaluation' - evaluation)
    ensures !improved ==> s' == s && evaluation' == evaluation && lookup' == lookup
                          && CandidatesExhausted(inst, s, lookup, cands, mode, iter1)
  {
    var current := 0;
    var arg1, arg2 := -1, -1;
    var moveType := "";
    var edges := PickBest(EdgeMoves(inst, s, lookup, cands, mode, iter1));
    if edges.delta < current {
      arg1, arg2, moveType, current := edges.arg1, edges.arg2, "intra_edges", edges.delta;
    }
    var nodes := PickBest(NodeMoves(inst, s, cands, mode, iter1));
    if nodes.delta < current {
      arg1, arg2, moveType, current := nodes.arg1, nodes.arg2, "inter_nodes", nodes.delta;
    }
    if current >= 0 {
      return s, evaluation, lookup, false;
    }
    if moveType == "inter_nodes" {
      NodeMovesOk(inst, s, cands, mode, iter1, totalNodes);
      assert NodeMoveOk(inst, s, nodes, totalNodes);
      s', lookup' := ApplyImproving(inst, s, lookup, Inter, nodes, totalNodes);
    } else {
      EdgeMovesOk(inst, s, lookup, cands, mode, iter1);
      assert EdgeMoveOk(inst, s, edges);
      s', lookup' := ApplyImproving(inst, s, lookup, IntraEdges, edges, totalNodes);
    }
    evaluation' := evaluation + current;
    improved := true;
  }

  /** Applying the chosen move: the tour stays a duplicate-free tour with a valid lookup, and its objective moves by the listed evaluation. */
  method ApplyImproving(inst: Instance, s: Solution, lookup: map<int, int>, kind: Kind, f: Found, totalNodes: int)
    returns (s': Solution, lookup': map<int, int>)
    requires inst.Symmetric() && inst.ZeroDiagonal() && inst.NonNegative()
    requires SearchState(s, lookup, totalNodes) && f.delta < 0
    requires (kind == Inter && NodeMoveOk(inst, s, f, totalNodes)) || (kind == IntraEdges && EdgeMoveOk(inst, s, f))
    ensures SearchState(s', lookup', totalNodes) && |s'.nodes| == |s.nodes|
    ensures TourCost(inst, s'.nodes) <= TourCost(inst, s.nodes) + f.delta
    ensures |s.nodes| != 1 ==> TourCost(inst, s'.nodes) == TourCost(inst, s.nodes) + f.delta
  {
    if kind == Inter {
      ImprovingMove(inst, s, Inter, f.arg1, f.arg2, totalNodes);
      assert KindName(Inter) == "inter";
      s', lookup' := ApplyCandidateMove(s, lookup, "inter_nodes", f.arg1, f.arg2);
    } else {
      ImprovingMove(inst, s, IntraEdges, f.arg1, f.arg2, totalNodes);
      assert KindName(IntraEdges) == "intra_edges";
      s', lookup' := ApplyCandidateMove(s, lookup, "intra_edges", f.arg1, f.arg2);
    }
  }

  /**
   * `run_candidates`: passes repeat until neither search finds a negative
   * evaluation. The running objective is the tour's objective (an upper
   * bound on it for a one-node tour), the tour stays a duplicate-free tour
   * of the same size, and the lookup stays valid.
   */
  method RunCandidates(inst: Instance, s0: Solution, evaluation0: int, lookup0: map<int, int>, cands: seq<seq<int>>,
                       mode: RowIndex, iter1: seq<int>, totalNodes: int)
    returns (s: Solution, evaluation: int, lookup: map<int, int>)
    requires inst.Symmetric() && inst.ZeroDiagonal() && inst.NonNegative()
    requires SearchState(s0, lookup0, totalNodes) && ListsInRange(cands, totalNodes)
    requires forall p :: p in iter1 ==> 0 <= p < |s0.nodes|
    requires evaluation0 == TourCost(inst, s0.nodes)
    ensures SearchState(s, lookup, totalNodes) && |s.nodes| == |s0.nodes|
    ensures TourCost(inst, s.nodes) <= evaluation <= evaluation0
    ensures |s0.nodes| != 1 ==> evaluation == TourCost(inst, s.nodes)
    ensures CandidatesExhausted(inst, s, lookup, cands, mode, iter1)
  {
    s, evaluation, lookup := s0, evaluation0, lookup0;
    CostNonNegative(inst, s.nodes);
    var improving := true;
    while improving
      invariant SearchState(s, lookup, totalNodes) && |s.nodes| == |s0.nodes|
      invariant 0 <= TourCost(inst, s.nodes) <= evaluation <= evaluation0
      invariant |s0.nodes| != 1 ==> evaluation == TourCost(inst, s.nodes)
      invariant !improving ==> CandidatesExhausted(inst, s, lookup, cands, mode, iter1)
      decreases if improving then evaluation + 1 else 0
    {
      s, evaluation, lookup, improving := CandidatesRound(inst, s, evaluation, lookup, cands, mode, iter1, totalNodes);
      CostNonNegative(inst, s.nodes);
    }
  }
}
