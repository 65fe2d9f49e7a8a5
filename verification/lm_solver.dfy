/**
 * The C++ list-of-moves solver. Improving moves are stored by the NODES
 * they touch, not by positions, in a min-priority queue of 6-int vectors
 * `[delta, n1, n2, n3, n4, type]`. A popped move is first classified
 * against the current tour: applied when its edges (or its node triple)
 * are still there, set aside for later when a 2-opt move's two edges are
 * there with opposite orientations, and dropped otherwise. Applying a move
 * pushes the improving moves around the touched positions.
 */
module MoveListSolver {
  import opened Tours
  import opened Costs
  import opened Solutions
  import opened LocalSearchSolver

  // ---------------------------------------------------------------------
  // Moves and their encoding
  // ---------------------------------------------------------------------

  /**
   * Type 0 (2-opt): edges n1-n2 and n3-n4 are replaced by n1-n3 and n2-n4.
   * Type 1 (replacement): n2, between n1 and n3, is replaced by n4.
   */
  datatype LMove = LMove(delta: int, n1: int, n2: int, n3: int, n4: int, moveType: int)

  function Encode(m: LMove): (v: seq<int>)
    ensures |v| == 6 && v[0] == m.delta && v[5] == m.moveType
  {
    [m.delta, m.n1, m.n2, m.n3, m.n4, m.moveType]
  }

  function Decode(v: seq<int>): (r: Option<LMove>)
    ensures r.Some? <==> |v| == 6
  {
    if |v| != 6 then None else Some(LMove(v[0], v[1], v[2], v[3], v[4], v[5]))
  }

  /** The vector form loses nothing, and every 6-int vector is a move's form. */
  lemma EncodeDecode(m: LMove, v: seq<int>)
    ensures Decode(Encode(m)) == Some(m)
    ensures |v| == 6 ==> Encode(Decode(v).value) == v
  {
  }

  /**
   * The evaluation a move records, as a function of its nodes only: the
   * 2-opt formula for type 0, the replacement formula otherwise.
   */
  function MoveValue(inst: Instance, m: LMove): int
  {
    if m.moveType == 0 then
      - inst.D(m.n1, m.n2) - inst.D(m.n3, m.n4) + inst.D(m.n1, m.n3) + inst.D(m.n2, m.n4)
    else
      inst.C(m.n4) - inst.C(m.n2) - inst.D(m.n1, m.n2) - inst.D(m.n2, m.n3) + inst.D(m.n1, m.n4) + inst.D(m.n4, m.n3)
  }

  /**
   * What every queued move satisfies: it improves, its recorded value is
   * its nodes' value, a 2-opt move touches four different nodes, and the
   * new node of a replacement is a node id of the instance.
   */
  ghost predicate Sound(inst: Instance, m: LMove, totalNodes: int)
  {
    && m.delta < 0 && m.delta == MoveValue(inst, m)
    && (m.moveType == 0 ==> m.n1 != m.n2 && m.n1 != m.n3 && m.n1 != m.n4 && m.n2 != m.n3 && m.n2 != m.n4 && m.n3 != m.n4)
    && 0 <= m.n4 < totalNodes
  }

  ghost predicate AllSound(inst: Instance, q: seq<LMove>, totalNodes: int)
  {
    forall m :: m in q ==> Sound(inst, m, totalNodes)
  }

  // ---------------------------------------------------------------------
  // The priority queue
  // ---------------------------------------------------------------------

  /** `std::vector` comparison: lexicographic, a proper prefix first. */
  predicate LexLeq(a: seq<int>, b: seq<int>)
    decreases |a|
  {
    if |a| == 0 then true
    else if |b| == 0 then false
    else if a[0] != b[0] then a[0] < b[0]
    else LexLeq(a[1..], b[1..])
  }

  lemma {:induction false} LexTotal(a: seq<int>, b: seq<int>)
    ensures LexLeq(a, b) || LexLeq(b, a)
    decreases |a|
  {
    if |a| > 0 && |b| > 0 && a[0] == b[0] {
      LexTotal(a[1..], b[1..]);
    }
  }

  lemma {:induction false} LexTrans(a: seq<int>, b: seq<int>, c: seq<int>)
    requires LexLeq(a, b) && LexLeq(b, c)
    ensures LexLeq(a, c)
    decreases |a|
  {
    if |a| > 0 && |b| > 0 && |c| > 0 && a[0] == b[0] && b[0] == c[0] {
      LexTrans(a[1..], b[1..], c[1..]);
    }
  }

  /** The position of a lexicographically smallest move (the last one on ties between equal vectors). */
  function MinIndex(q: seq<LMove>): (k: nat)
    requires |q| > 0
    ensures k < |q| && forall j :: 0 <= j < |q| ==> LexLeq(Encode(q[k]), Encode(q[j]))
    decreases |q|
  {
    if |q| == 1 then
      LexTotal(Encode(q[0]), Encode(q[0]));
      0
    else
      var k' := MinIndex(q[..|q| - 1]);
      assert forall j :: 0 <= j < |q| - 1 ==> q[..|q| - 1][j] == q[j];
      var last := |q| - 1;
      if LexLeq(Encode(q[k']), Encode(q[last])) then k'
      else
        LexTotal(Encode(q[k']), Encode(q[last]));
        forall j | 0 <= j < |q|
          ensures LexLeq(Encode(q[last]), Encode(q[j]))
        {
          if j < last {
            LexTrans(Encode(q[last]), Encode(q[k']), Encode(q[j]));
          } else {
            LexTotal(Encode(q[j]), Encode(q[j]));
          }
        }
        last
  }

  /**
   * `LM.top()` then `LM.pop()` on the queue `std::priority_queue` with
   * `std::greater<>`: a lexicographically smallest move and the rest.
   */
  function PopMin(q: seq<LMove>): (r: (LMove, seq<LMove>))
    requires |q| > 0
    ensures r.0 in q && |r.1| == |q| - 1 && multiset(r.1) + multiset{r.0} == multiset(q)
    ensures forall m :: m in q ==> LexLeq(Encode(r.0), Encode(m))
  {
    var k := MinIndex(q);
    assert q == q[..k] + [q[k]] + q[k + 1..];
    (q[k], q[..k] + q[k + 1..])
  }

  /** The delta comes first in the vector, so the popped move has the smallest delta in the queue. */
  lemma PopMinSmallestDelta(q: seq<LMove>)
    requires |q| > 0
    ensures forall m :: m in q ==> PopMin(q).0.delta <= m.delta
  {
    forall m | m in q
      ensures PopMin(q).0.delta <= m.delta
    {
      var a, b := Encode(PopMin(q).0), Encode(m);
      assert LexLeq(a, b);
      assert a[0] == PopMin(q).0.delta && b[0] == m.delta;
    }
  }

  // ---------------------------------------------------------------------
  // Generating improving moves
  // ---------------------------------------------------------------------

  /** `add_improving_edge_exchanges(edgeIdx)` over the second indices below `k`, in push order. */
  function EdgeExchanges(inst: Instance, s: Solution, edgeIdx: int, k: int): seq<LMove>
    requires s.Valid() && 0 <= edgeIdx < |s.nodes| && k <= |s.nodes|
    decreases k
  {
    if k <= 0 then []
    else
      var e2 := k - 1;
      var earlier := EdgeExchanges(inst, s, edgeIdx, k - 1);
      if edgeIdx - e2 > 1 || e2 - edgeIdx > 1 then
        var delta := CalculateDeltaIntraRouteEdges(inst, s, edgeIdx, e2);
        if delta < 0 then
          earlier + [LMove(delta, GetNodeAtIndex(s, edgeIdx), GetNodeAtIndex(s, GetNextNodeIndex(s, edgeIdx)),
                           GetNodeAtIndex(s, e2), GetNodeAtIndex(s, GetNextNodeIndex(s, e2)), 0)]
        else earlier
      else earlier
  }

  /** `add_improving_node_exchanges(nodeIdx)`: one move per outside node of the scan whose replacement improves. */
  function NodeExchanges(inst: Instance, s: Solution, nodeIdx: int, iterLong: seq<int>): seq<LMove>
    requires s.Valid() && 0 <= nodeIdx < |s.nodes|
    decreases |iterLong|
  {
    if |iterLong| == 0 then []
    else
      var node := iterLong[0];
      var rest := NodeExchanges(inst, s, nodeIdx, iterLong[1..]);
      if !Contains(s, node) && CalculateDeltaInterRoute(inst, s, nodeIdx, node) < 0 then
        [LMove(CalculateDeltaInterRoute(inst, s, nodeIdx, node),
               GetNodeAtIndex(s, GetPrevNodeIndex(s, nodeIdx)), GetNodeAtIndex(s, nodeIdx),
               GetNodeAtIndex(s, GetNextNodeIndex(s, nodeIdx)), node, 1)] + rest
      else rest
  }

  /**
   * A 2-opt move at two edge indices more than one apart that improves
   * touches four different nodes: on a symmetric matrix the two wrapped
   * pairs (first and last edge) evaluate to 0.
   */
  lemma EdgeMoveSound(inst: Instance, s: Solution, e: int, e2: int, totalNodes: int)
    requires inst.Symmetric() && s.Valid() && Distinct(s.nodes) && InRange(s.nodes, totalNodes)
    requires 0 <= e < |s.nodes| && 0 <= e2 < |s.nodes| && (e - e2 > 1 || e2 - e > 1)
    requires CalculateDeltaIntraRouteEdges(inst, s, e, e2) < 0
    ensures Sound(inst, LMove(CalculateDeltaIntraRouteEdges(inst, s, e, e2), GetNodeAtIndex(s, e),
                              GetNodeAtIndex(s, GetNextNodeIndex(s, e)), GetNodeAtIndex(s, e2),
                              GetNodeAtIndex(s, GetNextNodeIndex(s, e2)), 0), totalNodes)
  {
    var t, n := s.nodes, |s.nodes|;
    IndexHelpers(s, e);
    IndexHelpers(s, e2);
    var a, a' := t[e], t[Succ(e, n)];
    var b, b' := t[e2], t[Succ(e2, n)];
    // The wrapped pairs are neighbouring edges, whose 2-opt value is 0 on a symmetric matrix.
    assert Succ(e, n) == e2 ==> a' == b;
    assert Succ(e2, n) == e ==> b' == a && inst.D(a, b) == inst.D(b, a) && inst.D(a', b') == inst.D(b', a');
    assert Succ(e, n) != e2 && Succ(e2, n) != e;
    assert Succ(e, n) != Succ(e2, n);
  }

  lemma {:induction false} EdgeExchangesSound(inst: Instance, s: Solution, edgeIdx: int, k: int, totalNodes: int)
    requires inst.Symmetric() && s.Valid() && Distinct(s.nodes) && InRange(s.nodes, totalNodes)
    requires 0 <= edgeIdx < |s.nodes| && k <= |s.nodes|
    ensures AllSound(inst, EdgeExchanges(inst, s, edgeIdx, k), totalNodes)
    decreases k
  {
    if k > 0 {
      EdgeExchangesSound(inst, s, edgeIdx, k - 1, totalNodes);
      var e2 := k - 1;
      var earlier := EdgeExchanges(inst, s, edgeIdx, k - 1);
      if (edgeIdx - e2 > 1 || e2 - edgeIdx > 1) && CalculateDeltaIntraRouteEdges(inst, s, edgeIdx, e2) < 0 {
        EdgeMoveSound(inst, s, edgeIdx, e2, totalNodes);
        var m := LMove(CalculateDeltaIntraRouteEdges(inst, s, edgeIdx, e2), GetNodeAtIndex(s, edgeIdx),
                       GetNodeAtIndex(s, GetNextNodeIndex(s, edgeIdx)), GetNodeAtIndex(s, e2),
                       GetNodeAtIndex(s, GetNextNodeIndex(s, e2)), 0);
        assert EdgeExchanges(inst, s, edgeIdx, k) == earlier + [m];
      } else {
        assert EdgeExchanges(inst, s, edgeIdx, k) == earlier;
      }
    }
  }

  lemma {:induction false} NodeExchangesSound(inst: Instance, s: Solution, nodeIdx: int, iterLong: seq<int>, totalNodes: int)
    requires s.Valid() && 0 <= nodeIdx < |s.nodes| && InRange(iterLong, totalNodes)
    ensures AllSound(inst, NodeExchanges(inst, s, nodeIdx, iterLong), totalNodes)
    decreases |iterLong|
  {
    if |iterLong| > 0 {
      NodeExchangesSound(inst, s, nodeIdx, iterLong[1..], totalNodes);
      IndexHelpers(s, nodeIdx);
    }
  }

  /**
   * The scans push exactly the improving moves: a 2-opt pair more than one
   * index apart with a negative evaluation is pushed with the four nodes of
   * its edges, and only such pairs are.
   */
  lemma {:induction false} EdgeExchangesComplete(inst: Instance, s: Solution, edgeIdx: int, k: int)
    requires s.Valid() && 0 <= edgeIdx < |s.nodes| && k <= |s.nodes|
    ensures forall e2 :: 0 <= e2 < k && (edgeIdx - e2 > 1 || e2 - edgeIdx > 1) && CalculateDeltaIntraRouteEdges(inst, s, edgeIdx, e2) < 0
              ==> LMove(CalculateDeltaIntraRouteEdges(inst, s, edgeIdx, e2), s.nodes[edgeIdx], s.nodes[Succ(edgeIdx, |s.nodes|)],
                        s.nodes[e2], s.nodes[Succ(e2, |s.nodes|)], 0) in EdgeExchanges(inst, s, edgeIdx, k)
    ensures forall m :: m in EdgeExchanges(inst, s, edgeIdx, k) ==> m.moveType == 0 && m.delta < 0
    decreases k
  {
    if k > 0 {
      EdgeExchangesComplete(inst, s, edgeIdx, k - 1);
      IndexHelpers(s, edgeIdx);
      IndexHelpers(s, k - 1);
    }
  }

  /** ... and an outside node of the scan whose replacement improves is pushed with its triple, and only such nodes are. */
  lemma {:induction false} NodeExchangesComplete(inst: Instance, s: Solution, nodeIdx: int, iterLong: seq<int>)
    requires s.Valid() && 0 <= nodeIdx < |s.nodes|
    ensures forall v :: v in iterLong && v !in s.nodes && CalculateDeltaInterRoute(inst, s, nodeIdx, v) < 0
              ==> var t, n := s.nodes, |s.nodes|;
                  LMove(CalculateDeltaInterRoute(inst, s, nodeIdx, v), t[Pred(nodeIdx, n)], t[nodeIdx], t[Succ(nodeIdx, n)], v, 1)
                    in NodeExchanges(inst, s, nodeIdx, iterLong)
    ensures forall m :: m in NodeExchanges(inst, s, nodeIdx, iterLong) ==> m.moveType == 1 && m.delta < 0 && m.n4 in iterLong && m.n4 !in s.nodes
    decreases |iterLong|
  {
    if |iterLong| > 0 {
      NodeExchangesComplete(inst, s, nodeIdx, iterLong[1..]);
      IndexHelpers(s, nodeIdx);
      assert forall v :: v in iterLong <==> v == iterLong[0] || v in iterLong[1..];
    }
  }

  // ---------------------------------------------------------------------
  // Classifying a popped move
  // ---------------------------------------------------------------------

  /** `find_node_idx`: the first position holding `v`, -1 when there is none. */
  function FindNodeIdx(nodes: seq<int>, v: int): (r: int)
    ensures -1 <= r < |nodes|
    ensures r == -1 <==> v !in nodes
    ensures r >= 0 ==> nodes[r] == v && forall k :: 0 <= k < r ==> nodes[k] != v
    decreases |nodes|
  {
    if |nodes| == 0 then -1
    else if nodes[0] == v then 0
    else
      var r := FindNodeIdx(nodes[1..], v);
      assert forall k :: 1 <= k < |nodes| ==> nodes[k] == nodes[1..][k - 1];
      if r == -1 then -1 else r + 1
  }

  /** The outcome of `is_applicable`: the result, the `keep` flag and the two indices (-1 when not applicable). */
  datatype Applicability = Applicability(applicable: bool, keep: bool, arg1: int, arg2: int)

  /** `is_applicable`. */
  function IsApplicable(s: Solution, m: LMove): (r: Applicability)
    requires s.Valid()
    ensures r.applicable ==> 0 <= r.arg1 < |s.nodes| && 0 <= r.arg2 < |s.nodes| && !r.keep
    ensures !r.applicable ==> r.arg1 == -1 && r.arg2 == -1
    ensures m.moveType != 0 ==> !r.keep
  {
    var n := |s.nodes|;
    var idx1 := FindNodeIdx(s.nodes, m.n1);
    if m.moveType == 0 then
      if !Contains(s, m.n1) || !Contains(s, m.n2) || !Contains(s, m.n3) || !Contains(s, m.n4) then Applicability(false, false, -1, -1)
      else
        var idx1n, idx1p := GetNextNodeIndex(s, idx1), GetPrevNodeIndex(s, idx1);
        if GetNodeAtIndex(s, idx1n) != m.n2 && GetNodeAtIndex(s, idx1p) != m.n2 then Applicability(false, false, -1, -1)
        else
          var idx3 := FindNodeIdx(s.nodes, m.n3);
          var idx3n, idx3p := GetNextNodeIndex(s, idx3), GetPrevNodeIndex(s, idx3);
          IndexHelpers(s, idx1);
          IndexHelpers(s, idx3);
          if GetNodeAtIndex(s, idx3n) != m.n4 && GetNodeAtIndex(s, idx3p) != m.n4 then Applicability(false, false, -1, -1)
          else if GetNodeAtIndex(s, idx3n) == m.n4 && GetNodeAtIndex(s, idx1n) == m.n2 then Applicability(true, false, idx1, idx3)
          else if GetNodeAtIndex(s, idx3p) == m.n4 && GetNodeAtIndex(s, idx1p) == m.n2 then Applicability(true, false, idx1p, idx3p)
          else Applicability(false, true, -1, -1)
    else
      if !Contains(s, m.n1) || !Contains(s, m.n2) || !Contains(s, m.n3) || Contains(s, m.n4) then Applicability(false, false, -1, -1)
      else
        IndexHelpers(s, idx1);
        var idx1n := GetNextNodeIndex(s, idx1);
        IndexHelpers(s, idx1n);
        var idx1nn := GetNextNodeIndex(s, idx1n);
        if GetNodeAtIndex(s, idx1n) == m.n2 && GetNodeAtIndex(s, idx1nn) == m.n3 then Applicability(true, false, idx1, idx1n)
        else
          var idx1p := GetPrevNodeIndex(s, idx1);
          IndexHelpers(s, idx1p);
          var idx1pp := GetPrevNodeIndex(s, idx1p);
          if GetNodeAtIndex(s, idx1p) == m.n2 && GetNodeAtIndex(s, idx1pp) == m.n3 then Applicability(true, false, idx1pp, idx1p)
          else Applicability(false, false, -1, -1)
  }

  /** The tour node after / before a tour node. */
  function NextNode(t: seq<int>, v: int): int
    requires v in t
  {
    t[Succ(FindNodeIdx(t, v), |t|)]
  }

  function PrevNode(t: seq<int>, v: int): int
    requires v in t
  {
    t[Pred(FindNodeIdx(t, v), |t|)]
  }

  /** A 2-opt move's two edges with their orientation in the current tour. */
  predicate EdgesForward(t: seq<int>, m: LMove)
    requires m.n1 in t && m.n3 in t
  {
    NextNode(t, m.n1) == m.n2 && NextNode(t, m.n3) == m.n4
  }

  predicate EdgesBackward(t: seq<int>, m: LMove)
    requires m.n1 in t && m.n3 in t
  {
    PrevNode(t, m.n1) == m.n2 && PrevNode(t, m.n3) == m.n4
  }

  predicate EdgePresent(t: seq<int>, a: int, b: int)
    requires a in t
  {
    NextNode(t, a) == b || PrevNode(t, a) == b
  }

  /** The four neighbours `is_applicable` reads, in terms of the tour. */
  lemma Neighbours(s: Solution, v: int)
    requires s.Valid() && v in s.nodes
    ensures var i, n := FindNodeIdx(s.nodes, v), |s.nodes|;
            && GetNodeAtIndex(s, GetNextNodeIndex(s, i)) == NextNode(s.nodes, v)
            && GetNodeAtIndex(s, GetPrevNodeIndex(s, i)) == PrevNode(s.nodes, v)
            && GetNextNodeIndex(s, i) == Succ(i, n) && GetPrevNodeIndex(s, i) == Pred(i, n)
  {
    var i := FindNodeIdx(s.nodes, v);
    IndexHelpers(s, i);
    IndexHelpers(s, Succ(i, |s.nodes|));
    IndexHelpers(s, Pred(i, |s.nodes|));
  }

  /**
   * A 2-opt move is applied exactly when all four nodes are in the tour and
   * both edges run the same way, and kept for later exactly when both edges
   * are there but run opposite ways.
   */
  lemma EdgeMoveClassified(s: Solution, m: LMove)
    requires s.Valid() && m.moveType == 0
    ensures var r := IsApplicable(s, m);
            var t := s.nodes;
            var present := m.n1 in t && m.n2 in t && m.n3 in t && m.n4 in t;
            && (r.applicable <==> present && (EdgesForward(t, m) || EdgesBackward(t, m)))
            && (r.keep <==> present && EdgePresent(t, m.n1, m.n2) && EdgePresent(t, m.n3, m.n4)
                            && !EdgesForward(t, m) && !EdgesBackward(t, m))
  {
    var t := s.nodes;
    if m.n1 in t && m.n2 in t && m.n3 in t && m.n4 in t {
      Neighbours(s, m.n1);
      Neighbours(s, m.n3);
    }
  }

  /**
   * An applied 2-opt move's indices name the two recorded edges (in either
   * orientation), so on a symmetric matrix the 2-opt formula there is the
   * recorded value.
   */
  lemma EdgeMoveApplied(inst: Instance, s: Solution, m: LMove)
    requires s.Valid() && m.moveType == 0 && IsApplicable(s, m).applicable
    ensures var r, t := IsApplicable(s, m), s.nodes;
            && {t[r.arg1], t[Succ(r.arg1, |t|)]} == {m.n1, m.n2}
            && {t[r.arg2], t[Succ(r.arg2, |t|)]} == {m.n3, m.n4}
            && (inst.Symmetric() ==> CalculateDeltaIntraRouteEdges(inst, s, r.arg1, r.arg2) == MoveValue(inst, m))
  {
    var t, n := s.nodes, |s.nodes|;
    var r := IsApplicable(s, m);
    EdgeMoveEnds(s, m);
    if inst.Symmetric() && t[r.arg1] == m.n2 {
      assert inst.D(m.n2, m.n1) == inst.D(m.n1, m.n2) && inst.D(m.n4, m.n3) == inst.D(m.n3, m.n4);
      assert inst.D(m.n2, m.n4) == inst.D(m.n4, m.n2) && inst.D(m.n1, m.n3) == inst.D(m.n3, m.n1);
    }
  }

  /** An applied 2-opt move's indices hold the recorded edges, both in the recorded orientation or both reversed. */
  lemma EdgeMoveEnds(s: Solution, m: LMove)
    requires s.Valid() && m.moveType == 0 && IsApplicable(s, m).applicable
    ensures var r, t := IsApplicable(s, m), s.nodes;
            && 0 <= r.arg1 < |t| && 0 <= r.arg2 < |t|
            && ((t[r.arg1] == m.n1 && t[Succ(r.arg1, |t|)] == m.n2 && t[r.arg2] == m.n3 && t[Succ(r.arg2, |t|)] == m.n4)
                || (t[r.arg1] == m.n2 && t[Succ(r.arg1, |t|)] == m.n1 && t[r.arg2] == m.n4 && t[Succ(r.arg2, |t|)] == m.n3))
  {
    var t, n := s.nodes, |s.nodes|;
    var r := IsApplicable(s, m);
    Neighbours(s, m.n1);
    Neighbours(s, m.n3);
    var idx1, idx3 := FindNodeIdx(t, m.n1), FindNodeIdx(t, m.n3);
    SuccPredMod(idx1, n);
    SuccPredMod(idx3, n);
    if r.arg1 == idx1 {
      assert t[Succ(r.arg1, n)] == m.n2 && t[Succ(r.arg2, n)] == m.n4;
    } else {
      assert t[r.arg1] == m.n2 && t[Succ(r.arg1, n)] == m.n1;
      assert t[r.arg2] == m.n4 && t[Succ(r.arg2, n)] == m.n3;
    }
  }

  /** In a tour without repeats, the node after (before) n1 sits one step after (before) it. */
  lemma NodeNeighbourIndex(s: Solution, v: int, w: int)
    requires s.Valid() && Distinct(s.nodes) && v in s.nodes && w in s.nodes
    ensures var t, i := s.nodes, FindNodeIdx(s.nodes, v);
            && (NextNode(t, v) == w ==> FindNodeIdx(t, w) == Succ(i, |t|))
            && (PrevNode(t, v) == w ==> FindNodeIdx(t, w) == Pred(i, |t|))
  {
  }

  /** The first half of the replacement classification: the test `is_applicable` makes. */
  predicate NodeMoveShape(t: seq<int>, m: LMove)
  {
    && m.n1 in t && m.n2 in t && m.n3 in t && m.n4 !in t
    && ((NextNode(t, m.n1) == m.n2 && NextNode(t, m.n2) == m.n3)
        || (PrevNode(t, m.n1) == m.n2 && PrevNode(t, m.n2) == m.n3))
  }

  lemma NodeMoveApplicableIf(s: Solution, m: LMove)
    requires s.Valid() && Distinct(s.nodes) && m.moveType != 0
    requires NodeMoveShape(s.nodes, m)
    ensures IsApplicable(s, m).applicable
  {
    var t, n := s.nodes, |s.nodes|;
    Neighbours(s, m.n1);
    Neighbours(s, m.n2);
    NodeNeighbourIndex(s, m.n1, m.n2);
    var idx1 := FindNodeIdx(t, m.n1);
    IndexHelpers(s, Succ(idx1, n));
    IndexHelpers(s, Pred(idx1, n));
  }

  lemma NodeMoveApplicableOnlyIf(s: Solution, m: LMove)
    requires s.Valid() && Distinct(s.nodes) && m.moveType != 0
    requires IsApplicable(s, m).applicable
    ensures NodeMoveShape(s.nodes, m)
  {
    var t, n := s.nodes, |s.nodes|;
    Neighbours(s, m.n1);
    Neighbours(s, m.n2);
    NodeNeighbourIndex(s, m.n1, m.n2);
    var idx1 := FindNodeIdx(t, m.n1);
    IndexHelpers(s, Succ(idx1, n));
    IndexHelpers(s, Pred(idx1, n));
  }

  /**
   * A replacement is applied exactly when n1, n2, n3 are in the tour, n4 is
   * not, and n1, n2, n3 are consecutive one way or the other; it is never
   * kept.
   */
  lemma NodeMoveClassified(s: Solution, m: LMove)
    requires s.Valid() && Distinct(s.nodes) && m.moveType != 0
    ensures !IsApplicable(s, m).keep
    ensures IsApplicable(s, m).applicable <==> NodeMoveShape(s.nodes, m)
  {
    if IsApplicable(s, m).applicable {
      NodeMoveApplicableOnlyIf(s, m);
    }
    if NodeMoveShape(s.nodes, m) {
      NodeMoveApplicableIf(s, m);
    }
  }

  /**
   * An applied replacement's second index holds n2 between n1 and n3, so on
   * a symmetric matrix the replacement formula there is the recorded value.
   */
  lemma NodeMoveApplied(inst: Instance, s: Solution, m: LMove)
    requires s.Valid() && m.moveType != 0 && IsApplicable(s, m).applicable
    ensures var r, t := IsApplicable(s, m), s.nodes;
            && t[r.arg2] == m.n2 && {t[Pred(r.arg2, |t|)], t[Succ(r.arg2, |t|)]} == {m.n1, m.n3}
            && m.n4 !in t
            && (inst.Symmetric() ==> CalculateDeltaInterRoute(inst, s, r.arg2, m.n4) == MoveValue(inst, m))
  {
    var t, n := s.nodes, |s.nodes|;
    var r := IsApplicable(s, m);
    Neighbours(s, m.n1);
    var idx1 := FindNodeIdx(t, m.n1);
    var idx1n, idx1p := Succ(idx1, n), Pred(idx1, n);
    IndexHelpers(s, idx1n);
    IndexHelpers(s, idx1p);
    SuccPredMod(idx1, n);
    SuccPredMod(idx1n, n);
    SuccPredMod(idx1p, n);
    if r.arg2 == idx1n {
      assert t[Pred(r.arg2, n)] == m.n1 && t[Succ(r.arg2, n)] == m.n3;
    } else {
      assert r.arg2 == idx1p;
      assert t[Pred(r.arg2, n)] == m.n3 && t[Succ(r.arg2, n)] == m.n1;
      if inst.Symmetric() {
        assert inst.D(m.n3, m.n2) == inst.D(m.n2, m.n3) && inst.D(m.n2, m.n1) == inst.D(m.n1, m.n2);
        assert inst.D(m.n3, m.n4) == inst.D(m.n4, m.n3) && inst.D(m.n4, m.n1) == inst.D(m.n1, m.n4);
      }
    }
  }

  /** Two equal edges of a tour without repeats sit at the same index; neighbouring edges share one node. */
  lemma EdgeMoveAllowed(s: Solution, m: LMove)
    requires s.Valid() && Distinct(s.nodes) && m.moveType == 0 && IsApplicable(s, m).applicable
    requires m.n1 != m.n3 && m.n1 != m.n4 && m.n2 != m.n3 && m.n2 != m.n4
    ensures var r := IsApplicable(s, m);
            r.arg1 - r.arg2 > 1 || r.arg2 - r.arg1 > 1
  {
    var r, t, n := IsApplicable(s, m), s.nodes, |s.nodes|;
    EdgeMoveApplied(Instance([], []), s, m);
    assert t[r.arg1] in {m.n1, m.n2} && t[Succ(r.arg1, n)] in {m.n1, m.n2};
    assert t[r.arg2] in {m.n3, m.n4} && t[Succ(r.arg2, n)] in {m.n3, m.n4};
    assert r.arg1 != r.arg2;
    assert Succ(r.arg1, n) != r.arg2 && Succ(r.arg2, n) != r.arg1;
  }

  // ---------------------------------------------------------------------
  // The search state and one step of `run`
  // ---------------------------------------------------------------------

  /** The solver's state: the tour, its running evaluation, the queue and the moves set aside. */
  datatype LMState = LMState(s: Solution, evaluation: int, queue: seq<LMove>, temp: seq<LMove>)

  /**
   * What the search keeps true: a tour without repeats of `n` node ids,
   * whose cost the running evaluation tracks (exactly, except that a
   * one-node tour's closing edge is not counted by the formulas), and only
   * sound moves in the queue and set aside.
   */
  ghost predicate Inv(inst: Instance, st: LMState, n: int, totalNodes: int)
  {
    && st.s.Valid() && Distinct(st.s.nodes) && InRange(st.s.nodes, totalNodes) && |st.s.nodes| == n
    && TourCost(inst, st.s.nodes) <= st.evaluation
    && (n != 1 ==> TourCost(inst, st.s.nodes) == st.evaluation)
    && AllSound(inst, st.queue, totalNodes) && AllSound(inst, st.temp, totalNodes)
  }

  /** The moves `apply_app_move` pushes after changing the tour to `s`. */
  function Pushes(inst: Instance, s: Solution, m: LMove, arg1: int, arg2: int, iterLong: seq<int>): seq<LMove>
    requires s.Valid() && 0 <= arg1 < |s.nodes| && 0 <= arg2 < |s.nodes|
  {
    var n := |s.nodes|;
    if m.moveType == 0 then
      NodeExchanges(inst, s, arg1, iterLong) + NodeExchanges(inst, s, GetNextNodeIndex(s, arg1), iterLong)
      + NodeExchanges(inst, s, arg2, iterLong) + NodeExchanges(inst, s, GetNextNodeIndex(s, arg2), iterLong)
      + EdgeExchanges(inst, s, arg1, n) + EdgeExchanges(inst, s, arg2, n)
    else
      NodeExchanges(inst, s, arg1, iterLong) + NodeExchanges(inst, s, GetNextNodeIndex(s, arg2), iterLong)
      + EdgeExchanges(inst, s, arg1, n) + EdgeExchanges(inst, s, arg2, n)
  }

  /** The tour after `apply_app_move`: 2-opt at the two edge indices, or the replacement at the second index. */
  function AppliedTour(s: Solution, m: LMove, arg1: int, arg2: int): (r: Solution)
    requires s.Valid()
    ensures m.moveType == 0 ==> r == ExchangeTwoEdges(s, arg1, arg2)
    ensures m.moveType != 0 ==> r == ExchangeNodeAtIndex(s, arg2, m.n4)
  {
    if m.moveType == 0 then ApplyMoveNamed(s, KindName(IntraEdges), arg1, arg2)
    else ApplyMoveNamed(s, KindName(Inter), arg2, m.n4)
  }

  /** One iteration of `run`'s loop. */
  function Step(inst: Instance, st: LMState, iterLong: seq<int>): (r: LMState)
    requires st.s.Valid() && |st.queue| > 0
  {
    var (m, rest) := PopMin(st.queue);
    var a := IsApplicable(st.s, m);
    if a.applicable then
      var s' := AppliedTour(st.s, m, a.arg1, a.arg2);
      IntraExchangesValid(st.s, a.arg1, a.arg2);
      var pushed := if s'.Valid() && |s'.nodes| == |st.s.nodes| then Pushes(inst, s', m, a.arg1, a.arg2, iterLong) else [];
      LMState(s', st.evaluation + m.delta, rest + st.temp + pushed, [])
    else if a.keep then LMState(st.s, st.evaluation, rest, st.temp + [m])
    else LMState(st.s, st.evaluation, rest, st.temp)
  }

  /** Everything `Pushes` adds is sound. */
  lemma PushesSound(inst: Instance, s: Solution, m: LMove, arg1: int, arg2: int, iterLong: seq<int>, totalNodes: int)
    requires inst.Symmetric() && s.Valid() && Distinct(s.nodes) && InRange(s.nodes, totalNodes) && InRange(iterLong, totalNodes)
    requires 0 <= arg1 < |s.nodes| && 0 <= arg2 < |s.nodes|
    ensures AllSound(inst, Pushes(inst, s, m, arg1, arg2, iterLong), totalNodes)
  {
    var n := |s.nodes|;
    IndexHelpers(s, arg1);
    IndexHelpers(s, arg2);
    NodeExchangesSound(inst, s, arg1, iterLong, totalNodes);
    NodeExchangesSound(inst, s, arg2, iterLong, totalNodes);
    NodeExchangesSound(inst, s, GetNextNodeIndex(s, arg1), iterLong, totalNodes);
    NodeExchangesSound(inst, s, GetNextNodeIndex(s, arg2), iterLong, totalNodes);
    EdgeExchangesSound(inst, s, arg1, n, totalNodes);
    EdgeExchangesSound(inst, s, arg2, n, totalNodes);
  }

  /**
   * An applicable move is an improving move of the plain local search at
   * its indices: the tour stays a tour and its cost drops by the recorded
   * value.
   */
  lemma AppliedImproves(inst: Instance, s: Solution, m: LMove, totalNodes: int)
    requires inst.Symmetric() && inst.ZeroDiagonal() && inst.NonNegative()
    requires s.Valid() && Distinct(s.nodes) && InRange(s.nodes, totalNodes)
    requires Sound(inst, m, totalNodes) && IsApplicable(s, m).applicable
    ensures var a := IsApplicable(s, m);
            var r := AppliedTour(s, m, a.arg1, a.arg2);
            && r.Valid() && Distinct(r.nodes) && InRange(r.nodes, totalNodes) && |r.nodes| == |s.nodes|
            && TourCost(inst, r.nodes) <= TourCost(inst, s.nodes) + m.delta
            && (|s.nodes| != 1 ==> TourCost(inst, r.nodes) == TourCost(inst, s.nodes) + m.delta)
  {
    var a := IsApplicable(s, m);
    if m.moveType == 0 {
      EdgeMoveApplied(inst, s, m);
      EdgeMoveAllowed(s, m);
      ImprovingMove(inst, s, IntraEdges, a.arg1, a.arg2, totalNodes);
    } else {
      NodeMoveApplied(inst, s, m);
      ImprovingMove(inst, s, Inter, a.arg2, m.n4, totalNodes);
    }
  }

  /**
   * A step keeps the invariant. Its evaluation drops exactly when the popped
   * move is applied; otherwise the popped move is set aside or dropped and
   * no other move is lost.
   */
  lemma StepKeeps(inst: Instance, st: LMState, iterLong: seq<int>, n: int, totalNodes: int)
    requires inst.Symmetric() && inst.ZeroDiagonal() && inst.NonNegative() && InRange(iterLong, totalNodes)
    requires Inv(inst, st, n, totalNodes) && |st.queue| > 0
    ensures var r, m := Step(inst, st, iterLong), PopMin(st.queue).0;
            && Inv(inst, r, n, totalNodes)
            && (IsApplicable(st.s, m).applicable ==> r.evaluation == st.evaluation + m.delta < st.evaluation)
            && (!IsApplicable(st.s, m).applicable ==>
                  && r.s == st.s && r.evaluation == st.evaluation
                  && multiset(r.queue) + multiset(r.temp) + (if IsApplicable(st.s, m).keep then multiset{} else multiset{m})
                     == multiset(st.queue) + multiset(st.temp))
  {
    var (m, rest) := PopMin(st.queue);
    assert Sound(inst, m, totalNodes);
    var a := IsApplicable(st.s, m);
    if a.applicable {
      AppliedImproves(inst, st.s, m, totalNodes);
      var s' := AppliedTour(st.s, m, a.arg1, a.arg2);
      PushesSound(inst, s', m, a.arg1, a.arg2, iterLong, totalNodes);
      assert forall x :: x in rest ==> x in multiset(st.queue);
    } else {
      assert forall x :: x in rest ==> x in multiset(st.queue);
    }
  }

  /**
   * `run`: pop the smallest move, classify it, on an applicable move first
   * return the moves set aside to the queue and then apply it, and set a
   * kept move aside; until the queue is empty or `fuel` steps are taken.
   * The evaluation never rises and tracks the tour's cost throughout.
   */
  method Run(inst: Instance, st0: LMState, iterLong: seq<int>, totalNodes: int, fuel: nat) returns (st: LMState, steps: nat)
    requires inst.Symmetric() && inst.ZeroDiagonal() && inst.NonNegative() && InRange(iterLong, totalNodes)
    requires Inv(inst, st0, |st0.s.nodes|, totalNodes)
    ensures Inv(inst, st, |st0.s.nodes|, totalNodes)
    ensures st.evaluation <= st0.evaluation
    ensures |st.queue| == 0 || steps == fuel
    ensures steps <= fuel
  {
    st, steps := st0, 0;
    while |st.queue| > 0 && steps < fuel
      invariant Inv(inst, st, |st0.s.nodes|, totalNodes)
      invariant st.evaluation <= st0.evaluation && steps <= fuel
      decreases fuel - steps
    {
      StepKeeps(inst, st, iterLong, |st0.s.nodes|, totalNodes);
      st := Step(inst, st, iterLong);
      steps := steps + 1;
    }
  }

  // ---------------------------------------------------------------------
  // The initial queue
  // ---------------------------------------------------------------------

  /** `init_LM_intra_edges`: the edge scan at every index of `iter1`. */
  function InitEdges(inst: Instance, s: Solution, iter1: seq<int>): seq<LMove>
    requires s.Valid() && InRange(iter1, |s.nodes|)
    decreases |iter1|
  {
    if |iter1| == 0 then []
    else EdgeExchanges(inst, s, iter1[0], |s.nodes|) + InitEdges(inst, s, iter1[1..])
  }

  /** `init_LM_inter_nodes`: the node scan at every index of `iter1`. */
  function InitNodes(inst: Instance, s: Solution, iter1: seq<int>, iterLong: seq<int>): seq<LMove>
    requires s.Valid() && InRange(iter1, |s.nodes|)
    decreases |iter1|
  {
    if |iter1| == 0 then []
    else NodeExchanges(inst, s, iter1[0], iterLong) + InitNodes(inst, s, iter1[1..], iterLong)
  }

  /** `reset` on a given starting tour: its cost, both initial scans queued, nothing set aside. */
  function InitLM(inst: Instance, s: Solution, iter1: seq<int>, iterLong: seq<int>): (r: LMState)
    requires s.Valid() && InRange(iter1, |s.nodes|)
    ensures r.s == s && r.temp == []
  {
    LMState(s, TourCost(inst, s.nodes), InitEdges(inst, s, iter1) + InitNodes(inst, s, iter1, iterLong), [])
  }

  lemma {:induction false} InitEdgesSound(inst: Instance, s: Solution, iter1: seq<int>, totalNodes: int)
    requires inst.Symmetric() && s.Valid() && Distinct(s.nodes) && InRange(s.nodes, totalNodes) && InRange(iter1, |s.nodes|)
    ensures AllSound(inst, InitEdges(inst, s, iter1), totalNodes)
    decreases |iter1|
  {
    if |iter1| > 0 {
      EdgeExchangesSound(inst, s, iter1[0], |s.nodes|, totalNodes);
      InitEdgesSound(inst, s, iter1[1..], totalNodes);
    }
  }

  lemma {:induction false} InitNodesSound(inst: Instance, s: Solution, iter1: seq<int>, iterLong: seq<int>, totalNodes: int)
    requires s.Valid() && InRange(iter1, |s.nodes|) && InRange(iterLong, totalNodes)
    ensures AllSound(inst, InitNodes(inst, s, iter1, iterLong), totalNodes)
    decreases |iter1|
  {
    if |iter1| > 0 {
      NodeExchangesSound(inst, s, iter1[0], iterLong, totalNodes);
      InitNodesSound(inst, s, iter1[1..], iterLong, totalNodes);
    }
  }

  /** The initial state satisfies the search invariant, so `Run` may start from it. */
  lemma InitLMInv(inst: Instance, s: Solution, iter1: seq<int>, iterLong: seq<int>, totalNodes: int)
    requires inst.Symmetric() && s.Valid() && Distinct(s.nodes) && InRange(s.nodes, totalNodes)
    requires InRange(iter1, |s.nodes|) && InRange(iterLong, totalNodes)
    ensures Inv(inst, InitLM(inst, s, iter1, iterLong), |s.nodes|, totalNodes)
  {
    InitEdgesSound(inst, s, iter1, totalNodes);
    InitNodesSound(inst, s, iter1, iterLong, totalNodes);
  }
}
