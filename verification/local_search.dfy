/**
 * The C local search over a cyclic tour holding half of the nodes: the
 * incremental move evaluations (two-node exchange, two-edge exchange,
 * exchange with an unselected node), the in-place moves, and the
 * steepest / greedy improvement loop.
 */
module LocalSearch {
  import opened Tours
  import opened Costs
  import opened GreedyUtils

  // ---------------------------------------------------------------------
  // Incremental evaluation of the three moves
  // ---------------------------------------------------------------------

  /**
   * Change in objective from exchanging the nodes at positions `i` and `j`,
   * from the edges around the two positions, exactly as the C code computes
   * it: one formula when `j` directly follows `i`, one when `i` directly
   * follows `j` (cyclically), one otherwise.
   */
  function DeltaTwoNodesExchangeAsWritten(inst: Instance, t: seq<int>, i: int, j: int): int
    requires 0 <= i < |t| && 0 <= j < |t|
  {
    var size := |t|;
    var prevI, nextI := Pred(i, size), Succ(i, size);
    var prevJ, nextJ := Pred(j, size), Succ(j, size);
    var a, b := t[i], t[j];
    if j == nextI then
      - inst.D(t[prevI], a) - inst.D(a, b) - inst.D(b, t[nextJ])
      + inst.D(t[prevI], b) + inst.D(b, a) + inst.D(a, t[nextJ])
    else if i == nextJ then
      - inst.D(t[prevJ], b) - inst.D(b, a) - inst.D(a, t[nextI])
      + inst.D(t[prevJ], a) + inst.D(a, b) + inst.D(b, t[nextI])
    else
      - inst.D(t[prevI], a) - inst.D(a, t[nextI]) - inst.D(t[prevJ], b) - inst.D(b, t[nextJ])
      + inst.D(t[prevI], b) + inst.D(b, t[nextI]) + inst.D(t[prevJ], a) + inst.D(a, t[nextJ])
  }

  /**
   * On a tour of two nodes both positions are each other's neighbours on
   * both sides, and the adjacent-pair formula counts the edge between them
   * three times although exchanging the two nodes changes nothing.
   */
  lemma TwoNodesExchangeOnTwoNodeTour()
    ensures var inst := Instance([[0, 1], [1, 0]], [0, 0]);
            && DeltaTwoNodesExchangeAsWritten(inst, [0, 1], 0, 1) == -2
            && TourCost(inst, Swap([0, 1], 0, 1)) - TourCost(inst, [0, 1]) == 0
  {
    var inst := Instance([[0, 1], [1, 0]], [0, 0]);
    ExchangeOnTwoNodes(inst, [0, 1]);
  }

  /** Two-node exchange evaluation with the two-node tour handled: there the exchange is free. */
  function DeltaTwoNodesExchange(inst: Instance, t: seq<int>, i: int, j: int): int
    requires 0 <= i < |t| && 0 <= j < |t|
  {
    if |t| == 2 then 0 else DeltaTwoNodesExchangeAsWritten(inst, t, i, j)
  }

  /**
   * The C formula agrees with the corrected one except on two-node tours,
   * where on a symmetric zero-diagonal matrix it reports a gain of twice the
   * edge length for exchanging two distinct positions.
   */
  lemma TwoNodesExchangeAgrees(inst: Instance, t: seq<int>, i: int, j: int)
    requires 0 <= i < |t| && 0 <= j < |t|
    ensures |t| != 2 ==> DeltaTwoNodesExchange(inst, t, i, j) == DeltaTwoNodesExchangeAsWritten(inst, t, i, j)
    ensures |t| == 2 && i != j && inst.ZeroDiagonal() && inst.Symmetric()
            ==> DeltaTwoNodesExchangeAsWritten(inst, t, i, j) == -2 * inst.D(t[0], t[1])
  {
    if |t| == 2 && i != j && inst.ZeroDiagonal() && inst.Symmetric() {
      assert inst.D(t[0], t[0]) == 0 && inst.D(t[1], t[1]) == 0;
      assert inst.D(t[1], t[0]) == inst.D(t[0], t[1]);
    }
  }

  /**
   * The two-node exchange evaluation is the exact change in objective, for
   * every pair of positions the search tries (no symmetry needed).
   */
  lemma DeltaTwoNodesExchangeExact(inst: Instance, t: seq<int>, i: int, j: int)
    requires 0 <= i < j < |t|
    ensures DeltaTwoNodesExchange(inst, t, i, j) == TourCost(inst, Swap(t, i, j)) - TourCost(inst, t)
  {
    if |t| == 2 {
      ExchangeOnTwoNodes(inst, t);
    } else if i == 0 && j == |t| - 1 {
      ExchangeEnds(inst, t);
    } else if j == i + 1 {
      ExchangeAdjacent(inst, t, i);
    } else {
      ExchangeApart(inst, t, i, j);
    }
  }

  /** On a two-node tour the exchange leaves the objective unchanged. */
  lemma ExchangeOnTwoNodes(inst: Instance, t: seq<int>)
    requires |t| == 2
    ensures TourCost(inst, Swap(t, 0, 1)) == TourCost(inst, t)
  {
    var x, y := t[0], t[1];
    CostSplit3(inst, [x], y, []);
    CostSplit3(inst, [y], x, []);
    assert [x] + [y] + [] == t;
    assert [y] + [x] + [] == Swap(t, 0, 1);
  }

  /** Exchanging the first and last nodes of a tour of three or more nodes. */
  lemma ExchangeEnds(inst: Instance, t: seq<int>)
    requires |t| >= 3
    ensures DeltaTwoNodesExchange(inst, t, 0, |t| - 1) == TourCost(inst, Swap(t, 0, |t| - 1)) - TourCost(inst, t)
  {
    var x, m, y := t[0], t[1..|t| - 1], t[|t| - 1];
    CostSplit5(inst, [], x, m, y, []);
    CostSplit5(inst, [], y, m, x, []);
    assert [] + [x] + m + [y] + [] == t;
    assert [] + [y] + m + [x] + [] == Swap(t, 0, |t| - 1);
  }

  /** Exchanging two neighbouring nodes (position `i` directly before `i + 1`). */
  lemma ExchangeAdjacent(inst: Instance, t: seq<int>, i: int)
    requires |t| >= 3 && 0 <= i && i + 1 < |t|
    ensures DeltaTwoNodesExchange(inst, t, i, i + 1) == TourCost(inst, Swap(t, i, i + 1)) - TourCost(inst, t)
  {
    var p, x, y, q := t[..i], t[i], t[i + 1], t[i + 2..];
    CostOfPieces(inst, t, i, i + 1);
    assert t[i + 1..i + 1] == [];
    CostSplit5(inst, p, x, [], y, q);
    CostSplit5(inst, p, y, [], x, q);
  }

  /** Exchanging two nodes with at least one node between them on both sides of the cycle. */
  lemma ExchangeApart(inst: Instance, t: seq<int>, i: int, j: int)
    requires 0 <= i && i + 1 < j < |t| && !(i == 0 && j == |t| - 1)
    ensures DeltaTwoNodesExchange(inst, t, i, j) == TourCost(inst, Swap(t, i, j)) - TourCost(inst, t)
  {
    var p, x, m, y, q := t[..i], t[i], t[i + 1..j], t[j], t[j + 1..];
    ApartFormula(inst, t, i, j);
    ApartNeighbours(t, i, j);
    ExchangePieces(inst, p, x, m, y, q);
    CostOfPieces(inst, t, i, j);
  }

  /** The objectives of `t` and of `Swap(t, i, j)`, read through the cut at `i < j`. */
  lemma CostOfPieces(inst: Instance, t: seq<int>, i: int, j: int)
    requires 0 <= i < j < |t|
    ensures var p, x, m, y, q := t[..i], t[i], t[i + 1..j], t[j], t[j + 1..];
            && TourCost(inst, t) == TourCost(inst, p + [x] + m + [y] + q)
            && TourCost(inst, Swap(t, i, j)) == TourCost(inst, p + [y] + m + [x] + q)
  {
    Pieces5(t, i, j);
    SwapPieces(t, i, j);
  }

  /** For positions apart on both sides the C code takes its third formula. */
  lemma ApartFormula(inst: Instance, t: seq<int>, i: int, j: int)
    requires 0 <= i && i + 1 < j < |t| && !(i == 0 && j == |t| - 1)
    ensures var n := |t|;
            var a, b := t[i], t[j];
            DeltaTwoNodesExchange(inst, t, i, j)
            == - inst.D(t[Pred(i, n)], a) - inst.D(a, t[Succ(i, n)]) - inst.D(t[Pred(j, n)], b) - inst.D(b, t[Succ(j, n)])
               + inst.D(t[Pred(i, n)], b) + inst.D(b, t[Succ(i, n)]) + inst.D(t[Pred(j, n)], a) + inst.D(a, t[Succ(j, n)])
  {
  }

  /** Exchanging `x` and `y` in `p + [x] + m + [y] + q` changes only the four edges at them. */
  lemma ExchangePieces(inst: Instance, p: seq<int>, x: int, m: seq<int>, y: int, q: seq<int>)
    requires |m| > 0 && |p| + |q| > 0
    ensures var before := if |p| > 0 then p[|p| - 1] else q[|q| - 1];
            var after := if |q| > 0 then q[0] else p[0];
            TourCost(inst, p + [y] + m + [x] + q) - TourCost(inst, p + [x] + m + [y] + q)
            == - inst.D(before, x) - inst.D(x, m[0]) - inst.D(m[|m| - 1], y) - inst.D(y, after)
               + inst.D(before, y) + inst.D(y, m[0]) + inst.D(m[|m| - 1], x) + inst.D(x, after)
  {
    CostAroundPair(inst, p, x, m, y, q);
    CostAroundPair(inst, p, y, m, x, q);
  }

  /** Around positions `i` and `j` apart on both sides, the cyclic neighbours lie in the pieces of the cut. */
  lemma ApartNeighbours(t: seq<int>, i: int, j: int)
    requires 0 <= i && i + 1 < j < |t| && !(i == 0 && j == |t| - 1)
    ensures var p, m, q, n := t[..i], t[i + 1..j], t[j + 1..], |t|;
            && m[0] == t[Succ(i, n)] && m[|m| - 1] == t[Pred(j, n)]
            && (if |p| > 0 then p[|p| - 1] else q[|q| - 1]) == t[Pred(i, n)]
            && (if |q| > 0 then q[0] else p[0]) == t[Succ(j, n)]
  {
  }

  /** Exchanging positions `i < j` exchanges the two single-node pieces of the cut. */
  lemma SwapPieces(t: seq<int>, i: int, j: int)
    requires 0 <= i < j < |t|
    ensures Swap(t, i, j) == t[..i] + [t[j]] + t[i + 1..j] + [t[i]] + t[j + 1..]
  {
  }

  /**
   * Change in objective from the 2-opt move that removes the edges leaving
   * positions `i` and `j`; zero for the same or adjacent edges.
   */
  function DeltaTwoEdgesExchange(inst: Instance, t: seq<int>, i: int, j: int): int
    requires 0 <= i < |t| && 0 <= j < |t|
  {
    var size := |t|;
    var a, a' := t[i], t[Succ(i, size)];
    var b, b' := t[j], t[Succ(j, size)];
    if i == j then 0
    else if Succ(i, size) == j || Succ(j, size) == i then 0
    else - inst.D(a, a') - inst.D(b, b') + inst.D(a, b) + inst.D(a', b')
  }

  /**
   * On a symmetric matrix the 2-opt evaluation is the exact change of
   * reversing the tour between positions `i + 1` and `j`, for every pair
   * `i < j` (adjacent pairs included: their reversal changes nothing).
   */
  lemma DeltaTwoEdgesExchangeExact(inst: Instance, t: seq<int>, i: int, j: int)
    requires inst.Symmetric() && 0 <= i < j < |t|
    ensures DeltaTwoEdgesExchange(inst, t, i, j)
         == TourCost(inst, ReverseRange(t, i + 1, j + 1)) - TourCost(inst, t)
  {
    var p, s, q := t[..i + 1], t[i + 1..j + 1], t[j + 1..];
    var u := ReverseRange(t, i + 1, j + 1);
    assert t == p + s + q;
    assert u == p + Reverse(s) + q;
    LinLenReverse(inst, s);
    NodeCostsReverse(inst, s);
    CostAroundSegment(inst, p, s, q);
    CostAroundSegment(inst, p, Reverse(s), q);
    TwoEdgesEnds(inst, t, i, j);
  }

  /** The nodes at the ends of the reversed segment and of the edges the 2-opt move replaces. */
  lemma TwoEdgesEnds(inst: Instance, t: seq<int>, i: int, j: int)
    requires inst.Symmetric() && 0 <= i < j < |t|
    ensures var s, q := t[i + 1..j + 1], t[j + 1..];
            var after := if |q| > 0 then q[0] else t[0];
            DeltaTwoEdgesExchange(inst, t, i, j)
            == inst.D(t[i], s[|s| - 1]) + inst.D(s[0], after) - inst.D(t[i], s[0]) - inst.D(s[|s| - 1], after)
  {
    var n := |t|;
    assert t[Succ(i, n)] == t[i + 1];
    if i == 0 && j == n - 1 {
      assert inst.D(t[0], t[j]) == inst.D(t[j], t[0]);
      assert inst.D(t[1], t[0]) == inst.D(t[0], t[1]);
    }
  }

  /** Change in objective from replacing the node at position `i` by the node `v`. */
  function DeltaInterRouteExchangeAsWritten(inst: Instance, t: seq<int>, i: int, v: int): int
    requires 0 <= i < |t|
  {
    var size := |t|;
    var a := t[i];
    var prevI, nextI := Pred(i, size), Succ(i, size);
    - inst.D(t[prevI], a) - inst.D(a, t[nextI]) + inst.D(t[prevI], v) + inst.D(v, t[nextI])
    - inst.C(a) + inst.C(v)
  }

  /**
   * On a one-node tour the neighbour on both sides is the node itself, so the
   * formula charges the new node's distance to the old one instead of its
   * self-distance.
   */
  lemma InterRouteExchangeOnOneNodeTour()
    ensures var inst := Instance([[0, 1], [1, 0]], [0, 0]);
            && DeltaInterRouteExchangeAsWritten(inst, [0], 0, 1) == 2
            && TourCost(inst, [0][0 := 1]) - TourCost(inst, [0]) == 0
  {
    var inst := Instance([[0, 1], [1, 0]], [0, 0]);
    CostOfSingleton(inst, 0);
    CostOfSingleton(inst, 1);
    assert [0][0 := 1] == [1];
  }

  /** Replacement evaluation with the one-node tour handled: there only the self-distances change. */
  function DeltaInterRouteExchange(inst: Instance, t: seq<int>, i: int, v: int): int
    requires 0 <= i < |t|
  {
    if |t| == 1 then inst.D(v, v) - inst.D(t[0], t[0]) + inst.C(v) - inst.C(t[0])
    else DeltaInterRouteExchangeAsWritten(inst, t, i, v)
  }

  /**
   * The C formula agrees with the corrected one except on one-node tours,
   * where on a zero-diagonal matrix it overstates the change by the round
   * trip between the old and the new node.
   */
  lemma InterRouteExchangeAgrees(inst: Instance, t: seq<int>, i: int, v: int)
    requires 0 <= i < |t|
    ensures |t| >= 2 ==> DeltaInterRouteExchange(inst, t, i, v) == DeltaInterRouteExchangeAsWritten(inst, t, i, v)
    ensures |t| == 1 && inst.ZeroDiagonal()
            ==> DeltaInterRouteExchangeAsWritten(inst, t, i, v)
                == DeltaInterRouteExchange(inst, t, i, v) + inst.D(t[0], v) + inst.D(v, t[0])
  {
    if |t| == 1 && inst.ZeroDiagonal() {
      assert inst.D(t[0], t[0]) == 0 && inst.D(v, v) == 0;
    }
  }

  /** The replacement evaluation is the exact change in objective (no symmetry needed). */
  lemma DeltaInterRouteExchangeExact(inst: Instance, t: seq<int>, i: int, v: int)
    requires 0 <= i < |t|
    ensures DeltaInterRouteExchange(inst, t, i, v) == TourCost(inst, t[i := v]) - TourCost(inst, t)
  {
    var p, x, q := t[..i], t[i], t[i + 1..];
    Pieces3(t, i);
    assert t[i := v] == p + [v] + q;
    CostSplit3(inst, p, x, q);
    CostSplit3(inst, p, v, q);
  }

  // ---------------------------------------------------------------------
  // In-place moves
  // ---------------------------------------------------------------------

  /**
   * Position `k` steps after `start` on a cycle of `size` positions.
   * (The C code advances with `(i + 1) % size`; this is the same position.)
   */
  function Pos(start: int, k: int, size: int): (r: int)
    requires 0 <= start < size && 0 <= k < size
    ensures 0 <= r < size
  {
    if start + k < size then start + k else start + k - size
  }

  /** Distinct step counts reach distinct positions, and every position is reached. */
  lemma PosBijective(start: int, a: int, b: int, size: int)
    requires 0 <= start < size && 0 <= a < size && 0 <= b < size
    ensures Pos(start, a, size) == Pos(start, b, size) <==> a == b
    ensures var q := if b >= start then b - start else b - start + size;
            0 <= q < size && Pos(start, q, size) == b
  {
  }

  /** Number of positions from `start` forwards to `end` inclusive. */
  function SegmentLength(start: int, end: int, size: int): (len: int)
    requires 0 <= start < size && 0 <= end < size
    ensures 1 <= len <= size
    ensures len == size <==> Pred(start, size) == end
  {
    (if end >= start then end - start else end - start + size) + 1
  }

  /** Where step `q` of a segment of `len` steps takes its value from after its outer `k` pairs are exchanged. */
  function Mirror(q: int, len: int, k: int): int
  {
    if q < k || len - k <= q < len then len - 1 - q else q
  }

  /** Step `q` of the cyclic segment of `len` steps from `start` holds in `r` what `t` holds at its mirror after `k` exchanges. */
  ghost predicate MirrorAt(t: seq<int>, r: seq<int>, start: int, len: int, k: int, q: int)
  {
    && |r| == |t| && 0 <= start < |t| && 0 <= q < |t| && 0 <= Mirror(q, len, k) < |t|
    && r[Pos(start, q, |t|)] == t[Pos(start, Mirror(q, len, k), |t|)]
  }

  /** `r` is `t` with the outer `k` pairs of the cyclic segment of `len` steps from `start` exchanged. */
  ghost predicate Mirrored(t: seq<int>, r: seq<int>, start: int, len: int, k: int)
  {
    && |r| == |t| && 0 <= start < |t| && 0 <= 2 * k <= len <= |t|
    && forall q :: 0 <= q < |t| ==> MirrorAt(t, r, start, len, k, q)
  }

  /** Before the first exchange nothing is mirrored. */
  lemma MirroredInit(t: seq<int>, start: int, len: int)
    requires 0 <= start < |t| && 0 <= len <= |t|
    ensures Mirrored(t, t, start, len, 0)
  {
    forall q | 0 <= q < |t|
      ensures MirrorAt(t, t, start, len, 0, q)
    {
      assert Mirror(q, len, 0) == q;
    }
  }

  /** One loop step: exchanging the next pair inwards extends the mirrored part by one pair. */
  lemma {:induction false} MirroredStep(t: seq<int>, r: seq<int>, start: int, len: int, k: int)
    requires Mirrored(t, r, start, len, k) && 2 * k + 2 <= len
    ensures Mirrored(t, Swap(r, Pos(start, k, |t|), Pos(start, len - 1 - k, |t|)), start, len, k + 1)
  {
    var size := |t|;
    var i, j := Pos(start, k, size), Pos(start, len - 1 - k, size);
    var r' := Swap(r, i, j);
    var k' := k + 1;
    forall q | 0 <= q < size
      ensures MirrorAt(t, r', start, len, k', q)
    {
      PosBijective(start, q, k, size);
      PosBijective(start, q, len - 1 - k, size);
      if q == k {
        assert MirrorAt(t, r, start, len, k, len - 1 - k);
        assert r'[i] == r[j];
      } else if q == len - 1 - k {
        assert MirrorAt(t, r, start, len, k, k);
        assert r'[j] == r[i];
      } else {
        assert MirrorAt(t, r, start, len, k, q);
      }
    }
  }

  /** Once the two indices meet or cross, the whole segment is mirrored. */
  lemma MirroredDone(t: seq<int>, r: seq<int>, start: int, len: int, k: int)
    requires Mirrored(t, r, start, len, k) && len - 1 <= 2 * k
    ensures forall q :: 0 <= q < |t| ==> r[Pos(start, q, |t|)] == t[Pos(start, if q < len then len - 1 - q else q, |t|)]
  {
    forall q | 0 <= q < |t|
      ensures r[Pos(start, q, |t|)] == t[Pos(start, if q < len then len - 1 - q else q, |t|)]
    {
      assert MirrorAt(t, r, start, len, k, q);
      assert Mirror(q, len, k) == if q < len then len - 1 - q else q;
    }
  }

  /** With nothing exchanged the sequence is unchanged. */
  lemma MirroredNone(t: seq<int>, r: seq<int>, start: int, len: int)
    requires Mirrored(t, r, start, len, 0)
    ensures r == t
  {
    forall p | 0 <= p < |t|
      ensures r[p] == t[p]
    {
      PosBijective(start, 0, p, |t|);
      var q := if p >= start then p - start else p - start + |t|;
      assert MirrorAt(t, r, start, len, 0, q);
      assert Mirror(q, len, 0) == q;
    }
  }

  /** A segment that does not wrap is reversed as a range of the sequence. */
  lemma MirroredLinear(t: seq<int>, r: seq<int>, start: int, end: int)
    requires 0 <= start <= end < |t| && |r| == |t|
    requires forall q :: 0 <= q < |t| ==> r[Pos(start, q, |t|)] == t[Pos(start, if q < end - start + 1 then end - start - q else q, |t|)]
    ensures r == ReverseRange(t, start, end + 1)
  {
    var rr := ReverseRange(t, start, end + 1);
    forall p | 0 <= p < |t|
      ensures r[p] == rr[p]
    {
      PosBijective(start, 0, p, |t|);
      var q := if p >= start then p - start else p - start + |t|;
      assert r[Pos(start, q, |t|)] == t[Pos(start, if q < end - start + 1 then end - start - q else q, |t|)];
      if start <= p <= end {
        assert Pos(start, end - start - q, |t|) == start + end - p;
      }
    }
  }

  /** Stepping back from step `k` reaches step `k - 1`, or the last step from the first. */
  lemma PredPos(start: int, k: int, size: int)
    requires 0 <= start < size && 0 <= k < size
    ensures Pred(Pos(start, k, size), size) == if k == 0 then Pos(start, size - 1, size) else Pos(start, k - 1, size)
    ensures k + 1 < size ==> Succ(Pos(start, k, size), size) == Pos(start, k + 1, size)
  {
  }

  /** While the loop runs, at least two unexchanged steps lie between the indices. */
  lemma LoopGuard(start: int, len: int, k: int, size: int, i: int, j: int)
    requires 0 <= start < size && 1 <= len <= size && 0 <= 2 * k <= len && (len == size ==> k == 0)
    requires i == Pos(start, k, size) && (2 * k < len ==> j == Pos(start, len - 1 - k, size))
    requires 2 * k == len ==> Pred(i, size) == j
    requires i != j && Pred(i, size) != j
    ensures 2 * k + 2 <= len < size
  {
    PredPos(start, k, size);
  }

  /** The indices after one step are those of step `k + 1`. */
  lemma StepIndices(start: int, len: int, k: int, size: int, i: int, j: int)
    requires 0 <= start < size && 0 <= k && 2 * k + 2 <= len < size
    requires i == Pos(start, k, size) && j == Pos(start, len - 1 - k, size)
    ensures var j' := if j == 0 then size - 1 else j - 1;
            && Succ(i, size) == Pos(start, k + 1, size)
            && (2 * k + 2 < len ==> j' == Pos(start, len - 2 - k, size))
            && (2 * k + 2 == len ==> Pred(Succ(i, size), size) == j')
  {
    PredPos(start, k, size);
    PredPos(start, k + 1, size);
    PredPos(start, len - 1 - k, size);
  }

  /** When the loop stops on a segment shorter than the cycle, the indices have met or crossed. */
  lemma ExitGuard(start: int, len: int, k: int, size: int, i: int, j: int)
    requires 0 <= start < size && 1 <= len < size && 0 <= 2 * k <= len
    requires i == Pos(start, k, size) && (2 * k < len ==> j == Pos(start, len - 1 - k, size))
    requires !(i != j && Pred(i, size) != j)
    ensures len - 1 <= 2 * k
  {
    if 2 * k < len - 1 {
      PosBijective(start, k, len - 1 - k, size);
      PredPos(start, k, size);
      if k == 0 {
        PosBijective(start, size - 1, len - 1, size);
      } else {
        PosBijective(start, k - 1, len - 1 - k, size);
      }
    }
  }

  /**
   * The state of the reversal loop after `k` exchanges: `i` is `k` steps
   * after `start`, `j` is `k` steps before the segment's end, and the outer
   * `k` pairs are exchanged.
   */
  ghost predicate ReversalState(t: seq<int>, r: seq<int>, start: int, len: int, k: int, i: int, j: int)
  {
    && Mirrored(t, r, start, len, k) && multiset(r) == multiset(t)
    && 1 <= len && (len == |t| ==> k == 0) && k < |t|
    && i == Pos(start, k, |t|)
    && (2 * k < len ==> j == Pos(start, len - 1 - k, |t|))
    && (2 * k == len ==> Pred(i, |t|) == j)
  }

  /** One pass of the loop body keeps the loop state, one exchange further in. */
  lemma ReversalStep(t: seq<int>, r: seq<int>, start: int, len: int, k: int, i: int, j: int)
    requires ReversalState(t, r, start, len, k, i, j) && i != j && Pred(i, |t|) != j
    ensures 2 * (k + 1) <= len
    ensures ReversalState(t, Swap(r, i, j), start, len, k + 1, Succ(i, |t|), if j == 0 then |t| - 1 else j - 1)
  {
    LoopGuard(start, len, k, |t|, i, j);
    MirroredStep(t, r, start, len, k);
    StepIndices(start, len, k, |t|, i, j);
  }

  /** What the reversal loop leaves behind once its guard fails. */
  lemma ReverseSegmentExit(t: seq<int>, r: seq<int>, start: int, end: int, k: int, i: int, j: int)
    requires 0 <= start < |t| && 0 <= end < |t|
    requires ReversalState(t, r, start, SegmentLength(start, end, |t|), k, i, j)
    requires !(i != j && Pred(i, |t|) != j)
    ensures var size, len := |t|, SegmentLength(start, end, |t|);
            len < size ==> forall q :: 0 <= q < size ==>
              r[Pos(start, q, size)] == t[Pos(start, if q < len then len - 1 - q else q, size)]
    ensures SegmentLength(start, end, |t|) == |t| ==> r == t
    ensures start <= end && !(start == 0 && end == |t| - 1) ==> r == ReverseRange(t, start, end + 1)
  {
    var size, len := |t|, SegmentLength(start, end, |t|);
    if len == size {
      MirroredNone(t, r, start, len);
    } else {
      ExitGuard(start, len, k, size, i, j);
      MirroredDone(t, r, start, len, k);
      if start <= end {
        MirroredLinear(t, r, start, end);
      }
    }
  }

  /**
   * Cyclic segment reversal: exchanges the outermost pair of the segment
   * running from `start` forwards to `end` (wrapping past the last
   * position), and moves inwards until the two indices meet or cross.
   * A segment that covers the whole cycle leaves the tour untouched,
   * because the loop guard already holds for it.
   */
  method ReverseSegment(t: seq<int>, start: int, end: int) returns (r: seq<int>)
    requires 0 <= start < |t| && 0 <= end < |t|
    ensures |r| == |t| && multiset(r) == multiset(t)
    ensures var size, len := |t|, SegmentLength(start, end, |t|);
            len < size ==> forall q :: 0 <= q < size ==>
              r[Pos(start, q, size)] == t[Pos(start, if q < len then len - 1 - q else q, size)]
    ensures SegmentLength(start, end, |t|) == |t| ==> r == t
    ensures start <= end && !(start == 0 && end == |t| - 1) ==> r == ReverseRange(t, start, end + 1)
  {
    var size := |t|;
    ghost var len := SegmentLength(start, end, size);
    r := t;
    var i, j := start, end;
    ghost var k := 0;
    PosBijective(start, 0, end, size);
    MirroredInit(t, start, len);
    while i != j && Pred(i, size) != j
      invariant ReversalState(t, r, start, len, k, i, j)
      decreases len - 2 * k
    {
      ReversalStep(t, r, start, len, k, i, j);
      r := Swap(r, i, j);
      i := Succ(i, size);
      j := if j == 0 then size - 1 else j - 1;
      k := k + 1;
    }
    ReverseSegmentExit(t, r, start, end, k, i, j);
  }
}
