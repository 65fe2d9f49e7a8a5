/**
 * The C++ local-search solver working on one `Solution`: the three
 * neighbourhood scans, the move dispatch, the improvement loop, the 2-opt
 * perturbation and the greedy-cycle repair. The scan orders (`iterator1`,
 * `iterator2`, `iteratorLong`) are part of the state; the searches in greedy
 * mode reshuffle them, with the shuffle's random values taken from an oracle.
 */
module LocalSearchSolver {
  import opened Tours
  import opened Costs
  import opened LocalSearch
  import opened GreedyUtils
  import opened Solutions
  import Analysis

  /** The three searches, in the order of the solver's method table. */
  datatype Kind = Inter | IntraNodes | IntraEdges

  /** The move-type string `applyMove` receives for each search. */
  function KindName(kind: Kind): string
  {
    match kind
    case Inter => "inter"
    case IntraNodes => "intra_nodes"
    case IntraEdges => "intra_edges"
  }

  /** A search result: the best evaluation (0 when nothing improves) and the move's two arguments (-1 when nothing improves). */
  datatype Found = Found(delta: int, arg1: int, arg2: int)

  /** The scan orders the solver keeps. */
  datatype Iterators = Iterators(iter1: seq<int>, iter2: seq<int>, iterLong: seq<int>)

  /** Each scan order lists exactly the positions of the tour (or all node ids). */
  ghost predicate Covers(it: Iterators, n: int, totalNodes: int)
  {
    && (forall v :: v in it.iter1 <==> 0 <= v < n)
    && (forall v :: v in it.iter2 <==> 0 <= v < n)
    && (forall v :: v in it.iterLong <==> 0 <= v < totalNodes)
  }

  // ---------------------------------------------------------------------
  // What a scan evaluates
  // ---------------------------------------------------------------------

  /**
   * The two nested loops of a search visit (outer, inner); the inter search
   * runs over outside nodes outside and positions inside, and reports
   * (position, node).
   */
  function Arg1(kind: Kind, o: int, x: int): int
  {
    if kind == Inter then x else o
  }

  function Arg2(kind: Kind, o: int, x: int): int
  {
    if kind == Inter then o else x
  }

  /** The pairs a search evaluates: outside nodes; ordered positions; edges more than one position apart. */
  predicate Allowed(s: Solution, kind: Kind, a1: int, a2: int)
  {
    match kind
    case Inter => !Contains(s, a2)
    case IntraNodes => a1 < a2
    case IntraEdges => a1 - a2 > 1 || a2 - a1 > 1
  }

  /** The evaluation each search calls (the node exchange as written), 0 off the tour. */
  function PairDelta(inst: Instance, s: Solution, kind: Kind, a1: int, a2: int): int
    requires s.Valid()
  {
    var n := |s.nodes|;
    match kind
    case Inter =>
      if 0 <= a1 < n then CalculateDeltaInterRoute(inst, s, a1, a2) else 0
    case IntraNodes =>
      if 0 <= a1 < n && 0 <= a2 < n then CalculateDeltaIntraRouteNodesAsWritten(inst, s, a1, a2) else 0
    case IntraEdges =>
      if 0 <= a1 < n && 0 <= a2 < n then CalculateDeltaIntraRouteEdges(inst, s, a1, a2) else 0
  }

  /** What the scan sees at loop position (p, q): the evaluation of an allowed pair, 0 for a skipped one. */
  function Value(inst: Instance, s: Solution, kind: Kind, outer: seq<int>, inner: seq<int>, p: int, q: int): int
    requires s.Valid() && 0 <= p < |outer| && 0 <= q < |inner|
  {
    var a1, a2 := Arg1(kind, outer[p], inner[q]), Arg2(kind, outer[p], inner[q]);
    if Allowed(s, kind, a1, a2) then PairDelta(inst, s, kind, a1, a2) else 0
  }

  /** Row-major order of the two loops. */
  predicate Before(p': int, q': int, p: int, q: int)
  {
    p' < p || (p' == p && q' < q)
  }

  /**
   * The scan after visiting every position before (p, q): the best is at
   * most 0 and no worse than anything visited; when it is below 0 it is the
   * first visited position reaching it, and the reported arguments are that
   * position's pair.
   */
  ghost predicate ScanState(inst: Instance, s: Solution, kind: Kind, outer: seq<int>, inner: seq<int>,
                            f: Found, bp: int, bq: int, p: int, q: int)
    requires s.Valid()
  {
    BestSoFar(inst, s, kind, outer, inner, f, bp, bq, p, q) && AllSeen(inst, s, kind, outer, inner, f.delta, p, q)
  }

  /** The best is at most 0; below 0 it is the first visited position reaching it. */
  ghost predicate BestSoFar(inst: Instance, s: Solution, kind: Kind, outer: seq<int>, inner: seq<int>,
                            f: Found, bp: int, bq: int, p: int, q: int)
    requires s.Valid()
  {
    && f.delta <= 0
    && (f.delta == 0 ==> f.arg1 == -1 && f.arg2 == -1)
    && (f.delta < 0 ==>
          && 0 <= bp < |outer| && 0 <= bq < |inner| && Before(bp, bq, p, q)
          && f.arg1 == Arg1(kind, outer[bp], inner[bq]) && f.arg2 == Arg2(kind, outer[bp], inner[bq])
          && Allowed(s, kind, f.arg1, f.arg2)
          && f.delta == Value(inst, s, kind, outer, inner, bp, bq)
          && (forall p', q' :: 0 <= p' < |outer| && 0 <= q' < |inner| && Before(p', q', bp, bq) ==>
                Value(inst, s, kind, outer, inner, p', q') > f.delta))
  }

  /** Every position visited before (p, q) evaluates to at least `best`. */
  ghost predicate AllSeen(inst: Instance, s: Solution, kind: Kind, outer: seq<int>, inner: seq<int>, best: int, p: int, q: int)
    requires s.Valid()
  {
    forall p', q' :: 0 <= p' < |outer| && 0 <= q' < |inner| && Before(p', q', p, q) ==>
      Value(inst, s, kind, outer, inner, p', q') >= best
  }

  /** A finished row is the start of the next one. */
  lemma RowDone(inst: Instance, s: Solution, kind: Kind, outer: seq<int>, inner: seq<int>,
                f: Found, bp: int, bq: int, p: int)
    requires s.Valid() && 0 <= p < |outer|
    requires ScanState(inst, s, kind, outer, inner, f, bp, bq, p, |inner|)
    ensures ScanState(inst, s, kind, outer, inner, f, bp, bq, p + 1, 0)
  {
  }

  /** The inter search skips the whole row of a node already in the tour: every pair of it is disallowed. */
  lemma SkippedRow(inst: Instance, s: Solution, kind: Kind, outer: seq<int>, inner: seq<int>,
                   f: Found, bp: int, bq: int, p: int)
    requires s.Valid() && 0 <= p < |outer| && kind == Inter && Contains(s, outer[p])
    requires ScanState(inst, s, kind, outer, inner, f, bp, bq, p, 0)
    ensures ScanState(inst, s, kind, outer, inner, f, bp, bq, p + 1, 0)
  {
    assert forall q :: 0 <= q < |inner| ==> Value(inst, s, kind, outer, inner, p, q) == 0;
  }

  /** One visited position extends the state. */
  lemma VisitStep(inst: Instance, s: Solution, kind: Kind, outer: seq<int>, inner: seq<int>,
                  f: Found, bp: int, bq: int, p: int, q: int)
    requires s.Valid() && 0 <= p < |outer| && 0 <= q < |inner|
    requires ScanState(inst, s, kind, outer, inner, f, bp, bq, p, q)
    requires Value(inst, s, kind, outer, inner, p, q) >= f.delta
    ensures ScanState(inst, s, kind, outer, inner, f, bp, bq, p, q + 1)
  {
  }

  /** A strictly better position becomes the best. */
  lemma ImproveStep(inst: Instance, s: Solution, kind: Kind, outer: seq<int>, inner: seq<int>,
                    f: Found, bp: int, bq: int, p: int, q: int, f': Found)
    requires s.Valid() && 0 <= p < |outer| && 0 <= q < |inner|
    requires ScanState(inst, s, kind, outer, inner, f, bp, bq, p, q)
    requires f'.arg1 == Arg1(kind, outer[p], inner[q]) && f'.arg2 == Arg2(kind, outer[p], inner[q])
    requires Allowed(s, kind, f'.arg1, f'.arg2)
    requires f'.delta == PairDelta(inst, s, kind, f'.arg1, f'.arg2) < f.delta
    ensures ScanState(inst, s, kind, outer, inner, f', p, q, p, q + 1)
    ensures f.delta == 0 ==> GreedyHit(inst, s, kind, outer, inner, f', p, q)
  {
  }

  /** A greedy scan stopped at (bp, bq): the first position whose evaluation is below 0. */
  ghost predicate GreedyHit(inst: Instance, s: Solution, kind: Kind, outer: seq<int>, inner: seq<int>, f: Found, bp: int, bq: int)
    requires s.Valid()
  {
    && 0 <= bp < |outer| && 0 <= bq < |inner|
    && f.arg1 == Arg1(kind, outer[bp], inner[bq]) && f.arg2 == Arg2(kind, outer[bp], inner[bq])
    && Allowed(s, kind, f.arg1, f.arg2)
    && f.delta == Value(inst, s, kind, outer, inner, bp, bq) < 0
    && (forall p', q' :: 0 <= p' < |outer| && 0 <= q' < |inner| && Before(p', q', bp, bq) ==>
          Value(inst, s, kind, outer, inner, p', q') >= 0)
  }

  /** The inner loop for one outer entry; `stop` when a greedy scan found its move. */
  method ScanRow(inst: Instance, s: Solution, kind: Kind, outer: seq<int>, inner: seq<int>, greedy: bool,
                 f0: Found, ghost bp0: int, ghost bq0: int, p: int)
    returns (f: Found, ghost bp: int, ghost bq: int, stop: bool)
    requires s.Valid() && 0 <= p < |outer|
    requires ScanState(inst, s, kind, outer, inner, f0, bp0, bq0, p, 0)
    requires greedy ==> f0.delta == 0
    ensures !stop ==> ScanState(inst, s, kind, outer, inner, f, bp, bq, p + 1, 0)
    ensures !stop && greedy ==> f.delta == 0
    ensures stop ==> greedy && GreedyHit(inst, s, kind, outer, inner, f, bp, bq)
  {
    f, bp, bq, stop := f0, bp0, bq0, false;
    if kind == Inter && Contains(s, outer[p]) {
      SkippedRow(inst, s, kind, outer, inner, f, bp, bq, p);
      return;
    }
    var q := 0;
    while q < |inner|
      invariant 0 <= q <= |inner|
      invariant ScanState(inst, s, kind, outer, inner, f, bp, bq, p, q)
      invariant greedy ==> f.delta == 0
    {
      f, bp, bq, stop := Visit(inst, s, kind, outer, inner, greedy, f, bp, bq, p, q);
      if stop {
        return;
      }
      q := q + 1;
    }
    RowDone(inst, s, kind, outer, inner, f, bp, bq, p);
  }

  /** The loop body at (p, q): evaluate an allowed pair and keep it when strictly better. */
  method Visit(inst: Instance, s: Solution, kind: Kind, outer: seq<int>, inner: seq<int>, greedy: bool,
               f0: Found, ghost bp0: int, ghost bq0: int, p: int, q: int)
    returns (f: Found, ghost bp: int, ghost bq: int, stop: bool)
    requires s.Valid() && 0 <= p < |outer| && 0 <= q < |inner|
    requires ScanState(inst, s, kind, outer, inner, f0, bp0, bq0, p, q)
    requires greedy ==> f0.delta == 0
    ensures !stop ==> ScanState(inst, s, kind, outer, inner, f, bp, bq, p, q + 1)
    ensures !stop && greedy ==> f.delta == 0
    ensures stop ==> greedy && GreedyHit(inst, s, kind, outer, inner, f, bp, bq)
  {
    f, bp, bq, stop := f0, bp0, bq0, false;
    var a1, a2 := Arg1(kind, outer[p], inner[q]), Arg2(kind, outer[p], inner[q]);
    if Allowed(s, kind, a1, a2) {
      var delta := PairDelta(inst, s, kind, a1, a2);
      if delta < f.delta {
        ImproveStep(inst, s, kind, outer, inner, f, bp, bq, p, q, Found(delta, a1, a2));
        f, bp, bq := Found(delta, a1, a2), p, q;
        stop := greedy;
        return;
      }
    }
    VisitStep(inst, s, kind, outer, inner, f, bp, bq, p, q);
  }

  /**
   * The nested loops of `findBestInterNeighbor`, `findBestIntraNeighborNodes`
   * and `findBestIntraNeighborEdges`: the best starts at 0 and is replaced
   * only by a strictly smaller evaluation. Steepest mode reports the first
   * position of the minimum; greedy mode stops at the first improving
   * position. Either way the result is 0 with arguments -1 exactly when no
   * evaluated pair improves.
   */
  method Scan(inst: Instance, s: Solution, kind: Kind, outer: seq<int>, inner: seq<int>, greedy: bool)
    returns (f: Found, ghost bp: int, ghost bq: int)
    requires s.Valid()
    ensures f.delta <= 0
    ensures f.delta == 0 ==> f.arg1 == -1 && f.arg2 == -1
    ensures f.delta == 0 <==> forall p, q :: 0 <= p < |outer| && 0 <= q < |inner| ==> Value(inst, s, kind, outer, inner, p, q) >= 0
    ensures f.delta < 0 ==>
              && 0 <= bp < |outer| && 0 <= bq < |inner|
              && f.arg1 == Arg1(kind, outer[bp], inner[bq]) && f.arg2 == Arg2(kind, outer[bp], inner[bq])
              && Allowed(s, kind, f.arg1, f.arg2)
              && f.delta == PairDelta(inst, s, kind, f.arg1, f.arg2)
              && (forall p, q :: 0 <= p < |outer| && 0 <= q < |inner| && Before(p, q, bp, bq) ==>
                    Value(inst, s, kind, outer, inner, p, q) > f.delta)
    ensures !greedy ==> forall p, q :: 0 <= p < |outer| && 0 <= q < |inner| ==> Value(inst, s, kind, outer, inner, p, q) >= f.delta
    ensures greedy && f.delta < 0 ==>
              forall p, q :: 0 <= p < |outer| && 0 <= q < |inner| && Before(p, q, bp, bq) ==> Value(inst, s, kind, outer, inner, p, q) >= 0
  {
    f, bp, bq := Found(0, -1, -1), -1, -1;
    var p := 0;
    while p < |outer|
      invariant 0 <= p <= |outer|
      invariant ScanState(inst, s, kind, outer, inner, f, bp, bq, p, 0)
      invariant greedy ==> f.delta == 0
    {
      var stop;
      f, bp, bq, stop := ScanRow(inst, s, kind, outer, inner, greedy, f, bp, bq, p);
      if stop {
        return;
      }
      p := p + 1;
    }
    ScanDone(inst, s, kind, outer, inner, f, bp, bq);
  }

  lemma ScanDone(inst: Instance, s: Solution, kind: Kind, outer: seq<int>, inner: seq<int>, f: Found, bp: int, bq: int)
    requires s.Valid()
    requires ScanState(inst, s, kind, outer, inner, f, bp, bq, |outer|, 0)
    ensures forall p, q :: 0 <= p < |outer| && 0 <= q < |inner| ==> Value(inst, s, kind, outer, inner, p, q) >= f.delta
    ensures f.delta == 0 <==> forall p, q :: 0 <= p < |outer| && 0 <= q < |inner| ==> Value(inst, s, kind, outer, inner, p, q) >= 0
    ensures f.delta < 0 ==> f.delta == PairDelta(inst, s, kind, f.arg1, f.arg2)
  {
  }

  // ---------------------------------------------------------------------
  // The three searches
  // ---------------------------------------------------------------------

  /**
   * One search of the given kind: in greedy mode first reshuffle the scan
   * orders the search uses (`iterator1` with `iteratorLong`, or `iterator1`
   * with `iterator2`), then scan. Reshuffling keeps each order a
   * rearrangement of what it was.
   */
  method FindBest(inst: Instance, s: Solution, kind: Kind, it: Iterators, greedy: bool, rand: nat -> nat, used: nat)
    returns (f: Found, it': Iterators, used': nat)
    requires s.Valid()
    ensures used' >= used
    ensures multiset(it'.iter1) == multiset(it.iter1) && multiset(it'.iter2) == multiset(it.iter2)
    ensures multiset(it'.iterLong) == multiset(it.iterLong)
    ensures !greedy ==> it' == it
    ensures var outer := if kind == Inter then it'.iterLong else it'.iter1;
            var inner := if kind == Inter then it'.iter1 else it'.iter2;
            && f.delta <= 0
            && (f.delta == 0 ==> f.arg1 == -1 && f.arg2 == -1)
            && (f.delta == 0 <==> forall p, q :: 0 <= p < |outer| && 0 <= q < |inner| ==> Value(inst, s, kind, outer, inner, p, q) >= 0)
            && (f.delta < 0 ==> && f.arg1 in (if kind == Inter then inner else outer)
                                && f.arg2 in (if kind == Inter then outer else inner)
                                && Allowed(s, kind, f.arg1, f.arg2)
                                && f.delta == PairDelta(inst, s, kind, f.arg1, f.arg2))
            && (!greedy ==> forall p, q :: 0 <= p < |outer| && 0 <= q < |inner| ==> Value(inst, s, kind, outer, inner, p, q) >= f.delta)
  {
    it', used' := it, used;
    if greedy {
      var d1 := seq(|it.iter1|, k requires 0 <= k => rand(used' + k));
      used' := used' + |it.iter1|;
      var i1 := ShuffleArray(it.iter1, d1);
      it' := it'.(iter1 := i1);
      if kind == Inter {
        var d2 := seq(|it.iterLong|, k requires 0 <= k => rand(used' + k));
        used' := used' + |it.iterLong|;
        var l := ShuffleArray(it.iterLong, d2);
        it' := it'.(iterLong := l);
      } else {
        var d2 := seq(|it.iter2|, k requires 0 <= k => rand(used' + k));
        used' := used' + |it.iter2|;
        var i2 := ShuffleArray(it.iter2, d2);
        it' := it'.(iter2 := i2);
      }
    }
    var outer := if kind == Inter then it'.iterLong else it'.iter1;
    var inner := if kind == Inter then it'.iter1 else it'.iter2;
    ghost var bp, bq;
    f, bp, bq := Scan(inst, s, kind, outer, inner, greedy);
    if f.delta < 0 {
      assert Arg1(kind, outer[bp], inner[bq]) in (if kind == Inter then inner else outer);
      assert Arg2(kind, outer[bp], inner[bq]) in (if kind == Inter then outer else inner);
    }
  }

  /** Orders that cover the positions stay covering after reshuffling. */
  lemma CoversPermutation(it: Iterators, it': Iterators, n: int, totalNodes: int)
    requires Covers(it, n, totalNodes)
    requires multiset(it'.iter1) == multiset(it.iter1) && multiset(it'.iter2) == multiset(it.iter2)
    requires multiset(it'.iterLong) == multiset(it.iterLong)
    ensures Covers(it', n, totalNodes)
  {
    assert forall v :: v in it'.iter1 <==> v in multiset(it'.iter1);
    assert forall v :: v in it.iter1 <==> v in multiset(it.iter1);
    assert forall v :: v in it'.iter2 <==> v in multiset(it'.iter2);
    assert forall v :: v in it.iter2 <==> v in multiset(it.iter2);
    assert forall v :: v in it'.iterLong <==> v in multiset(it'.iterLong);
    assert forall v :: v in it.iterLong <==> v in multiset(it.iterLong);
  }

  /** The pairs a search of each kind can report on a tour of `n` nodes out of `totalNodes`. */
  predicate InBox(kind: Kind, n: int, totalNodes: int, a1: int, a2: int)
  {
    0 <= a1 < n && (if kind == Inter then 0 <= a2 < totalNodes else 0 <= a2 < n)
  }

  /** No pair the search of this kind evaluates improves. */
  ghost predicate NoImprovement(inst: Instance, s: Solution, kind: Kind, totalNodes: int)
    requires s.Valid()
  {
    forall a1, a2 :: InBox(kind, |s.nodes|, totalNodes, a1, a2) && Allowed(s, kind, a1, a2) ==> PairDelta(inst, s, kind, a1, a2) >= 0
  }

  /** With covering scan orders, a scan that finds nothing proves that no pair of the whole neighbourhood improves. */
  lemma ScanCovers(inst: Instance, s: Solution, kind: Kind, it: Iterators, totalNodes: int)
    requires s.Valid() && Covers(it, |s.nodes|, totalNodes)
    requires var outer := if kind == Inter then it.iterLong else it.iter1;
             var inner := if kind == Inter then it.iter1 else it.iter2;
             forall p, q :: 0 <= p < |outer| && 0 <= q < |inner| ==> Value(inst, s, kind, outer, inner, p, q) >= 0
    ensures NoImprovement(inst, s, kind, totalNodes)
  {
    var outer := if kind == Inter then it.iterLong else it.iter1;
    var inner := if kind == Inter then it.iter1 else it.iter2;
    forall a1, a2 | InBox(kind, |s.nodes|, totalNodes, a1, a2) && Allowed(s, kind, a1, a2)
      ensures PairDelta(inst, s, kind, a1, a2) >= 0
    {
      var o, x := if kind == Inter then a2 else a1, if kind == Inter then a1 else a2;
      assert o in outer && x in inner;
      var p :| 0 <= p < |outer| && outer[p] == o;
      var q :| 0 <= q < |inner| && inner[q] == x;
      assert Value(inst, s, kind, outer, inner, p, q) >= 0;
    }
  }

  // ---------------------------------------------------------------------
  // Applying a move
  // ---------------------------------------------------------------------

  /** `applyMove`: dispatch on the move-type string; any other string changes nothing. */
  function ApplyMoveNamed(s: Solution, moveType: string, arg1: int, arg2: int): (r: Solution)
    ensures moveType != "inter" && moveType != "intra_nodes" && moveType != "intra_edges" ==> r == s
  {
    if moveType == "inter" then ExchangeNodeAtIndex(s, arg1, arg2)
    else if moveType == "intra_nodes" then ExchangeTwoNodes(s, arg1, arg2)
    else if moveType == "intra_edges" then ExchangeTwoEdges(s, arg1, arg2)
    else s
  }

  /**
   * For the first and last positions (the only wrapped pair with `i < j`)
   * the node exchange as written reports twice the distance between the two
   * nodes, which is never negative, so the search never picks that pair.
   */
  lemma WrappedPairNotImproving(inst: Instance, s: Solution, i: int, j: int)
    requires inst.Symmetric() && inst.ZeroDiagonal() && inst.NonNegative()
    requires s.Valid() && Distinct(s.nodes) && 0 <= i < j < |s.nodes|
    requires |s.nodes| == 2 || (i == 0 && j == |s.nodes| - 1)
    ensures CalculateDeltaIntraRouteNodesAsWritten(inst, s, i, j) >= 0
  {
    var t, n := s.nodes, |s.nodes|;
    var a, b := t[i], t[j];
    assert i == 0 && j == n - 1;
    assert t[Succ(j, n)] == a && t[Pred(i, n)] == b;
    assert inst.D(a, a) == 0 && inst.D(b, b) == 0;
    assert inst.D(a, b) >= 0 && inst.D(b, a) >= 0;
  }

  /**
   * An improving move the search reports keeps the solution valid,
   * duplicate-free, in range and of the same size, and lowers the objective.
   * The objective changes by exactly the reported evaluation, except on a
   * one-node tour, where the replacement evaluation over-reports the change
   * (it counts the old node's loop twice); there the objective drops at least
   * as much as reported.
   */
  lemma ImprovingMove(inst: Instance, s: Solution, kind: Kind, a1: int, a2: int, totalNodes: int)
    requires inst.Symmetric() && inst.ZeroDiagonal() && inst.NonNegative()
    requires s.Valid() && Distinct(s.nodes) && InRange(s.nodes, totalNodes)
    requires InBox(kind, |s.nodes|, totalNodes, a1, a2) && Allowed(s, kind, a1, a2)
    requires PairDelta(inst, s, kind, a1, a2) < 0
    ensures var r := ApplyMoveNamed(s, KindName(kind), a1, a2);
            && r.Valid() && Distinct(r.nodes) && InRange(r.nodes, totalNodes) && |r.nodes| == |s.nodes|
            && TourCost(inst, r.nodes) <= TourCost(inst, s.nodes) + PairDelta(inst, s, kind, a1, a2)
            && (|s.nodes| != 1 ==> TourCost(inst, r.nodes) == TourCost(inst, s.nodes) + PairDelta(inst, s, kind, a1, a2))
  {
    var r := ApplyMoveNamed(s, KindName(kind), a1, a2);
    var n := |s.nodes|;
    match kind
    case Inter =>
      assert r == ExchangeNodeAtIndex(s, a1, a2);
      ExchangeNodeAtIndexValid(s, a1, a2);
      InterRange(s, a1, a2, totalNodes);
      if n == 1 {
        OneNodeReplacement(inst, s, a2);
      } else {
        CalculateDeltaInterRouteExact(inst, s, a1, a2);
      }
    case IntraNodes =>
      assert r == ExchangeTwoNodes(s, a1, a2);
      IntraExchangesValid(s, a1, a2);
      InRangePermutation(s.nodes, r.nodes, totalNodes);
      if n == 2 || (a1 == 0 && a2 == n - 1) {
        WrappedPairNotImproving(inst, s, a1, a2);
      } else {
        assert !(Succ(a2, n) == a1 && a1 != a2);
        IntraRouteNodesAgrees(inst, s, a1, a2);
        CalculateDeltaIntraRouteNodesExact(inst, s, a1, a2);
      }
    case IntraEdges =>
      assert r == ExchangeTwoEdges(s, a1, a2);
      IntraExchangesValid(s, a1, a2);
      InRangePermutation(s.nodes, r.nodes, totalNodes);
      CalculateDeltaIntraRouteEdgesExact(inst, s, a1, a2);
  }

  lemma InterRange(s: Solution, i: int, v: int, totalNodes: int)
    requires s.Valid() && InRange(s.nodes, totalNodes) && 0 <= i < |s.nodes| && 0 <= v < totalNodes
    ensures InRange(ExchangeNodeAtIndex(s, i, v).nodes, totalNodes)
  {
  }

  /** On a one-node tour the objective changes by the node costs only, at most the reported evaluation. */
  lemma OneNodeReplacement(inst: Instance, s: Solution, v: int)
    requires inst.Symmetric() && inst.ZeroDiagonal() && inst.NonNegative()
    requires s.Valid() && |s.nodes| == 1
    ensures TourCost(inst, ExchangeNodeAtIndex(s, 0, v).nodes) <= TourCost(inst, s.nodes) + CalculateDeltaInterRoute(inst, s, 0, v)
  {
    var x := s.nodes[0];
    CostOfSingleton(inst, x);
    CostOfSingleton(inst, v);
    assert ExchangeNodeAtIndex(s, 0, v).nodes == [v];
    assert inst.D(x, x) == 0 && inst.D(v, v) == 0 && inst.D(x, v) >= 0 && inst.D(v, x) >= 0;
  }

  // ---------------------------------------------------------------------
  // The improvement loop
  // ---------------------------------------------------------------------

  /** The intra search `runBasic` pairs with the inter search: "TWO_NODES", "TWO_EDGES", or the inter search again. */
  function IntraKind(neighborhoodMethod: string): Kind
  {
    if neighborhoodMethod == "TWO_EDGES" then IntraEdges
    else if neighborhoodMethod == "TWO_NODES" then IntraNodes
    else Inter
  }

  /** A search of one kind, with its result read as a move of the whole neighbourhood. */
  method Search(inst: Instance, s: Solution, kind: Kind, it: Iterators, totalNodes: int, greedy: bool, rand: nat -> nat, used: nat)
    returns (f: Found, it': Iterators, used': nat)
    requires s.Valid() && Covers(it, |s.nodes|, totalNodes)
    ensures used' >= used && Covers(it', |s.nodes|, totalNodes)
    ensures f.delta <= 0
    ensures f.delta < 0 ==> && InBox(kind, |s.nodes|, totalNodes, f.arg1, f.arg2) && Allowed(s, kind, f.arg1, f.arg2)
                            && f.delta == PairDelta(inst, s, kind, f.arg1, f.arg2)
    ensures f.delta == 0 ==> NoImprovement(inst, s, kind, totalNodes)
  {
    f, it', used' := FindBest(inst, s, kind, it, greedy, rand, used);
    CoversPermutation(it, it', |s.nodes|, totalNodes);
    if f.delta == 0 {
      ScanCovers(inst, s, kind, it', totalNodes);
    }
  }

  /**
   * One round of `runBasic`: run the two searches in the drawn order, keep
   * a result only when it is strictly below the best so far (which starts
   * at 0), and in greedy mode skip the second search once the first one
   * improved.
   */
  method Round(inst: Instance, s: Solution, first: Kind, second: Kind, it: Iterators, totalNodes: int, greedy: bool,
               rand: nat -> nat, used: nat)
    returns (best: Found, chosen: Kind, it': Iterators, used': nat)
    requires s.Valid() && Covers(it, |s.nodes|, totalNodes)
    ensures used' >= used && Covers(it', |s.nodes|, totalNodes)
    ensures best.delta <= 0
    ensures best.delta < 0 ==> && (chosen == first || chosen == second)
                               && InBox(chosen, |s.nodes|, totalNodes, best.arg1, best.arg2) && Allowed(s, chosen, best.arg1, best.arg2)
                               && best.delta == PairDelta(inst, s, chosen, best.arg1, best.arg2)
    ensures best.delta == 0 ==> NoImprovement(inst, s, first, totalNodes) && NoImprovement(inst, s, second, totalNodes)
  {
    var f1, f2;
    f1, it', used' := Search(inst, s, first, it, totalNodes, greedy, rand, used);
    best, chosen := Found(0, -1, -1), first;
    if f1.delta < 0 {
      best := f1;
      if greedy {
        return;
      }
    }
    f2, it', used' := Search(inst, s, second, it', totalNodes, greedy, rand, used');
    if f2.delta < best.delta {
      best, chosen := f2, second;
    }
  }

  /**
   * `runBasic`: repeat rounds while one improves, adding the chosen move's
   * evaluation to the stored objective and applying the move through
   * `applyMove`. Every applied move lowers the objective, so the loop ends,
   * and it ends with neither search finding an improving pair. The stored
   * objective stays the true one, except on a one-node tour, where it only
   * bounds the true objective from above. `appendIntra` is the random bit
   * that puts the intra search after the inter search.
   */
  method RunBasic(inst: Instance, s0: Solution, evaluation0: int, totalNodes: int, it0: Iterators,
                  neighborhoodMethod: string, searchMethod: string, appendIntra: bool, rand: nat -> nat)
    returns (s: Solution, evaluation: int, it: Iterators)
    requires inst.Symmetric() && inst.ZeroDiagonal() && inst.NonNegative()
    requires s0.Valid() && Distinct(s0.nodes) && InRange(s0.nodes, totalNodes)
    requires Covers(it0, |s0.nodes|, totalNodes)
    requires evaluation0 == TourCost(inst, s0.nodes)
    ensures s.Valid() && Distinct(s.nodes) && InRange(s.nodes, totalNodes) && |s.nodes| == |s0.nodes|
    ensures Covers(it, |s.nodes|, totalNodes)
    ensures TourCost(inst, s.nodes) <= evaluation <= evaluation0
    ensures |s0.nodes| != 1 ==> evaluation == TourCost(inst, s.nodes)
    ensures NoImprovement(inst, s, Inter, totalNodes) && NoImprovement(inst, s, IntraKind(neighborhoodMethod), totalNodes)
  {
    var intra := IntraKind(neighborhoodMethod);
    var first, second := if appendIntra then Inter else intra, if appendIntra then intra else Inter;
    var greedy := searchMethod == "GREEDY";
    s, evaluation, it := s0, evaluation0, it0;
    var used: nat := 0;
    var improving := true;
    CostNonNegative(inst, s.nodes);
    while improving
      invariant s.Valid() && Distinct(s.nodes) && InRange(s.nodes, totalNodes) && |s.nodes| == |s0.nodes|
      invariant Covers(it, |s.nodes|, totalNodes)
      invariant 0 <= TourCost(inst, s.nodes) <= evaluation <= evaluation0
      invariant |s0.nodes| != 1 ==> evaluation == TourCost(inst, s.nodes)
      invariant !improving ==> NoImprovement(inst, s, first, totalNodes) && NoImprovement(inst, s, second, totalNodes)
      decreases if improving then TourCost(inst, s.nodes) + 1 else 0
    {
      var best, chosen;
      best, chosen, it, used := Round(inst, s, first, second, it, totalNodes, greedy, rand, used);
      if best.delta >= 0 {
        improving := false;
      } else {
        ImprovingMove(inst, s, chosen, best.arg1, best.arg2, totalNodes);
        evaluation := evaluation + best.delta;
        s := ApplyMoveNamed(s, KindName(chosen), best.arg1, best.arg2);
        CostNonNegative(inst, s.nodes);
      }
    }
  }

  /** After a finished inter search, no exchange with an outside node lowers the objective (on two or more nodes). */
  lemma NoInterImprovement(inst: Instance, s: Solution, totalNodes: int, i: int, v: int)
    requires s.Valid() && NoImprovement(inst, s, Inter, totalNodes)
    requires |s.nodes| >= 2 && 0 <= i < |s.nodes| && 0 <= v < totalNodes && v !in s.nodes
    ensures TourCost(inst, ExchangeNodeAtIndex(s, i, v).nodes) >= TourCost(inst, s.nodes)
  {
    assert InBox(Inter, |s.nodes|, totalNodes, i, v) && Allowed(s, Inter, i, v);
    CalculateDeltaInterRouteExact(inst, s, i, v);
  }

  /** After a finished 2-opt search on a symmetric matrix, no 2-opt move lowers the objective. */
  lemma NoEdgesImprovement(inst: Instance, s: Solution, totalNodes: int, i: int, j: int)
    requires inst.Symmetric() && s.Valid() && NoImprovement(inst, s, IntraEdges, totalNodes)
    requires 0 <= i < |s.nodes| && 0 <= j < |s.nodes| && (i - j > 1 || j - i > 1)
    ensures TourCost(inst, ExchangeTwoEdges(s, i, j).nodes) >= TourCost(inst, s.nodes)
  {
    assert InBox(IntraEdges, |s.nodes|, totalNodes, i, j) && Allowed(s, IntraEdges, i, j);
    CalculateDeltaIntraRouteEdgesExact(inst, s, i, j);
  }

  /**
   * After a finished node-exchange search, no exchange of two positions
   * lowers the objective, except possibly the first and last positions,
   * which the node evaluation as written misprices.
   */
  lemma NoNodesImprovement(inst: Instance, s: Solution, totalNodes: int, i: int, j: int)
    requires inst.Symmetric() && s.Valid() && Distinct(s.nodes) && NoImprovement(inst, s, IntraNodes, totalNodes)
    requires 0 <= i < j < |s.nodes| && !(i == 0 && j == |s.nodes| - 1)
    ensures TourCost(inst, ExchangeTwoNodes(s, i, j).nodes) >= TourCost(inst, s.nodes)
  {
    var n := |s.nodes|;
    assert InBox(IntraNodes, n, totalNodes, i, j) && Allowed(s, IntraNodes, i, j);
    assert n != 2;
    assert !(Succ(j, n) == i && i != j);
    IntraRouteNodesAgrees(inst, s, i, j);
    CalculateDeltaIntraRouteNodesExact(inst, s, i, j);
  }

  // ---------------------------------------------------------------------
  // Perturbation
  // ---------------------------------------------------------------------

  /** A pair of edge indices the drawing loop accepts: both in 0 .. 99 and at least two apart. */
  predicate Accepted(e: (int, int))
  {
    0 <= e.0 <= 99 && 0 <= e.1 <= 99 && (e.0 - e.1 >= 2 || e.1 - e.0 >= 2)
  }

  /**
   * `perturbBestSolution`: `count` random 2-opt moves, each ordered so the
   * first edge index is the smaller, its evaluation added to the stored
   * objective. `draws(k)` is the pair the drawing loop accepted for the
   * k-th move. The code draws from 0 .. 99 ("assuming 100 edges"), so the
   * tour must have at least 100 nodes.
   */
  method PerturbBestSolution(inst: Instance, s0: Solution, evaluation0: int, count: int, draws: nat -> (int, int))
    returns (s: Solution, evaluation: int)
    requires inst.Symmetric() && s0.Valid() && |s0.nodes| >= 100
    requires forall k: nat :: Accepted(draws(k))
    requires evaluation0 == TourCost(inst, s0.nodes)
    ensures s.Valid() && multiset(s.nodes) == multiset(s0.nodes)
    ensures Distinct(s0.nodes) ==> Distinct(s.nodes)
    ensures evaluation == TourCost(inst, s.nodes)
  {
    s, evaluation := s0, evaluation0;
    var i: nat := 0;
    while i < count
      invariant s.Valid() && multiset(s.nodes) == multiset(s0.nodes) && |s.nodes| == |s0.nodes|
      invariant Distinct(s0.nodes) ==> Distinct(s.nodes)
      invariant evaluation == TourCost(inst, s.nodes)
    {
      var edge1, edge2 := draws(i).0, draws(i).1;
      if edge1 > edge2 {
        edge1, edge2 := edge2, edge1;
      }
      assert edge1 + 2 <= edge2 < |s.nodes|;
      var delta := CalculateDeltaIntraRouteEdges(inst, s, edge1, edge2);
      CalculateDeltaIntraRouteEdgesExact(inst, s, edge1, edge2);
      IntraExchangesValid(s, edge1, edge2);
      evaluation := evaluation + delta;
      s := ExchangeTwoEdges(s, edge1, edge2);
      i := i + 1;
    }
  }

  // ---------------------------------------------------------------------
  // Greedy-cycle repair
  // ---------------------------------------------------------------------

  /** The edge list of a tour: each node to the next, and the last back to the first. */
  function CycleEdges(nodes: seq<int>): (r: seq<(int, int)>)
    requires |nodes| >= 1
    ensures |r| == |nodes|
    ensures forall k :: 0 <= k < |r| ==> r[k] == (nodes[k], nodes[Succ(k, |nodes|)])
  {
    seq(|nodes|, k requires 0 <= k < |nodes| => (nodes[k], nodes[Succ(k, |nodes|)]))
  }

  /** Objective increase of putting node `k` between the two ends of edge `e`. */
  function InsertionCost(inst: Instance, e: (int, int), k: int): int
  {
    inst.D(e.0, k) + inst.D(e.1, k) - inst.D(e.0, e.1) + inst.C(k)
  }

  /** The scan over (node, edge) after every pair before (k, j): the best so far is the first strict minimum below `INT_MAX`. */
  ghost predicate InsertionState(inst: Instance, s: Solution, edges: seq<(int, int)>, best: int, node: int, edge: int, k: int, j: int)
  {
    InsertionBest(inst, s, edges, best, node, edge, k, j) && InsertionSeen(inst, s, edges, best, k, j)
  }

  ghost predicate InsertionBest(inst: Instance, s: Solution, edges: seq<(int, int)>, best: int, node: int, edge: int, k: int, j: int)
  {
    && (node == -1 ==> edge == -1 && best == IntMax)
    && (node != -1 ==>
          && 0 <= node < inst.Size() && !Contains(s, node) && 0 <= edge < |edges| && Before(node, edge, k, j)
          && best == InsertionCost(inst, edges[edge], node) < IntMax
          && (forall k', j' :: 0 <= k' < inst.Size() && !Contains(s, k') && 0 <= j' < |edges| && Before(k', j', node, edge) ==>
                InsertionCost(inst, edges[j'], k') > best))
  }

  ghost predicate InsertionSeen(inst: Instance, s: Solution, edges: seq<(int, int)>, best: int, k: int, j: int)
  {
    forall k', j' :: 0 <= k' < inst.Size() && !Contains(s, k') && 0 <= j' < |edges| && Before(k', j', k, j) ==>
      InsertionCost(inst, edges[j'], k') >= best
  }

  /** The inner loop of the repair's scan for one node outside the tour. */
  method InsertionRow(inst: Instance, s: Solution, edges: seq<(int, int)>, best0: int, node0: int, edge0: int, k: int)
    returns (best: int, node: int, edge: int)
    requires 0 <= k < inst.Size() && !Contains(s, k)
    requires InsertionState(inst, s, edges, best0, node0, edge0, k, 0)
    ensures InsertionState(inst, s, edges, best, node, edge, k + 1, 0)
  {
    best, node, edge := best0, node0, edge0;
    var j := 0;
    while j < |edges|
      invariant 0 <= j <= |edges|
      invariant InsertionState(inst, s, edges, best, node, edge, k, j)
    {
      var totalCost := InsertionCost(inst, edges[j], k);
      if totalCost < best {
        best, node, edge := totalCost, k, j;
      }
      j := j + 1;
    }
  }

  /**
   * The repair's choice: over the nodes outside the tour (outer loop) and
   * the edges (inner loop), the first pair of strictly smallest insertion
   * cost below `INT_MAX`; (-1, -1) when there is none.
   */
  method BestInsertion(inst: Instance, s: Solution, edges: seq<(int, int)>) returns (node: int, edge: int)
    ensures node == -1 <==> edge == -1
    ensures node == -1 ==> forall k, j :: 0 <= k < inst.Size() && !Contains(s, k) && 0 <= j < |edges| ==>
                             InsertionCost(inst, edges[j], k) >= IntMax
    ensures node != -1 ==>
              && 0 <= node < inst.Size() && !Contains(s, node) && 0 <= edge < |edges|
              && InsertionCost(inst, edges[edge], node) < IntMax
              && (forall k, j :: 0 <= k < inst.Size() && !Contains(s, k) && 0 <= j < |edges| ==>
                    InsertionCost(inst, edges[edge], node) <= InsertionCost(inst, edges[j], k))
              && (forall k, j :: 0 <= k < inst.Size() && !Contains(s, k) && 0 <= j < |edges| && Before(k, j, node, edge) ==>
                    InsertionCost(inst, edges[edge], node) < InsertionCost(inst, edges[j], k))
  {
    var best := IntMax;
    node, edge := -1, -1;
    var k := 0;
    while k < inst.Size()
      invariant 0 <= k <= inst.Size()
      invariant InsertionState(inst, s, edges, best, node, edge, k, 0)
    {
      if !Contains(s, k) {
        best, node, edge := InsertionRow(inst, s, edges, best, node, edge, k);
      }
      k := k + 1;
    }
  }

  /** Every edge joins two nodes of the tour. */
  ghost predicate EdgesOnTour(edges: seq<(int, int)>, nodes: seq<int>)
  {
    forall e :: e in edges ==> e.0 in nodes && e.1 in nodes
  }

  /**
   * The insertion phase of `greedyCycleRepair`: while the tour is short of
   * `numNodes`, insert the best (node, edge) pair: the edge is replaced by
   * the two edges to the new node, which `addNode` appends to the node list.
   * The edge list keeps one edge per node, every edge joins tour nodes, and
   * the inserted nodes are new, so the tour stays duplicate-free. The phase
   * ends at `numNodes` nodes or when no insertion is left.
   */
  method GreedyInsertion(inst: Instance, s0: Solution, numNodes: int) returns (s: Solution, edges: seq<(int, int)>)
    requires s0.Valid() && Distinct(s0.nodes) && |s0.nodes| >= 1
    ensures InsertionPhase(inst, s0, s, edges, numNodes)
    ensures |s.nodes| < numNodes ==> NoInsertion(inst, s, edges)
  {
    s := s0;
    edges := CycleEdges(s0.nodes);
    CycleEdgesOnTour(s0.nodes);
    CycleEdgesIsCycle(s0.nodes);
    assert s.nodes[..|s0.nodes|] == s0.nodes;
    var stop := false;
    while s.numNodes < numNodes && !stop
      invariant InsertionPhase(inst, s0, s, edges, numNodes)
      invariant stop ==> NoInsertion(inst, s, edges)
      decreases numNodes - s.numNodes, if stop then 0 else 1
    {
      s, edges, stop := InsertNext(inst, s0, s, edges, numNodes);
    }
  }

  /** No node outside the tour can be put on any edge at a cost below `INT_MAX`. */
  ghost predicate NoInsertion(inst: Instance, s: Solution, edges: seq<(int, int)>)
  {
    forall k, j :: 0 <= k < inst.Size() && k !in s.nodes && 0 <= j < |edges| ==> InsertionCost(inst, edges[j], k) >= IntMax
  }

  /** One round of the insertion loop: insert the best pair, or stop (the `break`) when there is none. */
  method InsertNext(inst: Instance, s0: Solution, s: Solution, edges: seq<(int, int)>, numNodes: int)
    returns (s': Solution, edges': seq<(int, int)>, stop: bool)
    requires InsertionPhase(inst, s0, s, edges, numNodes) && |s.nodes| < numNodes
    ensures InsertionPhase(inst, s0, s', edges', numNodes)
    ensures stop ==> s' == s && edges' == edges && NoInsertion(inst, s, edges)
    ensures !stop ==> |s'.nodes| == |s.nodes| + 1
  {
    var node, edge := BestInsertion(inst, s, edges);
    if edge == -1 || node == -1 {
      assert forall k :: Contains(s, k) <==> k in s.nodes;
      return s, edges, true;
    }
    InsertStep(inst, s0, s, edges, node, edge, numNodes);
    edges' := edges[..edge] + edges[edge + 1..] + [(edges[edge].0, node), (edges[edge].1, node)];
    s' := AddNode(s, node);
    stop := false;
  }

  /** The edges of a closed tour join nodes of the tour. */
  lemma CycleEdgesOnTour(nodes: seq<int>)
    requires |nodes| >= 1
    ensures EdgesOnTour(CycleEdges(nodes), nodes)
  {
    var edges := CycleEdges(nodes);
    forall e | e in edges
      ensures e.0 in nodes && e.1 in nodes
    {
      var k :| 0 <= k < |edges| && edges[k] == e;
    }
  }

  /**
   * The insertion phase's invariant: a valid duplicate-free solution that
   * extends the starting one with in-range nodes and never exceeds
   * `numNodes` once it has grown, and an edge list that is a cycle through
   * exactly its nodes, one edge per node.
   */
  ghost predicate InsertionPhase(inst: Instance, s0: Solution, s: Solution, edges: seq<(int, int)>, numNodes: int)
  {
    && s.Valid() && Distinct(s.nodes) && |edges| == |s.nodes| && EdgesOnTour(edges, s.nodes) && IsCycle(edges, s.nodes)
    && |s0.nodes| <= |s.nodes| && s.nodes[..|s0.nodes|] == s0.nodes
    && (forall k :: |s0.nodes| <= k < |s.nodes| ==> 0 <= s.nodes[k] < inst.Size())
    && (|s.nodes| > |s0.nodes| ==> |s.nodes| <= numNodes)
  }

  /** One insertion keeps the phase's invariant. */
  lemma InsertStep(inst: Instance, s0: Solution, s: Solution, edges: seq<(int, int)>, node: int, edge: int, numNodes: int)
    requires InsertionPhase(inst, s0, s, edges, numNodes) && |s.nodes| < numNodes
    requires 0 <= node < inst.Size() && !Contains(s, node) && 0 <= edge < |edges|
    ensures InsertionPhase(inst, s0, AddNode(s, node), edges[..edge] + edges[edge + 1..] + [(edges[edge].0, node), (edges[edge].1, node)], numNodes)
  {
    AddNodeValid(s, node);
    InsertKeepsEdges(edges, edge, node, s.nodes);
    InsertStepCycle(edges, edge, node, s.nodes);
    var s' := AddNode(s, node);
    assert s'.nodes[..|s0.nodes|] == s.nodes[..|s0.nodes|];
    assert forall k :: |s0.nodes| <= k < |s.nodes| ==> s'.nodes[k] == s.nodes[k];
  }

  /** Replacing an edge of the tour by two edges to a new node keeps every edge on the longer tour. */
  lemma InsertKeepsEdges(edges: seq<(int, int)>, edge: int, node: int, nodes: seq<int>)
    requires 0 <= edge < |edges| && EdgesOnTour(edges, nodes)
    ensures EdgesOnTour(edges[..edge] + edges[edge + 1..] + [(edges[edge].0, node), (edges[edge].1, node)], nodes + [node])
  {
    var r := edges[..edge] + edges[edge + 1..] + [(edges[edge].0, node), (edges[edge].1, node)];
    forall e | e in r
      ensures e.0 in nodes + [node] && e.1 in nodes + [node]
    {
      if e in edges[..edge] || e in edges[edge + 1..] {
        assert e in edges;
      }
      assert edges[edge] in edges;
    }
  }

  /** An edge list with orientation forgotten: every edge as its ascending pair. */
  function Undirected(edges: seq<(int, int)>): (r: seq<(int, int)>)
    ensures |r| == |edges|
    ensures forall k :: 0 <= k < |edges| ==> r[k] == Analysis.SortedPair(edges[k].0, edges[k].1)
  {
    seq(|edges|, k requires 0 <= k < |edges| => Analysis.SortedPair(edges[k].0, edges[k].1))
  }

  /** `edges` are the edges of the closed tour `order`, in some order and either orientation. */
  ghost predicate CycleThrough(edges: seq<(int, int)>, order: seq<int>)
  {
    |order| >= 1 && multiset(Undirected(edges)) == multiset(Undirected(CycleEdges(order)))
  }

  /** `edges` are the edges of a closed tour that visits exactly `nodes`, each as often as it is listed. */
  ghost predicate IsCycle(edges: seq<(int, int)>, nodes: seq<int>)
  {
    exists order :: multiset(order) == multiset(nodes) && CycleThrough(edges, order)
  }

  lemma UndirectedConcat(a: seq<(int, int)>, b: seq<(int, int)>)
    ensures Undirected(a + b) == Undirected(a) + Undirected(b)
  {
    assert forall k :: 0 <= k < |a + b| ==> Undirected(a + b)[k] == (Undirected(a) + Undirected(b))[k];
  }

  /** The undirected edges of a list after taking out edge `e`. */
  lemma UndirectedWithout(edges: seq<(int, int)>, e: int)
    requires 0 <= e < |edges|
    ensures multiset(Undirected(edges)) ==
            multiset(Undirected(edges[..e] + edges[e + 1..])) + multiset{Analysis.SortedPair(edges[e].0, edges[e].1)}
  {
    assert edges == edges[..e] + [edges[e]] + edges[e + 1..];
    UndirectedConcat(edges[..e] + [edges[e]], edges[e + 1..]);
    UndirectedConcat(edges[..e], [edges[e]]);
    UndirectedConcat(edges[..e], edges[e + 1..]);
  }

  /** Every listed edge of a cycle is, undirected, the edge from some position of the tour to the next. */
  lemma CycleEdgeAt(edges: seq<(int, int)>, order: seq<int>, e: int) returns (k: int)
    requires CycleThrough(edges, order) && 0 <= e < |edges|
    ensures 0 <= k < |order|
    ensures Analysis.SortedPair(edges[e].0, edges[e].1) == Analysis.SortedPair(order[k], order[Succ(k, |order|)])
  {
    var u := Undirected(edges);
    assert u[e] in multiset(u);
    var w := Undirected(CycleEdges(order));
    assert u[e] in multiset(w);
    k :| 0 <= k < |w| && w[k] == u[e];
  }

  /** Putting `node` after position `k` of a tour splits the edge from `k` to the next position in two. */
  lemma CycleEdgesInsert(order: seq<int>, k: int, node: int)
    requires 0 <= k < |order|
    ensures var n, c := |order|, CycleEdges(order);
            CycleEdges(order[..k + 1] + [node] + order[k + 1..]) == c[..k] + [(order[k], node), (node, order[Succ(k, n)])] + c[k + 1..]
  {
    var n, order' := |order|, order[..k + 1] + [node] + order[k + 1..];
    var c, c' := CycleEdges(order), CycleEdges(order');
    var r := c[..k] + [(order[k], node), (node, order[Succ(k, n)])] + c[k + 1..];
    forall j | 0 <= j < n + 1
      ensures c'[j] == r[j]
    {
      if j < k {
        assert order'[j] == order[j] && order'[j + 1] == order[j + 1];
      } else if j == k + 1 && k == n - 1 {
        assert order'[0] == order[0];
      } else if j > k + 1 {
        assert order'[j] == order[j - 1];
        assert order'[Succ(j, n + 1)] == order[Succ(j - 1, n)];
      }
    }
  }

  /** Equal sums with the same added element have equal rests. */
  lemma MultisetCancel<T>(x: multiset<T>, y: multiset<T>, p: T)
    requires x + multiset{p} == y + multiset{p}
    ensures x == y
  {
    assert x == x + multiset{p} - multiset{p};
    assert y == y + multiset{p} - multiset{p};
  }

  /** The undirected edges of a tour after putting `node` after position `k`. */
  lemma InsertIntoCycle(order: seq<int>, k: int, node: int)
    requires 0 <= k < |order|
    ensures var x, y := order[k], order[Succ(k, |order|)];
            multiset(Undirected(CycleEdges(order[..k + 1] + [node] + order[k + 1..]))) + multiset{Analysis.SortedPair(x, y)} ==
            multiset(Undirected(CycleEdges(order))) + multiset{Analysis.SortedPair(x, node), Analysis.SortedPair(node, y)}
  {
    var c, x, y := CycleEdges(order), order[k], order[Succ(k, |order|)];
    var mid := [(x, node), (node, y)];
    CycleEdgesInsert(order, k, node);
    UndirectedConcat(c[..k] + mid, c[k + 1..]);
    UndirectedConcat(c[..k], mid);
    UndirectedWithout(c, k);
    UndirectedConcat(c[..k], c[k + 1..]);
    assert Undirected(mid) == [Analysis.SortedPair(x, node), Analysis.SortedPair(node, y)];
  }

  /** The undirected edges of the list after replacing edge `edge` by the two edges to `node`. */
  lemma ReplaceEdge(edges: seq<(int, int)>, edge: int, node: int)
    requires 0 <= edge < |edges|
    ensures var a, b := edges[edge].0, edges[edge].1;
            multiset(Undirected(edges[..edge] + edges[edge + 1..] + [(a, node), (b, node)])) + multiset{Analysis.SortedPair(a, b)} ==
            multiset(Undirected(edges)) + multiset{Analysis.SortedPair(a, node), Analysis.SortedPair(b, node)}
  {
    var a, b := edges[edge].0, edges[edge].1;
    UndirectedWithout(edges, edge);
    UndirectedConcat(edges[..edge] + edges[edge + 1..], [(a, node), (b, node)]);
    assert Undirected([(a, node), (b, node)]) == [Analysis.SortedPair(a, node), Analysis.SortedPair(b, node)];
  }

  /**
   * The insertion step keeps the edge list a cycle: inserting `node` on a
   * listed edge corresponds to inserting it into the tour between that
   * edge's two ends.
   */
  lemma InsertKeepsCycle(edges: seq<(int, int)>, edge: int, node: int, order: seq<int>) returns (order': seq<int>)
    requires CycleThrough(edges, order) && 0 <= edge < |edges|
    ensures multiset(order') == multiset(order) + multiset{node}
    ensures CycleThrough(edges[..edge] + edges[edge + 1..] + [(edges[edge].0, node), (edges[edge].1, node)], order')
  {
    var k := CycleEdgeAt(edges, order, edge);
    var n := |order|;
    order' := order[..k + 1] + [node] + order[k + 1..];
    assert order == order[..k + 1] + order[k + 1..];
    var a, b, x, y := edges[edge].0, edges[edge].1, order[k], order[Succ(k, n)];
    InsertIntoCycle(order, k, node);
    ReplaceEdge(edges, edge, node);
    Analysis.SortedPairSymmetric(node, y);
    Analysis.SortedPairSymmetric(x, y);
    Analysis.SortedPairSymmetric(a, b);
    assert multiset{Analysis.SortedPair(a, node), Analysis.SortedPair(b, node)} ==
           multiset{Analysis.SortedPair(x, node), Analysis.SortedPair(node, y)};
    MultisetCancel(multiset(Undirected(edges[..edge] + edges[edge + 1..] + [(a, node), (b, node)])),
                   multiset(Undirected(CycleEdges(order'))), Analysis.SortedPair(x, y));
  }

  /** One insertion keeps the edge list a cycle through the nodes, now with `node` added. */
  lemma InsertStepCycle(edges: seq<(int, int)>, edge: int, node: int, nodes: seq<int>)
    requires IsCycle(edges, nodes) && 0 <= edge < |edges|
    ensures IsCycle(edges[..edge] + edges[edge + 1..] + [(edges[edge].0, node), (edges[edge].1, node)], nodes + [node])
  {
    var order :| multiset(order) == multiset(nodes) && CycleThrough(edges, order);
    var order' := InsertKeepsCycle(edges, edge, node, order);
    assert multiset(order') == multiset(nodes + [node]);
  }

  /** A closed tour's own edge list is a cycle through it. */
  lemma CycleEdgesIsCycle(nodes: seq<int>)
    requires |nodes| >= 1
    ensures IsCycle(CycleEdges(nodes), nodes)
  {
    assert CycleThrough(CycleEdges(nodes), nodes);
  }

  /**
   * The first edge (scanning the list) with an end at `v`, and its other end;
   * `None` when no edge touches `v`.
   */
  function FindLink(edges: seq<(int, int)>, v: int): (r: Option<(int, int)>)
    ensures r.Some? ==> && 0 <= r.value.0 < |edges|
                        && (edges[r.value.0] == (v, r.value.1) || (edges[r.value.0].0 != v && edges[r.value.0] == (r.value.1, v)))
                        && forall i :: 0 <= i < r.value.0 ==> edges[i].0 != v && edges[i].1 != v
    ensures r.None? ==> forall i :: 0 <= i < |edges| ==> edges[i].0 != v && edges[i].1 != v
    decreases |edges|
  {
    if |edges| == 0 then None
    else if edges[0].0 == v then Some((0, edges[0].1))
    else if edges[0].1 == v then Some((0, edges[0].0))
    else match FindLink(edges[1..], v)
      case None => None
      case Some(p) => Some((p.0 + 1, p.1))
  }

  /**
   * The ordering phase: follow edges from the last listed node, removing
   * each edge used, until one edge is left. When no remaining edge touches
   * the last node the code loops forever; that outcome is `None`.
   */
  function Reorder(edges: seq<(int, int)>, order: seq<int>): Option<seq<int>>
    requires |order| >= 1
    decreases |edges|
  {
    if |edges| <= 1 then Some(order)
    else match FindLink(edges, order[|order| - 1])
      case None => None
      case Some(link) => Reorder(edges[..link.0] + edges[link.0 + 1..], order + [link.1])
  }

  /**
   * When the ordering phase finishes, it has appended one node per used
   * edge, and every two consecutive nodes of the result are joined by an
   * edge of the list (in one direction or the other). It does not establish
   * that the result visits every node once.
   */
  lemma {:induction false} ReorderFollowsEdges(edges: seq<(int, int)>, order: seq<int>)
    requires |order| >= 1 && |edges| >= 1
    requires Reorder(edges, order).Some?
    ensures var r := Reorder(edges, order).value;
            && |r| == |order| + |edges| - 1 && r[..|order|] == order
            && forall k :: |order| - 1 <= k < |r| - 1 ==> (r[k], r[k + 1]) in edges || (r[k + 1], r[k]) in edges
    decreases |edges|
  {
    if |edges| > 1 {
      var link := FindLink(edges, order[|order| - 1]).value;
      var rest := edges[..link.0] + edges[link.0 + 1..];
      var order' := order + [link.1];
      ReorderFollowsEdges(rest, order');
      var r := Reorder(edges, order).value;
      assert r == Reorder(rest, order').value;
      assert r[..|order'|] == order';
      forall k | |order| - 1 <= k < |r| - 1
        ensures (r[k], r[k + 1]) in edges || (r[k + 1], r[k]) in edges
      {
        if k == |order| - 1 {
          assert r[k] == order[|order| - 1] && r[k + 1] == link.1;
          assert edges[link.0] in edges;
        } else {
          assert (r[k], r[k + 1]) in rest || (r[k + 1], r[k]) in rest;
          assert forall e :: e in rest ==> e in edges;
        }
      }
    }
  }

  /**
   * `greedyCycleRepair`: the insertion phase, then the ordering phase
   * started from the first node of the first edge. The result is the
   * enlarged solution and the reordered node list (`None` where the code
   * would not return); when there is one, it has one entry per node and
   * follows the edge list.
   */
  method GreedyCycleRepair(inst: Instance, s0: Solution, numNodes: int)
    returns (s: Solution, order: Option<seq<int>>, edges: seq<(int, int)>)
    requires s0.Valid() && Distinct(s0.nodes) && |s0.nodes| >= 1
    ensures s.Valid() && Distinct(s.nodes) && |s0.nodes| <= |s.nodes| && s.nodes[..|s0.nodes|] == s0.nodes
    ensures |edges| == |s.nodes| && EdgesOnTour(edges, s.nodes) && IsCycle(edges, s.nodes)
    ensures order.Some? ==>
              && |order.value| == |s.nodes|
              && (forall k :: 0 <= k < |order.value| ==> order.value[k] in s.nodes)
              && (forall k :: 0 <= k < |order.value| - 1 ==>
                    (order.value[k], order.value[k + 1]) in edges || (order.value[k + 1], order.value[k]) in edges)
  {
    s, edges := GreedyInsertion(inst, s0, numNodes);
    assert edges[0] in edges;
    order := Reorder(edges, [edges[0].0]);
    if order.Some? {
      ReorderFollowsEdges(edges, [edges[0].0]);
      var r := order.value;
      forall k | 0 <= k < |r|
        ensures r[k] in s.nodes
      {
        if k > 0 {
          assert (r[k - 1], r[k]) in edges || (r[k], r[k - 1]) in edges;
        }
      }
    }
  }
}
