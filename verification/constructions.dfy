/**
 * The constructive heuristics of the first lab: random search, nearest
 * neighbour appending at the end, nearest neighbour inserting anywhere,
 * greedy cycle and greedy 2-regret. Every heuristic grows a tour from a
 * start node one node at a time. One step scans the (node, position)
 * candidates in the order of the C loops. It keeps every candidate whose
 * value ties the best seen so far and drops the list when a strictly better
 * value appears. It then picks tie number `rand() % ties` and places that
 * node. `rand()` is an oracle parameter. A tour is grown until it holds half
 * of the nodes, rounded up.
 */
module Constructions {
  import opened Tours
  import opened Costs
  import opened Records
  import Ranking
  import GreedyUtils
  import LocalSearchRun
  import Analysis

  /** A quarter of `INT_MAX`: bound on every distance and node cost. */
  const Quarter: int := IntMax / 4

  /**
   * Every distance and node cost is at most `Quarter` in magnitude, so the
   * sums the heuristics form (at most four terms) stay inside C's `int`.
   */
  ghost predicate IntSized(inst: Instance)
  {
    && (forall a, b :: -Quarter <= inst.D(a, b) <= Quarter)
    && (forall a :: -Quarter <= inst.C(a) <= Quarter)
  }

  /** One entry of a candidate scan: the node, the index it would be placed at, and the value compared. */
  datatype Cand = Cand(node: int, pos: int, value: int)

  /** The candidates of `cands` with value `v`, in scan order. */
  function WithValue(cands: seq<Cand>, v: int): seq<Cand>
    decreases |cands|
  {
    if |cands| == 0 then []
    else
      var rest := WithValue(cands[..|cands| - 1], v);
      if cands[|cands| - 1].value == v then rest + [cands[|cands| - 1]] else rest
  }

  /**
   * The tie-collecting minimum scan (`min_distance = INT_MAX` / `min_increase
   * = INT_MAX` in the C code, passed as `init`): a strictly smaller value
   * restarts the list, an equal value joins it. The scan ends with the
   * smallest value (or `init` when nothing is at most `init`) and exactly the
   * candidates that reach it.
   */
  function MinTies(cands: seq<Cand>, init: int): (r: (int, seq<Cand>))
    ensures r.0 <= init
    ensures forall k :: 0 <= k < |cands| ==> r.0 <= cands[k].value
    ensures forall d :: d in cands ==> r.0 <= d.value
    ensures forall c :: c in r.1 <==> c in cands && c.value == r.0
    ensures r.0 == init || |r.1| > 0
    ensures (exists k :: 0 <= k < |cands| && cands[k].value <= init) ==> |r.1| > 0
    decreases |cands|
  {
    if |cands| == 0 then (init, [])
    else
      var init' := cands[..|cands| - 1];
      var c := cands[|cands| - 1];
      assert cands == init' + [c];
      var p := MinTies(init', init);
      assert forall k :: 0 <= k < |init'| ==> init'[k] == cands[k];
      if c.value < p.0 then (c.value, [c])
      else if c.value == p.0 then (p.0, p.1 + [c])
      else p
  }

  /** The maximum counterpart (`max_distance = -1` and `max_regret = INT_MIN` in the C code). */
  function MaxTies(cands: seq<Cand>, init: int): (r: (int, seq<Cand>))
    ensures r.0 >= init
    ensures forall k :: 0 <= k < |cands| ==> r.0 >= cands[k].value
    ensures forall c :: c in r.1 <==> c in cands && c.value == r.0
    ensures r.0 == init || |r.1| > 0
    ensures (exists k :: 0 <= k < |cands| && cands[k].value >= init) ==> |r.1| > 0
    decreases |cands|
  {
    if |cands| == 0 then (init, [])
    else
      var init' := cands[..|cands| - 1];
      var c := cands[|cands| - 1];
      assert cands == init' + [c];
      var p := MaxTies(init', init);
      assert forall k :: 0 <= k < |init'| ==> init'[k] == cands[k];
      if c.value > p.0 then (c.value, [c])
      else if c.value == p.0 then (p.0, p.1 + [c])
      else p
  }

  lemma {:induction false} WithValueNone(cands: seq<Cand>, v: int)
    requires forall k :: 0 <= k < |cands| ==> cands[k].value != v
    ensures WithValue(cands, v) == []
    decreases |cands|
  {
    if |cands| > 0 {
      WithValueNone(cands[..|cands| - 1], v);
    }
  }

  /** The tie list of the minimum scan keeps the scan order: it is the filter of the candidates by the final value. */
  lemma {:induction false} MinTiesInOrder(cands: seq<Cand>, init: int)
    ensures MinTies(cands, init).1 == WithValue(cands, MinTies(cands, init).0)
    decreases |cands|
  {
    if |cands| > 0 {
      var init', c := cands[..|cands| - 1], cands[|cands| - 1];
      var p := MinTies(init', init);
      MinTiesInOrder(init', init);
      if c.value < p.0 {
        WithValueNone(init', c.value);
      }
    }
  }

  /** The same for the maximum scan. */
  lemma {:induction false} MaxTiesInOrder(cands: seq<Cand>, init: int)
    ensures MaxTies(cands, init).1 == WithValue(cands, MaxTies(cands, init).0)
    decreases |cands|
  {
    if |cands| > 0 {
      var init', c := cands[..|cands| - 1], cands[|cands| - 1];
      var p := MaxTies(init', init);
      MaxTiesInOrder(init', init);
      if c.value > p.0 {
        WithValueNone(init', c.value);
      }
    }
  }

  // ---------------------------------------------------------------------------
  // Insertion

  /** Objective change of placing `j` between `prev` and `next` (the C `increase` / `insertion_cost`). */
  function Increase(inst: Instance, prev: int, j: int, next: int): int
  {
    inst.D(prev, j) + inst.D(j, next) - inst.D(prev, next) + inst.C(j)
  }

  /** Node before insertion index `pos` on the cycle (`pos == 0 ? t[count - 1] : t[pos - 1]`). */
  function PrevAt(t: seq<int>, pos: int): int
    requires 1 <= |t| && 0 <= pos <= |t|
  {
    if pos == 0 then t[|t| - 1] else t[pos - 1]
  }

  /** Node after insertion index `pos` on the cycle (`pos == count ? t[0] : t[pos]`). */
  function NextAt(t: seq<int>, pos: int): int
    requires 1 <= |t| && 0 <= pos <= |t|
  {
    if pos == |t| then t[0] else t[pos]
  }

  /** `t` with `x` placed at index `pos`. */
  function InsertedAt(t: seq<int>, pos: int, x: int): (r: seq<int>)
    requires 0 <= pos <= |t|
    ensures |r| == |t| + 1 && r[pos] == x
    ensures multiset(r) == multiset(t) + multiset{x}
  {
    assert t == t[..pos] + t[pos..];
    t[..pos] + [x] + t[pos..]
  }

  /**
   * The C shift loop: move entries `count - 1` down to `pos` one slot to the
   * right, then write `x` at `pos`. The result is `t` with `x` placed at
   * `pos`, every other node keeping its relative order.
   */
  method InsertAt(t: seq<int>, pos: int, x: int) returns (r: seq<int>)
    requires 0 <= pos <= |t|
    ensures |r| == |t| + 1 && r[pos] == x
    ensures r[..pos] == t[..pos] && r[pos + 1..] == t[pos..]
  {
    var a := t + [x];
    var m := |t|;
    while m > pos
      invariant pos <= m <= |t| && |a| == |t| + 1
      invariant a[..m] == t[..m]
      invariant a[m + 1..] == t[m..]
    {
      assert a[m + 1..] == t[m..];
      a := a[m := a[m - 1]];
      assert a[m..] == [t[m - 1]] + t[m..];
      m := m - 1;
    }
    a := a[pos := x];
    r := a;
  }

  /** The shift loop yields exactly the inserted sequence. */
  lemma InsertAtIsInsertedAt(t: seq<int>, pos: int, x: int, r: seq<int>)
    requires 0 <= pos <= |t|
    requires |r| == |t| + 1 && r[pos] == x && r[..pos] == t[..pos] && r[pos + 1..] == t[pos..]
    ensures r == InsertedAt(t, pos, x)
  {
    assert r == r[..pos] + [r[pos]] + r[pos + 1..];
  }

  /**
   * Placing `x` at index `pos` of a closed tour changes its objective by
   * exactly the increase of putting `x` between the nodes around `pos`.
   */
  lemma InsertCost(inst: Instance, t: seq<int>, pos: int, x: int)
    requires 1 <= |t| && 0 <= pos <= |t|
    ensures TourCost(inst, InsertedAt(t, pos, x)) == TourCost(inst, t) + Increase(inst, PrevAt(t, pos), x, NextAt(t, pos))
  {
    var p, q := t[..pos], t[pos..];
    assert t == p + q;
    CostSplit3(inst, p, x, q);
    LinLenConcat(inst, p, q);
    NodeCostsConcat(inst, p, q);
    if pos == 0 {
      assert q == t;
    } else if pos == |t| {
      assert p == t;
    } else {
      assert p[|p| - 1] == t[pos - 1] && q[0] == t[pos] && p[0] == t[0] && q[|q| - 1] == t[|t| - 1];
    }
  }

  /** Inserting a node that is not in the tour keeps the tour duplicate-free and in range. */
  lemma InsertKeepsTour(t: seq<int>, pos: int, x: int, n: int)
    requires 0 <= pos <= |t| && Distinct(t) && InRange(t, n) && x !in t && 0 <= x < n
    ensures Distinct(InsertedAt(t, pos, x)) && InRange(InsertedAt(t, pos, x), n)
    ensures forall v :: v in InsertedAt(t, pos, x) <==> v in t || v == x
  {
    var r := InsertedAt(t, pos, x);
    var a := t + [x];
    forall p, q | 0 <= p < q < |a|
      ensures a[p] != a[q]
    {
      if q == |t| {
        assert a[p] == t[p];
      }
    }
    assert multiset(r) == multiset(a);
    DistinctPermutation(a, r);
    InRangePermutation(a, r, n);
    forall v
      ensures v in r <==> v in t || v == x
    {
      assert v in r <==> v in multiset(r);
      assert v in t <==> v in multiset(t);
    }
  }

  // ---------------------------------------------------------------------------
  // Candidate scans

  datatype Heuristic = EndInsert | AnywhereInsert | GreedyCycle | TwoRegret

  /** Nodes `0 .. n - 1` not in the tour, in the order of the C `for (j = 0; j < num_nodes; j++) if (!visited[j])`. */
  function Unvisited(t: seq<int>, n: int): (r: seq<int>)
    ensures forall v :: v in r <==> 0 <= v < n && v !in t
  {
    LocalSearchRun.OutsideMembers(t, n, 0);
    LocalSearchRun.Outside(t, n, 0)
  }

  /** When every node from `v` on is visited, none is left to scan. */
  lemma {:induction false} NoneOutside(t: seq<int>, n: int, v: int)
    ensures (forall w :: v <= w < n ==> w in t) ==> LocalSearchRun.Outside(t, n, v) == []
    decreases n - v
  {
    if v < n {
      NoneOutside(t, n, v + 1);
    }
  }

  /** Anywhere insert: node `j` at every index `0 .. count`. */
  function AnywhereRow(inst: Instance, t: seq<int>, j: int): seq<Cand>
    requires |t| >= 1
  {
    seq(|t| + 1, pos requires 0 <= pos <= |t| => Cand(j, pos, Increase(inst, PrevAt(t, pos), j, NextAt(t, pos))))
  }

  /** Greedy cycle: node `j` between `t[pos]` and `t[(pos + 1) % count]`, placed at index `(pos + 1) % count`. */
  function CycleRow(inst: Instance, t: seq<int>, j: int): seq<Cand>
    requires |t| >= 1
  {
    seq(|t|, pos requires 0 <= pos < |t| => Cand(j, Succ(pos, |t|), Increase(inst, t[pos], j, t[Succ(pos, |t|)])))
  }

  /** Insertion costs of node `k` after each position `j` of the tour (between `t[j]` and `t[(j + 1) % size]`). */
  function SlotCosts(inst: Instance, t: seq<int>, k: int): (r: seq<int>)
    requires |t| >= 1
    ensures |r| == |t|
    ensures forall j :: 0 <= j < |t| ==> r[j] == Increase(inst, t[j], k, t[Succ(j, |t|)])
  {
    seq(|t|, j requires 0 <= j < |t| => Increase(inst, t[j], k, t[Succ(j, |t|)]))
  }

  /** What the 2-regret position scan of one node ends with. */
  datatype SlotScan = SlotScan(smallest: int, second: int, bestPos: int)

  /**
   * The 2-regret position scan: a new strict minimum demotes the old one to
   * second place and records index `(j + 1) % (size + 1)` (`Succ`); a value below the
   * second only replaces the second.
   */
  function ScanSlots(costs: seq<int>, size: int): (r: SlotScan)
    requires |costs| <= size
    ensures r.smallest <= r.second <= IntMax
    ensures -1 <= r.bestPos <= |costs|
    decreases |costs|
  {
    if |costs| == 0 then SlotScan(IntMax, IntMax, -1)
    else
      var j := |costs| - 1;
      var p := ScanSlots(costs[..j], size);
      if costs[j] < p.smallest then SlotScan(costs[j], p.smallest, Succ(j, size + 1))
      else if costs[j] < p.second then p.(second := costs[j])
      else p
  }

  /**
   * The scan ends with the first strict minimum below `INT_MAX` and its index
   * plus one (`INT_MAX` and -1 when every cost is at least `INT_MAX`).
   */
  lemma {:induction false} ScanSlotsSmallest(costs: seq<int>, size: int)
    requires |costs| <= size
    ensures var f := Ranking.FirstMin(costs, IntMax);
            var r := ScanSlots(costs, size);
            && r.smallest == (if f == -1 then IntMax else costs[f])
            && r.bestPos == (if f == -1 then -1 else f + 1)
    decreases |costs|
  {
    if |costs| > 0 {
      var j := |costs| - 1;
      var init := costs[..j];
      ScanSlotsSmallest(init, size);
    }
  }

  /**
   * The second value the scan ends with is the second smallest cost counted
   * with repetition: at most every cost but the first minimum, and one of
   * them (or `INT_MAX` when there is none below it).
   */
  lemma {:induction false} ScanSlotsSecond(costs: seq<int>, size: int)
    requires |costs| <= size
    ensures var f := Ranking.FirstMin(costs, IntMax);
            var r := ScanSlots(costs, size);
            && (forall k :: 0 <= k < |costs| && k != f ==> r.second <= costs[k])
            && (r.second == IntMax || exists k :: 0 <= k < |costs| && k != f && costs[k] == r.second)
    decreases |costs|
  {
    if |costs| > 0 {
      var j := |costs| - 1;
      var init := costs[..j];
      assert forall k :: 0 <= k < j ==> init[k] == costs[k];
      ScanSlotsSmallest(init, size);
      ScanSlotsSecond(init, size);
    }
  }

  /** The regret of a scanned node: second smallest minus smallest, 0 when there is no second. */
  function Regret(s: SlotScan): (r: int)
    requires s.smallest <= s.second
    ensures r >= 0
    ensures s.second == IntMax ==> r == 0
  {
    var second := if s.second == IntMax then s.smallest else s.second;
    second - s.smallest
  }

  /** The 2-regret candidate for node `k`: its best index and its regret. */
  function RegretCand(inst: Instance, t: seq<int>, k: int): Cand
    requires |t| >= 1
  {
    var s := ScanSlots(SlotCosts(inst, t, k), |t|);
    Cand(k, s.bestPos, Regret(s))
  }

  /** The candidates one node contributes to a scan. */
  function Row(h: Heuristic, inst: Instance, t: seq<int>, j: int): seq<Cand>
    requires |t| >= 1
  {
    match h
    case EndInsert => [Cand(j, |t|, inst.D(t[|t| - 1], j))]
    case AnywhereInsert => AnywhereRow(inst, t, j)
    case GreedyCycle => CycleRow(inst, t, j)
    case TwoRegret => [RegretCand(inst, t, j)]
  }

  /** The rows of the nodes `u`, in order. */
  function Rows(h: Heuristic, inst: Instance, t: seq<int>, u: seq<int>): seq<Cand>
    requires |t| >= 1
    decreases |u|
  {
    if |u| == 0 then [] else Row(h, inst, t, u[0]) + Rows(h, inst, t, u[1..])
  }

  /** Everything one growth step of heuristic `h` compares, in the C scan order. */
  function Candidates(h: Heuristic, inst: Instance, t: seq<int>, n: int): seq<Cand>
    requires |t| >= 1
  {
    Rows(h, inst, t, Unvisited(t, n))
  }

  /** The tie list a step draws from: maximum regret for 2-regret, minimum value otherwise. */
  function Ties(h: Heuristic, cands: seq<Cand>): seq<Cand>
  {
    if h == TwoRegret then MaxTies(cands, IntMin).1 else MinTies(cands, IntMax).1
  }

  /** Placing the chosen candidate: appended at the end, or inserted at its index. */
  function Place(h: Heuristic, t: seq<int>, c: Cand): seq<int>
    requires h == EndInsert || 0 <= c.pos <= |t|
  {
    if h == EndInsert then t + [c.node] else InsertedAt(t, c.pos, c.node)
  }

  // ---------------------------------------------------------------------------
  // What the scans contain

  /** What a candidate of heuristic `h` for node `c.node` holds. */
  ghost predicate RowEntry(h: Heuristic, inst: Instance, t: seq<int>, c: Cand)
    requires |t| >= 1
  {
    match h
    case EndInsert => c.pos == |t| && c.value == inst.D(t[|t| - 1], c.node)
    case AnywhereInsert =>
      0 <= c.pos <= |t| && c.value == Increase(inst, PrevAt(t, c.pos), c.node, NextAt(t, c.pos))
    case GreedyCycle =>
      0 <= c.pos < |t| && c.value == Increase(inst, PrevAt(t, c.pos), c.node, NextAt(t, c.pos))
    case TwoRegret => c == RegretCand(inst, t, c.node)
  }

  /** A row holds exactly the entries of its node. */
  lemma RowMembers(h: Heuristic, inst: Instance, t: seq<int>, j: int, c: Cand)
    requires |t| >= 1
    ensures c in Row(h, inst, t, j) <==> c.node == j && RowEntry(h, inst, t, c)
  {
    var n := |t|;
    match h
    case EndInsert =>
    case TwoRegret =>
    case AnywhereInsert =>
      if c.node == j && RowEntry(h, inst, t, c) {
        assert AnywhereRow(inst, t, j)[c.pos] == c;
      }
    case GreedyCycle =>
      if c.node == j && RowEntry(h, inst, t, c) {
        var p := Pred(c.pos, n);
        assert Succ(p, n) == c.pos;
        assert CycleRow(inst, t, j)[p] == c;
      }
      if c in CycleRow(inst, t, j) {
        var p :| 0 <= p < n && CycleRow(inst, t, j)[p] == c;
        assert PrevAt(t, Succ(p, n)) == t[p];
      }
  }

  /** The rows of `u` hold exactly the entries of the nodes of `u`. */
  lemma {:induction false} RowsMembers(h: Heuristic, inst: Instance, t: seq<int>, u: seq<int>, c: Cand)
    requires |t| >= 1
    ensures c in Rows(h, inst, t, u) <==> c.node in u && RowEntry(h, inst, t, c)
    decreases |u|
  {
    if |u| > 0 {
      RowMembers(h, inst, t, u[0], c);
      RowsMembers(h, inst, t, u[1..], c);
      assert c.node in u <==> c.node == u[0] || c.node in u[1..] by {
        assert u == [u[0]] + u[1..];
      }
    }
  }

  /** A step compares exactly the entries of the unvisited nodes. */
  lemma CandidatesMembers(h: Heuristic, inst: Instance, t: seq<int>, n: int, c: Cand)
    requires |t| >= 1
    ensures c in Candidates(h, inst, t, n) <==> 0 <= c.node < n && c.node !in t && RowEntry(h, inst, t, c)
  {
    RowsMembers(h, inst, t, Unvisited(t, n), c);
  }

  /** Under `IntSized` every insertion increase lies strictly inside C's `int`. */
  lemma IncreaseInInt(inst: Instance, prev: int, j: int, next: int)
    requires IntSized(inst)
    ensures IntMin < Increase(inst, prev, j, next) < IntMax
  {
  }

  /** Under `IntSized` no insertion cost reaches `INT_MAX`, so the position scan always finds a minimum. */
  lemma SlotCostsBelowMax(inst: Instance, t: seq<int>, k: int)
    requires IntSized(inst) && |t| >= 1
    ensures forall j :: 0 <= j < |t| ==> SlotCosts(inst, t, k)[j] < IntMax
    ensures Ranking.FirstMin(SlotCosts(inst, t, k), IntMax) != -1
  {
    var costs := SlotCosts(inst, t, k);
    forall j | 0 <= j < |t|
      ensures costs[j] < IntMax
    {
      IncreaseInInt(inst, t[j], k, t[Succ(j, |t|)]);
    }
    assert costs[0] < IntMax;
  }

  /**
   * The 2-regret candidate of node `k` is placed at its first cheapest index
   * (between 1 and `count`), and the scan's smallest cost is the increase of
   * inserting there.
   */
  lemma RegretCandPlace(inst: Instance, t: seq<int>, k: int)
    requires IntSized(inst) && |t| >= 1
    ensures var c := RegretCand(inst, t, k);
            var s := ScanSlots(SlotCosts(inst, t, k), |t|);
            && 1 <= c.pos <= |t|
            && s.smallest == Increase(inst, PrevAt(t, c.pos), k, NextAt(t, c.pos))
  {
    var costs := SlotCosts(inst, t, k);
    var f := Ranking.FirstMin(costs, IntMax);
    var s := ScanSlots(costs, |t|);
    SlotCostsBelowMax(inst, t, k);
    ScanSlotsSmallest(costs, |t|);
    assert 0 <= f < |t| && s.bestPos == f + 1 && s.smallest == costs[f];
    assert RegretCand(inst, t, k).pos == s.bestPos;
    assert costs[f] == Increase(inst, t[f], k, t[Succ(f, |t|)]);
    assert PrevAt(t, f + 1) == t[f] && NextAt(t, f + 1) == t[Succ(f, |t|)];
  }

  /** The scan's smallest cost is at most the increase of inserting `k` at any index. */
  lemma RegretCandCheapest(inst: Instance, t: seq<int>, k: int)
    requires IntSized(inst) && |t| >= 1
    ensures var s := ScanSlots(SlotCosts(inst, t, k), |t|);
            forall pos :: 0 <= pos <= |t| ==> s.smallest <= Increase(inst, PrevAt(t, pos), k, NextAt(t, pos))
  {
    var costs := SlotCosts(inst, t, k);
    SlotCostsBelowMax(inst, t, k);
    ScanSlotsSmallest(costs, |t|);
    forall pos | 0 <= pos <= |t|
      ensures ScanSlots(costs, |t|).smallest <= Increase(inst, PrevAt(t, pos), k, NextAt(t, pos))
    {
      var j := if pos == 0 then |t| - 1 else pos - 1;
      assert PrevAt(t, pos) == t[j] && NextAt(t, pos) == t[Succ(j, |t|)];
      assert costs[j] == Increase(inst, PrevAt(t, pos), k, NextAt(t, pos));
    }
  }

  /** With at least two positions the regret is the gap between the second cheapest and the cheapest insertion. */
  lemma RegretCandValue(inst: Instance, t: seq<int>, k: int)
    requires IntSized(inst) && |t| >= 2
    ensures var s := ScanSlots(SlotCosts(inst, t, k), |t|);
            s.second < IntMax && RegretCand(inst, t, k).value == s.second - s.smallest
  {
    var costs := SlotCosts(inst, t, k);
    var f := Ranking.FirstMin(costs, IntMax);
    SlotCostsBelowMax(inst, t, k);
    ScanSlotsSecond(costs, |t|);
    var other := if f == 0 then 1 else 0;
    assert costs[other] < IntMax;
  }

  // ---------------------------------------------------------------------------
  // One growth step

  /** What the C code does with a chosen candidate is defined: a valid node, and a valid index to insert at. */
  lemma ChoiceValid(h: Heuristic, inst: Instance, t: seq<int>, n: int, c: Cand)
    requires IntSized(inst) && |t| >= 1
    requires c in Ties(h, Candidates(h, inst, t, n))
    ensures 0 <= c.node < n && c.node !in t
    ensures 0 <= c.pos <= |t|
  {
    CandidatesMembers(h, inst, t, n, c);
    if h == TwoRegret {
      RegretCandPlace(inst, t, c.node);
    }
  }

  /**
   * The C code keeps the ties in `best_nodes[num_nodes]` and
   * `best_positions[num_nodes]`, but a tie is a (node, position) pair: on
   * three nodes at zero distance and cost the first anywhere-insertion step
   * already has four ties, one more than the arrays hold.
   */
  lemma TiesOverflowSlots(inst: Instance, t: seq<int>, n: int)
    requires forall a, b :: inst.D(a, b) == 0
    requires forall a :: inst.C(a) == 0
    requires t == [0] && n == 3
    ensures |Ties(AnywhereInsert, Candidates(AnywhereInsert, inst, t, n))| > n
  {
    var cands := Candidates(AnywhereInsert, inst, t, n);
    var four := {Cand(1, 0, 0), Cand(1, 1, 0), Cand(2, 0, 0), Cand(2, 1, 0)};
    forall c | c in four
      ensures c in cands
    {
      CandidatesMembers(AnywhereInsert, inst, t, n, c);
    }
    forall c | c in cands
      ensures c.value == 0
    {
      CandidatesMembers(AnywhereInsert, inst, t, n, c);
    }
    AllTied(cands, 0);
    var ties := Ties(AnywhereInsert, cands);
    assert ties == MinTies(cands, IntMax).1;
    FourMembers(ties, Cand(1, 0, 0), Cand(1, 1, 0), Cand(2, 0, 0), Cand(2, 1, 0));
  }

  /** A sequence holding four different values has at least four entries. */
  lemma FourMembers<T>(s: seq<T>, a: T, b: T, c: T, d: T)
    requires a in s && b in s && c in s && d in s
    requires a != b && a != c && a != d && b != c && b != d && c != d
    ensures |s| >= 4
  {
    var elems := set x | x in s;
    var four := {a, b, c, d};
    assert |four| == 4;
    assert elems == four + (elems - four);
    Analysis.ElementsBound(s);
  }

  /** When every candidate has the same value, every candidate is a tie. */
  lemma AllTied(cands: seq<Cand>, v: int)
    requires v <= IntMax && forall c :: c in cands ==> c.value == v
    ensures forall c :: c in cands ==> c in MinTies(cands, IntMax).1
  {
    if |cands| > 0 {
      assert cands[0].value <= IntMax;
      var m := MinTies(cands, IntMax);
      assert |m.1| > 0;
      assert m.1[0] in m.1;
    }
  }

  /**
   * A step finds nothing to place exactly when every node is already in the
   * tour: while some node is unvisited there is a candidate, and its value
   * is within the sentinel's reach.
   */
  lemma NoTiesOnlyWhenFull(h: Heuristic, inst: Instance, t: seq<int>, n: int)
    requires IntSized(inst) && |t| >= 1
    ensures |Ties(h, Candidates(h, inst, t, n))| == 0 <==> forall v :: 0 <= v < n ==> v in t
  {
    var cands := Candidates(h, inst, t, n);
    if v :| 0 <= v < n && v !in t {
      var row := Row(h, inst, t, v);
      assert |row| > 0;
      var d := row[0];
      RowMembers(h, inst, t, v, d);
      CandidatesMembers(h, inst, t, n, d);
      var k :| 0 <= k < |cands| && cands[k] == d;
      match h
      case EndInsert =>
      case AnywhereInsert =>
        IncreaseInInt(inst, PrevAt(t, d.pos), v, NextAt(t, d.pos));
      case GreedyCycle =>
        IncreaseInInt(inst, PrevAt(t, d.pos), v, NextAt(t, d.pos));
      case TwoRegret =>
    } else {
      NoneOutside(t, n, 0);
    }
  }

  /** Nearest neighbour at the end: the chosen node is an unvisited node nearest to the current last node. */
  lemma EndChoiceNearest(inst: Instance, t: seq<int>, n: int, c: Cand)
    requires IntSized(inst) && |t| >= 1
    requires c in Ties(EndInsert, Candidates(EndInsert, inst, t, n))
    ensures Place(EndInsert, t, c) == t + [c.node]
    ensures forall v :: 0 <= v < n && v !in t ==> inst.D(t[|t| - 1], c.node) <= inst.D(t[|t| - 1], v)
  {
    var cands := Candidates(EndInsert, inst, t, n);
    CandidatesMembers(EndInsert, inst, t, n, c);
    forall v | 0 <= v < n && v !in t
      ensures inst.D(t[|t| - 1], c.node) <= inst.D(t[|t| - 1], v)
    {
      var d := Cand(v, |t|, inst.D(t[|t| - 1], v));
      CandidatesMembers(EndInsert, inst, t, n, d);
      var k :| 0 <= k < |cands| && cands[k] == d;
    }
  }

  /**
   * Nearest neighbour anywhere and greedy cycle: the step raises the
   * objective by exactly the chosen value, and no single insertion of an
   * unvisited node at any index gives a cheaper tour.
   */
  lemma InsertChoiceCheapest(h: Heuristic, inst: Instance, t: seq<int>, n: int, c: Cand)
    requires IntSized(inst) && |t| >= 1 && (h == AnywhereInsert || h == GreedyCycle)
    requires c in Ties(h, Candidates(h, inst, t, n))
    ensures 0 <= c.pos <= |t|
    ensures TourCost(inst, Place(h, t, c)) == TourCost(inst, t) + c.value
    ensures forall v, pos :: 0 <= v < n && v !in t && 0 <= pos <= |t| ==>
              TourCost(inst, Place(h, t, c)) <= TourCost(inst, InsertedAt(t, pos, v))
  {
    CandidatesMembers(h, inst, t, n, c);
    InsertCost(inst, t, c.pos, c.node);
    forall v, pos | 0 <= v < n && v !in t && 0 <= pos <= |t|
      ensures TourCost(inst, Place(h, t, c)) <= TourCost(inst, InsertedAt(t, pos, v))
    {
      InsertAlternative(h, inst, t, n, c, v, pos);
      InsertCost(inst, t, pos, v);
    }
  }

  /** The chosen insertion is no dearer than inserting unvisited node `v` at index `pos`. */
  lemma InsertAlternative(h: Heuristic, inst: Instance, t: seq<int>, n: int, c: Cand, v: int, pos: int)
    requires IntSized(inst) && |t| >= 1 && (h == AnywhereInsert || h == GreedyCycle)
    requires c in Ties(h, Candidates(h, inst, t, n))
    requires 0 <= v < n && v !in t && 0 <= pos <= |t|
    ensures c.value <= Increase(inst, PrevAt(t, pos), v, NextAt(t, pos))
  {
    var pos' := if h == GreedyCycle && pos == |t| then 0 else pos;
    assert PrevAt(t, pos') == PrevAt(t, pos) && NextAt(t, pos') == NextAt(t, pos);
    var d := Cand(v, pos', Increase(inst, PrevAt(t, pos'), v, NextAt(t, pos')));
    CandidatesMembers(h, inst, t, n, d);
    TieBelow(Candidates(h, inst, t, n), c, d);
  }

  /** A member of the minimum scan's tie list is no larger than any candidate. */
  lemma TieBelow(cands: seq<Cand>, c: Cand, d: Cand)
    requires c in MinTies(cands, IntMax).1 && d in cands
    ensures c.value <= d.value
  {
  }

  /** Greedy 2-regret: the chosen node has the largest regret among the unvisited nodes. */
  lemma RegretChoiceLargest(inst: Instance, t: seq<int>, n: int, c: Cand)
    requires |t| >= 1
    requires c in Ties(TwoRegret, Candidates(TwoRegret, inst, t, n))
    ensures c == RegretCand(inst, t, c.node)
    ensures forall v :: 0 <= v < n && v !in t ==> RegretCand(inst, t, v).value <= c.value
  {
    var cands := Candidates(TwoRegret, inst, t, n);
    CandidatesMembers(TwoRegret, inst, t, n, c);
    forall v | 0 <= v < n && v !in t
      ensures RegretCand(inst, t, v).value <= c.value
    {
      var d := RegretCand(inst, t, v);
      CandidatesMembers(TwoRegret, inst, t, n, d);
      var k :| 0 <= k < |cands| && cands[k] == d;
    }
  }

  /**
   * Greedy 2-regret: the chosen node goes to its cheapest index, and the
   * objective rises by that cheapest insertion cost.
   */
  lemma RegretChoiceCheapest(inst: Instance, t: seq<int>, n: int, c: Cand)
    requires IntSized(inst) && |t| >= 1
    requires c in Ties(TwoRegret, Candidates(TwoRegret, inst, t, n))
    ensures 1 <= c.pos <= |t|
    ensures TourCost(inst, Place(TwoRegret, t, c)) == TourCost(inst, t) + ScanSlots(SlotCosts(inst, t, c.node), |t|).smallest
    ensures forall pos :: 0 <= pos <= |t| ==> TourCost(inst, Place(TwoRegret, t, c)) <= TourCost(inst, InsertedAt(t, pos, c.node))
  {
    RegretChoiceLargest(inst, t, n, c);
    RegretPlaceCheapest(inst, t, c.node);
  }

  /** Node `k` placed at its 2-regret index raises the objective by its cheapest insertion cost, and no index is cheaper. */
  lemma RegretPlaceCheapest(inst: Instance, t: seq<int>, k: int)
    requires IntSized(inst) && |t| >= 1
    ensures var c := RegretCand(inst, t, k);
            && 1 <= c.pos <= |t|
            && TourCost(inst, InsertedAt(t, c.pos, k)) == TourCost(inst, t) + ScanSlots(SlotCosts(inst, t, k), |t|).smallest
            && forall pos :: 0 <= pos <= |t| ==> TourCost(inst, InsertedAt(t, c.pos, k)) <= TourCost(inst, InsertedAt(t, pos, k))
  {
    var c := RegretCand(inst, t, k);
    RegretCandPlace(inst, t, k);
    RegretCandCheapest(inst, t, k);
    InsertCost(inst, t, c.pos, k);
    forall pos | 0 <= pos <= |t|
      ensures TourCost(inst, InsertedAt(t, c.pos, k)) <= TourCost(inst, InsertedAt(t, pos, k))
    {
      InsertCost(inst, t, pos, k);
    }
  }

  // ---------------------------------------------------------------------------
  // Seeding the greedy cycle and the 2-regret tour

  /** The farthest-node scan: every unvisited node with its distance from the start. */
  function FarthestCands(inst: Instance, start: int, u: seq<int>): (r: seq<Cand>)
    ensures |r| == |u|
    ensures forall k :: 0 <= k < |u| ==> r[k] == Cand(u[k], 1, inst.D(start, u[k]))
  {
    seq(|u|, k requires 0 <= k < |u| => Cand(u[k], 1, inst.D(start, u[k])))
  }

  /**
   * The seeding as the C code writes it: the start node, then a farthest
   * unvisited node (ties drawn by `draw`, the scan starting from
   * `max_distance = -1`), appended without looking at the target size.
   * `None` means the run is skipped (`continue`).
   */
  function SeedAsWritten(inst: Instance, n: int, start: int, draw: nat): (r: Option<seq<int>>)
    requires 0 <= start < n
    ensures r.Some? ==> |r.value| == 2 && r.value[0] == start
  {
    var ties := MaxTies(FarthestCands(inst, start, Unvisited([start], n)), -1).1;
    if |ties| == 0 then None else Some([start, ties[draw % |ties|].node])
  }

  /**
   * The run is skipped exactly when every other node is closer than -1 to
   * the start; otherwise the second node is another node, at least as far
   * from the start as any other.
   */
  lemma SeedAsWrittenFacts(inst: Instance, n: int, start: int, draw: nat)
    requires 0 <= start < n
    ensures var r := SeedAsWritten(inst, n, start, draw);
            && (r.None? <==> forall v :: 0 <= v < n && v != start ==> inst.D(start, v) < -1)
            && (r.Some? ==> && 0 <= r.value[1] < n && r.value[1] != start
                            && forall v :: 0 <= v < n && v != start ==> inst.D(start, v) <= inst.D(start, r.value[1]))
  {
    var u := Unvisited([start], n);
    var cands := FarthestCands(inst, start, u);
    var m := MaxTies(cands, -1);
    if v :| 0 <= v < n && v != start && inst.D(start, v) >= -1 {
      assert v in u;
      var k :| 0 <= k < |u| && u[k] == v;
      assert cands[k].value >= -1;
    }
    if |m.1| > 0 {
      var c := m.1[draw % |m.1|];
      assert c in cands;
      var k :| 0 <= k < |cands| && cands[k] == c;
      forall v | 0 <= v < n && v != start
        ensures inst.D(start, v) <= inst.D(start, c.node)
      {
        assert v in u;
        var j :| 0 <= j < |u| && u[j] == v;
        assert cands[j].value <= m.0;
      }
      var w := c.node;
      assert w == u[k] && u[k] in u;
      assert 0 <= w < n && w != start && inst.D(start, w) >= -1;
    }
  }

  /**
   * With two nodes the target size is one, yet the as-written seeding on a
   * non-negative instance returns a tour of two nodes (and the greedy cycle
   * writes the second one past its one-slot buffer).
   */
  lemma SeedOverfillsTwoNodes(inst: Instance, draw: nat)
    requires inst.NonNegative()
    ensures TargetSize(2) == 1
    ensures SeedAsWritten(inst, 2, 0, draw).Some?
    ensures |SeedAsWritten(inst, 2, 0, draw).value| == 2
  {
    SeedAsWrittenFacts(inst, 2, 0, draw);
    assert inst.D(0, 1) >= 0;
  }

  /** The corrected seeding: the farthest node is only added while the tour is below the target size. */
  function Seed(inst: Instance, n: int, start: int, draw: nat): (r: Option<seq<int>>)
    requires 0 <= start < n
    ensures r.Some? ==> 1 <= |r.value| <= TargetSize(n) && r.value[0] == start
  {
    match SeedAsWritten(inst, n, start, draw)
    case None => None
    case Some(t) => if TargetSize(n) >= 2 then Some(t) else Some([start])
  }

  /**
   * The corrected seeding skips the same runs, and otherwise gives a
   * duplicate-free in-range start of two nodes, or of one when the target is one.
   */
  lemma SeedFits(inst: Instance, n: int, start: int, draw: nat)
    requires 0 <= start < n
    ensures var r := Seed(inst, n, start, draw);
            && (r.None? <==> forall v :: 0 <= v < n && v != start ==> inst.D(start, v) < -1)
            && (r.Some? ==> && |r.value| == (if TargetSize(n) >= 2 then 2 else 1)
                            && Distinct(r.value) && InRange(r.value, n))
  {
    SeedAsWrittenFacts(inst, n, start, draw);
  }

  // ---------------------------------------------------------------------------
  // Growing a tour

  /** A duplicate-free sequence holding every node `0 .. n - 1` has at least `n` entries. */
  lemma {:induction false} AllPresentLength(t: seq<int>, n: int)
    requires Distinct(t)
    ensures (forall v :: 0 <= v < n ==> v in t) ==> |t| >= n
    decreases n
  {
    if n > 0 && forall v :: 0 <= v < n ==> v in t {
      assert n - 1 in t;
      var p :| 0 <= p < |t| && t[p] == n - 1;
      var t' := t[..p] + t[p + 1..];
      forall v | 0 <= v < n - 1
        ensures v in t'
      {
        assert v in t;
        var q :| 0 <= q < |t| && t[q] == v;
        if q < p {
          assert t'[q] == v;
        } else {
          assert t'[q - 1] == v;
        }
      }
      forall a, b | 0 <= a < b < |t'|
        ensures t'[a] != t'[b]
      {
        var a' := if a < p then a else a + 1;
        var b' := if b < p then b else b + 1;
        assert t'[a] == t[a'] && t'[b] == t[b'];
      }
      AllPresentLength(t', n - 1);
    }
  }

  /** Node `t[k]` is a nearest node to `t[k - 1]` among the nodes not in `t[..k]`. */
  ghost predicate NearestAt(inst: Instance, t: seq<int>, n: int, k: int)
    requires 1 <= k < |t|
  {
    forall v :: 0 <= v < n && v !in t[..k] ==> inst.D(t[k - 1], t[k]) <= inst.D(t[k - 1], v)
  }

  /** Every node after the first was a nearest choice when it was appended. */
  ghost predicate NearestChain(inst: Instance, t: seq<int>, n: int)
  {
    forall k :: 1 <= k < |t| ==> NearestAt(inst, t, n, k)
  }

  lemma NearestChainExtend(inst: Instance, t: seq<int>, n: int, x: int)
    requires |t| >= 1 && NearestChain(inst, t, n)
    requires forall v :: 0 <= v < n && v !in t ==> inst.D(t[|t| - 1], x) <= inst.D(t[|t| - 1], v)
    ensures NearestChain(inst, t + [x], n)
  {
    var t' := t + [x];
    forall k | 1 <= k < |t'|
      ensures NearestAt(inst, t', n, k)
    {
      assert t'[..k] == t[..k] && t'[k - 1] == t[k - 1];
      if k < |t| {
        assert NearestAt(inst, t, n, k);
        assert t'[k] == t[k];
      }
    }
  }

  /** The loop state of a run: a duplicate-free in-range tour holding the start, no larger than the target. */
  ghost predicate Growing(h: Heuristic, inst: Instance, n: nat, start: int, t: seq<int>)
  {
    && 1 <= |t| <= TargetSize(n) && InRange(t, n) && Distinct(t) && start in t
    && (h == EndInsert ==> t[0] == start && NearestChain(inst, t, n))
  }

  /** Placing a chosen candidate keeps the run's state, one node larger. */
  lemma GrowStep(h: Heuristic, inst: Instance, n: nat, start: int, t: seq<int>, c: Cand)
    requires IntSized(inst) && Growing(h, inst, n, start, t) && |t| < TargetSize(n)
    requires c in Ties(h, Candidates(h, inst, t, n))
    ensures 0 <= c.pos <= |t|
    ensures |Place(h, t, c)| == |t| + 1 && Growing(h, inst, n, start, Place(h, t, c))
  {
    ChoiceValid(h, inst, t, n, c);
    InsertKeepsTour(t, c.pos, c.node, n);
    if h == EndInsert {
      EndChoiceNearest(inst, t, n, c);
      NearestChainExtend(inst, t, n, c.node);
      assert InsertedAt(t, |t|, c.node) == t + [c.node];
    }
  }

  /**
   * One run of a heuristic from `start`: seed, then grow while the tour is
   * below the target size, drawing tie `rand(c) % ties` at the `c`-th
   * `rand()` call. The greedy-cycle and 2-regret runs are skipped (`None`)
   * when the seeding finds no farthest node. A finished tour is
   * duplicate-free, in range, contains the start and has the target size;
   * the end-insert tour starts at `start` and is a nearest-neighbour chain.
   */
  method Construct(h: Heuristic, inst: Instance, n: nat, start: int, rand: nat -> nat) returns (r: Option<seq<int>>)
    requires IntSized(inst) && 0 <= start < n
    ensures (h == EndInsert || h == AnywhereInsert) ==> r.Some?
    ensures (h == GreedyCycle || h == TwoRegret) ==>
              (r.None? <==> forall v :: 0 <= v < n && v != start ==> inst.D(start, v) < -1)
    ensures r.Some? ==> |r.value| == TargetSize(n) && InRange(r.value, n) && Distinct(r.value) && start in r.value
    ensures r.Some? && h == EndInsert ==> r.value[0] == start && NearestChain(inst, r.value, n)
  {
    var t: seq<int>;
    var used: nat;
    if h == EndInsert || h == AnywhereInsert {
      t, used := [start], 0;
    } else {
      var seed := Seed(inst, n, start, rand(0));
      SeedFits(inst, n, start, rand(0));
      if seed.None? {
        return None;
      }
      t, used := seed.value, 1;
    }
    var size := TargetSize(n);
    while |t| < size
      invariant Growing(h, inst, n, start, t)
      decreases size - |t|
    {
      var ties := Ties(h, Candidates(h, inst, t, n));
      NoTiesOnlyWhenFull(h, inst, t, n);
      if |ties| == 0 {
        break;
      }
      var c := ties[rand(used) % |ties|];
      used := used + 1;
      GrowStep(h, inst, n, start, t, c);
      var t': seq<int>;
      if h == EndInsert {
        t' := t + [c.node];
      } else {
        t' := InsertAt(t, c.pos, c.node);
        InsertAtIsInsertedAt(t, c.pos, c.node, t');
      }
      t := t';
    }
    AllPresentLength(t, n);
    r := Some(t);
  }

  // ---------------------------------------------------------------------------
  // The solvers

  /** A recorded run: a duplicate-free in-range tour of the target size, with its objective. */
  ghost predicate ValidRun(inst: Instance, n: nat, run: Run)
  {
    && |run.tour| == TargetSize(n) && InRange(run.tour, n) && Distinct(run.tour)
    && run.cost == TourCost(inst, run.tour)
  }

  /** Every recorded run is valid. */
  ghost predicate AllValid(inst: Instance, n: nat, runs: seq<Run>)
  {
    forall k :: 0 <= k < |runs| ==> ValidRun(inst, n, runs[k])
  }

  /** Fold one more valid run into the record. */
  lemma RecordMore(inst: Instance, n: nat, runs: seq<Run>, run: Run)
    requires AllValid(inst, n, runs) && ValidRun(inst, n, run)
    ensures RecordAll(runs + [run]) == Update(RecordAll(runs), run)
    ensures AllValid(inst, n, runs + [run])
  {
    assert (runs + [run])[..|runs|] == runs;
  }

  /** The `numSolutions` runs from one start node, appended to the runs so far. */
  method SolveFrom(h: Heuristic, inst: Instance, n: nat, start: nat, numSolutions: nat, rand: (nat, nat, nat) -> nat,
                   rec0: Record, ghost runs0: seq<Run>)
    returns (rec: Record, ghost runs: seq<Run>)
    requires IntSized(inst) && inst.WellFormed() && inst.Size() == n && start < n
    requires rec0 == RecordAll(runs0) && AllValid(inst, n, runs0)
    ensures rec == RecordAll(runs) && AllValid(inst, n, runs)
    ensures |runs0| <= |runs| <= |runs0| + numSolutions && runs[..|runs0|] == runs0
    ensures (h == EndInsert || h == AnywhereInsert) ==> |runs| == |runs0| + numSolutions
  {
    rec, runs := rec0, runs0;
    var s: nat := 0;
    while s < numSolutions
      invariant s <= numSolutions && rec == RecordAll(runs) && AllValid(inst, n, runs)
      invariant |runs0| <= |runs| <= |runs0| + s && runs[..|runs0|] == runs0
      invariant (h == EndInsert || h == AnywhereInsert) ==> |runs| == |runs0| + s
    {
      var r := Construct(h, inst, n, start, c => rand(start, s, c));
      if r.Some? {
        var cost := GreedyUtils.CalculateCost(inst, r.value);
        var run := Run(r.value, cost);
        RecordMore(inst, n, runs, run);
        rec := Update(rec, run);
        runs := runs + [run];
      }
      s := s + 1;
    }
  }

  /**
   * The heuristic solvers: `numSolutions` runs from every start node in
   * turn, each finished tour folded into the best / worst / total record.
   * The nearest-neighbour solvers record every run; greedy cycle and
   * 2-regret skip the runs whose seeding finds no farthest node.
   * `rand(start, s, c)` is the `c`-th `rand()` value of run `s` from `start`.
   */
  method Solve(h: Heuristic, inst: Instance, n: nat, numSolutions: nat, rand: (nat, nat, nat) -> nat)
    returns (rec: Record, ghost runs: seq<Run>)
    requires IntSized(inst) && inst.WellFormed() && inst.Size() == n
    ensures rec == RecordAll(runs) && |runs| <= n * numSolutions
    ensures (h == EndInsert || h == AnywhereInsert) ==> |runs| == n * numSolutions
    ensures forall k :: 0 <= k < |runs| ==> ValidRun(inst, n, runs[k])
  {
    rec := Initial();
    runs := [];
    var start: nat := 0;
    while start < n
      invariant start <= n && rec == RecordAll(runs) && AllValid(inst, n, runs) && |runs| <= start * numSolutions
      invariant (h == EndInsert || h == AnywhereInsert) ==> |runs| == start * numSolutions
    {
      rec, runs := SolveFrom(h, inst, n, start, numSolutions, rand, rec, runs);
      assert (start + 1) * numSolutions == start * numSolutions + numSolutions;
      start := start + 1;
    }
  }

  /**
   * Random search: `numSolutions` times, shuffle the array of all node ids
   * (each shuffle continues from the previous order) and take its first half
   * rounded up. `rand(i, c)` is the `c`-th `rand()` value of iteration `i`.
   */
  method RandomSearch(inst: Instance, n: nat, numSolutions: nat, rand: (nat, nat) -> nat)
    returns (rec: Record, ghost runs: seq<Run>)
    requires inst.WellFormed() && inst.Size() == n && n >= 1
    ensures |runs| == numSolutions && rec == RecordAll(runs)
    ensures forall k :: 0 <= k < |runs| ==> ValidRun(inst, n, runs[k])
  {
    var all := AllNodes(n);
    rec := Initial();
    runs := [];
    var i: nat := 0;
    while i < numSolutions
      invariant i <= numSolutions && |runs| == i && rec == RecordAll(runs)
      invariant |all| == n && multiset(all) == multiset(AllNodes(n))
      invariant forall k :: 0 <= k < |runs| ==> ValidRun(inst, n, runs[k])
    {
      var draws := seq(n, q requires 0 <= q => rand(i, q));
      all := GreedyUtils.ShuffleArray(all, draws);
      DistinctPermutation(AllNodes(n), all);
      InRangePermutation(AllNodes(n), all, n);
      var t := all[..TargetSize(n)];
      assert forall k :: 0 <= k < |t| ==> t[k] == all[k];
      var cost := GreedyUtils.CalculateCost(inst, t);
      var run := Run(t, cost);
      assert (runs + [run])[..|runs|] == runs;
      rec := Update(rec, run);
      runs := runs + [run];
      i := i + 1;
    }
  }
}
