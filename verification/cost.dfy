/**
 * Objective function: the length of the closed tour plus the costs of the
 * nodes it visits, together with the algebra every delta proof rests on
 * (splitting a tour into pieces, reversing a piece, rotating the cycle).
 */
module Costs {
  import opened Tours

  /** Sum of the distances between consecutive entries (no closing edge). */
  function LinLen(inst: Instance, t: seq<int>): int
    decreases |t|
  {
    if |t| <= 1 then 0
    else LinLen(inst, t[..|t| - 1]) + inst.D(t[|t| - 2], t[|t| - 1])
  }

  /** Sum of the node costs of the entries. */
  function NodeCosts(inst: Instance, t: seq<int>): int
    decreases |t|
  {
    if |t| == 0 then 0
    else NodeCosts(inst, t[..|t| - 1]) + inst.C(t[|t| - 1])
  }

  /** Length of the closed tour: consecutive edges plus the edge from the last node back to the first. */
  function PathLength(inst: Instance, t: seq<int>): int
  {
    if |t| == 0 then 0 else LinLen(inst, t) + inst.D(t[|t| - 1], t[0])
  }

  /** The objective the solvers minimise. */
  function TourCost(inst: Instance, t: seq<int>): int
  {
    PathLength(inst, t) + NodeCosts(inst, t)
  }

  /** The edge joining two consecutive pieces of a tour (none when a piece is empty). */
  function Link(inst: Instance, a: seq<int>, b: seq<int>): int
  {
    if |a| == 0 || |b| == 0 then 0 else inst.D(a[|a| - 1], b[0])
  }

  /** Path length is additive over concatenation, plus the joining edge. */
  lemma {:induction false} LinLenConcat(inst: Instance, a: seq<int>, b: seq<int>)
    ensures LinLen(inst, a + b) == LinLen(inst, a) + Link(inst, a, b) + LinLen(inst, b)
    decreases |b|
  {
    if |b| == 0 {
      assert a + b == a;
    } else if |b| == 1 {
      assert (a + b)[..|a + b| - 1] == a;
    } else {
      var b' := b[..|b| - 1];
      assert (a + b)[..|a + b| - 1] == a + b';
      LinLenConcat(inst, a, b');
    }
  }

  /** Node costs are additive over concatenation. */
  lemma {:induction false} NodeCostsConcat(inst: Instance, a: seq<int>, b: seq<int>)
    ensures NodeCosts(inst, a + b) == NodeCosts(inst, a) + NodeCosts(inst, b)
    decreases |b|
  {
    if |b| == 0 {
      assert a + b == a;
    } else {
      var b' := b[..|b| - 1];
      assert (a + b)[..|a + b| - 1] == a + b';
      NodeCostsConcat(inst, a, b');
    }
  }

  /** On a symmetric matrix a path has the same length read in either direction. */
  lemma {:induction false} LinLenReverse(inst: Instance, s: seq<int>)
    requires inst.Symmetric()
    ensures LinLen(inst, Reverse(s)) == LinLen(inst, s)
    decreases |s|
  {
    if |s| >= 2 {
      var s' := s[..|s| - 1];
      LinLenReverse(inst, s');
      assert Reverse(s) == [s[|s| - 1]] + Reverse(s');
      LinLenConcat(inst, [s[|s| - 1]], Reverse(s'));
      assert inst.D(s[|s| - 1], s[|s| - 2]) == inst.D(s[|s| - 2], s[|s| - 1]);
    }
  }

  /** Reversal does not change which nodes are paid for. */
  lemma {:induction false} NodeCostsReverse(inst: Instance, s: seq<int>)
    ensures NodeCosts(inst, Reverse(s)) == NodeCosts(inst, s)
    decreases |s|
  {
    if |s| >= 1 {
      var s' := s[..|s| - 1];
      NodeCostsReverse(inst, s');
      assert Reverse(s) == [s[|s| - 1]] + Reverse(s');
      NodeCostsConcat(inst, [s[|s| - 1]], Reverse(s'));
      assert [s[|s| - 1]][..0] == [];
    }
  }

  /** Cutting a sequence at positions `i < j` into `p + [x] + m + [y] + q`. */
  lemma Pieces5(t: seq<int>, i: int, j: int)
    requires 0 <= i < j < |t|
    ensures t == t[..i] + [t[i]] + t[i + 1..j] + [t[j]] + t[j + 1..]
  {
  }

  /** Cutting a sequence at position `i` into `p + [x] + q`. */
  lemma Pieces3(t: seq<int>, i: int)
    requires 0 <= i < |t|
    ensures t == t[..i] + [t[i]] + t[i + 1..]
  {
  }

  /** Last node of the closed tour `p + mid + q`, where `fallback` is the last node of `mid`. */
  function LastOf(q: seq<int>, fallback: int): int
  {
    if |q| > 0 then q[|q| - 1] else fallback
  }

  /** First node of the closed tour `p + mid + q`, where `fallback` is the first node of `mid`. */
  function FirstOf(p: seq<int>, fallback: int): int
  {
    if |p| > 0 then p[0] else fallback
  }

  /** Objective of a tour written as `p + [x] + q`, edge by edge around `x`. */
  lemma CostSplit3(inst: Instance, p: seq<int>, x: int, q: seq<int>)
    ensures TourCost(inst, p + [x] + q)
         == LinLen(inst, p) + LinLen(inst, q) + NodeCosts(inst, p) + NodeCosts(inst, q) + inst.C(x)
            + Link(inst, p, [x]) + Link(inst, [x], q)
            + inst.D(LastOf(q, x), FirstOf(p, x))
  {
    LinLenConcat(inst, p, [x]);
    LinLenConcat(inst, p + [x], q);
    NodeCostsConcat(inst, p, [x]);
    NodeCostsConcat(inst, p + [x], q);
    assert [x][..0] == [];
  }

  /** Objective of a tour written as `p + [x] + m + [y] + q`, edge by edge around `x` and `y`. */
  lemma CostSplit5(inst: Instance, p: seq<int>, x: int, m: seq<int>, y: int, q: seq<int>)
    ensures TourCost(inst, p + [x] + m + [y] + q)
         == LinLen(inst, p) + LinLen(inst, m) + LinLen(inst, q)
            + NodeCosts(inst, p) + NodeCosts(inst, m) + NodeCosts(inst, q) + inst.C(x) + inst.C(y)
            + Link(inst, p, [x]) + Link(inst, [x], m + [y]) + Link(inst, m, [y]) + Link(inst, [y], q)
            + inst.D(LastOf(q, y), FirstOf(p, x))
  {
    var r := m + [y] + q;
    LinLenConcat(inst, m, [y]);
    LinLenConcat(inst, m + [y], q);
    NodeCostsConcat(inst, m, [y]);
    NodeCostsConcat(inst, m + [y], q);
    LinLenConcat(inst, p, [x]);
    LinLenConcat(inst, p + [x], r);
    NodeCostsConcat(inst, p, [x]);
    NodeCostsConcat(inst, p + [x], r);
    assert [x][..0] == [] && [y][..0] == [];
    assert p + [x] + m + [y] + q == p + [x] + r;
  }

  /** Objective of a tour written as `p + s + q` with `s` non-empty, edge by edge around `s`. */
  lemma CostSplitSegment(inst: Instance, p: seq<int>, s: seq<int>, q: seq<int>)
    requires |s| > 0
    ensures TourCost(inst, p + s + q)
         == LinLen(inst, p) + LinLen(inst, s) + LinLen(inst, q)
            + NodeCosts(inst, p) + NodeCosts(inst, s) + NodeCosts(inst, q)
            + Link(inst, p, s) + Link(inst, s, q)
            + inst.D(LastOf(q, s[|s| - 1]), FirstOf(p, s[0]))
  {
    LinLenConcat(inst, p, s);
    LinLenConcat(inst, p + s, q);
    NodeCostsConcat(inst, p, s);
    NodeCostsConcat(inst, p + s, q);
  }

  /** Everything in the objective of `p + [x] + m + [y] + q` that does not touch `x` or `y`. */
  function RestAround(inst: Instance, p: seq<int>, m: seq<int>, q: seq<int>): int
  {
    LinLen(inst, p) + LinLen(inst, m) + LinLen(inst, q)
    + NodeCosts(inst, p) + NodeCosts(inst, m) + NodeCosts(inst, q) + Link(inst, q, p)
  }

  /**
   * Objective of `p + [x] + m + [y] + q` with `x` and `y` apart on both sides
   * of the cycle, as the four edges at `x` and `y` plus the rest.
   */
  lemma CostAroundPair(inst: Instance, p: seq<int>, x: int, m: seq<int>, y: int, q: seq<int>)
    requires |m| > 0 && |p| + |q| > 0
    ensures var before := if |p| > 0 then p[|p| - 1] else q[|q| - 1];
            var after := if |q| > 0 then q[0] else p[0];
            TourCost(inst, p + [x] + m + [y] + q)
            == RestAround(inst, p, m, q) + inst.C(x) + inst.C(y)
               + inst.D(before, x) + inst.D(x, m[0]) + inst.D(m[|m| - 1], y) + inst.D(y, after)
  {
    CostSplit5(inst, p, x, m, y, q);
    assert (m + [y])[0] == m[0];
  }

  /**
   * Objective of `p + s + q` with `p` and `s` non-empty, as the edges entering
   * and leaving `s` plus the rest.
   */
  lemma CostAroundSegment(inst: Instance, p: seq<int>, s: seq<int>, q: seq<int>)
    requires |p| > 0 && |s| > 0
    ensures var after := if |q| > 0 then q[0] else p[0];
            TourCost(inst, p + s + q)
            == LinLen(inst, p) + LinLen(inst, s) + LinLen(inst, q)
               + NodeCosts(inst, p) + NodeCosts(inst, s) + NodeCosts(inst, q) + Link(inst, q, p)
               + inst.D(p[|p| - 1], s[0]) + inst.D(s[|s| - 1], after)
  {
    CostSplitSegment(inst, p, s, q);
  }

  /** On a symmetric matrix a tour costs the same travelled backwards. */
  lemma CostOfReversedTour(inst: Instance, t: seq<int>)
    requires inst.Symmetric()
    ensures TourCost(inst, Reverse(t)) == TourCost(inst, t)
  {
    LinLenReverse(inst, t);
    NodeCostsReverse(inst, t);
    if |t| > 0 {
      assert inst.D(t[0], t[|t| - 1]) == inst.D(t[|t| - 1], t[0]);
    }
  }

  /** A tour of one node costs its node cost plus its self-distance. */
  lemma CostOfSingleton(inst: Instance, x: int)
    ensures TourCost(inst, [x]) == inst.D(x, x) + inst.C(x)
  {
    assert [x][..0] == [];
    assert NodeCosts(inst, [x]) == NodeCosts(inst, []) + inst.C(x);
  }

  /** The cost of a tour is unchanged by rotating it: the tour is a cycle. */
  lemma {:induction false} CostRotate(inst: Instance, t: seq<int>, k: int)
    requires 0 <= k < |t|
    ensures TourCost(inst, t[k..] + t[..k]) == TourCost(inst, t)
  {
    var a, b := t[..k], t[k..];
    assert t == a + b;
    LinLenConcat(inst, a, b);
    LinLenConcat(inst, b, a);
    NodeCostsConcat(inst, a, b);
    NodeCostsConcat(inst, b, a);
  }

  /** With non-negative data the objective is non-negative: the searches are bounded below. */
  lemma CostNonNegative(inst: Instance, t: seq<int>)
    requires inst.NonNegative()
    ensures TourCost(inst, t) >= 0
  {
    LinLenNonNegative(inst, t);
    NodeCostsNonNegative(inst, t);
    if |t| > 0 {
      assert inst.D(t[|t| - 1], t[0]) >= 0;
    }
  }

  lemma {:induction false} LinLenNonNegative(inst: Instance, t: seq<int>)
    requires inst.NonNegative()
    ensures LinLen(inst, t) >= 0
    decreases |t|
  {
    if |t| > 1 {
      LinLenNonNegative(inst, t[..|t| - 1]);
      assert inst.D(t[|t| - 2], t[|t| - 1]) >= 0;
    }
  }

  lemma {:induction false} NodeCostsNonNegative(inst: Instance, t: seq<int>)
    requires inst.NonNegative()
    ensures NodeCosts(inst, t) >= 0
    decreases |t|
  {
    if |t| > 0 {
      NodeCostsNonNegative(inst, t[..|t| - 1]);
      assert inst.C(t[|t| - 1]) >= 0;
    }
  }
}
