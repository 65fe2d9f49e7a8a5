/**
 * Problem instance and tours.
 *
 * An instance is a square integer distance matrix plus one cost per node;
 * node identifiers are row indices. A tour is the ordered sequence of the
 * selected nodes, read cyclically: the last node connects back to the first.
 * The distances the programs use are rounded Euclidean distances, so the
 * matrix is symmetric, non-negative and has a zero diagonal; the lemmas that
 * need those facts ask for them explicitly.
 */
module Tours {

  /** An optional value: `None` where the code has nothing (or never returns). */
  datatype Option<T> = None | Some(value: T)

  /** C `INT_MAX` / `INT_MIN`: the sources use them as "nothing seen yet" sentinels. */
  const IntMax: int := 0x7fff_ffff
  const IntMin: int := -0x8000_0000

  datatype Instance = Instance(dist: seq<seq<int>>, costs: seq<int>)
  {
    /** Square matrix, one cost per node. */
    predicate WellFormed()
    {
      && |costs| == |dist|
      && forall a :: 0 <= a < |dist| ==> |dist[a]| == |dist|
    }

    function Size(): nat
    {
      |dist|
    }

    /** Distance from node `a` to node `b` (the matrix entry; 0 off the matrix, where no tour goes). */
    function D(a: int, b: int): (r: int)
      ensures 0 <= a < |dist| && 0 <= b < |dist[a]| ==> r == dist[a][b]
    {
      if 0 <= a < |dist| && 0 <= b < |dist[a]| then dist[a][b] else 0
    }

    /** Cost of node `a` (0 off the instance, where no tour goes). */
    function C(a: int): (r: int)
      ensures 0 <= a < |costs| ==> r == costs[a]
    {
      if 0 <= a < |costs| then costs[a] else 0
    }

    ghost predicate Symmetric()
    {
      forall a, b :: D(a, b) == D(b, a)
    }

    ghost predicate ZeroDiagonal()
    {
      forall a :: D(a, a) == 0
    }

    /** Distances and node costs are never negative (true of rounded Euclidean data). */
    ghost predicate NonNegative()
    {
      && (forall a, b :: D(a, b) >= 0)
      && (forall a :: C(a) >= 0)
    }
  }

  /** Every entry is a node id of an instance with `n` nodes. */
  predicate InRange(t: seq<int>, n: int)
  {
    forall k :: 0 <= k < |t| ==> 0 <= t[k] < n
  }

  /** The set of nodes a tour visits (C++ `std::set(nodes.begin(), nodes.end())`, Python `set(tour)`). */
  function Elements(s: seq<int>): (r: set<int>)
    ensures forall v :: v in r <==> v in s
  {
    set v | v in s
  }

  /** No node occurs twice. */
  predicate Distinct(t: seq<int>)
  {
    forall p, q :: 0 <= p < q < |t| ==> t[p] != t[q]
  }

  /** `t` is a tour over the nodes of `inst`. */
  predicate IsTour(inst: Instance, t: seq<int>)
  {
    inst.WellFormed() && InRange(t, inst.Size())
  }

  /** Next position on a cycle of `n` positions (C `(i + 1) % n`). */
  function Succ(i: int, n: int): (r: int)
    requires 0 <= i < n
    ensures 0 <= r < n
  {
    if i + 1 == n then 0 else i + 1
  }

  /** A value drawn as `rand() % size`: the draw reduced into `0 .. size - 1`. */
  function Pick(d: nat, size: nat): (r: nat)
    requires size >= 1
    ensures r < size
  {
    d % size
  }

  /** Previous position on a cycle of `n` positions (C `(i + n - 1) % n`, or `i == 0 ? n - 1 : i - 1`). */
  function Pred(i: int, n: int): (r: int)
    requires 0 <= i < n
    ensures 0 <= r < n
  {
    if i == 0 then n - 1 else i - 1
  }

  /** Euclidean remainder of a value in [0, 2n). */
  lemma ModOnce(x: int, n: int)
    requires 0 < n && 0 <= x < 2 * n
    ensures x % n == if x < n then x else x - n
  {
    if x < n {
      assert x == n * 0 + x;
    } else {
      assert x == n * 1 + (x - n);
    }
  }

  /** `Succ` and `Pred` are the modular expressions the sources write, and are inverse to each other. */
  lemma SuccPredMod(i: int, n: int)
    requires 0 <= i < n
    ensures Succ(i, n) == (i + 1) % n
    ensures Pred(i, n) == (i + n - 1) % n
    ensures Pred(Succ(i, n), n) == i && Succ(Pred(i, n), n) == i
  {
    ModOnce(i + 1, n);
    ModOnce(i + n - 1, n);
  }

  /** The sequence read backwards. */
  function Reverse(s: seq<int>): (r: seq<int>)
    ensures |r| == |s|
    ensures forall k :: 0 <= k < |s| ==> r[k] == s[|s| - 1 - k]
    ensures multiset(r) == multiset(s)
    decreases |s|
  {
    if |s| == 0 then []
    else
      var r := [s[|s| - 1]] + Reverse(s[..|s| - 1]);
      assert s == s[..|s| - 1] + [s[|s| - 1]];
      r
  }

  /** `s` with the half-open range [lo, hi) reversed in place. */
  function ReverseRange(s: seq<int>, lo: int, hi: int): (r: seq<int>)
    requires 0 <= lo <= hi <= |s|
    ensures |r| == |s|
    ensures forall k :: 0 <= k < lo ==> r[k] == s[k]
    ensures forall k :: lo <= k < hi ==> r[k] == s[lo + hi - 1 - k]
    ensures forall k :: hi <= k < |s| ==> r[k] == s[k]
    ensures multiset(r) == multiset(s)
  {
    var m := Reverse(s[lo..hi]);
    var r := s[..lo] + m + s[hi..];
    assert s == s[..lo] + s[lo..hi] + s[hi..];
    assert forall k :: lo <= k < hi ==> r[k] == m[k - lo];
    assert forall k :: hi <= k < |s| ==> r[k] == s[hi..][k - hi];
    r
  }

  /** `s` with positions `i` and `j` exchanged. */
  function Swap<T>(s: seq<T>, i: int, j: int): (r: seq<T>)
    requires 0 <= i < |s| && 0 <= j < |s|
    ensures |r| == |s|
    ensures r[i] == s[j] && r[j] == s[i]
    ensures forall k :: 0 <= k < |s| && k != i && k != j ==> r[k] == s[k]
    ensures multiset(r) == multiset(s)
  {
    s[i := s[j]][j := s[i]]
  }

  lemma {:induction false} DistinctSwap(s: seq<int>, i: int, j: int)
    requires 0 <= i < |s| && 0 <= j < |s|
    requires Distinct(s)
    ensures Distinct(Swap(s, i, j))
  {
    var r := Swap(s, i, j);
    forall p, q | 0 <= p < q < |r|
      ensures r[p] != r[q]
    {
      var p' := if p == i then j else if p == j then i else p;
      var q' := if q == i then j else if q == j then i else q;
      assert r[p] == s[p'] && r[q] == s[q'] && p' != q';
    }
  }

  lemma {:induction false} DistinctReverseRange(s: seq<int>, lo: int, hi: int)
    requires 0 <= lo <= hi <= |s|
    requires Distinct(s)
    ensures Distinct(ReverseRange(s, lo, hi))
  {
    var r := ReverseRange(s, lo, hi);
    forall p, q | 0 <= p < q < |r|
      ensures r[p] != r[q]
    {
      var p' := if lo <= p < hi then lo + hi - 1 - p else p;
      var q' := if lo <= q < hi then lo + hi - 1 - q else q;
      assert r[p] == s[p'] && r[q] == s[q'] && p' != q';
    }
  }

  /** The ids `0 .. n - 1` in order (the C `all_nodes` array before shuffling). */
  function AllNodes(n: nat): (r: seq<int>)
    ensures |r| == n && InRange(r, n) && Distinct(r)
    ensures forall v :: v in r <==> 0 <= v < n
  {
    var r := seq(n, i => i);
    forall v | 0 <= v < n
      ensures v in r
    {
      assert r[v] == v;
    }
    r
  }

  /** A rearrangement of in-range node ids is in range. */
  lemma InRangePermutation(t: seq<int>, r: seq<int>, n: int)
    requires multiset(r) == multiset(t) && InRange(t, n)
    ensures InRange(r, n)
  {
    forall k | 0 <= k < |r|
      ensures 0 <= r[k] < n
    {
      assert r[k] in multiset(t);
      var p :| 0 <= p < |t| && t[p] == r[k];
    }
  }

  /** Writing a node that is not yet in a duplicate-free sequence keeps it duplicate-free. */
  lemma DistinctReplace(s: seq<int>, i: int, v: int)
    requires 0 <= i < |s|
    requires Distinct(s) && v !in s
    ensures Distinct(s[i := v])
  {
  }
  /** A duplicate-free sequence holds each value at most once. */
  lemma {:induction false} DistinctCount(s: seq<int>, v: int)
    requires Distinct(s)
    ensures multiset(s)[v] <= 1
    decreases |s|
  {
    if |s| > 0 {
      var init := s[..|s| - 1];
      assert s == init + [s[|s| - 1]];
      assert Distinct(init);
      DistinctCount(init, v);
      if s[|s| - 1] == v {
        assert v !in init;
      }
    }
  }

  /** A rearrangement of a duplicate-free sequence is duplicate-free. */
  lemma DistinctPermutation(a: seq<int>, b: seq<int>)
    requires multiset(b) == multiset(a) && Distinct(a)
    ensures Distinct(b)
  {
    forall p, q | 0 <= p < q < |b|
      ensures b[p] != b[q]
    {
      if b[p] == b[q] {
        var v := b[q];
        assert b == b[..q] + [v] + b[q + 1..];
        assert v in b[..q];
        assert multiset(b)[v] >= 2;
        DistinctCount(a, v);
        assert false;
      }
    }
  }

  /** Number of nodes a solution holds: half of the instance, rounded up (C `(num_nodes + 1) / 2`). */
  function TargetSize(numNodes: nat): (r: nat)
    ensures numNodes <= 2 * r <= numNodes + 1
  {
    (numNodes + 1) / 2
  }
}
