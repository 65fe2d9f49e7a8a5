/**
 * The similarity analysis of the last lab: each row of a solutions file is
 * a tour followed by its evaluation; tours are compared by the nodes they
 * share or by the undirected edges they share, either with the best
 * solution or with every other solution. Rows are given as integer
 * sequences; reading the file, averaging and plotting are not modelled.
 */
module Analysis {
  import opened Tours

  /** A row turned into a solution: the tour, its evaluation, its node set and its edge set. */
  datatype Solution = Solution(tour: seq<int>, evaluation: int, nodes: set<int>, edges: set<(int, int)>)

  /** A pair in ascending order, as `sorted([a, b])`. */
  function SortedPair(a: int, b: int): (r: (int, int))
    ensures r.0 <= r.1
    ensures r == (a, b) || r == (b, a)
  {
    if a <= b then (a, b) else (b, a)
  }

  /** Sorting makes the order of the two ends irrelevant. */
  lemma SortedPairSymmetric(a: int, b: int)
    ensures SortedPair(a, b) == SortedPair(b, a)
  {
  }

  /** Edge `k` of the loop's list: the pair at `k` and `k + 1`, or for the last one the first and last node. */
  function EdgeAt(tour: seq<int>, k: int): (int, int)
    requires 0 <= k < |tour|
  {
    if k < |tour| - 1 then SortedPair(tour[k], tour[k + 1]) else SortedPair(tour[0], tour[|tour| - 1])
  }

  /**
   * The edges of a tour as the loop lists them: each consecutive pair, then
   * the first and last node, every pair in ascending order.
   */
  function EdgeList(tour: seq<int>): (r: seq<(int, int)>)
    requires |tour| >= 1
    ensures |r| == |tour|
    ensures forall k :: 0 <= k < |tour| ==> r[k] == EdgeAt(tour, k)
  {
    seq(|tour|, k requires 0 <= k < |tour| => EdgeAt(tour, k))
  }

  /** The edge set: the listed edges, duplicates merged. */
  function EdgeSet(tour: seq<int>): (r: set<(int, int)>)
    requires |tour| >= 1
    ensures forall e :: e in r <==> e in EdgeList(tour)
  {
    set e | e in EdgeList(tour)
  }

  /** The elements of a sequence are no more than its entries. */
  lemma {:induction false} ElementsBound<T>(s: seq<T>)
    ensures |set x | x in s| <= |s|
    decreases |s|
  {
    if |s| > 0 {
      var init := s[..|s| - 1];
      ElementsBound(init);
      assert (set x | x in s) == (set x | x in init) + {s[|s| - 1]} by {
        assert s == init + [s[|s| - 1]];
      }
    }
  }

  /** A tour has at most as many distinct edges as nodes. */
  lemma EdgeSetBound(tour: seq<int>)
    requires |tour| >= 1
    ensures |EdgeSet(tour)| <= |tour|
  {
    ElementsBound(EdgeList(tour));
    assert EdgeSet(tour) == set e | e in EdgeList(tour);
  }

  /** Where edge `k` of the reversed tour sits in the tour's own list: the mapping is its own inverse. */
  function MirrorEdge(n: int, k: int): (j: int)
    requires 0 <= k < n
    ensures 0 <= j < n && (if j < n - 1 then n - 2 - j else n - 1) == k
  {
    if k < n - 1 then n - 2 - k else n - 1
  }

  /** Edge `k` of a reversed tour `r` is edge `MirrorEdge(n, k)` of the tour. */
  lemma ReversedEdgeAt(tour: seq<int>, r: seq<int>, k: int)
    requires |r| == |tour| && forall p :: 0 <= p < |r| ==> r[p] == tour[|tour| - 1 - p]
    requires 0 <= k < |tour|
    ensures EdgeAt(r, k) == EdgeAt(tour, MirrorEdge(|tour|, k))
  {
    var n := |tour|;
    if k < n - 1 {
      var x, y := tour[n - 1 - k], tour[n - 2 - k];
      assert r[k] == x && r[k + 1] == y;
      SortedPairSymmetric(x, y);
    } else {
      var x, y := tour[n - 1], tour[0];
      assert r[0] == x && r[n - 1] == y;
      SortedPairSymmetric(x, y);
    }
  }

  /** A tour read backwards has the same edge set. */
  lemma EdgeSetReversed(tour: seq<int>, r: seq<int>)
    requires |r| == |tour| >= 1 && forall p :: 0 <= p < |r| ==> r[p] == tour[|tour| - 1 - p]
    ensures EdgeSet(r) == EdgeSet(tour)
  {
    var n := |tour|;
    var a, b := EdgeList(tour), EdgeList(r);
    forall e | e in b
      ensures e in a
    {
      var k :| 0 <= k < n && b[k] == e;
      ReversedEdgeAt(tour, r, k);
      assert a[MirrorEdge(n, k)] == e;
    }
    forall e | e in a
      ensures e in b
    {
      var k :| 0 <= k < n && a[k] == e;
      var j := MirrorEdge(n, k);
      ReversedEdgeAt(tour, r, j);
      assert b[j] == e;
    }
  }

  /** The edge set does not depend on the direction the tour is read in. */
  lemma EdgeSetReverse(tour: seq<int>)
    requires |tour| >= 1
    ensures EdgeSet(Reverse(tour)) == EdgeSet(tour)
  {
    EdgeSetReversed(tour, Reverse(tour));
  }

  /**
   * `Solution(sol_array)`: the tour is every entry but the last, the
   * evaluation the last. A row of fewer than two entries fails (no last
   * entry, or no first tour node for the closing edge): `None`.
   */
  function FromRow(row: seq<int>): (r: Option<Solution>)
    ensures r.Some? <==> |row| >= 2
    ensures r.Some? ==> row == r.value.tour + [r.value.evaluation]
    ensures r.Some? ==> r.value.nodes == Elements(r.value.tour) && r.value.edges == EdgeSet(r.value.tour)
  {
    if |row| < 2 then None
    else
      var tour := row[..|row| - 1];
      assert row == tour + [row[|row| - 1]];
      Some(Solution(tour, row[|row| - 1], Elements(tour), EdgeSet(tour)))
  }

  /** Every row can be turned into a solution. */
  predicate AllRowsValid(rows: seq<seq<int>>)
  {
    forall k :: 0 <= k < |rows| ==> |rows[k]| >= 2
  }

  /**
   * `read_data`: every row but the last is a candidate and the last row is
   * the best solution; an empty file or a failing row gives `None`.
   */
  function ReadData(rows: seq<seq<int>>): (r: Option<(seq<Solution>, Solution)>)
    ensures r.Some? <==> |rows| >= 1 && AllRowsValid(rows)
    ensures r.Some? ==> && |r.value.0| == |rows| - 1
                        && (forall k :: 0 <= k < |rows| - 1 ==> Some(r.value.0[k]) == FromRow(rows[k]))
                        && Some(r.value.1) == FromRow(rows[|rows| - 1])
  {
    if |rows| == 0 || !AllRowsValid(rows) then None
    else
      var cands := seq(|rows| - 1, k requires 0 <= k < |rows| - 1 => FromRow(rows[k]).value);
      Some((cands, FromRow(rows[|rows| - 1]).value))
  }

  /**
   * `similarity`: the size of the intersection of the node sets for
   * "NODES" and of the edge sets for "EDGES"; any other measure leaves the
   * sets unbound and fails.
   */
  function Similarity(sol1: Solution, sol2: Solution, measure: string): (r: Option<nat>)
    ensures r.Some? <==> measure == "NODES" || measure == "EDGES"
  {
    if measure == "NODES" then Some(|sol1.nodes * sol2.nodes|)
    else if measure == "EDGES" then Some(|sol1.edges * sol2.edges|)
    else None
  }

  /** A subset is no larger than the set holding it. */
  lemma {:induction false} SubsetBound<T>(a: set<T>, b: set<T>)
    requires a <= b
    ensures |a| <= |b|
    decreases |a|
  {
    if a != {} {
      var x :| x in a;
      SubsetBound(a - {x}, b - {x});
    }
  }

  /** An intersection is no larger than either set. */
  lemma IntersectionBound<T>(a: set<T>, b: set<T>)
    ensures |a * b| <= |a| && |a * b| <= |b|
  {
    SubsetBound(a * b, a);
    SubsetBound(a * b, b);
  }

  /** Similarity is symmetric and bounded by the smaller of the two compared sets. */
  lemma SimilarityProperties(sol1: Solution, sol2: Solution, measure: string)
    ensures Similarity(sol1, sol2, measure) == Similarity(sol2, sol1, measure)
    ensures measure == "NODES" ==> Similarity(sol1, sol2, measure).value <= |sol1.nodes| && Similarity(sol1, sol2, measure).value <= |sol2.nodes|
    ensures measure == "EDGES" ==> Similarity(sol1, sol2, measure).value <= |sol1.edges| && Similarity(sol1, sol2, measure).value <= |sol2.edges|
  {
    assert sol1.nodes * sol2.nodes == sol2.nodes * sol1.nodes;
    assert sol1.edges * sol2.edges == sol2.edges * sol1.edges;
    IntersectionBound(sol1.nodes, sol2.nodes);
    IntersectionBound(sol1.edges, sol2.edges);
  }

  /** A solution object: the candidate at a row index, or the separately read best solution. */
  datatype Ref = Candidate(index: nat) | Best

  /** The candidates `0 .. n - 1`, in row order. */
  function AllCandidates(n: nat): (r: seq<Ref>)
    ensures |r| == n && forall k :: 0 <= k < n ==> r[k] == Candidate(k)
  {
    seq(n, k requires 0 <= k < n => Candidate(k))
  }

  /**
   * `get_comparison_list`: the best solution alone for "BEST", all
   * candidates for "AVERAGE"; any other version leaves the list unbound and
   * fails.
   */
  function ComparisonList(n: nat, version: string): (r: Option<seq<Ref>>)
    ensures r.Some? <==> version == "BEST" || version == "AVERAGE"
    ensures version == "BEST" ==> r == Some([Best])
    ensures version == "AVERAGE" ==> r.Some? && |r.value| == n && forall k :: 0 <= k < n ==> r.value[k] == Candidate(k)
  {
    if version == "BEST" then Some([Best])
    else if version == "AVERAGE" then Some(AllCandidates(n))
    else None
  }

  /** `[x for x in comparison_list if x != solution]`: the list without the object itself, by identity. */
  function Without(list: seq<Ref>, self: Ref): (r: seq<Ref>)
    ensures |r| <= |list|
    ensures forall x :: x in r <==> x in list && x != self
    decreases |list|
  {
    if |list| == 0 then []
    else
      var init := list[..|list| - 1];
      assert list == init + [list[|list| - 1]];
      var w := Without(init, self);
      if list[|list| - 1] == self then w else w + [list[|list| - 1]]
  }

  /** Removing an object that is not listed changes nothing. */
  lemma {:induction false} WithoutAbsent(list: seq<Ref>, self: Ref)
    requires self !in list
    ensures Without(list, self) == list
    decreases |list|
  {
    if |list| > 0 {
      var init := list[..|list| - 1];
      assert list == init + [list[|list| - 1]];
      WithoutAbsent(init, self);
    }
  }

  /**
   * With every candidate as the comparison list, candidate `i` is compared
   * with every other candidate, in row order, and not with itself.
   */
  lemma {:induction false} AverageExcludesSelf(n: nat, i: nat)
    requires i < n
    ensures var w := Without(AllCandidates(n), Candidate(i));
            |w| == n - 1 && forall k :: 0 <= k < n - 1 ==> w[k] == Candidate(if k < i then k else k + 1)
    decreases n
  {
    var all := AllCandidates(n);
    var init := AllCandidates(n - 1);
    assert all[..n - 1] == init;
    if i == n - 1 {
      assert Candidate(i) !in init;
      WithoutAbsent(init, Candidate(i));
    } else {
      AverageExcludesSelf(n - 1, i);
      assert all[n - 1] != Candidate(i);
      assert Without(all, Candidate(i)) == Without(init, Candidate(i)) + [Candidate(n - 1)];
    }
  }

  /** With the best solution as the comparison list, no candidate is ever excluded from it. */
  lemma BestNeverExcluded(i: nat)
    ensures Without([Best], Candidate(i)) == [Best]
  {
    WithoutAbsent([Best], Candidate(i));
  }
}
