/**
 * Ordering helpers shared by the candidate lists and the greedy choices:
 * sorting node ids by a key, and the "first strict minimum below a bound"
 * scan every search loop performs. The sort fixes one tie order, not a
 * stable one: each element is inserted after the equal keys already
 * placed. `qsort` and `std::sort` leave ties in an unspecified order, and
 * every property proved here holds for any order that is sorted.
 */
module Ranking {
  /** Keys never decrease along `s`. */
  predicate SortedBy(s: seq<int>, key: int -> int)
  {
    forall i, j :: 0 <= i < j < |s| ==> key(s[i]) <= key(s[j])
  }

  /** Insert `x` after every element whose key is at most its own. */
  function InsertByKey(x: int, s: seq<int>, key: int -> int): (r: seq<int>)
    ensures |r| == |s| + 1
    decreases |s|
  {
    if |s| == 0 then [x]
    else if key(x) < key(s[0]) then [x] + s
    else [s[0]] + InsertByKey(x, s[1..], key)
  }

  /** Insertion sort by key. */
  function SortByKey(xs: seq<int>, key: int -> int): (r: seq<int>)
    ensures |r| == |xs|
    decreases |xs|
  {
    if |xs| == 0 then [] else InsertByKey(xs[0], SortByKey(xs[1..], key), key)
  }

  /** A list is sorted exactly when its tail is sorted and its head has the smallest key. */
  lemma SortedCons(h: int, t: seq<int>, key: int -> int)
    ensures SortedBy([h] + t, key) <==> SortedBy(t, key) && forall v :: v in t ==> key(h) <= key(v)
  {
    var s := [h] + t;
    if SortedBy(t, key) && forall v :: v in t ==> key(h) <= key(v) {
      forall i, j | 0 <= i < j < |s|
        ensures key(s[i]) <= key(s[j])
      {
        assert s[j] == t[j - 1];
        if i > 0 {
          assert s[i] == t[i - 1];
        }
      }
    }
    if SortedBy(s, key) {
      forall i, j | 0 <= i < j < |t|
        ensures key(t[i]) <= key(t[j])
      {
        assert t[i] == s[i + 1] && t[j] == s[j + 1];
      }
      forall v | v in t
        ensures key(h) <= key(v)
      {
        var j :| 0 <= j < |t| && t[j] == v;
        assert s[0] == h && s[j + 1] == v;
        assert key(s[0]) <= key(s[j + 1]);
      }
    }
  }

  /** Inserting adds exactly the one element. */
  lemma {:induction false} InsertByKeyPerm(x: int, s: seq<int>, key: int -> int)
    ensures multiset(InsertByKey(x, s, key)) == multiset(s) + multiset{x}
    decreases |s|
  {
    if |s| > 0 {
      InsertByKeyPerm(x, s[1..], key);
      assert s == [s[0]] + s[1..];
    }
  }

  /** Inserting into a sorted list keeps it sorted and adds exactly the one element. */
  lemma {:induction false} InsertByKeySorted(x: int, s: seq<int>, key: int -> int)
    requires SortedBy(s, key)
    ensures SortedBy(InsertByKey(x, s, key), key)
    ensures multiset(InsertByKey(x, s, key)) == multiset(s) + multiset{x}
    decreases |s|
  {
    InsertByKeyPerm(x, s, key);
    if |s| > 0 {
      var rest := s[1..];
      assert s == [s[0]] + rest;
      SortedCons(s[0], rest, key);
      if key(x) < key(s[0]) {
        SortedCons(x, s, key);
      } else {
        InsertByKeySorted(x, rest, key);
        var tail := InsertByKey(x, rest, key);
        forall v | v in tail
          ensures key(s[0]) <= key(v)
        {
          assert v in multiset(tail);
        }
        SortedCons(s[0], tail, key);
      }
    }
  }

  /** The sorted list is sorted and is a permutation of the input. */
  lemma SortByKeySorted(xs: seq<int>, key: int -> int)
    ensures SortedBy(SortByKey(xs, key), key)
    ensures multiset(SortByKey(xs, key)) == multiset(xs)
  {
    SortByKeyOrdered(xs, key);
    SortByKeyPerm(xs, key);
  }

  /** The insertion sort's result is sorted. */
  lemma {:induction false} SortByKeyOrdered(xs: seq<int>, key: int -> int)
    ensures SortedBy(SortByKey(xs, key), key)
    decreases |xs|
  {
    if |xs| > 0 {
      SortByKeyOrdered(xs[1..], key);
      InsertByKeySorted(xs[0], SortByKey(xs[1..], key), key);
    }
  }

  /** The insertion sort's result is a permutation of its input. */
  lemma {:induction false} SortByKeyPerm(xs: seq<int>, key: int -> int)
    ensures multiset(SortByKey(xs, key)) == multiset(xs)
    decreases |xs|
  {
    if |xs| > 0 {
      var rest := SortByKey(xs[1..], key);
      SortByKeyPerm(xs[1..], key);
      InsertByKeyPerm(xs[0], rest, key);
      assert xs == [xs[0]] + xs[1..];
      assert multiset(xs) == multiset(xs[1..]) + multiset{xs[0]};
    }
  }

  /**
   * In a sorted list the first `k` elements carry the `k` smallest keys:
   * anything after them has a key at least as large as anything among them.
   */
  lemma PrefixSmallest(s: seq<int>, key: int -> int, k: int, a: int, b: int)
    requires SortedBy(s, key) && 0 <= k <= |s|
    requires a in s[..k] && b in s[k..]
    ensures key(a) <= key(b)
  {
    var i :| 0 <= i < k && s[..k][i] == a;
    var j :| 0 <= j < |s| - k && s[k..][j] == b;
    assert s[i] == a && s[k + j] == b;
  }

  /**
   * The index a scan `best := bound; for k: if values[k] < best then pick k`
   * ends with: the first position of the minimum when that minimum is below
   * `bound`, and -1 when nothing is below `bound`.
   */
  function FirstMin(values: seq<int>, bound: int): (r: int)
    ensures -1 <= r < |values|
    ensures r == -1 <==> forall k :: 0 <= k < |values| ==> values[k] >= bound
    ensures r >= 0 ==> && values[r] < bound
                       && (forall k :: 0 <= k < |values| ==> values[k] >= values[r])
                       && (forall k :: 0 <= k < r ==> values[k] > values[r])
    decreases |values|
  {
    if |values| == 0 then -1
    else
      var init := values[..|values| - 1];
      var p := FirstMin(init, bound);
      var best := if p == -1 then bound else init[p];
      if values[|values| - 1] < best then |values| - 1 else p
  }

  /** The value a first-minimum scan ends with: the minimum when below `bound`, `bound` otherwise. */
  function MinBelow(values: seq<int>, bound: int): (m: int)
    ensures m <= bound
    ensures forall k :: 0 <= k < |values| ==> m <= values[k]
    ensures m == bound || exists k :: 0 <= k < |values| && m == values[k]
  {
    var r := FirstMin(values, bound);
    if r == -1 then bound else values[r]
  }
}
