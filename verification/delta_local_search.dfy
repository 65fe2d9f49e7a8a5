/**
 * The C local search with a list of moves. Next to the tour array it keeps,
 * for every node id, its successor and predecessor on the cycle, and a list
 * of moves sorted by evaluation. A stored move names the two edges it
 * removes; before reuse, the links say whether those edges still exist and
 * in which orientation.
 *
 * The arrays indexed by node id are `seq<int>` of the instance size; the
 * doubly linked list is a sequence whose order is the list's `next` order
 * (the `prev` links are the same order read backwards).
 */
module DeltaLocalSearch {
  import opened Tours
  import opened LocalSearch

  /**
   * A stored move. Type 0 (2-opt) removes the edges leaving positions `i`
   * and `j`; type 1 writes node `j` at position `i`. `u1-u2` and `v1-v2`
   * are the removed edges, `reversed` is set when both are found backwards.
   */
  datatype DMove = DMove(i: int, j: int, moveType: int, delta: int, u1: int, u2: int, v1: int, v2: int, reversed: int)

  // ---------------------------------------------------------------------
  // Successor and predecessor arrays
  // ---------------------------------------------------------------------

  /** Two arrays over node ids of the same size, holding every tour node. */
  predicate LinksShape(t: seq<int>, succ: seq<int>, pred: seq<int>)
  {
    |succ| == |pred| && InRange(t, |succ|)
  }

  /** Every tour node's links name its neighbours on the cycle. */
  ghost predicate LinksMatch(t: seq<int>, succ: seq<int>, pred: seq<int>)
  {
    && LinksShape(t, succ, pred)
    && forall k :: 0 <= k < |t| ==> succ[t[k]] == t[Succ(k, |t|)] && pred[t[k]] == t[Pred(k, |t|)]
  }

  /** The initialisation loop after its first `i` positions. */
  ghost predicate InitState(t: seq<int>, succ0: seq<int>, pred0: seq<int>, succ: seq<int>, pred: seq<int>, i: int)
  {
    && LinksShape(t, succ0, pred0) && |succ| == |succ0| && |pred| == |pred0| && 0 <= i <= |t|
    && (forall k :: 0 <= k < i ==> succ[t[k]] == t[Succ(k, |t|)] && pred[t[k]] == t[Pred(k, |t|)])
    && (forall v :: 0 <= v < |succ0| && (forall k :: 0 <= k < i ==> t[k] != v) ==> succ[v] == succ0[v] && pred[v] == pred0[v])
  }

  lemma InitStep(t: seq<int>, succ0: seq<int>, pred0: seq<int>, succ: seq<int>, pred: seq<int>, i: int)
    requires InitState(t, succ0, pred0, succ, pred, i) && i < |t| && Distinct(t)
    ensures InitState(t, succ0, pred0, succ[t[i] := t[Succ(i, |t|)]], pred[t[i] := t[Pred(i, |t|)]], i + 1)
  {
    assert forall k :: 0 <= k < i ==> t[k] != t[i];
  }

  /**
   * The initialisation loop: for every position, the node there gets the
   * next and the previous node as successor and predecessor. Entries of
   * nodes outside the tour keep whatever they held.
   */
  method InitLinks(t: seq<int>, succ0: seq<int>, pred0: seq<int>) returns (succ: seq<int>, pred: seq<int>)
    requires LinksShape(t, succ0, pred0) && Distinct(t)
    ensures LinksMatch(t, succ, pred)
    ensures |succ| == |succ0| && |pred| == |pred0|
    ensures forall v :: 0 <= v < |succ0| && v !in t ==> succ[v] == succ0[v] && pred[v] == pred0[v]
  {
    succ, pred := succ0, pred0;
    var size := |t|;
    var i := 0;
    while i < size
      invariant InitState(t, succ0, pred0, succ, pred, i)
    {
      SuccPredMod(i, size);
      InitStep(t, succ0, pred0, succ, pred, i);
      var node := t[i];
      var nextNode := t[(i + 1) % size];
      var prevNode := t[(i - 1 + size) % size];
      succ := succ[node := nextNode];
      pred := pred[node := prevNode];
      i := i + 1;
    }
  }

  /** Following successor links `k` times from `v` (-1 once a link leaves the array). */
  function Walk(succ: seq<int>, v: int, k: nat): int
  {
    if k == 0 then v
    else
      var w := Walk(succ, v, k - 1);
      if 0 <= w < |succ| then succ[w] else -1
  }

  /**
   * Matching links describe the tour completely: walking successors from
   * the first node visits the tour in order, and the predecessor of a
   * node's successor is the node itself.
   */
  lemma {:induction false} LinksWalk(t: seq<int>, succ: seq<int>, pred: seq<int>, k: nat)
    requires LinksMatch(t, succ, pred) && k < |t|
    ensures Walk(succ, t[0], k) == t[k]
    ensures pred[succ[t[k]]] == t[k]
  {
    var n := |t|;
    SuccPredMod(k, n);
    assert pred[t[Succ(k, n)]] == t[Pred(Succ(k, n), n)];
    if k > 0 {
      LinksWalk(t, succ, pred, k - 1);
      assert succ[t[k - 1]] == t[Succ(k - 1, n)];
    }
  }

  // ---------------------------------------------------------------------
  // Applying a stored move
  // ---------------------------------------------------------------------

  datatype Linked = Linked(t: seq<int>, succ: seq<int>, pred: seq<int>)

  /**
   * `apply_move` for type 1: the new node takes the old node's position and
   * both its links, its neighbours point to it, and the old node's links are
   * cleared to -1.
   */
  function ApplyInterMove(t: seq<int>, succ: seq<int>, pred: seq<int>, i: int, newNode: int): (r: Linked)
    requires LinksShape(t, succ, pred) && 0 <= i < |t| && 0 <= newNode < |succ|
    requires 0 <= pred[t[i]] < |succ| && 0 <= succ[t[i]] < |succ|
    ensures |r.succ| == |succ| && |r.pred| == |pred|
    ensures r.t == t[i := newNode]
    ensures r.succ[t[i]] == -1 && r.pred[t[i]] == -1
    ensures forall v :: 0 <= v < |succ| && v != t[i] && v != newNode && v != pred[t[i]] ==> r.succ[v] == succ[v]
    ensures forall v :: 0 <= v < |pred| && v != t[i] && v != newNode && v != succ[t[i]] ==> r.pred[v] == pred[v]
  {
    var oldNode := t[i];
    var prevNode, nextNode := pred[oldNode], succ[oldNode];
    var succ1 := succ[prevNode := newNode];
    var pred1 := pred[newNode := prevNode];
    var succ2 := succ1[newNode := nextNode];
    var pred2 := pred1[nextNode := newNode];
    Linked(t[i := newNode], succ2[oldNode := -1], pred2[oldNode := -1])
  }

  /**
   * On a tour of at least two nodes without repeats, replacing a node by an
   * outside one keeps the links matching the tour.
   */
  lemma ApplyInterMoveLinks(t: seq<int>, succ: seq<int>, pred: seq<int>, i: int, newNode: int)
    requires LinksMatch(t, succ, pred) && Distinct(t) && |t| >= 2
    requires 0 <= i < |t| && 0 <= newNode < |succ| && newNode !in t
    ensures var r := ApplyInterMove(t, succ, pred, i, newNode);
            LinksMatch(r.t, r.succ, r.pred)
  {
    var n := |t|;
    var r := ApplyInterMove(t, succ, pred, i, newNode);
    var p, q := Pred(i, n), Succ(i, n);
    assert pred[t[i]] == t[p] && succ[t[i]] == t[q];
    SuccPredMod(i, n);
    forall k | 0 <= k < n
      ensures r.succ[r.t[k]] == r.t[Succ(k, n)] && r.pred[r.t[k]] == r.t[Pred(k, n)]
    {
      SuccPredMod(k, n);
      assert succ[t[k]] == t[Succ(k, n)] && pred[t[k]] == t[Pred(k, n)];
      if k != i {
        assert t[k] != t[i];
      }
    }
  }

  /** Positions `from` up to `to` have their successor link rewritten to the node after them. */
  ghost predicate SuccSet(r: seq<int>, succ: seq<int>, from: int, to: int)
    requires 0 <= from && to <= |r| && InRange(r, |succ|)
  {
    forall k :: from <= k < to ==> succ[r[k]] == r[Succ(k, |r|)]
  }

  /** ... and the node after each of them has its predecessor link rewritten. */
  ghost predicate PredSet(r: seq<int>, pred: seq<int>, from: int, to: int)
    requires 0 <= from && to <= |r| && InRange(r, |pred|)
  {
    forall k :: from <= k < to ==> pred[r[Succ(k, |r|)]] == r[k]
  }

  /** The 2-opt link update after the positions `from` up to `to` are relinked. */
  ghost predicate RelinkState(r: seq<int>, succ0: seq<int>, pred0: seq<int>, succ: seq<int>, pred: seq<int>, from: int, to: int)
  {
    && |succ| == |succ0| && |pred| == |pred0| && |succ0| == |pred0| && InRange(r, |succ0|)
    && 0 <= from <= to <= |r|
    && (Distinct(r) ==> SuccSet(r, succ, from, to) && PredSet(r, pred, from, to))
    && (forall v :: 0 <= v < |succ| && (forall k :: from <= k < to ==> r[k] != v) ==> succ[v] == succ0[v])
    && (forall v :: 0 <= v < |pred| && (forall k :: from <= k < to ==> r[Succ(k, |r|)] != v) ==> pred[v] == pred0[v])
  }

  /** Relinking position `p` extends the relinked range by one. */
  lemma RelinkStep(r: seq<int>, succ0: seq<int>, pred0: seq<int>, succ: seq<int>, pred: seq<int>, from: int, p: int)
    requires RelinkState(r, succ0, pred0, succ, pred, from, p) && p < |r|
    ensures RelinkState(r, succ0, pred0, succ[r[p] := r[Succ(p, |r|)]], pred[r[Succ(p, |r|)] := r[p]], from, p + 1)
  {
    var n := |r|;
    var succ', pred' := succ[r[p] := r[Succ(p, n)]], pred[r[Succ(p, n)] := r[p]];
    if Distinct(r) {
      forall k | from <= k < p + 1
        ensures succ'[r[k]] == r[Succ(k, n)] && pred'[r[Succ(k, n)]] == r[k]
      {
        if k < p {
          assert r[k] != r[p];
          assert Succ(k, n) != Succ(p, n);
          assert r[Succ(k, n)] != r[Succ(p, n)];
        }
      }
    }
  }

  /**
   * Once positions `i` to `j` are relinked after reversing `i + 1` to `j`,
   * the links match the new tour: the other nodes kept both neighbours.
   */
  lemma TwoOptLinks(t: seq<int>, r: seq<int>, succ0: seq<int>, pred0: seq<int>, succ: seq<int>, pred: seq<int>, i: int, j: int)
    requires LinksMatch(t, succ0, pred0) && Distinct(t) && 0 <= i < j < |t|
    requires r == ReverseRange(t, i + 1, j + 1) && Distinct(r)
    requires RelinkState(r, succ0, pred0, succ, pred, i, j + 1)
    ensures LinksMatch(r, succ, pred)
  {
    var n := |t|;
    assert forall m :: 0 <= m < n && !(i < m <= j) ==> r[m] == t[m];
    forall k | 0 <= k < n
      ensures succ[r[k]] == r[Succ(k, n)] && pred[r[k]] == r[Pred(k, n)]
    {
      TwoOptSuccAt(t, r, succ0, pred0, succ, pred, i, j, k);
      TwoOptPredAt(t, r, succ0, pred0, succ, pred, i, j, k);
    }
  }

  /** A node whose position was not relinked keeps its successor, which did not move either. */
  lemma TwoOptSuccAt(t: seq<int>, r: seq<int>, succ0: seq<int>, pred0: seq<int>, succ: seq<int>, pred: seq<int>, i: int, j: int, k: int)
    requires LinksMatch(t, succ0, pred0) && |r| == |t| && Distinct(r) && 0 <= i < j < |t| && 0 <= k < |t|
    requires forall m :: 0 <= m < |t| && !(i < m <= j) ==> r[m] == t[m]
    requires RelinkState(r, succ0, pred0, succ, pred, i, j + 1)
    ensures succ[r[k]] == r[Succ(k, |t|)]
  {
    var n := |t|;
    SuccPredMod(k, n);
    if !(i <= k <= j) {
      forall m | i <= m < j + 1
        ensures r[m] != r[k]
      {
      }
      assert succ[r[k]] == succ0[r[k]];
      assert r[k] == t[k] && r[Succ(k, n)] == t[Succ(k, n)];
    }
  }

  /** A node whose predecessor's position was not relinked keeps its predecessor, which did not move either. */
  lemma TwoOptPredAt(t: seq<int>, r: seq<int>, succ0: seq<int>, pred0: seq<int>, succ: seq<int>, pred: seq<int>, i: int, j: int, k: int)
    requires LinksMatch(t, succ0, pred0) && |r| == |t| && Distinct(r) && 0 <= i < j < |t| && 0 <= k < |t|
    requires forall m :: 0 <= m < |t| && !(i < m <= j) ==> r[m] == t[m]
    requires RelinkState(r, succ0, pred0, succ, pred, i, j + 1)
    ensures pred[r[k]] == r[Pred(k, |t|)]
  {
    var n := |t|;
    SuccPredMod(k, n);
    var k' := Pred(k, n);
    if !(i <= k' <= j) {
      forall m | i <= m < j + 1
        ensures r[Succ(m, n)] != r[k]
      {
        SuccPredMod(m, n);
      }
      assert pred[r[k]] == pred0[r[k]];
      assert r[k] == t[k] && r[k'] == t[k'];
    } else {
      assert pred[r[Succ(k', n)]] == r[k'];
    }
  }

  /**
   * `apply_move` for type 0: reverse the tour between positions `i + 1`
   * and `j`, then relink every node from position `i` to position `j` to
   * the node after it.
   */
  method ApplyTwoOptMove(t: seq<int>, succ0: seq<int>, pred0: seq<int>, i: int, j: int) returns (r: seq<int>, succ: seq<int>, pred: seq<int>)
    requires LinksShape(t, succ0, pred0) && 0 <= i < j < |t|
    ensures r == ReverseRange(t, i + 1, j + 1)
    ensures RelinkState(r, succ0, pred0, succ, pred, i, j + 1)
    ensures Distinct(t) && LinksMatch(t, succ0, pred0) ==> LinksMatch(r, succ, pred)
  {
    var size := |t|;
    ModOnce(i + 1, size);
    r := ReverseSegment(t, (i + 1) % size, j);
    InRangePermutation(t, r, |succ0|);
    succ, pred := Relink(r, succ0, pred0, i, j);
    if Distinct(t) && LinksMatch(t, succ0, pred0) {
      DistinctReverseRange(t, i + 1, j + 1);
      TwoOptLinks(t, r, succ0, pred0, succ, pred, i, j);
    }
  }

  /** The relinking loop of `apply_move` for type 0 over the already reversed tour `r`. */
  method Relink(r: seq<int>, succ0: seq<int>, pred0: seq<int>, i: int, j: int) returns (succ: seq<int>, pred: seq<int>)
    requires |succ0| == |pred0| && InRange(r, |succ0|) && 0 <= i < j < |r|
    ensures RelinkState(r, succ0, pred0, succ, pred, i, j + 1)
  {
    var size := |r|;
    ModOnce(i + 1, size);
    var currentNode := r[i];
    var nextNode := r[(i + 1) % size];
    SuccPredMod(i, size);
    RelinkStep(r, succ0, pred0, succ0, pred0, i, i);
    succ := succ0[currentNode := nextNode];
    pred := pred0[nextNode := currentNode];
    var idx := (i + 1) % size;
    var p := i + 1;
    while idx != (j + 1) % size
      invariant i + 1 <= p <= j + 1 && idx == p % size
      invariant RelinkState(r, succ0, pred0, succ, pred, i, p)
      decreases j + 1 - p
    {
      TwoOptStepIndex(p, j, size, idx);
      RelinkStep(r, succ0, pred0, succ, pred, i, p);
      currentNode := r[idx];
      nextNode := r[(idx + 1) % size];
      succ := succ[currentNode := nextNode];
      pred := pred[nextNode := currentNode];
      idx := (idx + 1) % size;
      p := p + 1;
    }
    TwoOptLoopExit(p, j, size, idx);
  }

  /** Inside the loop the index is the step count itself, and the C increment is `Succ`. */
  lemma TwoOptStepIndex(p: int, j: int, size: int, idx: int)
    requires 1 <= p <= j + 1 && j < size && idx == p % size && idx != (j + 1) % size
    ensures p <= j && idx == p && (idx + 1) % size == Succ(p, size) && (idx + 1) % size == (p + 1) % size
  {
    ModOnce(p, size);
    ModOnce(j + 1, size);
    SuccPredMod(p, size);
    ModOnce(p + 1, size);
  }

  /** The loop stops exactly after relinking position `j`. */
  lemma TwoOptLoopExit(p: int, j: int, size: int, idx: int)
    requires 1 <= p <= j + 1 && j < size && idx == p % size && idx == (j + 1) % size
    ensures p == j + 1
  {
    ModOnce(p, size);
    ModOnce(j + 1, size);
  }

  // ---------------------------------------------------------------------
  // Checking a stored move against the links
  // ---------------------------------------------------------------------

  /** The edge a-b exists in one direction or the other, as the links say. */
  predicate EdgeLinked(succ: seq<int>, pred: seq<int>, a: int, b: int)
    requires 0 <= a < |succ| && |pred| == |succ|
  {
    succ[a] == b || pred[a] == b
  }

  /**
   * `update_move`: -1 (drop the move) when either edge is gone, 1 (apply)
   * when both run forwards or both backwards, the latter also setting
   * `reversed`, and 0 (keep for later) for mixed orientations.
   */
  function UpdateMove(m: DMove, succ: seq<int>, pred: seq<int>): (r: (int, DMove))
    requires |pred| == |succ| && 0 <= m.u1 < |succ| && 0 <= m.v1 < |succ|
    ensures r.0 == -1 <==> !EdgeLinked(succ, pred, m.u1, m.u2) || !EdgeLinked(succ, pred, m.v1, m.v2)
    ensures r.0 == 1 <==> && EdgeLinked(succ, pred, m.u1, m.u2) && EdgeLinked(succ, pred, m.v1, m.v2)
                          && ((succ[m.u1] == m.u2) == (succ[m.v1] == m.v2))
    ensures r.0 in {-1, 0, 1}
    ensures r.1 == (if r.0 == 1 && succ[m.u1] != m.u2 then m.(reversed := 1) else m)
  {
    var existU := succ[m.u1] == m.u2 || pred[m.u1] == m.u2;
    var existV := succ[m.v1] == m.v2 || pred[m.v1] == m.v2;
    if !(existU && existV) then (-1, m)
    else
      var forwardU := succ[m.u1] == m.u2;
      var forwardV := succ[m.v1] == m.v2;
      if forwardU && forwardV then (1, m)
      else if !forwardU && !forwardV then (1, m.(reversed := 1))
      else (0, m)
  }

  /**
   * Read against the tour the links describe: with `u1` at position `a` and
   * `v1` at position `b`, a move is dropped exactly when one of its edges
   * is no longer a tour edge, and applied exactly when both edges leave
   * their first node on the same side.
   */
  lemma UpdateMoveOnTour(t: seq<int>, succ: seq<int>, pred: seq<int>, m: DMove, a: int, b: int)
    requires LinksMatch(t, succ, pred) && 0 <= a < |t| && 0 <= b < |t| && t[a] == m.u1 && t[b] == m.v1
    ensures var n, st := |t|, UpdateMove(m, succ, pred).0;
            && (st == -1 <==> (t[Succ(a, n)] != m.u2 && t[Pred(a, n)] != m.u2) || (t[Succ(b, n)] != m.v2 && t[Pred(b, n)] != m.v2))
            && (st == 1 <==> && (t[Succ(a, n)] == m.u2 || t[Pred(a, n)] == m.u2)
                             && (t[Succ(b, n)] == m.v2 || t[Pred(b, n)] == m.v2)
                             && ((t[Succ(a, n)] == m.u2) == (t[Succ(b, n)] == m.v2)))
  {
    assert succ[t[a]] == t[Succ(a, |t|)] && pred[t[a]] == t[Pred(a, |t|)];
    assert succ[t[b]] == t[Succ(b, |t|)] && pred[t[b]] == t[Pred(b, |t|)];
  }

  /**
   * A node `apply_move` has taken out of the tour has no links left, so a
   * move whose edge starts at it is dropped.
   */
  lemma RemovedNodeDropsMoves(t: seq<int>, succ: seq<int>, pred: seq<int>, i: int, newNode: int, m: DMove)
    requires LinksMatch(t, succ, pred) && 0 <= i < |t| && 0 <= newNode < |succ|
    requires 0 <= m.u1 < |succ| && 0 <= m.v1 < |succ|
    requires (m.u1 == t[i] && m.u2 >= 0) || (m.v1 == t[i] && m.v2 >= 0)
    ensures var r := ApplyInterMove(t, succ, pred, i, newNode); UpdateMove(m, r.succ, r.pred).0 == -1
  {
  }

  /**
   * No tour node is linked to the node taken out, so a move whose edge ends
   * at it is dropped too, once both its edges start on the new tour.
   */
  lemma RemovedEndDropsMoves(t: seq<int>, succ: seq<int>, pred: seq<int>, i: int, newNode: int, m: DMove)
    requires LinksMatch(t, succ, pred) && Distinct(t) && |t| >= 2
    requires 0 <= i < |t| && 0 <= newNode < |succ| && newNode !in t
    requires m.u1 in t[i := newNode] && m.v1 in t[i := newNode]
    requires m.u2 == t[i] || m.v2 == t[i]
    ensures var r := ApplyInterMove(t, succ, pred, i, newNode); UpdateMove(m, r.succ, r.pred).0 == -1
  {
    var r := ApplyInterMove(t, succ, pred, i, newNode);
    ApplyInterMoveLinks(t, succ, pred, i, newNode);
    var n := |t|;
    forall v | v in r.t
      ensures r.succ[v] != t[i] && r.pred[v] != t[i]
    {
      var k :| 0 <= k < n && r.t[k] == v;
      assert r.succ[v] == r.t[Succ(k, n)] && r.pred[v] == r.t[Pred(k, n)];
      assert forall q :: 0 <= q < n && q != i ==> t[q] != t[i];
    }
  }

  // ---------------------------------------------------------------------
  // The sorted move list
  // ---------------------------------------------------------------------

  /** Evaluations never decrease along the list. */
  predicate SortedByDelta(l: seq<DMove>)
  {
    forall a, b :: 0 <= a < b < |l| ==> l[a].delta <= l[b].delta
  }

  /**
   * `insert`: walk past every move with a smaller evaluation and link the
   * new move in front of the first one whose evaluation is at least its own
   * (at the end when there is none, as the only node of an empty list).
   */
  method Insert(l: seq<DMove>, m: DMove) returns (r: seq<DMove>, p: int)
    ensures 0 <= p <= |l| && r == l[..p] + [m] + l[p..]
    ensures forall k :: 0 <= k < p ==> l[k].delta < m.delta
    ensures p < |l| ==> l[p].delta >= m.delta
    ensures multiset(r) == multiset(l) + multiset{m}
    ensures SortedByDelta(l) ==> SortedByDelta(r)
  {
    p := 0;
    while p < |l| && l[p].delta < m.delta
      invariant 0 <= p <= |l|
      invariant forall k :: 0 <= k < p ==> l[k].delta < m.delta
    {
      p := p + 1;
    }
    r := l[..p] + [m] + l[p..];
    assert l == l[..p] + l[p..];
    if SortedByDelta(l) {
      InsertKeepsOrder(l, m, p);
    }
  }

  lemma InsertKeepsOrder(l: seq<DMove>, m: DMove, p: int)
    requires SortedByDelta(l) && 0 <= p <= |l|
    requires forall k :: 0 <= k < p ==> l[k].delta < m.delta
    requires p < |l| ==> l[p].delta >= m.delta
    ensures SortedByDelta(l[..p] + [m] + l[p..])
  {
    var r := l[..p] + [m] + l[p..];
    forall a, b | 0 <= a < b < |r|
      ensures r[a].delta <= r[b].delta
    {
      if a < p && b > p {
        assert r[a] == l[a] && r[b] == l[b - 1];
      } else if a > p {
        assert r[a] == l[a - 1] && r[b] == l[b - 1];
      } else if a == p && b > p {
        assert r[b] == l[b - 1] && l[p].delta <= l[b - 1].delta;
      }
    }
  }

  /**
   * `deleteNode` on the node at position `p` (a null node, any `p` off the
   * list, changes nothing): its neighbours are linked to each other, so
   * the rest keeps its order.
   */
  function DeleteNode(l: seq<DMove>, p: int): (r: seq<DMove>)
    ensures 0 <= p < |l| ==> |r| == |l| - 1 && multiset(r) + multiset{l[p]} == multiset(l)
    ensures 0 <= p < |l| ==> (forall k :: 0 <= k < p ==> r[k] == l[k]) && (forall k :: p <= k < |r| ==> r[k] == l[k + 1])
    ensures !(0 <= p < |l|) ==> r == l
  {
    if 0 <= p < |l| then
      assert l == l[..p] + [l[p]] + l[p + 1..];
      l[..p] + l[p + 1..]
    else l
  }

  /** Deleting keeps the list sorted. */
  lemma DeleteNodeKeepsOrder(l: seq<DMove>, p: int)
    requires SortedByDelta(l)
    ensures SortedByDelta(DeleteNode(l, p))
  {
    var r := DeleteNode(l, p);
    if 0 <= p < |l| {
      forall a, b | 0 <= a < b < |r|
        ensures r[a].delta <= r[b].delta
      {
        var a', b' := if a < p then a else a + 1, if b < p then b else b + 1;
        assert r[a] == l[a'] && r[b] == l[b'];
      }
    }
  }

  /** `getSmallest`: the head, none on an empty list; on a sorted list the head has the smallest evaluation. */
  function GetSmallest(l: seq<DMove>): (r: Option<DMove>)
    ensures r.None? <==> |l| == 0
    ensures r.Some? ==> r.value in l
    ensures r.Some? && SortedByDelta(l) ==> forall m :: m in l ==> r.value.delta <= m.delta
  {
    if |l| == 0 then None else Some(l[0])
  }

  /** `deleteSmallest`: the list without its head; an empty list stays empty. */
  function DeleteSmallest(l: seq<DMove>): (r: seq<DMove>)
    ensures |l| == 0 ==> r == []
    ensures |l| > 0 ==> [GetSmallest(l).value] + r == l
  {
    if |l| == 0 then [] else l[1..]
  }

  /** Deleting the smallest move is deleting the head node, and keeps the list sorted. */
  lemma DeleteSmallestIsDeleteHead(l: seq<DMove>)
    ensures DeleteSmallest(l) == DeleteNode(l, 0)
    ensures SortedByDelta(l) ==> SortedByDelta(DeleteSmallest(l))
  {
    if |l| > 0 {
      assert DeleteNode(l, 0) == l[1..];
    }
    if SortedByDelta(l) {
      DeleteNodeKeepsOrder(l, 0);
    }
  }

  // ---------------------------------------------------------------------
  // The pass over the stored moves
  // ---------------------------------------------------------------------

  /** Every stored move's first edge nodes index the link arrays. */
  predicate Readable(l: seq<DMove>, n: int)
  {
    forall m :: m in l ==> 0 <= m.u1 < n && 0 <= m.v1 < n
  }

  /**
   * One pass of the search loop over the stored moves: dropped moves are
   * deleted, mixed ones stay, and the first applicable one is deleted and
   * returned (with its orientation recorded), ending the pass.
   */
  function ScanList(l: seq<DMove>, succ: seq<int>, pred: seq<int>): (r: (seq<DMove>, Option<DMove>))
    requires |pred| == |succ| && Readable(l, |succ|)
    ensures multiset(r.0) <= multiset(l) && forall m :: m in r.0 ==> m in l
    ensures r.1.Some? ==> 0 <= r.1.value.u1 < |succ| && 0 <= r.1.value.v1 < |succ|
    ensures r.1.Some? ==> UpdateMove(r.1.value, succ, pred).0 == 1
    ensures r.1.None? ==> forall m :: m in r.0 ==> UpdateMove(m, succ, pred).0 == 0
    decreases |l|
  {
    if |l| == 0 then ([], None)
    else
      var (status, m') := UpdateMove(l[0], succ, pred);
      assert l == [l[0]] + l[1..];
      if status == -1 then
        var r := ScanList(l[1..], succ, pred);
        (r.0, r.1)
      else if status == 0 then
        var r := ScanList(l[1..], succ, pred);
        ([l[0]] + r.0, r.1)
      else (l[1..], Some(m'))
  }

  /** A sorted list's tail is sorted, and its head is at most every later move. */
  lemma SortedTail(l: seq<DMove>)
    requires SortedByDelta(l) && |l| > 0
    ensures SortedByDelta(l[1..]) && forall m :: m in l[1..] ==> l[0].delta <= m.delta
  {
    var tail := l[1..];
    forall a, b | 0 <= a < b < |tail|
      ensures tail[a].delta <= tail[b].delta
    {
      assert tail[a] == l[a + 1] && tail[b] == l[b + 1];
    }
    forall m | m in tail
      ensures l[0].delta <= m.delta
    {
      var k :| 0 <= k < |tail| && tail[k] == m;
      assert l[k + 1] == m;
    }
  }

  /** A move at most every move of a sorted list can go in front of it. */
  lemma SortedCons(h: DMove, rest: seq<DMove>)
    requires SortedByDelta(rest) && forall m :: m in rest ==> h.delta <= m.delta
    ensures SortedByDelta([h] + rest)
  {
    var r := [h] + rest;
    forall a, b | 0 <= a < b < |r|
      ensures r[a].delta <= r[b].delta
    {
      assert r[b] == rest[b - 1] && rest[b - 1] in rest;
      if a > 0 {
        assert r[a] == rest[a - 1];
      }
    }
  }

  /** The pass keeps the list sorted: what is left is the list with some moves deleted. */
  lemma {:induction false} ScanListKeepsOrder(l: seq<DMove>, succ: seq<int>, pred: seq<int>)
    requires |pred| == |succ| && Readable(l, |succ|) && SortedByDelta(l)
    ensures SortedByDelta(ScanList(l, succ, pred).0)
    decreases |l|
  {
    if |l| > 0 {
      var tail := l[1..];
      assert forall m :: m in tail ==> m in l;
      SortedTail(l);
      ScanListKeepsOrder(tail, succ, pred);
      var status := UpdateMove(l[0], succ, pred).0;
      if status == 0 {
        var rest := ScanList(tail, succ, pred).0;
        SortedCons(l[0], rest);
        assert ScanList(l, succ, pred).0 == [l[0]] + rest;
      } else if status == -1 {
        assert ScanList(l, succ, pred).0 == ScanList(tail, succ, pred).0;
      }
    }
  }
}
