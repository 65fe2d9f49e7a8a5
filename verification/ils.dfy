/**
 * Iterated local search of the first lab: a random half of the nodes is
 * improved by local search, then repeatedly perturbed by random 2-opt
 * reversals and improved again until the clock runs out. Every local
 * search result is folded into the best / worst / total record.
 *
 * The local search itself (`perform_local_search`) and the clock are
 * parameters: `search(t)` is what the local search returns on `t` together
 * with the array it leaves behind, and `rounds` is how many perturbation
 * rounds the time budget allows.
 */
module IteratedLocalSearch {
  import opened Tours
  import opened Records
  import GreedyUtils

  // ---------------------------------------------------------------------------
  // Perturbation

  /**
   * One perturbation move: two positions drawn with `rand() % size`; equal
   * positions leave the tour as it is, otherwise the stretch between them,
   * both ends included, is reversed.
   */
  function PerturbStep(t: seq<int>, d1: nat, d2: nat): (r: seq<int>)
    requires |t| >= 1
    ensures |r| == |t| && multiset(r) == multiset(t)
  {
    var i1, i2 := Pick(d1, |t|), Pick(d2, |t|);
    if i1 == i2 then t
    else if i1 < i2 then ReverseRange(t, i1, i2 + 1)
    else ReverseRange(t, i2, i1 + 1)
  }

  /** The tour after the moves `draws`, in order; each move is a pair of `rand()` values. */
  function Perturbed(t: seq<int>, draws: seq<(nat, nat)>): (r: seq<int>)
    requires |t| >= 1
    ensures |r| == |t| && multiset(r) == multiset(t)
    decreases |draws|
  {
    if |draws| == 0 then t
    else
      var last := draws[|draws| - 1];
      PerturbStep(Perturbed(t, draws[..|draws| - 1]), last.0, last.1)
  }

  /**
   * The C swap loop `while (idx1 < idx2) swap, idx1++, idx2--`: it reverses
   * `s[lo..hi]`, both ends included, and leaves every other position alone.
   */
  method SwapInward(s: seq<int>, lo: int, hi: int) returns (r: seq<int>)
    requires 0 <= lo <= hi < |s|
    ensures |r| == |s|
    ensures forall k :: 0 <= k < |s| && (k < lo || hi < k) ==> r[k] == s[k]
    ensures forall k :: lo <= k <= hi ==> r[k] == s[lo + hi - k]
  {
    r := s;
    var a, b := lo, hi;
    while a < b
      invariant lo <= a && b <= hi && a + b == lo + hi && |r| == |s|
      invariant forall k :: 0 <= k < |s| && (k < lo || hi < k) ==> r[k] == s[k]
      invariant forall k :: a <= k <= b ==> r[k] == s[k]
      invariant forall k :: lo <= k <= hi && (k < a || b < k) ==> r[k] == s[lo + hi - k]
    {
      r := Swap(r, a, b);
      a, b := a + 1, b - 1;
    }
  }

  /** What the swap loop does is a range reversal. */
  lemma SwapInwardIsReverse(s: seq<int>, lo: int, hi: int, r: seq<int>)
    requires 0 <= lo <= hi < |s| && |r| == |s|
    requires forall k :: 0 <= k < |s| && (k < lo || hi < k) ==> r[k] == s[k]
    requires forall k :: lo <= k <= hi ==> r[k] == s[lo + hi - k]
    ensures r == ReverseRange(s, lo, hi + 1)
  {
  }

  /** One pass of the C loop body: draw two positions, skip when equal, order them, swap inward. */
  method PerturbMove(s: seq<int>, d1: nat, d2: nat) returns (r: seq<int>)
    requires |s| >= 1
    ensures r == PerturbStep(s, d1, d2)
  {
    var idx1 := Pick(d1, |s|);
    var idx2 := Pick(d2, |s|);
    if idx1 == idx2 {
      return s;
    }
    if idx1 > idx2 {
      idx1, idx2 := idx2, idx1;
    }
    r := SwapInward(s, idx1, idx2);
    SwapInwardIsReverse(s, idx1, idx2, r);
  }

  /**
   * `perturb_solution`: `k` random moves (none when `k <= 0`), move `i`
   * taking its two `rand()` values from `draws[i]`. The result is the tour
   * after those moves; in particular it is a rearrangement of the input.
   */
  method Perturb(t: seq<int>, k: int, draws: seq<(nat, nat)>) returns (r: seq<int>)
    requires |t| >= 1 && |draws| >= k
    ensures r == Perturbed(t, draws[..if k < 0 then 0 else k])
    ensures |r| == |t| && multiset(r) == multiset(t)
  {
    r := t;
    var i := 0;
    while i < k
      invariant 0 <= i && (k >= 0 ==> i <= k) && (k < 0 ==> i == 0)
      invariant r == Perturbed(t, draws[..i])
    {
      assert draws[..i + 1][..i] == draws[..i];
      r := PerturbMove(r, draws[i].0, draws[i].1);
      i := i + 1;
    }
  }

  /** Perturbation keeps a tour a duplicate-free tour of in-range nodes. */
  lemma PerturbedKeepsTour(t: seq<int>, draws: seq<(nat, nat)>, n: int)
    requires |t| >= 1 && Distinct(t) && InRange(t, n)
    ensures Distinct(Perturbed(t, draws)) && InRange(Perturbed(t, draws), n)
  {
    DistinctPermutation(t, Perturbed(t, draws));
    InRangePermutation(t, Perturbed(t, draws), n);
  }

  // ---------------------------------------------------------------------------
  // Bookkeeping

  /** What one local search reports: its best cost, its best tour and its worst tour. */
  datatype SearchResult = SearchResult(bestCost: int, best: seq<int>, worst: seq<int>)

  /**
   * Folding one local search result into the record: compared by the
   * result's best cost on both sides, a new best keeps the result's best
   * tour and a new worst keeps the result's worst tour.
   */
  function FoldResult(rec: Record, res: SearchResult): (r: Record)
  {
    var u := Update(rec, Run(res.best, res.bestCost));
    if res.bestCost > rec.worstCost then u.(worst := res.worst) else u
  }

  function FoldAll(results: seq<SearchResult>): Record
    decreases |results|
  {
    if |results| == 0 then Initial() else FoldResult(FoldAll(results[..|results| - 1]), results[|results| - 1])
  }

  /** Each result as a run: its best tour at its best cost. */
  function AsRuns(results: seq<SearchResult>): (r: seq<Run>)
    ensures |r| == |results|
    ensures forall k :: 0 <= k < |results| ==> r[k] == Run(results[k].best, results[k].bestCost)
  {
    seq(|results|, k requires 0 <= k < |results| => Run(results[k].best, results[k].bestCost))
  }

  /**
   * The ILS record agrees with the common record of the runs in every field
   * but the worst tour: same best cost, worst cost, total and best tour.
   */
  lemma {:induction false} FoldAllAgrees(results: seq<SearchResult>)
    ensures var r, c := FoldAll(results), RecordAll(AsRuns(results));
            r.bestCost == c.bestCost && r.worstCost == c.worstCost && r.totalCost == c.totalCost && r.best == c.best
    decreases |results|
  {
    if |results| > 0 {
      var init := results[..|results| - 1];
      FoldAllAgrees(init);
      assert AsRuns(results)[..|results| - 1] == AsRuns(init);
    }
  }

  /** After any results the best cost bounds every result's best cost from below and the worst cost from above. */
  lemma FoldAllBounds(results: seq<SearchResult>)
    ensures forall k :: 0 <= k < |results| ==>
              FoldAll(results).bestCost <= results[k].bestCost <= FoldAll(results).worstCost
  {
    FoldAllAgrees(results);
    RecordAllBounds(AsRuns(results));
  }

  // ---------------------------------------------------------------------------
  // The search

  /**
   * `ILS_solve`: shuffle all node ids and keep the first half rounded up,
   * run the local search, then `rounds` times perturb the array the local
   * search left behind and search again. The initial search counts as an
   * iteration, so at least one is reported, and every result lies between
   * the recorded best and worst costs. `shuffleDraws` feeds the shuffle and
   * `rand(round, c)` is the `c`-th `rand()` value of perturbation round `round`.
   */
  method Solve(n: nat, strength: int, rounds: nat, shuffleDraws: seq<nat>, rand: (nat, nat) -> nat,
               search: seq<int> -> (SearchResult, seq<int>))
    returns (rec: Record, iterations: nat, ghost results: seq<SearchResult>)
    requires n >= 1 && |shuffleDraws| >= n - 1
    requires forall t :: |search(t).1| == |t|
    ensures iterations == |results| == rounds + 1 && iterations >= 1
    ensures rec == FoldAll(results)
    ensures forall k :: 0 <= k < |results| ==> rec.bestCost <= results[k].bestCost <= rec.worstCost
  {
    var all := GreedyUtils.ShuffleArray(AllNodes(n), shuffleDraws);
    var current := all[..TargetSize(n)];
    var out := search(current);
    iterations := 1;
    results := [out.0];
    assert results[..0] == [];
    rec := FoldResult(Initial(), out.0);
    current := out.1;
    var round: nat := 0;
    while round < rounds
      invariant round <= rounds && iterations == |results| == round + 1
      invariant |current| == TargetSize(n) && rec == FoldAll(results)
    {
      var draws := seq(if strength < 0 then 0 else strength, c requires 0 <= c => (rand(round, 2 * c), rand(round, 2 * c + 1)));
      current := Perturb(current, strength, draws);
      out := search(current);
      iterations := iterations + 1;
      assert (results + [out.0])[..|results|] == results;
      results := results + [out.0];
      rec := FoldResult(rec, out.0);
      current := out.1;
      round := round + 1;
    }
    FoldAllBounds(results);
  }
}
