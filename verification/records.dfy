/**
 * Best / worst / total bookkeeping shared by every C solver: each run's
 * tour and objective are folded into the record in the order the runs
 * happen. The best tour is replaced only on a strictly smaller objective
 * and the worst only on a strictly larger one, so each is the first run
 * that reaches its extreme. The record starts from the `INT_MAX` / `INT_MIN`
 * sentinels with no tour.
 */
module Records {
  import opened Tours

  /** One run of a solver: the tour it produced and that tour's objective. */
  datatype Run = Run(tour: seq<int>, cost: int)

  datatype Record = Record(bestCost: int, worstCost: int, totalCost: int, best: seq<int>, worst: seq<int>)

  /** The record before any run. */
  function Initial(): Record
  {
    Record(IntMax, IntMin, 0, [], [])
  }

  /** Fold one more run into the record. */
  function Update(rec: Record, run: Run): (r: Record)
    ensures r.totalCost == rec.totalCost + run.cost
    ensures r.bestCost <= rec.bestCost && r.bestCost <= run.cost
    ensures r.worstCost >= rec.worstCost && r.worstCost >= run.cost
    ensures r.bestCost == rec.bestCost || r.bestCost == run.cost
    ensures r.worstCost == rec.worstCost || r.worstCost == run.cost
  {
    var afterBest :=
      if run.cost < rec.bestCost then rec.(bestCost := run.cost, best := run.tour) else rec;
    var afterWorst :=
      if run.cost > afterBest.worstCost then afterBest.(worstCost := run.cost, worst := run.tour) else afterBest;
    afterWorst.(totalCost := rec.totalCost + run.cost)
  }

  /** The record after the given runs, folded in order. */
  function RecordAll(runs: seq<Run>): Record
    decreases |runs|
  {
    if |runs| == 0 then Initial() else Update(RecordAll(runs[..|runs| - 1]), runs[|runs| - 1])
  }

  function SumCosts(runs: seq<Run>): int
    decreases |runs|
  {
    if |runs| == 0 then 0 else SumCosts(runs[..|runs| - 1]) + runs[|runs| - 1].cost
  }

  /**
   * After any sequence of runs the best cost bounds every run's cost from
   * below and the worst cost from above, and the total is the sum of all costs.
   */
  lemma {:induction false} RecordAllBounds(runs: seq<Run>)
    ensures var r := RecordAll(runs);
            && r.totalCost == SumCosts(runs)
            && r.bestCost <= IntMax && r.worstCost >= IntMin
            && (forall k :: 0 <= k < |runs| ==> r.bestCost <= runs[k].cost <= r.worstCost)
            && ((forall k :: 0 <= k < |runs| ==> runs[k].cost >= IntMax) ==> r.bestCost == IntMax)
            && ((forall k :: 0 <= k < |runs| ==> runs[k].cost <= IntMin) ==> r.worstCost == IntMin)
    decreases |runs|
  {
    if |runs| > 0 {
      var init := runs[..|runs| - 1];
      RecordAllBounds(init);
      forall k | 0 <= k < |runs| - 1
        ensures runs[k] == init[k]
      {
      }
    }
  }

  /**
   * When some run beats the `INT_MAX` sentinel, the best tour is the tour of
   * the first run whose cost is the minimum over all runs.
   */
  lemma {:induction false} RecordAllBest(runs: seq<Run>)
    requires exists k :: 0 <= k < |runs| && runs[k].cost < IntMax
    ensures var r := RecordAll(runs);
            exists k :: && 0 <= k < |runs| && r.bestCost == runs[k].cost && r.best == runs[k].tour
                        && (forall l :: 0 <= l < k ==> runs[l].cost > r.bestCost)
    decreases |runs|
  {
    var init, last := runs[..|runs| - 1], runs[|runs| - 1];
    RecordAllBounds(runs);
    RecordAllBounds(init);
    var r, r0 := RecordAll(runs), RecordAll(init);
    if exists k :: 0 <= k < |init| && init[k].cost < IntMax {
      RecordAllBest(init);
      var k :| && 0 <= k < |init| && r0.bestCost == init[k].cost && r0.best == init[k].tour
               && (forall l :: 0 <= l < k ==> init[l].cost > r0.bestCost);
      if last.cost < r0.bestCost {
        forall l | 0 <= l < |runs| - 1
          ensures runs[l].cost > r.bestCost
        {
          assert runs[l] == init[l];
        }
        assert r.bestCost == runs[|runs| - 1].cost && r.best == runs[|runs| - 1].tour;
      } else {
        assert runs[k] == init[k];
        forall l | 0 <= l < k
          ensures runs[l].cost > r.bestCost
        {
          assert runs[l] == init[l];
        }
      }
    } else {
      forall l | 0 <= l < |runs| - 1
        ensures runs[l].cost >= IntMax
      {
        assert runs[l] == init[l];
      }
      assert last.cost < IntMax;
      assert r.bestCost == runs[|runs| - 1].cost && r.best == runs[|runs| - 1].tour;
    }
  }

  /**
   * When some run beats the `INT_MIN` sentinel, the worst tour is the tour of
   * the first run whose cost is the maximum over all runs.
   */
  lemma {:induction false} RecordAllWorst(runs: seq<Run>)
    requires exists k :: 0 <= k < |runs| && runs[k].cost > IntMin
    ensures var r := RecordAll(runs);
            exists k :: && 0 <= k < |runs| && r.worstCost == runs[k].cost && r.worst == runs[k].tour
                        && (forall l :: 0 <= l < k ==> runs[l].cost < r.worstCost)
    decreases |runs|
  {
    var init, last := runs[..|runs| - 1], runs[|runs| - 1];
    RecordAllBounds(runs);
    RecordAllBounds(init);
    var r, r0 := RecordAll(runs), RecordAll(init);
    if exists k :: 0 <= k < |init| && init[k].cost > IntMin {
      RecordAllWorst(init);
      var k :| && 0 <= k < |init| && r0.worstCost == init[k].cost && r0.worst == init[k].tour
               && (forall l :: 0 <= l < k ==> init[l].cost < r0.worstCost);
      if last.cost > r0.worstCost {
        forall l | 0 <= l < |runs| - 1
          ensures runs[l].cost < r.worstCost
        {
          assert runs[l] == init[l];
        }
        assert r.worstCost == runs[|runs| - 1].cost && r.worst == runs[|runs| - 1].tour;
      } else {
        assert runs[k] == init[k];
        forall l | 0 <= l < k
          ensures runs[l].cost < r.worstCost
        {
          assert runs[l] == init[l];
        }
      }
    } else {
      forall l | 0 <= l < |runs| - 1
        ensures runs[l].cost <= IntMin
      {
        assert runs[l] == init[l];
      }
      assert last.cost > IntMin;
      assert r.worstCost == runs[|runs| - 1].cost && r.worst == runs[|runs| - 1].tour;
    }
  }
}
