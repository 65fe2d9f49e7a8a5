/**
 * The C++ `Utils` templates used on evaluations: membership, the mean and
 * the min / mean / max summary. The templates are taken at `int`, the type
 * they are used with; the mean is a `real`, the exact value C++'s `double`
 * approximates.
 */
module Utils {
  /** `Utils::contains`: a linear `std::find` that reports whether `value` occurs. */
  method Contains<T(==)>(vec: seq<T>, value: T) returns (r: bool)
    ensures r <==> value in vec
  {
    var i := 0;
    while i < |vec|
      invariant 0 <= i <= |vec|
      invariant value !in vec[..i]
    {
      if vec[i] == value {
        return true;
      }
      assert vec[..i + 1] == vec[..i] + [vec[i]];
      i := i + 1;
    }
    assert vec[..i] == vec;
    return false;
  }

  /** The sum `std::accumulate` forms. */
  function Sum(vec: seq<int>): int
    decreases |vec|
  {
    if |vec| == 0 then 0 else Sum(vec[..|vec| - 1]) + vec[|vec| - 1]
  }

  /** `Utils::mean`: 0 for no values, otherwise the sum shared equally over the values. */
  function Mean(vec: seq<int>): (r: real)
    ensures |vec| == 0 ==> r == 0.0
    ensures |vec| > 0 ==> r * (|vec| as real) == Sum(vec) as real
  {
    if |vec| == 0 then 0.0 else Sum(vec) as real / (|vec| as real)
  }

  /** Values bounded by `lo` and `hi` sum to between `|vec| * lo` and `|vec| * hi`. */
  lemma {:induction false} SumBounds(vec: seq<int>, lo: int, hi: int)
    requires forall k :: 0 <= k < |vec| ==> lo <= vec[k] <= hi
    ensures |vec| * lo <= Sum(vec) <= |vec| * hi
    decreases |vec|
  {
    if |vec| > 0 {
      SumBounds(vec[..|vec| - 1], lo, hi);
    }
  }

  /** The mean of values lies between any lower and upper bound of them. */
  lemma MeanBetween(vec: seq<int>, lo: int, hi: int)
    requires |vec| > 0 && forall k :: 0 <= k < |vec| ==> lo <= vec[k] <= hi
    ensures lo as real <= Mean(vec) <= hi as real
  {
    SumBounds(vec, lo, hi);
    var n, m := |vec| as real, Mean(vec);
    assert m * n == Sum(vec) as real;
    assert (lo as real) * n <= m * n <= (hi as real) * n;
    if m < lo as real {
      ScaleStrict(m, lo as real, n);
    }
    if hi as real < m {
      ScaleStrict(hi as real, m, n);
    }
  }

  /** Scaling by a positive factor keeps a strict order. */
  lemma ScaleStrict(a: real, b: real, n: real)
    requires a < b && n > 0.0
    ensures a * n < b * n
  {
    assert b * n - a * n == (b - a) * n;
  }

  /** The summary `calculateStats` fills in. */
  datatype Stats = Stats(min: int, avg: real, max: int)

  /** `std::min_element` / `std::max_element`: the value at the first least / greatest position. */
  method Extremes(vec: seq<int>) returns (lo: int, hi: int)
    requires |vec| > 0
    ensures lo in vec && hi in vec
    ensures forall k :: 0 <= k < |vec| ==> lo <= vec[k] <= hi
  {
    lo, hi := vec[0], vec[0];
    var i := 1;
    while i < |vec|
      invariant 1 <= i <= |vec| && lo in vec[..i] && hi in vec[..i]
      invariant forall k :: 0 <= k < i ==> lo <= vec[k] <= hi
    {
      if vec[i] < lo {
        lo := vec[i];
      }
      if vec[i] > hi {
        hi := vec[i];
      }
      assert vec[..i + 1] == vec[..i] + [vec[i]];
      i := i + 1;
    }
    assert vec[..i] == vec;
  }

  /**
   * `Utils::calculateStats`: for no values, the default value `T()` (0 for
   * `int`) as min and max and 0 as mean; otherwise the least and greatest
   * values and their mean, which lies between them.
   */
  method CalculateStats(vec: seq<int>) returns (r: Stats)
    ensures |vec| == 0 ==> r == Stats(0, 0.0, 0)
    ensures |vec| > 0 ==> r.min in vec && r.max in vec && r.avg == Mean(vec)
    ensures forall k :: 0 <= k < |vec| ==> r.min <= vec[k] <= r.max
    ensures |vec| > 0 ==> r.min as real <= r.avg <= r.max as real
  {
    if |vec| == 0 {
      return Stats(0, 0.0, 0);
    }
    var lo, hi := Extremes(vec);
    MeanBetween(vec, lo, hi);
    r := Stats(lo, Mean(vec), hi);
  }
}
