/** `sum` and `average` (main.js), over exact reals: the script's durations are
    JavaScript numbers, whose rounding the model leaves out. */
module Stats {
  import opened Basics

  /** The reference total: every value added to a zero seed. */
  function Total(values: seq<real>): real
  {
    if values == [] then 0.0 else values[0] + Total(values[1..])
  }

  /** What `reduce((sum, value) => sum + value)` computes once it has taken the
      first element as its accumulator: the remaining values added left to right. */
  function FoldSum(acc: real, rest: seq<real>): (r: real)
    ensures r == acc + Total(rest)
    decreases |rest|
  {
    if rest == [] then acc else FoldSum(acc + rest[0], rest[1..])
  }

  /** `avg` is the arithmetic mean of `values`. */
  predicate IsMean(avg: real, values: seq<real>)
  {
    avg * |values| as real == Total(values)
  }

  /** `sum(values)`: a reduce with no seed, which throws on an empty array. */
  function Sum(values: seq<real>): (r: Result<real>)
    ensures r.Failure? <==> values == []
    ensures r.Failure? ==> r.error == EmptyReduce
    ensures r.Success? ==> r.value == Total(values)
  {
    if values == [] then Failure(EmptyReduce) else Success(FoldSum(values[0], values[1..]))
  }

  /** `average(values)`: the sum divided by the count; an empty array throws from `sum`
      before any division happens. */
  function Average(values: seq<real>): (r: Result<real>)
    ensures r.Failure? <==> values == []
    ensures r.Failure? ==> r.error == EmptyReduce
    ensures r.Success? ==> IsMean(r.value, values)
  {
    match Sum(values)
    case Failure(e) => Failure(e)
    case Success(s) => Success(s / |values| as real)
  }

  /** A single timing averages to itself. */
  lemma AverageSingleton(x: real)
    ensures Average([x]) == Success(x)
  {
    assert Total([x]) == x + Total([]);
  }

  lemma {:induction false} TotalBounds(values: seq<real>, lo: real, hi: real)
    requires forall i :: 0 <= i < |values| ==> lo <= values[i] <= hi
    ensures |values| as real * lo <= Total(values) <= |values| as real * hi
    decreases |values|
  {
    if values != [] {
      var rest := values[1..];
      assert forall i :: 0 <= i < |rest| ==> rest[i] == values[i + 1];
      TotalBounds(rest, lo, hi);
      var m := |rest| as real;
      assert |values| as real == m + 1.0;
      assert (m + 1.0) * lo == m * lo + lo;
      assert (m + 1.0) * hi == m * hi + hi;
      assert Total(values) == values[0] + Total(rest);
    }
  }

  lemma NonNegativeFactor(x: real, n: real)
    requires n > 0.0 && x * n >= 0.0
    ensures x >= 0.0
  {
  }

  /** The average of non-empty timings lies between any lower and upper bound of them. */
  lemma AverageBounds(values: seq<real>, lo: real, hi: real)
    requires values != []
    requires forall i :: 0 <= i < |values| ==> lo <= values[i] <= hi
    ensures Average(values).Success?
    ensures lo <= Average(values).value <= hi
  {
    TotalBounds(values, lo, hi);
    var n := |values| as real;
    var a := Average(values).value;
    assert (a - lo) * n == a * n - lo * n == Total(values) - n * lo;
    assert (hi - a) * n == hi * n - a * n == n * hi - Total(values);
    NonNegativeFactor(a - lo, n);
    NonNegativeFactor(hi - a, n);
  }

  /** Comparing a mean with a threshold is comparing the total with `count * threshold`. */
  lemma MeanAbove(avg: real, values: seq<real>, c: real)
    requires values != [] && IsMean(avg, values)
    ensures avg > c <==> Total(values) > c * |values| as real
  {
    var n := |values| as real;
    assert Total(values) - c * n == (avg - c) * n;
    if avg > c {
      PositiveProduct(avg - c, n);
    } else {
      PositiveProduct(c - avg, n);
      assert (c - avg) * n >= 0.0;
    }
  }

  lemma PositiveProduct(x: real, n: real)
    requires x >= 0.0 && n > 0.0
    ensures x * n >= 0.0
    ensures x > 0.0 ==> x * n > 0.0
  {
  }
}
