/** Sums and means over real numbers, as the pipeline's averages and error
    metrics compute them (floating point is read as exact arithmetic). */
module Stats {

  function Sum(xs: seq<real>): real
    decreases |xs|
  {
    if |xs| == 0 then 0.0 else Sum(xs[..|xs| - 1]) + xs[|xs| - 1]
  }

  /** The arithmetic mean of a non-empty sequence. */
  function Mean(xs: seq<real>): real
    requires |xs| > 0
  {
    Sum(xs) / |xs| as real
  }

  /** Each term between `lo` and `hi` puts the sum between `|xs|` times each. */
  lemma {:induction false} SumBounds(xs: seq<real>, lo: real, hi: real)
    requires forall k :: 0 <= k < |xs| ==> lo <= xs[k] <= hi
    ensures |xs| as real * lo <= Sum(xs) <= |xs| as real * hi
    decreases |xs|
  {
    if |xs| > 0 {
      var init := xs[..|xs| - 1];
      assert forall k :: 0 <= k < |init| ==> init[k] == xs[k];
      SumBounds(init, lo, hi);
      assert |xs| as real * lo == |init| as real * lo + lo;
      assert |xs| as real * hi == |init| as real * hi + hi;
    }
  }

  /** The mean lies between any lower and upper bound of the terms. */
  lemma MeanBounds(xs: seq<real>, lo: real, hi: real)
    requires |xs| > 0
    requires forall k :: 0 <= k < |xs| ==> lo <= xs[k] <= hi
    ensures lo <= Mean(xs) <= hi
  {
    SumBounds(xs, lo, hi);
    var n := |xs| as real;
    DivideBounds(Sum(xs), n, lo, hi);
  }

  lemma DivideBounds(s: real, n: real, lo: real, hi: real)
    requires n > 0.0 && n * lo <= s <= n * hi
    ensures lo <= s / n <= hi
  {
    var m := s / n;
    assert s == n * m;
  }

  /** The mean of equal terms is that term. */
  lemma MeanOfConstant(xs: seq<real>, x: real)
    requires |xs| > 0 && forall k :: 0 <= k < |xs| ==> xs[k] == x
    ensures Mean(xs) == x
  {
    MeanBounds(xs, x, x);
  }

  /** A sum of non-negative terms is zero exactly when every term is. */
  lemma {:induction false} SumZeroIff(xs: seq<real>)
    requires forall k :: 0 <= k < |xs| ==> xs[k] >= 0.0
    ensures Sum(xs) >= 0.0
    ensures Sum(xs) == 0.0 <==> forall k :: 0 <= k < |xs| ==> xs[k] == 0.0
    decreases |xs|
  {
    if |xs| > 0 {
      var init := xs[..|xs| - 1];
      assert forall k :: 0 <= k < |init| ==> init[k] == xs[k];
      SumZeroIff(init);
      if Sum(xs) == 0.0 {
        forall k | 0 <= k < |xs| ensures xs[k] == 0.0 {
          if k < |init| {
            assert init[k] == xs[k];
          }
        }
      }
    }
  }

  /** A mean of non-negative terms is non-negative, and zero exactly when
      every term is. */
  lemma MeanZeroIff(xs: seq<real>)
    requires |xs| > 0 && forall k :: 0 <= k < |xs| ==> xs[k] >= 0.0
    ensures Mean(xs) >= 0.0
    ensures Mean(xs) == 0.0 <==> forall k :: 0 <= k < |xs| ==> xs[k] == 0.0
  {
    SumZeroIff(xs);
    var n := |xs| as real;
    assert Sum(xs) == n * Mean(xs);
  }

  function Abs(x: real): real {
    if x < 0.0 then -x else x
  }

  /** The absolute errors of the predictions. */
  function AbsErrors(y: seq<real>, pred: seq<real>): (es: seq<real>)
    requires |y| == |pred|
    ensures |es| == |y| && forall i :: 0 <= i < |es| ==> es[i] >= 0.0 && (es[i] == 0.0 <==> y[i] == pred[i])
  {
    seq(|y|, i requires 0 <= i < |y| => Abs(y[i] - pred[i]))
  }

  /** The sum of three terms, written out. */
  lemma SumOfThree(x: real, y: real, z: real)
    ensures Sum([x, y, z]) == x + y + z
  {
    assert [x, y, z][..2] == [x, y] && [x, y][..1] == [x] && [x][..0] == [];
    assert Sum([x]) == x;
    assert Sum([x, y]) == x + y;
  }
}
