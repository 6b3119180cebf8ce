/** The numpy arrays the tools pass around, reduced to what they use: an
    element type, a shape, the samples in row-major order, and the
    reductions `reshape`, `min`, `max` and `mean`. Samples are real numbers. */
module Raster {
  import opened Base

  datatype DType = UInt8 | Int8 | UInt16 | Int16 | Int32 | Int64 | Float32 | Float64

  /** An n-dimensional array: `samples` lists the elements in row-major
      (C) order. */
  datatype Array = Array(dtype: DType, shape: seq<nat>, samples: seq<real>)

  function Size(shape: seq<nat>): nat {
    if shape == [] then 1 else shape[0] * Size(shape[1..])
  }

  predicate WellFormed(a: Array) {
    |a.samples| == Size(a.shape)
  }

  /** `np.frombuffer(buf, float32).reshape((height, width))`: accepted exactly
      when both sides are non-negative and the sample count matches; the
      result is a float32 image holding the same samples. */
  function Reshape(samples: seq<real>, height: int, width: int): (r: Result<Array>)
    ensures r.Ok? <==> 0 <= height && 0 <= width && |samples| == height * width
    ensures r.Ok? ==> WellFormed(r.value) && r.value.dtype == Float32
                      && r.value.shape == [height, width] && r.value.samples == samples
  {
    if 0 <= height && 0 <= width && |samples| == height * width then
      SizeOfPlane(height, width);
      Ok(Array(Float32, [height, width], samples))
    else Err(ShapeMismatch(height, width, |samples|))
  }

  /** The sample at row `y`, column `x` of a 2-D array. */
  function At(a: Array, y: nat, x: nat): real
    requires WellFormed(a) && |a.shape| == 2 && y < a.shape[0] && x < a.shape[1]
  {
    RowMajorBound(y, x, a.shape[0], a.shape[1]);
    SizeOfPlane(a.shape[0], a.shape[1]);
    assert a.shape == [a.shape[0], a.shape[1]];
    a.samples[y * a.shape[1] + x]
  }

  lemma SizeOfPlane(h: nat, w: nat)
    ensures Size([h, w]) == h * w
  {
    assert [h, w][1..] == [w];
    assert [w][1..] == [];
    assert Size([w]) == w * Size([]) == w;
  }

  lemma RowMajorBound(y: nat, x: nat, h: nat, w: nat)
    requires y < h && x < w
    ensures y * w + x < h * w
  {
    assert (y + 1) * w <= h * w;
  }

  /** `a.max()`: an element of `s` that no element exceeds. */
  function Max(s: seq<real>): (m: real)
    requires s != []
    ensures m in s && forall x :: x in s ==> x <= m
  {
    if |s| == 1 then s[0]
    else
      var m := Max(s[1..]);
      assert s == [s[0]] + s[1..];
      if s[0] >= m then s[0] else m
  }

  /** `a.min()`: an element of `s` that exceeds no element. */
  function Min(s: seq<real>): (m: real)
    requires s != []
    ensures m in s && forall x :: x in s ==> m <= x
  {
    if |s| == 1 then s[0]
    else
      var m := Min(s[1..]);
      assert s == [s[0]] + s[1..];
      if s[0] <= m then s[0] else m
  }

  function Sum(s: seq<real>): real {
    if s == [] then 0.0 else s[0] + Sum(s[1..])
  }

  /** `a.mean()`: the value that, taken once per sample, adds up to the
      sum; the mean of a constant array is that constant. */
  function Mean(s: seq<real>): (r: real)
    requires s != []
    ensures r * |s| as real == Sum(s)
    ensures (forall x :: x in s ==> x == s[0]) ==> r == s[0]
  {
    SumOfConstant(s);
    Sum(s) / |s| as real
  }

  lemma SumOfConstant(s: seq<real>)
    requires s != []
    ensures (forall x :: x in s ==> x == s[0]) ==> Sum(s) == |s| as real * s[0]
  {
    if forall x :: x in s ==> x == s[0] {
      SumBounds(s, s[0], s[0]);
    }
  }

  lemma {:induction false} SumBounds(s: seq<real>, lo: real, hi: real)
    requires forall x :: x in s ==> lo <= x <= hi
    ensures |s| as real * lo <= Sum(s) <= |s| as real * hi
  {
    if s != [] {
      assert s[0] in s;
      assert forall x :: x in s[1..] ==> x in s;
      SumBounds(s[1..], lo, hi);
      assert |s| as real * lo == lo + (|s| - 1) as real * lo;
      assert |s| as real * hi == hi + (|s| - 1) as real * hi;
    }
  }

  lemma DivideBounds(total: real, n: real, lo: real, hi: real)
    requires n > 0.0 && n * lo <= total <= n * hi
    ensures lo <= total / n <= hi
  {
    var q := total / n;
    assert q * n == total;
  }

  /** The mean the inspectors print lies between the minimum and the
      maximum they print. */
  lemma MeanWithinRange(s: seq<real>)
    requires s != []
    ensures Min(s) <= Mean(s) <= Max(s)
  {
    SumBounds(s, Min(s), Max(s));
    DivideBounds(Sum(s), |s| as real, Min(s), Max(s));
  }

  /** The samples counted as valid depth: those strictly above zero, in
      order. Each positive value is kept as many times as it occurs, so the
      length is the number of positive samples. */
  function Positive(s: seq<real>): (r: seq<real>)
    ensures |r| <= |s|
    ensures forall x :: x in r <==> x in s && x > 0.0
    ensures forall x :: multiset(r)[x] == if x > 0.0 then multiset(s)[x] else 0
  {
    if s == [] then []
    else
      var rest := Positive(s[1..]);
      assert s == [s[0]] + s[1..];
      if s[0] > 0.0 then [s[0]] + rest else rest
  }
}
