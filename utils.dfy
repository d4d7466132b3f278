/** utils.go: integer Min and Max, and the average of a vector. */
module Utils {
  import Floats

  /** The smaller of two integers. */
  function Min(a: int, b: int): (r: int)
    ensures r <= a && r <= b
    ensures r == a || r == b
  {
    if a < b then a else b
  }

  /** The larger of two integers. */
  function Max(a: int, b: int): (r: int)
    ensures a <= r && b <= r
    ensures r == a || r == b
  {
    if a > b then a else b
  }

  /** Min and Max do not depend on the order of their arguments. */
  lemma {:induction false} MinMaxCommute(a: int, b: int)
    ensures Min(a, b) == Min(b, a)
    ensures Max(a, b) == Max(b, a)
  {
  }

  /** The sum of a vector, added up from the front as Avg does. */
  function Sum(v: seq<real>): real
  {
    if v == [] then 0.0 else Sum(v[..|v| - 1]) + v[|v| - 1]
  }

  /** Avg adds up the vector and divides by its length (0/0 for an empty
      vector is NaN in Go, so the vector must be non-empty). */
  method Avg(v: seq<real>) returns (r: real)
    requires |v| > 0
    ensures r == Sum(v) / |v| as real
  {
    var t := 0.0;
    for i := 0 to |v|
      invariant t == Sum(v[..i])
    {
      assert v[..i + 1][..i] == v[..i];
      t := t + v[i];
    }
    assert v[..|v|] == v;
    r := t / |v| as real;
  }

  /** A sum of n values in [lo, hi] lies in [n * lo, n * hi]. */
  lemma {:induction false} SumBounds(v: seq<real>, lo: real, hi: real)
    requires forall i :: 0 <= i < |v| ==> lo <= v[i] <= hi
    ensures |v| as real * lo <= Sum(v) <= |v| as real * hi
  {
    if v != [] {
      var n := |v| - 1;
      SumBounds(v[..n], lo, hi);
      CountBetween(lo, hi, n as real, Sum(v[..n]), v[n], |v| as real, Sum(v));
    }
  }

  /** One more term in [lo, hi] keeps a sum of k terms between k * lo and
      k * hi. */
  lemma {:induction false} CountBetween(lo: real, hi: real, k: real, sum: real, x: real, k': real, sum': real)
    requires k * lo <= sum <= k * hi && lo <= x <= hi
    requires k' == k + 1.0 && sum' == sum + x
    ensures k' * lo <= sum' <= k' * hi
  {
    assert k' * lo == k * lo + lo;
    assert k' * hi == k * hi + hi;
  }

  /** A fraction f in [0, 1] of a non-negative a lies in [0, a]. */
  lemma {:induction false} FractionWithin(a: real, f: real)
    requires 0.0 <= a && 0.0 <= f <= 1.0
    ensures 0.0 <= a * f <= a
  {
  }

  /** Dividing by a positive count keeps a bound scaled by that count. */
  lemma {:induction false} DivideBounds(s: real, n: real, lo: real, hi: real)
    requires 0.0 < n && n * lo <= s <= n * hi
    ensures lo <= s / n <= hi
  {
    var q := s / n;
    assert s == q * n;
    assert n * lo <= n * q <= n * hi;
  }

  /** The average of values in [lo, hi] lies in [lo, hi]. */
  lemma {:induction false} AvgWithin(v: seq<real>, lo: real, hi: real)
    requires |v| > 0
    requires forall i :: 0 <= i < |v| ==> lo <= v[i] <= hi
    ensures lo <= Sum(v) / |v| as real <= hi
  {
    SumBounds(v, lo, hi);
    DivideBounds(Sum(v), |v| as real, lo, hi);
  }

  /** The average lies between the least and the greatest element. */
  lemma {:induction false} AvgBetweenExtremes(v: seq<real>)
    requires |v| > 0
    ensures Floats.Min(v) <= Sum(v) / |v| as real <= Floats.Max(v)
  {
    AvgWithin(v, Floats.Min(v), Floats.Max(v));
  }

  /** The example of utils_test.go: the average of 0, 1, 2 is 1. */
  lemma {:induction false} AvgExample()
    ensures Sum([0.0, 1.0, 2.0]) / 3.0 == 1.0
  {
    assert [0.0, 1.0, 2.0][..2] == [0.0, 1.0];
    assert [0.0, 1.0][..1] == [0.0];
    assert [0.0][..0] == [];
  }

  /** A sequence of three entries is the display of those entries. */
  lemma {:induction false} ThreeEntries(s: seq<real>)
    requires |s| == 3
    ensures s == [s[0], s[1], s[2]]
  {
  }
}
