/**
 * functions/functions.go: the kernel strategies of the map. Distances,
 * cooling factors and neighbourhood influences, and the dispatchers that
 * select one by name and give 0.0 for a name they do not know.
 */
module Functions {
  import GoMath

  type MathLib = GoMath.MathLib

  /** The package's own integer min. */
  function Min(a: int, b: int): (r: int)
    ensures r <= a && r <= b
    ensures r == a || r == b
  {
    if a < b then a else b
  }

  /** How many leading entries two vectors share. */
  function Shared(from: seq<real>, to: seq<real>): nat
  {
    Min(|from|, |to|)
  }

  // ---------------------------------------------------------------- distances

  /** The sum of (from[i] - to[i])^2 over i < n. */
  function SumOfSquares(from: seq<real>, to: seq<real>, n: nat): (r: real)
    requires n <= |from| && n <= |to|
    ensures 0.0 <= r
  {
    if n == 0 then 0.0
    else SumOfSquares(from, to, n - 1) + (from[n - 1] - to[n - 1]) * (from[n - 1] - to[n - 1])
  }

  /** The sum of |to[i] - from[i]| over i < n. */
  function SumOfAbs(from: seq<real>, to: seq<real>, n: nat): (r: real)
    requires n <= |from| && n <= |to|
    ensures 0.0 <= r
  {
    if n == 0 then 0.0 else SumOfAbs(from, to, n - 1) + GoMath.Abs(to[n - 1] - from[n - 1])
  }

  /** The quantity EuclideanDistance takes the square root of. */
  function SquaredEuclidean(from: seq<real>, to: seq<real>): real
  {
    SumOfSquares(from, to, Shared(from, to))
  }

  /** The Euclidean distance over the shared prefix. */
  function Euclidean(m: MathLib, from: seq<real>, to: seq<real>): real
  {
    m.Sqrt(SquaredEuclidean(from, to))
  }

  /** The Manhattan distance over the shared prefix. */
  function Manhattan(from: seq<real>, to: seq<real>): real
  {
    SumOfAbs(from, to, Shared(from, to))
  }

  method EuclideanDistance(from: seq<real>, to: seq<real>, m: MathLib) returns (distance: real)
    ensures distance == m.Sqrt(SumOfSquares(from, to, Shared(from, to)))
  {
    var d := 0.0;
    var l := Min(|from|, |to|);
    for i := 0 to l
      invariant d == SumOfSquares(from, to, i)
    {
      d := d + (from[i] - to[i]) * (from[i] - to[i]);
    }
    distance := m.Sqrt(d);
  }

  method ManhattanDistance(from: seq<real>, to: seq<real>) returns (distance: real)
    ensures distance == SumOfAbs(from, to, Shared(from, to))
  {
    var d := 0.0;
    var l := Min(|from|, |to|);
    for i := 0 to l
      invariant d == SumOfAbs(from, to, i)
    {
      d := d + GoMath.Abs(to[i] - from[i]);
    }
    distance := d;
  }

  lemma {:induction false} SumOfSquaresSymmetric(a: seq<real>, b: seq<real>, n: nat)
    requires n <= |a| && n <= |b|
    ensures SumOfSquares(a, b, n) == SumOfSquares(b, a, n)
  {
    if n > 0 {
      SumOfSquaresSymmetric(a, b, n - 1);
      assert (a[n - 1] - b[n - 1]) * (a[n - 1] - b[n - 1]) == (b[n - 1] - a[n - 1]) * (b[n - 1] - a[n - 1]);
    }
  }

  lemma {:induction false} SumOfAbsSymmetric(a: seq<real>, b: seq<real>, n: nat)
    requires n <= |a| && n <= |b|
    ensures SumOfAbs(a, b, n) == SumOfAbs(b, a, n)
  {
    if n > 0 {
      SumOfAbsSymmetric(a, b, n - 1);
    }
  }

  lemma {:induction false} SumsVanishOnIdentical(a: seq<real>, n: nat)
    requires n <= |a|
    ensures SumOfSquares(a, a, n) == 0.0 && SumOfAbs(a, a, n) == 0.0
  {
    if n > 0 {
      SumsVanishOnIdentical(a, n - 1);
    }
  }

  /** The sums over the first n entries depend on nothing but those entries. */
  lemma {:induction false} SumsDependOnPrefix(a: seq<real>, b: seq<real>, a': seq<real>, b': seq<real>, n: nat)
    requires n <= |a| && n <= |b| && n <= |a'| && n <= |b'|
    requires a[..n] == a'[..n] && b[..n] == b'[..n]
    ensures SumOfSquares(a, b, n) == SumOfSquares(a', b', n)
    ensures SumOfAbs(a, b, n) == SumOfAbs(a', b', n)
  {
    if n > 0 {
      assert a[..n - 1] == a[..n][..n - 1] && a'[..n - 1] == a'[..n][..n - 1];
      assert b[..n - 1] == b[..n][..n - 1] && b'[..n - 1] == b'[..n][..n - 1];
      assert a[n - 1] == a[..n][n - 1] && a'[n - 1] == a'[..n][n - 1];
      assert b[n - 1] == b[..n][n - 1] && b'[n - 1] == b'[..n][n - 1];
      SumsDependOnPrefix(a, b, a', b', n - 1);
    }
  }

  /** Both distances are symmetric and zero on identical inputs. */
  lemma {:induction false} DistanceSymmetry(m: MathLib, a: seq<real>, b: seq<real>)
    ensures Euclidean(m, a, b) == Euclidean(m, b, a) && Manhattan(a, b) == Manhattan(b, a)
    ensures m.Valid() ==> Euclidean(m, a, a) == 0.0
    ensures Manhattan(a, a) == 0.0
  {
    SumOfSquaresSymmetric(a, b, Shared(a, b));
    SumOfAbsSymmetric(a, b, Shared(a, b));
    SumsVanishOnIdentical(a, |a|);
    if m.Valid() {
      GoMath.SqrtOfOneAndZero(m);
    }
  }

  /** Entries beyond the shorter input never count: cutting both inputs to
      their shared prefix leaves both distances unchanged. */
  lemma {:induction false} DistancesIgnoreTail(a: seq<real>, b: seq<real>)
    ensures SquaredEuclidean(a, b) == SquaredEuclidean(a[..Shared(a, b)], b[..Shared(a, b)])
    ensures Manhattan(a, b) == Manhattan(a[..Shared(a, b)], b[..Shared(a, b)])
  {
    var l := Shared(a, b);
    var a', b' := a[..l], b[..l];
    assert Shared(a', b') == l;
    assert a'[..l] == a[..l] && b'[..l] == b[..l];
    SumsDependOnPrefix(a, b, a', b', l);
  }

  /** Under a valid square root, the Euclidean distance orders (and ties)
      pairs exactly as its squared sum does. */
  lemma {:induction false} EuclideanOrderIsSquaredOrder(m: MathLib, a: seq<real>, b: seq<real>, c: seq<real>, d: seq<real>)
    requires m.Valid()
    ensures Euclidean(m, a, b) < Euclidean(m, c, d) <==> SquaredEuclidean(a, b) < SquaredEuclidean(c, d)
    ensures Euclidean(m, a, b) == Euclidean(m, c, d) <==> SquaredEuclidean(a, b) == SquaredEuclidean(c, d)
  {
    GoMath.SqrtOrder(m, SquaredEuclidean(a, b), SquaredEuclidean(c, d));
  }

  // ------------------------------------------------------------------ cooling

  function LinearCooling(input: real): (output: real)
  {
    1.0 - input
  }

  function SoftCooling(input: real, m: MathLib): (output: real)
  {
    var d := -m.Log(0.2 / 1.2);
    (1.2 * m.Exp(-input * d)) - 0.2
  }

  function MediumCooling(input: real, m: MathLib): (output: real)
  {
    1.005 * m.Pow(0.005 / 1.0, input) - 0.005
  }

  /** Go divides by 1 + 100 * input; a zero divisor gives an infinity, which
      the model cannot represent. */
  function HardCooling(input: real): (output: real)
    requires 1.0 + 100.0 * input != 0.0
  {
    var d := 1.0 / 101.0;
    (1.0 + d) / (1.0 + 100.0 * input) - d
  }

  /** Linear cooling starts at 1, ends at 0 and never increases. */
  lemma {:induction false} LinearCoolingShape(p: real, q: real)
    ensures LinearCooling(0.0) == 1.0 && LinearCooling(1.0) == 0.0
    ensures p <= q ==> LinearCooling(q) <= LinearCooling(p)
    ensures 0.0 <= p <= 1.0 ==> 0.0 <= LinearCooling(p) <= 1.0
  {
  }

  /** A fixed numerator over a larger positive divisor gives a smaller quotient. */
  lemma {:induction false} QuotientDecreases(c: real, x: real, y: real)
    requires 0.0 < c && 0.0 < x < y
    ensures c / y < c / x
  {
    var qx, qy := c / x, c / y;
    assert qx * x == c && qy * y == c;
    calc {
      qy * x;
    <  { assert 0.0 < qy; } qy * y;
    == qx * x;
    }
  }

  /** Hard cooling starts at 1, strictly decreases from there on, and at
      progress 1 is already below 0.5 yet still positive (it turns negative
      only past progress 1.01). */
  lemma {:induction false} HardCoolingShape(p: real, q: real)
    requires 0.0 <= p < q
    ensures HardCooling(0.0) == 1.0
    ensures HardCooling(q) < HardCooling(p)
    ensures 0.0 < HardCooling(1.0) < 0.5
    ensures p <= 1.0 ==> 0.0 < HardCooling(p) <= 1.0
  {
    var d := 1.0 / 101.0;
    QuotientDecreases(1.0 + d, 1.0 + 100.0 * p, 1.0 + 100.0 * q);
    if 0.0 < p {
      QuotientDecreases(1.0 + d, 1.0, 1.0 + 100.0 * p);
    }
    if p < 1.0 {
      QuotientDecreases(1.0 + d, 1.0 + 100.0 * p, 101.0);
    }
  }

  /** With the identities of a valid MathLib, every cooling function starts at
      1 and has fallen below 0.5 at progress 1. */
  lemma {:induction false} CoolingEndpoints(m: MathLib)
    requires m.Valid()
    ensures LinearCooling(0.0) == 1.0 && SoftCooling(0.0, m) == 1.0
    ensures MediumCooling(0.0, m) == 1.0 && HardCooling(0.0) == 1.0
    ensures LinearCooling(1.0) == 0.0 && SoftCooling(1.0, m) == 0.0
    ensures MediumCooling(1.0, m) < 0.5 && HardCooling(1.0) < 0.5
  {
    var d := -m.Log(0.2 / 1.2);
    assert -0.0 * d == 0.0;
    assert -1.0 * d == m.Log(0.2 / 1.2);
    assert m.Exp(m.Log(0.2 / 1.2)) == 0.2 / 1.2;
  }

  // ------------------------------------------------------------- neighbourhood

  function BubbleNeighborhood(distance: real): (influence: real)
  {
    var d := GoMath.Abs(distance);
    if d < 1.0 then 1.0 else 0.0
  }

  function ConeNeighborhood(distance: real): (influence: real)
  {
    var d := GoMath.Abs(distance);
    if d < 1.0 then (1.0 - d) / 1.0 else 0.0
  }

  /** Go divides by a norm built from math.Pow; a valid MathLib makes it 8/30.25. */
  function GaussianNeighborhood(distance: real, m: MathLib): (influence: real)
    requires m.Valid()
  {
    var stdDev := 5.5;
    assert m.Pow(2.0, 2.0) == 4.0 && m.Pow(stdDev, 2.0) == 30.25;
    var norm := (2.0 * m.Pow(2.0, 2.0)) / m.Pow(stdDev, 2.0);
    m.Exp((-distance * distance) / norm)
  }

  function MexicanHatNeighborhood(distance: real, m: MathLib): (influence: real)
  {
    var norm := 3.0 / 2.0;
    var square := m.Pow(distance * norm, 2.0);
    (1.0 - square) * m.Exp(-square)
  }

  /** Bubble is the unit step on |d| < 1. */
  lemma {:induction false} BubbleIsStep(d: real)
    ensures BubbleNeighborhood(d) == 1.0 <==> GoMath.Abs(d) < 1.0
    ensures BubbleNeighborhood(d) == 0.0 <==> 1.0 <= GoMath.Abs(d)
  {
  }

  /** Cone falls linearly from 1 to 0 on |d| < 1, is even, and never exceeds bubble. */
  lemma {:induction false} ConeShape(d: real)
    ensures GoMath.Abs(d) < 1.0 ==> ConeNeighborhood(d) == 1.0 - GoMath.Abs(d)
    ensures 1.0 <= GoMath.Abs(d) ==> ConeNeighborhood(d) == 0.0
    ensures 0.0 <= ConeNeighborhood(d) <= BubbleNeighborhood(d) <= 1.0
    ensures ConeNeighborhood(-d) == ConeNeighborhood(d)
  {
  }

  /** The Gaussian kernel is positive everywhere, so it reaches beyond |d| = 1. */
  lemma {:induction false} GaussianPositive(d: real, m: MathLib)
    requires m.Valid()
    ensures 0.0 < GaussianNeighborhood(d, m)
  {
  }

  // --------------------------------------------------------------- dispatchers

  /** When CoolingFactor is defined: only hard cooling divides by the progress. */
  predicate CoolingDefined(coolingFunction: string, progress: real)
  {
    coolingFunction == "hard" ==> 1.0 + 100.0 * progress != 0.0
  }

  /** When NeighborhoodInfluenceFactor is defined: only the Gaussian divides by math.Pow. */
  ghost predicate NeighborhoodDefined(neighborhoodFunction: string, m: MathLib)
  {
    neighborhoodFunction == "gaussian" ==> m.Valid()
  }

  function CoolingFactor(coolingFunction: string, progress: real, m: MathLib): real
    requires CoolingDefined(coolingFunction, progress)
  {
    if coolingFunction == "linear" then LinearCooling(progress)
    else if coolingFunction == "soft" then SoftCooling(progress, m)
    else if coolingFunction == "medium" then MediumCooling(progress, m)
    else if coolingFunction == "hard" then HardCooling(progress)
    else 0.0
  }

  /** The value of Distance, for contracts. */
  function DistanceOf(distanceFunction: string, m: MathLib, from: seq<real>, to: seq<real>): (d: real)
    ensures m.Valid() ==> 0.0 <= d
  {
    if distanceFunction == "euclidean" then Euclidean(m, from, to)
    else if distanceFunction == "manhattan" then Manhattan(from, to)
    else 0.0
  }

  method Distance(distanceFunction: string, from: seq<real>, to: seq<real>, m: MathLib) returns (d: real)
    ensures d == DistanceOf(distanceFunction, m, from, to)
  {
    if distanceFunction == "euclidean" {
      d := EuclideanDistance(from, to, m);
    } else if distanceFunction == "manhattan" {
      d := ManhattanDistance(from, to);
    } else {
      d := 0.0;
    }
  }

  function NeighborhoodInfluenceFactor(neighborhoodFunction: string, distance: real, m: MathLib): real
    requires NeighborhoodDefined(neighborhoodFunction, m)
  {
    if neighborhoodFunction == "bubble" then BubbleNeighborhood(distance)
    else if neighborhoodFunction == "cone" then ConeNeighborhood(distance)
    else if neighborhoodFunction == "gaussian" then GaussianNeighborhood(distance, m)
    else if neighborhoodFunction == "mexicanhat" then MexicanHatNeighborhood(distance, m)
    else 0.0
  }

  /** An unrecognised name selects nothing: each dispatcher returns 0.0. */
  lemma {:induction false} UnknownNamesGiveZero(name: string, p: real, d: real, m: MathLib, a: seq<real>, b: seq<real>)
    ensures name !in {"linear", "soft", "medium", "hard"} ==> CoolingFactor(name, p, m) == 0.0
    ensures name !in {"euclidean", "manhattan"} ==> DistanceOf(name, m, a, b) == 0.0
    ensures name !in {"bubble", "cone", "gaussian", "mexicanhat"} ==> NeighborhoodInfluenceFactor(name, d, m) == 0.0
  {
  }

  /** The examples of functions_test.go that do not need a transcendental value. */
  lemma {:induction false} KernelExamples(m: MathLib)
    requires m.Valid()
    ensures DistanceOf("euclidean", m, [1.0, 1.0], [0.0, 0.0]) == m.Sqrt(2.0)
    ensures DistanceOf("euclidean", m, [0.0, 1.0], [0.0, 0.0]) == 1.0
    ensures DistanceOf("manhattan", m, [1.0, 1.0], [0.0, 0.0]) == 2.0
    ensures DistanceOf("manhattan", m, [0.0, 1.0], [0.0, 0.0]) == 1.0
    ensures CoolingFactor("linear", 0.0, m) > 0.95 && CoolingFactor("hard", 0.0, m) > 0.95
    ensures CoolingFactor("soft", 0.0, m) > 0.95 && CoolingFactor("medium", 0.0, m) > 0.95
    ensures CoolingFactor("linear", 0.5, m) > 0.0 && CoolingFactor("hard", 0.5, m) > 0.0
    ensures CoolingFactor("linear", 1.0, m) < 0.5 && CoolingFactor("hard", 1.0, m) < 0.5
    ensures CoolingFactor("soft", 1.0, m) < 0.5 && CoolingFactor("medium", 1.0, m) < 0.5
    ensures NeighborhoodInfluenceFactor("bubble", 0.5, m) > 0.0
    ensures NeighborhoodInfluenceFactor("cone", 0.5, m) > 0.0
    ensures NeighborhoodInfluenceFactor("gaussian", 0.5, m) > 0.0
  {
    var one, zero := [1.0, 1.0], [0.0, 0.0];
    assert SumOfSquares(one, zero, 2) == 2.0;
    assert SumOfSquares([0.0, 1.0], zero, 2) == 1.0;
    assert SumOfAbs(one, zero, 2) == 2.0;
    assert SumOfAbs([0.0, 1.0], zero, 2) == 1.0;
    GoMath.SqrtOfOneAndZero(m);
    CoolingEndpoints(m);
    GaussianPositive(0.5, m);
  }
}
