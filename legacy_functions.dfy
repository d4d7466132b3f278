/**
 * functions.go: the older snapshot of the kernels, kept in the root package.
 * Its cooling and neighbourhood kernels are the same expressions as those of
 * functions/functions.go and are modelled once, in module Functions; what
 * differs is that its distances take the shared length from utils.go's Min
 * instead of the package-local min. Both distances are proved here against
 * the current definitions.
 */
module LegacyFunctions {
  import GoMath
  import Utils
  import Functions

  method EuclideanDistance(from: seq<real>, to: seq<real>, m: GoMath.MathLib) returns (distance: real)
    ensures distance == Functions.Euclidean(m, from, to)
  {
    var d := 0.0;
    var l := Utils.Min(|from|, |to|);
    assert l == Functions.Shared(from, to);
    for i := 0 to l
      invariant d == Functions.SumOfSquares(from, to, i)
    {
      d := d + (from[i] - to[i]) * (from[i] - to[i]);
    }
    distance := m.Sqrt(d);
  }

  method ManhattanDistance(from: seq<real>, to: seq<real>) returns (distance: real)
    ensures distance == Functions.Manhattan(from, to)
  {
    var d := 0.0;
    var l := Utils.Min(|from|, |to|);
    assert l == Functions.Shared(from, to);
    for i := 0 to l
      invariant d == Functions.SumOfAbs(from, to, i)
    {
      d := d + GoMath.Abs(to[i] - from[i]);
    }
    distance := d;
  }
}
