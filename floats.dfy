/**
 * `floats.Min` and `floats.Max` from the gonum floats package, which
 * matrix.go calls on a column and on the column statistics. Both panic on an
 * empty slice, so both require a non-empty sequence.
 */
module Floats {
  import GoMath

  /** The least element of a non-empty sequence. */
  function Min(s: seq<real>): (r: real)
    requires |s| > 0
    ensures r in s
    ensures forall i :: 0 <= i < |s| ==> r <= s[i]
  {
    if |s| == 1 then s[0] else GoMath.Min(Min(s[..|s| - 1]), s[|s| - 1])
  }

  /** The greatest element of a non-empty sequence. */
  function Max(s: seq<real>): (r: real)
    requires |s| > 0
    ensures r in s
    ensures forall i :: 0 <= i < |s| ==> s[i] <= r
  {
    if |s| == 1 then s[0] else GoMath.Max(Max(s[..|s| - 1]), s[|s| - 1])
  }
}
