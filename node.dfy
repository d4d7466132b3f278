/**
 * node.go: a single neuron of the map, a position on the grid and a weight
 * vector that training pulls toward the inputs.
 */
module Nodes {
  import Utils

  /** Go's int(f) conversion: truncation toward zero. */
  function Trunc(r: real): (n: int)
    ensures 0.0 <= r ==> 0 <= n && n as real <= r < n as real + 1.0
    ensures r < 0.0 ==> n <= 0 && n as real - 1.0 < r <= n as real
  {
    if 0.0 <= r then r.Floor else -((-r).Floor)
  }

  /** Truncating a whole number gives it back. */
  lemma {:induction false} TruncOfInteger(n: int)
    ensures Trunc(n as real) == n
  {
  }

  /** The weights after Adjust: entries below the length of both vectors
      move toward the input by the influence, the others stay. */
  function Adjusted(weights: seq<real>, input: seq<real>, influence: real): (r: seq<real>)
    ensures |r| == |weights|
    ensures forall i :: 0 <= i < |weights| && i < |input| ==> r[i] == weights[i] + (input[i] - weights[i]) * influence
    ensures forall i :: |input| <= i < |weights| ==> r[i] == weights[i]
  {
    seq(|weights|, i requires 0 <= i < |weights| =>
      if i < |input| then weights[i] + (input[i] - weights[i]) * influence else weights[i])
  }

  class Node {
    var Position: seq<real>
    var Weights: seq<real>

    /** NewNode. */
    constructor (x: int, y: int, dimensions: nat)
      ensures Position == [x as real, y as real]
      ensures Weights == seq(dimensions, _ => 0.0)
      ensures X() == x && Y() == y
    {
      Position := [x as real, y as real];
      Weights := seq(dimensions, _ => 0.0);
      new;
      TruncOfInteger(x);
      TruncOfInteger(y);
    }

    /** The x coordinate, the first position entry truncated toward zero. */
    function X(): (x: int)
      reads this
      requires 1 <= |Position|
      ensures 0.0 <= Position[0] ==> x as real <= Position[0] < x as real + 1.0
      ensures Position[0] < 0.0 ==> x as real - 1.0 < Position[0] <= x as real
    {
      Trunc(Position[0])
    }

    /** The y coordinate, the second position entry truncated toward zero. */
    function Y(): (y: int)
      reads this
      requires 2 <= |Position|
      ensures 0.0 <= Position[1] ==> y as real <= Position[1] < y as real + 1.0
      ensures Position[1] < 0.0 ==> y as real - 1.0 < Position[1] <= y as real
    {
      Trunc(Position[1])
    }

    method Adjust(input: seq<real>, influence: real)
      modifies this`Weights
      ensures Weights == Adjusted(old(Weights), input, influence)
    {
      var l := Utils.Min(|input|, |Weights|);
      ghost var w0 := Weights;
      for i := 0 to l
        invariant |Weights| == |w0|
        invariant forall k :: 0 <= k < i ==> Weights[k] == w0[k] + (input[k] - w0[k]) * influence
        invariant forall k :: i <= k < |w0| ==> Weights[k] == w0[k]
      {
        Weights := Weights[i := Weights[i] + (input[i] - Weights[i]) * influence];
      }
    }
  }

  /** Influence 1 copies the input into the shared prefix; influence 0, or an
      input equal to the weights, changes nothing. */
  lemma {:induction false} AdjustExtremes(weights: seq<real>, input: seq<real>)
    ensures forall i :: 0 <= i < |weights| && i < |input| ==> Adjusted(weights, input, 1.0)[i] == input[i]
    ensures Adjusted(weights, input, 0.0) == weights
    ensures forall f: real :: Adjusted(weights, weights, f) == weights
  {
  }

  /** One-dimensional core of AdjustStaysBetween: a step of fraction f
      from w toward x ends between the two. */
  lemma {:induction false} StepBetween(w: real, x: real, f: real, y: real)
    requires 0.0 <= f <= 1.0 && y == w + (x - w) * f
    ensures w <= x ==> w <= y <= x
    ensures x <= w ==> x <= y <= w
  {
    var d := x - w;
    ScaledWithin(d, f);
    assert y - w == d * f;
  }

  /** A fraction f in [0, 1] of d lies between 0 and d. */
  lemma {:induction false} ScaledWithin(d: real, f: real)
    requires 0.0 <= f <= 1.0
    ensures 0.0 <= d ==> 0.0 <= d * f <= d
    ensures d <= 0.0 ==> d <= d * f <= 0.0
  {
  }

  /** With influence in [0,1], each updated weight lies between its old
      value and the input. */
  lemma {:induction false} AdjustStaysBetween(weights: seq<real>, input: seq<real>, influence: real, i: nat)
    requires 0.0 <= influence <= 1.0
    requires i < |weights| && i < |input|
    ensures weights[i] <= input[i] ==> weights[i] <= Adjusted(weights, input, influence)[i] <= input[i]
    ensures input[i] <= weights[i] ==> input[i] <= Adjusted(weights, input, influence)[i] <= weights[i]
  {
    StepBetween(weights[i], input[i], influence, Adjusted(weights, input, influence)[i]);
  }

  /** With influence in [0,1], weights and input inside [lo, hi] keep the
      updated weights inside [lo, hi]. */
  lemma {:induction false} AdjustWithin(weights: seq<real>, input: seq<real>, influence: real, lo: real, hi: real)
    requires 0.0 <= influence <= 1.0
    requires forall i :: 0 <= i < |weights| ==> lo <= weights[i] <= hi
    requires forall i :: 0 <= i < |input| ==> lo <= input[i] <= hi
    ensures forall i :: 0 <= i < |weights| ==> lo <= Adjusted(weights, input, influence)[i] <= hi
  {
    forall i | 0 <= i < |weights|
      ensures lo <= Adjusted(weights, input, influence)[i] <= hi
    {
      if i < |input| {
        AdjustStaysBetween(weights, input, influence, i);
      }
    }
  }

  /** The four cases of node_test.go. */
  lemma {:induction false} AdjustExamples()
    ensures Adjusted([1.0, 1.0], [0.0, 0.0], 0.5) == [0.5, 0.5]
    ensures Adjusted([0.0, 0.0], [1.0, 1.0], 0.5) == [0.5, 0.5]
    ensures Adjusted([1.0, 1.0], [1.0, 1.0], 1.0) == [1.0, 1.0]
    ensures Adjusted([0.0, 0.0], [0.0, 0.0], 1.0) == [0.0, 0.0]
  {
  }
}
