/**
 * The value-level meaning of som.go: what Closest, Neighbors, Step, Train,
 * Interpolate and WeightedInterpolate compute, written over the weight
 * vectors and positions of the lattice rather than over node objects.
 */
module SomModel {
  import opened Wrappers
  import GoMath
  import Floats
  import Utils
  import Functions
  import Nodes
  import Matrices

  type MathLib = GoMath.MathLib

  /** The settings of a SOM that training reads. */
  datatype Settings = Settings(
    Width: int,
    Height: int,
    CoolingFunction: string,
    DistanceFunction: string,
    NeighborhoodFunction: string)

  // ------------------------------------------------------------------ Closest

  /** The distance from the input to every weight vector, in lattice order. */
  function Distances(distanceFunction: string, m: MathLib, input: seq<real>, ws: seq<seq<real>>): (ds: seq<real>)
    ensures |ds| == |ws|
    ensures forall k :: 0 <= k < |ws| ==> ds[k] == Functions.DistanceOf(distanceFunction, m, input, ws[k])
  {
    seq(|ws|, k requires 0 <= k < |ws| => Functions.DistanceOf(distanceFunction, m, input, ws[k]))
  }

  /** The tie set of Closest: the indices whose distance is t, in the
      order the scan meets them. */
  function Ties(ds: seq<real>, t: real): (r: seq<int>)
    ensures forall k :: 0 <= k < |r| ==> 0 <= r[k] < |ds| && ds[r[k]] == t
  {
    if |ds| == 0 then []
    else
      var front := Ties(ds[..|ds| - 1], t);
      assert forall k :: 0 <= k < |front| ==> ds[front[k]] == ds[..|ds| - 1][front[k]];
      front + (if ds[|ds| - 1] == t then [|ds| - 1] else [])
  }

  /** The index Closest returns: the tie set of the least distance, from
      which a caller-chosen pick selects when there is more than one. */
  function ClosestIndex(ds: seq<real>, pick: nat): (k: int)
    requires |ds| > 0
    ensures 0 <= k < |ds|
  {
    var ties := Ties(ds, Floats.Min(ds));
    assert Floats.Min(ds) in ds;
    var i :| 0 <= i < |ds| && ds[i] == Floats.Min(ds);
    TiesComplete(ds, Floats.Min(ds), i);
    if |ties| > 1 then ties[pick % |ties|] else ties[0]
  }

  /** ClosestIndex picks one of the ties at the least distance, so no
      distance is smaller than the one it picks. */
  lemma {:induction false} ClosestIsNearest(ds: seq<real>, pick: nat)
    requires |ds| > 0
    ensures ClosestIndex(ds, pick) in Ties(ds, Floats.Min(ds))
    ensures forall j :: 0 <= j < |ds| ==> ds[ClosestIndex(ds, pick)] <= ds[j]
  {
    ClosestSelects(ds, pick);
  }

  /** The selection rule of ClosestIndex: the pick chooses among the
      ties, and a lone tie is taken whatever the pick. */
  lemma {:induction false} ClosestSelects(ds: seq<real>, pick: nat)
    requires |ds| > 0
    ensures var ties := Ties(ds, Floats.Min(ds));
            0 < |ties| && ClosestIndex(ds, pick) == if |ties| > 1 then ties[pick % |ties|] else ties[0]
  {
    assert Floats.Min(ds) in ds;
    var i :| 0 <= i < |ds| && ds[i] == Floats.Min(ds);
    TiesComplete(ds, Floats.Min(ds), i);
  }

  /** Every index whose distance is t is in the tie set. */
  lemma {:induction false} TiesComplete(ds: seq<real>, t: real, j: int)
    requires 0 <= j < |ds| && ds[j] == t
    ensures j in Ties(ds, t)
  {
    if j < |ds| - 1 {
      TiesComplete(ds[..|ds| - 1], t, j);
    }
  }

  /** The tie set is strictly ascending, so no node is listed twice. */
  lemma {:induction false} TiesAscending(ds: seq<real>, t: real)
    ensures forall k, l :: 0 <= k < l < |Ties(ds, t)| ==> Ties(ds, t)[k] < Ties(ds, t)[l]
  {
    if |ds| > 0 {
      var front := Ties(ds[..|ds| - 1], t);
      TiesAscending(ds[..|ds| - 1], t);
      var r := Ties(ds, t);
      assert r == front + (if ds[|ds| - 1] == t then [|ds| - 1] else []);
      forall k, l | 0 <= k < l < |r|
        ensures r[k] < r[l]
      {
        if l < |front| {
          assert r[k] == front[k] && r[l] == front[l];
        } else {
          assert r[k] == front[k] && front[k] < |ds| - 1 == r[l];
        }
      }
    }
  }

  /** Extending the scanned prefix by entry i adds i to the tie set
      exactly when ds[i] is tied. */
  lemma {:induction false} TiesExtend(ds: seq<real>, i: int, t: real)
    requires 0 <= i < |ds|
    ensures Ties(ds[..i + 1], t) == Ties(ds[..i], t) + (if ds[i] == t then [i] else [])
  {
    assert ds[..i + 1][..i] == ds[..i];
  }

  lemma {:induction false} TiesNone(ds: seq<real>, t: real)
    requires forall j :: 0 <= j < |ds| ==> ds[j] != t
    ensures Ties(ds, t) == []
  {
    if |ds| > 0 {
      TiesNone(ds[..|ds| - 1], t);
    }
  }

  /** One iteration of Closest's scan: a smaller distance restarts the tie
      set, an equal one joins it, a greater one changes nothing. */
  lemma {:induction false} ScanStep(ds: seq<real>, i: int, t: real)
    requires 0 <= i < |ds|
    requires i == 0 ==> t == ds[0]
    requires 0 < i ==> t == Floats.Min(ds[..i])
    ensures ds[i] < t ==> Floats.Min(ds[..i + 1]) == ds[i] && Ties(ds[..i + 1], ds[i]) == [i]
    ensures ds[i] == t ==> Floats.Min(ds[..i + 1]) == t && Ties(ds[..i + 1], t) == Ties(ds[..i], t) + [i]
    ensures t < ds[i] ==> Floats.Min(ds[..i + 1]) == t && Ties(ds[..i + 1], t) == Ties(ds[..i], t)
  {
    TiesExtend(ds, i, t);
    TiesExtend(ds, i, ds[i]);
    MinExtend(ds, i);
    if ds[i] < t {
      TiesNone(ds[..i], ds[i]);
    }
  }

  lemma {:induction false} MinExtend(ds: seq<real>, i: int)
    requires 0 <= i < |ds|
    ensures i == 0 ==> Floats.Min(ds[..1]) == ds[0]
    ensures 0 < i ==> Floats.Min(ds[..i + 1]) == GoMath.Min(Floats.Min(ds[..i]), ds[i])
  {
    assert ds[..i + 1][..i] == ds[..i];
  }

  /** x is the least element of s exactly when it bounds s from below and
      is one of its elements. */
  lemma {:induction false} MinCharacterized(s: seq<real>, x: real)
    requires |s| > 0
    ensures x == Floats.Min(s) <==> x in s && forall i :: 0 <= i < |s| ==> x <= s[i]
  {
    if x in s && forall i :: 0 <= i < |s| ==> x <= s[i] {
      var i :| 0 <= i < |s| && s[i] == Floats.Min(s);
      var j :| 0 <= j < |s| && s[j] == x;
    }
  }

  /** Tie sets of sequences that agree on which entries are tied agree. */
  lemma {:induction false} TiesCorrespond(ds: seq<real>, sq: seq<real>, a: real, b: real)
    requires |ds| == |sq|
    requires forall j :: 0 <= j < |ds| ==> (ds[j] == a <==> sq[j] == b)
    ensures Ties(ds, a) == Ties(sq, b)
  {
    if |ds| > 0 {
      TiesCorrespond(ds[..|ds| - 1], sq[..|sq| - 1], a, b);
    }
  }

  /** The squared Euclidean distance to every weight vector. */
  function SquaredDistances(input: seq<real>, ws: seq<seq<real>>): (sq: seq<real>)
    ensures |sq| == |ws|
    ensures forall k :: 0 <= k < |ws| ==> sq[k] == Functions.SquaredEuclidean(input, ws[k])
  {
    seq(|ws|, k requires 0 <= k < |ws| => Functions.SquaredEuclidean(input, ws[k]))
  }

  /** Because the square root is strictly increasing, Closest under the
      Euclidean distance picks the same node as it would under the squared
      sum, for every pick. */
  lemma {:induction false} ClosestIgnoresSquareRoot(m: MathLib, input: seq<real>, ws: seq<seq<real>>, pick: nat)
    requires m.Valid() && |ws| > 0
    ensures ClosestIndex(Distances("euclidean", m, input, ws), pick) == ClosestIndex(SquaredDistances(input, ws), pick)
  {
    var ds, sq := Distances("euclidean", m, input, ws), SquaredDistances(input, ws);
    var a, b := Floats.Min(ds), Floats.Min(sq);
    forall i, j | 0 <= i < |ws| && 0 <= j < |ws|
      ensures ds[i] <= ds[j] <==> sq[i] <= sq[j]
    {
      Functions.EuclideanOrderIsSquaredOrder(m, input, ws[i], input, ws[j]);
    }
    forall j | 0 <= j < |ds|
      ensures ds[j] == a <==> sq[j] == b
    {
      MinCharacterized(ds, ds[j]);
      MinCharacterized(sq, sq[j]);
    }
    TiesCorrespond(ds, sq, a, b);
  }

  /** The lattice of som_test.go's Closest test: nine zero vectors, except
      node 4 whose second weight is 1. */
  const ClosestTestWeights: seq<seq<real>> :=
    [[0.0, 0.0], [0.0, 0.0], [0.0, 0.0], [0.0, 0.0], [0.0, 1.0], [0.0, 0.0], [0.0, 0.0], [0.0, 0.0], [0.0, 0.0]]

  /** With the squared sums in hand, the input [0, 1] is nearest to node 4
      alone, whatever the pick. */
  lemma {:induction false} ClosestExample(m: MathLib, pick: nat)
    requires m.Valid()
    ensures ClosestIndex(Distances("euclidean", m, [0.0, 1.0], ClosestTestWeights), pick) == 4
  {
    var ws := ClosestTestWeights;
    var sq := SquaredDistances([0.0, 1.0], ws);
    forall k | 0 <= k < 9
      ensures sq[k] == if k == 4 then 0.0 else 1.0
    {
      assert Functions.Shared([0.0, 1.0], ws[k]) == 2;
      assert Functions.SumOfSquares([0.0, 1.0], ws[k], 1) == 0.0;
    }
    var k := ClosestIndex(sq, pick);
    ClosestIsNearest(sq, pick);
    assert sq[k] <= sq[4];
    ClosestIgnoresSquareRoot(m, [0.0, 1.0], ws, pick);
  }

  // --------------------------------------------------------------------- Step

  /** The numbers of a row; a missing value has no real counterpart. */
  predicate Complete(row: seq<Matrices.Cell>)
  {
    forall k :: 0 <= k < |row| ==> row[k].Num?
  }

  function Values(row: seq<Matrices.Cell>): (v: seq<real>)
    requires Complete(row)
    ensures |v| == |row| && forall k :: 0 <= k < |row| ==> row[k] == Matrices.Num(v[k])
  {
    seq(|row|, k requires 0 <= k < |row| => row[k].value)
  }

  /** The row Step draws: a valid pick of a row without missing values. */
  ghost predicate ValidRow(data: Matrices.Matrix, pick: int)
  {
    0 <= pick < data.Rows && pick < |data.Data| && Complete(data.Data[pick])
  }

  function Progress(step: int, steps: int): real
    requires steps != 0
  {
    step as real / steps as real
  }

  function LearningRate(s: Settings, step: int, steps: int, initialLearningRate: real, m: MathLib): real
    requires steps != 0 && Functions.CoolingDefined(s.CoolingFunction, Progress(step, steps))
  {
    initialLearningRate * Functions.CoolingFactor(s.CoolingFunction, Progress(step, steps), m)
  }

  function Radius(s: Settings, step: int, steps: int, m: MathLib): real
    requires steps != 0 && Functions.CoolingDefined(s.CoolingFunction, Progress(step, steps))
  {
    var initialRadius := Utils.Max(s.Width, s.Height) as real / 2.0;
    initialRadius * Functions.CoolingFactor(s.CoolingFunction, Progress(step, steps), m)
  }

  /** The influence Step hands to Adjust for a node at grid distance d. */
  function InfluenceAt(neighborhoodFunction: string, d: real, radius: real, learningRate: real, m: MathLib): real
    requires radius != 0.0 && Functions.NeighborhoodDefined(neighborhoodFunction, m)
  {
    Functions.NeighborhoodInfluenceFactor(neighborhoodFunction, d / radius, m) * learningRate
  }

  /** What Step does to one node at grid distance d from the winner. */
  function Influenced(neighborhoodFunction: string, w: seq<real>, input: seq<real>, d: real, radius: real,
                      learningRate: real, m: MathLib): seq<real>
    requires 0.0 <= d && Functions.NeighborhoodDefined(neighborhoodFunction, m)
  {
    if d < radius * 2.0 then Nodes.Adjusted(w, input, InfluenceAt(neighborhoodFunction, d, radius, learningRate, m))
    else w
  }

  /** What Step needs to be defined. */
  ghost predicate StepDefined(s: Settings, m: MathLib, step: int, steps: int, nodes: nat)
  {
    && m.Valid() && steps != 0 && 0 < nodes
    && Functions.CoolingDefined(s.CoolingFunction, Progress(step, steps))
  }

  /** The weights of the lattice after one Step with input `input`. */
  function StepWeights(s: Settings, ws: seq<seq<real>>, ps: seq<seq<real>>, input: seq<real>,
                       step: int, steps: int, initialLearningRate: real, m: MathLib, tiePick: nat): (r: seq<seq<real>>)
    requires StepDefined(s, m, step, steps, |ws|) && |ps| == |ws|
    ensures |r| == |ws|
  {
    var learningRate := LearningRate(s, step, steps, initialLearningRate, m);
    var radius := Radius(s, step, steps, m);
    var winner := ClosestIndex(Distances(s.DistanceFunction, m, input, ws), tiePick);
    seq(|ws|, k requires 0 <= k < |ws| =>
      Influenced(s.NeighborhoodFunction, ws[k], input, Functions.DistanceOf(s.DistanceFunction, m, ps[winner], ps[k]), radius, learningRate, m))
  }

  /** Entry k of StepWeights: node k influenced according to its grid
      distance from the winner. */
  lemma {:induction false} StepWeightsAt(s: Settings, ws: seq<seq<real>>, ps: seq<seq<real>>, input: seq<real>,
                      step: int, steps: int, initialLearningRate: real, m: MathLib, tiePick: nat)
    requires StepDefined(s, m, step, steps, |ws|) && |ps| == |ws|
    ensures var winner := ClosestIndex(Distances(s.DistanceFunction, m, input, ws), tiePick);
            var r := StepWeights(s, ws, ps, input, step, steps, initialLearningRate, m, tiePick);
            forall k :: 0 <= k < |ws| ==>
              r[k] == Influenced(s.NeighborhoodFunction, ws[k], input,
                        Functions.DistanceOf(s.DistanceFunction, m, ps[winner], ps[k]),
                        Radius(s, step, steps, m), LearningRate(s, step, steps, initialLearningRate, m), m)
  {
  }

  /** For the bubble and cone kernels the doubled radius of Step changes
      nothing: nodes between radius and 2 radius get influence 0. */
  lemma {:induction false} DoubledRadiusHarmless(s: Settings, w: seq<real>, input: seq<real>, d: real, radius: real,
                              learningRate: real, m: MathLib)
    requires 0.0 <= d && s.NeighborhoodFunction in {"bubble", "cone"}
    ensures Influenced(s.NeighborhoodFunction, w, input, d, radius, learningRate, m)
            == if d < radius then Nodes.Adjusted(w, input, InfluenceAt(s.NeighborhoodFunction, d, radius, learningRate, m))
               else w
  {
    if radius <= d < radius * 2.0 {
      assert 1.0 <= d / radius by {
        assert 0.0 < radius;
        Utils.DivideBounds(d, radius, 1.0, d / radius);
      }
      Nodes.AdjustExtremes(w, input);
    }
  }

  /** The bounded kernels: their values lie in [0, 1]. */
  predicate BoundedKernel(neighborhoodFunction: string)
  {
    neighborhoodFunction in {"bubble", "cone"}
  }

  /** The bounded cooling functions: in [0, 1] over progress [0, 1]. */
  predicate BoundedCooling(coolingFunction: string)
  {
    coolingFunction in {"linear", "hard"}
  }

  lemma {:induction false} CoolingWithinUnit(coolingFunction: string, p: real, m: MathLib)
    requires BoundedCooling(coolingFunction) && 0.0 <= p <= 1.0
    ensures Functions.CoolingDefined(coolingFunction, p)
    ensures 0.0 <= Functions.CoolingFactor(coolingFunction, p, m) <= 1.0
  {
    Functions.LinearCoolingShape(p, p);
    Functions.HardCoolingShape(p, p + 1.0);
  }

  lemma {:induction false} KernelWithinUnit(neighborhoodFunction: string, d: real, m: MathLib)
    requires BoundedKernel(neighborhoodFunction)
    ensures 0.0 <= Functions.NeighborhoodInfluenceFactor(neighborhoodFunction, d, m) <= 1.0
  {
    Functions.ConeShape(d);
  }

  lemma {:induction false} ProductWithinUnit(a: real, b: real)
    requires 0.0 <= a <= 1.0 && 0.0 <= b <= 1.0
    ensures 0.0 <= a * b <= 1.0
  {
    Utils.FractionWithin(a, b);
  }

  /** Every entry of each vector lies in [lo, hi]. */
  ghost predicate WithinBounds(ws: seq<seq<real>>, lo: real, hi: real)
  {
    forall k, i :: 0 <= k < |ws| && 0 <= i < |ws[k]| ==> lo <= ws[k][i] <= hi
  }

  /** A Step under a bounded cooling function, a bounded kernel and an
      initial learning rate in [0, 1], in the course of training, is a convex
      move: weights and input inside [lo, hi] keep the weights inside. */
  lemma {:induction false} StepWithinBounds(s: Settings, ws: seq<seq<real>>, ps: seq<seq<real>>, input: seq<real>,
                         step: int, steps: int, initialLearningRate: real, m: MathLib, tiePick: nat,
                         lo: real, hi: real)
    requires StepDefined(s, m, step, steps, |ws|) && |ps| == |ws|
    requires BoundedCooling(s.CoolingFunction) && BoundedKernel(s.NeighborhoodFunction)
    requires 0 <= step < steps && 0.0 <= initialLearningRate <= 1.0
    requires WithinBounds(ws, lo, hi) && forall i :: 0 <= i < |input| ==> lo <= input[i] <= hi
    ensures WithinBounds(StepWeights(s, ws, ps, input, step, steps, initialLearningRate, m, tiePick), lo, hi)
  {
    var learningRate := LearningRate(s, step, steps, initialLearningRate, m);
    LearningRateWithinUnit(s, step, steps, initialLearningRate, m);
    var r := StepWeights(s, ws, ps, input, step, steps, initialLearningRate, m, tiePick);
    var radius := Radius(s, step, steps, m);
    var winner := ClosestIndex(Distances(s.DistanceFunction, m, input, ws), tiePick);
    forall k | 0 <= k < |r|
      ensures forall i :: 0 <= i < |r[k]| ==> lo <= r[k][i] <= hi
    {
      var d := Functions.DistanceOf(s.DistanceFunction, m, ps[winner], ps[k]);
      InfluencedWithinBounds(s, ws[k], input, d, radius, learningRate, m, lo, hi);
    }
  }

  /** During training a bounded cooling function keeps the learning rate
      between 0 and the initial rate. */
  lemma {:induction false} LearningRateWithinUnit(s: Settings, step: int, steps: int, initialLearningRate: real, m: MathLib)
    requires BoundedCooling(s.CoolingFunction) && 0 <= step < steps && 0.0 <= initialLearningRate <= 1.0
    ensures Functions.CoolingDefined(s.CoolingFunction, Progress(step, steps))
    ensures 0.0 <= LearningRate(s, step, steps, initialLearningRate, m) <= initialLearningRate
  {
    var p := Progress(step, steps);
    assert 0.0 <= p <= 1.0 by {
      Utils.DivideBounds(step as real, steps as real, 0.0, 1.0);
    }
    CoolingWithinUnit(s.CoolingFunction, p, m);
    Utils.FractionWithin(initialLearningRate, Functions.CoolingFactor(s.CoolingFunction, p, m));
  }

  /** One node's share of StepWithinBounds. */
  lemma {:induction false} InfluencedWithinBounds(s: Settings, w: seq<real>, input: seq<real>, d: real, radius: real,
                               learningRate: real, m: MathLib, lo: real, hi: real)
    requires 0.0 <= d && BoundedKernel(s.NeighborhoodFunction) && 0.0 <= learningRate <= 1.0
    requires (forall i :: 0 <= i < |w| ==> lo <= w[i] <= hi) && forall i :: 0 <= i < |input| ==> lo <= input[i] <= hi
    ensures var r := Influenced(s.NeighborhoodFunction, w, input, d, radius, learningRate, m);
            forall i :: 0 <= i < |r| ==> lo <= r[i] <= hi
  {
    if d < radius * 2.0 {
      KernelWithinUnit(s.NeighborhoodFunction, d / radius, m);
      ProductWithinUnit(Functions.NeighborhoodInfluenceFactor(s.NeighborhoodFunction, d / radius, m), learningRate);
      Nodes.AdjustWithin(w, input, InfluenceAt(s.NeighborhoodFunction, d, radius, learningRate, m), lo, hi);
    }
  }

  /** With a zero initial learning rate Step leaves every weight as it was. */
  lemma {:induction false} StepWithoutLearning(s: Settings, ws: seq<seq<real>>, ps: seq<seq<real>>, input: seq<real>,
                            step: int, steps: int, m: MathLib, tiePick: nat)
    requires StepDefined(s, m, step, steps, |ws|) && |ps| == |ws|
    ensures StepWeights(s, ws, ps, input, step, steps, 0.0, m, tiePick) == ws
  {
    var r := StepWeights(s, ws, ps, input, step, steps, 0.0, m, tiePick);
    forall k | 0 <= k < |ws|
      ensures r[k] == ws[k]
    {
      Nodes.AdjustExtremes(ws[k], input);
    }
  }

  /** Under the cone or bubble kernel with a positive radius, the winner is
      adjusted by the full learning rate. */
  lemma {:induction false} StepMovesWinner(s: Settings, ws: seq<seq<real>>, ps: seq<seq<real>>, input: seq<real>,
                        step: int, steps: int, initialLearningRate: real, m: MathLib, tiePick: nat)
    requires StepDefined(s, m, step, steps, |ws|) && |ps| == |ws|
    requires BoundedKernel(s.NeighborhoodFunction) && 0.0 < Radius(s, step, steps, m)
    ensures var winner := ClosestIndex(Distances(s.DistanceFunction, m, input, ws), tiePick);
            StepWeights(s, ws, ps, input, step, steps, initialLearningRate, m, tiePick)[winner]
            == Nodes.Adjusted(ws[winner], input, LearningRate(s, step, steps, initialLearningRate, m))
  {
    var winner := ClosestIndex(Distances(s.DistanceFunction, m, input, ws), tiePick);
    Functions.DistanceSymmetry(m, ps[winner], ps[winner]);
    assert Functions.DistanceOf(s.DistanceFunction, m, ps[winner], ps[winner]) == 0.0;
    Functions.ConeShape(0.0);
    assert 0.0 / Radius(s, step, steps, m) == 0.0;
  }

  // -------------------------------------------------------------------- Train

  /** What step `step` of Train needs: a row pick naming a complete row, a
      tie pick, and a defined Step. */
  ghost predicate StepReady(s: Settings, data: Matrices.Matrix, steps: int, m: MathLib,
                            rowPicks: seq<int>, tiePicks: seq<nat>, nodes: nat, step: int)
  {
    && 0 <= step < |rowPicks| && step < |tiePicks|
    && StepDefined(s, m, step, steps, nodes) && ValidRow(data, rowPicks[step])
  }

  /** What Train needs to be defined: every one of its steps is ready. */
  ghost predicate TrainDefined(s: Settings, data: Matrices.Matrix, steps: int, m: MathLib,
                               rowPicks: seq<int>, tiePicks: seq<nat>, nodes: nat)
  {
    forall step :: 0 <= step < steps ==> StepReady(s, data, steps, m, rowPicks, tiePicks, nodes, step)
  }

  /** Each step of a defined training run is defined. */
  lemma {:induction false} TrainStepDefined(s: Settings, data: Matrices.Matrix, steps: int, m: MathLib,
                         rowPicks: seq<int>, tiePicks: seq<nat>, nodes: nat, step: nat)
    requires TrainDefined(s, data, steps, m, rowPicks, tiePicks, nodes) && step < steps
    ensures step < |rowPicks| && step < |tiePicks|
    ensures StepDefined(s, m, step, steps, nodes) && ValidRow(data, rowPicks[step])
  {
    assert StepReady(s, data, steps, m, rowPicks, tiePicks, nodes, step);
  }

  /** The weights after the first n steps of Train. */
  function TrainWeights(s: Settings, ws: seq<seq<real>>, ps: seq<seq<real>>, data: Matrices.Matrix,
                        steps: int, initialLearningRate: real, m: MathLib,
                        rowPicks: seq<int>, tiePicks: seq<nat>, n: nat): (r: seq<seq<real>>)
    requires TrainDefined(s, data, steps, m, rowPicks, tiePicks, |ws|) && n <= Utils.Max(steps, 0) && |ps| == |ws|
    ensures |r| == |ws|
  {
    if n == 0 then ws
    else
      var k := n - 1;
      TrainStepDefined(s, data, steps, m, rowPicks, tiePicks, |ws|, k);
      var before := TrainWeights(s, ws, ps, data, steps, initialLearningRate, m, rowPicks, tiePicks, k);
      StepWeights(s, before, ps, Values(data.Data[rowPicks[k]]), k, steps, initialLearningRate, m, tiePicks[k])
  }

  /** Step n + 1 of training applies StepWeights to the weights after n. */
  lemma {:induction false} TrainWeightsNext(s: Settings, ws: seq<seq<real>>, ps: seq<seq<real>>, data: Matrices.Matrix,
                         steps: int, initialLearningRate: real, m: MathLib,
                         rowPicks: seq<int>, tiePicks: seq<nat>, n: nat)
    requires TrainDefined(s, data, steps, m, rowPicks, tiePicks, |ws|) && n < steps && |ps| == |ws|
    ensures n < |rowPicks| && n < |tiePicks| && ValidRow(data, rowPicks[n]) && StepDefined(s, m, n, steps, |ws|)
    ensures TrainWeights(s, ws, ps, data, steps, initialLearningRate, m, rowPicks, tiePicks, n + 1)
            == StepWeights(s, TrainWeights(s, ws, ps, data, steps, initialLearningRate, m, rowPicks, tiePicks, n), ps,
                           Values(data.Data[rowPicks[n]]), n, steps, initialLearningRate, m, tiePicks[n])
  {
    TrainStepDefined(s, data, steps, m, rowPicks, tiePicks, |ws|, n);
  }

  /** h lists the weights Train passes through: h[n] is the weights after
      the first n steps, for n = 0 .. steps. */
  ghost predicate IsTrace(s: Settings, ws: seq<seq<real>>, ps: seq<seq<real>>, data: Matrices.Matrix,
                          steps: int, initialLearningRate: real, m: MathLib,
                          rowPicks: seq<int>, tiePicks: seq<nat>, h: seq<seq<seq<real>>>)
    requires TrainDefined(s, data, steps, m, rowPicks, tiePicks, |ws|) && |ps| == |ws|
  {
    && |h| == Utils.Max(steps, 0) + 1
    && forall n {:trigger TrainWeights(s, ws, ps, data, steps, initialLearningRate, m, rowPicks, tiePicks, n)} ::
         0 <= n < |h| ==> h[n] == TrainWeights(s, ws, ps, data, steps, initialLearningRate, m, rowPicks, tiePicks, n)
  }

  /** Every defined training run has a trace. */
  lemma {:induction false} TrainTrace(s: Settings, ws: seq<seq<real>>, ps: seq<seq<real>>, data: Matrices.Matrix,
                   steps: int, initialLearningRate: real, m: MathLib,
                   rowPicks: seq<int>, tiePicks: seq<nat>) returns (h: seq<seq<seq<real>>>)
    requires TrainDefined(s, data, steps, m, rowPicks, tiePicks, |ws|) && |ps| == |ws|
    ensures IsTrace(s, ws, ps, data, steps, initialLearningRate, m, rowPicks, tiePicks, h) && h[0] == ws
  {
    h := seq(Utils.Max(steps, 0) + 1, n requires 0 <= n <= Utils.Max(steps, 0) =>
           TrainWeights(s, ws, ps, data, steps, initialLearningRate, m, rowPicks, tiePicks, n));
  }

  /** Consecutive entries of a trace are one StepWeights apart. */
  lemma {:induction false} TraceNext(s: Settings, ws: seq<seq<real>>, ps: seq<seq<real>>, data: Matrices.Matrix,
                  steps: int, initialLearningRate: real, m: MathLib,
                  rowPicks: seq<int>, tiePicks: seq<nat>, h: seq<seq<seq<real>>>, n: nat)
    requires TrainDefined(s, data, steps, m, rowPicks, tiePicks, |ws|) && |ps| == |ws| && n < steps
    requires IsTrace(s, ws, ps, data, steps, initialLearningRate, m, rowPicks, tiePicks, h)
    ensures n < |rowPicks| && n < |tiePicks| && ValidRow(data, rowPicks[n]) && StepDefined(s, m, n, steps, |ws|)
    ensures |h[n]| == |ws|
    ensures h[n + 1] == StepWeights(s, h[n], ps, Values(data.Data[rowPicks[n]]), n, steps, initialLearningRate, m, tiePicks[n])
  {
    TrainWeightsNext(s, ws, ps, data, steps, initialLearningRate, m, rowPicks, tiePicks, n);
  }

  /** Training with bounded cooling and kernel, a learning rate in [0, 1]
      and inputs in [lo, hi] keeps every weight in [lo, hi]. */
  lemma {:induction false} TrainWithinBounds(s: Settings, ws: seq<seq<real>>, ps: seq<seq<real>>,
                          data: Matrices.Matrix, steps: int, initialLearningRate: real,
                          m: MathLib, rowPicks: seq<int>, tiePicks: seq<nat>, n: nat,
                          lo: real, hi: real)
    requires TrainDefined(s, data, steps, m, rowPicks, tiePicks, |ws|) && n <= Utils.Max(steps, 0) && |ps| == |ws|
    requires BoundedCooling(s.CoolingFunction) && BoundedKernel(s.NeighborhoodFunction)
    requires 0.0 <= initialLearningRate <= 1.0
    requires WithinBounds(ws, lo, hi)
    requires forall r, i :: 0 <= r < |data.Data| && 0 <= i < |data.Data[r]| && data.Data[r][i].Num? ==>
               lo <= data.Data[r][i].value <= hi
    ensures WithinBounds(TrainWeights(s, ws, ps, data, steps, initialLearningRate, m, rowPicks, tiePicks, n), lo, hi)
  {
    var h := TrainTrace(s, ws, ps, data, steps, initialLearningRate, m, rowPicks, tiePicks);
    TraceWithinBounds(s, ws, ps, data, steps, initialLearningRate, m, rowPicks, tiePicks, h, n, lo, hi);
  }

  /** Under the same conditions every entry of a trace is within bounds. */
  lemma {:induction false} TraceWithinBounds(s: Settings, ws: seq<seq<real>>, ps: seq<seq<real>>,
                                            data: Matrices.Matrix, steps: int, initialLearningRate: real,
                                            m: MathLib, rowPicks: seq<int>, tiePicks: seq<nat>,
                                            h: seq<seq<seq<real>>>, n: nat, lo: real, hi: real)
    requires TrainDefined(s, data, steps, m, rowPicks, tiePicks, |ws|) && |ps| == |ws|
    requires IsTrace(s, ws, ps, data, steps, initialLearningRate, m, rowPicks, tiePicks, h) && h[0] == ws
    requires n < |h|
    requires BoundedCooling(s.CoolingFunction) && BoundedKernel(s.NeighborhoodFunction)
    requires 0.0 <= initialLearningRate <= 1.0
    requires WithinBounds(ws, lo, hi)
    requires forall r, i :: 0 <= r < |data.Data| && 0 <= i < |data.Data[r]| && data.Data[r][i].Num? ==>
               lo <= data.Data[r][i].value <= hi
    ensures WithinBounds(h[n], lo, hi)
  {
    if n > 0 {
      TraceWithinBounds(s, ws, ps, data, steps, initialLearningRate, m, rowPicks, tiePicks, h, n - 1, lo, hi);
      TraceNext(s, ws, ps, data, steps, initialLearningRate, m, rowPicks, tiePicks, h, n - 1);
      RowWithinBounds(data, rowPicks[n - 1], lo, hi);
      StepWithinBounds(s, h[n - 1], ps, Values(data.Data[rowPicks[n - 1]]), n - 1, steps, initialLearningRate, m,
                       tiePicks[n - 1], lo, hi);
    }
  }

  /** A complete row of a matrix whose numbers lie in [lo, hi] has its
      values in [lo, hi]. */
  lemma {:induction false} RowWithinBounds(data: Matrices.Matrix, pick: int, lo: real, hi: real)
    requires ValidRow(data, pick)
    requires forall r, i :: 0 <= r < |data.Data| && 0 <= i < |data.Data[r]| && data.Data[r][i].Num? ==>
               lo <= data.Data[r][i].value <= hi
    ensures forall i :: 0 <= i < |Values(data.Data[pick])| ==> lo <= Values(data.Data[pick])[i] <= hi
  {
    var row := data.Data[pick];
    forall i | 0 <= i < |row|
      ensures lo <= Values(row)[i] <= hi
    {
      assert row[i] == Matrices.Num(Values(row)[i]);
    }
  }

  // ------------------------------------------------------- Interpolate family

  /** Every vector has at least d entries. */
  predicate Wide(ws: seq<seq<real>>, d: nat)
  {
    forall i :: 0 <= i < |ws| ==> d <= |ws[i]|
  }

  /** The sum of entry j over the first n vectors. */
  function ColumnSum(ws: seq<seq<real>>, j: nat, n: nat): real
    requires n <= |ws| && Wide(ws, j + 1)
  {
    if n == 0 then 0.0 else ColumnSum(ws, j, n - 1) + ws[n - 1][j]
  }

  /** The d-dimensional mean of the vectors, Interpolate's result. */
  function Mean(ws: seq<seq<real>>, d: nat): (r: seq<real>)
    requires 0 < |ws| && Wide(ws, d)
    ensures |r| == d
  {
    seq(d, j requires 0 <= j < d => ColumnSum(ws, j, |ws|) / |ws| as real)
  }

  lemma {:induction false} ColumnSumBounds(ws: seq<seq<real>>, j: nat, n: nat, lo: real, hi: real)
    requires n <= |ws| && Wide(ws, j + 1)
    requires forall i :: 0 <= i < n ==> lo <= ws[i][j] <= hi
    ensures n as real * lo <= ColumnSum(ws, j, n) <= n as real * hi
  {
    if n > 0 {
      ColumnSumBounds(ws, j, n - 1, lo, hi);
      Utils.CountBetween(lo, hi, (n - 1) as real, ColumnSum(ws, j, n - 1), ws[n - 1][j], n as real, ColumnSum(ws, j, n));
    }
  }


  /** Each entry of the mean lies between the least and greatest value the
      averaged vectors hold there. */
  lemma {:induction false} MeanWithin(ws: seq<seq<real>>, d: nat, j: nat, lo: real, hi: real)
    requires 0 < |ws| && Wide(ws, d) && j < d
    requires forall i :: 0 <= i < |ws| ==> lo <= ws[i][j] <= hi
    ensures lo <= Mean(ws, d)[j] <= hi
  {
    ColumnSumBounds(ws, j, |ws|, lo, hi);
    Utils.DivideBounds(ColumnSum(ws, j, |ws|), |ws| as real, lo, hi);
  }

  /** The mean of one vector is its first d entries. */
  lemma {:induction false} MeanOfOne(w: seq<real>, d: nat)
    requires d <= |w|
    ensures Mean([w], d) == w[..d]
  {
    forall j | 0 <= j < d
      ensures Mean([w], d)[j] == w[j]
    {
      assert ColumnSum([w], j, 1) == ColumnSum([w], j, 0) + w[j];
    }
  }

  /** The weight of each neighbour in WeightedInterpolate. */
  function NeighborWeights(s: Settings, m: MathLib, input: seq<real>, nb: seq<seq<real>>, radius: real): (f: seq<real>)
    requires radius != 0.0 && Functions.NeighborhoodDefined(s.NeighborhoodFunction, m)
    ensures |f| == |nb|
  {
    seq(|nb|, i requires 0 <= i < |nb| =>
      Functions.NeighborhoodInfluenceFactor(s.NeighborhoodFunction,
        Functions.DistanceOf(s.DistanceFunction, m, input, nb[i]) / radius, m))
  }

  /** The sum of entry j of the first n vectors, each scaled by its factor. */
  function WeightedColumnSum(ws: seq<seq<real>>, f: seq<real>, j: nat, n: nat): real
    requires n <= |ws| && n <= |f| && Wide(ws, j + 1)
  {
    if n == 0 then 0.0 else WeightedColumnSum(ws, f, j, n - 1) + ws[n - 1][j] * f[n - 1]
  }

  /** The sum of the first n factors. */
  function FactorSum(f: seq<real>, n: nat): real
    requires n <= |f|
  {
    if n == 0 then 0.0 else FactorSum(f, n - 1) + f[n - 1]
  }

  /** WeightedInterpolate's result, None where the float code divides by
      zero: a zero distance to the K-th neighbour, or factors summing to 0. */
  function WeightedMean(s: Settings, m: MathLib, input: seq<real>, nb: seq<seq<real>>, d: nat): Option<seq<real>>
    requires 0 < |nb| && Wide(nb, d) && Functions.NeighborhoodDefined(s.NeighborhoodFunction, m)
  {
    var radius := Functions.DistanceOf(s.DistanceFunction, m, input, nb[|nb| - 1]);
    if radius == 0.0 then None
    else
      var f := NeighborWeights(s, m, input, nb, radius);
      if 0 < d && FactorSum(f, |nb|) == 0.0 then None
      else Some(WeightedAverage(nb, f, d))
  }

  /** The two ways WeightedMean gives up: a zero radius, or, with at least
      one dimension, neighbour weights that sum to zero. */
  lemma {:induction false} WeightedMeanCases(s: Settings, m: MathLib, input: seq<real>, nb: seq<seq<real>>, d: nat,
                                             radius: real)
    requires 0 < |nb| && Wide(nb, d) && Functions.NeighborhoodDefined(s.NeighborhoodFunction, m)
    requires radius == Functions.DistanceOf(s.DistanceFunction, m, input, nb[|nb| - 1])
    ensures radius == 0.0 ==> WeightedMean(s, m, input, nb, d) == None
    ensures radius != 0.0 ==>
              var f := NeighborWeights(s, m, input, nb, radius);
              WeightedMean(s, m, input, nb, d)
              == if 0 < d && FactorSum(f, |nb|) == 0.0 then None else Some(WeightedAverage(nb, f, d))
  {
  }

  /** The d-dimensional average of the vectors weighted by the factors. */
  function WeightedAverage(nb: seq<seq<real>>, f: seq<real>, d: nat): (r: seq<real>)
    requires |nb| <= |f| && Wide(nb, d)
    ensures |r| == d
  {
    seq(d, j requires 0 <= j < d =>
      if FactorSum(f, |nb|) == 0.0 then 0.0 else WeightedColumnSum(nb, f, j, |nb|) / FactorSum(f, |nb|))
  }

  lemma {:induction false} KernelNonNegative(neighborhoodFunction: string, x: real, m: MathLib)
    requires neighborhoodFunction in {"bubble", "cone", "gaussian"} && m.Valid()
    ensures 0.0 <= Functions.NeighborhoodInfluenceFactor(neighborhoodFunction, x, m)
  {
    Functions.ConeShape(x);
    Functions.GaussianPositive(x, m);
  }

  lemma {:induction false} NeighborWeightsNonNegative(s: Settings, m: MathLib, input: seq<real>, nb: seq<seq<real>>, radius: real)
    requires radius != 0.0 && s.NeighborhoodFunction in {"bubble", "cone", "gaussian"} && m.Valid()
    ensures forall i :: 0 <= i < |nb| ==> 0.0 <= NeighborWeights(s, m, input, nb, radius)[i]
  {
    var f := NeighborWeights(s, m, input, nb, radius);
    forall i | 0 <= i < |nb|
      ensures 0.0 <= f[i]
    {
      KernelNonNegative(s.NeighborhoodFunction, Functions.DistanceOf(s.DistanceFunction, m, input, nb[i]) / radius, m);
    }
  }

  /** One more term keeps a weighted sum between lo and hi times the sum
      of its factors: the step of WeightedColumnSumBounds. */
  lemma {:induction false} ScaleBetween(lo: real, hi: real, sum: real, total: real, x: real, c: real, sum': real, total': real)
    requires total * lo <= sum <= total * hi
    requires 0.0 <= c && lo <= x <= hi
    requires sum' == sum + x * c && total' == total + c
    ensures total' * lo <= sum' <= total' * hi
  {
    assert c * lo <= x * c <= c * hi;
    assert total' * lo == total * lo + c * lo;
    assert total' * hi == total * hi + c * hi;
  }

  lemma {:induction false} WeightedColumnSumBounds(ws: seq<seq<real>>, f: seq<real>, j: nat, n: nat, lo: real, hi: real)
    requires n <= |ws| && n <= |f| && Wide(ws, j + 1)
    requires forall i :: 0 <= i < n ==> 0.0 <= f[i] && lo <= ws[i][j] <= hi
    ensures FactorSum(f, n) * lo <= WeightedColumnSum(ws, f, j, n) <= FactorSum(f, n) * hi
    ensures 0.0 <= FactorSum(f, n)
  {
    if n > 0 {
      WeightedColumnSumBounds(ws, f, j, n - 1, lo, hi);
      ScaleBetween(lo, hi, WeightedColumnSum(ws, f, j, n - 1), FactorSum(f, n - 1), ws[n - 1][j], f[n - 1],
                   WeightedColumnSum(ws, f, j, n), FactorSum(f, n));
    }
  }

  /** With a kernel that is never negative, each entry of a weighted mean
      lies between the least and greatest value of the neighbours there. */
  lemma {:induction false} WeightedMeanWithin(s: Settings, m: MathLib, input: seq<real>, nb: seq<seq<real>>, d: nat,
                           j: nat, lo: real, hi: real)
    requires 0 < |nb| && Wide(nb, d) && j < d
    requires s.NeighborhoodFunction in {"bubble", "cone", "gaussian"} && m.Valid()
    requires forall i :: 0 <= i < |nb| ==> lo <= nb[i][j] <= hi
    ensures WeightedMean(s, m, input, nb, d).Some? ==> lo <= WeightedMean(s, m, input, nb, d).value[j] <= hi
  {
    var radius := Functions.DistanceOf(s.DistanceFunction, m, input, nb[|nb| - 1]);
    if radius != 0.0 {
      var f := NeighborWeights(s, m, input, nb, radius);
      NeighborWeightsNonNegative(s, m, input, nb, radius);
      WeightedAverageWithin(nb, f, d, j, lo, hi);
    }
  }

  /** With factors that are never negative, each entry of a weighted
      average lies between the least and greatest value there. */
  lemma {:induction false} WeightedAverageWithin(nb: seq<seq<real>>, f: seq<real>, d: nat, j: nat, lo: real, hi: real)
    requires |nb| <= |f| && Wide(nb, d) && j < d
    requires forall i :: 0 <= i < |nb| ==> 0.0 <= f[i] && lo <= nb[i][j] <= hi
    ensures FactorSum(f, |nb|) != 0.0 ==> lo <= WeightedAverage(nb, f, d)[j] <= hi
  {
    var total, sum := FactorSum(f, |nb|), WeightedColumnSum(nb, f, j, |nb|);
    if total != 0.0 {
      var q := WeightedAverage(nb, f, d)[j];
      assert q == sum / total;
      WeightedColumnSumBounds(nb, f, j, |nb|, lo, hi);
      Utils.DivideBounds(sum, total, lo, hi);
    }
  }

  // ------------------------------------------------------------------ helpers

  /** Go's copy(dst, src): the shared prefix comes from src, the rest stays. */
  function GoCopy(dst: seq<real>, src: seq<real>): (r: seq<real>)
    ensures |r| == |dst|
    ensures forall k :: 0 <= k < |dst| ==> r[k] == if k < |src| then src[k] else dst[k]
  {
    var n := Utils.Min(|dst|, |src|);
    src[..n] + dst[n..]
  }

  function Zeros(n: nat): (z: seq<real>)
    ensures |z| == n && forall k :: 0 <= k < n ==> z[k] == 0.0
  {
    seq(n, _ => 0.0)
  }
}
