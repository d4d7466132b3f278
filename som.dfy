/**
 * som.go: the map itself. A SOM owns a lattice of nodes, whose weight
 * vectors training moves toward the data, and names the cooling, distance
 * and neighbourhood functions it uses. What each operation computes is
 * stated through the value-level definitions of SomModel.
 */
module Som {
  import opened Wrappers
  import GoMath
  import Floats
  import Utils
  import Functions
  import N = Nodes
  import Lattices
  import Matrices
  import SM = SomModel

  type MathLib = GoMath.MathLib

  /** The positions of the nodes, in order. */
  ghost function PositionsOf(ns: seq<N.Node>): (ps: seq<seq<real>>)
    reads ns
    ensures |ps| == |ns|
    ensures forall k :: 0 <= k < |ns| ==> ps[k] == ns[k].Position
  {
    seq(|ns|, k requires 0 <= k < |ns| reads ns => ns[k].Position)
  }

  /** A row of numbers, as matrix cells. */
  function Cells(row: seq<real>): (cells: seq<Matrices.Cell>)
    ensures |cells| == |row| && forall k :: 0 <= k < |row| ==> cells[k] == Matrices.Num(row[k])
  {
    seq(|row|, k requires 0 <= k < |row| => Matrices.Num(row[k]))
  }

  /** The initial weight InitializeWithRandomValues gives entry i of a node:
      (max - min) + min, which is the maximum, scaled by a draw from [0, 1). */
  function RandomWeight(minimum: real, maximum: real, draw: real): real
  {
    ((maximum - minimum) + minimum) * draw
  }

  /** The weight evidently intended: a point of [min, max] chosen by the draw. */
  function RangedWeight(minimum: real, maximum: real, draw: real): (w: real)
    requires minimum <= maximum && 0.0 <= draw <= 1.0
    ensures minimum <= w <= maximum
  {
    var span := maximum - minimum;
    assert 0.0 <= span * draw <= span by {
      calc {
        span * draw;
      <= span * 1.0;
      }
    }
    minimum + span * draw
  }

  /** A column holding values from 1 to 2 can be initialised with the
      weight 0, outside the range of the data. */
  lemma {:induction false} RandomWeightLeavesRange()
    ensures RandomWeight(1.0, 2.0, 0.0) < 1.0
    ensures RangedWeight(1.0, 2.0, 0.0) == 1.0
  {
  }

  /** The weights InitializeWithRandomValues stores are the column maxima
      scaled by the draws, whatever the column minima. */
  lemma {:induction false} RandomWeightIgnoresMinimum(minimum: real, maximum: real, draw: real)
    ensures RandomWeight(minimum, maximum, draw) == maximum * draw
    ensures 0.0 <= draw <= 1.0 && 0.0 <= maximum ==> 0.0 <= RandomWeight(minimum, maximum, draw) <= maximum
  {
    if 0.0 <= draw <= 1.0 && 0.0 <= maximum {
      calc {
        maximum * draw;
      <= maximum * 1.0;
      }
    }
  }

  /** NearestNodes over values: nb, whose weights are nbw, holds K of the
      nodes, whose weights are ws, by non-decreasing distance from the
      input, and no node left out is nearer than any of them. */
  ghost predicate Nearest(distanceFunction: string, m: MathLib, input: seq<real>, K: int,
                          nodes: seq<N.Node>, ws: seq<seq<real>>, nb: seq<N.Node>, nbw: seq<seq<real>>)
  {
    && |nb| == |nbw| == K && |ws| == |nodes|
    && multiset(nb) <= multiset(nodes)
    && (forall i, j :: 0 <= i < j < K ==>
          Functions.DistanceOf(distanceFunction, m, input, nbw[i])
          <= Functions.DistanceOf(distanceFunction, m, input, nbw[j]))
    && (forall i, k :: 0 <= i < K && 0 <= k < |nodes| && nodes[k] in multiset(nodes) - multiset(nb) ==>
          Functions.DistanceOf(distanceFunction, m, input, nbw[i])
          <= Functions.DistanceOf(distanceFunction, m, input, ws[k]))
  }

  /** The first K of the nodes sorted by distance are Nearest. */
  lemma {:induction false} SortedPrefixIsNearestOf(distanceFunction: string, m: MathLib, input: seq<real>, K: int,
                                                   nodes: seq<N.Node>, ws: seq<seq<real>>,
                                                   lat: seq<N.Node>, lw: seq<seq<real>>,
                                                   less: (seq<real>, seq<real>) -> bool)
    requires 0 <= K <= |lat| == |lw| && |ws| == |nodes| && multiset(lat) == multiset(nodes)
    requires forall p, q :: 0 <= p < q < |lat| ==> !less(lw[q], lw[p])
    requires forall a, b :: less(a, b) == (Functions.DistanceOf(distanceFunction, m, input, a)
                                           < Functions.DistanceOf(distanceFunction, m, input, b))
    requires forall p, q :: 0 <= p < |lat| && 0 <= q < |nodes| && lat[p] == nodes[q] ==> lw[p] == ws[q]
    ensures Nearest(distanceFunction, m, input, K, nodes, ws, lat[..K], lw[..K])
  {
    var nb := lat[..K];
    assert lat == nb + lat[K..];
    assert multiset(lat) == multiset(nb) + multiset(lat[K..]);
    forall i, k | 0 <= i < K && 0 <= k < |nodes| && nodes[k] in multiset(nodes) - multiset(nb)
      ensures Functions.DistanceOf(distanceFunction, m, input, lw[..K][i])
              <= Functions.DistanceOf(distanceFunction, m, input, ws[k])
    {
      assert nodes[k] in multiset(lat[K..]);
      var q :| K <= q < |lat| && lat[q] == nodes[k];
      assert !less(lw[q], lw[i]);
    }
  }

  class SOM {
    var Width: int
    var Height: int
    var Nodes: seq<N.Node>
    var CoolingFunction: string
    var DistanceFunction: string
    var NeighborhoodFunction: string

    /** NewSOM: an empty map with linear cooling, Euclidean distance and the
        cone neighbourhood. */
    constructor NewSOM(width: int, height: int)
      ensures Width == width && Height == height && Nodes == []
      ensures CoolingFunction == "linear" && DistanceFunction == "euclidean" && NeighborhoodFunction == "cone"
    {
      Width := width;
      Height := height;
      Nodes := [];
      CoolingFunction := "linear";
      DistanceFunction := "euclidean";
      NeighborhoodFunction := "cone";
    }

    function Settings(): SM.Settings
      reads this
    {
      SM.Settings(Width, Height, CoolingFunction, DistanceFunction, NeighborhoodFunction)
    }

    /** No node appears twice in the lattice. */
    ghost predicate Distinct()
      reads this
    {
      Lattices.Distinct(Nodes)
    }

    /** The lattice is Width by Height, node k at column k % Width of row k / Width. */
    ghost predicate Grid()
      reads this, Nodes
    {
      && 0 <= Width && 0 <= Height && |Nodes| == Width * Height
      && forall k :: 0 <= k < |Nodes| ==> Nodes[k].Position == [(k % Width) as real, (k / Width) as real]
    }

    function CF(progress: real, m: MathLib): real
      reads this
      requires Functions.CoolingDefined(CoolingFunction, progress)
    {
      Functions.CoolingFactor(CoolingFunction, progress, m)
    }

    method D(from: seq<real>, to: seq<real>, m: MathLib) returns (d: real)
      ensures d == Functions.DistanceOf(DistanceFunction, m, from, to)
    {
      d := Functions.Distance(DistanceFunction, from, to, m);
    }

    function NIF(distance: real, m: MathLib): real
      reads this
      requires Functions.NeighborhoodDefined(NeighborhoodFunction, m)
    {
      Functions.NeighborhoodInfluenceFactor(NeighborhoodFunction, distance, m)
    }

    /** The length of the first node's weights. */
    function Dimensions(): nat
      reads this, Nodes
      requires 0 < |Nodes|
    {
      |Nodes[0].Weights|
    }

    function Node(x: int, y: int): N.Node
      reads this
      requires 0 <= y * Width + x < |Nodes|
    {
      Nodes[y * Width + x]
    }

    /** On a grid lattice, Node(x, y) is the node at position (x, y). */
    lemma {:induction false} NodeIsAtPosition(x: int, y: int)
      requires Grid() && 0 <= x < Width && 0 <= y < Height
      ensures 0 <= y * Width + x < |Nodes|
      ensures Node(x, y).Position == [x as real, y as real]
      ensures Node(x, y).X() == x && Node(x, y).Y() == y
    {
      Lattices.MulMonotone(y + 1, Height, Width);
      assert (y + 1) * Width == y * Width + Width;
      Lattices.RowMajor(y, x, Width);
      N.TruncOfInteger(x);
      N.TruncOfInteger(y);
    }

    /** The distances from the input to the nodes' weights. */
    ghost function InputDistances(input: seq<real>, m: MathLib): (ds: seq<real>)
      reads this, Nodes
      ensures |ds| == |Nodes|
    {
      SM.Distances(DistanceFunction, m, input, Lattices.Keys(Nodes))
    }

    /** The winner: among the nodes at the least distance from the input,
        the one the pick selects. */
    method Closest(input: seq<real>, m: MathLib, pick: nat) returns (winner: N.Node)
      requires 0 < |Nodes|
      ensures winner == Nodes[SM.ClosestIndex(InputDistances(input, m), pick)]
    {
      var nodes := Candidates(input, m);
      SM.ClosestSelects(InputDistances(input, m), pick);
      if |nodes| > 1 {
        winner := nodes[pick % |nodes|];
      } else {
        winner := nodes[0];
      }
    }

    /** The scan of Closest: the nodes at the least distance from the
        input, in lattice order. */
    method Candidates(input: seq<real>, m: MathLib) returns (nodes: seq<N.Node>)
      requires 0 < |Nodes|
      ensures var ds := InputDistances(input, m);
              nodes == Pick(Nodes, SM.Ties(ds, Floats.Min(ds)))
    {
      ghost var ds := InputDistances(input, m);
      var lattice := Nodes;
      nodes := [];
      var t := D(input, lattice[0].Weights, m);
      for i := 0 to |lattice|
        invariant lattice == Nodes
        invariant i == 0 ==> t == ds[0]
        invariant 0 < i ==> t == Floats.Min(ds[..i])
        invariant nodes == Pick(lattice, SM.Ties(ds[..i], t))
      {
        t, nodes := ScanNode(input, m, lattice, ds, i, t, nodes);
      }
      assert ds[..|Nodes|] == ds;
    }

    /** One round of the scan of Closest: node i either lowers the least
        distance seen so far, ties with it, or is passed over. */
    method ScanNode(input: seq<real>, m: MathLib, lattice: seq<N.Node>, ghost ds: seq<real>, i: int,
                    t: real, nodes: seq<N.Node>) returns (t': real, nodes': seq<N.Node>)
      requires ds == SM.Distances(DistanceFunction, m, input, Lattices.Keys(lattice)) && 0 <= i < |lattice|
      requires i == 0 ==> t == ds[0]
      requires 0 < i ==> t == Floats.Min(ds[..i])
      requires nodes == Pick(lattice, SM.Ties(ds[..i], t))
      ensures t' == Floats.Min(ds[..i + 1])
      ensures nodes' == Pick(lattice, SM.Ties(ds[..i + 1], t'))
    {
      var d := D(input, lattice[i].Weights, m);
      SM.ScanStep(ds, i, t);
      t', nodes' := t, nodes;
      if d < t {
        t', nodes' := d, [lattice[i]];
      } else if d == t {
        PickAppend(lattice, SM.Ties(ds[..i], t), i);
        nodes' := nodes + [lattice[i]];
      }
    }

    /** The nodes at the given indices, in order. */
    static ghost function Pick(lattice: seq<N.Node>, ts: seq<int>): (ns: seq<N.Node>)
      requires forall k :: 0 <= k < |ts| ==> 0 <= ts[k] < |lattice|
      ensures |ns| == |ts| && forall k :: 0 <= k < |ts| ==> ns[k] == lattice[ts[k]]
    {
      seq(|ts|, k requires 0 <= k < |ts| => lattice[ts[k]])
    }

    static lemma {:induction false} PickAppend(lattice: seq<N.Node>, ts: seq<int>, i: int)
      requires forall k :: 0 <= k < |ts| ==> 0 <= ts[k] < |lattice|
      requires 0 <= i < |lattice|
      ensures Pick(lattice, ts + [i]) == Pick(lattice, ts) + [lattice[i]]
    {
    }

    /** nb is an answer of Neighbors: K of the lattice's nodes, by
        non-decreasing distance from the input, none farther than a node
        left out. */
    ghost predicate NearestNodes(input: seq<real>, K: int, m: MathLib, nb: seq<N.Node>)
      reads this, Nodes, nb
    {
      Nearest(DistanceFunction, m, input, K, Nodes, Lattices.Keys(Nodes), nb, Lattices.Keys(nb))
    }

    /** The K nodes nearest to the input, nearest first. */
    method Neighbors(input: seq<real>, K: int, m: MathLib) returns (nb: seq<N.Node>)
      requires 0 <= K <= |Nodes|
      ensures NearestNodes(input, K, m, nb)
    {
      var distanceFunction := DistanceFunction;
      var key := (w: seq<real>) => Functions.DistanceOf(distanceFunction, m, input, w);
      var less := (a: seq<real>, b: seq<real>) => key(a) < key(b);
      Lattices.KeyOrderIsStrictWeak(less, key);
      var lat := Lattices.Sort(Nodes, less);
      assert |lat| == |multiset(lat)| == |multiset(Nodes)| == |Nodes|;
      nb := [];
      for i := 0 to K
        invariant nb == lat[..i]
      {
        nb := nb + [lat[i]];
      }
      SortedPrefixIsNearest(input, K, m, lat, less);
    }

    /** The first K nodes of a copy sorted by distance are an answer of
        Neighbors. */
    lemma {:induction false} SortedPrefixIsNearest(input: seq<real>, K: int, m: MathLib, lat: seq<N.Node>,
                                less: (seq<real>, seq<real>) -> bool)
      requires 0 <= K <= |lat| && multiset(lat) == multiset(Nodes) && Lattices.Sorted(lat, less)
      requires forall a, b :: less(a, b) == (Functions.DistanceOf(DistanceFunction, m, input, a)
                                             < Functions.DistanceOf(DistanceFunction, m, input, b))
      ensures NearestNodes(input, K, m, lat[..K])
    {
      var ws, lw := Lattices.Keys(Nodes), Lattices.Keys(lat);
      SortedPrefixIsNearestOf(DistanceFunction, m, input, K, Nodes, ws, lat, lw, less);
      assert Lattices.Keys(lat[..K]) == lw[..K];
    }

    /** The first of the nearest nodes is exactly as close as Closest's
        winner. */
    lemma {:induction false} NearestFirstIsClosest(input: seq<real>, m: MathLib, nb: seq<N.Node>, pick: nat)
      requires 0 < |Nodes| && NearestNodes(input, 1, m, nb)
      ensures Functions.DistanceOf(DistanceFunction, m, input, nb[0].Weights)
              == InputDistances(input, m)[SM.ClosestIndex(InputDistances(input, m), pick)]
    {
      var ds := InputDistances(input, m);
      var k := SM.ClosestIndex(ds, pick);
      SM.ClosestIsNearest(ds, pick);
      assert nb[0] in multiset(Nodes);
      var j :| 0 <= j < |Nodes| && Nodes[j] == nb[0];
      assert ds[j] == Functions.DistanceOf(DistanceFunction, m, input, nb[0].Weights);
      assert ds[k] == Functions.DistanceOf(DistanceFunction, m, input, Nodes[k].Weights);
      if Nodes[k] != nb[0] {
        Lattices.LeftOut(Nodes, nb, k);
        assert Functions.DistanceOf(DistanceFunction, m, input, Lattices.Keys(nb)[0]) <= ds[k];
      }
    }

    /** One step of training: the weights become StepWeights of the old
        weights and positions for the picked row; positions stay. */
    method Step(data: Matrices.Matrix, step: int, steps: int, initialLearningRate: real, m: MathLib,
                rowPick: int, tiePick: nat)
      requires Distinct() && SM.StepDefined(Settings(), m, step, steps, |Nodes|) && SM.ValidRow(data, rowPick)
      modifies Nodes`Weights
      ensures Lattices.Keys(Nodes) == old(SM.StepWeights(Settings(), Lattices.Keys(Nodes), PositionsOf(Nodes),
                                        SM.Values(data.Data[rowPick]), step, steps, initialLearningRate, m, tiePick))
    {
      ghost var s, w0, p0 := Settings(), Lattices.Keys(Nodes), PositionsOf(Nodes);
      var progress := step as real / steps as real;
      assert progress == SM.Progress(step, steps);
      assert CF(progress, m) == Functions.CoolingFactor(s.CoolingFunction, SM.Progress(step, steps), m);
      var learningRate := initialLearningRate * CF(progress, m);
      var initialRadius := Utils.Max(Width, Height) as real / 2.0;
      var radius := initialRadius * CF(progress, m);
      assert learningRate == SM.LearningRate(s, step, steps, initialLearningRate, m);
      assert radius == SM.Radius(s, step, steps, m);
      var input := SM.Values(data.RandomRow(rowPick));
      ghost var target := SM.StepWeights(s, w0, p0, input, step, steps, initialLearningRate, m, tiePick);
      ghost var winner := SM.ClosestIndex(SM.Distances(s.DistanceFunction, m, input, w0), tiePick);
      SM.StepWeightsAt(s, w0, p0, input, step, steps, initialLearningRate, m, tiePick);
      var winningNode := Closest(input, m, tiePick);
      assert Lattices.Keys(Nodes) == w0 && PositionsOf(Nodes) == p0 && Settings() == s;
      assert winningNode.Position == p0[winner];
      InfluenceAll(winningNode.Position, input, radius, learningRate, m, w0, p0, target);
    }

    /** Step's loop over the nodes: each node becomes its entry of target. */
    method InfluenceAll(winnerPosition: seq<real>, input: seq<real>, radius: real, learningRate: real,
                        m: MathLib, ghost w0: seq<seq<real>>, ghost p0: seq<seq<real>>, ghost target: seq<seq<real>>)
      requires Distinct() && m.Valid() && |target| == |Nodes|
      requires w0 == Lattices.Keys(Nodes) && p0 == PositionsOf(Nodes)
      requires forall k :: 0 <= k < |Nodes| ==>
                 target[k] == SM.Influenced(NeighborhoodFunction, w0[k], input,
                   Functions.DistanceOf(DistanceFunction, m, winnerPosition, p0[k]), radius, learningRate, m)
      modifies Nodes`Weights
      ensures Lattices.Keys(Nodes) == target
    {
      for k := 0 to |Nodes|
        invariant forall j :: 0 <= j < k ==> Nodes[j].Weights == target[j]
        invariant forall j :: k <= j < |Nodes| ==> Nodes[j].Weights == w0[j]
      {
        Lattices.DistinctFrom(Nodes, k);
        Influence(Nodes[k], winnerPosition, input, radius, learningRate, m);
      }
    }

    /** The body of Step's loop, for one node. */
    method Influence(node: N.Node, winnerPosition: seq<real>, input: seq<real>, radius: real,
                     learningRate: real, m: MathLib)
      requires m.Valid()
      modifies node`Weights
      ensures node.Weights == SM.Influenced(NeighborhoodFunction, old(node.Weights), input,
                                Functions.DistanceOf(DistanceFunction, m, winnerPosition, node.Position),
                                radius, learningRate, m)
    {
      var distance := D(winnerPosition, node.Position, m);
      ghost var w0 := node.Weights;
      assert 0.0 <= distance && Functions.NeighborhoodDefined(NeighborhoodFunction, m);
      ghost var after := SM.Influenced(NeighborhoodFunction, w0, input, distance, radius, learningRate, m);
      if distance < radius * 2.0 {
        var i := NIF(distance / radius, m);
        assert i == Functions.NeighborhoodInfluenceFactor(NeighborhoodFunction, distance / radius, m);
        assert SM.InfluenceAt(NeighborhoodFunction, distance, radius, learningRate, m) == i * learningRate;
        node.Adjust(input, i * learningRate);
      }
    }

    /** Train: Step for step = 0 .. steps - 1, one row pick and one tie pick
        per step. */
    method Train(data: Matrices.Matrix, steps: int, initialLearningRate: real, m: MathLib,
                 rowPicks: seq<int>, tiePicks: seq<nat>)
      requires Distinct()
      requires SM.TrainDefined(Settings(), data, steps, m, rowPicks, tiePicks, |Nodes|)
      modifies Nodes`Weights
      ensures Lattices.Keys(Nodes) == old(SM.TrainWeights(Settings(), Lattices.Keys(Nodes), PositionsOf(Nodes), data,
                                        steps, initialLearningRate, m, rowPicks, tiePicks, Utils.Max(steps, 0)))
    {
      ghost var w0, p0, s := Lattices.Keys(Nodes), PositionsOf(Nodes), Settings();
      ghost var trace := SM.TrainTrace(s, w0, p0, data, steps, initialLearningRate, m, rowPicks, tiePicks);
      var step := 0;
      while step < steps
        invariant 0 <= step <= Utils.Max(steps, 0)
        invariant Settings() == s && Distinct() && |Nodes| == |w0|
        invariant PositionsOf(Nodes) == p0
        invariant Lattices.Keys(Nodes) == trace[step]
      {
        TrainStep(data, steps, initialLearningRate, m, rowPicks, tiePicks, step, s, w0, p0, trace);
        step := step + 1;
      }
      assert step == Utils.Max(steps, 0);
    }

    /** One iteration of Train's loop: step `step` takes the weights after
        `step` steps to the weights after `step + 1`. */
    method TrainStep(data: Matrices.Matrix, steps: int, initialLearningRate: real, m: MathLib,
                     rowPicks: seq<int>, tiePicks: seq<nat>, step: nat, ghost s: SM.Settings,
                     ghost w0: seq<seq<real>>, ghost p0: seq<seq<real>>, ghost trace: seq<seq<seq<real>>>)
      requires Distinct() && Settings() == s && |p0| == |w0| == |Nodes|
      requires SM.TrainDefined(s, data, steps, m, rowPicks, tiePicks, |w0|) && step < steps
      requires SM.IsTrace(s, w0, p0, data, steps, initialLearningRate, m, rowPicks, tiePicks, trace)
      requires PositionsOf(Nodes) == p0 && Lattices.Keys(Nodes) == trace[step]
      modifies Nodes`Weights
      ensures PositionsOf(Nodes) == p0 && Lattices.Keys(Nodes) == trace[step + 1]
    {
      SM.TraceNext(s, w0, p0, data, steps, initialLearningRate, m, rowPicks, tiePicks, trace, step);
      Step(data, step, steps, initialLearningRate, m, rowPicks[step], tiePicks[step]);
    }

    /** The winner's weights, cut or zero-padded to Dimensions entries. */
    method Classify(input: seq<real>, m: MathLib, pick: nat) returns (o: seq<real>)
      requires 0 < |Nodes|
      ensures var w := Nodes[SM.ClosestIndex(InputDistances(input, m), pick)].Weights;
              |o| == Dimensions() && forall k :: 0 <= k < |o| ==> o[k] == if k < |w| then w[k] else 0.0
    {
      var winner := Closest(input, m, pick);
      o := SM.GoCopy(SM.Zeros(Dimensions()), winner.Weights);
    }

    /** Interpolate: the mean of the weights of the K nearest nodes. */
    method Interpolate(input: seq<real>, K: int, m: MathLib) returns (total: seq<real>)
      requires 1 <= K <= |Nodes| && SM.Wide(Lattices.Keys(Nodes), Dimensions())
      ensures exists nb :: NearestNodes(input, K, m, nb) && SM.Wide(Lattices.Keys(nb), Dimensions())
                           && total == SM.Mean(Lattices.Keys(nb), Dimensions())
    {
      var neighbors := Neighbors(input, K, m);
      NeighborsWide(input, K, m, neighbors);
      var dims := Dimensions();
      total := Average(neighbors, dims, K);
      assert dims == Dimensions();
      assert NearestNodes(input, K, m, neighbors);
    }

    /** The nodes nearest to the input are as wide as the lattice. */
    lemma {:induction false} NeighborsWide(input: seq<real>, K: int, m: MathLib, nb: seq<N.Node>)
      requires 0 < |Nodes| && NearestNodes(input, K, m, nb) && SM.Wide(Lattices.Keys(Nodes), Dimensions())
      ensures SM.Wide(Lattices.Keys(nb), Dimensions())
    {
      forall i | 0 <= i < |nb|
        ensures Dimensions() <= |nb[i].Weights|
      {
        assert nb[i] in multiset(Nodes);
        var j :| 0 <= j < |Nodes| && Nodes[j] == nb[i];
        assert Lattices.Keys(Nodes)[j] == nb[i].Weights;
      }
    }

    /** Weighted interpolation; None where the float code divides by zero. */
    method WeightedInterpolate(input: seq<real>, K: int, m: MathLib) returns (r: Option<seq<real>>)
      requires 1 <= K <= |Nodes| && SM.Wide(Lattices.Keys(Nodes), Dimensions())
      requires Functions.NeighborhoodDefined(NeighborhoodFunction, m)
      ensures exists nb :: NearestNodes(input, K, m, nb) && SM.Wide(Lattices.Keys(nb), Dimensions())
                           && r == SM.WeightedMean(Settings(), m, input, Lattices.Keys(nb), Dimensions())
    {
      var neighbors := Neighbors(input, K, m);
      NeighborsWide(input, K, m, neighbors);
      assert NearestNodes(input, K, m, neighbors);
      r := WeightedMeanOf(neighbors, input, m);
    }

    /** WeightedInterpolate once the neighbours are found: the radius is the
        distance to the last of them. */
    method WeightedMeanOf(neighbors: seq<N.Node>, input: seq<real>, m: MathLib) returns (r: Option<seq<real>>)
      requires 0 < |Nodes| && 0 < |neighbors| && SM.Wide(Lattices.Keys(neighbors), Dimensions())
      requires Functions.NeighborhoodDefined(NeighborhoodFunction, m)
      ensures r == SM.WeightedMean(Settings(), m, input, Lattices.Keys(neighbors), Dimensions())
    {
      ghost var ws, s := Lattices.Keys(neighbors), Settings();
      var dims := Dimensions();
      var radius := D(input, neighbors[|neighbors| - 1].Weights, m);
      SM.WeightedMeanCases(s, m, input, ws, dims, radius);
      if radius == 0.0 {
        r := None;
      } else {
        r := WeightedMeanAt(neighbors, input, radius, m, ws, dims);
      }
      assert ws == Lattices.Keys(neighbors) && dims == Dimensions() && s == Settings();
    }

    /** WeightedMeanOf once the radius is known not to be zero. */
    method WeightedMeanAt(neighbors: seq<N.Node>, input: seq<real>, radius: real, m: MathLib,
                          ghost ws: seq<seq<real>>, dims: nat) returns (r: Option<seq<real>>)
      requires radius != 0.0 && Functions.NeighborhoodDefined(NeighborhoodFunction, m)
      requires ws == Lattices.Keys(neighbors) && SM.Wide(ws, dims)
      ensures var f := SM.NeighborWeights(Settings(), m, input, ws, radius);
              r == if 0 < dims && SM.FactorSum(f, |ws|) == 0.0 then None else Some(SM.WeightedAverage(ws, f, dims))
    {
      var neighborWeights := NeighborWeights(neighbors, input, radius, m, ws);
      r := WeightedAverage(neighbors, neighborWeights, dims, ws);
    }

    /** The influence of each neighbour at its distance from the input,
        relative to radius. */
    method NeighborWeights(neighbors: seq<N.Node>, input: seq<real>, radius: real, m: MathLib,
                           ghost ws: seq<seq<real>>)
      returns (neighborWeights: seq<real>)
      requires radius != 0.0 && Functions.NeighborhoodDefined(NeighborhoodFunction, m)
      requires ws == Lattices.Keys(neighbors)
      ensures neighborWeights == SM.NeighborWeights(Settings(), m, input, ws, radius)
    {
      ghost var f := SM.NeighborWeights(Settings(), m, input, ws, radius);
      neighborWeights := SM.Zeros(|neighbors|);
      for i := 0 to |neighbors|
        invariant |neighborWeights| == |neighbors|
        invariant forall k :: 0 <= k < i ==> neighborWeights[k] == f[k]
      {
        var distance := D(input, neighbors[i].Weights, m);
        neighborWeights := neighborWeights[i := NIF(distance / radius, m)];
      }
    }

    /** The weights as a matrix, one row per node, Dimensions columns. */
    method WeightMatrix() returns (mx: Matrices.Matrix)
      requires 0 < |Nodes| && 0 < Dimensions()
      ensures mx.Rows == |Nodes| && |mx.Data| == |Nodes| && mx.Columns == Dimensions()
      ensures forall i :: 0 <= i < |Nodes| ==>
                mx.Data[i] == Cells(SM.GoCopy(SM.Zeros(Dimensions()), Nodes[i].Weights))
      ensures Matrices.Consistent(mx)
    {
      var dims := Dimensions();
      var data: seq<seq<Matrices.Cell>> := [];
      for i := 0 to |Nodes|
        invariant |data| == i
        invariant forall k :: 0 <= k < i ==> data[k] == Cells(SM.GoCopy(SM.Zeros(dims), Nodes[k].Weights))
      {
        data := data + [Cells(SM.GoCopy(SM.Zeros(dims), Nodes[i].Weights))];
      }
      forall c | 0 <= c < dims
        ensures Matrices.HasNumber(data, c)
      {
        assert data[0][c].Num?;
      }
      mx := Matrices.NewMatrix(data);
    }

    /** A fresh Width by Height lattice whose node k starts from the picked
        row picks[k], cut or zero-padded to the matrix's columns. */
    method InitializeWithDataPoints(data: Matrices.Matrix, picks: seq<int>)
      requires 0 <= Width && 0 <= Height && 0 <= data.Columns
      requires |picks| == Width * Height
      requires forall k :: 0 <= k < |picks| ==>
                 0 <= picks[k] < data.Rows && picks[k] < |data.Data| && SM.Complete(data.Data[picks[k]])
      modifies this`Nodes
      ensures Settings() == old(Settings())
      ensures Grid() && Distinct() && |Nodes| == |picks|
      ensures forall k :: 0 <= k < |Nodes| ==> fresh(Nodes[k])
      ensures forall k :: 0 <= k < |Nodes| ==>
                Nodes[k].Weights == SM.GoCopy(SM.Zeros(data.Columns), SM.Values(data.Data[picks[k]]))
    {
      var lattice := Lattices.NewLattice(Width, Height, data.Columns);
      Lattices.PairwiseDistinct(lattice);
      Nodes := lattice;
      for k := 0 to |lattice|
        invariant Nodes == lattice && |lattice| == Width * Height
        invariant forall j :: 0 <= j < |lattice| ==> fresh(lattice[j])
        invariant forall j :: 0 <= j < |lattice| ==> lattice[j].Position == [(j % Width) as real, (j / Width) as real]
        invariant forall j :: 0 <= j < k ==>
                    lattice[j].Weights == SM.GoCopy(SM.Zeros(data.Columns), SM.Values(data.Data[picks[j]]))
        invariant forall j :: k <= j < |lattice| ==> lattice[j].Weights == SM.Zeros(data.Columns)
      {
        Lattices.DistinctFrom(lattice, k);
        lattice[k].Weights := SM.GoCopy(lattice[k].Weights, SM.Values(data.RandomRow(picks[k])));
      }
    }

    /** InitializeWithRandomValues as written: weight i of node k is
        RandomWeight of column i's extremes and the draw draws[k][i]. */
    method InitializeWithRandomValues(data: Matrices.Matrix, draws: seq<seq<real>>)
      requires 0 <= Width && 0 <= Height && 0 <= data.Columns
      requires data.Columns <= |data.Minimums| && data.Columns <= |data.Maximums|
      requires |draws| == Width * Height && forall k :: 0 <= k < |draws| ==> data.Columns <= |draws[k]|
      modifies this`Nodes
      ensures Settings() == old(Settings())
      ensures Grid() && Distinct() && |Nodes| == |draws|
      ensures forall k :: 0 <= k < |Nodes| ==> fresh(Nodes[k])
      ensures forall k :: 0 <= k < |Nodes| ==> |Nodes[k].Weights| == data.Columns
      ensures forall k, i :: 0 <= k < |Nodes| && 0 <= i < data.Columns ==>
                Nodes[k].Weights[i] == RandomWeight(data.Minimums[i], data.Maximums[i], draws[k][i])
    {
      var lattice := Lattices.NewLattice(Width, Height, data.Columns);
      Lattices.PairwiseDistinct(lattice);
      Nodes := lattice;
      for k := 0 to |lattice|
        invariant Nodes == lattice && |lattice| == Width * Height
        invariant forall j :: 0 <= j < |lattice| ==> fresh(lattice[j])
        invariant forall j :: 0 <= j < |lattice| ==> lattice[j].Position == [(j % Width) as real, (j / Width) as real]
        invariant forall j :: 0 <= j < |lattice| ==> |lattice[j].Weights| == data.Columns
        invariant forall j, i :: 0 <= j < k && 0 <= i < data.Columns ==>
                    lattice[j].Weights[i] == RandomWeight(data.Minimums[i], data.Maximums[i], draws[j][i])
      {
        SetRandomWeights(lattice[k], data, draws[k]);
      }
    }
  }

  /** The inner loop of InitializeWithRandomValues, for one node. */
  method SetRandomWeights(node: N.Node, data: Matrices.Matrix, draw: seq<real>)
    requires |node.Weights| == data.Columns && data.Columns <= |data.Minimums| && data.Columns <= |data.Maximums|
    requires data.Columns <= |draw|
    modifies node`Weights
    ensures |node.Weights| == data.Columns
    ensures forall i :: 0 <= i < data.Columns ==>
              node.Weights[i] == RandomWeight(data.Minimums[i], data.Maximums[i], draw[i])
  {
    for i := 0 to data.Columns
      invariant |node.Weights| == data.Columns
      invariant forall l :: 0 <= l < i ==> node.Weights[l] == RandomWeight(data.Minimums[l], data.Maximums[l], draw[l])
    {
      var r := (data.Maximums[i] - data.Minimums[i]) + data.Minimums[i];
      node.Weights := node.Weights[i := r * draw[i]];
    }
  }

  /** Interpolate's arithmetic: sum the neighbours' weights entry by entry,
      then divide by K. */
  method Average(neighbors: seq<N.Node>, dims: nat, K: int) returns (total: seq<real>)
    requires 1 <= K == |neighbors| && SM.Wide(Lattices.Keys(neighbors), dims)
    ensures total == SM.Mean(Lattices.Keys(neighbors), dims)
  {
    ghost var ws := Lattices.Keys(neighbors);
    total := SM.Zeros(dims);
    for i := 0 to |neighbors|
      invariant |total| == dims
      invariant forall j :: 0 <= j < dims ==> total[j] == SM.ColumnSum(ws, j, i)
    {
      total := AddRow(total, neighbors[i].Weights, ws, i);
    }
    ghost var sums := total;
    for i := 0 to dims
      invariant |total| == dims
      invariant forall j :: 0 <= j < i ==> total[j] == sums[j] / K as real
      invariant forall j :: i <= j < dims ==> total[j] == sums[j]
    {
      total := total[i := total[i] / K as real];
    }
  }

  /** WeightedInterpolate's arithmetic: weighted sums entry by entry, then
      division by the sum of the weights; None at a division by zero. */
  method WeightedAverage(neighbors: seq<N.Node>, neighborWeights: seq<real>, dims: nat, ghost ws: seq<seq<real>>)
    returns (r: Option<seq<real>>)
    requires |neighborWeights| == |neighbors| && ws == Lattices.Keys(neighbors) && SM.Wide(ws, dims)
    ensures r == if 0 < dims && SM.FactorSum(neighborWeights, |ws|) == 0.0 then None
                 else Some(SM.WeightedAverage(ws, neighborWeights, dims))
  {
    ghost var f := neighborWeights;
    var total, sumWeights := SM.Zeros(dims), SM.Zeros(dims);
    for i := 0 to |neighbors|
      invariant |total| == dims && |sumWeights| == dims
      invariant forall j :: 0 <= j < dims ==> total[j] == SM.WeightedColumnSum(ws, f, j, i)
      invariant forall j :: 0 <= j < dims ==> sumWeights[j] == SM.FactorSum(f, i)
    {
      total, sumWeights := AddWeightedRow(total, sumWeights, neighbors[i].Weights, neighborWeights[i], ws, f, i);
    }
    ghost var sums := total;
    for i := 0 to dims
      invariant |total| == dims
      invariant 0 < i ==> SM.FactorSum(f, |neighbors|) != 0.0
      invariant forall j :: 0 <= j < i ==> total[j] == sums[j] / SM.FactorSum(f, |neighbors|)
      invariant forall j :: i <= j < dims ==> total[j] == sums[j]
    {
      if sumWeights[i] == 0.0 {
        return None;
      }
      total := total[i := total[i] / sumWeights[i]];
    }
    assert total == SM.WeightedAverage(ws, f, dims);
    r := Some(total);
  }

  /** One row of Interpolate's summing loop. */
  method AddRow(total: seq<real>, w: seq<real>, ghost ws: seq<seq<real>>, ghost i: nat) returns (next: seq<real>)
    requires i < |ws| && ws[i] == w && SM.Wide(ws, |total|)
    requires forall j :: 0 <= j < |total| ==> total[j] == SM.ColumnSum(ws, j, i)
    ensures |next| == |total|
    ensures forall j :: 0 <= j < |total| ==> next[j] == SM.ColumnSum(ws, j, i + 1)
  {
    next := total;
    for j := 0 to |total|
      invariant |next| == |total|
      invariant forall l :: 0 <= l < j ==> next[l] == SM.ColumnSum(ws, l, i + 1)
      invariant forall l :: j <= l < |total| ==> next[l] == total[l]
    {
      next := next[j := next[j] + w[j]];
    }
  }

  /** One row of WeightedInterpolate's summing loop. */
  method AddWeightedRow(total: seq<real>, sumWeights: seq<real>, w: seq<real>, weight: real,
                        ghost ws: seq<seq<real>>, ghost f: seq<real>, ghost i: nat)
    returns (nextTotal: seq<real>, nextSum: seq<real>)
    requires i < |ws| && i < |f| && ws[i] == w && f[i] == weight && SM.Wide(ws, |total|) && |sumWeights| == |total|
    requires forall j :: 0 <= j < |total| ==> total[j] == SM.WeightedColumnSum(ws, f, j, i)
    requires forall j :: 0 <= j < |total| ==> sumWeights[j] == SM.FactorSum(f, i)
    ensures |nextTotal| == |total| && |nextSum| == |total|
    ensures forall j :: 0 <= j < |total| ==> nextTotal[j] == SM.WeightedColumnSum(ws, f, j, i + 1)
    ensures forall j :: 0 <= j < |total| ==> nextSum[j] == SM.FactorSum(f, i + 1)
  {
    nextTotal, nextSum := total, sumWeights;
    for j := 0 to |total|
      invariant |nextTotal| == |total| && |nextSum| == |total|
      invariant forall l :: 0 <= l < j ==> nextTotal[l] == SM.WeightedColumnSum(ws, f, l, i + 1)
      invariant forall l :: 0 <= l < j ==> nextSum[l] == SM.FactorSum(f, i + 1)
      invariant forall l :: j <= l < |total| ==> nextTotal[l] == total[l] && nextSum[l] == sumWeights[l]
    {
      nextTotal := nextTotal[j := nextTotal[j] + w[j] * weight];
      nextSum := nextSum[j := nextSum[j] + weight];
    }
  }
}
