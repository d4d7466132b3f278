/**
 * training.go: a schedule that blends initial and final values of the
 * learning rate and the radius through the SOM's cooling factor.
 */
module Trainings {
  import GoMath
  import Functions
  import Nodes
  import Som
  import SM = SomModel

  type MathLib = GoMath.MathLib

  /** The value a fraction `factor` of the way back from final to initial:
      factor 1 gives initial, factor 0 gives final. */
  function Blend(initial: real, final: real, factor: real): (v: real)
    ensures factor == 1.0 ==> v == initial
    ensures factor == 0.0 ==> v == final
  {
    (initial - final) * factor + final
  }

  /** For a factor in [0, 1] the blend lies between the two end values. */
  lemma {:induction false} BlendBetween(initial: real, final: real, factor: real)
    requires 0.0 <= factor <= 1.0
    ensures final <= initial ==> final <= Blend(initial, final, factor) <= initial
    ensures initial <= final ==> initial <= Blend(initial, final, factor) <= final
  {
    var d := initial - final;
    Nodes.ScaledWithin(d, factor);
    assert Blend(initial, final, factor) - final == d * factor;
  }

  /** A greater factor moves the blend toward the initial value. */
  lemma {:induction false} BlendMonotone(initial: real, final: real, f: real, g: real)
    requires f <= g
    ensures final <= initial ==> Blend(initial, final, f) <= Blend(initial, final, g)
    ensures initial <= final ==> Blend(initial, final, g) <= Blend(initial, final, f)
  {
    var d, e := initial - final, g - f;
    assert Blend(initial, final, g) - Blend(initial, final, f) == d * e;
    if 0.0 <= d {
      assert 0.0 <= d * e;
    } else {
      assert d * e <= 0.0;
    }
  }

  datatype Training = Training(SOM: Som.SOM, Steps: int, InitialLearningRate: real, FinalLearningRate: real,
                               InitialRadius: real, FinalRadius: real)
  {
    /** float64(step) / float64(Steps). */
    function Progress(step: int): (p: real)
      requires Steps != 0
      ensures p * Steps as real == step as real
    {
      step as real / Steps as real
    }

    /** What LearningRate and Radius need: a defined cooling factor at the
        step's progress. */
    predicate Defined(step: int)
      reads SOM
    {
      Steps != 0 && Functions.CoolingDefined(SOM.CoolingFunction, Progress(step))
    }

    /** The SOM's cooling factor at the step's progress. */
    function Factor(step: int, m: MathLib): real
      reads SOM
      requires Defined(step)
    {
      SOM.CF(Progress(step), m)
    }

    function LearningRate(step: int, m: MathLib): (r: real)
      reads SOM
      requires Defined(step)
      ensures r == Blend(InitialLearningRate, FinalLearningRate, Factor(step, m))
    {
      var r := InitialLearningRate - FinalLearningRate;
      r * SOM.CF(Progress(step), m) + FinalLearningRate
    }

    function Radius(step: int, m: MathLib): (r: real)
      reads SOM
      requires Defined(step)
      ensures r == Blend(InitialRadius, FinalRadius, Factor(step, m))
    {
      var r := InitialRadius - FinalRadius;
      r * SOM.CF(Progress(step), m) + FinalRadius
    }
  }

  /** NewTraining: a schedule for som over steps steps. */
  function NewTraining(som: Som.SOM, steps: int, ilr: real, flr: real, ir: real, fr: real): (t: Training)
    ensures t.SOM == som && t.Steps == steps
    ensures t.InitialLearningRate == ilr && t.FinalLearningRate == flr
    ensures t.InitialRadius == ir && t.FinalRadius == fr
  {
    Training(som, steps, ilr, flr, ir, fr)
  }

  /** Step 0 of a linear schedule is at progress 0, where both rates are
      at their initial values; the last step reaches the final values. */
  lemma {:induction false} LinearEnds(t: Training, m: MathLib)
    requires t.Steps != 0 && t.SOM.CoolingFunction == "linear"
    ensures t.Defined(0) && t.Defined(t.Steps)
    ensures t.LearningRate(0, m) == t.InitialLearningRate && t.Radius(0, m) == t.InitialRadius
    ensures t.LearningRate(t.Steps, m) == t.FinalLearningRate && t.Radius(t.Steps, m) == t.FinalRadius
  {
    assert t.Progress(0) == 0.0;
    assert t.Progress(t.Steps) == 1.0;
  }

  /** While the cooling factor stays in [0, 1], the rates stay between
      their initial and final values. */
  lemma {:induction false} RatesBetween(t: Training, step: int, m: MathLib)
    requires t.Defined(step) && 0.0 <= t.Factor(step, m) <= 1.0
    ensures t.FinalLearningRate <= t.InitialLearningRate ==>
              t.FinalLearningRate <= t.LearningRate(step, m) <= t.InitialLearningRate
    ensures t.InitialLearningRate <= t.FinalLearningRate ==>
              t.InitialLearningRate <= t.LearningRate(step, m) <= t.FinalLearningRate
    ensures t.FinalRadius <= t.InitialRadius ==> t.FinalRadius <= t.Radius(step, m) <= t.InitialRadius
    ensures t.InitialRadius <= t.FinalRadius ==> t.InitialRadius <= t.Radius(step, m) <= t.FinalRadius
  {
    BlendBetween(t.InitialLearningRate, t.FinalLearningRate, t.Factor(step, m));
    BlendBetween(t.InitialRadius, t.FinalRadius, t.Factor(step, m));
  }

  /** With linear cooling, a later step of a forward schedule never has a
      higher learning rate or a larger radius. */
  lemma {:induction false} LinearNonIncreasing(t: Training, a: int, b: int, m: MathLib)
    requires 0 < t.Steps && t.SOM.CoolingFunction == "linear" && a <= b
    requires t.FinalLearningRate <= t.InitialLearningRate && t.FinalRadius <= t.InitialRadius
    ensures t.Defined(a) && t.Defined(b)
    ensures t.LearningRate(b, m) <= t.LearningRate(a, m) && t.Radius(b, m) <= t.Radius(a, m)
  {
    assert t.Progress(a) <= t.Progress(b);
    BlendMonotone(t.InitialLearningRate, t.FinalLearningRate, t.Factor(b, m), t.Factor(a, m));
    BlendMonotone(t.InitialRadius, t.FinalRadius, t.Factor(b, m), t.Factor(a, m));
  }

  /** With a final learning rate of 0 the schedule's learning rate is the
      one Step computes from the initial learning rate. */
  lemma {:induction false} StepLearningRate(t: Training, step: int, m: MathLib)
    requires t.Defined(step) && t.FinalLearningRate == 0.0
    ensures t.LearningRate(step, m)
            == SM.LearningRate(t.SOM.Settings(), step, t.Steps, t.InitialLearningRate, m)
  {
  }

  /** The schedule of the Training test: 10 steps from learning rate 0.5 to
      0 and radius 10 to 0 on a linear SOM, seen at step 5. */
  lemma {:induction false} HalfwayExample(som: Som.SOM, m: MathLib)
    requires som.CoolingFunction == "linear"
    ensures var t := NewTraining(som, 10, 0.5, 0.0, 10.0, 0.0);
            && t.Steps == 10 && t.InitialLearningRate == 0.5 && t.FinalLearningRate == 0.0
            && t.InitialRadius == 10.0 && t.FinalRadius == 0.0
            && t.Progress(5) == 0.5 && t.Defined(5)
            && t.LearningRate(5, m) == 0.25 && t.Radius(5, m) == 5.0
  {
    var t := NewTraining(som, 10, 0.5, 0.0, 10.0, 0.0);
    assert t.Progress(5) == 0.5;
    assert t.Factor(5, m) == 0.5;
  }
}
