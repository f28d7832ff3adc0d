/** The first Exposer variant (ece): a classifier object configured once,
    trained by `learn` on samples that may have missing features (such
    samples are skipped), normalised, measured with presence threshold .7,
    and queried by `predict` under one of five voting methods. */
module Ece {
  import opened Basics
  import opened Position
  import opened Drops
  import opened Grid
  import opened Measures
  import opened Render

  /** A cell counts for its decisive class when its value exceeds this. */
  const PresenceThreshold: real := 0.7

  /** A missing query feature is read as this value. */
  const MissingValue: real := 0.5

  /** How the support of the query cell is weighed before it is added. */
  datatype VotingMethod = Lone | Theta1 | Theta2 | Theta3 | Thetas

  /** The configuration dictionary; the voting method may be absent. */
  datatype Configuration = Configuration(exposerVotingMethod: Option<VotingMethod>, grain: nat, radius: real,
                                         chosenLambda: seq<nat>)

  /** A training sample: its label and all its features, None for NaN. */
  datatype Sample = Sample(cls: nat, features: seq<Option<real>>)

  /** Some selected feature is missing (NaN in the data). */
  predicate Missing(features: seq<Option<real>>)
  {
    exists k :: 0 <= k < |features| && features[k].None?
  }

  /** The values of a feature vector without missing entries. */
  function Present(features: seq<Option<real>>): (v: seq<real>)
    requires !Missing(features)
    ensures |v| == |features|
  {
    seq(|features|, k requires 0 <= k < |features| => features[k].value)
  }

  /** The missing-value test, scanning the selected features. */
  method AnyMissing(features: seq<Option<real>>) returns (missing: bool)
    ensures missing <==> Missing(features)
  {
    missing := false;
    var k := 0;
    while k < |features|
      invariant 0 <= k <= |features|
      invariant missing <==> exists j :: 0 <= j < k && features[j].None?
    {
      if features[k].None? {
        missing := true;
      }
      k := k + 1;
    }
  }

  /** Every sample is labelled with a class and has the chosen features. */
  predicate Fits(samples: seq<Sample>, chosenLambda: seq<nat>, numClasses: nat)
  {
    forall s :: s in samples ==> s.cls < numClasses && Selectable(s.features, chosenLambda)
  }

  /** One pass of the training loop: a sample with a missing chosen feature
      is skipped, any other is exposed onto the grid. */
  function Step(m: Matrix, x: Sample, dvs: seq<DropVector>, chosenLambda: seq<nat>, grain: nat,
                numClasses: nat, sqrt: real -> real): (r: Matrix)
    requires grain > 0 && Shaped(m, Pow(grain, |chosenLambda|), numClasses)
    requires Dimensioned(dvs, |chosenLambda|) && x.cls < numClasses && Selectable(x.features, chosenLambda)
    ensures Shaped(r, |m|, numClasses)
  {
    var features := Selected(x.features, chosenLambda);
    if Missing(features) then m else Exposed(m, dvs, Present(features), x.cls, grain, sqrt)
  }

  /** The grid after the training loop over samples, starting from m. */
  function Train(m: Matrix, samples: seq<Sample>, dvs: seq<DropVector>, chosenLambda: seq<nat>, grain: nat,
                 numClasses: nat, sqrt: real -> real): (r: Matrix)
    requires grain > 0 && Shaped(m, Pow(grain, |chosenLambda|), numClasses)
    requires Dimensioned(dvs, |chosenLambda|) && Fits(samples, chosenLambda, numClasses)
    ensures Shaped(r, |m|, numClasses)
  {
    if |samples| == 0 then m
    else
      var n := |samples| - 1;
      assert samples[n] in samples;
      Step(Train(m, samples[..n], dvs, chosenLambda, grain, numClasses, sqrt), samples[n], dvs, chosenLambda,
           grain, numClasses, sqrt)
  }

  /** The samples without a missing chosen feature, in order. */
  function Complete(samples: seq<Sample>, chosenLambda: seq<nat>): (r: seq<Sample>)
    requires forall s :: s in samples ==> Selectable(s.features, chosenLambda)
    ensures forall s :: s in r ==> s in samples
    ensures forall s :: s in r ==> !Missing(Selected(s.features, chosenLambda))
  {
    if |samples| == 0 then []
    else
      var n := |samples| - 1;
      assert samples[n] in samples;
      var front := Complete(samples[..n], chosenLambda);
      if Missing(Selected(samples[n].features, chosenLambda)) then front else front + [samples[n]]
  }

  /** Samples with a missing chosen feature change nothing: training on all
      samples gives the grid of training on the complete ones alone. */
  lemma {:induction false} TrainSkipsMissing(m: Matrix, samples: seq<Sample>, dvs: seq<DropVector>,
                                             chosenLambda: seq<nat>, grain: nat, numClasses: nat,
                                             sqrt: real -> real)
    requires grain > 0 && Shaped(m, Pow(grain, |chosenLambda|), numClasses)
    requires Dimensioned(dvs, |chosenLambda|) && Fits(samples, chosenLambda, numClasses)
    ensures Fits(Complete(samples, chosenLambda), chosenLambda, numClasses)
    ensures Train(m, samples, dvs, chosenLambda, grain, numClasses, sqrt)
      == Train(m, Complete(samples, chosenLambda), dvs, chosenLambda, grain, numClasses, sqrt)
  {
    if |samples| > 0 {
      var n := |samples| - 1;
      var x := samples[n];
      assert x in samples;
      var front := Complete(samples[..n], chosenLambda);
      TrainSkipsMissing(m, samples[..n], dvs, chosenLambda, grain, numClasses, sqrt);
      if !Missing(Selected(x.features, chosenLambda)) {
        assert (front + [x])[..|front|] == front;
        assert (front + [x])[|front|] == x;
      }
    }
  }

  /** Training is a left fold: one more sample is one more pass. */
  lemma TrainAppend(m: Matrix, samples: seq<Sample>, x: Sample, dvs: seq<DropVector>, chosenLambda: seq<nat>,
                    grain: nat, numClasses: nat, sqrt: real -> real)
    requires grain > 0 && Shaped(m, Pow(grain, |chosenLambda|), numClasses)
    requires Dimensioned(dvs, |chosenLambda|) && Fits(samples + [x], chosenLambda, numClasses)
    ensures Fits(samples, chosenLambda, numClasses) && x.cls < numClasses && Selectable(x.features, chosenLambda)
    ensures Train(m, samples + [x], dvs, chosenLambda, grain, numClasses, sqrt)
      == Step(Train(m, samples, dvs, chosenLambda, grain, numClasses, sqrt), x, dvs, chosenLambda, grain,
              numClasses, sqrt)
  {
    var all := samples + [x];
    assert all[..|samples|] == samples && all[|samples|] == x;
    assert x in all;
  }

  /** One pass of a complete sample, cell by cell: every drop vector whose
      shifted cell is inside the grid adds `weight * factor` to that cell's
      entry for the sample's label, and every entry no drop vector lands on
      keeps its value. */
  lemma StepCells(m: Matrix, x: Sample, chosenLambda: seq<nat>, grain: nat, numClasses: nat, radius: real,
                  sqrt: real -> real)
    requires grain > 0 && Shaped(m, Pow(grain, |chosenLambda|), numClasses) && IsSqrt(sqrt) && radius >= 0.0
    requires x.cls < numClasses && Selectable(x.features, chosenLambda)
    requires !Missing(Selected(x.features, chosenLambda))
    ensures var d := |chosenLambda|;
            var dvs := AllDrops(d, QuantizedRadius(radius, grain), sqrt);
            var features := Present(Selected(x.features, chosenLambda));
            var loc := Quantized(Location(features, grain));
            var factor := Factor(features, grain, sqrt);
            Dimensioned(dvs, d)
            && var next := Step(m, x, dvs, chosenLambda, grain, numClasses, sqrt);
               (forall k :: 0 <= k < |dvs| && InGrid(Shift(dvs[k].offset, loc), grain) ==>
                  0 <= Encode(Shift(dvs[k].offset, loc), grain) < |m|
                  && next[Encode(Shift(dvs[k].offset, loc), grain)][x.cls]
                     == m[Encode(Shift(dvs[k].offset, loc), grain)][x.cls] + Influence(dvs[k], factor))
               && (forall i, c :: 0 <= i < |m| && 0 <= c < numClasses && (c != x.cls || !Lands(dvs, loc, grain, i)) ==>
                  next[i][c] == m[i][c])
  {
    var d := |chosenLambda|;
    var dvs := AllDrops(d, QuantizedRadius(radius, grain), sqrt);
    AllDropsDimensioned(d, QuantizedRadius(radius, grain), sqrt);
    AllDropsDistinct(d, QuantizedRadius(radius, grain), sqrt);
    var features := Present(Selected(x.features, chosenLambda));
    var loc := Quantized(Location(features, grain));
    var factor := Factor(features, grain, sqrt);
    DepositCells(m, dvs, loc, x.cls, Influences(dvs, factor), grain);
  }

  /** With at most 25 chosen features and drop vectors of non-negative
      weight every influence is non-negative, so one pass keeps a
      non-negative grid non-negative. */
  lemma StepNonNegative(m: Matrix, x: Sample, dvs: seq<DropVector>, chosenLambda: seq<nat>, grain: nat,
                        numClasses: nat, sqrt: real -> real)
    requires grain > 0 && Shaped(m, Pow(grain, |chosenLambda|), numClasses) && IsSqrt(sqrt)
    requires Dimensioned(dvs, |chosenLambda|) && forall k :: 0 <= k < |dvs| ==> dvs[k].weight >= 0.0
    requires |chosenLambda| <= 25 && x.cls < numClasses && Selectable(x.features, chosenLambda)
    requires NonNegative(m)
    ensures NonNegative(Step(m, x, dvs, chosenLambda, grain, numClasses, sqrt))
  {
    var features := Selected(x.features, chosenLambda);
    if !Missing(features) {
      var f := Present(features);
      var factor := Factor(f, grain, sqrt);
      FactorBounds(f, grain, sqrt);
      InfluencesNonNegative(dvs, factor);
      DepositNonNegative(m, dvs, Quantized(Location(f, grain)), x.cls, Influences(dvs, factor), grain);
    }
  }

  /** Training keeps a non-negative grid non-negative (under the conditions
      of StepNonNegative). */
  lemma {:induction false} TrainNonNegative(m: Matrix, samples: seq<Sample>, dvs: seq<DropVector>,
                                            chosenLambda: seq<nat>, grain: nat, numClasses: nat, sqrt: real -> real)
    requires grain > 0 && Shaped(m, Pow(grain, |chosenLambda|), numClasses) && IsSqrt(sqrt)
    requires Dimensioned(dvs, |chosenLambda|) && forall k :: 0 <= k < |dvs| ==> dvs[k].weight >= 0.0
    requires |chosenLambda| <= 25 && Fits(samples, chosenLambda, numClasses)
    requires NonNegative(m)
    ensures NonNegative(Train(m, samples, dvs, chosenLambda, grain, numClasses, sqrt))
  {
    if |samples| > 0 {
      var n := |samples| - 1;
      assert samples[n] in samples;
      TrainNonNegative(m, samples[..n], dvs, chosenLambda, grain, numClasses, sqrt);
      var prev := Train(m, samples[..n], dvs, chosenLambda, grain, numClasses, sqrt);
      StepNonNegative(prev, samples[n], dvs, chosenLambda, grain, numClasses, sqrt);
    }
  }

  /** The loop of `learn` over the training samples: a sample with a missing
      chosen feature is skipped, any other is exposed. */
  method TrainAll(m: Matrix, samples: seq<Sample>, dvs: seq<DropVector>, chosenLambda: seq<nat>, grain: nat,
                  numClasses: nat, g: seq<int>, sqrt: real -> real) returns (model: Matrix)
    requires grain > 0 && Shaped(m, Pow(grain, |chosenLambda|), numClasses)
    requires Dimensioned(dvs, |chosenLambda|) && Fits(samples, chosenLambda, numClasses)
    requires |g| == |chosenLambda| && forall i :: 0 <= i < |g| ==> g[i] == Pow(grain, i)
    ensures model == Train(m, samples, dvs, chosenLambda, grain, numClasses, sqrt)
  {
    model := m;
    var i := 0;
    while i < |samples|
      invariant 0 <= i <= |samples|
      invariant model == Train(m, samples[..i], dvs, chosenLambda, grain, numClasses, sqrt)
    {
      assert samples[..i + 1] == samples[..i] + [samples[i]];
      TrainAppend(m, samples[..i], samples[i], dvs, chosenLambda, grain, numClasses, sqrt);
      model := Pass(model, samples[i], dvs, chosenLambda, grain, numClasses, g, sqrt);
      i := i + 1;
    }
    assert samples[..|samples|] == samples;
  }

  /** One pass of the loop of `learn`: skip the sample when a chosen feature
      is missing, otherwise expose the grid to it. It adds nothing to `Step`
      but the connection of the `AnyMissing` loop to it. */
  method Pass(m: Matrix, sample: Sample, dvs: seq<DropVector>, chosenLambda: seq<nat>, grain: nat,
              numClasses: nat, g: seq<int>, sqrt: real -> real) returns (model: Matrix)
    requires grain > 0 && Shaped(m, Pow(grain, |chosenLambda|), numClasses)
    requires Dimensioned(dvs, |chosenLambda|) && sample.cls < numClasses && Selectable(sample.features, chosenLambda)
    requires |g| == |chosenLambda| && forall i :: 0 <= i < |g| ==> g[i] == Pow(grain, i)
    ensures model == Step(m, sample, dvs, chosenLambda, grain, numClasses, sqrt)
  {
    var features := Selected(sample.features, chosenLambda);
    var missing := AnyMissing(features);
    model := m;
    if !missing {
      model := Expose(m, dvs, Present(features), sample.cls, grain, g, sqrt);
    }
  }

  /** The trained and normalised grid, starting from zeros. */
  function Learned(samples: seq<Sample>, chosenLambda: seq<nat>, grain: nat, numClasses: nat, radius: real,
                   sqrt: real -> real): (m: Matrix)
    requires grain > 0 && numClasses > 0 && radius >= 0.0 && RootNonNegative(sqrt)
    requires Fits(samples, chosenLambda, numClasses)
    ensures Shaped(m, Pow(grain, |chosenLambda|), numClasses)
  {
    var dvs := AllDrops(|chosenLambda|, QuantizedRadius(radius, grain), sqrt);
    AllDropsDimensioned(|chosenLambda|, QuantizedRadius(radius, grain), sqrt);
    var width := Pow(grain, |chosenLambda|);
    Normalized(Train(Zeros(width, numClasses), samples, dvs, chosenLambda, grain, numClasses, sqrt), numClasses)
  }

  /** With at most 25 chosen features the learned grid lies in [0, 1], and so
      do the saturation and value of every cell. */
  lemma LearnedUnit(samples: seq<Sample>, chosenLambda: seq<nat>, grain: nat, numClasses: nat, radius: real,
                    sqrt: real -> real)
    requires grain > 0 && numClasses > 0 && radius >= 0.0 && IsSqrt(sqrt) && |chosenLambda| <= 25
    requires Fits(samples, chosenLambda, numClasses)
    ensures var m := Learned(samples, chosenLambda, grain, numClasses, radius, sqrt);
            (forall i, c :: 0 <= i < |m| && 0 <= c < numClasses ==> 0.0 <= m[i][c] <= 1.0)
            && (forall i :: 0 <= i < |m| ==>
                  0.0 <= HsvOf(m, numClasses)[i].saturation <= 1.0 && 0.0 <= HsvOf(m, numClasses)[i].value <= 1.0)
  {
    var d := |chosenLambda|;
    var dvs := AllDrops(d, QuantizedRadius(radius, grain), sqrt);
    AllDropsDimensioned(d, QuantizedRadius(radius, grain), sqrt);
    var width := Pow(grain, d);
    var trained := Train(Zeros(width, numClasses), samples, dvs, chosenLambda, grain, numClasses, sqrt);
    AllDropsWeights(d, QuantizedRadius(radius, grain), sqrt);
    TrainNonNegative(Zeros(width, numClasses), samples, dvs, chosenLambda, grain, numClasses, sqrt);
    NormalizedUnit(trained, numClasses);
    var m := Learned(samples, chosenLambda, grain, numClasses, radius, sqrt);
    forall i | 0 <= i < |m|
      ensures 0.0 <= HsvOf(m, numClasses)[i].saturation <= 1.0 && 0.0 <= HsvOf(m, numClasses)[i].value <= 1.0
    {
      CellSaturation(m[i], numClasses);
      CellValue(m[i], numClasses);
    }
  }

  /** `givenSupport` for the query cell's support row under each voting method. */
  function Contribution(voting: VotingMethod, support: seq<real>, theta: real, thetas: seq<real>,
                        saturation: real): (r: seq<real>)
    requires |thetas| == |support|
    ensures |r| == |support|
  {
    match voting
    case Lone => support
    case Theta1 => Scale(theta, support)
    case Theta2 => Hadamard(thetas, support)
    case Theta3 => Scale(theta, Hadamard(thetas, support))
    case Thetas => Scale(saturation * theta, Hadamard(thetas, support))
  }

  lemma MulAssociates(a: real, b: real, c: real)
    ensures (a * b) * c == a * (b * c)
  {
  }

  /** How the voting methods relate: theta1 is lone scaled by theta, theta3
      is theta2 scaled by theta, and thetas is theta3 scaled by the cell's
      saturation. */
  lemma ContributionModes(support: seq<real>, theta: real, thetas: seq<real>, saturation: real)
    requires |thetas| == |support|
    ensures Contribution(Theta1, support, theta, thetas, saturation)
      == Scale(theta, Contribution(Lone, support, theta, thetas, saturation))
    ensures Contribution(Theta3, support, theta, thetas, saturation)
      == Scale(theta, Contribution(Theta2, support, theta, thetas, saturation))
    ensures Contribution(Thetas, support, theta, thetas, saturation)
      == Scale(saturation, Contribution(Theta3, support, theta, thetas, saturation))
  {
    var h := Hadamard(thetas, support);
    forall k | 0 <= k < |support|
      ensures Contribution(Thetas, support, theta, thetas, saturation)[k]
        == Scale(saturation, Contribution(Theta3, support, theta, thetas, saturation))[k]
    {
      MulAssociates(saturation, theta, h[k]);
    }
  }

  /** With confidences and saturation in [0, 1], no voting method gives a
      cell more than its raw support, nor a negative one for a non-negative
      support. */
  lemma ContributionBounded(voting: VotingMethod, support: seq<real>, theta: real, thetas: seq<real>,
                            saturation: real)
    requires |thetas| == |support|
    requires forall k :: 0 <= k < |support| ==> support[k] >= 0.0 && 0.0 <= thetas[k] <= 1.0
    requires 0.0 <= theta <= 1.0 && 0.0 <= saturation <= 1.0
    ensures forall k :: 0 <= k < |support| ==>
      0.0 <= Contribution(voting, support, theta, thetas, saturation)[k] <= support[k]
  {
    var h := Hadamard(thetas, support);
    match voting
    case Lone =>
    case Theta1 =>
      ScaleBounded(theta, support);
    case Theta2 =>
      HadamardBounded(thetas, support);
    case Theta3 =>
      HadamardBounded(thetas, support);
      ScaleBounded(theta, h);
    case Thetas =>
      HadamardBounded(thetas, support);
      ScaleBounded(theta, h);
      ContributionModes(support, theta, thetas, saturation);
      ScaleBounded(saturation, Scale(theta, h));
  }

  /** When no cell was counted every confidence is 1, and then theta1,
      theta2 and theta3 all add the raw support. */
  lemma ContributionUnweighted(voting: VotingMethod, support: seq<real>, thetas: seq<real>, saturation: real)
    requires |thetas| == |support| && voting != Thetas
    requires forall k :: 0 <= k < |thetas| ==> thetas[k] == 1.0
    ensures Contribution(voting, support, 1.0, thetas, saturation) == support
  {
  }

  /** The feature value a query uses: .5 for a missing one. */
  function QueryValue(feature: Option<real>): real
  {
    if feature.None? then MissingValue else feature.value
  }

  /** One coordinate of the query location: `int(x * grain)` below 1,
      `grain - 1` from 1 on. */
  function QueryCoordinate(x: real, grain: nat): int
  {
    if x < 1.0 then Trunc(x * grain as real) else grain - 1
  }

  /** The query location, coordinate by coordinate. */
  function QueryLocation(features: seq<Option<real>>, grain: nat): (loc: seq<int>)
    ensures |loc| == |features|
  {
    seq(|features|, k requires 0 <= k < |features| => QueryCoordinate(QueryValue(features[k]), grain))
  }

  /** A query whose present features are non-negative lands inside the grid,
      however large they are and whatever is missing. */
  lemma QueryInGrid(features: seq<Option<real>>, grain: nat)
    requires grain >= 1
    requires forall k :: 0 <= k < |features| && features[k].Some? ==> features[k].value >= 0.0
    ensures InGrid(QueryLocation(features, grain), grain)
  {
    forall k | 0 <= k < |features| ensures 0 <= QueryLocation(features, grain)[k] < grain {
      var x := QueryValue(features[k]);
      assert QueryLocation(features, grain)[k] == QueryCoordinate(x, grain);
      if x < 1.0 {
        TruncBelow(x, grain);
      }
    }
  }

  /** The exposer object. */
  class Exposer {
    const votingMethod: VotingMethod
    const grain: nat
    const radius: real
    const chosenLambda: seq<nat>
    const dimensions: nat
    const numClasses: nat
    /** The square root, given in place of the floating-point one. */
    const sqrt: real -> real
    const g: seq<int>
    const dropVectors: seq<DropVector>
    var model: Matrix
    var hsv: seq<Hsv>
    var thetas: seq<real>
    var theta: real

    /** What construction establishes and nothing afterwards changes. */
    ghost predicate Valid()
    {
      grain >= 1 && numClasses >= 1 && radius >= 0.0 && RootNonNegative(sqrt)
      && dimensions == |chosenLambda|
      && |g| == dimensions && (forall i :: 0 <= i < dimensions ==> g[i] == Pow(grain, i))
      && dropVectors == AllDrops(dimensions, QuantizedRadius(radius, grain), sqrt)
    }

    /** The state `learn` leaves: a grid of `grain^d` cells with one entry
      per class, a triple per cell and a confidence per class. */
    ghost predicate Trained()
      reads this
    {
      Valid() && Shaped(model, Pow(grain, dimensions), numClasses) && |hsv| == |model| && |thetas| == numClasses
    }

    /** `__init__`: read the configuration (lone voting by default), then
        precompute the powers of grain and the drop vectors. */
    constructor (configuration: Configuration, numClasses: nat, sqrt: real -> real)
      requires configuration.grain >= 1 && configuration.radius >= 0.0 && numClasses >= 1
      requires RootNonNegative(sqrt)
      ensures Valid()
      ensures votingMethod == if configuration.exposerVotingMethod.Some?
                              then configuration.exposerVotingMethod.value else Lone
      ensures grain == configuration.grain && radius == configuration.radius
      ensures chosenLambda == configuration.chosenLambda && dimensions == |chosenLambda|
      ensures this.numClasses == numClasses && this.sqrt == sqrt
    {
      var voting := Lone;
      if configuration.exposerVotingMethod.Some? {
        voting := configuration.exposerVotingMethod.value;
      }
      votingMethod := voting;
      grain := configuration.grain;
      radius := configuration.radius;
      chosenLambda := configuration.chosenLambda;
      dimensions := |configuration.chosenLambda|;
      this.numClasses := numClasses;
      this.sqrt := sqrt;
      var powers := Powers(configuration.grain, |configuration.chosenLambda|);
      g := powers;
      var drops := DropVectors(|configuration.chosenLambda|, configuration.grain, configuration.radius, sqrt);
      dropVectors := drops;
      model := [];
      hsv := [];
      thetas := [];
      theta := 0.0;
    }

    /** `learn`: start from a zero grid, expose it to every complete sample,
        then normalise and compute the measures. */
    method Learn(samples: seq<Sample>)
      requires Valid() && Fits(samples, chosenLambda, numClasses)
      modifies this
      ensures Trained()
      ensures model == Learned(samples, chosenLambda, grain, numClasses, radius, sqrt)
      ensures hsv == HsvOf(model, numClasses)
      ensures thetas == Measures.Thetas(Presence(model, numClasses, PresenceThreshold))
      ensures theta == Mean(thetas)
    {
      var width := Pow(grain, dimensions);
      var height := numClasses;
      AllDropsDimensioned(dimensions, QuantizedRadius(radius, grain), sqrt);
      hsv := seq(width, _ => Hsv(0.0, 0.0, 0.0));
      model := TrainAll(Zeros(width, height), samples, dropVectors, chosenLambda, grain, numClasses, g, sqrt);
      Normalize();
      CalculateMeasures();
    }

    /** `normalize`: divide every class column by its maximum. */
    method Normalize()
      requires |model| > 0 && Shaped(model, |model|, numClasses)
      modifies this
      ensures model == Normalized(old(model), numClasses)
      ensures hsv == old(hsv) && thetas == old(thetas) && theta == old(theta)
    {
      var r := Grid.Normalize(model, numClasses);
      model := r;
    }

    /** `calculate_measures`: the HSV triples and the confidences, counting
        cells whose value exceeds .7. */
    method CalculateMeasures()
      requires numClasses >= 1 && Shaped(model, |model|, numClasses)
      modifies this
      ensures model == old(model)
      ensures hsv == HsvOf(model, numClasses)
      ensures thetas == Measures.Thetas(Presence(model, numClasses, PresenceThreshold))
      ensures theta == Mean(thetas)
    {
      hsv, thetas, theta := Measures.Measure(model, numClasses, PresenceThreshold);
    }

    /** The signed position of a query, before Python's negative indexing. */
    function QueryPosition(features: seq<Option<real>>): int
      requires Selectable(features, chosenLambda)
    {
      Encode(QueryLocation(Selected(features, chosenLambda), grain), grain)
    }

    /** The query can be looked up: `model[position]` does not raise. */
    ghost predicate Answerable(features: seq<Option<real>>)
      reads this
    {
      Trained() && Selectable(features, chosenLambda)
      && -|model| <= QueryPosition(features) < |model|
    }

    /** What `predict` adds to the query's support accumulator. */
    function Given(features: seq<Option<real>>): (r: seq<real>)
      reads this
      requires Answerable(features)
      ensures |r| == numClasses
    {
      var i := PyIndex(QueryPosition(features), |model|);
      Contribution(votingMethod, model[i], theta, thetas, hsv[i].saturation)
    }

    /** A query whose present features are non-negative can always be
        answered once the exposer is trained. */
    lemma AnswerableQuery(features: seq<Option<real>>)
      requires Trained() && Selectable(features, chosenLambda)
      requires forall k :: 0 <= k < |features| && features[k].Some? ==> features[k].value >= 0.0
      ensures Answerable(features)
      ensures 0 <= QueryPosition(features) < |model|
    {
      var selected := Selected(features, chosenLambda);
      QueryInGrid(selected, grain);
      EncodeBound(QueryLocation(selected, grain), grain);
    }

    /** `predict` for one query: locate, look up, weigh, add. */
    method PredictOne(features: seq<Option<real>>, support: array<real>)
      requires Answerable(features) && support.Length == numClasses
      modifies support
      ensures support[..] == Plus(old(support[..]), Given(features))
    {
      var selected := Selected(features, chosenLambda);
      var location := QueryLocation(selected, grain);
      var position := Position.Position(location, g, grain);
      var i := PyIndex(position, |model|);
      var row := model[i];
      var givenSupport := Contribution(votingMethod, row, theta, thetas, hsv[i].saturation);
      AddInto(support, givenSupport);
    }

    /** `predict`: every query's accumulator gains its contribution, added
        to and not substituted for what it held. */
    method Predict(tests: seq<seq<Option<real>>>, supports: seq<array<real>>)
      requires |tests| == |supports|
      requires forall j :: 0 <= j < |tests| ==> Answerable(tests[j]) && supports[j].Length == numClasses
      requires forall a, b :: 0 <= a < b < |supports| ==> supports[a] != supports[b]
      modifies set j | 0 <= j < |supports| :: supports[j]
      ensures forall j :: 0 <= j < |supports| ==> supports[j][..] == Plus(old(supports[j][..]), Given(tests[j]))
    {
      var j := 0;
      while j < |tests|
        invariant 0 <= j <= |tests|
        invariant forall k :: 0 <= k < j ==> supports[k][..] == Plus(old(supports[k][..]), Given(tests[k]))
        invariant forall k :: j <= k < |tests| ==> supports[k][..] == old(supports[k][..])
      {
        PredictOne(tests[j], supports[j]);
        j := j + 1;
      }
    }

    /** The pixel array of `png`. */
    method Png(scale: real) returns (image: seq<seq<real>>)
      requires Trained() && dimensions >= 2 && |hsv| == Pow(grain, dimensions)
      ensures image == Image(model, hsv, grain, dimensions, scale)
    {
      image := Render.Png(model, hsv, grain, dimensions, g, scale);
    }
  }
}
