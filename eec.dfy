/** The second Exposer variant (eec): the object is built and trained in one
    step from a dataset whose samples have every feature, normalised and
    measured with presence threshold .1, and queried by `predict` under one
    of three participations, with an out-of-range location clamped only
    when it equals `grain`. */
module Eec {
  import opened Basics
  import opened Position
  import opened Drops
  import opened Grid
  import opened Measures
  import opened Render

  /** A cell counts for its decisive class when its value exceeds this. */
  const PresenceThreshold: real := 0.1

  /** How the support of the query cell is weighed before it is added. */
  datatype Participation = Lone | Theta1 | Theta2

  /** The configuration dictionary; every key is present. */
  datatype Configuration = Configuration(exposerParticipation: Participation, grain: nat, radius: real,
                                         chosenLambda: seq<nat>)

  /** A training sample: its label and all its features. */
  datatype Sample = Sample(cls: nat, features: seq<real>)

  /** Every sample is labelled with a class and has the chosen features. */
  predicate Fits(samples: seq<Sample>, chosenLambda: seq<nat>, numClasses: nat)
  {
    forall s :: s in samples ==> s.cls < numClasses && Selectable(s.features, chosenLambda)
  }

  /** The grid after the training loop over samples, starting from m: every
      sample is exposed, none is skipped. */
  function Build(m: Matrix, samples: seq<Sample>, dvs: seq<DropVector>, chosenLambda: seq<nat>, grain: nat,
                 numClasses: nat, sqrt: real -> real): (r: Matrix)
    requires grain > 0 && Shaped(m, Pow(grain, |chosenLambda|), numClasses)
    requires Dimensioned(dvs, |chosenLambda|) && Fits(samples, chosenLambda, numClasses)
    ensures Shaped(r, |m|, numClasses)
  {
    if |samples| == 0 then m
    else
      var n := |samples| - 1;
      var x := samples[n];
      assert x in samples;
      Exposed(Build(m, samples[..n], dvs, chosenLambda, grain, numClasses, sqrt), dvs,
              Selected(x.features, chosenLambda), x.cls, grain, sqrt)
  }

  /** With at most 25 chosen features and drop vectors of non-negative
      weight, training keeps a non-negative grid non-negative. */
  lemma {:induction false} BuildNonNegative(m: Matrix, samples: seq<Sample>, dvs: seq<DropVector>,
                                            chosenLambda: seq<nat>, grain: nat, numClasses: nat, sqrt: real -> real)
    requires grain > 0 && Shaped(m, Pow(grain, |chosenLambda|), numClasses) && IsSqrt(sqrt)
    requires Dimensioned(dvs, |chosenLambda|) && forall k :: 0 <= k < |dvs| ==> dvs[k].weight >= 0.0
    requires |chosenLambda| <= 25 && Fits(samples, chosenLambda, numClasses)
    requires NonNegative(m)
    ensures NonNegative(Build(m, samples, dvs, chosenLambda, grain, numClasses, sqrt))
  {
    if |samples| > 0 {
      var n := |samples| - 1;
      var x := samples[n];
      assert x in samples;
      BuildNonNegative(m, samples[..n], dvs, chosenLambda, grain, numClasses, sqrt);
      var prev := Build(m, samples[..n], dvs, chosenLambda, grain, numClasses, sqrt);
      var f := Selected(x.features, chosenLambda);
      var factor := Factor(f, grain, sqrt);
      FactorBounds(f, grain, sqrt);
      InfluencesNonNegative(dvs, factor);
      DepositNonNegative(prev, dvs, Quantized(Location(f, grain)), x.cls, Influences(dvs, factor), grain);
    }
  }

  /** The trained and normalised grid, starting from zeros. */
  function Learned(samples: seq<Sample>, chosenLambda: seq<nat>, grain: nat, numClasses: nat, radius: real,
                   sqrt: real -> real): (m: Matrix)
    requires grain > 0 && numClasses > 0 && radius >= 0.0 && RootNonNegative(sqrt)
    requires Fits(samples, chosenLambda, numClasses)
    ensures Shaped(m, Pow(grain, |chosenLambda|), numClasses)
  {
    var dvs := AllDrops(|chosenLambda|, QuantizedRadius(radius, grain), sqrt);
    AllDropsDimensioned(|chosenLambda|, QuantizedRadius(radius, grain), sqrt);
    var width := Pow(grain, |chosenLambda|);
    Normalized(Build(Zeros(width, numClasses), samples, dvs, chosenLambda, grain, numClasses, sqrt), numClasses)
  }

  /** With at most 25 chosen features the learned grid lies in [0, 1], and so
      do the saturation and value of every cell. */
  lemma LearnedUnit(samples: seq<Sample>, chosenLambda: seq<nat>, grain: nat, numClasses: nat, radius: real,
                    sqrt: real -> real)
    requires grain > 0 && numClasses > 0 && radius >= 0.0 && IsSqrt(sqrt) && |chosenLambda| <= 25
    requires Fits(samples, chosenLambda, numClasses)
    ensures var m := Learned(samples, chosenLambda, grain, numClasses, radius, sqrt);
            (forall i, c :: 0 <= i < |m| && 0 <= c < numClasses ==> 0.0 <= m[i][c] <= 1.0)
            && (forall i :: 0 <= i < |m| ==>
                  0.0 <= HsvOf(m, numClasses)[i].saturation <= 1.0 && 0.0 <= HsvOf(m, numClasses)[i].value <= 1.0)
  {
    var d := |chosenLambda|;
    var dvs := AllDrops(d, QuantizedRadius(radius, grain), sqrt);
    AllDropsDimensioned(d, QuantizedRadius(radius, grain), sqrt);
    var width := Pow(grain, d);
    var built := Build(Zeros(width, numClasses), samples, dvs, chosenLambda, grain, numClasses, sqrt);
    AllDropsWeights(d, QuantizedRadius(radius, grain), sqrt);
    BuildNonNegative(Zeros(width, numClasses), samples, dvs, chosenLambda, grain, numClasses, sqrt);
    NormalizedUnit(built, numClasses);
    var m := Learned(samples, chosenLambda, grain, numClasses, radius, sqrt);
    forall i | 0 <= i < |m|
      ensures 0.0 <= HsvOf(m, numClasses)[i].saturation <= 1.0 && 0.0 <= HsvOf(m, numClasses)[i].value <= 1.0
    {
      CellSaturation(m[i], numClasses);
      CellValue(m[i], numClasses);
    }
  }

  /** What `predict` adds to the query's support accumulator. */
  function Contribution(participation: Participation, support: seq<real>, theta: real, thetas: seq<real>)
    : (r: seq<real>)
    requires |thetas| == |support|
    ensures |r| == |support|
  {
    match participation
    case Lone => support
    case Theta1 => Scale(theta, support)
    case Theta2 => Hadamard(thetas, support)
  }

  /** With confidences in [0, 1], no participation gives a cell more than
      its raw support, nor a negative one for a non-negative support. */
  lemma ContributionBounded(participation: Participation, support: seq<real>, theta: real, thetas: seq<real>)
    requires |thetas| == |support|
    requires forall k :: 0 <= k < |support| ==> support[k] >= 0.0 && 0.0 <= thetas[k] <= 1.0
    requires 0.0 <= theta <= 1.0
    ensures forall k :: 0 <= k < |support| ==>
      0.0 <= Contribution(participation, support, theta, thetas)[k] <= support[k]
  {
    match participation
    case Lone =>
    case Theta1 =>
      ScaleBounded(theta, support);
    case Theta2 =>
      HadamardBounded(thetas, support);
  }

  /** One coordinate of the corrected location: only a coordinate equal to
      `grain` is moved back onto the last quantum. */
  function ClampCoordinate(q: int, grain: nat): int
  {
    if q == grain then grain - 1 else q
  }

  /** The corrected location, coordinate by coordinate. */
  function Clamped(location: seq<int>, grain: nat): (r: seq<int>)
    ensures |r| == |location|
  {
    seq(|location|, k requires 0 <= k < |location| => ClampCoordinate(location[k], grain))
  }

  /** The loop over `enumerate(location)` that corrects it in place. */
  method Clamp(location: seq<int>, grain: nat) returns (r: seq<int>)
    ensures |r| == |location|
    ensures forall k :: 0 <= k < |r| ==> r[k] == if location[k] == grain then grain - 1 else location[k]
    ensures r == Clamped(location, grain)
  {
    r := location;
    var index := 0;
    while index < |r|
      invariant 0 <= index <= |r| == |location|
      invariant forall k :: 0 <= k < index ==> r[k] == ClampCoordinate(location[k], grain)
      invariant forall k :: index <= k < |r| ==> r[k] == location[k]
    {
      if r[index] == grain {
        r := r[index := grain - 1];
      }
      index := index + 1;
    }
  }

  /** The query location: truncate `feature * grain`, then clamp. */
  function QueryLocation(features: seq<real>, grain: nat): (loc: seq<int>)
    ensures |loc| == |features|
  {
    Clamped(Quantized(Location(features, grain)), grain)
  }

  /** A corrected coordinate lies inside [0, grain) exactly when the scaled
      feature lies strictly between -1 and grain + 1: truncation sends
      (-1, 0) to 0 and [grain, grain + 1) to grain, which the clamp fixes. */
  lemma CoordinateInGrid(x: real, grain: nat)
    requires grain >= 1
    ensures 0 <= ClampCoordinate(Trunc(x), grain) < grain <==> -1.0 < x < grain as real + 1.0
  {
  }

  /** The query lands in the grid exactly when every scaled feature is
      strictly between -1 and grain + 1. */
  lemma QueryInGridIff(features: seq<real>, grain: nat)
    requires grain >= 1
    ensures InGrid(QueryLocation(features, grain), grain)
        <==> forall k :: 0 <= k < |features| ==> -1.0 < features[k] * grain as real < grain as real + 1.0
  {
    var loc := QueryLocation(features, grain);
    forall k | 0 <= k < |features|
      ensures 0 <= loc[k] < grain <==> -1.0 < features[k] * grain as real < grain as real + 1.0
    {
      assert loc[k] == ClampCoordinate(Trunc(features[k] * grain as real), grain);
      CoordinateInGrid(features[k] * grain as real, grain);
    }
  }

  /** A query whose features lie in [0, 1], the range of the training data,
      lands inside the grid. */
  lemma QueryInGrid(features: seq<real>, grain: nat)
    requires grain >= 1
    requires forall k :: 0 <= k < |features| ==> 0.0 <= features[k] <= 1.0
    ensures InGrid(QueryLocation(features, grain), grain)
  {
    forall k | 0 <= k < |features|
      ensures -1.0 < features[k] * grain as real < grain as real + 1.0
    {
      MulLessEq(0.0, features[k], 0.0, grain as real);
      MulLessEq(features[k], 1.0, grain as real, grain as real);
    }
    QueryInGridIff(features, grain);
  }

  /** The exposer object. */
  class Exposer {
    const exposerParticipation: Participation
    const grain: nat
    const radius: real
    const chosenLambda: seq<nat>
    const dimensions: nat
    const numClasses: nat
    /** The square root, given in place of the floating-point one. */
    const sqrt: real -> real
    const g: seq<int>
    var matrix: Matrix
    var hsv: seq<Hsv>
    var thetas: seq<real>
    var theta: real

    /** What construction establishes and nothing afterwards changes. */
    ghost predicate Valid()
      reads this
    {
      grain >= 1 && numClasses >= 1 && radius >= 0.0 && RootNonNegative(sqrt)
      && dimensions == |chosenLambda|
      && |g| == dimensions && (forall i :: 0 <= i < dimensions ==> g[i] == Pow(grain, i))
      && Shaped(matrix, Pow(grain, dimensions), numClasses) && |hsv| == |matrix| && |thetas| == numClasses
    }

    /** `__init__`: read the configuration, precompute the powers of grain
        and the drop vectors, expose a zero grid to every sample, normalise
        it and compute the measures, counting cells whose value exceeds .1. */
    constructor (samples: seq<Sample>, configuration: Configuration, numClasses: nat, sqrt: real -> real)
      requires configuration.grain >= 1 && configuration.radius >= 0.0 && numClasses >= 1
      requires RootNonNegative(sqrt)
      requires Fits(samples, configuration.chosenLambda, numClasses)
      ensures Valid()
      ensures exposerParticipation == configuration.exposerParticipation
      ensures grain == configuration.grain && radius == configuration.radius
      ensures chosenLambda == configuration.chosenLambda && dimensions == |chosenLambda|
      ensures this.numClasses == numClasses && this.sqrt == sqrt
      ensures matrix == Learned(samples, chosenLambda, grain, numClasses, radius, sqrt)
      ensures hsv == HsvOf(matrix, numClasses)
      ensures thetas == Measures.Thetas(Presence(matrix, numClasses, PresenceThreshold))
      ensures theta == Mean(thetas)
    {
      var grain := configuration.grain;
      var radius := configuration.radius;
      var chosenLambda := configuration.chosenLambda;
      var dimensions := |chosenLambda|;
      var width := Pow(grain, dimensions);
      var height := numClasses;
      var m := Zeros(width, height);
      var powers := Powers(grain, dimensions);
      var dropVectors := DropVectors(dimensions, grain, radius, sqrt);
      AllDropsDimensioned(dimensions, QuantizedRadius(radius, grain), sqrt);
      var i := 0;
      while i < |samples|
        invariant 0 <= i <= |samples|
        invariant Fits(samples[..i], chosenLambda, numClasses)
        invariant m == Build(Zeros(width, height), samples[..i], dropVectors, chosenLambda, grain, numClasses, sqrt)
      {
        assert samples[..i + 1][..i] == samples[..i];
        assert samples[..i + 1][i] == samples[i] && samples[i] in samples;
        var sample := samples[i];
        var features := Selected(sample.features, chosenLambda);
        m := Expose(m, dropVectors, features, sample.cls, grain, powers, sqrt);
        i := i + 1;
      }
      assert samples[..|samples|] == samples;
      m := Grid.Normalize(m, height);
      var h, t, th := Measures.Measure(m, height, PresenceThreshold);
      exposerParticipation := configuration.exposerParticipation;
      this.grain := grain;
      this.radius := radius;
      this.chosenLambda := chosenLambda;
      this.dimensions := dimensions;
      this.numClasses := numClasses;
      this.sqrt := sqrt;
      g := powers;
      matrix := m;
      hsv := h;
      thetas := t;
      theta := th;
    }

    /** The signed position of a query, before Python's negative indexing. */
    function QueryPosition(features: seq<real>): int
      requires Selectable(features, chosenLambda)
    {
      Encode(QueryLocation(Selected(features, chosenLambda), grain), grain)
    }

    /** The query can be looked up: `matrix[position]` does not raise. */
    ghost predicate Answerable(features: seq<real>)
      reads this
    {
      Valid() && Selectable(features, chosenLambda)
      && -|matrix| <= QueryPosition(features) < |matrix|
    }

    /** What `predict` adds to the query's support accumulator. */
    function Given(features: seq<real>): (r: seq<real>)
      reads this
      requires Answerable(features)
      ensures |r| == numClasses
    {
      Contribution(exposerParticipation, matrix[PyIndex(QueryPosition(features), |matrix|)], theta, thetas)
    }

    /** A query whose chosen features lie in [0, 1] can always be answered. */
    lemma AnswerableQuery(features: seq<real>)
      requires Valid() && Selectable(features, chosenLambda)
      requires forall k :: 0 <= k < |chosenLambda| ==> 0.0 <= features[chosenLambda[k]] <= 1.0
      ensures Answerable(features)
      ensures 0 <= QueryPosition(features) < |matrix|
    {
      var selected := Selected(features, chosenLambda);
      QueryInGrid(selected, grain);
      EncodeBound(QueryLocation(selected, grain), grain);
    }

    /** `predict` for one query: locate, clamp, look up, then the three
        participation tests, of which exactly one adds to the accumulator. */
    method PredictOne(features: seq<real>, support: array<real>)
      requires Answerable(features) && support.Length == numClasses
      modifies support
      ensures support[..] == Plus(old(support[..]), Given(features))
    {
      var selected := Selected(features, chosenLambda);
      var location := Clamp(Quantized(Location(selected, grain)), grain);
      var position := Position.Position(location, g, grain);
      var row := matrix[PyIndex(position, |matrix|)];
      if exposerParticipation == Lone {
        AddInto(support, row);
      }
      if exposerParticipation == Theta1 {
        AddInto(support, Scale(theta, row));
      }
      if exposerParticipation == Theta2 {
        AddInto(support, Hadamard(thetas, row));
      }
    }

    /** `predict`: every query's accumulator gains its contribution, added
        to and not substituted for what it held. */
    method Predict(tests: seq<seq<real>>, supports: seq<array<real>>)
      requires |tests| == |supports|
      requires forall j :: 0 <= j < |tests| ==> Answerable(tests[j]) && supports[j].Length == numClasses
      requires forall a, b :: 0 <= a < b < |supports| ==> supports[a] != supports[b]
      modifies set j | 0 <= j < |supports| :: supports[j]
      ensures forall j :: 0 <= j < |supports| ==> supports[j][..] == Plus(old(supports[j][..]), Given(tests[j]))
    {
      var j := 0;
      while j < |tests|
        invariant 0 <= j <= |tests|
        invariant forall k :: 0 <= k < j ==> supports[k][..] == Plus(old(supports[k][..]), Given(tests[k]))
        invariant forall k :: j <= k < |tests| ==> supports[k][..] == old(supports[k][..])
      {
        PredictOne(tests[j], supports[j]);
        j := j + 1;
      }
    }

    /** The pixel array of `png`. */
    method Png(scale: real) returns (image: seq<seq<real>>)
      requires Valid() && dimensions >= 2
      ensures image == Image(matrix, hsv, grain, dimensions, scale)
    {
      image := Render.Png(matrix, hsv, grain, dimensions, g, scale);
    }
  }
}
