/** How the two Exposer variants relate. On data without missing features
    they learn the same grid; they count presence at different thresholds;
    on queries inside [0, 1] they look up the same cell, and outside it only
    the first variant keeps the query on the grid; their shared
    participations weigh the support alike. */
module Compare {
  import opened Basics
  import opened Position
  import opened Drops
  import opened Grid
  import opened Measures
  import Ece
  import Eec

  /** An eec sample as an ece sample: every feature present. */
  function LiftSample(x: Eec.Sample): (y: Ece.Sample)
    ensures y.cls == x.cls && |y.features| == |x.features|
  {
    Ece.Sample(x.cls, seq(|x.features|, k requires 0 <= k < |x.features| => Some(x.features[k])))
  }

  function LiftSamples(samples: seq<Eec.Sample>): (r: seq<Ece.Sample>)
    ensures |r| == |samples| && forall j :: 0 <= j < |r| ==> r[j] == LiftSample(samples[j])
  {
    seq(|samples|, j requires 0 <= j < |samples| => LiftSample(samples[j]))
  }

  /** Lifted samples fit wherever the originals do. */
  lemma LiftFits(samples: seq<Eec.Sample>, chosenLambda: seq<nat>, numClasses: nat)
    requires Eec.Fits(samples, chosenLambda, numClasses)
    ensures Ece.Fits(LiftSamples(samples), chosenLambda, numClasses)
  {
    forall s | s in LiftSamples(samples) ensures s.cls < numClasses && Selectable(s.features, chosenLambda) {
      var j :| 0 <= j < |samples| && LiftSamples(samples)[j] == s;
      assert samples[j] in samples;
    }
  }

  /** A lifted sample has no missing chosen feature, and its present values
      are the original selection. */
  lemma LiftSelected(x: Eec.Sample, chosenLambda: seq<nat>)
    requires Selectable(x.features, chosenLambda)
    ensures Selectable(LiftSample(x).features, chosenLambda)
    ensures !Ece.Missing(Selected(LiftSample(x).features, chosenLambda))
    ensures Ece.Present(Selected(LiftSample(x).features, chosenLambda)) == Selected(x.features, chosenLambda)
  {
  }

  /** Training the first variant on the lifted samples gives the grid the
      second variant builds from the originals. */
  lemma {:induction false} SameTraining(m: Matrix, samples: seq<Eec.Sample>, dvs: seq<DropVector>,
                                        chosenLambda: seq<nat>, grain: nat, numClasses: nat, sqrt: real -> real)
    requires grain > 0 && Shaped(m, Pow(grain, |chosenLambda|), numClasses)
    requires Dimensioned(dvs, |chosenLambda|) && Eec.Fits(samples, chosenLambda, numClasses)
    ensures Ece.Fits(LiftSamples(samples), chosenLambda, numClasses)
    ensures Ece.Train(m, LiftSamples(samples), dvs, chosenLambda, grain, numClasses, sqrt)
      == Eec.Build(m, samples, dvs, chosenLambda, grain, numClasses, sqrt)
  {
    LiftFits(samples, chosenLambda, numClasses);
    if |samples| > 0 {
      var n := |samples| - 1;
      var x := samples[n];
      assert x in samples;
      var front := LiftSamples(samples[..n]);
      LiftSamplesSnoc(samples);
      SameTraining(m, samples[..n], dvs, chosenLambda, grain, numClasses, sqrt);
      Ece.TrainAppend(m, front, LiftSample(x), dvs, chosenLambda, grain, numClasses, sqrt);
      var prev := Eec.Build(m, samples[..n], dvs, chosenLambda, grain, numClasses, sqrt);
      SameStep(prev, x, dvs, chosenLambda, grain, numClasses, sqrt);
    }
  }

  lemma LiftSamplesSnoc(samples: seq<Eec.Sample>)
    requires |samples| > 0
    ensures LiftSamples(samples) == LiftSamples(samples[..|samples| - 1]) + [LiftSample(samples[|samples| - 1])]
  {
  }

  /** One pass of the first variant on a lifted sample is one exposure of
      the second. */
  lemma SameStep(m: Matrix, x: Eec.Sample, dvs: seq<DropVector>, chosenLambda: seq<nat>, grain: nat,
                 numClasses: nat, sqrt: real -> real)
    requires grain > 0 && Shaped(m, Pow(grain, |chosenLambda|), numClasses)
    requires Dimensioned(dvs, |chosenLambda|) && x.cls < numClasses && Selectable(x.features, chosenLambda)
    ensures Selectable(LiftSample(x).features, chosenLambda)
    ensures Ece.Step(m, LiftSample(x), dvs, chosenLambda, grain, numClasses, sqrt)
      == Exposed(m, dvs, Selected(x.features, chosenLambda), x.cls, grain, sqrt)
  {
    LiftSelected(x, chosenLambda);
  }

  /** On complete data both variants learn the same normalised grid. */
  lemma SameLearned(samples: seq<Eec.Sample>, chosenLambda: seq<nat>, grain: nat, numClasses: nat, radius: real,
                    sqrt: real -> real)
    requires grain > 0 && numClasses > 0 && radius >= 0.0 && RootNonNegative(sqrt)
    requires Eec.Fits(samples, chosenLambda, numClasses)
    ensures Ece.Fits(LiftSamples(samples), chosenLambda, numClasses)
    ensures Ece.Learned(LiftSamples(samples), chosenLambda, grain, numClasses, radius, sqrt)
      == Eec.Learned(samples, chosenLambda, grain, numClasses, radius, sqrt)
  {
    var dvs := AllDrops(|chosenLambda|, QuantizedRadius(radius, grain), sqrt);
    AllDropsDimensioned(|chosenLambda|, QuantizedRadius(radius, grain), sqrt);
    SameTraining(Zeros(Pow(grain, |chosenLambda|), numClasses), samples, dvs, chosenLambda, grain, numClasses, sqrt);
  }

  /** On the same grid the first variant's threshold (.7) counts no more
      cells for any class than the second's (.1). */
  lemma StricterPresence(m: Matrix, n: nat, c: nat)
    requires n > 0 && Shaped(m, |m|, n)
    ensures Decisive(m, n, Ece.PresenceThreshold, c) <= Decisive(m, n, Eec.PresenceThreshold, c)
    ensures CountedCells(m, n, Ece.PresenceThreshold) <= CountedCells(m, n, Eec.PresenceThreshold)
  {
    DecisiveMonotone(m, n, Eec.PresenceThreshold, Ece.PresenceThreshold, c);
    CountedCellsMonotone(m, n, Eec.PresenceThreshold, Ece.PresenceThreshold);
  }

  /** A query feature vector as the first variant reads it. */
  function LiftFeatures(features: seq<real>): (f: seq<Option<real>>)
    ensures |f| == |features|
  {
    seq(|features|, k requires 0 <= k < |features| => Some(features[k]))
  }

  /** For features in [0, 1] both ways of locating a query agree: the first
      variant's test `feature < 1` and the second's clamp of `grain` both
      send a feature of 1 to the last quantum. */
  lemma SameQueryLocation(features: seq<real>, grain: nat)
    requires grain >= 1
    requires forall k :: 0 <= k < |features| ==> 0.0 <= features[k] <= 1.0
    ensures Ece.QueryLocation(LiftFeatures(features), grain) == Eec.QueryLocation(features, grain)
  {
    forall k | 0 <= k < |features|
      ensures Ece.QueryLocation(LiftFeatures(features), grain)[k] == Eec.QueryLocation(features, grain)[k]
    {
      SameCoordinateAt(features, grain, k);
    }
  }

  lemma SameCoordinateAt(features: seq<real>, grain: nat, k: nat)
    requires grain >= 1 && k < |features| && 0.0 <= features[k] <= 1.0
    ensures Ece.QueryLocation(LiftFeatures(features), grain)[k] == Eec.QueryLocation(features, grain)[k]
  {
    var x := features[k];
    assert Eec.QueryLocation(features, grain)[k] == Eec.ClampCoordinate(Trunc(x * grain as real), grain);
    assert LiftFeatures(features)[k] == Some(x);
    assert Ece.QueryLocation(LiftFeatures(features), grain)[k] == Ece.QueryCoordinate(x, grain);
    SameCoordinate(x, grain);
  }

  lemma SameCoordinate(x: real, grain: nat)
    requires grain >= 1 && 0.0 <= x <= 1.0
    ensures Ece.QueryCoordinate(x, grain) == Eec.ClampCoordinate(Trunc(x * grain as real), grain)
  {
    if x < 1.0 {
      TruncBelow(x, grain);
    } else {
      assert x * grain as real == grain as real;
    }
  }

  /** Beyond 1 the variants part: with one axis of one quantum a feature of
      2 is moved back onto the grid by the first variant and left two
      quanta out by the second, whose clamp catches only `grain` itself. */
  lemma QueryLocationsDiffer()
    ensures Ece.QueryLocation([Some(2.0)], 1) == [0]
    ensures Eec.QueryLocation([2.0], 1) == [2]
    ensures InGrid(Ece.QueryLocation([Some(2.0)], 1), 1) && !InGrid(Eec.QueryLocation([2.0], 1), 1)
  {
    assert Ece.QueryLocation([Some(2.0)], 1)[0] == 0;
    assert Eec.QueryLocation([2.0], 1)[0] == Eec.ClampCoordinate(Trunc(2.0), 1) == 2;
  }

  /** The second variant's three participations weigh the support exactly
      as the first variant's voting methods of the same name. */
  lemma SameParticipation(p: Eec.Participation, support: seq<real>, theta: real, thetas: seq<real>,
                          saturation: real)
    requires |thetas| == |support|
    ensures Eec.Contribution(p, support, theta, thetas)
      == Ece.Contribution(match p
                          case Lone => Ece.Lone
                          case Theta1 => Ece.Theta1
                          case Theta2 => Ece.Theta2, support, theta, thetas, saturation)
  {
  }
}
