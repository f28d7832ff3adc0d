/** Drop-vector precomputation (`dropVectors`, identical in both variants).
    An odometer-style counter `v` walks the integer hypercube [-r, r]^d, with
    r the quantised radius; every point closer to the centre than r is kept
    with the linear falloff weight (r - |p|) / r. */
module Drops {
  import opened Basics
  import opened Position

  /** An offset from the sample's cell and the share of influence it carries. */
  datatype DropVector = DropVector(offset: seq<int>, weight: real)

  /** What the model relies on of `math.sqrt`: on non-negative arguments it
      returns the non-negative square root. */
  ghost predicate IsSqrt(sqrt: real -> real)
  {
    RootNonNegative(sqrt) && forall x: real :: x >= 0.0 ==> sqrt(x) * sqrt(x) == x
  }

  /** The part of IsSqrt the enumeration itself needs: the root is never
      negative, so a point inside the radius has a positive radius. */
  ghost predicate RootNonNegative(sqrt: real -> real)
  {
    forall x: real :: x >= 0.0 ==> sqrt(x) >= 0.0
  }

  /** The radius in quanta: radius * grain, truncated. */
  function QuantizedRadius(radius: real, grain: nat): (r: int)
    ensures radius >= 0.0 ==> r >= 0
  {
    Trunc(radius * grain as real)
  }

  /** Squared Euclidean length of an integer vector. */
  function SumSq(p: seq<int>): (r: int)
    ensures r >= 0
  {
    if |p| == 0 then 0 else SumSq(p[..|p| - 1]) + p[|p| - 1] * p[|p| - 1]
  }

  function Negated(p: seq<int>): (q: seq<int>)
    ensures |q| == |p|
  {
    seq(|p|, k requires 0 <= k < |p| => -p[k])
  }

  /** Every coordinate lies in [-r, r]. */
  predicate InCube(p: seq<int>, r: int)
  {
    forall j :: 0 <= j < |p| ==> -r <= p[j] <= r
  }

  /** The point the counter stands for at step i: the base-(2r+1) digits of
      i, each shifted by the `beginning` coordinate -r. */
  function Point(i: nat, r: nat, d: nat): (p: seq<int>)
    ensures |p| == d
  {
    seq(d, j requires 0 <= j < d => Digit(i, 2 * r + 1, j) - r)
  }

  /** Euclidean distance of p from the centre. */
  function Norm(p: seq<int>, sqrt: real -> real): real
  {
    sqrt(SumSq(p) as real)
  }

  /** The weight of a point strictly inside the radius: how far inside it
      lies, as a fraction of the radius. */
  function Weight(p: seq<int>, r: nat, sqrt: real -> real): real
    requires RootNonNegative(sqrt) && Norm(p, sqrt) < r as real
  {
    (r as real - Norm(p, sqrt)) / r as real
  }

  /** The list `base_vectors` after the first n counter steps. */
  function DropsUpTo(d: nat, r: nat, sqrt: real -> real, n: nat): seq<DropVector>
    requires RootNonNegative(sqrt)
  {
    if n == 0 then []
    else
      var p := Point(n - 1, r, d);
      DropsUpTo(d, r, sqrt, n - 1)
        + (if Norm(p, sqrt) < r as real then [DropVector(p, Weight(p, r, sqrt))] else [])
  }

  /** The complete list: all (2r+1)^d counter steps. */
  function AllDrops(d: nat, r: nat, sqrt: real -> real): seq<DropVector>
    requires RootNonNegative(sqrt)
  {
    DropsUpTo(d, r, sqrt, Pow(2 * r + 1, d))
  }

  /** The counter component j before step i (-1 before the first step). */
  function Previous(i: nat, b: nat, j: nat): int
    requires b > 0
  {
    if i == 0 then -1 else Digit(i - 1, b, j)
  }

  /** The whole counter vector `v` before step i. */
  function Counter(i: nat, b: nat, d: nat): (v: seq<int>)
    requires b > 0
    ensures |v| == d
  {
    seq(d, j requires 0 <= j < d => Previous(i, b, j))
  }

  /** One component update of the counter turns the digit of step i-1 into
      the digit of step i. */
  lemma CounterStep(i: nat, b: nat, j: nat)
    requires b > 0
    ensures var inc := if i % Pow(b, j) == 0 then Previous(i, b, j) + 1 else Previous(i, b, j);
            (if inc == b then 0 else inc) == Digit(i, b, j)
  {
    var z := Pow(b, j);
    if i == 0 {
      assert 0 % z == 0 && 0 / z == 0;
    } else {
      DivStep(i, z);
      ModSucc((i - 1) / z, b);
    }
  }

  /** The state of the counter loop before step i: `v` is the counter and
      `baseVectors` what the first i steps kept. */
  ghost predicate Enumerated(v: seq<int>, baseVectors: seq<DropVector>, i: nat, d: nat, r: nat,
                             sqrt: real -> real)
    requires RootNonNegative(sqrt)
  {
    v == Counter(i, 2 * r + 1, d) && baseVectors == DropsUpTo(d, r, sqrt, i)
  }

  /** `dropVectors()`: the counter loop. Before step i, component j of `v`
      holds digit j of i - 1 in base `diameter`, so step i visits Point(i). */
  method DropVectors(d: nat, grain: nat, radius: real, sqrt: real -> real)
      returns (baseVectors: seq<DropVector>)
    requires radius >= 0.0
    requires RootNonNegative(sqrt)
    ensures baseVectors == AllDrops(d, QuantizedRadius(radius, grain), sqrt)
  {
    var centre := Repeat(0, d);
    var r: nat := QuantizedRadius(radius, grain);
    var beginning := Repeat(-(r as int), d);
    baseVectors := Sweep(centre, r, beginning, sqrt);
  }

  /** The counter loop proper, over the (2r+1)^d points of the cube. */
  method Sweep(centre: seq<int>, r: nat, beginning: seq<int>, sqrt: real -> real)
      returns (baseVectors: seq<DropVector>)
    requires RootNonNegative(sqrt)
    requires |centre| == |beginning|
    requires forall k :: 0 <= k < |beginning| ==> beginning[k] == -(r as int) && centre[k] == 0
    ensures baseVectors == AllDrops(|centre|, r, sqrt)
  {
    var d := |centre|;
    baseVectors := [];
    var diameter := 2 * r + 1;
    var v := Repeat(-1, d);
    var z := Powers(diameter, d);
    var total := Pow(diameter, d);
    var i := 0;
    while i < total
      invariant 0 <= i <= total
      invariant Enumerated(v, baseVectors, i, d, r, sqrt)
    {
      v, baseVectors := Visit(v, i, z, beginning, centre, r, sqrt, baseVectors);
      i := i + 1;
    }
  }

  /** The body of the counter loop at step i: advance `v`, then keep the
      point it denotes when it lies inside the radius. */
  method Visit(v: seq<int>, i: nat, z: seq<int>, beginning: seq<int>, centre: seq<int>, r: nat,
               sqrt: real -> real, baseVectors: seq<DropVector>)
      returns (v': seq<int>, baseVectors': seq<DropVector>)
    requires RootNonNegative(sqrt)
    requires |v| == |z| == |beginning| == |centre|
    requires forall k :: 0 <= k < |z| ==> z[k] == Pow(2 * r + 1, k)
    requires forall k :: 0 <= k < |v| ==> beginning[k] == -(r as int) && centre[k] == 0
    requires Enumerated(v, baseVectors, i, |v|, r, sqrt)
    ensures Enumerated(v', baseVectors', i + 1, |v|, r, sqrt)
  {
    v' := Advance(v, i, z, 2 * r + 1);
    var point, distance := Measure(v', beginning, centre, i, r, sqrt);
    baseVectors' := baseVectors;
    if distance < r as real {
      baseVectors' := baseVectors' + [DropVector(point, (r as real - distance) / r as real)];
    }
    assert v' == Counter(i + 1, 2 * r + 1, |v|);
  }

  /** The point a counter value stands for, and its distance from the centre. */
  method Measure(v: seq<int>, beginning: seq<int>, centre: seq<int>, ghost i: nat, r: nat,
                 sqrt: real -> real) returns (point: seq<int>, distance: real)
    requires |v| == |beginning| == |centre|
    requires v == Decode(i, 2 * r + 1, |v|)
    requires forall k :: 0 <= k < |v| ==> beginning[k] == -(r as int) && centre[k] == 0
    ensures point == Point(i, r, |v|)
    ensures distance == Norm(point, sqrt)
  {
    var d := |v|;
    point := seq(d, k requires 0 <= k < d => v[k] + beginning[k]);
    var diff := seq(d, k requires 0 <= k < d => centre[k] - point[k]);
    assert diff == Negated(point);
    SumSqNegated(point);
    distance := sqrt(SumSq(diff) as real);
  }

  /** One step of the counter: every component j whose period `z[j]`
      divides i moves on by one, wrapping from `diameter` to 0. */
  method Advance(v: seq<int>, i: nat, z: seq<int>, diameter: nat) returns (w: seq<int>)
    requires diameter > 0 && |v| == |z|
    requires forall k :: 0 <= k < |z| ==> z[k] == Pow(diameter, k)
    requires v == Counter(i, diameter, |v|)
    ensures w == Decode(i, diameter, |v|)
  {
    w := v;
    var j := 0;
    while j < |z|
      invariant 0 <= j <= |z| && |w| == |z|
      invariant forall k :: 0 <= k < j ==> w[k] == Digit(i, diameter, k)
      invariant forall k :: j <= k < |z| ==> w[k] == Previous(i, diameter, k)
    {
      CounterStep(i, diameter, j);
      if i % z[j] == 0 {
        w := w[j := w[j] + 1];
      }
      if w[j] == diameter {
        w := w[j := 0];
      }
      j := j + 1;
    }
  }

  /** Negation leaves the squared length unchanged. */
  lemma {:induction false} SumSqNegated(p: seq<int>)
    ensures SumSq(Negated(p)) == SumSq(p)
  {
    if |p| > 0 {
      var n := |p| - 1;
      assert Negated(p)[..n] == Negated(p[..n]);
      SumSqNegated(p[..n]);
    }
  }

  /** The distance test `sqrt(s) < r` is the integer test `s < r * r`. */
  lemma KeptIff(p: seq<int>, r: nat, sqrt: real -> real)
    requires IsSqrt(sqrt)
    ensures Norm(p, sqrt) >= 0.0
    ensures Norm(p, sqrt) < r as real <==> SumSq(p) < r * r
  {
    var s := SumSq(p) as real;
    var t := sqrt(s);
    assert t >= 0.0 && t * t == s;
    var rr := r as real;
    assert (r * r) as real == rr * rr;
    SquareLess(t, rr);
  }

  /** A kept point's weight (r - t) / r lies in (0, 1]. */
  lemma FalloffBounds(t: real, r: real)
    requires 0.0 <= t < r
    ensures 0.0 < (r - t) / r <= 1.0
  {
  }

  lemma FullWeight(t: real, r: real)
    requires t == 0.0 && r > 0.0
    ensures (r - t) / r == 1.0
  {
  }

  /** A counter point lies in the cube [-r, r]^d. */
  lemma PointInCube(i: nat, r: nat, d: nat)
    ensures InCube(Point(i, r, d), r)
  {
  }

  /** The shift of a cube point into [0, 2r]^d. */
  function Lift(p: seq<int>, r: nat): (q: seq<int>)
    ensures |q| == |p|
  {
    seq(|p|, k requires 0 <= k < |p| => p[k] + r)
  }

  /** Every point of the cube is visited by some step in [0, (2r+1)^d). */
  lemma CubePoint(p: seq<int>, r: nat)
    requires InCube(p, r)
    ensures 0 <= Encode(Lift(p, r), 2 * r + 1) < Pow(2 * r + 1, |p|)
    ensures Point(Encode(Lift(p, r), 2 * r + 1), r, |p|) == p
  {
    var b := 2 * r + 1;
    var q := Lift(p, r);
    assert InGrid(q, b);
    EncodeBound(q, b);
    DecodeEncode(q, b);
    var e := Encode(q, b);
    forall j | 0 <= j < |p| ensures Point(e, r, |p|)[j] == p[j] {
      assert Decode(e, b, |p|)[j] == q[j];
    }
  }

  /** Different steps visit different points. */
  lemma PointInjective(i: nat, k: nat, r: nat, d: nat)
    requires i < Pow(2 * r + 1, d) && k < Pow(2 * r + 1, d)
    requires Point(i, r, d) == Point(k, r, d)
    ensures i == k
  {
    var b := 2 * r + 1;
    forall j | 0 <= j < d ensures Decode(i, b, d)[j] == Decode(k, b, d)[j] {
      assert Point(i, r, d)[j] == Point(k, r, d)[j];
    }
    assert Decode(i, b, d) == Decode(k, b, d);
    DecodeInjective(i, k, b, d);
  }

  /** Step i of the counter contributes dv. */
  ghost predicate StepGives(d: nat, r: nat, sqrt: real -> real, i: nat, dv: DropVector)
    requires RootNonNegative(sqrt)
  {
    Norm(Point(i, r, d), sqrt) < r as real
      && dv == DropVector(Point(i, r, d), Weight(Point(i, r, d), r, sqrt))
  }

  /** Whatever the first n steps keep comes from one of those steps. */
  lemma {:induction false} DropsUpToSource(d: nat, r: nat, sqrt: real -> real, n: nat, dv: DropVector)
      returns (i: nat)
    requires RootNonNegative(sqrt)
    requires dv in DropsUpTo(d, r, sqrt, n)
    ensures i < n && StepGives(d, r, sqrt, i, dv)
  {
    var prev := DropsUpTo(d, r, sqrt, n - 1);
    if dv in prev {
      i := DropsUpToSource(d, r, sqrt, n - 1, dv);
    } else {
      i := n - 1;
    }
  }

  /** Every kept offset has d coordinates. */
  lemma AllDropsDimensioned(d: nat, r: nat, sqrt: real -> real)
    requires RootNonNegative(sqrt)
    ensures forall k :: 0 <= k < |AllDrops(d, r, sqrt)| ==> |AllDrops(d, r, sqrt)[k].offset| == d
  {
    forall k | 0 <= k < |AllDrops(d, r, sqrt)| ensures |AllDrops(d, r, sqrt)[k].offset| == d {
      var i := DropsUpToSource(d, r, sqrt, Pow(2 * r + 1, d), AllDrops(d, r, sqrt)[k]);
    }
  }

  /** Every point a step inside the radius visits is kept by the first n steps. */
  lemma {:induction false} DropsUpToKeeps(d: nat, r: nat, sqrt: real -> real, n: nat, i: nat, dv: DropVector)
    requires RootNonNegative(sqrt)
    requires i < n && StepGives(d, r, sqrt, i, dv)
    ensures dv in DropsUpTo(d, r, sqrt, n)
  {
    if i < n - 1 {
      DropsUpToKeeps(d, r, sqrt, n - 1, i, dv);
    }
  }

  /** The drop-vector list holds exactly the offsets p in [-r, r]^d whose
      norm is below r (equivalently `SumSq(p) < r * r`), each paired with the
      weight (r - |p|) / r. */
  lemma DropVectorsMember(d: nat, r: nat, sqrt: real -> real, dv: DropVector)
    requires IsSqrt(sqrt)
    ensures dv in AllDrops(d, r, sqrt) <==>
      |dv.offset| == d && InCube(dv.offset, r) && SumSq(dv.offset) < r * r
        && Norm(dv.offset, sqrt) < r as real && dv.weight == Weight(dv.offset, r, sqrt)
  {
    var n := Pow(2 * r + 1, d);
    KeptIff(dv.offset, r, sqrt);
    if dv in AllDrops(d, r, sqrt) {
      var i := DropsUpToSource(d, r, sqrt, n, dv);
      PointInCube(i, r, d);
    }
    if |dv.offset| == d && InCube(dv.offset, r) && Norm(dv.offset, sqrt) < r as real
      && dv.weight == Weight(dv.offset, r, sqrt) {
      CubePoint(dv.offset, r);
      var e := Encode(Lift(dv.offset, r), 2 * r + 1);
      assert Point(e, r, d) == dv.offset;
      assert StepGives(d, r, sqrt, e, dv);
      DropsUpToKeeps(d, r, sqrt, n, e, dv);
    }
  }

  /** Every weight lies in (0, 1]. */
  lemma WeightBounds(d: nat, r: nat, sqrt: real -> real, dv: DropVector)
    requires IsSqrt(sqrt)
    requires dv in AllDrops(d, r, sqrt)
    ensures 0.0 < dv.weight <= 1.0
  {
    DropVectorsMember(d, r, sqrt, dv);
    FalloffBounds(Norm(dv.offset, sqrt), r as real);
  }

  /** Every weight of the list lies in (0, 1]. */
  lemma AllDropsWeights(d: nat, r: nat, sqrt: real -> real)
    requires IsSqrt(sqrt)
    ensures forall k :: 0 <= k < |AllDrops(d, r, sqrt)| ==> 0.0 < AllDrops(d, r, sqrt)[k].weight <= 1.0
  {
    forall k | 0 <= k < |AllDrops(d, r, sqrt)| ensures 0.0 < AllDrops(d, r, sqrt)[k].weight <= 1.0 {
      WeightBounds(d, r, sqrt, AllDrops(d, r, sqrt)[k]);
    }
  }

  /** The list is symmetric under negation: (-p, w) is present with (p, w). */
  lemma DropsSymmetric(d: nat, r: nat, sqrt: real -> real, dv: DropVector)
    requires IsSqrt(sqrt)
    requires dv in AllDrops(d, r, sqrt)
    ensures DropVector(Negated(dv.offset), dv.weight) in AllDrops(d, r, sqrt)
  {
    DropVectorsMember(d, r, sqrt, dv);
    var neg := DropVector(Negated(dv.offset), dv.weight);
    SumSqNegated(dv.offset);
    DropVectorsMember(d, r, sqrt, neg);
  }

  /** No offset is listed twice: each point is visited by one step only. */
  lemma {:induction false} DropsUpToDistinct(d: nat, r: nat, sqrt: real -> real, n: nat)
    requires IsSqrt(sqrt)
    requires n <= Pow(2 * r + 1, d)
    ensures forall a, b :: 0 <= a < b < |DropsUpTo(d, r, sqrt, n)| ==>
      DropsUpTo(d, r, sqrt, n)[a].offset != DropsUpTo(d, r, sqrt, n)[b].offset
  {
    if n > 0 {
      DropsUpToDistinct(d, r, sqrt, n - 1);
      var prev := DropsUpTo(d, r, sqrt, n - 1);
      var all := DropsUpTo(d, r, sqrt, n);
      var p := Point(n - 1, r, d);
      if Norm(p, sqrt) < r as real {
        assert all == prev + [DropVector(p, Weight(p, r, sqrt))];
        forall a | 0 <= a < |prev| ensures prev[a].offset != p {
          var i := DropsUpToSource(d, r, sqrt, n - 1, prev[a]);
          if prev[a].offset == p {
            PointInjective(i, n - 1, r, d);
          }
        }
      } else {
        assert all == prev;
      }
    }
  }

  lemma AllDropsDistinct(d: nat, r: nat, sqrt: real -> real)
    requires IsSqrt(sqrt)
    ensures forall a, b :: 0 <= a < b < |AllDrops(d, r, sqrt)| ==>
      AllDrops(d, r, sqrt)[a].offset != AllDrops(d, r, sqrt)[b].offset
  {
    DropsUpToDistinct(d, r, sqrt, Pow(2 * r + 1, d));
  }

  /** With r >= 1 the centre itself is kept, with full weight 1. */
  lemma OriginKept(d: nat, r: nat, sqrt: real -> real)
    requires IsSqrt(sqrt) && r >= 1
    ensures DropVector(seq(d, _ => 0), 1.0) in AllDrops(d, r, sqrt)
  {
    var o := seq(d, _ => 0);
    SumSqZero(o);
    var t := sqrt(0.0);
    SquareZero(t);
    assert Norm(o, sqrt) == 0.0;
    MulAtLeast(r, r);
    assert InCube(o, r) && SumSq(o) < r * r;
    FullWeight(Norm(o, sqrt), r as real);
    DropVectorsMember(d, r, sqrt, DropVector(o, 1.0));
  }

  lemma {:induction false} SumSqZero(p: seq<int>)
    requires forall k :: 0 <= k < |p| ==> p[k] == 0
    ensures SumSq(p) == 0
  {
    if |p| > 0 {
      SumSqZero(p[..|p| - 1]);
    }
  }

  lemma {:induction false} PowOne(d: nat)
    ensures Pow(1, d) == 1
  {
    if d > 0 {
      PowOne(d - 1);
    }
  }

  /** With r = 0 nothing is kept: the single point visited is the centre,
      whose distance 0 is not below 0. */
  lemma ZeroRadiusEmpty(d: nat, sqrt: real -> real)
    requires IsSqrt(sqrt)
    ensures AllDrops(d, 0, sqrt) == []
  {
    PowOne(d);
    KeptIff(Point(0, 0, d), 0, sqrt);
    assert DropsUpTo(d, 0, sqrt, 0) == [];
  }
}
