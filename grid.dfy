/** The exposer grid: a flat list of `grain^d` cells, each holding one
    support value per class. Training drops every sample's influence onto the
    cells around its quantised location (skipping cells beyond the edge), and
    normalisation divides each class column by its maximum. Both variants
    share this code; they differ only in which samples they feed it. */
module Grid {
  import opened Basics
  import opened Position
  import opened Drops

  /** The base influence, from which the distance between the quantised and
      the exact location is subtracted. */
  const InfluenceBase: real := 5.0

  /** Row i is cell i of the grid, column c is class c. */
  type Matrix = seq<seq<real>>

  predicate Shaped(m: Matrix, width: nat, height: nat)
  {
    |m| == width && forall i :: 0 <= i < |m| ==> |m[i]| == height
  }

  /** A grid of width cells holding height zeros each. */
  function Zeros(width: nat, height: nat): (m: Matrix)
    ensures Shaped(m, width, height)
    ensures forall i, c :: 0 <= i < width && 0 <= c < height ==> m[i][c] == 0.0
  {
    seq(width, _ => seq(height, _ => 0.0))
  }

  /** Adding x to one entry: exactly that entry changes, by x. */
  function AddAt(m: Matrix, pos: nat, cls: nat, x: real): (r: Matrix)
    requires pos < |m| && cls < |m[pos]|
    ensures |r| == |m| && forall i :: 0 <= i < |m| ==> |r[i]| == |m[i]|
    ensures forall i, c :: 0 <= i < |m| && 0 <= c < |m[i]| ==>
      r[i][c] == m[i][c] + (if i == pos && c == cls then x else 0.0)
  {
    m[pos := m[pos][cls := m[pos][cls] + x]]
  }

  /** Python's list indexing `m[pos]`: a negative index counts from the end. */
  function PyIndex(pos: int, width: nat): (i: nat)
    requires -(width as int) <= pos < width
    ensures i < width
    ensures pos >= 0 ==> i == pos
    ensures pos < 0 ==> i == pos + width
  {
    if pos < 0 then pos + width else pos
  }

  /** A drop vector's offset moved to a quantised location, axis by axis. */
  function Shift(offset: seq<int>, loc: seq<int>): (v: seq<int>)
    requires |offset| == |loc|
    ensures |v| == |loc|
  {
    seq(|loc|, k requires 0 <= k < |loc| => offset[k] + loc[k])
  }

  /** Every row is long enough to hold the label column. */
  predicate HasColumn(m: Matrix, cls: nat)
  {
    forall i :: 0 <= i < |m| ==> cls < |m[i]|
  }

  /** All drop-vector offsets have the grid's dimension. */
  predicate Dimensioned(dvs: seq<DropVector>, d: nat)
  {
    forall k :: 0 <= k < |dvs| ==> |dvs[k].offset| == d
  }

  /** A drop vector's influence: its weight times the sample's correcting factor. */
  function Influence(dv: DropVector, factor: real): real
  {
    dv.weight * factor
  }

  /** The influence of every drop vector. */
  function Influences(dvs: seq<DropVector>, factor: real): (a: seq<real>)
    ensures |a| == |dvs|
    ensures forall k :: 0 <= k < |dvs| ==> a[k] == Influence(dvs[k], factor)
  {
    seq(|dvs|, k requires 0 <= k < |dvs| => Influence(dvs[k], factor))
  }

  /** The grid after the drop vectors dvs of one sample quantised at loc,
      drop vector k carrying the influence amount[k]: each shifted cell inside
      [0, grain)^d gains its influence in the label column; shifted cells
      outside are skipped. */
  function Deposit(m: Matrix, dvs: seq<DropVector>, loc: seq<int>, cls: nat, amount: seq<real>,
                   grain: nat): (r: Matrix)
    requires grain > 0 && |m| == Pow(grain, |loc|) && HasColumn(m, cls)
    requires Dimensioned(dvs, |loc|) && |amount| == |dvs|
    ensures |r| == |m| && forall i :: 0 <= i < |m| ==> |r[i]| == |m[i]|
  {
    if |dvs| == 0 then m
    else
      var n := |dvs| - 1;
      var prev := Deposit(m, dvs[..n], loc, cls, amount[..n], grain);
      var vector := Shift(dvs[n].offset, loc);
      if InGrid(vector, grain) then
        EncodeBound(vector, grain);
        AddAt(prev, Encode(vector, grain), cls, amount[n])
      else prev
  }

  /** The overflow test of the drop loop: any coordinate outside [0, grain). */
  method Overflows(vector: seq<int>, grain: int) returns (overflow: bool)
    ensures overflow <==> !InGrid(vector, grain)
  {
    overflow := false;
    var i := 0;
    while i < |vector|
      invariant 0 <= i <= |vector|
      invariant overflow <==> exists k :: 0 <= k < i && !(0 <= vector[k] < grain)
    {
      if vector[i] < 0 || vector[i] >= grain {
        overflow := true;
      }
      i := i + 1;
    }
  }

  /** The drop loop for one sample: every drop vector whose shifted cell does
      not overflow adds its influence to that cell's entry for the label. */
  method DepositAll(m: Matrix, dvs: seq<DropVector>, loc: seq<int>, cls: nat, factor: real,
                    grain: nat, g: seq<int>) returns (model: Matrix)
    requires grain > 0 && |m| == Pow(grain, |loc|) && HasColumn(m, cls)
    requires Dimensioned(dvs, |loc|)
    requires |g| == |loc| && forall i :: 0 <= i < |g| ==> g[i] == Pow(grain, i)
    ensures model == Deposit(m, dvs, loc, cls, Influences(dvs, factor), grain)
  {
    ghost var amount := Influences(dvs, factor);
    model := m;
    var n := 0;
    while n < |dvs|
      invariant 0 <= n <= |dvs|
      invariant model == Deposit(m, dvs[..n], loc, cls, amount[..n], grain)
    {
      assert dvs[..n + 1][..n] == dvs[..n];
      assert amount[..n + 1][..n] == amount[..n];
      var dropVector := dvs[n];
      var vector := Shift(dropVector.offset, loc);
      var overflow := Overflows(vector, grain);
      ghost var prev := model;
      if !overflow {
        var influence := Influence(dropVector, factor);
        var position := Position.Position(vector, g, grain);
        model := model[position := model[position][cls := model[position][cls] + influence]];
        assert model == AddAt(prev, position, cls, influence);
        assert influence == amount[n];
        assert InGrid(vector, grain) && position == Encode(vector, grain);
      }
      DepositNext(m, dvs, loc, cls, amount, grain, n);
      n := n + 1;
    }
    assert dvs[..|dvs|] == dvs;
    assert amount[..|dvs|] == amount;
  }

  /** Deposit over the first n + 1 drop vectors, from the first n. */
  lemma DepositNext(m: Matrix, dvs: seq<DropVector>, loc: seq<int>, cls: nat, amount: seq<real>,
                    grain: nat, n: nat)
    requires grain > 0 && |m| == Pow(grain, |loc|) && HasColumn(m, cls)
    requires Dimensioned(dvs, |loc|) && |amount| == |dvs| && n < |dvs|
    ensures var v := Shift(dvs[n].offset, loc);
            var prev := Deposit(m, dvs[..n], loc, cls, amount[..n], grain);
            var next := Deposit(m, dvs[..n + 1], loc, cls, amount[..n + 1], grain);
            (InGrid(v, grain) ==> 0 <= Encode(v, grain) < |m| && next == AddAt(prev, Encode(v, grain), cls, amount[n]))
            && (!InGrid(v, grain) ==> next == prev)
  {
    assert dvs[..n + 1][..n] == dvs[..n];
    assert amount[..n + 1][..n] == amount[..n];
    var v := Shift(dvs[n].offset, loc);
    if InGrid(v, grain) {
      EncodeBound(v, grain);
    }
  }

  /** The chosen features exist in the sample's feature vector. */
  predicate Selectable<T>(features: seq<T>, chosenLambda: seq<nat>)
  {
    forall k :: 0 <= k < |chosenLambda| ==> chosenLambda[k] < |features|
  }

  /** The features picked out by chosenLambda, in its order. */
  function Selected<T>(features: seq<T>, chosenLambda: seq<nat>): (f: seq<T>)
    requires Selectable(features, chosenLambda)
    ensures |f| == |chosenLambda|
    ensures forall k :: 0 <= k < |f| ==> f[k] == features[chosenLambda[k]]
  {
    seq(|chosenLambda|, k requires 0 <= k < |chosenLambda| => features[chosenLambda[k]])
  }

  /** The exact location of a sample: every feature scaled by grain. */
  function Location(features: seq<real>, grain: nat): (loc: seq<real>)
    ensures |loc| == |features|
  {
    seq(|features|, k requires 0 <= k < |features| => features[k] * grain as real)
  }

  /** The quantised location: every coordinate truncated toward zero. */
  function Quantized(loc: seq<real>): (q: seq<int>)
    ensures |q| == |loc|
  {
    seq(|loc|, k requires 0 <= k < |loc| => Trunc(loc[k]))
  }

  /** The per-axis gap between the quantised and the exact location. */
  function Gap(loc: seq<real>): (e: seq<real>)
    ensures |e| == |loc|
  {
    seq(|loc|, k requires 0 <= k < |loc| => Quantized(loc)[k] as real - loc[k])
  }

  /** The correcting factor: 5 less the euclidean distance between the
      quantised and the exact location. */
  function Factor(features: seq<real>, grain: nat, sqrt: real -> real): real
  {
    InfluenceBase - sqrt(SumSquares(Gap(Location(features, grain))))
  }

  /** The grid after exposing it to one sample with these (selected) features. */
  function Exposed(m: Matrix, dvs: seq<DropVector>, features: seq<real>, cls: nat, grain: nat,
                   sqrt: real -> real): (r: Matrix)
    requires grain > 0 && |m| == Pow(grain, |features|) && HasColumn(m, cls)
    requires Dimensioned(dvs, |features|)
    ensures |r| == |m| && forall i :: 0 <= i < |m| ==> |r[i]| == |m[i]|
  {
    Deposit(m, dvs, Quantized(Location(features, grain)), cls,
            Influences(dvs, Factor(features, grain, sqrt)), grain)
  }

  /** One sample's pass of the training loop: locate, quantise, compute the
      correcting factor, then run the drop loop. It adds nothing to
      `Exposed` but the connection of the `DepositAll` loop to it. */
  method Expose(m: Matrix, dvs: seq<DropVector>, features: seq<real>, cls: nat, grain: nat,
                g: seq<int>, sqrt: real -> real) returns (model: Matrix)
    requires grain > 0 && |m| == Pow(grain, |features|) && HasColumn(m, cls)
    requires Dimensioned(dvs, |features|)
    requires |g| == |features| && forall i :: 0 <= i < |g| ==> g[i] == Pow(grain, i)
    ensures model == Exposed(m, dvs, features, cls, grain, sqrt)
  {
    var location := Location(features, grain);
    var locationI := Quantized(location);
    var distance := sqrt(SumSquares(Gap(location)));
    var factor := InfluenceBase - distance;
    assert factor == Factor(features, grain, sqrt);
    model := DepositAll(m, dvs, locationI, cls, factor, grain, g);
  }

  /** Some drop vector of dvs, shifted to loc, lands inside the grid on cell i. */
  ghost predicate Lands(dvs: seq<DropVector>, loc: seq<int>, grain: nat, i: int)
    requires Dimensioned(dvs, |loc|)
  {
    exists k :: 0 <= k < |dvs| && InGrid(Shift(dvs[k].offset, loc), grain)
      && Encode(Shift(dvs[k].offset, loc), grain) == i
  }

  /** No two drop vectors share an offset. */
  predicate DistinctOffsets(dvs: seq<DropVector>)
  {
    forall a, b :: 0 <= a < b < |dvs| ==> dvs[a].offset != dvs[b].offset
  }

  lemma ShiftInjective(a: seq<int>, b: seq<int>, loc: seq<int>)
    requires |a| == |b| == |loc|
    requires Shift(a, loc) == Shift(b, loc)
    ensures a == b
  {
    forall k | 0 <= k < |a| ensures a[k] == b[k] {
      assert Shift(a, loc)[k] == Shift(b, loc)[k];
    }
  }

  /** Two distinct offsets that both land inside the grid land on distinct cells. */
  lemma DistinctCells(a: seq<int>, b: seq<int>, loc: seq<int>, grain: nat)
    requires grain > 0 && |a| == |b| == |loc| && a != b
    requires InGrid(Shift(a, loc), grain) && InGrid(Shift(b, loc), grain)
    ensures Encode(Shift(a, loc), grain) != Encode(Shift(b, loc), grain)
  {
    if Encode(Shift(a, loc), grain) == Encode(Shift(b, loc), grain) {
      EncodeInjective(Shift(a, loc), Shift(b, loc), grain);
      ShiftInjective(a, b, loc);
    }
  }

  /** Unfolding Deposit by its last drop vector, at one entry. */
  lemma DepositStepAt(m: Matrix, dvs: seq<DropVector>, loc: seq<int>, cls: nat, amount: seq<real>,
                      grain: nat, i: nat, c: nat)
    requires grain > 0 && |m| == Pow(grain, |loc|) && HasColumn(m, cls)
    requires Dimensioned(dvs, |loc|) && |amount| == |dvs| && |dvs| > 0
    requires i < |m| && c < |m[i]|
    ensures var last := Shift(dvs[|dvs| - 1].offset, loc);
            Deposit(m, dvs, loc, cls, amount, grain)[i][c]
              == Deposit(m, dvs[..|dvs| - 1], loc, cls, amount[..|dvs| - 1], grain)[i][c]
                 + (if InGrid(last, grain) && Encode(last, grain) == i && c == cls
                    then amount[|dvs| - 1] else 0.0)
  {
    var last := Shift(dvs[|dvs| - 1].offset, loc);
    if InGrid(last, grain) {
      EncodeBound(last, grain);
    }
  }

  /** An entry that no drop vector lands on keeps its value. */
  lemma {:induction false} DepositUntouched(m: Matrix, dvs: seq<DropVector>, loc: seq<int>, cls: nat,
                                            amount: seq<real>, grain: nat, i: nat, c: nat)
    requires grain > 0 && |m| == Pow(grain, |loc|) && HasColumn(m, cls)
    requires Dimensioned(dvs, |loc|) && |amount| == |dvs|
    requires i < |m| && c < |m[i]| && (c != cls || !Lands(dvs, loc, grain, i))
    ensures Deposit(m, dvs, loc, cls, amount, grain)[i][c] == m[i][c]
  {
    if |dvs| > 0 {
      var n := |dvs| - 1;
      var front := dvs[..n];
      DepositStepAt(m, dvs, loc, cls, amount, grain, i, c);
      assert c != cls || !Lands(front, loc, grain, i);
      DepositUntouched(m, front, loc, cls, amount[..n], grain, i, c);
    }
  }

  /** With distinct offsets, an in-grid drop vector adds exactly
      its influence to the label entry of its cell. */
  lemma {:induction false} DepositLanded(m: Matrix, dvs: seq<DropVector>, loc: seq<int>, cls: nat,
                                         amount: seq<real>, grain: nat, k: nat)
    requires grain > 0 && |m| == Pow(grain, |loc|) && HasColumn(m, cls)
    requires Dimensioned(dvs, |loc|) && |amount| == |dvs| && DistinctOffsets(dvs)
    requires k < |dvs| && InGrid(Shift(dvs[k].offset, loc), grain)
    ensures 0 <= Encode(Shift(dvs[k].offset, loc), grain) < |m|
    ensures var p := Encode(Shift(dvs[k].offset, loc), grain);
            Deposit(m, dvs, loc, cls, amount, grain)[p][cls] == m[p][cls] + amount[k]
  {
    var n := |dvs| - 1;
    var front := dvs[..n];
    var vector := Shift(dvs[k].offset, loc);
    EncodeBound(vector, grain);
    var p := Encode(vector, grain);
    DepositStepAt(m, dvs, loc, cls, amount, grain, p, cls);
    if k == n {
      assert !Lands(front, loc, grain, p) by {
        if Lands(front, loc, grain, p) {
          var j :| 0 <= j < n && InGrid(Shift(front[j].offset, loc), grain)
            && Encode(Shift(front[j].offset, loc), grain) == p;
          DistinctCells(dvs[j].offset, dvs[n].offset, loc, grain);
        }
      }
      DepositUntouched(m, front, loc, cls, amount[..n], grain, p, cls);
    } else {
      assert DistinctOffsets(front);
      assert front[k] == dvs[k];
      DepositLanded(m, front, loc, cls, amount[..n], grain, k);
      var last := Shift(dvs[n].offset, loc);
      if InGrid(last, grain) {
        DistinctCells(dvs[k].offset, dvs[n].offset, loc, grain);
      }
    }
  }

  /** The effect of one sample's drop loop, cell by cell: with distinct
      offsets, every in-grid drop vector adds exactly its influence to the
      label entry of its own cell, and every entry no drop vector lands on
      (any other column, or any cell not reached) is unchanged. */
  lemma DepositCells(m: Matrix, dvs: seq<DropVector>, loc: seq<int>, cls: nat, amount: seq<real>, grain: nat)
    requires grain > 0 && |m| == Pow(grain, |loc|) && HasColumn(m, cls)
    requires Dimensioned(dvs, |loc|) && |amount| == |dvs| && DistinctOffsets(dvs)
    ensures forall k :: 0 <= k < |dvs| && InGrid(Shift(dvs[k].offset, loc), grain) ==>
      0 <= Encode(Shift(dvs[k].offset, loc), grain) < |m| &&
      Deposit(m, dvs, loc, cls, amount, grain)[Encode(Shift(dvs[k].offset, loc), grain)][cls]
        == m[Encode(Shift(dvs[k].offset, loc), grain)][cls] + amount[k]
    ensures forall i, c :: 0 <= i < |m| && 0 <= c < |m[i]| && (c != cls || !Lands(dvs, loc, grain, i)) ==>
      Deposit(m, dvs, loc, cls, amount, grain)[i][c] == m[i][c]
  {
    forall k | 0 <= k < |dvs| && InGrid(Shift(dvs[k].offset, loc), grain)
      ensures 0 <= Encode(Shift(dvs[k].offset, loc), grain) < |m| &&
        Deposit(m, dvs, loc, cls, amount, grain)[Encode(Shift(dvs[k].offset, loc), grain)][cls]
          == m[Encode(Shift(dvs[k].offset, loc), grain)][cls] + amount[k]
    {
      DepositLanded(m, dvs, loc, cls, amount, grain, k);
    }
    forall i, c | 0 <= i < |m| && 0 <= c < |m[i]| && (c != cls || !Lands(dvs, loc, grain, i))
      ensures Deposit(m, dvs, loc, cls, amount, grain)[i][c] == m[i][c]
    {
      DepositUntouched(m, dvs, loc, cls, amount, grain, i, c);
    }
  }

  /** The column c of the grid, one entry per cell. */
  function Column(m: Matrix, c: nat): (col: seq<real>)
    requires HasColumn(m, c)
    ensures |col| == |m|
  {
    seq(|m|, i requires 0 <= i < |m| => m[i][c])
  }

  /** The largest entry of a non-empty vector. */
  function MaxOf(s: seq<real>): real
    requires |s| > 0
  {
    if |s| == 1 then s[0]
    else
      var rest := MaxOf(s[..|s| - 1]);
      if s[|s| - 1] > rest then s[|s| - 1] else rest
  }

  /** MaxOf is an upper bound that some entry attains. */
  lemma {:induction false} MaxOfIsMaximum(s: seq<real>)
    requires |s| > 0
    ensures forall k :: 0 <= k < |s| ==> s[k] <= MaxOf(s)
    ensures exists k :: 0 <= k < |s| && s[k] == MaxOf(s)
  {
    if |s| == 1 {
      assert s[0] == MaxOf(s);
    } else {
      var n := |s| - 1;
      var front := s[..n];
      MaxOfIsMaximum(front);
      var k :| 0 <= k < n && front[k] == MaxOf(front);
      assert forall j :: 0 <= j < n ==> s[j] == front[j];
      if s[n] > MaxOf(front) {
        assert s[n] == MaxOf(s);
      } else {
        assert s[k] == MaxOf(s);
      }
    }
  }

  /** An attained upper bound is the maximum. */
  lemma MaxOfUnique(s: seq<real>, x: real, k: nat)
    requires k < |s| && s[k] == x
    requires forall j :: 0 <= j < |s| ==> s[j] <= x
    ensures MaxOf(s) == x
  {
    MaxOfIsMaximum(s);
    var j :| 0 <= j < |s| && s[j] == MaxOf(s);
  }

  /** `np.amax` of a non-empty vector, scanned from the left. */
  method Maximum(s: seq<real>) returns (top: real)
    requires |s| > 0
    ensures top == MaxOf(s)
  {
    top := s[0];
    var i := 1;
    while i < |s|
      invariant 1 <= i <= |s|
      invariant top == MaxOf(s[..i])
    {
      assert s[..i + 1][..i] == s[..i];
      if s[i] > top {
        top := s[i];
      }
      i := i + 1;
    }
    assert s[..|s|] == s;
  }

  /** The maximum of every class column (`np.amax` along axis 0). */
  function ColumnMaxima(m: Matrix, height: nat): (foo: seq<real>)
    requires |m| > 0 && Shaped(m, |m|, height)
    ensures |foo| == height
  {
    seq(height, c requires 0 <= c < height => MaxOf(Column(m, c)))
  }

  /** Every class column divided by its maximum. A column whose maximum is 0 is left
      as it is instead of being divided by zero. */
  function Divided(m: Matrix, foo: seq<real>): (r: Matrix)
    requires Shaped(m, |m|, |foo|)
    ensures Shaped(r, |m|, |foo|)
  {
    seq(|m|, i requires 0 <= i < |m| =>
      seq(|foo|, c requires 0 <= c < |foo| => if foo[c] != 0.0 then m[i][c] / foo[c] else m[i][c]))
  }

  /** The normalised grid. */
  function Normalized(m: Matrix, height: nat): (r: Matrix)
    requires |m| > 0 && Shaped(m, |m|, height)
    ensures Shaped(r, |m|, height)
  {
    Divided(m, ColumnMaxima(m, height))
  }

  /** `normalize()`: compute the column maxima, then divide by them. */
  method Normalize(m: Matrix, height: nat) returns (r: Matrix)
    requires |m| > 0 && Shaped(m, |m|, height)
    ensures r == Normalized(m, height)
  {
    var foo: seq<real> := [];
    var c := 0;
    while c < height
      invariant 0 <= c <= height && |foo| == c
      invariant forall j :: 0 <= j < c ==> foo[j] == MaxOf(Column(m, j))
    {
      var top := Maximum(Column(m, c));
      foo := foo + [top];
      c := c + 1;
    }
    assert foo == ColumnMaxima(m, height);
    r := Divided(m, foo);
  }

  /** Dividing by a positive number keeps the order of two reals. */
  lemma DivideKeepsOrder(a: real, b: real, t: real)
    requires t > 0.0
    ensures a <= b <==> a / t <= b / t
    ensures a < b <==> a / t < b / t
  {
    assert a == (a / t) * t && b == (b / t) * t;
    if a / t <= b / t {
      TimesPositiveLe(a / t, b / t, t);
    }
    if a / t < b / t {
      TimesPositiveLt(a / t, b / t, t);
    }
  }

  lemma TimesPositiveLe(x: real, y: real, t: real)
    requires x <= y && t > 0.0
    ensures x * t <= y * t
  {
    assert y * t - x * t == (y - x) * t;
  }

  lemma TimesPositiveLt(x: real, y: real, t: real)
    requires x < y && t > 0.0
    ensures x * t < y * t
  {
    assert y * t - x * t == (y - x) * t;
  }

  /** What normalisation does to one class column. With a positive maximum
      the column is divided by it: it ends with maximum exactly 1, every
      entry at most 1, and the order of the cells unchanged. With maximum 0
      the column is unchanged. */
  lemma NormalizedColumn(m: Matrix, height: nat, c: nat)
    requires |m| > 0 && Shaped(m, |m|, height) && c < height
    ensures var top := MaxOf(Column(m, c));
            var col := Column(Normalized(m, height), c);
            (top > 0.0 ==>
               MaxOf(col) == 1.0
               && (forall i :: 0 <= i < |m| ==> col[i] <= 1.0)
               && (forall i, j :: 0 <= i < |m| && 0 <= j < |m| ==>
                     (m[i][c] <= m[j][c] <==> col[i] <= col[j])
                     && (m[i][c] < m[j][c] <==> col[i] < col[j])))
            && (top == 0.0 ==> col == Column(m, c))
  {
    var top := MaxOf(Column(m, c));
    var col := Column(Normalized(m, height), c);
    MaxOfIsMaximum(Column(m, c));
    if top > 0.0 {
      forall i | 0 <= i < |m| ensures col[i] <= 1.0 {
        NormalizedEntry(m, height, c, i);
        assert Column(m, c)[i] <= top;
        DivideKeepsOrder(m[i][c], top, top);
      }
      var k :| 0 <= k < |m| && Column(m, c)[k] == top;
      assert col[k] == 1.0 by {
        NormalizedEntry(m, height, c, k);
      }
      MaxOfUnique(col, 1.0, k);
      forall i, j | 0 <= i < |m| && 0 <= j < |m|
        ensures (m[i][c] <= m[j][c] <==> col[i] <= col[j]) && (m[i][c] < m[j][c] <==> col[i] < col[j])
      {
        NormalizedEntry(m, height, c, i);
        NormalizedEntry(m, height, c, j);
        DivideKeepsOrder(m[i][c], m[j][c], top);
      }
    } else if top == 0.0 {
      forall i | 0 <= i < |m| ensures col[i] == Column(m, c)[i] {
        NormalizedEntry(m, height, c, i);
      }
    }
  }

  /** One entry of a normalised column: divided by the column maximum, or
      kept when that maximum is 0. */
  lemma NormalizedEntry(m: Matrix, height: nat, c: nat, i: nat)
    requires |m| > 0 && Shaped(m, |m|, height) && c < height && i < |m|
    ensures var top := MaxOf(Column(m, c));
            Column(m, c)[i] == m[i][c]
            && Column(Normalized(m, height), c)[i] == if top != 0.0 then m[i][c] / top else m[i][c]
  {
    assert ColumnMaxima(m, height)[c] == MaxOf(Column(m, c));
  }

  /** A grid with no negative entry normalises into [0, 1]: a column with a
      positive maximum by the division, a column with maximum 0 because all
      its entries are then 0. */
  lemma NormalizedUnit(m: Matrix, height: nat)
    requires |m| > 0 && Shaped(m, |m|, height)
    requires forall i, c :: 0 <= i < |m| && 0 <= c < height ==> m[i][c] >= 0.0
    ensures forall i, c :: 0 <= i < |m| && 0 <= c < height ==> 0.0 <= Normalized(m, height)[i][c] <= 1.0
  {
    forall i, c | 0 <= i < |m| && 0 <= c < height
      ensures 0.0 <= Normalized(m, height)[i][c] <= 1.0
    {
      var top := MaxOf(Column(m, c));
      assert ColumnMaxima(m, height)[c] == top;
      assert Column(m, c)[i] == m[i][c];
      MaxOfIsMaximum(Column(m, c));
      NormalizedColumn(m, height, c);
      assert Column(Normalized(m, height), c)[i] == Normalized(m, height)[i][c];
      if top > 0.0 {
        DivideKeepsOrder(0.0, m[i][c], top);
      }
    }
  }

  /** Every quantisation gap lies strictly between -1 and 1. */
  lemma GapBelowOne(loc: seq<real>)
    ensures forall k :: 0 <= k < |loc| ==> -1.0 < Gap(loc)[k] < 1.0
  {
    forall k | 0 <= k < |loc| ensures -1.0 < Gap(loc)[k] < 1.0 {
      assert Quantized(loc)[k] == Trunc(loc[k]);
    }
  }

  /** A vector of entries in (-1, 1) has a sum of squares below its length. */
  lemma {:induction false} SquaresBelowLength(e: seq<real>)
    requires forall k :: 0 <= k < |e| ==> -1.0 < e[k] < 1.0
    ensures SumSquares(e) <= |e| as real
  {
    if |e| > 0 {
      var n := |e| - 1;
      SquaresBelowLength(e[..n]);
      var x := e[n];
      if x >= 0.0 {
        MulLess(x, 1.0, x, 1.0);
      } else {
        assert x * x == (-x) * (-x);
        MulLess(-x, 1.0, -x, 1.0);
      }
    }
  }

  /** The correcting factor never exceeds 5, and with at most 25 selected
      features (a gap of length at most 5) it is never negative. */
  lemma FactorBounds(features: seq<real>, grain: nat, sqrt: real -> real)
    requires IsSqrt(sqrt)
    ensures Factor(features, grain, sqrt) <= InfluenceBase
    ensures |features| <= 25 ==> Factor(features, grain, sqrt) >= 0.0
  {
    var e := Gap(Location(features, grain));
    var t := sqrt(SumSquares(e));
    assert t >= 0.0 && t * t == SumSquares(e);
    if |features| <= 25 {
      GapBelowOne(Location(features, grain));
      SquaresBelowLength(e);
      SquareLess(5.0, t);
    }
  }

  /** No entry of the grid is negative. */
  ghost predicate NonNegative(m: Matrix)
  {
    forall i, c :: 0 <= i < |m| && 0 <= c < |m[i]| ==> m[i][c] >= 0.0
  }

  /** Depositing non-negative amounts onto a non-negative grid keeps it
      non-negative. */
  lemma {:induction false} DepositNonNegative(m: Matrix, dvs: seq<DropVector>, loc: seq<int>, cls: nat,
                                              amount: seq<real>, grain: nat)
    requires grain > 0 && |m| == Pow(grain, |loc|) && HasColumn(m, cls)
    requires Dimensioned(dvs, |loc|) && |amount| == |dvs|
    requires NonNegative(m)
    requires forall k :: 0 <= k < |amount| ==> amount[k] >= 0.0
    ensures NonNegative(Deposit(m, dvs, loc, cls, amount, grain))
  {
    if |dvs| > 0 {
      var n := |dvs| - 1;
      DepositNonNegative(m, dvs[..n], loc, cls, amount[..n], grain);
      var r := Deposit(m, dvs, loc, cls, amount, grain);
      forall i, c | 0 <= i < |r| && 0 <= c < |r[i]| ensures r[i][c] >= 0.0 {
        DepositStepAt(m, dvs, loc, cls, amount, grain, i, c);
      }
    }
  }

  /** Drop vectors of non-negative weight with a non-negative factor carry
      non-negative influences. */
  lemma InfluencesNonNegative(dvs: seq<DropVector>, factor: real)
    requires factor >= 0.0 && forall k :: 0 <= k < |dvs| ==> dvs[k].weight >= 0.0
    ensures forall k :: 0 <= k < |dvs| ==> Influences(dvs, factor)[k] >= 0.0
  {
    forall k | 0 <= k < |dvs| ensures Influence(dvs[k], factor) >= 0.0 {
      MulLessEq(0.0, dvs[k].weight, 0.0, factor);
    }
  }
}
