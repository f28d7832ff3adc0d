/** Per-cell measures of a normalised grid, shared by both variants (each
    variant passes its own presence threshold). Every cell gets an HSV triple:
    hue is the index of the first largest class support divided by the number
    of classes, saturation is (max - min) / max (0 when max is 0), value is the
    max. Cells whose value exceeds the threshold are counted for their
    decisive class; the per-class confidence is one minus that class's share
    of the counted cells, and the exposer confidence is the mean. */
module Measures {
  import opened Basics
  import opened Grid

  datatype Hsv = Hsv(hue: real, saturation: real, value: real)

  /** The smallest entry of a non-empty vector (`np.min`). */
  function MinOf(s: seq<real>): real
    requires |s| > 0
  {
    if |s| == 1 then s[0]
    else
      var rest := MinOf(s[..|s| - 1]);
      if s[|s| - 1] < rest then s[|s| - 1] else rest
  }

  /** The index of the first largest entry (`np.argmax`). */
  function ArgMax(s: seq<real>): (k: nat)
    requires |s| > 0
    ensures k < |s|
  {
    if |s| == 1 then 0
    else if s[|s| - 1] > MaxOf(s[..|s| - 1]) then |s| - 1
    else ArgMax(s[..|s| - 1])
  }

  /** MinOf is a lower bound that some entry attains. */
  lemma {:induction false} MinOfIsMinimum(s: seq<real>)
    requires |s| > 0
    ensures forall k :: 0 <= k < |s| ==> MinOf(s) <= s[k]
    ensures exists k :: 0 <= k < |s| && s[k] == MinOf(s)
  {
    if |s| == 1 {
      assert s[0] == MinOf(s);
    } else {
      var n := |s| - 1;
      var front := s[..n];
      MinOfIsMinimum(front);
      var k :| 0 <= k < n && front[k] == MinOf(front);
      assert forall j :: 0 <= j < n ==> s[j] == front[j];
      if s[n] < MinOf(front) {
        assert s[n] == MinOf(s);
      } else {
        assert s[k] == MinOf(s);
      }
    }
  }

  /** ArgMax points at a largest entry, and every entry before it is
      strictly smaller: it is the first maximum. */
  lemma {:induction false} ArgMaxIsFirstMaximum(s: seq<real>)
    requires |s| > 0
    ensures s[ArgMax(s)] == MaxOf(s)
    ensures forall j :: 0 <= j < ArgMax(s) ==> s[j] < MaxOf(s)
  {
    if |s| > 1 {
      var n := |s| - 1;
      var front := s[..n];
      MaxOfIsMaximum(front);
      assert forall j :: 0 <= j < n ==> s[j] == front[j];
      if s[n] <= MaxOf(front) {
        ArgMaxIsFirstMaximum(front);
      }
    }
  }

  /** The HSV triple of one cell with n class supports. */
  function CellHsv(pixel: seq<real>, n: nat): Hsv
    requires |pixel| == n > 0
  {
    var cmax := MaxOf(pixel);
    var cmin := MinOf(pixel);
    var delta := cmax - cmin;
    var hue := ArgMax(pixel) as real / n as real;
    var saturation := if cmax != 0.0 then delta / cmax else 0.0;
    Hsv(hue, saturation, cmax)
  }

  /** Hue times the number of classes is the index of the first largest
      support, so hue lies in [0, 1). */
  lemma CellHue(pixel: seq<real>, n: nat)
    requires |pixel| == n > 0
    ensures CellHsv(pixel, n).hue * n as real == ArgMax(pixel) as real
    ensures 0.0 <= CellHsv(pixel, n).hue < 1.0
  {
    QuotientBelowOne(ArgMax(pixel), n);
  }

  /** Value is the largest support, attained first at the hue's class. */
  lemma CellValue(pixel: seq<real>, n: nat)
    requires |pixel| == n > 0
    ensures var v := CellHsv(pixel, n).value;
            var k := ArgMax(pixel);
            pixel[k] == v
            && (forall j :: 0 <= j < n ==> pixel[j] <= v)
            && (forall j :: 0 <= j < k ==> pixel[j] < v)
  {
    ArgMaxIsFirstMaximum(pixel);
    MaxOfIsMaximum(pixel);
  }

  /** Saturation is (max - min) / max, 0 exactly when the max is 0 or all
      supports are equal, and in [0, 1] when no support is negative. */
  lemma CellSaturation(pixel: seq<real>, n: nat)
    requires |pixel| == n > 0
    ensures var h := CellHsv(pixel, n);
            (h.value != 0.0 ==> h.saturation == (h.value - MinOf(pixel)) / h.value)
            && (h.saturation == 0.0 <==> h.value == 0.0 || h.value == MinOf(pixel))
            && ((forall j :: 0 <= j < n ==> pixel[j] >= 0.0) ==> 0.0 <= h.saturation <= 1.0)
  {
    var cmax, cmin := MaxOf(pixel), MinOf(pixel);
    MaxOfIsMaximum(pixel);
    MinOfIsMinimum(pixel);
    var i :| 0 <= i < n && pixel[i] == cmin;
    assert cmin <= cmax;
    if cmax != 0.0 {
      QuotientZero(cmax - cmin, cmax);
    }
    if forall j :: 0 <= j < n ==> pixel[j] >= 0.0 {
      assert cmin >= 0.0;
      if cmax > 0.0 {
        QuotientUnit(cmax - cmin, cmax);
      }
    }
  }

  lemma QuotientBelowOne(k: nat, n: nat)
    requires k < n
    ensures 0.0 <= k as real / n as real < 1.0
    ensures (k as real / n as real) * n as real == k as real
  {
  }

  lemma QuotientZero(a: real, b: real)
    requires b != 0.0
    ensures a / b == 0.0 <==> a == 0.0
  {
    if a / b == 0.0 {
      assert a == (a / b) * b;
    }
  }

  /** Complements to 1 of a vector summing to 1 sum to its length minus 1. */
  lemma ComplementsOfUnit(s: seq<real>, t: seq<real>)
    requires |s| == |t| && Sum(s) == 1.0
    requires forall i :: 0 <= i < |s| ==> t[i] == 1.0 - s[i]
    ensures Sum(t) == |s| as real - 1.0
  {
    SumOfComplements(s, t, 1.0);
  }

  lemma DivSelf(x: real)
    requires x != 0.0
    ensures x / x == 1.0
  {
  }

  lemma QuotientUnit(a: real, b: real)
    requires 0.0 <= a <= b && b > 0.0
    ensures 0.0 <= a / b <= 1.0
  {
  }

  /** `self.hsv`: the triple of every cell. */
  function HsvOf(m: Matrix, n: nat): (h: seq<Hsv>)
    requires n > 0 && Shaped(m, |m|, n)
    ensures |h| == |m|
  {
    seq(|m|, i requires 0 <= i < |m| => CellHsv(m[i], n))
  }

  /** The cell counts towards the presence of its decisive class. */
  predicate Counted(pixel: seq<real>, n: nat, threshold: real)
    requires |pixel| == n > 0
  {
    CellHsv(pixel, n).value > threshold
  }

  /** The number of counted cells whose decisive class is c. */
  function Decisive(m: Matrix, n: nat, threshold: real, c: nat): nat
    requires n > 0 && Shaped(m, |m|, n)
  {
    if |m| == 0 then 0
    else
      var last := m[|m| - 1];
      Decisive(m[..|m| - 1], n, threshold, c)
        + (if Counted(last, n, threshold) && ArgMax(last) == c then 1 else 0)
  }

  /** The number of counted cells. */
  function CountedCells(m: Matrix, n: nat, threshold: real): nat
    requires n > 0 && Shaped(m, |m|, n)
  {
    if |m| == 0 then 0
    else CountedCells(m[..|m| - 1], n, threshold) + (if Counted(m[|m| - 1], n, threshold) then 1 else 0)
  }

  /** `presence`: per class, how many counted cells it decides. */
  function Presence(m: Matrix, n: nat, threshold: real): (p: seq<real>)
    requires n > 0 && Shaped(m, |m|, n)
    ensures |p| == n
  {
    seq(n, c requires 0 <= c < n => Decisive(m, n, threshold, c) as real)
  }

  /** The confidence of each class: 1 less its share of the counted cells; when nothing was counted the sum is 0 and
      presence is left undivided, so every confidence is 1. */
  function Thetas(presence: seq<real>): (t: seq<real>)
    ensures |t| == |presence|
  {
    var total := Sum(presence);
    var share := if total != 0.0 then seq(|presence|, c requires 0 <= c < |presence| => presence[c] / total)
                 else presence;
    seq(|presence|, c requires 0 <= c < |presence| => 1.0 - share[c])
  }

  /** `np.mean`. */
  function Mean(s: seq<real>): real
    requires |s| > 0
  {
    Sum(s) / |s| as real
  }

  /** The mean times the number of entries is the sum. */
  lemma MeanTimesLength(s: seq<real>)
    requires |s| > 0
    ensures Mean(s) * |s| as real == Sum(s)
  {
  }

  /** A higher threshold counts no more cells for any class. */
  lemma {:induction false} DecisiveMonotone(m: Matrix, n: nat, lo: real, hi: real, c: nat)
    requires n > 0 && Shaped(m, |m|, n) && lo <= hi
    ensures Decisive(m, n, hi, c) <= Decisive(m, n, lo, c)
  {
    if |m| > 0 {
      DecisiveMonotone(m[..|m| - 1], n, lo, hi, c);
    }
  }

  /** A higher threshold counts no more cells overall. */
  lemma {:induction false} CountedCellsMonotone(m: Matrix, n: nat, lo: real, hi: real)
    requires n > 0 && Shaped(m, |m|, n) && lo <= hi
    ensures CountedCells(m, n, hi) <= CountedCells(m, n, lo)
  {
    if |m| > 0 {
      CountedCellsMonotone(m[..|m| - 1], n, lo, hi);
    }
  }

  /** Adding 1 to one entry adds 1 to the sum. */
  lemma {:induction false} SumIncrement(s: seq<real>, k: nat)
    requires k < |s|
    ensures Sum(s[k := s[k] + 1.0]) == Sum(s) + 1.0
  {
    var n := |s| - 1;
    var t := s[k := s[k] + 1.0];
    if k == n {
      assert t[..n] == s[..n];
    } else {
      assert t[..n] == s[..n][k := s[k] + 1.0];
      SumIncrement(s[..n], k);
    }
  }

  /** Presence over one more cell: the decisive class of a counted cell
      gains 1, nothing else changes. */
  lemma PresenceNext(m: Matrix, n: nat, threshold: real, i: nat)
    requires n > 0 && Shaped(m, |m|, n) && i < |m|
    ensures Presence(m[..i + 1], n, threshold)
      == if Counted(m[i], n, threshold)
         then Presence(m[..i], n, threshold)[ArgMax(m[i]) := Presence(m[..i], n, threshold)[ArgMax(m[i])] + 1.0]
         else Presence(m[..i], n, threshold)
  {
    assert m[..i + 1][..i] == m[..i];
  }

  /** The presence counts add up to the number of counted cells. */
  lemma {:induction false} PresenceTotal(m: Matrix, n: nat, threshold: real)
    requires n > 0 && Shaped(m, |m|, n)
    ensures Sum(Presence(m, n, threshold)) == CountedCells(m, n, threshold) as real
  {
    if |m| > 0 {
      var k := |m| - 1;
      PresenceTotal(m[..k], n, threshold);
      PresenceNext(m, n, threshold, k);
      assert m[..k + 1] == m;
      if Counted(m[k], n, threshold) {
        SumIncrement(Presence(m[..k], n, threshold), ArgMax(m[k]));
      }
    } else {
      SumZeros(Presence(m, n, threshold));
    }
  }

  lemma {:induction false} SumZeros(s: seq<real>)
    requires forall k :: 0 <= k < |s| ==> s[k] == 0.0
    ensures Sum(s) == 0.0
  {
    if |s| > 0 {
      SumZeros(s[..|s| - 1]);
    }
  }

  /** Every per-class confidence lies in [0, 1]. */
  lemma ThetasBounds(presence: seq<real>)
    requires forall c :: 0 <= c < |presence| ==> presence[c] >= 0.0
    ensures forall c :: 0 <= c < |presence| ==> 0.0 <= Thetas(presence)[c] <= 1.0
  {
    var total := Sum(presence);
    SumNonNegative(presence);
    if total != 0.0 {
      forall c | 0 <= c < |presence| ensures 0.0 <= Thetas(presence)[c] <= 1.0 {
        EntryAtMostSum(presence, c);
        QuotientUnit(presence[c], total);
      }
    } else {
      ZeroSumZeroEntries(presence);
    }
  }

  /** When some cell was counted, the confidences add up to n - 1 and theta
      is (n - 1) / n. */
  lemma ThetasCounted(presence: seq<real>)
    requires |presence| > 0 && Sum(presence) != 0.0
    ensures Sum(Thetas(presence)) == |presence| as real - 1.0
    ensures Mean(Thetas(presence)) == (|presence| as real - 1.0) / |presence| as real
  {
    var n := |presence|;
    var total := Sum(presence);
    var share := seq(n, c requires 0 <= c < n => presence[c] / total);
    var t := Thetas(presence);
    assert Sum(share) == 1.0 by {
      SumOfQuotients(presence, share, total);
      DivSelf(total);
    }
    assert Sum(t) == n as real - 1.0 by {
      assert forall c :: 0 <= c < n ==> t[c] == 1.0 - share[c];
      ComplementsOfUnit(share, t);
    }
  }

  /** When no cell was counted, every confidence and theta are 1. */
  lemma ThetasNoneCounted(presence: seq<real>)
    requires |presence| > 0 && Sum(presence) == 0.0
    requires forall c :: 0 <= c < |presence| ==> presence[c] >= 0.0
    ensures forall c :: 0 <= c < |presence| ==> Thetas(presence)[c] == 1.0
    ensures Mean(Thetas(presence)) == 1.0
  {
    ZeroSumZeroEntries(presence);
    SumOfComplements(presence, Thetas(presence), 1.0);
  }

  /** In terms of the grid: class c's confidence is one minus the share of
      counted cells it decides; a class deciding no counted cell has
      confidence 1. */
  lemma ThetasOfGrid(m: Matrix, n: nat, threshold: real, c: nat)
    requires n > 0 && Shaped(m, |m|, n) && c < n
    ensures var t := Thetas(Presence(m, n, threshold));
            var counted := CountedCells(m, n, threshold);
            (counted > 0 ==> t[c] == 1.0 - Decisive(m, n, threshold, c) as real / counted as real)
            && (Decisive(m, n, threshold, c) == 0 ==> t[c] == 1.0)
  {
    PresenceTotal(m, n, threshold);
  }

  /** The measures loop of `calculate_measures` (and of the second variant's
      constructor): fill `hsv` cell by cell, count each counted cell for its
      decisive class, then turn the counts into confidences. */
  method Measure(m: Matrix, n: nat, threshold: real) returns (hsv: seq<Hsv>, thetas: seq<real>, theta: real)
    requires n > 0 && Shaped(m, |m|, n)
    ensures hsv == HsvOf(m, n)
    ensures thetas == Thetas(Presence(m, n, threshold))
    ensures theta == Mean(thetas)
  {
    hsv := seq(|m|, _ => Hsv(0.0, 0.0, 0.0));
    var presence := seq(n, _ => 0.0);
    assert presence == Presence(m[..0], n, threshold);
    var index := 0;
    while index < |m|
      invariant 0 <= index <= |m| && |hsv| == |m|
      invariant forall i :: 0 <= i < index ==> hsv[i] == CellHsv(m[i], n)
      invariant presence == Presence(m[..index], n, threshold)
    {
      var pixel := m[index];
      var cmaxI, cell := CellMeasure(pixel, n);
      hsv := hsv[index := cell];
      if cell.value > threshold {
        presence := presence[cmaxI := presence[cmaxI] + 1.0];
      }
      PresenceNext(m, n, threshold, index);
      index := index + 1;
    }
    assert m[..|m|] == m;
    thetas, theta := Confidences(presence);
  }

  /** The triple of one cell, with the index of its first largest support:
      the value is the largest support, first reached at `cmaxI`, the hue is
      `cmaxI / n`, and the saturation is (max - min) / max, or 0 for a zero
      max. */
  method CellMeasure(pixel: seq<real>, n: nat) returns (cmaxI: nat, cell: Hsv)
    requires |pixel| == n > 0
    ensures cmaxI < n && pixel[cmaxI] == cell.value
    ensures forall j :: 0 <= j < n ==> pixel[j] <= cell.value
    ensures forall j :: 0 <= j < cmaxI ==> pixel[j] < cell.value
    ensures cell.hue * n as real == cmaxI as real && 0.0 <= cell.hue < 1.0
    ensures cell.value != 0.0 ==> cell.saturation == (cell.value - MinOf(pixel)) / cell.value
    ensures cell.value == 0.0 ==> cell.saturation == 0.0
    ensures cmaxI == ArgMax(pixel) && cell == CellHsv(pixel, n)
  {
    CellHue(pixel, n);
    CellValue(pixel, n);
    CellSaturation(pixel, n);
    var cmax := MaxOf(pixel);
    cmaxI := ArgMax(pixel);
    var cmin := MinOf(pixel);
    var delta := cmax - cmin;
    var hue := cmaxI as real / n as real;
    var saturation := 0.0;
    if cmax != 0.0 {
      saturation := delta / cmax;
    }
    var value := cmax;
    cell := Hsv(hue, saturation, value);
  }

  /** The confidences from the presence counts, and their mean: each class
      gets 1 less its share of the total, all ones when nothing was counted,
      and theta is their average. */
  method Confidences(presence: seq<real>) returns (thetas: seq<real>, theta: real)
    requires |presence| > 0
    ensures |thetas| == |presence|
    ensures Sum(presence) != 0.0 ==>
              (forall c :: 0 <= c < |presence| ==> thetas[c] == 1.0 - presence[c] / Sum(presence))
              && Sum(thetas) == |presence| as real - 1.0
    ensures Sum(presence) == 0.0 && (forall c :: 0 <= c < |presence| ==> presence[c] >= 0.0) ==>
              forall c :: 0 <= c < |presence| ==> thetas[c] == 1.0
    ensures theta * |thetas| as real == Sum(thetas)
    ensures thetas == Thetas(presence) && theta == Mean(thetas)
  {
    var share := presence;
    var total := Sum(presence);
    if total != 0.0 {
      share := seq(|presence|, c requires 0 <= c < |presence| => presence[c] / total);
    }
    thetas := seq(|presence|, c requires 0 <= c < |presence| => 1.0 - share[c]);
    theta := Sum(thetas) / |thetas| as real;
    assert thetas == Thetas(presence);
    MeanTimesLength(thetas);
    if total != 0.0 {
      ThetasCounted(presence);
    } else if forall c :: 0 <= c < |presence| ==> presence[c] >= 0.0 {
      ThetasNoneCounted(presence);
    }
  }
}
