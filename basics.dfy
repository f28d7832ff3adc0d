/** Numeric helpers shared by both Exposer variants: Python's truncating int(),
    integer powers, sums over real vectors, elementwise vector products and the
    facts about Euclidean division the enumeration proofs rest on. */
module Basics {

  /** A feature value that may be missing (NaN in the dataset). */
  datatype Option<T> = None | Some(value: T)

  /** Python's int() and numpy's astype(int) on a real: truncation toward zero. */
  function Trunc(x: real): (r: int)
    ensures x >= 0.0 ==> r >= 0 && r as real <= x < r as real + 1.0
    ensures x < 0.0 ==> r <= 0 && r as real - 1.0 < x <= r as real
  {
    if x >= 0.0 then x.Floor else -((-x).Floor)
  }

  /** A list of d copies of x. */
  function Repeat(x: int, d: nat): (s: seq<int>)
    ensures |s| == d && forall k :: 0 <= k < d ==> s[k] == x
  {
    seq(d, _ => x)
  }

  /** b raised to the e-th power. */
  function Pow(b: int, e: nat): (r: int)
    ensures b > 0 ==> r > 0
  {
    if e == 0 then 1 else b * Pow(b, e - 1)
  }

  /** Sum of a real vector, accumulated from the left. */
  function Sum(s: seq<real>): real
  {
    if |s| == 0 then 0.0 else Sum(s[..|s| - 1]) + s[|s| - 1]
  }

  /** Sum of squares of a real vector. */
  function SumSquares(s: seq<real>): (r: real)
    ensures r >= 0.0
  {
    if |s| == 0 then 0.0 else SumSquares(s[..|s| - 1]) + s[|s| - 1] * s[|s| - 1]
  }

  /** A vector scaled by a scalar. */
  function Scale(c: real, s: seq<real>): (r: seq<real>)
    ensures |r| == |s|
  {
    seq(|s|, i requires 0 <= i < |s| => c * s[i])
  }

  /** The entrywise product of two vectors of equal length. */
  function Hadamard(a: seq<real>, b: seq<real>): (r: seq<real>)
    requires |a| == |b|
    ensures |r| == |a|
  {
    seq(|a|, i requires 0 <= i < |a| => a[i] * b[i])
  }

  /** Elementwise sum of two vectors of equal length. */
  function Plus(a: seq<real>, b: seq<real>): (r: seq<real>)
    requires |a| == |b|
    ensures |r| == |a|
  {
    seq(|a|, i requires 0 <= i < |a| => a[i] + b[i])
  }

  lemma {:induction false} SumNonNegative(s: seq<real>)
    requires forall i :: 0 <= i < |s| ==> s[i] >= 0.0
    ensures Sum(s) >= 0.0
  {
    if |s| > 0 {
      SumNonNegative(s[..|s| - 1]);
    }
  }

  /** In a vector of non-negative entries every entry is at most the sum. */
  lemma {:induction false} EntryAtMostSum(s: seq<real>, k: nat)
    requires k < |s|
    requires forall i :: 0 <= i < |s| ==> s[i] >= 0.0
    ensures 0.0 <= s[k] <= Sum(s)
  {
    var n := |s| - 1;
    if k == n {
      SumNonNegative(s[..n]);
    } else {
      EntryAtMostSum(s[..n], k);
    }
  }

  /** A sum of non-negative entries is zero only if every entry is zero. */
  lemma ZeroSumZeroEntries(s: seq<real>)
    requires forall i :: 0 <= i < |s| ==> s[i] >= 0.0
    requires Sum(s) == 0.0
    ensures forall i :: 0 <= i < |s| ==> s[i] == 0.0
  {
    forall k | 0 <= k < |s| ensures s[k] == 0.0 {
      EntryAtMostSum(s, k);
    }
  }

  /** Sum of the elementwise difference `c - s[i]`. */
  lemma {:induction false} SumOfComplements(s: seq<real>, t: seq<real>, c: real)
    requires |s| == |t|
    requires forall i :: 0 <= i < |s| ==> t[i] == c - s[i]
    ensures Sum(t) == |s| as real * c - Sum(s)
  {
    if |s| > 0 {
      var n := |s| - 1;
      SumOfComplements(s[..n], t[..n], c);
    }
  }

  /** Sum of a vector scaled by a constant. */
  lemma {:induction false} SumOfQuotients(s: seq<real>, t: seq<real>, c: real)
    requires c != 0.0
    requires |s| == |t|
    requires forall i :: 0 <= i < |s| ==> t[i] == s[i] / c
    ensures Sum(t) == Sum(s) / c
  {
    if |s| > 0 {
      var n := |s| - 1;
      SumOfQuotients(s[..n], t[..n], c);
    }
  }

  lemma MulAtLeast(k: int, m: int)
    requires k >= 1 && m > 0
    ensures k * m >= m
  {
    assert k * m == (k - 1) * m + m;
  }

  lemma MulMonotone(a: int, c: int, m: int)
    requires 0 <= a <= c && m >= 0
    ensures 0 <= a * m <= c * m
  {
    assert c * m == a * m + (c - a) * m;
  }

  /** A number below the modulus is its own remainder. */
  lemma ModBelow(x: int, m: int)
    requires 0 <= x < m
    ensures x % m == x && x / m == 0
  {
    DivModUnique(x, m, 0, x);
  }

  /** A number has one quotient and one remainder below m. */
  lemma UniqueDigits(q1: int, r1: int, q2: int, r2: int, m: int)
    requires m > 0 && 0 <= r1 < m && 0 <= r2 < m
    requires q1 * m + r1 == q2 * m + r2
    ensures q1 == q2 && r1 == r2
  {
    assert (q1 - q2) * m == r2 - r1;
    if q1 > q2 {
      MulAtLeast(q1 - q2, m);
    } else if q1 < q2 {
      MulAtLeast(q2 - q1, m);
    }
  }

  /** Euclidean division is determined by quotient and remainder. */
  lemma DivModUnique(x: int, m: int, q: int, r: int)
    requires m > 0 && 0 <= r < m && x == q * m + r
    ensures x / m == q && x % m == r
  {
    var q', r' := x / m, x % m;
    assert (q - q') * m == r' - r;
    if q > q' {
      MulAtLeast(q - q', m);
    } else if q < q' {
      MulAtLeast(q' - q, m);
    }
  }

  /** Peeling one digit: i mod (m*b) from i mod m and the next digit. */
  lemma ModOfProduct(i: int, m: int, b: int)
    requires i >= 0 && m > 0 && b > 0
    ensures i % (m * b) == i % m + ((i / m) % b) * m
  {
    var q, r := i / m, i % m;
    var q1, q0 := q / b, q % b;
    assert i == q * m + r;
    assert q == q1 * b + q0;
    assert q * m == (q1 * b + q0) * m;
    assert (q1 * b + q0) * m == q1 * (m * b) + q0 * m;
    MulMonotone(q0, b - 1, m);
    assert (b - 1) * m + m == m * b;
    DivModUnique(i, m * b, q1, q0 * m + r);
  }

  /** Counting one step: how i / z relates to (i - 1) / z. */
  lemma DivStep(i: int, z: int)
    requires i > 0 && z > 0
    ensures i % z == 0 ==> i / z == (i - 1) / z + 1
    ensures i % z != 0 ==> i / z == (i - 1) / z
  {
    var q, r := (i - 1) / z, (i - 1) % z;
    if r + 1 < z {
      DivModUnique(i, z, q, r + 1);
    } else {
      DivModUnique(i, z, q + 1, 0);
    }
  }

  /** The successor of x modulo b wraps to 0 exactly after b - 1. */
  lemma ModSucc(x: int, b: int)
    requires b > 0
    ensures (x + 1) % b == if x % b + 1 == b then 0 else x % b + 1
  {
    var q, r := x / b, x % b;
    if r + 1 == b {
      DivModUnique(x + 1, b, q + 1, 0);
    } else {
      DivModUnique(x + 1, b, q, r + 1);
    }
  }

  /** Monotonicity of products of non-negative reals. */
  lemma MulLess(a: real, b: real, c: real, e: real)
    requires 0.0 <= a < b && 0.0 <= c < e
    ensures a * c < b * e
  {
    assert b * c - a * c == (b - a) * c;
    assert (b - a) * c >= 0.0;
    assert b * e - b * c == b * (e - c);
    assert b * (e - c) > 0.0;
  }

  lemma MulLessEq(a: real, b: real, c: real, e: real)
    requires 0.0 <= a <= b && 0.0 <= c <= e
    ensures a * c <= b * e
  {
    assert b * c - a * c == (b - a) * c;
    assert (b - a) * c >= 0.0;
    assert b * e - b * c == b * (e - c);
    assert b * (e - c) >= 0.0;
  }

  /** Truncating x * grain for an x in [0, 1) gives a quantum in [0, grain). */
  lemma TruncBelow(x: real, grain: nat)
    requires 0.0 <= x < 1.0 && grain >= 1
    ensures 0 <= Trunc(x * grain as real) < grain
  {
    var y := x * grain as real;
    MulLessEq(0.0, x, 0.0, grain as real);
    MulLess(0.0, 1.0 - x, 0.0, grain as real);
    assert (1.0 - x) * grain as real == grain as real - y;
  }

  /** A non-negative number scaled by a factor in [0, 1] stays between 0 and itself. */
  lemma ScaledWithin(c: real, t: real)
    ensures c >= 0.0 && 0.0 <= t <= 1.0 ==> 0.0 <= c * t <= c
  {
    if c >= 0.0 && 0.0 <= t <= 1.0 {
      MulLessEq(0.0, c, 0.0, t);
      MulLessEq(c, c, t, 1.0);
    }
  }
  /** Scaling a non-negative vector by a factor in [0, 1] keeps every entry
      between 0 and its old value. */
  lemma ScaleBounded(c: real, v: seq<real>)
    requires 0.0 <= c <= 1.0 && forall k :: 0 <= k < |v| ==> v[k] >= 0.0
    ensures forall k :: 0 <= k < |v| ==> 0.0 <= Scale(c, v)[k] <= v[k]
  {
    forall k | 0 <= k < |v| ensures 0.0 <= Scale(c, v)[k] <= v[k] {
      MulLessEq(0.0, c, 0.0, v[k]);
      MulLessEq(c, 1.0, v[k], v[k]);
    }
  }

  /** Multiplying a non-negative vector entrywise by factors in [0, 1] keeps
      every entry between 0 and its old value. */
  lemma HadamardBounded(a: seq<real>, v: seq<real>)
    requires |a| == |v|
    requires forall k :: 0 <= k < |v| ==> 0.0 <= a[k] <= 1.0 && v[k] >= 0.0
    ensures forall k :: 0 <= k < |v| ==> 0.0 <= Hadamard(a, v)[k] <= v[k]
  {
    forall k | 0 <= k < |v| ensures 0.0 <= Hadamard(a, v)[k] <= v[k] {
      MulLessEq(0.0, a[k], 0.0, v[k]);
      MulLessEq(a[k], 1.0, v[k], v[k]);
    }
  }


  /** Squaring is strictly monotone on the non-negative reals. */
  lemma SquareLess(t: real, u: real)
    requires 0.0 <= t && 0.0 <= u
    ensures t < u <==> t * t < u * u
  {
    if t < u {
      MulLess(t, u, t, u);
    } else {
      MulLessEq(u, t, u, t);
    }
  }

  lemma SquareZero(t: real)
    requires t >= 0.0 && t * t == 0.0
    ensures t == 0.0
  {
    if t > 0.0 {
      MulLess(0.0, t, 0.0, t);
    }
  }

  /** np.sum of a vector, summing from the left. */
  method SumOf(s: seq<real>) returns (total: real)
    ensures total == Sum(s)
  {
    total := 0.0;
    var i := 0;
    while i < |s|
      invariant 0 <= i <= |s|
      invariant total == Sum(s[..i])
    {
      assert s[..i + 1][..i] == s[..i];
      total := total + s[i];
      i := i + 1;
    }
    assert s[..|s|] == s;
  }

  /** Adds given, entry by entry, into a caller-owned accumulator of the same length. */
  method AddInto(support: array<real>, given: seq<real>)
    requires support.Length == |given|
    modifies support
    ensures support[..] == Plus(old(support[..]), given)
  {
    var k := 0;
    while k < support.Length
      invariant 0 <= k <= support.Length
      invariant forall j :: 0 <= j < k ==> support[j] == old(support[j]) + given[j]
      invariant forall j :: k <= j < support.Length ==> support[j] == old(support[j])
    {
      support[k] := support[k] + given[k];
      k := k + 1;
    }
  }
}
