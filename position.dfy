/** Position encoding: the flat index of a grid cell is the mixed-radix value
    of its coordinates, `sum p[i] * grain^i`, computed from the vector of
    powers `g` that both Exposer variants precompute once. The same encoding in
    base `2 * radius + 1` describes the drop-vector counter (module Drops). */
module Position {
  import opened Basics

  /** Every coordinate lies in [0, b). */
  predicate InGrid(p: seq<int>, b: int)
  {
    forall i :: 0 <= i < |p| ==> 0 <= p[i] < b
  }

  /** The mixed-radix value of p in base b, accumulated from axis 0 upward. */
  function Encode(p: seq<int>, b: int): int
  {
    if |p| == 0 then 0 else Encode(p[..|p| - 1], b) + p[|p| - 1] * Pow(b, |p| - 1)
  }

  /** The j-th base-b digit of i. */
  function Digit(i: nat, b: nat, j: nat): (r: nat)
    requires b > 0
    ensures r < b
  {
    (i / Pow(b, j)) % b
  }

  /** The first d base-b digits of i, least significant first. */
  function Decode(i: nat, b: nat, d: nat): (p: seq<int>)
    requires b > 0
    ensures |p| == d && InGrid(p, b)
    ensures forall j :: 0 <= j < d ==> p[j] == Digit(i, b, j)
  {
    seq(d, j requires 0 <= j < d => Digit(i, b, j))
  }

  /** The powers b^0 .. b^(d-1), each computed from the one before. */
  method Powers(b: int, d: nat) returns (g: seq<int>)
    ensures |g| == d
    ensures forall i :: 0 <= i < d ==> g[i] == Pow(b, i)
  {
    g := Repeat(1, d);
    var i := 1;
    while i < d
      invariant |g| == d
      invariant d == 0 || 1 <= i <= d
      invariant forall k :: 0 <= k < i && k < d ==> g[k] == Pow(b, k)
      invariant forall k :: i <= k < d ==> g[k] == 1
    {
      var previous := g[i - 1];
      assert previous == Pow(b, i - 1);
      assert Pow(b, i) == b * previous;
      g := g[i := previous * b];
      i := i + 1;
    }
  }

  /** `position(p)`: accumulate `p[i] * g[i]` over the axes. An in-grid
      coordinate lands inside the flat grid of `b^|p|` cells. */
  method Position(p: seq<int>, g: seq<int>, ghost b: int) returns (acc: int)
    requires |p| == |g|
    requires forall i :: 0 <= i < |g| ==> g[i] == Pow(b, i)
    ensures acc == Encode(p, b)
    ensures b > 0 && InGrid(p, b) ==> 0 <= acc < Pow(b, |p|)
  {
    acc := 0;
    var i := 0;
    while i < |p|
      invariant 0 <= i <= |p|
      invariant acc == Encode(p[..i], b)
    {
      assert p[..i + 1][..i] == p[..i];
      acc := acc + p[i] * g[i];
      i := i + 1;
    }
    assert p[..|p|] == p;
    if b > 0 && InGrid(p, b) {
      EncodeBound(p, b);
    }
  }

  /** An in-grid coordinate encodes into [0, b^|p|). */
  lemma {:induction false} EncodeBound(p: seq<int>, b: int)
    requires b > 0 && InGrid(p, b)
    ensures 0 <= Encode(p, b) < Pow(b, |p|)
  {
    if |p| > 0 {
      var n := |p| - 1;
      var m := Pow(b, n);
      EncodeBound(p[..n], b);
      assert Encode(p, b) == Encode(p[..n], b) + p[n] * m;
      MulMonotone(p[n], b - 1, m);
      assert (b - 1) * m + m == b * m;
      assert Pow(b, |p|) == b * m;
    }
  }

  /** Distinct in-grid coordinates of equal length get distinct indices. */
  lemma {:induction false} EncodeInjective(p: seq<int>, q: seq<int>, b: int)
    requires b > 0 && |p| == |q|
    requires InGrid(p, b) && InGrid(q, b)
    requires Encode(p, b) == Encode(q, b)
    ensures p == q
  {
    if |p| > 0 {
      var n := |p| - 1;
      var m := Pow(b, n);
      EncodeBound(p[..n], b);
      EncodeBound(q[..n], b);
      assert Encode(p, b) == p[n] * m + Encode(p[..n], b);
      assert Encode(q, b) == q[n] * m + Encode(q[..n], b);
      UniqueDigits(p[n], Encode(p[..n], b), q[n], Encode(q[..n], b), m);
      EncodeInjective(p[..n], q[..n], b);
      assert p == p[..n] + [p[n]];
      assert q == q[..n] + [q[n]];
    }
  }

  /** Encoding the first d digits of i gives back i modulo b^d. */
  lemma {:induction false} EncodeDecode(i: nat, b: nat, d: nat)
    requires b > 0
    ensures Encode(Decode(i, b, d), b) == i % Pow(b, d)
  {
    if d > 0 {
      var m := Pow(b, d - 1);
      assert Decode(i, b, d)[..d - 1] == Decode(i, b, d - 1);
      EncodeDecode(i, b, d - 1);
      ModOfProduct(i, m, b);
      assert m * b == Pow(b, d);
    }
  }

  /** Every index in [0, b^d) is the encoding of exactly its digits. */
  lemma DecodeInjective(i: nat, k: nat, b: nat, d: nat)
    requires b > 0 && i < Pow(b, d) && k < Pow(b, d)
    requires Decode(i, b, d) == Decode(k, b, d)
    ensures i == k
  {
    EncodeDecode(i, b, d);
    EncodeDecode(k, b, d);
    ModBelow(i, Pow(b, d));
    ModBelow(k, Pow(b, d));
  }

  /** Decoding inverts encoding on the grid: `position` is a bijection between
      [0, b)^d and [0, b^d). */
  lemma DecodeEncode(p: seq<int>, b: nat)
    requires b > 0 && InGrid(p, b)
    ensures Encode(p, b) >= 0
    ensures Decode(Encode(p, b), b, |p|) == p
  {
    EncodeBound(p, b);
    var e := Encode(p, b);
    EncodeDecode(e, b, |p|);
    ModBelow(e, Pow(b, |p|));
    EncodeInjective(Decode(e, b, |p|), p, b);
  }
}
