/**
 * Mixed-radix ("dynamic base") encoding of a tuple of bounded digits into a
 * single non-negative integer, least significant digit first, and the
 * decoding that lattice::site2coor performs digit by digit.
 */
module MixedRadix {

  /** A radix, an extent or a sublattice count: always at least one. */
  type Pos = x: int | x >= 1 witness 1

  /** The number of distinct digit tuples for the radices `r`. */
  function Product(r: seq<Pos>): (p: Pos)
  {
    if r == [] then 1
    else
      var rest := Product(r[1..]);
      MulBound(rest, r[0]);
      rest * r[0]
  }

  /** Every digit `d[i]` lies in `[0, r[i])`. */
  predicate InRange(d: seq<int>, r: seq<Pos>)
  {
    |d| == |r| && forall i :: 0 <= i < |d| ==> 0 <= d[i] < r[i]
  }

  /**
   * dynamic_base: d[0] + r[0] * (d[1] + r[1] * (d[2] + ...)).
   * The first digit varies fastest.
   */
  function Encode(d: seq<int>, r: seq<Pos>): int
    requires |d| == |r|
  {
    if d == [] then 0 else d[0] + r[0] * Encode(d[1..], r[1..])
  }

  /**
   * The decoding of lattice::site2coor: every digit but the last is the
   * remainder by its radix, the quotient is carried on, and the last digit
   * is the whole remaining quotient (it is not reduced by its radix).
   */
  function Decode(x: nat, r: seq<Pos>): (d: seq<int>)
    requires |r| >= 1
    ensures |d| == |r|
  {
    if |r| == 1 then [x] else [x % r[0]] + Decode(x / r[0], r[1..])
  }

  // ------------------------------------------------------------------
  // Arithmetic facts about multiplication, division and remainder.
  // Dafny's `/` and `%` are Euclidean, which for a positive divisor
  // agrees with the unsigned arithmetic of the source.
  // ------------------------------------------------------------------

  lemma MulBound(t: int, n: Pos)
    ensures t >= 1 ==> t * n >= n
    ensures t <= -1 ==> t * n + n <= 0
  {
    if t >= 1 { assert (t - 1) * n >= 0; }
    if t <= -1 { assert (-t - 1) * n >= 0; }
  }

  lemma MulMonotone(a: int, b: int, n: Pos)
    ensures a <= b ==> a * n <= b * n
  {
    if a <= b { assert (b - a) * n >= 0; }
  }

  /** Quotient and remainder are the unique pair with `x == q * n + r`, `0 <= r < n`. */
  lemma DivModUnique(x: int, n: Pos, q: int, r: int)
    requires x == q * n + r && 0 <= r < n
    ensures x / n == q && x % n == r
  {
    var q0, r0 := x / n, x % n;
    assert (q0 - q) * n == r - r0;
    MulBound(q0 - q, n);
  }

  /** Adding a multiple of the modulus does not change the remainder. */
  lemma ModAddMultiple(x: int, k: int, n: Pos)
    ensures (x + k * n) % n == x % n
  {
    DivModUnique(x + k * n, n, x / n + k, x % n);
  }

  /** Reducing an addend first does not change the remainder of a sum. */
  lemma ModAddMod(a: int, b: int, n: Pos)
    ensures (a % n + b) % n == (a + b) % n
  {
    ModAddMultiple(a % n + b, a / n, n);
  }

  lemma ModOfInRange(x: int, n: Pos)
    requires 0 <= x < n
    ensures x % n == x
  {
    DivModUnique(x, n, 0, x);
  }

  /** x / n < p whenever x < p * n. */
  lemma DivBelow(x: nat, n: Pos, p: Pos)
    requires x < p * n
    ensures x / n < p
  {
    MulMonotone(p, x / n, n);
  }

  // ------------------------------------------------------------------
  // Properties of the encoding.
  // ------------------------------------------------------------------

  /** An in-range digit tuple encodes to a number in `[0, Product(r))`. */
  lemma {:induction false} EncodeBounds(d: seq<int>, r: seq<Pos>)
    requires InRange(d, r)
    ensures 0 <= Encode(d, r) < Product(r)
  {
    if d != [] {
      var e: int, p: int := Encode(d[1..], r[1..]), Product(r[1..]);
      EncodeBounds(d[1..], r[1..]);
      assert Encode(d, r) == d[0] + r[0] * e;
      assert Product(r) == p * r[0];
      MulMonotone(e, p - 1, r[0]);
      MulMonotone(0, e, r[0]);
      assert r[0] * e == e * r[0];
      assert (p - 1) * r[0] == p * r[0] - r[0];
    }
  }

  /** Encoding what Decode produced gives back the number, for every number. */
  lemma {:induction false} EncodeDecode(x: nat, r: seq<Pos>)
    requires |r| >= 1
    ensures Encode(Decode(x, r), r) == x
  {
    if |r| > 1 {
      var d := Decode(x, r);
      EncodeDecode(x / r[0], r[1..]);
      assert d[0] == x % r[0] && d[1..] == Decode(x / r[0], r[1..]);
    }
  }

  /** A number below `Product(r)` decodes to in-range digits. */
  lemma {:induction false} DecodeInRange(x: nat, r: seq<Pos>)
    requires |r| >= 1 && x < Product(r)
    ensures InRange(Decode(x, r), r)
  {
    if |r| > 1 {
      DivBelow(x, r[0], Product(r[1..]));
      DecodeInRange(x / r[0], r[1..]);
      var d := Decode(x, r);
      assert d[1..] == Decode(x / r[0], r[1..]);
      forall i | 1 <= i < |d|
        ensures 0 <= d[i] < r[i]
      {
        assert d[i] == d[1..][i - 1];
      }
    } else {
      assert r[1..] == [];
    }
  }

  /** Decoding an encoded in-range tuple gives back the tuple. */
  lemma {:induction false} DecodeEncode(d: seq<int>, r: seq<Pos>)
    requires |r| >= 1 && InRange(d, r)
    ensures Encode(d, r) >= 0 && Decode(Encode(d, r), r) == d
  {
    EncodeBounds(d, r);
    var x := Encode(d, r);
    var rest := Encode(d[1..], r[1..]);
    if |r| == 1 {
      assert rest == 0;
    } else {
      assert InRange(d[1..], r[1..]);
      EncodeBounds(d[1..], r[1..]);
      DivModUnique(x, r[0], rest, d[0]);
      DecodeEncode(d[1..], r[1..]);
      assert Decode(x, r) == [d[0]] + d[1..];
    }
  }
}
