/** The binary64 format of IEEE 754 section 3.4: what a 64-bit pattern denotes. */
module Ieee754 {
  import opened Words

  const SIGNIFICAND_WIDTH: nat := 52
  const EXPONENT_WIDTH: nat := 11
  const EXPONENT_BIAS: nat := 1023

  type Word64 = x: nat | x < 0x1_0000_0000_0000_0000

  /** A decoded double. The magnitude of a finite one is never negative, so that the two
      zeros stay apart. */
  datatype Double = NaN | Infinity(negative: bool) | Finite(negative: bool, magnitude: real) {
    function Value(): real
      requires Finite?
    {
      if negative then -magnitude else magnitude
    }
  }

  function SignField(bits: Word64): nat { bits / 0x8000_0000_0000_0000 }

  function ExponentField(bits: Word64): nat { (bits / 0x10_0000_0000_0000) % 0x800 }

  function SignificandField(bits: Word64): nat { bits % 0x10_0000_0000_0000 }

  function Exp2(e: int): real {
    if e >= 0 then Pow2(e) as real else 1.0 / (Pow2(-e) as real)
  }

  /** The real (i + t / 2^n) * 2^e: a significand with integer bit i and n fraction bits t. */
  function Scaled(i: nat, t: nat, n: nat, e: int): real {
    Exp2(e) * (i as real + t as real / Pow2(n) as real)
  }

  function Decode(bits: Word64): Double {
    var s, e, t := SignField(bits) == 1, ExponentField(bits), SignificandField(bits);
    if e == 0x7FF then
      if t == 0 then Infinity(s) else NaN
    else if e == 0 then
      Finite(s, Scaled(0, t, SIGNIFICAND_WIDTH, 1 - EXPONENT_BIAS))
    else
      Finite(s, Scaled(1, t, SIGNIFICAND_WIDTH, e - EXPONENT_BIAS))
  }

  lemma FieldsCompose(bits: Word64)
    ensures SignField(bits) < 2
    ensures bits == SignField(bits) * 0x8000_0000_0000_0000
                  + ExponentField(bits) * 0x10_0000_0000_0000 + SignificandField(bits)
    ensures bits / 0x10_0000_0000_0000 == SignField(bits) * 0x800 + ExponentField(bits)
  {
  }

  // ----- the integer part of the magnitude -----

  lemma FloorUnique(x: real, n: int)
    requires n as real <= x < (n + 1) as real
    ensures x.Floor == n
  {
  }

  lemma FloorOfQuotient(n: nat, d: nat)
    requires d > 0
    ensures (n as real / d as real).Floor == n / d
  {
    var q := n / d;
    assert q * d <= n < (q + 1) * d;
    var x, y := n as real, d as real;
    assert q as real * y == (q * d) as real;
    assert (q + 1) as real * y == ((q + 1) * d) as real;
    QuotientBounds(x, y, q as real, (q + 1) as real);
    FloorUnique(x / y, q);
  }

  lemma QuotientBounds(x: real, y: real, lo: real, hi: real)
    requires y > 0.0 && lo * y <= x < hi * y
    ensures lo <= x / y < hi
  {
    var z := x / y;
    assert z * y == x;
    assert z < lo ==> z * y < lo * y;
    assert z >= hi ==> z * y >= hi * y;
  }

  lemma ScaleUp(p: real, q: real, t: real)
    requires p > 0.0
    ensures (p * q) * (1.0 + t / p) == (p + t) * q
  {
    assert p * (1.0 + t / p) == p + t;
    assert (p * q) * (1.0 + t / p) == (p * (1.0 + t / p)) * q;
  }

  lemma ScaleDown(p: real, q: real, r: real, t: real)
    requires p > 0.0 && q > 0.0 && r == p * q && r > 0.0
    ensures p * (1.0 + t / r) == (r + t) / q
  {
    var x := t / r;
    assert x * r == t;
    assert (p * (1.0 + x)) * q == r + t by {
      assert (p * (1.0 + x)) * q == (p * q) * (1.0 + x);
      assert r * (1.0 + x) == r + x * r;
    }
    QuotientOfProduct(p * (1.0 + x), q);
  }

  lemma QuotientOfProduct(x: real, q: real)
    requires q > 0.0
    ensures (x * q) / q == x
  {
  }

  lemma FloorOfFraction(x: real, p: real)
    requires 0.0 <= x < 2.0 && p >= 2.0
    ensures ((1.0 / p) * x).Floor == 0
  {
    assert (1.0 / p) * x == x / p;
    QuotientBounds(x, p, 0.0, 1.0);
    FloorUnique(x / p, 0);
  }

  lemma FloorBelowOne(i: nat, t: nat, n: nat, e: int)
    requires i < 2 && t < Pow2(n) && e < 0
    ensures Scaled(i, t, n, e).Floor == 0
  {
    var p, f := Pow2(-e), t as real / Pow2(n) as real;
    QuotientBounds(t as real, Pow2(n) as real, 0.0, 1.0);
    assert p >= 2;
    hide Pow2;
    FloorOfFraction(i as real + f, p as real);
  }

  lemma FloorAbove(t: nat, n: nat, e: nat)
    requires e > n
    ensures Scaled(1, t, n, e).Floor == Up(Pow2(n) + t, e - n)
  {
    ScaledAbove(t, n, e);
    UpIsMul(Pow2(n) + t, e - n);
    FloorUnique(Scaled(1, t, n, e), Up(Pow2(n) + t, e - n));
  }

  lemma FloorOfScaled(p: nat, q: nat, r: nat, t: nat)
    requires p > 0 && q > 0 && r == p * q && r > 0
    ensures (p as real * (1.0 + t as real / r as real)).Floor == (r + t) / q
  {
    assert r as real == p as real * q as real;
    ScaleDown(p as real, q as real, r as real, t as real);
    FloorOfQuotient(r + t, q);
  }

  lemma FloorUpTo(t: nat, n: nat, e: nat)
    requires e <= n
    ensures Scaled(1, t, n, e).Floor == Shr(Pow2(n) + t, n - e)
  {
    assert Scaled(1, t, n, e).Floor == (Pow2(n) + t) / Pow2(n - e) by {
      assert Pow2(n) == Pow2(e) * Pow2(n - e) by {
        Pow2Add(e, n - e);
      }
      FloorOfScaled(Pow2(e), Pow2(n - e), Pow2(n), t);
    }
    ShrLowAreDivMod(Pow2(n) + t, n - e);
  }

  /** The integer part of a number with an integer bit and n fraction bits: its significand
      shifted left or right by the exponent, and nothing below exponent 0. */
  lemma FloorNormal(t: nat, n: nat, e: int)
    requires t < Pow2(n)
    ensures Scaled(1, t, n, e).Floor
         == if e < 0 then 0 else if e > n then Up(Pow2(n) + t, e - n) else Shr(Pow2(n) + t, n - e)
  {
    if e < 0 {
      FloorBelowOne(1, t, n, e);
    } else if e > n {
      FloorAbove(t, n, e);
    } else {
      FloorUpTo(t, n, e);
    }
  }

  function Significand53(bits: Word64): nat {
    Pow2(SIGNIFICAND_WIDTH) + SignificandField(bits)
  }

  /** The integer part of the magnitude of a finite double is its 53-bit significand shifted
      left or right by its exponent; below exponent 0 it is zero. */
  lemma IntegerPart(bits: Word64)
    requires Decode(bits).Finite?
    ensures
      var e := ExponentField(bits) - EXPONENT_BIAS;
      Decode(bits).magnitude.Floor
        == if e < 0 then 0
           else if e > SIGNIFICAND_WIDTH then Up(Significand53(bits), e - SIGNIFICAND_WIDTH)
           else Shr(Significand53(bits), SIGNIFICAND_WIDTH - e)
  {
    hide Scaled, Up, Shr, Pow2;
    var t := SignificandField(bits);
    assert t < Pow2(SIGNIFICAND_WIDTH) by {
      Pow2Values();
    }
    if ExponentField(bits) == 0 {
      FloorBelowOne(0, t, SIGNIFICAND_WIDTH, 1 - EXPONENT_BIAS);
    } else {
      FloorNormal(t, SIGNIFICAND_WIDTH, ExponentField(bits) - EXPONENT_BIAS);
    }
  }

  // ----- exact values -----

  lemma ScaledInteger(m: nat, e: nat, n: nat)
    requires e <= n && Pow2(e) <= m
    ensures Scaled(1, Up(m - Pow2(e), n - e), n, e) == m as real
  {
    hide Pow2, Up;
    var t, p, q := m - Pow2(e), Pow2(e), Pow2(n - e);
    UpIsMul(t, n - e);
    Pow2Add(e, n - e);
    assert e + (n - e) == n;
    ScaledProduct(t, p, q);
  }

  lemma ScaledProduct(t: nat, p: nat, q: nat)
    requires p > 0 && q > 0
    ensures p * q > 0 && p as real * (1.0 + (t * q) as real / (p * q) as real) == (p + t) as real
  {
    assert p * q > 0;
    var x, y, z := t as real, p as real, q as real;
    assert (t * q) as real == x * z && (p * q) as real == y * z;
    var f := (x * z) / (y * z);
    assert f * y == x by {
      assert (f * y) * z == x * z;
    }
  }

  lemma ScaledAbove(t: nat, n: nat, e: nat)
    requires e >= n
    ensures Scaled(1, t, n, e) == ((Pow2(n) + t) * Pow2(e - n)) as real
  {
    hide Pow2;
    Pow2Add(n, e - n);
    var p, q, r := Pow2(n), Pow2(e - n), Pow2(e);
    assert r == p * q;
    ProductAbove(p, q, r, t);
  }

  lemma ProductAbove(p: nat, q: nat, r: nat, t: nat)
    requires p > 0 && r == p * q
    ensures r as real * (1.0 + t as real / p as real) == ((p + t) * q) as real
  {
    assert r as real == p as real * q as real;
    ScaleUp(p as real, q as real, t as real);
    assert ((p + t) * q) as real == (p as real + t as real) * q as real;
  }
}
