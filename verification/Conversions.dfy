/** ECMAScript conversion of a double to a fixed-width integer: the bit-level algorithm
    against the arithmetic definition sign(d) * floor(abs(d)) mod 2^w. */
module Conversions {
  import opened Words
  import opened Ieee754

  const K_EXPONENT_BITS: nat := 0x7FF0_0000_0000_0000
  const K_SIGN_BIT: nat := 0x8000_0000_0000_0000

  /** The widths in bits of the unsigned types the conversion is instantiated at. */
  type Width = w: nat | w == 8 || w == 16 || w == 32 || w == 64 witness 8

  // ----- arithmetic definition -----

  function Truncated(d: Double): int
    requires d.Finite?
  {
    if d.negative then -d.magnitude.Floor else d.magnitude.Floor
  }

  function Residue(d: Double, w: nat): nat {
    if d.Finite? then Truncated(d) % Pow2(w) else 0
  }

  function WrapToSigned(u: nat, w: nat): int
    requires w > 0
  {
    var maxValue: int := Pow2(w - 1) - 1;
    var minValue: int := -maxValue - 1;
    if u <= maxValue then u else (u - (maxValue + 1)) + minValue
  }

  // ----- shifting a 64-bit pattern so that the bit above the significand lands at e -----

  function Place(x: nat, n: nat, e: nat): nat {
    if e > n then Up(x, e - n) else Shr(x, n - e)
  }

  /** Whatever sits above an n-bit significand is carried to position e; the significand's part
      of the result stays below it. */
  lemma PlaceSplits(k: nat, t: nat, n: nat, e: nat)
    ensures Place(Up(k, n) + t, n, e) == Up(k, e) + Place(t, n, e)
  {
    hide Up, Shr;
    if e > n {
      UpSum(Up(k, n), t, e - n);
      assert Up(Up(k, n), e - n) == Up(k, e) by {
        UpUp(k, n, e - n);
      }
    } else {
      assert Up(Up(k, e), n - e) == Up(k, n) by {
        UpUp(k, e, n - e);
      }
      AddUp(t, Up(k, e), n - e);
    }
  }

  lemma PlaceBound(t: nat, n: nat, e: nat)
    requires t < Pow2(n)
    ensures Place(t, n, e) < Pow2(e)
  {
    if e > n {
      UpBound(t, n, e - n);
    } else {
      ShrBound(t, e, n - e);
    }
  }

  lemma PlaceLeadingOne(t: nat, n: nat, e: nat)
    ensures Place(Pow2(n) + t, n, e) == Up(1, e) + Place(t, n, e)
  {
    UpOne(n);
    PlaceSplits(1, t, n, e);
  }

  /** The claim that one test on the exponent fixes both the bogus bits and the implicit bit.
      A pattern with k above the significand, placed at e, leaves Up(k, e) + f, where the wanted
      value is Up(1, e) + f. Below the width, masking off everything from e up and adding 2^e
      gives the wanted residue; from the width on, nothing needs fixing. */
  lemma OneTestSuffices(k: nat, f: nat, e: nat, w: nat)
    requires f < Pow2(e)
    ensures e < w ==> And(Low(Up(k, e) + f, w), Pow2(e) - 1) == f
    ensures e < w ==> f + Pow2(e) < Pow2(w) && Low(Up(1, e) + f, w) == f + Pow2(e)
    ensures e >= w ==> Low(Up(k, e) + f, w) == Low(Up(1, e) + f, w)
  {
    if e < w {
      FixBelowWidth(k, f, e, w);
    } else {
      UpUp(k, e - w, w);
      UpUp(1, e - w, w);
      AddUp(f, Up(k, e - w), w);
      AddUp(f, Up(1, e - w), w);
    }
  }

  lemma FixBelowWidth(k: nat, f: nat, e: nat, w: nat)
    requires f < Pow2(e) && e < w
    ensures And(Low(Up(k, e) + f, w), Pow2(e) - 1) == f
    ensures f + Pow2(e) < Pow2(w) && Low(Up(1, e) + f, w) == f + Pow2(e)
  {
    UpOne(e);
    AndMask(Low(Up(k, e) + f, w), e);
    LowLow(Up(k, e) + f, e, w);
    AddUp(f, k, e);
    LowSmall(f, e);
    Pow2Mono(e + 1, w);
    LowSmall(f + Pow2(e), w);
  }

  /** From exponent n + w on, every bit of the integer lies above the result. */
  lemma LargeExponentIsZero(x: nat, n: nat, e: nat, w: nat)
    requires e >= n + w
    ensures Low(Place(x, n, e), w) == 0
  {
    if e > n {
      UpUp(x, e - n - w, w);
      AddUp(0, Up(x, e - n - w), w);
      LowSmall(0, w);
    }
  }

  // ----- reading the fields of the pattern -----

  lemma ExponentByMask(bits: Word64)
    ensures Shr(And(bits, K_EXPONENT_BITS), SIGNIFICAND_WIDTH) == ExponentField(bits)
  {
    AndField(bits, EXPONENT_WIDTH, SIGNIFICAND_WIDTH);
    Pow2Values();
    UpIsMul(0x7FF, SIGNIFICAND_WIDTH);
    ShrLowAreDivMod(bits, SIGNIFICAND_WIDTH);
    ShrLowAreDivMod(bits / 0x10_0000_0000_0000, EXPONENT_WIDTH);
  }

  lemma SignByMask(bits: Word64)
    ensures And(bits, K_SIGN_BIT) != 0 <==> SignField(bits) == 1
  {
    AndBit(bits, 63);
    Pow2Values();
    ShrLowAreDivMod(bits, 63);
  }

  /** Sign and exponent together: what sits above the significand. */
  function UpperField(bits: Word64): nat { SignField(bits) * 0x800 + ExponentField(bits) }

  lemma PatternSplits(bits: Word64)
    ensures bits == Up(UpperField(bits), SIGNIFICAND_WIDTH) + SignificandField(bits)
    ensures SignificandField(bits) < Pow2(SIGNIFICAND_WIDTH)
  {
    Pow2Values();
    FieldsCompose(bits);
    UpIsMul(UpperField(bits), SIGNIFICAND_WIDTH);
  }

  // ----- the generic algorithm -----

  /** The residue of the magnitude, before the sign is applied. */
  function MagnitudeResidue(bits: Word64, w: nat): nat {
    var d := Decode(bits);
    if d.Finite? then d.magnitude.Floor % Pow2(w) else 0
  }

  lemma ApplySign(bits: Word64, w: nat)
    ensures MagnitudeResidue(bits, w) < Pow2(w)
    ensures Residue(Decode(bits), w)
         == if SignField(bits) == 1 then Low(Not(MagnitudeResidue(bits, w), w) + 1, w)
            else MagnitudeResidue(bits, w)
  {
    var p, u := Pow2(w), MagnitudeResidue(bits, w);
    var d := Decode(bits);
    ShrLowAreDivMod(p - u, w);
    if d.Finite? {
      NegMod(d.magnitude.Floor, p);
    } else {
      assert p % p == 0;
    }
  }

  lemma NegMod(x: int, d: int)
    requires d > 0
    ensures (-x) % d == (d - x % d) % d
  {
    var q, r := x / d, x % d;
    assert x == q * d + r;
    if r == 0 {
      assert -x == (-q) * d + 0;
      DivModUnique(-x, d, -q, 0);
      DivModUnique(d, d, 1, 0);
    } else {
      assert -x == (-q - 1) * d + (d - r) by {
        assert (-q - 1) * d == -q * d - d;
      }
      DivModUnique(-x, d, -q - 1, d - r);
      DivModUnique(d - r, d, 0, d - r);
    }
  }

  /** For exponents from 0 on, the magnitude's residue is that of the 53-bit significand placed
      at the exponent. This covers infinities and NaNs, whose exponent field is all ones: their
      significand is shifted out of the result altogether. */
  lemma MagnitudeByPlace(bits: Word64, e: nat, w: Width)
    requires ExponentField(bits) == e + EXPONENT_BIAS
    ensures MagnitudeResidue(bits, w) == Low(Place(Significand53(bits), SIGNIFICAND_WIDTH, e), w)
    ensures e >= SIGNIFICAND_WIDTH + w ==> MagnitudeResidue(bits, w) == 0
  {
    hide Place, Low, Significand53;
    var sig := Significand53(bits);
    if e >= SIGNIFICAND_WIDTH + w {
      LargeExponentIsZero(sig, SIGNIFICAND_WIDTH, e, w);
    }
    if Decode(bits).Finite? {
      FloorByPlace(bits, e);
      ShrLowAreDivMod(Place(sig, SIGNIFICAND_WIDTH, e), w);
    }
  }

  lemma FloorByPlace(bits: Word64, e: nat)
    requires ExponentField(bits) == e + EXPONENT_BIAS && Decode(bits).Finite?
    ensures Decode(bits).magnitude.Floor == Place(Significand53(bits), SIGNIFICAND_WIDTH, e)
  {
    IntegerPart(bits);
  }

  /** Below exponent 0 the magnitude is under one; this covers the subnormals and both zeros. */
  lemma NegativeExponentIsZero(bits: Word64, w: nat)
    requires ExponentField(bits) < EXPONENT_BIAS
    ensures Residue(Decode(bits), w) == 0
  {
    IntegerPart(bits);
    DivModUnique(0, Pow2(w), 0, 0);
  }

  /** What the shift of the raw pattern leaves in the result, bogus bits included. */
  lemma RawShift(bits: Word64, e: nat, w: Width)
    ensures
      (if e > SIGNIFICAND_WIDTH then Low(Shl(bits, e - SIGNIFICAND_WIDTH, 64), w)
       else Low(Shr(bits, SIGNIFICAND_WIDTH - e), w))
      == Low(Up(UpperField(bits), e) + Place(SignificandField(bits), SIGNIFICAND_WIDTH, e), w)
    ensures Place(SignificandField(bits), SIGNIFICAND_WIDTH, e) < Pow2(e)
  {
    hide Up, Shr, Low, UpperField, SignificandField;
    PatternSplits(bits);
    PlaceSplits(UpperField(bits), SignificandField(bits), SIGNIFICAND_WIDTH, e);
    PlaceBound(SignificandField(bits), SIGNIFICAND_WIDTH, e);
    if e > SIGNIFICAND_WIDTH {
      LowLow(Up(bits, e - SIGNIFICAND_WIDTH), w, 64);
    }
  }

  lemma ZeroResidue(bits: Word64, w: nat)
    requires MagnitudeResidue(bits, w) == 0
    ensures Residue(Decode(bits), w) == 0
  {
    ApplySign(bits, w);
    UpOne(w);
    AddUp(0, 1, w);
    LowSmall(0, w);
  }

  lemma SignificandPlaced(bits: Word64, e: nat)
    ensures Place(Significand53(bits), SIGNIFICAND_WIDTH, e)
         == Up(1, e) + Place(SignificandField(bits), SIGNIFICAND_WIDTH, e)
  {
    hide Place, Up;
    PlaceLeadingOne(SignificandField(bits), SIGNIFICAND_WIDTH, e);
  }

  method ToUnsignedInteger(bits: Word64, w: Width) returns (result: nat)
    ensures result == Residue(Decode(bits), w)
  {
    hide *;
    ExponentByMask(bits);
    var exp := Shr(And(bits, K_EXPONENT_BITS), SIGNIFICAND_WIDTH) - EXPONENT_BIAS;
    if exp < 0 {
      NegativeExponentIsZero(bits, w);
      return 0;
    }
    var exponent: nat := exp;
    MagnitudeByPlace(bits, exponent, w);
    SignificandPlaced(bits, exponent);
    if exponent >= SIGNIFICAND_WIDTH + w {
      ZeroResidue(bits, w);
      return 0;
    }

    result := if exponent > SIGNIFICAND_WIDTH
              then Low(Shl(bits, exponent - SIGNIFICAND_WIDTH, 64), w)
              else Low(Shr(bits, SIGNIFICAND_WIDTH - exponent), w);
    ghost var f := Place(SignificandField(bits), SIGNIFICAND_WIDTH, exponent);
    RawShift(bits, exponent, w);
    OneTestSuffices(UpperField(bits), f, exponent, w);

    if exponent < w {
      var implicitOne := Shl(1, exponent, w);
      OneShifted(exponent, w);
      result := And(result, implicitOne - 1);
      result := Low(result + implicitOne, w);
      LowSmall(f + Pow2(exponent), w);
    }
    ApplySign(bits, w);
    SignByMask(bits);
    if And(bits, K_SIGN_BIT) != 0 {
      result := Low(Not(result, w) + 1, w);
    }
  }

  // ----- signed results -----

  /** The w-bit signed integers congruent to u modulo 2^w: there is exactly one. */
  predicate IsSignedResidue(r: int, u: int, w: nat)
    requires w > 0
  {
    -(Pow2(w - 1) as int) <= r < Pow2(w - 1) && r % Pow2(w) == u % Pow2(w)
  }

  lemma WrapIsSignedResidue(u: nat, w: nat)
    requires w > 0 && u < Pow2(w)
    ensures IsSignedResidue(WrapToSigned(u, w), u, w)
  {
    var p := Pow2(w);
    DivModUnique(u, p, 0, u);
    if u > Pow2(w - 1) - 1 {
      DivModUnique(u - p, p, -1, u);
    }
  }

  lemma SignedResidueUnique(r: int, r': int, u: int, w: nat)
    requires w > 0 && IsSignedResidue(r, u, w) && IsSignedResidue(r', u, w)
    ensures r == r'
  {
    CongruentWithin(r, r', Pow2(w));
  }

  lemma CongruentWithin(x: int, y: int, d: int)
    requires d > 0 && x % d == y % d && -d < x - y < d
    ensures x == y
  {
    var q, q' := x / d, y / d;
    assert x == q * d + x % d && y == q' * d + y % d;
    OneMoreTimes(q, d);
    OneMoreTimes(q', d);
    if q < q' {
      TimesMono(q + 1, q', d);
    } else if q' < q {
      TimesMono(q' + 1, q, d);
    }
  }

  lemma ResidueBound(d: Double, w: nat)
    ensures Residue(d, w) < Pow2(w)
    ensures d.Finite? ==> Residue(d, w) % Pow2(w) == Truncated(d) % Pow2(w)
  {
    if d.Finite? {
      DivModUnique(Residue(d, w), Pow2(w), 0, Residue(d, w));
    }
  }

  /** The signed conversion is the one w-bit signed integer congruent to the truncated double,
      and zero for a NaN or an infinity. */
  method ToSignedInteger(bits: Word64, w: Width) returns (r: int)
    ensures r == WrapToSigned(Residue(Decode(bits), w), w)
    ensures Decode(bits).Finite? ==> IsSignedResidue(r, Truncated(Decode(bits)), w)
    ensures !Decode(bits).Finite? ==> r == 0
  {
    var u := ToUnsignedInteger(bits, w);
    ResidueBound(Decode(bits), w);
    WrapIsSignedResidue(u, w);
    r := WrapToSigned(u, w);
  }

  // ----- agreement between widths and with the int32 fast paths -----

  lemma ModOfMod(x: int, d: int, c: int)
    requires d > 0 && c > 0
    ensures d * c > 0 && (x % (d * c)) % d == x % d
  {
    var m := d * c;
    assert m > 0;
    var q, r := x / m, x % m;
    var q', r' := r / d, r % d;
    assert x == (q * c + q') * d + r' by {
      assert (q * c + q') * d == q * c * d + q' * d;
      assert q * c * d == q * m;
    }
    DivModUnique(x, d, q * c + q', r');
  }

  /** A narrower result is the low bits of any wider one. */
  lemma NarrowIsLowBitsOfWide(d: Double, narrow: nat, wide: nat)
    requires narrow <= wide
    ensures Residue(d, narrow) == Low(Residue(d, wide), narrow)
  {
    ShrLowAreDivMod(Residue(d, wide), narrow);
    if d.Finite? {
      Pow2Add(narrow, wide - narrow);
      ModOfMod(Truncated(d), Pow2(narrow), Pow2(wide - narrow));
    } else {
      DivModUnique(0, Pow2(narrow), 0, 0);
    }
  }

  predicate IsInt32(v: int) { -0x8000_0000 <= v < 0x8000_0000 }

  /** A double that holds the integer v. */
  predicate Holds(d: Double, v: int) { d.Finite? && d.Value() == v as real }

  /** The cast of an int32 to an integer type of w bits: the unsigned type takes the value
      modulo 2^w, the signed type its wrapped form. */
  function CastUnsigned(v: int, w: nat): nat { v % Pow2(w) }

  function CastSigned(v: int, w: nat): int
    requires w > 0
  {
    WrapToSigned(CastUnsigned(v, w), w)
  }

  /** Every int32 is some double. */
  function EncodeInt32(v: int): (bits: Word64)
    requires IsInt32(v)
  {
    if v == 0 then 0
    else
      var m: nat := if v < 0 then -v else v;
      var e := Log2(m);
      Log2Bounds(m);
      EncodedInRange(m, e);
      (if v < 0 then 0x8000_0000_0000_0000 else 0)
        + (e + EXPONENT_BIAS) * 0x10_0000_0000_0000 + Up(m - Pow2(e), SIGNIFICAND_WIDTH - e)
  }

  /** Position of the highest set bit. */
  function Log2(m: nat): nat
    requires m > 0
  {
    if m == 1 then 0 else 1 + Log2(m / 2)
  }

  lemma {:induction false} Log2Bounds(m: nat)
    requires m > 0
    ensures Pow2(Log2(m)) <= m < Pow2(Log2(m) + 1)
    ensures m <= 0x8000_0000 ==> Log2(m) <= 31
  {
    if m > 1 {
      Log2Bounds(m / 2);
    }
    if m <= 0x8000_0000 && Log2(m) > 31 {
      Pow2Mono(32, Log2(m));
      Pow2Values();
      assert false;
    }
  }

  lemma EncodedInRange(m: nat, e: nat)
    requires e <= 31 && Pow2(e) <= m < Pow2(e + 1)
    ensures Up(m - Pow2(e), SIGNIFICAND_WIDTH - e) < 0x10_0000_0000_0000
  {
    UpBound(m - Pow2(e), e, SIGNIFICAND_WIDTH - e);
    Pow2Values();
  }

  /** The pattern built for an int32 decodes to it, so the claims about doubles that hold an
      int32 speak of every int32. */
  lemma EncodeInt32Holds(v: int)
    requires IsInt32(v)
    ensures Holds(Decode(EncodeInt32(v)), v)
  {
    if v != 0 {
      var m: nat := if v < 0 then -v else v;
      var e := Log2(m);
      Log2Bounds(m);
      EncodedInRange(m, e);
      ScaledInteger(m, e, SIGNIFICAND_WIDTH);
      EncodedFields(v, m, e);
    }
  }

  lemma EncodedFields(v: int, m: nat, e: nat)
    requires IsInt32(v) && v != 0 && m == (if v < 0 then -v else v)
    requires e == Log2(m) && e <= 31 && Pow2(e) <= m
    requires Up(m - Pow2(e), SIGNIFICAND_WIDTH - e) < 0x10_0000_0000_0000
    ensures var bits := EncodeInt32(v);
      && SignField(bits) == (if v < 0 then 1 else 0) && ExponentField(bits) == e + EXPONENT_BIAS
      && SignificandField(bits) == Up(m - Pow2(e), SIGNIFICAND_WIDTH - e)
  {
    hide Up, Log2, SignField, ExponentField, SignificandField;
    FieldsOfSum(if v < 0 then 1 else 0, e + EXPONENT_BIAS, Up(m - Pow2(e), SIGNIFICAND_WIDTH - e));
  }

  lemma FieldsOfSum(sign: nat, exponent: nat, significand: nat)
    requires sign < 2 && exponent < 0x800 && significand < 0x10_0000_0000_0000
    ensures var bits := sign * 0x8000_0000_0000_0000 + exponent * 0x10_0000_0000_0000 + significand;
      && bits < 0x1_0000_0000_0000_0000 && SignField(bits) == sign
      && ExponentField(bits) == exponent && SignificandField(bits) == significand
  {
  }

  /** The cast taken on the int32 fast paths equals the conversion of the double holding the
      same number, at every width, signed and unsigned. */
  lemma FastPathAgrees(v: int, d: Double, w: Width)
    requires IsInt32(v) && Holds(d, v)
    ensures Residue(d, w) == CastUnsigned(v, w)
    ensures WrapToSigned(Residue(d, w), w) == CastSigned(v, w)
    ensures w >= 32 ==> WrapToSigned(Residue(d, w), w) == v
  {
    assert Truncated(d) == v by {
      if d.negative {
        FloorUnique(d.magnitude, -v);
      } else {
        FloorUnique(d.magnitude, v);
      }
    }
    if w >= 32 {
      Pow2Values();
      Pow2Mono(31, w - 1);
      ResidueBound(d, w);
      WrapIsSignedResidue(Residue(d, w), w);
      SignedResidueUnique(WrapToSigned(Residue(d, w), w), v, v, w);
    }
  }
}
