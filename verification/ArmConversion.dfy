/** The 32-bit ARM register program for ToSignedInteger<int32_t>, instruction by instruction,
    against the same arithmetic definition as the generic algorithm. */
module ArmConversion {
  import opened Words
  import opened Ieee754
  import opened Conversions

  type Word32 = x: nat | x < 0x1_0000_0000

  // ----- instructions -----

  function Sub(x: Word32, y: Word32): (r: Word32)
    ensures r == if x >= y then x - y else x + 0x1_0000_0000 - y
  {
    if x >= y then x - y else x + 0x1_0000_0000 - y
  }

  function Add(x: Word32, y: Word32): Word32 {
    if x + y < 0x1_0000_0000 then x + y else x + y - 0x1_0000_0000
  }

  /** The N flag that a flag-setting instruction leaves. */
  predicate Minus(x: Word32) { x >= 0x8000_0000 }

  lemma InWord32(op: BitOp, x: Word32, y: Word32, n: nat)
    ensures Bitwise(op, x, y) < 0x1_0000_0000
    ensures Shl(x, n, 32) < 0x1_0000_0000 && Shr(x, n) < 0x1_0000_0000
  {
    hide Bitwise, Up, Low;
    Pow2Values();
    BitwiseBound(op, x, y, 32);
    Cut(Up(x, n), 32);
    Pow2Mono(32, 32 + n);
    ShrBound(x, 32, n);
  }

  function Orr(x: Word32, y: Word32): Word32 {
    InWord32(OrOp, x, y, 0);
    Or(x, y)
  }

  function Eor(x: Word32, y: Word32): Word32 {
    InWord32(XorOp, x, y, 0);
    Xor(x, y)
  }

  function Bic(x: Word32, y: Word32): Word32 {
    InWord32(AndOp, x, 0xFFFF_FFFF - y, 0);
    And(x, 0xFFFF_FFFF - y)
  }

  function Lsl(x: Word32, n: nat): Word32 {
    InWord32(OrOp, x, x, n);
    Shl(x, n, 32)
  }

  function Lsr(x: Word32, n: nat): Word32 {
    InWord32(OrOp, x, x, n);
    Shr(x, n)
  }

  /** Shift by register: only the low byte of the register counts, and 32 or more gives zero. */
  function LslReg(x: Word32, amount: Word32): Word32 {
    var n := Low(amount, 8);
    if n >= 32 then 0 else Lsl(x, n)
  }

  function LsrReg(x: Word32, amount: Word32): Word32 {
    var n := Low(amount, 8);
    if n >= 32 then 0 else Lsr(x, n)
  }

  /** ASR #31 spreads the top bit over the whole word. */
  function Asr31(x: Word32): Word32 {
    if x >= 0x8000_0000 then 0xFFFF_FFFF else 0
  }

  // ----- extraction of the fields from the two words of the double -----

  function HighWord(bits: Word64): Word32 { bits / 0x1_0000_0000 }

  function LowWord(bits: Word64): Word32 { bits % 0x1_0000_0000 }

  lemma WordsOfDouble(bits: Word64)
    ensures HighWord(bits) == Shr(bits, 32) && LowWord(bits) == Low(bits, 32)
  {
    Pow2Values();
    ShrLowAreDivMod(bits, 32);
  }

  /** mov LSR #20 then bic (1 << 11) leaves the exponent field. */
  lemma ExponentByBic(bits: Word64)
    ensures Bic(Lsr(HighWord(bits), 20), 0x800) == ExponentField(bits)
  {
    hide Shr, Low, Pow2, Bic;
    var x := Lsr(HighWord(bits), 20);
    Pow2Values();
    ShrLowAreDivMod(HighWord(bits), 20);
    assert x == bits / 0x10_0000_0000_0000;
    ClearBit11(x);
  }

  lemma ClearBit11(x: Word32)
    requires x < 0x1000
    ensures Bic(x, 0x800) == x % 0x800
  {
    hide Bitwise, Up, Low, Shr, Pow2;
    var mask := 0xFFFF_F7FF;
    Pow2Values();
    BitwiseSplit(AndOp, x, mask, 12);
    LowSmall(x, 12);
    AndFromZero(Shr(mask, 12));
    UpIsMul(0, 12);
    ShrLowAreDivMod(mask, 12);
    AndMask(x, 11);
    ShrLowAreDivMod(x, 11);
  }

  /** The two subtractions remove the bias; the N flag then says the exponent is negative. */
  lemma ExponentBySub(x: Word32)
    requires x < 0x800
    ensures var t := Sub(Sub(x, 0xFF), 0x300);
      && (Minus(t) <==> x < EXPONENT_BIAS) && (x >= EXPONENT_BIAS ==> t == x - EXPONENT_BIAS)
  {
  }

  /** The upper significand with its implicit one, as the shifted high word holds it. */
  function UpperSignificand(bits: Word64): nat { 0x10_0000 + Low(HighWord(bits), 20) }

  lemma SignificandByWords(bits: Word64)
    ensures Significand53(bits) == Up(UpperSignificand(bits), 32) + LowWord(bits)
    ensures UpperSignificand(bits) < Pow2(21)
  {
    var h := Low(HighWord(bits), 20);
    Pow2Values();
    Cut(HighWord(bits), 20);
    WordsOfDouble(bits);
    ShrLowAreDivMod(bits, 52);
    LowCut(bits, 20, 32);
    UpSum(0x10_0000, h, 32);
    UpIsMul(0x10_0000, 32);
  }

  /** orr (1 << 20) then LSL #11 leaves the upper significand at the top of the word, and keeps
      the sign in bit 31 of the unshifted one. */
  lemma HighWordWithImplicitOne(bits: Word64)
    ensures var r4 := Orr(HighWord(bits), 0x10_0000);
      && Lsl(r4, 11) == Up(UpperSignificand(bits), 11)
      && (Minus(r4) <==> SignField(bits) == 1)
  {
    hide Bitwise, Up, Low, Shr, Pow2;
    var h := HighWord(bits);
    var r4 := Orr(h, 0x10_0000);
    Pow2Values();
    LowUp(r4, 11, 32);
    OrBit(h, 20);
    LowOfSum(h, r4);
    assert Shr(r4, 31) == Shr(h, 31) by {
      ShrBitwise(OrOp, h, 0x10_0000, 31);
      LowSmall(0x10_0000, 31);
      BitwiseZero(Shr(h, 31));
    }
    ShrLowAreDivMod(h, 31);
    ShrLowAreDivMod(r4, 31);
  }

  lemma LowOfSum(h: nat, r4: nat)
    requires r4 == if Bit(h, 20) then h else h + 0x10_0000
    ensures Low(r4, 21) == 0x10_0000 + Low(h, 20)
  {
    hide Up, Low, Shr, Pow2;
    Pow2Values();
    UpIsMul(1, 20);
    AddUp(h, 1, 20);
    LowCut(r4, 1, 20);
    var x := Shr(r4, 20);
    assert Low(x, 1) == 1 by {
      LowOfOdd(x);
    }
  }

  lemma LowOfOdd(x: nat)
    requires x % 2 == 1
    ensures Low(x, 1) == 1
  {
  }

  // ----- shifts by register -----

  lemma ShiftedOut(x: Word32, n: nat)
    requires n >= 32
    ensures Shl(x, n, 32) == 0 && Shr(x, n) == 0
  {
    hide Up, Low, Shr;
    Pow2Values();
    assert Low(Up(x, n), 32) == 0 by {
      UpUp(x, n - 32, 32);
      AddUp(0, Up(x, n - 32), 32);
      LowSmall(0, 32);
    }
    ShrShr(x, 32, n - 32);
    LowSmall(x, 32);
    LowSmall(0, n - 32);
  }

  /** bic and orr push the bits of a long shift above the low byte down into it, above its five
      lowest bits: the register shift then acts as one by the full amount. */
  lemma SaturatedShift(x: Word32, d: Word32)
    requires d < 0x400
    ensures LslReg(x, Orr(d, Lsr(Bic(d, 0xFF), 3))) == Shl(x, d, 32)
  {
    hide Up, Low, Shr, Bitwise;
    SaturatedAmount(d);
    if d >= 32 {
      ShiftedOut(x, d);
    }
  }

  lemma SaturatedAmount(d: Word32)
    requires d < 0x400
    ensures var n := Low(Orr(d, Lsr(Bic(d, 0xFF), 3)), 8); if d < 256 then n == d else n >= 32
  {
    hide Up, Low, Shr, Bitwise, Pow2;
    var c, hi := d / 256, 32 * (d / 256);
    Pow2Values();
    ShrLowAreDivMod(d, 8);
    assert Lsr(Bic(d, 0xFF), 3) == hi by {
      BicIsHighPart(d);
      ShrLowAreDivMod(256 * c, 3);
      assert Pow2(3) == 8 by {
        Pow2Add(8, 3);
      }
    }
    LowBitwise(OrOp, d, hi, 8);
    LowSmall(hi, 8);
    if c == 0 {
      BitwiseZero(d);
    } else {
      OrAtLeast(Low(d, 8), hi);
    }
  }

  lemma BicIsHighPart(d: Word32)
    requires d < 0x400
    ensures Bic(d, 0xFF) == 256 * (d / 256)
  {
    hide Up, Low, Shr, Bitwise, Pow2;
    Pow2Values();
    assert Pow2(24) == 0x100_0000 by {
      Pow2Add(12, 12);
    }
    UpIsMul(0xFF_FFFF, 8);
    AndField(d, 24, 8);
    ShrLowAreDivMod(d, 8);
    LowSmall(Shr(d, 8), 24);
    UpIsMul(d / 256, 8);
  }

  lemma PlainAmount(n: nat)
    requires n < 256
    ensures Low(n, 8) == n
  {
    Pow2Values();
    LowSmall(n, 8);
  }

  // ----- combining the two halves -----

  /** OR of the two separately shifted halves is the shifted significand. */
  lemma CombineHalves(u: nat, l: Word32, e: nat)
    ensures Or(Low(Place(l, 52, e), 32), Low(Place(u, 20, e), 32)) == Low(Place(Up(u, 32) + l, 52, e), 32)
  {
    if e >= 52 {
      CombineAbove(u, l, e);
    } else if e >= 20 {
      CombineBetween(u, l, e);
    } else {
      CombineBelow(u, l, e);
    }
  }

  lemma CombineAbove(u: nat, l: Word32, e: nat)
    requires e >= 52
    ensures Or(Low(Place(l, 52, e), 32), Low(Place(u, 20, e), 32)) == Low(Place(Up(u, 32) + l, 52, e), 32)
  {
    hide Up, Shr, Low, Bitwise;
    var n := e - 52;
    assert Up(u, e - 20) == Up(Up(u, n), 32) by {
      UpUp(u, n, 32);
    }
    assert Up(u, e - 20) == Up(Up(u, 32), n) by {
      UpUp(u, 32, n);
    }
    assert Place(Up(u, 32) + l, 52, e) == Up(Up(u, 32), n) + Place(l, 52, e) by {
      PlaceAt52(Up(u, 32) + l, n);
      PlaceAt52(l, n);
      UpSum(Up(u, 32), l, n);
    }
    AddUp(Place(l, 52, e), Up(u, n), 32);
    AddUp(0, Up(u, n), 32);
    Pow2Values();
    LowSmall(0, 32);
    BitwiseZero(Low(Place(l, 52, e), 32));
  }

  lemma PlaceAt52(x: nat, n: nat)
    ensures Place(x, 52, n + 52) == Up(x, n)
  {
  }

  lemma CombineBetween(u: nat, l: Word32, e: nat)
    requires 20 <= e < 52
    ensures Or(Low(Place(l, 52, e), 32), Low(Place(u, 20, e), 32)) == Low(Place(Up(u, 32) + l, 52, e), 32)
  {
    hide Up, Shr, Low, Bitwise;
    var k, n := e - 20, 52 - e;
    var b := Shr(l, n);
    assert Place(u, 20, e) == Up(u, k) by {
      PlaceAt20(u, k);
    }
    assert Up(u, 32) == Up(Up(u, k), n) by {
      UpUp(u, k, n);
    }
    AddUp(l, Up(u, k), n);
    Pow2Values();
    ShrBound(l, k, n);
    Pow2Mono(k, 32);
    LowSmall(b, 32);
    LowUpPlus(u, b, k, 32);
    LowUpPlus(u, 0, k, 32);
    OrDisjoint(Low(u, 32 - k), b, k);
  }

  lemma PlaceAt20(x: nat, n: nat)
    ensures Place(x, 20, n + 20) == Up(x, n)
  {
  }

  lemma CombineBelow(u: nat, l: Word32, e: nat)
    requires e < 20
    ensures Or(Low(Place(l, 52, e), 32), Low(Place(u, 20, e), 32)) == Low(Place(Up(u, 32) + l, 52, e), 32)
  {
    hide Up, Shr, Low, Bitwise;
    var n := 20 - e;
    assert Place(l, 52, e) == 0 by {
      ShiftedOut(l, 52 - e);
    }
    assert Place(Up(u, 32) + l, 52, e) == Place(u, 20, e) by {
      ShrShr(Up(u, 32) + l, 32, n);
      AddUp(l, u, 32);
      Pow2Values();
      LowSmall(l, 32);
    }
    Pow2Values();
    LowSmall(0, 32);
    BitwiseZero(Low(Place(u, 20, e), 32));
  }

  /** The shift of the lower word, by exp - 52 to the left or by 52 - exp to the right. */
  lemma LowerHalf(l: Word32, e: Word32)
    requires e <= 1024
    ensures var d := Sub(e, 52);
      && (Minus(d) ==> LsrReg(l, Sub(52, e)) == Low(Place(l, 52, e), 32))
      && (!Minus(d) ==> LslReg(l, Orr(d, Lsr(Bic(d, 0xFF), 3))) == Low(Place(l, 52, e), 32))
  {
    hide Up, Low, Shr, Bitwise, Pow2;
    if e < 52 {
      PlainAmount(52 - e);
      Pow2Values();
      LowSmall(Lsr(l, 52 - e), 32);
      if 52 - e >= 32 {
        ShiftedOut(l, 52 - e);
      }
    } else {
      SaturatedShift(l, e - 52);
      if e == 52 {
        PlaceUnmoved(l, 52);
      }
    }
  }

  lemma PlaceUnmoved(x: nat, n: nat)
    ensures Place(x, n, n) == Up(x, 0) == x
  {
  }

  /** The shift of the upper word, pre-shifted by 11, by exp - 31 to the left or 31 - exp to the
      right. */
  lemma UpperHalf(u: nat, e: Word32)
    requires u < Pow2(21) && e <= 1024 && Up(u, 11) < 0x1_0000_0000
    ensures var d := Sub(e, 31);
      && (Minus(d) ==> LsrReg(Up(u, 11), Sub(0, d)) == Low(Place(u, 20, e), 32))
      && (!Minus(d) ==> LslReg(Up(u, 11), Orr(d, Lsr(Bic(d, 0xFF), 3))) == Low(Place(u, 20, e), 32))
  {
    hide Up, Low, Shr, Bitwise, Pow2;
    if e < 31 {
      PlainAmount(31 - e);
      ShrUp(u, 11, 31 - e);
      if e == 20 {
        PlaceUnmoved(u, 20);
      }
      Pow2Values();
      LowSmall(Lsr(Up(u, 11), 31 - e), 32);
    } else {
      SaturatedShift(Up(u, 11), e - 31);
      UpUp(u, 11, e - 31);
    }
  }

  lemma UpperFits(u: nat)
    requires u < Pow2(21)
    ensures Up(u, 11) < 0x1_0000_0000
  {
    Pow2Values();
    UpBound(u, 21, 11);
  }

  /** eor with ASR #31, then add of LSR #31, negates exactly when the sign bit is set. */
  lemma NegateBySign(q: Word32, r4: Word32)
    ensures Add(Eor(q, Asr31(r4)), Lsr(r4, 31)) == if Minus(r4) then Low(0x1_0000_0000 - q, 32) else q
  {
    hide Up, Low, Shr, Bitwise, Pow2;
    Pow2Values();
    ShrLowAreDivMod(r4, 31);
    if Minus(r4) {
      BitwiseOnes(q, 32);
      ShrLowAreDivMod(0x1_0000_0000 - q, 32);
    } else {
      BitwiseZero(q);
    }
  }

  /** The halves combined and the sign applied give the residue of the truncated double. */
  lemma SignedAnswer(bits: Word64, e: nat, r4: Word32)
    requires ExponentField(bits) == e + EXPONENT_BIAS
    requires Minus(r4) <==> SignField(bits) == 1
    ensures
      var lower := Low(Place(LowWord(bits), 52, e), 32);
      var upper := Low(Place(UpperSignificand(bits), 20, e), 32);
      && lower < 0x1_0000_0000 && upper < 0x1_0000_0000
      && Add(Eor(Orr(lower, upper), Asr31(r4)), Lsr(r4, 31)) == Residue(Decode(bits), 32)
  {
    hide Residue, Place, Significand53, Decode, Low, Up, Bitwise, MagnitudeResidue;
    SignificandByWords(bits);
    CombineHalves(UpperSignificand(bits), LowWord(bits), e);
    MagnitudeByPlace(bits, e, 32);
    ApplySign(bits, 32);
    LowIn32(Place(LowWord(bits), 52, e));
    LowIn32(Place(UpperSignificand(bits), 20, e));
    var lower := Low(Place(LowWord(bits), 52, e), 32);
    var upper := Low(Place(UpperSignificand(bits), 20, e), 32);
    OrrIsOr(lower, upper);
    NegateBySign(Orr(lower, upper), r4);
    NotPlusOne(Orr(lower, upper));
  }

  lemma NotPlusOne(q: Word32)
    ensures q < Pow2(32) && Not(q, 32) + 1 == 0x1_0000_0000 - q
  {
    Pow2Values();
  }

  lemma LowIn32(x: nat)
    ensures Low(x, 32) < 0x1_0000_0000
  {
    Pow2Values();
    Cut(x, 32);
  }

  lemma OrrIsOr(x: Word32, y: Word32)
    ensures Orr(x, y) == Or(x, y)
  {
  }

  lemma ZeroAnswer(bits: Word64)
    requires ExponentField(bits) < EXPONENT_BIAS
    ensures Residue(Decode(bits), 32) == 0
  {
    NegativeExponentIsZero(bits, 32);
  }

  lemma ExponentRange(bits: Word64)
    ensures ExponentField(bits) < 0x800
  {
  }

  method ToSignedInteger32(bits: Word64) returns (i: int)
    ensures i == WrapToSigned(Residue(Decode(bits), 32), 32)
  {
    hide *;
    var q4: Word32, r4: Word32 := LowWord(bits), HighWord(bits);
    var tmp0: Word32, tmp1: Word32, tmp2: Word32 := 0, 0, 0;

    tmp0 := Lsr(r4, 20);
    tmp0 := Bic(tmp0, 0x800);
    r4 := Orr(r4, 0x10_0000);
    tmp0 := Sub(tmp0, 0xFF);
    tmp0 := Sub(tmp0, 0x300);
    ExponentByBic(bits);
    ExponentRange(bits);
    ExponentBySub(ExponentField(bits));
    HighWordWithImplicitOne(bits);

    var out: Word32 := 0;
    if Minus(tmp0) {
      ZeroAnswer(bits);
    } else {
      ghost var e, u := tmp0, UpperSignificand(bits);
      // Lower mantissa.
      LowerHalf(q4, e);
      tmp2 := Sub(tmp0, 52);
      if !Minus(tmp2) {
        tmp1 := Bic(tmp2, 0xFF);
        tmp2 := Orr(tmp2, Lsr(tmp1, 3));
        q4 := LslReg(q4, tmp2);
      } else {
        tmp2 := Sub(52, tmp0);
        q4 := LsrReg(q4, tmp2);
      }

      // Upper mantissa.
      SignificandByWords(bits);
      UpperFits(u);
      UpperHalf(u, e);
      tmp2 := Sub(tmp0, 31);
      var minus := Minus(tmp2);
      tmp0 := Lsl(r4, 11);
      if !minus {
        tmp1 := Bic(tmp2, 0xFF);
        tmp2 := Orr(tmp2, Lsr(tmp1, 3));
        tmp1 := LslReg(tmp0, tmp2);
      } else {
        tmp2 := Sub(0, tmp2);
        tmp1 := LsrReg(tmp0, tmp2);
      }

      // Combine, then negate if the sign bit is set.
      SignedAnswer(bits, e, r4);
      q4 := Orr(q4, tmp1);
      q4 := Eor(q4, Asr31(r4));
      out := Add(q4, Lsr(r4, 31));
    }
    i := WrapToSigned(out, 32);
  }
}
