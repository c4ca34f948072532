/** ToInteger on doubles and the clipping of a time value to the range of ECMAScript dates. */
module Date {
  import opened Words
  import opened Ieee754
  import opened Conversions

  const MAX_TIME_MAGNITUDE: real := 8640000000000000.0
  const POSITIVE_ZERO := Finite(false, 0.0)

  function ToInteger(d: Double): Double {
    match d
    case NaN => POSITIVE_ZERO
    case Infinity(_) => d
    case Finite(negative, magnitude) =>
      if magnitude == 0.0 then POSITIVE_ZERO
      else PlusPositiveZero(Finite(negative, magnitude.Floor as real))
  }

  /** Adding +0 turns -0 into +0 and leaves every other double alone. */
  function PlusPositiveZero(d: Double): Double {
    if d == Finite(true, 0.0) then POSITIVE_ZERO else d
  }

  /** A time value that is either invalid (NaN) or clipped. */
  datatype ClippedTime = ClippedTime(t: Double) {
    predicate IsValid() { t != NaN }
  }

  function TimeClip(time: Double): ClippedTime {
    if !time.Finite? || time.magnitude > MAX_TIME_MAGNITUDE then ClippedTime(NaN)
    else ClippedTime(ToInteger(time))
  }

  // ----- ToInteger stays within the doubles -----

  /** The double with its fraction bits cleared. */
  function ClearFraction(bits: Word64): (r: Word64) {
    var e := ExponentField(bits) - EXPONENT_BIAS;
    if e < 0 then 0
    else if e < SIGNIFICAND_WIDTH then
      LowAtMost(SignificandField(bits), SIGNIFICAND_WIDTH - e);
      bits - Low(SignificandField(bits), SIGNIFICAND_WIDTH - e)
    else bits
  }

  lemma ClearedFields(bits: Word64, low: nat)
    requires low <= SignificandField(bits)
    ensures bits - low >= 0 && SignField(bits - low) == SignField(bits)
    ensures ExponentField(bits - low) == ExponentField(bits)
    ensures SignificandField(bits - low) == SignificandField(bits) - low
  {
    FieldsCompose(bits);
  }

  /** Truncation never needs rounding: for every finite double the truncated value is again a
      double, so working with reals loses nothing. */
  lemma TruncationIsADouble(bits: Word64)
    requires Decode(bits).Finite?
    ensures PlusPositiveZero(Decode(ClearFraction(bits))) == ToInteger(Decode(bits))
  {
    IntegerPart(bits);
    var e, t := ExponentField(bits) - EXPONENT_BIAS, SignificandField(bits);
    if e < 0 {
      DecodeOfZero();
    } else if e < SIGNIFICAND_WIDTH {
      TruncateBelow52(bits, e);
    } else {
      ExactAbove52(bits, e);
    }
  }

  lemma DecodeOfZero()
    ensures Decode(0) == POSITIVE_ZERO
  {
  }

  lemma TruncateBelow52(bits: Word64, e: nat)
    requires ExponentField(bits) == e + EXPONENT_BIAS && e < SIGNIFICAND_WIDTH
    ensures Decode(ClearFraction(bits)) == ToInteger(Decode(bits))
  {
    hide Scaled, Pow2, Up, Shr, Low, SignField, ExponentField, SignificandField;
    var t, n := SignificandField(bits), SIGNIFICAND_WIDTH - e;
    var low := Low(t, n);
    Cut(t, n);
    ClearedFields(bits, low);
    var m := Pow2(e) + Shr(t, n);
    PlaceLeadingOne(t, SIGNIFICAND_WIDTH, e);
    UpOne(e);
    ScaledInteger(m, e, SIGNIFICAND_WIDTH);
    IntegerPart(bits);
  }

  lemma ExactAbove52(bits: Word64, e: nat)
    requires ExponentField(bits) == e + EXPONENT_BIAS && e >= SIGNIFICAND_WIDTH
    requires Decode(bits).Finite?
    ensures Decode(bits) == ToInteger(Decode(bits))
  {
    hide Scaled, Pow2;
    ScaledAbove(SignificandField(bits), SIGNIFICAND_WIDTH, e);
    var v := (Pow2(SIGNIFICAND_WIDTH) + SignificandField(bits)) * Pow2(e - SIGNIFICAND_WIDTH);
    FloorUnique(Decode(bits).magnitude, v);
  }

  /** ToInteger on every kind of double: zero for a NaN, an infinity as it is, and the truncated value of
      a finite one, never negative zero. */
  lemma ToIntegerMeaning(d: Double)
    requires WellFormed(d)
    ensures d.NaN? ==> ToInteger(d) == Finite(false, 0.0)
    ensures d.Infinity? ==> ToInteger(d) == d
    ensures d.Finite? ==>
      var r := ToInteger(d);
      r.Finite? && WellFormed(r) && r.Value() == Truncated(d) as real && r != Finite(true, 0.0)
  {
  }

  // ----- TimeClip -----

  predicate WellFormed(d: Double) { d.Finite? ==> d.magnitude >= 0.0 }

  /** TimeClip is valid exactly for finite times of magnitude at most 8.64e15; the result is then
      the time truncated toward zero, still in range, and never negative zero. */
  lemma TimeClipMeaning(time: Double)
    requires WellFormed(time)
    ensures TimeClip(time).IsValid() <==> time.Finite? && -8640000000000000.0 <= time.Value() <= 8640000000000000.0
    ensures TimeClip(time).IsValid() ==>
      var r := TimeClip(time).t;
      && r.Finite? && r.Value() == Truncated(time) as real && WellFormed(r)
      && -MAX_TIME_MAGNITUDE <= r.Value() <= MAX_TIME_MAGNITUDE && r != Finite(true, 0.0)
  {
  }

  lemma TimeClipIdempotent(time: Double)
    requires WellFormed(time)
    ensures TimeClip(TimeClip(time).t) == TimeClip(time)
  {
    TimeClipMeaning(time);
  }

  lemma TimeClipMonotone(x: Double, y: Double)
    requires WellFormed(x) && WellFormed(y) && TimeClip(x).IsValid() && TimeClip(y).IsValid()
    requires x.Value() <= y.Value()
    ensures TimeClip(x).t.Value() <= TimeClip(y).t.Value()
  {
    hide TimeClip, ToInteger, Truncated;
    TimeClipMeaning(x);
    TimeClipMeaning(y);
    TruncatedMono(x, y);
  }

  lemma TruncatedMono(x: Double, y: Double)
    requires WellFormed(x) && WellFormed(y) && x.Finite? && y.Finite? && x.Value() <= y.Value()
    ensures Truncated(x) <= Truncated(y)
  {
    FloorMono(x.magnitude, y.magnitude);
    FloorMono(y.magnitude, x.magnitude);
  }

  lemma FloorMono(a: real, b: real)
    ensures a <= b ==> a.Floor <= b.Floor
    ensures 0.0 <= a ==> 0 <= a.Floor
  {
  }

  /** Every pattern decodes to a well-formed double, so the lemmas above speak of all doubles. */
  lemma DecodedIsWellFormed(bits: Word64)
    ensures WellFormed(Decode(bits))
  {
    hide Scaled;
    var e, t := ExponentField(bits), SignificandField(bits);
    ScaledNonNegative(0, t, SIGNIFICAND_WIDTH, 1 - EXPONENT_BIAS);
    ScaledNonNegative(1, t, SIGNIFICAND_WIDTH, e - EXPONENT_BIAS);
  }

  lemma ScaledNonNegative(i: nat, t: nat, n: nat, e: int)
    ensures Scaled(i, t, n, e) >= 0.0
  {
    QuotientBounds(t as real, Pow2(n) as real, 0.0, t as real + 1.0);
    ProductNonNegative(Exp2(e), i as real + t as real / Pow2(n) as real);
  }

  lemma ProductNonNegative(x: real, y: real)
    requires x >= 0.0 && y >= 0.0
    ensures x * y >= 0.0
  {
  }
}
