/** Machine words as naturals. Shifts, truncation and the bitwise operators are defined one
    bit at a time; the lemmas say what each comes to arithmetically. */
module Words {

  function Pow2(n: nat): (p: nat)
    ensures p > 0
  {
    if n == 0 then 1 else 2 * Pow2(n - 1)
  }

  // ----- products -----

  lemma TimesDouble(x: int, y: int)
    ensures x * (2 * y) == 2 * (x * y)
  {
  }

  lemma OneMoreTimes(q: int, d: int)
    ensures (q + 1) * d == q * d + d
  {
  }

  lemma TimesMono(x: int, y: int, d: int)
    requires x <= y && d >= 0
    ensures x * d <= y * d
  {
    var z := y - x;
    assert z * d >= 0;
    assert y * d == (x + z) * d == x * d + z * d;
  }

  // ----- powers of two -----

  lemma {:induction false} Pow2Add(m: nat, n: nat)
    ensures Pow2(m + n) == Pow2(m) * Pow2(n)
  {
    if n > 0 {
      Pow2Add(m, n - 1);
      TimesDouble(Pow2(m), Pow2(n - 1));
    }
  }

  lemma {:induction false} Pow2Mono(m: nat, n: nat)
    requires m <= n
    ensures Pow2(m) <= Pow2(n)
    decreases n
  {
    if m < n {
      Pow2Mono(m, n - 1);
    }
  }

  lemma Pow2Values()
    ensures Pow2(8) == 0x100 && Pow2(10) == 0x400 && Pow2(11) == 0x800 && Pow2(12) == 0x1000
    ensures Pow2(16) == 0x1_0000 && Pow2(20) == 0x10_0000 && Pow2(21) == 0x20_0000
    ensures Pow2(31) == 0x8000_0000 && Pow2(32) == 0x1_0000_0000
    ensures Pow2(52) == 0x10_0000_0000_0000 && Pow2(63) == 0x8000_0000_0000_0000
    ensures Pow2(64) == 0x1_0000_0000_0000_0000
  {
    assert Pow2(8) == 0x100 && Pow2(12) == 0x1000;
    Pow2Add(8, 8);
    Pow2Add(12, 8);
    Pow2Add(20, 1);
    Pow2Add(20, 11);
    Pow2Add(20, 12);
    Pow2Add(32, 20);
    Pow2Add(32, 31);
    Pow2Add(32, 32);
  }

  /** x with n zero bits appended on the right, in unbounded precision. */
  function Up(x: nat, n: nat): nat {
    if n == 0 then x else 2 * Up(x, n - 1)
  }

  /** x without its n lowest bits: the right shift of an unsigned word. */
  function Shr(x: nat, n: nat): nat {
    if n == 0 then x else Shr(x / 2, n - 1)
  }

  /** The n lowest bits of x: conversion to an n-bit unsigned type. */
  function Low(x: nat, n: nat): nat {
    if n == 0 then 0 else x % 2 + 2 * Low(x / 2, n - 1)
  }

  /** Left shift inside a w-bit word: the bits pushed past the top are lost. */
  function Shl(x: nat, n: nat, w: nat): nat {
    Low(Up(x, n), w)
  }

  /** Whether bit k of x is set. */
  predicate Bit(x: nat, k: nat) {
    Shr(x, k) % 2 == 1
  }

  datatype BitOp = AndOp | OrOp | XorOp

  predicate BitOf(op: BitOp, a: bool, b: bool) {
    match op
    case AndOp => a && b
    case OrOp => a || b
    case XorOp => a != b
  }

  function Bitwise(op: BitOp, x: nat, y: nat): nat
    decreases x + y
  {
    if x == 0 && y == 0 then 0
    else (if BitOf(op, x % 2 == 1, y % 2 == 1) then 1 else 0) + 2 * Bitwise(op, x / 2, y / 2)
  }

  function And(x: nat, y: nat): nat { Bitwise(AndOp, x, y) }

  function Or(x: nat, y: nat): nat { Bitwise(OrOp, x, y) }

  function Xor(x: nat, y: nat): nat { Bitwise(XorOp, x, y) }

  /** Complement of a w-bit word. */
  function Not(x: nat, w: nat): nat
    requires x < Pow2(w)
  {
    Pow2(w) - 1 - x
  }

  // ----- arithmetic meaning of the shifts and of truncation -----

  lemma QuotientUnique(d: int, q: int, r: int, q': int, r': int)
    requires 0 <= r < d && 0 <= r' < d && q * d + r == q' * d + r'
    ensures q == q' && r == r'
  {
    OneMoreTimes(q, d);
    OneMoreTimes(q', d);
    if q < q' {
      TimesMono(q + 1, q', d);
    } else if q' < q {
      TimesMono(q' + 1, q, d);
    }
  }

  lemma DivModUnique(x: int, d: int, q: int, r: int)
    requires 0 <= r < d && x == q * d + r
    ensures x / d == q && x % d == r
  {
    QuotientUnique(d, q, r, x / d, x % d);
  }

  lemma {:induction false} UpIsMul(x: nat, n: nat)
    ensures Up(x, n) == x * Pow2(n)
  {
    if n > 0 {
      UpIsMul(x, n - 1);
      TimesDouble(x, Pow2(n - 1));
    }
  }

  /** Cutting a word at position n: the upper part shifted back up, plus the lower part. */
  lemma {:induction false} Cut(x: nat, n: nat)
    ensures x == Up(Shr(x, n), n) + Low(x, n) && Low(x, n) < Pow2(n)
  {
    if n > 0 {
      Cut(x / 2, n - 1);
    }
  }

  lemma ShrLowAreDivMod(x: nat, n: nat)
    ensures Shr(x, n) == x / Pow2(n) && Low(x, n) == x % Pow2(n)
  {
    Cut(x, n);
    UpIsMul(Shr(x, n), n);
    DivModUnique(x, Pow2(n), Shr(x, n), Low(x, n));
  }

  // ----- composition of shifts and truncations -----

  lemma {:induction false} UpUp(x: nat, m: nat, n: nat)
    ensures Up(x, m + n) == Up(Up(x, m), n)
  {
    if n > 0 {
      UpUp(x, m, n - 1);
      assert m + n - 1 == m + (n - 1);
    }
  }

  lemma {:induction false} UpSum(x: nat, y: nat, n: nat)
    ensures Up(x + y, n) == Up(x, n) + Up(y, n)
  {
    if n > 0 {
      UpSum(x, y, n - 1);
    }
  }

  lemma {:induction false} UpMono(x: nat, y: nat, n: nat)
    requires x <= y
    ensures Up(x, n) <= Up(y, n)
  {
    if n > 0 {
      UpMono(x, y, n - 1);
    }
  }

  lemma {:induction false} UpBound(x: nat, m: nat, n: nat)
    requires x < Pow2(m)
    ensures Up(x, n) < Pow2(m + n)
  {
    if n > 0 {
      UpBound(x, m, n - 1);
      assert m + n - 1 == m + (n - 1);
    }
  }

  lemma {:induction false} ShrBound(x: nat, m: nat, n: nat)
    requires x < Pow2(m + n)
    ensures Shr(x, n) < Pow2(m)
  {
    if n > 0 {
      assert m + n - 1 == m + (n - 1);
      ShrBound(x / 2, m, n - 1);
    }
  }

  lemma {:induction false} UpPow2(m: nat, n: nat)
    ensures Up(Pow2(m), n) == Pow2(m + n)
  {
    if n > 0 {
      UpPow2(m, n - 1);
      assert m + n - 1 == m + (n - 1);
    }
  }

  lemma UpOne(n: nat)
    ensures Up(1, n) == Pow2(n)
  {
    UpPow2(0, n);
  }

  lemma {:induction false} ShrShr(x: nat, m: nat, n: nat)
    ensures Shr(x, m + n) == Shr(Shr(x, m), n)
    decreases m
  {
    if m > 0 {
      ShrShr(x / 2, m - 1, n);
      assert m + n - 1 == (m - 1) + n;
    }
  }

  lemma {:induction false} LowLow(x: nat, m: nat, n: nat)
    requires m <= n
    ensures Low(Low(x, n), m) == Low(x, m)
    decreases m
  {
    if m > 0 {
      LowLow(x / 2, m - 1, n - 1);
    }
  }

  lemma {:induction false} LowSmall(x: nat, n: nat)
    requires x < Pow2(n)
    ensures Low(x, n) == x && Shr(x, n) == 0
  {
    if n > 0 {
      LowSmall(x / 2, n - 1);
    }
  }

  /** Adding a multiple of 2^n adds to the part above position n and leaves the part below. */
  lemma {:induction false} AddUp(x: nat, k: nat, n: nat)
    ensures Low(Up(k, n) + x, n) == Low(x, n) && Shr(Up(k, n) + x, n) == k + Shr(x, n)
  {
    if n > 0 {
      AddUp(x / 2, k, n - 1);
      assert (Up(k, n) + x) / 2 == Up(k, n - 1) + x / 2;
    }
  }

  /** Truncation after a left shift is a left shift after a narrower truncation. */
  lemma {:induction false} LowUp(x: nat, m: nat, n: nat)
    requires m <= n
    ensures Low(Up(x, m), n) == Up(Low(x, n - m), m)
    decreases m
  {
    if m > 0 {
      LowUp(x, m - 1, n - 1);
      assert Up(x, m) / 2 == Up(x, m - 1);
    }
  }

  /** Shifting left by m and back right by n. */
  lemma {:induction false} ShrUp(x: nat, m: nat, n: nat)
    ensures Shr(Up(x, m), n) == if n <= m then Up(x, m - n) else Shr(x, n - m)
    decreases n
  {
    if n > 0 && m > 0 {
      ShrUp(x, m - 1, n - 1);
      assert Up(x, m) / 2 == Up(x, m - 1);
    }
  }

  // ----- bitwise operators -----

  /** A bitwise operator works on the bits above and below position k separately. */
  lemma {:induction false} BitwiseSplit(op: BitOp, x: nat, y: nat, k: nat)
    ensures Bitwise(op, x, y)
         == Up(Bitwise(op, Shr(x, k), Shr(y, k)), k) + Bitwise(op, Low(x, k), Low(y, k))
    decreases k
  {
    if k > 0 {
      BitwiseSplit(op, x / 2, y / 2, k - 1);
      BitwiseStep(op, x, y);
      BitwiseStep(op, Low(x, k), Low(y, k));
    } else {
      assert Bitwise(op, 0, 0) == 0;
    }
  }

  lemma BitwiseStep(op: BitOp, x: nat, y: nat)
    ensures Bitwise(op, x, y)
         == (if BitOf(op, x % 2 == 1, y % 2 == 1) then 1 else 0) + 2 * Bitwise(op, x / 2, y / 2)
  {
  }

  lemma {:induction false} BitwiseBound(op: BitOp, x: nat, y: nat, k: nat)
    requires x < Pow2(k) && y < Pow2(k)
    ensures Bitwise(op, x, y) < Pow2(k)
    decreases k
  {
    if k > 0 {
      BitwiseBound(op, x / 2, y / 2, k - 1);
    }
  }

  lemma {:induction false} BitwiseZero(x: nat)
    ensures And(x, 0) == 0 && Or(x, 0) == x && Or(0, x) == x && Xor(x, 0) == x
    decreases x
  {
    if x > 0 {
      BitwiseZero(x / 2);
    }
  }

  lemma {:induction false} BitwiseOnes(x: nat, n: nat)
    requires x < Pow2(n)
    ensures And(x, Pow2(n) - 1) == x && Xor(x, Pow2(n) - 1) == Pow2(n) - 1 - x
    decreases n
  {
    var ones := Pow2(n) - 1;
    if n > 0 {
      BitwiseOnes(x / 2, n - 1);
      assert ones / 2 == Pow2(n - 1) - 1 && ones % 2 == 1;
      hide Bitwise;
      BitwiseStep(AndOp, x, ones);
      BitwiseStep(XorOp, x, ones);
    }
  }

  /** A mask of n low ones truncates to n bits. */
  lemma AndMask(x: nat, n: nat)
    ensures And(x, Pow2(n) - 1) == Low(x, n)
  {
    BitwiseSplit(AndOp, x, Pow2(n) - 1, n);
    LowSmall(Pow2(n) - 1, n);
    BitwiseZero(Shr(x, n));
    Cut(x, n);
    BitwiseOnes(Low(x, n), n);
    UpIsMul(0, n);
  }

  /** A mask of n ones at position k, followed by a right shift, reads the n-bit field at k. */
  lemma AndField(x: nat, n: nat, k: nat)
    ensures And(x, Up(Pow2(n) - 1, k)) == Up(Low(Shr(x, k), n), k)
    ensures Shr(And(x, Up(Pow2(n) - 1, k)), k) == Low(Shr(x, k), n)
  {
    var m := Pow2(n) - 1;
    BitwiseSplit(AndOp, x, Up(m, k), k);
    ShrUp(m, k, k);
    AddUp(0, m, k);
    LowSmall(0, k);
    AndMask(Shr(x, k), n);
    BitwiseZero(Low(x, k));
    ShrUp(Low(Shr(x, k), n), k, k);
  }

  /** Masking with a single bit tests that bit. */
  lemma AndBit(x: nat, k: nat)
    ensures And(x, Pow2(k)) == if Bit(x, k) then Pow2(k) else 0
  {
    AndField(x, 1, k);
    UpIsMul(1, k);
    UpIsMul(0, k);
    assert Low(Shr(x, k), 1) == Shr(x, k) % 2;
  }

  /** OR of a multiple of 2^k with something below 2^k is their sum. */
  lemma OrDisjoint(a: nat, b: nat, k: nat)
    requires b < Pow2(k)
    ensures Or(b, Up(a, k)) == Up(a, k) + b
  {
    BitwiseSplit(OrOp, b, Up(a, k), k);
    LowSmall(b, k);
    AddUp(0, a, k);
    LowSmall(0, k);
    BitwiseZero(a);
    BitwiseZero(b);
  }

  /** OR never clears a bit, so it is at least each operand. */
  lemma {:induction false} OrAtLeast(x: nat, y: nat)
    ensures Or(x, y) >= x && Or(x, y) >= y
    decreases x + y
  {
    if x > 0 || y > 0 {
      OrAtLeast(x / 2, y / 2);
    }
  }

  /** OR with a single bit sets that bit: it adds it when clear and does nothing when set. */
  lemma {:induction false} OrBit(x: nat, k: nat)
    ensures Or(x, Pow2(k)) == if Bit(x, k) then x else x + Pow2(k)
    decreases k
  {
    if k > 0 {
      OrBit(x / 2, k - 1);
    } else {
      BitwiseZero(x / 2);
    }
  }

  lemma {:induction false} LowBitwise(op: BitOp, x: nat, y: nat, k: nat)
    ensures Low(Bitwise(op, x, y), k) == Bitwise(op, Low(x, k), Low(y, k))
    decreases k
  {
    if k > 0 {
      BitwiseStep(op, x, y);
      BitwiseStep(op, Low(x, k), Low(y, k));
      LowBitwise(op, x / 2, y / 2, k - 1);
    } else {
      assert Bitwise(op, 0, 0) == 0;
    }
  }

  lemma {:induction false} ShrBitwise(op: BitOp, x: nat, y: nat, k: nat)
    ensures Shr(Bitwise(op, x, y), k) == Bitwise(op, Shr(x, k), Shr(y, k))
    decreases k
  {
    if k > 0 {
      BitwiseStep(op, x, y);
      ShrBitwise(op, x / 2, y / 2, k - 1);
    }
  }

  lemma {:induction false} AndFromZero(y: nat)
    ensures And(0, y) == 0
    decreases y
  {
    if y > 0 {
      AndFromZero(y / 2);
    }
  }

  /** The low m + n bits, cut at position n. */
  lemma {:induction false} LowCut(x: nat, m: nat, n: nat)
    ensures Low(x, m + n) == Up(Low(Shr(x, n), m), n) + Low(x, n)
    decreases n
  {
    if n > 0 {
      assert m + n - 1 == m + (n - 1);
      LowCut(x / 2, m, n - 1);
    }
  }

  /** Truncating a sum of disjoint parts truncates the upper one. */
  lemma {:induction false} LowUpPlus(x: nat, b: nat, k: nat, n: nat)
    requires k <= n && b < Pow2(k)
    ensures Low(Up(x, k) + b, n) == Up(Low(x, n - k), k) + b
    decreases k
  {
    if k > 0 {
      assert (Up(x, k) + b) / 2 == Up(x, k - 1) + b / 2;
      LowUpPlus(x, b / 2, k - 1, n - 1);
    }
  }

  /** A bitwise operator acts on each bit on its own. */
  lemma BitOfBitwise(op: BitOp, x: nat, y: nat, k: nat)
    ensures Bit(Bitwise(op, x, y), k) == BitOf(op, Bit(x, k), Bit(y, k))
  {
    hide Bitwise, Shr;
    ShrBitwise(op, x, y, k);
    BitwiseStep(op, Shr(x, k), Shr(y, k));
  }

  lemma {:induction false} BitOfPow2(k: nat, j: nat)
    ensures Bit(Pow2(k), j) <==> j == k
    decreases j
  {
    if j > 0 && k > 0 {
      BitOfPow2(k - 1, j - 1);
    } else if j > 0 {
      LowSmall(0, j - 1);
    }
  }

  lemma {:induction false} Pow2Injective(m: nat, n: nat)
    ensures Pow2(m) == Pow2(n) <==> m == n
    decreases m
  {
    if m > 0 && n > 0 {
      Pow2Injective(m - 1, n - 1);
    }
  }

  lemma LowAtMost(x: nat, n: nat)
    ensures Low(x, n) <= x
  {
    Cut(x, n);
  }

  lemma OneShifted(n: nat, w: nat)
    requires n < w
    ensures Shl(1, n, w) == Pow2(n)
  {
    UpOne(n);
    Pow2Mono(n + 1, w);
    LowSmall(Pow2(n), w);
  }
}
