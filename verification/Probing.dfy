/** The probe sequences of the double-hashed table: their arithmetic on 32-bit hash numbers. */
module Probing {
  import opened Words

  const HASH_BITS: nat := 32
  const GOLDEN_RATIO: nat := 0x9E37_79B9

  /** A prepared hash: not one of the two reserved codes, and with the collision bit clear. */
  type Hash = h: nat | 2 <= h < 0x1_0000_0000 && h % 2 == 0 witness 2

  lemma ScrambledRange(input: nat)
    ensures Low(input * GOLDEN_RATIO, HASH_BITS) < 0x1_0000_0000
  {
    Pow2Values();
    Cut(input * GOLDEN_RATIO, 32);
  }

  function Scramble(input: nat): (x: nat)
    ensures x < 0x1_0000_0000
  {
    ScrambledRange(input);
    Low(input * GOLDEN_RATIO, HASH_BITS)
  }

  /** Scrambles an input hash and keeps it clear of the reserved codes and of the collision bit;
      the subtraction wraps around. */
  function PrepareHash(input: nat): Hash {
    var scrambled := Scramble(input);
    var keyHash := if scrambled > 1 then scrambled else scrambled + 0x1_0000_0000 - 2;
    keyHash - keyHash % 2
  }

  /** Binary logarithms of the capacities in use. */
  type Log = k: nat | 2 <= k <= 30 witness 2

  function Capacity(k: Log): nat { Pow2(k) }

  function Hash1(h: Hash, k: Log): nat { Shr(h, HASH_BITS - k) }

  function Hash2(h: Hash, k: Log): nat { Or(Shr(Shl(h, k, HASH_BITS), HASH_BITS - k), 1) }

  /** A step wraps around modulo 2^32 and is then cut to the table. */
  function Step(at: nat, h2: nat, k: Log): nat
    requires h2 <= 0x1_0000_0000
  {
    And(Low(at + 0x1_0000_0000 - h2, HASH_BITS), Capacity(k) - 1)
  }

  lemma Hash2IsOdd(h: Hash, k: Log)
    ensures Hash2(h, k) % 2 == 1 && Hash2(h, k) < Capacity(k) && Hash1(h, k) < Capacity(k)
  {
    Pow2Values();
    hide Up, Shr, Low;
    var w := HASH_BITS - k;
    ShrBound(h, k, w);
    var x := Shl(h, k, HASH_BITS);
    Cut(Up(h, k), HASH_BITS);
    ShrBound(x, k, w);
    OrOne(Shr(x, w));
    EvenCapacity(k);
  }

  lemma OrOne(x: nat)
    ensures Or(x, 1) == if x % 2 == 1 then x else x + 1
  {
    BitwiseStep(OrOp, x, 1);
    BitwiseZero(x / 2);
  }

  lemma EvenCapacity(k: Log)
    ensures Capacity(k) % 2 == 0 && Capacity(k) >= 4
  {
    Pow2Mono(2, k);
    assert Pow2(2) == 4;
  }

  lemma StepIsModular(at: nat, h2: nat, k: Log)
    requires at < Capacity(k) && h2 < Capacity(k)
    ensures h2 <= 0x1_0000_0000 && Step(at, h2, k) == (at - h2) % Capacity(k)
  {
    hide Low, Bitwise;
    Pow2Values();
    Pow2Mono(k, 32);
    var x: nat := at + 0x1_0000_0000 - h2;
    AndMask(Low(x, 32), k);
    LowLow(x, k, 32);
    ShrLowAreDivMod(x, k);
    Pow2Add(k, 32 - k);
    ModShift(at - h2, Pow2(32 - k), Pow2(k));
  }

  lemma ModShift(x: int, q: int, d: int)
    requires d > 0
    ensures (x + q * d) % d == x % d && (x + d * q) % d == x % d
  {
    assert x + q * d == (x / d + q) * d + x % d by {
      assert (x / d + q) * d == (x / d) * d + q * d;
    }
    DivModUnique(x + q * d, d, x / d + q, x % d);
    assert d * q == q * d;
  }

  // ----- what the hash functions come to -----

  /** A prepared hash is the input times the golden ratio modulo 2^32, made even; the two reserved codes
      become the greatest even number. */
  lemma PreparedHash(input: nat)
    ensures var x := (input * 0x9E37_79B9) % 0x1_0000_0000;
      PrepareHash(input) == if x > 1 then x - x % 2 else 0xFFFF_FFFE
  {
    hide Low;
    Pow2Values();
    ShrLowAreDivMod(input * GOLDEN_RATIO, 32);
  }

  /** The first slot is given by the k highest bits of the hash, the step by the k bits after them, made
      odd. */
  lemma HashesAreFields(h: Hash, k: Log)
    ensures Pow2(32 - k) > 0 && Hash1(h, k) == h / Pow2(32 - k)
    ensures var f := ((h * Pow2(k)) % 0x1_0000_0000) / Pow2(32 - k);
      Hash2(h, k) == if f % 2 == 1 then f else f + 1
  {
    hide Low, Up, Shr, Pow2;
    Pow2Values();
    ShrLowAreDivMod(h, 32 - k);
    UpIsMul(h, k);
    var x := Shl(h, k, 32);
    ShrLowAreDivMod(Up(h, k), 32);
    ShrLowAreDivMod(x, 32 - k);
    OrOne(Shr(x, 32 - k));
  }

  /** The n-th slot tried for a hash. */
  function Probe(h: Hash, k: Log, n: nat): (i: nat)
    ensures i < Capacity(k)
  {
    Hash2IsOdd(h, k);
    if n == 0 then Hash1(h, k)
    else
      StepIsModular(Probe(h, k, n - 1), Hash2(h, k), k);
      Step(Probe(h, k, n - 1), Hash2(h, k), k)
  }

  /** Where n steps of h2 down from h1 lead, modulo c. */
  function AfterSteps(h1: int, h2: int, c: int, n: int): int
    requires c > 0
  {
    (h1 - n * h2) % c
  }

  lemma {:induction false} ProbeClosed(h: Hash, k: Log, n: nat)
    ensures Probe(h, k, n) == AfterSteps(Hash1(h, k), Hash2(h, k), Capacity(k), n)
  {
    hide Hash1, Hash2, Step, Pow2, AfterSteps;
    var h1, h2, c := Hash1(h, k), Hash2(h, k), Capacity(k);
    if n == 0 {
      FirstProbe(h, k);
      NoSteps(h1, h2, c);
    } else {
      ProbeClosed(h, k, n - 1);
      NextProbe(h, k, n - 1);
      OneMoreStep(h1, h2, c, n);
    }
  }

  lemma NoSteps(h1: int, h2: int, c: int)
    requires 0 <= h1 < c
    ensures AfterSteps(h1, h2, c, 0) == h1
  {
    DivModUnique(h1, c, 0, h1);
  }

  lemma OneMoreStep(h1: int, h2: int, c: int, n: int)
    requires c > 0
    ensures (AfterSteps(h1, h2, c, n - 1) - h2) % c == AfterSteps(h1, h2, c, n)
  {
    var x := h1 - (n - 1) * h2;
    assert h1 - n * h2 == x - h2;
    ModMinus(x, h2, c);
  }

  lemma ModMinus(x: int, y: int, c: int)
    requires c > 0
    ensures (x % c - y) % c == (x - y) % c
  {
    var q := x / c;
    assert x - y == (x % c - y) + q * c;
    ModShift(x % c - y, q, c);
  }

  lemma FirstProbe(h: Hash, k: Log)
    ensures Probe(h, k, 0) == Hash1(h, k) < Capacity(k)
  {
    Hash2IsOdd(h, k);
  }

  lemma NextProbe(h: Hash, k: Log, n: nat)
    ensures Hash2(h, k) < Capacity(k)
    ensures Probe(h, k, n + 1) == (Probe(h, k, n) - Hash2(h, k)) % Capacity(k)
  {
    hide Hash1, Hash2, Step, Pow2;
    Hash2IsOdd(h, k);
    StepIsModular(Probe(h, k, n), Hash2(h, k), k);
  }

  // ----- every slot is tried -----

  lemma HalveInverse(x: nat, b: nat, p: nat, q: int)
    requires b % 2 == 1 && x * b == 1 + q * p
    ensures q % 2 == 0 ==> x * b == 1 + (q / 2) * (2 * p)
    ensures q % 2 == 1 ==> (x + p) * b == 1 + ((q + b) / 2) * (2 * p)
  {
    if q % 2 == 0 {
      assert (2 * (q / 2)) * p == (q / 2) * (2 * p);
    } else {
      var r := (q + b) / 2;
      assert (x + p) * b == x * b + p * b;
      assert (2 * r) * p == r * (2 * p);
      assert (2 * r) * p == q * p + b * p;
    }
  }

  /** An odd number has an inverse modulo a power of two. */
  lemma {:induction false} OddInverse(b: nat, k: nat) returns (x: nat, q: int)
    requires b % 2 == 1
    ensures x * b == 1 + q * Pow2(k)
    decreases k
  {
    if k == 0 {
      x, q := 1, b - 1;
    } else {
      var p := Pow2(k - 1);
      x, q := OddInverse(b, k - 1);
      HalveInverse(x, b, p, q);
      x, q := if q % 2 == 0 then x else x + p, if q % 2 == 0 then q / 2 else (q + b) / 2;
    }
  }

  /** The step is odd and the capacity a power of two, so the probes of a hash reach every slot. */
  lemma ProbeReaches(h: Hash, k: Log, i: nat) returns (n: nat)
    requires i < Capacity(k)
    ensures n < Capacity(k) && Probe(h, k, n) == i
  {
    var h1, h2, c := Hash1(h, k), Hash2(h, k), Capacity(k);
    Hash2IsOdd(h, k);
    var x, q := OddInverse(h2, k);
    hide Hash1, Hash2, Pow2;
    n := ((h1 - i) * x) % c;
    ProbeClosed(h, k, n);
    SolveProbe(h1, h2, c, i, x, q, n);
  }

  lemma SolveProbe(h1: int, h2: int, c: int, i: int, x: int, q: int, n: int)
    requires 0 <= i < c && x * h2 == 1 + q * c && n == ((h1 - i) * x) % c
    ensures (h1 - n * h2) % c == i
  {
    var d := h1 - i;
    var m := (d * x) / c;
    assert n == d * x - m * c;
    assert n * h2 == d + (d * q - m * h2) * c by {
      assert n * h2 == d * (x * h2) - m * c * h2 by {
        assert (d * x - m * c) * h2 == d * x * h2 - m * c * h2;
      }
      assert d * (1 + q * c) == d + d * q * c;
      assert (d * q - m * h2) * c == d * q * c - m * h2 * c;
    }
    assert h1 - n * h2 == (m * h2 - d * q) * c + i by {
      assert (m * h2 - d * q) * c == -((d * q - m * h2) * c);
    }
    DivModUnique(h1 - n * h2, c, m * h2 - d * q, i);
  }
}
