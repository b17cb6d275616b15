/** The 32-bit machine the kernel runs on: unsigned words that wrap, bit masks,
    and words stored little-endian in byte memory. */
module Machine {
  const TWO32 := 0x1_0000_0000
  const WORD_BITS: nat := 32

  type byte = x: int | 0 <= x < 0x100
  type uint32 = x: int | 0 <= x < 0x1_0000_0000

  type Text = seq<byte>

  /** What a 32-bit unsigned expression with exact value `x` evaluates to. */
  function Wrap(x: int): uint32 {
    if 0 <= x < TWO32 then x else x % TWO32
  }

  function Min(x: int, y: int): int {
    if x < y then x else y
  }

  function Max(x: int, y: int): int {
    if x < y then y else x
  }

  // ----- powers of two and bit masks

  function Pow2(k: nat): (p: nat)
    ensures 0 < p && k < p
  {
    if k == 0 then 1 else 2 * Pow2(k - 1)
  }

  lemma {:induction false} Pow2Monotone(j: nat, k: nat)
    requires j <= k
    ensures Pow2(j) <= Pow2(k)
    decreases k
  {
    if j < k {
      Pow2Monotone(j, k - 1);
    }
  }

  lemma Pow2Of32()
    ensures Pow2(3) == 8 && Pow2(32) == TWO32
  {
    assert Pow2(8) == 256;
    assert Pow2(16) == 65536;
    assert Pow2(24) == 0x100_0000;
  }

  /** Bitwise AND of the `width` low bits, bit by bit. */
  function AndBits(x: nat, y: nat, width: nat): (r: nat)
    ensures r <= x
  {
    if width == 0 then 0 else (if x % 2 == 1 && y % 2 == 1 then 1 else 0) + 2 * AndBits(x / 2, y / 2, width - 1)
  }

  /** The C operators `x & y` and `~x` on 32-bit words. */
  function And(x: uint32, y: uint32): uint32 {
    AndBits(x, y, WORD_BITS)
  }

  function Not(x: uint32): uint32 {
    TWO32 - 1 - x
  }

  ghost predicate IsPowerOfTwo(x: nat) {
    exists k: nat :: k < x && x == Pow2(k)
  }

  lemma {:induction false} AndWithItself(x: nat, width: nat)
    requires x < Pow2(width)
    ensures AndBits(x, x, width) == x
  {
    if width > 0 {
      AndWithItself(x / 2, width - 1);
    }
  }

  lemma {:induction false} AndWithOnes(x: nat, width: nat)
    requires x < Pow2(width)
    ensures AndBits(x, Pow2(width) - 1, width) == x
  {
    if width > 0 {
      assert (Pow2(width) - 1) / 2 == Pow2(width - 1) - 1;
      AndWithOnes(x / 2, width - 1);
    }
  }

  lemma DoublePower(y: nat)
    ensures IsPowerOfTwo(2 * y) <==> IsPowerOfTwo(y)
  {
    if IsPowerOfTwo(y) {
      var k: nat :| k < y && y == Pow2(k);
      assert Pow2(k + 1) == 2 * y;
    }
    if IsPowerOfTwo(2 * y) {
      var k: nat :| k < 2 * y && 2 * y == Pow2(k);
      assert k > 0 && Pow2(k - 1) == y;
    }
  }

  lemma OddPower(x: nat)
    requires x % 2 == 1
    ensures IsPowerOfTwo(x) <==> x == 1
  {
    assert Pow2(0) == 1;
    forall k: nat | k < x && x == Pow2(k) ensures x == 1 {
      assert k > 0 ==> Pow2(k) == 2 * Pow2(k - 1);
    }
  }

  lemma {:induction false} ClearLowestBit(x: nat, width: nat)
    requires 0 < x < Pow2(width)
    ensures AndBits(x, x - 1, width) == 0 <==> IsPowerOfTwo(x)
  {
    assert width > 0;
    assert x / 2 < Pow2(width - 1);
    AndStep(x, x - 1, width);
    hide AndBits, IsPowerOfTwo, Pow2;
    if x % 2 == 0 {
      assert (x - 1) / 2 == x / 2 - 1;
      ClearLowestBit(x / 2, width - 1);
      DoublePower(x / 2);
    } else {
      assert (x - 1) / 2 == x / 2;
      AndWithItself(x / 2, width - 1);
      OddPower(x);
    }
  }

  lemma AndStep(x: nat, y: nat, width: nat)
    requires width > 0
    ensures AndBits(x, y, width) ==
            (if x % 2 == 1 && y % 2 == 1 then 1 else 0) + 2 * AndBits(x / 2, y / 2, width - 1)
  {}

  /** `a != 0 && (a & (a - 1)) == 0` accepts exactly the powers of two. */
  lemma PowerOfTwoTest(a: uint32)
    requires a != 0
    ensures And(a, a - 1) == 0 <==> IsPowerOfTwo(a)
  {
    Pow2Of32();
    ClearLowestBit(a, WORD_BITS);
  }

  lemma ModDouble(x: nat, p: nat)
    requires p > 0
    ensures x % (2 * p) == 2 * ((x / 2) % p) + x % 2
  {
    var q, r := (x / 2) / p, (x / 2) % p;
    assert x / 2 == p * q + r;
    assert x == (2 * p) * q + (2 * r + x % 2);
    DivModUnique(x, 2 * p, q, 2 * r + x % 2);
  }

  lemma DivModUnique(x: int, d: int, q: int, r: int)
    requires d > 0 && 0 <= r < d && x == d * q + r
    ensures x / d == q && x % d == r
  {
    var q', r' := x / d, x % d;
    assert d * q' + r' == x;
    MulDifference(d, q, q');
    if q > q' {
      MulAtLeast(d, q - q');
    } else if q < q' {
      MulAtLeast(d, q' - q);
      MulDifference(d, q', q);
    }
  }

  lemma MulDifference(d: int, q: int, q': int)
    ensures d * q - d * q' == d * (q - q')
  {}

  lemma MulAtLeast(d: int, t: int)
    requires d > 0 && t >= 1
    ensures d * t >= d
  {}

  /** `x & (2^k - 1)` keeps the `k` low bits. */
  lemma {:induction false} LowBits(x: nat, k: nat, width: nat)
    requires k <= width
    ensures AndBits(x, Pow2(k) - 1, width) == Remainder(x, Pow2(k))
  {
    hide AndBits, Remainder;
    if k == 0 {
      AndWithZero(x, width);
      RemainderOne(x);
    } else {
      var p := Pow2(k - 1);
      AndStep(x, 2 * p - 1, width);
      assert (2 * p - 1) / 2 == p - 1 && (2 * p - 1) % 2 == 1;
      LowBits(x / 2, k - 1, width - 1);
      RemainderDouble(x, p, 2 * p);
    }
  }

  lemma {:induction false} AndWithZero(x: nat, width: nat)
    ensures AndBits(x, 0, width) == 0
  {
    if width > 0 {
      AndWithZero(x / 2, width - 1);
    }
  }

  lemma LowFourBits(x: uint32)
    ensures And(x, 15) == x % 16
  {
    assert Pow2(4) == 16;
    LowBits(x, 4, WORD_BITS);
  }

  lemma AndEven(x: nat, y: nat, width: nat)
    requires width > 0
    ensures AndBits(x, 2 * y, width) == 2 * AndBits(x / 2, y, width - 1)
  {
    assert (2 * y) / 2 == y && (2 * y) % 2 == 0;
  }

  function Remainder(x: nat, p: nat): int
    requires p > 0
  {
    x % p
  }

  lemma RemainderDouble(x: nat, p: nat, p2: nat)
    requires p > 0 && p2 == 2 * p
    ensures Remainder(x, p2) == 2 * Remainder(x / 2, p) + x % 2
  {
    ModDouble(x, p);
  }

  lemma {:induction false} MaskBits(x: nat, k: nat, width: nat)
    requires k <= width && x < Pow2(width)
    requires Pow2(k) <= Pow2(width)
    ensures AndBits(x, Pow2(width) - Pow2(k), width) == x - Remainder(x, Pow2(k))
  {
    hide AndBits, Remainder;
    if k == 0 {
      AndWithOnes(x, width);
      RemainderOne(x);
    } else {
      var p, w := Pow2(k - 1), Pow2(width - 1);
      assert Pow2(k) == 2 * p && Pow2(width) == 2 * w;
      hide Pow2;
      Pow2Monotone(k - 1, width - 1);
      MaskBits(x / 2, k - 1, width - 1);
      AndEven(x, w - p, width);
      RemainderDouble(x, p, Pow2(k));
      Halve(x, Remainder(x / 2, p));
    }
  }

  lemma RemainderOne(x: nat)
    ensures Remainder(x, 1) == 0
  {}

  lemma Halve(x: nat, r: int)
    ensures 2 * (x / 2 - r) == x - (2 * r + x % 2)
  {}

  /** `x & ~(a - 1)` rounds down to a multiple of the power of two `a`. */
  lemma MaskRoundsDown(x: uint32, a: uint32)
    requires IsPowerOfTwo(a)
    ensures And(x, Not(a - 1)) == x - x % a
  {
    var k: nat :| k < a && a == Pow2(k);
    Pow2Of32();
    if k >= 32 {
      Pow2Monotone(32, k);
    }
    Pow2Monotone(k, 32);
    MaskBits(x, k, WORD_BITS);
  }

  // ----- words in byte memory

  /** Byte `k` (0 is the lowest) of a word. */
  function ByteOf(v: uint32, k: nat): byte
    requires k < 4
  {
    if k == 0 then v % 0x100
    else if k == 1 then v / 0x100 % 0x100
    else if k == 2 then v / 0x1_0000 % 0x100
    else v / 0x100_0000
  }

  function FromBytes(b0: byte, b1: byte, b2: byte, b3: byte): uint32 {
    b0 + 0x100 * b1 + 0x1_0000 * b2 + 0x100_0000 * b3
  }

  lemma BytesOfWord(v: uint32)
    ensures FromBytes(ByteOf(v, 0), ByteOf(v, 1), ByteOf(v, 2), ByteOf(v, 3)) == v
  {
    assert v / 0x1_0000 == v / 0x100 / 0x100;
    assert v / 0x100_0000 == v / 0x1_0000 / 0x100;
  }
}
