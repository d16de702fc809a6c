/**
 * Java `int` arithmetic on unbounded integers.
 *
 * A Java `int` is a value in [-2^31, 2^31); `+`, `-` and `<<` wrap modulo
 * 2^32 and `>>` is an arithmetic (flooring) shift.  The bitwise operators
 * are defined on every integer through its infinite two's-complement
 * expansion (a negative number has infinitely many leading ones), which
 * agrees with Java's operators on the 32-bit range.
 */
module JavaInt {
  const Modulus: int := 0x1_0000_0000
  const MinInt: int := -0x8000_0000
  const MaxInt: int := 0x7FFF_FFFF

  /** The values of a Java `int`. */
  type Int32 = x: int | -0x8000_0000 <= x <= 0x7FFF_FFFF

  /** Reduction of an exact result to 32 bits, as Java `int` arithmetic does. */
  function Wrap(x: int): (r: Int32)
    ensures (x - r) % Modulus == 0
    ensures MinInt <= x <= MaxInt ==> r == x
  {
    (x - MinInt) % Modulus + MinInt
  }

  function Pow2(k: nat): (r: int)
    ensures r >= 1
  {
    if k == 0 then 1 else 2 * Pow2(k - 1)
  }

  /** Java's `x >> k` for a shift count 0 <= k < 32: division rounding down. */
  function ShiftRight(x: int, k: nat): int
    requires k < 32
  {
    x / Pow2(k)
  }

  /** Java's `x << k` for a shift count 0 <= k < 32. */
  function ShiftLeft(x: int, k: nat): Int32
    requires k < 32
  {
    Wrap(x * Pow2(k))
  }

  /** A measure that halving shrinks until the value is 0 or -1. */
  function Size(x: int): nat
  {
    if x >= 0 then x else -x - 1
  }

  lemma HalfShrinks(x: int)
    ensures Size(x / 2) <= Size(x)
    ensures x != 0 && x != -1 ==> Size(x / 2) < Size(x)
  {
  }

  /** The lowest bit of x, as 0 or 1. */
  function Low(x: int): int
  {
    x % 2
  }

  /** `x & y` on two's-complement expansions. */
  function BitAnd(x: int, y: int): int
    decreases Size(x) + Size(y)
  {
    if (x == 0 || x == -1) && (y == 0 || y == -1) then
      (if x == -1 && y == -1 then -1 else 0)
    else
      HalfShrinks(x);
      HalfShrinks(y);
      2 * BitAnd(x / 2, y / 2) + (if Low(x) == 1 && Low(y) == 1 then 1 else 0)
  }

  /** `x | y` on two's-complement expansions. */
  function BitOr(x: int, y: int): int
    decreases Size(x) + Size(y)
  {
    if (x == 0 || x == -1) && (y == 0 || y == -1) then
      (if x == -1 || y == -1 then -1 else 0)
    else
      HalfShrinks(x);
      HalfShrinks(y);
      2 * BitOr(x / 2, y / 2) + (if Low(x) == 1 || Low(y) == 1 then 1 else 0)
  }

  /** `x ^ y` on two's-complement expansions. */
  function BitXor(x: int, y: int): int
    decreases Size(x) + Size(y)
  {
    if (x == 0 || x == -1) && (y == 0 || y == -1) then
      (if (x == -1) != (y == -1) then -1 else 0)
    else
      HalfShrinks(x);
      HalfShrinks(y);
      2 * BitXor(x / 2, y / 2) + (if Low(x) != Low(y) then 1 else 0)
  }

  lemma Halves(x: int)
    ensures x == 2 * (x / 2) + Low(x)
    ensures Low(x) == 0 || Low(x) == 1
  {
  }

  lemma {:induction false} AndZero(x: int)
    ensures BitAnd(x, 0) == 0
    decreases Size(x)
  {
    if x != 0 && x != -1 {
      HalfShrinks(x);
      AndZero(x / 2);
    }
  }

  lemma {:induction false} AndAllOnes(x: int)
    ensures BitAnd(x, -1) == x
    decreases Size(x)
  {
    if x != 0 && x != -1 {
      HalfShrinks(x);
      AndAllOnes(x / 2);
      Halves(x);
    }
  }

  lemma {:induction false} OrZero(x: int)
    ensures BitOr(x, 0) == x
    decreases Size(x)
  {
    if x != 0 && x != -1 {
      HalfShrinks(x);
      OrZero(x / 2);
      Halves(x);
    }
  }

  lemma {:induction false} XorZero(x: int)
    ensures BitXor(x, 0) == x
    decreases Size(x)
  {
    if x != 0 && x != -1 {
      HalfShrinks(x);
      XorZero(x / 2);
      Halves(x);
    }
  }

  lemma {:induction false} XorAllOnes(x: int)
    ensures BitXor(x, -1) == -x - 1
    decreases Size(x)
  {
    if x != 0 && x != -1 {
      HalfShrinks(x);
      XorAllOnes(x / 2);
      Halves(x);
      Halves(-x - 1);
    }
  }

  /** Masking with 2^k - 1 keeps the non-negative remainder modulo 2^k. */
  lemma {:induction false} AndLowMask(x: int, k: nat)
    ensures BitAnd(x, Pow2(k) - 1) == x % Pow2(k)
    decreases k
  {
    if k == 0 {
      AndZero(x);
    } else {
      var m := Pow2(k - 1);
      assert Pow2(k) - 1 == 2 * (m - 1) + 1;
      assert (Pow2(k) - 1) / 2 == m - 1;
      assert Low(Pow2(k) - 1) == 1;
      AndLowMask(x / 2, k - 1);
      Halves(x);
      ModOfHalves(x, m);
    }
  }

  lemma ModOfHalves(x: int, m: int)
    requires m >= 1
    ensures x % (2 * m) == 2 * ((x / 2) % m) + Low(x)
  {
    var q := x / 2;
    var b := Low(x);
    Halves(x);
    var t := q / m;
    var s := q % m;
    assert q == m * t + s && 0 <= s < m;
    assert x == (2 * m) * t + (2 * s + b);
    assert 0 <= 2 * s + b < 2 * m;
    DivModUnique(x, 2 * m, t, 2 * s + b);
  }

  lemma DivModUnique(x: int, d: int, q: int, r: int)
    requires d >= 1 && x == d * q + r && 0 <= r < d
    ensures x % d == r
  {
    var k := x / d - q;
    assert d * k == r - x % d;
    MulAwayFromZero(d, k);
  }

  /** A non-zero multiple of d is at least d away from zero. */
  lemma MulAwayFromZero(d: int, k: int)
    requires d >= 1
    ensures k >= 1 ==> d * k >= d
    ensures k <= -1 ==> d * k <= -d
  {
    assert d * k == d + d * (k - 1);
    assert d * k == -d + d * (k + 1);
  }

  /** Or-ing a single low bit into an even number adds it. */
  lemma OrLowBit(r: int, b: int)
    requires b == 0 || b == 1
    ensures BitOr(2 * r, b) == 2 * r + b
  {
    if !(r == 0 && b == 0) {
      assert (2 * r) / 2 == r && Low(2 * r) == 0;
      assert b / 2 == 0 && Low(b) == b;
      OrZero(r);
    }
  }

  /** The lowest bit, as Java's `x & 1` reads it. */
  lemma AndOne(x: int)
    ensures BitAnd(x, 1) == Low(x)
  {
    assert 1 / 2 == 0 && Low(1) == 1;
    AndZero(x / 2);
  }

  lemma Pow2Values()
    ensures Pow2(1) == 2 && Pow2(30) == 0x4000_0000 && Pow2(31) == 0x8000_0000
  {
    assert Pow2(1) == 0x2;
    assert Pow2(2) == 0x4;
    assert Pow2(3) == 0x8;
    assert Pow2(4) == 0x10;
    assert Pow2(5) == 0x20;
    assert Pow2(6) == 0x40;
    assert Pow2(7) == 0x80;
    assert Pow2(8) == 0x100;
    assert Pow2(9) == 0x200;
    assert Pow2(10) == 0x400;
    assert Pow2(11) == 0x800;
    assert Pow2(12) == 0x1000;
    assert Pow2(13) == 0x2000;
    assert Pow2(14) == 0x4000;
    assert Pow2(15) == 0x8000;
    assert Pow2(16) == 0x10000;
    assert Pow2(17) == 0x20000;
    assert Pow2(18) == 0x40000;
    assert Pow2(19) == 0x80000;
    assert Pow2(20) == 0x100000;
    assert Pow2(21) == 0x200000;
    assert Pow2(22) == 0x400000;
    assert Pow2(23) == 0x800000;
    assert Pow2(24) == 0x1000000;
    assert Pow2(25) == 0x2000000;
    assert Pow2(26) == 0x4000000;
    assert Pow2(27) == 0x8000000;
    assert Pow2(28) == 0x10000000;
    assert Pow2(29) == 0x20000000;
    assert Pow2(30) == 0x40000000;
    assert Pow2(31) == 0x80000000;
  }

  lemma {:induction false} Pow2Monotone(i: nat, j: nat)
    requires i <= j
    ensures Pow2(i) <= Pow2(j)
    decreases j
  {
    if i < j {
      Pow2Monotone(i, j - 1);
    }
  }

  /** A value that fits in k bits of two's complement. */
  predicate InBits(x: int, k: nat)
  {
    -Pow2(k) <= x < Pow2(k)
  }

  /** `&`, `|` and `^` of two k-bit values are k-bit values. */
  lemma {:induction false} BitOpsInBits(x: int, y: int, k: nat)
    requires InBits(x, k) && InBits(y, k)
    ensures InBits(BitAnd(x, y), k) && InBits(BitOr(x, y), k) && InBits(BitXor(x, y), k)
    decreases k
  {
    if k > 0 && !((x == 0 || x == -1) && (y == 0 || y == -1)) {
      Halves(x);
      Halves(y);
      BitOpsInBits(x / 2, y / 2, k - 1);
    }
  }

  /** The same on the Java `int` range. */
  lemma BitOpsInRange(x: Int32, y: Int32)
    ensures MinInt <= BitAnd(x, y) <= MaxInt
    ensures MinInt <= BitOr(x, y) <= MaxInt
    ensures MinInt <= BitXor(x, y) <= MaxInt
  {
    Pow2Values();
    BitOpsInBits(x, y, 31);
  }
}
