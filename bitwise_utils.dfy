/**
 * The static helpers of `BitwiseUtils`: Java `int` bit tricks.
 *
 * Operations whose meaning is about the 32-bit pattern (and, or, xor, not,
 * parity, powers of two, lowest set bit, sign, zero, population count) take
 * and return `bv32`; a pattern with the top bit set is a negative Java int.
 * Operations whose meaning is about the arithmetic value (shifts, absolute
 * value, max, min, remainder, binary palindromes) are modelled on `Int32`
 * from `JavaInt`, with Java's wrap-around written out.
 */
module BitwiseUtils {
  import opened JavaInt

  // ------------------------------------------------------------------
  // Bit patterns
  // ------------------------------------------------------------------

  /** Bit i of x, counting from the least significant bit. */
  predicate Bit(x: bv32, i: bv32)
    requires i < 32
  {
    (x >> i) & 1 == 1
  }

  /** The sign bit: x read as a Java int is negative. */
  predicate IsNegative(x: bv32)
  {
    x >= 0x8000_0000
  }

  function And(a: bv32, b: bv32): (r: bv32)
    ensures forall i: bv32 :: i < 32 ==> (Bit(r, i) <==> Bit(a, i) && Bit(b, i))
  {
    BitsOfAnd(a, b);
    a & b
  }

  function Or(a: bv32, b: bv32): (r: bv32)
    ensures forall i: bv32 :: i < 32 ==> (Bit(r, i) <==> Bit(a, i) || Bit(b, i))
  {
    BitsOfOr(a, b);
    a | b
  }

  function Xor(a: bv32, b: bv32): (r: bv32)
    ensures forall i: bv32 :: i < 32 ==> (Bit(r, i) <==> Bit(a, i) != Bit(b, i))
  {
    BitsOfXor(a, b);
    a ^ b
  }

  function Not(a: bv32): (r: bv32)
    ensures forall i: bv32 :: i < 32 ==> (Bit(r, i) <==> !Bit(a, i))
  {
    BitsOfNot(a);
    !a
  }

  // The bit-vector operators, bit by bit.

  lemma BitsOfAnd(a: bv32, b: bv32)
    ensures forall i: bv32 :: i < 32 ==> (Bit(a & b, i) <==> Bit(a, i) && Bit(b, i))
  {
    forall i: bv32 | i < 32
      ensures Bit(a & b, i) <==> Bit(a, i) && Bit(b, i)
    {
      BitOfAnd(a, b, i);
    }
  }

  lemma BitsOfOr(a: bv32, b: bv32)
    ensures forall i: bv32 :: i < 32 ==> (Bit(a | b, i) <==> Bit(a, i) || Bit(b, i))
  {
    forall i: bv32 | i < 32
      ensures Bit(a | b, i) <==> Bit(a, i) || Bit(b, i)
    {
      BitOfOr(a, b, i);
    }
  }

  lemma BitsOfXor(a: bv32, b: bv32)
    ensures forall i: bv32 :: i < 32 ==> (Bit(a ^ b, i) <==> Bit(a, i) != Bit(b, i))
  {
    forall i: bv32 | i < 32
      ensures Bit(a ^ b, i) <==> Bit(a, i) != Bit(b, i)
    {
      BitOfXor(a, b, i);
    }
  }

  lemma BitsOfNot(a: bv32)
    ensures forall i: bv32 :: i < 32 ==> (Bit(!a, i) <==> !Bit(a, i))
  {
    forall i: bv32 | i < 32
      ensures Bit(!a, i) <==> !Bit(a, i)
    {
      BitOfNot(a, i);
    }
  }

  // The bit-vector operators, one bit at a time.

  lemma BitOfAnd(a: bv32, b: bv32, i: bv32)
    requires i < 32
    ensures Bit(a & b, i) <==> Bit(a, i) && Bit(b, i)
  {
  }

  lemma BitOfOr(a: bv32, b: bv32, i: bv32)
    requires i < 32
    ensures Bit(a | b, i) <==> Bit(a, i) || Bit(b, i)
  {
  }

  lemma BitOfXor(a: bv32, b: bv32, i: bv32)
    requires i < 32
    ensures Bit(a ^ b, i) <==> Bit(a, i) != Bit(b, i)
  {
  }

  lemma BitOfNot(a: bv32, i: bv32)
    requires i < 32
    ensures Bit(!a, i) <==> !Bit(a, i)
  {
  }

  /** `(num & 1) == 1`: parity of the pattern, which is the parity of the signed value. */
  function IsOdd(num: bv32): (r: bool)
    ensures r <==> num % 2 == 1
  {
    num & 1 == 1
  }

  /** Number of set bits in the 32-bit pattern. */
  function PopCount(n: bv32): nat
    decreases n
  {
    if n == 0 then 0 else LowBit(n) + PopCount(Half(n))
  }

  function LowBit(n: bv32): nat
  {
    if n & 1 == 1 then 1 else 0
  }

  /** The pattern shifted right by one, zero-filled. */
  function Half(n: bv32): bv32
  {
    n >> 1
  }

  lemma PopCountUnfold(n: bv32)
    requires n != 0
    ensures PopCount(n) == LowBit(n) + PopCount(Half(n))
  {
  }

  lemma OddStep(n: bv32)
    requires LowBit(n) == 1
    ensures Half(n & (n - 1)) == Half(n) && LowBit(n & (n - 1)) == 0
  {
  }

  lemma EvenStep(n: bv32)
    requires n != 0 && LowBit(n) == 0
    ensures Half(n) != 0
    ensures Half(n & (n - 1)) == Half(n) & (Half(n) - 1)
    ensures LowBit(n & (n - 1)) == 0
  {
  }

  /** Number of significant bits. */
  function Width(n: bv32): nat
    decreases n
  {
    if n == 0 then 0 else 1 + Width(Half(n))
  }

  lemma HalfOfEven(n: bv32)
    requires n != 0 && LowBit(n) == 0
    ensures 0 < Half(n) < n
  {
  }

  lemma HalfSmaller(n: bv32)
    requires n != 0
    ensures Half(n) < n
  {
  }

  lemma ZeroPattern(n: bv32)
    ensures n == 0 ==> PopCount(n) == 0 && LowBit(n) == 0 && Half(n) == 0
  {
  }

  lemma OddCase(n: bv32)
    requires LowBit(n) == 1
    ensures PopCount(n & (n - 1)) + 1 == PopCount(n)
  {
    var c := n & (n - 1);
    PopCountUnfold(n);
    OddStep(n);
    ZeroPattern(c);
    if c != 0 {
      PopCountUnfold(c);
    }
  }

  lemma EvenCase(n: bv32)
    requires n != 0 && LowBit(n) == 0
    requires PopCount(Half(n) & (Half(n) - 1)) + 1 == PopCount(Half(n))
    ensures PopCount(n & (n - 1)) + 1 == PopCount(n)
  {
    var c := n & (n - 1);
    EvenStep(n);
    PopCountUnfold(n);
    ZeroPattern(c);
    if c != 0 {
      PopCountUnfold(c);
    }
  }

  /** `n & (n - 1)` clears exactly one set bit of a non-zero pattern. */
  lemma {:induction false} ClearLowestDropsOneBit(n: bv32)
    requires n != 0
    ensures PopCount(n & (n - 1)) + 1 == PopCount(n)
    decreases Width(n), 1
  {
    if LowBit(n) == 1 {
      OddCase(n);
    } else {
      EvenInduction(n);
    }
  }

  lemma {:induction false} EvenInduction(n: bv32)
    requires n != 0 && LowBit(n) == 0
    ensures PopCount(n & (n - 1)) + 1 == PopCount(n)
    decreases Width(n), 0
  {
    HalfOfEven(n);
    assert Width(n) == 1 + Width(Half(n));
    ClearLowestDropsOneBit(Half(n));
    EvenCase(n);
  }

  /** Only the zero pattern has no set bit. */
  lemma {:induction false} PopCountZero(n: bv32)
    ensures PopCount(n) == 0 <==> n == 0
    decreases Width(n)
  {
    if n != 0 {
      PopCountUnfold(n);
      if LowBit(n) == 0 {
        HalfOfEven(n);
        assert Width(n) == 1 + Width(Half(n));
        PopCountZero(Half(n));
      }
    }
  }

  /** `num > 0 && (num & (num - 1)) == 0`: a positive int with exactly one set bit. */
  function IsPowerOfTwo(num: bv32): (r: bool)
    ensures r <==> !IsNegative(num) && PopCount(num) == 1
  {
    if num != 0 then
      ClearLowestDropsOneBit(num);
      PopCountZero(num & (num - 1));
      !IsNegative(num) && num & (num - 1) == 0
    else
      PopCountZero(num);
      false
  }

  /** Every power 2^k that a Java int can hold passes the test. */
  lemma PowersOfTwoPass(k: bv32)
    requires k < 31
    ensures IsPowerOfTwo(1 << k)
  {
    var p: bv32 := 1 << k;
    assert p != 0 && p & (p - 1) == 0 && !IsNegative(p);
  }

  lemma XorCancels(a: bv32, b: bv32)
    ensures (a ^ b) ^ b == a && (a ^ b) ^ a == b
  {
  }

  /**
   * The three-xor swap; the source reassigns its parameters in place and
   * returns them as a two-element array, here the two results in order.
   */
  method Swap(a: bv32, b: bv32) returns (first: bv32, second: bv32)
    ensures first == b && second == a
  {
    XorCancels(a, b);
    var x, y := a, b;
    x := x ^ y;
    y := x ^ y;
    x := x ^ y;
    first, second := x, y;
  }

  /** `num & -num`: the lowest set bit of num alone. */
  function LowestOneBit(num: bv32): (r: bv32)
    ensures r & num == r
    ensures (r - 1) & num == 0
    ensures r & (r - 1) == 0
    ensures r != 0 <==> num != 0
  {
    num & -num
  }

  lemma LowestAndRest(n: bv32)
    ensures (n & -n) | (n & (n - 1)) == n
    ensures (n & -n) & (n & (n - 1)) == 0
  {
  }

  lemma ClearLowestIfNonZero(n: bv32)
    ensures n != 0 ==> PopCount(n & (n - 1)) + 1 == PopCount(n)
  {
    if n != 0 {
      ClearLowestDropsOneBit(n);
    }
  }

  /** `num & (num - 1)`: num with its lowest set bit cleared, one set bit fewer. */
  function ClearLowestOneBit(num: bv32): (r: bv32)
    ensures num != 0 ==> PopCount(r) + 1 == PopCount(num)
  {
    ClearLowestIfNonZero(num);
    num & (num - 1)
  }

  /** The lowest set bit and the cleared rest split num into two disjoint parts. */
  lemma LowestAndClearedPartition(num: bv32)
    ensures ClearLowestOneBit(num) | LowestOneBit(num) == num
    ensures ClearLowestOneBit(num) & LowestOneBit(num) == 0
  {
    LowestAndRest(num);
  }

  /** The lowest set bit of a non-zero pattern is a single bit. */
  lemma LowestOneBitIsSingle(num: bv32)
    requires num != 0
    ensures PopCount(LowestOneBit(num)) == 1
  {
    var r := LowestOneBit(num);
    ClearLowestDropsOneBit(r);
    PopCountZero(r & (r - 1));
  }

  /** `(x ^ y) >= 0`. */
  function HaveSameSign(x: bv32, y: bv32): (r: bool)
    ensures r <==> (IsNegative(x) == IsNegative(y))
  {
    !IsNegative(x ^ y)
  }

  /** `(num | -num) == 0`. */
  function IsZero(num: bv32): (r: bool)
    ensures r <==> num == 0
  {
    num | -num == 0
  }

  /** `~num`, the same operation as `not`. */
  function FlipBits(num: bv32): (r: bv32)
    ensures r == Not(num)
    ensures r ^ num == 0xFFFF_FFFF
  {
    !num
  }

  lemma FlipBitsTwiceIsIdentity(num: bv32)
    ensures FlipBits(FlipBits(num)) == num
  {
    assert !!num == num;
  }

  /** Clears the lowest set bit until none is left, counting the rounds. */
  method CountOnes(num: bv32) returns (count: nat)
    ensures count == PopCount(num)
  {
    var n := num;
    count := 0;
    while n != 0
      invariant count + PopCount(n) == PopCount(num)
      decreases PopCount(n)
    {
      ClearLowestDropsOneBit(n);
      n := n & (n - 1);
      count := count + 1;
    }
    ZeroPattern(n);
  }

  // ------------------------------------------------------------------
  // Arithmetic values
  // ------------------------------------------------------------------

  /** `a << n`: Java uses only the low five bits of the count. */
  function LeftShift(a: Int32, n: Int32): (r: Int32)
    ensures (r - a * Pow2(n % 32)) % Modulus == 0
    ensures 0 <= a < Pow2(31 - n % 32) ==> r == a * Pow2(n % 32)
  {
    ShiftFits(a, n % 32);
    ShiftLeft(a, n % 32)
  }

  lemma {:induction false} Pow2Add(i: nat, j: nat)
    ensures Pow2(i + j) == Pow2(i) * Pow2(j)
    decreases i
  {
    if i > 0 {
      Pow2Add(i - 1, j);
    }
  }

  lemma MulMonotone(q: int, d: int, e: int)
    requires q >= 0 && d >= e
    ensures d * q >= e * q
  {
    assert d * q - e * q == (d - e) * q;
  }

  lemma Distribute(q: int, d: int)
    ensures (q + 1) * d == q * d + d
  {
  }

  /** A shift that moves no set bit into or past the sign bit keeps the exact product. */
  lemma ShiftFits(a: int, s: nat)
    requires s <= 31
    ensures 0 <= a < Pow2(31 - s) ==> 0 <= a * Pow2(s) <= MaxInt
  {
    if 0 <= a < Pow2(31 - s) {
      var p, t := Pow2(s), Pow2(31 - s);
      Pow2Add(31 - s, s);
      Pow2Values();
      assert t * p == 0x8000_0000;
      MulMonotone(p, t, a + 1);
      Distribute(a, p);
      MulMonotone(p, a, 0);
    }
  }

  /** Multiplying by a positive factor keeps the sign and does not shrink. */
  lemma MulByPositive(q: int, d: int)
    requires d >= 1
    ensures q >= 0 ==> 0 <= q <= d * q
    ensures q < 0 ==> d * q <= -d && d * q <= q
  {
    if q >= 0 {
      MulMonotone(q, d, 1);
    } else {
      MulMonotone(-q, d, 1);
      MulMonotone(d, -q, 1);
      assert d * (-q) == -(d * q);
    }
  }

  lemma FloorDivision(a: int, d: int)
    requires d >= 1
    ensures (a / d) * d <= a < (a / d + 1) * d
    ensures a / d < 0 <==> a < 0
    ensures a >= 0 ==> 0 <= a / d <= a
    ensures a < 0 ==> a <= a / d
  {
    var q := a / d;
    var m := a % d;
    var prod := d * q;
    assert a == prod + m && 0 <= m < d;
    Distribute(q, d);
    MulByPositive(q, d);
    if a < 0 {
      MulByPositive(a, d);
      assert (q + 1 - a) * d == (q + 1) * d - a * d;
      PositiveFactor(q + 1 - a, d);
    }
  }

  lemma PositiveFactor(x: int, d: int)
    requires d >= 1 && x * d > 0
    ensures x > 0
  {
  }

  /** `a >> n`: arithmetic shift, the floor of a / 2^s, sign kept. */
  function RightShift(a: Int32, n: Int32): (r: Int32)
    ensures r * Pow2(n % 32) <= a < (r + 1) * Pow2(n % 32)
    ensures r < 0 <==> a < 0
  {
    FloorDivision(a, Pow2(n % 32));
    ShiftRight(a, n % 32)
  }

  /** `a >>> n`: the pattern read as unsigned, shifted, zero-filled. */
  function UnsignedRightShift(a: Int32, n: Int32): (r: Int32)
    ensures n % 32 != 0 ==> 0 <= r
    ensures n % 32 != 0 ==>
      var u := if a < 0 then a + Modulus else a;
      r * Pow2(n % 32) <= u < (r + 1) * Pow2(n % 32)
    ensures a >= 0 ==> r == RightShift(a, n)
    ensures n % 32 == 0 ==> r == a
  {
    var s := n % 32;
    if s == 0 then
      a
    else
      UnsignedReading(a);
      UnsignedBound(a % Modulus, s);
      FloorDivision(a % Modulus, Pow2(s));
      (a % Modulus) / Pow2(s)
  }

  /** The 32-bit pattern of an int read as unsigned. */
  lemma UnsignedReading(a: Int32)
    ensures a % Modulus == if a < 0 then a + Modulus else a
  {
    if a < 0 {
      DivModUnique(a, Modulus, -1, a + Modulus);
    } else {
      DivModUnique(a, Modulus, 0, a);
    }
  }

  lemma UnsignedBound(u: int, s: nat)
    requires 0 <= u < 0x1_0000_0000 && 1 <= s
    ensures 0 <= u / Pow2(s) < 0x8000_0000
  {
    Pow2Monotone(1, s);
    Pow2Values();
    var q := u / Pow2(s);
    FloorDivision(u, Pow2(s));
    MulMonotone(q, Pow2(s), 2);
  }

  /** The sign mask `num >> 31`: -1 for a negative int, 0 otherwise. */
  lemma SignMask(x: Int32)
    ensures ShiftRight(x, 31) == if x < 0 then -1 else 0
  {
    Pow2Values();
  }

  /** `(num + mask) ^ mask` with `mask = num >> 31`. */
  function AbsoluteValue(num: Int32): (r: Int32)
    ensures num != MinInt ==> r == if num < 0 then -num else num
    ensures num == MinInt ==> r == MinInt
  {
    var mask := ShiftRight(num, 31);
    SignMask(num);
    XorZero(Wrap(num + mask));
    XorAllOnes(Wrap(num + mask));
    BitOpsInRange(Wrap(num + mask), mask);
    BitXor(Wrap(num + mask), mask)
  }

  /** `(a - b) & ((a - b) >> 31 ^ -1)`: a - b when it is non-negative, else 0. */
  function KeepIfNonNegative(d: Int32): (r: Int32)
    ensures r == if d < 0 then 0 else d
  {
    SignMask(d);
    XorAllOnes(-1);
    XorAllOnes(0);
    AndZero(d);
    AndAllOnes(d);
    BitAnd(d, BitXor(ShiftRight(d, 31), -1))
  }

  /** `b + ((a - b) & ((a - b) >> 31 ^ -1))`, in 32-bit arithmetic. */
  function Max(a: Int32, b: Int32): (r: Int32)
    ensures MinInt <= a - b <= MaxInt ==> r == if a >= b then a else b
  {
    Wrap(b + KeepIfNonNegative(Wrap(a - b)))
  }

  /** `a - ((a - b) & ((a - b) >> 31 ^ -1))`, in 32-bit arithmetic. */
  function Min(a: Int32, b: Int32): (r: Int32)
    ensures MinInt <= a - b <= MaxInt ==> r == if a >= b then b else a
  {
    Wrap(a - KeepIfNonNegative(Wrap(a - b)))
  }

  /** When `a - b` overflows, the sign of the wrapped difference is wrong. */
  lemma MaxMinOverflow()
    ensures Max(MaxInt, -1) == -1
    ensures Min(MaxInt, -1) == MaxInt
  {
    assert Wrap(MaxInt - -1) == MinInt;
  }

  /** Max and min computed from the exact (64-bit) difference. */
  function MaxWide(a: Int32, b: Int32): (r: Int32)
    ensures r == if a >= b then a else b
    ensures r == a || r == b
  {
    b + (if a - b < 0 then 0 else a - b)
  }

  function MinWide(a: Int32, b: Int32): (r: Int32)
    ensures r == if a >= b then b else a
    ensures r == a || r == b
  {
    a - (if a - b < 0 then 0 else a - b)
  }

  /** The two agree whenever the 32-bit difference does not overflow. */
  lemma MaxMinAgreeWithoutOverflow(a: Int32, b: Int32)
    requires MinInt <= a - b <= MaxInt
    ensures Max(a, b) == MaxWide(a, b) && Min(a, b) == MinWide(a, b)
  {
  }

  /** p is 2^k for some k a Java int can hold. */
  ghost predicate IsPowerOfTwoValue(p: int)
  {
    exists k: nat :: k < 31 && p == Pow2(k)
  }

  /** `num & (powerOfTwo - 1)`. */
  function ModByPowerOfTwo(num: Int32, powerOfTwo: Int32): (r: Int32)
    ensures IsPowerOfTwoValue(powerOfTwo) ==> r == num % powerOfTwo
    ensures IsPowerOfTwoValue(powerOfTwo) ==> 0 <= r < powerOfTwo
  {
    BitOpsInRange(num, Wrap(powerOfTwo - 1));
    MaskIsRemainder(num, powerOfTwo);
    BitAnd(num, Wrap(powerOfTwo - 1))
  }

  lemma MaskIsRemainder(num: Int32, p: Int32)
    ensures IsPowerOfTwoValue(p) ==> BitAnd(num, Wrap(p - 1)) == num % p
  {
    if IsPowerOfTwoValue(p) {
      var k: nat :| k < 31 && p == Pow2(k);
      AndLowMask(num, k);
    }
  }

  // ------------------------------------------------------------------
  // Binary palindromes
  // ------------------------------------------------------------------

  /** The binary digits of n, most significant first, without leading zeros. */
  function Binary(n: nat): seq<bool>
  {
    if n == 0 then [] else Binary(n / 2) + [n % 2 == 1]
  }

  /** The number that a digit sequence, most significant first, denotes. */
  function Value(bs: seq<bool>): nat
  {
    if bs == [] then 0 else 2 * Value(bs[..|bs| - 1]) + (if bs[|bs| - 1] then 1 else 0)
  }

  function Reverse<T>(s: seq<T>): (r: seq<T>)
    ensures |r| == |s|
  {
    if s == [] then [] else Reverse(s[1..]) + [s[0]]
  }

  lemma {:induction false} ValueOfBinary(n: nat)
    ensures Value(Binary(n)) == n
    decreases n
  {
    if n != 0 {
      ValueOfBinary(n / 2);
      assert Binary(n)[..|Binary(n)| - 1] == Binary(n / 2);
    }
  }

  lemma {:induction false} ValueBound(bs: seq<bool>)
    ensures Value(bs) < Pow2(|bs|)
    decreases |bs|
  {
    if bs != [] {
      ValueBound(bs[..|bs| - 1]);
    }
  }

  lemma {:induction false} BinaryLength(n: nat, k: nat)
    requires n < Pow2(k)
    ensures |Binary(n)| <= k
    decreases k
  {
    if n != 0 {
      BinaryLength(n / 2, k - 1);
    }
  }

  /** Digit sequences of the same length denote the same number only when equal. */
  lemma {:induction false} ValueInjective(a: seq<bool>, b: seq<bool>)
    requires |a| == |b| && Value(a) == Value(b)
    ensures a == b
    decreases |a|
  {
    if a != [] {
      var n := |a| - 1;
      assert a[n] == b[n];
      ValueInjective(a[..n], b[..n]);
      assert a == a[..n] + [a[n]] && b == b[..n] + [b[n]];
    }
  }

  lemma ValueAppend(bs: seq<bool>, b: bool)
    ensures Value(bs + [b]) == 2 * Value(bs) + (if b then 1 else 0)
  {
    assert (bs + [b])[..|bs|] == bs;
  }

  /** `(reversed << 1) | (num & 1)` appends the low digit of num when nothing overflows. */
  lemma ShiftInLowBit(reversed: int, n: int)
    requires 0 <= reversed < 0x4000_0000
    ensures BitOr(ShiftLeft(reversed, 1), BitAnd(n, 1)) == 2 * reversed + Low(n)
  {
    assert Pow2(1) == 2;
    assert ShiftLeft(reversed, 1) == 2 * reversed;
    AndOne(n);
    Halves(n);
    OrLowBit(reversed, Low(n));
  }

  lemma ReverseCons<T>(b: T, s: seq<T>)
    ensures Reverse([b] + s) == Reverse(s) + [b]
  {
    assert ([b] + s)[1..] == s;
  }

  lemma BinaryStep(n: int)
    requires 0 < n
    ensures ShiftRight(n, 1) == n / 2 && 0 <= n / 2 < n
    ensures Binary(n) == Binary(n / 2) + [n % 2 == 1]
  {
    assert Pow2(1) == 2;
  }

  /** A reversed prefix of at most 30 digits fits in 30 bits. */
  lemma ShortValue(bs: seq<bool>)
    requires |bs| <= 30
    ensures 0 <= Value(bs) < 0x4000_0000
  {
    ValueBound(bs);
    Pow2Monotone(|bs|, 30);
    Pow2Values();
  }

  /** Appending the low digit of n to the reversed prefix doubles it and adds the digit. */
  lemma AppendLowDigit(n: int, done: seq<bool>)
    ensures Value(Reverse([n % 2 == 1] + done)) == 2 * Value(Reverse(done)) + Low(n)
  {
    var bit := n % 2 == 1;
    LowDigit(n);
    ReverseCons(bit, done);
    ValueAppend(Reverse(done), bit);
  }

  lemma LowDigit(n: int)
    ensures Low(n) == if n % 2 == 1 then 1 else 0
  {
  }

  /** While digits of n remain, the reversed prefix has at most 30 digits. */
  lemma ReversedFits(n: int, done: seq<bool>)
    requires 0 < n && |Binary(n)| + |done| <= 31
    ensures Value(Reverse(done)) < 0x4000_0000
  {
    BinaryNonEmpty(n);
    assert |Reverse(done)| <= 30;
    ShortValue(Reverse(done));
  }

  lemma BinaryNonEmpty(n: nat)
    requires 0 < n
    ensures |Binary(n)| >= 1
  {
  }

  /**
   * The digits shifted out of `num` are or-ed into `reversed`, lowest first.
   * For a negative int `num >>= 1` never reaches 0 and the loop runs
   * forever, so the method is modelled for non-negative ints only.
   */
  method IsBinaryPalindrome(num: Int32) returns (r: bool)
    requires num >= 0
    ensures r <==> Binary(num) == Reverse(Binary(num))
  {
    var reversed: Int32 := 0;
    var original := num;
    var n: Int32 := num;
    ghost var done: seq<bool> := [];
    Pow2Values();
    BinaryLength(num, 31);
    while n != 0
      invariant 0 <= n && Binary(num) == Binary(n) + done
      invariant reversed == Value(Reverse(done))
      invariant |Binary(n)| + |done| <= 31
      decreases n
    {
      BinaryStep(n);
      ReversedFits(n, done);
      AppendLowDigit(n, done);
      ShiftInLowBit(reversed, n);
      reversed := BitOr(ShiftLeft(reversed, 1), BitAnd(n, 1));
      done := [n % 2 == 1] + done;
      n := ShiftRight(n, 1);
    }
    r := reversed == original;
    assert done == Binary(num);
    ValueOfBinary(num);
    if r {
      ValueInjective(Reverse(Binary(num)), Binary(num));
    }
  }

  // ------------------------------------------------------------------
  // Median of three
  // ------------------------------------------------------------------

  /** x lies between y and z (inclusive), so it is a median of the three. */
  predicate IsMedian(x: int, y: int, z: int)
  {
    (y <= x <= z) || (z <= x <= y)
  }

  /** r is one of the three indices and holds a median of their values. */
  predicate PicksMedian(nums: seq<int>, left: nat, mid: nat, right: nat, r: nat)
    requires left < |nums| && mid < |nums| && right < |nums|
  {
    (r == left && IsMedian(nums[left], nums[mid], nums[right]))
    || (r == mid && IsMedian(nums[mid], nums[left], nums[right]))
    || (r == right && IsMedian(nums[right], nums[left], nums[mid]))
  }

  /** As written: exclusive-or of strict comparisons picks the index. */
  function MedianThree(nums: seq<int>, left: nat, mid: nat, right: nat): (r: nat)
    requires left < |nums| && mid < |nums| && right < |nums|
    ensures r == left || r == mid || r == right
  {
    if (nums[left] < nums[mid]) != (nums[left] < nums[right]) then left
    else if (nums[mid] < nums[left]) != (nums[mid] < nums[right]) then mid
    else right
  }

  /** With three distinct values the strict comparisons do find the median. */
  lemma MedianThreeDistinct(nums: seq<int>, left: nat, mid: nat, right: nat)
    requires left < |nums| && mid < |nums| && right < |nums|
    requires nums[left] != nums[mid] && nums[left] != nums[right] && nums[mid] != nums[right]
    ensures PicksMedian(nums, left, mid, right, MedianThree(nums, left, mid, right))
  {
  }

  /** With a tie above the third value the minimum comes back. */
  lemma MedianThreeTie()
    ensures MedianThree([2, 2, 1], 0, 1, 2) == 2
    ensures !IsMedian(1, 2, 2)
  {
  }

  /** Betweenness tests with `<=` choose a median for every input. */
  function MedianOfThree(nums: seq<int>, left: nat, mid: nat, right: nat): (r: nat)
    requires left < |nums| && mid < |nums| && right < |nums|
    ensures PicksMedian(nums, left, mid, right, r)
  {
    if IsMedian(nums[left], nums[mid], nums[right]) then left
    else if IsMedian(nums[mid], nums[left], nums[right]) then mid
    else right
  }

  /** On distinct values the corrected choice agrees with the original. */
  lemma MedianChoicesAgreeOnDistinct(nums: seq<int>, left: nat, mid: nat, right: nat)
    requires left < |nums| && mid < |nums| && right < |nums|
    requires nums[left] != nums[mid] && nums[left] != nums[right] && nums[mid] != nums[right]
    ensures MedianOfThree(nums, left, mid, right) == MedianThree(nums, left, mid, right)
  {
  }

  /** The expectations of the unit tests on bit patterns. */
  lemma PatternTestValues()
    ensures And(60, 13) == 12 && Or(60, 13) == 61 && Xor(60, 13) == 49
    ensures Not(60) == 0xFFFF_FFC3 && FlipBits(5) == 0xFFFF_FFFA
    ensures IsOdd(3) && !IsOdd(4) && IsPowerOfTwo(4) && !IsPowerOfTwo(6)
    ensures LowestOneBit(18) == 2 && ClearLowestOneBit(18) == 16
    ensures HaveSameSign(5, 10) && HaveSameSign(-5, -10) && !HaveSameSign(5, -10)
    ensures IsZero(0) && !IsZero(5)
  {
  }

  lemma PopCountTestValue()
    ensures PopCount(11) == 3
  {
    assert Half(11) == 5 && Half(5) == 2 && Half(2) == 1 && Half(1) == 0;
  }

  /** The expectations of the unit tests on shifts. */
  lemma ShiftTestValues()
    ensures LeftShift(60, 2) == 240 && RightShift(60, 2) == 15 && UnsignedRightShift(60, 2) == 15
  {
    assert Pow2(2) == 4;
  }

  /** The expectations of the unit tests on signed arithmetic. */
  lemma ArithmeticTestValues()
    ensures AbsoluteValue(-5) == 5 && AbsoluteValue(5) == 5
    ensures Max(5, 10) == 10 && Min(5, 10) == 5
  {
    var a, b := -5, 5;
    assert AbsoluteValue(a) == 5 && AbsoluteValue(b) == 5;
    var x, y := 5, 10;
    assert Max(x, y) == 10 && Min(x, y) == 5;
  }

  lemma MedianTestValue()
    ensures MedianThree([3, 1, 2], 0, 1, 2) == 2
  {
  }

  lemma ModTestValue()
    ensures ModByPowerOfTwo(11, 8) == 3
  {
    assert IsPowerOfTwoValue(8) by {
      assert Pow2(3) == 8;
    }
  }
}
