/**
 * The two hash-table helpers of `ConcurrentHashMapTest`, copies of the ones
 * inside `java.util.concurrent.ConcurrentHashMap`: `tableSizeFor` rounds a
 * requested capacity up to a power of two, and `spread` folds the high half
 * of a hash code into the low half and clears the sign bit.
 *
 * A Java `int` is its 32-bit two's-complement pattern (`bv32`): `c - 1`
 * wraps, `>>>` is the zero-filling shift, and `n < 0` tests the top bit.
 */
module HashSpread {

  /** `MAXIMUM_CAPACITY = 1 << 30`. */
  const MaximumCapacity: bv32 := 0x4000_0000

  /** `HASH_BITS = 0x7fffffff`: every bit but the sign bit. */
  const HashBits: bv32 := 0x7FFF_FFFF

  /** The Java `int` of this pattern is negative. */
  predicate IsNegative(x: bv32)
  {
    x >= 0x8000_0000
  }

  /** A positive power of two: exactly one bit set, and not the sign bit. */
  predicate IsPowerOfTwo(x: bv32)
  {
    x != 0 && x & (x - 1) == 0 && !IsNegative(x)
  }

  /** The OR-shift chain `n |= n >>> 1; n |= n >>> 2; ...; n |= n >>> 16`. */
  function Smear(n: bv32): bv32
  {
    var n1 := n | (n >> 1);
    var n2 := n1 | (n1 >> 2);
    var n4 := n2 | (n2 >> 4);
    var n8 := n4 | (n4 >> 8);
    n8 | (n8 >> 16)
  }

  /**
   * `tableSizeFor(c)`: with n the smeared `c - 1`, 1 when n is negative, the
   * maximum capacity when n reaches it, otherwise n + 1.
   */
  function TableSizeFor(c: bv32): (r: bv32)
    ensures IsPowerOfTwo(r) && 1 <= r <= MaximumCapacity
  {
    var n := Smear(c - 1);
    if IsNegative(n) then 1
    else if n >= MaximumCapacity then MaximumCapacity
    else n + 1
  }

  /** Smearing sets every bit below the highest set bit, and no bit above it. */
  lemma SmearFillsBelowTopBit(n: bv32)
    ensures Smear(n) >= n
    ensures Smear(n) & (Smear(n) + 1) == 0
    ensures n != 0 ==> Smear(n) / 2 < n
  {
  }

  /**
   * For a capacity between 1 and 2^30 the result is the smallest power of
   * two that is at least the capacity.
   */
  lemma TableSizeForIsNextPowerOfTwo(c: bv32)
    requires 1 <= c <= MaximumCapacity
    ensures TableSizeFor(c) >= c
    ensures TableSizeFor(c) == 1 || TableSizeFor(c) / 2 < c
    ensures forall p: bv32 :: IsPowerOfTwo(p) && p >= c ==> p >= TableSizeFor(c)
  {
    var r := TableSizeFor(c);
    SmearFillsBelowTopBit(c - 1);
    forall p: bv32 | IsPowerOfTwo(p) && p >= c
      ensures p >= r
    {
      PowerOfTwoAboveHalf(p, r, c);
    }
  }

  /** A power of two at least c is at least the next power of two above c / 2. */
  lemma PowerOfTwoAboveHalf(p: bv32, r: bv32, c: bv32)
    requires IsPowerOfTwo(p) && IsPowerOfTwo(r) && p >= c && 1 <= c
    requires r == 1 || r / 2 < c
    ensures p >= r
  {
  }

  /** A capacity above 2^30 (and below 2^31) is capped at 2^30. */
  lemma TableSizeForCapped(c: bv32)
    requires MaximumCapacity < c && !IsNegative(c)
    ensures TableSizeFor(c) == MaximumCapacity
  {
  }

  /**
   * A capacity of 0 or below, other than `Integer.MIN_VALUE`, gives 1: `c - 1`
   * stays negative through the shifts. `Integer.MIN_VALUE - 1` wraps to
   * `Integer.MAX_VALUE`, which is capped.
   */
  lemma TableSizeForNonPositive(c: bv32)
    ensures c == 0 || 0x8000_0000 < c ==> TableSizeFor(c) == 1
    ensures c == 0x8000_0000 ==> TableSizeFor(c) == MaximumCapacity
  {
  }

  /** The value `main` prints for `tableSizeFor(7)`. */
  lemma TableSizeForSeven()
    ensures TableSizeFor(7) == 8
  {
  }

  /** `spread(h) = (h ^ (h >>> 16)) & HASH_BITS`. */
  function Spread(h: bv32): (r: bv32)
    ensures !IsNegative(r)
    ensures r & 0xFFFF == (h & 0xFFFF) ^ (h >> 16)
    ensures r & 0x7FFF_0000 == h & 0x7FFF_0000
  {
    (h ^ (h >> 16)) & HashBits
  }

  /**
   * The bucket index of a table of 16, `(16 - 1) & spread(h)`, is the
   * remainder of spread(h) by 16; the unsigned `%` of the pattern agrees with
   * Java's signed `%` here because spread(h) is never negative.
   */
  lemma BucketIsRemainder(h: bv32)
    ensures (16 - 1) & Spread(h) == Spread(h) % 16
  {
  }
}
