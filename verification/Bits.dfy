/** Unsigned machine arithmetic on natural numbers: powers of two, bitwise operators written
    bit by bit, and the alignment helpers of apis/common/inc/dd_integer.h. */
module Bits {

  import opened Bytes

  function Pow2(k: nat): (p: nat)
    ensures p > 0
  {
    if k == 0 then 1 else 2 * Pow2(k - 1)
  }

  ghost predicate IsPow2(x: nat) {
    exists k: nat :: x == Pow2(k)
  }

  function And(x: nat, y: nat): nat {
    if x == 0 || y == 0 then 0
    else 2 * And(x / 2, y / 2) + (if x % 2 == 1 && y % 2 == 1 then 1 else 0)
  }

  function Or(x: nat, y: nat): nat
    decreases x + y
  {
    if x == 0 && y == 0 then 0
    else 2 * Or(x / 2, y / 2) + (if x % 2 == 1 || y % 2 == 1 then 1 else 0)
  }

  function ShiftRight(x: nat, k: nat): nat
    decreases k
  {
    if k == 0 then x else ShiftRight(x / 2, k - 1)
  }

  predicate Bit(x: nat, i: nat)
    decreases i
  {
    if i == 0 then x % 2 == 1 else Bit(x / 2, i - 1)
  }

  /** The complement of a 32-bit value. */
  function Not32(x: nat): nat
    requires x < U32_LIMIT
  {
    U32_LIMIT - 1 - x
  }

  /** Subtraction of uint32_t values: wraps below zero. */
  function Sub32(x: nat, y: nat): nat
    requires x < U32_LIMIT && y < U32_LIMIT
  {
    if y <= x then x - y else U32_LIMIT + x - y
  }

  /** Addition of uint32_t values: wraps at 2^32. */
  function Add32(x: nat, y: nat): nat
    requires x < U32_LIMIT && y < U32_LIMIT
  {
    if x + y < U32_LIMIT then x + y else x + y - U32_LIMIT
  }

  // ---- Powers of two -------------------------------------------------------------------------

  lemma {:induction false} Pow2Add(j: nat, k: nat)
    ensures Pow2(j + k) == Pow2(j) * Pow2(k)
  {
    if j > 0 {
      Pow2Add(j - 1, k);
      assert Pow2(j + k) == 2 * (Pow2(j - 1) * Pow2(k));
    }
  }

  lemma {:induction false} Pow2Monotone(j: nat, k: nat)
    requires j <= k
    ensures Pow2(j) <= Pow2(k)
    ensures j < k ==> 2 * Pow2(j) <= Pow2(k)
  {
    if j < k { Pow2Monotone(j, k - 1); }
  }

  /** A larger power of two is a multiple of a smaller one. */
  lemma Pow2Divides(j: nat, k: nat)
    requires j <= k
    ensures Pow2(k) % Pow2(j) == 0
  {
    Pow2Add(k - j, j);
    MultipleMod(Pow2(k - j), Pow2(j));
  }

  lemma Pow2Of32()
    ensures Pow2(16) == U16_LIMIT && Pow2(30) == 0x4000_0000 && Pow2(31) == 0x8000_0000 && Pow2(32) == U32_LIMIT
  {
    assert Pow2(8) == 256;
    Pow2Add(8, 8);
    Pow2Add(16, 14);
    assert Pow2(14) == 16384;
  }

  lemma Pow2Below32(j: nat)
    requires j < 32
    ensures Pow2(j) <= 0x8000_0000
  {
    Pow2Of32();
    Pow2Monotone(j, 31);
  }

  // ---- Division facts ------------------------------------------------------------------------

  lemma MultipleMod(q: nat, a: nat)
    requires a > 0
    ensures (q * a) % a == 0
  {
    QuotientUnique(q * a, a, q, 0);
  }

  /** A quotient and remainder pair is the one that / and % compute. */
  lemma QuotientUnique(x: int, a: nat, q: int, r: int)
    requires a > 0 && 0 <= r < a && x == q * a + r
    ensures x / a == q && x % a == r
  {
    var d := x / a - q;
    assert d * a == r - x % a by {
      assert x == (x / a) * a + x % a;
      assert (x / a) * a - q * a == d * a;
    }
    assert d >= 1 ==> d * a >= a;
    assert d <= -1 ==> d * a <= -1 * a;
  }

  lemma MultipleAdd(x: int, y: int, a: nat)
    requires a > 0 && x % a == 0 && y % a == 0
    ensures (x + y) % a == 0 && (x - y) % a == 0
  {
    var p, q := x / a, y / a;
    assert x == p * a && y == q * a;
    QuotientUnique(x + y, a, p + q, 0);
    QuotientUnique(x - y, a, p - q, 0);
  }

  /** Two multiples of a that are less than a apart are equal. */
  lemma MultiplesApart(x: int, y: int, a: nat)
    requires a > 0 && x % a == 0 && y % a == 0 && x < y
    ensures x + a <= y
  {
    var p, q := x / a, y / a;
    assert x == p * a && y == q * a;
    assert q <= p ==> q * a <= p * a;
    assert (p + 1) * a <= q * a;
    assert (p + 1) * a == p * a + a;
  }

  // ---- Bitwise operators ---------------------------------------------------------------------

  lemma {:induction false} OrBit(x: nat, y: nat, i: nat)
    ensures Bit(Or(x, y), i) == (Bit(x, i) || Bit(y, i))
    decreases i
  {
    OrUnfold(x, y);
    if i > 0 { OrBit(x / 2, y / 2, i - 1); }
  }

  lemma OrUnfold(x: nat, y: nat)
    ensures Or(x, y) / 2 == Or(x / 2, y / 2)
    ensures Or(x, y) % 2 == if x % 2 == 1 || y % 2 == 1 then 1 else 0
  {
  }

  lemma {:induction false} ZeroBit(i: nat)
    ensures !Bit(0, i)
  {
    if i > 0 { ZeroBit(i - 1); }
  }

  lemma {:induction false} ShiftBit(x: nat, k: nat, i: nat)
    ensures Bit(ShiftRight(x, k), i) == Bit(x, i + k)
    decreases k
  {
    if k > 0 { ShiftBit(x / 2, k - 1, i); }
  }

  lemma {:induction false} TopBit(x: nat, k: nat)
    requires Pow2(k) <= x < Pow2(k + 1)
    ensures Bit(x, k)
    decreases k
  {
    if k > 0 { TopBit(x / 2, k - 1); }
  }

  lemma {:induction false} OrBound(x: nat, y: nat, k: nat)
    requires x < Pow2(k) && y < Pow2(k)
    ensures Or(x, y) < Pow2(k)
    decreases k
  {
    if k > 0 && !(x == 0 && y == 0) { OrBound(x / 2, y / 2, k - 1); }
  }

  lemma {:induction false} ShiftBound(x: nat, s: nat)
    ensures ShiftRight(x, s) <= x
    decreases s
  {
    if s > 0 { ShiftBound(x / 2, s - 1); }
  }

  /** A value whose low n bits are all set, and no others, is 2^n - 1. */
  lemma {:induction false} AllOnes(x: nat, n: nat)
    requires x < Pow2(n)
    requires forall i: nat | i < n :: Bit(x, i)
    ensures x == Pow2(n) - 1
    decreases n
  {
    if n > 0 {
      assert Bit(x, 0);
      forall i: nat | i < n - 1 ensures Bit(x / 2, i) { assert Bit(x, i + 1); }
      AllOnes(x / 2, n - 1);
    }
  }

  /** Masking with 2^k - 1 is reduction modulo 2^k: the offset computation of the ring buffer. */
  lemma {:induction false} MaskIsMod(x: nat, k: nat)
    ensures And(x, Pow2(k) - 1) == x % Pow2(k)
    decreases k
  {
    if k == 0 {
      QuotientUnique(x, 1, x, 0);
    } else {
      var m := Pow2(k - 1);
      MaskIsMod(x / 2, k - 1);
      ModOfHalf(x, m);
      assert (2 * m - 1) / 2 == m - 1 && (2 * m - 1) % 2 == 1;
      AndUnfold(x, 2 * m - 1);
    }
  }

  lemma ModOfHalf(x: nat, m: nat)
    requires m > 0
    ensures x % (2 * m) == 2 * ((x / 2) % m) + x % 2
  {
    var q, r := (x / 2) / m, (x / 2) % m;
    assert x / 2 == q * m + r;
    assert q * (2 * m) == 2 * (q * m);
    QuotientUnique(x, 2 * m, q, 2 * r + x % 2);
  }

  /** A mask and its complement split a value. */
  lemma {:induction false} AndComplement(x: nat, m: nat, k: nat)
    requires x < Pow2(k) && m < Pow2(k)
    ensures And(x, m) + And(x, Pow2(k) - 1 - m) == x
    decreases k
  {
    if k > 0 {
      AndComplement(x / 2, m / 2, k - 1);
      var c := Pow2(k) - 1 - m;
      assert c / 2 == Pow2(k - 1) - 1 - m / 2 && c % 2 == 1 - m % 2;
      AndUnfold(x, m);
      AndUnfold(x, c);
    }
  }

  lemma AndUnfold(x: nat, y: nat)
    ensures And(x, y) == 2 * And(x / 2, y / 2) + (if x % 2 == 1 && y % 2 == 1 then 1 else 0)
  {
  }

  // ---- NextSmallestPow2 ----------------------------------------------------------------------

  /** The smearing steps x |= x >> s for s = 1, 2, 4, 8, 16 (from the given s on), which copy the
      top bit of a 32-bit value into every lower one. */
  function SmearDown(x: nat, s: nat): nat
    requires s > 0
    decreases 32 - s
  {
    if s >= 32 then x else SmearDown(Or(x, ShiftRight(x, s)), 2 * s)
  }

  /** NextSmallestPow2: decrement, smear the top bit downwards, increment. */
  function NextSmallestPow2(x: nat): nat
    requires x < U32_LIMIT
  {
    SmearStays32(Sub32(x, 1), 1);
    Add32(SmearDown(Sub32(x, 1), 1), 1)
  }

  /** Bits k, k-1, ..., k-m+1 of x are set and none above k is. */
  ghost predicate TopRun(x: nat, k: nat, m: nat) {
    && x < Pow2(k + 1)
    && forall i: nat | i <= k < i + m :: Bit(x, i)
  }

  lemma SmearDoubles(x: nat, k: nat, m: nat)
    requires m > 0 && TopRun(x, k, m)
    ensures TopRun(Or(x, ShiftRight(x, m)), k, 2 * m)
  {
    ShiftBound(x, m);
    OrBound(x, ShiftRight(x, m), k + 1);
    forall i: nat | i <= k < i + 2 * m ensures Bit(Or(x, ShiftRight(x, m)), i) {
      OrBit(x, ShiftRight(x, m), i);
      ShiftBit(x, m, i);
      if k < i + m { assert Bit(x, i); } else { assert Bit(x, i + m); }
    }
  }

  lemma {:induction false} SmearFills(x: nat, k: nat, s: nat)
    requires s > 0 && TopRun(x, k, s) && k < 32
    ensures SmearDown(x, s) == Pow2(k + 1) - 1
    decreases 32 - s
  {
    if s >= 32 {
      AllOnes(x, k + 1);
    } else {
      SmearDoubles(x, k, s);
      SmearFills(Or(x, ShiftRight(x, s)), k, 2 * s);
    }
  }

  lemma SmearFromTop(x: nat, k: nat)
    requires Pow2(k) <= x < Pow2(k + 1) && k < 32
    ensures SmearDown(x, 1) == Pow2(k + 1) - 1
  {
    TopBit(x, k);
    forall i: nat | i <= k < i + 1 ensures Bit(x, i) { assert i == k; }
    SmearFills(x, k, 1);
  }

  lemma {:induction false} FindTopBit(x: nat, n: nat) returns (k: nat)
    requires 0 < x < Pow2(n)
    ensures k < n && Pow2(k) <= x < Pow2(k + 1)
    decreases n
  {
    if Pow2(n - 1) <= x { k := n - 1; } else { k := FindTopBit(x, n - 1); }
  }

  /** r is the least power of two that is at least x. */
  ghost predicate LeastPow2AtLeast(r: nat, x: nat) {
    IsPow2(r) && x <= r && forall j: nat | x <= Pow2(j) :: r <= Pow2(j)
  }

  lemma Pow2Least(x: nat, k: nat)
    requires x <= Pow2(k) && (k > 0 ==> Pow2(k - 1) < x)
    ensures LeastPow2AtLeast(Pow2(k), x)
  {
    forall j: nat | x <= Pow2(j) ensures Pow2(k) <= Pow2(j) {
      if j < k { Pow2Monotone(j, k - 1); } else { Pow2Monotone(k, j); }
    }
  }

  lemma NextSmallestPow2Value(x: nat, k: nat)
    requires 1 < x < U32_LIMIT && k < 32 && Pow2(k) <= x - 1 < Pow2(k + 1) <= U32_LIMIT
    ensures NextSmallestPow2(x) == if Pow2(k + 1) < U32_LIMIT then Pow2(k + 1) else 0
  {
    SmearFromTop(x - 1, k);
  }

  lemma NextSmallestPow2Ends()
    ensures NextSmallestPow2(0) == 0 && NextSmallestPow2(1) == 1
  {
    Pow2Of32();
    SmearOfZero(1);
    SmearFromTop(U32_LIMIT - 1, 31);
  }

  /** The exponent of the result: x lies above the next smaller power of two. */
  lemma NextSmallestPow2Exponent(x: nat) returns (k: nat)
    requires 0 < x <= 0x8000_0000
    ensures NextSmallestPow2(x) == Pow2(k) && x <= Pow2(k) && (k > 0 ==> Pow2(k - 1) < x)
  {
    if x == 1 {
      NextSmallestPow2Ends();
      k := 0;
      assert Pow2(0) == 1;
    } else {
      assert x - 1 < Pow2(31) by { Pow2Of32(); }
      var t := FindTopBit(x - 1, 31);
      k := t + 1;
      Pow2Below32(k);
      NextSmallestPow2Value(x, t);
    }
  }

  /** NextSmallestPow2 is the least power of two that is at least x. */
  lemma NextSmallestPow2Least(x: nat)
    requires 0 < x <= 0x8000_0000
    ensures LeastPow2AtLeast(NextSmallestPow2(x), x)
  {
    var k := NextSmallestPow2Exponent(x);
    Pow2Least(x, k);
  }

  /** ... and 0 where there is none: for 0, and where the result would be 2^32. */
  lemma NextSmallestPow2Zero(x: nat)
    requires x < U32_LIMIT
    ensures NextSmallestPow2(x) == 0 <==> x == 0 || x > 0x8000_0000
  {
    if 0 < x <= 0x8000_0000 {
      var k := NextSmallestPow2Exponent(x);
    } else if x == 0 {
      NextSmallestPow2Ends();
    } else {
      Pow2Of32();
      NextSmallestPow2Value(x, 31);
    }
  }

  lemma {:induction false} SmearStays32(x: nat, s: nat)
    requires x < U32_LIMIT && s > 0
    ensures SmearDown(x, s) < U32_LIMIT
    decreases 32 - s
  {
    if s < 32 {
      ShiftBound(x, s);
      assert Or(x, ShiftRight(x, s)) < U32_LIMIT by {
        Pow2Of32();
        OrBound(x, ShiftRight(x, s), 32);
      }
      SmearStays32(Or(x, ShiftRight(x, s)), 2 * s);
    }
  }

  lemma {:induction false} SmearOfZero(s: nat)
    requires s > 0
    ensures SmearDown(0, s) == 0
    decreases 32 - s
  {
    if s < 32 {
      ShiftBound(0, s);
      SmearOfZero(2 * s);
    }
  }

  // ---- AlignU32 ------------------------------------------------------------------------------

  /** AlignU32: (x + (a - 1)) & ~(a - 1) in 32-bit arithmetic. */
  function AlignU32(x: nat, alignment: nat): nat
    requires x < U32_LIMIT && alignment < U32_LIMIT
  {
    And(Add32(x, Sub32(alignment, 1)), Not32(Sub32(alignment, 1)))
  }

  /** The least multiple of a that is at least x. */
  function RoundUp(x: nat, a: nat): (r: nat)
    requires a > 0
    ensures x <= r < x + a && r % a == 0
  {
    var v := x + a - 1;
    assert v == (v / a) * a + v % a;
    QuotientUnique(v - v % a, a, v / a, 0);
    v - v % a
  }

  /** What alignment gives in 32 bits: the rounded value, or 0 where it does not fit. */
  function Aligned(x: nat, a: nat): nat
    requires a > 0
  {
    if RoundUp(x, a) < U32_LIMIT then RoundUp(x, a) else 0
  }

  lemma RoundUpLeast(x: nat, a: nat, m: nat)
    requires a > 0 && m % a == 0 && x <= m
    ensures RoundUp(x, a) <= m
  {
    if m < RoundUp(x, a) { MultiplesApart(m, RoundUp(x, a), a); }
  }

  lemma AlignIsFloor(v: nat, j: nat)
    requires v < U32_LIMIT && j < 32
    ensures Pow2(j) < U32_LIMIT
    ensures And(v, U32_LIMIT - Pow2(j)) == v - v % Pow2(j)
  {
    Pow2Of32();
    Pow2Below32(j);
    AndComplement(v, Pow2(j) - 1, 32);
    MaskIsMod(v, j);
  }

  /** The 32-bit mask for multiples of 8, and what it does to wider values. */
  lemma FloorToEight(v: nat)
    ensures v < U32_LIMIT ==> And(v, Not32(7)) == v - v % 8
    ensures And(v, Not32(7)) < U32_LIMIT - 7
  {
    if v < U32_LIMIT {
      assert Pow2(3) == 8;
      AlignIsFloor(v, 3);
    }
    AndAtMost(v, Not32(7));
  }

  lemma {:induction false} AndAtMost(x: nat, y: nat)
    ensures And(x, y) <= y
    decreases x, y
  {
    if x > 0 && y > 0 {
      AndUnfold(x, y);
      AndAtMost(x / 2, y / 2);
    }
  }

  lemma AlignU32Floor(x: nat, j: nat)
    requires x < U32_LIMIT && j < 32
    ensures 0 < Pow2(j) < U32_LIMIT
    ensures AlignU32(x, Pow2(j)) == Add32(x, Pow2(j) - 1) - Add32(x, Pow2(j) - 1) % Pow2(j)
  {
    Pow2Below32(j);
    AlignIsFloor(Add32(x, Pow2(j) - 1), j);
  }

  lemma WrappedFloor(x: nat, a: nat)
    requires x < U32_LIMIT && 0 < a < U32_LIMIT && U32_LIMIT % a == 0
    ensures RoundUp(x, a) <= U32_LIMIT
    ensures Add32(x, a - 1) - Add32(x, a - 1) % a == Aligned(x, a)
  {
    RoundUpLeast(x, a, U32_LIMIT);
    if x + a - 1 >= U32_LIMIT {
      var v := x + a - 1 - U32_LIMIT;
      assert Add32(x, a - 1) == v;
      QuotientUnique(v, a, 0, v);
      MultiplesApart2(RoundUp(x, a), U32_LIMIT, a);
    }
  }

  /** Alignment to a power of two rounds up, and gives 0 exactly when the rounded value is 2^32
      (or x is 0). */
  lemma AlignU32Correct(x: nat, j: nat)
    requires x < U32_LIMIT && j < 32
    ensures Pow2(j) < U32_LIMIT && U32_LIMIT % Pow2(j) == 0
    ensures RoundUp(x, Pow2(j)) <= U32_LIMIT
    ensures AlignU32(x, Pow2(j)) == Aligned(x, Pow2(j))
  {
    AlignU32Floor(x, j);
    assert U32_LIMIT % Pow2(j) == 0 by {
      Pow2Of32();
      Pow2Divides(j, 32);
    }
    WrappedFloor(x, Pow2(j));
  }

  lemma MultiplesApart2(x: nat, y: nat, a: nat)
    requires a > 0 && x % a == 0 && y % a == 0 && x <= y < x + a
    ensures x == y
  {
    if x < y { MultiplesApart(x, y, a); }
  }

  // ---- Byte order -----------------------------------------------------------------------------

  lemma DivTwice(n: nat, p: nat)
    requires p > 0
    ensures n / 256 / p == n / (256 * p)
  {
    var m, q, r := n / 256, n / 256 / p, n / 256 % p;
    assert m == q * p + r && n == 256 * m + n % 256;
    assert 256 * (q * p) == q * (256 * p);
    assert 256 * r + n % 256 < 256 * p;
    QuotientUnique(n, 256 * p, q, 256 * r + n % 256);
  }

  /** Little-endian: the i-th byte of a field is the i-th digit of the number to the base 256. */
  lemma {:induction false} LittleEndianDigit(n: nat, k: nat, i: nat)
    requires i < k
    ensures LittleEndian(n, k)[i] == (n / Pow256(i)) % 256
    decreases k
  {
    if i > 0 {
      LittleEndianDigit(n / 256, k - 1, i - 1);
      DivTwice(n, Pow256(i - 1));
    }
  }
}
