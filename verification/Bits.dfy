/** Bit arithmetic over unbounded Python integers (riescue/lib/common.py).
    The bitwise operators are defined by recursion on binary digits, so that nothing is
    lost when an intermediate result exceeds 64 bits or when `~mask` is negative. */
module Bits {

  function Pow2(n: nat): (r: nat)
    ensures r >= 1
  {
    if n == 0 then 1 else 2 * Pow2(n - 1)
  }

  // ---------- the operators ----------

  /** x & y. The right operand may be negative: its two's complement digits go on for ever. */
  function And(x: nat, y: int): nat {
    if x == 0 then 0 else 2 * And(x / 2, y / 2) + (if x % 2 == 1 then y % 2 else 0)
  }

  /** x | y */
  function Or(x: nat, y: nat): nat
    decreases x + y
  {
    if x == 0 then y else 2 * Or(x / 2, y / 2) + (if x % 2 == 1 then 1 else y % 2)
  }

  /** ~x */
  function Not(x: int): int { -x - 1 }

  /** x << n */
  function Shl(x: nat, n: nat): (r: nat)
    ensures x <= r
    decreases n
  {
    if n == 0 then x else 2 * Shl(x, n - 1)
  }

  /** x >> n */
  function Shr(x: nat, n: nat): nat
    decreases n
  {
    if n == 0 then x else Shr(x / 2, n - 1)
  }

  /** The n low digits of x. */
  function Low(x: nat, n: nat): nat
    decreases n
  {
    if n == 0 then 0 else 2 * Low(x / 2, n - 1) + x % 2
  }

  /** x is a multiple of 2^k. */
  predicate Aligned(x: nat, k: nat) { Low(x, k) == 0 }

  function BitLength(x: nat): nat {
    if x == 0 then 0 else 1 + BitLength(x / 2)
  }

  /** common.msb: -1 for zero, as in the source. */
  function Msb(x: nat): int { BitLength(x) - 1 }

  // ---------- common.py ----------

  /** common.bitn */
  predicate BitN(value: nat, bit: nat) { And(Shr(value, bit), 1) != 0 }

  /** common.bits */
  function Field(value: nat, hi: nat, lo: nat): nat
    requires lo <= hi
  {
    Shr(And(value, Shl(Shl(1, hi - lo + 1) - 1, lo)), lo)
  }

  /** 2^64 */
  const WORD: nat := 0x1_0000_0000_0000_0000

  const ALL_ONES: nat := 0xFFFF_FFFF_FFFF_FFFF

  /** common.address_mask_from_size; the shift raises for size 0. */
  function AddressMaskFromSize(size: nat): nat
    requires size > 0
  {
    And(Shl(ALL_ONES, Msb(size)), ALL_ONES)
  }

  // ---------- multiplication, kept apart ----------

  lemma MulMono(d: nat, a: int, b: int)
    requires a <= b
    ensures d * a <= d * b
  {}

  lemma MulSucc(d: int, a: int)
    ensures d * (a + 1) == d * a + d
  {}

  lemma MulMinus(p: int, a: int, b: int)
    ensures p * (a - b) == p * a - p * b
  {}

  lemma MulDouble(a: int, b: int)
    ensures (2 * a) * b == 2 * (a * b) == a * (2 * b)
  {}

  /** Quotient and remainder are unique. */
  lemma DigitsUnique(d: nat, q: int, r: int, q': int, r': int)
    requires d * q + r == d * q' + r' && 0 <= r < d && 0 <= r' < d
    ensures q == q' && r == r'
  {
    if q < q' {
      MulMono(d, q + 1, q');
      MulSucc(d, q);
    } else if q' < q {
      MulMono(d, q' + 1, q);
      MulSucc(d, q');
    }
  }

  // ---------- powers of two ----------

  lemma {:induction false} Pow2Add(a: nat, b: nat)
    ensures Pow2(a + b) == Pow2(a) * Pow2(b)
  {
    if a > 0 {
      Pow2Add(a - 1, b);
      MulDouble(Pow2(a - 1), Pow2(b));
    }
  }

  lemma {:induction false} Pow2Less(a: nat, b: nat)
    requires a < b
    ensures Pow2(a) < Pow2(b)
  {
    if a < b - 1 { Pow2Less(a, b - 1); }
  }

  lemma Pow2Order(a: nat, b: nat)
    ensures a < b <==> Pow2(a) < Pow2(b)
    ensures a == b <==> Pow2(a) == Pow2(b)
  {
    if a < b { Pow2Less(a, b); } else if b < a { Pow2Less(b, a); }
  }

  lemma Pow2Small()
    ensures Pow2(8) == 0x100 && Pow2(12) == 0x1000 && Pow2(16) == 0x1_0000
    ensures Pow2(21) == 0x20_0000 && Pow2(22) == 0x40_0000
  {
    assert Pow2(8) == 0x100;
    Pow2Add(8, 4); Pow2Add(8, 8); Pow2Add(16, 5); Pow2Add(16, 6);
  }

  lemma Pow2Values()
    ensures Pow2(8) == 0x100 && Pow2(12) == 0x1000 && Pow2(16) == 0x1_0000
    ensures Pow2(21) == 0x20_0000 && Pow2(22) == 0x40_0000
    ensures Pow2(30) == 0x4000_0000 && Pow2(32) == 0x1_0000_0000 && Pow2(39) == 0x80_0000_0000
    ensures Pow2(48) == 0x1_0000_0000_0000 && Pow2(64) == WORD
  {
    Pow2Small();
    Pow2Add(22, 8); Pow2Add(16, 16); Pow2Add(32, 7); Pow2Add(32, 16); Pow2Add(32, 32);
  }

  lemma WordIsPow2() returns (n: nat)
    ensures n == 64 && Pow2(n) == WORD
  {
    n := 64;
    Pow2Values();
  }

  // ---------- splitting a number at a digit ----------

  lemma {:induction false} Split(x: nat, n: nat)
    ensures x == Pow2(n) * Shr(x, n) + Low(x, n)
    ensures Low(x, n) < Pow2(n)
    decreases n
  {
    if n > 0 {
      Split(x / 2, n - 1);
      MulDouble(Pow2(n - 1), Shr(x, n));
    }
  }

  lemma SplitUnique(x: nat, n: nat, q: nat, r: nat)
    requires x == Pow2(n) * q + r && r < Pow2(n)
    ensures Shr(x, n) == q && Low(x, n) == r
  {
    Split(x, n);
    DigitsUnique(Pow2(n), q, r, Shr(x, n), Low(x, n));
  }

  lemma DivMod(x: nat, d: nat)
    requires d > 0
    ensures x == d * (x / d) + x % d && x / d >= 0 && x % d < d
  {}

  lemma {:induction false} ShrAdd(x: nat, a: nat, b: nat)
    ensures Shr(x, a + b) == Shr(Shr(x, a), b)
    decreases a
  {
    if a > 0 { ShrAdd(x / 2, a - 1, b); }
  }

  lemma {:induction false} LowAdd(x: nat, a: nat, b: nat)
    ensures Low(x, a + b) == Low(x, a) + Pow2(a) * Low(Shr(x, a), b)
    decreases a
  {
    if a > 0 {
      LowAdd(x / 2, a - 1, b);
      MulDouble(Pow2(a - 1), Low(Shr(x, a), b));
    }
  }

  lemma LowOfSmall(x: nat, n: nat)
    requires x < Pow2(n)
    ensures Low(x, n) == x && Shr(x, n) == 0
  {
    SplitUnique(x, n, 0, x);
  }

  /** Numbers agree above a digit exactly when they agree above a higher one and on
      the digits between. */
  lemma {:induction false} SameAboveStep(a: nat, b: nat, lo: nat, up: nat)
    requires lo <= up
    ensures Shr(a, lo) == Shr(b, lo)
        <==> Shr(a, up) == Shr(b, up) && Low(Shr(a, lo), up - lo) == Low(Shr(b, lo), up - lo)
  {
    ShrAdd(a, lo, up - lo);
    ShrAdd(b, lo, up - lo);
    Split(Shr(a, lo), up - lo);
    Split(Shr(b, lo), up - lo);
  }

  /** Being a multiple of a large power of two makes it a multiple of every smaller one. */
  lemma AlignedDown(x: nat, k: nat, j: nat)
    requires j <= k && Aligned(x, k)
    ensures Aligned(x, j)
  {
    LowAdd(x, j, k - j);
    MulMono(Pow2(j), 0, Low(Shr(x, j), k - j));
  }

  /** Membership in an aligned block is agreement on the digits above it. */
  lemma InAlignedBlock(start: nat, k: nat, x: nat)
    requires Aligned(start, k)
    ensures start <= x < start + Pow2(k) <==> Shr(x, k) == Shr(start, k)
  {
    Split(start, k);
    Split(x, k);
    if start <= x < start + Pow2(k) { SplitUnique(x, k, Shr(start, k), x - start); }
  }

  /** Inside an aligned block, numbers that agree above digit lo stay in the block, and those
      that agree with the block's start form its first 2^lo numbers. */
  lemma BlockSeparates(start: nat, k: nat, lo: nat, x: nat, y: nat)
    requires lo <= k && Aligned(start, k) && start <= x < start + Pow2(k)
    ensures Shr(x, lo) == Shr(y, lo) ==> start <= y < start + Pow2(k)
    ensures x < start + Pow2(lo) ==> (Shr(x, lo) == Shr(y, lo) <==> start <= y < start + Pow2(lo))
  {
    InAlignedBlock(start, k, x);
    InAlignedBlock(start, k, y);
    ShrAdd(x, lo, k - lo);
    ShrAdd(y, lo, k - lo);
    AlignedDown(start, k, lo);
    InAlignedBlock(start, lo, x);
    InAlignedBlock(start, lo, y);
  }

  // ---------- masks ----------

  lemma {:induction false} AndZero(x: nat)
    ensures And(x, 0) == 0
  {
    if x > 0 { AndZero(x / 2); }
  }

  lemma {:induction false} LowZero(n: nat)
    ensures Low(0, n) == 0
  {
    if n > 0 { LowZero(n - 1); }
  }

  /** A mask of ones in digits k..n-1 keeps exactly those digits. */
  lemma {:induction false} AndMask(x: nat, n: nat, k: nat)
    requires k <= n
    ensures Pow2(k) <= Pow2(n)
    ensures And(x, Pow2(n) - Pow2(k)) == Low(x, n) - Low(x, k)
    decreases n
  {
    Pow2Order(k, n);
    if k == n {
      AndZero(x);
    } else if x == 0 {
      LowZero(n);
      LowZero(k);
    } else {
      AndMask(x / 2, n - 1, if k > 0 then k - 1 else 0);
    }
  }

  /** The digits a mask keeps and the digits its complement keeps are together the number. */
  lemma {:induction false} AndNot(x: nat, y: int)
    ensures And(x, y) + And(x, Not(y)) == x
  {
    if x > 0 {
      AndNot(x / 2, y / 2);
      assert Not(y) / 2 == Not(y / 2) && Not(y) % 2 == 1 - y % 2;
    }
  }

  /** Clearing digits k..n-1 keeps the low k digits and everything from digit n up. */
  lemma AndNotMask(x: nat, n: nat, k: nat)
    requires k <= n
    ensures And(x, Not(Pow2(n) - Pow2(k))) == Pow2(n) * Shr(x, n) + Low(x, k)
  {
    AndMask(x, n, k);
    AndNot(x, Pow2(n) - Pow2(k));
    Split(x, n);
  }

  /** Or of a low part and a shifted number is their sum. */
  lemma {:induction false} OrShifted(x: nat, n: nat, y: nat)
    requires x < Pow2(n)
    ensures Or(x, Shl(y, n)) == x + Shl(y, n)
  {
    if x > 0 { OrShifted(x / 2, n - 1, y); }
  }

  /** Or with a mask sets digits w..n-1 and keeps the low ones. */
  lemma {:induction false} OrMask(x: nat, n: nat, w: nat)
    requires w <= n && x < Pow2(n)
    ensures Pow2(w) <= Pow2(n)
    ensures Or(x, Pow2(n) - Pow2(w)) == Low(x, w) + Pow2(n) - Pow2(w)
    decreases n
  {
    Pow2Order(w, n);
    if x == 0 {
      LowZero(w);
    } else if w == n {
      OrZero(x);
      LowOfSmall(x, n);
    } else {
      OrMask(x / 2, n - 1, if w > 0 then w - 1 else 0);
    }
  }

  lemma {:induction false} OrZero(x: nat)
    ensures Or(x, 0) == x
  {
    if x > 0 { OrZero(x / 2); }
  }

  /** bit_length is one more than the position of the leading one. */
  lemma {:induction false} MsbBounds(x: nat)
    requires x > 0
    ensures Msb(x) >= 0 && Pow2(Msb(x)) <= x < Pow2(Msb(x) + 1)
  {
    if x > 1 { MsbBounds(x / 2); }
  }

  lemma MsbIs(x: nat, m: nat)
    requires Pow2(m) <= x < Pow2(m + 1)
    ensures Msb(x) == m
  {
    MsbBounds(x);
    if Msb(x) < m { if Msb(x) + 1 < m { Pow2Less(Msb(x) + 1, m); } }
    if Msb(x) > m { if m + 1 < Msb(x) { Pow2Less(m + 1, Msb(x)); } }
  }

  lemma MsbPow2(k: nat)
    ensures Msb(Pow2(k)) == k
  {
    MsbIs(Pow2(k), k);
  }

  lemma {:induction false} ShlPow2(k: nat, w: nat)
    ensures Shl(1, k) == Pow2(k)
    ensures Shl(Pow2(k) - 1, w) == Pow2(k + w) - Pow2(w)
    decreases k + w
  {
    if k > 0 { ShlPow2(k - 1, w); }
    if w > 0 { ShlPow2(k, w - 1); }
  }

  lemma LowByMask(x: nat, n: nat)
    ensures Pow2(n) >= 1 && And(x, Pow2(n) - 1) == Low(x, n)
  {
    AndMask(x, n, 0);
  }

  lemma MaskByShift(n: nat, m: nat)
    requires m < n
    ensures Pow2(m) < Pow2(n)
    ensures And(Shl(Pow2(n) - 1, m), Pow2(n) - 1) == Pow2(n) - Pow2(m)
  {
    ShlPow2(n, m);
    LowByMask(Shl(Pow2(n) - 1, m), n);
    LowOfMask(n + m, m, n);
    Pow2Less(m, n);
  }

  /** The mask covers exactly the digits from the leading one of the size up to digit 63. */
  lemma AddressMaskMeaning(size: nat)
    requires 0 < size < WORD
    ensures 0 <= Msb(size) < 64
    ensures AddressMaskFromSize(size) == WORD - Pow2(Msb(size))
  {
    MsbBounds(size);
    Pow2Values();
    Pow2Order(Msb(size), 64);
    MaskByShift(64, Msb(size));
  }

  /** common.bits reads the value's digits between the two positions. */
  lemma {:induction false} FieldMeaning(value: nat, hi: nat, lo: nat)
    requires lo <= hi
    ensures Field(value, hi, lo) == Low(Shr(value, lo), hi - lo + 1)
    decreases lo
  {
    if lo == 0 {
      ShlPow2(hi + 1, 0);
      AndMask(value, hi + 1, 0);
    } else {
      var m := Shl(1, hi - lo + 1) - 1;
      FieldMeaning(value / 2, hi - 1, lo - 1);
      AndDouble(value, Shl(m, lo - 1));
    }
  }

  lemma {:induction false} AndDouble(x: nat, y: nat)
    ensures And(x, 2 * y) == 2 * And(x / 2, y)
  {
    assert (2 * y) / 2 == y && (2 * y) % 2 == 0;
  }

  /** common.bitn reads one binary digit. */
  lemma BitNMeaning(value: nat, bit: nat)
    ensures BitN(value, bit) <==> Shr(value, bit) % 2 == 1
  {
    AndMask(Shr(value, bit), 1, 0);
  }

  /** Masks are nested: and-ing two of them keeps the coarser one. */
  lemma AndOfMasks(n: nat, a: nat, b: nat)
    requires a <= n && b <= n
    ensures Pow2(a) <= Pow2(n) && Pow2(b) <= Pow2(n)
    ensures And(Pow2(n) - Pow2(a), Pow2(n) - Pow2(b)) == Pow2(n) - (if Pow2(a) > Pow2(b) then Pow2(a) else Pow2(b))
  {
    Pow2Order(a, n); Pow2Order(b, n);
    var x := Pow2(n) - Pow2(a);
    AndMask(x, n, b);
    LowOfSmall(x, n);
    LowOfMask(n, a, b);
    if a <= b { Pow2Order(a, b); } else { Pow2Less(b, a); }
  }

  lemma {:induction false} LowOfMask(n: nat, a: nat, b: nat)
    requires a <= n && b <= n
    ensures Pow2(a) <= Pow2(n)
    ensures Low(Pow2(n) - Pow2(a), b) == if b <= a then 0 else Pow2(b) - Pow2(a)
  {
    Pow2Order(a, n);
    if a == n {
      LowZero(b);
    } else if b > 0 {
      LowOfMask(n - 1, if a > 0 then a - 1 else 0, b - 1);
    }
  }
}
