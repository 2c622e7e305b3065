/** Canonical linear addresses (riescue/dtest_framework/generator/generator.py; section 4.4.1 of
    the RISC-V Privileged Architecture 20211203). The results hold for every address width w. */
module Canonical {
  import opened Bits
  import opened Paging

  function Canon(w: nat, addr: nat): nat
    requires 0 < w < 64
  {
    if BitN(addr, w - 1) then Or(addr, Shl(Shl(1, 64 - w) - 1, w)) else addr
  }

  /** canonicalize_lin_addr */
  function Canonicalize(mode: PagingMode, addr: nat): nat {
    if mode == Disable then addr else Canon(LinearAddrBits(mode), addr)
  }

  /** Digits 63..w-1 of a 64-bit address are all equal. */
  predicate IsCanonical(w: nat, addr: nat)
    requires 0 < w < 64
  {
    addr < WORD && (Shr(addr, w - 1) == 0 || Shr(addr, w - 1) == Pow2(65 - w) - 1)
  }

  lemma TopBit(w: nat, addr: nat)
    requires 0 < w
    ensures Low(addr, w) < Pow2(w) == 2 * Pow2(w - 1)
    ensures BitN(addr, w - 1) <==> Low(addr, w) >= Pow2(w - 1)
  {
    Split(addr, w);
    BitNMeaning(addr, w - 1);
    LowAdd(addr, w - 1, 1);
    Split(addr, w - 1);
    assert Low(Shr(addr, w - 1), 1) == Shr(addr, w - 1) % 2;
    if Shr(addr, w - 1) % 2 == 1 { assert Pow2(w - 1) * 1 == Pow2(w - 1); } else { assert Pow2(w - 1) * 0 == 0; }
  }

  lemma ExtendedValue(n: nat, w: nat, addr: nat)
    requires 0 < w < n && addr < Pow2(n)
    ensures Pow2(w) < Pow2(n)
    ensures Or(addr, Shl(Shl(1, n - w) - 1, w)) == Low(addr, w) + Pow2(n) - Pow2(w)
  {
    Pow2Less(w, n);
    ShlPow2(n - w, w);
    OrMask(addr, n, w);
  }

  /** The result in arithmetic terms: the upper half of the address space moves to the top of the word. */
  lemma CanonValue(w: nat, addr: nat)
    requires 0 < w < 64 && addr < WORD
    ensures Low(addr, w) < Pow2(w) < WORD
    ensures BitN(addr, w - 1) <==> Low(addr, w) >= Pow2(w - 1)
    ensures Canon(w, addr) == if BitN(addr, w - 1) then Low(addr, w) + WORD - Pow2(w) else addr
  {
    var n := WordIsPow2();
    TopBit(w, addr);
    ExtendedValue(n, w, addr);
  }

  lemma CanonicalForm(n: nat, w: nat, x: nat)
    requires 0 < w <= n && x < Pow2(n)
    ensures Shr(x, w - 1) == 0 <==> x < Pow2(w - 1)
    ensures Shr(x, w - 1) == Pow2(n + 1 - w) - 1 <==> x >= Pow2(n) - Pow2(w - 1)
  {
    var t, p, m := Shr(x, w - 1), Pow2(w - 1), Pow2(n + 1 - w);
    Split(x, w - 1);
    Pow2Add(w - 1, n + 1 - w);
    MulSucc(p, m - 1);
    MulSucc(p, t);
    if t >= 1 { MulMono(p, 1, t); }
    if t < m - 1 { MulMono(p, t + 1, m - 1); }
    if t >= m { MulMono(p, m, t); }
  }

  lemma CanonicalRange(w: nat, x: nat)
    requires 0 < w < 64
    ensures IsCanonical(w, x) <==> x < Pow2(w - 1) || WORD - Pow2(w - 1) <= x < WORD
  {
    var n := WordIsPow2();
    if x < WORD { CanonicalForm(n, w, x); } else { Pow2Less(w - 1, n); }
  }

  /** Canonicalization keeps the low w digits of any 64-bit address, and the result is canonical
      exactly when the address has no digit above w or its digit w-1 is set. */
  lemma CanonIsCanonical(w: nat, addr: nat)
    requires 0 < w < 64 && addr < WORD
    ensures Canon(w, addr) < WORD && Low(Canon(w, addr), w) == Low(addr, w)
    ensures IsCanonical(w, Canon(w, addr)) <==> addr < Pow2(w) || BitN(addr, w - 1)
  {
    CanonValue(w, addr);
    CanonicalRange(w, Canon(w, addr));
    if BitN(addr, w - 1) {
      HighPart(w, Low(addr, w));
    } else if addr < Pow2(w) {
      LowOfSmall(addr, w);
    } else {
      BelowTop(w, addr);
    }
  }

  lemma HighPart(w: nat, low: nat)
    requires 0 < w < 64 && low < Pow2(w)
    ensures Pow2(w) <= WORD
    ensures Low(low + WORD - Pow2(w), w) == low
  {
    var n := WordIsPow2();
    Pow2Add(w, n - w);
    MulMinus(Pow2(w), Pow2(n - w), 1);
    MulMono(Pow2(w), 1, Pow2(n - w));
    SplitUnique(low + WORD - Pow2(w), w, Pow2(n - w) - 1, low);
  }

  lemma BelowTop(w: nat, addr: nat)
    requires 0 < w < 64 && Pow2(w) <= addr < WORD && Low(addr, w) < Pow2(w - 1)
    ensures Pow2(w - 1) <= addr < WORD - Pow2(w - 1)
  {
    var n := WordIsPow2();
    Split(addr, w);
    Pow2Add(w, n - w);
    var p, m, q := Pow2(w), Pow2(n - w), Shr(addr, w);
    if q >= m { MulMono(p, m, q); } else { MulMono(p, q, m - 1); }
    MulSucc(p, m - 1);
  }

  lemma CanonIdempotent(w: nat, addr: nat)
    requires 0 < w < 64 && addr < WORD
    ensures Canon(w, Canon(w, addr)) == Canon(w, addr)
  {
    CanonValue(w, addr);
    CanonIsCanonical(w, addr);
    CanonValue(w, Canon(w, addr));
  }

  /** The walk of an address is the walk of its canonical form. */
  lemma CanonicalizeKeepsIndices(mode: PagingMode, level: nat, addr: nat)
    requires LevelExists(mode, level) && addr < WORD
    ensures Index(mode, level, Canonicalize(mode, addr)) == Index(mode, level, addr)
  {
    CanonIsCanonical(LinearAddrBits(mode), addr);
    IndexFromLow(mode, level, Canonicalize(mode, addr), addr);
  }

  lemma IndexFromLow(mode: PagingMode, level: nat, x: nat, y: nat)
    requires LevelExists(mode, level) && Low(x, LinearAddrBits(mode)) == Low(y, LinearAddrBits(mode))
    ensures Index(mode, level, x) == Index(mode, level, y)
  {
    IndexMeaning(mode, level, x);
    IndexMeaning(mode, level, y);
    TopWithin(mode, level + 1);
    SameDigits(x, y, Lo(mode, level), Top(mode, level + 1) - Lo(mode, level), LinearAddrBits(mode));
  }

  lemma SameDigits(x: nat, y: nat, lo: nat, n: nat, w: nat)
    requires lo + n <= w && Low(x, w) == Low(y, w)
    ensures Low(Shr(x, lo), n) == Low(Shr(y, lo), n)
  {
    DigitsWithin(x, lo, n, w);
    DigitsWithin(y, lo, n, w);
  }

  lemma TopWithin(mode: PagingMode, level: nat)
    requires mode != Disable && level <= MaxLevels(mode)
    ensures Top(mode, level) <= LinearAddrBits(mode)
  {}

  /** A group of digits below digit w depends only on the low w digits. */
  lemma {:induction false} DigitsWithin(x: nat, lo: nat, n: nat, w: nat)
    requires lo + n <= w
    ensures Low(Shr(x, lo), n) == Low(Shr(Low(x, w), lo), n)
    decreases lo
  {
    if lo > 0 {
      assert Low(x, w) / 2 == Low(x / 2, w - 1);
      DigitsWithin(x / 2, lo - 1, n, w - 1);
    } else {
      LowAdd(x, n, w - n);
      Split(x, n);
      SplitUnique(Low(x, w), n, Low(Shr(x, n), w - n), Low(x, n));
    }
  }

  // ---------- offsets ----------

  /** Adding this offset after canonicalizing is the same as before it. */
  predicate CommutesAt(w: nat, start: nat, o: nat)
    requires 0 < w < 64
  {
    Canon(w, start + o) == Canon(w, start) + o
  }

  ghost predicate CommutesOn(w: nat, start: nat, size: nat)
    requires 0 < w < 64
  {
    forall o: nat :: o < size ==> CommutesAt(w, start, o)
  }

  lemma SmallValue(w: nat, addr: nat)
    requires 0 < w < 64 && addr < Pow2(w)
    ensures Pow2(w) < WORD
    ensures Canon(w, addr) == if addr >= Pow2(w - 1) then addr + WORD - Pow2(w) else addr
  {
    var n := WordIsPow2();
    Pow2Less(w, n);
    CanonValue(w, addr);
    LowOfSmall(addr, w);
  }

  /** For any block of addresses below 2^w, offsets commute exactly when the block
      does not cross from the lower half into the upper half. */
  lemma CommutesIffOneHalf(w: nat, start: nat, size: nat)
    requires 0 < w < 64 && start + size <= Pow2(w)
    ensures CommutesOn(w, start, size) <==> !(start < Pow2(w - 1) < start + size)
  {
    if size > 0 {
      SmallValue(w, start);
      if start < Pow2(w - 1) < start + size {
        SmallValue(w, Pow2(w - 1));
        assert !CommutesAt(w, start, Pow2(w - 1) - start);
      } else {
        forall o: nat | o < size ensures CommutesAt(w, start, o) { SmallValue(w, start + o); }
      }
    }
  }

  /** An aligned power-of-two block no larger than half the address space lies in one half, so
      page offsets can be added after canonicalizing. */
  lemma AlignedBlockCommutes(w: nat, start: nat, k: nat)
    requires 0 < w < 64 && k < w && Aligned(start, k) && start < Pow2(w)
    ensures start + Pow2(k) <= Pow2(w)
    ensures CommutesOn(w, start, Pow2(k))
  {
    AlignedFits(start, k, w);
    if start < Pow2(w - 1) { AlignedFits(start, k, w - 1); }
    CommutesIffOneHalf(w, start, Pow2(k));
  }

  /** An aligned block that starts below a larger power of two ends by it. */
  lemma AlignedFits(start: nat, k: nat, h: nat)
    requires k <= h && Aligned(start, k) && start < Pow2(h)
    ensures start + Pow2(k) <= Pow2(h)
  {
    Split(start, k);
    Pow2Add(k, h - k);
    var q := Shr(start, k);
    if q >= Pow2(h - k) { MulMono(Pow2(k), Pow2(h - k), q); }
    MulMono(Pow2(k), q + 1, Pow2(h - k));
    MulSucc(Pow2(k), q);
  }

  /** The code section asks for 514 pages, aligned only to 512 of them. In Sv39 such a block can cross
      into the upper half, and then its last pages are not where canonicalizing would put them. */
  lemma CodeBlockCanCrossHalves()
    ensures var start, size := 0x3F_FFE0_0000, 514 * 0x1000;
            && And(start, AddressMaskFromSize(size)) == start && start + size <= Pow2(39)
            && !CommutesOn(39, start, size)
  {
    var start, size := 0x3F_FFE0_0000, 514 * 0x1000;
    CodeMask(start, size);
    Pow2Values();
    CommutesIffOneHalf(39, start, size);
  }

  lemma CodeMask(start: nat, size: nat)
    requires start == 0x3F_FFE0_0000 && size == 514 * 0x1000
    ensures And(start, AddressMaskFromSize(size)) == start
  {
    Pow2Small();
    MsbIs(size, 21);
    AddressMaskMeaning(size);
    var n := WordIsPow2();
    AndMask(start, n, 21);
    LowOfSmall(start, n);
    SplitUnique(start, 21, 0x1FFFF, 0);
  }

  // ---------- by paging mode ----------

  /** Half of the linear address space. */
  function Half(mode: PagingMode): nat
    requires mode != Disable
  {
    match mode
    case Sv32 => 0x8000_0000
    case Sv39 => 0x40_0000_0000
    case Sv48 => 0x8000_0000_0000
    case Sv57 => 0x100_0000_0000_0000
  }

  lemma HalfIsPow2(mode: PagingMode)
    requires mode != Disable
    ensures var w := LinearAddrBits(mode);
            0 < w < 64 && Half(mode) == Pow2(w - 1) && 2 * Half(mode) == Pow2(w) < WORD
  {
    Pow2Values();
    Pow2Add(16, 15);
    Pow2Add(30, 8);
    Pow2Add(32, 15);
    Pow2Add(48, 8);
    Pow2Add(1, LinearAddrBits(mode) - 1);
    var n := WordIsPow2();
    Pow2Less(LinearAddrBits(mode), n);
  }

  /** The lower half stays and the upper half moves to the top of the word; without paging nothing moves. */
  lemma CanonicalizeMovesUpperHalf(mode: PagingMode, addr: nat)
    ensures mode == Disable ==> Canonicalize(mode, addr) == addr
    ensures mode != Disable && addr < Half(mode) ==> Canonicalize(mode, addr) == addr
    ensures mode != Disable && Half(mode) <= addr < 2 * Half(mode) ==>
              Canonicalize(mode, addr) == WORD - (2 * Half(mode) - addr)
  {
    if mode != Disable && addr < 2 * Half(mode) {
      HalfIsPow2(mode);
      SmallValue(LinearAddrBits(mode), addr);
    }
  }

  /** The lower or the upper end of the 64-bit space, half a linear address space each. */
  predicate AtAnEnd(mode: PagingMode, addr: nat)
    requires mode != Disable
  {
    addr < Half(mode) || WORD - Half(mode) <= addr < WORD
  }

  /** Any 64-bit address comes out there exactly if it lies in the linear address space or has its topmost bit set. */
  lemma CanonicalizeIsCanonicalIff(mode: PagingMode, addr: nat)
    requires mode != Disable && addr < WORD
    ensures AtAnEnd(mode, Canonicalize(mode, addr)) <==> addr < 2 * Half(mode) || (addr / Half(mode)) % 2 == 1
  {
    var w := LinearAddrBits(mode);
    HalfIsPow2(mode);
    CanonIsCanonical(w, addr);
    CanonicalRange(w, Canonicalize(mode, addr));
    BitNMeaning(addr, w - 1);
    ShrIsDiv(addr, w - 1);
  }

  lemma ShrIsDiv(x: nat, k: nat)
    ensures Pow2(k) > 0 && Shr(x, k) == x / Pow2(k)
  {
    Split(x, k);
    var q, p := Shr(x, k), Pow2(k);
    assert x == p * q + Low(x, k) && 0 <= Low(x, k) < p;
    QuotientIs(x, p, q, Low(x, k));
  }

  lemma QuotientIs(x: nat, p: nat, q: nat, r: nat)
    requires x == p * q + r && r < p
    ensures x / p == q
  {
    var d := x / p;
    assert x == p * d + x % p;
    if d < q { MulMono(p, d + 1, q); MulSucc(p, d); }
    if d > q { MulMono(p, q + 1, d); MulSucc(p, q); }
  }

  predicate OffsetKept(mode: PagingMode, start: nat, o: nat) {
    Canonicalize(mode, start + o) == Canonicalize(mode, start) + o
  }

  /** Page offsets may be added after canonicalizing, for every block of the linear address space, exactly when the
      block does not cross its middle. */
  lemma CanonicalizeCommutesIff(mode: PagingMode, start: nat, size: nat)
    requires mode != Disable ==> start + size <= 2 * Half(mode)
    ensures (forall o: nat :: o < size ==> OffsetKept(mode, start, o))
        <==> mode == Disable || !(start < Half(mode) < start + size)
  {
    if mode != Disable {
      var w := LinearAddrBits(mode);
      HalfIsPow2(mode);
      CommutesIffOneHalf(w, start, size);
      forall o: nat | o < size
        ensures CommutesAt(w, start, o) <==> OffsetKept(mode, start, o)
      {
      }
    }
  }
}
