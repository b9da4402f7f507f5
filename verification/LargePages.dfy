/** The area that stands for all large pages in the TLB: `tlb_flush_addr` and `tlb_flush_mask`. The mask
    is `~(2^bits - 1)`, so that masking an address leaves the start of a block of 2^bits bytes. */
module LargePages {
  import opened Words

  /** The sentinel of tlb_flush_addr: no large page has been entered. */
  const NONE: u64 := 0xFFFF_FFFF_FFFF_FFFF

  const PAGE_BITS: nat := 12

  datatype Area = Area(addr: u64, bits: nat)

  const NO_AREA: Area := Area(NONE, 64)

  /** A large page: 2^bits bytes around `vaddr`. */
  datatype LargePage = LargePage(vaddr: u64, bits: nat)

  function Block(a: u64, bits: nat): (r: nat) {
    DivMod(a, Pow2(bits));
    a / Pow2(bits)
  }

  /** `a & mask`. */
  function Masked(a: u64, bits: nat): (r: u64) {
    DivMod(a, Pow2(bits));
    MulMono(0, a / Pow2(bits), Pow2(bits));
    a - a % Pow2(bits)
  }

  /** The test of tlb_flush_page. */
  predicate Covers(area: Area, a: u64) {
    Masked(a, area.bits) == area.addr
  }

  predicate Inside(p: LargePage, a: u64) {
    Block(a, p.bits) == Block(p.vaddr, p.bits)
  }

  predicate Formed(area: Area) {
    area.bits <= 64 && (area == NO_AREA || (PAGE_BITS <= area.bits && Masked(area.addr, area.bits) == area.addr))
  }

  /** The area covers every large page entered. */
  ghost predicate Remembers(area: Area, large: set<LargePage>) {
    && Formed(area)
    && forall p, a: u64 :: p in large && Inside(p, a) ==> Covers(area, a)
  }

  lemma MaskedBlock(a: u64, b: u64, bits: nat)
    ensures Masked(a, bits) == Masked(b, bits) <==> Block(a, bits) == Block(b, bits)
    ensures Masked(a, bits) == Block(a, bits) * Pow2(bits)
  {
    DivMod(a, Pow2(bits));
    DivMod(b, Pow2(bits));
    MulCompare(Block(a, bits), Block(b, bits), Pow2(bits));
  }

  /** Blocks of 2^j bytes lie within blocks of 2^k bytes. */
  lemma BlockInBlock(a: u64, j: nat, k: nat)
    requires j <= k
    ensures Block(a, k) == Block(a, j) / Pow2(k - j)
  {
    var small, rest := a / Pow2(j), a % Pow2(j);
    var big, mid := small / Pow2(k - j), small % Pow2(k - j);
    DivMod(a, Pow2(j));
    DivMod(small, Pow2(k - j));
    Pow2Add(k - j, j);
    Distribute(big * Pow2(k - j), mid, Pow2(j));
    MulAssoc(big, Pow2(k - j), Pow2(j));
    MulMono(mid + 1, Pow2(k - j), Pow2(j));
    Distribute(mid, 1, Pow2(j));
    MulMono(0, mid, Pow2(j));
    DivModIs(a, Pow2(k), big, mid * Pow2(j) + rest);
  }

  lemma SameInLarger(a: u64, b: u64, j: nat, k: nat)
    requires j <= k && Block(a, j) == Block(b, j)
    ensures Block(a, k) == Block(b, k)
  {
    BlockInBlock(a, j, k);
    BlockInBlock(b, j, k);
  }

  lemma SpaceBits()
    ensures Pow2(64) == TWO64
  {
    assert Pow2(8) == 0x100;
    Pow2Add(8, 8);
    Pow2Add(16, 16);
    Pow2Add(32, 32);
  }

  lemma WholeSpace(a: u64)
    ensures Block(a, 64) == 0
  {
    SpaceBits();
    hide Pow2;
    DivModIs(a, Pow2(64), 0, a);
  }

  lemma MaskedTwice(a: u64, bits: nat)
    ensures Masked(Masked(a, bits), bits) == Masked(a, bits) && Block(Masked(a, bits), bits) == Block(a, bits)
  {
    MaskedBlock(a, a, bits);
    DivModIs(Masked(a, bits), Pow2(bits), Block(a, bits), 0);
  }

  /** tlb_add_large_page: the mask is widened until the remembered area and the new page agree. The area
      only grows, and ends up covering the new page. */
  method AddLargePage(area: Area, vaddr: u64, bits: nat) returns (wider: Area)
    requires Formed(area) && PAGE_BITS <= bits <= 64
    ensures Formed(wider) && wider != NO_AREA
    ensures forall a: u64 :: Inside(LargePage(vaddr, bits), a) ==> Covers(wider, a)
    ensures area != NO_AREA ==> area.bits <= wider.bits && forall a: u64 :: Covers(area, a) ==> Covers(wider, a)
  {
    hide Masked, Block;
    if area.addr == NONE {
      NotNone(area);
      wider := Area(Masked(vaddr, bits), bits);
      MaskedTwice(vaddr, bits);
      NotSentinel(vaddr, bits);
      CoversPage(wider, vaddr, bits);
      return;
    }
    var k := if bits < area.bits then area.bits else bits;
    WholeSpace(area.addr);
    WholeSpace(vaddr);
    while Block(area.addr, k) != Block(vaddr, k)
      invariant bits <= k <= 64 && area.bits <= k
      decreases 64 - k
    {
      k := k + 1;
    }
    wider := Area(Masked(area.addr, k), k);
    MaskedTwice(area.addr, k);
    NotSentinel(area.addr, k);
    CoversPage(wider, vaddr, bits);
    CoversArea(area, wider);
  }

  lemma RemembersMore(area: Area, wider: Area, large: set<LargePage>, p: LargePage)
    requires Remembers(area, large) && (area == NO_AREA ==> large == {}) && Formed(wider)
    requires forall a: u64 :: Inside(p, a) ==> Covers(wider, a)
    requires area != NO_AREA ==> forall a: u64 :: Covers(area, a) ==> Covers(wider, a)
    ensures Remembers(wider, large + {p})
  {
    hide Covers, Inside;
  }

  /** A block start is not the sentinel. */
  lemma NotSentinel(a: u64, bits: nat)
    requires PAGE_BITS <= bits
    ensures Masked(a, bits) != NONE
  {
    MaskedBlock(a, a, bits);
    Pow2Add(bits - PAGE_BITS, PAGE_BITS);
    assert Pow2(PAGE_BITS) == 0x1000;
    MulAssoc(Block(a, bits), Pow2(bits - PAGE_BITS), 0x1000);
    assert Masked(a, bits) == (Block(a, bits) * Pow2(bits - PAGE_BITS)) * 0x1000;
  }

  lemma NotNone(area: Area)
    requires Formed(area) && area.addr == NONE
    ensures area == NO_AREA
  {
    if PAGE_BITS <= area.bits { NotSentinel(NONE, area.bits); }
  }

  lemma CoversPage(area: Area, vaddr: u64, bits: nat)
    requires bits <= area.bits && Masked(area.addr, area.bits) == area.addr
    requires Block(area.addr, area.bits) == Block(vaddr, area.bits)
    ensures forall a: u64 :: Inside(LargePage(vaddr, bits), a) ==> Covers(area, a)
  {
    hide Masked, Block;
    forall a: u64 | Inside(LargePage(vaddr, bits), a) ensures Covers(area, a) {
      SameInLarger(a, vaddr, bits, area.bits);
      MaskedBlock(a, area.addr, area.bits);
    }
  }

  lemma CoversArea(area: Area, wider: Area)
    requires area.bits <= wider.bits && Masked(wider.addr, wider.bits) == wider.addr
    requires Masked(area.addr, area.bits) == area.addr
    requires Block(wider.addr, wider.bits) == Block(area.addr, wider.bits)
    ensures forall a: u64 :: Covers(area, a) ==> Covers(wider, a)
  {
    hide Masked, Block;
    forall a: u64 | Covers(area, a) ensures Covers(wider, a) {
      MaskedBlock(a, area.addr, area.bits);
      SameInLarger(a, area.addr, area.bits, wider.bits);
      MaskedBlock(a, wider.addr, wider.bits);
    }
  }
}
