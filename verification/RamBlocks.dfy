/** The allocator of guest RAM addresses in exec.c. */
module RamBlocks {
  import opened Words

  datatype Option<T> = None | Some(value: T)

  /** RAMBlock: `length` bytes of guest RAM from `offset`, kept at `host`. */
  datatype Block = Block(offset: u64, length: u64, host: nat)
  {
    function End(): nat { offset + length }

    predicate Contains(a: nat) { offset <= a < offset + length }
  }

  const RAM_ADDR_MAX: u64 := 0xFFFF_FFFF_FFFF_FFFF
  const PAGE: nat := 4096

  /** TARGET_PAGE_ALIGN, which wraps around near the top of the address space. */
  function PageAlign(size: u64): u64 {
    Wrap64((size + 4095) - (size + 4095) % 4096)
  }

  /** Alignment leaves a positive size exactly when the size is positive and does not reach into the
      last page of the address space. */
  lemma AlignedPositive(size: u64)
    ensures 0 < PageAlign(size) <==> 0 < size <= 0xFFFF_FFFF_FFFF_F000
    ensures 0 < PageAlign(size) ==> size <= PageAlign(size) < size + 4096
    ensures PageAlign(size) % 4096 == 0
  {
    var s := (size + 4095) - (size + 4095) % 4096;
    if s < TWO64 { Wrap64Is(s, 0, s); } else { Wrap64Is(s, 1, s - TWO64); }
  }

  ghost predicate Apart(b: Block, c: Block) {
    b.End() <= c.offset || c.End() <= b.offset
  }

  /** Whole pages, inside the address space. */
  predicate Paged(b: Block) {
    b.offset % 4096 == 0 && b.length % 4096 == 0 && b.End() <= RAM_ADDR_MAX
  }

  /** Whole pages inside the address space, disjoint, and longest first. */
  ghost predicate WellKept(blocks: seq<Block>) {
    && (forall i :: 0 <= i < |blocks| ==> Paged(blocks[i]))
    && (forall i, j :: 0 <= i < j < |blocks| ==> Apart(blocks[i], blocks[j]))
    && (forall i, j :: 0 <= i < j < |blocks| ==> blocks[j].length <= blocks[i].length)
  }

  /** `next` is where the first block at or above `end` starts. */
  ghost predicate IsNext(blocks: seq<Block>, end: nat, next: u64) {
    && end <= next
    && (next == RAM_ADDR_MAX || exists i :: 0 <= i < |blocks| && blocks[i].offset == next)
    && forall i :: 0 <= i < |blocks| && end <= blocks[i].offset ==> next <= blocks[i].offset
  }

  /** The gap after block `i` is `gap` bytes long. */
  ghost predicate GapAfter(blocks: seq<Block>, i: nat, gap: nat) {
    i < |blocks| && exists next: u64 :: IsNext(blocks, blocks[i].End(), next) && gap == next - blocks[i].End()
  }

  lemma GapIsOne(blocks: seq<Block>, i: nat, g: nat, h: nat)
    requires GapAfter(blocks, i, g) && GapAfter(blocks, i, h)
    ensures g == h
  {
    var m: u64 :| IsNext(blocks, blocks[i].End(), m) && g == m - blocks[i].End();
    var n: u64 :| IsNext(blocks, blocks[i].End(), n) && h == n - blocks[i].End();
    NextBelow(blocks, blocks[i].End(), m, n);
    NextBelow(blocks, blocks[i].End(), n, m);
  }

  lemma NextBelow(blocks: seq<Block>, end: nat, m: u64, n: u64)
    requires IsNext(blocks, end, m) && IsNext(blocks, end, n)
    ensures n <= m
  {
  }

  /** What find_ram_offset looks for: the end of a block whose gap is enough, and as small as any that is. */
  ghost predicate BestGap(blocks: seq<Block>, size: nat, i: nat, offset: nat) {
    && i < |blocks| && offset == blocks[i].End()
    && exists gap: nat :: GapAfter(blocks, i, gap) && size <= gap && SmallestFor(blocks, size, gap)
  }

  ghost predicate SmallestFor(blocks: seq<Block>, size: nat, gap: nat) {
    forall j: nat, other: nat :: GapAfter(blocks, j, other) && size <= other ==> gap <= other
  }

  /** The inner loop of find_ram_offset. */
  method NextAfter(blocks: seq<Block>, end: u64) returns (next: u64)
    ensures IsNext(blocks, end, next)
  {
    next := RAM_ADDR_MAX;
    for i := 0 to |blocks|
      invariant end <= next
      invariant next == RAM_ADDR_MAX || exists k :: 0 <= k < i && blocks[k].offset == next
      invariant forall k :: 0 <= k < i && end <= blocks[k].offset ==> next <= blocks[k].offset
    {
      if end <= blocks[i].offset && blocks[i].offset < next {
        next := blocks[i].offset;
      }
    }
  }

  /** find_ram_offset; None where the source gives up. */
  method FindRamOffset(blocks: seq<Block>, size: u64) returns (r: Option<u64>)
    requires WellKept(blocks)
    ensures blocks == [] ==> r == Some(0)
    ensures blocks != [] && r.Some? ==> exists i: nat :: BestGap(blocks, size, i, r.value)
    ensures r.None? ==> forall i: nat, gap: nat :: GapAfter(blocks, i, gap) ==> gap < size
  {
    hide IsNext;
    if blocks == [] {
      return Some(0);
    }
    var offset: u64, mingap: u64 := RAM_ADDR_MAX, RAM_ADDR_MAX;
    ghost var best: nat := 0;
    for i := 0 to |blocks|
      invariant offset == RAM_ADDR_MAX <==> mingap == RAM_ADDR_MAX
      invariant offset != RAM_ADDR_MAX ==>
        best < i && offset == blocks[best].End() && GapAfter(blocks, best, mingap) && size <= mingap
      invariant forall k: nat, gap: nat :: k < i && GapAfter(blocks, k, gap) && size <= gap ==> mingap <= gap
    {
      var end := blocks[i].End();
      var next := NextAfter(blocks, end);
      NextAbove(blocks, end, next);
      var gap: nat := next - end;
      assert GapAfter(blocks, i, gap);
      forall other: nat | GapAfter(blocks, i, other) ensures other == gap {
        GapIsOne(blocks, i, gap, other);
      }
      if size <= gap && gap < mingap {
        offset, mingap, best := end, gap, i;
      }
    }
    if offset == RAM_ADDR_MAX {
      forall k: nat, gap: nat | GapAfter(blocks, k, gap) ensures gap < size {
        GapSmall(blocks, k, gap);
      }
      return None;
    }
    assert BestGap(blocks, size, best, offset);
    return Some(offset);
  }

  lemma NextAbove(blocks: seq<Block>, end: nat, next: u64)
    requires IsNext(blocks, end, next)
    ensures end <= next
  {
  }

  /** No gap is as long as the largest address, and none starts there. */
  lemma GapSmall(blocks: seq<Block>, i: nat, gap: nat)
    requires WellKept(blocks) && GapAfter(blocks, i, gap)
    ensures gap < RAM_ADDR_MAX && blocks[i].End() < RAM_ADDR_MAX
  {
    assert Paged(blocks[i]);
  }

  /** An empty block, as an allocation of no bytes makes it, closes the gap it was placed in: nothing
      can be allocated there any more but further empty blocks at the same address. */
  lemma EmptyBlockClosesGap(blocks: seq<Block>, i: nat, j: nat, gap: nat)
    requires i < |blocks| && j < |blocks| && blocks[j].length == 0 && blocks[j].offset == blocks[i].End()
    requires GapAfter(blocks, i, gap)
    ensures gap == 0
  {
  }

  /** A block placed in a gap is apart from all others. */
  lemma PlacedApart(blocks: seq<Block>, size: nat, i: nat, b: Block)
    requires WellKept(blocks) && BestGap(blocks, size, i, b.offset) && b.length == size
    ensures b.End() <= RAM_ADDR_MAX && b.offset % 4096 == 0 && forall k :: 0 <= k < |blocks| ==> Apart(b, blocks[k])
  {
    assert Paged(blocks[i]);
    var next: u64 :| IsNext(blocks, blocks[i].End(), next) && size <= next - blocks[i].End();
    forall k | 0 <= k < |blocks| ensures Apart(b, blocks[k]) {
      if blocks[k].offset < blocks[i].End() && k != i {
        assert Apart(blocks[if i < k then i else k], blocks[if i < k then k else i]);
      }
    }
  }

  /** The list with a block put before the first shorter one. */
  lemma InsertKeeps(blocks: seq<Block>, k: nat, b: Block)
    requires WellKept(blocks) && k <= |blocks| && Paged(b)
    requires forall i :: 0 <= i < |blocks| ==> Apart(b, blocks[i])
    requires forall i :: 0 <= i < k ==> b.length <= blocks[i].length
    requires k < |blocks| ==> blocks[k].length < b.length
    ensures WellKept(blocks[..k] + [b] + blocks[k..])
  {
    var r := blocks[..k] + [b] + blocks[k..];
    forall i, j | 0 <= i < j < |r| ensures Apart(r[i], r[j]) && r[j].length <= r[i].length {
      if i != k { assert r[i] == blocks[if i < k then i else i - 1]; }
      if j != k { assert r[j] == blocks[if j < k then j else j - 1]; }
      if i == k && k < j - 1 { assert blocks[j - 1].length <= blocks[k].length; }
    }
    forall i | 0 <= i < |r| ensures Paged(r[i]) {
      if i != k { assert r[i] == blocks[if i < k then i else i - 1]; }
    }
  }

  lemma ShorterBeyond(blocks: seq<Block>, k: nat, length: nat)
    requires WellKept(blocks) && k <= |blocks| && (k < |blocks| ==> blocks[k].length < length)
    ensures forall i :: k <= i < |blocks| ==> blocks[i].length < length
  {
  }

  lemma RemoveKeeps(blocks: seq<Block>, k: nat)
    requires WellKept(blocks) && k < |blocks|
    ensures WellKept(blocks[..k] + blocks[k + 1..])
  {
    var r := blocks[..k] + blocks[k + 1..];
    assert forall i :: 0 <= i < |r| ==> r[i] == blocks[if i < k then i else i + 1];
  }

  /** What the plain scan finds for an address. */
  function Scan(blocks: seq<Block>, addr: u64): Option<nat> {
    if blocks == [] then None
    else if blocks[0].Contains(addr) then Some(blocks[0].host + (addr - blocks[0].offset))
    else Scan(blocks[1..], addr)
  }

  /** The source compares the unsigned difference with the length. */
  lemma ContainsByDifference(b: Block, addr: u64)
    requires b.End() <= RAM_ADDR_MAX
    ensures Sub64(addr, b.offset) < b.length <==> b.Contains(addr)
  {
  }

  lemma {:induction false} ScanFinds(blocks: seq<Block>, addr: u64, k: nat)
    requires WellKept(blocks) && k < |blocks| && blocks[k].Contains(addr)
    ensures Scan(blocks, addr) == Some(blocks[k].host + (addr - blocks[k].offset))
  {
    if k != 0 {
      assert Apart(blocks[0], blocks[k]);
      ScanFinds(blocks[1..], addr, k - 1);
    }
  }

  /** The block has been put before the first shorter one. */
  ghost predicate Inserted(was: seq<Block>, now: seq<Block>, b: Block) {
    exists k :: InsertedAt(was, now, b, k)
  }

  ghost predicate InsertedAt(was: seq<Block>, now: seq<Block>, b: Block, k: int) {
    && 0 <= k <= |was| && now == was[..k] + [b] + was[k..]
    && (forall i :: 0 <= i < k ==> b.length <= was[i].length)
    && (forall i :: k <= i < |was| ==> was[i].length < b.length)
  }

  /** An insertion adds that block and no other, and the old ones keep their order. */
  lemma InsertedOne(was: seq<Block>, now: seq<Block>, b: Block)
    requires Inserted(was, now, b)
    ensures multiset(now) == multiset(was) + multiset{b}
    ensures exists k :: 0 <= k < |now| && now[k] == b && was == now[..k] + now[k + 1..]
  {
    var k :| InsertedAt(was, now, b, k);
    assert was == was[..k] + was[k..];
    assert now[k] == b && was == now[..k] + now[k + 1..];
  }

  class RamList {
    var blocks: seq<Block>
    var mru: Option<Block>

    ghost predicate Valid()
      reads this
    {
      WellKept(blocks) && (mru.Some? ==> mru.value in blocks)
    }

    constructor ()
      ensures Valid() && blocks == []
    {
      blocks, mru := [], None;
    }

    /** qemu_ram_alloc_from_ptr, as far as addresses go; None where no gap is long enough. */
    method Alloc(size: u64, host: nat) returns (r: Option<u64>)
      requires Valid()
      modifies this
      ensures Valid()
      ensures old(blocks) == [] ==> r == Some(0)
      ensures old(blocks) != [] && r.Some? ==> exists i: nat :: BestGap(old(blocks), PageAlign(size), i, r.value)
      ensures r.Some? ==> Inserted(old(blocks), blocks, Block(r.value, PageAlign(size), host))
      ensures r.None? ==> blocks == old(blocks)
      ensures r.None? ==> forall i: nat, gap: nat :: GapAfter(blocks, i, gap) ==> gap < PageAlign(size)
    {
      hide WellKept, GapAfter, BestGap, Apart, PageAlign, SmallestFor;
      AlignedPositive(size);
      var length := PageAlign(size);
      r := FindRamOffset(blocks, length);
      if r.None? {
        return;
      }
      var block := Block(r.value, length, host);
      if blocks != [] {
        ghost var i: nat :| BestGap(blocks, length, i, r.value);
        PlacedApart(blocks, length, i, block);
      }
      var k := 0;
      while k < |blocks| && length <= blocks[k].length
        invariant k <= |blocks| && forall i :: 0 <= i < k ==> length <= blocks[i].length
      {
        k := k + 1;
      }
      InsertKeeps(blocks, k, block);
      ShorterBeyond(blocks, k, length);
      assert InsertedAt(blocks, blocks[..k] + [block] + blocks[k..], block, k);
      blocks, mru := blocks[..k] + [block] + blocks[k..], None;
    }

    /** qemu_ram_free: the first block at the address goes. */
    method Free(addr: u64)
      requires Valid()
      modifies this
      ensures Valid()
      ensures (forall i :: 0 <= i < |old(blocks)| ==> old(blocks)[i].offset != addr) ==> blocks == old(blocks)
      ensures forall i :: FirstAt(old(blocks), i, addr) ==> blocks == old(blocks)[..i] + old(blocks)[i + 1..]
    {
      for k := 0 to |blocks|
        invariant Valid() && blocks == old(blocks)
        invariant forall i :: 0 <= i < k ==> blocks[i].offset != addr
      {
        if blocks[k].offset == addr {
          RemoveKeeps(blocks, k);
          blocks, mru := blocks[..k] + blocks[k + 1..], None;
          return;
        }
      }
    }

    /** qemu_get_ram_ptr: the block used last is tried first, which makes no difference to the result. */
    method GetRamPtr(addr: u64) returns (host: Option<nat>)
      requires Valid()
      modifies this`mru
      ensures Valid() && host == Scan(blocks, addr)
    {
      if mru.Some? && Sub64(addr, mru.value.offset) < mru.value.length {
        ghost var j :| 0 <= j < |blocks| && blocks[j] == mru.value;
        ContainsByDifference(mru.value, addr);
        ScanFinds(blocks, addr, j);
        return Some(mru.value.host + (addr - mru.value.offset));
      }
      for k := 0 to |blocks|
        invariant Valid() && forall i :: 0 <= i < k ==> !blocks[i].Contains(addr)
      {
        ContainsByDifference(blocks[k], addr);
        if Sub64(addr, blocks[k].offset) < blocks[k].length {
          ScanFinds(blocks, addr, k);
          mru := Some(blocks[k]);
          return Some(blocks[k].host + (addr - blocks[k].offset));
        }
      }
      ScanMisses(blocks, addr);
      return None;
    }
  }

  lemma {:induction false} ScanMisses(blocks: seq<Block>, addr: u64)
    requires forall i :: 0 <= i < |blocks| ==> !blocks[i].Contains(addr)
    ensures Scan(blocks, addr) == None
  {
    if blocks != [] { ScanMisses(blocks[1..], addr); }
  }

  ghost predicate FirstAt(blocks: seq<Block>, i: int, addr: u64) {
    0 <= i < |blocks| && blocks[i].offset == addr && forall j :: 0 <= j < i ==> blocks[j].offset != addr
  }

  /** No other block starts where a block that is not empty does, except an empty one. */
  lemma OffsetIsOne(blocks: seq<Block>, k: nat)
    requires WellKept(blocks) && k < |blocks| && 0 < blocks[k].length
    ensures forall i :: 0 <= i < |blocks| && i != k && 0 < blocks[i].length ==> blocks[i].offset != blocks[k].offset
  {
    forall i | 0 <= i < |blocks| && i != k && 0 < blocks[i].length ensures blocks[i].offset != blocks[k].offset {
      assert Apart(blocks[if i < k then i else k], blocks[if i < k then k else i]);
    }
  }
}
