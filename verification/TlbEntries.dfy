/** The words and entries of the software TLB, and what each entry promises. */
module TlbEntries {
  import opened Words

  const PAGE: nat := 4096
  const SLOTS: nat := 256
  const ALL_DIRTY: bv8 := 0xFF
  const CODE_DIRTY_FLAG: bv8 := 2

  /** An address word of an entry: all ones when it matches nothing, otherwise a page with two of the
      flag bits below the page size. */
  datatype Tag = Empty | Tag(page: nat, notdirty: bool, mmio: bool)

  /** The word itself, with TLB_NOTDIRTY as bit 4 and TLB_MMIO as bit 5. */
  function Word(t: Tag): nat {
    match t
    case Empty => 0xFFFF_FFFF_FFFF_FFFF
    case Tag(page, notdirty, mmio) => page * 4096 + (if notdirty then 16 else 0) + (if mmio then 32 else 0)
  }

  function Bit(w: nat, value: nat): nat
    requires 0 < value
  {
    (w / value) % 2
  }

  /** `w & TARGET_PAGE_MASK`. */
  function PagePart(w: nat): nat { w - w % 4096 }

  lemma PageAbove(page: nat, x: nat)
    requires x < 4096
    ensures PagePart(page * 4096 + x) == page * 4096
  {
    DivModIs(page * 4096 + x, 4096, page, x);
  }

  /** The page does not reach into the flag bits. */
  lemma BitBelow(page: nat, x: nat, v: nat, k: nat)
    requires v == 8 || v == 16 || v == 32
    requires 4096 == 2 * k * v
    ensures Bit(page * 4096 + x, v) == Bit(x, v)
  {
    var y := x / v;
    DivMod(x, v);
    assert page * 4096 == (2 * (page * k)) * v;
    DivModIs(page * 4096 + x, v, 2 * (page * k) + y, x % v);
    DivMod(y, 2);
    DivModIs(2 * (page * k) + y, 2, page * k + y / 2, y % 2);
  }

  /** The parts of a word that matches a page. */
  lemma WordParts(page: nat, notdirty: bool, mmio: bool)
    ensures var w := Word(Tag(page, notdirty, mmio));
      && PagePart(w) == page * 4096 && Bit(w, 8) == 0
      && Bit(w, 16) == (if notdirty then 1 else 0) && Bit(w, 32) == if mmio then 1 else 0
  {
    var x := (if notdirty then 16 else 0) + (if mmio then 32 else 0);
    PageAbove(page, x);
    BitBelow(page, x, 8, 256);
    BitBelow(page, x, 16, 128);
    BitBelow(page, x, 32, 64);
    assert Word(Tag(page, notdirty, mmio)) == page * 4096 + x;
    hide PagePart;
    assert Bit(x, 8) == 0 && Bit(x, 16) == (if notdirty then 1 else 0) && Bit(x, 32) == if mmio then 1 else 0;
  }

  /** The comparison in tlb_flush_entry, which keeps the page and TLB_INVALID. */
  lemma FlushTest(t: Tag, page: nat)
    ensures page * 4096 == PagePart(Word(t)) + 8 * Bit(Word(t), 8) <==> On(t, page)
  {
    if t.Tag? {
      WordParts(t.page, t.notdirty, t.mmio);
    } else {
      assert PagePart(Word(t)) + 8 * Bit(Word(t), 8) == 4096 * 0xF_FFFF_FFFF_FFFF + 8;
    }
  }

  /** tlb_is_dirty_ram. */
  lemma DirtyRamTest(t: Tag)
    ensures Bit(Word(t), 8) == 0 && Bit(Word(t), 16) == 0 && Bit(Word(t), 32) == 0 <==> DirtyRam(t)
    ensures DirtyRam(t) ==> PagePart(Word(t)) == t.page * 4096
  {
    if t.Tag? { WordParts(t.page, t.notdirty, t.mmio); }
  }

  /** The comparison in tlb_set_dirty1. */
  lemma SetDirtyTest(t: Tag, page: nat)
    ensures Word(t) == page * 4096 + 16 <==> t == Tag(page, true, false)
  {
    WordParts(page, true, false);
    if t.Tag? { WordParts(t.page, t.notdirty, t.mmio); }
  }

  datatype TlbEntry = TlbEntry(read: Tag, write: Tag, code: Tag, addend: int)

  const EMPTY_ENTRY: TlbEntry := TlbEntry(Empty, Empty, Empty, -1)

  /** Where slow accesses to a page go: the iotlb word names the RAM page, or the section. */
  datatype IoTarget = NotDirtyRam(page: nat) | RomRam(page: nat) | WatchTrap | IoSection

  /** An installed watchpoint: `len` is a power of two no larger than a page, `vaddr` a multiple of it;
      `others` are its remaining flags, except BP_WATCHPOINT_HIT. */
  datatype Watchpoint = Watchpoint(vaddr: nat, len: nat, onRead: bool, onWrite: bool, gdb: bool, others: nat)

  predicate DirtyRam(t: Tag) {
    t.Tag? && !t.notdirty && !t.mmio
  }

  predicate On(t: Tag, page: nat) {
    t.Tag? && t.page == page
  }

  /** Slot `i` holds only pages that belong there. */
  predicate Placed(e: TlbEntry, i: nat) {
    && (e.read.Tag? ==> e.read.page % SLOTS == i)
    && (e.write.Tag? ==> e.write.page % SLOTS == i)
    && (e.code.Tag? ==> e.code.page % SLOTS == i)
  }

  /** Host address `h` is that of RAM page `r`. */
  predicate IsRamPage(host: seq<u64>, h: int, r: nat) {
    r < |host| && host[r] == h
  }

  /** A store that is not trapped goes to the RAM page that the iotlb names, and straight to memory only
      when the dirty flags of that page are all set. */
  ghost predicate StoresSafely(e: TlbEntry, io: IoTarget, host: seq<u64>, dirty: seq<bv8>)
    requires |dirty| == |host|
  {
    e.write.Tag? && !e.write.mmio ==>
      && io.NotDirtyRam? && IsRamPage(host, e.write.page * 4096 + e.addend, io.page)
      && (!e.write.notdirty ==> dirty[io.page] == ALL_DIRTY)
  }

  /** A watchpoint on `page` that reads, or writes, must not miss. */
  ghost predicate Watched(wps: seq<Watchpoint>, page: nat, forWrite: bool) {
    exists k :: 0 <= k < |wps| && wps[k].vaddr / 4096 == page && (forWrite || wps[k].onRead)
  }

  /** Accesses to a watched page are trapped. */
  ghost predicate Traps(e: TlbEntry, io: IoTarget, wps: seq<Watchpoint>) {
    && (e.read.Tag? && Watched(wps, e.read.page, false) ==> e.read.mmio && io == WatchTrap)
    && (e.write.Tag? && Watched(wps, e.write.page, true) ==> e.write.mmio && io == WatchTrap)
  }

  ghost predicate EntryOk(e: TlbEntry, io: IoTarget, i: nat, host: seq<u64>, dirty: seq<bv8>, wps: seq<Watchpoint>)
    requires |dirty| == |host|
  {
    Placed(e, i) && StoresSafely(e, io, host, dirty) && Traps(e, io, wps)
  }

  /** Two entries for one page, neither of which is trapped, store to the same RAM page. */
  predicate SameMemory(e: TlbEntry, io: IoTarget, f: TlbEntry, io': IoTarget) {
    e.write.Tag? && f.write.Tag? && e.write.page == f.write.page && !e.write.mmio && !f.write.mmio ==> io == io'
  }

  /** What tlb_flush_entry makes of an entry. */
  function FlushedEntry(e: TlbEntry, page: nat): TlbEntry {
    if On(e.read, page) || On(e.write, page) || On(e.code, page) then EMPTY_ENTRY else e
  }

  lemma FlushedOk(e: TlbEntry, io: IoTarget, i: nat, page: nat, host: seq<u64>, dirty: seq<bv8>,
                  wps: seq<Watchpoint>, wps': seq<Watchpoint>)
    requires |dirty| == |host| && EntryOk(e, io, i, host, dirty, wps)
    requires forall p: nat, w: bool :: p != page && Watched(wps', p, w) ==> Watched(wps, p, w)
    ensures EntryOk(FlushedEntry(e, page), io, i, host, dirty, wps')
    ensures var f := FlushedEntry(e, page); !On(f.read, page) && !On(f.write, page) && !On(f.code, page)
  {
  }

  /** What tlb_reset_dirty_range makes of an entry: a direct store to a host page in the range becomes a slow one. */
  function ResetEntry(e: TlbEntry, start: u64, length: nat): TlbEntry {
    if DirtyRam(e.write) && Sub64(Wrap64(e.write.page * 4096 + e.addend), start) < length
    then e.(write := e.write.(notdirty := true)) else e
  }

  /** What tlb_set_dirty1 makes of an entry. */
  function SetDirtyEntry(e: TlbEntry, page: nat): TlbEntry {
    if e.write == Tag(page, true, false) then e.(write := Tag(page, false, false)) else e
  }

  // The same on the words, as the source has it.

  /** tlb_flush_entry. */
  method FlushEntry(e: TlbEntry, page: nat) returns (f: TlbEntry)
    ensures f == FlushedEntry(e, page)
  {
    hide PagePart, Bit, Word;
    FlushTest(e.read, page);
    FlushTest(e.write, page);
    FlushTest(e.code, page);
    var addr := page * 4096;
    if addr == PagePart(Word(e.read)) + 8 * Bit(Word(e.read), 8)
      || addr == PagePart(Word(e.write)) + 8 * Bit(Word(e.write), 8)
      || addr == PagePart(Word(e.code)) + 8 * Bit(Word(e.code), 8)
    {
      return EMPTY_ENTRY;
    }
    return e;
  }

  /** tlb_reset_dirty_range. */
  method ResetDirtyRange(e: TlbEntry, start: u64, length: nat) returns (f: TlbEntry)
    ensures f == ResetEntry(e, start, length)
  {
    hide PagePart, Bit, Word;
    DirtyRamTest(e.write);
    var w := Word(e.write);
    f := e;
    if Bit(w, 8) == 0 && Bit(w, 16) == 0 && Bit(w, 32) == 0 {
      var addr := Wrap64(PagePart(w) + e.addend);
      if Sub64(addr, start) < length {
        f := e.(write := e.write.(notdirty := true));
      }
    }
  }

  /** tlb_set_dirty1. */
  method SetDirtyOne(e: TlbEntry, page: nat) returns (f: TlbEntry)
    ensures f == SetDirtyEntry(e, page)
  {
    SetDirtyTest(e.write, page);
    return if Word(e.write) == page * 4096 + 16 then e.(write := Tag(page, false, false)) else e;
  }
}
