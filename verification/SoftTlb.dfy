/** The software TLB of one CPU, the dirty flags of RAM, and the watchpoints. */
module SoftTlb {
  import opened Words
  import opened TlbEntries
  import opened Bitwise
  import L = LargePages

  /** What a page is backed by: RAM, a readable ROM device, or a section with I/O callbacks. */
  datatype Backing = Ram(page: nat, readonly: bool) | RomDevice(addr: u64) | Device

  datatype Prot = Prot(read: bool, write: bool, exec: bool)

  class Cpu {
    const modes: nat
    const host: seq<u64>
    const tlb: array2<TlbEntry>
    const iotlb: array2<IoTarget>
    const dirty: array<bv8>
    var area: L.Area
    ghost var large: set<L.LargePage>
    var watchpoints: seq<Watchpoint>

    ghost predicate Shape() {
      && tlb.Length0 == iotlb.Length0 == modes && tlb.Length1 == iotlb.Length1 == SLOTS
      && dirty.Length == |host|
    }

    ghost predicate EntriesOk()
      reads this`watchpoints, tlb, iotlb, dirty
      requires Shape()
    {
      forall m, i :: 0 <= m < modes && 0 <= i < SLOTS ==>
        EntryOk(tlb[m, i], iotlb[m, i], i, host, dirty[..], watchpoints)
    }

    /** All modes map a virtual page to the same RAM page. */
    ghost predicate Coherent()
      reads tlb, iotlb
      requires Shape()
    {
      forall m, n, i :: 0 <= m < modes && 0 <= n < modes && 0 <= i < SLOTS ==>
        SameMemory(tlb[m, i], iotlb[m, i], tlb[n, i], iotlb[n, i])
    }

    ghost predicate Valid()
      reads this, tlb, iotlb, dirty
    {
      Shape() && EntriesOk() && L.Remembers(area, large) && (area == L.NO_AREA ==> large == {})
    }

    ghost predicate IsEmpty()
      reads tlb
    {
      forall m, i :: 0 <= m < tlb.Length0 && 0 <= i < tlb.Length1 ==> tlb[m, i] == EMPTY_ENTRY
    }

    /** No entry of any mode matches an access to `page`. */
    ghost predicate Forgotten(page: nat)
      reads tlb
    {
      forall m, i :: 0 <= m < tlb.Length0 && 0 <= i < tlb.Length1 ==>
        !On(tlb[m, i].read, page) && !On(tlb[m, i].write, page) && !On(tlb[m, i].code, page)
    }

    constructor (modes: nat, host: seq<u64>)
      ensures Valid() && Coherent() && IsEmpty() && this.modes == modes && this.host == host && watchpoints == []
      ensures fresh(tlb) && fresh(iotlb) && fresh(dirty)
    {
      this.modes, this.host := modes, host;
      tlb := new TlbEntry[modes, SLOTS]((_, _) => EMPTY_ENTRY);
      iotlb := new IoTarget[modes, SLOTS]((_, _) => IoSection);
      dirty := new bv8[|host|](_ => ALL_DIRTY);
      area, large, watchpoints := L.NO_AREA, {}, [];
    }

    /** tlb_flush. */
    method Flush()
      requires Shape()
      modifies this`area, this`large, tlb
      ensures Shape() && IsEmpty() && area == L.NO_AREA && large == {}
      ensures Valid() && Coherent()
    {
      for i := 0 to SLOTS
        invariant forall m, j :: 0 <= m < modes && 0 <= j < i ==> tlb[m, j] == EMPTY_ENTRY
      {
        for mode := 0 to modes
          invariant forall m, j :: 0 <= m < modes && 0 <= j < i ==> tlb[m, j] == EMPTY_ENTRY
          invariant forall m :: 0 <= m < mode ==> tlb[m, i] == EMPTY_ENTRY
        {
          tlb[mode, i] := EMPTY_ENTRY;
        }
      }
      area, large := L.NO_AREA, {};
    }

    /** All invariants but one: entries may miss watchpoints on `page` that are not in `known`. */
    ghost predicate ValidExcept(page: nat, known: seq<Watchpoint>)
      reads this, tlb, iotlb, dirty
    {
      && Shape() && L.Remembers(area, large) && (area == L.NO_AREA ==> large == {})
      && (forall m, i :: 0 <= m < modes && 0 <= i < SLOTS ==>
        EntryOk(tlb[m, i], iotlb[m, i], i, host, dirty[..], known))
      && NoNewWatch(watchpoints, known, page)
    }

    /** tlb_flush_page. Afterwards no mode has an entry for the page; and if the address lies in a large
        page entered since the last full flush, nothing is left at all. */
    method FlushPage(addr: u64, ghost known: seq<Watchpoint>)
      requires ValidExcept(addr / PAGE, known)
      modifies this`area, this`large, tlb
      ensures Valid() && Forgotten(addr / PAGE) && (old(Coherent()) ==> Coherent())
      ensures (exists p :: p in old(large) && L.Inside(p, addr)) ==> IsEmpty() && area == L.NO_AREA
      ensures !L.Covers(old(area), addr) ==> forall m, i :: 0 <= m < modes && 0 <= i < SLOTS ==>
        var was := old(tlb[m, i]);
        var matches := On(was.read, addr / PAGE) || On(was.write, addr / PAGE) || On(was.code, addr / PAGE);
        tlb[m, i] == if matches then EMPTY_ENTRY else was
    {
      hide L.Covers, L.Inside;
      if L.Covers(area, addr) {
        Flush();
        return;
      }
      NotInside(area, large, addr);
      var page := addr / PAGE;
      var i := page % SLOTS;
      for mode := 0 to modes
        invariant area == old(area) && large == old(large)
        invariant forall m, j :: 0 <= m < modes && 0 <= j < SLOTS ==>
          tlb[m, j] == if m < mode && j == i then FlushedEntry(old(tlb[m, j]), page) else old(tlb[m, j])
      {
        tlb[mode, i] := FlushEntry(tlb[mode, i], page);
      }
      forall m, j | 0 <= m < modes && 0 <= j < SLOTS
        ensures EntryOk(tlb[m, j], iotlb[m, j], j, host, dirty[..], watchpoints)
        ensures !On(tlb[m, j].read, page) && !On(tlb[m, j].write, page) && !On(tlb[m, j].code, page)
      {
        FlushKeeps(old(tlb[m, j]), iotlb[m, j], j, page, host, dirty[..], known, watchpoints);
      }
      if old(Coherent()) {
        forall m, n, j | 0 <= m < modes && 0 <= n < modes && 0 <= j < SLOTS
          ensures SameMemory(tlb[m, j], iotlb[m, j], tlb[n, j], iotlb[n, j])
        {
          assert old(SameMemory(tlb[m, j], iotlb[m, j], tlb[n, j], iotlb[n, j]));
        }
      }
    }

    /** cpu_physical_memory_mask_dirty_range. */
    method MaskDirtyRange(first: nat, count: nat, flags: bv8)
      requires first + count <= dirty.Length
      modifies dirty
      ensures forall r :: 0 <= r < dirty.Length ==>
        dirty[r] == if first <= r < first + count then Cleared(old(dirty[r]), flags) else old(dirty[r])
      ensures forall r :: first <= r < first + count ==> FlagsOff(old(dirty[r]), dirty[r], flags)
    {
      hide Cleared;
      for r := first to first + count
        invariant forall q :: 0 <= q < dirty.Length ==>
          dirty[q] == if first <= q < r then Cleared(old(dirty[q]), flags) else old(dirty[q])
      {
        dirty[r] := Cleared(dirty[r], flags);
      }
      forall r | first <= r < first + count ensures FlagsOff(old(dirty[r]), dirty[r], flags) {
        ClearedIs(old(dirty[r]), flags);
      }
    }

    /** cpu_tlb_reset_dirty_all. */
    method ResetEntries(start: u64, length: nat)
      requires Shape()
      modifies tlb
      ensures forall m, i :: 0 <= m < modes && 0 <= i < SLOTS ==> tlb[m, i] == ResetEntry(old(tlb[m, i]), start, length)
    {
      for mode := 0 to modes
        invariant forall m, i :: 0 <= m < modes && 0 <= i < SLOTS ==>
          tlb[m, i] == if m < mode then ResetEntry(old(tlb[m, i]), start, length) else old(tlb[m, i])
      {
        for i := 0 to SLOTS
          invariant forall m, j :: 0 <= m < modes && 0 <= j < SLOTS ==>
            tlb[m, j] == if m < mode || (m == mode && j < i)
              then ResetEntry(old(tlb[m, j]), start, length) else old(tlb[m, j])
        {
          tlb[mode, i] := ResetDirtyRange(tlb[mode, i], start, length);
        }
      }
    }

    /** cpu_physical_memory_reset_dirty for `count` pages of one RAM block, from page `first`. */
    method ResetDirty(first: nat, count: nat, flags: bv8)
      requires Valid() && first + count <= |host| && OneBlock(host, first, count)
      modifies tlb, dirty
      ensures Valid() && (old(Coherent()) ==> Coherent())
      ensures forall r :: first <= r < first + count ==> FlagsOff(old(dirty[r]), dirty[r], flags)
      ensures forall r :: 0 <= r < dirty.Length && !(first <= r < first + count) ==> dirty[r] == old(dirty[r])
      ensures forall m, i :: 0 <= m < modes && 0 <= i < SLOTS ==>
        SlowedIfIn(old(tlb[m, i]), tlb[m, i], iotlb[m, i], host, first, count)
    {
      hide EntryOk, ResetEntry, SameMemory, FlagsOff, Cleared, SlowedIfIn;
      forall m, i | 0 <= m < modes && 0 <= i < SLOTS
        ensures SlowedIfIn(tlb[m, i],
          if count == 0 then tlb[m, i] else ResetEntry(tlb[m, i], host[first], count * 4096),
                           iotlb[m, i], host, first, count)
      {
        assert EntryOk(tlb[m, i], iotlb[m, i], i, host, dirty[..], watchpoints);
        ResetSlows(tlb[m, i], iotlb[m, i], i, host, dirty[..], watchpoints, first, count);
      }
      if count == 0 {
        return;
      }
      MaskDirtyRange(first, count, flags);
      ResetEntries(host[first], count * 4096);
      forall m, i | 0 <= m < modes && 0 <= i < SLOTS
        ensures EntryOk(tlb[m, i], iotlb[m, i], i, host, dirty[..], watchpoints)
      {
        assert old(EntryOk(tlb[m, i], iotlb[m, i], i, host, dirty[..], watchpoints));
        ResetKeeps(old(tlb[m, i]), iotlb[m, i], i, host, old(dirty[..]), dirty[..], watchpoints, first, count);
      }
      if old(Coherent()) {
        forall m, n, i | 0 <= m < modes && 0 <= n < modes && 0 <= i < SLOTS
          ensures SameMemory(tlb[m, i], iotlb[m, i], tlb[n, i], iotlb[n, i])
        {
          ResetCoherent(old(tlb[m, i]), iotlb[m, i], old(tlb[n, i]), iotlb[n, i], host[first], count * 4096);
        }
      }
    }

    /** tlb_set_dirty. */
    method SetDirty(page: nat)
      requires Shape()
      modifies tlb
      ensures forall m, i :: 0 <= m < modes && 0 <= i < SLOTS ==>
        tlb[m, i] == if i == page % SLOTS then SetDirtyEntry(old(tlb[m, i]), page) else old(tlb[m, i])
      ensures forall m, i :: 0 <= m < modes && 0 <= i < SLOTS ==>
        var slow := old(tlb[m, i]).write == Tag(page, true, false) && i == page % SLOTS;
        tlb[m, i] == if slow then old(tlb[m, i]).(write := Tag(page, false, false)) else old(tlb[m, i])
    {
      var i := page % SLOTS;
      for mode := 0 to modes
        invariant forall m, j :: 0 <= m < modes && 0 <= j < SLOTS ==>
          tlb[m, j] == if m < mode && j == i then SetDirtyEntry(old(tlb[m, j]), page) else old(tlb[m, j])
      {
        tlb[mode, i] := SetDirtyOne(tlb[mode, i], page);
      }
    }

    /** notdirty_mem_write, for a store to `page` in mode `mode` that has to go the slow way: to the RAM page
        that the iotlb names. `unprotects` says whether dropping the translated code of the page, which the
        source does elsewhere, has set CODE_DIRTY_FLAG. All other flags are set by the store. Making the
        entries of all modes direct is safe exactly when their RAM pages are all dirty, as they are when
        the modes agree. */
    method NotDirtyWrite(mode: nat, page: nat, unprotects: bool)
      requires Valid() && mode < modes && tlb[mode, page % SLOTS].write == Tag(page, true, false)
      modifies tlb, dirty
      ensures Shape() && iotlb[mode, page % SLOTS].NotDirtyRam? && iotlb[mode, page % SLOTS].page < |host|
      ensures var r := iotlb[mode, page % SLOTS].page;
        && dirty[r] & 0xFD == 0xFD
        && (dirty[r] & CODE_DIRTY_FLAG != 0 <==> old(dirty[..])[r] & CODE_DIRTY_FLAG != 0 || unprotects)
        && (forall q :: 0 <= q < dirty.Length && q != r ==> dirty[q] == old(dirty[q]))
        && (forall m, i :: 0 <= m < modes && 0 <= i < SLOTS ==>
          var slow := old(tlb[m, i]).write == Tag(page, true, false) && i == page % SLOTS;
          tlb[m, i] == if dirty[r] == ALL_DIRTY && slow
            then old(tlb[m, i]).(write := Tag(page, false, false)) else old(tlb[m, i]))
        && (Valid() <==> (dirty[r] == ALL_DIRTY ==> forall m :: 0 <= m < modes ==>
          MadeDirectSafely(old(tlb[m, page % SLOTS]), iotlb[m, page % SLOTS], page, dirty[..])))
      ensures old(Coherent()) ==> Valid() && Coherent()
    {
      hide EntryOk, SameMemory, SetDirtyEntry;
      var i := page % SLOTS;
      assert EntryOk(tlb[mode, i], iotlb[mode, i], i, host, dirty[..], watchpoints);
      SlowStoreTarget(tlb[mode, i], iotlb[mode, i], i, page, host, dirty[..], watchpoints);
      var r := iotlb[mode, i].page;
      var flags := dirty[r];
      if flags & CODE_DIRTY_FLAG == 0 {
        if unprotects {
          dirty[r] := dirty[r] | CODE_DIRTY_FLAG;
        }
        flags := dirty[r];
      }
      flags := flags | (0xFF & !CODE_DIRTY_FLAG);
      dirty[r] := dirty[r] | flags;
      FlagsStored(old(dirty[..])[r], unprotects);
      StoredBits(old(dirty[..])[r], unprotects);
      if flags == ALL_DIRTY {
        SetDirty(page);
      }
      forall m, j | 0 <= m < modes && 0 <= j < SLOTS
        ensures EntryOk(tlb[m, j], iotlb[m, j], j, host, dirty[..], watchpoints)
          <==> (dirty[r] == ALL_DIRTY && j == i ==> MadeDirectSafely(old(tlb[m, j]), iotlb[m, j], page, dirty[..]))
      {
        assert old(EntryOk(tlb[m, j], iotlb[m, j], j, host, dirty[..], watchpoints));
        StoreKeeps(old(tlb[m, j]), iotlb[m, j], j, page, host, old(dirty[..]), dirty[..], watchpoints, r);
      }
      if old(Coherent()) {
        forall m | 0 <= m < modes && dirty[r] == ALL_DIRTY
          ensures MadeDirectSafely(old(tlb[m, i]), iotlb[m, i], page, dirty[..])
        {
          assert old(SameMemory(tlb[mode, i], iotlb[mode, i], tlb[m, i], iotlb[m, i]));
          SameTarget(old(tlb[mode, i]), iotlb[mode, i], old(tlb[m, i]), iotlb[m, i], page, dirty[..]);
        }
        forall m, n, j | 0 <= m < modes && 0 <= n < modes && 0 <= j < SLOTS
          ensures SameMemory(tlb[m, j], iotlb[m, j], tlb[n, j], iotlb[n, j])
        {
          assert old(SameMemory(tlb[m, j], iotlb[m, j], tlb[n, j], iotlb[n, j]));
          SetDirtyCoherent(old(tlb[m, j]), iotlb[m, j], old(tlb[n, j]), iotlb[n, j], page);
        }
      }
    }

    /** The search of memory_region_section_get_iotlb for a watchpoint on the page. */
    method FindWatch(page: nat, prot: Prot) returns (trapped: bool)
      ensures trapped <==> Trapped(watchpoints, page, prot)
    {
      trapped := false;
      for k := 0 to |watchpoints|
        invariant !trapped && !Trapped(watchpoints[..k], page, prot)
      {
        if page == watchpoints[k].vaddr / PAGE && (prot.write || watchpoints[k].onRead) {
          TrappedAt(watchpoints, page, prot, k);
          return true;
        }
        assert watchpoints[..k + 1] == watchpoints[..k] + [watchpoints[k]];
      }
      assert watchpoints[..|watchpoints|] == watchpoints;
    }

    /** Every other mode that stores to the page of `e` stores to the RAM page that `io` names. */
    ghost predicate Agrees(mode: nat, i: nat, e: TlbEntry, io: IoTarget)
      reads tlb, iotlb
      requires Shape() && i < SLOTS
    {
      forall m :: 0 <= m < modes && m != mode ==>
        SameMemory(tlb[m, i], iotlb[m, i], e, io) && SameMemory(e, io, tlb[m, i], iotlb[m, i])
    }

    /** tlb_set_page for a page of 2^bits bytes; only the part at `page` is entered. */
    method SetPage(page: nat, backing: Backing, prot: Prot, mode: nat, bits: nat)
      requires Valid() && mode < modes && L.PAGE_BITS <= bits <= 64 && page * 4096 < TWO64
      requires backing.Ram? ==> backing.page < |host|
      modifies this`area, this`large, tlb, iotlb
      ensures Valid() && old(Valid())
      ensures large == old(large) + (if bits == L.PAGE_BITS then {} else {L.LargePage(page * 4096, bits)})
      ensures var trapped := exists k ::
          0 <= k < |watchpoints| && watchpoints[k].vaddr / PAGE == page && (prot.write || watchpoints[k].onRead);
        var direct := backing.Ram? && dirty[backing.page] == ALL_DIRTY;
        MapsPage(tlb[mode, page % SLOTS], iotlb[mode, page % SLOTS], page, backing, prot, host, direct, trapped)
      ensures forall m, i :: 0 <= m < modes && 0 <= i < SLOTS && (m != mode || i != page % SLOTS) ==>
        tlb[m, i] == old(tlb[m, i]) && iotlb[m, i] == old(iotlb[m, i])
      ensures forall a: u64 :: old(area) != L.NO_AREA && L.Covers(old(area), a) ==> L.Covers(area, a)
      ensures old(Coherent()) && Agrees(mode, page % SLOTS, tlb[mode, page % SLOTS], iotlb[mode, page % SLOTS]) ==>
        Coherent()
    {
      hide EntriesOk, EntryOk, Coherent, Agrees, L.Covers, L.Inside, L.Remembers, Fill, Target, Trapped, MapsPage;
      if bits != L.PAGE_BITS {
        NoteLargePage(page, bits);
      }
      var trapped := FindWatch(page, prot);
      var flags := if backing.Ram? then dirty[backing.page] else ALL_DIRTY;
      NewEntryOk(page, backing, prot, host, dirty[..], watchpoints);
      FillMaps(page, backing, prot, host, flags, trapped);
      TrappedMeans(watchpoints, page, prot);
      EnterSlot(mode, page % SLOTS, Fill(page, backing, prot, host, flags, trapped), Target(backing, trapped));
    }

    method NoteLargePage(page: nat, bits: nat)
      requires Valid() && L.PAGE_BITS <= bits <= 64 && page * 4096 < TWO64
      modifies this`area, this`large
      ensures Valid() && large == old(large) + {L.LargePage(page * 4096, bits)}
      ensures forall a: u64 :: old(area) != L.NO_AREA && L.Covers(old(area), a) ==> L.Covers(area, a)
    {
      hide EntryOk, L.Covers, L.Inside;
      ghost var before := area;
      area := L.AddLargePage(area, page * 4096, bits);
      L.RemembersMore(before, area, large, L.LargePage(page * 4096, bits));
      large := large + {L.LargePage(page * 4096, bits)};
    }

    /** The stores of a fill to the two tables. */
    method EnterSlot(mode: nat, i: nat, e: TlbEntry, io: IoTarget)
      requires Valid() && mode < modes && i < SLOTS && EntryOk(e, io, i, host, dirty[..], watchpoints)
      modifies tlb, iotlb
      ensures Valid() && tlb[mode, i] == e && iotlb[mode, i] == io
      ensures forall m, j :: 0 <= m < modes && 0 <= j < SLOTS && (m != mode || j != i) ==>
        tlb[m, j] == old(tlb[m, j]) && iotlb[m, j] == old(iotlb[m, j])
      ensures old(Coherent()) && Agrees(mode, i, e, io) ==> Coherent()
    {
      hide EntryOk, SameMemory, L.Remembers;
      tlb[mode, i], iotlb[mode, i] := e, io;
      if old(Coherent()) && Agrees(mode, i, e, io) {
        forall m, n, j | 0 <= m < modes && 0 <= n < modes && 0 <= j < SLOTS
          ensures SameMemory(tlb[m, j], iotlb[m, j], tlb[n, j], iotlb[n, j])
        {
          assert old(SameMemory(tlb[m, j], iotlb[m, j], tlb[n, j], iotlb[n, j]));
          SameMemoryItself(tlb[m, j], iotlb[m, j]);
        }
      }
    }

    /** cpu_watchpoint_insert: refuses lengths that are not powers of two, longer than a page, or not a
        divisor of the address. */
    method WatchpointInsert(addr: u64, len: u64, onRead: bool, onWrite: bool, gdb: bool, others: nat) returns (ok: bool)
      requires Valid()
      modifies this`area, this`large, this`watchpoints, tlb
      ensures Valid() && (old(Coherent()) ==> Coherent())
      ensures ok <==> IsPowerOfTwo(len) && len <= PAGE && addr % len == 0
      ensures !ok ==> watchpoints == old(watchpoints)
      ensures !ok ==> forall m, i :: 0 <= m < modes && 0 <= i < SLOTS ==> tlb[m, i] == old(tlb[m, i])
      ensures ok ==> Forgotten(addr / PAGE)
      ensures ok ==>
        var wp, n := Watchpoint(addr, len, onRead, onWrite, gdb, others), |old(watchpoints)|;
        && |watchpoints| == n + 1 && wp in watchpoints
        && multiset(watchpoints) == multiset(old(watchpoints)) + multiset{wp}
        && (gdb ==> watchpoints[0] == wp && watchpoints[1..] == old(watchpoints))
        && (!gdb ==> watchpoints[n] == wp && watchpoints[..n] == old(watchpoints))
    {
      hide EntryOk;
      var below := Sub64(len, 1);
      if 0 < len {
        PowerTest(len);
        if IsPowerOfTwo(len) { MaskIsRemainder(addr, len); }
      }
      if And(len, below) != 0 || And(addr, below) != 0 || len == 0 || len > PAGE {
        return false;
      }
      var wp := Watchpoint(addr, len, onRead, onWrite, gdb, others);
      ghost var known := watchpoints;
      watchpoints := WithWatch(watchpoints, wp);
      if gdb { assert watchpoints[0] == wp; } else { assert watchpoints[|known|] == wp; }
      OneMoreWatch(watchpoints, known, wp);
      FlushPage(addr, known);
      return true;
    }

    /** cpu_watchpoint_remove: the first that was inserted with these arguments goes. */
    method WatchpointRemove(addr: u64, len: u64, onRead: bool, onWrite: bool, gdb: bool, others: nat) returns (ok: bool)
      requires Valid()
      modifies this`area, this`large, this`watchpoints, tlb
      ensures Valid() && (old(Coherent()) ==> Coherent())
      ensures ok <==> Watchpoint(addr, len, onRead, onWrite, gdb, others) in old(watchpoints)
      ensures !ok ==> watchpoints == old(watchpoints)
      ensures !ok ==> forall m, i :: 0 <= m < modes && 0 <= i < SLOTS ==> tlb[m, i] == old(tlb[m, i])
      ensures ok ==> Forgotten(addr / PAGE)
      ensures ok ==> FirstRemoved(old(watchpoints), watchpoints, Watchpoint(addr, len, onRead, onWrite, gdb, others))
      ensures var wp := Watchpoint(addr, len, onRead, onWrite, gdb, others);
        ok ==> multiset(old(watchpoints)) == multiset(watchpoints) + multiset{wp}
    {
      hide EntryOk;
      var wp := Watchpoint(addr, len, onRead, onWrite, gdb, others);
      for k := 0 to |watchpoints|
        invariant wp !in watchpoints[..k]
      {
        if watchpoints[k] == wp {
          ghost var known := watchpoints;
          watchpoints := watchpoints[..k] + watchpoints[k + 1..];
          assert known == known[..k] + [wp] + known[k + 1..];
          OneLessWatch(watchpoints, known, addr / PAGE);
          FlushPage(addr, known);
          return true;
        }
        assert watchpoints[..k + 1] == watchpoints[..k] + [watchpoints[k]];
      }
      assert watchpoints[..|watchpoints|] == watchpoints;
      return false;
    }

    /** What Valid says of a watchpoint: no mode reads or writes its page without being trapped. */
    lemma NoMissedWatchpoint(m: nat, i: nat, k: nat)
      requires Valid() && m < modes && i < SLOTS && k < |watchpoints|
      ensures var page := watchpoints[k].vaddr / PAGE;
        && (On(tlb[m, i].write, page) ==> tlb[m, i].write.mmio && iotlb[m, i] == WatchTrap)
        && (On(tlb[m, i].read, page) && watchpoints[k].onRead ==> tlb[m, i].read.mmio && iotlb[m, i] == WatchTrap)
    {
      assert EntryOk(tlb[m, i], iotlb[m, i], i, host, dirty[..], watchpoints);
      var page := watchpoints[k].vaddr / PAGE;
      assert Watched(watchpoints, page, true);
      assert watchpoints[k].onRead ==> Watched(watchpoints, page, false);
    }

    /** What Valid says of translated code: a page whose flags are not all set is never written directly. */
    lemma NoUnseenStore(m: nat, i: nat, r: nat)
      requires Valid() && m < modes && i < SLOTS && r < |host|
      requires forall q, p :: 0 <= q < p < |host| ==> host[q] != host[p]
      requires DirtyRam(tlb[m, i].write) && tlb[m, i].write.page * 4096 + tlb[m, i].addend == host[r]
      ensures iotlb[m, i] == NotDirtyRam(r) && dirty[r] == ALL_DIRTY
    {
      assert EntryOk(tlb[m, i], iotlb[m, i], i, host, dirty[..], watchpoints);
      var q := iotlb[m, i].page;
      assert host[q] == host[r];
    }
  }

  /** Installing a watchpoint and then entering its page with write access, in any mode: what can be read or written
      is trapped. */
  method WatchThenFill(cpu: Cpu, addr: u64, len: u64, onRead: bool, onWrite: bool, gdb: bool, others: nat,
                       backing: Backing, prot: Prot, mode: nat, bits: nat) returns (ok: bool)
    requires cpu.Valid() && mode < cpu.modes && L.PAGE_BITS <= bits <= 64 && prot.write
    requires backing.Ram? ==> backing.page < |cpu.host|
    modifies cpu`area, cpu`large, cpu`watchpoints, cpu.tlb, cpu.iotlb
    ensures cpu.Valid()
    ensures ok <==> IsPowerOfTwo(len) && len <= PAGE && addr % len == 0
    ensures ok ==>
      var e := cpu.tlb[mode, addr / PAGE % SLOTS];
      && On(e.write, addr / PAGE) && e.write.mmio && (prot.read ==> On(e.read, addr / PAGE) && e.read.mmio)
      && cpu.iotlb[mode, addr / PAGE % SLOTS] == WatchTrap
  {
    hide Cpu.EntriesOk, Cpu.Coherent;
    ok := cpu.WatchpointInsert(addr, len, onRead, onWrite, gdb, others);
    if ok {
      ghost var wp := Watchpoint(addr, len, onRead, onWrite, gdb, others);
      assert wp in cpu.watchpoints;
      ghost var k :| 0 <= k < |cpu.watchpoints| && cpu.watchpoints[k] == wp;
      cpu.SetPage(addr / PAGE, backing, prot, mode, bits);
      assert cpu.watchpoints[k].vaddr / PAGE == addr / PAGE;
    }
  }

  /** Watchpoints of the debugger come first. */
  function WithWatch(wps: seq<Watchpoint>, wp: Watchpoint): seq<Watchpoint> {
    if wp.gdb then [wp] + wps else wps + [wp]
  }

  ghost predicate FirstRemoved(wps: seq<Watchpoint>, wps': seq<Watchpoint>, wp: Watchpoint) {
    exists k :: 0 <= k < |wps| && wps[k] == wp && wp !in wps[..k] && wps' == wps[..k] + wps[k + 1..]
  }

  lemma OneMoreWatch(wps: seq<Watchpoint>, known: seq<Watchpoint>, wp: Watchpoint)
    requires wps == WithWatch(known, wp)
    ensures NoNewWatch(wps, known, wp.vaddr / PAGE)
  {
    forall p: nat, w: bool | p != wp.vaddr / PAGE && Watched(wps, p, w) ensures Watched(known, p, w) {
      var k :| 0 <= k < |wps| && wps[k].vaddr / 4096 == p && (w || wps[k].onRead);
      var k' := if wp.gdb then k - 1 else k;
      assert wps[k] == known[k'];
    }
  }

  lemma OneLessWatch(wps: seq<Watchpoint>, known: seq<Watchpoint>, page: nat)
    requires forall k :: 0 <= k < |wps| ==> wps[k] in known
    ensures NoNewWatch(wps, known, page)
  {
    forall p: nat, w: bool | Watched(wps, p, w) ensures Watched(known, p, w) {
      var k :| 0 <= k < |wps| && wps[k].vaddr / 4096 == p && (w || wps[k].onRead);
      var j :| 0 <= j < |known| && known[j] == wps[k];
    }
  }

  lemma SameMemoryItself(e: TlbEntry, io: IoTarget)
    ensures SameMemory(e, io, e, io)
  {
  }

  /** Whether a fill finds a watchpoint to trap. */
  ghost predicate Trapped(wps: seq<Watchpoint>, page: nat, prot: Prot) {
    exists k :: 0 <= k < |wps| && wps[k].vaddr / PAGE == page && (prot.write || wps[k].onRead)
  }

  lemma TrappedMeans(wps: seq<Watchpoint>, page: nat, prot: Prot)
    ensures Trapped(wps, page, prot)
      <==> exists k :: 0 <= k < |wps| && wps[k].vaddr / PAGE == page && (prot.write || wps[k].onRead)
  {
  }

  lemma TrappedAt(wps: seq<Watchpoint>, page: nat, prot: Prot, k: nat)
    requires k < |wps| && wps[k].vaddr / PAGE == page && (prot.write || wps[k].onRead)
    ensures Trapped(wps, page, prot)
  {
  }

  function Target(backing: Backing, trapped: bool): IoTarget {
    if trapped then WatchTrap
    else if backing.Ram? then (if backing.readonly then RomRam(backing.page) else NotDirtyRam(backing.page))
    else IoSection
  }

  /** The entry that tlb_set_page writes. `flags` are the dirty flags of the RAM page. */
  function Fill(page: nat, backing: Backing, prot: Prot, host: seq<u64>, flags: bv8, trapped: bool): TlbEntry
    requires backing.Ram? ==> backing.page < |host|
  {
    var io := backing.Device?;
    var addend := (match backing case Ram(p, _) => host[p] case RomDevice(a) => a case Device => 0) - page * 4096;
    TlbEntry(
      if prot.read then Tag(page, false, io || trapped) else Empty,
      if !prot.write then Empty
      else if (backing.Ram? && backing.readonly) || backing.RomDevice? then Tag(page, false, true)
      else if backing.Ram? && flags != ALL_DIRTY then Tag(page, true, io || trapped)
      else Tag(page, false, io || trapped),
      if prot.exec then Tag(page, false, io) else Empty,
      addend)
  }

  /** What an entry is to say of a page: which accesses it matches, which of them have to go the slow way, where in
      the host the others go, and where the slow ones. `direct` says that the RAM page has all dirty flags set. */
  predicate MapsPage(e: TlbEntry, io: IoTarget, page: nat, backing: Backing, prot: Prot, host: seq<u64>,
                     direct: bool, trapped: bool)
    requires backing.Ram? ==> backing.page < |host|
  {
    && (e.read.Tag? <==> prot.read) && (e.write.Tag? <==> prot.write) && (e.code.Tag? <==> prot.exec)
    && (e.read.Tag? ==> e.read.page == page && !e.read.notdirty && (e.read.mmio <==> backing.Device? || trapped))
    && (e.code.Tag? ==> e.code.page == page && !e.code.notdirty && (e.code.mmio <==> backing.Device?))
    && (e.write.Tag? ==>
      && e.write.page == page
      && (e.write.mmio <==> !(backing.Ram? && !backing.readonly) || trapped)
      && (e.write.notdirty <==> backing.Ram? && !backing.readonly && !direct))
    && (backing.Ram? ==> page * 4096 + e.addend == host[backing.page])
    && (backing.RomDevice? ==> page * 4096 + e.addend == backing.addr)
    && (trapped ==> io == WatchTrap)
    && (!trapped && backing.Ram? ==> io == if backing.readonly then RomRam(backing.page) else NotDirtyRam(backing.page))
    && (!trapped && !backing.Ram? ==> io == IoSection)
  }

  lemma FillMaps(page: nat, backing: Backing, prot: Prot, host: seq<u64>, flags: bv8, trapped: bool)
    requires backing.Ram? ==> backing.page < |host|
    ensures MapsPage(Fill(page, backing, prot, host, flags, trapped), Target(backing, trapped), page, backing, prot,
                     host, backing.Ram? && flags == ALL_DIRTY, trapped)
  {
  }

  ghost function NewEntry(page: nat, backing: Backing, prot: Prot, host: seq<u64>, dirty: seq<bv8>,
                          wps: seq<Watchpoint>): TlbEntry
    requires |dirty| == |host| && (backing.Ram? ==> backing.page < |host|)
  {
    Fill(page, backing, prot, host, if backing.Ram? then dirty[backing.page] else ALL_DIRTY, Trapped(wps, page, prot))
  }

  ghost function NewTarget(backing: Backing, page: nat, prot: Prot, wps: seq<Watchpoint>): IoTarget {
    Target(backing, Trapped(wps, page, prot))
  }

  lemma NewEntryOk(page: nat, backing: Backing, prot: Prot, host: seq<u64>, dirty: seq<bv8>, wps: seq<Watchpoint>)
    requires |dirty| == |host| && (backing.Ram? ==> backing.page < |host|)
    ensures EntryOk(NewEntry(page, backing, prot, host, dirty, wps), NewTarget(backing, page, prot, wps),
                    page % SLOTS, host, dirty, wps)
  {
    if w: bool :| Watched(wps, page, w) && (w ==> prot.write) && (!w ==> prot.read) {
      var k :| 0 <= k < |wps| && wps[k].vaddr / 4096 == page && (w || wps[k].onRead);
      TrappedAt(wps, page, prot, k);
    }
  }

  /** The flags of a RAM page after a slow store: all set, except perhaps CODE_DIRTY_FLAG. */
  function AfterStore(dirty: bv8, unprotects: bool): bv8 {
    dirty | 0xFD | (if unprotects then CODE_DIRTY_FLAG else 0)
  }

  /** The statements of notdirty_mem_write, as one update. */
  lemma FlagsStored(d: bv8, unprotects: bool)
    ensures var d1 := if d & CODE_DIRTY_FLAG == 0 && unprotects then d | CODE_DIRTY_FLAG else d;
      var flags := d1 | (0xFF & !CODE_DIRTY_FLAG);
      d1 | flags == AfterStore(d, unprotects) && (flags == ALL_DIRTY <==> AfterStore(d, unprotects) == ALL_DIRTY)
    ensures d == ALL_DIRTY ==> AfterStore(d, unprotects) == ALL_DIRTY
  {
  }

  lemma SetDirtyCoherent(e: TlbEntry, io: IoTarget, f: TlbEntry, io': IoTarget, page: nat)
    requires SameMemory(e, io, f, io')
    ensures SameMemory(SetDirtyEntry(e, page), io, SetDirtyEntry(f, page), io')
    ensures SameMemory(e, io, SetDirtyEntry(f, page), io') && SameMemory(SetDirtyEntry(e, page), io, f, io')
  {
  }

  /** A slow store goes to a RAM page. */
  lemma SlowStoreTarget(e: TlbEntry, io: IoTarget, i: nat, page: nat, host: seq<u64>, dirty: seq<bv8>,
                        wps: seq<Watchpoint>)
    requires |dirty| == |host| && EntryOk(e, io, i, host, dirty, wps) && e.write == Tag(page, true, false)
    ensures io.NotDirtyRam? && io.page < |host| && host[io.page] == page * 4096 + e.addend
  {
  }

  /** A slow entry for `page` can be made direct: its RAM page has all flags set. */
  predicate MadeDirectSafely(e: TlbEntry, io: IoTarget, page: nat, dirty: seq<bv8>) {
    e.write == Tag(page, true, false) ==> io.NotDirtyRam? && io.page < |dirty| && dirty[io.page] == ALL_DIRTY
  }

  lemma SameTarget(e: TlbEntry, io: IoTarget, f: TlbEntry, io': IoTarget, page: nat, dirty: seq<bv8>)
    requires SameMemory(e, io, f, io') && e.write == Tag(page, true, false)
    requires io.NotDirtyRam? && io.page < |dirty| && dirty[io.page] == ALL_DIRTY
    ensures MadeDirectSafely(f, io', page, dirty)
  {
  }

  /** An entry made direct again by a store is safe exactly when its own RAM page has all flags set. */
  lemma StoreKeeps(e: TlbEntry, io: IoTarget, i: nat, page: nat, host: seq<u64>, dirty: seq<bv8>, dirty': seq<bv8>,
                   wps: seq<Watchpoint>, r: nat)
    requires |dirty| == |host| == |dirty'| && EntryOk(e, io, i, host, dirty, wps) && r < |host|
    requires forall q :: 0 <= q < |host| && q != r ==> dirty'[q] == dirty[q]
    requires dirty[r] == ALL_DIRTY ==> dirty'[r] == ALL_DIRTY
    ensures EntryOk(e, io, i, host, dirty', wps)
    ensures i == page % SLOTS ==>
      (EntryOk(SetDirtyEntry(e, page), io, i, host, dirty', wps) <==> MadeDirectSafely(e, io, page, dirty'))
    ensures i != page % SLOTS ==> e.write != Tag(page, true, false)
  {
  }

  lemma StoredBits(d: bv8, unprotects: bool)
    ensures AfterStore(d, unprotects) & 0xFD == 0xFD
    ensures AfterStore(d, unprotects) & CODE_DIRTY_FLAG != 0 <==> d & CODE_DIRTY_FLAG != 0 || unprotects
  {
  }

  /** The given flags are off, and the others as they were. */
  predicate FlagsOff(was: bv8, now: bv8, flags: bv8) {
    now & flags == 0 && now | flags == was | flags
  }

  lemma ClearedIs(dirty: bv8, flags: bv8)
    ensures FlagsOff(dirty, Cleared(dirty, flags), flags)
  {
  }

  /** A direct store becomes slow when its RAM page is in the range, and only when its host address is; nothing
      else in an entry changes. */
  ghost predicate SlowedIfIn(was: TlbEntry, now: TlbEntry, io: IoTarget, host: seq<u64>, first: nat, count: nat)
    requires first + count <= |host|
  {
    && (now == was || (DirtyRam(was.write) && now == was.(write := was.write.(notdirty := true))))
    && (DirtyRam(was.write) && io.NotDirtyRam? && first <= io.page < first + count ==> now.write.notdirty)
    && (now != was ==>
      && io.NotDirtyRam? && io.page < |host| && 0 < count
      && Sub64(host[io.page], host[first]) < count * 4096)
  }

  lemma ResetSlows(e: TlbEntry, io: IoTarget, i: nat, host: seq<u64>, dirty: seq<bv8>, wps: seq<Watchpoint>,
                   first: nat, count: nat)
    requires |dirty| == |host| && EntryOk(e, io, i, host, dirty, wps) && OneBlock(host, first, count)
    ensures count == 0 ==> SlowedIfIn(e, e, io, host, first, count)
    ensures 0 < count ==> SlowedIfIn(e, ResetEntry(e, host[first], count * 4096), io, host, first, count)
  {
    if DirtyRam(e.write) {
      var h := host[io.page];
      assert e.write.page * 4096 + e.addend == h;
      Wrap64Is(h, 0, h);
    }
  }

  /** cpu_physical_memory_clear_dirty_flags. */
  function Cleared(dirty: bv8, flags: bv8): bv8 {
    dirty & !flags
  }

  /** The host pages of the range follow one another, as they do inside one RAM block. */
  ghost predicate OneBlock(host: seq<u64>, first: nat, count: nat) {
    first + count <= |host| && forall r :: first <= r < first + count ==> host[r] == host[first] + (r - first) * 4096
  }

  lemma ResetCoherent(e: TlbEntry, io: IoTarget, f: TlbEntry, io': IoTarget, start: u64, length: nat)
    requires SameMemory(e, io, f, io')
    ensures SameMemory(ResetEntry(e, start, length), io, ResetEntry(f, start, length), io')
  {
  }

  lemma NotInside(area: L.Area, large: set<L.LargePage>, addr: u64)
    requires L.Remembers(area, large) && !L.Covers(area, addr)
    ensures !exists p :: p in large && L.Inside(p, addr)
  {
  }

  ghost predicate NoNewWatch(wps: seq<Watchpoint>, known: seq<Watchpoint>, page: nat) {
    forall p: nat, w: bool :: p != page && Watched(wps, p, w) ==> Watched(known, p, w)
  }

  lemma FlushKeeps(e: TlbEntry, io: IoTarget, i: nat, page: nat, host: seq<u64>, dirty: seq<bv8>,
                   known: seq<Watchpoint>, wps: seq<Watchpoint>)
    requires |dirty| == |host| && EntryOk(e, io, i, host, dirty, known) && NoNewWatch(wps, known, page)
    ensures var f := if i == page % SLOTS then FlushedEntry(e, page) else e;
      EntryOk(f, io, i, host, dirty, wps) && !On(f.read, page) && !On(f.write, page) && !On(f.code, page)
  {
    FlushedOk(e, io, i, page, host, dirty, known, wps);
  }

  /** After a reset, whatever can still be stored to directly is outside the range. */
  lemma ResetKeeps(e: TlbEntry, io: IoTarget, i: nat, host: seq<u64>, dirty: seq<bv8>, dirty': seq<bv8>,
                   wps: seq<Watchpoint>, first: nat, count: nat)
    requires |dirty| == |host| == |dirty'| && EntryOk(e, io, i, host, dirty, wps) && 0 < count
    requires OneBlock(host, first, count)
    requires forall r :: 0 <= r < |host| && !(first <= r < first + count) ==> dirty'[r] == dirty[r]
    ensures EntryOk(ResetEntry(e, host[first], count * 4096), io, i, host, dirty', wps)
  {
    if DirtyRam(ResetEntry(e, host[first], count * 4096).write) {
      assert !(first <= io.page < first + count);
    }
  }
}
