/** The dispatch listener of exec.c: how a section of the flat map is entered into the tables. */
module MemoryListener {
  import opened Words
  import opened FlatViews
  import opened PhysPages
  import opened PhysUpdates
  import opened PhysMaps
  import opened MemoryDispatch

  /** What accesses to a part of a page find: RAM is reached through a region of its own. */
  function OnSubpage(ram: set<RegionId>, s: Section): Section {
    if s.mr.Memory? && s.mr.region in ram then s.(mr := SubpageRamIo) else s
  }

  /** No sub-page leads to RAM itself: its bytes are reached through the stand-in. */
  ghost predicate StandInsUsed(d: Tables, ram: set<RegionId>) {
    forall k, j :: 0 <= k < |d.subpages| && 0 <= j < |d.subpages[k].subSection| ==>
      LeadsPastRam(d.sections, d.subpages[k].subSection[j], ram)
  }

  predicate LeadsPastRam(sections: seq<Section>, index: nat, ram: set<RegionId>) {
    index < |sections| && (sections[index].mr.Memory? ==> sections[index].mr.region !in ram)
  }

  lemma StandInsKept(d: Tables, ram: set<RegionId>, s: Section)
    requires StandInsUsed(d, ram)
    ensures StandInsUsed(d.(sections := d.sections + [s]), ram)
  {
    var d' := d.(sections := d.sections + [s]);
    forall k, j | 0 <= k < |d'.subpages| && 0 <= j < |d'.subpages[k].subSection|
      ensures LeadsPastRam(d'.sections, d'.subpages[k].subSection[j], ram)
    {
      assert LeadsPastRam(d.sections, d.subpages[k].subSection[j], ram);
    }
  }

  lemma StandInsOnBlank(d: Tables, ram: set<RegionId>, base: nat)
    requires StandInsUsed(d, ram) && 0 < |d.sections| && !d.sections[UNASSIGNED].mr.Memory?
    ensures StandInsUsed(d.(subpages := d.subpages + [MemoryDispatch.Blank(d.page, base)]), ram)
  {
    var d' := d.(subpages := d.subpages + [MemoryDispatch.Blank(d.page, base)]);
    forall k, j | 0 <= k < |d'.subpages| && 0 <= j < |d'.subpages[k].subSection|
      ensures LeadsPastRam(d'.sections, d'.subpages[k].subSection[j], ram)
    {
      if k < |d.subpages| { assert LeadsPastRam(d.sections, d.subpages[k].subSection[j], ram); }
    }
  }

  lemma StandInsFilled(d: Tables, ram: set<RegionId>, k: nat, lo: nat, hi: nat, index: nat)
    requires StandInsUsed(d, ram) && k < |d.subpages| && lo <= hi <= |d.subpages[k].subSection|
    requires LeadsPastRam(d.sections, index, ram)
    ensures StandInsUsed(WithSubpage(d, k, Filled(d.subpages[k].subSection, lo, hi, index)), ram)
  {
    var sub := d.subpages[k].subSection;
    var d' := WithSubpage(d, k, Filled(sub, lo, hi, index));
    forall m, j | 0 <= m < |d'.subpages| && 0 <= j < |d'.subpages[m].subSection|
      ensures LeadsPastRam(d'.sections, d'.subpages[m].subSection[j], ram)
    {
      if m != k {
        assert LeadsPastRam(d.sections, d.subpages[m].subSection[j], ram);
      } else {
        assert Filled(sub, lo, hi, index)[j] == if lo <= j < hi then index else sub[j];
        assert LeadsPastRam(d.sections, sub[j], ram);
      }
    }
  }

  /** Exactly the addresses of `s` now find `found`. */
  ghost predicate Registered(d: Tables, d': Tables, s: Section, found: Section)
    requires Sound(d) && Sound(d')
  {
    && d'.page == d.page && d'.fan == d.fan && d'.levels == d.levels
    && forall a: nat :: a < Limit(d) ==> Resolve(d', a) == if s.Contains(a) then found else Resolve(d, a)
  }

  /** A section inside one page of the table. */
  ghost predicate InPage(d: Tables, s: Section)
    requires 0 < d.page
  {
    && 0 <= s.offsetInSpace && 0 <= s.size && s.mr.Memory?
    && PageNo(d.page, s.offsetInSpace) < Pages(d) && ByteNo(d.page, s.offsetInSpace) + s.size <= d.page
  }

  lemma SplitAddress(page: nat, a: nat)
    requires 0 < page
    ensures a == Product(page, PageNo(page, a)) + ByteNo(page, a)
  {
    DivMod(a, page);
  }

  /** Bytes `[lo, hi)` of page `q`, as addresses. */
  lemma BytesOfPage(d: Tables, q: nat, lo: nat, hi: nat, a: nat)
    requires 0 < d.page && lo <= hi <= d.page
    ensures Product(d.page, q) + lo <= a < Product(d.page, q) + hi
      <==> PageNo(d.page, a) == q && lo <= ByteNo(d.page, a) < hi
  {
    DivMod(a, d.page);
    if Product(d.page, q) + lo <= a < Product(d.page, q) + hi { DivModIs(a, d.page, q, a - Product(d.page, q)); }
  }

  lemma PageBefore(page: nat, a: nat, k: nat)
    requires 0 < page
    ensures PageNo(page, a) < k <==> a < Product(page, k)
  {
    DivMod(a, page);
    var q := PageNo(page, a);
    if q < k { MulMono(q + 1, k, page); Distribute(q, 1, page); } else { MulMono(k, q, page); }
  }

  /** Pages `[lo, lo + nb)`, as addresses. */
  lemma AddressesOfPages(page: nat, lo: nat, nb: nat, a: nat)
    requires 0 < page
    ensures lo <= PageNo(page, a) < lo + nb <==> Product(page, lo) <= a < Product(page, lo) + Product(page, nb)
  {
    PageBefore(page, a, lo);
    PageBefore(page, a, lo + nb);
    Distribute(lo, nb, page);
  }

  lemma SubpageRegistered(d: Tables, d1: Tables, s: Section, k: nat, index: nat)
    requires Sound(d) && Sound(d1) && d1.page == d.page && d1.fan == d.fan && d1.levels == d.levels
    requires InPage(d, s) && index < |d1.sections| && !d1.sections[index].mr.SubpageIo?
    requires forall p: nat, j: nat :: p < Pages(d) && j < d.page ==> ResolveIn(d1, p, j) == ResolveIn(d, p, j)
    requires var q := PageNo(d.page, s.offsetInSpace);
      PageAt(d1, q) < |d1.sections| && d1.sections[PageAt(d1, q)].mr == SubpageIo(k) && k < |d1.subpages|
      && |d1.subpages[k].subSection| == d.page
    ensures var lo := ByteNo(d.page, s.offsetInSpace);
      var d2 := WithSubpage(d1, k, Filled(d1.subpages[k].subSection, lo, lo + s.size, index));
      Sound(d2) && Registered(d, d2, s, d1.sections[index])
  {
    SoundPage(d);
    hide Sound, ResolveIn, PageAt, Filled, WithSubpage, Registered, Resolve, PageNo, ByteNo;
    var q, lo := PageNo(d.page, s.offsetInSpace), ByteNo(d.page, s.offsetInSpace);
    var sub := Filled(d1.subpages[k].subSection, lo, lo + s.size, index);
    SubpageFilled(d1, q, k, lo, lo + s.size, index);
    SameShape(d1, k, sub);
    BytesRegistered(d, WithSubpage(d1, k, sub), s, d1.sections[index]);
  }

  lemma BytesRegistered(d: Tables, d': Tables, s: Section, found: Section)
    requires Sound(d) && Sound(d') && d'.page == d.page && d'.fan == d.fan && d'.levels == d.levels && InPage(d, s)
    requires var q, lo := PageNo(d.page, s.offsetInSpace), ByteNo(d.page, s.offsetInSpace);
      forall p: nat, j: nat :: p < Pages(d) && j < d.page ==>
        ResolveIn(d', p, j) == if p == q && lo <= j < lo + s.size then found else ResolveIn(d, p, j)
    ensures Registered(d, d', s, found)
  {
    SoundPage(d);
    hide Sound, ResolveIn, Resolve, PageNo, ByteNo;
    SplitAddress(d.page, s.offsetInSpace);
    var q, lo := PageNo(d.page, s.offsetInSpace), ByteNo(d.page, s.offsetInSpace);
    forall a: nat | a < Limit(d) ensures Resolve(d', a) == if s.Contains(a) then found else Resolve(d, a) {
      PageBelow(d.page, Pages(d), a);
      var p, j := PageNo(d.page, a), ByteNo(d.page, a);
      BytesOfPage(d, q, lo, lo + s.size, a);
      ResolveAt(d, a, p, j);
      ResolveAt(d', a, p, j);
      assert ResolveIn(d', p, j) == if p == q && lo <= j < lo + s.size then found else ResolveIn(d, p, j);
    }
  }

  lemma ResolveAt(d: Tables, a: nat, p: nat, j: nat)
    requires Sound(d) && a < Limit(d) && p == PageNo(d.page, a) && j == ByteNo(d.page, a)
    ensures p < Pages(d) && j < d.page && Resolve(d, a) == ResolveIn(d, p, j)
  {
    PageBelow(d.page, Pages(d), a);
  }

  lemma SoundPage(d: Tables)
    requires Sound(d)
    ensures 0 < d.page && 0 < d.levels && Formed(d.pages, d.fan) && 4 <= |d.sections|
    ensures d.sections[UNASSIGNED] == Dummy(UnassignedIo)
  {
  }

  lemma SameShape(d: Tables, k: nat, subSection: seq<nat>)
    requires k < |d.subpages|
    ensures var d' := WithSubpage(d, k, subSection);
      d'.page == d.page && d'.fan == d.fan && d'.levels == d.levels && d'.sections == d.sections
  {
  }

  lemma PagesRegistered(d: Tables, d': Tables, s: Section, lo: nat, nb: nat, index: nat)
    requires Sound(d) && Placeable(d, index, lo, nb) && PagesSet(d, d', lo, nb, index)
    requires d.sections[index] == s && s.mr.Memory? && s.offsetInSpace == Product(d.page, lo)
    requires s.size == Product(d.page, nb)
    ensures Sound(d') && Registered(d, d', s, s)
  {
    PagesRedirected(d, d', lo, nb, index);
    SoundPage(d);
    hide Sound, ResolveIn, PageAt;
    forall a: nat | a < Limit(d) ensures Resolve(d', a) == if s.Contains(a) then s else Resolve(d, a) {
      PageBelow(d.page, Pages(d), a);
      AddressesOfPages(d.page, lo, nb, a);
    }
  }

  const SECTIONS: nat := 0x8000

  class Dispatch {
    const page: nat
    const ram: set<RegionId>
    const table: PhysMap
    var sections: seq<Section>
    var subpages: seq<Subpage>

    ghost function Now(): Tables
      reads this, table
    {
      Tables(page, table.fan, table.levels, table.Pages(), table.root, sections, subpages)
    }

    constructor (page: nat, fan: Fan, levels: nat, ram: set<RegionId>)
      requires 0 < page && 0 < levels
      ensures Sound(Now()) && StandInsUsed(Now(), ram) && fresh(table) && this.page == page && table.fan == fan
      ensures table.levels == levels
      ensures this.ram == ram
      ensures forall a: nat :: a < Limit(Now()) ==> Resolve(Now(), a) == Dummy(UnassignedIo)
    {
      this.page, this.ram := page, ram;
      table := new PhysMap(fan, levels);
      sections, subpages := [], [];
      new;
      Begin();
    }

    /** mem_begin, then core_begin: listeners run in order of priority. */
    method Begin()
      requires table.Valid() && 0 < page
      modifies this, table
      ensures Sound(Now()) && StandInsUsed(Now(), ram) && table.nodesNb == 0 && |sections| == 4
      ensures forall a: nat :: a < Limit(Now()) ==> Resolve(Now(), a) == Dummy(UnassignedIo)
    {
      table.Clear();
      subpages := [];
      sections := [Dummy(UnassignedIo), Dummy(NotDirtyIo), Dummy(RomIo), Dummy(WatchIo)];
      FreshTables(Now());
    }

    /** phys_section_add. The index has 16 bits, of which an entry of the page table keeps 15. */
    method SectionAdd(section: Section) returns (index: nat)
      requires |sections| < SECTIONS
      modifies this`sections
      ensures index == old(|sections|) < SECTIONS && sections == old(sections) + [section]
    {
      index := |sections| % 0x1_0000;
      sections := sections + [section];
    }

    /** phys_page_set, as the tables see it. */
    method PageSet(lo: nat, nb: nat, index: nat)
      requires Sound(Now()) && lo < Pages(Now()) && lo + nb <= Pages(Now())
      requires NoMemoryIn(Now(), lo, nb) && index < SECTIONS
      requires NodeRoom(1)
      modifies table
      ensures old(Sound(Now())) && PagesSet(old(Now()), Now(), lo, nb, index)
      ensures table.nodesNb <= old(table.nodesNb) + 2 * table.levels - 1
    {
      hide Lookup, Open, Tree;
      forall i: nat | lo <= i < lo + nb ensures table.OpenAt(i) {
        assert NotMemory(Now(), i) && PageOk(Now(), i);
      }
      ghost var before := Now();
      table.PageSet(lo, nb, index);
      forall p: nat | p < Pages(before)
        ensures PageAt(Now(), p) == if lo <= p < lo + nb then index else PageAt(before, p)
        ensures !(lo <= p < lo + nb) ==> OpenAt(Now(), p) == OpenAt(before, p)
      {
        assert table.PageAt(p) == if lo <= p < lo + nb then index else old(table.PageAt(p));
        assert !(lo <= p < lo + nb) ==> table.OpenAt(p) == old(table.OpenAt(p));
      }
      assert nb == 1 ==> table.OpenAt(lo);
    }

    /** Room in the node array for `calls` more calls of phys_page_set. */
    ghost predicate NodeRoom(calls: nat)
      reads table
    {
      table.nodesNb + Product(calls, 2 * table.levels) <= NIL
    }

    /** Room for what `calls` calls of register_subpage or register_multipage can add: the sub-page, the
        section, and the stand-in for RAM. */
    ghost predicate HasRoom(calls: nat)
      reads this, table
    {
      NodeRoom(calls) && |sections| + 3 * calls <= SECTIONS
    }

    /** The loop of subpage_register. */
    method FillEntries(k: nat, idx: nat, eidx: int, section: nat)
      requires k < |subpages| && idx <= eidx + 1 <= |subpages[k].subSection|
      modifies this`subpages
      ensures Now() == WithSubpage(old(Now()), k, Filled(old(subpages)[k].subSection, idx, eidx + 1, section))
    {
      var sub := subpages[k].subSection;
      var i := idx;
      while i <= eidx
        invariant idx <= i <= eidx + 1 && sub == Filled(subpages[k].subSection, idx, i, section)
      {
        sub := sub[i := section];
        i := i + 1;
      }
      subpages := subpages[k := subpages[k].(subSection := sub)];
    }

    /** subpage_register: refuses bytes outside the page, and replaces RAM by its stand-in. */
    method SubpageRegister(k: nat, start: u32, end: u32, section: nat) returns (ok: bool)
      requires k < |subpages| && |subpages[k].subSection| == page && section < |sections|
      requires start <= end + 1 && |sections| < SECTIONS
      modifies this`sections, this`subpages
      ensures ok <==> start < page && end < page
      ensures !ok ==> Now() == old(Now())
      ensures old(StandInsUsed(Now(), ram)) ==> StandInsUsed(Now(), ram)
      ensures ok ==> Now() == WithSubpage(old(Now()).(sections := StandIn(ram, old(sections), section)), k,
        Filled(old(subpages)[k].subSection, start, end + 1, StandInIndex(ram, old(sections), section)))
    {
      if page <= start || page <= end {
        return false;
      }
      var index := section;
      if sections[section].mr.Memory? && sections[section].mr.region in ram {
        index := SectionAdd(sections[section].(mr := SubpageRamIo));
      }
      if old(StandInsUsed(Now(), ram)) {
        StandInsKept(old(Now()), ram, sections[section].(mr := SubpageRamIo));
        StandInsFilled(Now(), ram, k, start, end + 1, index);
      }
      FillEntries(k, start, end, index);
      return true;
    }

    /** The first part of register_subpage: the sub-page for page `q`, made if there is none. */
    method SubpageFor(q: nat) returns (k: nat)
      requires Sound(Now()) && q < Pages(Now()) && NotMemory(Now(), q) && HasRoom(1)
      modifies this, table
      ensures old(Sound(Now())) && Sound(Now()) && SameLayout(old(Now()), Now()) && SameFound(old(Now()), Now())
      ensures k < |subpages| && OnPage(Now(), q, k)
      ensures old(StandInsUsed(Now(), ram)) ==> StandInsUsed(Now(), ram)
      ensures table.nodesNb <= old(table.nodesNb) + 2 * table.levels - 1 && |sections| <= old(|sections|) + 1
    {
      hide Sound, NotMemory, PageOk, SubpageOk, OnPage, SameFound, Placeable, PagesSet, Lookup;
      ghost var d := Now();
      PageFacts(d, q);
      var existing := table.PageFind(q);
      if sections[existing].mr.SubpageIo? {
        k := sections[existing].mr.subpage;
        FoundItself(d);
      } else {
        k := |subpages|;
        var base := Product(page, q);
        subpages := subpages + [MemoryDispatch.Blank(page, base)];
        var index := SectionAdd(Section(SubpageIo(k), base, 0, page, false));
        ghost var d1 := Now();
        SubpageReady(d, d1, q);
        if StandInsUsed(d, ram) { StandInsPrepared(d, d1, ram, q); }
        PageSet(q, 1, index);
        SubpagePlaced(d, d1, Now(), q);
        SameStandIns(d1, Now(), ram, q, 1, index);
      }
    }

    /** register_subpage: the bytes of `section`, which lie in one page, now find it. Its assertion is
        the NotMemory condition. */
    method RegisterSubpage(section: Section)
      requires Sound(Now()) && InPage(Now(), section) && NotMemory(Now(), PageNo(page, section.offsetInSpace))
      requires HasRoom(1)
      requires page < TWO32
      modifies this, table
      ensures old(Sound(Now())) && Sound(Now()) && Registered(old(Now()), Now(), section, OnSubpage(ram, section))
      ensures table.nodesNb <= old(table.nodesNb) + 2 * table.levels - 1 && |sections| <= old(|sections|) + 3
      ensures old(StandInsUsed(Now(), ram)) ==> StandInsUsed(Now(), ram)
    {
      hide Sound, NotMemory, OnPage, SameFound, Registered, PageNo, ByteNo, StandIn, StandInIndex, Filled, StandInsUsed;
      ghost var d := Now();
      SoundPage(d);
      var q, start := PageNo(page, section.offsetInSpace), ByteNo(page, section.offsetInSpace);
      var k := SubpageFor(q);
      ghost var d1 := Now();
      SubpageSound(d1, q, k);
      var end: u32 := if start + section.size == 0 then 0xFFFF_FFFF else start + section.size - 1;
      var index := SectionAdd(section);
      ghost var d2 := Now();
      if StandInsUsed(d1, ram) { StandInsKept(d1, ram, section); }
      if start + section.size == 0 {
        NothingRegistered(d, d1, d2, section, ram);
      } else {
        SubpageDone(d, d1, section, q, k, ram);
      }
      var ok := SubpageRegister(k, start, end, index);
      OneStandIn(ram, d2.sections, index);
    }

    /** register_multipage: whole pages. */
    method RegisterMultipage(section: Section)
      requires Sound(Now()) && section.mr.Memory? && 0 <= section.offsetInSpace && page <= section.size
      requires ByteNo(page, section.offsetInSpace) == 0 && ByteNo(page, section.size) == 0
      requires PageNo(page, section.offsetInSpace) + PageNo(page, section.size) <= Pages(Now())
      requires NoMemoryIn(Now(), PageNo(page, section.offsetInSpace), PageNo(page, section.size))
      requires HasRoom(1)
      modifies this, table
      ensures old(Sound(Now())) && Sound(Now()) && Registered(old(Now()), Now(), section, section)
      ensures table.nodesNb <= old(table.nodesNb) + 2 * table.levels - 1 && |sections| <= old(|sections|) + 3
      ensures old(StandInsUsed(Now(), ram)) ==> StandInsUsed(Now(), ram)
    {
      hide Sound, NotMemory, Registered, PageNo, ByteNo, PagesSet, Product, StandInsUsed;
      ghost var d := Now();
      var index := SectionAdd(section);
      ghost var d1 := Now();
      var lo, nb := PageNo(page, section.offsetInSpace), PageNo(page, section.size);
      MultipageReady(d, d1, section, lo, nb);
      PageSet(lo, nb, index);
      MultipageDone(d, d1, Now(), section, lo, nb);
      if StandInsUsed(d, ram) { StandInsKept(d, ram, section); }
      SameStandIns(d1, Now(), ram, lo, nb, index);
    }

    /** The two-step lookup: the page table, and on a sub-page its own table. */
    method FindSection(addr: nat) returns (section: Section)
      requires Sound(Now()) && addr < Limit(Now())
      ensures section == Resolve(Now(), addr)
    {
      SoundPage(Now());
      PageBelow(page, Pages(Now()), addr);
      ghost var p := PageNo(page, addr);
      assert PageOk(Now(), p);
      var index := table.PageFind(PageNo(page, addr));
      section := sections[index];
      if section.mr.SubpageIo? {
        assert SubpageOk(Now(), section.mr.subpage);
        section := sections[subpages[section.mr.subpage].subSection[ByteNo(page, addr)]];
      }
    }

    /** mem_add: a head that does not fill its page, whole pages - one at a time as sub-pages when the
        region offset is not page-aligned - and a tail. */
    method MemAdd(section: Section)
      requires Sound(Now()) && section.mr.Memory? && 0 < section.size && 0 <= section.offsetInSpace
      requires 0 <= section.offsetInRegion
      requires section.offsetInSpace + section.size <= Limit(Now())
      requires Free(Now(), section) && HasRoom(Calls(page, section)) && page < TWO32
      modifies this, table
      ensures old(Sound(Now())) && Sound(Now()) && Added(old(Now()), Now(), ram, section)
      ensures table.nodesNb <= old(table.nodesNb) + Product(Calls(page, section), 2 * table.levels)
      ensures |sections| <= old(|sections|) + 3 * Calls(page, section)
      ensures old(StandInsUsed(Now(), ram)) ==> StandInsUsed(Now(), ram)
    {
      hide Sound, Free, AddedTo, Added, Registered, PageNo, ByteNo, Product, Remaining, Calls, Chunks, NotMemory;
      hide NoMemoryIn, HeadSize, StandInsUsed;
      SoundPage(Now());
      ghost var d, budget, calls := Now(), table.nodesNb + Product(Calls(page, section), 2 * table.levels),
        Calls(page, section);
      var remain := section;
      NothingAdded(d, ram, section);
      CallsEnough(page, section);
      if ByteNo(page, remain.offsetInSpace) != 0 || remain.size < page {
        var now := remain.(size := HeadSize(page, remain));
        HeadReady(d, ram, section, now);
        Spend(calls, 2 * table.levels);
        RegisterSubpage(now);
        HeadAdded(d, Now(), ram, section, now);
        remain, calls := Rest(remain, now), calls - 1;
      } else {
        NoHead(d, ram, section);
      }
      while page <= remain.size
        invariant Sound(Now()) && Remaining(d, Now(), ram, section, remain) && 0 <= remain.size
        invariant table.nodesNb + Product(calls, 2 * table.levels) <= budget <= NIL
        invariant old(StandInsUsed(Now(), ram)) ==> StandInsUsed(Now(), ram)
        invariant |sections| + 3 * calls <= old(|sections|) + 3 * Calls(page, section) <= SECTIONS
        invariant 1 + Chunks(page, section, remain.size) <= calls
        decreases remain.size
      {
        ghost var d1 := Now();
        SoundPage(d1);
        var now := remain;
        Spend(calls, 2 * table.levels);
        NextChunk(d, d1, ram, section, remain);
        if ByteNo(page, remain.offsetInRegion) != 0 {
          now := now.(size := page);
          PieceReady(d, d1, ram, section, remain, now);
          RegisterSubpage(now);
          NextAdded(d, d1, Now(), ram, section, remain, now, OnSubpage(ram, now));
        } else {
          now := now.(size := remain.size - ByteNo(page, remain.size));
          PagesReady(d, d1, ram, section, remain, now);
          RegisterMultipage(now);
          NextAdded(d, d1, Now(), ram, section, remain, now, now);
        }
        remain, calls := Rest(remain, now), calls - 1;
      }
      if remain.size != 0 {
        ghost var d1 := Now();
        PieceReady(d, d1, ram, section, remain, remain);
        Spend(calls, 2 * table.levels);
        RegisterSubpage(remain);
        NextAdded(d, d1, Now(), ram, section, remain, remain, OnSubpage(ram, remain));
        remain, calls := Rest(remain, remain), calls - 1;
      }
      AllAdded(d, Now(), ram, section, remain);
    }
  }

  /** The section an address of `s` finds: the same region, or the stand-in for RAM, at the same offset. */
  ghost predicate Finds(ram: set<RegionId>, r: Section, s: Section, a: int)
    requires s.mr.Memory?
  {
    && (r.mr == s.mr || (r.mr == SubpageRamIo && s.mr.region in ram))
    && r.offsetInRegion + (a - r.offsetInSpace) == s.offsetInRegion + (a - s.offsetInSpace)
    && r.readonly == s.readonly
  }

  /** No address of `s` is taken. */
  ghost predicate Free(d: Tables, s: Section)
    requires Sound(d)
  {
    forall a: nat :: a < Limit(d) && s.Contains(a) ==> Resolve(d, a) == Dummy(UnassignedIo)
  }

  /** The addresses of `s` below `pos` have been entered; the others are as before. */
  ghost predicate AddedTo(d: Tables, d': Tables, ram: set<RegionId>, s: Section, pos: int)
    requires Sound(d) && Sound(d') && s.mr.Memory?
  {
    && d'.page == d.page && d'.fan == d.fan && d'.levels == d.levels
    && forall a: nat :: a < Limit(d) ==>
      if s.Contains(a) && a < pos then Finds(ram, Resolve(d', a), s, a) else Resolve(d', a) == Resolve(d, a)
  }

  ghost predicate Added(d: Tables, d': Tables, ram: set<RegionId>, s: Section)
    requires Sound(d) && Sound(d') && s.mr.Memory?
  {
    AddedTo(d, d', ram, s, s.offsetInSpace + s.size)
  }

  /** Calls of phys_page_set that one section can cause. */
  function Calls(page: nat, s: Section): nat
    requires 0 < page && 0 <= s.size
  {
    2 + Chunks(page, s, s.size)
  }

  /** Turns of the loop over whole pages when `left` bytes remain. */
  function Chunks(page: nat, s: Section, left: nat): nat
    requires 0 < page
  {
    if (s.offsetInRegion - s.offsetInSpace) % page == 0 then (if page <= left then 1 else 0) else PageNo(page, left)
  }

  /** MIN(TARGET_PAGE_ALIGN(start) - start, size). */
  function HeadSize(page: nat, s: Section): (r: int)
    requires 0 < page && 0 <= s.offsetInSpace
  {
    var toBoundary := if ByteNo(page, s.offsetInSpace) == 0 then 0 else page - ByteNo(page, s.offsetInSpace);
    if toBoundary < s.size then toBoundary else s.size
  }

  /** What remains of `s` after its first part `now`. */
  function Rest(s: Section, now: Section): Section {
    s.(size := s.size - now.size, offsetInSpace := s.offsetInSpace + now.size,
      offsetInRegion := s.offsetInRegion + now.size)
  }

  /** A part of `s` that starts at `now.offsetInSpace`. */
  ghost predicate PartOf(s: Section, now: Section) {
    && 0 <= now.size && s.offsetInSpace <= now.offsetInSpace
    && now.offsetInSpace + now.size <= s.offsetInSpace + s.size
    && now == s.(size := now.size, offsetInSpace := now.offsetInSpace,
                 offsetInRegion := s.offsetInRegion + (now.offsetInSpace - s.offsetInSpace))
  }

  /** Between the parts: what is left of `s`, starting on a page boundary. */
  ghost predicate Remaining(d: Tables, d1: Tables, ram: set<RegionId>, s: Section, remain: Section)
    requires Sound(d) && Sound(d1) && s.mr.Memory?
  {
    && PartOf(s, remain) && remain.offsetInSpace + remain.size == s.offsetInSpace + s.size
    && 0 <= remain.offsetInSpace && remain.offsetInSpace + remain.size <= Limit(d)
    && Free(d, s) && AddedTo(d, d1, ram, s, remain.offsetInSpace)
    && 0 <= s.offsetInRegion && (0 < remain.size ==> ByteNo(d.page, remain.offsetInSpace) == 0)
  }

  lemma Spend(calls: nat, levels: nat)
    requires 0 < calls
    ensures Product(calls, levels) == Product(calls - 1, levels) + levels && Product(1, levels) == levels
    ensures levels <= Product(calls, levels)
  {
    Distribute(calls - 1, 1, levels);
  }

  lemma CallsEnough(page: nat, s: Section)
    requires 0 < page && 0 < s.size
    ensures 2 + Chunks(page, s, s.size) <= Calls(page, s)
  {
  }

  lemma ChunksLess(page: nat, s: Section, left: nat, more: nat)
    requires 0 < page && left <= more
    ensures Chunks(page, s, left) <= Chunks(page, s, more)
  {
    PageBefore(page, left, PageNo(page, more) + 1);
    PageBefore(page, more, PageNo(page, more) + 1);
  }

  lemma ChunkTaken(page: nat, s: Section, left: nat)
    requires 0 < page && page <= left
    ensures (s.offsetInRegion - s.offsetInSpace) % page == 0 ==>
      1 + Chunks(page, s, ByteNo(page, left)) <= Chunks(page, s, left)
    ensures (s.offsetInRegion - s.offsetInSpace) % page != 0 ==>
      1 + Chunks(page, s, left - page) <= Chunks(page, s, left)
  {
    SplitAddress(page, left);
    PageBefore(page, left, 1);
    DivModIs(left - page, page, PageNo(page, left) - 1, ByteNo(page, left));
  }

  lemma AlignedOffset(page: nat, x: nat, y: nat)
    requires 0 < page && ByteNo(page, y) == 0
    ensures (x - y) % page == 0 <==> ByteNo(page, x) == 0
  {
    SplitAddress(page, x);
    SplitAddress(page, y);
    DivModIs(x - y, page, PageNo(page, x) - PageNo(page, y), ByteNo(page, x));
  }

  lemma NextChunk(d: Tables, d1: Tables, ram: set<RegionId>, s: Section, remain: Section)
    requires Sound(d) && Sound(d1) && s.mr.Memory? && Remaining(d, d1, ram, s, remain) && d.page <= remain.size
    ensures 0 <= remain.offsetInRegion && d1.page == d.page && ByteNo(d.page, d.page) == 0
    ensures ByteNo(d.page, remain.offsetInRegion) == 0 ==>
      1 + Chunks(d.page, s, ByteNo(d.page, remain.size)) <= Chunks(d.page, s, remain.size)
    ensures ByteNo(d.page, remain.offsetInRegion) != 0 ==>
      1 + Chunks(d.page, s, remain.size - d.page) <= Chunks(d.page, s, remain.size)
  {
    SoundPage(d);
    DivModIs(d.page, d.page, 1, 0);
    assert ByteNo(d.page, d.page) == 0;
    hide Sound, Chunks, ByteNo;
    ChunkTaken(d.page, s, remain.size);
    AlignedOffset(d.page, remain.offsetInRegion, remain.offsetInSpace);
    assert remain.offsetInRegion - remain.offsetInSpace == s.offsetInRegion - s.offsetInSpace;
  }

  /** The first part fits its page, and may be registered. */
  lemma HeadReady(d: Tables, ram: set<RegionId>, s: Section, now: Section)
    requires Sound(d) && s.mr.Memory? && 0 < s.size && 0 <= s.offsetInSpace && s.offsetInSpace + s.size <= Limit(d)
    requires Free(d, s)
    requires now == s.(size := HeadSize(d.page, s)) && (ByteNo(d.page, s.offsetInSpace) != 0 || s.size < d.page)
    ensures PartOf(s, now) && InPage(d, now) && NotMemory(d, PageNo(d.page, now.offsetInSpace))
  {
    SoundPage(d);
    hide Sound, ByteNo, PageNo;
    FreeAt(d, s, s.offsetInSpace);
  }

  lemma FreeAt(d: Tables, s: Section, a: nat)
    requires Sound(d) && Free(d, s) && s.Contains(a) && a < Limit(d)
    ensures PageNo(d.page, a) < Pages(d) && NotMemory(d, PageNo(d.page, a))
  {
    FreePage(d, a, PageNo(d.page, a));
  }

  lemma HeadAdded(d: Tables, d1: Tables, ram: set<RegionId>, s: Section, now: Section)
    requires Sound(d) && Sound(d1) && s.mr.Memory? && 0 < s.size && 0 <= s.offsetInSpace && 0 <= s.offsetInRegion
    requires s.offsetInSpace + s.size <= Limit(d) && Free(d, s)
    requires now == s.(size := HeadSize(d.page, s)) && PartOf(s, now) && Registered(d, d1, now, OnSubpage(ram, now))
    ensures Remaining(d, d1, ram, s, Rest(s, now))
    ensures Chunks(d.page, s, Rest(s, now).size) <= Chunks(d.page, s, s.size)
  {
    SoundPage(d);
    NothingAdded(d, ram, s);
    hide Sound, Registered, AddedTo, ByteNo, Free, Chunks, Limit;
    PieceAdded(d, d, d1, ram, s, now, OnSubpage(ram, now));
    ChunksLess(d.page, s, s.size - now.size, s.size);
    if 0 < s.size - now.size { NextBoundary(d.page, s.offsetInSpace); }
  }

  lemma NextBoundary(page: nat, a: nat)
    requires 0 < page
    ensures ByteNo(page, a) == 0 ==> ByteNo(page, a + 0) == 0
    ensures ByteNo(page, a) != 0 ==> ByteNo(page, a + (page - ByteNo(page, a))) == 0
  {
    SplitAddress(page, a);
    DivModIs(a + (page - ByteNo(page, a)), page, PageNo(page, a) + 1, 0);
  }

  lemma NoHead(d: Tables, ram: set<RegionId>, s: Section)
    requires Sound(d) && s.mr.Memory? && 0 < s.size && 0 <= s.offsetInSpace && 0 <= s.offsetInRegion
    requires s.offsetInSpace + s.size <= Limit(d) && Free(d, s) && ByteNo(d.page, s.offsetInSpace) == 0
    ensures Remaining(d, d, ram, s, s)
  {
    NothingAdded(d, ram, s);
    hide Sound, AddedTo, Free;
  }

  /** A part of one page at the start of what remains may be registered. */
  lemma PieceReady(d: Tables, d1: Tables, ram: set<RegionId>, s: Section, remain: Section, now: Section)
    requires Sound(d) && Sound(d1) && s.mr.Memory? && Remaining(d, d1, ram, s, remain) && 0 < remain.size
    requires now == remain.(size := now.size) && 0 <= now.size <= remain.size && now.size <= d.page
    ensures PartOf(s, now) && InPage(d1, now) && NotMemory(d1, PageNo(d.page, now.offsetInSpace))
  {
    SoundPage(d);
    hide Sound, ByteNo, PageNo, Free;
    assert d1.page == d.page && Pages(d1) == Pages(d);
    NextFree(d, d1, ram, s, remain.offsetInSpace, remain.offsetInSpace);
  }

  lemma PagesReady(d: Tables, d1: Tables, ram: set<RegionId>, s: Section, remain: Section, now: Section)
    requires Sound(d) && Sound(d1) && s.mr.Memory? && Remaining(d, d1, ram, s, remain) && d.page <= remain.size
    requires now == remain.(size := remain.size - ByteNo(d.page, remain.size))
    ensures PartOf(s, now) && d1.page <= now.size && ByteNo(d1.page, now.size) == 0
    ensures ByteNo(d1.page, now.offsetInSpace) == 0
    ensures PageNo(d1.page, now.offsetInSpace) + PageNo(d1.page, now.size) <= Pages(d1)
    ensures NoMemoryIn(d1, PageNo(d1.page, now.offsetInSpace), PageNo(d1.page, now.size))
  {
    SoundPage(d);
    assert d1.page == d.page && Pages(d1) == Pages(d);
    hide Sound, AddedTo, Free, NotMemory;
    WholePages(d.page, remain.size);
    var lo, nb := PageNo(d.page, now.offsetInSpace), PageNo(d.page, now.size);
    SplitAddress(d.page, now.offsetInSpace);
    SplitAddress(d.page, now.size);
    Distribute(lo, nb, d.page);
    if Pages(d) < lo + nb { MulStrict(Pages(d), lo + nb, d.page); }
    forall p: nat | lo <= p < lo + nb ensures NotMemory(d1, p) {
      PageStart(d.page, lo, nb, p);
      NextFree(d, d1, ram, s, remain.offsetInSpace, Product(d.page, p));
    }
  }

  lemma PageStart(page: nat, lo: nat, nb: nat, p: nat)
    requires 0 < page && lo <= p < lo + nb
    ensures PageNo(page, Product(page, p)) == p
    ensures Product(page, lo) <= Product(page, p) < Product(page, lo) + Product(page, nb)
  {
    DivModIs(Product(page, p), page, p, 0);
    AddressesOfPages(page, lo, nb, Product(page, p));
  }

  lemma WholePages(page: nat, size: nat)
    requires 0 < page && page <= size
    ensures page <= size - ByteNo(page, size) && ByteNo(page, size - ByteNo(page, size)) == 0
  {
    SplitAddress(page, size);
    PageBefore(page, size, 1);
    MulMono(1, PageNo(page, size), page);
    DivModIs(size - ByteNo(page, size), page, PageNo(page, size), 0);
  }

  lemma NextAdded(d: Tables, d1: Tables, d2: Tables, ram: set<RegionId>, s: Section, remain: Section, now: Section,
                  found: Section)
    requires Sound(d) && Sound(d1) && Sound(d2) && s.mr.Memory? && Remaining(d, d1, ram, s, remain) && 0 < remain.size
    requires now == remain.(size := now.size) && 0 <= now.size <= remain.size
    requires (now.size < remain.size ==> ByteNo(d.page, now.size) == 0)
    requires Registered(d1, d2, now, found) && (found == now || found == OnSubpage(ram, now))
    ensures Remaining(d, d2, ram, s, Rest(remain, now))
  {
    SoundPage(d);
    hide Sound, Registered, AddedTo, Free, ByteNo, Limit;
    PieceAdded(d, d1, d2, ram, s, now, found);
    if now.size < remain.size { AlignedSum(d.page, now.offsetInSpace, now.size); }
  }

  lemma AlignedSum(page: nat, a: nat, b: nat)
    requires 0 < page && ByteNo(page, a) == 0 && ByteNo(page, b) == 0
    ensures ByteNo(page, a + b) == 0
  {
    SplitAddress(page, a);
    SplitAddress(page, b);
    Distribute(PageNo(page, a), PageNo(page, b), page);
    DivModIs(a + b, page, PageNo(page, a) + PageNo(page, b), 0);
  }

  lemma AllAdded(d: Tables, d1: Tables, ram: set<RegionId>, s: Section, remain: Section)
    requires Sound(d) && Sound(d1) && s.mr.Memory? && Remaining(d, d1, ram, s, remain) && remain.size == 0
    ensures Added(d, d1, ram, s)
  {
    hide Sound, AddedTo;
  }

  lemma NothingAdded(d: Tables, ram: set<RegionId>, s: Section)
    requires Sound(d) && s.mr.Memory?
    ensures AddedTo(d, d, ram, s, s.offsetInSpace)
  {
  }

  lemma PieceAdded(d: Tables, d1: Tables, d2: Tables, ram: set<RegionId>, s: Section, now: Section, found: Section)
    requires Sound(d) && Sound(d1) && Sound(d2) && s.mr.Memory? && PartOf(s, now)
    requires AddedTo(d, d1, ram, s, now.offsetInSpace) && Registered(d1, d2, now, found)
    requires found == now || found == OnSubpage(ram, now)
    ensures AddedTo(d, d2, ram, s, now.offsetInSpace + now.size)
  {
    hide Sound, Resolve;
  }

  /** A page with a byte that is still free does not show a region of the map. */
  lemma FreePage(d: Tables, a: nat, p: nat)
    requires Sound(d) && a < Limit(d) && Resolve(d, a) == Dummy(UnassignedIo) && p == PageNo(d.page, a)
    ensures p < Pages(d) && NotMemory(d, p)
  {
    ResolveAt(d, a, p, ByteNo(d.page, a));
    assert PageOk(d, p);
  }

  /** A byte of `s` at or above `pos`: its page can be registered. */
  lemma NextFree(d: Tables, d1: Tables, ram: set<RegionId>, s: Section, pos: int, a: nat)
    requires Sound(d) && Sound(d1) && s.mr.Memory? && Free(d, s) && AddedTo(d, d1, ram, s, pos)
    requires s.Contains(a) && pos <= a < Limit(d)
    ensures PageNo(d.page, a) < Pages(d1) && NotMemory(d1, PageNo(d.page, a))
  {
    FreePage(d1, a, PageNo(d.page, a));
  }

  ghost predicate NoMemoryIn(d: Tables, lo: nat, nb: nat)
    requires Sound(d)
  {
    forall p: nat :: lo <= p < lo + nb ==> NotMemory(d, p)
  }

  ghost predicate SameLayout(d: Tables, d': Tables) {
    d'.page == d.page && d'.fan == d.fan && d'.levels == d.levels && |d.sections| <= |d'.sections|
  }

  /** Every byte finds the same section. */
  ghost predicate SameFound(d: Tables, d': Tables)
    requires Sound(d) && Sound(d') && d'.page == d.page && Pages(d') == Pages(d)
  {
    forall p: nat, j: nat :: p < Pages(d) && j < d.page ==> ResolveIn(d', p, j) == ResolveIn(d, p, j)
  }

  /** Page `q` shows sub-page `k`. */
  ghost predicate OnPage(d: Tables, q: nat, k: nat)
    requires Sound(d)
  {
    && PageAt(d, q) < |d.sections| && d.sections[PageAt(d, q)].mr == SubpageIo(k)
    && k < |d.subpages| && |d.subpages[k].subSection| == d.page
  }

  lemma FoundItself(d: Tables)
    requires Sound(d)
    ensures SameFound(d, d)
  {
  }

  lemma SubpageSound(d: Tables, q: nat, k: nat)
    requires Sound(d) && OnPage(d, q, k)
    ensures k < |d.subpages| && |d.subpages[k].subSection| == d.page && 4 <= |d.sections|
  {
  }

  /** A section of no bytes at the start of a page is refused, and registers nothing. */
  lemma NothingRegistered(d: Tables, d1: Tables, d2: Tables, s: Section, ram: set<RegionId>)
    requires Sound(d) && Sound(d1) && SameLayout(d, d1) && SameFound(d, d1)
    requires d2 == d1.(sections := d1.sections + [s]) && s.size == 0
    ensures Sound(d2) && Registered(d, d2, s, OnSubpage(ram, s))
  {
    hide ResolveIn;
    SectionAdded(d1, s);
    SoundPage(d);
    hide Sound;
    forall a: nat | a < Limit(d) ensures Resolve(d2, a) == Resolve(d, a) {
      ResolveAt(d, a, PageNo(d.page, a), ByteNo(d.page, a));
      ResolveAt(d1, a, PageNo(d.page, a), ByteNo(d.page, a));
    }
  }

  /** The sections after adding `s` and, if it is RAM, its stand-in: nothing found changes yet. */
  lemma StandInAdded(d: Tables, s: Section, ram: set<RegionId>)
    requires Sound(d) && s.mr.Memory?
    ensures var n := |d.sections|;
      var d' := d.(sections := StandIn(ram, d.sections + [s], n));
      var index := StandInIndex(ram, d.sections + [s], n);
      && Sound(d') && index < |d'.sections| && d'.sections[index] == OnSubpage(ram, s)
      && d.sections <= d'.sections
      && forall a: nat :: a < Limit(d) ==> Resolve(d', a) == Resolve(d, a)
  {
    var d0 := d.(sections := d.sections + [s]);
    SectionAdded(d, s);
    hide Sound, Resolve;
    if OnSubpage(ram, s) != s { SectionAdded(d0, OnSubpage(ram, s)); }
  }

  lemma SubpageDone(d: Tables, d1: Tables, s: Section, q: nat, k: nat, ram: set<RegionId>)
    requires Sound(d) && Sound(d1) && SameLayout(d, d1) && SameFound(d, d1) && InPage(d, s)
    requires q == PageNo(d.page, s.offsetInSpace)
    requires OnPage(d1, q, k)
    ensures var lo, n := ByteNo(d.page, s.offsetInSpace), |d1.sections|;
      var d2 := WithSubpage(d1.(sections := StandIn(ram, d1.sections + [s], n)), k,
                            Filled(d1.subpages[k].subSection, lo, lo + s.size,
                              StandInIndex(ram, d1.sections + [s], n)));
      Sound(d2) && Registered(d, d2, s, OnSubpage(ram, s))
  {
    SoundPage(d);
    StandInAdded(d1, s, ram);
    hide Sound, Registered, StandIn, StandInIndex, Filled, ResolveIn, Resolve, PageNo, ByteNo;
    var n := |d1.sections|;
    var d0 := d1.(sections := StandIn(ram, d1.sections + [s], n));
    SameBytes(d1, d0);
    SameFoundTwice(d, d1, d0);
    SubpageRegistered(d, d0, s, k, StandInIndex(ram, d1.sections + [s], n));
  }

  lemma SameBytes(d: Tables, d': Tables)
    requires Sound(d) && Sound(d') && d'.page == d.page && d'.fan == d.fan && d'.levels == d.levels
    requires forall a: nat :: a < Limit(d) ==> Resolve(d', a) == Resolve(d, a)
    ensures SameFound(d, d')
  {
    SoundPage(d);
    hide Sound, ResolveIn, Resolve, PageNo, ByteNo;
    forall p: nat, j: nat | p < Pages(d) && j < d.page ensures ResolveIn(d', p, j) == ResolveIn(d, p, j) {
      AddressInPage(d, p, j);
      ResolveAt(d, Product(d.page, p) + j, p, j);
      ResolveAt(d', Product(d.page, p) + j, p, j);
    }
  }

  lemma SameFoundTwice(d: Tables, d1: Tables, d2: Tables)
    requires Sound(d) && Sound(d1) && Sound(d2) && d1.page == d.page == d2.page && Pages(d1) == Pages(d) == Pages(d2)
    requires SameFound(d, d1) && SameFound(d1, d2)
    ensures SameFound(d, d2)
  {
    hide Sound, ResolveIn;
  }

  lemma MultipageReady(d: Tables, d1: Tables, s: Section, lo: nat, nb: nat)
    requires Sound(d) && s.mr.Memory? && d1 == d.(sections := d.sections + [s]) && d.page <= s.size
    requires ByteNo(d.page, s.size) == 0
    requires nb == PageNo(d.page, s.size)
    requires lo + nb <= Pages(d) && NoMemoryIn(d, lo, nb)
    ensures 0 < nb && Sound(d1)
    ensures NoMemoryIn(d1, lo, nb)
  {
    SectionAdded(d, s);
    SplitAddress(d.page, s.size);
    hide Sound;
    forall p: nat | lo <= p < lo + nb ensures NotMemory(d1, p) {
      assert NotMemory(d, p);
    }
  }

  lemma MultipageDone(d: Tables, d1: Tables, d2: Tables, s: Section, lo: nat, nb: nat)
    requires Sound(d) && Sound(d1) && s.mr.Memory? && d1 == d.(sections := d.sections + [s]) && 0 <= s.offsetInSpace
    requires 0 <= s.size
    requires lo == PageNo(d.page, s.offsetInSpace) && nb == PageNo(d.page, s.size)
    requires ByteNo(d.page, s.offsetInSpace) == 0 && ByteNo(d.page, s.size) == 0
    requires PagesSet(d1, d2, lo, nb, |d.sections|)
    ensures Sound(d2) && Registered(d, d2, s, s)
  {
    SectionAdded(d, s);
    SplitAddress(d.page, s.offsetInSpace);
    SplitAddress(d.page, s.size);
    PagesRegistered(d1, d2, s, lo, nb, |d.sections|);
  }

  lemma PageFacts(d: Tables, q: nat)
    requires Sound(d) && q < Pages(d) && NotMemory(d, q)
    ensures 0 < d.page && 0 < d.levels && Formed(d.pages, d.fan)
    ensures Tree(d.pages.nodes, d.pages.used, d.fan, d.root, d.levels) && !d.root.leaf
    ensures PageAt(d, q) < |d.sections|
    ensures var m := d.sections[PageAt(d, q)].mr; m.SubpageIo? ==> m.subpage < |d.subpages| && OnPage(d, q, m.subpage)
    ensures d.sections[PageAt(d, q)].mr.SubpageIo? || d.sections[PageAt(d, q)].mr.UnassignedIo?
  {
    assert PageOk(d, q);
    var m := d.sections[PageAt(d, q)].mr;
    if m.SubpageIo? { assert SubpageOk(d, m.subpage); }
  }

  /** The tables with a new sub-page for page `q` and a section for it, not yet on the page. */
  ghost predicate Prepared(d: Tables, d1: Tables, q: nat) {
    && d1 == d.(subpages := d.subpages + [MemoryDispatch.Blank(d.page, Product(d.page, q))],
                sections := d.sections + [Section(SubpageIo(|d.subpages|), Product(d.page, q), 0, d.page, false)])
  }

  lemma SubpageReady(d: Tables, d1: Tables, q: nat)
    requires Sound(d) && q < Pages(d) && NotMemory(d, q) && !d.sections[PageAt(d, q)].mr.SubpageIo?
    requires Prepared(d, d1, q)
    ensures Sound(d1) && NotMemory(d1, q) && SameFound(d, d1) && Placeable(d1, |d.sections|, q, 1)
  {
    hide Tree, Lookup, Open;
    var k := |d.subpages|;
    SubpageAdded(d, Product(d.page, q));
    var d0 := d.(subpages := d1.subpages);
    SectionAdded(d0, d1.sections[|d.sections|]);
    forall p: nat, j: nat | p < Pages(d) && j < d.page ensures ResolveIn(d1, p, j) == ResolveIn(d, p, j) {
      assert PageOk(d0, p);
      var m := d0.sections[PageAt(d0, p)].mr;
      if m.SubpageIo? { assert SubpageOk(d0, m.subpage); }
    }
    assert SubpageOk(d1, k);
  }

  lemma SubpagePlaced(d: Tables, d1: Tables, d2: Tables, q: nat)
    requires Sound(d) && q < Pages(d) && NotMemory(d, q) && !d.sections[PageAt(d, q)].mr.SubpageIo?
    requires Prepared(d, d1, q)
    requires Sound(d1) && SameFound(d, d1) && Placeable(d1, |d.sections|, q, 1) && PagesSet(d1, d2, q, 1, |d.sections|)
    ensures Sound(d2) && SameLayout(d, d2) && SameFound(d, d2) && OnPage(d2, q, |d.subpages|)
  {
    hide Tree, Lookup, Open, Sound;
    PagesRedirected(d1, d2, q, 1, |d.sections|);
    SoundPage(d);
    forall p: nat, j: nat | p < Pages(d) && j < d.page ensures ResolveIn(d2, p, j) == ResolveIn(d, p, j) {
      if p == q { UnassignedPage(d, q, j); }
    }
  }

  lemma UnassignedPage(d: Tables, q: nat, j: nat)
    requires Sound(d) && q < Pages(d) && NotMemory(d, q) && !d.sections[PageAt(d, q)].mr.SubpageIo? && j < d.page
    ensures ResolveIn(d, q, j) == Dummy(UnassignedIo)
  {
    assert PageOk(d, q);
  }

  lemma StandInsPrepared(d: Tables, d1: Tables, ram: set<RegionId>, q: nat)
    requires Sound(d) && q < Pages(d) && NotMemory(d, q) && !d.sections[PageAt(d, q)].mr.SubpageIo?
    requires Prepared(d, d1, q) && StandInsUsed(d, ram)
    ensures StandInsUsed(d1, ram)
  {
    SoundPage(d);
    hide StandInsUsed;
    StandInsOnBlank(d, ram, Product(d.page, q));
    var d0 := d.(subpages := d1.subpages);
    StandInsKept(d0, ram, d1.sections[|d.sections|]);
  }

  /** The page table plays no part in it. */
  lemma SameStandIns(d: Tables, d': Tables, ram: set<RegionId>, lo: nat, nb: nat, index: nat)
    requires Sound(d) && PagesSet(d, d', lo, nb, index)
    ensures StandInsUsed(d', ram) <==> StandInsUsed(d, ram)
  {
    assert d'.sections == d.sections && d'.subpages == d.subpages;
  }

  lemma OneStandIn(ram: set<RegionId>, sections: seq<Section>, section: nat)
    requires section < |sections|
    ensures |StandIn(ram, sections, section)| <= |sections| + 1
  {
  }

  /** The sections after RAM has been given its stand-in, and the index to use. */
  function StandIn(ram: set<RegionId>, sections: seq<Section>, section: nat): seq<Section>
    requires section < |sections|
  {
    if OnSubpage(ram, sections[section]) == sections[section] then sections
      else sections + [OnSubpage(ram, sections[section])]
  }

  function StandInIndex(ram: set<RegionId>, sections: seq<Section>, section: nat): nat
    requires section < |sections|
  {
    if OnSubpage(ram, sections[section]) == sections[section] then section else |sections|
  }

  /** The page does not show a region of the map: what register_subpage asserts. */
  ghost predicate NotMemory(d: Tables, p: nat)
    requires Sound(d)
  {
    PageAt(d, p) < |d.sections| && !d.sections[PageAt(d, p)].mr.Memory?
  }

  lemma FreshTables(d: Tables)
    requires 0 < d.page && 0 < d.levels && Formed(d.pages, d.fan) && d.root == Entry(false, NIL) && d.subpages == []
    requires d.sections == [Dummy(UnassignedIo), Dummy(NotDirtyIo), Dummy(RomIo), Dummy(WatchIo)]
    ensures Sound(d) && forall a: nat :: a < Limit(d) ==> Resolve(d, a) == Dummy(UnassignedIo)
  {
    forall p: nat | p < Pages(d) ensures PageOk(d, p) && PageAt(d, p) == UNASSIGNED {
    }
    forall a: nat | a < Limit(d) ensures Resolve(d, a) == Dummy(UnassignedIo) {
      PageBelow(d.page, Pages(d), a);
    }
  }
}