/** The dispatch tables of exec.c as values: sections, sub-pages, and the two-step lookup. */
module MemoryDispatch {
  import opened Words
  import opened FlatViews
  import opened PhysPages
  import opened PhysUpdates

  /** What a section leads to: one of the special I/O regions, a sub-page, or a region of the map. */
  datatype Target =
    | UnassignedIo | NotDirtyIo | RomIo | WatchIo | SubpageRamIo
    | SubpageIo(subpage: nat)
    | Memory(region: RegionId)

  /** MemoryRegionSection. */
  datatype Section = Section(mr: Target, offsetInSpace: int, offsetInRegion: int, size: int, readonly: bool)
  {
    predicate Contains(a: int) { offsetInSpace <= a < offsetInSpace + size }
  }

  /** dummy_section. */
  function Dummy(mr: Target): Section {
    Section(mr, 0, 0, 0xFFFF_FFFF_FFFF_FFFF, false)
  }

  /** subpage_t. */
  datatype Subpage = Subpage(base: nat, subSection: seq<nat>)

  /** The tables: pages of `page` bytes, and a page map of `levels` levels. */
  datatype Tables = Tables(page: nat, fan: Fan, levels: nat, pages: Table, root: Entry,
                           sections: seq<Section>, subpages: seq<Subpage>)

  ghost function Pages(d: Tables): nat {
    Span(d.fan, d.levels)
  }

  /** The first address beyond the map. */
  ghost function Limit(d: Tables): nat {
    Product(d.page, Pages(d))
  }

  ghost function PageAt(d: Tables, p: nat): nat
    requires Formed(d.pages, d.fan)
  {
    Lookup(d.pages.nodes, d.fan, d.root, d.levels, p)
  }

  ghost predicate OpenAt(d: Tables, p: nat)
    requires Formed(d.pages, d.fan)
  {
    Open(d.pages.nodes, d.fan, d.root, d.levels, p)
  }

  /** Page `p` shows a section; unless that is a region of the map, no upper-level leaf covers it. */
  ghost predicate PageOk(d: Tables, p: nat)
    requires Formed(d.pages, d.fan)
  {
    && PageAt(d, p) < |d.sections|
    && var m := d.sections[PageAt(d, p)].mr;
      && (PageAt(d, p) == UNASSIGNED || m.Memory?
        || (m.SubpageIo? && m.subpage < |d.subpages| && d.subpages[m.subpage].base == Product(d.page, p)))
      && (!m.Memory? ==> OpenAt(d, p))
  }

  ghost predicate SubpageOk(d: Tables, k: nat)
    requires k < |d.subpages|
  {
    && |d.subpages[k].subSection| == d.page
    && forall j :: 0 <= j < d.page ==>
      d.subpages[k].subSection[j] < |d.sections| && !d.sections[d.subpages[k].subSection[j]].mr.SubpageIo?
  }

  ghost predicate Sound(d: Tables) {
    && 0 < d.page && 0 < d.levels && Formed(d.pages, d.fan)
    && Tree(d.pages.nodes, d.pages.used, d.fan, d.root, d.levels) && !d.root.leaf
    && 4 <= |d.sections| && d.sections[UNASSIGNED] == Dummy(UnassignedIo)
    && (forall p: nat :: p < Pages(d) ==> PageOk(d, p))
    && (forall k: nat :: k < |d.subpages| ==> SubpageOk(d, k))
  }

  /** The page of an address, and the byte in it. */
  function PageNo(page: nat, a: nat): nat
    requires 0 < page
  {
    a / page
  }

  function ByteNo(page: nat, a: nat): (r: nat)
    requires 0 < page
    ensures r < page
  {
    a % page
  }

  lemma PageBelow(page: nat, pages: nat, a: nat)
    requires 0 < page && a < Product(page, pages)
    ensures PageNo(page, a) < pages && ByteNo(page, a) < page
  {
    DivMod(a, page);
    if pages <= PageNo(page, a) { MulMono(pages, PageNo(page, a), page); }
  }

  /** The section found through page `p` for the byte at `j` in it. */
  ghost function ResolveIn(d: Tables, p: nat, j: nat): Section
    requires Sound(d) && p < Pages(d) && j < d.page
  {
    assert PageOk(d, p);
    var s := d.sections[PageAt(d, p)];
    if s.mr.SubpageIo? then
      assert SubpageOk(d, s.mr.subpage);
      d.sections[d.subpages[s.mr.subpage].subSection[j]]
    else s
  }

  /** The two-step lookup of an access to address `a`. */
  ghost function Resolve(d: Tables, a: nat): Section
    requires Sound(d) && a < Limit(d)
  {
    PageBelow(d.page, Pages(d), a);
    ResolveIn(d, PageNo(d.page, a), ByteNo(d.page, a))
  }

  /** phys_section_add changes nothing that is found. */
  lemma SectionAdded(d: Tables, s: Section)
    requires Sound(d)
    ensures Sound(d.(sections := d.sections + [s]))
    ensures forall a: nat :: a < Limit(d) ==> Resolve(d.(sections := d.sections + [s]), a) == Resolve(d, a)
  {
    hide Tree, Lookup, Open;
    var d' := d.(sections := d.sections + [s]);
    forall p: nat | p < Pages(d) ensures PageOk(d', p) {
      assert PageOk(d, p);
    }
    forall k: nat | k < |d.subpages| ensures SubpageOk(d', k) {
      assert SubpageOk(d, k);
    }
    forall a: nat | a < Limit(d) ensures Resolve(d', a) == Resolve(d, a) {
      ResolveExtended(d, s, a);
    }
  }

  lemma ResolveExtended(d: Tables, s: Section, a: nat)
    requires Sound(d) && Sound(d.(sections := d.sections + [s])) && a < Limit(d)
    ensures Resolve(d.(sections := d.sections + [s]), a) == Resolve(d, a)
  {
    hide Tree, Lookup, Open;
    PageBelow(d.page, Pages(d), a);
    var p := PageNo(d.page, a);
    assert PageOk(d, p);
    var m := d.sections[PageAt(d, p)].mr;
    if m.SubpageIo? { assert SubpageOk(d, m.subpage); }
  }

  /** The page of an address and its offset. */
  lemma AddressInPage(d: Tables, p: nat, j: nat)
    requires 0 < d.page && p < Pages(d) && j < d.page
    ensures Product(d.page, p) + j < Limit(d)
    ensures PageNo(d.page, Product(d.page, p) + j) == p && ByteNo(d.page, Product(d.page, p) + j) == j
  {
    DivModIs(Product(d.page, p) + j, d.page, p, j);
    MulMono(p + 1, Pages(d), d.page);
    Distribute(p, 1, d.page);
  }

  /** What section `index` yields for the byte at `j` of a page. */
  ghost function Through(d: Tables, index: nat, j: nat): Section
    requires index < |d.sections| && j < d.page
    requires d.sections[index].mr.SubpageIo? ==>
      d.sections[index].mr.subpage < |d.subpages| && SubpageOk(d, d.sections[index].mr.subpage)
  {
    var s := d.sections[index];
    if s.mr.SubpageIo? then d.sections[d.subpages[s.mr.subpage].subSection[j]] else s
  }

  /** A section that may be put on the pages `[lo, lo + nb)`. */
  ghost predicate Placeable(d: Tables, index: nat, lo: nat, nb: nat) {
    && index < |d.sections|
    && var m := d.sections[index].mr;
      m.Memory? || (m.SubpageIo? && nb == 1 && m.subpage < |d.subpages| && SubpageOk(d, m.subpage)
                    && d.subpages[m.subpage].base == Product(d.page, lo))
  }

  /** The effect of phys_page_set. */
  ghost predicate PagesSet(d: Tables, d': Tables, lo: nat, nb: nat, index: nat)
    requires Sound(d)
  {
    && d' == d.(pages := d'.pages, root := d'.root)
    && Formed(d'.pages, d.fan) && Tree(d'.pages.nodes, d'.pages.used, d.fan, d'.root, d.levels) && !d'.root.leaf
    && (forall p: nat :: p < Pages(d) ==> PageAt(d', p) == if lo <= p < lo + nb then index else PageAt(d, p))
    && (forall p: nat :: p < Pages(d) && !(lo <= p < lo + nb) ==> OpenAt(d', p) == OpenAt(d, p))
    && (nb == 1 ==> OpenAt(d', lo))
  }

  lemma PagesRedirected(d: Tables, d': Tables, lo: nat, nb: nat, index: nat)
    requires Sound(d) && Placeable(d, index, lo, nb) && PagesSet(d, d', lo, nb, index)
    ensures Sound(d')
    ensures forall p: nat, j: nat :: p < Pages(d) && j < d.page ==>
      ResolveIn(d', p, j) == if lo <= p < lo + nb then Through(d, index, j) else ResolveIn(d, p, j)
  {
    hide Tree, Lookup, Open;
    forall p: nat | p < Pages(d) ensures PageOk(d', p) {
      assert PageOk(d, p);
    }
    forall k: nat | k < |d.subpages| ensures SubpageOk(d', k) {
      assert SubpageOk(d, k);
    }
    forall p: nat, j: nat | p < Pages(d) && j < d.page
      ensures ResolveIn(d', p, j) == if lo <= p < lo + nb then Through(d, index, j) else ResolveIn(d, p, j)
    {
      assert PageOk(d, p) && PageOk(d', p);
      var m := d.sections[PageAt(d, p)].mr;
      if m.SubpageIo? { assert SubpageOk(d, m.subpage); }
    }
  }

  function Blank(page: nat, base: nat): Subpage {
    Subpage(base, seq(page, _ => UNASSIGNED))
  }

  lemma SubpageAdded(d: Tables, base: nat)
    requires Sound(d)
    ensures var d' := d.(subpages := d.subpages + [Blank(d.page, base)]);
      Sound(d') && forall p: nat, j: nat :: p < Pages(d) && j < d.page ==> ResolveIn(d', p, j) == ResolveIn(d, p, j)
  {
    hide Tree, Lookup, Open;
    var d' := d.(subpages := d.subpages + [Blank(d.page, base)]);
    forall p: nat | p < Pages(d) ensures PageOk(d', p) {
      assert PageOk(d, p);
    }
    forall k: nat | k < |d'.subpages| ensures SubpageOk(d', k) {
      if k < |d.subpages| { assert SubpageOk(d, k); }
    }
    forall p: nat, j: nat | p < Pages(d) && j < d.page ensures ResolveIn(d', p, j) == ResolveIn(d, p, j) {
      assert PageOk(d, p);
      var m := d.sections[PageAt(d, p)].mr;
      if m.SubpageIo? { assert SubpageOk(d, m.subpage); }
    }
  }

  /** Entries `[lo, hi)` of a sub-page set to `index`. */
  function Filled(subSection: seq<nat>, lo: nat, hi: nat, index: nat): (r: seq<nat>)
    requires lo <= hi <= |subSection|
  {
    subSection[..lo] + seq(hi - lo, _ => index) + subSection[hi..]
  }

  function WithSubpage(d: Tables, k: nat, subSection: seq<nat>): Tables
    requires k < |d.subpages|
  {
    d.(subpages := d.subpages[k := d.subpages[k].(subSection := subSection)])
  }

  lemma SubpageFilled(d: Tables, q: nat, k: nat, lo: nat, hi: nat, index: nat)
    requires Sound(d) && q < Pages(d) && k < |d.subpages| && |d.subpages[k].subSection| == d.page && lo <= hi <= d.page
    requires PageAt(d, q) < |d.sections| && d.sections[PageAt(d, q)].mr == SubpageIo(k)
    requires index < |d.sections| && !d.sections[index].mr.SubpageIo?
    ensures var d' := WithSubpage(d, k, Filled(d.subpages[k].subSection, lo, hi, index));
      Sound(d') && forall p: nat, j: nat :: p < Pages(d) && j < d.page ==>
        ResolveIn(d', p, j) == if p == q && lo <= j < hi then d.sections[index] else ResolveIn(d, p, j)
  {
    hide Tree, Lookup, Open;
    var d' := WithSubpage(d, k, Filled(d.subpages[k].subSection, lo, hi, index));
    assert PageOk(d, q);
    forall p: nat | p < Pages(d) ensures PageOk(d', p) {
      assert PageOk(d, p);
    }
    forall m: nat | m < |d'.subpages| ensures SubpageOk(d', m) {
      assert SubpageOk(d, m);
    }
    forall p: nat, j: nat | p < Pages(d) && j < d.page
      ensures ResolveIn(d', p, j) == if p == q && lo <= j < hi then d.sections[index] else ResolveIn(d, p, j)
    {
      assert PageOk(d, p);
      var m := d.sections[PageAt(d, p)].mr;
      if m.SubpageIo? {
        assert SubpageOk(d, m.subpage);
        if m.subpage == k { SamePage(d.page, p, q); }
      }
    }
  }

  lemma SamePage(page: nat, p: nat, q: nat)
    requires 0 < page && Product(page, p) == Product(page, q)
    ensures p == q
  {
    MulCompare(p, q, page);
  }
}
