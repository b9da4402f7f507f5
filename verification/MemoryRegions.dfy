/** The region tree of memory.c and the rule that says which region an address belongs to. */
module MemoryRegions {
  import opened FlatViews

  /** A MemoryRegion structure. `subregions` is in priority order, as the list is kept. A region
      with an alias shows a window of another region. */
  datatype Region = Region(parent: Option<RegionId>, addr: nat, size: nat,
                           enabled: bool, terminates: bool, readable: bool, readonly: bool, dirtyLogMask: bv8,
                           alias: Option<RegionId>, aliasOffset: nat,
                           subregions: seq<RegionId>, priority: nat, mayOverlap: bool)

  /** All region structures, by address. */
  type Store = map<RegionId, Region>

  ghost predicate Closed(s: Store) {
    forall id {:trigger s[id]} :: id in s ==>
      (s[id].alias.Some? ==> s[id].alias.value in s) &&
      (forall c :: c in s[id].subregions ==> c in s)
  }

  /** The links between regions, subregions and aliases together, have no cycle: `rank` falls
      along each of them. */
  ghost predicate Ranked(s: Store, rank: map<RegionId, nat>) {
    && Closed(s)
    && s.Keys <= rank.Keys
    && forall id {:trigger s[id]} :: id in s ==>
      (s[id].alias.Some? ==> rank[s[id].alias.value] < rank[id]) &&
      (forall c :: c in s[id].subregions ==> rank[c] < rank[id])
  }

  /** Who owns absolute address `a` below region `mr` placed at `base`: nobody outside the region;
      through an alias the target, shifted so that the alias offset meets the window; otherwise the
      first subregion in list order that owns it, and the region itself if it terminates. */
  ghost function Walk(s: Store, rank: map<RegionId, nat>, mr: RegionId, base: int, readonly: bool,
                      a: int): Option<Owner>
    requires Ranked(s, rank) && mr in s
    decreases rank[mr] + 1, 0
  {
    var r := s[mr];
    var b, ro := base + r.addr, readonly || r.readonly;
    if !r.enabled || !(b <= a < b + r.size) then None
    else if r.alias.Some? then
      var t := r.alias.value;
      Walk(s, rank, t, b - s[t].addr - r.aliasOffset, ro, a)
    else
      var below := WalkList(s, rank, rank[mr], r.subregions, b, ro, a);
      if below.Some? then below
      else if r.terminates then Some(Owner(mr, a - b, r.dirtyLogMask, r.readable, ro))
      else None
  }

  ghost predicate BelowRank(s: Store, rank: map<RegionId, nat>, bound: nat, subs: seq<RegionId>) {
    forall c :: c in subs ==> c in s && c in rank && rank[c] < bound
  }

  ghost function WalkList(s: Store, rank: map<RegionId, nat>, bound: nat, subs: seq<RegionId>,
                          base: int, readonly: bool, a: int): Option<Owner>
    requires Ranked(s, rank) && BelowRank(s, rank, bound, subs)
    decreases bound, |subs|
  {
    if subs == [] then None
    else
      var first := Walk(s, rank, subs[0], base, readonly, a);
      if first.Some? then first else WalkList(s, rank, bound, subs[1..], base, readonly, a)
  }

  lemma {:induction false} WalkListAppend(s: Store, rank: map<RegionId, nat>, bound: nat, subs: seq<RegionId>,
                                          c: RegionId, base: int, readonly: bool, a: int)
    requires Ranked(s, rank) && BelowRank(s, rank, bound, subs + [c])
    ensures BelowRank(s, rank, bound, subs) && c in s
    ensures WalkList(s, rank, bound, subs + [c], base, readonly, a) ==
      var front := WalkList(s, rank, bound, subs, base, readonly, a);
      if front.Some? then front else Walk(s, rank, c, base, readonly, a)
    decreases |subs|
  {
    assert c in subs + [c];
    assert forall x :: x in subs ==> x in subs + [c];
    if subs == [] {
      assert (subs + [c])[1..] == [];
      assert subs + [c] == [c];
    } else {
      assert (subs + [c])[1..] == subs[1..] + [c];
      WalkListAppend(s, rank, bound, subs[1..], c, base, readonly, a);
    }
  }

  /** An owner is an enabled region that terminates, the offset lies inside it, and the address inside
      the region that was walked. */
  lemma {:induction false} WalkInside(s: Store, rank: map<RegionId, nat>, mr: RegionId, base: int, readonly: bool,
                                      a: int)
    requires Ranked(s, rank) && mr in s
    ensures var o := Walk(s, rank, mr, base, readonly, a);
      o.Some? ==> base + s[mr].addr <= a < base + s[mr].addr + s[mr].size && OwnsByte(s, o.value)
    decreases rank[mr] + 1, 0
  {
    var r := s[mr];
    if r.alias.Some? {
      var t := r.alias.value;
      WalkInside(s, rank, t, base + r.addr - s[t].addr - r.aliasOffset, readonly || r.readonly, a);
    } else {
      WalkListInside(s, rank, rank[mr], r.subregions, base + r.addr, readonly || r.readonly, a);
    }
  }

  lemma {:induction false} WalkListInside(s: Store, rank: map<RegionId, nat>, bound: nat, subs: seq<RegionId>,
                                          base: int, readonly: bool, a: int)
    requires Ranked(s, rank) && BelowRank(s, rank, bound, subs)
    ensures var o := WalkList(s, rank, bound, subs, base, readonly, a); o.Some? ==> OwnsByte(s, o.value)
    decreases bound, |subs|
  {
    if subs != [] {
      WalkInside(s, rank, subs[0], base, readonly, a);
      WalkListInside(s, rank, bound, subs[1..], base, readonly, a);
    }
  }

  /** An owner is read-only when it, the region walked or one above is, and writable where nothing is read-only. */
  ghost predicate ReadonlyAs(s: Store, o: Owner, readonly: bool) {
    && (readonly || (o.mr in s && s[o.mr].readonly) ==> o.readonly)
    && (o.readonly ==> readonly || exists id {:trigger s[id]} :: id in s && s[id].readonly)
  }

  lemma {:induction false} WalkReadonly(s: Store, rank: map<RegionId, nat>, mr: RegionId, base: int, readonly: bool,
                                        a: int)
    requires Ranked(s, rank) && mr in s
    ensures var o := Walk(s, rank, mr, base, readonly, a);
      o.Some? ==> ReadonlyAs(s, o.value, readonly) && (s[mr].readonly ==> o.value.readonly)
    decreases rank[mr] + 1, 0
  {
    var r := s[mr];
    if r.alias.Some? {
      var t := r.alias.value;
      WalkReadonly(s, rank, t, base + r.addr - s[t].addr - r.aliasOffset, readonly || r.readonly, a);
    } else {
      WalkListReadonly(s, rank, rank[mr], r.subregions, base + r.addr, readonly || r.readonly, a);
    }
  }

  lemma {:induction false} WalkListReadonly(s: Store, rank: map<RegionId, nat>, bound: nat, subs: seq<RegionId>,
                                            base: int, readonly: bool, a: int)
    requires Ranked(s, rank) && BelowRank(s, rank, bound, subs)
    ensures var o := WalkList(s, rank, bound, subs, base, readonly, a); o.Some? ==> ReadonlyAs(s, o.value, readonly)
    decreases bound, |subs|
  {
    if subs != [] {
      WalkReadonly(s, rank, subs[0], base, readonly, a);
      WalkListReadonly(s, rank, bound, subs[1..], base, readonly, a);
    }
  }

  ghost predicate OwnsByte(s: Store, o: Owner) {
    && o.mr in s && s[o.mr].enabled && s[o.mr].terminates && s[o.mr].alias.None?
    && 0 <= o.offset < s[o.mr].size
    && o.readable == s[o.mr].readable && o.dirtyLogMask == s[o.mr].dirtyLogMask
  }

  /** Which ranks are used does not matter. */
  lemma {:induction false} WalkAnyRank(s: Store, r1: map<RegionId, nat>, r2: map<RegionId, nat>, mr: RegionId,
                                       base: int, readonly: bool, a: int)
    requires Ranked(s, r1) && Ranked(s, r2) && mr in s
    ensures Walk(s, r1, mr, base, readonly, a) == Walk(s, r2, mr, base, readonly, a)
    decreases r1[mr] + 1, 0
  {
    var r := s[mr];
    if r.alias.Some? {
      var t := r.alias.value;
      WalkAnyRank(s, r1, r2, t, base + r.addr - s[t].addr - r.aliasOffset, readonly || r.readonly, a);
    } else {
      WalkListAnyRank(s, r1, r2, r1[mr], r2[mr], r.subregions, base + r.addr, readonly || r.readonly, a);
    }
  }

  lemma {:induction false} WalkListAnyRank(s: Store, r1: map<RegionId, nat>, r2: map<RegionId, nat>, b1: nat, b2: nat,
                                           subs: seq<RegionId>, base: int, readonly: bool, a: int)
    requires Ranked(s, r1) && Ranked(s, r2) && BelowRank(s, r1, b1, subs) && BelowRank(s, r2, b2, subs)
    ensures WalkList(s, r1, b1, subs, base, readonly, a) == WalkList(s, r2, b2, subs, base, readonly, a)
    decreases b1, |subs|
  {
    if subs != [] {
      WalkAnyRank(s, r1, r2, subs[0], base, readonly, a);
      WalkListAnyRank(s, r1, r2, b1, b2, subs[1..], base, readonly, a);
    }
  }

  ghost predicate Acyclic(s: Store) {
    exists rank :: Ranked(s, rank)
  }

  /** The owner of an address in the space rooted at `root`, and in no space beyond 2^64. */
  ghost function OwnerIn(s: Store, root: RegionId, a: int): Option<Owner>
    requires Acyclic(s) && root in s
  {
    var rank :| Ranked(s, rank);
    if 0 <= a < 0x1_0000_0000_0000_0000 then Walk(s, rank, root, 0, false, a) else None
  }

  lemma OwnerByRank(s: Store, rank: map<RegionId, nat>, root: RegionId, a: int)
    requires Ranked(s, rank) && root in s
    ensures OwnerIn(s, root, a)
      == if 0 <= a < 0x1_0000_0000_0000_0000 then Walk(s, rank, root, 0, false, a) else None
  {
    var chosen :| Ranked(s, chosen) && OwnerIn(s, root, a)
      == if 0 <= a < 0x1_0000_0000_0000_0000 then Walk(s, chosen, root, 0, false, a) else None;
    WalkAnyRank(s, chosen, rank, root, 0, false, a);
  }

  // The same owner, found in the coordinates of each region instead of those of the address space.

  /** Who owns byte `x` of region `mr`: an alias shows its target from the alias offset on; otherwise the first
      subregion that owns the byte, and then the region itself if it terminates. */
  ghost function OwnerOfByte(s: Store, rank: map<RegionId, nat>, mr: RegionId, x: int, readonly: bool): Option<Owner>
    requires Ranked(s, rank) && mr in s
    decreases rank[mr] + 1, 0
  {
    var r := s[mr];
    if !r.enabled || !(0 <= x < r.size) then None
    else if r.alias.Some? then OwnerOfByte(s, rank, r.alias.value, x + r.aliasOffset, readonly || r.readonly)
    else
      var below := FirstOwner(s, rank, rank[mr], r.subregions, x, readonly || r.readonly);
      if below.Some? then below
      else if r.terminates then Some(Owner(mr, x, r.dirtyLogMask, r.readable, readonly || r.readonly))
      else None
  }

  /** The first of the subregions that owns byte `x` of the region they lie in. */
  ghost function FirstOwner(s: Store, rank: map<RegionId, nat>, bound: nat, subs: seq<RegionId>, x: int,
                            readonly: bool): Option<Owner>
    requires Ranked(s, rank) && BelowRank(s, rank, bound, subs)
    decreases bound, |subs|
  {
    if subs == [] then None
    else
      var first := OwnerOfByte(s, rank, subs[0], x - s[subs[0]].addr, readonly);
      if first.Some? then first else FirstOwner(s, rank, bound, subs[1..], x, readonly)
  }

  /** The walk over the address space finds the owner of the byte at the address. */
  lemma {:induction false} WalkIsLocal(s: Store, rank: map<RegionId, nat>, mr: RegionId, base: int, readonly: bool,
                                       a: int)
    requires Ranked(s, rank) && mr in s
    ensures Walk(s, rank, mr, base, readonly, a) == OwnerOfByte(s, rank, mr, a - base - s[mr].addr, readonly)
    decreases rank[mr] + 1, 0
  {
    hide Ranked, BelowRank, WalkList, FirstOwner;
    RankedAt(s, rank, mr);
    var r := s[mr];
    var b, ro := base + r.addr, readonly || r.readonly;
    if r.alias.Some? {
      var t := r.alias.value;
      WalkIsLocal(s, rank, t, b - s[t].addr - r.aliasOffset, ro, a);
    } else {
      WalkListIsLocal(s, rank, rank[mr], r.subregions, b, ro, a);
    }
  }

  lemma RankedAt(s: Store, rank: map<RegionId, nat>, mr: RegionId)
    requires Ranked(s, rank) && mr in s
    ensures mr in rank && BelowRank(s, rank, rank[mr], s[mr].subregions)
    ensures s[mr].alias.Some? ==>
      s[mr].alias.value in s && s[mr].alias.value in rank && rank[s[mr].alias.value] < rank[mr]
  {
  }

  lemma {:induction false} WalkListIsLocal(s: Store, rank: map<RegionId, nat>, bound: nat, subs: seq<RegionId>,
                                           base: int, readonly: bool, a: int)
    requires Ranked(s, rank) && BelowRank(s, rank, bound, subs)
    ensures WalkList(s, rank, bound, subs, base, readonly, a) == FirstOwner(s, rank, bound, subs, a - base, readonly)
    decreases bound, |subs|
  {
    if subs != [] {
      WalkIsLocal(s, rank, subs[0], base, readonly, a);
      WalkListIsLocal(s, rank, bound, subs[1..], base, readonly, a);
    }
  }
}
