/** Flattening: the region tree is rendered into a view, and neighbouring ranges are merged. */
module Rendering {
  import opened FlatViews
  import opened MemoryRegions

  datatype AddrRange = AddrRange(start: int, size: int)
  {
    function End(): int { start + size }

    predicate Contains(a: int) { start <= a < start + size }

    predicate Intersects(other: AddrRange) { Contains(other.start) || other.Contains(start) }

    function Intersection(other: AddrRange): (r: AddrRange)
      ensures forall a :: r.Contains(a) <==> Contains(a) && other.Contains(a)
    {
      var low := if start < other.start then other.start else start;
      var high := if End() < other.End() then End() else other.End();
      AddrRange(low, high - low)
    }
  }

  /** What is already there obscures what comes later. */
  function Under(first: Option<Owner>, second: Option<Owner>): Option<Owner> {
    if first.Some? then first else second
  }

  /** `after` is `before` with `over` showing through in the gaps inside `clip`. */
  ghost predicate Overlaid(before: seq<FlatRange>, after: seq<FlatRange>, clip: AddrRange, over: int -> Option<Owner>) {
    && Sorted(after)
    && forall a :: At(after, a) == Under(At(before, a), if clip.Contains(a) then over(a) else None)
  }

  ghost function Solid(t: FlatRange): int -> Option<Owner> {
    a => Some(t.OwnerOf(a))
  }

  /** Progress of the gap filling: everything below `base` inside the range has been handled. */
  ghost predicate FilledTo(before: seq<FlatRange>, v: seq<FlatRange>, t: FlatRange, base: int) {
    && Sorted(v)
    && forall a :: At(v, a) == Under(At(before, a), if t.start <= a < base then Some(t.OwnerOf(a)) else None)
  }

  /** All ranges before index `i` end at or below `base`, or nothing is left to place. */
  ghost predicate Passed(v: seq<FlatRange>, i: nat, base: int) {
    i <= |v| && forall k :: 0 <= k < i ==> v[k].End() <= base
  }

  /** The part of `t` from `base`, `now` bytes long. */
  function Piece(t: FlatRange, base: int, now: int): FlatRange {
    t.(offsetInRegion := t.offsetInRegion + (base - t.start), start := base, size := now)
  }

  lemma PieceFits(before: seq<FlatRange>, v: seq<FlatRange>, t: FlatRange, base: int, i: nat, now: int)
    requires FilledTo(before, v, t, base) && Passed(v, i, base)
    requires t.start <= base && 0 < now
    requires i < |v| ==> base + now <= v[i].start
    ensures FilledTo(before, v[..i] + [Piece(t, base, now)] + v[i..], t, base + now)
    ensures Passed(v[..i] + [Piece(t, base, now)] + v[i..], i + 1, base + now)
  {
    var p := Piece(t, base, now);
    var w := v[..i] + [p] + v[i..];
    SortedInsert(v, i, p);
    forall a
      ensures At(w, a) == Under(At(before, a), if t.start <= a < base + now then Some(t.OwnerOf(a)) else None)
    {
      AtInsert(v, i, p, a);
      if p.Contains(a) {
        GapIsFree(v, i, base, base + now, a);
      }
    }
  }

  lemma GapIsFree(v: seq<FlatRange>, i: nat, base: int, high: int, a: int)
    requires Sorted(v) && Passed(v, i, base)
    requires i < |v| ==> high <= v[i].start
    requires base <= a < high
    ensures At(v, a) == None
  {
    forall k | 0 <= k < |v| ensures !v[k].Contains(a) {
      if i < k { assert v[i].End() <= v[k].start; }
    }
  }

  /** Stepping over a range that was already there. */
  lemma RangePassed(before: seq<FlatRange>, v: seq<FlatRange>, t: FlatRange, base: int, i: nat, next: int)
    requires FilledTo(before, v, t, base) && Passed(v, i, base) && i < |v|
    requires v[i].start <= base <= next <= v[i].End()
    ensures FilledTo(before, v, t, next)
    ensures next == v[i].End() ==> Passed(v, i + 1, next)
  {
    forall a | base <= a < next
      ensures At(before, a).Some?
    {
      AtIndex(v, i, a);
    }
  }

  /** A range below `base` needs nothing; any other is not empty and ends above it. */
  lemma NextRange(before: seq<FlatRange>, v: seq<FlatRange>, t: FlatRange, base: int, i: nat)
    requires FilledTo(before, v, t, base) && Passed(v, i, base) && i < |v|
    ensures 0 < v[i].size
    ensures v[i].End() <= base ==> Passed(v, i + 1, base)
  {
  }

  lemma NothingFilled(before: seq<FlatRange>, t: FlatRange)
    requires Sorted(before)
    ensures FilledTo(before, before, t, t.start) && Passed(before, 0, t.start)
  {
  }

  lemma FilledToEnd(before: seq<FlatRange>, v: seq<FlatRange>, t: FlatRange)
    requires FilledTo(before, v, t, t.End())
    ensures Sorted(v) && Overlaid(before, v, AddrRange(t.start, t.size), Solid(t))
  {
  }

  /** Builds a range for the part of `t` at `base` and inserts it. */
  method PlacePiece(view: FlatView, ghost before: seq<FlatRange>, t: FlatRange, i: nat, base: int, offset: int,
                    now: int)
    requires view.Valid() && FilledTo(before, view.Contents(), t, base) && Passed(view.Contents(), i, base)
    requires t.start <= base && 0 < now && offset == t.offsetInRegion + (base - t.start)
    requires i < view.nr ==> base + now <= view.ranges[i].start
    modifies view, view.ranges
    ensures view.Valid() && (view.ranges == old(view.ranges) || fresh(view.ranges)) && view.nr == old(view.nr) + 1
    ensures FilledTo(before, view.Contents(), t, base + now) && Passed(view.Contents(), i + 1, base + now)
    ensures i < old(view.nr) ==> view.ranges[i + 1] == old(view.ranges[i])
  {
    hide FilledTo, FlatRange.OwnerOf;
    ghost var v := view.Contents();
    PieceFits(before, v, t, base, i, now);
    view.Insert(i, t.(offsetInRegion := offset, start := base, size := now));
    assert i < |v| ==> view.Contents()[i + 1] == v[i];
  }

  /** The last part of render_memory_region: `t` is put into the gaps of the view. */
  method FillGaps(view: FlatView, t: FlatRange)
    requires view.Valid() && Sorted(view.Contents()) && 0 <= t.size
    modifies view, view.ranges
    ensures view.Valid() && (view.ranges == old(view.ranges) || fresh(view.ranges))
    ensures Sorted(view.Contents())
    ensures Overlaid(old(view.Contents()), view.Contents(), AddrRange(t.start, t.size), Solid(t))
  {
    hide Sorted, At, FilledTo, Passed, Overlaid, Solid, FlatRange.OwnerOf;
    ghost var before := view.Contents();
    var offset, base, remain := t.offsetInRegion, t.start, t.size;
    var i := 0;
    NothingFilled(before, t);
    while i < view.nr && remain != 0
      invariant view.Valid() && (view.ranges == old(view.ranges) || fresh(view.ranges))
      invariant i <= view.nr
      invariant t.start <= base && 0 <= remain && base + remain == t.End()
      invariant offset == t.offsetInRegion + (base - t.start)
      invariant FilledTo(before, view.Contents(), t, base)
      invariant remain != 0 ==> Passed(view.Contents(), i, base)
      decreases view.nr - i
    {
      NextRange(before, view.Contents(), t, base, i);
      if view.ranges[i].End() <= base {
        i := i + 1;
        continue;
      }
      if base < view.ranges[i].start {
        var gap := view.ranges[i].start - base;
        var now := if remain < gap then remain else gap;
        PlacePiece(view, before, t, i, base, offset, now);
        i := i + 1;
        base, offset, remain := base + now, offset + now, remain - now;
      }
      var end := if base + remain < view.ranges[i].End() then base + remain else view.ranges[i].End();
      var now := end - base;
      if now != 0 {
        RangePassed(before, view.Contents(), t, base, i, end);
      }
      base, offset, remain := base + now, offset + now, remain - now;
      i := i + 1;
    }
    if remain != 0 {
      PlacePiece(view, before, t, i, base, offset, remain);
    }
    FilledToEnd(before, view.Contents(), t);
  }

  /** What a region shows inside a clip. */
  ghost function Shown(s: Store, rank: map<RegionId, nat>, mr: RegionId, base: int,
                       readonly: bool): int -> Option<Owner>
    requires Ranked(s, rank) && mr in s
  {
    a => Walk(s, rank, mr, base, readonly, a)
  }

  ghost function ListShown(s: Store, rank: map<RegionId, nat>, bound: nat, subs: seq<RegionId>,
                           base: int, readonly: bool): int -> Option<Owner>
    requires Ranked(s, rank) && BelowRank(s, rank, bound, subs)
  {
    a => WalkList(s, rank, bound, subs, base, readonly, a)
  }

  /** A region outside the clip, or not enabled, shows nothing. */
  lemma NothingShown(s: Store, rank: map<RegionId, nat>, mr: RegionId, base: int, clip: AddrRange, readonly: bool,
                     v: seq<FlatRange>)
    requires Ranked(s, rank) && mr in s && Sorted(v)
    requires s[mr].enabled ==> !AddrRange(base + s[mr].addr, s[mr].size).Intersects(clip)
    ensures Overlaid(v, v, clip, Shown(s, rank, mr, base, readonly))
  {
  }

  lemma EmptyListShown(s: Store, rank: map<RegionId, nat>, bound: nat, base: int, clip: AddrRange, readonly: bool,
                       v: seq<FlatRange>)
    requires Ranked(s, rank) && Sorted(v)
    ensures Overlaid(v, v, clip, ListShown(s, rank, bound, [], base, readonly))
  {
  }

  lemma AliasShown(s: Store, rank: map<RegionId, nat>, mr: RegionId, base: int, clip: AddrRange, readonly: bool,
                   before: seq<FlatRange>, after: seq<FlatRange>)
    requires Ranked(s, rank) && mr in s && s[mr].enabled && s[mr].alias.Some?
    requires Overlaid(before, after, AddrRange(base + s[mr].addr, s[mr].size).Intersection(clip),
      Shown(s, rank, s[mr].alias.value,
            base + s[mr].addr - s[s[mr].alias.value].addr - s[mr].aliasOffset, readonly || s[mr].readonly))
    ensures Overlaid(before, after, clip, Shown(s, rank, mr, base, readonly))
  {
  }

  lemma NextShown(s: Store, rank: map<RegionId, nat>, bound: nat, subs: seq<RegionId>, k: nat,
                  base: int, clip: AddrRange, readonly: bool,
                  before: seq<FlatRange>, v: seq<FlatRange>, after: seq<FlatRange>)
    requires Ranked(s, rank) && k < |subs| && subs[k] in s
    requires BelowRank(s, rank, bound, subs[..k]) && BelowRank(s, rank, bound, subs[..k + 1])
    requires Overlaid(before, v, clip, ListShown(s, rank, bound, subs[..k], base, readonly))
    requires Overlaid(v, after, clip, Shown(s, rank, subs[k], base, readonly))
    ensures Overlaid(before, after, clip, ListShown(s, rank, bound, subs[..k + 1], base, readonly))
  {
    assert subs[..k + 1] == subs[..k] + [subs[k]];
    forall a
      ensures At(after, a) == Under(At(before, a),
        if clip.Contains(a) then ListShown(s, rank, bound, subs[..k + 1], base, readonly)(a) else None)
    {
      WalkListAppend(s, rank, bound, subs[..k], subs[k], base, readonly, a);
    }
  }

  lemma ContainerShown(s: Store, rank: map<RegionId, nat>, mr: RegionId, base: int, clip: AddrRange, readonly: bool,
                       before: seq<FlatRange>, after: seq<FlatRange>)
    requires Ranked(s, rank) && mr in s && s[mr].enabled && s[mr].alias.None? && !s[mr].terminates
    requires BelowRank(s, rank, rank[mr], s[mr].subregions)
    requires Overlaid(before, after, AddrRange(base + s[mr].addr, s[mr].size).Intersection(clip),
      ListShown(s, rank, rank[mr], s[mr].subregions, base + s[mr].addr, readonly || s[mr].readonly))
    ensures Overlaid(before, after, clip, Shown(s, rank, mr, base, readonly))
  {
  }

  lemma TerminalShown(s: Store, rank: map<RegionId, nat>, mr: RegionId, base: int, clip: AddrRange, readonly: bool,
                      before: seq<FlatRange>, v: seq<FlatRange>, after: seq<FlatRange>, t: FlatRange)
    requires Ranked(s, rank) && mr in s && s[mr].enabled && s[mr].alias.None? && s[mr].terminates
    requires BelowRank(s, rank, rank[mr], s[mr].subregions)
    requires Overlaid(before, v, AddrRange(base + s[mr].addr, s[mr].size).Intersection(clip),
      ListShown(s, rank, rank[mr], s[mr].subregions, base + s[mr].addr, readonly || s[mr].readonly))
    requires AddrRange(t.start, t.size) == AddrRange(base + s[mr].addr, s[mr].size).Intersection(clip)
    requires t == FlatRange(mr, t.start - (base + s[mr].addr), t.start, t.size,
                            s[mr].dirtyLogMask, s[mr].readable, readonly || s[mr].readonly)
    requires Overlaid(v, after, AddrRange(t.start, t.size), Solid(t))
    ensures Overlaid(before, after, clip, Shown(s, rank, mr, base, readonly))
  {
  }

  /** render_memory_region: every address already in the view keeps its owner, every other address
      of the clip gets the owner found by the walk, and nothing else is added. */
  method RenderMemoryRegion(view: FlatView, s: Store, ghost rank: map<RegionId, nat>, mr: RegionId,
                            base: int, clip: AddrRange, readonly: bool)
    requires Ranked(s, rank) && mr in s && 0 <= clip.size
    requires view.Valid() && Sorted(view.Contents())
    modifies view, view.ranges
    ensures view.Valid() && (view.ranges == old(view.ranges) || fresh(view.ranges))
    ensures Sorted(view.Contents())
    ensures Overlaid(old(view.Contents()), view.Contents(), clip, Shown(s, rank, mr, base, readonly))
    decreases rank[mr]
  {
    hide Sorted, At, Overlaid, Walk, WalkList, Shown, ListShown, Solid;
    ghost var before := view.Contents();
    var r := s[mr];
    if !r.enabled {
      NothingShown(s, rank, mr, base, clip, readonly, before);
      return;
    }
    var b, ro := base + r.addr, readonly || r.readonly;
    var window := AddrRange(b, r.size);
    if !window.Intersects(clip) {
      NothingShown(s, rank, mr, base, clip, readonly, before);
      return;
    }
    var inner := window.Intersection(clip);
    if r.alias.Some? {
      var target := r.alias.value;
      RenderMemoryRegion(view, s, rank, target, b - s[target].addr - r.aliasOffset, inner, ro);
      AliasShown(s, rank, mr, base, clip, readonly, before, view.Contents());
      return;
    }
    RenderSubregions(view, s, rank, rank[mr], r.subregions, b, inner, ro);
    if !r.terminates {
      ContainerShown(s, rank, mr, base, clip, readonly, before, view.Contents());
      return;
    }
    ghost var below := view.Contents();
    var t := FlatRange(mr, inner.start - b, inner.start, inner.size, r.dirtyLogMask, r.readable, ro);
    FillGaps(view, t);
    TerminalShown(s, rank, mr, base, clip, readonly, before, below, view.Contents(), t);
  }

  /** The loop over the subregions, in priority order. */
  method RenderSubregions(view: FlatView, s: Store, ghost rank: map<RegionId, nat>, ghost bound: nat,
                          subs: seq<RegionId>, base: int, clip: AddrRange, readonly: bool)
    requires Ranked(s, rank) && BelowRank(s, rank, bound, subs) && 0 <= clip.size
    requires view.Valid() && Sorted(view.Contents())
    modifies view, view.ranges
    ensures view.Valid() && (view.ranges == old(view.ranges) || fresh(view.ranges))
    ensures Sorted(view.Contents())
    ensures Overlaid(old(view.Contents()), view.Contents(), clip, ListShown(s, rank, bound, subs, base, readonly))
    decreases bound, 0
  {
    hide Sorted, At, Overlaid, Walk, WalkList, Shown, ListShown;
    ghost var before := view.Contents();
    var k := 0;
    EmptyListShown(s, rank, bound, base, clip, readonly, before);
    assert subs[..0] == [];
    while k < |subs|
      invariant k <= |subs| && BelowRank(s, rank, bound, subs[..k])
      invariant view.Valid() && (view.ranges == old(view.ranges) || fresh(view.ranges))
      invariant Sorted(view.Contents())
      invariant Overlaid(before, view.Contents(), clip, ListShown(s, rank, bound, subs[..k], base, readonly))
    {
      ghost var v := view.Contents();
      RenderMemoryRegion(view, s, rank, subs[k], base, clip, readonly);
      NextShown(s, rank, bound, subs, k, base, clip, readonly, before, v, view.Contents());
      k := k + 1;
    }
    assert subs[..k] == subs;
  }
}
