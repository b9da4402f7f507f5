/** Nested update transactions over the region tree. */
module MemoryTransactions {
  import opened FlatViews
  import opened MemoryRegions
  import opened Topology
  import opened TopologyUpdate
  import opened RegionChanges

  /** The globals of memory.c for one address space, with all listener callbacks made so far. */
  datatype State = State(regions: Store, root: RegionId, depth: nat, pending: bool,
                         flat: seq<FlatRange>, calls: seq<Event>)

  ghost predicate WellFormed(s: State) {
    Linked(s.regions) && Acyclic(s.regions) && s.root in s.regions && Sorted(s.flat)
  }

  /** memory_region_transaction_commit. */
  ghost predicate Committed(s: State, t: State)
    requires WellFormed(s) && 0 < s.depth
  {
    && t.regions == s.regions && t.root == s.root && t.depth == s.depth - 1
    && if t.depth == 0 && s.pending then
         && !t.pending
         && IsTopology(s.regions, Some(s.root), t.flat)
         && t.calls == s.calls + (Deletions(s.flat, t.flat) + Additions(s.flat, t.flat))
       else
         t.pending == s.pending && t.flat == s.flat && t.calls == s.calls
  }

  /** What an operation needs of its caller. */
  ghost predicate Callable(s: State, op: Op)
    requires WellFormed(s)
  {
    Allowed(s.regions, op) && (op.Commit? ==> 0 < s.depth)
  }

  /** The state in which the closing commit of an operation runs. */
  ghost function Opened(s: State, regions: Store, pending: bool): State {
    s.(regions := regions, depth := s.depth + 1, pending := s.pending || pending)
  }

  ghost predicate Next(s: State, op: Op, t: State)
    requires WellFormed(s) && Callable(s, op)
  {
    match op
    case Begin => t == s.(depth := s.depth + 1)
    case Commit => Committed(s, t)
    case _ =>
      match Apply(s.regions, op)
      case Plain(r) => t == s.(regions := r)
      case Update(r, p) => WellFormed(Opened(s, r, p)) && Committed(Opened(s, r, p), t)
  }

  /** The new tree stored inside a transaction, asking for an update or not, and the commit that follows. */
  ghost predicate Performed(s: State, updated: Store, asked: bool, t: State) {
    WellFormed(Opened(s, updated, asked)) && Committed(Opened(s, updated, asked), t)
  }

  /** Whether client `i` logs. */
  predicate LogsFor(mask: bv8, i: nat)
    requires i < 8
  {
    mask & ClientBit(i) != 0
  }

  lemma ClientBitIs(i: nat)
    requires i < 8
    ensures ClientBit(i) as nat == Power(i)
  {
    assert Power(2) == 4 && Power(4) == 16 && Power(6) == 64;
  }

  function Power(i: nat): nat {
    if i == 0 then 1 else 2 * Power(i - 1)
  }

  /** The bit of one client is stored, the others stay. */
  lemma LogMaskIs(mask: bv8, log: bool, client: nat)
    ensures forall i: nat :: i < 8 ==>
      LogsFor(LogMask(mask, log, client), i) == if i == client then log else LogsFor(mask, i)
  {
    forall i: nat | i < 8
      ensures LogsFor(LogMask(mask, log, client), i) == if i == client then log else LogsFor(mask, i)
    {
      OneBit(mask, ClientBit(client), ClientBit(i));
      if client < 8 && i != client { OtherBit(client, i); }
    }
  }

  lemma OtherBit(client: nat, i: nat)
    requires client < 8 && i < 8 && i != client
    ensures ClientBit(client) & ClientBit(i) == 0
  {
  }

  lemma OneBit(mask: bv8, bit: bv8, other: bv8)
    ensures bit & other == 0 ==> ((mask & !bit) | bit) & other == mask & other && (mask & !bit) & other == mask & other
    ensures (mask & !bit) & bit == 0 && ((mask & !bit) | bit) & bit == bit
  {
  }

  /** Logging switched on and off again leaves the mask with the bit off. */
  lemma LogOnAndOff(mask: bv8, client: nat, i: nat)
    requires i < 8
    ensures LogsFor(LogMask(LogMask(mask, true, client), false, client), i) == (i != client && LogsFor(mask, i))
  {
    LogMaskIs(mask, true, client);
    LogMaskIs(LogMask(mask, true, client), false, client);
  }

  class Memory {
    var regions: Store
    const root: RegionId
    var depth: nat
    var pending: bool
    var currentMap: FlatView
    var calls: seq<Event>

    ghost function View(): State
      reads this, currentMap, currentMap.ranges
      requires currentMap.Valid()
    {
      State(regions, root, depth, pending, currentMap.Contents(), calls)
    }

    ghost predicate Valid()
      reads this, currentMap, currentMap.ranges
    {
      currentMap.Valid() && WellFormed(View())
    }

    /** address_space_init: the map starts empty and no update is pending. */
    constructor (regions: Store, root: RegionId)
      requires Linked(regions) && Acyclic(regions) && root in regions
      ensures Valid() && View() == State(regions, root, 0, false, [], [])
    {
      this.regions, this.root := regions, root;
      depth, pending, calls := 0, false, [];
      currentMap := new FlatView();
    }

    method TransactionBegin()
      requires Valid()
      modifies this
      ensures Valid() && Next(old(View()), Begin, View())
      ensures View() == old(View()).(depth := old(depth) + 1)
    {
      depth := depth + 1;
    }

    method TransactionCommit()
      requires Valid() && 0 < depth
      modifies this
      ensures Valid() && Committed(old(View()), View())
      ensures regions == old(regions) && depth == old(depth) - 1
      ensures depth == 0 && old(pending) ==> !pending && IsTopology(regions, Some(root), View().flat)
      ensures var was, now := old(View().flat), View().flat;
        depth == 0 && old(pending) ==> calls == old(calls) + (Deletions(was, now) + Additions(was, now))
      ensures depth != 0 || !old(pending) ==> View() == old(View()).(depth := old(depth) - 1)
    {
      depth := depth - 1;
      if depth == 0 && pending {
        pending := false;
        UpdateTopology();
      }
    }

    /** address_space_update_topology. */
    method UpdateTopology()
      requires Valid()
      modifies this`currentMap, this`calls
      ensures Valid() && IsTopology(regions, Some(root), View().flat)
      ensures calls == old(calls)
        + (Deletions(old(View().flat), View().flat) + Additions(old(View().flat), View().flat))
    {
      ghost var rank :| Ranked(regions, rank);
      var oldView := currentMap;
      var newView := GenerateMemoryTopology(regions, rank, Some(root));
      var was, now := oldView.ranges[..oldView.nr], newView.ranges[..newView.nr];
      var deleted := TopologyPass(was, now, false);
      var added := TopologyPass(was, now, true);
      calls := calls + (deleted + added);
      currentMap := newView;
    }

    /** The bracket every operation uses: begin, store the new tree, ask for an update if
        `requested`, commit. */
    method Change(updated: Store, requested: bool)
      requires Valid() && WellFormed(Opened(View(), updated, requested))
      modifies this
      ensures Valid() && old(WellFormed(Opened(View(), updated, requested)))
      ensures Committed(Opened(old(View()), updated, requested), View())
    {
      hide Linked, Acyclic, Sorted;
      TransactionBegin();
      regions := updated;
      pending := pending || requested;
      TransactionCommit();
    }

    /** memory_region_add_subregion_common, with the fields its two callers store first. */
    method AddSubregionCommon(mr: RegionId, offset: nat, sub: RegionId, overlap: bool, priority: nat)
      requires Valid() && mr in regions && sub in regions && regions[sub].parent.None?
      requires Acyclic(Attached(regions, mr, offset, sub, overlap, priority))
      modifies this
      ensures Valid()
      ensures var r, asked := Attached(old(regions), mr, offset, sub, overlap, priority),
        old(regions[mr].enabled && regions[sub].enabled);
        old(Valid()) && WellFormed(Opened(old(View()), r, asked)) && Committed(Opened(old(View()), r, asked), View())
      ensures AttachedBy(old(regions), regions, mr, offset, sub, overlap, priority)
      ensures Performed(old(View()), regions, old(regions[mr].enabled && regions[sub].enabled), View())
    {
      hide Linked, Acyclic, Sorted, Closed, Attached, Committed, AttachedBy;
      LinkedIsClosed(regions);
      AttachedLinked(regions, mr, offset, sub, overlap, priority);
      AttachedFields(regions, mr, offset, sub, overlap, priority);
      AttachedExactly(regions, mr, offset, sub, overlap, priority);
      ghost var begun := Opened(View(), Attached(regions, mr, offset, sub, overlap, priority),
        regions[mr].enabled && regions[sub].enabled);
      var updated := InsertSubregion(regions, mr, offset, sub, overlap, priority);
      Change(updated, regions[mr].enabled && regions[sub].enabled);
      CommittedRegions(begun, View());
    }

    method AddSubregion(mr: RegionId, offset: nat, sub: RegionId)
      requires Valid() && Callable(View(), Op.AddSubregion(mr, offset, sub))
      modifies this
      ensures Valid() && old(Valid()) && Next(old(View()), Op.AddSubregion(mr, offset, sub), View())
      ensures AttachedBy(old(regions), regions, mr, offset, sub, false, 0)
      ensures Performed(old(View()), regions, old(regions[mr].enabled && regions[sub].enabled), View())
    {
      hide Linked, Acyclic, Sorted, Closed, Attached, Committed, AttachedBy;
      AddSubregionCommon(mr, offset, sub, false, 0);
    }

    method AddSubregionOverlap(mr: RegionId, offset: nat, sub: RegionId, priority: nat)
      requires Valid() && Callable(View(), Op.AddSubregionOverlap(mr, offset, sub, priority))
      modifies this
      ensures Valid() && old(Valid()) && Next(old(View()), Op.AddSubregionOverlap(mr, offset, sub, priority), View())
      ensures AttachedBy(old(regions), regions, mr, offset, sub, true, priority)
      ensures Performed(old(View()), regions, old(regions[mr].enabled && regions[sub].enabled), View())
    {
      hide Linked, Acyclic, Sorted, Closed, Attached, Committed, AttachedBy;
      AddSubregionCommon(mr, offset, sub, true, priority);
    }

    method DelSubregion(mr: RegionId, sub: RegionId)
      requires Valid() && Callable(View(), Op.DelSubregion(mr, sub))
      modifies this
      ensures Valid() && old(Valid()) && Next(old(View()), Op.DelSubregion(mr, sub), View())
      ensures DetachedFrom(old(regions), regions, mr, sub)
      ensures Performed(old(View()), regions, old(regions[mr].enabled && regions[sub].enabled), View())
    {
      hide Linked, Acyclic, Sorted, Closed, Attached, Detached, Committed, DetachedFrom;
      ChangeLinked(regions, Op.DelSubregion(mr, sub));
      DetachedExactly(regions, mr, sub);
      ghost var before := View();
      Change(Detached(regions, mr, sub), regions[mr].enabled && regions[sub].enabled);
      CommittedRegions(Opened(before, Detached(before.regions, mr, sub),
        before.regions[mr].enabled && before.regions[sub].enabled), View());
    }

    method SetEnabled(mr: RegionId, enabled: bool)
      requires Valid() && Callable(View(), Op.SetEnabled(mr, enabled))
      modifies this
      ensures Valid() && old(Valid()) && Next(old(View()), Op.SetEnabled(mr, enabled), View())
      ensures var was := old(regions)[mr];
        if was.enabled == enabled then View() == old(View())
        else Performed(old(View()), old(regions)[mr := was.(enabled := enabled)], true, View())
    {
      hide Linked, Acyclic, Sorted, Closed, Attached, Detached, Committed;
      if enabled == regions[mr].enabled {
        return;
      }
      ChangeLinked(regions, Op.SetEnabled(mr, enabled));
      Change(regions[mr := regions[mr].(enabled := enabled)], true);
    }

    method SetReadonly(mr: RegionId, readonly: bool)
      requires Valid() && Callable(View(), Op.SetReadonly(mr, readonly))
      modifies this
      ensures Valid() && old(Valid()) && Next(old(View()), Op.SetReadonly(mr, readonly), View())
      ensures var was := old(regions)[mr];
        if was.readonly == readonly then View() == old(View())
        else Performed(old(View()), old(regions)[mr := was.(readonly := readonly)], was.enabled, View())
    {
      hide Linked, Acyclic, Sorted, Closed, Attached, Detached, Committed;
      if regions[mr].readonly != readonly {
        ChangeLinked(regions, Op.SetReadonly(mr, readonly));
        Change(regions[mr := regions[mr].(readonly := readonly)], regions[mr].enabled);
      }
    }

    method SetReadable(mr: RegionId, readable: bool)
      requires Valid() && Callable(View(), Op.SetReadable(mr, readable))
      modifies this
      ensures Valid() && old(Valid()) && Next(old(View()), Op.SetReadable(mr, readable), View())
      ensures var was := old(regions)[mr];
        if was.readable == readable then View() == old(View())
        else Performed(old(View()), old(regions)[mr := was.(readable := readable)], was.enabled, View())
    {
      hide Linked, Acyclic, Sorted, Closed, Attached, Detached, Committed;
      if regions[mr].readable != readable {
        ChangeLinked(regions, Op.SetReadable(mr, readable));
        Change(regions[mr := regions[mr].(readable := readable)], regions[mr].enabled);
      }
    }

    method SetLog(mr: RegionId, log: bool, client: nat)
      requires Valid() && Callable(View(), Op.SetLog(mr, log, client))
      modifies this
      ensures Valid() && old(Valid()) && Next(old(View()), Op.SetLog(mr, log, client), View())
      ensures mr in regions
      ensures var was, now := old(regions)[mr], regions[mr];
        && now == was.(dirtyLogMask := now.dirtyLogMask)
        && (forall i: nat :: i < 8 ==>
          LogsFor(now.dirtyLogMask, i) == if i == client then log else LogsFor(was.dirtyLogMask, i))
        && Performed(old(View()), old(regions)[mr := now], was.enabled, View())
    {
      hide Linked, Acyclic, Sorted, Closed, Attached, Detached, Committed;
      ChangeLinked(regions, Op.SetLog(mr, log, client));
      LogMaskIs(regions[mr].dirtyLogMask, log, client);
      ghost var before := View();
      var updated := regions[mr := regions[mr].(dirtyLogMask := LogMask(regions[mr].dirtyLogMask, log, client))];
      Change(updated, regions[mr].enabled);
      CommittedRegions(Opened(before, updated, before.regions[mr].enabled), View());
    }

    method SetAliasOffset(mr: RegionId, offset: nat)
      requires Valid() && Callable(View(), Op.SetAliasOffset(mr, offset))
      modifies this
      ensures Valid() && old(Valid()) && Next(old(View()), Op.SetAliasOffset(mr, offset), View())
      ensures var was := old(regions)[mr];
        if was.aliasOffset == offset then View() == old(View())
        else Performed(old(View()), old(regions)[mr := was.(aliasOffset := offset)], was.enabled, View())
    {
      hide Linked, Acyclic, Sorted, Closed, Attached, Detached, Committed;
      if offset == regions[mr].aliasOffset {
        return;
      }
      ChangeLinked(regions, Op.SetAliasOffset(mr, offset));
      Change(regions[mr := regions[mr].(aliasOffset := offset)], regions[mr].enabled);
    }

    /** memory_region_set_address: nothing but the store when the region has no parent; otherwise it
        is taken out and put back, inside a transaction of its own. */
    method SetAddress(mr: RegionId, addr: nat)
      requires Valid() && Callable(View(), Op.SetAddress(mr, addr))
      modifies this
      ensures Valid() && old(Valid()) && Next(old(View()), Op.SetAddress(mr, addr), View())
      ensures var was := old(regions)[mr];
        if was.addr == addr || was.parent.None? then
          View() == old(View()).(regions := old(regions)[mr := was.(addr := addr)])
        else
          && was.parent.value in old(regions)
          && Performed(old(View()), regions, old(regions)[was.parent.value].enabled && was.enabled, View())
          && exists between ::
            && DetachedFrom(old(regions), between, was.parent.value, mr)
            && AttachedBy(between, regions, was.parent.value, addr, mr, was.mayOverlap,
                          if was.mayOverlap then was.priority else 0)
    {
      hide Linked, Acyclic, Sorted, Closed, Attached, Detached, Committed, Moved, AttachedBy, DetachedFrom;
      if addr == regions[mr].addr || regions[mr].parent.None? {
        ChangeLinked(regions, Op.SetAddress(mr, addr));
        regions := regions[mr := regions[mr].(addr := addr)];
        return;
      }
      ghost var before := View();
      var parent, priority, overlap := regions[mr].parent.value, regions[mr].priority, regions[mr].mayOverlap;
      MoveReady(before, mr, addr);
      TransactionBegin();
      DelSubregion(parent, mr);
      ghost var out := View();
      InnerDetach(before, mr, addr, out);
      if overlap {
        AddSubregionOverlap(parent, addr, mr, priority);
      } else {
        AddSubregion(parent, addr, mr);
      }
      InnerAttach(before, mr, addr, out, View());
      assert DetachedFrom(before.regions, out.regions, parent, mr);
      assert AttachedBy(out.regions, regions, parent, addr, mr, overlap, if overlap then priority else 0);
      ghost var put := View();
      TransactionCommit();
      CommittedRegions(put, View());
    }
  }

  lemma CommittedRegions(s: State, t: State)
    requires WellFormed(s) && 0 < s.depth && Committed(s, t)
    ensures t.regions == s.regions
  {
  }

  /** Inside a transaction, an operation changes the tree and the flag and nothing else. */
  lemma InnerChange(s: State, r: Store, p: bool, t: State)
    requires 0 < s.depth && WellFormed(Opened(s, r, p)) && Committed(Opened(s, r, p), t)
    ensures t == s.(regions := r, pending := s.pending || p)
  {
  }

  lemma MoveReady(s: State, mr: RegionId, addr: nat)
    requires WellFormed(s) && mr in s.regions && s.regions[mr].parent.Some?
    ensures var parent := s.regions[mr].parent.value;
      parent in s.regions && Callable(s.(depth := s.depth + 1), Op.DelSubregion(parent, mr))
  {
    ParentKnown(s.regions, mr);
  }

  ghost predicate Placing(s: State, mr: RegionId, addr: nat)
  {
    && WellFormed(s) && mr in s.regions && s.regions[mr].parent.Some? && s.regions[mr].parent.value in s.regions
    && addr != s.regions[mr].addr
  }

  /** The operation that puts the region back. */
  ghost function PutBack(s: State, mr: RegionId, addr: nat): Op
    requires Placing(s, mr, addr)
  {
    var r := s.regions[mr];
    if r.mayOverlap then Op.AddSubregionOverlap(r.parent.value, addr, mr, r.priority)
      else Op.AddSubregion(r.parent.value, addr, mr)
  }

  /** Both regions are enabled, so that moving one asks for an update. */
  ghost predicate MoveShows(s: State, mr: RegionId, addr: nat)
    requires Placing(s, mr, addr)
  {
    s.regions[s.regions[mr].parent.value].enabled && s.regions[mr].enabled
  }

  /** The state between taking the region out and putting it back. */
  ghost function TakenOut(s: State, mr: RegionId, addr: nat): State
    requires Placing(s, mr, addr)
  {
    s.(depth := s.depth + 1, regions := Detached(s.regions, s.regions[mr].parent.value, mr),
       pending := s.pending || MoveShows(s, mr, addr))
  }

  lemma TakenOutReady(s: State, mr: RegionId, addr: nat)
    requires Placing(s, mr, addr)
    ensures WellFormed(TakenOut(s, mr, addr)) && Callable(TakenOut(s, mr, addr), PutBack(s, mr, addr))
  {
    hide Linked, Acyclic, Sorted, Attached, Detached, Position;
    var parent := s.regions[mr].parent.value;
    ParentLink(s.regions, mr);
    ChangeLinked(s.regions, Op.DelSubregion(parent, mr));
    DetachedFields(s.regions, parent, mr);
    MovedLinked(s.regions, mr, addr);
  }

  lemma ParentLink(s: Store, mr: RegionId)
    requires Linked(s) && mr in s && s[mr].parent.Some?
    ensures Closed(s) && s[mr].parent.value in s && Allowed(s, Op.DelSubregion(s[mr].parent.value, mr))
  {
    ParentKnown(s, mr);
  }

  lemma InnerDetach(s: State, mr: RegionId, addr: nat, t: State)
    requires Placing(s, mr, addr) && Callable(s.(depth := s.depth + 1), Op.DelSubregion(s.regions[mr].parent.value, mr))
    requires Next(s.(depth := s.depth + 1), Op.DelSubregion(s.regions[mr].parent.value, mr), t)
    ensures t == TakenOut(s, mr, addr)
    ensures WellFormed(t) && Callable(t, PutBack(s, mr, addr))
  {
    hide Linked, Acyclic, Sorted, Attached, Detached, Committed, Allowed;
    var parent := s.regions[mr].parent.value;
    InnerChange(s.(depth := s.depth + 1), Detached(s.regions, parent, mr), MoveShows(s, mr, addr), t);
    TakenOutReady(s, mr, addr);
  }

  lemma InnerAttach(s: State, mr: RegionId, addr: nat, d: State, t: State)
    requires Placing(s, mr, addr) && d == TakenOut(s, mr, addr) && WellFormed(d)
    requires Callable(d, PutBack(s, mr, addr)) && Next(d, PutBack(s, mr, addr), t)
    ensures t == Opened(s, Moved(s.regions, mr, addr), MoveShows(s, mr, addr))
    ensures WellFormed(t)
  {
    hide Linked, Acyclic, Sorted, Attached, Detached, Committed, Allowed;
    var parent := s.regions[mr].parent.value;
    ParentLink(s.regions, mr);
    DetachedFields(s.regions, parent, mr);
    MovedLinked(s.regions, mr, addr);
    InnerChange(d, Moved(s.regions, mr, addr), MoveShows(s, mr, addr), t);
  }

  lemma LinkedIsClosed(s: Store)
    requires Linked(s)
    ensures Closed(s)
  {
  }

  /** The stores to the two regions, and the insertion by priority. */
  method InsertSubregion(s: Store, mr: RegionId, offset: nat, sub: RegionId, overlap: bool,
                         priority: nat) returns (t: Store)
    requires Closed(s) && mr in s && sub in s
    ensures t == Attached(s, mr, offset, sub, overlap, priority)
  {
    t := s[sub := s[sub].(mayOverlap := overlap, priority := priority, parent := Some(mr), addr := offset)];
    var k := FindPosition(t, t[mr].subregions, priority);
    t := t[mr := t[mr].(subregions := Inserted(t[mr].subregions, k, sub))];
  }

  /** The search for the first region the new one does not rank below. */
  method FindPosition(s: Store, subs: seq<RegionId>, priority: nat) returns (k: nat)
    requires forall c :: c in subs ==> c in s
    ensures k == Position(s, subs, priority)
  {
    k := 0;
    while k < |subs| && priority < s[subs[k]].priority
      invariant k <= |subs|
      invariant Position(s, subs, priority) == k + Position(s, subs[k..], priority)
    {
      k := k + 1;
    }
  }
}
