/** From the region tree to the dispatch tables: what an access to a physical address reaches. */
module AddressResolution {
  import opened Words
  import opened FlatViews
  import opened MemoryRegions
  import opened Topology
  import opened TopologyUpdate
  import opened RegionChanges
  import opened RootMoves
  import opened MemoryTransactions
  import opened MemoryRuns
  import opened PhysPages
  import opened PhysUpdates
  import opened MemoryDispatch
  import opened MemoryListener

  /** The section a listener is given for a range of the map. */
  function SectionOf(r: FlatRange): Section {
    Section(Memory(r.mr), r.start, r.offsetInRegion, r.size, r.readonly)
  }

  /** The ranges for which the dispatch listener is called: it hears additions and nops alike. */
  function Heard(calls: seq<Event>): seq<FlatRange> {
    if calls == [] then []
    else
      var n := |calls| - 1;
      Heard(calls[..n]) + (if calls[n].RegionAdd? || calls[n].RegionNop? then [calls[n].r] else [])
  }

  lemma {:induction false} HeardAppend(a: seq<Event>, b: seq<Event>)
    ensures Heard(a + b) == Heard(a) + Heard(b)
    decreases |b|
  {
    if b == [] {
      assert a + b == a;
    } else {
      assert (a + b)[..|a + b| - 1] == a + b[..|b| - 1];
      HeardAppend(a, b[..|b| - 1]);
    }
  }

  lemma HeardOne(e: Event)
    ensures Heard([e]) == if e.RegionAdd? || e.RegionNop? then [e.r] else []
  {
    assert [e][..0] == [];
  }

  lemma {:induction false} DeletionsUnheard(was: seq<FlatRange>, now: seq<FlatRange>, i: nat)
    requires i <= |was|
    ensures Heard(Deletions(was[..i], now)) == []
  {
    hide Deletions, Occurs;
    if i == 0 {
      NothingMerged(was, now);
    } else {
      DeletionsUnheard(was, now, i - 1);
      DeletionsNext(was, now, i - 1);
      HeardAppend(Deletions(was[..i - 1], now), [RegionDel(was[i - 1])]);
      HeardOne(RegionDel(was[i - 1]));
    }
  }

  lemma CallsForHeard(was: seq<FlatRange>, r: FlatRange)
    ensures Heard(CallsFor(was, r)) == [r]
  {
    if Occurs(r, was) {
      var change := LogChange(Match(r, was), r);
      HeardOne(RegionNop(r));
      HeardAppend([RegionNop(r)], change);
      if change != [] { HeardOne(change[0]); }
    } else {
      HeardOne(RegionAdd(r));
    }
  }

  lemma {:induction false} AdditionsHeard(was: seq<FlatRange>, now: seq<FlatRange>, j: nat)
    requires j <= |now|
    ensures Heard(Additions(was, now[..j])) == now[..j]
  {
    hide Additions, CallsFor;
    if j == 0 {
      NothingMerged(was, now);
    } else {
      AdditionsHeard(was, now, j - 1);
      AdditionsNext(was, now, j - 1);
      HeardAppend(Additions(was, now[..j - 1]), CallsFor(was, now[j - 1]));
      CallsForHeard(was, now[j - 1]);
      assert now[..j] == now[..j - 1] + [now[j - 1]];
    }
  }

  /** The dispatch listener hears exactly the new map, in order, whatever the old one was. */
  lemma UpdateHeard(was: seq<FlatRange>, now: seq<FlatRange>)
    ensures Heard(Deletions(was, now) + Additions(was, now)) == now
  {
    HeardAppend(Deletions(was, now), Additions(was, now));
    DeletionsUnheard(was, now, |was|);
    AdditionsHeard(was, now, |now|);
    assert was[..|was|] == was && now[..|now|] == now;
  }

  /** The section found at `a` is right for `o`: the same region - or, for RAM reached through a
      sub-page, its stand-in - at the same offset; the unassigned section when nobody owns it. */
  ghost predicate Right(ram: set<RegionId>, r: Section, o: Option<Owner>, a: int) {
    match o
    case None => r == Dummy(UnassignedIo)
    case Some(w) =>
      && (r.mr == Memory(w.mr) || (r.mr == SubpageRamIo && w.mr in ram))
      && r.offsetInRegion + (a - r.offsetInSpace) == w.offset
      && r.readonly == w.readonly
  }

  /** Whether the page of `a` has been split. */
  ghost predicate OnSplitPage(d: Tables, a: nat)
    requires Sound(d) && a < Limit(d)
  {
    PageBelow(d.page, Pages(d), a);
    assert PageOk(d, PageNo(d.page, a));
    d.sections[PageAt(d, PageNo(d.page, a))].mr.SubpageIo?
  }

  /** The section found at `a` is exactly the one for `o`: RAM is found as its stand-in on split pages, and nowhere
      else is anything found but the region itself. */
  ghost predicate RightExactly(d: Tables, ram: set<RegionId>, o: Option<Owner>, a: nat)
    requires Sound(d) && a < Limit(d)
  {
    var r := Resolve(d, a);
    match o
    case None => r == Dummy(UnassignedIo)
    case Some(w) =>
      && r.mr == (if w.mr in ram && OnSplitPage(d, a) then SubpageRamIo else Memory(w.mr))
      && r.offsetInRegion + (a - r.offsetInSpace) == w.offset
      && r.readonly == w.readonly
  }

  lemma StandInExactly(d: Tables, ram: set<RegionId>, o: Option<Owner>, a: nat)
    requires Sound(d) && StandInsUsed(d, ram) && a < Limit(d) && Right(ram, Resolve(d, a), o, a)
    ensures RightExactly(d, ram, o, a)
  {
    PageBelow(d.page, Pages(d), a);
    var p, j := PageNo(d.page, a), ByteNo(d.page, a);
    assert PageOk(d, p);
    var m := d.sections[PageAt(d, p)].mr;
    if m.SubpageIo? {
      assert SubpageOk(d, m.subpage);
      assert LeadsPastRam(d.sections, d.subpages[m.subpage].subSection[j], ram);
    }
  }

  ghost predicate ShowsView(d: Tables, ram: set<RegionId>, v: seq<FlatRange>)
    requires Sound(d)
  {
    forall a: nat :: a < Limit(d) ==> Right(ram, Resolve(d, a), At(v, a), a)
  }

  lemma SortedPrefix(v: seq<FlatRange>, n: nat)
    requires Sorted(v) && n <= |v|
    ensures Sorted(v[..n])
  {
  }

  lemma AtPrefix(v: seq<FlatRange>, n: nat, a: int)
    requires Sorted(v) && n < |v|
    ensures At(v[..n + 1], a) == if v[n].Contains(a) then Some(v[n].OwnerOf(a)) else At(v[..n], a)
    ensures v[n].Contains(a) ==> At(v[..n], a) == None
  {
    SortedPrefix(v, n);
    SortedPrefix(v, n + 1);
    var found := Find(v[..n + 1], a);
    if found.Some? {
      var k := found.value;
      if k < n { AtIndex(v[..n], k, a); } else { AtNowhere(v[..n], a); }
    } else {
      assert v[..n + 1][n] == v[n];
      forall i | 0 <= i < n ensures !v[..n][i].Contains(a) {
        assert v[..n + 1][i] == v[..n][i];
      }
      AtNowhere(v[..n], a);
    }
  }

  lemma NextIsFree(d: Tables, ram: set<RegionId>, v: seq<FlatRange>, n: nat)
    requires Sound(d) && Sorted(v) && n < |v| && ShowsView(d, ram, v[..n])
    ensures Free(d, SectionOf(v[n]))
  {
    hide Sound, Resolve, Sorted, At;
    forall a: nat | a < Limit(d) && SectionOf(v[n]).Contains(a) ensures Resolve(d, a) == Dummy(UnassignedIo) {
      AtPrefix(v, n, a);
    }
  }

  lemma NextShowsView(d: Tables, d': Tables, ram: set<RegionId>, v: seq<FlatRange>, n: nat)
    requires Sound(d) && Sound(d') && Sorted(v) && n < |v| && ShowsView(d, ram, v[..n])
    requires Added(d, d', ram, SectionOf(v[n]))
    ensures ShowsView(d', ram, v[..n + 1])
  {
    hide Sound, Resolve, Sorted, At;
    forall a: nat | a < Limit(d') ensures Right(ram, Resolve(d', a), At(v[..n + 1], a), a) {
      AtPrefix(v, n, a);
    }
  }

  /** Calls of phys_page_set that entering a whole map can take. */
  function TotalCalls(page: nat, v: seq<FlatRange>): nat
    requires 0 < page && forall k :: 0 <= k < |v| ==> 0 < v[k].size
  {
    if v == [] then 0 else TotalCalls(page, v[..|v| - 1]) + Calls(page, SectionOf(v[|v| - 1]))
  }

  /** The map lies below the limit of the tables, and the counters of nodes and sections stay in range. */
  ghost predicate InTables(page: nat, fan: Fan, levels: nat, v: seq<FlatRange>)
    requires forall k :: 0 <= k < |v| ==> 0 < v[k].size
  {
    && 0 < page < TWO32
    && (forall k :: 0 <= k < |v| ==> v[k].End() <= Product(page, Span(fan, levels)))
    && Product(TotalCalls(page, v), 2 * levels) <= NIL
    && 4 + 3 * TotalCalls(page, v) <= SECTIONS
  }

  ghost predicate Fits(page: nat, fan: Fan, levels: nat, v: seq<FlatRange>) {
    && (forall k :: 0 <= k < |v| ==> 0 < v[k].size && 0 <= v[k].start && 0 <= v[k].offsetInRegion)
    && InTables(page, fan, levels, v)
  }

  lemma RoomForNext(page: nat, levels: nat, v: seq<FlatRange>, n: nat)
    requires 0 < page && (forall k :: 0 <= k < |v| ==> 0 < v[k].size) && n < |v|
    ensures TotalCalls(page, v[..n + 1]) == TotalCalls(page, v[..n]) + Calls(page, SectionOf(v[n]))
    ensures Product(TotalCalls(page, v[..n + 1]), 2 * levels)
      == Product(TotalCalls(page, v[..n]), 2 * levels) + Product(Calls(page, SectionOf(v[n])), 2 * levels)
    ensures TotalCalls(page, v[..n + 1]) <= TotalCalls(page, v)
    decreases |v|
  {
    assert v[..n + 1][..n] == v[..n];
    Distribute(TotalCalls(page, v[..n]), Calls(page, SectionOf(v[n])), 2 * levels);
    if n + 1 < |v| {
      RoomForNext(page, levels, v[..|v| - 1], n);
      assert v[..|v| - 1][..n + 1] == v[..n + 1];
    } else {
      assert v[..n + 1] == v;
    }
  }

  /** The dispatch listener during an update: begin, then every callback in order. Afterwards the
      tables answer for every address below their limit as the map does. */
  method HearUpdate(dispatch: Dispatch, calls: seq<Event>)
    requires Sound(dispatch.Now()) && Sorted(Heard(calls))
    requires Fits(dispatch.page, dispatch.table.fan, dispatch.table.levels, Heard(calls))
    modifies dispatch, dispatch.table
    ensures Sound(dispatch.Now()) && ShowsView(dispatch.Now(), dispatch.ram, Heard(calls))
    ensures StandInsUsed(dispatch.Now(), dispatch.ram)
  {
    hide Sound, ShowsView, At, Sorted, TotalCalls, Heard, Product, Added, Free, Calls, StandInsUsed;
    ghost var v, page, levels := Heard(calls), dispatch.page, dispatch.table.levels;
    BeginReady(dispatch.Now());
    dispatch.Begin();
    EmptyShown(dispatch.Now(), dispatch.ram);
    ghost var n := 0;
    var i := 0;
    NothingHeard(calls, page);
    while i < |calls|
      invariant i <= |calls| && n <= |v| && Heard(calls[..i]) == v[..n]
      invariant Sound(dispatch.Now()) && ShowsView(dispatch.Now(), dispatch.ram, v[..n])
      invariant StandInsUsed(dispatch.Now(), dispatch.ram)
      invariant dispatch.table.nodesNb <= Product(TotalCalls(page, v[..n]), 2 * levels)
      invariant |dispatch.sections| <= 4 + 3 * TotalCalls(page, v[..n])
    {
      HeardNext(calls, i);
      if calls[i].RegionAdd? || calls[i].RegionNop? {
        ghost var d := dispatch.Now();
        HeardIs(calls, i, n);
        RoomForNext(page, levels, v, n);
        MulMono(TotalCalls(page, v[..n + 1]), TotalCalls(page, v), 2 * levels);
        NextIsFree(d, dispatch.ram, v, n);
        ProductIs(TotalCalls(page, v[..n + 1]), TotalCalls(page, v), 2 * levels);
        dispatch.MemAdd(SectionOf(calls[i].r));
        NextShowsView(d, dispatch.Now(), dispatch.ram, v, n);
        n := n + 1;
      }
      i := i + 1;
    }
    assert calls[..i] == calls;
    AllHeard(calls, v, n);
  }

  lemma BeginReady(d: Tables)
    requires Sound(d)
    ensures 0 < d.page && 0 < d.levels && Formed(d.pages, d.fan)
    ensures Tree(d.pages.nodes, d.pages.used, d.fan, d.root, d.levels) && !d.root.leaf
  {
  }

  lemma EmptyShown(d: Tables, ram: set<RegionId>)
    requires Sound(d) && forall a: nat :: a < Limit(d) ==> Resolve(d, a) == Dummy(UnassignedIo)
    ensures ShowsView(d, ram, [])
  {
  }

  lemma NothingHeard(calls: seq<Event>, page: nat)
    requires 0 < page
    ensures Heard(calls[..0]) == [] && TotalCalls(page, []) == 0 && forall k: nat :: Product(0, k) == 0
  {
  }

  lemma HeardNext(calls: seq<Event>, i: nat)
    requires i < |calls|
    ensures Heard(calls[..i + 1])
      == Heard(calls[..i]) + (if calls[i].RegionAdd? || calls[i].RegionNop? then [calls[i].r] else [])
  {
    assert calls[..i + 1][..i] == calls[..i];
  }

  /** What is heard next is the next range. */
  lemma HeardIs(calls: seq<Event>, i: nat, n: nat)
    requires i < |calls| && n <= |Heard(calls)| && Heard(calls[..i]) == Heard(calls)[..n]
    requires calls[i].RegionAdd? || calls[i].RegionNop?
    ensures n < |Heard(calls)| && Heard(calls)[n] == calls[i].r
    ensures Heard(calls)[..n + 1] == Heard(calls)[..n] + [calls[i].r]
  {
    HeardNext(calls, i);
    HeardAppend(calls[..i + 1], calls[i + 1..]);
    assert calls[..i + 1] + calls[i + 1..] == calls;
  }

  lemma AllHeard(calls: seq<Event>, v: seq<FlatRange>, n: nat)
    requires n <= |v| && Heard(calls) == v && Heard(calls) == v[..n]
    ensures v[..n] == v
  {
  }

  lemma ProductIs(x: nat, y: nat, k: nat)
    requires x <= y
    ensures Product(x, k) <= Product(y, k)
  {
    MulMono(x, y, k);
  }

  /** The whole chain at rest: the flat map is up to date, and the tables show it. */
  ghost predicate AtRest(s: State, d: Tables, ram: set<RegionId>) {
    Consistent(s) && Sound(d) && ShowsView(d, ram, s.flat) && StandInsUsed(d, ram)
  }

  /** Whenever no update is pending, an access to a physical address reaches the region, and the offset
      in it, that walking the region tree finds; an address nobody owns reaches the unassigned section. */
  lemma AccessReachesOwner(s: State, d: Tables, ram: set<RegionId>, a: nat)
    requires AtRest(s, d, ram) && !s.pending && a < Limit(d)
    ensures RightExactly(d, ram, OwnerIn(s.regions, s.root, a), a)
  {
    hide Sound, Resolve, OwnerIn, At, Right, RightExactly, StandInsUsed;
    assert At(s.flat, a) == OwnerUnder(s.regions, Some(s.root), a);
    StandInExactly(d, ram, OwnerIn(s.regions, s.root, a), a);
  }

  lemma AllReachOwners(s: State, d: Tables, ram: set<RegionId>)
    requires AtRest(s, d, ram) && !s.pending
    ensures forall a: nat :: a < Limit(d) ==> RightExactly(d, ram, OwnerIn(s.regions, s.root, a), a)
  {
    hide Sound, Resolve, OwnerIn, RightExactly, ShowsView, StandInsUsed;
    forall a: nat | a < Limit(d) ensures RightExactly(d, ram, OwnerIn(s.regions, s.root, a), a) {
      AccessReachesOwner(s, d, ram, a);
    }
  }

  /** Ranges of a topology start at or above zero, and so do their offsets. */
  lemma TopologyInBounds(s: Store, root: RegionId, v: seq<FlatRange>, k: nat)
    requires RootedIn(s, Some(root)) && IsTopology(s, Some(root), v) && k < |v|
    ensures 0 < v[k].size && 0 <= v[k].start && 0 <= v[k].offsetInRegion && v[k].End() <= LIMIT64
    ensures v[k].mr in s && s[v[k].mr].terminates && v[k].offsetInRegion + v[k].size <= s[v[k].mr].size
  {
    var first, last := v[k].start, v[k].End() - 1;
    AtIndex(v, k, first);
    AtIndex(v, k, last);
    assert At(v, first) == OwnerUnder(s, Some(root), first) && At(v, last) == OwnerUnder(s, Some(root), last);
    var rank :| Ranked(s, rank);
    OwnerByRank(s, rank, root, first);
    OwnerByRank(s, rank, root, last);
    WalkInside(s, rank, root, 0, false, first);
    WalkInside(s, rank, root, 0, false, last);
  }

  const LIMIT64: int := 0x1_0000_0000_0000_0000

  /** The tables are large enough for the map of the tree, of which there is only one. */
  ghost predicate Roomy(s: State, dispatch: Dispatch)
    reads dispatch, dispatch.table
    requires WellFormed(s)
  {
    forall v :: IsTopology(s.regions, Some(s.root), v) ==>
      InTables(dispatch.page, dispatch.table.fan, dispatch.table.levels, v)
  }

  lemma TopologyFits(s: Store, root: RegionId, v: seq<FlatRange>, page: nat, fan: Fan, levels: nat)
    requires RootedIn(s, Some(root)) && IsTopology(s, Some(root), v) && InTables(page, fan, levels, v)
    ensures Fits(page, fan, levels, v)
  {
    hide InTables, IsTopology, RootedIn;
    forall k | 0 <= k < |v| ensures 0 < v[k].size && 0 <= v[k].start && 0 <= v[k].offsetInRegion {
      TopologyInBounds(s, root, v, k);
    }
  }

  /** A commit together with what the dispatch listener makes of it. */
  method CommitAndDispatch(memory: Memory, dispatch: Dispatch)
    requires memory.Valid() && 0 < memory.depth
    requires (!memory.pending ==> AtRest(memory.View(), dispatch.Now(), dispatch.ram))
    requires ListenersAgree(memory.View()) && Sound(dispatch.Now()) && Roomy(memory.View(), dispatch)
    requires !memory.pending ==> UpToDate(memory.View())
    modifies memory, dispatch, dispatch.table
    ensures memory.Valid() && old(memory.Valid()) && Committed(old(memory.View()), memory.View())
    ensures memory.depth == 0 ==> AtRest(memory.View(), dispatch.Now(), dispatch.ram) && !memory.pending
    ensures memory.depth == 0 ==> forall a: nat :: a < Limit(dispatch.Now()) ==>
      RightExactly(dispatch.Now(), dispatch.ram, OwnerIn(memory.regions, memory.root, a), a)
  {
    hide Sound, ShowsView, At, Sorted, Heard, Linked, Acyclic, IsTopology, ListenersAgree, Deletions, Additions;
    hide RightExactly, Resolve, OwnerIn, StandInsUsed;
    ghost var before := memory.View();
    var fires, heard := memory.depth == 1 && memory.pending, |memory.calls|;
    memory.TransactionCommit();
    CommitKeeps(before, memory.View());
    if fires {
      var calls := memory.calls[heard..];
      assert calls == Deletions(before.flat, memory.View().flat) + Additions(before.flat, memory.View().flat);
      UpdateHeard(before.flat, memory.View().flat);
      assert Sorted(memory.View().flat);
      TopologyFits(memory.regions, memory.root, memory.View().flat, dispatch.page, dispatch.table.fan,
        dispatch.table.levels);
      HearUpdate(dispatch, calls);
    }
    if memory.depth == 0 { AllReachOwners(memory.View(), dispatch.Now(), dispatch.ram); }
  }

  // Runs of operations with the dispatch listener attached.

  /** The operation ends with an outermost commit while an update is pending. */
  ghost predicate Fires(s: State, op: Op)
    requires WellFormed(s) && Callable(s, op)
  {
    match op
    case Begin => false
    case Commit => s.depth == 1 && s.pending
    case _ =>
      match Apply(s.regions, op)
      case Plain(_) => false
      case Update(_, pending) => s.depth == 0 && (s.pending || pending)
  }

  /** The part of the dispatch listener in a step: it does nothing, or what HearUpdate promises for the new
      callbacks. */
  ghost predicate Dispatched(s: State, op: Op, t: State, d: Tables, d': Tables, ram: set<RegionId>)
    requires WellFormed(s) && Callable(s, op)
  {
    if Fires(s, op) then
      && |s.calls| <= |t.calls| && Sound(d') && ShowsView(d', ram, Heard(t.calls[|s.calls|..]))
      && StandInsUsed(d', ram)
    else d' == d
  }

  /** A step that does not fire leaves the map alone; one that does reports the change from it. */
  lemma StepReports(s: State, op: Op, t: State)
    requires WellFormed(s) && Callable(s, op) && Next(s, op, t)
    ensures !Fires(s, op) ==> t.flat == s.flat
    ensures Fires(s, op) ==> t.calls == s.calls + (Deletions(s.flat, t.flat) + Additions(s.flat, t.flat))
  {
    hide WellFormed, Allowed, Apply, IsTopology, Deletions, Additions;
  }

  lemma StepKeepsTables(s: State, op: Op, t: State, d: Tables, d': Tables, ram: set<RegionId>)
    requires AtRest(s, d, ram) && Callable(s, op) && Next(s, op, t) && !MovesRootUnnoticed(s, op)
    requires Dispatched(s, op, t, d, d', ram)
    ensures AtRest(t, d', ram)
  {
    hide Sound, ShowsView, StandInsUsed, Next, Callable, Fires, WellFormed, MovesRootUnnoticed, Heard, Deletions;
    hide Additions;
    assert Consistent(s);
    StepKeeps(s, op, t);
    StepReports(s, op, t);
    hide Consistent;
    if Fires(s, op) {
      UpdateHeard(s.flat, t.flat);
      assert t.calls[|s.calls|..] == Deletions(s.flat, t.flat) + Additions(s.flat, t.flat);
    }
  }

  ghost predicate DispatchRun(states: seq<State>, ops: seq<Op>, tables: seq<Tables>, ram: set<RegionId>) {
    && Run(states, ops) && |tables| == |states|
    && forall i :: 0 <= i < |ops| ==> Dispatched(states[i], ops[i], states[i + 1], tables[i], tables[i + 1], ram)
  }

  /** In every run from a root that shows nothing and tables that show nothing: whenever no update is pending,
      so whenever no transaction is open, every access reaches the region, and the offset in it, that walking
      the tree finds. */
  lemma {:induction false} RunReachesOwner(states: seq<State>, ops: seq<Op>, tables: seq<Tables>, ram: set<RegionId>,
                                           k: nat)
    requires DispatchRun(states, ops, tables, ram) && k < |states|
    requires var s := states[0];
      s == State(s.regions, s.root, 0, false, [], []) && RendersNothing(s.regions, s.root)
    requires Sound(tables[0]) && ShowsView(tables[0], ram, []) && StandInsUsed(tables[0], ram)
    ensures AtRest(states[k], tables[k], ram) && (states[k].depth == 0 ==> !states[k].pending)
    ensures !states[k].pending ==> forall a: nat :: a < Limit(tables[k]) ==>
      RightExactly(tables[k], ram, OwnerIn(states[k].regions, states[k].root, a), a)
    decreases k
  {
    hide Next, WellFormed, Callable, MovesRootUnnoticed, Dispatched, Sound, ShowsView, Resolve, OwnerIn;
    hide RightExactly, StandInsUsed;
    if k == 0 {
      RunStaysConsistent(states, ops, 0);
    } else {
      RunReachesOwner(states, ops, tables, ram, k - 1);
      StepKeepsTables(states[k - 1], ops[k - 1], states[k], tables[k - 1], tables[k], ram);
    }
    if !states[k].pending { AllReachOwners(states[k], tables[k], ram); }
  }
}
