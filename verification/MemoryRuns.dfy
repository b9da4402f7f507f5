/** What holds of the flat map in every run of the memory API. */
module MemoryRuns {
  import opened FlatViews
  import opened MemoryRegions
  import opened Topology
  import opened TopologyUpdate
  import opened RegionChanges
  import opened RootMoves
  import opened MemoryTransactions

  /** The flat map is the topology of the tree. */
  ghost predicate UpToDate(s: State)
    requires WellFormed(s)
  {
    IsTopology(s.regions, Some(s.root), s.flat)
  }

  /** A listener that has heard every callback holds exactly the flat map. */
  ghost predicate ListenersAgree(s: State) {
    var heard := Replay(map[], s.calls);
    heard.Some? && Holds(heard.value, s.flat)
  }

  /** Unless an update is pending, which it is only inside a transaction, the map is up to date. */
  ghost predicate Consistent(s: State) {
    && WellFormed(s)
    && (s.depth == 0 ==> !s.pending)
    && (!s.pending ==> UpToDate(s))
    && ListenersAgree(s)
  }

  /** The operation moves the root without asking for an update, and none is pending. */
  ghost predicate MovesRootUnnoticed(s: State, op: Op)
    requires WellFormed(s) && Callable(s, op)
  {
    !s.pending && Silent(s.regions, op) && MovesRoot(s.regions, op, s.root)
  }

  lemma StartConsistent(regions: Store, root: RegionId)
    requires Linked(regions) && Acyclic(regions) && root in regions && RendersNothing(regions, root)
    ensures Consistent(State(regions, root, 0, false, [], []))
  {
    assert Replay(map[], []) == Some(map[]);
  }

  /** A commit that regenerates the map, or leaves a pending update, keeps consistency. */
  lemma CommitKeeps(s: State, t: State)
    requires WellFormed(s) && 0 < s.depth && Committed(s, t)
    requires !s.pending ==> UpToDate(s)
    requires ListenersAgree(s)
    ensures Consistent(t)
  {
    hide Linked, Acyclic, Replay, Holds, Deletions, Additions, PairwiseDisjoint, Simplified, At;
    if t.depth == 0 && s.pending {
      var live := Replay(map[], s.calls).value;
      UpdateDelivers(s.flat, t.flat, live);
      ReplayAppend(map[], s.calls, Deletions(s.flat, t.flat) + Additions(s.flat, t.flat));
    }
  }

  lemma SameTopology(s: State, r: Store)
    requires WellFormed(s) && UpToDate(s) && Acyclic(r) && s.root in r && SameRendering(s.regions, r, s.root)
    ensures IsTopology(r, Some(s.root), s.flat)
  {
    hide OwnerIn, At, Acyclic;
  }

  /** An operation on the tree is a store, or a store inside a transaction of its own. */
  lemma NextChange(s: State, op: Op, t: State)
    requires WellFormed(s) && Callable(s, op) && Next(s, op, t) && !op.Begin? && !op.Commit?
    ensures var c := Apply(s.regions, op);
      if c.Plain? then t == s.(regions := c.s)
      else WellFormed(Opened(s, c.s, c.pending)) && Committed(Opened(s, c.s, c.pending), t)
  {
    hide Linked, Acyclic, Sorted, Apply, Allowed, Committed, Opened;
  }

  /** Every operation keeps the state consistent, except one that moves the root unnoticed. */
  lemma StepKeeps(s: State, op: Op, t: State)
    requires Consistent(s) && Callable(s, op) && Next(s, op, t) && !MovesRootUnnoticed(s, op)
    ensures Consistent(t)
  {
    hide Linked, Acyclic, Sorted, Apply, Allowed, IsTopology, MovesRoot, Committed, ListenersAgree;
    if op.Begin? {
      SameListeners(s, t);
    } else if op.Commit? {
      CommitKeeps(s, t);
    } else {
      var c := Apply(s.regions, op);
      NextChange(s, op, t);
      ChangeLinked(s.regions, op);
      if !s.pending && Silent(s.regions, op) {
        SilentKeepsRendering(s.regions, op, s.root);
        SameTopology(s, c.s);
      }
      if c.Update? {
        SameListeners(s, Opened(s, c.s, c.pending));
        CommitKeeps(Opened(s, c.s, c.pending), t);
      } else {
        SameListeners(s, t);
      }
    }
  }

  lemma SameListeners(s: State, t: State)
    requires t.flat == s.flat && t.calls == s.calls && ListenersAgree(s)
    ensures ListenersAgree(t)
  {
    hide Replay, Holds;
  }

  /** An unnoticed move of the root keeps the map up to date exactly when the tree as it was, placed at the
      lower of the two addresses, shows nothing. */
  lemma UnnoticedMove(s: State, op: Op, t: State)
    requires Consistent(s) && Callable(s, op) && Next(s, op, t) && MovesRootUnnoticed(s, op)
    ensures WellFormed(t) && t.regions == Apply(s.regions, op).s
    ensures var p, q := s.regions[s.root].addr, NewRootAddress(s.regions, op, s.root);
      Consistent(t) <==> ShowsNothingAt(s.regions, s.root, if p < q then p else q)
  {
    hide Linked, Acyclic, Sorted, Apply, Allowed, MovesRoot, ListenersAgree, At, OwnerIn, NewRootAddress;
    hide ShowsNothingAt;
    ChangeLinked(s.regions, op);
    SilentRootMove(s.regions, op, s.root);
    UnnoticedOnlyMoves(s, op, t);
    SameListeners(s, t);
    if UpToDate(t) { RenderingOfBoth(s, t); }
    if SameRendering(s.regions, t.regions, s.root) { SameTopology(s, t.regions); }
  }

  lemma UnnoticedOnlyMoves(s: State, op: Op, t: State)
    requires Consistent(s) && Callable(s, op) && Next(s, op, t) && MovesRootUnnoticed(s, op)
    ensures t == s.(regions := Apply(s.regions, op).s)
  {
    hide Linked, Acyclic, Sorted, Apply, Allowed, UpToDate, ListenersAgree;
    if !op.Begin? && !op.Commit? { NextChange(s, op, t); }
  }

  lemma RenderingOfBoth(s: State, t: State)
    requires WellFormed(s) && WellFormed(t) && UpToDate(s) && UpToDate(t) && t.flat == s.flat && t.root == s.root
    ensures SameRendering(s.regions, t.regions, s.root)
  {
    hide Linked, Acyclic, At, OwnerIn, Sorted, Simplified;
    forall a ensures OwnerIn(s.regions, s.root, a) == OwnerIn(t.regions, s.root, a) {
      assert At(s.flat, a) == OwnerUnder(s.regions, Some(s.root), a);
      assert At(t.flat, a) == OwnerUnder(t.regions, Some(s.root), a);
    }
  }

  /** A run: each operation is called as its contract asks, and none moves the root unnoticed. */
  ghost predicate Run(states: seq<State>, ops: seq<Op>) {
    && |states| == |ops| + 1
    && (forall i :: 0 <= i < |states| ==> WellFormed(states[i]))
    && (forall i :: 0 <= i < |ops| ==> Callable(states[i], ops[i]) && !MovesRootUnnoticed(states[i], ops[i]))
    && (forall i :: 0 <= i < |ops| ==> Next(states[i], ops[i], states[i + 1]))
  }

  /** In every run that starts with a root that shows nothing: whenever no transaction is open, no
      update is pending, the current map is the one array that a fresh rendering of the tree would
      give, and the listeners hold exactly its ranges. */
  lemma {:induction false} RunStaysConsistent(states: seq<State>, ops: seq<Op>, k: nat)
    requires Run(states, ops) && k < |states|
    requires var s := states[0];
      s == State(s.regions, s.root, 0, false, [], []) && RendersNothing(s.regions, s.root)
    ensures Consistent(states[k])
    ensures states[k].depth == 0 ==>
      && !states[k].pending
      && forall v :: IsTopology(states[k].regions, Some(states[k].root), v) ==> v == states[k].flat
  {
    hide Next, WellFormed, Callable, MovesRootUnnoticed;
    if k == 0 {
      RunStart(states, ops);
    } else {
      RunStaysConsistent(states, ops, k - 1);
      StepKeeps(states[k - 1], ops[k - 1], states[k]);
    }
    FlatIsOnly(states[k]);
  }

  lemma RunStart(states: seq<State>, ops: seq<Op>)
    requires Run(states, ops)
    requires var s := states[0];
      s == State(s.regions, s.root, 0, false, [], []) && RendersNothing(s.regions, s.root)
    ensures Consistent(states[0])
  {
    var s := states[0];
    assert WellFormed(s);
    StartConsistent(s.regions, s.root);
  }

  lemma FlatIsOnly(s: State)
    requires Consistent(s)
    ensures !s.pending ==> forall v :: IsTopology(s.regions, Some(s.root), v) ==> v == s.flat
  {
    if !s.pending {
      forall v | IsTopology(s.regions, Some(s.root), v) ensures v == s.flat {
        TopologyIsUnique(s.regions, Some(s.root), v, s.flat);
      }
    }
  }

  // A concrete case: a single page of memory as the root, moved up by a page with set_address.

  const PAGE: Region := Region(None, 0, 4096, true, true, true, false, 0, None, 0, [], 0, false)
  const PAGE_RANGE: FlatRange := FlatRange(0, 0, 0, 4096, 0, true, false)
  const BEFORE: State := State(map[0 := PAGE], 0, 0, false, [PAGE_RANGE], [RegionAdd(PAGE_RANGE)])
  const AFTER: State := BEFORE.(regions := map[0 := PAGE.(addr := 4096)])

  function PageOwner(addr: nat, a: int): Option<Owner> {
    if addr <= a < addr + 4096 then Some(Owner(0, a - addr, 0, true, false)) else None
  }

  lemma PageTree(s: Store, addr: nat)
    requires s == map[0 := PAGE.(addr := addr)] && addr <= 4096
    ensures Linked(s) && Acyclic(s)
    ensures forall a :: OwnerIn(s, 0, a) == PageOwner(addr, a)
  {
    var rank: map<RegionId, nat> := map[0 := 0];
    assert Ranked(s, rank);
    assert LinkedAt(s, 0);
    forall a ensures OwnerIn(s, 0, a) == PageOwner(addr, a) {
      OwnerByRank(s, rank, 0, a);
    }
  }

  lemma PageView()
    ensures Sorted([PAGE_RANGE]) && Simplified([PAGE_RANGE])
    ensures forall a :: At([PAGE_RANGE], a) == PageOwner(0, a)
    ensures ListenersAgree(BEFORE)
  {
    forall a ensures At([PAGE_RANGE], a) == PageOwner(0, a) {
      if 0 <= a < 4096 { AtIndex([PAGE_RANGE], 0, a); }
    }
    ReplayOne(map[], RegionAdd(PAGE_RANGE));
    assert [PAGE_RANGE][0] == PAGE_RANGE;
  }

  lemma PageConsistent()
    ensures Consistent(BEFORE)
  {
    hide Linked, Acyclic, OwnerIn, ListenersAgree, Simplified, Sorted, At, PageOwner;
    assert BEFORE.regions == map[0 := PAGE.(addr := 0)];
    PageTree(BEFORE.regions, 0);
    PageView();
  }

  lemma PageMoves()
    ensures WellFormed(BEFORE) && Callable(BEFORE, SetAddress(0, 4096)) && Next(BEFORE, SetAddress(0, 4096), AFTER)
  {
    hide Linked, Acyclic, Sorted;
    PageConsistent();
    LinkedIsClosed(BEFORE.regions);
  }

  /** The map is stale afterwards although no transaction is open and no update is pending. */
  lemma MovedRootGoesStale()
    ensures Consistent(BEFORE) && Callable(BEFORE, SetAddress(0, 4096)) && Next(BEFORE, SetAddress(0, 4096), AFTER)
    ensures AFTER.depth == 0 && !AFTER.pending && !Consistent(AFTER)
  {
    hide Linked, Acyclic, OwnerIn, ListenersAgree, Simplified, Sorted, At, Next;
    PageConsistent();
    PageMoves();
    PageTree(AFTER.regions, 4096);
    PageView();
    assert At(AFTER.flat, 0) != OwnerUnder(AFTER.regions, Some(0), 0);
  }
}
