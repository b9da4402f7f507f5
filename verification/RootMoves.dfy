/** A silent change keeps the rendering unless it moves the root, and then only if there is nothing
    to render. */
module RootMoves {
  import opened FlatViews
  import opened MemoryRegions
  import opened RegionChanges
  import opened SilentChanges

  ghost predicate Silent(s: Store, op: Op)
    requires Linked(s) && Allowed(s, op)
  {
    Apply(s, op).Update? ==> !Apply(s, op).pending
  }

  /** The operation writes a different address into `root`. */
  ghost predicate MovesRoot(s: Store, op: Op, root: RegionId)
    requires root in s
  {
    match op
    case SetAddress(mr, addr) => mr == root && addr != s[root].addr
    case AddSubregion(_, offset, sub) => sub == root && offset != s[root].addr
    case AddSubregionOverlap(_, offset, sub, _) => sub == root && offset != s[root].addr
    case _ => false
  }

  /** The address it writes. */
  ghost function NewRootAddress(s: Store, op: Op, root: RegionId): nat
    requires root in s && MovesRoot(s, op, root)
  {
    match op
    case SetAddress(_, addr) => addr
    case AddSubregion(_, offset, _) => offset
    case AddSubregionOverlap(_, offset, _, _) => offset
  }

  ghost predicate SameRendering(s: Store, t: Store, root: RegionId)
    requires Acyclic(s) && Acyclic(t) && root in s && root in t
  {
    forall a :: OwnerIn(s, root, a) == OwnerIn(t, root, a)
  }

  ghost predicate RendersNothing(s: Store, root: RegionId)
    requires Acyclic(s) && root in s
  {
    forall a :: OwnerIn(s, root, a) == None
  }

  /** One ranking for the tree before and after. */
  lemma CommonRank(s: Store, op: Op) returns (rank: map<RegionId, nat>)
    requires Linked(s) && Acyclic(s) && Allowed(s, op)
    ensures Ranked(s, rank) && Ranked(Apply(s, op).s, rank)
  {
    hide Attached, Detached, LinkedAt, Moved, Ranked, Closed;
    match op
    case AddSubregion(mr, offset, sub) => rank := AttachedRank(s, mr, offset, sub, false, 0);
    case AddSubregionOverlap(mr, offset, sub, priority) => rank := AttachedRank(s, mr, offset, sub, true, priority);
    case DelSubregion(mr, sub) =>
      rank :| Ranked(s, rank);
      DetachedRanked(s, rank, mr, sub);
    case SetAddress(mr, addr) =>
      rank :| Ranked(s, rank);
      if addr != s[mr].addr && s[mr].parent.Some? {
        ParentKnown(s, mr);
        MovedRanked(s, rank, mr, addr);
      } else {
        FieldsRanked(s, Apply(s, op).s, rank);
      }
    case _ =>
      rank :| Ranked(s, rank);
      FieldsRanked(s, Apply(s, op).s, rank);
  }

  lemma AttachedRank(s: Store, mr: RegionId, offset: nat, sub: RegionId, overlap: bool, priority: nat)
    returns (rank: map<RegionId, nat>)
    requires Closed(s) && mr in s && sub in s && Acyclic(Attached(s, mr, offset, sub, overlap, priority))
    ensures Ranked(s, rank) && Ranked(Attached(s, mr, offset, sub, overlap, priority), rank)
  {
    hide Attached, Position, Inserted;
    AttachedFields(s, mr, offset, sub, overlap, priority);
    InsertedMembers(s[mr].subregions,
      Position(Adopted(s, mr, offset, sub, overlap, priority), s[mr].subregions, priority), sub);
    rank :| Ranked(Attached(s, mr, offset, sub, overlap, priority), rank);
  }

  /** The root where a silent change has put it. */
  lemma SilentOwners(s: Store, op: Op, rank: map<RegionId, nat>, root: RegionId, a: int)
    requires Linked(s) && Acyclic(s) && Allowed(s, op) && Silent(s, op) && root in s
    requires Ranked(s, rank) && Ranked(Apply(s, op).s, rank)
    ensures root in Apply(s, op).s
    ensures var t := Apply(s, op).s;
      Walk(t, rank, root, 0, false, a) == Walk(s, rank, root, t[root].addr - s[root].addr, false, a)
  {
    hide Apply, Walk;
    var t := Apply(s, op).s;
    SilentChangeAlike(s, op);
    WalkAlike(s, t, rank, root, t[root].addr - s[root].addr, 0, false, a);
  }

  lemma RootAddress(s: Store, op: Op, root: RegionId)
    requires Linked(s) && Acyclic(s) && Allowed(s, op) && root in s
    ensures root in Apply(s, op).s
    ensures Apply(s, op).s[root].addr != s[root].addr <==> MovesRoot(s, op, root)
    ensures MovesRoot(s, op, root) ==> Apply(s, op).s[root].addr == NewRootAddress(s, op, root)
  {
    hide Attached, Detached, LinkedAt, Moved, Closed, Ranked;
    match op
    case AddSubregion(mr, offset, sub) => AttachedAddress(s, mr, offset, sub, false, 0);
    case AddSubregionOverlap(mr, offset, sub, priority) => AttachedAddress(s, mr, offset, sub, true, priority);
    case DelSubregion(mr, sub) => DetachedAddress(s, mr, sub);
    case SetAddress(mr, addr) =>
      if addr != s[mr].addr && s[mr].parent.Some? {
        ParentKnown(s, mr);
        MovedAddress(s, mr, addr);
      }
    case _ =>
  }

  /** Operations that leave the update flag unset do not change the rendering, unless they move the
      root. */
  lemma SilentKeepsRendering(s: Store, op: Op, root: RegionId)
    requires Linked(s) && Acyclic(s) && Allowed(s, op) && Silent(s, op) && root in s && !MovesRoot(s, op, root)
    ensures Acyclic(Apply(s, op).s) && root in Apply(s, op).s && SameRendering(s, Apply(s, op).s, root)
  {
    hide Apply, Walk, Acyclic, MovesRoot, Linked, Allowed, Silent, Ranked, OwnerIn;
    var rank := CommonRank(s, op);
    var t := Apply(s, op).s;
    ChangeLinked(s, op);
    RootAddress(s, op, root);
    forall a ensures OwnerIn(s, root, a) == OwnerIn(t, root, a) {
      SilentOwners(s, op, rank, root, a);
      OwnerByRank(s, rank, root, a);
      OwnerByRank(t, rank, root, a);
    }
  }

  // When the root itself is moved.

  /** Placing a region elsewhere shifts what it shows. */
  lemma {:induction false} WalkShift(s: Store, rank: map<RegionId, nat>, mr: RegionId, base: int, readonly: bool,
                                     a: int, d: int)
    requires Ranked(s, rank) && mr in s
    ensures Walk(s, rank, mr, base + d, readonly, a + d) == Walk(s, rank, mr, base, readonly, a)
    decreases rank[mr], 1, 0
  {
    hide Walk, WalkList;
    WalkStep(s, rank, mr, base, readonly, a);
    WalkStep(s, rank, mr, base + d, readonly, a + d);
    if s[mr].enabled {
      var b, ro := base + s[mr].addr, readonly || s[mr].readonly;
      if s[mr].alias.Some? {
        var target := s[mr].alias.value;
        var inner := b - s[target].addr - s[mr].aliasOffset;
        WalkShift(s, rank, target, inner, ro, a, d);
        assert inner + d == b + d - s[target].addr - s[mr].aliasOffset;
      } else {
        WalkListShift(s, rank, rank[mr], s[mr].subregions, b, ro, a, d);
      }
      assert b + d == base + d + s[mr].addr;
    }
  }

  lemma {:induction false} WalkListShift(s: Store, rank: map<RegionId, nat>, bound: nat, subs: seq<RegionId>,
                                         base: int, readonly: bool, a: int, d: int)
    requires Ranked(s, rank) && BelowRank(s, rank, bound, subs)
    ensures WalkList(s, rank, bound, subs, base + d, readonly, a + d)
      == WalkList(s, rank, bound, subs, base, readonly, a)
    decreases bound, 0, |subs|
  {
    hide Walk;
    if subs != [] {
      WalkShift(s, rank, subs[0], base, readonly, a, d);
      WalkListShift(s, rank, bound, subs[1..], base, readonly, a, d);
    }
  }

  const LIMIT: int := 0x1_0000_0000_0000_0000

  /** A map and its copy moved up by `d` agree only when the map is empty. */
  lemma {:induction false} ShiftedMapsDiffer(low: int -> Option<Owner>, high: int -> Option<Owner>, d: nat, a: nat)
    requires 0 < d && a < LIMIT && low(a).Some?
    requires forall x :: 0 <= x < LIMIT ==> high(x) == if x < d then None else low(x - d)
    ensures exists x :: 0 <= x < LIMIT && low(x) != high(x)
    decreases a
  {
    if low(a) == high(a) {
      ShiftedMapsDiffer(low, high, d, a - d);
    }
  }

  /** What the root shows when it sits at `p`. */
  ghost function RootAt(s: Store, rank: map<RegionId, nat>, root: RegionId, p: int): int -> Option<Owner>
    requires Ranked(s, rank) && root in s
  {
    a => Walk(s, rank, root, p - s[root].addr, false, a)
  }

  lemma RootShift(s: Store, rank: map<RegionId, nat>, root: RegionId, p: nat, q: nat)
    requires Ranked(s, rank) && root in s && p <= q
    ensures forall x :: 0 <= x < LIMIT ==>
      RootAt(s, rank, root, q)(x) == if x < q - p then None else RootAt(s, rank, root, p)(x - (q - p))
  {
    forall x | 0 <= x < LIMIT
      ensures RootAt(s, rank, root, q)(x) == if x < q - p then None else RootAt(s, rank, root, p)(x - (q - p))
    {
      WalkShift(s, rank, root, p - s[root].addr, false, x - (q - p), q - p);
    }
  }

  /** Two placements of the root show the same exactly when the lower one shows nothing. */
  lemma PlacementsAgree(s: Store, rank: map<RegionId, nat>, root: RegionId, p: nat, q: nat)
    requires Ranked(s, rank) && root in s && p < q
    ensures (forall x :: 0 <= x < LIMIT ==> RootAt(s, rank, root, p)(x) == RootAt(s, rank, root, q)(x))
      <==> (forall x :: 0 <= x < LIMIT ==> RootAt(s, rank, root, p)(x).None?)
  {
    hide RootAt;
    var low, high := RootAt(s, rank, root, p), RootAt(s, rank, root, q);
    RootShift(s, rank, root, p, q);
    if x :| 0 <= x < LIMIT && low(x).Some? {
      ShiftedMapsDiffer(low, high, q - p, x);
    } else {
      forall x | 0 <= x < LIMIT ensures low(x) == high(x) {
        if q - p <= x { assert low(x - (q - p)).None?; }
      }
    }
  }

  /** With the root placed at `p`, no address has an owner. */
  ghost predicate ShowsNothingAt(s: Store, root: RegionId, p: nat)
    requires root in s
  {
    forall rank, x :: Ranked(s, rank) && 0 <= x < LIMIT ==> RootAt(s, rank, root, p)(x).None?
  }

  lemma ShowsNothingByRank(s: Store, rank: map<RegionId, nat>, root: RegionId, p: nat)
    requires Ranked(s, rank) && root in s
    ensures ShowsNothingAt(s, root, p) <==> forall x :: 0 <= x < LIMIT ==> RootAt(s, rank, root, p)(x).None?
  {
    hide Ranked, Walk;
    if forall x :: 0 <= x < LIMIT ==> RootAt(s, rank, root, p)(x).None? {
      forall other, x | Ranked(s, other) && 0 <= x < LIMIT ensures RootAt(s, other, root, p)(x).None? {
        WalkAnyRank(s, rank, other, root, p - s[root].addr, false, x);
        assert RootAt(s, rank, root, p)(x).None?;
      }
    }
  }

  /** A silent move of the root keeps the rendering exactly when the tree, placed at the lower of the old and
      the new address, shows nothing. */
  lemma SilentRootMove(s: Store, op: Op, root: RegionId)
    requires Linked(s) && Acyclic(s) && Allowed(s, op) && Silent(s, op) && root in s
    requires MovesRoot(s, op, root)
    ensures Acyclic(Apply(s, op).s) && root in Apply(s, op).s
    ensures var p, q := s[root].addr, NewRootAddress(s, op, root);
      SameRendering(s, Apply(s, op).s, root) <==> ShowsNothingAt(s, root, if p < q then p else q)
  {
    hide Apply, Walk, Acyclic, MovesRoot, NewRootAddress;
    var t := Apply(s, op).s;
    var rank := CommonRank(s, op);
    ChangeLinked(s, op);
    RootAddress(s, op, root);
    var p, q := s[root].addr, t[root].addr;
    forall a
      ensures OwnerIn(s, root, a) == if 0 <= a < LIMIT then RootAt(s, rank, root, p)(a) else None
      ensures OwnerIn(t, root, a) == if 0 <= a < LIMIT then RootAt(s, rank, root, q)(a) else None
    {
      SilentOwners(s, op, rank, root, a);
      OwnerByRank(s, rank, root, a);
      OwnerByRank(t, rank, root, a);
    }
    ShowsNothingByRank(s, rank, root, if p < q then p else q);
    hide RootAt, OwnerIn, ShowsNothingAt;
    if p < q { PlacementsAgree(s, rank, root, p, q); } else { PlacementsAgree(s, rank, root, q, p); }
  }
}
