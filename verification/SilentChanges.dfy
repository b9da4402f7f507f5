/** Changes that ask for no update do not change what is rendered. */
module SilentChanges {
  import opened FlatViews
  import opened MemoryRegions
  import opened RegionChanges

  ghost function EnabledIn(s: Store): set<RegionId> {
    set id | id in s && s[id].enabled
  }

  ghost function Only(on: set<RegionId>, subs: seq<RegionId>): seq<RegionId> {
    if subs == [] then []
    else (if subs[0] in on then [subs[0]] else []) + Only(on, subs[1..])
  }

  /** The regions an enabled region lists and shows. */
  ghost function Listed(s: Store, p: RegionId): seq<RegionId>
    requires p in s
  {
    Only(EnabledIn(s), s[p].subregions)
  }

  /** Two trees that differ only where rendering does not look: in disabled regions, in disabled
      entries of subregion lists, and in the address of regions that no enabled region lists. */
  ghost predicate Alike(s: Store, t: Store) {
    t.Keys == s.Keys && forall p {:trigger AlikeAt(s, t, p)} :: p in s ==> AlikeAt(s, t, p)
  }

  ghost predicate AlikeAt(s: Store, t: Store, p: RegionId)
    requires t.Keys == s.Keys && p in s
  {
    && s[p].enabled == t[p].enabled
    && (s[p].enabled ==>
      && SameFields(s[p], t[p])
      && Listed(s, p) == Listed(t, p)
      && SamePlaces(s, t, Listed(s, p)))
  }

  ghost predicate SameFields(r: Region, q: Region) {
    && r.size == q.size && r.terminates == q.terminates
    && r.readable == q.readable && r.readonly == q.readonly && r.dirtyLogMask == q.dirtyLogMask
    && r.alias == q.alias && r.aliasOffset == q.aliasOffset
  }

  ghost predicate SamePlaces(s: Store, t: Store, subs: seq<RegionId>) {
    forall c :: c in subs ==> c in s && c in t && s[c].addr == t[c].addr
  }

  /** Disabled entries do not matter. */
  lemma {:induction false} WalkListOnly(s: Store, rank: map<RegionId, nat>, bound: nat, subs: seq<RegionId>,
                                        base: int, readonly: bool, a: int)
    requires Ranked(s, rank) && BelowRank(s, rank, bound, subs)
    ensures BelowRank(s, rank, bound, Only(EnabledIn(s), subs))
    ensures WalkList(s, rank, bound, subs, base, readonly, a)
      == WalkList(s, rank, bound, Only(EnabledIn(s), subs), base, readonly, a)
    decreases |subs|
  {
    if subs != [] {
      WalkListOnly(s, rank, bound, subs[1..], base, readonly, a);
      if s[subs[0]].enabled {
        assert Only(EnabledIn(s), subs)[1..] == Only(EnabledIn(s), subs[1..]);
      } else {
        assert Only(EnabledIn(s), subs) == Only(EnabledIn(s), subs[1..]);
      }
    }
  }

  /** One step of the walk, in terms of what the region itself says. */
  function Resolve(r: Region, p: RegionId, b: int, readonly: bool, a: int, below: Option<Owner>): Option<Owner> {
    if !(b <= a < b + r.size) then None
    else if below.Some? then below
    else if r.alias.None? && r.terminates then Some(Owner(p, a - b, r.dirtyLogMask, r.readable, readonly))
    else None
  }

  /** What shows through a region placed at `b`: its alias, or its subregions. */
  ghost function Below(s: Store, rank: map<RegionId, nat>, p: RegionId, b: int, readonly: bool, a: int): Option<Owner>
    requires Ranked(s, rank) && p in s
  {
    if s[p].alias.Some? then
      Walk(s, rank, s[p].alias.value, b - s[s[p].alias.value].addr - s[p].aliasOffset, readonly, a)
    else
      WalkList(s, rank, rank[p], s[p].subregions, b, readonly, a)
  }

  lemma WalkStep(s: Store, rank: map<RegionId, nat>, p: RegionId, base: int, readonly: bool, a: int)
    requires Ranked(s, rank) && p in s
    ensures Walk(s, rank, p, base, readonly, a)
      == if s[p].enabled then
           Resolve(s[p], p, base + s[p].addr, readonly || s[p].readonly, a,
                   Below(s, rank, p, base + s[p].addr, readonly || s[p].readonly, a))
         else None
  {
    hide WalkList;
  }

  lemma ResolveSame(r: Region, q: Region, p: RegionId, b: int, readonly: bool, a: int, below: Option<Owner>)
    requires SameFields(r, q)
    ensures Resolve(r, p, b, readonly, a, below) == Resolve(q, p, b, readonly, a, below)
  {
  }

  /** Alike trees resolve every address alike below regions placed at the same address. */
  lemma {:induction false} WalkAlike(s: Store, t: Store, rank: map<RegionId, nat>, p: RegionId,
                                     sBase: int, tBase: int, readonly: bool, a: int)
    requires Ranked(s, rank) && Ranked(t, rank) && Alike(s, t) && p in s
    requires sBase + s[p].addr == tBase + t[p].addr
    ensures Walk(s, rank, p, sBase, readonly, a) == Walk(t, rank, p, tBase, readonly, a)
    decreases rank[p], 2, 0
  {
    hide Walk, Below, Resolve, Listed, SamePlaces;
    assert AlikeAt(s, t, p);
    WalkStep(s, rank, p, sBase, readonly, a);
    WalkStep(t, rank, p, tBase, readonly, a);
    if s[p].enabled {
      var b, ro := sBase + s[p].addr, readonly || s[p].readonly;
      BelowAlike(s, t, rank, p, b, ro, a);
      ResolveSame(s[p], t[p], p, b, ro, a, Below(s, rank, p, b, ro, a));
    }
  }

  lemma {:induction false} BelowAlike(s: Store, t: Store, rank: map<RegionId, nat>, p: RegionId, b: int,
                                      readonly: bool, a: int)
    requires Ranked(s, rank) && Ranked(t, rank) && Alike(s, t) && p in s && s[p].enabled
    ensures Below(s, rank, p, b, readonly, a) == Below(t, rank, p, b, readonly, a)
    decreases rank[p], 1, 0
  {
    hide Walk, WalkList, SamePlaces, EnabledIn, Only;
    assert AlikeAt(s, t, p);
    if s[p].alias.Some? {
      var target := s[p].alias.value;
      WalkAlike(s, t, rank, target, b - s[target].addr - s[p].aliasOffset, b - t[target].addr - t[p].aliasOffset,
        readonly, a);
    } else {
      WalkListOnly(s, rank, rank[p], s[p].subregions, b, readonly, a);
      WalkListOnly(t, rank, rank[p], t[p].subregions, b, readonly, a);
      WalkListAlike(s, t, rank, rank[p], Listed(s, p), b, readonly, a);
    }
  }

  lemma {:induction false} WalkListAlike(s: Store, t: Store, rank: map<RegionId, nat>, bound: nat, subs: seq<RegionId>,
                                         base: int, readonly: bool, a: int)
    requires Ranked(s, rank) && Ranked(t, rank) && Alike(s, t)
    requires BelowRank(s, rank, bound, subs) && BelowRank(t, rank, bound, subs) && SamePlaces(s, t, subs)
    ensures WalkList(s, rank, bound, subs, base, readonly, a) == WalkList(t, rank, bound, subs, base, readonly, a)
    decreases bound, 0, |subs|
  {
    hide Walk, Alike;
    if subs != [] {
      WalkAlike(s, t, rank, subs[0], base, base, readonly, a);
      WalkListAlike(s, t, rank, bound, subs[1..], base, readonly, a);
    }
  }

  lemma {:induction false} OnlyMembers(on: set<RegionId>, subs: seq<RegionId>)
    ensures forall c :: c in Only(on, subs) ==> c in subs && c in on
  {
    if subs != [] { OnlyMembers(on, subs[1..]); }
  }

  lemma OnlyFirst(on: set<RegionId>, subs: seq<RegionId>)
    requires subs != []
    ensures Only(on, subs) == (if subs[0] in on then [subs[0]] else []) + Only(on, subs[1..])
  {
  }

  lemma {:induction false} OnlyAppend(on: set<RegionId>, a: seq<RegionId>, b: seq<RegionId>)
    ensures Only(on, a + b) == Only(on, a) + Only(on, b)
    decreases |a|
  {
    if a == [] {
      assert a + b == b;
    } else {
      assert (a + b)[1..] == a[1..] + b;
      OnlyAppend(on, a[1..], b);
      OnlyFirst(on, a);
      OnlyFirst(on, a + b);
      hide Only;
      var first := if a[0] in on then [a[0]] else [];
      assert first + (Only(on, a[1..]) + Only(on, b)) == (first + Only(on, a[1..])) + Only(on, b);
    }
  }

  lemma OnlyInserted(on: set<RegionId>, subs: seq<RegionId>, k: nat, c: RegionId)
    requires k <= |subs| && c !in on
    ensures Only(on, Inserted(subs, k, c)) == Only(on, subs)
  {
    var front, back := subs[..k], subs[k..];
    assert Only(on, [c]) == [] by { OnlyMembers(on, [c]); }
    OnlyAppend(on, front + [c], back);
    OnlyAppend(on, front, [c]);
    OnlyAppend(on, front, back);
    assert subs == front + back;
    assert Only(on, front) + [] == Only(on, front);
  }

  lemma {:induction false} OnlyWithout(on: set<RegionId>, subs: seq<RegionId>, c: RegionId)
    requires c !in on
    ensures Only(on, Without(subs, c)) == Only(on, subs)
  {
    if subs != [] {
      OnlyWithout(on, subs[1..], c);
      var rest := Without(subs[1..], c);
      if subs[0] == c {
        assert Without(subs, c) == rest;
        assert Only(on, subs) == Only(on, subs[1..]);
      } else {
        assert Without(subs, c) == [subs[0]] + rest;
        assert Without(subs, c)[1..] == rest;
      }
    }
  }

  /** A listed region is enabled, and its parent is the region that lists it. */
  lemma ListedParent(s: Store, p: RegionId)
    requires Linked(s) && p in s
    ensures forall c :: c in Listed(s, p) ==> c in s && s[c].enabled && s[c].parent == Some(p)
  {
    assert LinkedAt(s, p);
    OnlyMembers(EnabledIn(s), s[p].subregions);
  }

  lemma AlikeThrough(s: Store, t: Store, u: Store)
    requires Alike(s, t) && Alike(t, u)
    ensures Alike(s, u)
  {
    hide Listed;
    forall p | p in s ensures AlikeAt(s, u, p) {
      assert AlikeAt(s, t, p) && AlikeAt(t, u, p);
    }
  }

  /** Other fields of a region that is not enabled, or the address of one that has no parent. */
  lemma FieldChangeAlike(s: Store, mr: RegionId, r: Region)
    requires Linked(s) && mr in s && r.enabled == s[mr].enabled && r.subregions == s[mr].subregions
    requires s[mr].enabled ==> SameFields(r, s[mr])
    requires s[mr].parent.Some? ==> r.addr == s[mr].addr
    ensures Alike(s, s[mr := r])
  {
    var t := s[mr := r];
    assert EnabledIn(t) == EnabledIn(s);
    forall p | p in s ensures AlikeAt(s, t, p) {
      ListedParent(s, p);
    }
  }

  /** Changing the list of a region only by a disabled entry, and the address only of that entry. */
  lemma ListChangeAlike(s: Store, t: Store, mr: RegionId, sub: RegionId, p: RegionId)
    requires Linked(s) && mr in s && sub in s && p in s && t.Keys == s.Keys
    requires forall q :: q in s ==> s[q].enabled == t[q].enabled
    requires SameFields(s[p], t[p])
    requires p != mr ==> t[p].subregions == s[p].subregions
    requires s[mr].enabled ==> Only(EnabledIn(s), t[mr].subregions) == Only(EnabledIn(s), s[mr].subregions)
    requires forall q :: q in s && q != sub ==> t[q].addr == s[q].addr
    requires t[sub].addr == s[sub].addr || s[sub].parent.None?
    ensures AlikeAt(s, t, p)
  {
    hide Only;
    assert EnabledIn(t) == EnabledIn(s);
    ListedParent(s, p);
  }

  lemma DetachedAlike(s: Store, mr: RegionId, sub: RegionId)
    requires Linked(s) && mr in s && sub in s && s[sub].parent == Some(mr)
    requires !(s[mr].enabled && s[sub].enabled)
    ensures Alike(s, Detached(s, mr, sub))
  {
    hide Detached, Without, AlikeAt, LinkedAt, Closed, Only;
    var t := Detached(s, mr, sub);
    DetachedFields(s, mr, sub);
    if s[mr].enabled { OnlyWithout(EnabledIn(s), s[mr].subregions, sub); }
    forall p | p in s ensures AlikeAt(s, t, p) {
      ListChangeAlike(s, t, mr, sub, p);
    }
  }

  lemma AttachedAlike(s: Store, mr: RegionId, offset: nat, sub: RegionId, overlap: bool, priority: nat)
    requires Linked(s) && mr in s && sub in s && s[sub].parent.None?
    requires !(s[mr].enabled && s[sub].enabled)
    ensures Alike(s, Attached(s, mr, offset, sub, overlap, priority))
  {
    hide Attached, Inserted, Position, AlikeAt, LinkedAt, Only;
    var a, t := Adopted(s, mr, offset, sub, overlap, priority), Attached(s, mr, offset, sub, overlap, priority);
    AttachedFields(s, mr, offset, sub, overlap, priority);
    if s[mr].enabled { OnlyInserted(EnabledIn(s), s[mr].subregions, Position(a, s[mr].subregions, priority), sub); }
    forall p | p in s ensures AlikeAt(s, t, p) {
      ListChangeAlike(s, t, mr, sub, p);
    }
  }

  /** An operation that leaves the update flag alone changes only what rendering does not look at. */
  lemma SilentChangeAlike(s: Store, op: Op)
    requires Linked(s) && Acyclic(s) && Allowed(s, op)
    requires Apply(s, op).Update? ==> !Apply(s, op).pending
    ensures Alike(s, Apply(s, op).s)
  {
    hide Attached, Detached, Alike, LinkedAt, Acyclic;
    match op
    case Begin => SelfAlike(s);
    case Commit => SelfAlike(s);
    case AddSubregion(mr, offset, sub) => AttachedAlike(s, mr, offset, sub, false, 0);
    case AddSubregionOverlap(mr, offset, sub, priority) => AttachedAlike(s, mr, offset, sub, true, priority);
    case DelSubregion(mr, sub) => DetachedAlike(s, mr, sub);
    case SetEnabled(mr, enabled) => SelfAlike(s);
    case SetAddress(mr, addr) =>
      if addr == s[mr].addr || s[mr].parent.None? {
        FieldChangeAlike(s, mr, s[mr].(addr := addr));
      } else {
        ParentKnown(s, mr);
        MovedAlike(s, mr, addr);
      }
    case SetAliasOffset(mr, offset) => FieldChangeAlike(s, mr, s[mr].(aliasOffset := offset)); SelfAlike(s);
    case SetReadonly(mr, readonly) => FieldChangeAlike(s, mr, s[mr].(readonly := readonly)); SelfAlike(s);
    case SetReadable(mr, readable) => FieldChangeAlike(s, mr, s[mr].(readable := readable)); SelfAlike(s);
    case SetLog(mr, log, client) =>
      FieldChangeAlike(s, mr, s[mr].(dirtyLogMask := LogMask(s[mr].dirtyLogMask, log, client)));
  }

  lemma SelfAlike(s: Store)
    requires Linked(s)
    ensures Alike(s, s)
  {
    forall p | p in s ensures AlikeAt(s, s, p) {
      ListedParent(s, p);
    }
  }

  lemma MovedAlike(s: Store, mr: RegionId, addr: nat)
    requires Linked(s) && mr in s && s[mr].parent.Some? && s[mr].parent.value in s
    requires !(s[s[mr].parent.value].enabled && s[mr].enabled)
    ensures Alike(s, Moved(s, mr, addr))
  {
    hide Attached, Detached, Alike, LinkedAt;
    var parent := s[mr].parent.value;
    var d := Detached(s, parent, mr);
    DetachedFields(s, parent, mr);
    DetachedLinked(s, parent, mr);
    DetachedAlike(s, parent, mr);
    AttachedAlike(d, parent, addr, mr, s[mr].mayOverlap, if s[mr].mayOverlap then s[mr].priority else 0);
    AlikeThrough(s, d, Moved(s, mr, addr));
  }
}
