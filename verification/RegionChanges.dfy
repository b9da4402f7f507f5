/** The operations that change the region tree, and which of them can change what is rendered. */
module RegionChanges {
  import opened FlatViews
  import opened MemoryRegions

  datatype Op =
    | Begin
    | Commit
    | AddSubregion(mr: RegionId, offset: nat, sub: RegionId)
    | AddSubregionOverlap(mr: RegionId, offset: nat, sub: RegionId, priority: nat)
    | DelSubregion(mr: RegionId, sub: RegionId)
    | SetEnabled(mr: RegionId, enabled: bool)
    | SetAddress(mr: RegionId, addr: nat)
    | SetAliasOffset(mr: RegionId, offset: nat)
    | SetReadonly(mr: RegionId, readonly: bool)
    | SetReadable(mr: RegionId, readable: bool)
    | SetLog(mr: RegionId, log: bool, client: nat)

  /** Parents and subregion lists agree, no list has a region twice, and priorities fall along it. */
  ghost predicate Linked(s: Store) {
    && Closed(s)
    && forall p {:trigger LinkedAt(s, p)} :: p in s ==> LinkedAt(s, p)
  }

  ghost predicate LinkedAt(s: Store, p: RegionId)
    requires p in s
  {
    && (forall c :: c in s[p].subregions ==> c in s && s[c].parent == Some(p))
    && (s[p].parent.Some? ==> s[p].parent.value in s && p in s[s[p].parent.value].subregions)
    && Distinct(s[p].subregions)
    && Prioritised(s, s[p].subregions)
  }

  ghost predicate Distinct(subs: seq<RegionId>) {
    forall i, j :: 0 <= i < j < |subs| ==> subs[i] != subs[j]
  }

  ghost predicate Prioritised(s: Store, subs: seq<RegionId>) {
    && (forall c :: c in subs ==> c in s)
    && forall i, j :: 0 <= i < j < |subs| ==> s[subs[j]].priority <= s[subs[i]].priority
  }

  /** Where a region of priority `p` goes: before the first that does not outrank it. */
  function Position(s: Store, subs: seq<RegionId>, p: nat): (k: nat)
    requires forall c :: c in subs ==> c in s
    ensures k <= |subs|
    ensures forall i :: 0 <= i < k ==> p < s[subs[i]].priority
    ensures k < |subs| ==> s[subs[k]].priority <= p
  {
    if subs == [] || s[subs[0]].priority <= p then 0
    else 1 + Position(s, subs[1..], p)
  }

  function Inserted(subs: seq<RegionId>, k: nat, c: RegionId): seq<RegionId>
    requires k <= |subs|
  {
    subs[..k] + [c] + subs[k..]
  }

  function Without(subs: seq<RegionId>, c: RegionId): (r: seq<RegionId>)
    ensures forall x :: x in r <==> x in subs && x != c
  {
    if subs == [] then []
    else (if subs[0] == c then [] else [subs[0]]) + Without(subs[1..], c)
  }

  /** The stores to the new subregion made by the two add functions. */
  function Adopted(s: Store, mr: RegionId, offset: nat, sub: RegionId, overlap: bool, priority: nat): Store
    requires sub in s
  {
    s[sub := s[sub].(mayOverlap := overlap, priority := priority, parent := Some(mr), addr := offset)]
  }

  function Attached(s: Store, mr: RegionId, offset: nat, sub: RegionId, overlap: bool, priority: nat): Store
    requires Closed(s) && mr in s && sub in s
  {
    var t := Adopted(s, mr, offset, sub, overlap, priority);
    var subs := t[mr].subregions;
    t[mr := t[mr].(subregions := Inserted(subs, Position(t, subs, priority), sub))]
  }

  function Detached(s: Store, mr: RegionId, sub: RegionId): Store
    requires mr in s && sub in s
  {
    var t := s[sub := s[sub].(parent := None)];
    t[mr := t[mr].(subregions := Without(t[mr].subregions, sub))]
  }

  /** What an operation asserts or needs of its caller. Attaching must not close a cycle: rendering
      would not end. */
  ghost predicate Allowed(s: Store, op: Op)
    requires Closed(s)
  {
    match op
    case Begin => true
    case Commit => true
    case AddSubregion(mr, offset, sub) =>
      mr in s && sub in s && s[sub].parent.None? && Acyclic(Attached(s, mr, offset, sub, false, 0))
    case AddSubregionOverlap(mr, offset, sub, priority) =>
      mr in s && sub in s && s[sub].parent.None? && Acyclic(Attached(s, mr, offset, sub, true, priority))
    case DelSubregion(mr, sub) => mr in s && sub in s && s[sub].parent == Some(mr)
    case SetAliasOffset(mr, _) => mr in s && s[mr].alias.Some?
    case _ => op.mr in s
  }

  /** The tree after an operation, and whether it asked for an update. `Plain` operations return
      without opening a transaction. */
  datatype Change = Plain(s: Store) | Update(s: Store, pending: bool)

  /** `1 << client` as a byte. */
  function ClientBit(client: nat): bv8 {
    match client
    case 0 => 1 case 1 => 2 case 2 => 4 case 3 => 8 case 4 => 16 case 5 => 32 case 6 => 64 case 7 => 128
    case _ => 0
  }

  function LogMask(mask: bv8, log: bool, client: nat): bv8 {
    (mask & !ClientBit(client)) | (if log then ClientBit(client) else 0)
  }

  /** Moving a region: taken out of its parent and added again. */
  function Moved(s: Store, mr: RegionId, addr: nat): Store
    requires Closed(s) && mr in s && s[mr].parent.Some? && s[mr].parent.value in s
  {
    var parent := s[mr].parent.value;
    var r := s[mr];
    var overlap, priority := r.mayOverlap, if r.mayOverlap then r.priority else 0;
    Attached(Detached(s, parent, mr), parent, addr, mr, overlap, priority)
  }

  ghost function Apply(s: Store, op: Op): Change
    requires Linked(s) && Allowed(s, op)
  {
    match op
    case Begin => Plain(s)
    case Commit => Plain(s)
    case AddSubregion(mr, offset, sub) =>
      Update(Attached(s, mr, offset, sub, false, 0), s[mr].enabled && s[sub].enabled)
    case AddSubregionOverlap(mr, offset, sub, priority) =>
      Update(Attached(s, mr, offset, sub, true, priority), s[mr].enabled && s[sub].enabled)
    case DelSubregion(mr, sub) => Update(Detached(s, mr, sub), s[mr].enabled && s[sub].enabled)
    case SetEnabled(mr, enabled) =>
      if enabled == s[mr].enabled then Plain(s) else Update(s[mr := s[mr].(enabled := enabled)], true)
    case SetAddress(mr, addr) =>
      assert LinkedAt(s, mr);
      if addr == s[mr].addr || s[mr].parent.None? then Plain(s[mr := s[mr].(addr := addr)])
      else Update(Moved(s, mr, addr), s[s[mr].parent.value].enabled && s[mr].enabled)
    case SetAliasOffset(mr, offset) =>
      if offset == s[mr].aliasOffset then Plain(s)
      else Update(s[mr := s[mr].(aliasOffset := offset)], s[mr].enabled)
    case SetReadonly(mr, readonly) =>
      if readonly == s[mr].readonly then Plain(s)
      else Update(s[mr := s[mr].(readonly := readonly)], s[mr].enabled)
    case SetReadable(mr, readable) =>
      if readable == s[mr].readable then Plain(s)
      else Update(s[mr := s[mr].(readable := readable)], s[mr].enabled)
    case SetLog(mr, log, client) =>
      Update(s[mr := s[mr].(dirtyLogMask := LogMask(s[mr].dirtyLogMask, log, client))], s[mr].enabled)
  }

  // Every change leaves a well linked, acyclic tree.

  lemma {:induction false} WithoutKeepsOrder(subs: seq<RegionId>, c: RegionId, s: Store)
    requires Distinct(subs) && Prioritised(s, subs)
    ensures Distinct(Without(subs, c)) && Prioritised(s, Without(subs, c))
  {
    if subs != [] {
      var rest := Without(subs[1..], c);
      WithoutKeepsOrder(subs[1..], c, s);
      forall x | x in rest ensures x != subs[0] && s[x].priority <= s[subs[0]].priority {
        var k :| 0 <= k < |subs[1..]| && subs[1..][k] == x;
        assert subs[k + 1] == x;
      }
    }
  }

  lemma InsertedMembers(subs: seq<RegionId>, k: nat, c: RegionId)
    requires k <= |subs|
    ensures forall x :: x in Inserted(subs, k, c) <==> x in subs || x == c
  {
    assert subs == subs[..k] + subs[k..];
  }

  lemma InsertedAt(subs: seq<RegionId>, k: nat, c: RegionId, i: nat)
    requires k <= |subs| && i <= |subs|
    ensures |Inserted(subs, k, c)| == |subs| + 1
    ensures Inserted(subs, k, c)[i] == if i < k then subs[i] else if i == k then c else subs[i - 1]
  {
  }

  lemma InsertedInOrder(s: Store, subs: seq<RegionId>, c: RegionId)
    requires Distinct(subs) && Prioritised(s, subs) && c in s && c !in subs
    ensures var r := Inserted(subs, Position(s, subs, s[c].priority), c);
      Distinct(r) && Prioritised(s, r) && forall x :: x in r <==> x in subs || x == c
  {
    hide Inserted;
    var k := Position(s, subs, s[c].priority);
    var r := Inserted(subs, k, c);
    InsertedAt(subs, k, c, 0);
    InsertedMembers(subs, k, c);
    forall i, j | 0 <= i < j < |r| ensures r[i] != r[j] && s[r[j]].priority <= s[r[i]].priority {
      InsertedAt(subs, k, c, i);
      InsertedAt(subs, k, c, j);
      if i == k && k < j - 1 { assert s[subs[j - 1]].priority <= s[subs[k]].priority; }
    }
  }

  lemma PriorityOnly(s: Store, t: Store, subs: seq<RegionId>)
    requires Prioritised(s, subs)
    requires forall c :: c in subs ==> c in t && t[c].priority == s[c].priority
    ensures Prioritised(t, subs)
  {
  }

  /** What the two edits do, region by region. */
  lemma DetachedFields(s: Store, mr: RegionId, sub: RegionId)
    requires mr in s && sub in s
    ensures var t := Detached(s, mr, sub);
      && t.Keys == s.Keys
      && forall p :: p in s ==> t[p] == s[p].(
        parent := if p == sub then None else s[p].parent,
        subregions := if p == mr then Without(s[p].subregions, sub) else s[p].subregions)
  {
    hide Without;
  }

  lemma AttachedFields(s: Store, mr: RegionId, offset: nat, sub: RegionId, overlap: bool, priority: nat)
    requires Closed(s) && mr in s && sub in s
    ensures var a, t := Adopted(s, mr, offset, sub, overlap, priority), Attached(s, mr, offset, sub, overlap, priority);
      && a.Keys == t.Keys == s.Keys
      && forall p :: p in s ==> t[p] == a[p].(subregions :=
        if p == mr then Inserted(s[p].subregions, Position(a, s[p].subregions, priority), sub) else s[p].subregions)
  {
    hide Inserted, Position;
  }

  lemma DetachedLinked(s: Store, mr: RegionId, sub: RegionId)
    requires Linked(s) && mr in s && sub in s && s[sub].parent == Some(mr)
    ensures Linked(Detached(s, mr, sub))
  {
    hide Without, Detached, LinkedAt;
    DetachedFields(s, mr, sub);
    forall p | p in s ensures LinkedAt(Detached(s, mr, sub), p) {
      DetachedLinkedAt(s, mr, sub, p);
    }
  }

  lemma DetachedLinkedAt(s: Store, mr: RegionId, sub: RegionId, p: RegionId)
    requires Linked(s) && mr in s && sub in s && s[sub].parent == Some(mr) && p in s
    ensures p in Detached(s, mr, sub) && LinkedAt(Detached(s, mr, sub), p)
  {
    hide Without, Distinct, Prioritised, Detached;
    var t := Detached(s, mr, sub);
    DetachedFields(s, mr, sub);
    assert LinkedAt(s, p);
    WithoutKeepsOrder(s[p].subregions, sub, s);
    PriorityOnly(s, t, t[p].subregions);
  }

  lemma DetachedRanked(s: Store, rank: map<RegionId, nat>, mr: RegionId, sub: RegionId)
    requires Ranked(s, rank) && mr in s && sub in s
    ensures Ranked(Detached(s, mr, sub), rank)
  {
    hide Without, Detached;
    DetachedFields(s, mr, sub);
  }

  lemma AttachedClosed(s: Store, mr: RegionId, offset: nat, sub: RegionId, overlap: bool, priority: nat)
    requires Closed(s) && mr in s && sub in s
    ensures Closed(Attached(s, mr, offset, sub, overlap, priority))
  {
    hide Position, Attached, Inserted;
    AttachedFields(s, mr, offset, sub, overlap, priority);
    InsertedMembers(s[mr].subregions,
      Position(Adopted(s, mr, offset, sub, overlap, priority), s[mr].subregions, priority), sub);
  }

  lemma AttachedLinked(s: Store, mr: RegionId, offset: nat, sub: RegionId, overlap: bool, priority: nat)
    requires Linked(s) && mr in s && sub in s && s[sub].parent.None?
    ensures Linked(Attached(s, mr, offset, sub, overlap, priority))
  {
    hide Position, Inserted, Distinct, Prioritised, Attached, Adopted, LinkedAt, Closed;
    var t := Attached(s, mr, offset, sub, overlap, priority);
    AttachedFields(s, mr, offset, sub, overlap, priority);
    AttachedClosed(s, mr, offset, sub, overlap, priority);
    forall p | p in s ensures LinkedAt(t, p) {
      AttachedLinkedAt(s, mr, offset, sub, overlap, priority, p);
    }
  }

  lemma AttachedLinkedAt(s: Store, mr: RegionId, offset: nat, sub: RegionId, overlap: bool, priority: nat, p: RegionId)
    requires Linked(s) && mr in s && sub in s && s[sub].parent.None? && p in s
    ensures p in Attached(s, mr, offset, sub, overlap, priority)
    ensures LinkedAt(Attached(s, mr, offset, sub, overlap, priority), p)
  {
    hide Position, Inserted, Distinct, Prioritised, Attached, Closed;
    var a := Adopted(s, mr, offset, sub, overlap, priority);
    var t := Attached(s, mr, offset, sub, overlap, priority);
    AttachedFields(s, mr, offset, sub, overlap, priority);
    assert LinkedAt(s, mr) && LinkedAt(s, p);
    PriorityOnly(s, a, s[mr].subregions);
    InsertedInOrder(a, s[mr].subregions, sub);
    if p == mr { PriorityOnly(a, t, t[p].subregions); } else { PriorityOnly(s, t, t[p].subregions); }
  }

  lemma AttachedRanked(s: Store, rank: map<RegionId, nat>, mr: RegionId, offset: nat, sub: RegionId, overlap: bool,
                       priority: nat)
    requires Ranked(s, rank) && mr in s && sub in s && rank[sub] < rank[mr]
    ensures Ranked(Attached(s, mr, offset, sub, overlap, priority), rank)
  {
    hide Position, Attached, Inserted;
    var a := Adopted(s, mr, offset, sub, overlap, priority);
    AttachedClosed(s, mr, offset, sub, overlap, priority);
    AttachedFields(s, mr, offset, sub, overlap, priority);
    InsertedMembers(s[mr].subregions, Position(a, s[mr].subregions, priority), sub);
    assert s[mr].subregions == a[mr].subregions;
  }

  lemma DetachedAcyclic(s: Store, mr: RegionId, sub: RegionId)
    requires Acyclic(s) && mr in s && sub in s
    ensures Acyclic(Detached(s, mr, sub))
  {
    var rank :| Ranked(s, rank);
    DetachedRanked(s, rank, mr, sub);
  }

  /** Moving a region keeps every link of the tree. */
  lemma MovedRanked(s: Store, rank: map<RegionId, nat>, mr: RegionId, addr: nat)
    requires Linked(s) && Ranked(s, rank) && mr in s && s[mr].parent.Some? && s[mr].parent.value in s
    ensures Ranked(Moved(s, mr, addr), rank)
  {
    hide Position, Without;
    assert LinkedAt(s, mr);
    var parent := s[mr].parent.value;
    var d := Detached(s, parent, mr);
    DetachedRanked(s, rank, parent, mr);
    DetachedLinked(s, parent, mr);
    assert mr !in d[parent].subregions;
    AttachedRanked(d, rank, parent, addr, mr, s[mr].mayOverlap, if s[mr].mayOverlap then s[mr].priority else 0);
  }

  lemma AttachedAddress(s: Store, mr: RegionId, offset: nat, sub: RegionId, overlap: bool, priority: nat)
    requires Closed(s) && mr in s && sub in s
    ensures var t := Attached(s, mr, offset, sub, overlap, priority);
      t.Keys == s.Keys && forall q :: q in s ==> t[q].addr == if q == sub then offset else s[q].addr
  {
    hide Attached, Position, Inserted, Closed;
    AttachedFields(s, mr, offset, sub, overlap, priority);
  }

  lemma DetachedAddress(s: Store, mr: RegionId, sub: RegionId)
    requires mr in s && sub in s
    ensures var t := Detached(s, mr, sub);
      t.Keys == s.Keys && forall q :: q in s ==> t[q].addr == s[q].addr
  {
    hide Detached, Without;
    DetachedFields(s, mr, sub);
  }

  lemma MovedAddress(s: Store, mr: RegionId, addr: nat)
    requires Linked(s) && mr in s && s[mr].parent.Some? && s[mr].parent.value in s
    ensures var t := Moved(s, mr, addr);
      t.Keys == s.Keys && forall q :: q in s ==> t[q].addr == if q == mr then addr else s[q].addr
  {
    hide Attached, Detached, LinkedAt, Closed;
    var parent := s[mr].parent.value;
    DetachedAddress(s, parent, mr);
    DetachedLinked(s, parent, mr);
    AttachedAddress(Detached(s, parent, mr), parent, addr, mr, s[mr].mayOverlap,
      if s[mr].mayOverlap then s[mr].priority else 0);
  }

  lemma FieldsRanked(s: Store, t: Store, rank: map<RegionId, nat>)
    requires Ranked(s, rank) && t.Keys == s.Keys
    requires forall p :: p in s ==> t[p].subregions == s[p].subregions && t[p].alias == s[p].alias
    ensures Ranked(t, rank)
  {
  }

  /** Changing other fields than the links and the priority. */
  lemma FieldsOnly(s: Store, t: Store)
    requires Linked(s) && Acyclic(s) && t.Keys == s.Keys
    requires forall p :: p in s ==>
      t[p].subregions == s[p].subregions && t[p].parent == s[p].parent && t[p].priority == s[p].priority
        && t[p].alias == s[p].alias
    ensures Linked(t) && Acyclic(t)
  {
    hide Distinct, Prioritised;
    var rank :| Ranked(s, rank);
    assert Ranked(t, rank);
    forall p | p in t ensures LinkedAt(t, p) {
      assert LinkedAt(s, p);
      PriorityOnly(s, t, t[p].subregions);
    }
  }

  /** Every operation leaves a well linked, acyclic tree of the same regions. */
  lemma ChangeLinked(s: Store, op: Op)
    requires Linked(s) && Acyclic(s) && Allowed(s, op)
    ensures Linked(Apply(s, op).s) && Acyclic(Apply(s, op).s) && Apply(s, op).s.Keys == s.Keys
  {
    hide Position, Without, Attached, Detached, LinkedAt, Closed, Ranked, Moved, LogMask, Acyclic, Inserted;
    var t := Apply(s, op).s;
    match op
    case AddSubregion(mr, offset, sub) =>
      AttachedFields(s, mr, offset, sub, false, 0);
      AttachedLinked(s, mr, offset, sub, false, 0);
    case AddSubregionOverlap(mr, offset, sub, priority) =>
      AttachedFields(s, mr, offset, sub, true, priority);
      AttachedLinked(s, mr, offset, sub, true, priority);
    case DelSubregion(mr, sub) =>
      DetachedFields(s, mr, sub);
      DetachedLinked(s, mr, sub);
      DetachedAcyclic(s, mr, sub);
    case SetAddress(mr, addr) =>
      if addr == s[mr].addr || s[mr].parent.None? {
        FieldsOnly(s, t);
      } else {
        ParentKnown(s, mr);
        MovedLinked(s, mr, addr);
      }
    case _ =>
      FieldsOnly(s, t);
  }

  lemma ParentKnown(s: Store, mr: RegionId)
    requires Linked(s) && mr in s && s[mr].parent.Some?
    ensures s[mr].parent.value in s && mr in s[s[mr].parent.value].subregions
  {
    assert LinkedAt(s, mr);
  }

  lemma MovedLinked(s: Store, mr: RegionId, addr: nat)
    requires Linked(s) && Acyclic(s) && mr in s && s[mr].parent.Some? && s[mr].parent.value in s
    ensures Linked(Moved(s, mr, addr)) && Acyclic(Moved(s, mr, addr)) && Moved(s, mr, addr).Keys == s.Keys
  {
    hide Position, Without, Attached, Detached, Closed;
    var parent := s[mr].parent.value;
    var d := Detached(s, parent, mr);
    var overlap, priority := s[mr].mayOverlap, if s[mr].mayOverlap then s[mr].priority else 0;
    var rank :| Ranked(s, rank);
    MovedRanked(s, rank, mr, addr);
    DetachedFields(s, parent, mr);
    DetachedLinked(s, parent, mr);
    AttachedFields(d, parent, addr, mr, overlap, priority);
    AttachedLinked(d, parent, addr, mr, overlap, priority);
  }

  // What attaching and detaching do, entry by entry.

  /** `t` is `s` with `sub` attached to `mr`: after the regions that outrank it, before all others. */
  ghost predicate AttachedBy(s: Store, t: Store, mr: RegionId, offset: nat, sub: RegionId, overlap: bool,
                             priority: nat) {
    && mr in s && sub in s && mr != sub && t.Keys == s.Keys
    && (forall p :: p in s && p != mr && p != sub ==> t[p] == s[p])
    && t[sub] == s[sub].(parent := Some(mr), addr := offset, mayOverlap := overlap, priority := priority)
    && exists k :: PlacedAt(s, t, mr, sub, priority, k)
  }

  ghost predicate PlacedAt(s: Store, t: Store, mr: RegionId, sub: RegionId, priority: nat, k: nat)
    requires mr in s && mr in t
  {
    var subs := s[mr].subregions;
    && k <= |subs| && (forall c :: c in subs ==> c in s)
    && t[mr] == s[mr].(subregions := subs[..k] + [sub] + subs[k..])
    && (forall i :: 0 <= i < k ==> priority < s[subs[i]].priority)
    && (forall i :: k <= i < |subs| ==> s[subs[i]].priority <= priority)
  }

  lemma AttachedExactly(s: Store, mr: RegionId, offset: nat, sub: RegionId, overlap: bool, priority: nat)
    requires Linked(s) && mr in s && sub in s && s[sub].parent.None?
    requires Acyclic(Attached(s, mr, offset, sub, overlap, priority))
    ensures AttachedBy(s, Attached(s, mr, offset, sub, overlap, priority), mr, offset, sub, overlap, priority)
  {
    hide Acyclic, Attached, Position, Inserted, PlacedAt, Prioritised, Distinct, LinkedAt;
    LinkedIn(s, mr, sub);
    AttachedFields(s, mr, offset, sub, overlap, priority);
    NotOwnSubregion(Attached(s, mr, offset, sub, overlap, priority), mr);
    AttachedContains(s, mr, offset, sub, overlap, priority);
    AttachedPlace(s, mr, offset, sub, overlap, priority);
  }

  lemma AttachedContains(s: Store, mr: RegionId, offset: nat, sub: RegionId, overlap: bool, priority: nat)
    requires Closed(s) && mr in s && sub in s
    ensures sub in Attached(s, mr, offset, sub, overlap, priority)[mr].subregions
  {
    var subs := Attached(s, mr, offset, sub, overlap, priority)[mr].subregions;
    var a := Adopted(s, mr, offset, sub, overlap, priority);
    assert subs[Position(a, a[mr].subregions, priority)] == sub;
  }

  lemma AttachedPlace(s: Store, mr: RegionId, offset: nat, sub: RegionId, overlap: bool, priority: nat)
    requires Closed(s) && mr in s && sub in s && mr != sub && sub !in s[mr].subregions
    requires Prioritised(s, s[mr].subregions)
    ensures exists k :: PlacedAt(s, Attached(s, mr, offset, sub, overlap, priority), mr, sub, priority, k)
  {
    hide Closed, Attached, Inserted;
    AttachedFields(s, mr, offset, sub, overlap, priority);
    var a, subs := Adopted(s, mr, offset, sub, overlap, priority), s[mr].subregions;
    PlaceAmong(a, s, subs, priority);
    var k, t := Position(a, subs, priority), Attached(s, mr, offset, sub, overlap, priority);
    assert t[mr] == s[mr].(subregions := Inserted(subs, k, sub));
    hide Adopted, Position, Prioritised;
    InsertedIs(subs, k, sub);
    assert PlacedAt(s, t, mr, sub, priority, k);
  }

  lemma InsertedIs(subs: seq<RegionId>, k: nat, c: RegionId)
    requires k <= |subs|
    ensures Inserted(subs, k, c) == subs[..k] + [c] + subs[k..]
  {
  }

  lemma PlaceAmong(a: Store, s: Store, subs: seq<RegionId>, priority: nat)
    requires Prioritised(s, subs) && forall c :: c in subs ==> c in a && a[c] == s[c]
    ensures forall c :: c in subs ==> c in s
    ensures forall i :: 0 <= i < Position(a, subs, priority) ==> priority < s[subs[i]].priority
    ensures forall i :: Position(a, subs, priority) <= i < |subs| ==> s[subs[i]].priority <= priority
  {
  }

  lemma NotOwnSubregion(s: Store, mr: RegionId)
    requires Acyclic(s) && mr in s
    ensures mr !in s[mr].subregions
  {
    var rank :| Ranked(s, rank);
  }

  lemma LinkedIn(s: Store, mr: RegionId, sub: RegionId)
    requires Linked(s) && mr in s && sub in s
    ensures Distinct(s[mr].subregions) && Prioritised(s, s[mr].subregions)
    ensures sub in s[mr].subregions <==> s[sub].parent == Some(mr)
  {
    assert LinkedAt(s, mr) && LinkedAt(s, sub);
  }

  /** `t` is `s` with `sub` taken out of `mr`. */
  ghost predicate DetachedFrom(s: Store, t: Store, mr: RegionId, sub: RegionId) {
    && mr in s && sub in s && mr != sub && t.Keys == s.Keys
    && (forall p :: p in s && p != mr && p != sub ==> t[p] == s[p])
    && t[sub] == s[sub].(parent := None)
    && exists k :: TakenAt(s, t, mr, sub, k)
  }

  ghost predicate TakenAt(s: Store, t: Store, mr: RegionId, sub: RegionId, k: nat)
    requires mr in s && mr in t
  {
    var subs := s[mr].subregions;
    k < |subs| && subs[k] == sub && t[mr] == s[mr].(subregions := subs[..k] + subs[k + 1..])
  }

  lemma DetachedExactly(s: Store, mr: RegionId, sub: RegionId)
    requires Linked(s) && Acyclic(s) && mr in s && sub in s && s[sub].parent == Some(mr)
    ensures DetachedFrom(s, Detached(s, mr, sub), mr, sub)
  {
    hide Without, Detached, TakenAt, Prioritised, Distinct, LinkedAt;
    LinkedIn(s, mr, sub);
    NotOwnSubregion(s, mr);
    hide Acyclic;
    DetachedFields(s, mr, sub);
    DetachedPlace(s, mr, sub);
  }

  lemma DetachedPlace(s: Store, mr: RegionId, sub: RegionId)
    requires mr in s && sub in s && mr != sub && sub in s[mr].subregions && Distinct(s[mr].subregions)
    ensures mr in Detached(s, mr, sub) && exists k :: TakenAt(s, Detached(s, mr, sub), mr, sub, k)
  {
    DetachedFields(s, mr, sub);
    var subs := s[mr].subregions;
    var k: nat :| k < |subs| && subs[k] == sub;
    WithoutOne(subs, k);
    hide Without, Detached, Distinct;
    assert TakenAt(s, Detached(s, mr, sub), mr, sub, k);
  }

  lemma {:induction false} WithoutOne(subs: seq<RegionId>, k: nat)
    requires Distinct(subs) && k < |subs|
    ensures Without(subs, subs[k]) == subs[..k] + subs[k + 1..]
  {
    var c := subs[k];
    if k == 0 {
      WithoutNone(subs[1..], c);
    } else {
      assert subs[0] != c;
      WithoutOne(subs[1..], k - 1);
      assert subs[..k] + subs[k + 1..] == [subs[0]] + (subs[1..][..k - 1] + subs[1..][k..]);
    }
  }

  lemma {:induction false} WithoutNone(subs: seq<RegionId>, c: RegionId)
    requires c !in subs
    ensures Without(subs, c) == subs
  {
    if subs != [] { WithoutNone(subs[1..], c); }
  }
}
