/** The two passes that tell listeners what changed between two flat maps. */
module TopologyUpdate {
  import opened FlatViews

  /** The listener callbacks of a topology update. */
  datatype Event =
    | RegionDel(r: FlatRange)
    | RegionAdd(r: FlatRange)
    | RegionNop(r: FlatRange)
    | LogStart(r: FlatRange)
    | LogStop(r: FlatRange)

  /** A range without its logging state: what flatrange_equal compares. */
  function Section(r: FlatRange): FlatRange {
    r.(dirtyLogMask := 0)
  }

  predicate FlatRangeEqual(a: FlatRange, b: FlatRange) {
    && a.mr == b.mr
    && a.start == b.start && a.size == b.size
    && a.offsetInRegion == b.offsetInRegion
    && a.readable == b.readable
    && a.readonly == b.readonly
  }

  predicate Occurs(r: FlatRange, v: seq<FlatRange>) {
    exists k :: 0 <= k < |v| && FlatRangeEqual(r, v[k])
  }

  /** The range of `v` that equals `r`. */
  ghost function Match(r: FlatRange, v: seq<FlatRange>): FlatRange
    requires Occurs(r, v)
  {
    var k :| 0 <= k < |v| && FlatRangeEqual(r, v[k]);
    v[k]
  }

  lemma Occurrence(r: FlatRange, v: seq<FlatRange>) returns (k: nat)
    requires Occurs(r, v)
    ensures k < |v| && FlatRangeEqual(r, v[k])
  {
    k :| 0 <= k < |v| && FlatRangeEqual(r, v[k]);
  }

  function LogChange(before: FlatRange, after: FlatRange): seq<Event> {
    if before.dirtyLogMask != 0 && after.dirtyLogMask == 0 then [LogStop(after)]
    else if after.dirtyLogMask != 0 && before.dirtyLogMask == 0 then [LogStart(after)]
    else []
  }

  /** Deletions: the old ranges that are not in the new map, in order. */
  ghost function Deletions(was: seq<FlatRange>, now: seq<FlatRange>): seq<Event> {
    if was == [] then []
    else
      var n := |was| - 1;
      Deletions(was[..n], now) + (if Occurs(was[n], now) then [] else [RegionDel(was[n])])
  }

  /** The callbacks of the second pass for one new range: a nop and perhaps a logging change when
      the old map had it, an addition when not. */
  ghost function CallsFor(was: seq<FlatRange>, r: FlatRange): seq<Event> {
    if Occurs(r, was) then [RegionNop(r)] + LogChange(Match(r, was), r) else [RegionAdd(r)]
  }

  /** Exactly the old ranges that are not in the new map are deleted. */
  lemma {:induction false} DeletedExactly(was: seq<FlatRange>, now: seq<FlatRange>, r: FlatRange)
    ensures RegionDel(r) in Deletions(was, now) <==> r in was && !Occurs(r, now)
    decreases |was|
  {
    hide Occurs;
    if was != [] {
      var n := |was| - 1;
      DeletedExactly(was[..n], now, r);
      assert was == was[..n] + [was[n]];
    }
  }

  /** Additions: every new range in order. */
  ghost function Additions(was: seq<FlatRange>, now: seq<FlatRange>): seq<Event> {
    if now == [] then []
    else
      var n := |now| - 1;
      Additions(was, now[..n]) + CallsFor(was, now[n])
  }

  /** Exactly the new ranges that are not in the old map are added, and each of the others gets a nop. */
  lemma {:induction false} AddedExactly(was: seq<FlatRange>, now: seq<FlatRange>, r: FlatRange)
    ensures RegionAdd(r) in Additions(was, now) <==> r in now && !Occurs(r, was)
    ensures RegionNop(r) in Additions(was, now) <==> r in now && Occurs(r, was)
    decreases |now|
  {
    hide Occurs;
    if now != [] {
      var n := |now| - 1;
      AddedExactly(was, now[..n], r);
      assert now == now[..n] + [now[n]];
    }
  }

  /** Logging is reported on and off exactly for the ranges of both maps whose mask turned from clear or to clear. */
  lemma {:induction false} LogsExactly(was: seq<FlatRange>, now: seq<FlatRange>, r: FlatRange)
    ensures LogStart(r) in Additions(was, now)
      <==> r in now && Occurs(r, was) && Match(r, was).dirtyLogMask == 0 && r.dirtyLogMask != 0
    ensures LogStop(r) in Additions(was, now)
      <==> r in now && Occurs(r, was) && Match(r, was).dirtyLogMask != 0 && r.dirtyLogMask == 0
    decreases |now|
  {
    hide Occurs;
    if now != [] {
      var n := |now| - 1;
      LogsExactly(was, now[..n], r);
      assert now == now[..n] + [now[n]];
    }
  }

  /** How far both maps have been merged: nothing before one index equals anything at or after the
      other. */
  ghost predicate Split(was: seq<FlatRange>, now: seq<FlatRange>, i: nat, j: nat) {
    && i <= |was| && j <= |now|
    && (forall k, l :: 0 <= k < i && j <= l < |now| ==> !FlatRangeEqual(was[k], now[l]))
    && (forall k, l :: i <= k < |was| && 0 <= l < j ==> !FlatRangeEqual(was[k], now[l]))
  }

  /** Starts rise strictly. */
  lemma StartsRise(v: seq<FlatRange>, i: nat)
    requires Sorted(v) && i < |v|
    ensures forall k :: i < k < |v| ==> v[i].start < v[k].start
  {
    forall k | i < k < |v| ensures v[i].start < v[k].start {
      assert v[i].End() <= v[k].start;
    }
  }

  lemma MatchIs(r: FlatRange, v: seq<FlatRange>, j: nat)
    requires Sorted(v) && j < |v| && FlatRangeEqual(r, v[j])
    ensures Occurs(r, v) && Match(r, v) == v[j]
  {
    var k :| 0 <= k < |v| && FlatRangeEqual(r, v[k]) && Match(r, v) == v[k];
    StartsRise(v, if j < k then j else k);
  }

  lemma DeletionsNext(was: seq<FlatRange>, now: seq<FlatRange>, i: nat)
    requires i < |was|
    ensures Occurs(was[i], now) ==> Deletions(was[..i + 1], now) == Deletions(was[..i], now)
    ensures !Occurs(was[i], now) ==> Deletions(was[..i + 1], now) == Deletions(was[..i], now) + [RegionDel(was[i])]
  {
    assert was[..i + 1][..i] == was[..i];
  }

  lemma AdditionsNext(was: seq<FlatRange>, now: seq<FlatRange>, j: nat)
    requires j < |now|
    ensures Additions(was, now[..j + 1])
      == Additions(was, now[..j]) + CallsFor(was, now[j])
  {
    assert now[..j + 1][..j] == now[..j];
  }

  /** The next old range is not in the new map. */
  lemma MergeOld(was: seq<FlatRange>, now: seq<FlatRange>, i: nat, j: nat)
    requires Sorted(was) && Sorted(now) && Split(was, now, i, j) && i < |was|
    requires j < |now| ==> was[i].start <= now[j].start && !FlatRangeEqual(was[i], now[j])
    ensures Deletions(was[..i + 1], now) == Deletions(was[..i], now) + [RegionDel(was[i])]
    ensures Split(was, now, i + 1, j)
  {
    hide Deletions, Sorted;
    DeletionsNext(was, now, i);
    if j < |now| { StartsRise(now, j); }
    assert !Occurs(was[i], now);
  }

  /** The next new range is not in the old map. */
  lemma MergeNew(was: seq<FlatRange>, now: seq<FlatRange>, i: nat, j: nat)
    requires Sorted(was) && Sorted(now) && Split(was, now, i, j) && j < |now|
    requires i < |was| ==> now[j].start < was[i].start
    ensures Additions(was, now[..j + 1]) == Additions(was, now[..j]) + [RegionAdd(now[j])]
    ensures Split(was, now, i, j + 1)
  {
    AdditionsNext(was, now, j);
    if i < |was| { StartsRise(was, i); }
    NotAmong(now[j], was);
  }

  lemma NotAmong(r: FlatRange, v: seq<FlatRange>)
    requires forall k :: 0 <= k < |v| ==> !FlatRangeEqual(v[k], r)
    ensures !Occurs(r, v)
  {
  }

  /** The next range is in both maps. */
  lemma MergeBoth(was: seq<FlatRange>, now: seq<FlatRange>, i: nat, j: nat)
    requires Sorted(was) && Sorted(now) && Split(was, now, i, j) && i < |was| && j < |now|
    requires FlatRangeEqual(was[i], now[j])
    ensures Deletions(was[..i + 1], now) == Deletions(was[..i], now)
    ensures Additions(was, now[..j + 1]) == Additions(was, now[..j]) + [RegionNop(now[j])] + LogChange(was[i], now[j])
    ensures Split(was, now, i + 1, j + 1)
  {
    hide Deletions, Additions, Occurs, Match, Sorted;
    DeletionsNext(was, now, i);
    AdditionsNext(was, now, j);
    MatchIs(now[j], was, i);
    MatchIs(was[i], now, j);
    StartsRise(was, i);
    StartsRise(now, j);
  }

  /** address_space_update_topology_pass, with the callbacks it makes as the result. */
  method TopologyPass(was: seq<FlatRange>, now: seq<FlatRange>, adding: bool) returns (calls: seq<Event>)
    requires Sorted(was) && Sorted(now)
    ensures calls == if adding then Additions(was, now) else Deletions(was, now)
  {
    hide Split, Deletions, Additions, Sorted;
    var i, j := 0, 0;
    calls := [];
    NothingMerged(was, now);
    while i < |was| || j < |now|
      invariant i <= |was| && j <= |now| && Split(was, now, i, j)
      invariant calls == if adding then Additions(was, now[..j]) else Deletions(was[..i], now)
      decreases |was| - i + |now| - j
    {
      if i < |was| && (j == |now| || was[i].start < now[j].start
                       || (was[i].start == now[j].start && !FlatRangeEqual(was[i], now[j]))) {
        MergeOld(was, now, i, j);
        if !adding {
          calls := calls + [RegionDel(was[i])];
        }
        i := i + 1;
      } else if i < |was| && j < |now| && FlatRangeEqual(was[i], now[j]) {
        MergeBoth(was, now, i, j);
        if adding {
          calls := calls + [RegionNop(now[j])];
          if was[i].dirtyLogMask != 0 && now[j].dirtyLogMask == 0 {
            calls := calls + [LogStop(now[j])];
          } else if now[j].dirtyLogMask != 0 && was[i].dirtyLogMask == 0 {
            calls := calls + [LogStart(now[j])];
          }
        }
        i, j := i + 1, j + 1;
      } else {
        MergeNew(was, now, i, j);
        if adding {
          calls := calls + [RegionAdd(now[j])];
        }
        j := j + 1;
      }
    }
    assert was[..i] == was && now[..j] == now;
  }

  lemma NothingMerged(was: seq<FlatRange>, now: seq<FlatRange>)
    ensures Split(was, now, 0, 0) && Additions(was, now[..0]) == [] == Deletions(was[..0], now)
  {
  }

  /** What a listener holds: the sections it has been given, and for which of them logging is on. */
  type Live = map<FlatRange, bool>

  predicate Disjoint(a: FlatRange, b: FlatRange) {
    a.End() <= b.start || b.End() <= a.start
  }

  ghost predicate PairwiseDisjoint(live: Live) {
    forall a, b :: a in live && b in live && a != b ==> Disjoint(a, b)
  }

  /** One callback. It fails when the listener is told to drop or change a section it does not hold,
      or to add one that overlaps another. */
  ghost function Deliver(live: Live, e: Event): Option<Live> {
    var r := Section(e.r);
    match e
    case RegionDel(_) => if r in live then Some(live - {r}) else None
    case RegionAdd(_) =>
      if forall a :: a in live ==> Disjoint(a, r) then Some(live[r := e.r.dirtyLogMask != 0]) else None
    case RegionNop(_) => if r in live then Some(live) else None
    case LogStart(_) => if r in live && !live[r] then Some(live[r := true]) else None
    case LogStop(_) => if r in live && live[r] then Some(live[r := false]) else None
  }

  ghost function Replay(live: Live, calls: seq<Event>): Option<Live> {
    if calls == [] then Some(live)
    else
      var n := |calls| - 1;
      var before := Replay(live, calls[..n]);
      if before.None? then None else Deliver(before.value, calls[n])
  }

  /** A listener that holds exactly the ranges of `v`. */
  ghost predicate Holds(live: Live, v: seq<FlatRange>) {
    && (forall r :: r in live ==> r.dirtyLogMask == 0 && Occurs(r, v))
    && (forall k :: 0 <= k < |v| ==> Section(v[k]) in live && live[Section(v[k])] == (v[k].dirtyLogMask != 0))
  }

  lemma {:induction false} ReplayAppend(live: Live, a: seq<Event>, b: seq<Event>)
    ensures Replay(live, a + b) == if Replay(live, a).None? then None else Replay(Replay(live, a).value, b)
    decreases |b|
  {
    if b == [] {
      assert a + b == a;
    } else {
      var n := |b| - 1;
      assert (a + b)[..|a + b| - 1] == a + b[..n];
      ReplayAppend(live, a, b[..n]);
    }
  }

  lemma ReplayOne(live: Live, e: Event)
    ensures Replay(live, [e]) == Deliver(live, e)
  {
    assert [e][..0] == [];
    assert Replay(live, [e][..0]) == Some(live);
  }

  /** What flatrange_equal ignores is the logging state alone. */
  lemma EqualButLogging(a: FlatRange, b: FlatRange)
    ensures FlatRangeEqual(a, b) <==> b == a.(dirtyLogMask := b.dirtyLogMask)
  {
  }

  lemma SameSection(a: FlatRange, b: FlatRange)
    ensures FlatRangeEqual(a, b) <==> Section(a) == Section(b)
  {
  }

  /** Between the passes of a run: sections deleted so far are gone, the others are as they were. */
  ghost predicate AfterDeletions(was: seq<FlatRange>, now: seq<FlatRange>, i: nat, m: Live) {
    && (forall r :: r in m ==> r.dirtyLogMask == 0 && Occurs(r, was))
    && (forall r, k :: r in m && 0 <= k < |was| && k < i && Section(was[k]) == r ==> Occurs(was[k], now))
    && (forall k :: 0 <= k < |was| && (i <= k || Occurs(was[k], now)) ==>
      Section(was[k]) in m && m[Section(was[k])] == (was[k].dirtyLogMask != 0))
  }

  lemma NothingDeleted(was: seq<FlatRange>, now: seq<FlatRange>, m: Live)
    requires Holds(m, was)
    ensures AfterDeletions(was, now, 0, m)
    ensures Replay(m, Deletions(was[..0], now)) == Some(m)
  {
    hide Occurs;
  }

  lemma DeletionStep(was: seq<FlatRange>, now: seq<FlatRange>, i: nat, m: Live)
    requires Sorted(was) && i < |was| && AfterDeletions(was, now, i, m)
    ensures Occurs(was[i], now) ==> AfterDeletions(was, now, i + 1, m)
    ensures !Occurs(was[i], now) ==> Section(was[i]) in m && AfterDeletions(was, now, i + 1, m - {Section(was[i])})
  {
    forall k | 0 <= k < |was| && k != i ensures Section(was[k]) != Section(was[i]) {
      StartsRise(was, if k < i then k else i);
    }
  }

  lemma {:induction false} DeletionsReplay(was: seq<FlatRange>, now: seq<FlatRange>, i: nat, live: Live)
    requires Sorted(was) && i <= |was| && Holds(live, was)
    ensures Replay(live, Deletions(was[..i], now)).Some?
    ensures AfterDeletions(was, now, i, Replay(live, Deletions(was[..i], now)).value)
  {
    hide AfterDeletions, Occurs, Holds, Deletions, Replay, Sorted;
    if i == 0 {
      NothingDeleted(was, now, live);
    } else {
      DeletionsReplay(was, now, i - 1, live);
      var m := Replay(live, Deletions(was[..i - 1], now)).value;
      DeletionsNext(was, now, i - 1);
      DeletionStep(was, now, i - 1, m);
      if !Occurs(was[i - 1], now) {
        ReplayAppend(live, Deletions(was[..i - 1], now), [RegionDel(was[i - 1])]);
        ReplayOne(m, RegionDel(was[i - 1]));
      }
    }
  }

  /** Likewise for the second pass: sections added so far have their new logging state. */
  ghost predicate AfterAdditions(was: seq<FlatRange>, now: seq<FlatRange>, j: nat, m: Live) {
    && (forall r :: r in m ==> r.dirtyLogMask == 0 && Occurs(r, now))
    && (forall k :: 0 <= k < |now| && k < j ==>
      Section(now[k]) in m && m[Section(now[k])] == (now[k].dirtyLogMask != 0))
    && (forall k :: 0 <= k < |now| && j <= k ==>
      (Section(now[k]) in m <==> Occurs(now[k], was)) &&
      (Occurs(now[k], was) ==> m[Section(now[k])] == (Match(now[k], was).dirtyLogMask != 0)))
  }

  lemma OccursSection(r: FlatRange, v: seq<FlatRange>)
    ensures Occurs(Section(r), v) <==> Occurs(r, v)
  {
    if k :| 0 <= k < |v| && FlatRangeEqual(r, v[k]) { assert FlatRangeEqual(Section(r), v[k]); }
    if k :| 0 <= k < |v| && FlatRangeEqual(Section(r), v[k]) { assert FlatRangeEqual(r, v[k]); }
  }

  lemma AllDeleted(was: seq<FlatRange>, now: seq<FlatRange>, m: Live)
    requires Sorted(was) && AfterDeletions(was, now, |was|, m)
    ensures AfterAdditions(was, now, 0, m)
  {
    forall r | r in m ensures Occurs(r, now) {
      var k :| 0 <= k < |was| && FlatRangeEqual(r, was[k]);
      assert Section(was[k]) == r;
      OccursSection(was[k], now);
    }
    forall k | 0 <= k < |now|
      ensures Section(now[k]) in m <==> Occurs(now[k], was)
      ensures Occurs(now[k], was) ==> m[Section(now[k])] == (Match(now[k], was).dirtyLogMask != 0)
    {
      OccursSection(now[k], was);
      if l :| 0 <= l < |was| && FlatRangeEqual(now[k], was[l]) {
        MatchIs(now[k], was, l);
        assert FlatRangeEqual(was[l], now[k]);
        assert Section(was[l]) == Section(now[k]);
      }
    }
  }

  /** The section of a new range is disjoint from all others a listener can hold by then. */
  lemma AdditionFits(was: seq<FlatRange>, now: seq<FlatRange>, j: nat, m: Live)
    requires Sorted(now) && j < |now| && AfterAdditions(was, now, j, m) && !Occurs(now[j], was)
    ensures forall r :: r in m ==> Disjoint(r, Section(now[j]))
  {
    forall r | r in m ensures Disjoint(r, Section(now[j])) {
      var k :| 0 <= k < |now| && FlatRangeEqual(r, now[k]);
      assert r == Section(now[k]);
      assert k != j;
      if k < j { assert now[k].End() <= now[j].start; } else { assert now[j].End() <= now[k].start; }
    }
  }

  lemma AdditionStep(was: seq<FlatRange>, now: seq<FlatRange>, j: nat, m: Live)
    requires Sorted(now) && j < |now| && AfterAdditions(was, now, j, m)
    ensures AfterAdditions(was, now, j + 1, m[Section(now[j]) := now[j].dirtyLogMask != 0])
  {
    hide Occurs, Match, Sorted;
    forall k | 0 <= k < |now| && k != j ensures Section(now[k]) != Section(now[j]) {
      StartsRise(now, if k < j then k else j);
    }
    OwnSection(now, j);
  }

  lemma OwnSection(v: seq<FlatRange>, j: nat)
    requires j < |v|
    ensures Occurs(Section(v[j]), v)
  {
    assert FlatRangeEqual(Section(v[j]), v[j]);
  }

  /** The callbacks for one new range bring the listener up to date. */
  lemma DeliverNew(was: seq<FlatRange>, now: seq<FlatRange>, j: nat, m: Live)
    requires Sorted(now) && j < |now| && AfterAdditions(was, now, j, m)
    ensures Replay(m, CallsFor(was, now[j])) == Some(m[Section(now[j]) := now[j].dirtyLogMask != 0])
  {
    var r := now[j];
    if Occurs(r, was) {
      var change := LogChange(Match(r, was), r);
      ReplayOne(m, RegionNop(r));
      ReplayAppend(m, [RegionNop(r)], change);
      if change != [] { ReplayOne(m, change[0]); }
      assert m[Section(r) := m[Section(r)]] == m;
    } else {
      AdditionFits(was, now, j, m);
      ReplayOne(m, RegionAdd(r));
    }
  }

  lemma {:induction false} AdditionsReplay(was: seq<FlatRange>, now: seq<FlatRange>, j: nat, m: Live)
    requires Sorted(now) && j <= |now| && AfterAdditions(was, now, 0, m)
    ensures Replay(m, Additions(was, now[..j])).Some?
    ensures AfterAdditions(was, now, j, Replay(m, Additions(was, now[..j])).value)
  {
    if j != 0 {
      hide AfterAdditions, Occurs, Additions, Replay, Sorted, CallsFor;
      AdditionsReplay(was, now, j - 1, m);
      var before := Replay(m, Additions(was, now[..j - 1])).value;
      AdditionsNext(was, now, j - 1);
      AdditionStep(was, now, j - 1, before);
      DeliverNew(was, now, j - 1, before);
      ReplayAppend(m, Additions(was, now[..j - 1]), CallsFor(was, now[j - 1]));
    }
  }

  /** A listener that held the old map and gets the callbacks of both passes is never told anything
      it cannot do, holds pairwise disjoint sections after every callback, and ends up with exactly
      the new map. */
  lemma UpdateDelivers(was: seq<FlatRange>, now: seq<FlatRange>, live: Live)
    requires Sorted(was) && Sorted(now) && Holds(live, was)
    ensures var calls := Deletions(was, now) + Additions(was, now);
      && Replay(live, calls).Some?
      && Holds(Replay(live, calls).value, now)
      && forall n :: 0 <= n <= |calls| ==>
        Replay(live, calls[..n]).Some? && PairwiseDisjoint(Replay(live, calls[..n]).value)
  {
    hide AfterAdditions, AfterDeletions, Occurs, Additions, Deletions, Replay, Sorted, Holds, PairwiseDisjoint;
    assert was[..|was|] == was && now[..|now|] == now;
    DeletionsReplay(was, now, |was|, live);
    var m := Replay(live, Deletions(was, now)).value;
    AllDeleted(was, now, m);
    AdditionsReplay(was, now, |now|, m);
    ReplayAppend(live, Deletions(was, now), Additions(was, now));
    AllAdded(was, now, Replay(m, Additions(was, now)).value);
    HoldsDisjoint(live, was);
    var calls := Deletions(was, now) + Additions(was, now);
    forall n | 0 <= n <= |calls|
      ensures Replay(live, calls[..n]).Some? && PairwiseDisjoint(Replay(live, calls[..n]).value)
    {
      ReplayAppend(live, calls[..n], calls[n..]);
      assert calls[..n] + calls[n..] == calls;
      ReplayKeepsDisjoint(live, calls[..n]);
    }
  }

  lemma AllAdded(was: seq<FlatRange>, now: seq<FlatRange>, m: Live)
    requires AfterAdditions(was, now, |now|, m)
    ensures Holds(m, now)
  {
  }

  lemma HoldsDisjoint(live: Live, v: seq<FlatRange>)
    requires Sorted(v) && Holds(live, v)
    ensures PairwiseDisjoint(live)
  {
    hide Occurs, Sorted;
    forall a, b | a in live && b in live && a != b ensures Disjoint(a, b) {
      var k := Occurrence(a, v);
      var l := Occurrence(b, v);
      SameSection(v[k], v[l]);
      IndicesDisjoint(v, k, l);
    }
  }

  lemma IndicesDisjoint(v: seq<FlatRange>, k: nat, l: nat)
    requires Sorted(v) && k < |v| && l < |v|
    ensures k == l || Disjoint(v[k], v[l])
  {
  }

  lemma {:induction false} ReplayKeepsDisjoint(live: Live, calls: seq<Event>)
    requires PairwiseDisjoint(live) && Replay(live, calls).Some?
    ensures PairwiseDisjoint(Replay(live, calls).value)
    decreases |calls|
  {
    if calls != [] {
      ReplayKeepsDisjoint(live, calls[..|calls| - 1]);
    }
  }
}