/** Merging neighbouring ranges, and the flat map of a region tree. */
module Topology {
  import opened FlatViews
  import opened MemoryRegions
  import opened Rendering

  predicate CanMerge(r1: FlatRange, r2: FlatRange) {
    && r1.End() == r2.start
    && r1.mr == r2.mr
    && r1.offsetInRegion + r1.size == r2.offsetInRegion
    && r1.dirtyLogMask == r2.dirtyLogMask
    && r1.readable == r2.readable
    && r1.readonly == r2.readonly
  }

  /** No two neighbours could still be merged. */
  ghost predicate Simplified(v: seq<FlatRange>) {
    forall i :: 0 <= i < |v| - 1 ==> !CanMerge(v[i], v[i + 1])
  }

  ghost predicate SameOwners(v: seq<FlatRange>, w: seq<FlatRange>) {
    forall a :: At(v, a) == At(w, a)
  }

  function Merged(r1: FlatRange, r2: FlatRange): FlatRange {
    r1.(size := r1.size + r2.size)
  }

  /** Joining two mergeable neighbours changes no address. */
  lemma MergePair(v: seq<FlatRange>, i: nat, w: seq<FlatRange>)
    requires Sorted(v) && i + 1 < |v| && CanMerge(v[i], v[i + 1])
    requires w == v[..i] + [Merged(v[i], v[i + 1])] + v[i + 2..]
    ensures Sorted(w) && SameOwners(v, w)
  {
    MergedSorted(v, i, w);
    forall a ensures At(v, a) == At(w, a) {
      MergedAt(v, i, w, a);
    }
  }

  lemma MergedAt(v: seq<FlatRange>, i: nat, w: seq<FlatRange>, a: int)
    requires Sorted(v) && Sorted(w) && i + 1 < |v| && CanMerge(v[i], v[i + 1])
    requires w == v[..i] + [Merged(v[i], v[i + 1])] + v[i + 2..]
    ensures At(v, a) == At(w, a)
  {
    assert 0 <= v[i].size && 0 <= v[i + 1].size;
    hide Sorted, At;
    var found := Find(v, a);
    if found.Some? {
      var k := found.value;
      var k' := if k <= i then k else k - 1;
      assert w[k'] == if k == i || k == i + 1 then Merged(v[i], v[i + 1]) else v[k];
      AtIndex(w, k', a);
    } else {
      forall k | 0 <= k < |w| ensures !w[k].Contains(a) {
        assert w[k] == if k < i then v[k] else if k == i then Merged(v[i], v[i + 1]) else v[k + 1];
        assert !v[i].Contains(a) && !v[i + 1].Contains(a);
      }
      AtNowhere(w, a);
    }
  }

  lemma MergedSorted(v: seq<FlatRange>, i: nat, w: seq<FlatRange>)
    requires Sorted(v) && i + 1 < |v| && CanMerge(v[i], v[i + 1])
    requires w == v[..i] + [Merged(v[i], v[i + 1])] + v[i + 2..]
    ensures Sorted(w)
  {
    assert forall k :: 0 <= k < |w| ==>
      w[k] == if k < i then v[k] else if k == i then Merged(v[i], v[i + 1]) else v[k + 1];
  }

  /** Two views that say the same about every address, each without mergeable neighbours, are the
      same array. */
  lemma {:induction false} SimplifiedIsCanonical(v: seq<FlatRange>, w: seq<FlatRange>)
    requires Sorted(v) && Sorted(w) && Simplified(v) && Simplified(w) && SameOwners(v, w)
    ensures v == w
    decreases |v|
  {
    if v == [] {
      if w != [] { AtIndex(w, 0, w[0].start); }
    } else {
      AtIndex(v, 0, v[0].start);
      FirstAgrees(v, w);
      TailAgrees(v, w);
      SimplifiedIsCanonical(v[1..], w[1..]);
      assert v == [v[0]] + v[1..] && w == [w[0]] + w[1..];
    }
  }

  /** Equal views start together, and a first range that ends early could have been merged with the next. */
  lemma FirstNotBefore(v: seq<FlatRange>, w: seq<FlatRange>)
    requires Sorted(v) && Sorted(w) && SameOwners(v, w) && v != [] && w != []
    ensures w[0].start <= v[0].start
  {
    AtIndex(v, 0, v[0].start);
    var k :| 0 <= k < |w| && w[k].Contains(v[0].start);
    if 0 < k { assert w[0].End() <= w[k].start; }
  }

  lemma FirstLonger(v: seq<FlatRange>, w: seq<FlatRange>)
    requires Sorted(v) && Sorted(w) && SameOwners(v, w) && v != [] && w != []
    requires v[0].start == w[0].start && v[0].End() < w[0].End()
    ensures 1 < |v| && CanMerge(v[0], v[1])
  {
    var e := v[0].End();
    AtIndex(v, 0, e - 1);
    AtIndex(w, 0, e - 1);
    AtIndex(w, 0, e);
    assert At(v, e) == At(w, e);
    var k :| 0 <= k < |v| && v[k].Contains(e);
    AtIndex(v, k, e);
    assert 1 <= k && e <= v[1].start < v[1].End();
  }

  lemma FirstAgrees(v: seq<FlatRange>, w: seq<FlatRange>)
    requires Sorted(v) && Sorted(w) && Simplified(v) && Simplified(w) && SameOwners(v, w) && v != []
    ensures w != [] && v[0] == w[0]
  {
    AtIndex(v, 0, v[0].start);
    assert At(w, v[0].start).Some?;
    FirstNotBefore(v, w);
    FirstNotBefore(w, v);
    if v[0].End() < w[0].End() { FirstLonger(v, w); }
    if w[0].End() < v[0].End() { FirstLonger(w, v); }
    AtIndex(w, 0, v[0].start);
  }

  lemma TailAgrees(v: seq<FlatRange>, w: seq<FlatRange>)
    requires Sorted(v) && Sorted(w) && Simplified(v) && Simplified(w) && SameOwners(v, w)
    requires v != [] && w != [] && v[0] == w[0]
    ensures Sorted(v[1..]) && Sorted(w[1..]) && Simplified(v[1..]) && Simplified(w[1..]) && SameOwners(v[1..], w[1..])
  {
    forall a ensures At(v[1..], a) == At(w[1..], a) {
      AtTail(v, a);
      AtTail(w, a);
    }
  }

  lemma AtTail(v: seq<FlatRange>, a: int)
    requires Sorted(v) && v != []
    ensures At(v[1..], a) == if v[0].Contains(a) then None else At(v, a)
  {
    if k :| 0 <= k < |v[1..]| && v[1..][k].Contains(a) {
      assert v[k + 1] == v[1..][k];
      AtIndex(v[1..], k, a);
      AtIndex(v, k + 1, a);
    } else if k :| 0 <= k < |v| && v[k].Contains(a) {
      if 0 < k { assert v[1..][k - 1] == v[k]; }
    }
  }

  /** `head` is range `i` of the view after it has taken in all ranges up to `j`. */
  ghost predicate Joined(v: seq<FlatRange>, i: nat, j: nat, head: FlatRange) {
    && i < j <= |v|
    && head == v[i].(size := head.size)
    && SameKind(head, v[j - 1])
    && head.End() == v[j - 1].End()
    && head.offsetInRegion + head.size == v[j - 1].offsetInRegion + v[j - 1].size
    && Sorted(v[..i] + [head] + v[j..])
    && SameOwners(v, v[..i] + [head] + v[j..])
  }

  lemma JoinOne(v: seq<FlatRange>, i: nat)
    requires i < |v| && Sorted(v)
    ensures Joined(v, i, i + 1, v[i])
  {
    assert v[..i] + [v[i]] + v[i + 1..] == v;
  }

  lemma JoinNext(v: seq<FlatRange>, i: nat, j: nat, head: FlatRange)
    requires Joined(v, i, j, head) && j < |v|
    ensures CanMerge(v[j - 1], v[j]) == CanMerge(head, v[j])
    ensures CanMerge(v[j - 1], v[j]) ==> Joined(v, i, j + 1, Merged(head, v[j]))
  {
    hide Sorted, At, SameOwners;
    if CanMerge(v[j - 1], v[j]) {
      var w := v[..i] + [head] + v[j..];
      var w' := v[..i] + [Merged(head, v[j])] + v[j + 1..];
      MergePair(w, i, w');
      SameThrough(v, w, w');
    }
  }

  /** The inner loop of flatview_simplify: range `i` takes in its mergeable successors, up to `j`. */
  method JoinRun(a: array<FlatRange>, n: nat, i: nat) returns (j: nat)
    requires i < n <= a.Length && Sorted(a[..n])
    modifies a
    ensures i < j <= n && a[..i] == old(a[..i]) && a[j..n] == old(a[j..n])
    ensures Joined(old(a[..n]), i, j, a[i])
    ensures j < n ==> !CanMerge(a[i], a[j])
  {
    hide Sorted, CanMerge, Joined;
    ghost var v := a[..n];
    JoinOne(v, i);
    j := i + 1;
    while j < n && CanMerge(a[j - 1], a[j])
      invariant i < j <= n
      invariant forall k :: 0 <= k < n && k != i ==> a[k] == v[k]
      invariant Joined(v, i, j, a[i])
      invariant j == i + 1 ==> a[i] == v[i]
    {
      JoinNext(v, i, j, a[i]);
      a[i] := a[i].(size := a[i].size + a[j].size);
      j := j + 1;
    }
    if j < n { JoinNext(v, i, j, a[i]); }
  }

  /** The memmove of flatview_simplify: entries `j..n` move down to `i`. */
  method CloseGap(a: array<FlatRange>, n: nat, i: nat, j: nat)
    requires i <= j <= n <= a.Length
    modifies a
    ensures a[..n - (j - i)] == old(a[..i] + a[j..n])
  {
    ghost var head, tail := a[..i], a[j..n];
    assert tail == a[j..j + (n - j)];
    Memmove(a, i, j, n - j);
    assert a[..n - (j - i)] == a[..i] + a[i..i + (n - j)];
  }

  /** flatview_simplify: joins each range with all mergeable successors, closing the gap each time. */
  method Simplify(view: FlatView)
    requires view.Valid() && Sorted(view.Contents())
    modifies view`nr, view.ranges
    ensures view.Valid()
    ensures Sorted(view.Contents()) && Simplified(view.Contents())
    ensures SameOwners(old(view.Contents()), view.Contents())
  {
    hide Sorted, At, SameOwners, Joined, CanMerge, Separate;
    ghost var before := view.Contents();
    SameAsItself(before);
    var i := 0;
    NothingJoined(before);
    while i < view.nr
      invariant view.Valid() && i <= view.nr
      invariant Sorted(view.Contents()) && SameOwners(before, view.Contents())
      invariant Separate(view.Contents(), i)
    {
      ghost var v := view.Contents();
      var j := JoinRun(view.ranges, view.nr, i);
      ghost var w := v[..i] + [view.ranges[i]] + v[j..];
      StillSeparate(v, i, j, view.ranges[i]);
      SameThrough(before, v, w);
      i := i + 1;
      assert view.ranges[..i] == v[..i - 1] + [view.ranges[i - 1]];
      assert view.ranges[j..view.nr] == v[j..];
      CloseGap(view.ranges, view.nr, i, j);
      view.nr := view.nr - (j - i);
      assert view.Contents() == w;
    }
    AllSeparate(view.Contents(), i);
  }

  /** No pair that starts before index `i` can be merged. */
  ghost predicate Separate(v: seq<FlatRange>, i: nat) {
    forall k :: 0 <= k < i && k + 1 < |v| ==> !CanMerge(v[k], v[k + 1])
  }

  lemma NothingJoined(v: seq<FlatRange>)
    ensures Separate(v, 0)
  {
  }

  lemma AllSeparate(v: seq<FlatRange>, i: nat)
    requires Separate(v, i) && |v| <= i
    ensures Simplified(v)
  {
  }

  lemma StillSeparate(v: seq<FlatRange>, i: nat, j: nat, head: FlatRange)
    requires Separate(v, i) && Joined(v, i, j, head)
    requires j < |v| ==> !CanMerge(head, v[j])
    ensures var w := v[..i] + [head] + v[j..];
      Separate(w, i + 1) && Sorted(w) && SameOwners(v, w)
  {
    hide Sorted, SameOwners;
    var w := v[..i] + [head] + v[j..];
    forall k | 0 <= k < i + 1 && k + 1 < |w| ensures !CanMerge(w[k], w[k + 1]) {
      if k < i {
        assert w[k] == v[k] && !CanMerge(v[k], v[k + 1]);
      } else {
        assert w[k + 1] == v[j];
      }
    }
  }

  predicate SameKind(r1: FlatRange, r2: FlatRange) {
    r1.mr == r2.mr && r1.dirtyLogMask == r2.dirtyLogMask && r1.readable == r2.readable && r1.readonly == r2.readonly
  }

  lemma SameAsItself(v: seq<FlatRange>)
    ensures SameOwners(v, v)
  {
  }

  lemma SameThrough(u: seq<FlatRange>, v: seq<FlatRange>, w: seq<FlatRange>)
    requires SameOwners(u, v) && SameOwners(v, w)
    ensures SameOwners(u, w)
  {
    forall a ensures At(u, a) == At(w, a) {
      assert At(u, a) == At(v, a);
    }
  }

  /** The flat map of the tree under `root`: it says of every address who owns it, and it is the
      only array of ranges in its form that does. */
  ghost predicate IsTopology(s: Store, root: Option<RegionId>, v: seq<FlatRange>)
    requires RootedIn(s, root)
  {
    && Sorted(v)
    && Simplified(v)
    && forall a :: At(v, a) == OwnerUnder(s, root, a)
  }

  ghost predicate RootedIn(s: Store, root: Option<RegionId>) {
    Acyclic(s) && (root.Some? ==> root.value in s)
  }

  /** No root, no owners. */
  ghost function OwnerUnder(s: Store, root: Option<RegionId>, a: int): Option<Owner>
    requires RootedIn(s, root)
  {
    if root.Some? then OwnerIn(s, root.value, a) else None
  }

  lemma TopologyIsUnique(s: Store, root: Option<RegionId>, v: seq<FlatRange>, w: seq<FlatRange>)
    requires RootedIn(s, root) && IsTopology(s, root, v) && IsTopology(s, root, w)
    ensures v == w
  {
    forall a ensures At(v, a) == At(w, a) {
      assert At(v, a) == OwnerUnder(s, root, a);
    }
    SimplifiedIsCanonical(v, w);
  }

  const SPACE: AddrRange := AddrRange(0, 0x1_0000_0000_0000_0000)

  /** generate_memory_topology. */
  method GenerateMemoryTopology(s: Store, ghost rank: map<RegionId, nat>, mr: Option<RegionId>) returns (view: FlatView)
    requires Ranked(s, rank) && RootedIn(s, mr)
    ensures fresh(view) && fresh(view.ranges) && view.Valid()
    ensures IsTopology(s, mr, view.Contents())
  {
    view := new FlatView();
    ghost var rendered := [];
    if mr.Some? {
      RenderMemoryRegion(view, s, rank, mr.value, 0, SPACE, false);
      rendered := view.Contents();
      RenderedOwners(s, rank, mr.value, rendered);
    }
    Simplify(view);
    assert SameOwners(rendered, view.Contents());
  }

  lemma RenderedOwners(s: Store, rank: map<RegionId, nat>, root: RegionId, v: seq<FlatRange>)
    requires Ranked(s, rank) && root in s
    requires Overlaid([], v, SPACE, Shown(s, rank, root, 0, false))
    ensures forall a :: At(v, a) == OwnerIn(s, root, a)
  {
    forall a ensures At(v, a) == OwnerIn(s, root, a) {
      OwnerByRank(s, rank, root, a);
    }
  }
}
