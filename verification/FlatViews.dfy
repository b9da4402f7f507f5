/** The flattened memory map of memory.c: ranges, what they say about an address, and the growing
    array that holds them. */
module FlatViews {
  datatype Option<T> = None | Some(value: T)

  /** A memory region is known by the address of its structure. */
  type RegionId = nat

  /** What an address resolves to. */
  datatype Owner = Owner(mr: RegionId, offset: int, dirtyLogMask: bv8, readable: bool, readonly: bool)

  /** A range of the map. Addresses are absolute; 128-bit values are unbounded integers here. */
  datatype FlatRange = FlatRange(mr: RegionId, offsetInRegion: int, start: int, size: int,
                                 dirtyLogMask: bv8, readable: bool, readonly: bool)
  {
    function End(): int { start + size }

    predicate Contains(a: int) { start <= a < start + size }

    function OwnerOf(a: int): Owner {
      Owner(mr, offsetInRegion + (a - start), dirtyLogMask, readable, readonly)
    }
  }

  /** Sorted, disjoint, and without empty ranges. */
  ghost predicate Sorted(v: seq<FlatRange>) {
    && (forall i :: 0 <= i < |v| ==> 0 < v[i].size)
    && (forall i, j :: 0 <= i < j < |v| ==> v[i].End() <= v[j].start)
  }

  /** The owner of an address in a view. */
  ghost function At(v: seq<FlatRange>, a: int): Option<Owner> {
    if exists k :: 0 <= k < |v| && v[k].Contains(a) then
      var k :| 0 <= k < |v| && v[k].Contains(a);
      Some(v[k].OwnerOf(a))
    else None
  }

  lemma AtIndex(v: seq<FlatRange>, k: nat, a: int)
    requires Sorted(v) && k < |v| && v[k].Contains(a)
    ensures At(v, a) == Some(v[k].OwnerOf(a))
  {
    var j :| 0 <= j < |v| && v[j].Contains(a) && At(v, a) == Some(v[j].OwnerOf(a));
    if j < k { assert v[j].End() <= v[k].start; }
    if k < j { assert v[k].End() <= v[j].start; }
  }

  lemma AtNowhere(v: seq<FlatRange>, a: int)
    requires forall k :: 0 <= k < |v| ==> !v[k].Contains(a)
    ensures At(v, a) == None
  {
  }

  /** Where an address is found, if anywhere. */
  lemma Find(v: seq<FlatRange>, a: int) returns (k: Option<nat>)
    requires Sorted(v)
    ensures k.Some? ==> k.value < |v| && v[k.value].Contains(a) && At(v, a) == Some(v[k.value].OwnerOf(a))
    ensures k.None? ==> At(v, a) == None && forall i :: 0 <= i < |v| ==> !v[i].Contains(a)
  {
    if i :| 0 <= i < |v| && v[i].Contains(a) {
      AtIndex(v, i, a);
      return Some(i);
    }
    return None;
  }

  /** Inserting a range adds its addresses and changes nothing else. */
  lemma AtInsert(v: seq<FlatRange>, i: nat, r: FlatRange, a: int)
    requires i <= |v| && Sorted(v) && Sorted(v[..i] + [r] + v[i..])
    ensures At(v[..i] + [r] + v[i..], a) == if r.Contains(a) then Some(r.OwnerOf(a)) else At(v, a)
  {
    hide Sorted, At;
    var w := v[..i] + [r] + v[i..];
    var found := Find(v, a);
    if r.Contains(a) {
      AtIndex(w, i, a);
    } else if found.Some? {
      var k := found.value;
      AtIndex(w, if k < i then k else k + 1, a);
    } else {
      AtNowhere(w, a);
    }
  }

  lemma SortedInsert(v: seq<FlatRange>, i: nat, r: FlatRange)
    requires i <= |v| && Sorted(v) && 0 < r.size
    requires forall k :: 0 <= k < i ==> v[k].End() <= r.start
    requires i < |v| ==> r.End() <= v[i].start
    ensures Sorted(v[..i] + [r] + v[i..])
  {
    var w := v[..i] + [r] + v[i..];
    forall k, l | 0 <= k < l < |w| ensures w[k].End() <= w[l].start {
      if l == i {
        assert w[k] == v[k];
      } else if k == i {
        assert w[l] == v[l - 1];
        assert i <= l - 1;
        if i < l - 1 { assert v[i].End() <= v[l - 1].start; }
      } else {
        assert w[k] == v[if k < i then k else k - 1];
        assert w[l] == v[if l < i then l else l - 1];
      }
    }
  }

  /** memmove: all source entries are read before any is written. */
  method Memmove(a: array<FlatRange>, dst: nat, src: nat, count: nat)
    requires dst + count <= a.Length && src + count <= a.Length
    modifies a
    ensures a[dst..dst + count] == old(a[src..src + count])
    ensures a[..dst] == old(a[..dst]) && a[dst + count..] == old(a[dst + count..])
  {
    forall j | dst <= j < dst + count {
      a[j] := a[src + (j - dst)];
    }
  }

  method InsertAt(a: array<FlatRange>, n: nat, pos: nat, range: FlatRange)
    requires pos <= n < a.Length
    modifies a
    ensures a[..n + 1] == old(a[..n])[..pos] + [range] + old(a[..n])[pos..]
  {
    ghost var before := a[..n];
    assert before[pos..] == a[pos..pos + (n - pos)];
    Memmove(a, pos + 1, pos, n - pos);
    a[pos] := range;
    assert a[..pos] == before[..pos];
    assert a[pos + 1..n + 1] == before[pos..];
    assert a[..n + 1] == a[..pos] + [a[pos]] + a[pos + 1..n + 1];
  }

  class FlatView {
    var ranges: array<FlatRange>
    var nr: nat

    ghost predicate Valid()
      reads this
    {
      nr <= ranges.Length
    }

    ghost function Contents(): seq<FlatRange>
      reads this, ranges
      requires Valid()
    {
      ranges[..nr]
    }

    /** flatview_init. */
    constructor ()
      ensures Valid() && fresh(ranges) && Contents() == []
    {
      ranges := new FlatRange[0];
      nr := 0;
    }

    /** flatview_insert: grows the array when it is full, then moves the tail up by one. */
    method Insert(pos: nat, range: FlatRange)
      requires Valid() && pos <= nr
      modifies this, ranges
      ensures Valid() && (ranges == old(ranges) || fresh(ranges))
      ensures Contents() == old(Contents())[..pos] + [range] + old(Contents())[pos..]
    {
      if nr == ranges.Length {
        Grow(range);
      }
      InsertAt(ranges, nr, pos, range);
      nr := nr + 1;
    }

    /** The realloc of flatview_insert; `filler` stands for the unspecified new entries. */
    method Grow(filler: FlatRange)
      requires Valid() && nr == ranges.Length
      modifies this`ranges
      ensures Valid() && fresh(ranges) && nr < ranges.Length && Contents() == old(Contents())
    {
      var capacity := if 10 < 2 * nr then 2 * nr else 10;
      var bigger := new FlatRange[capacity](_ => filler);
      forall k | 0 <= k < nr {
        bigger[k] := ranges[k];
      }
      assert bigger[..nr] == ranges[..nr];
      ranges := bigger;
    }
  }
}
