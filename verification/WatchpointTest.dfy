/** The address test of check_watchpoint, and the accesses that reach it. */
module WatchpointTest {
  import opened Words

  /** `a & ~(2^bits - 1)`. */
  function Masked(a: nat, bits: nat): (r: nat) {
    DivMod(a, Pow2(bits));
    MulMono(0, a / Pow2(bits), Pow2(bits));
    a - a % Pow2(bits)
  }

  /** An access of 2^size bytes at `va` against a watchpoint of 2^len bytes at `wv`. */
  predicate Hits(va: nat, size: nat, wv: nat, len: nat) {
    va == Masked(wv, size) || Masked(va, len) == wv
  }

  predicate Overlap(va: nat, size: nat, wv: nat, len: nat) {
    va < wv + Pow2(len) && wv < va + Pow2(size)
  }

  predicate Aligned(a: nat, bits: nat) {
    a % Pow2(bits) == 0
  }

  /** Masking finds the start of the block an address is in. */
  lemma MaskedIs(a: nat, start: nat, bits: nat)
    requires Aligned(start, bits)
    ensures Masked(a, bits) == start <==> start <= a < start + Pow2(bits)
  {
    var p := Pow2(bits);
    DivMod(a, p);
    DivMod(start, p);
    if start <= a < start + p {
      DivModIs(a, p, start / p, a - start);
    }
  }

  /** An aligned number stays aligned to every smaller power. */
  lemma AlignedSmaller(a: nat, j: nat, k: nat)
    requires j <= k && Aligned(a, k)
    ensures Aligned(a, j)
  {
    DivMod(a, Pow2(k));
    Pow2Add(k - j, j);
    MulAssoc(a / Pow2(k), Pow2(k - j), Pow2(j));
    DivModIs(a, Pow2(j), (a / Pow2(k)) * Pow2(k - j), 0);
  }

  /** Between two aligned numbers lie whole blocks. */
  lemma AlignedApart(a: nat, b: nat, bits: nat)
    requires Aligned(a, bits) && Aligned(b, bits) && a < b
    ensures a + Pow2(bits) <= b
  {
    var p := Pow2(bits);
    DivMod(a, p);
    DivMod(b, p);
    MulCompare(a / p, b / p, p);
    MulMono(a / p + 1, b / p, p);
    Distribute(a / p, 1, p);
  }

  /** The test is true exactly when the access overlaps the watchpoint and is aligned, or does not begin
      below it. */
  lemma HitsExactly(va: nat, size: nat, wv: nat, len: nat)
    requires Aligned(wv, len)
    ensures Hits(va, size, wv, len) <==> Overlap(va, size, wv, len) && (Aligned(va, size) || wv <= va)
  {
    hide Masked, Aligned;
    MaskedIs(va, wv, len);
    if Aligned(va, size) {
      MaskedIs(wv, va, size);
      if va < wv && size <= len { AlignedSmaller(wv, size, len); AlignedApart(va, wv, size); }
      if wv < va && len <= size { AlignedSmaller(va, len, size); AlignedApart(wv, va, len); }
    } else {
      MaskedAligned(wv, size);
    }
  }

  lemma MaskedAligned(a: nat, bits: nat)
    ensures Aligned(Masked(a, bits), bits)
  {
    DivMod(a, Pow2(bits));
    DivModIs(Masked(a, bits), Pow2(bits), a / Pow2(bits), 0);
  }

  /** So for an aligned access the test is exact. */
  lemma AlignedHits(va: nat, size: nat, wv: nat, len: nat)
    requires Aligned(va, size) && Aligned(wv, len)
    ensures Hits(va, size, wv, len) <==> Overlap(va, size, wv, len)
  {
    HitsExactly(va, size, wv, len);
  }

  // Unaligned accesses do not reach the test: they are taken apart before.

  const PAGE_BITS: nat := 12
  const PAGE: nat := 4096

  datatype Watch = Watch(va: nat, len: nat, onRead: bool, onWrite: bool)
  {
    predicate Valid() { len <= PAGE_BITS && Aligned(va, len) }

    predicate Watches(write: bool) { if write then onWrite else onRead }
  }

  /** One call of check_watchpoint. */
  datatype Test = Test(va: nat, size: nat, write: bool)

  ghost predicate Caught(tests: seq<Test>, w: Watch) {
    exists t :: t in tests && w.Watches(t.write) && Hits(t.va, t.size, w.va, w.len)
  }

  lemma CaughtEither(s: seq<Test>, t: seq<Test>, w: Watch)
    ensures Caught(s + t, w) <==> Caught(s, w) || Caught(t, w)
  {
    if Caught(s, w) {
      var x :| x in s && w.Watches(x.write) && Hits(x.va, x.size, w.va, w.len);
      assert x in s + t;
    }
    if Caught(t, w) {
      var x :| x in t && w.Watches(x.write) && Hits(x.va, x.size, w.va, w.len);
      assert x in s + t;
    }
  }

  lemma CaughtOne(t: Test, w: Watch)
    requires w.Valid() && Aligned(t.va, t.size)
    ensures Caught([t], w) <==> w.Watches(t.write) && Overlap(t.va, t.size, w.va, w.len)
  {
    AlignedHits(t.va, t.size, w.va, w.len);
    assert t in [t];
  }

  /** A block of at most a page lies in one page. */
  lemma InOnePage(a: nat, bits: nat, x: nat)
    requires bits <= PAGE_BITS && Aligned(a, bits) && a <= x < a + Pow2(bits)
    ensures x / PAGE == a / PAGE
  {
    var next := PAGE * (a / PAGE + 1);
    assert Pow2(PAGE_BITS) == PAGE;
    AlignedSmaller(next, bits, PAGE_BITS);
    AlignedApart(a, next, bits);
  }

  lemma OverlapInPage(va: nat, size: nat, wv: nat, len: nat)
    requires size <= PAGE_BITS && len <= PAGE_BITS && Aligned(va, size) && Aligned(wv, len)
    requires Overlap(va, size, wv, len)
    ensures va / PAGE == wv / PAGE
  {
    var x := if va < wv then wv else va;
    InOnePage(va, size, x);
    InOnePage(wv, len, x);
  }

  /** The word a load of 2^size bytes has at `va`, and the next: all that an access can touch. */
  predicate OverlapsWords(va: nat, size: nat, w: Watch) {
    var word := Masked(va, size);
    Overlap(word, size, w.va, w.len) || Overlap(word + Pow2(size), size, w.va, w.len)
  }

  /** No access escapes: the words hold every byte of it. */
  lemma WordsHoldAccess(va: nat, size: nat, w: Watch)
    requires Overlap(va, size, w.va, w.len)
    ensures OverlapsWords(va, size, w)
  {
    WordsAligned(va, size);
  }

  /** The tests of an aligned access, which are made when its page is trapped; eight bytes go in two halves. */
  method AlignedAccess(trapped: set<nat>, va: nat, size: nat, write: bool) returns (tests: seq<Test>)
    requires size <= 3 && Aligned(va, size)
    ensures forall w: Watch :: w.Valid() && w.va / PAGE in trapped ==>
      (Caught(tests, w) <==> w.Watches(write) && Overlap(va, size, w.va, w.len))
  {
    hide Hits, Caught, Aligned;
    if va / PAGE !in trapped {
      tests := [];
    } else if size <= 2 {
      tests := [Test(va, size, write)];
    } else {
      tests := [Test(va, 2, write)] + [Test(va + 4, 2, write)];
    }
    forall w: Watch | w.Valid() && w.va / PAGE in trapped
      ensures Caught(tests, w) <==> w.Watches(write) && Overlap(va, size, w.va, w.len)
    {
      if va / PAGE !in trapped {
        NotCaught(w);
        if Overlap(va, size, w.va, w.len) { OverlapInPage(va, size, w.va, w.len); }
      } else if size <= 2 {
        CaughtOne(tests[0], w);
      } else {
        Halves(va);
        CaughtOne(Test(va, 2, write), w);
        CaughtOne(Test(va + 4, 2, write), w);
        CaughtEither([Test(va, 2, write)], [Test(va + 4, 2, write)], w);
      }
    }
  }

  lemma NotCaught(w: Watch)
    ensures !Caught([], w)
  {
  }

  lemma Halves(va: nat)
    requires Aligned(va, 3)
    ensures Aligned(va, 2) && Aligned(va + 4, 2) && Pow2(2) == 4 && Pow2(3) == 8
  {
    assert Pow2(2) == 4 && Pow2(3) == 8;
  }

  /** Whether an unaligned access takes the slow path: its page is trapped, or it reaches into the next. */
  predicate Slow(trapped: set<nat>, va: nat, size: nat) {
    va / PAGE in trapped || PAGE <= va % PAGE + Pow2(size) - 1
  }

  /** A load: an unaligned one reads two aligned words. It is caught exactly when a watched byte lies in one
      of the words, which need not be one of the bytes loaded. */
  method Load(trapped: set<nat>, va: nat, size: nat) returns (tests: seq<Test>)
    requires size <= 3
    ensures forall w: Watch :: w.Valid() && w.va / PAGE in trapped ==>
      var overlap := if Aligned(va, size) then Overlap(va, size, w.va, w.len) else OverlapsWords(va, size, w);
      (Caught(tests, w) <==> w.onRead && overlap)
  {
    hide Caught, Aligned, Overlap, Masked;
    if Aligned(va, size) {
      tests := AlignedAccess(trapped, va, size, false);
    } else if Slow(trapped, va, size) {
      var word := Masked(va, size);
      WordsAligned(va, size);
      var first := AlignedAccess(trapped, word, size, false);
      var second := AlignedAccess(trapped, word + Pow2(size), size, false);
      tests := first + second;
      forall w: Watch | w.Valid() && w.va / PAGE in trapped
        ensures Caught(tests, w) <==> w.onRead && OverlapsWords(va, size, w)
      {
        CaughtEither(first, second, w);
      }
    } else {
      tests := [];
      forall w: Watch | w.Valid() && w.va / PAGE in trapped
        ensures !Caught(tests, w) && !OverlapsWords(va, size, w)
      {
        NotCaught(w);
        WordsElsewhere(trapped, va, size, w);
      }
    }
  }

  /** A store: an unaligned one first reads and writes back every byte, then stores every byte, from the last
      down. It is caught exactly when one of its bytes is watched, be it only for reading. */
  method Store(trapped: set<nat>, va: nat, size: nat) returns (tests: seq<Test>)
    requires size <= 3
    ensures forall w: Watch :: w.Valid() && w.va / PAGE in trapped ==>
      (Caught(tests, w) <==> (w.onWrite || (w.onRead && !Aligned(va, size))) && Overlap(va, size, w.va, w.len))
  {
    hide Caught, Aligned, Overlap;
    if Aligned(va, size) {
      tests := AlignedAccess(trapped, va, size, true);
    } else if Slow(trapped, va, size) {
      tests := [];
      var i: nat := Pow2(size);
      forall w: Watch ensures !Caught(tests, w) && !BytesOverlap(va, i, Pow2(size), w) {
        NotCaught(w);
        NoBytes(va, i, w);
      }
      while 0 < i
        invariant i <= Pow2(size)
        invariant forall w: Watch :: w.Valid() && w.va / PAGE in trapped ==>
          (Caught(tests, w) <==> (w.onWrite || w.onRead) && BytesOverlap(va, i, Pow2(size), w))
      {
        i := i - 1;
        ByteAligned(va + i);
        var read := AlignedAccess(trapped, va + i, 0, false);
        var back := AlignedAccess(trapped, va + i, 0, true);
        forall w: Watch | w.Valid() && w.va / PAGE in trapped
          ensures Caught(tests + read + back, w) <==> (w.onWrite || w.onRead) && BytesOverlap(va, i, Pow2(size), w)
        {
          CaughtEither(tests, read, w);
          CaughtEither(tests + read, back, w);
          OneMoreByte(va, i, Pow2(size), w);
        }
        tests := tests + read + back;
      }
      i := Pow2(size);
      while 0 < i
        invariant i <= Pow2(size)
        invariant forall w: Watch :: w.Valid() && w.va / PAGE in trapped ==>
          (Caught(tests, w) <==> (w.onWrite || w.onRead) && BytesOverlap(va, 0, Pow2(size), w))
      {
        i := i - 1;
        ByteAligned(va + i);
        var store := AlignedAccess(trapped, va + i, 0, true);
        forall w: Watch | w.Valid() && w.va / PAGE in trapped
          ensures Caught(tests + store, w) <==> (w.onWrite || w.onRead) && BytesOverlap(va, 0, Pow2(size), w)
        {
          CaughtEither(tests, store, w);
          ByteIsOne(va, i, Pow2(size), w);
        }
        tests := tests + store;
      }
      forall w: Watch ensures BytesOverlap(va, 0, Pow2(size), w) <==> Overlap(va, size, w.va, w.len) {
        AllBytes(va, size, w);
      }
    } else {
      tests := [];
      forall w: Watch | w.Valid() && w.va / PAGE in trapped
        ensures !Caught(tests, w) && !Overlap(va, size, w.va, w.len)
      {
        NotCaught(w);
        AccessElsewhere(trapped, va, size, w);
      }
    }
  }

  predicate ByteWatched(a: nat, w: Watch) {
    w.va <= a < w.va + Pow2(w.len)
  }

  /** One of the bytes from `va + i` to below `va + n` is watched. */
  ghost predicate BytesOverlap(va: nat, i: nat, n: nat, w: Watch) {
    exists a: nat :: va + i <= a < va + n && ByteWatched(a, w)
  }

  lemma OneMoreByte(va: nat, i: nat, n: nat, w: Watch)
    requires i < n
    ensures BytesOverlap(va, i, n, w) <==> BytesOverlap(va, i + 1, n, w) || Overlap(va + i, 0, w.va, w.len)
  {
    assert Pow2(0) == 1;
    assert ByteWatched(va + i, w) <==> Overlap(va + i, 0, w.va, w.len);
  }

  lemma ByteIsOne(va: nat, i: nat, n: nat, w: Watch)
    requires i < n
    ensures Overlap(va + i, 0, w.va, w.len) ==> BytesOverlap(va, 0, n, w)
  {
    assert Pow2(0) == 1;
    assert ByteWatched(va + i, w) <==> Overlap(va + i, 0, w.va, w.len);
  }

  lemma NoBytes(va: nat, n: nat, w: Watch)
    ensures !BytesOverlap(va, n, n, w)
  {
  }

  lemma AllBytes(va: nat, size: nat, w: Watch)
    ensures BytesOverlap(va, 0, Pow2(size), w) <==> Overlap(va, size, w.va, w.len)
  {
    if Overlap(va, size, w.va, w.len) {
      var a: nat := if va < w.va then w.va else va;
      assert ByteWatched(a, w);
    }
  }

  lemma ByteAligned(a: nat)
    ensures Aligned(a, 0)
  {
  }

  lemma WordsAligned(va: nat, size: nat)
    ensures Aligned(Masked(va, size), size) && Aligned(Masked(va, size) + Pow2(size), size)
    ensures Masked(va, size) <= va < Masked(va, size) + Pow2(size)
  {
    var p := Pow2(size);
    MaskedAligned(va, size);
    DivMod(va, p);
    Distribute(va / p, 1, p);
    DivModIs(Masked(va, size) + p, p, va / p + 1, 0);
  }

  /** The words of an unaligned access that is not slow lie in its page. */
  lemma WordsInPage(va: nat, size: nat)
    requires size <= 3 && !Aligned(va, size) && va % PAGE + Pow2(size) - 1 < PAGE
    ensures Masked(va, size) / PAGE == va / PAGE == (Masked(va, size) + Pow2(size)) / PAGE
  {
    var word := Masked(va, size);
    WordsAligned(va, size);
    InOnePage(word, size, va);
    assert word != va;
  }

  lemma WordsElsewhere(trapped: set<nat>, va: nat, size: nat, w: Watch)
    requires size <= 3 && !Aligned(va, size) && !Slow(trapped, va, size) && w.Valid() && w.va / PAGE in trapped
    ensures !OverlapsWords(va, size, w)
  {
    var word := Masked(va, size);
    WordsInPage(va, size);
    WordsAligned(va, size);
    if Overlap(word, size, w.va, w.len) { OverlapInPage(word, size, w.va, w.len); }
    if Overlap(word + Pow2(size), size, w.va, w.len) { OverlapInPage(word + Pow2(size), size, w.va, w.len); }
  }

  lemma AccessElsewhere(trapped: set<nat>, va: nat, size: nat, w: Watch)
    requires size <= 3 && !Slow(trapped, va, size) && w.Valid() && w.va / PAGE in trapped
    ensures !Overlap(va, size, w.va, w.len)
  {
    if Overlap(va, size, w.va, w.len) {
      var x := if va < w.va then w.va else va;
      InOnePage(w.va, w.len, x);
    }
  }
}
