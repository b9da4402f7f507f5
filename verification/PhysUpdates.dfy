/** What setting a range of pages does to the page table, and how such updates compose. */
module PhysUpdates {
  import opened Words
  import opened PhysPages

  /** phys_map_nodes with its fill count. The length of `nodes` is the allocated capacity. */
  datatype Table = Table(nodes: Nodes, used: nat)

  ghost predicate Formed(t: Table, fan: Fan) {
    Shaped(t.nodes, fan) && t.used <= |t.nodes|
  }

  /** Page `i` after the update of `[lo, hi)`. */
  ghost predicate PageUpdated(t: Table, t': Table, fan: Fan, e: Entry, e': Entry, l: nat, lo: nat, hi: nat, leaf: nat,
                              i: nat)
    requires Shaped(t.nodes, fan) && Shaped(t'.nodes, fan)
  {
    if lo <= i < hi then
      Lookup(t'.nodes, fan, e', l, i) == leaf && (hi - lo == 1 ==> Open(t'.nodes, fan, e', l, i))
    else
      Lookup(t'.nodes, fan, e', l, i) == Lookup(t.nodes, fan, e, l, i)
        && Open(t'.nodes, fan, e', l, i) == Open(t.nodes, fan, e, l, i)
  }

  /** Node `x` is unchanged and not reached unless it was reached before or has just been allocated. */
  ghost predicate NodeUpdated(t: Table, t': Table, fan: Fan, e: Entry, e': Entry, l: nat, x: nat)
    requires Shaped(t.nodes, fan) && Shaped(t'.nodes, fan) && |t'.nodes| == |t.nodes| && x < |t.nodes|
  {
    Owns(t.nodes, fan, e, l, x) || t.used <= x < t'.used
      || (t'.nodes[x] == t.nodes[x] && !Owns(t'.nodes, fan, e', l, x))
  }

  /** The pages `[lo, hi)` below an entry that stands for `Span` pages from `base` now show `leaf`; the
      others are as before. The array has not been reallocated. */
  ghost predicate Updated(t: Table, t': Table, fan: Fan, e: Entry, e': Entry, l: nat, base: nat, lo: nat, hi: nat,
                          leaf: nat)
    requires Formed(t, fan) && Formed(t', fan)
  {
    && |t'.nodes| == |t.nodes| && t.used <= t'.used
    && Tree(t'.nodes, t'.used, fan, e', l)
    && (forall x: nat :: x < |t.nodes| ==> NodeUpdated(t, t', fan, e, e', l, x))
    && (forall i: nat :: base <= i < base + Span(fan, l) ==> PageUpdated(t, t', fan, e, e', l, lo, hi, leaf, i))
  }

  lemma UpdatedTwice(t: Table, t1: Table, t2: Table, fan: Fan, e: Entry, e1: Entry, e2: Entry, l: nat, base: nat,
                     lo: nat, mid: nat, hi: nat, leaf: nat)
    requires Formed(t, fan) && Formed(t1, fan) && Formed(t2, fan) && lo <= mid <= hi
    requires Updated(t, t1, fan, e, e1, l, base, lo, mid, leaf) && Updated(t1, t2, fan, e1, e2, l, base, mid, hi, leaf)
    ensures Updated(t, t2, fan, e, e2, l, base, lo, hi, leaf)
  {
    hide Tree, Lookup, Open, Owns;
    forall i: nat | base <= i < base + Span(fan, l) ensures PageUpdated(t, t2, fan, e, e2, l, lo, hi, leaf, i) {
      assert PageUpdated(t, t1, fan, e, e1, l, lo, mid, leaf, i)
        && PageUpdated(t1, t2, fan, e1, e2, l, mid, hi, leaf, i);
    }
    forall x: nat | x < |t.nodes| ensures NodeUpdated(t, t2, fan, e, e2, l, x) {
      assert NodeUpdated(t, t1, fan, e, e1, l, x) && NodeUpdated(t1, t2, fan, e1, e2, l, x);
    }
  }

  /** Span of level `l` is `fan` times that of level `l - 1`; the pages below entry `j` of a node. */
  lemma SlotPages(fan: Fan, l: nat, base: nat, j: nat, i: nat)
    requires 0 < l && base % Span(fan, l) == 0 && j < fan
    requires base + Product(j, Span(fan, l - 1)) <= i < base + Product(j, Span(fan, l - 1)) + Span(fan, l - 1)
    ensures Slot(fan, l, i) == j && base <= i < base + Span(fan, l)
  {
    var s := Span(fan, l - 1);
    var q := base / Span(fan, l);
    DivMod(base, Span(fan, l));
    var r := i - base - Product(j, s);
    calc {
      i;
      q * (fan * s) + j * s + r;
      { MulAssoc(q, fan, s); }
      (q * fan) * s + j * s + r;
      { Distribute(q * fan, j, s); }
      (q * fan + j) * s + r;
    }
    DivModIs(i, s, q * fan + j, r);
    DivModIs(q * fan + j, fan, q, j);
    Distribute(j, 1, s);
    MulMono(j + 1, fan, s);
  }

  lemma ProductMono(j: nat, k: nat, s: nat)
    requires j < k
    ensures Product(j, s) + s <= Product(k, s)
  {
    Distribute(j, 1, s);
    MulMono(j + 1, k, s);
  }

  /** Every page below an entry is below exactly one of the entries of its node. */
  lemma SlotFound(fan: Fan, l: nat, base: nat, i: nat) returns (j: nat)
    requires 0 < l && base % Span(fan, l) == 0 && base <= i < base + Span(fan, l)
    ensures j == Slot(fan, l, i)
    ensures base + Product(j, Span(fan, l - 1)) <= i < base + Product(j, Span(fan, l - 1)) + Span(fan, l - 1)
  {
    var s := Span(fan, l - 1);
    j := (i - base) / s;
    DivMod(i - base, s);
    if fan <= j { MulMono(fan, j, s); }
    SlotPages(fan, l, base, j, i);
  }

  lemma ChildAligned(fan: Fan, l: nat, base: nat, j: nat)
    requires 0 < l && base % Span(fan, l) == 0
    ensures (base + Product(j, Span(fan, l - 1))) % Span(fan, l - 1) == 0
  {
    var s := Span(fan, l - 1);
    var q := base / Span(fan, l);
    DivMod(base, Span(fan, l));
    MulAssoc(q, fan, s);
    Distribute(q * fan, j, s);
    DivModIs(base + Product(j, s), s, q * fan + j, 0);
  }

  /** The table with entry `k` of node `n` replaced. */
  function Stored(t: Table, n: nat, k: nat, c: Entry): Table
    requires n < |t.nodes| && k < |t.nodes[n]|
  {
    t.(nodes := t.nodes[n := t.nodes[n][k := c]])
  }

  /** Child `k` of `e` has been updated to `c'`, and is now stored in the node. */
  ghost predicate ChildDone(t: Table, t1: Table, fan: Fan, e: Entry, l: nat, k: nat, c': Entry, base: nat, lo: nat,
                            hi: nat, leaf: nat)
  {
    && Formed(t, fan) && Formed(t1, fan) && Tree(t.nodes, t.used, fan, e, l) && Points(t.nodes, e, l) && k < fan
    && Updated(t, t1, fan, Child(t.nodes, fan, e, l, k), c', l - 1, base + Product(k, Span(fan, l - 1)), lo, hi, leaf)
  }

  lemma NodeKept(t: Table, t1: Table, fan: Fan, e: Entry, l: nat, k: nat, c': Entry, base: nat, lo: nat, hi: nat,
                 leaf: nat)
    requires ChildDone(t, t1, fan, e, l, k, c', base, lo, hi, leaf)
    ensures e.ptr < t.used && t1.nodes[e.ptr] == t.nodes[e.ptr] && |t1.nodes| == |t.nodes|
    ensures Formed(Stored(t1, e.ptr, k, c'), fan)
    ensures |Stored(t1, e.ptr, k, c').nodes| == |t1.nodes| && Stored(t1, e.ptr, k, c').used == t1.used
    ensures Points(Stored(t1, e.ptr, k, c').nodes, e, l)
    ensures forall j: nat :: j < fan ==>
      Child(Stored(t1, e.ptr, k, c').nodes, fan, e, l, j) == if j == k then c' else Child(t.nodes, fan, e, l, j)
  {
    assert NodeUpdated(t, t1, fan, Child(t.nodes, fan, e, l, k), c', l - 1, e.ptr);
  }

  /** The other children do not notice. */
  lemma OthersKept(t: Table, t1: Table, fan: Fan, e: Entry, l: nat, k: nat, c': Entry, base: nat, lo: nat, hi: nat,
                   leaf: nat, j: nat)
    requires ChildDone(t, t1, fan, e, l, k, c', base, lo, hi, leaf) && j < fan && j != k
    requires e.ptr < |t1.nodes| && k < |t1.nodes[e.ptr]|
    ensures SameOwned(t.nodes, Stored(t1, e.ptr, k, c').nodes, fan, Child(t.nodes, fan, e, l, j), l - 1)
  {
    var c, d := Child(t.nodes, fan, e, l, k), Child(t.nodes, fan, e, l, j);
    var t2 := Stored(t1, e.ptr, k, c');
    assert Tree(t.nodes, t.used, fan, d, l - 1);
    assert Apart(t.nodes, fan, if j < k then d else c, if j < k then c else d, l - 1);
    forall x: nat | x < |t.nodes| && Owns(t.nodes, fan, d, l - 1, x) ensures t2.nodes[x] == t.nodes[x] {
      OwnedInUse(t.nodes, t.used, fan, d, l - 1, x);
      assert NodeUpdated(t, t1, fan, c, c', l - 1, x);
    }
  }

  /** Nor does the updated child notice the store. */
  lemma UpdatedKept(t: Table, t1: Table, fan: Fan, e: Entry, l: nat, k: nat, c': Entry, base: nat, lo: nat, hi: nat,
                    leaf: nat)
    requires ChildDone(t, t1, fan, e, l, k, c', base, lo, hi, leaf)
    requires e.ptr < |t1.nodes| && k < |t1.nodes[e.ptr]|
    ensures SameOwned(t1.nodes, Stored(t1, e.ptr, k, c').nodes, fan, c', l - 1)
    ensures !Owns(t1.nodes, fan, c', l - 1, e.ptr)
  {
    assert NodeUpdated(t, t1, fan, Child(t.nodes, fan, e, l, k), c', l - 1, e.ptr);
  }

  lemma LiftPage(t: Table, t1: Table, fan: Fan, e: Entry, l: nat, k: nat, c': Entry, base: nat, lo: nat, hi: nat,
                 leaf: nat, i: nat)
    requires ChildDone(t, t1, fan, e, l, k, c', base, lo, hi, leaf)
    requires base % Span(fan, l) == 0 && base <= i < base + Span(fan, l)
    requires base + Product(k, Span(fan, l - 1)) <= lo && hi <= base + Product(k, Span(fan, l - 1)) + Span(fan, l - 1)
    requires e.ptr < |t1.nodes| && k < |t1.nodes[e.ptr]| && Formed(Stored(t1, e.ptr, k, c'), fan)
    ensures PageUpdated(t, Stored(t1, e.ptr, k, c'), fan, e, e, l, lo, hi, leaf, i)
  {
    hide Tree, Owns, Span, Stored, Updated, SameOwned;
    var t2 := Stored(t1, e.ptr, k, c');
    NodeKept(t, t1, fan, e, l, k, c', base, lo, hi, leaf);
    var j := SlotFound(fan, l, base, i);
    if j == k {
      UpdatedKept(t, t1, fan, e, l, k, c', base, lo, hi, leaf);
      LookupFrame(t1.nodes, t2.nodes, fan, c', l - 1, i);
      UpdatedPage(t, t1, fan, Child(t.nodes, fan, e, l, k), c', l - 1, base + Product(k, Span(fan, l - 1)), lo, hi,
        leaf, i);
    } else {
      OthersKept(t, t1, fan, e, l, k, c', base, lo, hi, leaf, j);
      LookupFrame(t.nodes, t2.nodes, fan, Child(t.nodes, fan, e, l, j), l - 1, i);
      if j < k { ProductMono(j, k, Span(fan, l - 1)); } else { ProductMono(k, j, Span(fan, l - 1)); }
    }
  }

  lemma UpdatedPage(t: Table, t': Table, fan: Fan, e: Entry, e': Entry, l: nat, base: nat, lo: nat, hi: nat,
                    leaf: nat, i: nat)
    requires Formed(t, fan) && Formed(t', fan) && Updated(t, t', fan, e, e', l, base, lo, hi, leaf)
    requires base <= i < base + Span(fan, l)
    ensures PageUpdated(t, t', fan, e, e', l, lo, hi, leaf, i)
  {
  }

  lemma LiftNode(t: Table, t1: Table, fan: Fan, e: Entry, l: nat, k: nat, c': Entry, base: nat, lo: nat, hi: nat,
                 leaf: nat, x: nat)
    requires ChildDone(t, t1, fan, e, l, k, c', base, lo, hi, leaf)
    requires e.ptr < |t1.nodes| && k < |t1.nodes[e.ptr]| && Formed(Stored(t1, e.ptr, k, c'), fan) && x < |t.nodes|
    ensures NodeUpdated(t, Stored(t1, e.ptr, k, c'), fan, e, e, l, x)
  {
    hide Tree, Span, Stored, SameOwned;
    var t2 := Stored(t1, e.ptr, k, c');
    NodeKept(t, t1, fan, e, l, k, c', base, lo, hi, leaf);
    assert NodeUpdated(t, t1, fan, Child(t.nodes, fan, e, l, k), c', l - 1, x);
    if !Owns(t.nodes, fan, e, l, x) && !(t.used <= x < t1.used) {
      assert x != e.ptr;
      assert t2.nodes[x] == t1.nodes[x] by { StoredElsewhere(t1, e.ptr, k, c', x); }
      forall j: nat | j < fan ensures !Owns(t2.nodes, fan, Child(t2.nodes, fan, e, l, j), l - 1, x) {
        if j == k {
          UpdatedKept(t, t1, fan, e, l, k, c', base, lo, hi, leaf);
          OwnsFrame(t1.nodes, t2.nodes, fan, c', l - 1, x);
        } else {
          OthersKept(t, t1, fan, e, l, k, c', base, lo, hi, leaf, j);
          OwnsFrame(t.nodes, t2.nodes, fan, Child(t.nodes, fan, e, l, j), l - 1, x);
        }
      }
    }
  }

  lemma StoredElsewhere(t: Table, n: nat, k: nat, c: Entry, x: nat)
    requires n < |t.nodes| && k < |t.nodes[n]| && x < |t.nodes| && x != n
    ensures Stored(t, n, k, c).nodes[x] == t.nodes[x]
  {
  }

  lemma LiftTree(t: Table, t1: Table, fan: Fan, e: Entry, l: nat, k: nat, c': Entry, base: nat, lo: nat, hi: nat,
                 leaf: nat)
    requires ChildDone(t, t1, fan, e, l, k, c', base, lo, hi, leaf)
    requires e.ptr < |t1.nodes| && k < |t1.nodes[e.ptr]| && Formed(Stored(t1, e.ptr, k, c'), fan)
    ensures Tree(Stored(t1, e.ptr, k, c').nodes, t1.used, fan, e, l)
  {
    hide Owns, Span, Stored, SameOwned, Lookup, Open;
    var t2 := Stored(t1, e.ptr, k, c');
    NodeKept(t, t1, fan, e, l, k, c', base, lo, hi, leaf);
    UpdatedKept(t, t1, fan, e, l, k, c', base, lo, hi, leaf);
    TreeFrame(t1.nodes, t2.nodes, t1.used, t1.used, fan, c', l - 1);
    OwnsFrame(t1.nodes, t2.nodes, fan, c', l - 1, e.ptr);
    forall j: nat | j < fan && j != k
      ensures Tree(t2.nodes, t1.used, fan, Child(t2.nodes, fan, e, l, j), l - 1)
      ensures !Owns(t2.nodes, fan, Child(t2.nodes, fan, e, l, j), l - 1, e.ptr)
      ensures Apart(t2.nodes, fan, Child(t2.nodes, fan, e, l, j), c', l - 1)
      ensures Apart(t2.nodes, fan, c', Child(t2.nodes, fan, e, l, j), l - 1)
    {
      var d := Child(t.nodes, fan, e, l, j);
      OthersKept(t, t1, fan, e, l, k, c', base, lo, hi, leaf, j);
      TreeFrame(t.nodes, t2.nodes, t.used, t1.used, fan, d, l - 1);
      OwnsFrame(t.nodes, t2.nodes, fan, d, l - 1, e.ptr);
      ApartFromUpdated(t, t1, fan, e, l, k, c', base, lo, hi, leaf, j);
    }
    forall i: nat, j: nat | i < j < fan
      ensures Apart(t2.nodes, fan, Child(t2.nodes, fan, e, l, i), Child(t2.nodes, fan, e, l, j), l - 1)
    {
      if i != k && j != k {
        OthersKept(t, t1, fan, e, l, k, c', base, lo, hi, leaf, i);
        OthersKept(t, t1, fan, e, l, k, c', base, lo, hi, leaf, j);
        ApartFrame(t.nodes, t2.nodes, fan, Child(t.nodes, fan, e, l, i), Child(t.nodes, fan, e, l, j), l - 1);
      }
    }
  }

  lemma ApartFromUpdated(t: Table, t1: Table, fan: Fan, e: Entry, l: nat, k: nat, c': Entry, base: nat, lo: nat,
                         hi: nat, leaf: nat, j: nat)
    requires ChildDone(t, t1, fan, e, l, k, c', base, lo, hi, leaf) && j < fan && j != k
    requires e.ptr < |t1.nodes| && k < |t1.nodes[e.ptr]| && Formed(Stored(t1, e.ptr, k, c'), fan)
    requires |Stored(t1, e.ptr, k, c').nodes| == |t1.nodes|
    ensures Apart(Stored(t1, e.ptr, k, c').nodes, fan, Child(t.nodes, fan, e, l, j), c', l - 1)
    ensures Apart(Stored(t1, e.ptr, k, c').nodes, fan, c', Child(t.nodes, fan, e, l, j), l - 1)
  {
    hide Span, Stored, SameOwned, Owns, Lookup, Open;
    var t2 := Stored(t1, e.ptr, k, c');
    var c, d := Child(t.nodes, fan, e, l, k), Child(t.nodes, fan, e, l, j);
    assert Tree(t.nodes, t.used, fan, d, l - 1);
    assert Apart(t.nodes, fan, if j < k then d else c, if j < k then c else d, l - 1);
    OthersKept(t, t1, fan, e, l, k, c', base, lo, hi, leaf, j);
    UpdatedKept(t, t1, fan, e, l, k, c', base, lo, hi, leaf);
    var m := l - 1;
    forall x: nat ensures !(Owns(t2.nodes, fan, d, m, x) && Owns(t2.nodes, fan, c', m, x)) {
      OwnsFrame(t.nodes, t2.nodes, fan, d, m, x);
      OwnsFrame(t1.nodes, t2.nodes, fan, c', m, x);
      if Owns(t.nodes, fan, d, m, x) {
        OwnedInUse(t.nodes, t.used, fan, d, m, x);
        assert NodeUpdated(t, t1, fan, c, c', m, x);
      }
    }
  }

  /** An updated child makes an updated entry. */
  lemma Lift(t: Table, t1: Table, fan: Fan, e: Entry, l: nat, k: nat, c': Entry, base: nat, lo: nat, hi: nat, leaf: nat)
    requires ChildDone(t, t1, fan, e, l, k, c', base, lo, hi, leaf) && base % Span(fan, l) == 0
    requires base + Product(k, Span(fan, l - 1)) <= lo && hi <= base + Product(k, Span(fan, l - 1)) + Span(fan, l - 1)
    ensures e.ptr < |t1.nodes| && k < |t1.nodes[e.ptr]| && Formed(Stored(t1, e.ptr, k, c'), fan)
    ensures Updated(t, Stored(t1, e.ptr, k, c'), fan, e, e, l, base, lo, hi, leaf)
  {
    hide Tree, Owns, Lookup, Open, Span, NodeUpdated, PageUpdated;
    NodeKept(t, t1, fan, e, l, k, c', base, lo, hi, leaf);
    LiftTree(t, t1, fan, e, l, k, c', base, lo, hi, leaf);
    forall i: nat | base <= i < base + Span(fan, l) { LiftPage(t, t1, fan, e, l, k, c', base, lo, hi, leaf, i); }
    forall x: nat | x < |t.nodes| { LiftNode(t, t1, fan, e, l, k, c', base, lo, hi, leaf, x); }
  }

  // Where updates come from: a store of a leaf, and a new node.

  lemma {:induction false} SpanGrows(fan: Fan, l: nat)
    ensures 0 < l ==> 1 < Span(fan, l)
  {
    if 0 < l { MulMono(1, Span(fan, l - 1), fan); }
  }

  lemma LeafStored(t: Table, fan: Fan, c: Entry, l: nat, base: nat, leaf: nat)
    requires Formed(t, fan)
    ensures Updated(t, t, fan, c, Entry(true, leaf), l, base, base, base + Span(fan, l), leaf)
  {
    SpanGrows(fan, l);
  }

  /** The entries of a node allocated below an entry of level `l`. */
  function Blank(fan: Fan, l: nat): seq<Entry> {
    seq(fan, _ => if l == 1 then Entry(true, UNASSIGNED) else Entry(false, NIL))
  }

  function Grown(t: Table, fan: Fan, l: nat): Table
    requires t.used < |t.nodes|
  {
    Table(t.nodes[t.used := Blank(fan, l)], t.used + 1)
  }

  lemma NodeAdded(t: Table, fan: Fan, e: Entry, l: nat, base: nat, lo: nat, leaf: nat)
    requires Formed(t, fan) && t.used < |t.nodes| && t.used != NIL && 0 < l && !e.leaf && e.ptr == NIL
    ensures Formed(Grown(t, fan, l), fan)
    ensures Updated(t, Grown(t, fan, l), fan, e, Entry(false, t.used), l, base, lo, lo, leaf)
  {
    hide Lookup, Open, Tree, Span;
    var t', e' := Grown(t, fan, l), Entry(false, t.used);
    var blank := Blank(fan, l)[0];
    assert forall j: nat :: j < fan ==> Child(t'.nodes, fan, e', l, j) == blank;
    BlankTree(t', fan, e', l, blank);
    forall x: nat | x < |t.nodes| ensures NodeUpdated(t, t', fan, e, e', l, x) {
    }
    forall i: nat | base <= i < base + Span(fan, l) ensures PageUpdated(t, t', fan, e, e', l, lo, lo, leaf, i) {
      BlankPage(t.nodes, t'.nodes, fan, e, e', l, i);
    }
  }

  lemma BlankPage(nodes: Nodes, nodes': Nodes, fan: Fan, e: Entry, e': Entry, l: nat, i: nat)
    requires Shaped(nodes, fan) && Shaped(nodes', fan) && 0 < l && !e.leaf && e.ptr == NIL && Points(nodes', e', l)
    requires Child(nodes', fan, e', l, Slot(fan, l, i)) == if l == 1 then Entry(true, UNASSIGNED) else Entry(false, NIL)
    ensures Lookup(nodes', fan, e', l, i) == Lookup(nodes, fan, e, l, i)
    ensures Open(nodes', fan, e', l, i) == Open(nodes, fan, e, l, i)
  {
  }

  /** A node whose entries own nothing makes a table of one node. */
  lemma BlankTree(t: Table, fan: Fan, e: Entry, l: nat, blank: Entry)
    requires Formed(t, fan) && Points(t.nodes, e, l) && e.ptr < t.used
    requires blank == if l == 1 then Entry(true, UNASSIGNED) else Entry(false, NIL)
    requires forall j: nat :: j < fan ==> Child(t.nodes, fan, e, l, j) == blank
    ensures Tree(t.nodes, t.used, fan, e, l)
    ensures forall x: nat :: Owns(t.nodes, fan, e, l, x) <==> x == e.ptr
  {
    var m := l - 1;
    assert forall x: nat :: !Owns(t.nodes, fan, blank, m, x);
    assert Tree(t.nodes, t.used, fan, blank, m);
    forall x: nat ensures Owns(t.nodes, fan, e, l, x) <==> x == e.ptr {
    }
  }
}
