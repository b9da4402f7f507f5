/** The multi-level page table of exec.c: what a lookup finds, and which nodes it can reach.
    An entry of level `l` stands for `Span(fan, l)` pages; the entries in its node have level `l - 1`.
    Shifts and masks by L2_BITS are divisions by and remainders of powers of the fan-out. */
module PhysPages {
  import opened Words

  /** PhysPageEntry: 15 bits of pointer, so NIL is the largest. */
  datatype Entry = Entry(leaf: bool, ptr: nat)

  const NIL: nat := 0x7FFF
  const UNASSIGNED: nat := 0

  /** L2_SIZE. */
  type Fan = n: nat | 1 < n witness 2

  type Nodes = seq<seq<Entry>>

  /** phys_map_nodes: every node has as many entries. */
  ghost predicate Shaped(nodes: Nodes, fan: Fan) {
    forall n :: 0 <= n < |nodes| ==> |nodes[n]| == fan
  }

  function Span(fan: Fan, l: nat): (r: nat)
    ensures 0 < r
  {
    if l == 0 then 1
    else
      var below := Span(fan, l - 1);
      MulStrict(0, fan, below);
      Product(fan, below)
  }

  /** Which entry of the node below an entry of level `l` leads to page `i`. */
  function Slot(fan: Fan, l: nat, i: nat): (r: nat)
    requires 0 < l
    ensures r < fan
  {
    (i / Span(fan, l - 1)) % fan
  }

  predicate Points(nodes: Nodes, e: Entry, l: nat) {
    0 < l && !e.leaf && e.ptr != NIL && e.ptr < |nodes|
  }

  function Child(nodes: Nodes, fan: Fan, e: Entry, l: nat, j: nat): Entry
    requires Shaped(nodes, fan) && Points(nodes, e, l) && j < fan
  {
    nodes[e.ptr][j]
  }

  /** phys_page_find, seen from an entry: the section index for page `i`. */
  ghost function Lookup(nodes: Nodes, fan: Fan, e: Entry, l: nat, i: nat): nat
    requires Shaped(nodes, fan)
    decreases l
  {
    if Points(nodes, e, l) then Lookup(nodes, fan, Child(nodes, fan, e, l, Slot(fan, l, i)), l - 1, i)
    else if e.leaf || l == 0 then e.ptr
    else UNASSIGNED
  }

  /** No leaf above the bottom level on the way to page `i`. */
  ghost predicate Open(nodes: Nodes, fan: Fan, e: Entry, l: nat, i: nat)
    requires Shaped(nodes, fan)
    decreases l
  {
    0 < l ==>
      && !e.leaf
      && (Points(nodes, e, l) ==> Open(nodes, fan, Child(nodes, fan, e, l, Slot(fan, l, i)), l - 1, i))
  }

  /** Node `x` can be reached from the entry. */
  ghost predicate Owns(nodes: Nodes, fan: Fan, e: Entry, l: nat, x: nat)
    requires Shaped(nodes, fan)
    decreases l
  {
    && Points(nodes, e, l)
    && (x == e.ptr || exists j: nat :: j < fan && Owns(nodes, fan, Child(nodes, fan, e, l, j), l - 1, x))
  }

  /** A well-formed table: pointers lead to allocated nodes, no node is reached twice, and below
      level 1 there are only leaves. */
  ghost predicate Tree(nodes: Nodes, used: nat, fan: Fan, e: Entry, l: nat)
    requires Shaped(nodes, fan)
    decreases l
  {
    if l == 0 then e.leaf
    else if e.leaf || e.ptr == NIL then true
    else
      && e.ptr < used <= |nodes|
      && (forall j: nat :: j < fan ==> Tree(nodes, used, fan, Child(nodes, fan, e, l, j), l - 1))
      && (forall j: nat :: j < fan ==> !Owns(nodes, fan, Child(nodes, fan, e, l, j), l - 1, e.ptr))
      && (forall j: nat, k: nat :: j < k < fan ==>
        Apart(nodes, fan, Child(nodes, fan, e, l, j), Child(nodes, fan, e, l, k), l - 1))
  }

  ghost predicate Apart(nodes: Nodes, fan: Fan, e: Entry, f: Entry, l: nat)
    requires Shaped(nodes, fan)
  {
    forall x: nat :: !(Owns(nodes, fan, e, l, x) && Owns(nodes, fan, f, l, x))
  }

  /** Owned nodes are in use. */
  lemma {:induction false} OwnedInUse(nodes: Nodes, used: nat, fan: Fan, e: Entry, l: nat, x: nat)
    requires Shaped(nodes, fan) && Tree(nodes, used, fan, e, l) && Owns(nodes, fan, e, l, x)
    ensures x < used <= |nodes|
    decreases l
  {
    if x != e.ptr {
      var j: nat :| j < fan && Owns(nodes, fan, Child(nodes, fan, e, l, j), l - 1, x);
      OwnedInUse(nodes, used, fan, Child(nodes, fan, e, l, j), l - 1, x);
    }
  }

  /** Both states hold the same in all nodes the entry owns. */
  ghost predicate SameOwned(nodes: Nodes, nodes': Nodes, fan: Fan, e: Entry, l: nat)
    requires Shaped(nodes, fan)
  {
    |nodes| == |nodes'| && forall x: nat :: x < |nodes| && Owns(nodes, fan, e, l, x) ==> nodes'[x] == nodes[x]
  }

  lemma SameOwnedChild(nodes: Nodes, nodes': Nodes, fan: Fan, e: Entry, l: nat, j: nat)
    requires Shaped(nodes, fan) && Shaped(nodes', fan)
    requires SameOwned(nodes, nodes', fan, e, l) && Points(nodes, e, l) && j < fan
    ensures Child(nodes', fan, e, l, j) == Child(nodes, fan, e, l, j)
    ensures SameOwned(nodes, nodes', fan, Child(nodes, fan, e, l, j), l - 1)
  {
  }

  // What an entry means depends only on the nodes it owns.

  lemma {:induction false} OwnsFrame(nodes: Nodes, nodes': Nodes, fan: Fan, e: Entry, l: nat, x: nat)
    requires Shaped(nodes, fan) && Shaped(nodes', fan) && SameOwned(nodes, nodes', fan, e, l)
    ensures Owns(nodes', fan, e, l, x) <==> Owns(nodes, fan, e, l, x)
    decreases l
  {
    if Points(nodes, e, l) {
      forall j: nat | j < fan
        ensures Owns(nodes', fan, Child(nodes', fan, e, l, j), l - 1, x)
          <==> Owns(nodes, fan, Child(nodes, fan, e, l, j), l - 1, x)
      {
        SameOwnedChild(nodes, nodes', fan, e, l, j);
        OwnsFrame(nodes, nodes', fan, Child(nodes, fan, e, l, j), l - 1, x);
      }
    }
  }

  lemma {:induction false} LookupFrame(nodes: Nodes, nodes': Nodes, fan: Fan, e: Entry, l: nat, i: nat)
    requires Shaped(nodes, fan) && Shaped(nodes', fan) && SameOwned(nodes, nodes', fan, e, l)
    ensures Lookup(nodes', fan, e, l, i) == Lookup(nodes, fan, e, l, i)
    ensures Open(nodes', fan, e, l, i) == Open(nodes, fan, e, l, i)
    decreases l
  {
    if Points(nodes, e, l) {
      SameOwnedChild(nodes, nodes', fan, e, l, Slot(fan, l, i));
      LookupFrame(nodes, nodes', fan, Child(nodes, fan, e, l, Slot(fan, l, i)), l - 1, i);
    }
  }

  lemma ApartFrame(nodes: Nodes, nodes': Nodes, fan: Fan, e: Entry, f: Entry, l: nat)
    requires Shaped(nodes, fan) && Shaped(nodes', fan)
    requires SameOwned(nodes, nodes', fan, e, l) && SameOwned(nodes, nodes', fan, f, l)
    requires Apart(nodes, fan, e, f, l)
    ensures Apart(nodes', fan, e, f, l)
  {
    forall x: nat ensures !(Owns(nodes', fan, e, l, x) && Owns(nodes', fan, f, l, x)) {
      OwnsFrame(nodes, nodes', fan, e, l, x);
      OwnsFrame(nodes, nodes', fan, f, l, x);
    }
  }

  lemma {:induction false} TreeFrame(nodes: Nodes, nodes': Nodes, used: nat, used': nat, fan: Fan, e: Entry, l: nat)
    requires Shaped(nodes, fan) && Shaped(nodes', fan) && SameOwned(nodes, nodes', fan, e, l)
    requires Tree(nodes, used, fan, e, l) && used <= used' <= |nodes'|
    ensures Tree(nodes', used', fan, e, l)
    decreases l
  {
    if Points(nodes, e, l) {
      forall j: nat | j < fan
        ensures Tree(nodes', used', fan, Child(nodes', fan, e, l, j), l - 1)
        ensures !Owns(nodes', fan, Child(nodes', fan, e, l, j), l - 1, e.ptr)
      {
        SameOwnedChild(nodes, nodes', fan, e, l, j);
        TreeFrame(nodes, nodes', used, used', fan, Child(nodes, fan, e, l, j), l - 1);
        OwnsFrame(nodes, nodes', fan, Child(nodes, fan, e, l, j), l - 1, e.ptr);
      }
      forall j: nat, k: nat | j < k < fan
        ensures Apart(nodes', fan, Child(nodes', fan, e, l, j), Child(nodes', fan, e, l, k), l - 1)
      {
        SameOwnedChild(nodes, nodes', fan, e, l, j);
        SameOwnedChild(nodes, nodes', fan, e, l, k);
        ApartFrame(nodes, nodes', fan, Child(nodes, fan, e, l, j), Child(nodes, fan, e, l, k), l - 1);
      }
    }
  }

  // Reallocation keeps the nodes in use.

  lemma {:induction false} LookupExtended(nodes: Nodes, nodes': Nodes, used: nat, fan: Fan, e: Entry, l: nat, i: nat)
    requires Shaped(nodes, fan) && Shaped(nodes', fan) && nodes <= nodes' && Tree(nodes, used, fan, e, l)
    ensures Lookup(nodes', fan, e, l, i) == Lookup(nodes, fan, e, l, i)
    ensures Open(nodes', fan, e, l, i) == Open(nodes, fan, e, l, i)
    decreases l
  {
    if Points(nodes, e, l) {
      assert nodes'[e.ptr] == nodes[e.ptr];
      LookupExtended(nodes, nodes', used, fan, Child(nodes, fan, e, l, Slot(fan, l, i)), l - 1, i);
    }
  }

  lemma {:induction false} OwnsExtended(nodes: Nodes, nodes': Nodes, used: nat, fan: Fan, e: Entry, l: nat, x: nat)
    requires Shaped(nodes, fan) && Shaped(nodes', fan) && nodes <= nodes' && Tree(nodes, used, fan, e, l)
    ensures Owns(nodes', fan, e, l, x) <==> Owns(nodes, fan, e, l, x)
    decreases l
  {
    if Points(nodes, e, l) {
      assert nodes'[e.ptr] == nodes[e.ptr];
      forall j: nat | j < fan
        ensures Owns(nodes', fan, Child(nodes', fan, e, l, j), l - 1, x)
          <==> Owns(nodes, fan, Child(nodes, fan, e, l, j), l - 1, x)
      {
        OwnsExtended(nodes, nodes', used, fan, Child(nodes, fan, e, l, j), l - 1, x);
      }
    }
  }

  lemma {:induction false} TreeExtended(nodes: Nodes, nodes': Nodes, used: nat, fan: Fan, e: Entry, l: nat)
    requires Shaped(nodes, fan) && Shaped(nodes', fan) && nodes <= nodes' && Tree(nodes, used, fan, e, l)
    ensures Tree(nodes', used, fan, e, l)
    decreases l
  {
    if Points(nodes, e, l) {
      assert nodes'[e.ptr] == nodes[e.ptr];
      var m := l - 1;
      forall j: nat | j < fan
        ensures Tree(nodes', used, fan, Child(nodes', fan, e, l, j), m)
        ensures !Owns(nodes', fan, Child(nodes', fan, e, l, j), m, e.ptr)
      {
        TreeExtended(nodes, nodes', used, fan, Child(nodes, fan, e, l, j), m);
        OwnsExtended(nodes, nodes', used, fan, Child(nodes, fan, e, l, j), m, e.ptr);
      }
      forall j: nat, k: nat | j < k < fan
        ensures Apart(nodes', fan, Child(nodes', fan, e, l, j), Child(nodes', fan, e, l, k), m)
      {
        var c, d := Child(nodes, fan, e, l, j), Child(nodes, fan, e, l, k);
        assert Apart(nodes, fan, c, d, m);
        forall x: nat ensures !(Owns(nodes', fan, c, m, x) && Owns(nodes', fan, d, m, x)) {
          OwnsExtended(nodes, nodes', used, fan, c, m, x);
          OwnsExtended(nodes, nodes', used, fan, d, m, x);
        }
      }
    }
  }
}
