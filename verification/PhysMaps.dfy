/** phys_page_set and phys_page_find. */
module PhysMaps {
  import opened Words
  import opened PhysPages
  import opened PhysUpdates

  /** Nodes one call may allocate: one per level for each end of the range inside the entry. */
  function Need(fan: Fan, level: nat, base: nat, index: nat, nb: nat): nat {
    if index == base || base + Span(fan, level + 1) <= index + nb then level + 1 else 2 * level + 1
  }

  function RangeEnd(fan: Fan, level: nat, base: nat, index: nat, nb: nat): nat {
    if index + nb < base + Span(fan, level + 1) then index + nb else base + Span(fan, level + 1)
  }

  ghost predicate RangeOpen(t: Table, fan: Fan, e: Entry, l: nat, lo: nat, hi: nat)
    requires Formed(t, fan)
  {
    forall i: nat :: lo <= i < hi ==> Open(t.nodes, fan, e, l, i)
  }

  /** What phys_page_set_level needs: a pointer entry over pages from `base`, none of the pages to set
      below a leaf of an upper level, and room for the nodes it may add. */
  ghost predicate Settable(t: Table, fan: Fan, e: Entry, level: nat, base: nat, index: nat, nb: nat) {
    && Formed(t, fan) && Tree(t.nodes, t.used, fan, e, level + 1) && !e.leaf
    && base % Span(fan, level + 1) == 0 && base <= index < base + Span(fan, level + 1)
    && RangeOpen(t, fan, e, level + 1, index, RangeEnd(fan, level, base, index, nb))
    && t.used + Need(fan, level, base, index, nb) <= |t.nodes| && t.used + Need(fan, level, base, index, nb) <= NIL
  }

  /** What it leaves behind. */
  ghost predicate Set(t: Table, t': Table, fan: Fan, e: Entry, e': Entry, level: nat, base: nat, index: nat, nb: nat,
                      index': nat, nb': nat, leaf: nat)
    requires Formed(t, fan) && Formed(t', fan)
  {
    && Updated(t, t', fan, e, e', level + 1, base, index, index', leaf) && !e'.leaf
    && index' == RangeEnd(fan, level, base, index, nb) && index' + nb' == index + nb
    && t'.used <= t.used + Need(fan, level, base, index, nb)
  }

  /** The state of the loop before entry `k`: the pages up to `at` are done, `left` remain. */
  ghost predicate SetUpTo(t: Table, t': Table, fan: Fan, e: Entry, e': Entry, level: nat, base: nat, index: nat,
                          nb: nat, k: nat, at: nat, left: nat, leaf: nat) {
    && Formed(t, fan) && Formed(t', fan) && Points(t'.nodes, e', level + 1) && k <= fan
    && Updated(t, t', fan, e, e', level + 1, base, index, at, leaf)
    && index <= at && at + left == index + nb
    && (left == 0 ==> t'.used <= t.used + Need(fan, level, base, index, nb) && at <= base + Span(fan, level + 1))
    && (left != 0 ==>
      && t'.used <= t.used + 1 + (if at == index || index == base then 0 else level)
      && InSlot(fan, level, base, k, at) && (at != index ==> at == base + Product(k, Span(fan, level))))
  }

  /** `at` is where entry `k` starts, or inside it. */
  ghost predicate InSlot(fan: Fan, level: nat, base: nat, k: nat, at: nat) {
    var start := base + Product(k, Span(fan, level));
    start <= at && (at == start || (k < fan && at < start + Span(fan, level)))
  }

  /** One entry done: the recursive call, or the store of a leaf. */
  ghost predicate SlotSet(t: Table, t1: Table, fan: Fan, c: Entry, c': Entry, level: nat, base: nat, k: nat,
                          at: nat, left: nat, at': nat, left': nat, leaf: nat)
  {
    var start := base + Product(k, Span(fan, level));
    && Formed(t, fan) && Formed(t1, fan)
    && Updated(t, t1, fan, c, c', level, start, at, at', leaf)
    && at' + left' == at + left
    && at' == (if at + left < start + Span(fan, level) then at + left else start + Span(fan, level))
    && (if at == start && Span(fan, level) <= left then t1.used == t.used
        else 0 < level && t1.used <= t.used + Need(fan, level - 1, start, at, left))
  }

  lemma SlotFits(fan: Fan, level: nat, base: nat, k: nat)
    requires k < fan
    ensures base + Product(k, Span(fan, level)) + Span(fan, level) <= base + Span(fan, level + 1)
    ensures Product(k + 1, Span(fan, level)) == Product(k, Span(fan, level)) + Span(fan, level)
  {
    Distribute(k, 1, Span(fan, level));
    MulMono(k + 1, fan, Span(fan, level));
  }

  /** The bookkeeping of one step, with `s` pages per entry. */
  lemma CountNodes(fan: Fan, level: nat, base: nat, index: nat, nb: nat, k: nat, at: nat, left: nat,
                   at': nat, left': nat, used: nat, used': nat, used'': nat)
    requires k < fan && 0 < left && at + left == index + nb == at' + left' && base <= index <= at
    requires InSlot(fan, level, base, k, at) && (at != index ==> at == base + Product(k, Span(fan, level)))
    requires used' <= used + 1 + (if at == index || index == base then 0 else level)
    requires var start := base + Product(k, Span(fan, level));
      && at' == (if at + left < start + Span(fan, level) then at + left else start + Span(fan, level))
      && (if at == start && Span(fan, level) <= left then used'' == used'
          else 0 < level && used'' <= used' + Need(fan, level - 1, start, at, left))
    ensures at <= at' <= base + Span(fan, level + 1)
    ensures left' == 0 ==> used'' <= used + Need(fan, level, base, index, nb)
    ensures left' != 0 ==>
      && used'' <= used + 1 + (if at' == index || index == base then 0 else level)
      && at' == base + Product(k + 1, Span(fan, level))
  {
    SlotFits(fan, level, base, k);
  }

  lemma NextSlot(t: Table, t': Table, t1: Table, fan: Fan, e: Entry, e': Entry, c': Entry, level: nat, base: nat,
                 index: nat, nb: nat,
                 k: nat, at: nat, left: nat, at': nat, left': nat, leaf: nat)
    requires SetUpTo(t, t', fan, e, e', level, base, index, nb, k, at, left, leaf) && left != 0 && k < fan
    requires base % Span(fan, level + 1) == 0 && base <= index
    requires SlotSet(t', t1, fan, Child(t'.nodes, fan, e', level + 1, k), c', level, base, k, at, left, at', left',
      leaf)
    ensures e'.ptr < |t1.nodes| && k < |t1.nodes[e'.ptr]|
    ensures SetUpTo(t, Stored(t1, e'.ptr, k, c'), fan, e, e', level, base, index, nb, k + 1, at', left', leaf)
  {
    hide Tree, Updated, Stored, Need, Span, Owns, Lookup, Open, Product;
    UpdatedTree(t, t', fan, e, e', level + 1, base, index, at, leaf);
    CountNodes(fan, level, base, index, nb, k, at, left, at', left', t.used, t'.used, t1.used);
    NodeKept(t', t1, fan, e', level + 1, k, c', base, at, at', leaf);
    Lift(t', t1, fan, e', level + 1, k, c', base, at, at', leaf);
    UpdatedTwice(t, t', Stored(t1, e'.ptr, k, c'), fan, e, e', e', level + 1, base, index, at, at', leaf);
  }

  lemma UpdatedTree(t: Table, t': Table, fan: Fan, e: Entry, e': Entry, l: nat, base: nat, lo: nat, hi: nat, leaf: nat)
    requires Formed(t, fan) && Formed(t', fan) && Updated(t, t', fan, e, e', l, base, lo, hi, leaf)
    ensures Tree(t'.nodes, t'.used, fan, e', l) && |t'.nodes| == |t.nodes| && t.used <= t'.used
  {
  }

  lemma AlignedAtStart(start: nat, at: nat, s: nat)
    requires 0 < s && start % s == 0 && start <= at < start + s && at % s == 0
    ensures at == start
  {
    var q := start / s;
    DivMod(start, s);
    DivModIs(at, s, q, at - start);
  }

  /** An aligned start with enough pages left: the whole entry becomes a leaf. */
  lemma LeafSlot(t: Table, fan: Fan, c: Entry, level: nat, base: nat, k: nat, at: nat, left: nat, leaf: nat)
    requires Formed(t, fan) && base % Span(fan, level + 1) == 0 && k < fan && InSlot(fan, level, base, k, at)
    requires at % Span(fan, level) == 0 && Span(fan, level) <= left
    ensures SlotSet(t, t, fan, c, Entry(true, leaf), level, base, k, at, left, at + Span(fan, level),
      left - Span(fan, level), leaf)
  {
    hide Span, Updated;
    ChildAligned(fan, level + 1, base, k);
    var start := base + Product(k, Span(fan, level));
    if at != start { AlignedAtStart(start, at, Span(fan, level)); }
    LeafStored(t, fan, c, level, start, leaf);
  }

  /** At the bottom level an entry is one page, which any range with pages left covers. */
  lemma NotBottom(fan: Fan, level: nat, at: nat, left: nat)
    requires 0 < left && !(at % Span(fan, level) == 0 && Span(fan, level) <= left)
    ensures 0 < level
  {
    assert Span(fan, 0) == 1;
  }

  /** Otherwise the entry can be handed to the next level. */
  lemma ChildSettable(t: Table, t': Table, fan: Fan, e: Entry, e': Entry, level: nat, base: nat, index: nat, nb: nat,
                      k: nat, at: nat, left: nat, leaf: nat)
    requires Settable(t, fan, e, level, base, index, nb)
    requires SetUpTo(t, t', fan, e, e', level, base, index, nb, k, at, left, leaf) && left != 0 && k < fan
    requires !(at % Span(fan, level) == 0 && Span(fan, level) <= left)
    ensures 0 < level
    ensures Settable(t', fan, Child(t'.nodes, fan, e', level + 1, k), level - 1,
      base + Product(k, Span(fan, level)), at, left)
  {
    hide Tree, Open, Owns, Lookup, Updated, Span, RangeOpen, Need, Product;
    NotBottom(fan, level, at, left);
    UpdatedTree(t, t', fan, e, e', level + 1, base, index, at, leaf);
    var c, start := Child(t'.nodes, fan, e', level + 1, k), base + Product(k, Span(fan, level));
    ChildAligned(fan, level + 1, base, k);
    ChildRoom(t, t', fan, level, base, index, nb, k, at, left);
    ChildTree(t', fan, e', level + 1, k);
    ChildOpen(t, t', fan, e, e', level, base, index, nb, k, at, left, leaf);
  }

  lemma ChildTree(t: Table, fan: Fan, e: Entry, l: nat, k: nat)
    requires Formed(t, fan) && Tree(t.nodes, t.used, fan, e, l) && Points(t.nodes, e, l) && k < fan
    ensures Tree(t.nodes, t.used, fan, Child(t.nodes, fan, e, l, k), l - 1)
  {
  }

  lemma ChildRoom(t: Table, t': Table, fan: Fan, level: nat, base: nat, index: nat, nb: nat, k: nat, at: nat, left: nat)
    requires k < fan && 0 < left && 0 < level && base <= index <= at && at + left == index + nb
    requires InSlot(fan, level, base, k, at) && (at != index ==> at == base + Product(k, Span(fan, level)))
    requires t'.used <= t.used + 1 + (if at == index || index == base then 0 else level)
    requires !(at == base + Product(k, Span(fan, level)) && Span(fan, level) <= left)
    ensures t'.used + Need(fan, level - 1, base + Product(k, Span(fan, level)), at, left)
      <= t.used + Need(fan, level, base, index, nb)
  {
    SlotFits(fan, level, base, k);
  }

  lemma ChildOpen(t: Table, t': Table, fan: Fan, e: Entry, e': Entry, level: nat, base: nat, index: nat, nb: nat,
                  k: nat, at: nat, left: nat, leaf: nat)
    requires Settable(t, fan, e, level, base, index, nb) && 0 < level
    requires SetUpTo(t, t', fan, e, e', level, base, index, nb, k, at, left, leaf) && left != 0 && k < fan
    ensures var c, start := Child(t'.nodes, fan, e', level + 1, k), base + Product(k, Span(fan, level));
      !c.leaf && RangeOpen(t', fan, c, level, at, RangeEnd(fan, level - 1, start, at, left))
  {
    var c, start := Child(t'.nodes, fan, e', level + 1, k), base + Product(k, Span(fan, level));
    SlotFits(fan, level, base, k);
    forall i: nat | at <= i < RangeEnd(fan, level - 1, start, at, left) ensures Open(t'.nodes, fan, c, level, i) {
      assert PageUpdated(t, t', fan, e, e', level + 1, index, at, leaf, i);
      SlotPages(fan, level + 1, base, k, i);
    }
    assert Open(t'.nodes, fan, c, level, at);
  }

  lemma NothingSet(t: Table, fan: Fan, e: Entry, level: nat, base: nat, index: nat, nb: nat, leaf: nat)
    requires Settable(t, fan, e, level, base, index, nb) && Points(t.nodes, e, level + 1)
    ensures SetUpTo(t, t, fan, e, e, level, base, index, nb, Slot(fan, level + 1, index), index, nb, leaf)
  {
    hide Tree, Open, Owns, Lookup, Span;
    var k := SlotFound(fan, level + 1, base, index);
  }

  lemma NodeForEntry(t: Table, fan: Fan, e: Entry, level: nat, base: nat, index: nat, nb: nat, leaf: nat)
    requires Settable(t, fan, e, level, base, index, nb) && e.ptr == NIL
    ensures t.used < |t.nodes| && t.used != NIL
    ensures SetUpTo(t, Grown(t, fan, level + 1), fan, e, Entry(false, t.used), level, base, index, nb,
                    Slot(fan, level + 1, index), index, nb, leaf)
  {
    hide Tree, Open, Owns, Lookup, Span;
    NodeAdded(t, fan, e, level + 1, base, index, leaf);
    var k := SlotFound(fan, level + 1, base, index);
  }

  /** Where the loop starts. */
  lemma LoopStart(t: Table, fan: Fan, e: Entry, level: nat, base: nat, index: nat, nb: nat, leaf: nat)
    requires Settable(t, fan, e, level, base, index, nb)
    ensures Formed(t, fan) && !e.leaf && base % Span(fan, level + 1) == 0 && base <= index
    ensures e.ptr == NIL ==>
      && t.used < |t.nodes| && t.used != NIL
      && SetUpTo(t, Grown(t, fan, level + 1), fan, e, Entry(false, t.used), level, base, index, nb,
                 Slot(fan, level + 1, index), index, nb, leaf)
    ensures e.ptr != NIL ==>
      SetUpTo(t, t, fan, e, e, level, base, index, nb, Slot(fan, level + 1, index), index, nb, leaf)
  {
    if e.ptr == NIL { NodeForEntry(t, fan, e, level, base, index, nb, leaf); }
    else { NothingSet(t, fan, e, level, base, index, nb, leaf); }
  }

  lemma AtNode(t: Table, t': Table, fan: Fan, e: Entry, e': Entry, level: nat, base: nat, index: nat, nb: nat,
               k: nat, at: nat, left: nat, leaf: nat)
    requires SetUpTo(t, t', fan, e, e', level, base, index, nb, k, at, left, leaf)
    ensures Formed(t', fan) && Points(t'.nodes, e', level + 1) && |t'.nodes[e'.ptr]| == fan
    ensures left != 0 ==> InSlot(fan, level, base, k, at)
  {
  }

  lemma RecursionSet(t: Table, t1: Table, fan: Fan, c: Entry, c': Entry, level: nat, base: nat, k: nat,
                     at: nat, left: nat, at': nat, left': nat, leaf: nat)
    requires 0 < level && Settable(t, fan, c, level - 1, base + Product(k, Span(fan, level)), at, left)
    requires Formed(t1, fan)
    requires Set(t, t1, fan, c, c', level - 1, base + Product(k, Span(fan, level)), at, left, at', left', leaf)
    requires !(at % Span(fan, level) == 0 && Span(fan, level) <= left)
    requires (base + Product(k, Span(fan, level))) % Span(fan, level) == 0
    ensures SlotSet(t, t1, fan, c, c', level, base, k, at, left, at', left', leaf)
  {
    hide Tree, Open, Owns, Lookup, Updated, Span;
  }

  lemma AllSet(t: Table, t': Table, fan: Fan, e: Entry, e': Entry, level: nat, base: nat, index: nat, nb: nat,
               k: nat, at: nat, left: nat, leaf: nat)
    requires Settable(t, fan, e, level, base, index, nb)
    requires SetUpTo(t, t', fan, e, e', level, base, index, nb, k, at, left, leaf) && (left == 0 || k == fan)
    ensures Formed(t', fan) && Set(t, t', fan, e, e', level, base, index, nb, at, left, leaf)
  {
    hide Tree, Open, Owns, Lookup, Updated;
  }

  class PhysMap {
    const fan: Fan
    const levels: nat
    var nodes: Nodes
    var nodesNb: nat
    var root: Entry

    ghost function Pages(): Table
      reads this
    {
      Table(nodes, nodesNb)
    }

    ghost predicate Valid()
      reads this
    {
      0 < levels && Formed(Pages(), fan) && Tree(nodes, nodesNb, fan, root, levels) && !root.leaf
    }

    constructor (fan: Fan, levels: nat)
      requires 0 < levels
      ensures Valid() && this.fan == fan && this.levels == levels && Pages() == Table([], 0)
      ensures root == Entry(false, NIL)
    {
      this.fan, this.levels := fan, levels;
      nodes, nodesNb, root := [], 0, Entry(false, NIL);
    }

    /** phys_map_node_reserve; the new nodes hold nothing in particular. */
    method NodeReserve(count: nat)
      requires Formed(Pages(), fan)
      modifies this`nodes
      ensures Formed(Pages(), fan) && nodesNb + count <= |nodes|
      ensures old(nodes) <= nodes
    {
      if |nodes| < nodesNb + count {
        var capacity := if |nodes| * 2 < 16 then 16 else |nodes| * 2;
        if capacity < nodesNb + count {
          capacity := nodesNb + count;
        }
        nodes := nodes + seq(capacity - |nodes|, _ => seq(fan, _ => Entry(false, NIL)));
      }
    }

    /** phys_map_node_alloc; its two assertions are the first two conditions. */
    method NodeAlloc() returns (ret: nat)
      requires nodesNb != NIL && nodesNb != |nodes|
      requires Formed(Pages(), fan)
      modifies this`nodes, this`nodesNb
      ensures ret == old(nodesNb) && nodesNb == old(nodesNb) + 1
      ensures nodes == old(nodes)[ret := seq(fan, _ => Entry(false, NIL))]
    {
      ret := nodesNb;
      nodesNb := nodesNb + 1;
      nodes := nodes[ret := seq(fan, _ => Entry(false, NIL))];
    }

    /** The first part of phys_page_set_level: a node to work on. */
    method NodeFor(lp: Entry, level: nat) returns (p: nat)
      requires Formed(Pages(), fan) && !lp.leaf && (lp.ptr == NIL ==> nodesNb != NIL && nodesNb < |nodes|)
      modifies this`nodes, this`nodesNb
      ensures lp.ptr != NIL ==> p == lp.ptr && Pages() == old(Pages())
      ensures lp.ptr == NIL ==> p == old(nodesNb) && Pages() == Grown(old(Pages()), fan, level + 1)
    {
      if lp.ptr == NIL {
        p := NodeAlloc();
        if level == 0 {
          nodes := nodes[p := seq(fan, _ => Entry(true, UNASSIGNED))];
        }
        assert nodes[p] == Blank(fan, level + 1);
      } else {
        p := lp.ptr;
      }
    }

    /** phys_page_set_level. The entry `lp`, the page index and the page count are passed in and out;
        the caller stores the entry back. The recursion never goes below level 0, and never needs a
        node beyond the reserve: `nodes` keeps its length. */
    method SetLevel(lp: Entry, index: nat, nb: nat, leaf: nat, level: nat, ghost base: nat)
      returns (lp': Entry, index': nat, nb': nat)
      requires Settable(Pages(), fan, lp, level, base, index, nb)
      modifies this`nodes, this`nodesNb
      ensures Formed(old(Pages()), fan) && Formed(Pages(), fan)
      ensures Set(old(Pages()), Pages(), fan, lp, lp', level, base, index, nb, index', nb', leaf)
      decreases level
    {
      hide Settable, SetUpTo, Set, SlotSet, Tree, Owns, Open, Lookup, Updated, Span, InSlot, Grown;
      ghost var t := Pages();
      LoopStart(t, fan, lp, level, base, index, nb, leaf);
      var p := NodeFor(lp, level);
      lp' := Entry(false, p);
      index', nb' := index, nb;
      var step := Span(fan, level);
      var k := Slot(fan, level + 1, index);
      while nb' != 0 && k < fan
        invariant SetUpTo(t, Pages(), fan, lp, lp', level, base, index, nb, k, index', nb', leaf)
        invariant lp' == Entry(false, p) && k <= fan
        decreases fan - k
      {
        ghost var t', at, left := Pages(), index', nb';
        AtNode(t, t', fan, lp, lp', level, base, index, nb, k, at, left, leaf);
        var c := nodes[p][k];
        if index' % step == 0 && step <= nb' {
          LeafSlot(t', fan, c, level, base, k, at, left, leaf);
          c := Entry(true, leaf);
          index', nb' := index' + step, nb' - step;
        } else {
          ChildSettable(t, t', fan, lp, lp', level, base, index, nb, k, at, left, leaf);
          ChildAligned(fan, level + 1, base, k);
          c, index', nb' := SetLevel(c, index', nb', leaf, level - 1, base + Product(k, step));
          RecursionSet(t', Pages(), fan, t'.nodes[p][k], c, level, base, k, at, left, index', nb', leaf);
        }
        NextSlot(t, t', Pages(), fan, lp, lp', c, level, base, index, nb, k, at, left, index', nb', leaf);
        nodes := nodes[p := nodes[p][k := c]];
        k := k + 1;
      }
      AllSet(t, Pages(), fan, lp, lp', level, base, index, nb, k, index', nb', leaf);
    }

    /** The section index shown for a page. */
    ghost function PageAt(i: nat): nat
      reads this
      requires Formed(Pages(), fan)
    {
      Lookup(nodes, fan, root, levels, i)
    }

    ghost predicate OpenAt(i: nat)
      reads this
      requires Formed(Pages(), fan)
    {
      Open(nodes, fan, root, levels, i)
    }

    /** phys_page_set: exactly the given pages now show `leaf`. Between `levels` and
        `2 * levels - 1` new nodes are enough, so the reserve always is. */
    method PageSet(index: nat, nb: nat, leaf: nat)
      requires Valid() && index + nb <= Span(fan, levels) && index < Span(fan, levels)
      requires forall i: nat :: index <= i < index + nb ==> OpenAt(i)
      requires nodesNb + 2 * levels - 1 <= NIL
      modifies this
      ensures Valid() && old(Valid()) && old(nodesNb) <= nodesNb <= old(nodesNb) + 2 * levels - 1
      ensures forall i: nat :: i < Span(fan, levels) ==>
        PageAt(i) == if index <= i < index + nb then leaf else old(PageAt(i))
      ensures forall i: nat :: i < Span(fan, levels) && !(index <= i < index + nb) ==> OpenAt(i) == old(OpenAt(i))
      ensures nb == 1 ==> OpenAt(index)
    {
      hide Tree, Lookup, Open, Owns, Span, Settable, Set;
      ghost var t, e := Pages(), root;
      forall i: nat | index <= i < index + nb ensures Open(t.nodes, fan, e, levels, i) {
        assert OpenAt(i);
      }
      NodeReserve(3 * levels);
      ghost var t1 := Pages();
      Reserved(t, t1, fan, e, levels, index, nb);
      var i, n;
      root, i, n := SetLevel(root, index, nb, leaf, levels - 1, 0);
      ReadBack(t, t1, Pages(), fan, e, root, levels, index, nb, i, n, leaf);
    }

    /** phys_page_find. */
    method PageFind(index: nat) returns (s: nat)
      requires Valid()
      ensures s == PageAt(index)
    {
      var lp, l := root, levels;
      while 0 < l && !lp.leaf
        invariant Tree(nodes, nodesNb, fan, lp, l)
        invariant Lookup(nodes, fan, lp, l, index) == PageAt(index)
        decreases l
      {
        if lp.ptr == NIL {
          return UNASSIGNED;
        }
        lp := nodes[lp.ptr][Slot(fan, l, index)];
        l := l - 1;
      }
      s := lp.ptr;
    }

    /** destroy_all_mappings and the reset of the root entry in mem_begin. */
    method Clear()
      requires Valid()
      modifies this
      ensures Valid() && nodesNb == 0 && forall i: nat :: PageAt(i) == UNASSIGNED && OpenAt(i)
    {
      nodesNb := 0;
      root := Entry(false, NIL);
    }
  }

  /** Reserving nodes changes no page, and makes the range settable. */
  lemma Reserved(t: Table, t1: Table, fan: Fan, e: Entry, levels: nat, index: nat, nb: nat)
    requires 0 < levels && Formed(t, fan) && Formed(t1, fan) && Tree(t.nodes, t.used, fan, e, levels) && !e.leaf
    requires t.nodes <= t1.nodes && t1.used == t.used && t.used + 3 * levels <= |t1.nodes|
    requires t.used + 2 * levels - 1 <= NIL
    requires index + nb <= Span(fan, levels) && index < Span(fan, levels)
    requires forall i: nat :: index <= i < index + nb ==> Open(t.nodes, fan, e, levels, i)
    ensures Settable(t1, fan, e, levels - 1, 0, index, nb)
    ensures forall i: nat :: SamePage(t, t1, fan, e, levels, i)
  {
    hide Tree, Lookup, Open, Owns, Span;
    TreeExtended(t.nodes, t1.nodes, t.used, fan, e, levels);
    forall i: nat { LookupExtended(t.nodes, t1.nodes, t.used, fan, e, levels, i); }
    DivModIs(0, Span(fan, levels), 0, 0);
  }

  lemma ReadBack(t: Table, t1: Table, t2: Table, fan: Fan, e: Entry, e': Entry, levels: nat, index: nat, nb: nat,
                 index': nat, nb': nat, leaf: nat)
    requires 0 < levels && Formed(t, fan) && Formed(t1, fan) && Formed(t2, fan) && t1.used == t.used
    requires index + nb <= Span(fan, levels)
    requires Set(t1, t2, fan, e, e', levels - 1, 0, index, nb, index', nb', leaf)
    requires forall i: nat :: SamePage(t, t1, fan, e, levels, i)
    ensures Tree(t2.nodes, t2.used, fan, e', levels) && !e'.leaf && t.used <= t2.used <= t.used + 2 * levels - 1
    ensures forall i: nat :: i < Span(fan, levels) ==>
      Lookup(t2.nodes, fan, e', levels, i)
        == if index <= i < index + nb then leaf else Lookup(t.nodes, fan, e, levels, i)
    ensures forall i: nat :: i < Span(fan, levels) && !(index <= i < index + nb) ==>
      Open(t2.nodes, fan, e', levels, i) == Open(t.nodes, fan, e, levels, i)
    ensures nb == 1 ==> Open(t2.nodes, fan, e', levels, index)
  {
    hide Tree, Lookup, Open, Owns, Span, PageUpdated;
    assert index' == index + nb;
    forall i: nat | i < Span(fan, levels)
      ensures Lookup(t2.nodes, fan, e', levels, i)
        == if index <= i < index + nb then leaf else Lookup(t.nodes, fan, e, levels, i)
      ensures !(index <= i < index + nb) ==> Open(t2.nodes, fan, e', levels, i) == Open(t.nodes, fan, e, levels, i)
      ensures nb == 1 && i == index ==> Open(t2.nodes, fan, e', levels, i)
    {
      ReadPage(t, t1, t2, fan, e, e', levels, index, index', leaf, i);
    }
  }

  ghost predicate SamePage(t: Table, t1: Table, fan: Fan, e: Entry, l: nat, i: nat)
    requires Formed(t, fan) && Formed(t1, fan)
  {
    && Lookup(t1.nodes, fan, e, l, i) == Lookup(t.nodes, fan, e, l, i)
    && Open(t1.nodes, fan, e, l, i) == Open(t.nodes, fan, e, l, i)
  }

  lemma ReadPage(t: Table, t1: Table, t2: Table, fan: Fan, e: Entry, e': Entry, levels: nat, lo: nat, hi: nat,
                 leaf: nat, i: nat)
    requires 0 < levels && Formed(t, fan) && Formed(t1, fan) && Formed(t2, fan) && i < Span(fan, levels)
    requires Updated(t1, t2, fan, e, e', levels - 1 + 1, 0, lo, hi, leaf) && SamePage(t, t1, fan, e, levels, i)
    ensures Lookup(t2.nodes, fan, e', levels, i) == if lo <= i < hi then leaf else Lookup(t.nodes, fan, e, levels, i)
    ensures !(lo <= i < hi) ==> Open(t2.nodes, fan, e', levels, i) == Open(t.nodes, fan, e, levels, i)
    ensures hi - lo == 1 && i == lo ==> Open(t2.nodes, fan, e', levels, i)
  {
    assert PageUpdated(t1, t2, fan, e, e', levels, lo, hi, leaf, i);
  }
}