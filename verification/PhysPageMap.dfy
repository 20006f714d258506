/**
 * The multi-level physical page map of exec.c: `phys_page_set` fills it,
 * `phys_page_compact_all` path-compresses it and `phys_page_find` walks it.
 */
module PhysPageMap {
  import opened Radix

  const L2_LEVELS: nat := 6
  const NODE_NIL: nat := 0x3ff_ffff
  const UNASSIGNED: nat := 0

  /** A slot: a leaf holding a section number when `skip == 0`, otherwise a
      node number (or NODE_NIL) found `skip` levels further down. */
  datatype Entry = Entry(skip: nat, ptr: nat)

  const EmptyEntry := Entry(1, NODE_NIL)

  type Node = n: seq<Entry> | |n| == L2_SIZE witness seq(L2_SIZE, _ => EmptyEntry)

  /** The section number that the walk of `phys_page_find` ends at, for page `x`, from
      a slot of height `h`. The third case is never reached in a well-formed map. */
  function Find(nodes: seq<Node>, e: Entry, h: nat, x: nat): nat
    decreases h
  {
    if e.skip == 0 || h < e.skip then e.ptr
    else if e.ptr == NODE_NIL then UNASSIGNED
    else if e.ptr >= |nodes| then UNASSIGNED
    else Find(nodes, nodes[e.ptr][Digit(x, h - e.skip)], h - e.skip, x)
  }

  /** The walk from an entry whose node has slots of height `level`. */
  function Below(nodes: seq<Node>, e: Entry, level: nat, x: nat): nat {
    Find(nodes, e, level + 1, x)
  }

  /** Where a node sits: it has slots of height `level` and starts at page `base`. */
  datatype Place = Place(level: nat, base: nat)

  ghost predicate Inside(p: Place, b: nat, h: nat) {
    b <= p.base && p.base + Span(p.level + 1) <= b + Span(h)
  }

  /** An entry that may stand in a slot of height `h` covering the pages from `b` on. */
  ghost predicate EntryOk(place: seq<Place>, e: Entry, h: nat, b: nat) {
    if e.skip == 0 then e.ptr != NODE_NIL
    else e.skip <= h && (e.ptr != NODE_NIL ==>
           e.ptr < |place| && place[e.ptr].level == h - e.skip && Inside(place[e.ptr], b, h))
  }

  ghost predicate NodeOk(place: seq<Place>, node: Node, p: Place) {
    Aligned(p.base, p.level + 1) &&
    forall k {:trigger EntryOk(place, node[k], p.level, SlotBase(p.base, p.level, k))} :: 0 <= k < L2_SIZE ==>
      EntryOk(place, node[k], p.level, SlotBase(p.base, p.level, k))
  }

  ghost predicate Wf(nodes: seq<Node>, place: seq<Place>) {
    |place| == |nodes| <= NODE_NIL &&
    forall n {:trigger NodeOk(place, nodes[n], place[n])} :: 0 <= n < |nodes| ==>
      NodeOk(place, nodes[n], place[n])
  }

  /** Before compaction every entry leads exactly one level down, and only
      bottom-level leaves say UNASSIGNED. */
  ghost predicate PlainEntry(e: Entry, h: nat) {
    e.skip <= 1 && (e.skip == 0 && h > 0 ==> e.ptr != UNASSIGNED)
  }

  ghost predicate Plain(nodes: seq<Node>, place: seq<Place>)
    requires |place| == |nodes|
  {
    forall n, k :: 0 <= n < |nodes| && 0 <= k < L2_SIZE ==> PlainEntry(nodes[n][k], place[n].level)
  }

  /** The walk from a slot only depends on the nodes inside that slot's page range. */
  lemma {:induction false} FindFrame(nodes: seq<Node>, nodes': seq<Node>, place: seq<Place>,
                                     e: Entry, h: nat, b: nat, x: nat)
    requires Wf(nodes, place) && EntryOk(place, e, h, b) && |nodes| <= |nodes'|
    requires forall n :: 0 <= n < |nodes| && Inside(place[n], b, h) ==> nodes'[n] == nodes[n]
    ensures Find(nodes', e, h, x) == Find(nodes, e, h, x)
    decreases h
  {
    if e.skip > 0 && e.ptr != NODE_NIL {
      var n, i := e.ptr, h - e.skip;
      var k := Digit(x, i);
      assert NodeOk(place, nodes[n], place[n]);
      SlotInside(place[n].base, i, k);
      FindFrame(nodes, nodes', place, nodes[n][k], i, SlotBase(place[n].base, i, k), x);
    }
  }

  lemma EntryOkGrows(place: seq<Place>, place': seq<Place>, e: Entry, h: nat, b: nat)
    requires EntryOk(place, e, h, b) && place <= place'
    ensures EntryOk(place', e, h, b)
  {}

  /** Replacing one slot of one node keeps the map well-formed. */
  lemma WfUpdate(nodes: seq<Node>, place: seq<Place>, n: nat, k: nat, e: Entry)
    requires Wf(nodes, place) && n < |nodes| && k < L2_SIZE
    requires EntryOk(place, e, place[n].level, SlotBase(place[n].base, place[n].level, k))
    ensures Wf(nodes[n := nodes[n][k := e]], place)
  {
    var node' := nodes[n][k := e];
    assert NodeOk(place, nodes[n], place[n]);
    assert NodeOk(place, node', place[n]);
    var nodes' := nodes[n := node'];
    forall m | 0 <= m < |nodes'| ensures NodeOk(place, nodes'[m], place[m]) {
      assert NodeOk(place, nodes[m], place[m]);
    }
  }

  lemma WfAppend(nodes: seq<Node>, place: seq<Place>, node: Node, p: Place)
    requires Wf(nodes, place) && |nodes| < NODE_NIL && NodeOk(place, node, p)
    ensures Wf(nodes + [node], place + [p])
  {
    var nodes', place' := nodes + [node], place + [p];
    forall m | 0 <= m < |nodes'| ensures NodeOk(place', nodes'[m], place'[m]) {
      assert NodeOk(place, nodes'[m], place'[m]) by {
        if m < |nodes| { assert NodeOk(place, nodes[m], place[m]); }
      }
      forall k | 0 <= k < L2_SIZE
        ensures EntryOk(place', nodes'[m][k], place'[m].level, SlotBase(place'[m].base, place'[m].level, k))
      {
        EntryOkGrows(place, place', nodes'[m][k], place'[m].level, SlotBase(place'[m].base, place'[m].level, k));
      }
    }
  }

  /** A page on a slot boundary, inside the slot, is the slot's first page. */
  lemma BoundaryIsSlotBase(b: nat, h: nat, k: nat, x: nat)
    requires Aligned(b, h + 1) && InSlot(b, h, k, x) && Aligned(x, h)
    ensures x == SlotBase(b, h, k)
  {
    SlotAligned(b, h, k);
    SameBoundary(SlotBase(b, h, k), x, h);
  }

  /** How many nodes one call may allocate: one per level when the run touches an
      end of the covered range, and two per level below the top otherwise. */
  function Cost(index: nat, nb: nat, level: nat, b: nat): nat {
    if index == b || index + nb >= b + Span(level + 1) then level + 1 else 2 * level + 1
  }

  function Min(a: int, b: int): int { if a < b then a else b }

  /** Rewriting slot `k` of node `p` and nodes inside that slot leaves the walks
      through every other slot of `p` alone. */
  lemma OtherSlotsKept(nodes: seq<Node>, nodes': seq<Node>, place: seq<Place>, p: nat, k: nat, x: nat)
    requires Wf(nodes, place) && |nodes| <= |nodes'| && p < |nodes| && k < L2_SIZE
    requires var pl := place[p];
             && (forall j :: 0 <= j < L2_SIZE && j != k ==> nodes'[p][j] == nodes[p][j])
             && (forall n :: 0 <= n < |nodes| && n != p && !Inside(place[n], SlotBase(pl.base, pl.level, k), pl.level)
                  ==> nodes'[n] == nodes[n])
    requires Digit(x, place[p].level) != k
    ensures var j := Digit(x, place[p].level);
            Find(nodes', nodes'[p][j], place[p].level, x) == Find(nodes, nodes[p][j], place[p].level, x)
  {
    var pl := place[p];
    var h := pl.level;
    var j := Digit(x, h);
    if j < k { SlotsDisjoint(pl.base, h, j, k); } else { SlotsDisjoint(pl.base, h, k, j); }
    var bj := SlotBase(pl.base, h, j);
    forall n | 0 <= n < |nodes| && Inside(place[n], bj, h) ensures nodes'[n] == nodes[n] {
      SpanGrows(h);
    }
    assert NodeOk(place, nodes[p], pl);
    FindFrame(nodes, nodes', place, nodes[p][j], h, bj, x);
  }

  lemma SpanGrows(h: nat)
    ensures Span(h) < Span(h + 1)
  {}

  /** The run of `nb` pages from `index` covers the slot of height `level` it starts in. */
  predicate Whole(index: nat, nb: nat, level: nat) {
    Aligned(index, level) && nb >= Span(level)
  }

  /** Nodes that one turn of the loop may allocate. */
  function SlotCost(index: nat, nb: nat, level: nat, b: nat): nat {
    if level == 0 || Whole(index, nb, level) then 0 else Cost(index, nb, level - 1, b)
  }

  /** Nodes allocated so far beyond the top one, when the loop stands at slot `k`. */
  function Used(index: nat, b: nat, level: nat, k0: nat, k: nat): nat {
    if k == k0 || index == b then 0 else level
  }

  /** At most the first and the last slot touched are partial, so a turn of the loop
      that goes down stays within the budget of the whole call. */
  lemma CostStep(b: nat, level: nat, k0: nat, k: nat, index: nat, nb: nat, i: nat, n: nat)
    requires Aligned(b, level + 1) && k0 <= k < L2_SIZE && InSlot(b, level, k0, index)
    requires i + n == index + nb && n > 0 && level > 0 && !Whole(i, n, level)
    requires if k == k0 then i == index else i == SlotBase(b, level, k)
    ensures var c := Cost(i, n, level - 1, SlotBase(b, level, k));
            && 1 + Used(index, b, level, k0, k) + c <= Cost(index, nb, level, b)
            && (i + n > SlotBase(b, level, k + 1) ==>
                  Used(index, b, level, k0, k) + c <= Used(index, b, level, k0, k + 1))
  {
    SlotAligned(b, level, k);
    SlotInside(b, level, k);
    assert SlotBase(b, level, k + 1) == SlotBase(b, level, k) + Span(level);
    if k0 > 0 { SlotsDisjoint(b, level, 0, k0); }
  }

  /** Walks through node `p`, from `before` to `nodes`: pages `index <= x < index'` now lead
      to `leaf` and the other pages of the node lead where they did. */
  ghost predicate Painted(before: seq<Node>, nodes: seq<Node>, p: nat, level: nat, b: nat,
                          index: nat, index': nat, leaf: nat)
  {
    p < |before| && p < |nodes| &&
    forall x :: b <= x < b + Span(level + 1) ==>
      Find(nodes, nodes[p][Digit(x, level)], level, x) ==
      if index <= x < index' then leaf else Find(before, before[p][Digit(x, level)], level, x)
  }

  lemma PaintedStep(before: seq<Node>, mid: seq<Node>, nodes: seq<Node>, p: nat, level: nat, b: nat,
                    index: nat, i: nat, index': nat, leaf: nat)
    requires index <= i <= index'
    requires Painted(before, mid, p, level, b, index, i, leaf) && Painted(mid, nodes, p, level, b, i, index', leaf)
    ensures Painted(before, nodes, p, level, b, index, index', leaf)
  {}

  /** Only nodes inside the given page range differ. */
  ghost predicate OnlyInside(before: seq<Node>, nodes: seq<Node>, place: seq<Place>, b: nat, h: nat) {
    |before| <= |nodes| && |before| <= |place| &&
    forall n :: 0 <= n < |before| && !Inside(place[n], b, h) ==> nodes[n] == before[n]
  }

  lemma OnlyInsideStep(before: seq<Node>, mid: seq<Node>, nodes: seq<Node>, place: seq<Place>, place': seq<Place>,
                       b: nat, h: nat)
    requires OnlyInside(before, mid, place, b, h) && OnlyInside(mid, nodes, place', b, h) && place <= place'
    ensures OnlyInside(before, nodes, place', b, h)
  {}

  /** What the loop may rely on when it turns to slot `k`, with `n` pages from `i` on left to set. */
  lemma LoopTurn(b: nat, level: nat, k0: nat, k: nat, index: nat, nb: nat, i: nat, n: nat)
    requires Aligned(b, level + 1) && k0 <= k < L2_SIZE && InSlot(b, level, k0, index)
    requires i + n == index + nb && n > 0
    requires if k == k0 then i == index else i == SlotBase(b, level, k)
    ensures InSlot(b, level, k, i) && SlotBase(b, level, k + 1) == SlotBase(b, level, k) + Span(level)
    ensures SlotBase(b, level, k + 1) <= b + Span(level + 1)
    ensures 1 + Used(index, b, level, k0, k) + SlotCost(i, n, level, SlotBase(b, level, k)) <= Cost(index, nb, level, b)
    ensures i + n > SlotBase(b, level, k + 1) ==>
              Used(index, b, level, k0, k) + SlotCost(i, n, level, SlotBase(b, level, k))
              <= Used(index, b, level, k0, k + 1)
  {
    SlotInside(b, level, k);
    if level > 0 && !Whole(i, n, level) { CostStep(b, level, k0, k, index, nb, i, n); }
  }

  /** Node `p` has no section yet for the pages from `index` on. */
  ghost predicate Free(nodes: seq<Node>, p: nat, level: nat, b: nat, index: nat, nb: nat) {
    p < |nodes| && forall x :: index <= x < Min(index + nb, b + Span(level + 1)) ==>
      Find(nodes, nodes[p][Digit(x, level)], level, x) == UNASSIGNED
  }

  /** What is left to set is still free, also when seen through slot `k` alone. */
  lemma SlotFree(before: seq<Node>, nodes: seq<Node>, p: nat, level: nat, b: nat, k: nat,
                 index: nat, nb: nat, i: nat, n: nat, leaf: nat)
    requires Free(before, p, level, b, index, nb) && Painted(before, nodes, p, level, b, index, i, leaf)
    requires k < L2_SIZE && Aligned(b, level + 1) && InSlot(b, level, k, i) && b <= index <= i && i + n == index + nb
    ensures forall x :: i <= x < Min(i + n, SlotBase(b, level, k) + Span(level)) ==>
              Find(nodes, nodes[p][k], level, x) == UNASSIGNED
  {
    forall x | i <= x < Min(i + n, SlotBase(b, level, k) + Span(level))
      ensures Find(nodes, nodes[p][k], level, x) == UNASSIGNED
    {
      SlotIsDigit(b, level, k, x);
    }
  }

  /** `after` is `before` with slot `k` of node `p` set to `e`, and with nodes inside that
      slot rewritten so that pages `index <= x < index'` of the slot now lead to `leaf`. */
  ghost predicate SlotRewritten(before: seq<Node>, after: seq<Node>, place0: seq<Place>, place: seq<Place>,
                                p: nat, k: nat, e: Entry, index: nat, index': nat, leaf: nat)
  {
    && Wf(before, place0) && Wf(after, place) && place0 <= place && p < |before| && k < L2_SIZE
    && after[p] == before[p]
    && var h, bk := place0[p].level, SlotBase(place0[p].base, place0[p].level, k);
    && bk <= index <= index' <= bk + Span(h)
    && EntryOk(place, e, h, bk)
    && (forall n :: 0 <= n < |before| && !Inside(place[n], bk, h) ==> after[n] == before[n])
    && (forall y :: bk <= y < bk + Span(h) ==>
          Find(after, e, h, y) == if index <= y < index' then leaf else Find(before, before[p][k], h, y))
  }

  /** One slot rewritten: the walk to each page of the node, before and after. */
  lemma SlotPainted(before: seq<Node>, after: seq<Node>, place0: seq<Place>, place: seq<Place>,
                    p: nat, k: nat, e: Entry, index: nat, index': nat, leaf: nat, x: nat)
    requires SlotRewritten(before, after, place0, place, p, k, e, index, index', leaf)
    requires place0[p].base <= x < place0[p].base + Span(place0[p].level + 1)
    ensures var h, nodes := place0[p].level, after[p := after[p][k := e]];
            Find(nodes, nodes[p][Digit(x, h)], h, x) ==
            if index <= x < index' then leaf else Find(before, before[p][Digit(x, h)], h, x)
  {
    var b, h := place0[p].base, place0[p].level;
    var nodes := after[p := after[p][k := e]];
    assert NodeOk(place0, before[p], place0[p]);
    DigitIsSlot(b, h, x);
    SpanGrows(h);
    if Digit(x, h) == k {
      FindFrame(after, nodes, place, e, h, SlotBase(b, h, k), x);
    } else {
      OtherSlotsKept(before, nodes, place0, p, k, x);
      if index <= x < index' { SlotIsDigit(b, h, k, x); }
    }
  }

  lemma SlotPaintedAll(before: seq<Node>, after: seq<Node>, place0: seq<Place>, place: seq<Place>,
                       p: nat, k: nat, e: Entry, index: nat, index': nat, leaf: nat)
    requires SlotRewritten(before, after, place0, place, p, k, e, index, index', leaf)
    ensures var h, b, nodes := place0[p].level, place0[p].base, after[p := after[p][k := e]];
            Wf(nodes, place) &&
            forall x :: b <= x < b + Span(h + 1) ==>
              Find(nodes, nodes[p][Digit(x, h)], h, x) ==
              if index <= x < index' then leaf else Find(before, before[p][Digit(x, h)], h, x)
  {
    var h, b, nodes := place0[p].level, place0[p].base, after[p := after[p][k := e]];
    WfUpdate(after, place, p, k, e);
    forall x | b <= x < b + Span(h + 1)
      ensures Find(nodes, nodes[p][Digit(x, h)], h, x) ==
              if index <= x < index' then leaf else Find(before, before[p][Digit(x, h)], h, x)
    {
      SlotPainted(before, after, place0, place, p, k, e, index, index', leaf, x);
    }
  }

  /** Some page below the slot leads to section `t`. */
  ghost predicate Maps(nodes: seq<Node>, e: Entry, h: nat, b: nat, t: nat) {
    exists y :: b <= y < b + Span(h) && Find(nodes, e, h, y) == t
  }

  /** What compaction may do to the walk for page `x`: nothing, or turn a miss into a
      hit on a section that is mapped elsewhere below the same slot. */
  ghost predicate Kept(nodes: seq<Node>, e: Entry, nodes': seq<Node>, e': Entry, h: nat, b: nat, x: nat) {
    var t := Find(nodes', e', h, x);
    t == Find(nodes, e, h, x) || (Find(nodes, e, h, x) == UNASSIGNED && Maps(nodes, e, h, b, t))
  }

  ghost predicate AllKept(nodes: seq<Node>, e: Entry, nodes': seq<Node>, e': Entry, h: nat, b: nat) {
    forall x :: b <= x < b + Span(h) ==> Kept(nodes, e, nodes', e', h, b, x)
  }

  /** The walk from a slot of height `h` does not look at the digits above `h`. */
  lemma {:induction false} FindShift(nodes: seq<Node>, e: Entry, h: nat, x: nat)
    ensures Find(nodes, e, h, x + Span(h)) == Find(nodes, e, h, x)
  {
    FindShiftFrom(nodes, e, h, h, x);
  }

  lemma {:induction false} FindShiftFrom(nodes: seq<Node>, e: Entry, h: nat, top: nat, x: nat)
    requires h <= top
    ensures Find(nodes, e, h, x + Span(top)) == Find(nodes, e, h, x)
    decreases h
  {
    if 0 < e.skip <= h && e.ptr < |nodes| {
      var i := h - e.skip;
      DigitShift(x, top, i);
      FindShiftFrom(nodes, nodes[e.ptr][Digit(x, i)], i, top, x);
    }
  }

  /** Read through a slot's entry, a page of any slot looks like its counterpart in slot `v`. */
  lemma {:induction false} FindInSlot(nodes: seq<Node>, e: Entry, b: nat, h: nat, j: nat, v: nat, r: nat)
    ensures Find(nodes, e, h, SlotBase(b, h, j) + r) == Find(nodes, e, h, SlotBase(b, h, v) + r)
    decreases j + v
  {
    if j > 0 {
      FindShift(nodes, e, h, SlotBase(b, h, j - 1) + r);
      FindInSlot(nodes, e, b, h, j - 1, v, r);
    } else if v > 0 {
      FindShift(nodes, e, h, SlotBase(b, h, v - 1) + r);
      FindInSlot(nodes, e, b, h, j, v - 1, r);
    }
  }

  /** AllKept for slot `j` of node `p`. */
  ghost predicate SlotKept(nodes: seq<Node>, nodes': seq<Node>, p: nat, pl: Place, j: nat)
    requires p < |nodes| && p < |nodes'| && j < L2_SIZE
  {
    AllKept(nodes, nodes[p][j], nodes', nodes'[p][j], pl.level, SlotBase(pl.base, pl.level, j))
  }

  /** Compacting slot `k` leaves what has been established for slot `j` standing. */
  lemma SlotKeptFrame(nodes: seq<Node>, mid: seq<Node>, nodes': seq<Node>, place: seq<Place>, p: nat, j: nat, k: nat)
    requires p < |nodes| && Wf(mid, place) && p < |mid| && |mid| <= |nodes'| && j < L2_SIZE && k < L2_SIZE && j != k
    requires SlotKept(nodes, mid, p, place[p], j)
    requires forall i :: 0 <= i < L2_SIZE && i != k ==> nodes'[p][i] == mid[p][i]
    requires var bk := SlotBase(place[p].base, place[p].level, k);
             forall n :: 0 <= n < |mid| && n != p && !Inside(place[n], bk, place[p].level) ==> nodes'[n] == mid[n]
    ensures SlotKept(nodes, nodes', p, place[p], j)
  {
    var pl := place[p];
    var b := SlotBase(pl.base, pl.level, j);
    assert NodeOk(place, mid[p], pl);
    forall x | b <= x < b + Span(pl.level)
      ensures Kept(nodes, nodes[p][j], nodes', nodes'[p][j], pl.level, b, x)
    {
      SlotIsDigit(pl.base, pl.level, j, x);
      OtherSlotsKept(mid, nodes', place, p, k, x);
      assert Kept(nodes, nodes[p][j], mid, mid[p][j], pl.level, b, x);
    }
  }

  /** Compacting slot `i` starting from `mid`, which still agrees with `nodes` inside that slot. */
  lemma SlotKeptFrom(nodes: seq<Node>, mid: seq<Node>, nodes': seq<Node>, place: seq<Place>, p: nat, i: nat)
    requires Wf(nodes, place) && |mid| == |nodes| && p < |nodes| && p < |nodes'| && i < L2_SIZE
    requires mid[p][i] == nodes[p][i] && SlotKept(mid, nodes', p, place[p], i)
    requires var bi := SlotBase(place[p].base, place[p].level, i);
             forall n :: 0 <= n < |nodes| && Inside(place[n], bi, place[p].level) ==> mid[n] == nodes[n]
    ensures SlotKept(nodes, nodes', p, place[p], i)
  {
    var h, e := place[p].level, nodes[p][i];
    var b := SlotBase(place[p].base, h, i);
    assert NodeOk(place, nodes[p], place[p]);
    forall x ensures Find(mid, e, h, x) == Find(nodes, e, h, x) {
      FindFrame(nodes, mid, place, e, h, b, x);
    }
    forall x | b <= x < b + Span(h) ensures Kept(nodes, e, nodes', nodes'[p][i], h, b, x) {
      assert Kept(mid, e, nodes', nodes'[p][i], h, b, x);
    }
  }

  /** One more slot compacted: all slots up to it are kept. */
  lemma SlotsKeptStep(nodes: seq<Node>, mid: seq<Node>, nodes': seq<Node>, place: seq<Place>, p: nat, i: nat)
    requires Wf(nodes, place) && Wf(mid, place) && |nodes'| == |nodes| && p < |nodes| && i < L2_SIZE
    requires mid[p][i] == nodes[p][i] && SlotKept(mid, nodes', p, place[p], i)
    requires forall j :: 0 <= j < i ==> SlotKept(nodes, mid, p, place[p], j)
    requires forall j :: 0 <= j < L2_SIZE && j != i ==> nodes'[p][j] == mid[p][j]
    requires var pl := place[p]; var bi := SlotBase(pl.base, pl.level, i);
             && (forall n :: 0 <= n < |nodes| && n != p && place[n].base >= bi ==> mid[n] == nodes[n])
             && (forall n :: 0 <= n < |nodes| && n != p && !Inside(place[n], bi, pl.level) ==> nodes'[n] == mid[n])
    ensures forall j :: 0 <= j <= i ==> SlotKept(nodes, nodes', p, place[p], j)
    ensures var pl := place[p];
            forall n :: 0 <= n < |nodes| && n != p && place[n].base >= SlotBase(pl.base, pl.level, i + 1) ==>
              nodes'[n] == nodes[n]
  {
    SpanGrows(place[p].level);
    SlotKeptFrom(nodes, mid, nodes', place, p, i);
    forall j | 0 <= j < i ensures SlotKept(nodes, nodes', p, place[p], j) {
      SlotKeptFrame(nodes, mid, nodes', place, p, j, i);
    }
  }

  /** A node with an empty slot is not at the bottom, and its empty slots are plain. */
  lemma OnlyChild(nodes: seq<Node>, place: seq<Place>, p: nat, v: nat)
    requires Wf(nodes, place) && p < |nodes| && v < L2_SIZE
    requires forall k :: 0 <= k < L2_SIZE ==> nodes[p][k].skip <= 1
    requires forall j :: 0 <= j < L2_SIZE && j != v ==> nodes[p][j].ptr == NODE_NIL
    ensures place[p].level > 0
    ensures forall j :: 0 <= j < L2_SIZE && j != v ==> nodes[p][j].skip == 1
  {
    assert NodeOk(place, nodes[p], place[p]);
    forall j | 0 <= j < L2_SIZE && j != v ensures nodes[p][j].skip == 1 && place[p].level > 0 {
      assert EntryOk(place, nodes[p][j], place[p].level, SlotBase(place[p].base, place[p].level, j));
    }
    var w := if v == 0 then 1 else 0;
    assert nodes[p][w].skip == 1;
  }

  lemma MapsUp(nodes: seq<Node>, p: nat, pl: Place, j: nat, t: nat)
    requires p < |nodes| && p != NODE_NIL && j < L2_SIZE && Aligned(pl.base, pl.level + 1)
    requires Maps(nodes, nodes[p][j], pl.level, SlotBase(pl.base, pl.level, j), t)
    ensures Maps(nodes, Entry(1, p), pl.level + 1, pl.base, t)
  {
    var b := SlotBase(pl.base, pl.level, j);
    var y :| b <= y < b + Span(pl.level) && Find(nodes, nodes[p][j], pl.level, y) == t;
    SlotIsDigit(pl.base, pl.level, j, y);
    assert Find(nodes, Entry(1, p), pl.level + 1, y) == t;
  }

  /** If every slot of a node is kept, so is the node as a whole. */
  lemma NodeKept(nodes: seq<Node>, nodes': seq<Node>, p: nat, pl: Place)
    requires p < |nodes| && p < |nodes'| && p != NODE_NIL && Aligned(pl.base, pl.level + 1)
    requires forall j :: 0 <= j < L2_SIZE ==> SlotKept(nodes, nodes', p, pl, j)
    ensures AllKept(nodes, Entry(1, p), nodes', Entry(1, p), pl.level + 1, pl.base)
  {
    var b, h, top, e := pl.base, pl.level, pl.level + 1, Entry(1, p);
    forall x | b <= x < b + Span(top) ensures Kept(nodes, e, nodes', e, top, b, x) {
      DigitIsSlot(b, h, x);
      var j := Digit(x, h);
      var t := Find(nodes', e, h + 1, x);
      assert SlotKept(nodes, nodes', p, pl, j);
      assert Kept(nodes, nodes[p][j], nodes', nodes'[p][j], h, SlotBase(b, h, j), x);
      if t != Find(nodes, e, h + 1, x) { MapsUp(nodes, p, pl, j, t); }
    }
  }

  /** The entry that takes the place of one whose node has the single child `c`. */
  function Bypass(c: Entry): Entry {
    if c.skip == 0 then Entry(0, c.ptr) else Entry(1 + c.skip, c.ptr)
  }

  /** Node `p` has at most one slot in use, namely `v`, and that slot is kept. */
  ghost predicate SingleChild(nodes: seq<Node>, nodes': seq<Node>, pl: Place, p: nat, v: nat) {
    && p < |nodes| && p < |nodes'| && p != NODE_NIL && v < L2_SIZE
    && pl.level > 0 && Aligned(pl.base, pl.level + 1)
    && SlotKept(nodes, nodes', p, pl, v)
    && forall j :: 0 <= j < L2_SIZE && j != v ==> nodes[p][j] == EmptyEntry
  }

  lemma BypassKeptAt(nodes: seq<Node>, nodes': seq<Node>, pl: Place, p: nat, v: nat, x: nat)
    requires SingleChild(nodes, nodes', pl, p, v) && nodes'[p][v].skip <= pl.level
    requires pl.base <= x < pl.base + Span(pl.level + 1)
    ensures Kept(nodes, Entry(1, p), nodes', Bypass(nodes'[p][v]), pl.level + 1, pl.base, x)
  {
    var b, h, c := pl.base, pl.level, nodes'[p][v];
    DigitIsSlot(b, h, x);
    var j := Digit(x, h);
    var r := x - SlotBase(b, h, j);
    var y := SlotBase(b, h, v) + r;
    FindInSlot(nodes', c, b, h, j, v, r);
    SlotIsDigit(b, h, v, y);
    var t := Find(nodes', c, h, y);
    assert Find(nodes', Bypass(c), h + 1, x) == t;
    assert Kept(nodes, nodes[p][v], nodes', c, h, SlotBase(b, h, v), y);
    if t == Find(nodes, nodes[p][v], h, y) {
      assert Find(nodes, Entry(1, p), h + 1, y) == t;
      SlotInside(b, h, v);
    } else {
      MapsUp(nodes, p, pl, v, t);
    }
  }

  /** Path compression: with every slot but `v` empty, going straight to the child of
      slot `v` finds the same sections, except that misses may now hit that child. */
  lemma BypassKept(nodes: seq<Node>, nodes': seq<Node>, place: seq<Place>, p: nat, v: nat)
    requires Wf(nodes', place) && p < |place| && SingleChild(nodes, nodes', place[p], p, v)
    ensures AllKept(nodes, Entry(1, p), nodes', Bypass(nodes'[p][v]), place[p].level + 1, place[p].base)
    ensures EntryOk(place, Bypass(nodes'[p][v]), place[p].level + 1, place[p].base)
  {
    var pl, top, e, c := place[p], place[p].level + 1, Entry(1, p), nodes'[p][v];
    assert NodeOk(place, nodes'[p], pl);
    assert EntryOk(place, c, pl.level, SlotBase(pl.base, pl.level, v));
    SlotInside(pl.base, pl.level, v);
    forall x | pl.base <= x < pl.base + Span(top) ensures Kept(nodes, e, nodes', Bypass(c), top, pl.base, x) {
      BypassKeptAt(nodes, nodes', pl, p, v, x);
    }
  }

  /** A run of `nb` pages from `index` on, being set to `leaf` below node `p`, from slot `from` on;
      `nodes` and `place` are as they were before. */
  datatype Run = Run(nodes: seq<Node>, place: seq<Place>, p: nat, level: nat, b: nat, from: nat,
                     index: nat, nb: nat, leaf: nat)

  /** How many of the first `n` slots are in use. */
  function Children(node: Node, n: nat): nat
    requires n <= L2_SIZE
  {
    if n == 0 then 0 else Children(node, n - 1) + if node[n - 1].ptr == NODE_NIL then 0 else 1
  }

  /** Of the first `n` slots `valid` are in use; if it is one, then slot `v`. */
  ghost predicate InUse(node: Node, n: nat, valid: nat, v: nat) {
    && n <= L2_SIZE && valid == Children(node, n)
    && (valid == 1 ==> v < n && forall j :: 0 <= j < n ==> (node[j].ptr != NODE_NIL <==> j == v))
  }

  lemma InUseStep(node: Node, n: nat, valid: nat, v: nat)
    requires InUse(node, n, valid, v) && n < L2_SIZE
    ensures if node[n].ptr == NODE_NIL then InUse(node, n + 1, valid, v) else InUse(node, n + 1, valid + 1, n)
  {
    if j :| 0 <= j < n && node[j].ptr != NODE_NIL {
      ChildrenPositive(node, n, j);
    }
  }

  lemma InUseAll(node: Node, valid: nat, v: nat)
    requires InUse(node, L2_SIZE, valid, v)
    ensures valid == Children(node, L2_SIZE)
    ensures valid == 1 ==> v < L2_SIZE && node[v].ptr != NODE_NIL
    ensures valid == 1 ==> forall j :: 0 <= j < L2_SIZE && j != v ==> node[j].ptr == NODE_NIL
  {}

  lemma {:induction false} ChildrenPositive(node: Node, n: nat, j: nat)
    requires j < n <= L2_SIZE && node[j].ptr != NODE_NIL
    ensures Children(node, n) > 0
  {
    if j < n - 1 {
      ChildrenPositive(node, n - 1, j);
    }
  }

  lemma {:induction false} SameChildren(node: Node, node': Node, n: nat)
    requires n <= L2_SIZE && forall j :: 0 <= j < n ==> (node'[j].ptr == NODE_NIL <==> node[j].ptr == NODE_NIL)
    ensures Children(node', n) == Children(node, n)
  {
    if n > 0 {
      SameChildren(node, node', n - 1);
    }
  }

  /** No step of the walk from `e` could be skipped: wherever it leads to a node with a single slot in
      use, the two skip counts together do not fit their field. */
  ghost predicate Tight(nodes: seq<Node>, e: Entry, h: nat)
    decreases h
  {
    0 < e.skip <= h && e.ptr < |nodes| ==>
      && (Children(nodes[e.ptr], L2_SIZE) == 1 ==> NoFit(nodes[e.ptr], e.skip))
      && forall j :: 0 <= j < L2_SIZE ==> Tight(nodes, nodes[e.ptr][j], h - e.skip)
  }

  ghost predicate NoFit(node: Node, skip: nat) {
    forall j :: 0 <= j < L2_SIZE && node[j].ptr != NODE_NIL ==> skip + node[j].skip >= 8
  }

  /** In a tree of the height of the map, every node that the walk meets has several slots in use, or
      none. */
  lemma TightHasNoSingle(nodes: seq<Node>, place: seq<Place>, e: Entry, h: nat, b: nat)
    requires Wf(nodes, place) && EntryOk(place, e, h, b) && h <= L2_LEVELS && Tight(nodes, e, h)
    requires e.skip > 0 && e.ptr != NODE_NIL
    ensures Children(nodes[e.ptr], L2_SIZE) != 1
  {
    assert NodeOk(place, nodes[e.ptr], place[e.ptr]);
    forall j | 0 <= j < L2_SIZE ensures e.skip + nodes[e.ptr][j].skip <= h {
      assert EntryOk(place, nodes[e.ptr][j], h - e.skip, SlotBase(place[e.ptr].base, h - e.skip, j));
    }
    if Children(nodes[e.ptr], L2_SIZE) == 1 {
      ChildrenSome(nodes[e.ptr], L2_SIZE);
    }
  }

  lemma {:induction false} ChildrenSome(node: Node, n: nat)
    requires n <= L2_SIZE && Children(node, n) > 0
    ensures exists j :: 0 <= j < n && node[j].ptr != NODE_NIL
  {
    if node[n - 1].ptr == NODE_NIL {
      ChildrenSome(node, n - 1);
    }
  }

  /** Compacting slot `k` leaves slot `j` tight. */
  lemma TightOther(nodes: seq<Node>, nodes': seq<Node>, place: seq<Place>, p: nat, j: nat, k: nat)
    requires Wf(nodes, place) && |nodes| == |nodes'| && p < |nodes| && j < L2_SIZE && k < L2_SIZE && j != k
    requires Tight(nodes, nodes[p][j], place[p].level) && nodes'[p][j] == nodes[p][j]
    requires var pl := place[p];
             forall n :: 0 <= n < |nodes| && n != p && !Inside(place[n], SlotBase(pl.base, pl.level, k), pl.level)
               ==> nodes'[n] == nodes[n]
    ensures Tight(nodes', nodes'[p][j], place[p].level)
  {
    var pl := place[p];
    var bj := SlotBase(pl.base, pl.level, j);
    if j < k { SlotsDisjoint(pl.base, pl.level, j, k); } else { SlotsDisjoint(pl.base, pl.level, k, j); }
    forall n | 0 <= n < |nodes| && Inside(place[n], bj, pl.level) ensures nodes'[n] == nodes[n] {
      SpanGrows(pl.level);
    }
    assert NodeOk(place, nodes[p], pl);
    TightFrame(nodes, nodes', place, nodes[p][j], pl.level, bj);
  }

  /** A node whose only child is bypassed. */
  lemma TightBypass(nodes: seq<Node>, c: Entry, skip: nat, h: nat)
    requires c.skip <= h && 0 < skip && Tight(nodes, c, h)
    ensures c.skip > 0 ==> Tight(nodes, Entry(skip + c.skip, c.ptr), skip + h)
  {}

  /** Tightness only depends on the nodes inside the slot's page range. */
  lemma {:induction false} TightFrame(nodes: seq<Node>, nodes': seq<Node>, place: seq<Place>, e: Entry, h: nat, b: nat)
    requires Wf(nodes, place) && EntryOk(place, e, h, b) && |nodes| == |nodes'| && Tight(nodes, e, h)
    requires forall n :: 0 <= n < |nodes| && Inside(place[n], b, h) ==> nodes'[n] == nodes[n]
    ensures Tight(nodes', e, h)
    decreases h
  {
    if 0 < e.skip <= h && e.ptr < |nodes| {
      var pl := place[e.ptr];
      assert NodeOk(place, nodes[e.ptr], pl);
      forall j | 0 <= j < L2_SIZE ensures Tight(nodes', nodes[e.ptr][j], h - e.skip) {
        SlotInside(pl.base, pl.level, j);
        TightFrame(nodes, nodes', place, nodes[e.ptr][j], h - e.skip, SlotBase(pl.base, pl.level, j));
      }
    }
  }

  class PhysMap {
    var root: Entry
    var nodes: seq<Node>
    var capacity: nat
    ghost var place: seq<Place>

    ghost predicate Valid()
      reads this
    {
      Wf(nodes, place) && EntryOk(place, root, L2_LEVELS, 0) && |nodes| <= capacity
    }

    /** Valid and not yet compacted. */
    ghost predicate Open()
      reads this
    {
      Valid() && Plain(nodes, place) && PlainEntry(root, L2_LEVELS)
    }

    constructor ()
      ensures Open() && nodes == [] && root == EmptyEntry
    {
      root, nodes, capacity, place := EmptyEntry, [], 0, [];
    }

    /** phys_map_node_reserve */
    method Reserve(n: nat)
      modifies this`capacity
      ensures |nodes| + n <= capacity && old(capacity) <= capacity
      ensures old(|nodes| + n <= capacity) ==> capacity == old(capacity)
    {
      if |nodes| + n > capacity {
        capacity := if capacity * 2 > 16 then capacity * 2 else 16;
        capacity := if capacity > |nodes| + n then capacity else |nodes| + n;
      }
    }

    /** phys_map_node_alloc; the two assertions of the source are its preconditions. */
    method AllocNode(ghost p: Place) returns (n: nat)
      requires |nodes| != NODE_NIL && |nodes| != capacity && |place| == |nodes|
      modifies this`nodes, this`place
      ensures n == old(|nodes|) && place == old(place) + [p]
      ensures nodes == old(nodes) + [seq(L2_SIZE, _ => EmptyEntry)]
    {
      n := |nodes|;
      nodes := nodes + [seq(L2_SIZE, _ => EmptyEntry)];
      place := place + [p];
    }

    /** The first half of phys_page_set_level: the node below `lp`, allocated if missing. */
    method EnsureNode(lp: Entry, level: nat, ghost b: nat) returns (p: nat)
      requires Wf(nodes, place) && Plain(nodes, place)
      requires EntryOk(place, lp, level + 1, b) && lp.skip == 1 && Aligned(b, level + 1)
      requires lp.ptr == NODE_NIL ==> |nodes| < capacity && |nodes| < NODE_NIL
      modifies this`nodes, this`place
      ensures Wf(nodes, place) && Plain(nodes, place)
      ensures lp.ptr != NODE_NIL ==> p == lp.ptr && nodes == old(nodes) && place == old(place)
      ensures lp.ptr == NODE_NIL ==>
        p == old(|nodes|) == |nodes| - 1 && old(nodes) == nodes[..p] && place == old(place) + [Place(level, b)]
      ensures p < |nodes| && place[p] == Place(level, b)
      ensures forall x :: Find(nodes, nodes[p][Digit(x, level)], level, x) == old(Below(nodes, lp, level, x))
    {
      if lp.skip != 0 && lp.ptr == NODE_NIL {
        var fill := if level == 0 then Entry(0, UNASSIGNED) else EmptyEntry;
        WfAppend(nodes, place, seq(L2_SIZE, _ => fill), Place(level, b));
        p := AllocNode(Place(level, b));
        if level == 0 {
          nodes := nodes[p := seq(L2_SIZE, _ => Entry(0, UNASSIGNED))];
        }
        assert nodes == old(nodes) + [seq(L2_SIZE, _ => fill)];
      } else {
        p := lp.ptr;
      }
    }

    /** What becomes of slot `k` of node `p`: a leaf when the run covers it whole, and an entry filled
        from below otherwise. */
    method SlotEntry(p: nat, k: nat, index: nat, nb: nat, leaf: nat, level: nat, ghost b: nat)
      returns (e: Entry, index': nat, nb': nat)
      requires Wf(nodes, place) && Plain(nodes, place)
      requires p < |nodes| && place[p] == Place(level, b) && k < L2_SIZE
      requires InSlot(b, level, k, index) && nb > 0
      requires leaf != UNASSIGNED && leaf != NODE_NIL
      requires |nodes| + SlotCost(index, nb, level, SlotBase(b, level, k)) <= Min(capacity, NODE_NIL)
      requires forall x :: index <= x < Min(index + nb, SlotBase(b, level, k) + Span(level)) ==>
                 Find(nodes, nodes[p][k], level, x) == UNASSIGNED
      modifies this`nodes, this`place
      decreases level, 0
      ensures Wf(nodes, place) && Plain(nodes, place) && PlainEntry(e, level)
      ensures index' == Min(index + nb, SlotBase(b, level, k) + Span(level)) && nb' == index + nb - index'
      ensures |nodes| <= old(|nodes|) + SlotCost(index, nb, level, SlotBase(b, level, k))
      ensures SlotRewritten(old(nodes), nodes, old(place), place, p, k, e, index, index', leaf)
    {
      ghost var nodes0, bk := nodes, SlotBase(b, level, k);
      assert NodeOk(place, nodes[p], place[p]);
      assert EntryOk(place, nodes[p][k], level, bk) && PlainEntry(nodes[p][k], level);
      SlotAligned(b, level, k);
      hide Digit, SlotBase, Aligned, NodeOk;
      if Aligned(index, level) && nb >= Span(level) {
        BoundaryIsSlotBase(b, level, k, index);
        e, index', nb' := Entry(0, leaf), index + Span(level), nb - Span(level);
      } else {
        e, index', nb' := SetLevel(nodes[p][k], index, nb, leaf, level - 1, bk);
        forall y | bk <= y < bk + Span(level)
          ensures Find(nodes, e, level, y) ==
                  if index <= y < index' then leaf else Find(nodes0, nodes0[p][k], level, y)
        {
          assert Below(nodes0, nodes0[p][k], level - 1, y) == Find(nodes0, nodes0[p][k], level, y);
          assert Below(nodes, e, level - 1, y) == Find(nodes, e, level, y);
        }
      }
    }

    /** One turn of the loop in phys_page_set_level. */
    method SetSlot(p: nat, k: nat, index: nat, nb: nat, leaf: nat, level: nat, ghost b: nat)
      returns (index': nat, nb': nat)
      requires Wf(nodes, place) && Plain(nodes, place)
      requires p < |nodes| && place[p] == Place(level, b) && k < L2_SIZE
      requires InSlot(b, level, k, index) && nb > 0
      requires leaf != UNASSIGNED && leaf != NODE_NIL
      requires |nodes| + SlotCost(index, nb, level, SlotBase(b, level, k)) <= Min(capacity, NODE_NIL)
      requires forall x :: index <= x < Min(index + nb, SlotBase(b, level, k) + Span(level)) ==>
                 Find(nodes, nodes[p][k], level, x) == UNASSIGNED
      modifies this`nodes, this`place
      decreases level, 1
      ensures Wf(nodes, place) && Plain(nodes, place)
      ensures index' == Min(index + nb, SlotBase(b, level, k) + Span(level)) && nb' == index + nb - index'
      ensures old(place) <= place
      ensures |nodes| <= old(|nodes|) + SlotCost(index, nb, level, SlotBase(b, level, k))
      ensures OnlyInside(old(nodes), nodes, place, b, level + 1)
      ensures Painted(old(nodes), nodes, p, level, b, index, index', leaf)
    {
      hide Digit, SlotBase, NodeOk, SlotCost, Find, EntryOk;
      var e;
      e, index', nb' := SlotEntry(p, k, index, nb, leaf, level, b);
      SlotInside(b, level, k);
      SpanGrows(level);
      SlotPaintedAll(old(nodes), nodes, old(place), place, p, k, e, index, index', leaf);
      nodes := nodes[p := nodes[p][k := e]];
    }

    /** Where the loop of phys_page_set_level stands: at slot `k`, with `n` pages from `i` on to set. */
    ghost predicate Midway(r: Run, k: nat, i: nat, n: nat)
      reads `nodes, `place
    {
      && r.from < L2_SIZE && r.from <= k <= L2_SIZE
      && Aligned(r.b, r.level + 1) && InSlot(r.b, r.level, r.from, r.index)
      && (if k == r.from then i == r.index else i == Min(r.index + r.nb, SlotBase(r.b, r.level, k)))
      && r.index <= i && i + n == r.index + r.nb
      && Wf(nodes, place) && Plain(nodes, place) && r.place <= place && r.p < |nodes| && r.p < |r.place|
      && r.place[r.p] == Place(r.level, r.b)
      && OnlyInside(r.nodes, nodes, place, r.b, r.level + 1)
      && Painted(r.nodes, nodes, r.p, r.level, r.b, r.index, i, r.leaf)
      && |nodes| <= |r.nodes| + Cost(r.index, r.nb, r.level, r.b) - 1
      && (n > 0 ==> |nodes| <= |r.nodes| + Used(r.index, r.b, r.level, r.from, k))
    }

    /** One turn of that loop. */
    method SetNext(k: nat, i: nat, n: nat, p: nat, leaf: nat, level: nat, ghost r: Run) returns (i': nat, n': nat)
      requires Midway(r, k, i, n) && n > 0 && k < L2_SIZE && p == r.p && leaf == r.leaf && level == r.level
      requires leaf != UNASSIGNED && leaf != NODE_NIL && Free(r.nodes, p, level, r.b, r.index, r.nb)
      requires |r.nodes| + Cost(r.index, r.nb, level, r.b) - 1 <= Min(capacity, NODE_NIL)
      modifies this`nodes, this`place
      decreases level, 2
      ensures Midway(r, k + 1, i', n')
    {
      hide Painted, OnlyInside, Free, Digit, Aligned, SlotBase, Span, Cost, Used, SlotCost, Whole, Wf, Plain;
      ghost var mid, midPlace := nodes, place;
      LoopTurn(r.b, level, r.from, k, r.index, r.nb, i, n);
      SlotFree(r.nodes, nodes, p, level, r.b, k, r.index, r.nb, i, n, leaf);
      i', n' := SetSlot(p, k, i, n, leaf, level, r.b);
      PaintedStep(r.nodes, mid, nodes, p, level, r.b, r.index, i, i', leaf);
      OnlyInsideStep(r.nodes, mid, nodes, midPlace, place, r.b, level + 1);
    }

    /** The loop of phys_page_set_level over the slots of node `p`, from the slot of `index` on. */
    method SetSlots(p: nat, index: nat, nb: nat, leaf: nat, level: nat, ghost b: nat)
      returns (index': nat, nb': nat)
      requires Wf(nodes, place) && Plain(nodes, place)
      requires p < |nodes| && place[p] == Place(level, b)
      requires b <= index < b + Span(level + 1) && nb > 0
      requires leaf != UNASSIGNED && leaf != NODE_NIL
      requires |nodes| + Cost(index, nb, level, b) - 1 <= Min(capacity, NODE_NIL)
      requires Free(nodes, p, level, b, index, nb)
      modifies this`nodes, this`place
      decreases level, 3
      ensures Wf(nodes, place) && Plain(nodes, place) && old(place) <= place
      ensures |nodes| <= old(|nodes|) + Cost(index, nb, level, b) - 1
      ensures index' == Min(index + nb, b + Span(level + 1)) && nb' == index + nb - index'
      ensures Painted(old(nodes), nodes, p, level, b, index, index', leaf)
      ensures OnlyInside(old(nodes), nodes, place, b, level + 1)
    {
      hide Painted, OnlyInside, Free, Digit, Aligned, SlotBase, Span, Cost, Used, Wf, Plain, Midway;
      index', nb' := index, nb;
      var k := Digit(index, level);
      ghost var r := Run(nodes, place, p, level, b, k, index, nb, leaf);
      RunStarts(r);
      while nb' > 0 && k < L2_SIZE
        invariant Midway(r, k, index', nb') && k <= L2_SIZE
        decreases L2_SIZE - k
      {
        index', nb' := SetNext(k, index', nb', p, leaf, level, r);
        k := k + 1;
      }
      RunEnds(r, k, index', nb');
    }

    lemma RunStarts(r: Run)
      requires Wf(nodes, place) && Plain(nodes, place) && r.nodes == nodes && r.place == place
      requires r.p < |nodes| && place[r.p] == Place(r.level, r.b) && r.from == Digit(r.index, r.level)
      requires r.b <= r.index < r.b + Span(r.level + 1) && r.nb > 0
      ensures r.from < L2_SIZE && Midway(r, r.from, r.index, r.nb)
    {
      assert NodeOk(place, nodes[r.p], place[r.p]);
      assert Painted(nodes, nodes, r.p, r.level, r.b, r.index, r.index, r.leaf);
      assert Cost(r.index, r.nb, r.level, r.b) >= 1;
      hide Painted, Digit, Aligned, SlotBase, Span, Cost, Used, Wf, Plain, NodeOk;
      DigitIsSlot(r.b, r.level, r.index);
    }

    lemma RunEnds(r: Run, k: nat, i: nat, n: nat)
      requires Midway(r, k, i, n) && (n == 0 || k >= L2_SIZE) && r.nb > 0
      ensures Wf(nodes, place) && Plain(nodes, place) && r.place <= place
      ensures |nodes| <= |r.nodes| + Cost(r.index, r.nb, r.level, r.b) - 1
      ensures i == Min(r.index + r.nb, r.b + Span(r.level + 1)) && n == r.index + r.nb - i
      ensures Painted(r.nodes, nodes, r.p, r.level, r.b, r.index, i, r.leaf)
      ensures OnlyInside(r.nodes, nodes, place, r.b, r.level + 1)
    {
      hide Painted, OnlyInside, Cost, Used, Wf, Plain;
      SlotInside(r.b, r.level, if k < L2_SIZE then k else 0);
    }

    /** phys_page_set_level. The C code updates `*lp`, `*index` and `*nb` through
        pointers; here they come back as results. `b` is the first page below `lp`. */
    method SetLevel(lp: Entry, index: nat, nb: nat, leaf: nat, level: nat, ghost b: nat)
      returns (lp': Entry, index': nat, nb': nat)
      requires Wf(nodes, place) && Plain(nodes, place)
      requires EntryOk(place, lp, level + 1, b) && PlainEntry(lp, level + 1) && Aligned(b, level + 1)
      requires b <= index < b + Span(level + 1) && nb > 0
      requires leaf != UNASSIGNED && leaf != NODE_NIL
      requires |nodes| + Cost(index, nb, level, b) <= Min(capacity, NODE_NIL)
      requires forall x :: index <= x < Min(index + nb, b + Span(level + 1)) ==>
                 Below(nodes, lp, level, x) == UNASSIGNED
      modifies this`nodes, this`place
      decreases level, 4
      ensures Wf(nodes, place) && Plain(nodes, place)
      ensures EntryOk(place, lp', level + 1, b) && PlainEntry(lp', level + 1)
      ensures index' == Min(index + nb, b + Span(level + 1)) && nb' == index + nb - index'
      ensures forall x :: b <= x < b + Span(level + 1) ==>
                Below(nodes, lp', level, x) ==
                if index <= x < index' then leaf else old(Below(nodes, lp, level, x))
      ensures old(place) <= place && |nodes| <= old(|nodes|) + Cost(index, nb, level, b)
      ensures forall n :: 0 <= n < old(|nodes|) && !Inside(place[n], b, level + 1) ==> nodes[n] == old(nodes[n])
    {
      assert Below(nodes, lp, level, index) == UNASSIGNED;
      var p := EnsureNode(lp, level, b);
      lp' := Entry(lp.skip, p);
      index', nb' := SetSlots(p, index, nb, leaf, level, b);
    }

    /** phys_page_set: on a map that is not yet compacted, a free run of pages is given
        to section `leaf` and no other page changes. The reservation of 3 * P_L2_LEVELS
        nodes always suffices: at most 2 * P_L2_LEVELS - 1 are taken. */
    method Set(index: nat, nb: nat, leaf: nat)
      requires Open() && nb > 0 && index + nb <= Span(L2_LEVELS)
      requires leaf != UNASSIGNED && leaf != NODE_NIL
      requires |nodes| + 2 * L2_LEVELS - 1 <= NODE_NIL
      requires forall x :: index <= x < index + nb ==> Section(x) == UNASSIGNED
      modifies this
      ensures Open() && |nodes| <= old(|nodes|) + 2 * L2_LEVELS - 1
      ensures forall x :: 0 <= x < Span(L2_LEVELS) ==>
                Section(x) == if index <= x < index + nb then leaf else old(Section(x))
    {
      Reserve(3 * L2_LEVELS);
      var top: nat := L2_LEVELS - 1;
      forall x | index <= x < Min(index + nb, 0 + Span(top + 1))
        ensures Below(nodes, root, top, x) == UNASSIGNED
      {
        assert Section(x) == UNASSIGNED;
      }
      ghost var before, root0 := nodes, root;
      var i, n;
      root, i, n := SetLevel(root, index, nb, leaf, top, 0);
      forall x | 0 <= x < Span(L2_LEVELS)
        ensures Section(x) == if index <= x < index + nb then leaf else Find(before, root0, L2_LEVELS, x)
      {
        assert Below(nodes, root, top, x) == Section(x);
        assert Below(before, root0, top, x) == Find(before, root0, L2_LEVELS, x);
      }
    }

    /** The section number that the map holds for page `x`. */
    ghost function Section(x: nat): nat
      reads `root, `nodes
    {
      Find(nodes, root, L2_LEVELS, x)
    }

    /** The walk of phys_page_find. */
    method Walk(index: nat) returns (t: nat)
      requires Valid()
      ensures t == Section(index)
    {
      var lp := root;
      var i: nat := L2_LEVELS;
      ghost var b := 0;
      while lp.skip != 0 && i - lp.skip >= 0
        invariant EntryOk(place, lp, i, b)
        invariant Find(nodes, lp, i, index) == Section(index)
        decreases i
      {
        i := i - lp.skip;
        if lp.ptr == NODE_NIL {
          return UNASSIGNED;
        }
        assert NodeOk(place, nodes[lp.ptr], place[lp.ptr]);
        b := SlotBase(place[lp.ptr].base, i, Digit(index, i));
        lp := nodes[lp.ptr][Digit(index, i)];
      }
      return lp.ptr;
    }

    /** One turn of the loop in phys_page_compact. */
    method CompactSlot(p: nat, i: nat, ghost level: nat, ghost b: nat)
      requires Wf(nodes, place) && p < |nodes| && place[p] == Place(level, b) && i < L2_SIZE
      requires nodes[p][i].skip <= 1
      requires forall n, k :: 0 <= n < |nodes| && Inside(place[n], SlotBase(b, level, i), level) && 0 <= k < L2_SIZE ==>
                 nodes[n][k].skip <= 1
      modifies this`nodes
      decreases level, 1
      ensures Wf(nodes, place) && SlotKept(old(nodes), nodes, p, place[p], i)
      ensures |nodes| == old(|nodes|) && Tight(nodes, nodes[p][i], level)
      ensures nodes[p][i].ptr == NODE_NIL <==> old(nodes[p][i].ptr) == NODE_NIL
      ensures forall j :: 0 <= j < L2_SIZE && j != i ==> nodes[p][j] == old(nodes[p][j])
      ensures forall n :: 0 <= n < |nodes| && n != p && !Inside(place[n], SlotBase(b, level, i), level) ==>
                nodes[n] == old(nodes[n])
    {
      assert NodeOk(place, nodes[p], place[p]);
      if nodes[p][i].ptr != NODE_NIL && nodes[p][i].skip != 0 {
        ghost var nodes0, bi := nodes, SlotBase(b, level, i);
        SpanGrows(level);
        var e := Compact(nodes[p][i], level, bi);
        ghost var mid := nodes;
        assert NodeOk(place, nodes[p], place[p]);
        WfUpdate(nodes, place, p, i, e);
        nodes := nodes[p := nodes[p][i := e]];
        TightFrame(mid, nodes, place, e, level, bi);
        forall x | bi <= x < bi + Span(level) ensures Kept(nodes0, nodes0[p][i], nodes, e, level, bi, x) {
          FindFrame(mid, nodes, place, e, level, bi, x);
          assert Kept(nodes0, nodes0[p][i], mid, e, level, bi, x);
        }
      }
    }

    /** The first `i` slots of node `p` have been compacted, since the nodes were `before`. */
    ghost predicate Compacted(before: seq<Node>, p: nat, level: nat, b: nat, i: nat)
      reads `nodes, `place
    {
      && Wf(nodes, place) && |nodes| == |before| == |place| && p < |nodes| && place[p] == Place(level, b)
      && i <= L2_SIZE
      && (forall n :: 0 <= n < |nodes| && !Inside(place[n], b, level + 1) ==> nodes[n] == before[n])
      && (forall n :: 0 <= n < |nodes| && n != p && place[n].base >= SlotBase(b, level, i) ==> nodes[n] == before[n])
      && (forall j :: i <= j < L2_SIZE ==> nodes[p][j] == before[p][j])
      && (forall j :: 0 <= j < i ==> SlotKept(before, nodes, p, place[p], j) && Tight(nodes, nodes[p][j], level))
      && (forall j :: 0 <= j < i ==> (nodes[p][j].ptr == NODE_NIL <==> before[p][j].ptr == NODE_NIL))
    }

    /** One more slot. */
    method CompactNext(p: nat, i: nat, ghost level: nat, ghost b: nat, ghost before: seq<Node>)
      requires Compacted(before, p, level, b, i) && Wf(before, place) && i < L2_SIZE && Narrow(before, b, level + 1)
      modifies this`nodes
      decreases level, 2
      ensures Compacted(before, p, level, b, i + 1)
    {
      hide Tight, SlotKept, Wf, Children;
      ghost var mid := nodes;
      SlotInside(b, level, i);
      CompactSlot(p, i, level, b);
      SlotsKeptStep(before, mid, nodes, place, p, i);
      forall j | 0 <= j < i ensures Tight(nodes, nodes[p][j], level) {
        TightOther(mid, nodes, place, p, j, i);
      }
    }

    /** No entry of a node in the range skips a level yet. */
    ghost predicate Narrow(nodes: seq<Node>, b: nat, h: nat)
      reads `place
    {
      forall n, k :: 0 <= n < |nodes| && n < |place| && Inside(place[n], b, h) && 0 <= k < L2_SIZE ==>
        nodes[n][k].skip <= 1
    }

    /** The loop of phys_page_compact over the slots of node `p`: how many of them are in use,
        and the last such slot. */
    method CompactSlots(p: nat, ghost level: nat, ghost b: nat) returns (valid: nat, validPtr: nat)
      requires Wf(nodes, place) && p < |nodes| && place[p] == Place(level, b)
      requires forall n, k :: 0 <= n < |nodes| && Inside(place[n], b, level + 1) && 0 <= k < L2_SIZE ==>
                 nodes[n][k].skip <= 1
      modifies this`nodes
      decreases level, 3
      ensures Wf(nodes, place)
      ensures forall n :: 0 <= n < |nodes| && !Inside(place[n], b, level + 1) ==> nodes[n] == old(nodes[n])
      ensures forall j :: 0 <= j < L2_SIZE ==> SlotKept(old(nodes), nodes, p, place[p], j)
      ensures forall j :: 0 <= j < L2_SIZE ==> Tight(nodes, nodes[p][j], level)
      ensures valid == Children(old(nodes[p]), L2_SIZE) == Children(nodes[p], L2_SIZE)
      ensures forall j :: 0 <= j < L2_SIZE ==> (nodes[p][j].ptr == NODE_NIL <==> old(nodes[p][j].ptr) == NODE_NIL)
      ensures valid == 1 ==> validPtr < L2_SIZE && nodes[p][validPtr].ptr != NODE_NIL &&
                             forall j :: 0 <= j < L2_SIZE && j != validPtr ==> old(nodes[p][j].ptr) == NODE_NIL
    {
      ghost var before := nodes;
      valid, validPtr := 0, L2_SIZE;
      assert Compacted(before, p, level, b, 0) && Narrow(before, b, level + 1);
      hide Tight, SlotKept, Wf, Narrow, Compacted, InUse, Children;
      var i := 0;
      while i < L2_SIZE
        invariant 0 <= i <= L2_SIZE && Compacted(before, p, level, b, i) && InUse(before[p], i, valid, validPtr)
      {
        CompactedRest(before, p, level, b, i);
        InUseStep(before[p], i, valid, validPtr);
        if nodes[p][i].ptr != NODE_NIL {
          validPtr := i;
          valid := valid + 1;
        }
        CompactNext(p, i, level, b, before);
        i := i + 1;
      }
      CompactedAll(before, p, level, b);
      assert InUse(before[p], L2_SIZE, valid, validPtr);
      InUseAll(before[p], valid, validPtr);
      SameChildren(before[p], nodes[p], L2_SIZE);
    }

    lemma CompactedRest(before: seq<Node>, p: nat, level: nat, b: nat, i: nat)
      requires Compacted(before, p, level, b, i) && i < L2_SIZE
      ensures p < |nodes| && p < |before| && nodes[p][i] == before[p][i]
    {}

    lemma CompactedAll(before: seq<Node>, p: nat, level: nat, b: nat)
      requires Compacted(before, p, level, b, L2_SIZE)
      ensures Wf(nodes, place) && |nodes| == |before| == |place| && p < |nodes|
      ensures forall n :: 0 <= n < |nodes| && !Inside(place[n], b, level + 1) ==> nodes[n] == before[n]
      ensures forall j :: 0 <= j < L2_SIZE ==> SlotKept(before, nodes, p, place[p], j)
      ensures forall j :: 0 <= j < L2_SIZE ==> Tight(nodes, nodes[p][j], level)
      ensures forall j :: 0 <= j < L2_SIZE ==> (nodes[p][j].ptr == NODE_NIL <==> before[p][j].ptr == NODE_NIL)
    {}

    /** phys_page_compact on the entry `lp` of a slot of height `h` that starts at page `b`. */
    method Compact(lp: Entry, ghost h: nat, ghost b: nat) returns (lp': Entry)
      requires Wf(nodes, place) && EntryOk(place, lp, h, b) && lp.skip == 1
      requires forall n, k :: 0 <= n < |nodes| && Inside(place[n], b, h) && 0 <= k < L2_SIZE ==> nodes[n][k].skip <= 1
      modifies this`nodes
      decreases h, 0
      ensures Wf(nodes, place) && EntryOk(place, lp', h, b)
      ensures lp.ptr != NODE_NIL ==> lp'.ptr != NODE_NIL
      ensures forall n :: 0 <= n < |nodes| && !Inside(place[n], b, h) ==> nodes[n] == old(nodes[n])
      ensures AllKept(old(nodes), lp, nodes, lp', h, b) && Tight(nodes, lp', h)
    {
      lp' := lp;
      if lp.ptr == NODE_NIL {
        return;
      }
      var p := lp.ptr;
      ghost var nodes0 := nodes;
      assert place[p] == Place(h - 1, b);
      assert NodeOk(place, nodes[p], place[p]);
      var valid, validPtr := CompactSlots(p, h - 1, b);
      // Only a single child can be bypassed, and only while the skip count fits its field.
      if valid != 1 || lp.skip + nodes[p][validPtr].skip >= 8 {
        NodeKept(nodes0, nodes, p, place[p]);
        assert valid == 1 ==> NoFit(nodes[p], lp.skip);
        return;
      }
      var c := nodes[p][validPtr];
      assert NodeOk(place, nodes[p], place[p]);
      assert EntryOk(place, c, h - 1, SlotBase(b, h - 1, validPtr));
      OnlyChild(nodes0, place, p, validPtr);
      TightBypass(nodes, c, lp.skip, h - 1);
      BypassKept(nodes0, nodes, place, p, validPtr);
      lp' := Entry(if c.skip == 0 then 0 else lp.skip + c.skip, c.ptr);
    }

    /** phys_page_compact_all */
    method CompactAll()
      requires Open()
      modifies this`root, this`nodes
      ensures Valid() && place == old(place)
      ensures AllKept(old(nodes), old(root), nodes, root, L2_LEVELS, 0) && Tight(nodes, root, L2_LEVELS)
    {
      if root.skip != 0 {
        root := Compact(root, L2_LEVELS, 0);
      }
    }
  }
}
