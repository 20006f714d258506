/**
 * The list of guest RAM blocks (exec.c): best-fit choice of an offset, insertion by
 * decreasing length, removal, and lookup through a most-recently-used shortcut.
 */
module RamList {
  import opened Wrappers

  const RAM_ADDR_MAX: nat := 0xffff_ffff_ffff_ffff
  const WORD: nat := 0x1_0000_0000_0000_0000

  datatype Block = Block(offset: nat, length: nat)

  function End(b: Block): nat { b.offset + b.length }

  predicate Holds(b: Block, addr: nat) { b.offset <= addr < End(b) }

  /** The source's unsigned test `addr - block->offset < block->length`. */
  predicate Hit(b: Block, addr: nat) { (addr - b.offset) % WORD < b.length }

  predicate Apart(b: Block, c: Block) { End(b) <= c.offset || End(c) <= b.offset }

  ghost predicate Disjoint(blocks: seq<Block>) {
    && (forall i :: 0 <= i < |blocks| ==> 0 < blocks[i].length && End(blocks[i]) <= RAM_ADDR_MAX)
    && (forall i, j :: 0 <= i < j < |blocks| ==> Apart(blocks[i], blocks[j]))
  }

  ghost predicate Descending(blocks: seq<Block>) {
    forall i, j :: 0 <= i < j < |blocks| ==> blocks[i].length >= blocks[j].length
  }

  lemma HitIsHolds(b: Block, addr: nat)
    requires End(b) <= RAM_ADDR_MAX && addr <= RAM_ADDR_MAX
    ensures Hit(b, addr) <==> Holds(b, addr)
  {
    if addr < b.offset { assert (addr - b.offset) % WORD == addr - b.offset + WORD; }
  }

  /** The start of the first block at or after `e`, or the end of the address space. */
  function Next(blocks: seq<Block>, e: nat): nat {
    if blocks == [] then RAM_ADDR_MAX
    else
      var last, rest := blocks[|blocks| - 1], Next(blocks[..|blocks| - 1], e);
      if last.offset >= e && last.offset < rest then last.offset else rest
  }

  /** The room that follows block `b`. */
  function Gap(blocks: seq<Block>, b: Block): int { Next(blocks, End(b)) - End(b) }

  lemma {:induction false} NextIsFirst(blocks: seq<Block>, e: nat)
    requires e <= RAM_ADDR_MAX
    ensures e <= Next(blocks, e) <= RAM_ADDR_MAX
    ensures forall i :: 0 <= i < |blocks| && blocks[i].offset >= e ==> Next(blocks, e) <= blocks[i].offset
    ensures Next(blocks, e) == RAM_ADDR_MAX || exists i :: 0 <= i < |blocks| && blocks[i].offset == Next(blocks, e)
  {
    if blocks != [] {
      var rest := blocks[..|blocks| - 1];
      NextIsFirst(rest, e);
      assert forall i :: 0 <= i < |rest| ==> blocks[i] == rest[i];
      if Next(rest, e) != RAM_ADDR_MAX {
        var i :| 0 <= i < |rest| && rest[i].offset == Next(rest, e);
        assert blocks[i].offset == Next(rest, e);
      }
      assert blocks[|blocks| - 1].offset >= 0;
    }
  }

  /** A block of `size` placed right after an existing block with enough room clashes with nothing. */
  lemma GapIsFree(blocks: seq<Block>, k: nat, size: nat)
    requires Disjoint(blocks) && k < |blocks| && 0 < size <= Gap(blocks, blocks[k])
    ensures End(blocks[k]) + size <= RAM_ADDR_MAX
    ensures forall i :: 0 <= i < |blocks| ==> Apart(blocks[i], Block(End(blocks[k]), size))
  {
    NextIsFirst(blocks, End(blocks[k]));
    forall i | 0 <= i < |blocks| ensures Apart(blocks[i], Block(End(blocks[k]), size)) {
      if i < k { assert Apart(blocks[i], blocks[k]); }
      if k < i { assert Apart(blocks[k], blocks[i]); }
    }
  }

  /** `o` is where find_ram_offset may put a block of `size`: at 0 in an empty list, else at
      the start of a smallest sufficient gap that follows a block. */
  ghost predicate BestFit(blocks: seq<Block>, size: nat, o: nat) {
    if blocks == [] then o == 0
    else exists k :: 0 <= k < |blocks| && o == End(blocks[k]) && Gap(blocks, blocks[k]) >= size &&
           forall j :: 0 <= j < |blocks| && Gap(blocks, blocks[j]) >= size ==>
             Gap(blocks, blocks[k]) <= Gap(blocks, blocks[j])
  }

  /** None of the first `n` gaps is big enough. */
  ghost predicate TooSmall(blocks: seq<Block>, size: nat, n: nat) {
    forall j :: 0 <= j < n && j < |blocks| ==> Gap(blocks, blocks[j]) < size
  }

  /** Of the first `n` gaps that are big enough, the `k`-th is a smallest. */
  ghost predicate Best(blocks: seq<Block>, size: nat, n: nat, k: nat) {
    && k < n && k < |blocks| && Gap(blocks, blocks[k]) >= size
    && forall j :: 0 <= j < n && j < |blocks| && Gap(blocks, blocks[j]) >= size ==>
                     Gap(blocks, blocks[k]) <= Gap(blocks, blocks[j])
  }

  lemma NoGapYet(blocks: seq<Block>, size: nat)
    ensures TooSmall(blocks, size, 0)
  {}

  /** One more gap is looked at. */
  lemma GapTurn(blocks: seq<Block>, size: nat, i: nat, k: int)
    requires i < |blocks| && -1 <= k && Gap(blocks, blocks[i]) < RAM_ADDR_MAX
    requires if k == -1 then TooSmall(blocks, size, i) else Best(blocks, size, i, k)
    ensures k == -1 && Gap(blocks, blocks[i]) < size ==> TooSmall(blocks, size, i + 1)
    ensures k == -1 && Gap(blocks, blocks[i]) >= size ==> Best(blocks, size, i + 1, i)
    ensures k != -1 && Gap(blocks, blocks[i]) >= size && Gap(blocks, blocks[i]) < Gap(blocks, blocks[k]) ==>
              Best(blocks, size, i + 1, i)
    ensures k != -1 && !(Gap(blocks, blocks[i]) >= size && Gap(blocks, blocks[i]) < Gap(blocks, blocks[k])) ==>
              Best(blocks, size, i + 1, k)
  {
    hide Gap;
  }

  lemma BestIsFit(blocks: seq<Block>, size: nat, k: nat)
    requires Best(blocks, size, |blocks|, k)
    ensures BestFit(blocks, size, End(blocks[k])) && !TooSmall(blocks, size, |blocks|)
  {
    hide Gap;
  }

  lemma BestFitIsFree(blocks: seq<Block>, size: nat, o: nat)
    requires Disjoint(blocks) && 0 < size <= RAM_ADDR_MAX && BestFit(blocks, size, o)
    ensures o + size <= RAM_ADDR_MAX
    ensures forall i :: 0 <= i < |blocks| ==> Apart(blocks[i], Block(o, size))
  {
    if blocks != [] {
      var k :| 0 <= k < |blocks| && o == End(blocks[k]) && Gap(blocks, blocks[k]) >= size;
      GapIsFree(blocks, k, size);
    }
  }

  /** The block that the linear scan of qemu_get_ram_block stops at. */
  function Scan(blocks: seq<Block>, addr: nat): Option<Block> {
    if blocks == [] then None
    else if Hit(blocks[0], addr) then Some(blocks[0])
    else Scan(blocks[1..], addr)
  }

  lemma {:induction false} ScanFinds(blocks: seq<Block>, addr: nat, k: nat)
    requires Disjoint(blocks) && addr <= RAM_ADDR_MAX && k < |blocks| && Holds(blocks[k], addr)
    ensures Scan(blocks, addr) == Some(blocks[k])
  {
    HitIsHolds(blocks[0], addr);
    if k > 0 {
      assert Apart(blocks[0], blocks[k]);
      ScanFinds(blocks[1..], addr, k - 1);
    }
  }

  function Insert(blocks: seq<Block>, at: nat, b: Block): seq<Block>
    requires at <= |blocks|
  {
    blocks[..at] + [b] + blocks[at..]
  }

  function Remove(blocks: seq<Block>, at: nat): seq<Block>
    requires at < |blocks|
  {
    blocks[..at] + blocks[at + 1..]
  }

  lemma InsertAt(blocks: seq<Block>, at: nat, b: Block, i: nat)
    requires at <= |blocks| && i <= |blocks|
    ensures |Insert(blocks, at, b)| == |blocks| + 1
    ensures Insert(blocks, at, b)[i] == if i < at then blocks[i] else if i == at then b else blocks[i - 1]
  {}

  /** `b` may be put at position `at`. */
  ghost predicate Fits(blocks: seq<Block>, at: nat, b: Block) {
    && Disjoint(blocks) && Descending(blocks) && at <= |blocks| && 0 < b.length && End(b) <= RAM_ADDR_MAX
    && (forall i :: 0 <= i < |blocks| ==> Apart(blocks[i], b))
    && (forall i :: 0 <= i < at ==> blocks[i].length >= b.length)
    && (at < |blocks| ==> blocks[at].length < b.length)
  }

  lemma InsertKeepsDisjoint(blocks: seq<Block>, at: nat, b: Block)
    requires Fits(blocks, at, b)
    ensures Disjoint(Insert(blocks, at, b))
  {
    var r := Insert(blocks, at, b);
    forall i | 0 <= i < |r| ensures 0 < r[i].length && End(r[i]) <= RAM_ADDR_MAX { InsertAt(blocks, at, b, i); }
    hide Insert;
    forall i, j | 0 <= i < j < |r| ensures Apart(r[i], r[j]) {
      InsertAt(blocks, at, b, i);
      InsertAt(blocks, at, b, j);
    }
  }

  lemma InsertKeepsDescending(blocks: seq<Block>, at: nat, b: Block)
    requires Fits(blocks, at, b)
    ensures Descending(Insert(blocks, at, b))
  {
    var r := Insert(blocks, at, b);
    hide Insert;
    forall i, j | 0 <= i < j < |r| ensures r[i].length >= r[j].length {
      InsertAt(blocks, at, b, i);
      InsertAt(blocks, at, b, j);
    }
  }

  lemma InsertMultiset(blocks: seq<Block>, at: nat, b: Block)
    requires at <= |blocks|
    ensures multiset(Insert(blocks, at, b)) == multiset(blocks) + multiset{b}
  {
    assert blocks == blocks[..at] + blocks[at..];
  }

  lemma InsertKeeps(blocks: seq<Block>, at: nat, b: Block)
    requires Fits(blocks, at, b)
    ensures Disjoint(Insert(blocks, at, b)) && Descending(Insert(blocks, at, b))
    ensures multiset(Insert(blocks, at, b)) == multiset(blocks) + multiset{b}
  {
    InsertKeepsDisjoint(blocks, at, b);
    InsertKeepsDescending(blocks, at, b);
    InsertMultiset(blocks, at, b);
  }

  lemma RemoveKeeps(blocks: seq<Block>, at: nat)
    requires Disjoint(blocks) && Descending(blocks) && at < |blocks|
    ensures Disjoint(Remove(blocks, at)) && Descending(Remove(blocks, at))
    ensures multiset(Remove(blocks, at)) == multiset(blocks) - multiset{blocks[at]}
  {
    assert blocks == blocks[..at] + [blocks[at]] + blocks[at + 1..];
  }

  /** Disjoint blocks start at different offsets. */
  lemma OneAtOffset(blocks: seq<Block>, at: nat)
    requires Disjoint(blocks) && at < |blocks|
    ensures forall i :: 0 <= i < |blocks| && i != at ==> blocks[i].offset != blocks[at].offset
  {
    forall i | 0 <= i < |blocks| && i != at ensures blocks[i].offset != blocks[at].offset {
      assert if i < at then Apart(blocks[i], blocks[at]) else Apart(blocks[at], blocks[i]);
    }
  }

  class RamBlocks {
    var blocks: seq<Block>
    var mru: Option<Block>
    var version: nat

    ghost predicate Valid()
      reads this
    {
      Disjoint(blocks) && Descending(blocks) && (mru.Some? ==> mru.value in blocks)
    }

    constructor ()
      ensures Valid() && blocks == []
    {
      blocks, mru, version := [], None, 0;
    }

    /** The inner loop of find_ram_offset. */
    method NextStart(end: nat) returns (next: nat)
      ensures next == Next(blocks, end)
    {
      next := RAM_ADDR_MAX;
      for i := 0 to |blocks|
        invariant next == Next(blocks[..i], end)
      {
        assert blocks[..i + 1][..i] == blocks[..i];
        if blocks[i].offset >= end && blocks[i].offset < next {
          next := blocks[i].offset;
        }
      }
      assert blocks[..|blocks|] == blocks;
    }

    /** The room after the `i`-th block, as find_ram_offset computes it. */
    method GapAfter(i: nat) returns (gap: nat)
      requires Disjoint(blocks) && i < |blocks|
      ensures gap == Gap(blocks, blocks[i]) < RAM_ADDR_MAX && End(blocks[i]) + gap <= RAM_ADDR_MAX
    {
      var end := End(blocks[i]);
      var next := NextStart(end);
      NextIsFirst(blocks, end);
      gap := next - end;
    }

    /** find_ram_offset; None stands for the abort of the source. */
    method FindOffset(size: nat) returns (r: Option<nat>)
      requires Valid() && size != 0
      ensures r.Some? ==> BestFit(blocks, size, r.value)
      ensures r.None? <==> blocks != [] && TooSmall(blocks, size, |blocks|)
    {
      hide Gap, Disjoint, Descending, TooSmall, Best;
      if blocks == [] {
        return Some(0);
      }
      var offset, mingap := RAM_ADDR_MAX, RAM_ADDR_MAX;
      ghost var k := -1;
      NoGapYet(blocks, size);
      for i := 0 to |blocks|
        invariant k == -1 ==> offset == mingap == RAM_ADDR_MAX && TooSmall(blocks, size, i)
        invariant k != -1 ==> 0 <= k < i && Best(blocks, size, i, k)
        invariant k != -1 ==> offset == End(blocks[k]) < RAM_ADDR_MAX && mingap == Gap(blocks, blocks[k])
      {
        var gap := GapAfter(i);
        GapTurn(blocks, size, i, k);
        if gap >= size && gap < mingap {
          offset, mingap := End(blocks[i]), gap;
          k := i;
        }
      }
      if offset == RAM_ADDR_MAX {
        return None;
      }
      BestIsFit(blocks, size, k);
      return Some(offset);
    }

    /** qemu_ram_alloc_from_ptr, as far as the list is concerned; `size` is already page-aligned. */
    method Alloc(size: nat) returns (r: Option<nat>)
      requires Valid() && 0 < size <= RAM_ADDR_MAX
      modifies this
      ensures Valid()
      ensures r.None? ==> blocks == old(blocks) && TooSmall(blocks, size, |blocks|)
      ensures r.Some? ==> BestFit(old(blocks), size, r.value) && version == old(version) + 1
      ensures r.Some? ==> multiset(blocks) == multiset(old(blocks)) + multiset{Block(r.value, size)} && mru == None
    {
      r := FindOffset(size);
      if r.None? {
        return;
      }
      var b := Block(r.value, size);
      BestFitIsFree(blocks, size, r.value);
      var at := Position(size);
      InsertKeeps(blocks, at, b);
      hide *;
      blocks := Insert(blocks, at, b);
      mru := None;
      version := version + 1;
    }

    /** The loop that keeps the list sorted from biggest to smallest block. */
    method Position(size: nat) returns (at: nat)
      ensures at <= |blocks| && forall i :: 0 <= i < at ==> blocks[i].length >= size
      ensures at < |blocks| ==> blocks[at].length < size
    {
      at := 0;
      while at < |blocks| && blocks[at].length >= size
        invariant at <= |blocks|
        invariant forall i :: 0 <= i < at ==> blocks[i].length >= size
      {
        at := at + 1;
      }
    }

    /** Block `i` leaves the list. */
    method Drop(i: nat)
      requires Valid() && i < |blocks|
      modifies this
      ensures Valid() && mru == None && multiset(blocks) == multiset(old(blocks)) - multiset{old(blocks)[i]}
      ensures version == old(version) + 1
    {
      hide Disjoint, Descending, Remove;
      RemoveKeeps(blocks, i);
      blocks := Remove(blocks, i);
      mru := None;
      version := version + 1;
    }

    /** qemu_ram_free and qemu_ram_free_from_ptr */
    method Free(addr: nat)
      requires Valid()
      modifies this
      ensures Valid()
      ensures (forall i :: 0 <= i < old(|blocks|) ==> old(blocks)[i].offset != addr) ==> blocks == old(blocks)
      ensures forall i :: 0 <= i < old(|blocks|) && old(blocks)[i].offset == addr ==>
                && multiset(blocks) == multiset(old(blocks)) - multiset{old(blocks)[i]} && mru == None
                && version == old(version) + 1
    {
      hide Disjoint, Descending;
      for i := 0 to |blocks|
        invariant blocks == old(blocks) && mru == old(mru) && version == old(version)
        invariant forall j :: 0 <= j < i ==> blocks[j].offset != addr
      {
        if addr == blocks[i].offset {
          OneAtOffset(blocks, i);
          Drop(i);
          return;
        }
      }
    }

    /** qemu_get_ram_block; None stands for the abort of the source. */
    method Get(addr: nat) returns (r: Option<Block>)
      requires Valid() && addr <= RAM_ADDR_MAX
      modifies this`mru
      ensures Valid()
      ensures r == Scan(blocks, addr)
      ensures r.Some? ==> r.value in blocks && Holds(r.value, addr) && mru == r
      ensures r.None? ==> forall i :: 0 <= i < |blocks| ==> !Holds(blocks[i], addr)
    {
      if mru.Some? && Hit(mru.value, addr) {
        var k :| 0 <= k < |blocks| && blocks[k] == mru.value;
        HitIsHolds(mru.value, addr);
        ScanFinds(blocks, addr, k);
        return mru;
      }
      for i := 0 to |blocks|
        invariant mru == old(mru)
        invariant forall j :: 0 <= j < i ==> !Holds(blocks[j], addr)
        invariant Scan(blocks, addr) == Scan(blocks[i..], addr)
      {
        HitIsHolds(blocks[i], addr);
        if Hit(blocks[i], addr) {
          mru := Some(blocks[i]);
          return mru;
        }
      }
      return None;
    }
  }
}
