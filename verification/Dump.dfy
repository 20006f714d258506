/**
 * Layout of a guest memory dump.  dump.c walks the list of guest RAM blocks twice: once to
 * predict the file offset of every program header, and once to write the bytes.  The two walks
 * share only the block list and the filter window, and must agree.
 */
module Dump {
  import opened Bytes
  import opened Wrappers

  /** A GuestPhysBlock: guest addresses from `start` to `end`, found from `host` on in host memory. */
  datatype Block = Block(start: nat, end: nat, host: nat)

  datatype Filter = Everything | Window(begin: nat, length: nat)

  /** A MemoryMapping; virtual addresses play no part in the layout. */
  datatype Mapping = Mapping(phys: nat, length: nat)

  /** What a PT_LOAD program header says; no offset is the all-ones offset of the source. */
  datatype Load = Load(offset: Option<nat>, paddr: nat, filesz: nat, memsz: nat)

  // ---------------------------------------------------------------- guest memory and the filter

  /** No two neighbours could be one block: they are apart in guest memory or in host memory. */
  ghost predicate Joined(blocks: seq<Block>) {
    forall i :: 0 < i < |blocks| ==>
      var b, c := blocks[i - 1], blocks[i];
      b.end != c.start || b.host + (b.end - b.start) != c.host
  }

  lemma JoinedGrow(blocks: seq<Block>, end: nat)
    requires blocks != []
    ensures var last := |blocks| - 1;
            Joined(blocks) ==> Joined(blocks[last := blocks[last].(end := end)])
  {}

  lemma JoinedAppend(blocks: seq<Block>, b: Block)
    requires blocks != [] ==> var c := blocks[|blocks| - 1];
               c.end != b.start || c.host + (c.end - c.start) != b.host
    ensures Joined(blocks) ==> Joined(blocks + [b])
  {
    assert forall i :: 0 <= i < |blocks| ==> (blocks + [b])[i] == blocks[i];
  }

  ghost predicate Sorted(blocks: seq<Block>, host: seq<Byte>) {
    && (forall i :: 0 <= i < |blocks| ==> Backed(blocks[i], host))
    && (forall i, j :: 0 <= i < j < |blocks| ==> blocks[i].end <= blocks[j].start)
  }

  ghost predicate Backed(b: Block, host: seq<Byte>) {
    b.start < b.end && b.host + (b.end - b.start) <= |host|
  }

  /** The guest's view of its memory: the byte at an address, if RAM is there. */
  ghost function Guest(blocks: seq<Block>, host: seq<Byte>, a: nat): Option<Byte>
    requires Sorted(blocks, host)
  {
    if blocks == [] then None
    else
      var b := blocks[|blocks| - 1];
      if b.start <= a < b.end then Some(host[b.host + a - b.start]) else Guest(blocks[..|blocks| - 1], host, a)
  }

  lemma {:induction false} GuestIs(blocks: seq<Block>, host: seq<Byte>, i: nat, a: nat)
    requires Sorted(blocks, host) && i < |blocks| && blocks[i].start <= a < blocks[i].end
    ensures Guest(blocks, host, a) == Some(host[blocks[i].host + a - blocks[i].start])
  {
    if i < |blocks| - 1 {
      GuestIs(blocks[..|blocks| - 1], host, i, a);
    }
  }

  lemma {:induction false} GuestOwner(blocks: seq<Block>, host: seq<Byte>, a: nat) returns (i: nat)
    requires Sorted(blocks, host) && Guest(blocks, host, a).Some?
    ensures i < |blocks| && blocks[i].start <= a < blocks[i].end
  {
    i := |blocks| - 1;
    if !(blocks[i].start <= a < blocks[i].end) {
      i := GuestOwner(blocks[..|blocks| - 1], host, a);
    }
  }

  predicate InFilter(f: Filter, a: nat) {
    f.Everything? || f.begin <= a < f.begin + f.length
  }

  /** The test by which both walks leave a block out. */
  predicate Skipped(f: Filter, b: Block) {
    f.Window? && (b.start >= f.begin + f.length || b.end <= f.begin)
  }

  function Lo(f: Filter, b: Block): nat {
    if f.Window? && f.begin > b.start then f.begin else b.start
  }

  function Hi(f: Filter, b: Block): nat {
    if f.Window? && f.begin + f.length < b.end then f.begin + f.length else b.end
  }

  /** What a block contributes to the file. */
  ghost function Part(f: Filter, b: Block, host: seq<Byte>): seq<Byte>
    requires Backed(b, host)
  {
    if Skipped(f, b) then [] else host[b.host + Lo(f, b) - b.start..b.host + Hi(f, b) - b.start]
  }

  /** What the first `n` blocks contribute. */
  ghost function Image(f: Filter, blocks: seq<Block>, n: nat, host: seq<Byte>): seq<Byte>
    requires Sorted(blocks, host) && n <= |blocks|
  {
    if n == 0 then [] else Image(f, blocks, n - 1, host) + Part(f, blocks[n - 1], host)
  }

  lemma {:induction false} ImagePrefix(f: Filter, blocks: seq<Block>, m: nat, n: nat, host: seq<Byte>)
    requires Sorted(blocks, host) && m <= n <= |blocks|
    ensures Image(f, blocks, m, host) <= Image(f, blocks, n, host)
  {
    hide Part, Skipped, Lo, Hi;
    if m < n {
      ImagePrefix(f, blocks, m, n - 1, host);
    }
  }

  lemma PartByte(f: Filter, b: Block, host: seq<Byte>, a: nat)
    requires Backed(b, host) && !Skipped(f, b) && Lo(f, b) <= a < Hi(f, b)
    ensures a - Lo(f, b) < |Part(f, b, host)|
    ensures Part(f, b, host)[a - Lo(f, b)] == host[b.host + a - b.start]
    ensures b.start <= a < b.end && InFilter(f, a)
  {}

  /** The bytes that block `i` contributes are the guest's bytes, at their place in the image. */
  lemma ImageIsGuest(f: Filter, blocks: seq<Block>, host: seq<Byte>, i: nat, a: nat)
    requires Sorted(blocks, host) && i < |blocks| && !Skipped(f, blocks[i])
    requires Lo(f, blocks[i]) <= a < Hi(f, blocks[i])
    ensures InFilter(f, a)
    ensures var at := |Image(f, blocks, i, host)| + a - Lo(f, blocks[i]);
            && at < |Image(f, blocks, |blocks|, host)|
            && Guest(blocks, host, a) == Some(Image(f, blocks, |blocks|, host)[at])
  {
    hide Part, Lo, Hi, Skipped, InFilter;
    var b, before, upto := blocks[i], Image(f, blocks, i, host), Image(f, blocks, i + 1, host);
    PartByte(f, b, host, a);
    assert upto == before + Part(f, b, host);
    assert upto[|before| + a - Lo(f, b)] == Part(f, b, host)[a - Lo(f, b)];
    ImagePrefix(f, blocks, i + 1, |blocks|, host);
    GuestIs(blocks, host, i, a);
  }

  /** The range of file bytes [offset, offset + filesz) is the guest's memory from `phys` on. */
  ghost predicate Stored(f: Filter, blocks: seq<Block>, host: seq<Byte>, base: nat, phys: nat, offset: nat, filesz: nat)
    requires Sorted(blocks, host)
  {
    var image := Image(f, blocks, |blocks|, host);
    && base <= offset
    && offset + filesz <= base + |image|
    && forall a :: phys <= a < phys + filesz ==> Guest(blocks, host, a) == Some(image[offset - base + (a - phys)])
  }

  lemma StoredInBlock(f: Filter, blocks: seq<Block>, host: seq<Byte>, base: nat, i: nat, phys: nat, filesz: nat)
    requires Sorted(blocks, host) && i < |blocks| && !Skipped(f, blocks[i])
    requires Lo(f, blocks[i]) <= phys && phys + filesz <= Hi(f, blocks[i]) && 0 < filesz
    ensures Stored(f, blocks, host, base, phys, base + |Image(f, blocks, i, host)| + phys - Lo(f, blocks[i]), filesz)
  {
    hide Guest, Image, Lo, Hi, Skipped, InFilter;
    ImageIsGuest(f, blocks, host, i, phys + filesz - 1);
    forall a | phys <= a < phys + filesz
      ensures var at := |Image(f, blocks, i, host)| + a - Lo(f, blocks[i]);
              && at < |Image(f, blocks, |blocks|, host)|
              && Guest(blocks, host, a) == Some(Image(f, blocks, |blocks|, host)[at])
    {
      ImageIsGuest(f, blocks, host, i, a);
    }
  }

  /** Where the file offset and size announced for a mapping must be: in the block that holds its
      first byte, and no further than that block or the filter window reaches. */
  ghost predicate Placed(f: Filter, blocks: seq<Block>, host: seq<Byte>, base: nat, m: Mapping, offset: Option<nat>,
                         filesz: nat)
    requires Sorted(blocks, host)
  {
    && (offset.Some? <==> InFilter(f, m.phys) && Guest(blocks, host, m.phys).Some?)
    && (offset.None? ==> filesz == 0)
    && (offset.Some? ==>
          exists i :: 0 <= i < |blocks| && PlacedIn(f, blocks, host, base, m, offset.value, filesz, i))
  }

  ghost predicate PlacedIn(f: Filter, blocks: seq<Block>, host: seq<Byte>, base: nat, m: Mapping, offset: nat,
                           filesz: nat, i: nat)
    requires Sorted(blocks, host) && i < |blocks|
  {
    var b := blocks[i];
    && !Skipped(f, b)
    && Lo(f, b) <= m.phys < Hi(f, b)
    && offset == base + |Image(f, blocks, i, host)| + m.phys - Lo(f, b)
    && filesz == if m.phys + m.length <= Hi(f, b) then m.length else Hi(f, b) - m.phys
  }

  /** The two walks agree: the announced range of the file holds the guest's memory. */
  lemma PlacedIsStored(f: Filter, blocks: seq<Block>, host: seq<Byte>, base: nat, m: Mapping, offset: Option<nat>,
                       filesz: nat)
    requires Sorted(blocks, host) && Placed(f, blocks, host, base, m, offset, filesz) && offset.Some?
    ensures filesz <= m.length && Stored(f, blocks, host, base, m.phys, offset.value, filesz)
  {
    hide Guest, Image, Lo, Hi, Skipped, InFilter, Stored;
    var i :| 0 <= i < |blocks| && PlacedIn(f, blocks, host, base, m, offset.value, filesz, i);
    if filesz > 0 {
      StoredInBlock(f, blocks, host, base, i, m.phys, filesz);
    } else {
      StoredNothing(f, blocks, host, base, i, m.phys);
    }
  }

  lemma StoredNothing(f: Filter, blocks: seq<Block>, host: seq<Byte>, base: nat, i: nat, phys: nat)
    requires Sorted(blocks, host) && i < |blocks| && !Skipped(f, blocks[i])
    requires Lo(f, blocks[i]) <= phys < Hi(f, blocks[i])
    ensures Stored(f, blocks, host, base, phys, base + |Image(f, blocks, i, host)| + phys - Lo(f, blocks[i]), 0)
  {
    ImageIsGuest(f, blocks, host, i, phys);
  }

  lemma ImageNone(f: Filter, blocks: seq<Block>, host: seq<Byte>)
    requires Sorted(blocks, host)
    ensures Image(f, blocks, 0, host) == []
  {}

  ghost predicate HeldIn(f: Filter, b: Block, a: nat) {
    !Skipped(f, b) && Lo(f, b) <= a < Hi(f, b)
  }

  /** A guest address inside the filter is one that a block contributes to the file. */
  lemma HeldByBlock(f: Filter, blocks: seq<Block>, host: seq<Byte>, a: nat) returns (i: nat)
    requires Sorted(blocks, host) && InFilter(f, a) && Guest(blocks, host, a).Some?
    ensures i < |blocks| && !Skipped(f, blocks[i]) && Lo(f, blocks[i]) <= a < Hi(f, blocks[i])
  {
    i := GuestOwner(blocks, host, a);
  }

  lemma {:induction false} ImageSkips(f: Filter, blocks: seq<Block>, m: nat, n: nat, host: seq<Byte>)
    requires Sorted(blocks, host) && m <= n <= |blocks|
    requires forall i :: m <= i < n ==> Skipped(f, blocks[i])
    ensures Image(f, blocks, n, host) == Image(f, blocks, m, host)
  {
    hide Image, Part, Skipped;
    if m < n {
      ImageSkips(f, blocks, m, n - 1, host);
      ImageStep(f, blocks, n - 1, host);
    }
  }

  lemma ImageStep(f: Filter, blocks: seq<Block>, n: nat, host: seq<Byte>)
    requires Sorted(blocks, host) && n < |blocks|
    ensures Image(f, blocks, n + 1, host) == Image(f, blocks, n, host) + Part(f, blocks[n], host)
    ensures |Part(f, blocks[n], host)| ==
            if Skipped(f, blocks[n]) then 0 else Hi(f, blocks[n]) - Lo(f, blocks[n])
    ensures Skipped(f, blocks[n]) ==> Image(f, blocks, n + 1, host) == Image(f, blocks, n, host)
  {}

  // ------------------------------------------------------------------------------- coalescing

  /** Growing the last block into memory that follows it on both sides changes nothing else. */
  lemma GrowKeeps(blocks: seq<Block>, grown: seq<Block>, host: seq<Byte>, end: nat, a: nat)
    requires Sorted(blocks, host) && blocks != [] && end > blocks[|blocks| - 1].end
    requires grown == blocks[|blocks| - 1 := blocks[|blocks| - 1].(end := end)] && Sorted(grown, host)
    requires blocks[|blocks| - 1].host + (end - blocks[|blocks| - 1].start) <= |host|
    ensures var b := blocks[|blocks| - 1];
            Guest(grown, host, a) ==
            if b.end <= a < end then Some(host[b.host + a - b.start]) else Guest(blocks, host, a)
  {
    assert grown[..|blocks| - 1] == blocks[..|blocks| - 1];
    if blocks[|blocks| - 1].end <= a < end && Guest(blocks, host, a).Some? {
      var i := GuestOwner(blocks, host, a);
    }
  }

  lemma InsertedAt(list: seq<Mapping>, i: nat, m: Mapping)
    requires i <= |list| && forall j, k :: 0 <= j < k < |list| ==> list[j].phys <= list[k].phys
    requires (forall k :: 0 <= k < i ==> list[k].phys < m.phys) && (i < |list| ==> m.phys <= list[i].phys)
    ensures var now := list[..i] + [m] + list[i..];
            && (forall j, k :: 0 <= j < k < |now| ==> now[j].phys <= now[k].phys)
            && multiset(now) == multiset(list) + multiset{m} && (i == |list| ==> now == list + [m])
  {
    SameMappings(list, i, m);
    var now := list[..i] + [m] + list[i..];
    forall j, k | 0 <= j < k < |now| ensures now[j].phys <= now[k].phys {
      assert now[j] == if j < i then list[j] else if j == i then m else list[j - 1];
      assert now[k] == if k < i then list[k] else if k == i then m else list[k - 1];
    }
  }

  lemma SameMappings(list: seq<Mapping>, i: nat, m: Mapping)
    requires i <= |list|
    ensures multiset(list[..i] + [m] + list[i..]) == multiset(list) + multiset{m}
  {
    assert list == list[..i] + list[i..];
  }

  lemma SortedGrow(blocks: seq<Block>, host: seq<Byte>, end: nat)
    requires Sorted(blocks, host) && blocks != [] && end > blocks[|blocks| - 1].end
    requires blocks[|blocks| - 1].host + (end - blocks[|blocks| - 1].start) <= |host|
    ensures Sorted(blocks[|blocks| - 1 := blocks[|blocks| - 1].(end := end)], host)
  {}

  lemma AppendKeeps(blocks: seq<Block>, host: seq<Byte>, b: Block, a: nat)
    requires Sorted(blocks, host) && Backed(b, host) && (blocks != [] ==> blocks[|blocks| - 1].end <= b.start)
    ensures Sorted(blocks + [b], host)
    ensures Guest(blocks + [b], host, a) ==
            if b.start <= a < b.end then Some(host[b.host + a - b.start]) else Guest(blocks, host, a)
  {
    assert (blocks + [b])[..|blocks|] == blocks;
  }

  // --------------------------------------------------------------------------------- mappings

  ghost predicate Covered(list: seq<Mapping>, a: nat) {
    exists i :: 0 <= i < |list| && Within(list[i], a)
  }

  predicate Within(m: Mapping, a: nat) {
    m.phys <= a < m.phys + m.length
  }

  predicate Dropped(f: Filter, m: Mapping) {
    f.Window? && (m.phys >= f.begin + f.length || m.phys + m.length <= f.begin)
  }

  /** A mapping that is not dropped, cut to the filter window. */
  function Cut(f: Filter, m: Mapping): (r: Mapping)
    requires !Dropped(f, m)
    ensures forall a :: Within(r, a) <==> Within(m, a) && InFilter(f, a)
  {
    if f.Everything? then m
    else
      var lo := if m.phys < f.begin then f.begin else m.phys;
      var length := m.phys + m.length - lo;
      Mapping(lo, if lo + length > f.begin + f.length then f.begin + f.length - lo else length)
  }

  /** One mapping for every block, in order. */
  function Whole(blocks: seq<Block>): seq<Mapping>
    requires forall i :: 0 <= i < |blocks| ==> blocks[i].start <= blocks[i].end
  {
    seq(|blocks|, i requires 0 <= i < |blocks| => Mapping(blocks[i].start, blocks[i].end - blocks[i].start))
  }

  // ------------------------------------------------------------------------- header arithmetic

  function HeaderSize(class64: bool): nat { if class64 then 64 else 52 }

  function ProgramHeaders(class64: bool, n: nat): nat { if class64 then 56 * n else 32 * n }

  function SectionHeaderSize(class64: bool): nat { if class64 then 64 else 40 }

  /** Bytes of ELF metadata, whose contents are not modelled. */
  function Blank(n: nat): (r: seq<Byte>)
    ensures |r| == n
  {
    seq(n, _ => 0)
  }

  class DumpState {
    const host: seq<Byte>
    /** How many bytes the file takes before a write fails. */
    const room: nat
    var blocks: seq<Block>
    var filter: Filter
    var mappings: seq<Mapping>
    var class64: bool
    var noteSize: nat

    var start: nat
    var nextBlock: nat
    var haveSection: bool
    var phdrNum: nat
    var shInfo: nat
    var memoryOffset: nat
    var file: seq<Byte>
    var loads: seq<Load>

    ghost predicate Valid()
      reads this
    {
      Sorted(blocks, host)
    }

    /** guest_phys_blocks_region_add, for a section of `size` bytes at `target`. */
    method RegionAdd(isRam: bool, target: nat, size: nat, hostAddr: nat)
      requires Valid() && 0 < size && hostAddr + size <= |host|
      requires blocks != [] ==> blocks[|blocks| - 1].end <= target
      modifies `blocks
      ensures Valid()
      ensures forall a: nat :: Guest(blocks, host, a) ==
                               if isRam && target <= a < target + size then Some(host[hostAddr + a - target])
                               else old(Guest(blocks, host, a))
      ensures blocks != [] ==> blocks[|blocks| - 1].end <= target + size
      ensures old(Joined(blocks)) ==> Joined(blocks)
    {
      hide Joined, Guest, Sorted;
      if !isRam { return; }
      ghost var was := blocks;
      var last := |blocks| - 1;
      if blocks != [] && blocks[last].end >= target &&
         blocks[last].host + (blocks[last].end - blocks[last].start) == hostAddr {
        SortedGrow(blocks, host, target + size);
        blocks := blocks[last := blocks[last].(end := target + size)];
        forall a: nat
          ensures Guest(blocks, host, a) ==
                  if was[last].end <= a < target + size then Some(host[was[last].host + a - was[last].start])
                  else Guest(was, host, a)
        {
          GrowKeeps(was, blocks, host, target + size, a);
        }
        JoinedGrow(was, target + size);
      } else {
        ghost var b := Block(target, target + size, hostAddr);
        AppendKeeps(was, host, b, 0);
        forall a: nat
          ensures Guest(was + [b], host, a) ==
                  if target <= a < target + size then Some(host[hostAddr + a - target]) else Guest(was, host, a)
        {
          AppendKeeps(was, host, b, a);
        }
        blocks := blocks + [Block(target, target + size, hostAddr)];
        JoinedAppend(was, b);
      }
    }

    /** memory_mapping_list_add_mapping_sorted */
    method AddMappingSorted(m: Mapping)
      requires forall i, j :: 0 <= i < j < |mappings| ==> mappings[i].phys <= mappings[j].phys
      modifies `mappings
      ensures forall i, j :: 0 <= i < j < |mappings| ==> mappings[i].phys <= mappings[j].phys
      ensures multiset(mappings) == old(multiset(mappings)) + multiset{m}
      ensures (forall i :: 0 <= i < old(|mappings|) ==> old(mappings)[i].phys < m.phys) ==>
                mappings == old(mappings) + [m]
    {
      ghost var was := mappings;
      var i := 0;
      while i < |mappings| && mappings[i].phys < m.phys
        invariant 0 <= i <= |mappings|
        invariant forall k :: 0 <= k < i ==> mappings[k].phys < m.phys
      {
        i := i + 1;
      }
      mappings := mappings[..i] + [m] + mappings[i..];
      InsertedAt(was, i, m);
    }

    /** qemu_get_guest_simple_memory_mapping */
    method SimpleMappings()
      requires Valid() && mappings == []
      modifies `mappings
      ensures mappings == Whole(blocks)
    {
      var i := 0;
      while i < |blocks|
        invariant 0 <= i <= |blocks|
        invariant mappings == Whole(blocks[..i])
      {
        AddMappingSorted(Mapping(blocks[i].start, blocks[i].end - blocks[i].start));
        assert Whole(blocks[..i + 1]) ==
               Whole(blocks[..i]) + [Mapping(blocks[i].start, blocks[i].end - blocks[i].start)];
        i := i + 1;
      }
      assert blocks[..i] == blocks;
    }

    /** memory_mapping_filter, run when there is a filter. */
    method FilterMappings()
      modifies `mappings
      ensures forall a :: Covered(mappings, a) <==> old(Covered(mappings, a)) && InFilter(filter, a)
      ensures forall j :: 0 <= j < |mappings| ==> IsCut(filter, old(mappings), mappings[j])
      ensures |mappings| <= old(|mappings|)
    {
      ghost var was := mappings;
      var i := 0;
      ghost var seen := 0;
      while i < |mappings|
        invariant 0 <= i <= |mappings| && i <= seen <= |was|
        invariant mappings[i..] == was[seen..]
        invariant forall j :: 0 <= j < i ==> IsCut(filter, was, mappings[j])
        invariant forall k :: 0 <= k < seen && !Dropped(filter, was[k]) ==> Cut(filter, was[k]) in mappings[..i]
        decreases |was| - seen
      {
        assert mappings[i] == was[seen];
        ghost var done := mappings[..i];
        if Dropped(filter, mappings[i]) {
          mappings := mappings[..i] + mappings[i + 1..];
          assert mappings[..i] == done;
        } else {
          mappings := mappings[i := Cut(filter, mappings[i])];
          i := i + 1;
          assert mappings[..i] == done + [Cut(filter, was[seen])];
        }
        seen := seen + 1;
      }
      CutsCover(filter, was, mappings);
    }

    /** get_start_block; false is the source's -1. */
    method GetStartBlock() returns (ok: bool)
      requires Valid() && blocks != []
      modifies `start, `nextBlock
      ensures ok ==> AtBlock() && Image(filter, blocks, nextBlock, host) == []
      ensures !ok ==> Image(filter, blocks, |blocks|, host) == []
      ensures ok <==> exists i :: 0 <= i < |blocks| && !Skipped(filter, blocks[i])
    {
      if filter.Everything? {
        nextBlock, start := 0, 0;
        assert !Skipped(filter, blocks[0]);
        return true;
      }
      var i := 0;
      while i < |blocks| && Skipped(filter, blocks[i])
        invariant 0 <= i <= |blocks|
        invariant forall k :: 0 <= k < i ==> Skipped(filter, blocks[k])
      {
        i := i + 1;
      }
      ImageSkips(filter, blocks, 0, i, host);
      if i == |blocks| { return false; }
      nextBlock := i;
      start := if filter.begin > blocks[i].start then filter.begin - blocks[i].start else 0;
      return true;
    }

    /** The dump stands at the first byte that `nextBlock` contributes. */
    ghost predicate AtBlock()
      reads this
    {
      nextBlock < |blocks| && !Skipped(filter, blocks[nextBlock]) &&
      start == Lo(filter, blocks[nextBlock]) - blocks[nextBlock].start
    }

    /** get_next_block; `done` is the source's 1. */
    method GetNextBlock(block: nat) returns (done: bool)
      requires Valid() && block < |blocks|
      modifies `start, `nextBlock
      ensures !done ==> block < nextBlock && AtBlock()
      ensures Image(filter, blocks, block + 1, host) ==
              Image(filter, blocks, if done then |blocks| else nextBlock, host)
    {
      hide Image, Sorted;
      var i := block;
      while true
        invariant block <= i < |blocks|
        invariant forall k :: block < k <= i ==> Skipped(filter, blocks[k])
        decreases |blocks| - i
      {
        i := i + 1;
        if i == |blocks| {
          ImageSkips(filter, blocks, block + 1, i, host);
          return true;
        }
        start, nextBlock := 0, i;
        if filter.Window? {
          if Skipped(filter, blocks[i]) { continue; }
          if filter.begin > blocks[i].start {
            start := filter.begin - blocks[i].start;
          }
        }
        ImageSkips(filter, blocks, block + 1, i, host);
        return false;
      }
    }

    /** fd_write_vmcore: a failing write may leave a part of the data behind. */
    method Write(data: seq<Byte>) returns (ok: bool)
      requires |file| <= room
      modifies `file
      ensures |file| <= room
      ensures ok <==> old(|file|) + |data| <= room
      ensures ok ==> file == old(file) + data
    {
      if |file| + |data| > room {
        file := file + data[..room - |file|];
        return false;
      }
      file := file + data;
      return true;
    }

    /** write_memory: one page per write, then the rest. */
    method WriteMemory(from: nat, size: nat) returns (ok: bool)
      requires from + size <= |host| && |file| <= room
      modifies `file
      ensures |file| <= room
      ensures ok <==> old(|file|) + size <= room
      ensures ok ==> file == old(file) + host[from..from + size]
    {
      var i := 0;
      while i < size / 4096
        invariant 0 <= i * 4096 <= size
        invariant file == old(file) + host[from..from + i * 4096] && |file| <= room
      {
        ok := Write(host[from + i * 4096..from + i * 4096 + 4096]);
        if !ok { return; }
        assert host[from..from + i * 4096] + host[from + i * 4096..from + i * 4096 + 4096] ==
               host[from..from + (i + 1) * 4096];
        i := i + 1;
      }
      ok := true;
      if size % 4096 != 0 {
        ok := Write(host[from + i * 4096..from + i * 4096 + size % 4096]);
        assert host[from..from + i * 4096] + host[from + i * 4096..from + i * 4096 + size % 4096] ==
               host[from..from + size];
      }
    }

    /** The turn of dump_iterate for one block. */
    method DumpBlock() returns (ok: bool)
      requires Valid() && AtBlock() && |file| <= room
      modifies `file
      ensures |file| <= room
      ensures ok <==> old(|file|) + |Part(filter, blocks[nextBlock], host)| <= room
      ensures ok ==> file == old(file) + Part(filter, blocks[nextBlock], host)
    {
      var b := blocks[nextBlock];
      var size := b.end - b.start;
      if filter.Window? {
        size := size - start;
        if filter.begin + filter.length < b.end {
          size := size - (b.end - (filter.begin + filter.length));
        }
      }
      ok := WriteMemory(b.host + start, size);
    }

    /** dump_iterate: writes what every block contributes, in order. */
    method DumpIterate() returns (ok: bool)
      requires Valid() && AtBlock() && Image(filter, blocks, nextBlock, host) == [] && |file| <= room
      modifies `start, `nextBlock, `file
      ensures ok <==> old(|file|) + |Image(filter, blocks, |blocks|, host)| <= room
      ensures ok ==> file == old(file) + Image(filter, blocks, |blocks|, host)
    {
      hide Image, Part, Skipped, Lo, Sorted;
      ok := true;
      while true
        invariant AtBlock()
        invariant file == old(file) + Image(filter, blocks, nextBlock, host) && |file| <= room
        decreases |blocks| - nextBlock
      {
        var block := nextBlock;
        ImageStep(filter, blocks, block, host);
        ImagePrefix(filter, blocks, block + 1, |blocks|, host);
        ok := DumpBlock();
        if !ok { return; }
        var done := GetNextBlock(block);
        if done { return; }
      }
    }

    /** The part of a block that get_offset_range takes to be in the file. */
    method WindowOf(b: Block) returns (lo: nat, size: nat)
      requires Backed(b, host) && !Skipped(filter, b)
      ensures lo == Lo(filter, b) && lo + size == Hi(filter, b)
    {
      lo, size := b.start, b.end - b.start;
      if filter.Window? {
        lo := if filter.begin <= b.start then b.start else filter.begin;
        size := b.end - lo;
        if filter.begin + filter.length < b.end {
          size := size - (b.end - (filter.begin + filter.length));
        }
      }
    }

    /** get_offset_range */
    method GetOffsetRange(m: Mapping) returns (offset: Option<nat>, filesz: nat)
      requires Valid()
      ensures Placed(filter, blocks, host, memoryOffset, m, offset, filesz)
    {
      hide Image, Part, Guest, Lo, Hi;
      offset, filesz := None, 0;
      if !InFilter(filter, m.phys) { return; }
      var at := memoryOffset;
      var i := 0;
      assert Image(filter, blocks, 0, host) == [] by { ImageNone(filter, blocks, host); }
      while i < |blocks|
        invariant 0 <= i <= |blocks|
        invariant at == memoryOffset + |Image(filter, blocks, i, host)|
        invariant forall k :: 0 <= k < i ==> !HeldIn(filter, blocks[k], m.phys)
      {
        var b := blocks[i];
        ImageStep(filter, blocks, i, host);
        if !Skipped(filter, b) {
          var lo, size := WindowOf(b);
          if lo <= m.phys < lo + size {
            offset := Some(m.phys - lo + at);
            filesz := if m.phys + m.length <= lo + size then m.length else size - (m.phys - lo);
            ImageIsGuest(filter, blocks, host, i, m.phys);
            assert PlacedIn(filter, blocks, host, memoryOffset, m, offset.value, filesz, i);
            return;
          }
          at := at + size;
        }
        i := i + 1;
      }
      if Guest(blocks, host, m.phys).Some? {
        var k := HeldByBlock(filter, blocks, host, m.phys);
        assert false;
      }
    }

    /** The sizes that dump_init settles before anything is written. */
    method InitSizes()
      modifies `haveSection, `phdrNum, `shInfo, `memoryOffset
      ensures Settled()
      ensures phdrNum <= 0xffff && (!haveSection ==> phdrNum < 0xffff)
    {
      phdrNum := 1;
      if |mappings| < 0xffff - 2 {
        phdrNum := phdrNum + |mappings|;
        haveSection := false;
      } else {
        haveSection := true;
        phdrNum := 0xffff;
        shInfo := 1;
        if |mappings| <= 0xffff_ffff - 1 {
          shInfo := shInfo + |mappings|;
        } else {
          shInfo := 0xffff_ffff;
        }
      }
      if class64 {
        if haveSection {
          memoryOffset := 64 + 56 * shInfo + 64 + noteSize;
        } else {
          memoryOffset := 64 + 56 * phdrNum + noteSize;
        }
      } else {
        if haveSection {
          memoryOffset := 52 + 32 * shInfo + 40 + noteSize;
        } else {
          memoryOffset := 52 + 32 * phdrNum + noteSize;
        }
      }
    }

    /** The number of PT_LOAD headers: the count field of a section header has 32 bits. */
    ghost function LoadCount(): nat
      reads this
    {
      if |mappings| <= 0xffff_fffe then |mappings| else 0xffff_fffe
    }

    /** The memory starts after the headers, one of them PT_NOTE, and the notes. */
    ghost predicate Settled()
      reads this
    {
      && MaxIndex() == 1 + LoadCount()
      && (haveSection <==> |mappings| >= 0xfffd) && phdrNum == (if haveSection then 0xffff else 1 + |mappings|)
      && memoryOffset == HeaderSize(class64) + ProgramHeaders(class64, 1 + LoadCount())
                         + (if haveSection then SectionHeaderSize(class64) else 0) + noteSize
    }

    function MaxIndex(): nat
      reads this
    {
      if haveSection then shInfo else phdrNum
    }

    /** Every PT_LOAD written so far speaks for its mapping. */
    ghost predicate LoadsPlaced()
      requires Valid()
      reads this
    {
      && |loads| <= |mappings|
      && forall j :: 0 <= j < |loads| ==> LoadPlaced(loads[j], mappings[j])
    }

    ghost predicate LoadPlaced(load: Load, m: Mapping)
      requires Valid()
      reads this
    {
      && load.paddr == m.phys && load.memsz == m.length
      && Placed(filter, blocks, host, memoryOffset, m, load.offset, load.filesz)
    }

    /** write_elf_loads */
    method WriteElfLoads() returns (ok: bool)
      requires Valid() && MaxIndex() == 1 + LoadCount() && loads == [] && |file| <= room
      modifies `file, `loads
      ensures LoadsPlaced() && |file| <= room
      ensures ok <==> old(|file|) + ProgramHeaders(class64, LoadCount()) <= room
      ensures ok ==> |loads| == LoadCount() && |file| == old(|file|) + ProgramHeaders(class64, LoadCount())
    {
      hide Placed, Sorted;
      var i, phdrIndex := 0, 1;
      ghost var total := LoadCount();
      while i < |mappings|
        invariant 0 <= i <= |mappings| && |loads| == i && phdrIndex == 1 + i && i <= total
        invariant i < |mappings| ==> i < total
        invariant LoadsPlaced()
        invariant |file| == old(|file|) + ProgramHeaders(class64, i) && |file| <= room
      {
        var offset, filesz := GetOffsetRange(mappings[i]);
        ok := Write(Blank(ProgramHeaders(class64, 1)));
        if !ok { return; }
        loads := loads + [Load(offset, mappings[i].phys, filesz, mappings[i].length)];
        phdrIndex := phdrIndex + 1;
        i := i + 1;
        if phdrIndex >= MaxIndex() { break; }
      }
      ok := true;
    }

    /** dump_begin: everything in front of the memory. */
    method DumpBegin() returns (ok: bool)
      requires Valid() && Settled() && loads == [] && file == []
      modifies `file, `loads
      ensures LoadsPlaced()
      ensures ok <==> memoryOffset <= room
      ensures ok ==> |loads| == LoadCount() && |file| == memoryOffset
    {
      hide Placed, Sorted;
      ok := Write(Blank(HeaderSize(class64)));
      if !ok { return; }
      ok := Write(Blank(ProgramHeaders(class64, 1)));
      if !ok { return; }
      ok := WriteElfLoads();
      if !ok { return; }
      if haveSection {
        ok := Write(Blank(SectionHeaderSize(class64)));
        if !ok { return; }
      }
      ok := Write(Blank(noteSize));
    }

    /** A PT_LOAD that names a place in the file names the guest's memory there. */
    ghost predicate LoadRight(load: Load)
      requires Valid()
      reads this
    {
      && load.filesz <= load.memsz
      && (load.offset.Some? <==> InFilter(filter, load.paddr) && Guest(blocks, host, load.paddr).Some?)
      && (load.offset.Some? ==>
            && load.offset.value + load.filesz <= |file|
            && forall a :: load.paddr <= a < load.paddr + load.filesz ==>
                 Guest(blocks, host, a) == Some(file[load.offset.value + (a - load.paddr)]))
    }

    /** create_vmcore, after the part of dump_init that chooses the first block and the sizes. */
    method CreateVmcore() returns (ok: bool)
      requires Valid() && blocks != [] && file == [] && loads == []
      modifies this
      ensures blocks == old(blocks) && filter == old(filter) && mappings == old(mappings)
      ensures ok <==> (exists i :: 0 <= i < |blocks| && !Skipped(filter, blocks[i]))
                      && memoryOffset + |Image(filter, blocks, |blocks|, host)| <= room
      ensures (exists i :: 0 <= i < |blocks| && !Skipped(filter, blocks[i])) ==> Settled()
      ensures ok ==> |loads| == LoadCount()
      ensures ok ==> forall j :: 0 <= j < |loads| ==>
                       loads[j].paddr == mappings[j].phys && loads[j].memsz == mappings[j].length
      ensures ok ==> forall j :: 0 <= j < |loads| ==> LoadRight(loads[j])
      ensures ok ==> memoryOffset <= |file| && file[memoryOffset..] == Image(filter, blocks, |blocks|, host)
      ensures ok ==> LoadsPlaced()
    {
      hide Placed, Image, Guest, Sorted, Skipped, Lo, LoadRight;
      ok := GetStartBlock();
      if !ok { return; }
      InitSizes();
      ok := DumpBegin();
      if !ok { return; }
      ghost var head := file;
      ok := DumpIterate();
      if !ok { return; }
      assert file[memoryOffset..] == Image(filter, blocks, |blocks|, host);
      forall j | 0 <= j < |loads| ensures LoadRight(loads[j]) {
        assert LoadPlaced(loads[j], mappings[j]);
        PlacedIsRight(loads[j], mappings[j]);
      }
    }

    lemma PlacedIsRight(load: Load, m: Mapping)
      requires Valid() && LoadPlaced(load, m) && memoryOffset <= |file|
      requires file[memoryOffset..] == Image(filter, blocks, |blocks|, host)
      ensures LoadRight(load)
    {
      hide Image, Guest, Sorted, Skipped, Lo, Hi;
      if load.offset.Some? {
        PlacedIsStored(filter, blocks, host, memoryOffset, m, load.offset, load.filesz);
        var image := file[memoryOffset..];
        forall a | m.phys <= a < m.phys + load.filesz
          ensures Guest(blocks, host, a) == Some(file[load.offset.value + (a - m.phys)])
        {
          var at := load.offset.value - memoryOffset + (a - m.phys);
          assert image[at] == file[memoryOffset + at];
        }
      }
    }

    /** A dump without paging: every byte of guest RAM inside the filter is in the file, and every
        PT_LOAD is stored in full. */
    method DumpSimple() returns (ok: bool)
      requires Valid() && blocks != [] && file == [] && loads == [] && mappings == []
      modifies this
      ensures blocks == old(blocks) && filter == old(filter)
      ensures ok ==> forall j :: 0 <= j < |loads| ==> LoadRight(loads[j]) && loads[j].filesz == loads[j].memsz
      ensures ok && |mappings| <= 0xffff_fffe ==>
                forall a: nat :: InFilter(filter, a) && Guest(blocks, host, a).Some? ==> LoadedAt(a)
    {
      hide LoadRight, Guest, Placed, IsCut, Covered, Whole, InFilter, Image, Sorted, LoadedAt;
      SimpleMappings();
      FilterMappings();
      ok := CreateVmcore();
      if ok {
        forall j | 0 <= j < |loads| ensures loads[j].filesz == loads[j].memsz {
          assert LoadPlaced(loads[j], mappings[j]);
          SimpleFull(filter, blocks, host, memoryOffset, mappings[j], loads[j].offset, loads[j].filesz);
        }
        if |mappings| <= 0xffff_fffe {
          forall a: nat | InFilter(filter, a) && Guest(blocks, host, a).Some? ensures LoadedAt(a) {
            WholeCovers(blocks, host, a);
            CoveredIsLoaded(a);
          }
        }
      }
    }

    lemma CoveredIsLoaded(a: nat)
      requires Valid() && LoadsPlaced() && |loads| == |mappings|
      requires forall j :: 0 <= j < |mappings| ==> IsCut(filter, Whole(blocks), mappings[j])
      requires Covered(mappings, a)
      ensures LoadedAt(a)
    {
      hide Placed, IsCut, Whole, Sorted;
      var j :| 0 <= j < |mappings| && Within(mappings[j], a);
      assert LoadPlaced(loads[j], mappings[j]);
      SimpleFull(filter, blocks, host, memoryOffset, mappings[j], loads[j].offset, loads[j].filesz);
    }

    ghost predicate LoadedAt(a: nat)
      reads this
    {
      exists j :: 0 <= j < |loads| && loads[j].offset.Some? && loads[j].paddr <= a < loads[j].paddr + loads[j].filesz
    }
  }

  ghost predicate IsCut(f: Filter, list: seq<Mapping>, m: Mapping) {
    exists k :: 0 <= k < |list| && !Dropped(f, list[k]) && m == Cut(f, list[k])
  }

  /** The mapping of a whole block, cut to the filter, is exactly what the block contributes. */
  lemma CutWhole(f: Filter, blocks: seq<Block>, host: seq<Byte>, m: Mapping) returns (k: nat)
    requires Sorted(blocks, host) && IsCut(f, Whole(blocks), m)
    ensures k < |blocks| && m.phys == Lo(f, blocks[k]) && m.phys + m.length == Hi(f, blocks[k])
  {
    var list := Whole(blocks);
    k :| 0 <= k < |list| && !Dropped(f, list[k]) && m == Cut(f, list[k]);
    hide Sorted, IsCut;
    assert list[k] == Mapping(blocks[k].start, blocks[k].end - blocks[k].start);
  }

  /** Only one block holds a guest address. */
  lemma OneHolder(f: Filter, blocks: seq<Block>, host: seq<Byte>, i: nat, k: nat, a: nat)
    requires Sorted(blocks, host) && i < |blocks| && k < |blocks|
    requires Lo(f, blocks[i]) <= a < Hi(f, blocks[i]) && Lo(f, blocks[k]) <= a < Hi(f, blocks[k])
    ensures i == k && InFilter(f, a) && Guest(blocks, host, a).Some?
  {
    GuestIs(blocks, host, k, a);
  }

  lemma SimpleFull(f: Filter, blocks: seq<Block>, host: seq<Byte>, base: nat, m: Mapping, offset: Option<nat>,
                   filesz: nat)
    requires Sorted(blocks, host) && IsCut(f, Whole(blocks), m)
    requires Placed(f, blocks, host, base, m, offset, filesz)
    ensures filesz == m.length
    ensures m.length > 0 ==> offset.Some?
  {
    hide Image, Guest, Lo, Hi, Skipped, InFilter, IsCut, Whole, Sorted;
    var k := CutWhole(f, blocks, host, m);
    if m.length > 0 {
      OneHolder(f, blocks, host, k, k, m.phys);
      var i :| 0 <= i < |blocks| && PlacedIn(f, blocks, host, base, m, offset.value, filesz, i);
      OneHolder(f, blocks, host, i, k, m.phys);
    }
  }

  lemma WholeCovers(blocks: seq<Block>, host: seq<Byte>, a: nat)
    requires Sorted(blocks, host) && Guest(blocks, host, a).Some?
    ensures Covered(Whole(blocks), a)
  {
    var i := GuestOwner(blocks, host, a);
    assert Within(Whole(blocks)[i], a);
  }

  lemma CutsCover(f: Filter, was: seq<Mapping>, now: seq<Mapping>)
    requires forall j :: 0 <= j < |now| ==> IsCut(f, was, now[j])
    requires forall k :: 0 <= k < |was| && !Dropped(f, was[k]) ==> Cut(f, was[k]) in now
    ensures forall a :: Covered(now, a) <==> Covered(was, a) && InFilter(f, a)
  {
    forall a: nat | Covered(now, a) ensures Covered(was, a) && InFilter(f, a) {
      var j :| 0 <= j < |now| && Within(now[j], a);
      var k :| 0 <= k < |was| && !Dropped(f, was[k]) && now[j] == Cut(f, was[k]);
      assert Within(was[k], a);
    }
    forall a: nat | Covered(was, a) && InFilter(f, a) ensures Covered(now, a) {
      var k :| 0 <= k < |was| && Within(was[k], a);
      assert Cut(f, was[k]) in now;
      var j :| 0 <= j < |now| && now[j] == Cut(f, was[k]);
      assert Within(now[j], a);
    }
  }
}
