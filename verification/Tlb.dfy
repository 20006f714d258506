/**
 * The software TLB (cputlb.c).  Every entry translates one target page, even when the guest mapped
 * it as part of a large page.  A single address and mask remember a region that covers every large
 * page entered since the last full flush, so that flushing any part of a large page flushes it all.
 */
module Tlb {
  type Word = bv64

  const PAGE_MASK: Word := 0xffff_ffff_ffff_f000
  const NOTDIRTY: Word := 0x10
  const MMIO: Word := 0x20
  /** The bits of an entry that are compared: the page, and the bit that marks it as unusable. */
  const MATCH_MASK: Word := 0xffff_ffff_ffff_f008
  const ALL_ONES: Word := 0xffff_ffff_ffff_ffff

  /** A CPUTLBEntry; the addend to host addresses plays no part in which addresses hit. */
  datatype Entry = Entry(read: Word, write: Word, code: Word)

  const EMPTY := Entry(ALL_ONES, ALL_ONES, ALL_ONES)

  /** The guest mapping behind an entry: a naturally aligned block of `size` bytes around `vaddr`. */
  datatype Page = Page(vaddr: Word, size: Word)

  datatype Access = Read | Write | Fetch

  // ------------------------------------------------------------------------------ bit vectors

  function And(a: Word, b: Word): Word { a & b }

  function Xor(a: Word, b: Word): Word { a ^ b }

  function Shl(mask: Word): Word { mask << 1 }

  function SizeMask(size: Word): Word { !(size - 1) }

  predicate PowerOfTwo(size: Word) { size >= 4096 && size & (size - 1) == 0 }

  /** All the bits from some position upwards. */
  predicate High(mask: Word) { mask & (mask << 1) == mask << 1 && mask & 0xfff == 0 }

  predicate Aligned(a: Word) { a & 0xfff == 0 }

  /** The slot of the page that holds `a`. */
  function Index(a: Word): (r: Word)
    ensures r == a / 0x1000 % 0x100
  {
    (a >> 12) & 0xff
  }

  predicate InMapping(p: Page, a: Word) { And(a, SizeMask(p.size)) == And(p.vaddr, SizeMask(p.size)) }

  function Field(e: Entry, access: Access): Word {
    match access
    case Read => e.read
    case Write => e.write
    case Fetch => e.code
  }

  /** The test that a memory access makes. */
  predicate Hits(e: Entry, access: Access, a: Word) {
    And(a, PAGE_MASK) == And(Field(e, access), MATCH_MASK)
  }

  predicate HitsAny(e: Entry, a: Word) {
    Hits(e, Read, a) || Hits(e, Write, a) || Hits(e, Fetch, a)
  }

  lemma SizeMaskHigh(size: Word)
    requires PowerOfTwo(size)
    ensures High(SizeMask(size))
  {}

  lemma HighAnd(m: Word, n: Word)
    requires High(m) && High(n)
    ensures High(And(m, n))
    ensures And(And(m, n), m) == And(m, n) && And(And(m, n), n) == And(m, n)
  {}

  lemma HighShift(mask: Word)
    requires High(mask) && mask != 0
    ensures High(Shl(mask)) && Shl(mask) < mask && And(Shl(mask), mask) == Shl(mask)
  {}

  lemma Shrink(a: Word, mask: Word, smaller: Word)
    requires And(smaller, mask) == smaller
    ensures And(a, smaller) == And(And(a, mask), smaller)
  {}

  lemma SubMask(a: Word, b: Word, c: Word)
    requires And(a, b) == a && And(b, c) == b
    ensures And(a, c) == a
  {}

  lemma SameUnder(a: Word, b: Word, mask: Word)
    requires And(Xor(a, b), mask) == 0
    ensures And(a, mask) == And(b, mask)
  {}

  lemma MaskedNotSentinel(a: Word, mask: Word)
    requires High(mask)
    ensures And(a, mask) != ALL_ONES
    ensures And(And(a, mask), mask) == And(a, mask)
  {}

  lemma EmptyNeverHits(a: Word)
    ensures And(a, PAGE_MASK) != And(ALL_ONES, MATCH_MASK)
  {}

  lemma AlignedPage(vaddr: Word)
    requires Aligned(vaddr)
    ensures Flagged(vaddr, vaddr)
  {}

  lemma AddFlag(vaddr: Word, field: Word)
    requires Flagged(vaddr, field)
    ensures Flagged(vaddr, Or(field, MMIO)) && Flagged(vaddr, Or(field, NOTDIRTY))
  {}

  // -------------------------------------------------------------------------------- the region

  /** The remembered region; the all-ones address says that there is none. */
  datatype Region = Region(addr: Word, mask: Word)

  predicate RegionOk(r: Region) {
    r.addr == ALL_ONES || (High(r.mask) && And(r.addr, r.mask) == r.addr)
  }

  /** The region takes in the whole mapping. */
  predicate Covers(r: Region, p: Page) {
    && r.addr != ALL_ONES
    && And(r.mask, SizeMask(p.size)) == r.mask
    && And(p.vaddr, r.mask) == r.addr
  }

  /** Any address of a covered mapping is in the region. */
  lemma CoversAll(r: Region, p: Page, a: Word)
    requires Covers(r, p) && InMapping(p, a)
    ensures And(a, r.mask) == r.addr
  {
    hide And, SizeMask;
    Shrink(a, SizeMask(p.size), r.mask);
    Shrink(p.vaddr, SizeMask(p.size), r.mask);
  }

  /** A region cut down to fewer mask bits takes in all that it took in. */
  lemma WiderCovers(r: Region, mask: Word, p: Page)
    requires Covers(r, p) && And(mask, r.mask) == mask && High(mask)
    ensures Covers(Region(And(r.addr, mask), mask), p)
  {
    hide And, SizeMask, High;
    SubMask(mask, r.mask, SizeMask(p.size));
    Shrink(p.vaddr, r.mask, mask);
    MaskedNotSentinel(r.addr, mask);
  }

  class CpuTlb {
    const table: array2<Entry>
    var flush: Region
    /** The mapping that each entry was entered for. */
    ghost var origin: map<(nat, nat), Page>
    /** The large pages entered since the last full flush. */
    ghost var large: set<Page>

    ghost predicate Shape()
      reads this
    {
      table.Length1 == 256 && RegionOk(flush)
    }

    ghost predicate LargeCovered()
      reads this
    {
      forall p :: p in large ==> Covers(flush, p)
    }

    /** An entry only hits addresses of the page it was entered for, which belongs in its slot, and
        if that page is part of a large mapping then the region covers the mapping. */
    ghost predicate EntryOk(m: nat, i: nat)
      requires m < table.Length0 && i < table.Length1
      reads this, table
    {
      table[m, i] == EMPTY ||
      ((m, i) in origin && Entered(flush, table[m, i], origin[(m, i)], i))
    }

    ghost predicate Valid()
      reads this, table
    {
      Shape() && LargeCovered() && forall m: nat, i: nat :: m < table.Length0 && i < table.Length1 ==> EntryOk(m, i)
    }

    constructor (modes: nat)
      ensures Valid() && fresh(table) && table.Length0 == modes && large == {}
      ensures forall m: nat, i: nat :: m < modes && i < 256 ==> table[m, i] == EMPTY
    {
      table := new Entry[modes, 256]((_, _) => EMPTY);
      flush := Region(ALL_ONES, 0);
      origin, large := map[], {};
    }

    /** tlb_flush */
    method Flush()
      requires Shape()
      modifies `flush, `large, table
      ensures Valid() && large == {}
      ensures forall m: nat, i: nat :: m < table.Length0 && i < 256 ==> table[m, i] == EMPTY
    {
      for i := 0 to 256
        invariant Shape()
        invariant forall m: nat, k: nat :: m < table.Length0 && k < i ==> table[m, k] == EMPTY
      {
        for m := 0 to table.Length0
          invariant Shape()
          invariant forall n: nat, k: nat :: n < table.Length0 && k < i ==> table[n, k] == EMPTY
          invariant forall n: nat :: n < m ==> table[n, i] == EMPTY
        {
          table[m, i] := EMPTY;
        }
      }
      flush, large := Region(ALL_ONES, 0), {};
    }

    /** tlb_add_large_page */
    method AddLargePage(vaddr: Word, size: Word)
      requires Valid() && PowerOfTwo(size)
      modifies `flush, `large
      ensures Valid()
      ensures large == old(large) + {Page(vaddr, size)}
      ensures Grows(old(flush), flush) && Encloses(flush, old(flush))
      ensures Smallest(flush, old(flush), Page(vaddr, size))
    {
      hide Entered, Covers, RegionOk, PowerOfTwo, Encloses, Smallest;
      ghost var was := flush;
      flush := Widen(flush, vaddr, size);
      large := large + {Page(vaddr, size)};
      forall m: nat, i: nat | m < table.Length0 && i < table.Length1 ensures EntryOk(m, i) {
        assert old(EntryOk(m, i));
        if table[m, i] != EMPTY {
          EnteredGrows(was, flush, table[m, i], origin[(m, i)], i);
        }
      }
    }

    /** tlb_set_page */
    method SetPage(vaddr: Word, size: Word, m: nat, prot: Prot, section: Section, dirty: bool, watched: bool)
      requires Valid() && m < table.Length0 && Aligned(vaddr) && PowerOfTwo(size)
      modifies this, table
      ensures Valid()
      ensures large == if size == 4096 then old(large) else old(large) + {Page(vaddr, size)}
      ensures origin == old(origin)[(m, Slot(vaddr)) := Page(vaddr, size)]
      ensures Translates(table[m, Slot(vaddr)], prot, vaddr)
      ensures FlagsRight(table[m, Slot(vaddr)], vaddr, prot, section, dirty, watched)
      ensures forall n: nat, i: nat :: n < table.Length0 && i < 256 && (n, i) != (m, Slot(vaddr)) ==>
                                         table[n, i] == old(table[n, i])
      ensures Grows(old(flush), flush)
      ensures if size == 4096 then flush == old(flush) else Smallest(flush, old(flush), Page(vaddr, size))
    {
      hide Smallest, Encloses;
      hide Entered, Covers, RegionOk, PowerOfTwo, Aligned, Slot, Translates, NewEntry, FlagsRight;
      if size != 4096 {
        AddLargePage(vaddr, size);
      }
      ghost var was := table;
      label before:
      var e := NewEntry(vaddr, prot, section, dirty, watched);
      NewEntryTranslates(vaddr, prot, section, dirty, watched);
      NewEntryFlags(vaddr, prot, section, dirty, watched);
      table[m, Slot(vaddr)] := e;
      origin := origin[(m, Slot(vaddr)) := Page(vaddr, size)];
      NewEntered(flush, e, Page(vaddr, size), prot);
      forall n: nat, i: nat | n < table.Length0 && i < table.Length1 ensures EntryOk(n, i) {
        assert old@before(EntryOk(n, i));
      }
    }

    /** tlb_flush_entry */
    method FlushEntry(m: nat, i: nat, addr: Word)
      requires m < table.Length0 && i < table.Length1
      modifies table
      ensures forall access :: !Hits(table[m, i], access, addr)
      ensures table[m, i] == if HitsAny(old(table[m, i]), addr) then EMPTY else old(table[m, i])
      ensures forall n: nat, k: nat :: n < table.Length0 && k < table.Length1 && (n, k) != (m, i) ==>
                table[n, k] == old(table[n, k])
    {
      hide And;
      var e := table[m, i];
      if HitsAny(e, addr) {
        table[m, i] := EMPTY;
        EmptyNeverHits(addr);
      }
    }

    /** No access anywhere hits an entry of a mapping that contains `addr`. */
    ghost predicate Gone(addr: Word)
      reads this, table
    {
      forall m: nat, i: nat, access, a ::
        m < table.Length0 && i < table.Length1 && Hits(table[m, i], access, a) ==>
          (m, i) in origin && !InMapping(origin[(m, i)], addr)
    }

    /** The address lies in the remembered region. */
    predicate Forced(addr: Word)
      reads this
    {
      And(addr, flush.mask) == flush.addr
    }

    /** tlb_flush_page */
    method FlushPage(addr: Word)
      requires Valid()
      modifies this, table
      ensures Valid() && origin == old(origin)
      ensures Gone(addr)
      ensures old(Forced(addr)) ==>
                large == {} && forall m: nat, i: nat :: m < table.Length0 && i < 256 ==> table[m, i] == EMPTY
      ensures !old(Forced(addr)) ==> flush == old(flush) && large == old(large)
      ensures !old(Forced(addr)) ==> forall m: nat, i: nat :: m < table.Length0 && i < 256 ==>
                table[m, i] == Flushed(old(table[m, i]), i, And(addr, PAGE_MASK))
    {
      hide Entered, Covers, RegionOk, And, InMapping, Slot;
      if Forced(addr) {
        Flush();
        EmptyMisses();
        return;
      }
      var page := And(addr, PAGE_MASK);
      var i := Slot(page);
      var m := 0;
      while m < table.Length0
        invariant 0 <= m <= table.Length0
        invariant forall n: nat, k: nat :: n < m && k < 256 ==> table[n, k] == Flushed(old(table[n, k]), k, page)
        invariant forall n: nat, k: nat :: m <= n < table.Length0 && k < 256 ==> table[n, k] == old(table[n, k])
        invariant forall n: nat, access :: n < m ==> !Hits(table[n, i], access, page)
        modifies table
      {
        FlushEntry(m, i, page);
        m := m + 1;
      }
      forall n: nat, k: nat | n < table.Length0 && k < table.Length1 ensures EntryOk(n, k) {
        assert old(EntryOk(n, k));
      }
      forall n: nat, k: nat, access, a | n < table.Length0 && k < table.Length1 && Hits(table[n, k], access, a)
        ensures (n, k) in origin && !InMapping(origin[(n, k)], addr)
      {
        EmptyMisses();
        assert EntryOk(n, k);
        EntryMisses(flush, table[n, k], origin[(n, k)], k, addr, access, a);
      }
    }
  }

  /** What the flush of a page makes of the entry in slot `i`. */
  function Flushed(e: Entry, i: nat, page: Word): Entry {
    if i == Slot(page) && HitsAny(e, page) then EMPTY else e
  }

  datatype Prot = Prot(read: bool, write: bool, exec: bool)

  /** The kinds of memory region that matter here. */
  datatype Section = Ram(readonly: bool) | RomDevice | Io

  /** The mask under which two addresses lie in the same region. */
  predicate Together(a: Word, b: Word, mask: Word) { And(Xor(a, b), mask) == 0 }

  /** Mask `m` has no bit that `n` does not have. */
  predicate Within(m: Word, n: Word) { And(m, n) == m }

  lemma TogetherIs(a: Word, b: Word, mask: Word)
    requires Together(a, b, mask)
    ensures And(a, mask) == And(b, mask)
  {
    SameUnder(a, b, mask);
  }

  lemma Apart(a: Word, b: Word, mask: Word)
    requires !Together(a, b, mask)
    ensures mask != 0
  {
    AndZero(Xor(a, b));
  }

  lemma WithinShift(mask: Word, n: Word)
    requires High(mask) && mask != 0 && Within(mask, n)
    ensures High(Shl(mask)) && Shl(mask) < mask && Within(Shl(mask), n)
  {
    hide And, Shl, High;
    HighShift(mask);
    SubMask(Shl(mask), mask, n);
  }

  /** A mask of high bits that both `m` and `n` have. */
  predicate Common(mask: Word, m: Word, n: Word) { High(mask) && Within(mask, m) && Within(mask, n) }

  lemma DropBit(a: Word, b: Word, mask: Word, m: Word, n: Word)
    requires !Together(a, b, mask) && Common(mask, m, n)
    ensures Common(Shl(mask), m, n) && Shl(mask) < mask
  {
    hide High, Within, Together, Shl;
    Apart(a, b, mask);
    WithinShift(mask, m);
    WithinShift(mask, n);
  }

  /** Mask `mask` keeps every mask under `start` that would do. */
  ghost predicate Keeps(mask: Word, start: Word, a: Word, b: Word) {
    forall x :: Does(x, start, a, b) ==> Within(x, mask)
  }

  /** High bits of `start` under which the two addresses lie together. */
  predicate Does(x: Word, start: Word, a: Word, b: Word) { High(x) && Within(x, start) && Together(a, b, x) }

  lemma StrictlyWithin(x: Word, mask: Word)
    requires High(x) && High(mask) && Within(x, mask) && x != mask
    ensures Within(x, Shl(mask))
  {}

  lemma KeepsAll(start: Word, a: Word, b: Word)
    ensures Keeps(start, start, a, b)
  {}

  lemma KeepsLess(mask: Word, start: Word, a: Word, b: Word, m: Word, n: Word)
    requires Keeps(mask, start, a, b) && !Together(a, b, mask) && Common(mask, m, n)
    ensures Keeps(Shl(mask), start, a, b)
  {
    hide Within, Together, High, Shl;
    forall x | Does(x, start, a, b) ensures Within(x, Shl(mask)) {
      StrictlyWithin(x, mask);
    }
  }

  /** The loop that drops mask bits until both addresses are in the region: it drops as few as it can. */
  method WidenMask(a: Word, b: Word, start: Word, ghost m: Word, ghost n: Word) returns (mask: Word)
    requires Common(start, m, n)
    ensures Common(mask, m, n) && Together(a, b, mask) && Keeps(mask, start, a, b)
  {
    hide *;
    mask := start;
    KeepsAll(start, a, b);
    while !Together(a, b, mask)
      invariant Common(mask, m, n) && Keeps(mask, start, a, b)
      decreases mask
    {
      DropBit(a, b, mask, m, n);
      KeepsLess(mask, start, a, b, m, n);
      mask := Shl(mask);
    }
  }

  /** Region `w` takes in all of region `r`. */
  predicate Encloses(w: Region, r: Region) {
    r.addr == ALL_ONES || (w.addr != ALL_ONES && Within(w.mask, r.mask) && And(r.addr, w.mask) == w.addr)
  }

  /** Every region that takes in `r` and the page takes in `w`. */
  ghost predicate Smallest(w: Region, r: Region, p: Page) {
    forall x :: RegionOk(x) && Encloses(x, r) && Covers(x, p) ==> Encloses(x, w)
  }

  lemma FirstSmallest(vaddr: Word, size: Word)
    ensures Smallest(Region(And(vaddr, SizeMask(size)), SizeMask(size)), Region(ALL_ONES, 0), Page(vaddr, size))
  {
    hide And, SizeMask, High;
    var w := Region(And(vaddr, SizeMask(size)), SizeMask(size));
    forall x | RegionOk(x) && Covers(x, Page(vaddr, size)) ensures Encloses(x, w) {
      Shrink(vaddr, SizeMask(size), x.mask);
    }
  }

  lemma WidenedSmallest(r: Region, mask: Word, vaddr: Word, size: Word)
    requires r.addr != ALL_ONES && Keeps(mask, And(SizeMask(size), r.mask), r.addr, vaddr)
    ensures Smallest(Region(And(r.addr, mask), mask), r, Page(vaddr, size))
  {
    hide And, SizeMask, High, Together, Xor;
    var w := Region(And(r.addr, mask), mask);
    forall x | RegionOk(x) && Encloses(x, r) && Covers(x, Page(vaddr, size)) ensures Encloses(x, w) {
      BothWithin(x.mask, SizeMask(size), r.mask);
      SameTogether(r.addr, vaddr, x.mask);
      assert Does(x.mask, And(SizeMask(size), r.mask), r.addr, vaddr);
      Shrink(r.addr, mask, x.mask);
    }
  }

  lemma BothWithin(x: Word, m: Word, n: Word)
    requires Within(x, m) && Within(x, n)
    ensures Within(x, And(m, n))
  {}

  lemma SameTogether(a: Word, b: Word, mask: Word)
    requires And(a, mask) == And(b, mask)
    ensures Together(a, b, mask)
  {}

  /** The region that remembers one more large page: the smallest that takes in both. */
  method Widen(r: Region, vaddr: Word, size: Word) returns (w: Region)
    requires RegionOk(r) && PowerOfTwo(size)
    ensures RegionOk(w) && Covers(w, Page(vaddr, size)) && Grows(r, w)
    ensures Encloses(w, r) && Smallest(w, r, Page(vaddr, size))
  {
    hide And, Xor, Shl, SizeMask, High, PowerOfTwo, Together, Smallest, Keeps;
    var mask := SizeMask(size);
    SizeMaskHigh(size);
    AndSelf(mask);
    if r.addr == ALL_ONES {
      MaskedNotSentinel(vaddr, mask);
      FirstSmallest(vaddr, size);
      SmallestOfNone(Region(And(vaddr, mask), mask), r, Page(vaddr, size));
      return Region(And(vaddr, mask), mask);
    }
    HighAnd(mask, r.mask);
    mask := WidenMask(r.addr, vaddr, And(mask, r.mask), r.mask, SizeMask(size));
    TogetherIs(r.addr, vaddr, mask);
    MaskedNotSentinel(r.addr, mask);
    WidenedSmallest(r, mask, vaddr, size);
    forall p | Covers(r, p) ensures Covers(Region(And(r.addr, mask), mask), p) {
      WiderCovers(r, mask, p);
    }
    w := Region(And(r.addr, mask), mask);
  }

  lemma SmallestOfNone(w: Region, r: Region, p: Page)
    requires Smallest(w, Region(ALL_ONES, 0), p) && r.addr == ALL_ONES
    ensures Smallest(w, r, p)
  {
    hide Covers, RegionOk;
  }

  ghost predicate Grows(r: Region, w: Region) {
    forall p :: Covers(r, p) ==> Covers(w, p)
  }

  lemma EnteredGrows(r: Region, w: Region, e: Entry, p: Page, i: nat)
    requires Entered(r, e, p, i) && Grows(r, w)
    ensures Entered(w, e, p, i)
  {
    hide Covers, PowerOfTwo, Aligned, Slot, Hits, And;
  }

  function Or(a: Word, b: Word): Word { a | b }

  /** The address that instruction fetches are compared with. */
  function CodeField(vaddr: Word, section: Section): Word {
    if section.Io? then Or(vaddr, MMIO) else vaddr
  }

  /** The address that reads are compared with; `watched` says that the page lies under a
      watchpoint. */
  function ReadField(vaddr: Word, section: Section, watched: bool): Word {
    if watched then Or(CodeField(vaddr, section), MMIO) else CodeField(vaddr, section)
  }

  function WriteField(vaddr: Word, section: Section, dirty: bool, watched: bool): Word {
    var address := ReadField(vaddr, section, watched);
    if section == Ram(true) || section == RomDevice then Or(address, MMIO)
    else if section.Ram? && !dirty then Or(address, NOTDIRTY)
    else address
  }

  /** The entry that tlb_set_page puts in the table. */
  function NewEntry(vaddr: Word, prot: Prot, section: Section, dirty: bool, watched: bool): Entry {
    Entry(if prot.read then ReadField(vaddr, section, watched) else ALL_ONES,
          if prot.write then WriteField(vaddr, section, dirty, watched) else ALL_ONES,
          if prot.exec then CodeField(vaddr, section) else ALL_ONES)
  }

  lemma FieldsFlagged(vaddr: Word, section: Section, dirty: bool, watched: bool)
    requires Aligned(vaddr)
    ensures Flagged(vaddr, CodeField(vaddr, section))
    ensures Flagged(vaddr, ReadField(vaddr, section, watched))
    ensures Flagged(vaddr, WriteField(vaddr, section, dirty, watched))
  {
    hide Or, Flagged, Aligned;
    AlignedPage(vaddr);
    AddFlag(vaddr, vaddr);
    AddFlag(vaddr, CodeField(vaddr, section));
    AddFlag(vaddr, ReadField(vaddr, section, watched));
  }

  predicate Has(field: Word, flag: Word) { And(field, flag) == flag }

  /** What a field of an entry is made of: the page, and no flag but the given ones. */
  predicate Made(field: Word, vaddr: Word, mmio: bool, notDirty: bool) {
    && And(field, PAGE_MASK) == vaddr && And(field, 0xfcf) == 0
    && (Has(field, MMIO) <==> mmio) && (Has(field, NOTDIRTY) <==> notDirty)
  }

  /** The accesses that are not allowed can never hit.  The others go through the I/O callbacks for I/O
      memory and watched pages, and writes also for read-only memory; writes to clean RAM that can be
      written are tracked. */
  predicate FlagsRight(e: Entry, vaddr: Word, prot: Prot, section: Section, dirty: bool, watched: bool) {
    && (if prot.exec then Made(e.code, vaddr, section.Io?, false) else e.code == ALL_ONES)
    && (if prot.read then Made(e.read, vaddr, section.Io? || watched, false) else e.read == ALL_ONES)
    && (if prot.write
        then Made(e.write, vaddr, section.Io? || watched || section == Ram(true) || section == RomDevice,
                  section == Ram(false) && !dirty)
        else e.write == ALL_ONES)
  }

  lemma AlignedMade(vaddr: Word)
    requires Aligned(vaddr)
    ensures Made(vaddr, vaddr, false, false)
  {}

  lemma OrMmio(field: Word, vaddr: Word, mmio: bool, notDirty: bool)
    requires Made(field, vaddr, mmio, notDirty)
    ensures Made(Or(field, MMIO), vaddr, true, notDirty)
  {}

  lemma OrNotDirty(field: Word, vaddr: Word, mmio: bool, notDirty: bool)
    requires Made(field, vaddr, mmio, notDirty)
    ensures Made(Or(field, NOTDIRTY), vaddr, mmio, true)
  {}

  lemma ReadMade(vaddr: Word, section: Section, watched: bool)
    requires Aligned(vaddr)
    ensures Made(CodeField(vaddr, section), vaddr, section.Io?, false)
    ensures Made(ReadField(vaddr, section, watched), vaddr, section.Io? || watched, false)
  {
    hide Or, Made, Aligned;
    AlignedMade(vaddr);
    OrMmio(vaddr, vaddr, false, false);
    OrMmio(CodeField(vaddr, section), vaddr, section.Io?, false);
  }

  lemma WriteMade(vaddr: Word, section: Section, dirty: bool, watched: bool)
    requires Aligned(vaddr)
    ensures Made(WriteField(vaddr, section, dirty, watched), vaddr,
                 section.Io? || watched || section == Ram(true) || section == RomDevice,
                 section == Ram(false) && !dirty)
  {
    hide Or, Made, Aligned, CodeField, ReadField;
    ReadMade(vaddr, section, watched);
    var read := ReadField(vaddr, section, watched);
    OrMmio(read, vaddr, section.Io? || watched, false);
    OrNotDirty(read, vaddr, section.Io? || watched, false);
  }

  lemma NewEntryFlags(vaddr: Word, prot: Prot, section: Section, dirty: bool, watched: bool)
    requires Aligned(vaddr)
    ensures FlagsRight(NewEntry(vaddr, prot, section, dirty, watched), vaddr, prot, section, dirty, watched)
  {
    hide Made, Aligned, CodeField, ReadField, WriteField;
    ReadMade(vaddr, section, watched);
    WriteMade(vaddr, section, dirty, watched);
  }

  /** The flag bits for I/O, write tracking and watchpoints never change which addresses hit. */
  lemma NewEntryTranslates(vaddr: Word, prot: Prot, section: Section, dirty: bool, watched: bool)
    requires Aligned(vaddr)
    ensures Translates(NewEntry(vaddr, prot, section, dirty, watched), prot, vaddr)
  {
    hide CodeField, ReadField, WriteField, Flagged, Aligned, Translates;
    FieldsFlagged(vaddr, section, dirty, watched);
    NewEntryHits(vaddr, prot, NewEntry(vaddr, prot, section, dirty, watched), CodeField(vaddr, section),
                 ReadField(vaddr, section, watched), WriteField(vaddr, section, dirty, watched));
  }

  /** An entry hits exactly the addresses of one page, for the accesses that are allowed. */
  ghost predicate Translates(e: Entry, prot: Prot, vaddr: Word) {
    forall access, a :: Hits(e, access, a) <==> Allowed(access, prot) && And(a, PAGE_MASK) == vaddr
  }

  /** Only bits that are never compared have been added to the page address. */
  predicate Flagged(vaddr: Word, field: Word) {
    And(field, MATCH_MASK) == vaddr
  }

  lemma NewEntryHits(vaddr: Word, prot: Prot, e: Entry, code: Word, address: Word, write: Word)
    requires Flagged(vaddr, code) && Flagged(vaddr, address) && Flagged(vaddr, write)
    requires e == Entry(if prot.read then address else ALL_ONES, if prot.write then write else ALL_ONES,
                        if prot.exec then code else ALL_ONES)
    ensures Translates(e, prot, vaddr)
  {
    hide And;
    forall access, a ensures Hits(e, access, a) <==> Allowed(access, prot) && And(a, PAGE_MASK) == vaddr {
      EmptyNeverHits(a);
    }
  }

  lemma NewEntered(r: Region, e: Entry, p: Page, prot: Prot)
    requires Translates(e, prot, p.vaddr) && Aligned(p.vaddr) && PowerOfTwo(p.size)
    requires p.size != 4096 ==> Covers(r, p)
    ensures Entered(r, e, p, Slot(p.vaddr))
  {
    hide Covers, PowerOfTwo, Aligned, Slot, Hits, And;
  }

  predicate Allowed(access: Access, prot: Prot) {
    match access
    case Read => prot.read
    case Write => prot.write
    case Fetch => prot.exec
  }

  function Slot(a: Word): (i: nat)
    ensures i < 256
  {
    Index(a) as nat
  }

  lemma AndSelf(a: Word)
    ensures And(a, a) == a
  {}

  lemma AndZero(a: Word)
    ensures And(a, 0) == 0
  {}

  ghost predicate Entered(r: Region, e: Entry, p: Page, i: nat) {
    && Aligned(p.vaddr) && PowerOfTwo(p.size) && Slot(p.vaddr) == i
    && (p.size != 4096 ==> Covers(r, p))
    && forall access, a :: Hits(e, access, a) ==> And(a, PAGE_MASK) == p.vaddr
  }

  /** An entry that hits at all is not one of a mapping with `addr`, once the region does not
      contain `addr` and the slot of its page has been cleaned. */
  lemma EntryMisses(r: Region, e: Entry, p: Page, i: nat, addr: Word, access: Access, a: Word)
    requires Entered(r, e, p, i) && Hits(e, access, a)
    requires And(addr, r.mask) != r.addr
    requires i == Slot(And(addr, PAGE_MASK)) ==> !Hits(e, access, And(addr, PAGE_MASK))
    ensures !InMapping(p, addr)
  {
    hide And, Covers, Slot, Aligned, PowerOfTwo;
    if InMapping(p, addr) {
      if p.size != 4096 {
        CoversAll(r, p, addr);
      } else {
        SmallMapping(p.vaddr, addr);
        SamePageHits(e, access, a, addr);
      }
    }
  }

  lemma SmallMapping(vaddr: Word, addr: Word)
    requires Aligned(vaddr) && InMapping(Page(vaddr, 4096), addr)
    ensures And(addr, PAGE_MASK) == vaddr && And(vaddr, PAGE_MASK) == vaddr
  {}

  lemma SamePageHits(e: Entry, access: Access, a: Word, addr: Word)
    requires Hits(e, access, a) && And(a, PAGE_MASK) == And(addr, PAGE_MASK)
    ensures Hits(e, access, And(addr, PAGE_MASK))
  {}

  lemma EmptyMisses()
    ensures forall access, a :: !Hits(EMPTY, access, a)
  {
    hide And;
    forall access, a ensures !Hits(EMPTY, access, a) {
      EmptyNeverHits(a);
    }
  }
}
