/**
 * Registration and lookup of memory sections (exec.c): `mem_begin`, `mem_add`,
 * `mem_commit`, `register_subpage`, `register_multipage`, `phys_page_find`,
 * `address_space_lookup_region` and `address_space_translate_internal`.
 */
module AddressDispatch {
  import opened Radix
  import opened PhysPageMap
  import opened Wrappers

  const PAGE_SIZE: nat := 4096
  const SPACE: nat := 0x1_0000_0000_0000_0000
  const MAX_SECTIONS: nat := PAGE_SIZE
  const FIRST_SECTION: nat := 4

  /** The identity of a MemoryRegion. */
  datatype Region = IoUnassigned | IoNotDirty | IoRom | IoWatch | Subpage(id: nat) | Device(dev: nat)

  /** MemoryRegionSection; `size` is the source's 128-bit size. */
  datatype Section = Section(mr: Region, offset: nat, offsetInRegion: nat, size: nat)

  type Table = t: seq<nat> | |t| == PAGE_SIZE witness seq(PAGE_SIZE, _ => UNASSIGNED)

  /** subpage_t: one section number per byte of the page at `base`. */
  datatype SubpageTable = SubpageTable(base: nat, sub: Table)

  /** subpage_init */
  function EmptyTable(base: nat): SubpageTable { SubpageTable(base, seq(PAGE_SIZE, _ => UNASSIGNED)) }

  /** What a lookup tells its caller: the region, and what to add to an address to
      get an offset in that region. */
  datatype Answer = Nothing | Answer(mr: Region, delta: int)

  predicate Contains(s: Section, a: nat) { s.offset <= a < s.offset + s.size }

  predicate WholePages(s: Section) {
    s.offset % PAGE_SIZE == 0 && s.size % PAGE_SIZE == 0 && 0 < s.size && s.offset + s.size <= SPACE
  }

  /** Page `x` lies inside `s`. */
  predicate InPages(s: Section, x: nat) { s.offset <= x * PAGE_SIZE < s.offset + s.size }

  /** The range check at the end of phys_page_find. */
  predicate Covers(s: Section, a: nat) { s.size >= SPACE || Contains(s, a) }

  function AnswerOf(s: Section): Answer { Answer(s.mr, s.offsetInRegion - s.offset) }

  const Dummies: seq<Section> := [
    Section(IoUnassigned, 0, 0, SPACE), Section(IoNotDirty, 0, 0, SPACE),
    Section(IoRom, 0, 0, SPACE), Section(IoWatch, 0, 0, SPACE)]

  lemma TopSpan()
    ensures Span(L2_LEVELS) == 0x40_0000_0000_0000
  {
    assert Span(2) == 512 * 512;
    assert Span(4) == 512 * 512 * Span(2);
    assert Span(6) == 512 * 512 * Span(4);
  }

  /** An address in a page-aligned section is in one of its pages, and conversely. */
  lemma PageOfAddress(s: Section, a: nat)
    requires WholePages(s)
    ensures Contains(s, a) <==> InPages(s, a / PAGE_SIZE)
  {}

  /** A snapshot of the whole dispatch structure; `paged` are the sections that own pages. */
  datatype State = Snapshot(nodes: seq<Node>, root: Entry, sections: seq<Section>,
                               subpages: seq<SubpageTable>, paged: set<nat>)
  {
    /** The section number that the page map holds for page `x`. */
    ghost function Page(x: nat): nat { Find(nodes, root, L2_LEVELS, x) }

    /** phys_page_find: the walk followed by the range check. */
    ghost function PageSection(a: nat): nat {
      var n := Page(a / PAGE_SIZE);
      if n < |sections| && Covers(sections[n], a) then n else UNASSIGNED
    }

    /** address_space_lookup_region with subpages resolved. */
    ghost function Lookup(a: nat): nat {
      var n := PageSection(a);
      if n < |sections| && sections[n].mr.Subpage? && sections[n].mr.id < |subpages|
      then subpages[sections[n].mr.id].sub[a % PAGE_SIZE] else n
    }

    /** What the whole structure says about address `a`. */
    ghost function View(a: nat): Answer {
      var t := Lookup(a);
      if t == UNASSIGNED || t >= |sections| then Nothing else AnswerOf(sections[t])
    }

    ghost predicate PagedOk(n: nat) {
      && FIRST_SECTION <= n < |sections| && WholePages(sections[n])
      && (sections[n].mr.Device? ||
          (sections[n].mr.Subpage? && sections[n].size == PAGE_SIZE && sections[n].mr.id < |subpages|
           && subpages[sections[n].mr.id].base == sections[n].offset))
    }

    /** If section `n` is a subpage, some byte of its page is assigned. */
    ghost predicate Filled(n: nat) {
      n < |sections| && sections[n].mr.Subpage? && sections[n].mr.id < |subpages| ==>
        exists o :: 0 <= o < PAGE_SIZE && subpages[sections[n].mr.id].sub[o] != UNASSIGNED
    }

    ghost predicate TableOk(t: Table) {
      forall o :: 0 <= o < PAGE_SIZE && t[o] != UNASSIGNED ==>
        FIRST_SECTION <= t[o] < |sections| && sections[t[o]].mr.Device?
    }

    /** The sections in `paged` own exactly their pages, and nobody else owns any. */
    ghost predicate Shape() {
      && FIRST_SECTION <= |sections| <= MAX_SECTIONS && sections[..FIRST_SECTION] == Dummies
      && (forall n :: n in paged ==> PagedOk(n))
      && (forall n, x :: n in paged && InPages(sections[n], x) ==> Page(x) == n)
      && (forall x :: 0 <= x < Span(L2_LEVELS) && Page(x) != UNASSIGNED ==>
            Page(x) in paged && InPages(sections[Page(x)], x))
      && (forall i :: 0 <= i < |subpages| ==> TableOk(subpages[i].sub))
      && (forall n :: 0 <= n < |sections| && sections[n].mr.Subpage? ==> sections[n].mr.id < |subpages|)
    }

    /** Page `x` has a subpage. */
    ghost predicate SubpageAt(x: nat) {
      var n := Page(x);
      n != UNASSIGNED && n < |sections| && sections[n].mr.Subpage?
    }

    /** The pages in `split`, and no others, have subpages. */
    ghost predicate SplitInto(split: set<nat>) {
      forall x :: 0 <= x < Span(L2_LEVELS) ==> (x in split <==> SubpageAt(x))
    }

    /** Every number met during a lookup is in range. */
    ghost predicate Usable() {
      && 0 < |sections|
      && (forall x :: 0 <= x < Span(L2_LEVELS) ==> Page(x) < |sections|)
      && (forall n :: 0 <= n < |sections| && sections[n].mr.Subpage? ==> sections[n].mr.id < |subpages|)
      && (forall i :: 0 <= i < |subpages| ==> TableOk(subpages[i].sub))
    }

    ghost predicate Valid() {
      Shape() && forall n :: n in paged ==> Filled(n)
    }
  }

  /** Section `n`, just appended to `st`, is given the pages it spans. */
  ghost predicate GivesPages(st: State, st': State, s: Section, n: nat) {
    && n == |st.sections| < MAX_SECTIONS && st'.sections == st.sections + [s]
    && st.subpages <= st'.subpages && st'.paged == st.paged + {n}
    && WholePages(s)
    && (forall x :: 0 <= x < Span(L2_LEVELS) ==> st'.Page(x) == if InPages(s, x) then n else st.Page(x))
    && (forall x :: InPages(s, x) ==> st.Page(x) == UNASSIGNED)
  }

  lemma GivesPagesShape(st: State, st': State, s: Section, n: nat)
    requires st.Shape() && GivesPages(st, st', s, n) && st'.PagedOk(n)
    requires forall i :: |st.subpages| <= i < |st'.subpages| ==> st'.TableOk(st'.subpages[i].sub)
    ensures st'.Shape()
  {
    TopSpan();
    forall m | m in st'.paged ensures st'.PagedOk(m) {
      if m != n { assert st.PagedOk(m); }
    }
    forall m, x | m in st'.paged && InPages(st'.sections[m], x) ensures st'.Page(x) == m {
      assert st'.PagedOk(m);
      if m != n { assert st.Page(x) == m; }
    }
    forall x | 0 <= x < Span(L2_LEVELS) && st'.Page(x) != UNASSIGNED
      ensures st'.Page(x) in st'.paged && InPages(st'.sections[st'.Page(x)], x)
    {
      if st'.Page(x) != n { assert st.Page(x) in st.paged && st.PagedOk(st.Page(x)); }
    }
    forall i | 0 <= i < |st'.subpages| ensures st'.TableOk(st'.subpages[i].sub) {
      if i < |st.subpages| { assert st.TableOk(st.subpages[i].sub); }
    }
  }

  /** Only a subpage section adds to the pages that have subpages. */
  lemma GivesPagesSplit(st: State, st': State, s: Section, n: nat, split: set<nat>, split': set<nat>)
    requires st.Shape() && GivesPages(st, st', s, n) && st.SplitInto(split)
    requires forall x :: 0 <= x < Span(L2_LEVELS) ==> (x in split' <==> x in split || (s.mr.Subpage? && InPages(s, x)))
    ensures st'.SplitInto(split')
  {
    forall x | 0 <= x < Span(L2_LEVELS) ensures x in split' <==> st'.SubpageAt(x) {
      assert x in split <==> st.SubpageAt(x);
      if st.Page(x) != UNASSIGNED {
        assert st.Page(x) in st.paged && st.PagedOk(st.Page(x));
      }
    }
  }

  lemma GivesPageSplit(st: State, st': State, s: Section, n: nat, split: set<nat>)
    requires st.Shape() && GivesPages(st, st', s, n) && st.SplitInto(split) && s.mr.Subpage? && s.size == PAGE_SIZE
    ensures st'.SplitInto(split + {s.offset / PAGE_SIZE})
  {
    hide st.SplitInto, st.Shape, GivesPages;
    OnePage(st, st', s, n);
    GivesPagesSplit(st, st', s, n, split, split + {s.offset / PAGE_SIZE});
  }

  lemma OnePage(st: State, st': State, s: Section, n: nat)
    requires GivesPages(st, st', s, n) && s.size == PAGE_SIZE
    ensures forall x: nat :: InPages(s, x) <==> x == s.offset / PAGE_SIZE
  {}

  lemma GivesPagesView(st: State, st': State, s: Section, n: nat, a: nat)
    requires st.Shape() && GivesPages(st, st', s, n) && a < SPACE
    ensures Contains(s, a) ==> st'.PageSection(a) == n && st.View(a) == Nothing
    ensures !Contains(s, a) ==> st'.View(a) == st.View(a)
  {
    TopSpan();
    PageOfAddress(s, a);
    var x := a / PAGE_SIZE;
    var m := st.Page(x);
    assert st.sections[0] == Dummies[0];
    if m != UNASSIGNED {
      assert m in st.paged && st.PagedOk(m);
      if st.sections[m].mr.Subpage? { assert st.TableOk(st.subpages[st.sections[m].mr.id].sub); }
    }
  }

  /** Giving whole pages to a device section changes the answers for its bytes only. */
  lemma GivesPagesToDevice(st: State, st': State, s: Section, n: nat)
    requires st.Valid() && GivesPages(st, st', s, n) && s.mr.Device? && st'.subpages == st.subpages
    ensures st'.Valid()
    ensures forall a :: 0 <= a < SPACE ==> st'.View(a) == if Contains(s, a) then AnswerOf(s) else st.View(a)
  {
    GivesPagesShape(st, st', s, n);
    forall m | m in st'.paged ensures st'.Filled(m) {
      if m != n { assert st.Filled(m) && st.PagedOk(m); }
    }
    forall a | 0 <= a < SPACE ensures st'.View(a) == if Contains(s, a) then AnswerOf(s) else st.View(a) {
      GivesPagesView(st, st', s, n, a);
    }
  }

  /** Pages under unassigned bytes are not mapped. */
  lemma FreePages(st: State, s: Section, x: nat)
    requires st.Valid() && WholePages(s) && InPages(s, x)
    requires forall a :: Contains(s, a) ==> st.View(a) == Nothing
    ensures st.Page(x) == UNASSIGNED
  {
    forall a: nat | a / PAGE_SIZE == x ensures Contains(s, a) {
      PageOfAddress(s, a);
    }
    if st.Page(x) != UNASSIGNED {
      var a := MappedPageAnswers(st, x);
      assert false;
    }
  }

  /** A mapped page answers for at least one of its bytes. */
  lemma MappedPageAnswers(st: State, x: nat) returns (a: nat)
    requires st.Valid() && x * PAGE_SIZE < SPACE && st.Page(x) != UNASSIGNED
    ensures a / PAGE_SIZE == x && st.View(a) != Nothing
  {
    TopSpan();
    var n := st.Page(x);
    assert n in st.paged && st.PagedOk(n) && st.Filled(n);
    if st.sections[n].mr.Device? {
      a := x * PAGE_SIZE;
    } else {
      var t := st.subpages[st.sections[n].mr.id].sub;
      assert st.TableOk(t);
      var o :| 0 <= o < PAGE_SIZE && t[o] != UNASSIGNED;
      a := x * PAGE_SIZE + o;
      assert a % PAGE_SIZE == o;
    }
  }

  /** A page with an unassigned byte is either unmapped or a subpage, and phys_page_find tells which. */
  lemma FreePage(st: State, base: nat, free: nat)
    requires st.Shape() && base % PAGE_SIZE == 0 && base <= free < base + PAGE_SIZE <= SPACE && st.View(free) == Nothing
    ensures var n := st.Page(base / PAGE_SIZE);
            && st.PageSection(base) == n < |st.sections| && (n != UNASSIGNED <==> st.sections[n].mr.Subpage?)
            && (n != UNASSIGNED ==> n in st.paged && OwnsTable(st.sections, |st.subpages|, base, n))
  {
    TopSpan();
    var n := st.Page(base / PAGE_SIZE);
    assert free / PAGE_SIZE == base / PAGE_SIZE && st.sections[0] == Dummies[0];
    if n != UNASSIGNED {
      assert n in st.paged && st.PagedOk(n);
      PageOfAddress(st.sections[n], free);
      PageOfAddress(st.sections[n], base);
    }
  }

  /** Section `c` is a subpage with a table, for the page at `base`. */
  predicate OwnsTable(sections: seq<Section>, tables: nat, base: nat, c: nat) {
    && c < |sections| && sections[c].mr.Subpage? && sections[c].mr.id < tables
    && sections[c].offset == base && sections[c].size == PAGE_SIZE
  }

  /** Section `n` of one page, appended to `st`, is entered in that page's subpage table. */
  ghost predicate FillsTable(st: State, st': State, s: Section, c: nat, id: nat) {
    && |st.sections| < MAX_SECTIONS && st'.sections == st.sections + [s] && st'.paged == st.paged
    && st'.nodes == st.nodes && st'.root == st.root && s.mr.Device?
    && c in st.paged && c < |st.sections| && st.sections[c].mr == Subpage(id) && id < |st.subpages|
    && Contains(st.sections[c], s.offset) && 0 < s.size && s.offset + s.size <= st.sections[c].offset + PAGE_SIZE
    && |st'.subpages| == |st.subpages| && st'.subpages[id].base == st.subpages[id].base
    && (forall i :: 0 <= i < |st.subpages| && i != id ==> st'.subpages[i] == st.subpages[i])
    && (forall o :: 0 <= o < PAGE_SIZE ==>
          st'.subpages[id].sub[o] ==
          if Contains(s, st.sections[c].offset + o) then |st.sections| else st.subpages[id].sub[o])
  }

  lemma FillsTableShape(st: State, st': State, s: Section, c: nat, id: nat)
    requires st.Shape() && FillsTable(st, st', s, c, id)
    requires forall n :: n in st.paged && n != c ==> st.Filled(n)
    ensures st'.Valid()
  {
    forall m | m in st'.paged ensures st'.PagedOk(m) { assert st.PagedOk(m); }
    forall x ensures st'.Page(x) == st.Page(x) {}
    forall i | 0 <= i < |st'.subpages| ensures st'.TableOk(st'.subpages[i].sub) {
      assert st.TableOk(st.subpages[i].sub);
    }
    assert st'.subpages[id].sub[s.offset - st.sections[c].offset] != UNASSIGNED;
    forall m | m in st'.paged ensures st'.Filled(m) {
      assert st.PagedOk(m);
      if st.sections[m].mr == Subpage(id) {
        assert st'.Filled(m);
      } else {
        assert st.Filled(m);
      }
    }
  }

  lemma FillsTableSplit(st: State, st': State, s: Section, c: nat, id: nat, split: set<nat>)
    requires st.Shape() && FillsTable(st, st', s, c, id) && st.SplitInto(split)
    ensures st'.SplitInto(split)
  {
    forall x | 0 <= x < Span(L2_LEVELS) ensures x in split <==> st'.SubpageAt(x) {
      assert st'.Page(x) == st.Page(x) && (x in split <==> st.SubpageAt(x));
      if st.Page(x) != UNASSIGNED {
        assert st.Page(x) in st.paged && st.PagedOk(st.Page(x));
      }
    }
  }

  lemma FillsTableView(st: State, st': State, s: Section, c: nat, id: nat, a: nat)
    requires st.Shape() && FillsTable(st, st', s, c, id) && a < SPACE
    ensures st'.View(a) == if Contains(s, a) then AnswerOf(s) else st.View(a)
  {
    TopSpan();
    var x := a / PAGE_SIZE;
    assert st'.Page(x) == st.Page(x) && st.PagedOk(c);
    PageOfAddress(st.sections[c], a);
    var m := st.Page(x);
    assert st.sections[0] == Dummies[0];
    if m != UNASSIGNED {
      assert m in st.paged && st.PagedOk(m);
      if st.sections[m].mr.Subpage? {
        assert st.TableOk(st.subpages[st.sections[m].mr.id].sub);
        if st.sections[m].mr == st.sections[c].mr { SubpageOwner(st, c, m); }
      }
    }
  }

  /** Distinct sections never share a subpage table. */
  lemma SubpageOwner(st: State, c: nat, m: nat)
    requires st.Shape() && c in st.paged && m in st.paged
    requires st.PagedOk(c) && st.PagedOk(m)
    requires st.sections[c].mr.Subpage? && st.sections[m].mr == st.sections[c].mr
    ensures c == m
  {
    var x := st.sections[c].offset / PAGE_SIZE;
    assert InPages(st.sections[c], x) && InPages(st.sections[m], x);
    assert st.Page(x) == c && st.Page(x) == m;
  }

  /** Entering a section in a subpage table changes the answers for its bytes only. */
  lemma FillsTableAll(st: State, st': State, s: Section, c: nat, id: nat)
    requires st.Shape() && FillsTable(st, st', s, c, id)
    requires forall n :: n in st.paged && n != c ==> st.Filled(n)
    ensures st'.Valid()
    ensures forall a :: 0 <= a < SPACE ==> st'.View(a) == if Contains(s, a) then AnswerOf(s) else st.View(a)
  {
    FillsTableShape(st, st', s, c, id);
    forall a | 0 <= a < SPACE ensures st'.View(a) == if Contains(s, a) then AnswerOf(s) else st.View(a) {
      FillsTableView(st, st', s, c, id, a);
    }
  }

  /** Setting up an empty subpage for an unmapped page changes no answer. */
  lemma GivesPageToSubpage(st: State, st': State, base: nat, n: nat)
    requires st.Valid()
    requires GivesPages(st, st', Section(Subpage(|st.subpages|), base, 0, PAGE_SIZE), n)
    requires st'.subpages == st.subpages + [EmptyTable(base)]
    ensures st'.Shape() && forall m :: m in st'.paged && m != n ==> st'.Filled(m)
    ensures forall a :: 0 <= a < SPACE ==> st'.View(a) == st.View(a)
  {
    var s := Section(Subpage(|st.subpages|), base, 0, PAGE_SIZE);
    GivesPagesShape(st, st', s, n);
    forall m | m in st'.paged && m != n ensures st'.Filled(m) { assert st.Filled(m) && st.PagedOk(m); }
    forall a | 0 <= a < SPACE ensures st'.View(a) == st.View(a) { GivesPagesView(st, st', s, n, a); }
  }

  /** ... and adds its page to those that have subpages. */
  lemma SubpageGiven(st: State, st': State, base: nat, n: nat, split: set<nat>)
    requires st.Valid() && st.SplitInto(split) && base % PAGE_SIZE == 0 && base + PAGE_SIZE <= SPACE
    requires n == |st.sections| < MAX_SECTIONS && st'.paged == st.paged + {n}
    requires st'.sections == st.sections + [Section(Subpage(|st.subpages|), base, 0, PAGE_SIZE)]
    requires st'.subpages == st.subpages + [EmptyTable(base)] && st.Page(base / PAGE_SIZE) == UNASSIGNED
    requires forall x :: 0 <= x < Span(L2_LEVELS) ==> st'.Page(x) == if x == base / PAGE_SIZE then n else st.Page(x)
    ensures st'.Shape() && st'.SplitInto(split + {base / PAGE_SIZE})
    ensures forall m :: m in st'.paged && m != n ==> st'.Filled(m)
    ensures forall a :: 0 <= a < SPACE ==> st'.View(a) == st.View(a)
  {
    hide st.Shape, st.View, st.Filled, st.SplitInto, EmptyTable, Span;
    var s := Section(Subpage(|st.subpages|), base, 0, PAGE_SIZE);
    assert forall x: nat :: InPages(s, x) <==> x == base / PAGE_SIZE;
    assert GivesPages(st, st', s, n);
    hide GivesPages;
    GivesPageToSubpage(st, st', base, n);
    GivesPageSplit(st, st', s, n, split);
  }

  /** mem_commit: compaction may send a miss to a wrong leaf, but the range check at
      the end of the lookup then rejects it, so every answer survives. */
  lemma CompactionKeepsView(st: State, st': State, a: nat)
    requires st.Shape() && AllKept(st.nodes, st.root, st'.nodes, st'.root, L2_LEVELS, 0) && a < SPACE
    requires st'.sections == st.sections && st'.subpages == st.subpages
    ensures st'.PageSection(a) == st.PageSection(a) && st'.View(a) == st.View(a)
  {
    TopSpan();
    var x := a / PAGE_SIZE;
    var n, n' := st.Page(x), st'.Page(x);
    assert Kept(st.nodes, st.root, st'.nodes, st'.root, L2_LEVELS, 0, x);
    if n' != n && n' != UNASSIGNED {
      assert Maps(st.nodes, st.root, L2_LEVELS, 0, n');
      var y :| 0 <= y < Span(L2_LEVELS) && Find(st.nodes, st.root, L2_LEVELS, y) == n';
      assert st.Page(y) == n' && n' in st.paged && st.PagedOk(n');
      PageOfAddress(st.sections[n'], a);
    }
  }

  lemma CompactionUsable(st: State, st': State)
    requires st.Shape() && AllKept(st.nodes, st.root, st'.nodes, st'.root, L2_LEVELS, 0)
    requires st'.sections == st.sections && st'.subpages == st.subpages
    ensures st'.Usable()
  {
    forall x | 0 <= x < Span(L2_LEVELS) ensures st'.Page(x) < |st'.sections| {
      assert Kept(st.nodes, st.root, st'.nodes, st'.root, L2_LEVELS, 0, x);
      var n' := st'.Page(x);
      if n' == st.Page(x) {
        assert n' != UNASSIGNED ==> n' in st.paged && st.PagedOk(n');
      } else {
        assert Maps(st.nodes, st.root, L2_LEVELS, 0, n');
        var y :| 0 <= y < Span(L2_LEVELS) && Find(st.nodes, st.root, L2_LEVELS, y) == n';
        assert st.Page(y) == n';
        assert n' != UNASSIGNED ==> n' in st.paged && st.PagedOk(n');
      }
    }
    forall i | 0 <= i < |st'.subpages| ensures st'.TableOk(st'.subpages[i].sub) {
      assert st.TableOk(st.subpages[i].sub);
    }
  }

  /** How a range lies on the pages: the page of what is before the first page boundary, whether there
      are whole pages, and the page of what is after the last boundary. */
  datatype Layout = Layout(head: Option<nat>, whole: bool, tail: Option<nat>) {
    /** mem_add makes one piece of each. */
    function Pieces(): nat {
      (if head.Some? then 1 else 0) + (if whole then 1 else 0) + if tail.Some? then 1 else 0
    }

    /** The pages of which only a part is taken. */
    function Fragments(): set<nat> {
      (if head.Some? then {head.value} else {}) + if tail.Some? then {tail.value} else {}
    }

    /** The section numbers that mem_add takes: one for each piece, and one for each page that needs a
        subpage and has none. */
    function Need(split: set<nat>): nat { Pieces() + |Fragments() - split| }
  }

  /** What is before the first page boundary in a range. */
  function HeadSize(offset: nat, size: nat): (n: nat)
    ensures n <= size
  {
    var left := (PAGE_SIZE - offset % PAGE_SIZE) % PAGE_SIZE;
    if left < size then left else size
  }

  function LayoutOf(offset: nat, size: nat): Layout {
    var n := HeadSize(offset, size);
    Layout(if n > 0 then Some(offset / PAGE_SIZE) else None, size - n >= PAGE_SIZE,
           if (size - n) % PAGE_SIZE > 0 then Some((offset + size) / PAGE_SIZE) else None)
  }

  function Pieces(offset: nat, size: nat): nat { LayoutOf(offset, size).Pieces() }

  function Fragments(offset: nat, size: nat): set<nat> { LayoutOf(offset, size).Fragments() }

  function Need(offset: nat, size: nat, split: set<nat>): nat { LayoutOf(offset, size).Need(split) }

  /** The section numbers for one fragment. */
  function FragmentCost(x: nat, split: set<nat>): nat { if x in split then 1 else 2 }

  lemma LayoutHead(offset: nat, size: nat)
    requires offset % PAGE_SIZE != 0 && size > 0
    ensures var n := HeadSize(offset, size);
            && n > 0 && offset % PAGE_SIZE + n <= PAGE_SIZE && (n < size ==> (offset + n) % PAGE_SIZE == 0)
            && (var rest := LayoutOf(offset + n, size - n);
                && rest.head.None? && rest.tail != Some(offset / PAGE_SIZE)
                && LayoutOf(offset, size) == rest.(head := Some(offset / PAGE_SIZE)))
  {}

  lemma LayoutPages(offset: nat, size: nat)
    requires offset % PAGE_SIZE == 0 && size >= PAGE_SIZE
    ensures var n := size - size % PAGE_SIZE;
            && (offset + n) % PAGE_SIZE == 0
            && (var rest := LayoutOf(offset + n, size - n);
                !rest.whole && LayoutOf(offset, size) == rest.(whole := true))
  {}

  lemma LayoutTail(offset: nat, size: nat)
    requires offset % PAGE_SIZE == 0 && 0 < size < PAGE_SIZE
    ensures LayoutOf(offset, size) == Layout(None, false, Some(offset / PAGE_SIZE))
  {}

  lemma NeedHead(offset: nat, size: nat, split: set<nat>)
    requires offset % PAGE_SIZE != 0 && size > 0
    ensures var n, x := HeadSize(offset, size), offset / PAGE_SIZE;
            && n > 0 && offset % PAGE_SIZE + n <= PAGE_SIZE && (n < size ==> (offset + n) % PAGE_SIZE == 0)
            && Need(offset, size, split) == FragmentCost(x, split) + Need(offset + n, size - n, split + {x})
            && Fragments(offset, size) == {x} + Fragments(offset + n, size - n)
  {
    hide LayoutOf, HeadSize, Layout.Need, Layout.Fragments, FragmentCost;
    LayoutHead(offset, size);
    var n := HeadSize(offset, size);
    NeedFirst(LayoutOf(offset + n, size - n), offset / PAGE_SIZE, split);
  }

  lemma NeedFirst(rest: Layout, x: nat, split: set<nat>)
    requires rest.head.None? && rest.tail != Some(x)
    ensures var all := rest.(head := Some(x));
            && all.Need(split) == FragmentCost(x, split) + rest.Need(split + {x})
            && all.Fragments() == {x} + rest.Fragments()
  {
    FragmentsFirst(rest, x);
    hide Layout.Fragments;
    SplitOff(x, rest.Fragments(), split);
  }

  lemma FragmentsFirst(rest: Layout, x: nat)
    requires rest.head.None? && rest.tail != Some(x)
    ensures x !in rest.Fragments() && rest.(head := Some(x)).Fragments() == {x} + rest.Fragments()
  {}

  lemma SplitOff(x: nat, later: set<nat>, split: set<nat>)
    requires x !in later
    ensures |{x} + later - split| == FragmentCost(x, split) - 1 + |later - (split + {x})|
  {
    assert later - (split + {x}) == later - split;
    assert {x} + later - split == (if x in split then {} else {x}) + (later - split);
  }

  lemma NeedPages(offset: nat, size: nat, split: set<nat>)
    requires offset % PAGE_SIZE == 0 && size >= PAGE_SIZE
    ensures var n := size - size % PAGE_SIZE;
            && (offset + n) % PAGE_SIZE == 0
            && Need(offset, size, split) == 1 + Need(offset + n, size - n, split)
            && Fragments(offset, size) == Fragments(offset + n, size - n)
  {
    hide LayoutOf;
    LayoutPages(offset, size);
  }

  lemma NeedTail(offset: nat, size: nat, split: set<nat>)
    requires offset % PAGE_SIZE == 0 && 0 < size < PAGE_SIZE
    ensures var x := offset / PAGE_SIZE;
            Need(offset, size, split) == FragmentCost(x, split) && Fragments(offset, size) == {x}
  {
    hide LayoutOf;
    LayoutTail(offset, size);
    SplitOff(offset / PAGE_SIZE, {}, split);
  }

  lemma NeedNone(offset: nat, split: set<nat>)
    ensures Need(offset, 0, split) == 0 && Fragments(offset, 0) == {}
  {
    assert {} - split == {};
  }

  /** The pieces of the first `n` sections of a list, and the pages of their fragments. */
  function AllPieces(list: seq<Section>, n: nat): nat
    requires n <= |list|
  {
    if n == 0 then 0 else AllPieces(list, n - 1) + Pieces(list[n - 1].offset, list[n - 1].size)
  }

  function AllFragments(list: seq<Section>, n: nat): set<nat>
    requires n <= |list|
  {
    if n == 0 then {} else AllFragments(list, n - 1) + Fragments(list[n - 1].offset, list[n - 1].size)
  }

  /** The section numbers that a whole update takes. */
  function Numbers(list: seq<Section>, n: nat): nat
    requires n <= |list|
  {
    FIRST_SECTION + AllPieces(list, n) + |AllFragments(list, n)|
  }

  lemma NumbersNone(list: seq<Section>)
    ensures Numbers(list, 0) == FIRST_SECTION
  {}

  lemma NumbersStep(list: seq<Section>, n: nat)
    requires n < |list|
    ensures Numbers(list, n + 1) == Numbers(list, n) + Need(list[n].offset, list[n].size, AllFragments(list, n))
  {
    hide LayoutOf, Layout.Fragments, Layout.Pieces;
    var a, b := AllFragments(list, n), Fragments(list[n].offset, list[n].size);
    assert a + b == a + (b - a);
  }

  lemma {:induction false} NumbersGrow(list: seq<Section>, n: nat, m: nat)
    requires n <= m <= |list|
    ensures Numbers(list, n) <= Numbers(list, m)
  {
    hide Numbers, Need;
    if n < m {
      NumbersGrow(list, n, m - 1);
      NumbersStep(list, m - 1);
    }
  }

  ghost predicate Registrable(list: seq<Section>) {
    && (forall k :: 0 <= k < |list| ==>
          list[k].mr.Device? && 0 < list[k].size && list[k].offset + list[k].size <= SPACE)
    && (forall j, k, a :: 0 <= j < k < |list| && Contains(list[j], a) ==> !Contains(list[k], a))
  }

  class Dispatch {
    const pages: PhysMap
    var sections: seq<Section>
    var subpages: seq<SubpageTable>
    ghost var paged: set<nat>
    /** The pages that have subpages. */
    ghost var split: set<nat>

    ghost function State(): State
      reads this, pages
    {
      Snapshot(pages.nodes, pages.root, sections, subpages, paged)
    }

    ghost function View(a: nat): Answer
      reads this, pages
    {
      State().View(a)
    }

    /** Each section has cost at most 2 * P_L2_LEVELS - 1 nodes. */
    ghost predicate MapOk()
      reads this, pages
    {
      pages.Open() && |pages.nodes| <= 11 * |sections|
    }

    /** The structure under construction, before `mem_commit`. */
    ghost predicate Building()
      reads this, pages
    {
      MapOk() && State().Shape() && State().SplitInto(split)
    }

    ghost predicate Valid()
      reads this, pages
    {
      MapOk() && State().Valid() && State().SplitInto(split)
    }

    /** mem_begin */
    constructor ()
      ensures Valid() && fresh(pages) && |sections| == FIRST_SECTION && split == {}
      ensures forall a :: View(a) == Nothing
    {
      pages := new PhysMap();
      sections, subpages, paged, split := Dummies, [], {}, {};
    }

    /** phys_section_add; the assertion of the source is the precondition. */
    method SectionAdd(s: Section) returns (n: nat)
      requires |sections| < MAX_SECTIONS
      modifies this`sections
      ensures n == old(|sections|) && sections == old(sections) + [s]
    {
      n := |sections|;
      sections := sections + [s];
    }

    /** register_multipage */
    method RegisterMultipage(s: Section)
      requires Valid() && WholePages(s) && s.mr.Device? && |sections| < MAX_SECTIONS
      requires forall a :: Contains(s, a) ==> View(a) == Nothing
      modifies this, pages
      ensures Valid() && |sections| == old(|sections|) + 1 && split == old(split)
      ensures forall a :: 0 <= a < SPACE ==> View(a) == if Contains(s, a) then AnswerOf(s) else old(View(a))
    {
      TopSpan();
      ghost var st := State();
      forall x | InPages(s, x) ensures st.Page(x) == UNASSIGNED {
        forall a | Contains(s, a) ensures st.View(a) == Nothing { assert View(a) == Nothing; }
        FreePages(st, s, x);
      }
      var n := SectionAdd(s);
      forall x | s.offset / PAGE_SIZE <= x < s.offset / PAGE_SIZE + s.size / PAGE_SIZE
        ensures pages.Section(x) == UNASSIGNED
      {
        assert InPages(s, x);
      }
      pages.Set(s.offset / PAGE_SIZE, s.size / PAGE_SIZE, n);
      paged := paged + {n};
      ghost var st' := State();
      forall x | 0 <= x < Span(L2_LEVELS) ensures st'.Page(x) == if InPages(s, x) then n else st.Page(x) {
        assert pages.Section(x) == st'.Page(x);
      }
      GivesPagesToDevice(st, st', s, n);
      GivesPagesSplit(st, st', s, n, split, split);
    }

    /** phys_page_find */
    method PageFind(a: nat) returns (n: nat)
      requires pages.Valid() && a < SPACE
      requires pages.Section(a / PAGE_SIZE) < |sections|
      ensures n == State().PageSection(a)
    {
      n := pages.Walk(a / PAGE_SIZE);
      if !Covers(sections[n], a) {
        n := UNASSIGNED;
      }
    }

    /** subpage_register */
    method SubpageRegister(id: nat, start: nat, end: int, section: nat) returns (ok: bool)
      requires id < |subpages|
      modifies this`subpages
      ensures ok <==> start < PAGE_SIZE && end < PAGE_SIZE
      ensures !ok ==> subpages == old(subpages)
      ensures ok ==> |subpages| == old(|subpages|) && subpages[id].base == old(subpages[id].base)
      ensures ok ==> forall i :: 0 <= i < |subpages| && i != id ==> subpages[i] == old(subpages[i])
      ensures ok ==> forall o :: 0 <= o < PAGE_SIZE ==>
                subpages[id].sub[o] == if start <= o <= end then section else old(subpages[id].sub[o])
    {
      if start >= PAGE_SIZE || end >= PAGE_SIZE {
        return false;
      }
      ghost var before := subpages;
      var idx: nat := start;
      while idx <= end
        invariant start <= idx && (idx <= end + 1 || idx == start)
        invariant |subpages| == |before| && subpages[id].base == before[id].base
        invariant forall i :: 0 <= i < |subpages| && i != id ==> subpages[i] == before[i]
        invariant forall o :: 0 <= o < PAGE_SIZE ==>
                    subpages[id].sub[o] == if start <= o < idx then section else before[id].sub[o]
      {
        subpages := subpages[id := subpages[id].(sub := subpages[id].sub[idx := section])];
        idx := idx + 1;
      }
      return true;
    }

    /** Section `c` is the subpage with table `id` for the page at `base`. */
    ghost predicate HasTable(base: nat, c: nat, id: nat)
      reads `paged, `sections, `subpages
    {
      c in paged && OwnsTable(sections, |subpages|, base, c) && sections[c].mr.id == id
    }

    /** A fresh, all-unassigned subpage for a page that is not mapped. */
    method NewSubpage(base: nat) returns (id: nat, ghost c: nat)
      requires Valid() && base % PAGE_SIZE == 0 && base + PAGE_SIZE <= SPACE && |sections| < MAX_SECTIONS
      requires pages.Section(base / PAGE_SIZE) == UNASSIGNED
      modifies this, pages
      ensures Building() && HasTable(base, c, id) && |sections| == old(|sections|) + 1
      ensures split == old(split) + {base / PAGE_SIZE}
      ensures forall n :: n in paged && n != c ==> State().Filled(n)
      ensures forall a :: 0 <= a < SPACE ==> View(a) == old(View(a))
    {
      TopSpan();
      ghost var st := State();
      assert FIRST_SECTION <= |sections|;
      hide st.Shape, st.SplitInto, st.View, st.Filled, GivesPages, Span, EmptyTable;
      id := |subpages|;
      subpages := subpages + [EmptyTable(base)];
      ghost var s := Section(Subpage(id), base, 0, PAGE_SIZE);
      var n := SectionAdd(Section(Subpage(id), base, 0, PAGE_SIZE));
      pages.Set(base / PAGE_SIZE, 1, n);
      paged := paged + {n};
      c := n;
      ghost var st' := State();
      assert st.Page(base / PAGE_SIZE) == UNASSIGNED;
      forall x | 0 <= x < Span(L2_LEVELS) ensures st'.Page(x) == if x == base / PAGE_SIZE then n else st.Page(x) {
        assert pages.Section(x) == st'.Page(x);
      }
      SubpageGiven(st, st', base, n, split);
      split := split + {base / PAGE_SIZE};
    }

    /** The first half of register_subpage: the subpage table of the page that holds the
        unassigned byte `free`, made if missing. */
    method EnsureSubpage(base: nat, ghost free: nat) returns (id: nat, ghost c: nat)
      requires Valid() && base % PAGE_SIZE == 0 && base <= free < base + PAGE_SIZE <= SPACE
      requires |sections| + FragmentCost(base / PAGE_SIZE, split) <= MAX_SECTIONS && View(free) == Nothing
      modifies this, pages
      ensures Building() && HasTable(base, c, id) && split == old(split) + {base / PAGE_SIZE}
      ensures |sections| + 1 == old(|sections| + FragmentCost(base / PAGE_SIZE, split))
      ensures forall n :: n in paged && n != c ==> State().Filled(n)
      ensures forall a :: 0 <= a < SPACE ==> View(a) == old(View(a))
    {
      TopSpan();
      ghost var st := State();
      assert st.Shape() && forall n :: n in paged ==> st.Filled(n);
      assert base / PAGE_SIZE in split <==> st.SubpageAt(base / PAGE_SIZE);
      hide st.Shape, st.View, st.Filled, st.SplitInto, MapOk, Span;
      FreePage(st, base, free);
      var existing := PageFind(base);
      if !sections[existing].mr.Subpage? {
        id, c := NewSubpage(base);
      } else {
        id, c := sections[existing].mr.id, existing;
      }
    }

    /** The second half of register_subpage: `s` is entered in its page's table. */
    method FillSubpage(s: Section, base: nat, id: nat, ghost c: nat)
      requires Building() && HasTable(base, c, id) && s.mr.Device? && |sections| < MAX_SECTIONS
      requires forall n :: n in paged && n != c ==> State().Filled(n)
      requires 0 < s.size && base % PAGE_SIZE == 0 && base <= s.offset && s.offset + s.size <= base + PAGE_SIZE
      modifies this`sections, this`subpages
      ensures Valid() && |sections| == old(|sections|) + 1
      ensures forall a :: 0 <= a < SPACE ==> View(a) == if Contains(s, a) then AnswerOf(s) else old(View(a))
    {
      ghost var st := State();
      var start := s.offset % PAGE_SIZE;
      assert start == s.offset - base;
      var n := SectionAdd(s);
      var ok := SubpageRegister(id, start, start + s.size - 1, n);
      FillsTableAll(st, State(), s, c, id);
      FillsTableSplit(st, State(), s, c, id, split);
    }

    /** register_subpage, for a section that lies within one page. */
    method RegisterSubpage(s: Section)
      requires Valid() && s.mr.Device? && |sections| + FragmentCost(s.offset / PAGE_SIZE, split) <= MAX_SECTIONS
      requires 0 < s.size && s.offset % PAGE_SIZE + s.size <= PAGE_SIZE && s.offset + s.size <= SPACE
      requires forall a :: Contains(s, a) ==> View(a) == Nothing
      modifies this, pages
      ensures Valid() && split == old(split) + {s.offset / PAGE_SIZE}
      ensures |sections| == old(|sections| + FragmentCost(s.offset / PAGE_SIZE, split))
      ensures forall a :: 0 <= a < SPACE ==> View(a) == if Contains(s, a) then AnswerOf(s) else old(View(a))
    {
      hide View, Valid, Building, FragmentCost;
      var base := s.offset - s.offset % PAGE_SIZE;
      assert base / PAGE_SIZE == s.offset / PAGE_SIZE;
      assert Contains(s, s.offset);
      var id, c := EnsureSubpage(base, s.offset);
      FillSubpage(s, base, id, c);
    }

    /** One turn of the loop of mem_add: a run of whole pages, or what is left of a page. */
    method AddPiece(remain: Section) returns (now: Section)
      requires Valid() && remain.mr.Device? && |sections| + Need(remain.offset, remain.size, split) <= MAX_SECTIONS
      requires remain.offset % PAGE_SIZE == 0 && 0 < remain.size && remain.offset + remain.size <= SPACE
      requires forall a :: Contains(remain, a) ==> View(a) == Nothing
      modifies this, pages
      ensures Valid() && now == remain.(size := now.size) && 0 < now.size <= remain.size
      ensures now.size < remain.size ==> (remain.offset + now.size) % PAGE_SIZE == 0
      ensures |sections| + Need(remain.offset + now.size, remain.size - now.size, split) ==
              old(|sections| + Need(remain.offset, remain.size, split))
      ensures split + Fragments(remain.offset + now.size, remain.size - now.size) ==
              old(split) + Fragments(remain.offset, remain.size)
      ensures forall a :: 0 <= a < SPACE ==> View(a) == if Contains(now, a) then AnswerOf(remain) else old(View(a))
    {
      hide View, Valid, Need, Fragments;
      now := remain;
      if remain.size < PAGE_SIZE {
        NeedTail(remain.offset, remain.size, split);
        RegisterSubpage(now);
        NeedNone(remain.offset + remain.size, split);
      } else if remain.offset % PAGE_SIZE != 0 {
        assert false;
      } else {
        NeedPages(remain.offset, remain.size, split);
        now := now.(size := now.size - now.size % PAGE_SIZE);
        RegisterMultipage(now);
      }
    }

    /** The first piece of mem_add: what is before a page boundary, if there is anything. */
    method AddHead(section: Section) returns (now: Section)
      requires Valid() && section.mr.Device? && |sections| + Need(section.offset, section.size, split) <= MAX_SECTIONS
      requires 0 < section.size && section.offset + section.size <= SPACE
      requires forall a :: Contains(section, a) ==> View(a) == Nothing
      modifies this, pages
      ensures Valid() && now == section.(size := now.size) && now.size <= section.size
      ensures now.size < section.size ==> (section.offset + now.size) % PAGE_SIZE == 0
      ensures |sections| + Need(section.offset + now.size, section.size - now.size, split) ==
              old(|sections| + Need(section.offset, section.size, split))
      ensures split + Fragments(section.offset + now.size, section.size - now.size) ==
              old(split) + Fragments(section.offset, section.size)
      ensures forall a :: 0 <= a < SPACE ==> View(a) == if Contains(now, a) then AnswerOf(section) else old(View(a))
    {
      hide View, Valid, Need, Fragments;
      now := section;
      if now.offset % PAGE_SIZE != 0 {
        NeedHead(section.offset, section.size, split);
        var left := PAGE_SIZE - now.offset % PAGE_SIZE;
        now := now.(size := if left < now.size then left else now.size);
        RegisterSubpage(now);
      } else {
        now := now.(size := 0);
      }
    }

    /** mem_add: the head and tail fragments become subpage pieces and the whole pages
        in between one run; together they tile the section. */
    method MemAdd(section: Section)
      requires Valid() && section.mr.Device? && |sections| + Need(section.offset, section.size, split) <= MAX_SECTIONS
      requires 0 < section.size && section.offset + section.size <= SPACE
      requires forall a :: Contains(section, a) ==> View(a) == Nothing
      modifies this, pages
      ensures Valid() && split == old(split) + Fragments(section.offset, section.size)
      ensures |sections| == old(|sections| + Need(section.offset, section.size, split))
      ensures forall a :: 0 <= a < SPACE ==>
                View(a) == if Contains(section, a) then AnswerOf(section) else old(View(a))
    {
      hide View, Valid, Need, Fragments;
      var now, remain := section, section;
      now := AddHead(section);
      while remain.size != now.size
        invariant Valid() && now.size <= remain.size
        invariant now == remain.(size := now.size) && AnswerOf(remain) == AnswerOf(section)
        invariant section.offset <= remain.offset && remain.offset + remain.size == section.offset + section.size
        invariant now.size < remain.size ==> (remain.offset + now.size) % PAGE_SIZE == 0
        invariant forall a :: 0 <= a < SPACE ==>
                    View(a) == if section.offset <= a < remain.offset + now.size then AnswerOf(section)
                               else old(View(a))
        invariant |sections| + Need(remain.offset + now.size, remain.size - now.size, split) ==
                  old(|sections| + Need(section.offset, section.size, split))
        invariant split + Fragments(remain.offset + now.size, remain.size - now.size) ==
                  old(split) + Fragments(section.offset, section.size)
        decreases remain.size - now.size
      {
        remain := Section(remain.mr, remain.offset + now.size, remain.offsetInRegion + now.size,
                          remain.size - now.size);
        now := AddPiece(remain);
      }
      NeedNone(remain.offset + now.size, split);
    }

    /** mem_commit, up to the replacement of the previous structure. */
    method Commit()
      requires Valid()
      modifies pages`root, pages`nodes
      ensures pages.Valid() && State().Usable()
      ensures forall a :: 0 <= a < SPACE ==> View(a) == old(View(a))
    {
      ghost var st := State();
      pages.CompactAll();
      CompactionUsable(st, State());
      forall a | 0 <= a < SPACE ensures View(a) == st.View(a) {
        CompactionKeepsView(st, State(), a);
      }
    }

    /** address_space_lookup_region */
    method LookupRegion(a: nat, resolveSubpage: bool) returns (n: nat)
      requires pages.Valid() && State().Usable() && a < SPACE
      ensures n < |sections|
      ensures n == if resolveSubpage then State().Lookup(a) else State().PageSection(a)
    {
      TopSpan();
      assert pages.Section(a / PAGE_SIZE) == State().Page(a / PAGE_SIZE);
      n := PageFind(a);
      if resolveSubpage && sections[n].mr.Subpage? {
        assert State().TableOk(subpages[sections[n].mr.id].sub);
        n := subpages[sections[n].mr.id].sub[a % PAGE_SIZE];
      }
    }

    /** address_space_translate_internal; `sizes` gives the sizes of the regions.  The length is the
        largest that, counted from the start of the section, stays within the size of the region.  So
        the access stays inside the region exactly when the section shows the region from its start, or
        when it would have stayed inside anyway. */
    method Translate(a: nat, plen: nat, sizes: Region -> nat, resolveSubpage: bool)
      returns (n: nat, xlat: int, len: int)
      requires pages.Valid() && State().Usable() && a < SPACE
      ensures n < |sections| && n == if resolveSubpage then State().Lookup(a) else State().PageSection(a)
      ensures resolveSubpage && View(a) == Nothing ==> n == UNASSIGNED
      ensures resolveSubpage && View(a) != Nothing ==> sections[n].mr == View(a).mr && xlat == a + View(a).delta
      ensures !resolveSubpage && !sections[n].mr.Subpage? ==> n == State().Lookup(a)
      ensures xlat == a - sections[n].offset + sections[n].offsetInRegion
      ensures var offset, size := a - sections[n].offset, sizes(sections[n].mr);
              len <= plen && offset + len <= size && (len == plen || offset + len == size)
      ensures var size := sizes(sections[n].mr);
              xlat + len <= size <==> sections[n].offsetInRegion == 0 || xlat + plen <= size
    {
      n := LookupRegion(a, resolveSubpage);
      var offset := a - sections[n].offset;
      xlat := offset + sections[n].offsetInRegion;
      var diff := sizes(sections[n].mr) - offset;
      len := if diff < plen then diff else plen;
    }
  }

  /** The answer of the one section among the first `n` that contains `a`. */
  ghost function Expected(list: seq<Section>, n: nat, a: nat): Answer
    requires n <= |list|
  {
    if n == 0 then Nothing
    else if Contains(list[n - 1], a) then AnswerOf(list[n - 1])
    else Expected(list, n - 1, a)
  }

  lemma {:induction false} ExpectedNothing(list: seq<Section>, n: nat, a: nat)
    requires n <= |list| && forall k :: 0 <= k < n ==> !Contains(list[k], a)
    ensures Expected(list, n, a) == Nothing
  {
    if n > 0 { ExpectedNothing(list, n - 1, a); }
  }

  lemma {:induction false} ExpectedOwner(list: seq<Section>, n: nat, k: nat, a: nat)
    requires Registrable(list) && k < n <= |list| && Contains(list[k], a)
    ensures Expected(list, n, a) == AnswerOf(list[k])
  {
    if k < n - 1 { ExpectedOwner(list, n - 1, k, a); }
  }

  /** A full update of an address space: mem_begin, mem_add for each of the byte-disjoint
      sections in turn, mem_commit. Every address then answers for the one section that
      contains it, and for no section if there is none. */
  method Update(list: seq<Section>) returns (d: Dispatch)
    requires Registrable(list) && Numbers(list, |list|) <= MAX_SECTIONS
    ensures d.pages.Valid() && d.State().Usable() && |d.sections| == Numbers(list, |list|)
    ensures forall k, a :: 0 <= k < |list| && Contains(list[k], a) ==> d.View(a) == AnswerOf(list[k])
    ensures forall a :: 0 <= a < SPACE && (forall k :: 0 <= k < |list| ==> !Contains(list[k], a)) ==>
              d.View(a) == Nothing
  {
    d := Filled(list);
    d.Commit();
    forall k, a | 0 <= k < |list| && Contains(list[k], a) ensures d.View(a) == AnswerOf(list[k]) {
      ExpectedOwner(list, |list|, k, a);
    }
    forall a | 0 <= a < SPACE && (forall k :: 0 <= k < |list| ==> !Contains(list[k], a)) ensures d.View(a) == Nothing {
      ExpectedNothing(list, |list|, a);
    }
  }

  /** mem_begin, then mem_add for each section. */
  method Filled(list: seq<Section>) returns (d: Dispatch)
    requires Registrable(list) && Numbers(list, |list|) <= MAX_SECTIONS
    ensures fresh(d) && fresh(d.pages) && d.Valid() && |d.sections| == Numbers(list, |list|)
    ensures forall a :: 0 <= a < SPACE ==> d.View(a) == Expected(list, |list|, a)
  {
    hide Numbers, Need, d.View, d.Valid;
    d := new Dispatch();
    NumbersNone(list);
    var i := 0;
    while i < |list|
      invariant 0 <= i <= |list| && fresh(d) && fresh(d.pages)
      invariant d.Valid() && |d.sections| == Numbers(list, i) && d.split == AllFragments(list, i)
      invariant forall a :: 0 <= a < SPACE ==> d.View(a) == Expected(list, i, a)
    {
      NumbersStep(list, i);
      NumbersGrow(list, i + 1, |list|);
      forall a | Contains(list[i], a) ensures d.View(a) == Nothing {
        ExpectedNothing(list, i, a);
      }
      d.MemAdd(list[i]);
      i := i + 1;
    }
  }

  /** A section that shows the second page of a region of two: an access of two pages is not cut. */
  method NotCut() returns (xlat: int, len: int)
    ensures xlat == PAGE_SIZE && xlat + len > 2 * PAGE_SIZE
  {
    var s := Section(Device(0), 0, PAGE_SIZE, PAGE_SIZE);
    NumbersStep([s], 0);
    var d := Update([s]);
    assert Contains([s][0], 0);
    var n;
    n, xlat, len := d.Translate(0, 2 * PAGE_SIZE, _ => 2 * PAGE_SIZE, true);
  }
}
