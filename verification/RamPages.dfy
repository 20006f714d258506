/**
 * How one page of RAM is sent (arch_init.c, page_cache.c): as a zero page, whole, as a delta against
 * a cached copy, or not at all; what the destination then holds, and what the cache keeps.
 */
module RamPages {
  import opened Octets
  import opened RamScan
  import opened RamStream
  import opened Wrappers
  import Xbzrle

  type Page = s: seq<Byte> | |s| == 4096 witness Repeat(0, 4096)

  function Repeat(value: Byte, n: nat): (s: seq<Byte>)
    ensures |s| == n && forall i :: 0 <= i < n ==> s[i] == value
  {
    if n == 0 then [] else Repeat(value, n - 1) + [value]
  }

  function Filled(value: Byte): Page { Repeat(value, 4096) }

  const ZERO: Page := Filled(0)

  // -------------------------------------------------------------------------------- what is sent

  datatype Sent = Skipped | ZeroPage | Whole | Changes(payload: seq<Byte>)

  /** What the sender does with a page, given the cached copy of what it sent before.  Where the
      encoding does not fit a page it sends the whole page. */
  function Choice(page: Page, cached: Option<Page>): Sent {
    if page == ZERO then ZeroPage
    else if cached.None? then Whole
    else if page == cached.value then Skipped
    else if Xbzrle.Fits(cached.value, page, 4096) then Changes(Xbzrle.Enc(cached.value, page, 0))
    else Whole
  }

  /** What the destination then holds for the page. */
  function Received(dest: Page, page: Page, sent: Sent): Page {
    match sent
    case Skipped => dest
    case ZeroPage => ZERO
    case Whole => page
    case Changes(payload) =>
      var r := Xbzrle.Decode(payload, dest);
      if r.Some? && |r.value| == 4096 then r.value else dest
  }

  /** Dealing with the page gives the destination the page. */
  predicate Delivers(page: Page, cached: Option<Page>, dest: Page) {
    Received(dest, page, Choice(page, cached)) == page
  }

  /** A page fails to arrive exactly when a delta is made against a copy that the destination does
      not hold, and the destination differs where the delta says that nothing changed. */
  lemma DeliversExactly(page: Page, cached: Option<Page>, dest: Page)
    ensures Delivers(page, cached, dest) <==>
            || page == ZERO || cached.None? || !Xbzrle.Fits(cached.value, page, 4096)
            || Xbzrle.Agrees(cached.value, page, dest)
  {
    hide ZERO, Repeat, Xbzrle.Enc, Xbzrle.Decode;
    if page != ZERO && cached.Some? {
      Xbzrle.DeltaExactly(cached.value, page, dest);
      Xbzrle.DecodeOver(cached.value, page, dest);
      if page == cached.value {
        Xbzrle.EmptyMeansSame(page, page);
        assert Xbzrle.Agrees(page, page, dest) ==> dest == page;
      }
    }
  }

  /** Whenever the cached copy is what the destination holds, the destination ends with the page. */
  lemma SendIsRight(page: Page, cached: Option<Page>, dest: Page)
    requires cached.Some? ==> cached.value == dest
    ensures Delivers(page, cached, dest)
  {
    hide ZERO, Repeat, Delivers, Xbzrle.Fits;
    DeliversExactly(page, cached, dest);
  }

  /** What may be done with a page of a running guest.  The zero test and the copies of the page are
      taken one after the other, and the guest may write in between; `seen` is the copy that is sent. */
  predicate May(seen: Page, cached: Option<Page>, how: Sent) {
    match how
    case Skipped => cached == Some(seen)
    case ZeroPage => seen == ZERO
    case Whole => true
    case Changes(payload) =>
      && cached.Some? && seen != cached.value && Xbzrle.Fits(cached.value, seen, 4096)
      && payload == Xbzrle.Enc(cached.value, seen, 0)
  }

  /** Also then the destination ends with what was seen, if the cached copy is what it holds. */
  lemma SeenArrives(seen: Page, cached: Option<Page>, how: Sent, dest: Page)
    requires May(seen, cached, how) && (cached.Some? ==> cached.value == dest)
    ensures Received(dest, seen, how) == seen
  {
    hide Repeat, Xbzrle.Enc, Xbzrle.Decode, Xbzrle.Fits;
    if how.Changes? {
      Xbzrle.RoundTrip(dest, seen);
    }
  }

  // ------------------------------------------------------------------------------------- records

  /** The record for a page that is sent. */
  function RecordFor(b: nat, offset: nat, page: Page, sent: Sent): Record
    requires !sent.Skipped?
  {
    match sent
    case ZeroPage => Fill(b, offset * 4096, 0)
    case Whole => Data(b, offset * 4096, page)
    case Changes(payload) => Delta(b, offset * 4096, payload)
  }

  /** A record that names a page of its block and has the right size. */
  predicate RecordFits(areas: seq<Area>, r: Record) {
    && r.block < |areas| && r.addr % 4096 == 0 && r.addr / 4096 < areas[r.block].pages
    && (r.Data? ==> |r.page| == 4096)
    && (r.Delta? ==> |r.payload| <= 4096)
  }

  /** What the loader does with a record. */
  function Apply(areas: seq<Area>, dest: seq<Page>, r: Record): Option<seq<Page>> {
    if r.block >= |areas| || areas[r.block].base + r.addr / 4096 >= |dest| then None
    else
      var p := areas[r.block].base + r.addr / 4096;
      match r
      case Fill(_, _, value) => Some(dest[p := Filled(value)])
      case Data(_, _, page) => if |page| == 4096 then Some(dest[p := page]) else None
      case Delta(_, _, payload) =>
        var page := Xbzrle.Decode(payload, dest[p]);
        if page.Some? && |page.value| == 4096 then Some(dest[p := page.value]) else None
  }

  function ApplyAll(areas: seq<Area>, dest: seq<Page>, records: seq<Record>): Option<seq<Page>> {
    if records == [] then Some(dest)
    else match ApplyAll(areas, dest, records[..|records| - 1])
      case None => None
      case Some(d) => Apply(areas, d, records[|records| - 1])
  }

  /** The loader makes of a record what the destination is said to receive. */
  lemma RecordApplies(areas: seq<Area>, dest: seq<Page>, b: nat, offset: nat, seen: Page, cached: Option<Page>,
                      how: Sent)
    requires b < |areas| && areas[b].base + offset < |dest| && May(seen, cached, how) && !how.Skipped?
    ensures Apply(areas, dest, RecordFor(b, offset, seen, how)) ==
            Some(DestAfter(dest, areas[b].base + offset, seen, how))
    ensures offset < areas[b].pages ==> RecordFits(areas, RecordFor(b, offset, seen, how))
  {
    hide Repeat, Xbzrle.Enc, Xbzrle.Decode;
    if how.Changes? {
      Xbzrle.DecodeOver(cached.value, seen, dest[areas[b].base + offset]);
    }
  }

  lemma ApplyAppend(areas: seq<Area>, dest: seq<Page>, records: seq<Record>, r: Record)
    requires ApplyAll(areas, dest, records).Some?
    ensures ApplyAll(areas, dest, records + [r]) == Apply(areas, ApplyAll(areas, dest, records).value, r)
  {
    hide Apply;
    assert (records + [r])[..|records|] == records;
  }

  // ----------------------------------------------------------------------------------- the cache

  /** A slot of the page cache. */
  datatype Item = Empty | Item(page: nat, data: Page)

  function Slot(p: nat, n: nat): (i: nat)
    requires n > 0
    ensures i < n
  {
    p % n
  }

  /** The cached copy of a page. */
  function Cached(cache: seq<Item>, p: nat): Option<Page> {
    if cache == [] then None
    else
      var item := cache[Slot(p, |cache|)];
      if item.Item? && item.page == p then Some(item.data) else None
  }

  ghost predicate NoneCached(cache: seq<Item>) {
    forall p :: Cached(cache, p) == None
  }

  /** The cache with a copy of a page, in place of whatever shared its slot. */
  function Insert(cache: seq<Item>, p: nat, data: Page): (r: seq<Item>)
    requires cache != []
    ensures |r| == |cache|
  {
    cache[Slot(p, |cache|) := Item(p, data)]
  }

  lemma InsertCached(cache: seq<Item>, p: nat, data: Page, q: nat)
    requires cache != []
    ensures Cached(Insert(cache, p, data), p) == Some(data)
    ensures q != p ==> Cached(Insert(cache, p, data), q) in {None, Cached(cache, q)}
    ensures q != p && Cached(cache, p).Some? ==> Cached(Insert(cache, p, data), q) == Cached(cache, q)
  {}

  /** The cache after a page has been dealt with. */
  function CacheAfter(cache: seq<Item>, p: nat, seen: Page, how: Sent, last: bool): (r: seq<Item>)
    ensures |r| == |cache|
  {
    if cache != [] && (if how.Whole? then Cached(cache, p).Some? || !last else how.Changes? && !last)
    then Insert(cache, p, seen) else cache
  }

  /** Other pages keep their copies or lose them; in the last stage they keep them. */
  lemma CacheOthers(cache: seq<Item>, p: nat, seen: Page, how: Sent, last: bool, q: nat)
    requires q != p
    ensures Cached(CacheAfter(cache, p, seen, how, last), q) in {None, Cached(cache, q)}
    ensures last ==> Cached(CacheAfter(cache, p, seen, how, last), q) == Cached(cache, q)
  {
    hide Slot, Cached;
    if cache != [] {
      InsertCached(cache, p, seen, q);
    }
  }

  /** The one thing that leaves a wrong copy in the cache: a page that has become zero is sent as
      such, and the cache keeps its older contents. */
  predicate LeavesStale(cache: seq<Item>, p: nat, how: Sent, last: bool) {
    !last && how.ZeroPage? && Cached(cache, p).Some? && Cached(cache, p).value != ZERO
  }

  predicate FreshAt(cache: seq<Item>, dest: Page, p: nat) {
    Cached(cache, p).Some? ==> Cached(cache, p).value == dest
  }

  /** The cache stays right for a page exactly when the page is not left stale. */
  lemma StaleExactly(cache: seq<Item>, p: nat, seen: Page, how: Sent, dest: Page)
    requires FreshAt(cache, dest, p) && May(seen, Cached(cache, p), how)
    ensures FreshAt(CacheAfter(cache, p, seen, how, false), seen, p) <==> !LeavesStale(cache, p, how, false)
  {
    hide Slot, Repeat, Xbzrle.Fits, Xbzrle.Enc;
    if cache != [] {
      InsertCached(cache, p, seen, p);
    }
  }

  // ------------------------------------------------------------------------------- all the pages

  /** The pages that are not sent although they are dirty: they equal their cached copies. */
  ghost function Skips(cache: seq<Item>, mem: seq<Page>): set<nat> {
    set p: nat | p < |mem| && Choice(mem[p], Cached(cache, p)).Skipped?
  }

  lemma NotSkipped(page: Page)
    ensures Choice(page, None) != Skipped
  {}

  /** Every cached copy that may still be used is what the destination holds, except for the pages in
      `bad`; once the guest is stopped only pages still marked dirty matter. */
  ghost predicate Fresh(cache: seq<Item>, dest: seq<Page>, bits: seq<bool>, stopped: bool, bad: set<nat>) {
    forall p :: 0 <= p < |dest| == |bits| && p !in bad && (stopped ==> bits[p]) ==> FreshAt(cache, dest[p], p)
  }

  /** The destination has every page of RAM, except those still marked to be sent and those in `bad`. */
  ghost predicate Settled(areas: seq<Area>, mem: seq<Page>, dest: seq<Page>, bits: seq<bool>, log: seq<bool>,
                          bad: set<nat>)
  {
    forall p :: 0 <= p < |mem| && IsRam(areas, p) && p !in bad ==> SettledAt(mem, dest, bits, log, p)
  }

  predicate SettledAt(mem: seq<Page>, dest: seq<Page>, bits: seq<bool>, log: seq<bool>, p: nat) {
    p < |mem| == |dest| == |bits| == |log| ==> mem[p] == dest[p] || bits[p] || log[p]
  }

  lemma FreshNone(cache: seq<Item>, dest: seq<Page>, bits: seq<bool>, stopped: bool, bad: set<nat>)
    requires NoneCached(cache)
    ensures Fresh(cache, dest, bits, stopped, bad)
  {}

  lemma FreshWeaker(cache: seq<Item>, dest: seq<Page>, bits: seq<bool>, bad: set<nat>)
    requires Fresh(cache, dest, bits, false, bad)
    ensures Fresh(cache, dest, bits, true, bad)
  {}

  /** The destination after a page has been dealt with. */
  function DestAfter(dest: seq<Page>, p: nat, seen: Page, how: Sent): (r: seq<Page>)
    requires p < |dest|
    ensures |r| == |dest|
  {
    dest[p := Received(dest[p], seen, how)]
  }

  function BadAfter(cache: seq<Item>, p: nat, how: Sent, last: bool, bad: set<nat>): set<nat> {
    if LeavesStale(cache, p, how, last) then bad + {p} else bad
  }

  /** Dealing with a page, whose bit is already clear, settles it and disturbs no other page: what was
      seen of it is what it holds, or the guest has written it since. */
  lemma PageSettles(areas: seq<Area>, mem: seq<Page>, dest: seq<Page>, was: seq<bool>, log: seq<bool>,
                    cache: seq<Item>, p: nat, seen: Page, how: Sent, last: bool, bad: set<nat>)
    requires p < |mem| == |dest| == |log| == |was| && was[p]
    requires May(seen, Cached(cache, p), how) && (seen == mem[p] || log[p])
    requires Settled(areas, mem, dest, was, log, bad) && Fresh(cache, dest, was, last, bad)
    ensures Settled(areas, mem, DestAfter(dest, p, seen, how), was[p := false], log,
                    BadAfter(cache, p, how, last, bad))
  {
    hide May, Received, Cached, IsRam, Fresh, LeavesStale;
    var dest', bits, bad' := DestAfter(dest, p, seen, how), was[p := false], BadAfter(cache, p, how, last, bad);
    forall q | 0 <= q < |mem| && IsRam(areas, q) && q !in bad' ensures SettledAt(mem, dest', bits, log, q) {
      assert SettledAt(mem, dest, was, log, q);
      if q == p {
        FreshHere(cache, dest, was, last, bad, p);
        SeenArrives(seen, Cached(cache, p), how, dest[p]);
      }
    }
  }

  /** The bit of a page is lost. */
  lemma DropSettles(areas: seq<Area>, mem: seq<Page>, dest: seq<Page>, was: seq<bool>, log: seq<bool>,
                    cache: seq<Item>, p: nat, last: bool, bad: set<nat>)
    requires p < |mem| == |dest| == |log| == |was|
    requires Settled(areas, mem, dest, was, log, bad) && Fresh(cache, dest, was, last, bad)
    ensures Settled(areas, mem, dest, was[p := false], log, bad + {p})
    ensures Fresh(cache, dest, was[p := false], last, bad + {p})
  {
    hide IsRam, Cached;
    forall q | 0 <= q < |mem| && IsRam(areas, q) && q !in bad + {p}
      ensures SettledAt(mem, dest, was[p := false], log, q)
    {
      assert SettledAt(mem, dest, was, log, q);
    }
  }

  lemma FreshHere(cache: seq<Item>, dest: seq<Page>, bits: seq<bool>, stopped: bool, bad: set<nat>, p: nat)
    requires Fresh(cache, dest, bits, stopped, bad) && p < |dest| == |bits| && p !in bad && bits[p]
    ensures Cached(cache, p).Some? ==> Cached(cache, p).value == dest[p]
  {
    hide Cached;
    assert FreshAt(cache, dest[p], p);
  }

  /** A page that is not sent changes nothing. */
  lemma SkippedKeeps(cache: seq<Item>, dest: seq<Page>, p: nat, seen: Page, how: Sent, last: bool, bad: set<nat>)
    requires p < |dest| && how.Skipped?
    ensures CacheAfter(cache, p, seen, how, last) == cache
    ensures DestAfter(dest, p, seen, how) == dest && BadAfter(cache, p, how, last, bad) == bad
  {}

  /** ... and the cache goes on holding what the destination holds. */
  lemma PageStaysFresh(dest: seq<Page>, was: seq<bool>, cache: seq<Item>, p: nat, seen: Page, how: Sent, last: bool,
                       bad: set<nat>)
    requires p < |dest| == |was| && was[p] && May(seen, Cached(cache, p), how) && Fresh(cache, dest, was, last, bad)
    ensures Fresh(CacheAfter(cache, p, seen, how, last), DestAfter(dest, p, seen, how), was[p := false], last,
                  BadAfter(cache, p, how, last, bad))
  {
    hide May, Received, Cached, CacheAfter, LeavesStale;
    var dest', cache' := DestAfter(dest, p, seen, how), CacheAfter(cache, p, seen, how, last);
    var bits, bad' := was[p := false], BadAfter(cache, p, how, last, bad);
    forall q | 0 <= q < |dest| && q !in bad' && (last ==> bits[q]) ensures FreshAt(cache', dest'[q], q) {
      assert FreshAt(cache, dest[q], q);
      if q == p {
        SeenArrives(seen, Cached(cache, p), how, dest[p]);
        StaleExactly(cache, p, seen, how, dest[p]);
      } else {
        CacheOthers(cache, p, seen, how, last, q);
      }
    }
  }

  // ------------------------------------------------------------------------------ a running guest

  /** The guest has run: every page that differs is in the log. */
  ghost predicate GuestRan(mem: seq<Page>, log: seq<bool>, mem': seq<Page>, log': seq<bool>) {
    && |mem| == |log| == |mem'| == |log'|
    && forall p :: 0 <= p < |mem| ==> (log[p] ==> log'[p]) && (mem'[p] == mem[p] || log'[p])
  }

  lemma GuestRanThen(mem: seq<Page>, log: seq<bool>, mem': seq<Page>, log': seq<bool>, mem'': seq<Page>,
                     log'': seq<bool>)
    requires GuestRan(mem, log, mem', log') && GuestRan(mem', log', mem'', log'')
    ensures GuestRan(mem, log, mem'', log'')
  {}

  lemma GuestKeepsSettled(areas: seq<Area>, mem: seq<Page>, log: seq<bool>, mem': seq<Page>, log': seq<bool>,
                          dest: seq<Page>, bits: seq<bool>, bad: set<nat>)
    requires |mem| == |dest| == |bits| && GuestRan(mem, log, mem', log') && Settled(areas, mem, dest, bits, log, bad)
    ensures Settled(areas, mem', dest, bits, log', bad)
  {
    hide IsRam;
    forall q | 0 <= q < |mem'| && IsRam(areas, q) && q !in bad ensures SettledAt(mem', dest, bits, log', q) {
      assert SettledAt(mem, dest, bits, log, q);
    }
  }

  /** Every page that has become clean equals its cached copy, unless the guest has written it since. */
  ghost predicate ClearedEqual(was: seq<bool>, bits: seq<bool>, cache: seq<Item>, mem: seq<Page>, log: seq<bool>) {
    && |was| == |bits| == |mem| == |log|
    && forall p :: 0 <= p < |was| && was[p] && !bits[p] ==> log[p] || Cached(cache, p) == Some(mem[p])
  }

  lemma ClearedStillEqual(was: seq<bool>, bits: seq<bool>, cache: seq<Item>, mem: seq<Page>, log: seq<bool>,
                          mem': seq<Page>, log': seq<bool>)
    requires ClearedEqual(was, bits, cache, mem, log) && GuestRan(mem, log, mem', log')
    ensures ClearedEqual(was, bits, cache, mem', log')
  {
    hide Cached;
  }

  /** The pages that a call may find equal to their cached copies: with the guest stopped, those that
      are so. */
  ghost function SkipSet(running: bool, cache: seq<Item>, mem: seq<Page>): set<nat> {
    if running then set p: nat | p < |mem| && Cached(cache, p).Some? else Skips(cache, mem)
  }

  lemma SkipSetNone(running: bool, cache: seq<Item>, mem: seq<Page>)
    requires NoneCached(cache)
    ensures SkipSet(running, cache, mem) == {}
  {}

  lemma SkipSetSame(running: bool, cache: seq<Item>, mem: seq<Page>, mem': seq<Page>)
    requires |mem| == |mem'| && (running || mem == mem')
    ensures SkipSet(running, cache, mem) == SkipSet(running, cache, mem')
  {}

  lemma SkipSetHas(running: bool, cache: seq<Item>, mem: seq<Page>, mem': seq<Page>, p: nat, seen: Page, how: Sent)
    requires p < |mem| == |mem'| && (running || (mem == mem' && how == Choice(mem[p], Cached(cache, p))))
    requires May(seen, Cached(cache, p), how) && how.Skipped?
    ensures SkipSet(running, cache, mem) == SkipSet(running, cache, mem') && p in SkipSet(running, cache, mem)
  {
    SkipSetSame(running, cache, mem, mem');
  }

  /** A page that is cleared without being sent. */
  lemma SkippedIsClear(was: seq<bool>, bits: seq<bool>, cache: seq<Item>, mem: seq<Page>, log: seq<bool>, p: nat,
                       seen: Page, how: Sent)
    requires ClearedEqual(was, bits, cache, mem, log) && p < |bits| && (seen == mem[p] || log[p])
    requires May(seen, Cached(cache, p), how) && how.Skipped?
    ensures ClearedEqual(was, bits[p := false], cache, mem, log)
  {
    hide Cached;
  }

  lemma NoneCleared(bits: seq<bool>, cache: seq<Item>, mem: seq<Page>, log: seq<bool>)
    requires |bits| == |mem| == |log|
    ensures ClearedEqual(bits, bits, cache, mem, log)
  {}

  // ------------------------------------------------------------------------------ the last stage

  /** The state when the last stage begins, with the log already read. */
  datatype Start = Start(bits: seq<bool>, mem: seq<Page>, cache: seq<Item>, dest: seq<Page>)

  predicate StartOk(s: Start) { |s.bits| == |s.mem| == |s.dest| }

  /** What the destination ends with for a page, unless its bit is lost. */
  function Ends(s: Start, lost: set<nat>, p: nat): Page
    requires StartOk(s) && p < |s.mem|
  {
    if s.bits[p] && p !in lost then Received(s.dest[p], s.mem[p], Choice(s.mem[p], Cached(s.cache, p)))
    else s.dest[p]
  }

  /** A page that has been dealt with is as it will end; one that has not is as it began. */
  ghost predicate OutcomeAt(s: Start, lost: set<nat>, bits: seq<bool>, cache: seq<Item>, dest: seq<Page>, p: nat)
    requires StartOk(s) && p < |s.mem| == |bits| == |dest|
  {
    if bits[p] then s.bits[p] && dest[p] == s.dest[p] && Cached(cache, p) == Cached(s.cache, p)
    else dest[p] == Ends(s, lost, p)
  }

  ghost predicate Outcome(areas: seq<Area>, s: Start, lost: set<nat>, bits: seq<bool>, cache: seq<Item>,
                          dest: seq<Page>)
  {
    && StartOk(s) && |s.mem| == |bits| == |dest|
    && forall p :: 0 <= p < |bits| && IsRam(areas, p) ==> OutcomeAt(s, lost, bits, cache, dest, p)
  }

  lemma OutcomeStart(areas: seq<Area>, s: Start, lost: set<nat>)
    requires StartOk(s)
    ensures Outcome(areas, s, lost, s.bits, s.cache, s.dest)
  {}

  /** A call that sends one page. */
  lemma OutcomeSent(areas: seq<Area>, s: Start, was: seq<bool>, bits: seq<bool>, cache: seq<Item>, after: seq<Item>,
                    dest: seq<Page>, p: nat)
    requires Outcome(areas, s, {}, was, cache, dest) && p < |bits| == |was| && was[p] && !bits[p] && IsRam(areas, p)
    requires OnlySkipped(was, bits[p := true], Skips(cache, s.mem))
    requires after in {cache, CacheAfter(cache, p, s.mem[p], Choice(s.mem[p], Cached(cache, p)), true)}
    ensures Outcome(areas, s, {}, bits, after, DestAfter(dest, p, s.mem[p], Choice(s.mem[p], Cached(cache, p))))
  {
    hide Choice, Received, Cached, CacheAfter, IsRam, Skips;
    var how := Choice(s.mem[p], Cached(cache, p));
    var dest' := DestAfter(dest, p, s.mem[p], how);
    forall q | 0 <= q < |bits| && IsRam(areas, q) ensures OutcomeAt(s, {}, bits, after, dest', q) {
      assert OutcomeAt(s, {}, was, cache, dest, q);
      if q != p {
        CacheOthers(cache, p, s.mem[p], how, true, q);
        OutcomeKept(s, was, bits[p := true], cache, dest, q);
      }
    }
  }

  /** A page that is not the one sent: its bit may have been cleared, if it equals its cached copy. */
  lemma OutcomeKept(s: Start, was: seq<bool>, bits: seq<bool>, cache: seq<Item>, dest: seq<Page>, q: nat)
    requires StartOk(s) && q < |s.mem| == |was| == |bits| == |dest| && OutcomeAt(s, {}, was, cache, dest, q)
    requires OnlySkipped(was, bits, Skips(cache, s.mem))
    ensures OutcomeAt(s, {}, bits, cache, dest, q)
  {
    hide Choice, Cached;
    if was[q] && !bits[q] {
      assert Choice(s.mem[q], Cached(cache, q)).Skipped?;
    }
  }

  /** A call that sends nothing, and loses nothing. */
  lemma OutcomeNone(areas: seq<Area>, s: Start, was: seq<bool>, bits: seq<bool>, cache: seq<Item>, dest: seq<Page>)
    requires Outcome(areas, s, {}, was, cache, dest) && OnlySkipped(was, bits, Skips(cache, s.mem))
    ensures Outcome(areas, s, {}, bits, cache, dest)
  {
    hide OutcomeAt, Skips, IsRam;
    forall q | 0 <= q < |bits| && IsRam(areas, q) ensures OutcomeAt(s, {}, bits, cache, dest, q) {
      OutcomeKept(s, was, bits, cache, dest, q);
    }
  }

  /** A call that loses the last page, the only one that is dirty. */
  lemma OutcomeLost(areas: seq<Area>, s: Start, lost: set<nat>, bits: seq<bool>)
    requires StartOk(s) && |bits| == |s.bits| && !OtherDirty(s.bits, areas) && AllClear(bits, areas)
    requires forall p: nat :: IsEnd(areas, p) ==> p in lost
    ensures Outcome(areas, s, lost, bits, s.cache, s.dest)
  {
    hide IsRam, IsEnd;
  }

  /** The page arrives.  All of this can be told before the last stage. */
  predicate Arrives(s: Start, lost: set<nat>, p: nat)
    requires StartOk(s) && p < |s.mem|
  {
    if s.bits[p] && p !in lost then
      var cached := Cached(s.cache, p);
      || s.mem[p] == ZERO || cached.None? || !Xbzrle.Fits(cached.value, s.mem[p], 4096)
      || Xbzrle.Agrees(cached.value, s.mem[p], s.dest[p])
    else s.dest[p] == s.mem[p]
  }

  lemma OutcomeEnd(areas: seq<Area>, s: Start, lost: set<nat>, bits: seq<bool>, cache: seq<Item>, dest: seq<Page>)
    requires Outcome(areas, s, lost, bits, cache, dest) && AllClear(bits, areas)
    ensures forall p :: 0 <= p < |s.mem| && IsRam(areas, p) ==>
              dest[p] == Ends(s, lost, p) && (dest[p] == s.mem[p] <==> Arrives(s, lost, p))
  {
    hide Choice, Received, Cached, IsRam, ZERO, Xbzrle.Fits, Xbzrle.Agrees;
    forall p | 0 <= p < |s.mem| && IsRam(areas, p)
      ensures dest[p] == Ends(s, lost, p) && (dest[p] == s.mem[p] <==> Arrives(s, lost, p))
    {
      assert OutcomeAt(s, lost, bits, cache, dest, p);
      DeliversExactly(s.mem[p], Cached(s.cache, p), s.dest[p]);
    }
  }

  ghost predicate SameOnRam(areas: seq<Area>, bits: seq<bool>, other: seq<bool>) {
    |bits| == |other| && forall p :: 0 <= p < |bits| && IsRam(areas, p) ==> bits[p] == other[p]
  }

  /** Only the bits of RAM matter. */
  lemma SameStart(areas: seq<Area>, s: Start, t: Start, lost: set<nat>)
    requires StartOk(s) && t == s.(bits := t.bits) && SameOnRam(areas, s.bits, t.bits)
    ensures OtherDirty(s.bits, areas) <==> OtherDirty(t.bits, areas)
    ensures forall p :: 0 <= p < |s.mem| && IsRam(areas, p) ==>
              Ends(s, lost, p) == Ends(t, lost, p) && (Arrives(s, lost, p) <==> Arrives(t, lost, p))
  {
    hide IsRam, IsEnd, ZERO, Choice, Received, Cached, Xbzrle.Fits, Xbzrle.Agrees;
  }

  /** Once nothing is marked, every page of RAM that is not bad has arrived. */
  lemma NothingLeft(areas: seq<Area>, mem: seq<Page>, dest: seq<Page>, bits: seq<bool>, log: seq<bool>, bad: set<nat>)
    requires |mem| == |dest| == |bits| == |log| && Settled(areas, mem, dest, bits, log, bad)
    requires AllClear(bits, areas) && AllClear(log, areas)
    ensures forall p :: 0 <= p < |mem| && IsRam(areas, p) && p !in bad ==> dest[p] == mem[p]
  {
    hide IsRam;
    forall p | 0 <= p < |mem| && IsRam(areas, p) && p !in bad ensures dest[p] == mem[p] {
      assert SettledAt(mem, dest, bits, log, p);
    }
  }
}
