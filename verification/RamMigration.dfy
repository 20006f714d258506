/**
 * Live migration of RAM (arch_init.c): the dirty log and the migration bitmap, the first pass, the
 * cache of pages sent, and the last stage with the guest stopped.
 */
module RamMigration {
  import opened Octets
  import opened RamPages
  import opened RamScan
  import opened RamStream
  import opened Wrappers
  import Xbzrle

  ghost predicate Quiet(log: seq<bool>, a: Area, n: nat) {
    forall p :: a.base <= p < a.base + n && p < |log| ==> !log[p]
  }

  /** Bits only move from the log to the bitmap. */
  ghost predicate Moved(bits0: seq<bool>, log0: seq<bool>, bits: seq<bool>, log: seq<bool>) {
    && |bits0| == |log0| == |bits| == |log|
    && forall p :: 0 <= p < |bits| ==> (log[p] ==> log0[p]) && (bits[p] <==> bits0[p] || (log0[p] && !log[p]))
  }

  /** What a call of ram_save_block may change, as it was before. */
  datatype Before = Before(bits: seq<bool>, cache: seq<Item>, dest: seq<Page>, bad: set<nat>, sent: seq<Record>)

  /** How a page was dealt with: the copy of it that counted, and what was done. */
  datatype Dealt = Dealt(seen: Page, how: Sent)

  class RamState {
    const areas: seq<Area>
    const useXbzrle: bool
    var mem: seq<Page>
    /** Pages the guest has written since the log was last read. */
    var log: seq<bool>

    var bitmap: seq<bool>
    var dirtyPages: int
    var bulk: bool
    var lastSeen: Option<nat>
    var lastOffset: nat
    var cache: seq<Item>
    var sent: seq<Record>

    ghost const dest0: seq<Page>
    ghost var dest: seq<Page>
    /** The pages that were sent as zero over a cached copy, and the last page if it was dropped. */
    ghost var bad: set<nat>

    ghost predicate Shape()
      reads `mem, `log, `bitmap, `dest, `cache
    {
      && AreasOk(areas, |mem|) && |log| == |bitmap| == |dest| == |mem| == |dest0|
      && (useXbzrle <==> cache != [])
    }

    ghost predicate Cursor()
      reads `bulk, `lastSeen, `lastOffset
    {
      match lastSeen
      case None => bulk && lastOffset == 0
      case Some(b) => b < |areas| && lastOffset <= areas[b].pages && (bulk ==> lastOffset < areas[b].pages)
    }

    ghost predicate Counted()
      reads `bitmap, `dirtyPages
    {
      dirtyPages == Count(bitmap)
    }

    ghost predicate Bulk()
      reads `bulk, `bitmap, `lastSeen, `lastOffset, `cache
    {
      bulk ==> Ahead(bitmap, areas, lastSeen, lastOffset) && NoneCached(cache)
    }

    /** The destination is what the loader makes of the records. */
    ghost predicate Replayed()
      reads `sent, `dest
    {
      ApplyAll(areas, dest0, sent) == Some(dest) && forall i :: 0 <= i < |sent| ==> RecordFits(areas, sent[i])
    }

    ghost predicate Sound(stopped: bool)
      reads `bad, `mem, `dest, `bitmap, `log, `cache
    {
      SoundFor(bitmap, stopped)
    }

    /** ... with the given bits for the bitmap. */
    ghost predicate SoundFor(bits: seq<bool>, stopped: bool)
      reads `bad, `mem, `dest, `log, `cache
    {
      Settled(areas, mem, dest, bits, log, bad) && Fresh(cache, dest, bits, stopped, bad)
    }

    ghost predicate Valid(stopped: bool)
      reads this
    {
      Shape() && Cursor() && Counted() && Bulk() && Replayed() && Sound(stopped)
    }

    ghost function Now(): Before
      reads `bitmap, `cache, `dest, `bad, `sent
    {
      Before(bitmap, cache, dest, bad, sent)
    }

    /** ram_save_setup, before the first synchronisation of the log. */
    constructor (areas: seq<Area>, mem: seq<Page>, log: seq<bool>, slots: nat, dest: seq<Page>)
      requires AreasOk(areas, |mem|) && |log| == |mem| == |dest|
      ensures Valid(false) && bad == {} && this.areas == areas && this.mem == mem && this.log == log
      ensures lastSeen.None? && |cache| == slots && NoneCached(cache)
      ensures forall p :: 0 <= p < |mem| ==> bitmap[p]
    {
      this.areas, this.mem, this.log, this.useXbzrle := areas, mem, log, slots > 0;
      bitmap := seq(|mem|, _ => true);
      dirtyPages := |mem|;
      bulk, lastSeen, lastOffset := true, None, 0;
      cache := seq(slots, _ => Empty);
      sent, dest0, this.dest, bad := [], dest, dest, {};
      new;
      CountFull(bitmap);
    }

    /** The guest writes a page. */
    method GuestWrite(p: nat, page: Page)
      requires Valid(false) && p < |mem|
      modifies `mem, `log
      ensures Valid(false) && mem == old(mem)[p := page] && log == old(log)[p := true]
    {
      hide Count, IsRam, Ahead, Fresh;
      mem := mem[p := page];
      log := log[p := true];
      forall q | 0 <= q < |mem| && IsRam(areas, q) && q !in bad ensures SettledAt(mem, dest, bitmap, log, q) {
        assert old(SettledAt(mem, dest, bitmap, log, q));
      }
    }

    /** migration_bitmap_set_dirty */
    method SetDirty(p: nat)
      requires p < |bitmap| && Counted()
      modifies `bitmap, `dirtyPages
      ensures Counted() && bitmap == old(bitmap)[p := true]
    {
      CountUpdate(bitmap, p, true);
      var was := bitmap[p];
      bitmap := bitmap[p := true];
      if !was {
        dirtyPages := dirtyPages + 1;
      }
    }

    /** One page of migration_bitmap_sync. */
    method SyncPage(p: nat)
      requires Valid(false) && p < |mem|
      modifies `log, `bitmap, `dirtyPages
      ensures Valid(false)
      ensures log == old(log)[p := false] && bitmap == old(bitmap)[p := bitmap[p]]
      ensures bitmap[p] == (old(bitmap)[p] || old(log)[p])
    {
      hide Count, IsRam, ApplyAll;
      if log[p] {
        log := log[p := false];
        SetDirty(p);
        forall q | 0 <= q < |mem| && IsRam(areas, q) && q !in bad ensures SettledAt(mem, dest, bitmap, log, q) {
          assert old(SettledAt(mem, dest, bitmap, log, q));
        }
      }
    }

    /** migration_bitmap_sync */
    method Sync()
      requires Valid(false)
      modifies `log, `bitmap, `dirtyPages
      ensures Valid(false)
      ensures AllClear(log, areas) && SameOnRam(areas, Merged(old(bitmap), old(log)), bitmap)
    {
      hide Cursor, Counted, Bulk, Replayed, Sound;
      var b := 0;
      while b < |areas|
        invariant 0 <= b <= |areas| && Valid(false)
        invariant forall c :: 0 <= c < b ==> Quiet(log, areas[c], areas[c].pages)
        invariant Moved(old(bitmap), old(log), bitmap, log)
      {
        var o := 0;
        while o < areas[b].pages
          invariant 0 <= o <= areas[b].pages && Valid(false)
          invariant forall c :: 0 <= c < b ==> Quiet(log, areas[c], areas[c].pages)
          invariant Quiet(log, areas[b], o)
          invariant Moved(old(bitmap), old(log), bitmap, log)
        {
          SyncPage(areas[b].base + o);
          o := o + 1;
        }
        b := b + 1;
      }
    }

    /** The guest has run since `mem` and `log` were as given, if it is running. */
    ghost predicate Ran(running: bool, mem0: seq<Page>, log0: seq<bool>)
      reads `mem, `log
    {
      GuestRan(mem0, log0, mem, log) && (running || (mem == mem0 && log == log0))
    }

    /** A running guest writes pages while the migration thread is at work. */
    method GuestRuns(running: bool)
      requires |mem| == |log|
      modifies `mem, `log
      ensures Ran(running, old(mem), old(log))
    {
      var writes: int := *;
      for i := 0 to if running && writes > 0 then writes else 0
        invariant GuestRan(old(mem), old(log), mem, log) && (running || (mem == old(mem) && log == old(log)))
      {
        var p: nat, page: Page := *, *;
        if p < |mem| {
          mem, log := mem[p := page], log[p := true];
        }
      }
    }

    /** A copy of a page; if the guest writes to it meanwhile the copy can be anything. */
    method ReadPage(p: nat, running: bool) returns (page: Page)
      requires p < |mem| == |log|
      modifies `mem, `log
      ensures Ran(running, old(mem), old(log)) && (page == mem[p] || (running && log[p]))
    {
      GuestRuns(running);
      page := mem[p];
      if running && log[p] {
        page := *;
      }
    }

    /** What was seen of the page is what it holds, or the guest has written it; unless the guest has, it
        is dealt with exactly as follows from the page. */
    ghost predicate Fair(running: bool, cache0: seq<Item>, p: nat, d: Dealt)
      reads `mem, `log
    {
      && p < |mem| == |log| && May(d.seen, Cached(cache0, p), d.how) && (d.seen == mem[p] || log[p])
      && ((running && log[p]) || d == Dealt(mem[p], Choice(mem[p], Cached(cache0, p))))
    }

    /** save_xbzrle_page, up to the choice of what to send.  What is sent is what the cache holds, even
        if the page is written meanwhile; in the last stage, where a page may be sent that is not
        cached, the guest is stopped. */
    method SaveXbzrlePage(p: nat, last: bool, running: bool) returns (d: Dealt)
      requires last ==> !running
      requires p < |mem| == |log| && cache != [] && ((running && log[p]) || mem[p] != ZERO)
      modifies `cache, `mem, `log
      ensures Ran(running, old(mem), old(log)) && Fair(running, old(cache), p, d)
      ensures cache == CacheAfter(old(cache), p, d.seen, d.how, last)
    {
      hide Slot, ZERO, Repeat, Xbzrle.Enc;
      var prev := Cached(cache, p);
      var page := ReadPage(p, running);
      if prev.None? {
        if !last {
          cache := Insert(cache, p, page);
        }
        return Dealt(page, Whole);
      }
      var buf := new Byte[4096];
      var n := Xbzrle.EncodeBuffer(prev.value, page, buf);
      Xbzrle.EmptyMeansSame(prev.value, page);
      if n == 0 { return Dealt(page, Skipped); }
      if n == -1 {
        ghost var mem1, log1 := mem, log;
        page := ReadPage(p, running);
        GuestRanThen(old(mem), old(log), mem1, log1, mem, log);
        cache := Insert(cache, p, page);
        return Dealt(page, Whole);
      }
      if !last {
        cache := Insert(cache, p, page);
      }
      return Dealt(page, Changes(buf[..n]));
    }

    /** How a page is to be sent; updates the cache, which the first pass does not use. */
    method ChoosePage(p: nat, last: bool, running: bool) returns (d: Dealt)
      requires last ==> !running
      requires Shape() && p < |mem| && (bulk ==> Cached(cache, p) == None)
      modifies `cache, `mem, `log
      ensures Ran(running, old(mem), old(log)) && Fair(running, old(cache), p, d)
      ensures cache == if bulk then old(cache) else CacheAfter(old(cache), p, d.seen, d.how, last)
      ensures d.how.Skipped? ==> cache == old(cache)
    {
      hide Slot, ZERO, Repeat, Xbzrle.Fits, Xbzrle.Enc;
      var page := ReadPage(p, running);
      if page == ZERO {
        return Dealt(page, ZeroPage);
      }
      ghost var mem1, log1 := mem, log;
      if !bulk && useXbzrle {
        d := SaveXbzrlePage(p, last, running);
      } else {
        page := ReadPage(p, running);
        d := Dealt(page, Whole);
      }
      GuestRanThen(old(mem), old(log), mem1, log1, mem, log);
    }

    ghost predicate NoneInBulk()
      reads `bulk, `cache
    {
      bulk ==> NoneCached(cache)
    }

    /** What the loop of ram_save_block keeps. */
    ghost predicate Steady()
      reads `mem, `log, `bitmap, `dest, `cache, `dirtyPages, `sent, `bulk
    {
      Shape() && Counted() && Replayed() && NoneInBulk()
    }

    /** The page at `offset` in `block` was dirty and is no more, and one record for it was sent: the
        cache and the destination are those that follow. */
    ghost predicate SentOne(was: Before, block: nat, offset: nat, last: bool, d: Dealt)
      reads `mem, `bitmap, `bulk, `cache, `sent, `dest, `bad
    {
      && block < |areas| && offset < areas[block].pages
      && (var p := areas[block].base + offset;
          && p < |mem| == |bitmap| == |was.bits| == |was.dest| && was.bits[p] && !bitmap[p]
          && SentPage(was, block, offset, p, last, d))
    }

    ghost predicate SentPage(was: Before, block: nat, offset: nat, p: nat, last: bool, d: Dealt)
      requires p < |was.dest|
      reads `bulk, `cache, `sent, `dest, `bad
    {
      && !d.how.Skipped? && sent == was.sent + [RecordFor(block, offset, d.seen, d.how)]
      && dest == DestAfter(was.dest, p, d.seen, d.how)
      && bad == BadAfter(was.cache, p, d.how, last, was.bad)
      && cache == if bulk then was.cache else CacheAfter(was.cache, p, d.seen, d.how, last)
    }

    /** The part of ram_save_block that deals with one page, whose bit has just been cleared; whether
        anything was sent. */
    method SavePage(b: nat, offset: nat, last: bool, running: bool, ghost was: seq<bool>)
      returns (bytes: bool, ghost d: Dealt)
      requires last ==> !running
      requires Steady() && b < |areas| && offset < areas[b].pages && |was| == |bitmap|
      requires var p := areas[b].base + offset; bitmap == was[p := false] && was[p]
      requires SoundFor(was, last)
      modifies `cache, `sent, `dest, `bad, `mem, `log
      ensures Steady() && Sound(last) && Ran(running, old(mem), old(log))
      ensures var p := areas[b].base + offset;
              && Fair(running, old(cache), p, d) && (bytes <==> !d.how.Skipped?)
              && if bytes then SentPage(old(Now()), b, offset, p, last, d) else Now() == old(Now())
    {
      hide Counted, AreasOk, Settled, Fresh, ZERO, Choice, May, Received, Apply, ApplyAll, RecordFor, RecordFits;
      hide CacheAfter, BadAfter, Cached;
      AreaInside(areas, |mem|, b);
      var p := areas[b].base + offset;
      assert bulk ==> Cached(cache, p) == None;
      var dealt := ChoosePage(p, last, running);
      d, bytes := dealt, !dealt.how.Skipped?;
      GuestKeepsSettled(areas, old(mem), old(log), mem, log, dest, was, bad);
      PageSettles(areas, mem, dest, was, log, old(cache), p, d.seen, d.how, last, bad);
      PageStaysFresh(dest, was, old(cache), p, d.seen, d.how, last, bad);
      if bytes {
        RecordApplies(areas, dest, b, offset, d.seen, Cached(old(cache), p), d.how);
        ApplyAppend(areas, dest0, sent, RecordFor(b, offset, d.seen, d.how));
        sent := sent + [RecordFor(b, offset, dealt.seen, dealt.how)];
        dest, bad := DestAfter(dest, p, d.seen, d.how), BadAfter(old(cache), p, d.how, last, bad);
        if bulk {
          FreshNone(cache, dest, bitmap, last, bad);
        }
      } else {
        SkippedKeeps(old(cache), dest, p, d.seen, d.how, last, bad);
      }
    }

    /** migration_bitmap_find_and_reset_dirty, in pages. */
    method FindAndReset(b: nat, start: nat) returns (r: nat)
      requires Counted() && AreasOk(areas, |bitmap|) && b < |areas| && start <= areas[b].pages
      requires bulk && start > 0 ==> start < areas[b].pages && Full(bitmap, areas[b], start + 1)
      modifies `bitmap, `dirtyPages
      ensures Counted() && Found(old(bitmap), bitmap, areas[b], start, r)
      ensures dirtyPages == old(dirtyPages) - if r < areas[b].pages then 1 else 0
      ensures if bulk && start > 0 then r == start + 1 else Clear(old(bitmap), areas[b], start, r)
    {
      hide Count;
      var base := areas[b].base;
      var nr, size := base + start, base + areas[b].pages;
      var next;
      if bulk && nr > base {
        next := nr + 1;
      } else {
        next := FindNextBit(bitmap, size, nr);
      }
      if next < size {
        CountUpdate(bitmap, next, false);
        bitmap := bitmap[next := false];
        dirtyPages := dirtyPages - 1;
      }
      r := next - base;
    }

    /** The number of the very last page of RAM. */
    function End(): (p: nat)
      requires AreasOk(areas, |mem|)
      reads `mem
      ensures p < |mem| && IsEnd(areas, p) && IsRam(areas, p)
    {
      var a := areas[|areas| - 1];
      assert In(a, a.base + a.pages - 1);
      a.base + a.pages - 1
    }

    /** The cursor of the first pass is on the very last page, and not at the start of its block. */
    ghost predicate AtEnd()
      reads `bulk, `lastSeen, `lastOffset
    {
      && bulk && areas != [] && lastSeen == Some(|areas| - 1)
      && lastOffset > 0 && lastOffset + 1 == areas[|areas| - 1].pages
    }

    /** The first pass has just sent the very last page, which the guest has written again since. */
    ghost predicate EndWrittenAgain()
      requires Shape()
      reads this
    {
      AtEnd() && bitmap[End()]
    }

    /** How the loop of ram_save_block ends. */
    ghost predicate Done(k: Scan, was: Before, bytes: bool, at: Place, last: bool, d: Dealt)
      requires Shape()
      reads `mem, `log, `bitmap, `bulk, `cache, `sent, `dest, `bad
    {
      && at.block < |areas| && at.offset <= areas[at.block].pages
      && (bulk ==> at.offset < areas[at.block].pages && Ahead(bitmap, areas, Some(at.block), at.offset))
      && (EndAgain(k, areas) ==> (bytes <==> OtherDirty(k.bits, areas)))
      && (k.bulk && bytes && at.block == k.seen && at.offset >= k.lo ==> bulk)
      && (k.seen == -1 ==> bulk && bytes && at.block == 0 && at.offset == 0)
      && (bytes ==> InOrder(k, areas, bitmap, bulk, at))
      && (if bytes then SentOne(was, at.block, at.offset, last, d) && Others(k, was, at.block, at.offset)
          else !bulk && AllClear(bitmap, areas) && SentNone(k, was))
    }

    /** Apart from the page sent, only pages that need not be sent have become clean. */
    ghost predicate Others(k: Scan, was: Before, block: nat, offset: nat)
      reads `mem, `log, `bitmap
    {
      && block < |areas| && areas[block].base + offset < |bitmap|
      && (var bits := bitmap[areas[block].base + offset := true];
          OnlySkipped(k.bits, bits, k.skip) && ClearedEqual(k.bits, bits, was.cache, mem, log))
    }

    ghost predicate SentNone(k: Scan, was: Before)
      requires Shape()
      reads `mem, `log, `bitmap, `cache, `sent, `dest, `bad
    {
      && sent == was.sent && dest == was.dest && cache == was.cache
      && bad == (if EndAgain(k, areas) then was.bad + {End()} else was.bad)
      && (!EndAgain(k, areas) ==>
            OnlySkipped(k.bits, bitmap, k.skip) && ClearedEqual(k.bits, bitmap, was.cache, mem, log))
    }

    /** Nothing has been sent since the call began; some bits may have been cleared, leaving `bits`. */
    ghost predicate NotYet(k: Scan, was: Before, running: bool, bits: seq<bool>)
      reads `mem, `log, `bitmap, `cache, `sent, `dest, `bad
    {
      && was.bits == k.bits && k.skip == SkipSet(running, was.cache, mem) && Now() == was.(bits := bitmap)
      && ClearedEqual(k.bits, bits, was.cache, mem, log)
    }

    /** The scan, which was at `at` with the bitmap `bits`, has stopped at `r`. */
    ghost predicate FoundAt(k: Scan, was: Before, running: bool, last: bool, bits: seq<bool>, at: Place, r: nat)
      reads this
    {
      && Steady() && SoundFor(bits, last) && At(k, areas, bits, bulk, at) && NotYet(k, was, running, bits)
      && at.block < |areas| && Found(bits, bitmap, areas[at.block], at.offset, r)
      && Stops(bits, bulk, areas[at.block], at, r)
    }

    /** What the loop of ram_save_block starts from. */
    ghost predicate Scanning(k: Scan, was: Before, running: bool, at: Place)
      reads `mem, `log, `bitmap, `bulk, `cache, `sent, `dest, `bad, `lastSeen, `lastOffset
    {
      Began(k) && At(k, areas, bitmap, bulk, at) && NotYet(k, was, running, bitmap)
    }

    /** The cursor is where the call found it. */
    ghost predicate Began(k: Scan)
      reads `lastSeen, `lastOffset
    {
      && k.seen == (if lastSeen.None? then -1 else lastSeen.value) && k.lo == lastOffset
      && (lastSeen.Some? ==> lastSeen.value < |areas| && lastOffset <= areas[lastSeen.value].pages)
    }

    /** The page found is dealt with. */
    method TakePage(r: nat, last: bool, running: bool, at: Place, ghost k: Scan, ghost was: Before,
                    ghost bits: seq<bool>)
      returns (bytes: bool, ghost d: Dealt)
      requires last ==> !running
      requires FoundAt(k, was, running, last, bits, at, r) && r < areas[at.block].pages
      modifies `cache, `sent, `dest, `bad, `mem, `log
      ensures Steady() && Sound(last) && Ran(running, old(mem), old(log))
      ensures bytes ==> SentOne(was, at.block, r, last, d) && Others(k, was, at.block, r)
      ensures bytes ==> Fair(running, was.cache, areas[at.block].base + r, d)
      ensures bytes && bulk ==> Ahead(bitmap, areas, Some(at.block), r)
      ensures !bytes ==> !bulk && At(k, areas, bitmap, bulk, at.(offset := r)) && NotYet(k, was, running, bitmap)
    {
      hide Count, Settled, Fresh, Ahead, At, AreasOk, NoneCached, ApplyAll, Stops, GuestRan, ClearedEqual, SkipSet;
      hide Choice, May, Cached, RecordFor, DestAfter, BadAfter, CacheAfter;
      AtFind(k, areas, bits, bulk, at);
      TakeOne(k, areas, bits, bitmap, at, r);
      bytes, d := SavePage(at.block, r, last, running, bits);
      ClearedStillEqual(k.bits, bits, was.cache, old(mem), old(log), mem, log);
      if bytes {
        assert bitmap[areas[at.block].base + r := true] == bits;
        if bulk {
          AtSent(k, areas, bits, bitmap, at, r);
        }
      } else {
        SkippedIsClear(k.bits, bits, was.cache, mem, log, areas[at.block].base + r, d.seen, d.how);
        SkipSetHas(running, was.cache, old(mem), mem, areas[at.block].base + r, d.seen, d.how);
        if bulk {
          SkipSetNone(running, cache, mem);
        }
        AtSkip(k, areas, bits, bitmap, bulk, at, r);
      }
    }

    /** The turn of ram_save_block that deals with the page it has found. */
    method TakeTurn(r: nat, last: bool, running: bool, at: Place, ghost k: Scan, ghost was: Before,
                    ghost bits: seq<bool>)
      returns (bytes: bool, ghost d: Dealt)
      requires last ==> !running
      requires FoundAt(k, was, running, last, bits, at, r) && Began(k) && r < areas[at.block].pages
      requires at.complete && at.block == k.seen ==> r < k.lo
      modifies `cache, `sent, `dest, `bad, `mem, `log
      ensures Steady() && Sound(last) && Ran(running, old(mem), old(log))
      ensures if bytes then Done(k, was, true, at.(offset := r), last, d)
              else Scanning(k, was, running, at.(offset := r))
      ensures bytes ==> Fair(running, was.cache, areas[at.block].base + r, d)
    {
      hide Count, AreasOk, Settled, Fresh, Ahead, At, OnlySkipped, NoneCached, EndAgain, OtherDirty, SkipSet;
      hide Replayed, SentOne, Others, Full, Clear, ClearedEqual, Fair, Ran, InOrder;
      AtFind(k, areas, bits, bulk, at);
      if bulk && at.block != k.seen {
        FullFirst(bits, areas, at.block, r);
      }
      if EndAgain(k, areas) {
        EndNotSent(k, areas, bits, bulk, at, r);
      }
      AtOrder(k, areas, bits, bitmap, bulk, at, r);
      bytes, d := TakePage(r, last, running, at, k, was, bits);
    }

    /** Back at the cursor, with nothing to send: if the bit there was set, it is lost. */
    ghost method GiveUp(r: nat, last: bool, at: Place, k: Scan, was: Before, running: bool, bits: seq<bool>, d: Dealt)
      requires FoundAt(k, was, running, last, bits, at, r)
      requires at.complete && k.seen == at.block && k.lo <= r
      modifies `bad
      ensures Steady() && Sound(last) && Done(k, was, false, at.(offset := r), last, d)
    {
      hide Count, AreasOk, Settled, Fresh, Ahead, At, AllClear, OnlySkipped, NoneCached, EndAgain, OtherDirty, SkipSet;
      hide Replayed, Clear, ClearedEqual, InOrder;
      AtFind(k, areas, bits, bulk, at);
      AtBreak(k, areas, bits, bitmap, bulk, at, r);
      if r < areas[at.block].pages {
        DropSettles(areas, mem, dest, bits, log, cache, End(), last, bad);
        bad := bad + {End()};
      }
    }

    /** The end of a block, or of the list: the first pass is then over. */
    method MoveOn(r: nat, last: bool, at: Place, ghost k: Scan, ghost was: Before, running: bool, ghost bits: seq<bool>)
      returns (next: Place)
      requires FoundAt(k, was, running, last, bits, at, r) && Began(k) && r >= areas[at.block].pages
      requires at.complete ==> at.block < k.seen
      modifies `bulk
      ensures Steady() && Sound(last) && Scanning(k, was, running, next) && (bulk ==> old(bulk))
      ensures (next.complete && !at.complete) || (next.complete == at.complete && at.block < next.block < |areas|)
    {
      hide Count, AreasOk, Settled, Fresh, At, NoneCached, SkipSet, ClearedEqual, Replayed;
      AtFind(k, areas, bits, bulk, at);
      AtMove(k, areas, bitmap, bulk, at);
      next := NextPlace(areas, at);
      bulk := bulk && at.block + 1 < |areas|;
    }

    /** The scan for the next dirty page. */
    method FindPage(last: bool, at: Place, ghost k: Scan, ghost was: Before, running: bool) returns (r: nat)
      requires Steady() && Sound(last) && Scanning(k, was, running, at)
      modifies `bitmap, `dirtyPages
      ensures FoundAt(k, was, running, last, old(bitmap), at, r) && Began(k) && at.block < |areas|
      ensures 0 <= dirtyPages == old(dirtyPages) - if r < areas[at.block].pages then 1 else 0
      ensures at.complete ==> at.block <= k.seen
      ensures k.seen == -1 ==> !at.complete
    {
      hide AreasOk, Settled, Fresh, At, NoneCached, SkipSet, ClearedEqual, Replayed, Full, Clear;
      AtFind(k, areas, bitmap, bulk, at);
      r := FindAndReset(at.block, at.offset);
    }

    /** One turn of the loop of ram_save_block. */
    method Turn(last: bool, running: bool, at: Place, ghost k: Scan, ghost was: Before)
      returns (done: bool, bytes: bool, next: Place, ghost d: Dealt)
      requires last ==> !running
      requires Steady() && Sound(last) && Scanning(k, was, running, at)
      modifies `bitmap, `dirtyPages, `bulk, `cache, `sent, `dest, `bad, `mem, `log
      ensures Steady() && Sound(last) && 0 <= dirtyPages <= old(dirtyPages) && (bulk ==> old(bulk))
      ensures Ran(running, old(mem), old(log)) && (bytes ==> done && dirtyPages < old(dirtyPages))
      ensures if done then Done(k, was, bytes, next, last, d) else Scanning(k, was, running, next)
      ensures bytes ==> next.block < |areas| && Fair(running, was.cache, areas[next.block].base + next.offset, d)
      ensures !done ==> || dirtyPages < old(dirtyPages) || (next.complete && !at.complete)
                        || (next.complete == at.complete && at.block < next.block < |areas|)
    {
      hide Shape, Counted, Replayed, NoneInBulk, Sound, Done, Scanning, FoundAt, Fair, GuestRan;
      ghost var bits := bitmap;
      Sizes();
      GuestIdle();
      var r := FindPage(last, at, k, was, running);
      d, done, bytes, next := Dealt(ZERO, Skipped), true, false, at.(offset := r);
      if at.complete && lastSeen == Some(at.block) && r >= lastOffset {
        GiveUp(r, last, at, k, was, running, bits, d);
      } else if r >= areas[at.block].pages {
        next := MoveOn(r, last, at, k, was, running, bits);
        done := false;
      } else {
        bytes, d := TakeTurn(r, last, running, at, k, was, bits);
        done := bytes;
      }
    }

    lemma Sizes()
      requires Steady()
      ensures Shape() && |mem| == |log|
    {}

    lemma GuestIdle()
      requires |mem| == |log|
      ensures GuestRan(mem, log, mem, log)
    {}

    /** The loop of ram_save_block. */
    method ScanOn(last: bool, running: bool, from: Place, ghost k: Scan, ghost was: Before)
      returns (bytes: bool, at: Place, ghost d: Dealt)
      requires last ==> !running
      requires Steady() && Sound(last) && Scanning(k, was, running, from)
      modifies `bitmap, `dirtyPages, `bulk, `cache, `sent, `dest, `bad, `mem, `log
      ensures Steady() && Sound(last) && (bulk ==> old(bulk)) && Ran(running, old(mem), old(log))
      ensures Done(k, was, bytes, at, last, d) && (bytes ==> dirtyPages < old(dirtyPages))
      ensures bytes ==> Fair(running, was.cache, areas[at.block].base + at.offset, d)
    {
      hide Shape, Counted, Replayed, NoneInBulk, Sound, Done, At, NotYet, Fair, GuestRan;
      assert Shape() && |mem| == |log| by { Sizes(); }
      GuestIdle();
      at, bytes, d := from, false, Dealt(ZERO, Skipped);
      var done := false;
      while !done
        invariant Steady() && Sound(last) && dirtyPages <= old(dirtyPages) && (bulk ==> old(bulk))
        invariant Ran(running, old(mem), old(log))
        invariant if done then Done(k, was, bytes, at, last, d) else Scanning(k, was, running, at)
        invariant bytes ==> done && dirtyPages < old(dirtyPages)
        invariant bytes ==> at.block < |areas| && Fair(running, was.cache, areas[at.block].base + at.offset, d)
        decreases !done, dirtyPages, if at.complete then 0 else 1, |areas| - at.block
        modifies `bitmap, `dirtyPages, `bulk, `cache, `sent, `dest, `bad, `mem, `log
      {
        ghost var mem1, log1 := mem, log;
        done, bytes, at, d := Turn(last, running, at, k, was);
        GuestRanThen(old(mem), old(log), mem1, log1, mem, log);
      }
    }

    /** ram_save_block: sends one page, or finds that there is none to send, while the guest may be
        running. */
    method SaveBlock(last: bool, running: bool) returns (bytes: bool, ghost d: Dealt)
      requires last ==> !running
      requires Valid(last)
      modifies `bitmap, `dirtyPages, `bulk, `lastSeen, `lastOffset, `cache, `sent, `dest, `bad, `mem, `log
      ensures Valid(last) && lastSeen.Some? && (bulk ==> bytes && old(bulk)) && Ran(running, old(mem), old(log))
      ensures bytes ==> dirtyPages < old(dirtyPages) && SentOne(old(Now()), lastSeen.value, lastOffset, last, d)
      ensures bytes ==> var p := areas[lastSeen.value].base + lastOffset;
                && Fair(running, old(cache), p, d)
                && OnlySkipped(old(bitmap), bitmap[p := true], SkipSet(running, old(cache), mem))
                && ClearedEqual(old(bitmap), bitmap[p := true], old(cache), mem, log)
      ensures bytes ==> exists complete ::
                InOrder(old(Scan(bitmap, bulk, if lastSeen.None? then -1 else lastSeen.value, lastOffset,
                                 SkipSet(running, cache, mem))),
                        areas, bitmap, bulk, Place(complete, lastSeen.value, lastOffset))
      ensures !bytes ==> AllClear(bitmap, areas) && sent == old(sent) && dest == old(dest) && cache == old(cache)
      ensures !bytes ==> bad == if old(EndWrittenAgain()) then old(bad) + {End()} else old(bad)
      ensures !bytes && !old(EndWrittenAgain()) ==>
                && OnlySkipped(old(bitmap), bitmap, SkipSet(running, cache, mem))
                && ClearedEqual(old(bitmap), bitmap, cache, mem, log)
      ensures old(EndWrittenAgain()) ==> (bytes <==> OtherDirty(old(bitmap), areas))
      ensures old(lastSeen).None? ==> bytes && bulk && lastSeen == Some(0) && lastOffset == 0
      ensures old(bulk) && bytes && lastSeen == old(lastSeen) && lastOffset >= old(lastOffset) ==> bulk
    {
      hide Count, Replayed, Sound, Ahead, At, AreasOk, AllClear, OnlySkipped, NoneCached, OtherDirty, SkipSet;
      hide SentOne, ClearedEqual, Fair, GuestRan, InOrder;
      var at := Place(false, if lastSeen.None? then 0 else lastSeen.value, lastOffset);
      ghost var was, skip := Now(), SkipSet(running, cache, mem);
      ghost var k := Scan(bitmap, bulk, if lastSeen.None? then -1 else lastSeen.value, lastOffset, skip);
      if bulk {
        SkipSetNone(running, cache, mem);
      }
      NoneCleared(bitmap, cache, mem, log);
      AtStart(k, areas, lastSeen);
      bytes, at, d := ScanOn(last, running, at, k, was);
      SkipSetSame(running, was.cache, old(mem), mem);
      assert bytes ==> InOrder(k, areas, bitmap, bulk, Place(at.complete, at.block, at.offset));
      lastSeen, lastOffset := Some(at.block), at.offset;
    }

    /** The page whose bit the next call will lose, if it will lose one. */
    ghost function Loses(): set<nat>
      requires Shape()
      reads this
    {
      if EndWrittenAgain() && !OtherDirty(bitmap, areas) then {End()} else {}
    }

    /** One call of ram_save_block in the last stage. */
    method LastBlock(ghost s: Start) returns (bytes: bool)
      requires Valid(true) && s.mem == mem && Outcome(areas, s, {}, bitmap, cache, dest)
      requires Loses() != {} ==> s == Start(bitmap, mem, cache, dest)
      modifies `bitmap, `dirtyPages, `bulk, `lastSeen, `lastOffset, `cache, `sent, `dest, `bad, `mem, `log
      ensures Valid(true) && bad == old(bad) + old(Loses()) && mem == old(mem) && log == old(log)
      ensures bytes ==> dirtyPages < old(dirtyPages) && old(Loses()) == {} && Loses() == {}
      ensures bytes ==> Outcome(areas, s, {}, bitmap, cache, dest)
      ensures !bytes ==> AllClear(bitmap, areas) && Outcome(areas, s, old(Loses()), bitmap, cache, dest)
    {
      hide AreasOk, Counted, Bulk, Replayed, Sound, AllClear, OtherDirty, OnlySkipped, Outcome, Skips, Choice, Cached;
      hide DestAfter, CacheAfter, RecordFor;
      ghost var before := Now();
      ghost var d;
      bytes, d := SaveBlock(true, false);
      if bytes {
        var p := areas[lastSeen.value].base + lastOffset;
        assert In(areas[lastSeen.value], p);
        OutcomeSent(areas, s, before.bits, bitmap, before.cache, cache, before.dest, p);
      } else if old(EndWrittenAgain()) {
        OutcomeLost(areas, s, {End()}, bitmap);
      } else {
        OutcomeNone(areas, s, before.bits, bitmap, cache, dest);
      }
    }

    /** The state from which the last stage starts: whatever the log holds is dirty too. */
    ghost function Stopped(): Start
      requires Shape()
      reads `mem, `log, `bitmap, `dest, `cache
    {
      Start(Merged(bitmap, log), mem, cache, dest)
    }

    /** The last stage will lose the very last page: the first pass has just sent it, the guest has
        written it again, and nothing else is dirty. */
    ghost predicate EndDrops()
      requires Shape()
      reads this
    {
      AtEnd() && (bitmap[End()] || log[End()]) && !OtherDirty(Merged(bitmap, log), areas)
    }

    ghost function Dropped(): set<nat>
      requires Shape()
      reads this
    {
      if EndDrops() then {End()} else {}
    }

    /** The calls of ram_save_block in the last stage. */
    method SendRest()
      requires Valid(true)
      modifies `bitmap, `dirtyPages, `bulk, `lastSeen, `lastOffset, `cache, `sent, `dest, `bad, `mem, `log
      ensures Valid(true) && AllClear(bitmap, areas) && bad == old(bad) + old(Loses())
      ensures mem == old(mem) && log == old(log)
      ensures Outcome(areas, old(Start(bitmap, mem, cache, dest)), old(Loses()), bitmap, cache, dest)
    {
      hide AreasOk, Cursor, Bulk, Replayed, Sound, Count, Loses, AllClear, Outcome;
      ghost var s, lost := Start(bitmap, mem, cache, dest), Loses();
      OutcomeStart(areas, s, {});
      var bytes := true;
      while bytes
        invariant Valid(true) && mem == old(mem) && log == old(log)
        invariant if bytes then bad == old(bad) && Loses() == lost && Outcome(areas, s, {}, bitmap, cache, dest)
                  else bad == old(bad) + lost && AllClear(bitmap, areas) && Outcome(areas, s, lost, bitmap, cache, dest)
        invariant bytes && lost != {} ==> s == Start(bitmap, mem, cache, dest)
        decreases bytes, dirtyPages
        modifies `bitmap, `dirtyPages, `bulk, `lastSeen, `lastOffset, `cache, `sent, `dest, `bad, `mem, `log
      {
        bytes := LastBlock(s);
      }
    }

    /** ram_save_complete: with the guest stopped, everything that is still dirty is sent. */
    method SaveComplete()
      requires Valid(false)
      modifies `bitmap, `dirtyPages, `bulk, `lastSeen, `lastOffset, `cache, `sent, `dest, `bad, `mem, `log
      ensures Valid(true) && AllClear(bitmap, areas) && AllClear(log, areas) && mem == old(mem)
      ensures bad == old(bad) + old(Dropped())
      ensures forall p :: 0 <= p < |mem| && IsRam(areas, p) && p !in bad ==> dest[p] == mem[p]
      ensures forall p :: 0 <= p < |mem| && IsRam(areas, p) ==>
                && dest[p] == Ends(old(Stopped()), old(Dropped()), p)
                && (dest[p] == mem[p] <==> Arrives(old(Stopped()), old(Dropped()), p))
    {
      hide AreasOk, Counted, Cursor, Bulk, Replayed, IsRam, IsEnd, Settled, Fresh, AllClear, OtherDirty, Outcome;
      hide Ends, Arrives;
      ghost var s, lost := Stopped(), Dropped();
      Sync();
      FreshWeaker(cache, dest, bitmap, bad);
      ghost var t := Start(bitmap, mem, cache, dest);
      SameStart(areas, s, t, lost);
      assert Loses() == lost;
      SendRest();
      OutcomeEnd(areas, t, lost, bitmap, cache, dest);
      NothingLeft(areas, mem, dest, bitmap, log, bad);
    }
  }

  /** The bits set in either. */
  ghost function Merged(bits: seq<bool>, log: seq<bool>): (r: seq<bool>)
    requires |bits| == |log|
    ensures |r| == |bits| && forall p :: 0 <= p < |r| ==> r[p] == (bits[p] || log[p])
  {
    seq(|bits|, p requires 0 <= p < |bits| == |log| => bits[p] || log[p])
  }

  // -------------------------------------------------------------------------------- runs that fail

  /** A page that must be sent is sent. */
  lemma MustSend(was: seq<bool>, now: seq<bool>, areas: seq<Area>, cache: seq<Item>, mem: seq<Page>, p: nat)
    requires p < |was| == |mem| && was[p] && IsRam(areas, p) && !Choice(mem[p], Cached(cache, p)).Skipped?
    ensures !(AllClear(now, areas) && OnlySkipped(was, now, Skips(cache, mem)))
  {}

  /** The first page of a guest of two pages. */
  method SendFirst(first: Page, second: Page, other: Page) returns (m: RamState)
    ensures m.Valid(false) && m.areas == [Area(0, 2)] && m.mem == [first, second] && m.log == [false, false]
    ensures m.bulk && m.lastSeen == Some(0) && m.lastOffset == 0 && m.bitmap == [false, true]
    ensures fresh(m) && m.bad == {} && NoneCached(m.cache)
  {
    hide Repeat, ZERO, Count, ApplyAll, Fresh, Settled, Choice, Received, Cached, RecordFor, OnlySkipped;
    m := new RamState([Area(0, 2)], [first, second], [false, false], 0, [other, other]);
    var bytes;
    ghost var d;
    bytes, d := m.SaveBlock(false, false);
    assert Full(m.bitmap, m.areas[0], 1);
    assert m.bitmap == [false, true];
  }

  /** The first pass over it. */
  method SendBoth(first: Page, second: Page, other: Page) returns (m: RamState)
    ensures m.Valid(false) && m.areas == [Area(0, 2)] && m.mem == [first, second] && m.log == [false, false]
    ensures m.bulk && m.lastSeen == Some(0) && m.lastOffset == 1 && m.bitmap == [false, false]
    ensures fresh(m) && m.bad == {} && m.dest[1] == second
  {
    hide Repeat, ZERO, Count, ApplyAll, Fresh, Choice, Received, Cached, RecordFor, AllClear;
    m := SendFirst(first, second, other);
    assert In(m.areas[0], 1) && IsRam(m.areas, 1) && m.End() == 1;
    assert Choice(m.mem[1], Cached(m.cache, 1)) != Skipped by { NotSkipped(m.mem[1]); }
    ghost var was, cache := m.bitmap, m.cache;
    var bytes;
    ghost var d;
    bytes, d := m.SaveBlock(false, false);
    MustSend(was, m.bitmap, m.areas, cache, m.mem, 1);
    assert !m.bitmap[1 := true][0];
    assert SettledAt(m.mem, m.dest, m.bitmap, m.log, 1);
  }

  /** A run that loses a page: the guest has two pages, writes the second again after the first pass
      has sent it, and is stopped.  The last stage clears the bit and does not send the page. */
  method LastPageLost(first: Page, second: Page, again: Page, other: Page) returns (m: RamState)
    requires second != again
    ensures m.Valid(true) && AllClear(m.bitmap, m.areas) && AllClear(m.log, m.areas) && IsRam(m.areas, 1)
    ensures m.mem == [first, again] && m.dest[1] == second && m.bad == {1}
  {
    hide ZERO, Repeat, Count, ApplyAll, Fresh, Cached, Choice, Received;
    m := SendBoth(first, second, other);
    m.GuestWrite(1, again);
    assert In(m.areas[0], 1);
    assert m.EndDrops();
    m.SaveComplete();
  }

  /** A guest of one page, sent, with nothing dirty and no longer in the first pass. */
  ghost predicate OnePage(m: RamState, page: Page)
    reads m
  {
    && m.Valid(false) && m.areas == [Area(0, 1)] && m.mem == [page] && m.log == [false] && m.bitmap == [false]
    && !m.bulk && |m.cache| == 1
  }

  /** The guest writes the page, and ram_save_block is called once. */
  method WriteAndSend(m: RamState, ghost before: Page, page: Page) returns (bytes: bool)
    requires OnePage(m, before)
    modifies m
    ensures OnePage(m, page)
    ensures var was := old(Cached(m.cache, 0));
            && (bytes <==> !Choice(page, was).Skipped?)
            && m.dest[0] == Received(old(m.dest[0]), page, Choice(page, was))
            && m.cache == CacheAfter(old(m.cache), 0, page, Choice(page, was), false)
            && m.bad == BadAfter(old(m.cache), 0, Choice(page, was), false, old(m.bad))
  {
    hide Repeat, ZERO, Count, ApplyAll, Fresh, Settled, Choice, Received, Cached, RecordFor, CacheAfter, BadAfter;
    hide Skips;
    assert In(m.areas[0], 0) && IsRam(m.areas, 0);
    m.GuestWrite(0, page);
    m.Sync();
    assert m.bitmap == [true] && m.log == [false];
    ghost var d;
    bytes, d := m.SaveBlock(false, false);
    if Choice(page, old(Cached(m.cache, 0))).Skipped? {
      SkippedKeeps(old(m.cache), old(m.dest), 0, page, Skipped, false, old(m.bad));
    } else {
      MustSend([true], m.bitmap, m.areas, old(m.cache), m.mem, 0);
    }
  }

  /** The first pass over a guest of one page. */
  method SendOnly(page: Page, other: Page) returns (m: RamState)
    ensures OnePage(m, page) && fresh(m) && NoneCached(m.cache) && m.bad == {}
  {
    hide Repeat, ZERO, Count, ApplyAll, Fresh, Settled, Choice, Received, Cached, RecordFor, OnlySkipped;
    m := new RamState([Area(0, 1)], [page], [false], 1, [other]);
    var bytes;
    ghost var d;
    bytes, d := m.SaveBlock(false, false);
    assert m.bitmap == [false];
    bytes, d := m.SaveBlock(false, false);
    assert m.bitmap == [false];
  }

  /** A run that leaves a page wrong: it is cached when it is sent, becomes zero, and becomes what it
      was.  The cache still has that copy, so nothing is sent, and the last stage does not send it
      either. */
  method StaleCopyLost(first: Page, page: Page, other: Page) returns (m: RamState, bytes: bool)
    requires page != ZERO
    ensures m.Valid(true) && AllClear(m.bitmap, m.areas) && AllClear(m.log, m.areas) && IsRam(m.areas, 0)
    ensures m.mem == [page] && !bytes && m.dest[0] == ZERO && m.bad == {0}
  {
    hide Repeat, ZERO, Count, ApplyAll, Fresh, Settled, RecordFor;
    m := SendOnly(first, other);
    bytes := WriteAndSend(m, first, page);
    assert Cached(m.cache, 0) == Some(page);
    bytes := WriteAndSend(m, page, ZERO);
    assert Cached(m.cache, 0) == Some(page) && m.dest[0] == ZERO && m.bad == {0};
    bytes := WriteAndSend(m, ZERO, page);
    assert In(m.areas[0], 0);
    m.SaveComplete();
  }

  /** The blocks as the stream names them are the areas of RAM. */
  ghost predicate Named(blocks: seq<Block>, areas: seq<Area>) {
    && BlocksOk(blocks) && Sum(blocks) < 0x1_0000_0000_0000_0000 && |blocks| == |areas|
    && forall b :: 0 <= b < |areas| ==> blocks[b].length == areas[b].pages * 4096
  }

  lemma {:induction false} RoundsFit(blocks: seq<Block>, areas: seq<Area>, rounds: seq<seq<Record>>)
    requires Named(blocks, areas) && forall i :: 0 <= i < |Flat(rounds)| ==> RecordFits(areas, Flat(rounds)[i])
    ensures RoundsOk(blocks, rounds)
  {
    if rounds != [] {
      var first, later := rounds[0], rounds[1..];
      forall i | 0 <= i < |first| ensures RecordOk(blocks, first[i]) {
        assert RecordFits(areas, Flat(rounds)[i]);
      }
      assert forall i :: 0 <= i < |Flat(later)| ==> Flat(later)[i] == Flat(rounds)[|first| + i];
      RoundsFit(blocks, areas, later);
      assert forall k :: 0 < k < |rounds| ==> rounds[k] == later[k - 1];
    }
  }

  /** From end to end: however the records sent were divided into rounds, the bytes of the setup
      section and of the rounds, read by the loader and applied to what the destination held at first,
      give it every page of RAM that is not bad. */
  lemma Delivered(m: RamState, blocks: seq<Block>, rounds: seq<seq<Record>>, rest: seq<Byte>)
    requires m.Valid(true) && AllClear(m.bitmap, m.areas) && AllClear(m.log, m.areas)
    requires Named(blocks, m.areas) && Flat(rounds) == m.sent
    ensures RoundsOk(blocks, rounds)
    ensures var l := LoadMany(blocks, None, Setup(blocks) + (Rounds(blocks, None, rounds) + rest), 1 + |rounds|);
            && l.Some? && l.value.rest == rest
            && (var d := ApplyAll(m.areas, m.dest0, l.value.records);
                && d.Some? && |d.value| == |m.mem|
                && forall p :: 0 <= p < |m.mem| && IsRam(m.areas, p) && p !in m.bad ==> d.value[p] == m.mem[p])
  {
    hide IsRam, AllClear, Settled, Fresh, Count, ApplyAll, RecordFits, BlocksOk, LoadMany, Setup, Rounds, RoundsOk;
    RoundsFit(blocks, m.areas, rounds);
    RunLoads(blocks, rounds, rest);
    NothingLeft(m.areas, m.mem, m.dest, m.bitmap, m.log, m.bad);
  }
}
