/**
 * The circular scan of the dirty bitmap (arch_init.c): which bits a call of ram_save_block has
 * passed, the shortcut of the first pass, and what a scan that has come round knows.
 */
module RamScan {
  import opened Wrappers

  /** A RAM block: the pages from `base` on in the dirty bitmap. */
  datatype Area = Area(base: nat, pages: nat)

  ghost predicate AreasOk(areas: seq<Area>, n: nat) {
    && areas != []
    && (forall b :: 0 <= b < |areas| ==> 0 < areas[b].pages && areas[b].base + areas[b].pages <= n)
    && (forall b, c :: 0 <= b < |areas| && 0 <= c < |areas| && b != c ==> Apart(areas[b], areas[c]))
  }

  lemma AreaInside(areas: seq<Area>, n: nat, b: nat)
    requires AreasOk(areas, n) && b < |areas|
    ensures areas[b].base + areas[b].pages <= n
  {}

  predicate Apart(a: Area, b: Area) {
    a.base + a.pages <= b.base || b.base + b.pages <= a.base
  }

  predicate In(a: Area, p: nat) {
    a.base <= p < a.base + a.pages
  }

  /** A page of some block; the bitmap also has bits between blocks. */
  ghost predicate IsRam(areas: seq<Area>, p: nat) {
    exists b :: 0 <= b < |areas| && In(areas[b], p)
  }

  // --------------------------------------------------------------------------------------- bits

  function Count(bits: seq<bool>): nat {
    if bits == [] then 0 else Count(bits[..|bits| - 1]) + if bits[|bits| - 1] then 1 else 0
  }

  lemma {:induction false} CountUpdate(bits: seq<bool>, i: nat, v: bool)
    requires i < |bits|
    ensures Count(bits[i := v]) + (if bits[i] then 1 else 0) == Count(bits) + (if v then 1 else 0)
  {
    var n := |bits| - 1;
    if i < n {
      assert bits[i := v][..n] == bits[..n][i := v];
      CountUpdate(bits[..n], i, v);
    } else {
      assert bits[i := v][..n] == bits[..n];
    }
  }

  lemma {:induction false} CountFull(bits: seq<bool>)
    requires forall i :: 0 <= i < |bits| ==> bits[i]
    ensures Count(bits) == |bits|
  {
    if bits != [] {
      CountFull(bits[..|bits| - 1]);
    }
  }

  /** The bits of an area from offset `lo` up to `hi` are clear. */
  ghost predicate Clear(bits: seq<bool>, a: Area, lo: nat, hi: nat) {
    forall p :: a.base + lo <= p < a.base + hi && p < |bits| ==> !bits[p]
  }

  ghost predicate Full(bits: seq<bool>, a: Area, lo: nat) {
    forall p :: a.base + lo <= p < a.base + a.pages && p < |bits| ==> bits[p]
  }

  ghost predicate AllClear(bits: seq<bool>, areas: seq<Area>) {
    forall p :: 0 <= p < |bits| && IsRam(areas, p) ==> !bits[p]
  }

  /** The first pass has not reached the pages after its cursor, so they are all still dirty. */
  ghost predicate Ahead(bits: seq<bool>, areas: seq<Area>, seen: Option<nat>, offset: nat) {
    if seen.None? then forall b :: 0 <= b < |areas| ==> Full(bits, areas[b], 0)
    else
      && (forall b :: seen.value < b < |areas| ==> Full(bits, areas[b], 0))
      && (seen.value < |areas| ==> Full(bits, areas[seen.value], offset + 1))
  }

  /** Bits have only been cleared, and only for pages in `skip`. */
  ghost predicate OnlySkipped(was: seq<bool>, now: seq<bool>, skip: set<nat>) {
    && |was| == |now|
    && (forall p :: 0 <= p < |now| && was[p] && !now[p] ==> p in skip)
    && (forall p :: 0 <= p < |now| && now[p] ==> was[p])
  }

  /** The very last page of RAM in the order of the list. */
  predicate IsEnd(areas: seq<Area>, p: nat) {
    areas != [] && p + 1 == areas[|areas| - 1].base + areas[|areas| - 1].pages
  }

  /** Some page other than the very last one is dirty. */
  ghost predicate OtherDirty(bits: seq<bool>, areas: seq<Area>) {
    exists p :: 0 <= p < |bits| && bits[p] && IsRam(areas, p) && !IsEnd(areas, p)
  }

  /** find_next_bit */
  method FindNextBit(bits: seq<bool>, size: nat, from: nat) returns (next: nat)
    requires from <= size <= |bits|
    ensures from <= next <= size && (next < size ==> bits[next])
    ensures forall p :: from <= p < next ==> !bits[p]
  {
    next := from;
    while next < size && !bits[next]
      invariant from <= next <= size && forall p :: from <= p < next ==> !bits[p]
    {
      next := next + 1;
    }
  }

  /** The scan of an area from `start` stopped at `r`, whose bit it cleared, or at the end. */
  ghost predicate Found(was: seq<bool>, now: seq<bool>, a: Area, start: nat, r: nat) {
    && a.base + a.pages <= |was| && start <= r <= a.pages
    && now == (if r < a.pages then was[a.base + r := false] else was)
    && (r < a.pages ==> was[a.base + r])
  }

  // --------------------------------------------------------------------------- the circular scan

  /** How a call of ram_save_block began: the bitmap, whether in the first pass, the cursor (no block
      is -1), and the pages that it does not send although they are dirty. */
  datatype Scan = Scan(bits: seq<bool>, bulk: bool, seen: int, lo: nat, skip: set<nat>)

  /** Where its loop stands: at `offset` in `block`, past the end of the list if `complete`. */
  datatype Place = Place(complete: bool, block: nat, offset: nat)

  /** The bits from the old cursor on are clear, but for the one under it if that is exempt. */
  ghost predicate TailClear(bits: seq<bool>, a: Area, lo: nat, exempt: bool) {
    if exempt then Clear(bits, a, lo + 1, a.pages) else Clear(bits, a, lo, a.pages)
  }

  /** In the first pass the bit under the cursor is not looked at again. */
  predicate Exempt(k: Scan) { k.bulk && k.lo > 0 }

  /** What the scan knows to be clear. */
  ghost predicate Scanned(k: Scan, areas: seq<Area>, bits: seq<bool>, at: Place)
    requires at.block < |areas| && k.seen < |areas|
  {
    && (if at.complete then at.block <= k.seen else k.seen <= at.block)
    && (forall c :: 0 <= c < |areas| && Passed(k, at, c) ==> Clear(bits, areas[c], 0, areas[c].pages))
    && (k.seen >= 0 && (at.complete || at.block > k.seen) ==> TailClear(bits, areas[k.seen], k.lo, Exempt(k)))
    && Clear(bits, areas[at.block], if !at.complete && at.block == k.seen then k.lo else 0, at.offset)
  }

  predicate Passed(k: Scan, at: Place, c: nat) {
    if at.complete then c < at.block || k.seen < c else k.seen < c < at.block
  }

  /** In the first pass the scan is at the old cursor, or at the start of a block that it has not
      reached before. */
  ghost predicate Leading(k: Scan, areas: seq<Area>, bits: seq<bool>, at: Place)
    requires at.block < |areas|
  {
    && at.block <= k.seen + 1
    && (forall c :: at.block < c < |areas| ==> Full(bits, areas[c], 0))
    && (if at.block == k.seen
        then at.offset == k.lo < areas[at.block].pages && Full(bits, areas[at.block], k.lo + 1)
        else at.offset == 0 && Full(bits, areas[at.block], 0))
  }

  /** What holds at the head of the loop. */
  ghost predicate At(k: Scan, areas: seq<Area>, bits: seq<bool>, bulk: bool, at: Place) {
    && at.block < |areas| && at.offset <= areas[at.block].pages && -1 <= k.seen < |areas|
    && Scanned(k, areas, bits, at)
    && (bulk ==> k.bulk && !at.complete && Leading(k, areas, bits, at))
    && (!bulk && k.bulk ==> at.complete && at.offset == 0 && k.seen == |areas| - 1)
    && (!bulk && Exempt(k) ==> k.lo + 1 == areas[|areas| - 1].pages)
    && (k.bulk ==> bits == k.bits && k.skip == {})
    && (k.seen == -1 ==> bulk && at.block == 0)
    && OnlySkipped(k.bits, bits, k.skip)
  }

  /** The call began with the cursor of the first pass on the last page, and that page dirty. */
  ghost predicate EndAgain(k: Scan, areas: seq<Area>) {
    && Exempt(k) && areas != [] && k.seen == |areas| - 1
    && (var a := areas[|areas| - 1];
        k.lo + 1 == a.pages && a.base + k.lo < |k.bits| && k.bits[a.base + k.lo])
  }

  /** Before anything has been found. */
  lemma AtStart(k: Scan, areas: seq<Area>, seen: Option<nat>)
    requires AreasOk(areas, |k.bits|) && k.seen == (if seen.None? then -1 else seen.value)
    requires match seen
             case None => k.bulk && k.lo == 0
             case Some(b) => b < |areas| && k.lo <= areas[b].pages && (k.bulk ==> k.lo < areas[b].pages)
    requires k.bulk ==> Ahead(k.bits, areas, seen, k.lo) && k.skip == {}
    ensures At(k, areas, k.bits, k.bulk, Place(false, if seen.None? then 0 else seen.value, k.lo))
  {}

  lemma AtFind(k: Scan, areas: seq<Area>, bits: seq<bool>, bulk: bool, at: Place)
    requires At(k, areas, bits, bulk, at)
    ensures at.block < |areas| && at.offset <= areas[at.block].pages
    ensures at.complete ==> !bulk && at.block <= k.seen
    ensures k.bulk && !at.complete ==> bulk
    ensures k.seen == -1 ==> bulk && at.block == 0
    ensures bulk && at.block != k.seen ==> at.offset == 0 && Full(bits, areas[at.block], 0)
    ensures bulk && at.offset > 0 ==>
              at.offset < areas[at.block].pages && Full(bits, areas[at.block], at.offset + 1)
    ensures OnlySkipped(k.bits, bits, k.skip)
  {}

  /** Where the scan of an area from `at.offset` may stop. */
  ghost predicate Stops(bits: seq<bool>, bulk: bool, a: Area, at: Place, r: nat) {
    if bulk && at.offset > 0 then r == at.offset + 1 else Clear(bits, a, at.offset, r)
  }

  lemma ScanFound(k: Scan, areas: seq<Area>, bits: seq<bool>, now: seq<bool>, at: Place, r: nat)
    requires at.block < |areas| && k.seen < |areas| && Scanned(k, areas, bits, at)
    requires Found(bits, now, areas[at.block], at.offset, r) && Clear(bits, areas[at.block], at.offset, r)
    ensures Scanned(k, areas, now, at.(offset := r))
  {}

  /** The place after a block that has been scanned to its end. */
  function NextPlace(areas: seq<Area>, at: Place): Place {
    if at.block + 1 < |areas| then Place(at.complete, at.block + 1, 0) else Place(true, 0, 0)
  }

  lemma ScanNext(k: Scan, areas: seq<Area>, bits: seq<bool>, at: Place)
    requires at.block < |areas| && k.seen < |areas| && Scanned(k, areas, bits, at)
    requires if !at.complete && at.block == k.seen then TailClear(bits, areas[at.block], k.lo, Exempt(k))
             else Clear(bits, areas[at.block], 0, areas[at.block].pages)
    requires (at.complete ==> at.block < k.seen) && (at.block + 1 == |areas| ==> k.seen >= 0)
    ensures Scanned(k, areas, bits, NextPlace(areas, at))
  {
    hide Clear;
    ClearNone(bits, areas[NextPlace(areas, at).block], 0);
  }

  lemma ClearNone(bits: seq<bool>, a: Area, lo: nat)
    ensures Clear(bits, a, lo, lo)
  {}

  lemma NotBoth(bits: seq<bool>, areas: seq<Area>, b: nat)
    requires AreasOk(areas, |bits|) && b < |areas|
    ensures !(Full(bits, areas[b], 0) && Clear(bits, areas[b], 0, areas[b].pages))
  {
    var p := areas[b].base;
    assert Full(bits, areas[b], 0) ==> bits[p];
  }

  /** A block without a further dirty bit: on to the next, or round to the first. */
  lemma AtMove(k: Scan, areas: seq<Area>, bits: seq<bool>, bulk: bool, at: Place)
    requires AreasOk(areas, |bits|) && At(k, areas, bits, bulk, at)
    requires Stops(bits, bulk, areas[at.block], at, areas[at.block].pages)
    requires at.complete ==> at.block < k.seen
    ensures var next := NextPlace(areas, at);
            At(k, areas, bits, bulk && at.block + 1 < |areas|, next) && (at.block + 1 == |areas| ==> !at.complete)
  {
    hide OnlySkipped, Full;
    if bulk && at.block != k.seen {
      NotBoth(bits, areas, at.block);
    }
    ScanNext(k, areas, bits, at);
  }

  lemma FullFirst(bits: seq<bool>, areas: seq<Area>, b: nat, r: nat)
    requires AreasOk(areas, |bits|) && b < |areas| && Full(bits, areas[b], 0) && Clear(bits, areas[b], 0, r)
    ensures r == 0 && areas[b].pages > 0
  {
    var p := areas[b].base;
    assert bits[p];
  }

  /** A dirty page that is not sent: the scan goes on from there. */
  lemma AtSkip(k: Scan, areas: seq<Area>, was: seq<bool>, bits: seq<bool>, bulk: bool, at: Place, r: nat)
    requires At(k, areas, was, bulk, at) && Found(was, bits, areas[at.block], at.offset, r)
    requires Stops(was, bulk, areas[at.block], at, r)
    requires r < areas[at.block].pages && areas[at.block].base + r in k.skip
    ensures At(k, areas, bits, bulk, at.(offset := r))
  {
    ScanFound(k, areas, was, bits, at, r);
  }

  /** The page that has been found was dirty from the beginning; the others are as they were. */
  lemma TakeOne(k: Scan, areas: seq<Area>, was: seq<bool>, bits: seq<bool>, at: Place, r: nat)
    requires at.block < |areas| && Found(was, bits, areas[at.block], at.offset, r) && r < areas[at.block].pages
    requires OnlySkipped(k.bits, was, k.skip)
    ensures var p := areas[at.block].base + r;
            p < |bits| == |k.bits| && k.bits[p] && !bits[p] && OnlySkipped(k.bits, bits[p := true], k.skip)
  {
    assert bits[areas[at.block].base + r := true] == was;
  }

  /** The page that a call has sent, at `at`, is the next in turn.  In the first pass that is the page after
      the cursor, or the first page once more if it is dirty again; afterwards everything from the cursor
      up to it, round the end of the list, is clean. */
  ghost predicate InOrder(k: Scan, areas: seq<Area>, bits: seq<bool>, bulk: bool, at: Place) {
    && at.block < |areas| && -1 <= k.seen < |areas|
    && if bulk
       then if at.block == k.seen then at.offset == k.lo + 1 || (k.lo == 0 && at.offset == 0)
            else at.block == k.seen + 1 && at.offset == 0
       else Scanned(k, areas, bits, at)
  }

  lemma AtOrder(k: Scan, areas: seq<Area>, was: seq<bool>, bits: seq<bool>, bulk: bool, at: Place, r: nat)
    requires AreasOk(areas, |was|) && At(k, areas, was, bulk, at)
    requires Found(was, bits, areas[at.block], at.offset, r) && Stops(was, bulk, areas[at.block], at, r)
    requires r < areas[at.block].pages
    ensures InOrder(k, areas, bits, bulk, at.(offset := r))
  {
    if !bulk {
      ScanFound(k, areas, was, bits, at, r);
    } else if at.block != k.seen {
      FullFirst(was, areas, at.block, r);
    } else if k.lo == 0 {
      assert areas[at.block].pages > 1 ==> was[areas[at.block].base + 1];
    }
  }

  /** A page sent in the first pass: everything after it is still dirty. */
  lemma AtSent(k: Scan, areas: seq<Area>, was: seq<bool>, bits: seq<bool>, at: Place, r: nat)
    requires AreasOk(areas, |was|) && At(k, areas, was, true, at)
    requires Found(was, bits, areas[at.block], at.offset, r) && r < areas[at.block].pages
    ensures Ahead(bits, areas, Some(at.block), r)
  {
    hide OnlySkipped, Scanned;
    forall c | at.block < c < |areas| ensures Full(bits, areas[c], 0) {
      assert Apart(areas[at.block], areas[c]);
    }
  }

  /** Back where it started, the scan has seen everything: at most the exempt bit was left, and it
      has cleared that too. */
  lemma ScanDone(k: Scan, areas: seq<Area>, bits: seq<bool>, now: seq<bool>, at: Place, r: nat)
    requires k.seen == at.block < |areas| && at.complete && Scanned(k, areas, bits, at)
    requires Found(bits, now, areas[at.block], at.offset, r) && Clear(bits, areas[at.block], at.offset, r)
    requires r >= k.lo
    ensures AllClear(now, areas)
    ensures r < areas[at.block].pages ==> Exempt(k) && r == k.lo
  {
    forall p | 0 <= p < |now| && IsRam(areas, p) ensures !now[p] {
      var c :| 0 <= c < |areas| && In(areas[c], p);
      if c != at.block {
        assert Clear(bits, areas[c], 0, areas[c].pages);
      }
    }
  }

  /** The end of a call that sends nothing.  A page is dropped exactly when the call began with the
      last page dirty again. */
  lemma AtBreak(k: Scan, areas: seq<Area>, was: seq<bool>, bits: seq<bool>, bulk: bool, at: Place, r: nat)
    requires At(k, areas, was, bulk, at) && at.complete && Found(was, bits, areas[at.block], at.offset, r)
    requires Clear(was, areas[at.block], at.offset, r) && k.seen == at.block && r >= k.lo
    ensures !bulk && AllClear(bits, areas)
    ensures r < areas[at.block].pages <==> EndAgain(k, areas)
    ensures r == areas[at.block].pages ==> OnlySkipped(k.bits, bits, k.skip)
    ensures EndAgain(k, areas) ==> !OtherDirty(k.bits, areas) && IsEnd(areas, areas[at.block].base + r)
  {
    hide IsRam;
    ScanDone(k, areas, was, bits, at, r);
  }

  /** In a call that began with the last page dirty again, that page is not the one that is sent. */
  lemma EndNotSent(k: Scan, areas: seq<Area>, was: seq<bool>, bulk: bool, at: Place, r: nat)
    requires AreasOk(areas, |was|) && At(k, areas, was, bulk, at) && EndAgain(k, areas)
    requires r < areas[at.block].pages && was[areas[at.block].base + r]
    requires bulk && at.offset > 0 ==> r == at.offset + 1
    requires at.complete && at.block == k.seen ==> r < k.lo
    ensures OtherDirty(k.bits, areas)
  {
    hide Scanned, OnlySkipped;
    var p := areas[at.block].base + r;
    assert In(areas[at.block], p);
    if at.block != k.seen {
      assert Apart(areas[at.block], areas[k.seen]);
    }
    assert was == k.bits && !IsEnd(areas, p);
  }
}
