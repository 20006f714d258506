/**
 * The stream of live block migration and the code that produces it (block-migration.c):
 * `blk_send`, `block_load`, `flush_blks`, the bulk and dirty passes, and completion.
 */
module BlockMigrationStream {
  import opened BlockMigration
  import opened Wrappers

  const FLAG_DEVICE_BLOCK: nat := 1
  const FLAG_EOS: nat := 2
  const FLAG_PROGRESS: nat := 4
  const FLAG_ZERO_BLOCK: nat := 8

  /** One record: the 64-bit header word, and for device blocks the device and the data. */
  datatype Record = Record(header: nat, name: nat, payload: Option<Buffer>)

  predicate HasFlag(flags: nat, flag: nat)
    requires flag > 0
  {
    (flags / flag) % 2 == 1
  }

  /** blk_send */
  function Encode(b: Block, zeroBlocks: bool): Record {
    if zeroBlocks && (forall o :: 0 <= o < CHUNK ==> b.buf[o] == 0)
    then Record(b.chunk * 2048 * 512 + FLAG_DEVICE_BLOCK + FLAG_ZERO_BLOCK, b.dev, None)
    else Record(b.chunk * 2048 * 512 + FLAG_DEVICE_BLOCK, b.dev, Some(b.buf))
  }

  const Eos := Record(FLAG_EOS, 0, None)

  /** The records of the blocks, in order. */
  function Encoded(blocks: seq<Block>, zeroBlocks: bool): seq<Record> {
    if blocks == [] then []
    else Encoded(blocks[..|blocks| - 1], zeroBlocks) + [Encode(blocks[|blocks| - 1], zeroBlocks)]
  }

  function Progress(percent: nat): Record { Record(percent * 512 + FLAG_PROGRESS, 0, None) }

  /** One turn of the loop of block_load; None stands for its error returns. */
  function Load(dest: seq<seq<Sector>>, r: Record): Option<seq<seq<Sector>>> {
    var flags, addr := r.header % 512, r.header / 512;
    if HasFlag(flags, FLAG_DEVICE_BLOCK) then
      if r.name >= |dest| || addr > |dest[r.name]| || |dest[r.name]| == 0 then None
      else
        var total := |dest[r.name]|;
        var nr := if total - addr < CHUNK then total - addr else CHUNK;
        if HasFlag(flags, FLAG_ZERO_BLOCK) then Some(Splice(dest, r.name, addr, seq(nr, _ => 0)))
        else if r.payload.Some? then Some(Splice(dest, r.name, addr, r.payload.value[..nr]))
        else None
    else if HasFlag(flags, FLAG_PROGRESS) || HasFlag(flags, FLAG_EOS) then Some(dest)
    else None
  }

  function Splice(dest: seq<seq<Sector>>, d: nat, addr: nat, data: seq<Sector>): seq<seq<Sector>>
    requires d < |dest| && addr + |data| <= |dest[d]|
  {
    dest[d := dest[d][..addr] + data + dest[d][addr + |data|..]]
  }

  function LoadAll(dest: seq<seq<Sector>>, stream: seq<Record>): Option<seq<seq<Sector>>> {
    if stream == [] then Some(dest)
    else match LoadAll(dest, stream[..|stream| - 1])
      case None => None
      case Some(d) => Load(d, stream[|stream| - 1])
  }

  lemma LoadAppend(dest: seq<seq<Sector>>, stream: seq<Record>, r: Record)
    requires LoadAll(dest, stream).Some?
    ensures LoadAll(dest, stream + [r]) == Load(LoadAll(dest, stream).value, r)
  {
    assert (stream + [r])[..|stream|] == stream;
  }

  /** What the loader makes of a sent block is exactly the chunk of the device, whether the
      block went out as data or as a zero marker, and also for the short last chunk. */
  lemma LoadUndoesSend(dest: seq<seq<Sector>>, b: Block, zeroBlocks: bool)
    requires b.dev < |dest| && b.chunk * 2048 < |dest[b.dev]|
    ensures Load(dest, Encode(b, zeroBlocks)) == Some(Written(dest, b))
  {
    var r, addr, was := Encode(b, zeroBlocks), b.chunk * 2048, dest[b.dev];
    HeaderParts(addr, r.header - addr * 512);
    var nr := if |was| - addr < CHUNK then |was| - addr else CHUNK;
    var data: seq<Sector> := if r.payload.Some? then b.buf[..nr] else seq(nr, _ => 0);
    assert Load(dest, r) == Some(Splice(dest, b.dev, addr, data));
    var left, right := Splice(dest, b.dev, addr, data), Written(dest, b);
    forall x | 0 <= x < |was| ensures left[b.dev][x] == right[b.dev][x] {
      assert x / 2048 == b.chunk <==> addr <= x < addr + 2048;
      if addr <= x < addr + 2048 { assert x % 2048 == x - addr; }
    }
    assert left[b.dev] == right[b.dev];
    assert left == right;
  }

  /** What a record says: the sector above the 512 values of the flags, the device, and the data unless
      all of it is zero and zero blocks are marked. */
  lemma SendFormat(b: Block, zeroBlocks: bool)
    ensures var r, zero := Encode(b, zeroBlocks), zeroBlocks && forall o :: 0 <= o < CHUNK ==> b.buf[o] == 0;
            && r.header / 512 == b.chunk * 2048 && r.header % 512 == (if zero then 9 else 1) && r.name == b.dev
            && r.payload == if zero then None else Some(b.buf)
    ensures Eos.header == 2 && forall p :: Progress(p).header / 512 == p && Progress(p).header % 512 == 4
  {
    HeaderParts(b.chunk * 2048, Encode(b, zeroBlocks).header - b.chunk * 2048 * 512);
    forall p ensures Progress(p).header / 512 == p && Progress(p).header % 512 == 4 {
      HeaderParts(p, FLAG_PROGRESS);
    }
  }

  lemma HeaderParts(addr: nat, flags: nat)
    requires flags < 512
    ensures (addr * 512 + flags) % 512 == flags && (addr * 512 + flags) / 512 == addr
  {}

  // ----------------------------------------------------------------------------- what a round reads

  /** The bulk phase is over for every device. */
  ghost predicate AllRead(s: State) {
    forall k :: 0 <= k < |s.devs| ==> s.devs[k].cur == |s.devs[k].disk|
  }

  /** Device `d` is the first that the bulk phase has not finished. */
  ghost predicate FirstUnfinished(s: State, d: nat) {
    Enabled(s, Bulk(d)) && forall k :: 0 <= k < d ==> s.devs[k].cur == |s.devs[k].disk|
  }

  /** No dirty chunk of device `d` lies from sector `from` on. */
  ghost predicate NoneFrom(s: State, d: nat, from: nat) {
    d < |s.devs| && forall c :: c in s.devs[d].dirty ==> c * 2048 < from
  }

  /** The first dirty chunk of device `d` from sector `from` on is `c`. */
  ghost predicate FirstFrom(s: State, d: nat, from: nat, c: nat) {
    && d < |s.devs| && c in s.devs[d].dirty && from <= c * 2048
    && forall b :: b in s.devs[d].dirty && from <= b * 2048 ==> c <= b
  }

  /** Device `d` is the first with a dirty chunk from its cursor on, and that chunk is `c`. */
  ghost predicate FirstDirty(s: State, cursors: seq<nat>, d: nat, c: nat) {
    && d < |s.devs| == |cursors| && FirstFrom(s, d, cursors[d], c)
    && forall k :: 0 <= k < d ==> NoneFrom(s, k, cursors[k])
  }

  /** The same without cursors. */
  ghost predicate FirstOfAll(s: State, d: nat, c: nat) {
    FirstFrom(s, d, 0, c) && forall k :: 0 <= k < d ==> s.devs[k].dirty == {}
  }

  /** Nothing has been submitted from `s` to `t`; reads may have been waited for. */
  ghost predicate Waited(s: State, t: State) {
    && |t.devs| == |s.devs| && t.unmarked == s.unmarked && t.dest == s.dest
    && t.submitted + t.readDone == s.submitted + s.readDone
    && forall k :: 0 <= k < |s.devs| ==> t.devs[k] == s.devs[k].(aio := t.devs[k].aio)
  }

  /** Chunk `c` of device `d` has been submitted to be read again and is no longer dirty. */
  ghost predicate Rereads(s: State, t: State, d: nat, c: nat) {
    && d < |t.devs| == |s.devs| && t.unmarked == s.unmarked && t.dest == s.dest
    && t.submitted + t.readDone == s.submitted + s.readDone + 1
    && t.inflight != [] && t.inflight[|t.inflight| - 1] == Read(d, c, false, map[])
    && t.devs[d] == s.devs[d].(aio := t.devs[d].aio, dirty := s.devs[d].dirty - {c})
    && forall k :: 0 <= k < |s.devs| && k != d ==> t.devs[k] == s.devs[k].(aio := t.devs[k].aio)
  }

  lemma WaitedThenRereads(s: State, t: State, u: State, d: nat, c: nat)
    requires Waited(s, t) && Rereads(t, u, d, c)
    ensures Rereads(s, u, d, c)
  {}

  /** One chunk is read: as long as the bulk phase is not over the next chunk of the first device that
      has one, and then the first chunk that is dirty. */
  ghost predicate ReadStep(s: State, t: State) {
    if AllRead(s) then exists d: nat, c: nat :: FirstOfAll(s, d, c) && Rereads(s, t, d, c)
    else exists d :: FirstUnfinished(s, d) && t == Next(s, Bulk(d))
  }

  /** Chunks are read one after the other while fewer than `rate` blocks are outstanding. */
  ghost predicate ReadsOn(trace: seq<State>, rate: nat) {
    && trace != []
    && forall i :: 0 <= i < |trace| - 1 ==>
         trace[i].submitted + trace[i].readDone < rate && ReadStep(trace[i], trace[i + 1])
  }

  lemma ReadsOnce(s: State, rate: nat)
    ensures ReadsOn([s], rate)
  {}

  lemma ReadsMore(trace: seq<State>, rate: nat, t: State)
    requires ReadsOn(trace, rate)
    requires var s := trace[|trace| - 1]; s.submitted + s.readDone < rate && ReadStep(s, t)
    ensures ReadsOn(trace + [t], rate)
  {
    hide ReadStep;
  }

  /** Nothing is left to read. */
  ghost predicate NothingToRead(s: State) {
    AllRead(s) && forall k :: 0 <= k < |s.devs| ==> s.devs[k].dirty == {}
  }

  /** Enough is outstanding, or nothing is left to read. */
  ghost predicate Enough(s: State, rate: nat) {
    s.submitted + s.readDone >= rate || NothingToRead(s)
  }

  /** The first blocks of the queue, at most `budget`, have been sent. */
  ghost predicate Flushes(s: State, t: State, budget: nat) {
    && t.devs == s.devs && t.inflight == s.inflight && t.unmarked == s.unmarked
    && t.queue == s.queue[Least(budget, |s.queue|)..]
  }

  function Least(a: nat, b: nat): nat { if a < b then a else b }

  class Migration {
    const zeroBlocks: bool
    var s: State
    var stream: seq<Record>
    /** The cursor of the dirty pass, one per device. */
    var curDirty: seq<nat>
    ghost const dest0: seq<seq<Sector>>

    /** The destination is what block_load makes of the stream sent so far. */
    ghost predicate Valid()
      reads this
    {
      && s.Inv() && LoadAll(dest0, stream) == Some(s.dest)
      && |curDirty| == |s.devs| && (forall d :: 0 <= d < |s.devs| ==> curDirty[d] % 2048 == 0)
    }

    /** block_save_setup */
    constructor (devs: seq<Device>, dest: seq<seq<Sector>>, zeroBlocks: bool)
      requires |dest| == |devs|
      requires forall d :: 0 <= d < |devs| ==>
                 0 < |devs[d].disk| == |dest[d]| && devs[d].cur == 0 && devs[d].dirty == {} && devs[d].aio == {}
      ensures Valid() && Start(s) && s.devs == devs && s.dest == dest
    {
      this.zeroBlocks := zeroBlocks;
      s := State(devs, [], [], multiset{}, dest, 0, 0);
      stream, curDirty, dest0 := [Eos], seq(|devs|, _ => 0), dest;
      new;
      assert stream[..0] == [];
      FlagParts();
    }

    /** Records other than blocks do not touch the destination's disks. */
    method Put(r: Record)
      requires Valid() && Load(s.dest, r) == Some(s.dest)
      modifies this`stream
      ensures Valid() && stream == old(stream) + [r]
    {
      LoadAppend(dest0, stream, r);
      hide State.Inv, Load, LoadAll;
      stream := stream + [r];
    }

    method SendBlock(b: Block, ghost next: State)
      requires Valid() && b.dev < |s.dest| && b.chunk * 2048 < |s.dest[b.dev]|
      requires next.Inv() && next.dest == Written(s.dest, b) && |next.devs| == |s.devs|
      modifies this`stream
      ensures LoadAll(dest0, stream) == Some(next.dest) && stream == old(stream) + [Encode(b, zeroBlocks)]
    {
      LoadUndoesSend(s.dest, b, zeroBlocks);
      LoadAppend(dest0, stream, Encode(b, zeroBlocks));
      hide *;
      stream := stream + [Encode(b, zeroBlocks)];
    }

    /** flush_blks; the rate limit lets at most `budget` blocks through.  The first blocks of the queue
        are sent in order, until the limit, the end of the queue or a failed read. */
    method FlushBlks(budget: nat) returns (ret: int)
      requires Valid()
      modifies this`s, this`stream
      ensures Valid() && s.devs == old(s.devs) && s.inflight == old(s.inflight) && s.unmarked == old(s.unmarked)
      ensures ret <= 0 && (ret < 0 ==> s.Broken()) && (!old(s.Broken()) ==> ret == 0)
      ensures Sent(old(s.queue), old(stream), budget)
      ensures if ret < 0 then s.queue != [] && !s.queue[0].ok
              else && Flushes(old(s), s, budget)
                   && stream == old(stream) + Encoded(old(s.queue)[..Least(budget, old(|s.queue|))], zeroBlocks)
    {
      hide State.Inv, LoadAll;
      ret := 0;
      var sent := 0;
      while s.queue != []
        invariant Valid() && s.devs == old(s.devs) && s.inflight == old(s.inflight) && s.unmarked == old(s.unmarked)
        invariant sent + |s.queue| == old(|s.queue|) && sent <= budget
        invariant Sent(old(s.queue), old(stream), budget)
        invariant !old(s.Broken()) ==> !s.Broken()
        decreases |s.queue|
      {
        if sent == budget {
          break;
        }
        if !s.queue[0].ok {
          return -5;
        }
        SendFirst();
        sent := sent + 1;
        assert old(s.queue)[..sent] == old(s.queue)[..sent - 1] + [old(s.queue)[sent - 1]];
      }
    }

    /** One turn of flush_blks. */
    method SendFirst()
      requires Valid() && s.queue != [] && s.queue[0].ok
      modifies this`s, this`stream
      ensures Valid() && s == Next(old(s), Send) && stream == old(stream) + [Encode(old(s.queue)[0], zeroBlocks)]
      ensures !old(s.Broken()) ==> !s.Broken()
    {
      hide State.Inv, LoadAll, Encode, Written, Flushed;
      HeadInRange();
      SendKeeps(s);
      SendBlock(s.queue[0], Next(s, Send));
      s := Next(s, Send);
      assert forall k :: 0 <= k < |s.queue| ==> s.queue[k] == old(s.queue)[k + 1];
    }

    lemma HeadInRange()
      requires Valid() && s.queue != []
      ensures s.queue[0].dev < |s.dest| && s.queue[0].chunk * 2048 < |s.dest[s.queue[0].dev]| && s.Base()
    {}

    /** What has left the queue since it was `queue` is in the stream, in that order. */
    ghost predicate Sent(queue: seq<Block>, before: seq<Record>, budget: nat)
      reads this
    {
      && |s.queue| <= |queue| <= |s.queue| + budget
      && (var n := |queue| - |s.queue|;
          s.queue == queue[n..] && stream == before + Encoded(queue[..n], zeroBlocks))
    }

    function Outstanding(): int
      reads this
    {
      s.submitted + s.readDone
    }

    /** mig_save_device_bulk without a shared base; the result says that the device is done. */
    method SaveDeviceBulk(d: nat) returns (done: bool)
      requires Valid() && d < |s.devs|
      modifies this`s
      ensures Valid() && (done <==> s.devs[d].cur == |s.devs[d].disk|)
      ensures s == if old(Enabled(s, Bulk(d))) then Next(old(s), Bulk(d)) else old(s)
      ensures old(BulkSettled()) ==> BulkSettled()
    {
      if s.devs[d].cur >= |s.devs[d].disk| {
        return true;
      }
      BulkKeeps(s, d);
      ghost var s' := Next(s, Bulk(d));
      if BulkSettled() {
        forall i | 0 <= i < |s'.inflight| && s'.inflight[i].bulk && s'.inflight[i].dev < |s'.devs|
          ensures s'.inflight[i].chunk !in s'.devs[s'.inflight[i].dev].dirty
        {
          if i < |s.inflight| { assert s'.inflight[i] == s.inflight[i]; }
        }
      }
      hide State.Inv;
      s := Next(s, Bulk(d));
      return s.devs[d].cur >= |s.devs[d].disk|;
    }

    /** Nothing of the guest's side has changed between `a` and the current state. */
    ghost predicate SameGuest(a: State)
      reads this
    {
      && |s.devs| == |a.devs| && s.unmarked == a.unmarked
      && (forall k :: 0 <= k < |s.devs| ==> s.devs[k].disk == a.devs[k].disk && s.devs[k].cur == a.devs[k].cur)
    }

    /** The device reads one sector of the first read in flight. */
    method CaptureOne(x: nat)
      requires Valid() && Enabled(s, Capture(0, x))
      modifies this`s
      ensures Valid() && s == Next(old(s), Capture(0, x))
    {
      CaptureKeeps(s, 0, x);
      hide State.Inv;
      s := Next(s, Capture(0, x));
    }

    lemma FirstInRange()
      requires Valid() && s.inflight != []
      ensures s.Base() && s.inflight[0].dev < |s.devs|
    {
      assert s.ReadOk(s.inflight[0]);
    }

    /** The device reads what is still missing of the first read in flight. */
    method CaptureRest()
      requires Valid() && s.inflight != []
      modifies this`s
      ensures Valid() && s == old(s).(inflight := s.inflight) && |s.inflight| == |old(s).inflight|
      ensures s.inflight[1..] == old(s.inflight)[1..] && s.inflight[0].dev < |s.devs|
      ensures AllGot(s.devs[s.inflight[0].dev], s.inflight[0])
    {
      hide State.Inv, State.Base, LoadAll;
      FirstInRange();
      var d, c := s.inflight[0].dev, s.inflight[0].chunk;
      var x := c * 2048;
      while x < (c + 1) * 2048 && x < |s.devs[d].disk|
        invariant Valid() && s == old(s).(inflight := s.inflight) && c * 2048 <= x <= (c + 1) * 2048
        invariant |s.inflight| == |old(s).inflight| && s.inflight[1..] == old(s.inflight)[1..]
        invariant s.inflight[0].dev == d && s.inflight[0].chunk == c
        invariant forall y :: c * 2048 <= y < x && y < |s.devs[d].disk| ==> y in s.inflight[0].got
      {
        if x !in s.inflight[0].got {
          FirstInRange();
          CaptureOne(x);
        }
        x := x + 1;
      }
    }

    /** The first read in flight runs to its end, well or badly. */
    method FinishRead(junk: Buffer)
      requires Valid() && s.inflight != []
      modifies this`s
      ensures Valid() && SameGuest(old(s)) && s.inflight == old(s.inflight)[1..] && s.dest == old(s.dest)
      ensures forall k :: 0 <= k < |s.devs| ==> s.devs[k].dirty == old(s.devs[k].dirty)
      ensures Outstanding() == old(Outstanding())
    {
      hide State.Inv, State.Base, LoadAll, BufferOf;
      CaptureRest();
      var ok: bool := *;
      FirstInRange();
      CompleteKeeps(s, 0, ok, junk);
      s := Next(s, Complete(0, ok, junk));
    }

    /** bdrv_drain_all, as far as reads of the migration are concerned. */
    method Drain(junk: Buffer)
      requires Valid()
      modifies this`s
      ensures Valid() && SameGuest(old(s)) && s.inflight == [] && s.dest == old(s.dest)
      ensures forall k :: 0 <= k < |s.devs| ==> s.devs[k].dirty == old(s.devs[k].dirty)
      ensures Outstanding() == old(Outstanding())
      ensures old(s.inflight) == [] ==> s == old(s)
    {
      while s.inflight != []
        invariant Valid() && SameGuest(old(s)) && s.dest == old(s.dest)
        invariant forall k :: 0 <= k < |s.devs| ==> s.devs[k].dirty == old(s.devs[k].dirty)
        invariant old(s.inflight) == [] ==> s == old(s)
        invariant Outstanding() == old(Outstanding())
        decreases |s.inflight|
      {
        FinishRead(junk);
      }
    }

    /** No chunk is dirty whose bulk read is still in flight. */
    ghost predicate BulkSettled()
      reads this
    {
      forall i :: 0 <= i < |s.inflight| && s.inflight[i].bulk && s.inflight[i].dev < |s.devs| ==>
        s.inflight[i].chunk !in s.devs[s.inflight[i].dev].dirty
    }

    method SubmitReread(d: nat, c: nat)
      requires Valid() && BulkSettled() && d < |s.devs| && s.devs[d].cur == |s.devs[d].disk|
      requires c in s.devs[d].dirty && (c in s.devs[d].aio ==> s.inflight == [])
      modifies this`s
      ensures Valid() && BulkSettled() && SameGuest(old(s)) && s == Next(old(s), Reread(d, c))
    {
      RereadKeeps(s, d, c);
      ghost var s' := Next(s, Reread(d, c));
      forall i | 0 <= i < |s'.inflight| && s'.inflight[i].bulk && s'.inflight[i].dev < |s'.devs|
        ensures s'.inflight[i].chunk !in s'.devs[s'.inflight[i].dev].dirty
      {
        assert s'.inflight[i] == s.inflight[i];
      }
      hide State.Inv;
      s := Next(s, Reread(d, c));
    }

    /** mig_save_device_dirty, asynchronous: 0 if a chunk was submitted, the first dirty one from the
        cursor on, and 1 if none is left. */
    method RereadDirty(d: nat, junk: Buffer) returns (ret: int)
      requires Valid() && BulkSettled() && d < |s.devs| && s.devs[d].cur == |s.devs[d].disk|
      modifies this`s, this`curDirty
      ensures Valid() && BulkSettled() && (ret == 0 || ret == 1) && curDirty == old(curDirty)[d := curDirty[d]]
      ensures ret == 1 ==> NoneFrom(old(s), d, old(curDirty)[d]) && Waited(old(s), s)
      ensures ret == 0 ==> var c := curDirty[d] / 2048;
                curDirty[d] == c * 2048 && FirstFrom(old(s), d, old(curDirty)[d], c) && Rereads(old(s), s, d, c)
    {
      hide State.Inv, LoadAll;
      var sector := curDirty[d];
      while sector < |s.devs[d].disk|
        invariant Valid() && BulkSettled() && Waited(old(s), s) && sector == curDirty[d]
        invariant d < |curDirty| == |old(curDirty)| && curDirty == old(curDirty)[d := sector]
        invariant old(curDirty)[d] <= sector && sector % 2048 == 0
        invariant forall c :: c in old(s.devs[d].dirty) && old(curDirty)[d] <= c * 2048 ==> sector <= c * 2048
      {
        var c := sector / 2048;
        if c in s.devs[d].aio {
          Drain(junk);
        }
        if c in s.devs[d].dirty {
          SubmitReread(d, c);
          return if curDirty[d] >= |s.devs[d].disk| then 1 else 0;
        }
        sector := sector + 2048;
        curDirty := curDirty[d := sector];
      }
      DirtyOnDisk(d);
      ret := if curDirty[d] >= |s.devs[d].disk| then 1 else 0;
    }

    /** blk_mig_save_dirty_block, asynchronous: the first dirty chunk of the first device that has one, from
        the cursors on, or none. */
    method RereadDirtyBlock(junk: Buffer) returns (ret: int)
      requires Valid() && BulkSettled() && AllRead(s)
      modifies this`s, this`curDirty
      ensures Valid() && BulkSettled() && (ret == 0 || ret == 1)
      ensures ret == 1 ==> Waited(old(s), s) && forall k :: 0 <= k < |s.devs| ==> NoneFrom(old(s), k, old(curDirty)[k])
      ensures ret == 0 ==> exists d: nat, c: nat :: FirstDirty(old(s), old(curDirty), d, c) && Rereads(old(s), s, d, c)
      ensures (old(Ahead()) ==> Ahead()) && AllRead(s)
      ensures Outstanding() == old(Outstanding()) + if ret == 0 then 1 else 0
    {
      hide State.Inv, LoadAll;
      ret := 1;
      for d := 0 to |s.devs|
        invariant Valid() && BulkSettled() && ret == 1 && Waited(old(s), s) && |curDirty| == |old(curDirty)|
        invariant forall k :: 0 <= k < d ==> NoneFrom(old(s), k, old(curDirty)[k])
        invariant forall k :: d <= k < |curDirty| ==> curDirty[k] == old(curDirty)[k]
        invariant old(Ahead()) ==> Ahead()
      {
        ghost var mid := s;
        ret := RereadDirty(d, junk);
        if ret <= 0 {
          WaitedThenRereads(old(s), mid, s, d, curDirty[d] / 2048);
          assert FirstDirty(old(s), old(curDirty), d, curDirty[d] / 2048);
          return;
        }
      }
    }

    /** blk_mig_save_bulked_block, without its progress report: 0 once every device is done. */
    method SaveBulkedBlock() returns (ret: int)
      requires Valid() && BulkSettled()
      modifies this`s
      ensures Valid() && BulkSettled() && |s.devs| == old(|s.devs|) && (ret == 0 || ret == 1)
      ensures ret == 1 ==> Outstanding() == old(Outstanding()) + 1
      ensures old(Ahead()) ==> Ahead()
      ensures ret == 1 ==> exists d :: FirstUnfinished(old(s), d) && s == Next(old(s), Bulk(d))
      ensures ret == 0 ==> s == old(s) && forall k :: 0 <= k < |s.devs| ==> s.devs[k].cur == |s.devs[k].disk|
    {
      for d := 0 to |s.devs|
        invariant s == old(s) && forall k :: 0 <= k < d ==> s.devs[k].cur == |s.devs[k].disk|
      {
        if s.devs[d].cur < |s.devs[d].disk| {
          assert FirstUnfinished(s, d);
          var done := SaveDeviceBulk(d);
          return 1;
        }
      }
      return 0;
    }

    lemma DirtyOnDisk(d: nat)
      requires Valid() && d < |s.devs|
      ensures forall c :: c in s.devs[d].dirty ==> c * 2048 < |s.devs[d].disk|
    {
      assert s.devs[d].Ok();
    }

    /** The reading loop of block_save_iterate, through the states of `trace`. */
    method ReadOn(rate: nat, junk: Buffer) returns (ghost trace: seq<State>)
      requires Valid() && BulkSettled() && Ahead()
      modifies this`s, this`curDirty
      ensures Valid() && BulkSettled() && Enough(s, rate)
      ensures ReadsOn(trace, rate) && trace[0] == old(s) && Waited(trace[|trace| - 1], s)
    {
      hide State.Inv, LoadAll, Next, Enabled, ReadsOn, ReadStep, FirstUnfinished, FirstDirty, Rereads;
      trace := [s];
      ReadsOnce(s, rate);
      var bulkCompleted := false;
      while Outstanding() < rate
        invariant Valid() && BulkSettled() && Ahead() && (bulkCompleted ==> AllRead(s))
        invariant ReadsOn(trace, rate) && trace != [] && trace[0] == old(s) && trace[|trace| - 1] == s
        decreases rate - Outstanding(), !bulkCompleted
      {
        ghost var before, cursors := s, curDirty;
        if !bulkCompleted {
          var more := SaveBulkedBlock();
          if more == 0 {
            bulkCompleted := true;
          } else {
            BulkIsStep(before, s);
            ReadsMore(trace, rate, s);
            trace := trace + [s];
          }
        } else {
          var ret := RereadDirtyBlock(junk);
          if ret != 0 {
            NoneDirty(before, cursors, s);
            break;
          }
          RereadIsStep(before, cursors, s);
          ReadsMore(trace, rate, s);
          trace := trace + [s];
        }
      }
    }

    /** block_save_iterate, with room for `rate` outstanding blocks and `budget` blocks to send
        in each of its two flushes. The guest does not run in between; runs in which it does are
        covered by Converges.  It reads through the states of `trace`, up to `ready`. */
    method SaveIterate(rate: nat, budget: nat, junk: Buffer)
      returns (ret: int, ghost trace: seq<State>, ghost ready: State)
      requires Valid() && BulkSettled()
      modifies this`s, this`stream, this`curDirty
      ensures Valid() && BulkSettled() && ret <= 0 && (ret < 0 ==> s.queue != [] && !s.queue[0].ok)
      ensures ret == 0 ==>
                && ReadsOn(trace, rate) && Flushes(old(s), trace[0], budget)
                && Waited(trace[|trace| - 1], ready) && Enough(ready, rate) && Flushes(ready, s, budget)
                && stream == old(stream) + Encoded(old(s.queue)[..Least(budget, old(|s.queue|))], zeroBlocks)
                             + Encoded(ready.queue[..Least(budget, |ready.queue|)], zeroBlocks) + [Eos]
    {
      hide State.Inv, LoadAll, ReadsOn, Waited, Enough, Encoded, Sent, Flushes, Load, State.Broken;
      trace, ready := [], s;
      ret := FlushBlks(budget);
      if ret != 0 {
        return;
      }
      curDirty := seq(|s.devs|, _ => 0);
      trace := ReadOn(rate, junk);
      ready := s;
      ret := FlushBlks(budget);
      if ret == 0 {
        NotABlock(s.dest, 0);
        Put(Eos);
      }
    }

    /** The VM is stopped, all reads are done and sent, and the bulk phase is over. */
    ghost predicate Quiet()
      reads this
    {
      && s.inflight == [] && s.queue == [] && s.unmarked == multiset{}
      && forall k :: 0 <= k < |s.devs| ==> s.devs[k].cur == |s.devs[k].disk|
    }

    /** No dirty chunk lies behind the cursor of the dirty pass. */
    ghost predicate Ahead()
      reads this
    {
      NoneBehind(s, curDirty)
    }

    method SendNow(d: nat, c: nat, junk: Buffer)
      requires Valid() && Quiet() && Ahead() && d < |s.devs| && c in s.devs[d].dirty
      modifies this`s, this`stream
      ensures Valid() && Quiet() && Ahead() && SameGuest(old(s)) && DirtyCount(s.devs) < DirtyCount(old(s.devs))
      ensures SentNow(old(s), old(stream), d, c, junk)
    {
      hide State.Inv, State.Base, LoadAll, Encode, Written, ReadNow, DirtyCount;
      DirtyInRange(d, c);
      SyncSendKeeps(s, d, c, junk);
      ghost var s' := Next(s, SyncSend(d, c, junk));
      DirtyLess(s.devs, d, s'.devs[d]);
      SendBlock(Block(d, c, ReadNow(s.devs[d], c, junk), true), s');
      s := Next(s, SyncSend(d, c, junk));
    }

    lemma DirtyInRange(d: nat, c: nat)
      requires Valid() && d < |s.devs| && c in s.devs[d].dirty
      ensures s.Base() && d < |s.dest| && c * 2048 < |s.dest[d]|
    {
      assert s.devs[d].Ok();
    }

    /** Chunk `c` of device `d` has been read and sent at once. */
    ghost predicate SentNow(before: State, records: seq<Record>, d: nat, c: nat, junk: Buffer)
      reads this
    {
      && Enabled(before, SyncSend(d, c, junk)) && s == Next(before, SyncSend(d, c, junk))
      && stream == records + [Encode(Block(d, c, ReadNow(before.devs[d], c, junk), true), zeroBlocks)]
    }

    /** mig_save_device_dirty, synchronous: 0 if a chunk was sent, the first dirty one from the cursor on, 1
        if none is left, and negative if it could not be read. */
    method SendDirty(d: nat, faulty: bool, junk: Buffer) returns (ret: int)
      requires Valid() && Quiet() && Ahead() && d < |s.devs|
      modifies this`s, this`stream, this`curDirty
      ensures Valid() && Quiet() && Ahead() && SameGuest(old(s)) && ret <= 1 && (!faulty ==> ret >= 0)
      ensures ret == 0 ==> DirtyCount(s.devs) < DirtyCount(old(s.devs)) && d < |s.devs|
      ensures ret == 0 ==> exists c: nat :: FirstFrom(old(s), d, 0, c) && SentNow(old(s), old(stream), d, c, junk)
      ensures ret != 0 ==> s == old(s) && stream == old(stream)
      ensures ret == 1 ==> s.devs[d].dirty == {}
    {
      hide State.Inv, State.Base, LoadAll, DirtyCount, SentNow, Next, Enabled;
      var sector := curDirty[d];
      while sector < |s.devs[d].disk|
        invariant Valid() && Ahead() && s == old(s) && stream == old(stream) && sector == curDirty[d]
      {
        var c := sector / 2048;
        if c in s.devs[d].dirty {
          var bad: bool := *;
          if faulty && bad {
            return -5;
          }
          SendNow(d, c, junk);
          assert FirstFrom(old(s), d, 0, c);
          return if curDirty[d] >= |s.devs[d].disk| then 1 else 0;
        }
        sector := sector + 2048;
        curDirty := curDirty[d := sector];
      }
      DirtyOnDisk(d);
      ret := if curDirty[d] >= |s.devs[d].disk| then 1 else 0;
    }

    /** blk_mig_save_dirty_block, synchronous: the first dirty chunk of the first device that has one. */
    method SendDirtyBlock(faulty: bool, junk: Buffer) returns (ret: int)
      requires Valid() && Quiet() && Ahead()
      modifies this`s, this`stream, this`curDirty
      ensures Valid() && Quiet() && Ahead() && SameGuest(old(s)) && ret <= 1 && (!faulty ==> ret >= 0)
      ensures ret == 0 ==> DirtyCount(s.devs) < DirtyCount(old(s.devs))
      ensures ret == 0 ==> exists d: nat, c: nat ::
                FirstOfAll(old(s), d, c) && SentNow(old(s), old(stream), d, c, junk)
      ensures ret != 0 ==> s == old(s) && stream == old(stream)
      ensures ret == 1 ==> Finished(s)
    {
      hide State.Inv, LoadAll, DirtyCount, SentNow;
      ret := 1;
      for d := 0 to |s.devs|
        invariant Valid() && Quiet() && Ahead() && s == old(s) && stream == old(stream) && ret == 1
        invariant forall k :: 0 <= k < d ==> s.devs[k].dirty == {}
      {
        ret := SendDirty(d, faulty, junk);
        if ret <= 0 {
          if ret == 0 {
            ghost var c: nat :| FirstFrom(old(s), d, 0, c) && SentNow(old(s), old(stream), d, c, junk);
            assert FirstOfAll(old(s), d, c);
          }
          return;
        }
      }
    }

    /** The loop of block_save_complete; each pass that goes on has cleared a dirty chunk. */
    method SendAllDirty(faulty: bool, junk: Buffer) returns (ret: int)
      requires Valid() && Quiet() && Ahead()
      modifies this`s, this`stream, this`curDirty
      ensures Valid() && SameGuest(old(s)) && (!faulty ==> ret >= 0) && (ret >= 0 ==> Finished(s))
    {
      hide State.Inv, LoadAll, DirtyCount, Finished;
      ret := 0;
      while ret == 0
        invariant Valid() && Quiet() && Ahead() && SameGuest(old(s)) && (ret == 0 || (ret == 1 && Finished(s)))
        decreases if ret == 0 then 1 else 0, DirtyCount(s.devs)
      {
        ret := SendDirtyBlock(faulty, junk);
        if ret < 0 {
          return;
        }
      }
    }

    /** block_save_complete: with the VM stopped and drained, the bulk phase over and no rate
        limit, it ends, and then the destination has the source's disks. */
    method SaveComplete(faulty: bool, junk: Buffer) returns (ret: int)
      requires Valid() && s.inflight == [] && s.unmarked == multiset{}
      requires forall k :: 0 <= k < |s.devs| ==> s.devs[k].cur == |s.devs[k].disk|
      modifies this`s, this`stream, this`curDirty
      ensures Valid() && SameGuest(old(s)) && LoadAll(dest0, stream) == Some(s.dest)
      ensures ret <= 0 && (!faulty && !old(s.Broken()) ==> ret == 0)
      ensures ret == 0 ==> |s.dest| == |s.devs| && forall k :: 0 <= k < |s.devs| ==> s.dest[k] == s.devs[k].disk
      ensures ret == 0 ==> |stream| >= 2 && stream[|stream| - 2..] == [Progress(100), Eos]
    {
      hide State.Inv, State.Broken, LoadAll, Finished, Sent, Load;
      ret := FlushBlks(|s.queue|);
      if ret != 0 {
        return;
      }
      NoneSubmitted();
      assert s.submitted == 0;
      curDirty := seq(|s.devs|, _ => 0);
      ret := SendAllDirty(faulty, junk);
      if ret < 0 {
        return;
      }
      FinishedIsEqual(s);
      Close();
      ret := 0;
    }

    lemma NoneSubmitted()
      requires Valid() && s.inflight == []
      ensures s.submitted == 0
    {}

    /** The last records of the stream. */
    method Close()
      requires Valid()
      modifies this`stream
      ensures Valid() && stream == old(stream) + [Progress(100), Eos]
    {
      hide State.Inv, LoadAll, Load;
      NotABlock(s.dest, 100);
      Put(Progress(100));
      Put(Eos);
    }
  }

  lemma BulkIsStep(s: State, t: State)
    requires exists d :: FirstUnfinished(s, d) && t == Next(s, Bulk(d))
    ensures ReadStep(s, t)
  {}

  /** No dirty chunk lies behind the cursor of its device. */
  ghost predicate NoneBehind(s: State, cursors: seq<nat>) {
    |cursors| == |s.devs| && forall k, c :: 0 <= k < |s.devs| && c in s.devs[k].dirty ==> cursors[k] <= c * 2048
  }

  lemma RereadIsStep(s: State, cursors: seq<nat>, t: State)
    requires AllRead(s) && NoneBehind(s, cursors)
    requires exists d: nat, c: nat :: FirstDirty(s, cursors, d, c) && Rereads(s, t, d, c)
    ensures ReadStep(s, t)
  {
    hide Rereads;
    var d: nat, c: nat :| FirstDirty(s, cursors, d, c) && Rereads(s, t, d, c);
    forall k | 0 <= k < d ensures s.devs[k].dirty == {} {
      assert NoneFrom(s, k, cursors[k]);
    }
    assert FirstOfAll(s, d, c);
  }

  lemma NoneDirty(s: State, cursors: seq<nat>, t: State)
    requires AllRead(s) && NoneBehind(s, cursors) && Waited(s, t)
    requires forall k :: 0 <= k < |s.devs| ==> NoneFrom(s, k, cursors[k])
    ensures NothingToRead(t)
  {
    forall k | 0 <= k < |s.devs| ensures t.devs[k].dirty == {} {
      assert NoneFrom(s, k, cursors[k]);
    }
  }

  lemma NotABlock(dest: seq<seq<Sector>>, percent: nat)
    ensures Load(dest, Eos) == Some(dest) && Load(dest, Progress(percent)) == Some(dest)
  {
    FlagParts();
    HeaderParts(percent, FLAG_PROGRESS);
  }

  lemma FlagParts()
    ensures HasFlag(FLAG_EOS, FLAG_EOS) && !HasFlag(FLAG_EOS, FLAG_DEVICE_BLOCK) && !HasFlag(FLAG_EOS, FLAG_PROGRESS)
    ensures HasFlag(FLAG_PROGRESS, FLAG_PROGRESS) && !HasFlag(FLAG_PROGRESS, FLAG_DEVICE_BLOCK)
  {}
}
