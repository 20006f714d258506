/**
 * Live block migration (block-migration.c) as a protocol: bulk reads, re-reads of dirty
 * chunks, guest writes, read completions, sends, and the final synchronous pass.
 */
module BlockMigration {
  /** BDRV_SECTORS_PER_DIRTY_CHUNK: one MiB in sectors of 512 bytes. */
  const CHUNK: nat := 2048

  /** The content of a sector; 0 is the all-zero sector. */
  type Sector = int

  type Buffer = b: seq<Sector> | |b| == CHUNK witness seq(CHUNK, _ => 0)

  /** A read in flight: which sectors of the chunk have reached the buffer so far. */
  datatype Read = Read(dev: nat, chunk: nat, bulk: bool, got: map<nat, Sector>)

  /** A finished read in blk_list; `ok` is false for a negative return code. */
  datatype Block = Block(dev: nat, chunk: nat, buf: Buffer, ok: bool)

  /** BlkMigDevState, with the guest's disk; the two bitmaps are sets of chunk numbers. */
  datatype Device = Device(disk: seq<Sector>, dirty: set<nat>, aio: set<nat>, cur: nat) {
    ghost predicate Ok() {
      && 0 < |disk| && cur <= |disk| && (cur % 2048 == 0 || cur == |disk|)
      && (forall c :: c in dirty ==> c * 2048 < |disk|)
    }
  }

  /** What one record of the stream does to the destination's disks. */
  function Written(dest: seq<seq<Sector>>, b: Block): (r: seq<seq<Sector>>)
    requires b.dev < |dest|
    ensures |r| == |dest| && forall d :: 0 <= d < |dest| ==> |r[d]| == |dest[d]|
  {
    var was := dest[b.dev];
    dest[b.dev := seq(|was|, x requires 0 <= x < |was| => if x / 2048 == b.chunk then b.buf[x % 2048] else was[x])]
  }

  lemma WrittenAt(dest: seq<seq<Sector>>, b: Block, d: nat, x: nat)
    requires b.dev < |dest| && d < |dest| && x < |dest[d]|
    ensures Written(dest, b)[d][x] == if d == b.dev && x / 2048 == b.chunk then b.buf[x % 2048] else dest[d][x]
  {}

  /** The destination once every block of the queue has been sent. */
  function Flushed(dest: seq<seq<Sector>>, queue: seq<Block>): (r: seq<seq<Sector>>)
    requires forall k :: 0 <= k < |queue| ==> queue[k].dev < |dest|
    ensures |r| == |dest| && forall d :: 0 <= d < |dest| ==> |r[d]| == |dest[d]|
    decreases |queue|
  {
    if queue == [] then dest else Flushed(Written(dest, queue[0]), queue[1..])
  }

  lemma {:induction false} FlushedAppend(dest: seq<seq<Sector>>, queue: seq<Block>, b: Block)
    requires b.dev < |dest| && forall k :: 0 <= k < |queue| ==> queue[k].dev < |dest|
    ensures Flushed(dest, queue + [b]) == Written(Flushed(dest, queue), b)
    decreases |queue|
  {
    if queue == [] {
      assert (queue + [b])[1..] == [];
    } else {
      assert (queue + [b])[1..] == queue[1..] + [b];
      FlushedAppend(Written(dest, queue[0]), queue[1..], b);
    }
  }

  /** Block migration state. `unmarked` are guest writes that have reached the disk but
      have not yet set their dirty bit; `dest` is what the loader has written so far. */
  datatype State = State(devs: seq<Device>, inflight: seq<Read>, queue: seq<Block>, unmarked: multiset<(nat, nat)>,
                         dest: seq<seq<Sector>>, submitted: int, readDone: int)
  {
    ghost predicate ReadOk(r: Read) {
      && r.dev < |devs| && r.chunk * 2048 < devs[r.dev].cur
      && (forall x :: x in r.got ==> x / 2048 == r.chunk && x < |devs[r.dev].disk|)
    }

    ghost predicate Reading(d: nat, c: nat) {
      exists i :: 0 <= i < |inflight| && inflight[i].dev == d && inflight[i].chunk == c
    }

    ghost predicate Base() {
      && |dest| == |devs| && submitted == |inflight| && readDone == |queue|
      && (forall d :: 0 <= d < |devs| ==> devs[d].Ok() && |dest[d]| == |devs[d].disk|)
      && (forall i :: 0 <= i < |inflight| ==> ReadOk(inflight[i]))
      && (forall k :: 0 <= k < |queue| ==> queue[k].dev < |devs| && queue[k].chunk * 2048 < |devs[queue[k].dev].disk|)
      && (forall w :: w in unmarked ==> w.0 < |devs| && w.1 < |devs[w.0].disk|)
    }

    /** At most one read per chunk is in flight, and re-reads are marked in the aio bitmap. */
    ghost predicate Shape() {
      && Base()
      && (forall i, j :: 0 <= i < j < |inflight| ==>
            inflight[i].dev != inflight[j].dev || inflight[i].chunk != inflight[j].chunk)
      && (forall i :: 0 <= i < |inflight| && !inflight[i].bulk ==> inflight[i].chunk in devs[inflight[i].dev].aio)
    }

    /** Sector `x` of device `d` will be sent again, because its chunk is or will be dirty. */
    ghost predicate Pending(d: nat, x: nat)
      requires d < |devs|
    {
      x / 2048 in devs[d].dirty || (d, x) in unmarked
    }

    /** A read has failed; migration cannot complete any more. */
    ghost predicate Broken() { exists k :: 0 <= k < |queue| && !queue[k].ok }

    /** What has been read for sector `x` is still what the guest's disk holds. */
    ghost predicate ReadRight(r: Read, x: nat) {
      r.dev < |devs| && x < |devs[r.dev].disk| && x in r.got && !Pending(r.dev, x) ==>
        r.got[x] == devs[r.dev].disk[x]
    }

    /** A sector that nobody is going to send again is right at the destination once the queue is sent. */
    ghost predicate SentRight(d: nat, x: nat)
      requires Shape()
    {
      d < |devs| && x < devs[d].cur && !Pending(d, x) && !Reading(d, x / 2048) ==>
        Flushed(dest, queue)[d][x] == devs[d].disk[x]
    }

    ghost predicate Right()
      requires Shape()
    {
      && (forall i, x :: 0 <= i < |inflight| ==> ReadRight(inflight[i], x))
      && (forall d: nat, x: nat :: SentRight(d, x))
    }

    ghost predicate Inv() {
      Shape() && (Broken() || Right())
    }
  }

  /** The steps of the protocol. Submitting a read and clearing the dirty bit happen under one
      hold of the iothread lock, so they are one step. */
  datatype Event =
    | Bulk(d: nat)                                // mig_save_device_bulk
    | Reread(d: nat, c: nat)                      // mig_save_device_dirty, asynchronous
    | Capture(i: nat, x: nat)                     // the device reads one sector into the buffer
    | Complete(i: nat, ok: bool, junk: Buffer)    // blk_mig_read_cb
    | Send                                        // one turn of flush_blks
    | SyncSend(d: nat, c: nat, junk: Buffer)      // mig_save_device_dirty, synchronous
    | Land(d: nat, x: nat, v: Sector)             // a guest write reaches the disk
    | Mark(d: nat, x: nat)                        // ... and sets its dirty bit

  predicate InChunk(v: Device, c: nat, x: nat) { x < |v.disk| && x / 2048 == c }

  ghost predicate AllGot(v: Device, r: Read) {
    forall x :: InChunk(v, r.chunk, x) ==> x in r.got
  }

  /** The buffer of a finished read; past the end of the disk it holds what the allocator left there. */
  function BufferOf(r: Read, junk: Buffer): Buffer {
    seq(CHUNK, o requires 0 <= o < CHUNK => if r.chunk * 2048 + o in r.got then r.got[r.chunk * 2048 + o] else junk[o])
  }

  function ReadNow(v: Device, c: nat, junk: Buffer): Buffer {
    seq(CHUNK, o requires 0 <= o < CHUNK => if c * 2048 + o < |v.disk| then v.disk[c * 2048 + o] else junk[o])
  }

  /** When the code may take a step. A re-read first waits for a re-read of the same chunk that is
      marked as in flight, by draining all reads. */
  ghost predicate Enabled(s: State, e: Event) {
    s.Base() &&
    match e
    case Bulk(d) => d < |s.devs| && s.devs[d].cur < |s.devs[d].disk|
    case Reread(d, c) =>
      && d < |s.devs| && c in s.devs[d].dirty && (c in s.devs[d].aio ==> s.inflight == [])
      && s.devs[d].cur == |s.devs[d].disk|
    case Capture(i, x) =>
      i < |s.inflight| && InChunk(s.devs[s.inflight[i].dev], s.inflight[i].chunk, x) && x !in s.inflight[i].got
    case Complete(i, ok, junk) =>
      i < |s.inflight| && (ok ==> AllGot(s.devs[s.inflight[i].dev], s.inflight[i]))
    case Send => s.queue != [] && s.queue[0].ok
    case SyncSend(d, c, junk) =>
      && d < |s.devs| && c in s.devs[d].dirty && s.queue == [] && s.inflight == []
      && s.devs[d].cur == |s.devs[d].disk|
    case Land(d, x, v) => d < |s.devs| && x < |s.devs[d].disk|
    case Mark(d, x) => (d, x) in s.unmarked
  }

  function Next(s: State, e: Event): State
    requires Enabled(s, e)
  {
    match e
    case Bulk(d) =>
      var v := s.devs[d];
      var c := v.cur / 2048;
      var cur := if |v.disk| - v.cur < 2048 then |v.disk| else v.cur + 2048;
      s.(devs := s.devs[d := v.(cur := cur, dirty := v.dirty - {c})],
         inflight := s.inflight + [Read(d, c, true, map[])], submitted := s.submitted + 1)
    case Reread(d, c) =>
      var v := s.devs[d];
      s.(devs := s.devs[d := v.(dirty := v.dirty - {c}, aio := v.aio + {c})],
         inflight := s.inflight + [Read(d, c, false, map[])], submitted := s.submitted + 1)
    case Capture(i, x) =>
      var r := s.inflight[i];
      s.(inflight := s.inflight[i := r.(got := r.got[x := s.devs[r.dev].disk[x]])])
    case Complete(i, ok, junk) =>
      var r := s.inflight[i];
      var v := s.devs[r.dev];
      s.(devs := s.devs[r.dev := v.(aio := v.aio - {r.chunk})],
         inflight := s.inflight[..i] + s.inflight[i + 1..],
         queue := s.queue + [Block(r.dev, r.chunk, BufferOf(r, junk), ok)],
         submitted := s.submitted - 1, readDone := s.readDone + 1)
    case Send => s.(dest := Written(s.dest, s.queue[0]), queue := s.queue[1..], readDone := s.readDone - 1)
    case SyncSend(d, c, junk) =>
      var v := s.devs[d];
      s.(devs := s.devs[d := v.(dirty := v.dirty - {c})],
         dest := Written(s.dest, Block(d, c, ReadNow(v, c, junk), true)))
    case Land(d, x, v) =>
      s.(devs := s.devs[d := s.devs[d].(disk := s.devs[d].disk[x := v])], unmarked := s.unmarked + multiset{(d, x)})
    case Mark(d, x) =>
      var v := s.devs[d];
      s.(devs := s.devs[d := v.(dirty := v.dirty + {x / 2048})], unmarked := s.unmarked - multiset{(d, x)})
  }

  // Every step leads from a well-formed state to a well-formed state.

  lemma BulkBase(s: State, d: nat)
    requires Enabled(s, Bulk(d))
    ensures Next(s, Bulk(d)).Base()
  {
    var s' := Next(s, Bulk(d));
    assert s.devs[d].Ok();
    forall j | 0 <= j < |s'.inflight| ensures s'.ReadOk(s'.inflight[j]) {
      if j < |s.inflight| { assert s.ReadOk(s.inflight[j]); }
    }
  }

  lemma RereadBase(s: State, d: nat, c: nat)
    requires Enabled(s, Reread(d, c))
    ensures Next(s, Reread(d, c)).Base()
  {
    var s' := Next(s, Reread(d, c));
    forall j | 0 <= j < |s'.inflight| ensures s'.ReadOk(s'.inflight[j]) {
      if j < |s.inflight| { assert s.ReadOk(s.inflight[j]); }
    }
  }

  lemma CompleteBase(s: State, i: nat, ok: bool, junk: Buffer)
    requires Enabled(s, Complete(i, ok, junk))
    ensures Next(s, Complete(i, ok, junk)).Base()
  {
    var s' := Next(s, Complete(i, ok, junk));
    forall j | 0 <= j < |s'.inflight| ensures s'.ReadOk(s'.inflight[j]) {
      assert s'.inflight[j] == s.inflight[if j < i then j else j + 1];
      assert s.ReadOk(s.inflight[if j < i then j else j + 1]);
    }
  }

  lemma CaptureBase(s: State, i: nat, x: nat)
    requires Enabled(s, Capture(i, x))
    ensures Next(s, Capture(i, x)).Base()
  {
    var s' := Next(s, Capture(i, x));
    forall j | 0 <= j < |s'.inflight| ensures s'.ReadOk(s'.inflight[j]) { assert s.ReadOk(s.inflight[j]); }
  }

  lemma SendBase(s: State)
    requires Enabled(s, Send)
    ensures Next(s, Send).Base()
  {
    var s' := Next(s, Send);
    forall j | 0 <= j < |s'.inflight| ensures s'.ReadOk(s'.inflight[j]) { assert s.ReadOk(s.inflight[j]); }
  }

  lemma SyncSendBase(s: State, d: nat, c: nat, junk: Buffer)
    requires Enabled(s, SyncSend(d, c, junk))
    ensures Next(s, SyncSend(d, c, junk)).Base()
  {
  }

  lemma LandBase(s: State, d: nat, x: nat, v: Sector)
    requires Enabled(s, Land(d, x, v))
    ensures Next(s, Land(d, x, v)).Base()
  {
    var s' := Next(s, Land(d, x, v));
    forall j | 0 <= j < |s'.inflight| ensures s'.ReadOk(s'.inflight[j]) { assert s.ReadOk(s.inflight[j]); }
  }

  lemma MarkBase(s: State, d: nat, x: nat)
    requires Enabled(s, Mark(d, x))
    ensures Next(s, Mark(d, x)).Base()
  {
    var s' := Next(s, Mark(d, x));
    forall j | 0 <= j < |s'.inflight| ensures s'.ReadOk(s'.inflight[j]) { assert s.ReadOk(s.inflight[j]); }
  }

  /** The source does not mark bulk reads as in flight, so nothing in it makes a re-read wait
      for the bulk read of the same chunk; this is what has to be assumed instead. */
  ghost predicate NotOvertaking(s: State, e: Event) {
    e.Reread? ==> forall i :: 0 <= i < |s.inflight| && s.inflight[i].bulk ==>
                    s.inflight[i].dev != e.d || s.inflight[i].chunk != e.c
  }

  /** A read of chunk `c` of device `d` is submitted and the chunk's dirty bit is cleared. */
  ghost predicate Submits(s: State, s': State, d: nat, c: nat, bulk: bool) {
    && s.Shape() && s'.Shape() && d < |s.devs| && !s.Reading(d, c)
    && s'.inflight == s.inflight + [Read(d, c, bulk, map[])]
    && s'.queue == s.queue && s'.dest == s.dest && s'.unmarked == s.unmarked
    && |s'.devs| == |s.devs| && (forall k :: 0 <= k < |s.devs| && k != d ==> s'.devs[k] == s.devs[k])
    && s'.devs[d].disk == s.devs[d].disk && s'.devs[d].dirty == s.devs[d].dirty - {c}
    && (forall x :: s.devs[d].cur <= x < s'.devs[d].cur ==> x / 2048 == c)
  }

  lemma SubmitRight(s: State, s': State, d: nat, c: nat, bulk: bool)
    requires Submits(s, s', d, c, bulk) && s.Right()
    ensures s'.Right()
  {
    forall i, x | 0 <= i < |s'.inflight| ensures s'.ReadRight(s'.inflight[i], x) {
      if i < |s.inflight| {
        assert s.ReadRight(s.inflight[i], x) && s.ReadOk(s.inflight[i]);
      }
    }
    assert s'.inflight[|s.inflight|] == Read(d, c, bulk, map[]);
    assert s'.Reading(d, c);
    forall k: nat, x: nat ensures s'.SentRight(k, x) {
      assert s.SentRight(k, x);
      if k < |s.devs| && s.Reading(k, x / 2048) {
        var i :| 0 <= i < |s.inflight| && s.inflight[i].dev == k && s.inflight[i].chunk == x / 2048;
        assert s'.inflight[i] == s.inflight[i];
      }
    }
  }

  lemma BulkKeeps(s: State, d: nat)
    requires s.Inv() && Enabled(s, Bulk(d))
    ensures Next(s, Bulk(d)).Inv()
  {
    var s' := Next(s, Bulk(d));
    var c := s.devs[d].cur / 2048;
    assert s.devs[d].Ok();
    BulkBase(s, d);
    forall i | 0 <= i < |s.inflight| ensures s'.inflight[i].chunk < c || s'.inflight[i].dev != d {
      assert s.ReadOk(s.inflight[i]);
    }
    assert s'.Shape();
    if !s.Broken() { SubmitRight(s, s', d, c, true); }
  }

  lemma RereadKeeps(s: State, d: nat, c: nat)
    requires s.Inv() && Enabled(s, Reread(d, c)) && NotOvertaking(s, Reread(d, c))
    ensures Next(s, Reread(d, c)).Inv()
  {
    var s' := Next(s, Reread(d, c));
    RereadBase(s, d, c);
    assert s'.Shape();
    if !s.Broken() { SubmitRight(s, s', d, c, false); }
  }

  lemma CaptureKeeps(s: State, i: nat, x: nat)
    requires s.Inv() && Enabled(s, Capture(i, x))
    ensures Next(s, Capture(i, x)).Inv()
  {
    var s' := Next(s, Capture(i, x));
    CaptureBase(s, i, x);
    assert s'.Shape();
    if !s.Broken() {
      forall j, y | 0 <= j < |s'.inflight| ensures s'.ReadRight(s'.inflight[j], y) {
        assert s.ReadRight(s.inflight[j], y);
      }
      forall d: nat, y: nat ensures s'.SentRight(d, y) {
        assert s.SentRight(d, y);
        SameReads(s, s', d, y / 2048);
      }
    }
  }

  lemma SameReads(s: State, s': State, d: nat, c: nat)
    requires |s'.inflight| == |s.inflight|
    requires forall i :: 0 <= i < |s.inflight| ==>
               s'.inflight[i].dev == s.inflight[i].dev && s'.inflight[i].chunk == s.inflight[i].chunk
    ensures s'.Reading(d, c) <==> s.Reading(d, c)
  {
    if s.Reading(d, c) {
      var i :| 0 <= i < |s.inflight| && s.inflight[i].dev == d && s.inflight[i].chunk == c;
      assert s'.inflight[i].dev == d;
    }
    if s'.Reading(d, c) {
      var i :| 0 <= i < |s.inflight| && s'.inflight[i].dev == d && s'.inflight[i].chunk == c;
      assert s.inflight[i].dev == d;
    }
  }

  /** Removing read `i` leaves the other reads, and no other for its chunk. */
  lemma ReadsLeft(s: State, i: nat, d: nat, c: nat)
    requires s.Shape() && i < |s.inflight|
    ensures var s' := s.(inflight := s.inflight[..i] + s.inflight[i + 1..]);
            s'.Reading(d, c) <==> s.Reading(d, c) && !(d == s.inflight[i].dev && c == s.inflight[i].chunk)
  {
    hide State.Base;
    var rest := s.inflight[..i] + s.inflight[i + 1..];
    var s' := s.(inflight := rest);
    if s.Reading(d, c) && !(d == s.inflight[i].dev && c == s.inflight[i].chunk) {
      var j :| 0 <= j < |s.inflight| && s.inflight[j].dev == d && s.inflight[j].chunk == c;
      assert rest[if j < i then j else j - 1] == s.inflight[j];
    }
    if s'.Reading(d, c) {
      var j :| 0 <= j < |rest| && rest[j].dev == d && rest[j].chunk == c;
      assert s.inflight[if j < i then j else j + 1] == rest[j];
    }
  }

  lemma CompleteShape(s: State, i: nat, ok: bool, junk: Buffer)
    requires s.Shape() && Enabled(s, Complete(i, ok, junk))
    ensures Next(s, Complete(i, ok, junk)).Shape()
  {
    var s' := Next(s, Complete(i, ok, junk));
    CompleteBase(s, i, ok, junk);
    assert forall j :: 0 <= j < |s'.inflight| ==> s'.inflight[j] == s.inflight[if j < i then j else j + 1];
  }

  /** A finished read carries the guest's data, except where it is going to be sent again. */
  lemma CompleteSent(s: State, i: nat, junk: Buffer, d: nat, x: nat)
    requires s.Shape() && s.Right() && Enabled(s, Complete(i, true, junk))
    requires Next(s, Complete(i, true, junk)).Shape()
    ensures Next(s, Complete(i, true, junk)).SentRight(d, x)
  {
    hide Written, Flushed, State.Reading;
    var s', r := Next(s, Complete(i, true, junk)), s.inflight[i];
    var b := Block(r.dev, r.chunk, BufferOf(r, junk), true);
    FlushedAppend(s.dest, s.queue, b);
    if d < |s.devs| && x < s.devs[d].cur {
      WrittenAt(Flushed(s.dest, s.queue), b, d, x);
    }
    ReadsLeft(s, i, d, x / 2048);
    SameReads(s.(inflight := s'.inflight), s', d, x / 2048);
    assert s.SentRight(d, x) && s.ReadRight(r, x);
    if d < |s.devs| && x < s.devs[d].cur && d == r.dev && x / 2048 == r.chunk {
      assert InChunk(s.devs[d], r.chunk, x);
      assert r.chunk * 2048 + x % 2048 == x;
    }
  }

  lemma CompleteKeeps(s: State, i: nat, ok: bool, junk: Buffer)
    requires s.Inv() && Enabled(s, Complete(i, ok, junk))
    ensures Next(s, Complete(i, ok, junk)).Inv()
  {
    var s' := Next(s, Complete(i, ok, junk));
    CompleteShape(s, i, ok, junk);
    if !ok {
      assert !s'.queue[|s.queue|].ok;
    } else if s.Broken() {
      var k :| 0 <= k < |s.queue| && !s.queue[k].ok;
      assert !s'.queue[k].ok;
    } else {
      forall j, y | 0 <= j < |s'.inflight| ensures s'.ReadRight(s'.inflight[j], y) {
        assert s.ReadRight(s.inflight[if j < i then j else j + 1], y);
      }
      forall d: nat, y: nat ensures s'.SentRight(d, y) { CompleteSent(s, i, junk, d, y); }
    }
  }

  lemma SendKeeps(s: State)
    requires s.Inv() && Enabled(s, Send)
    ensures Next(s, Send).Inv()
  {
    var s' := Next(s, Send);
    SendBase(s);
    assert s'.Shape();
    if s.Broken() {
      var k :| 0 <= k < |s.queue| && !s.queue[k].ok;
      assert !s'.queue[k - 1].ok;
    } else {
      forall j, y | 0 <= j < |s'.inflight| ensures s'.ReadRight(s'.inflight[j], y) {
        assert s.ReadRight(s.inflight[j], y);
      }
      forall d: nat, y: nat ensures s'.SentRight(d, y) {
        assert s.SentRight(d, y);
        SameReads(s, s', d, y / 2048);
      }
    }
  }

  lemma SyncSendKeeps(s: State, d: nat, c: nat, junk: Buffer)
    requires s.Inv() && Enabled(s, SyncSend(d, c, junk))
    ensures Next(s, SyncSend(d, c, junk)).Inv()
  {
    var s' := Next(s, SyncSend(d, c, junk));
    SyncSendBase(s, d, c, junk);
    assert s'.Shape();
    forall k: nat, y: nat ensures s'.SentRight(k, y) {
      assert s.SentRight(k, y);
      if k == d && y / 2048 == c { assert c * 2048 + y % 2048 == y; }
    }
  }

  lemma LandKeeps(s: State, d: nat, x: nat, v: Sector)
    requires s.Inv() && Enabled(s, Land(d, x, v))
    ensures Next(s, Land(d, x, v)).Inv()
  {
    var s' := Next(s, Land(d, x, v));
    LandBase(s, d, x, v);
    assert s'.Shape();
    if !s.Broken() {
      forall j, y | 0 <= j < |s'.inflight| ensures s'.ReadRight(s'.inflight[j], y) {
        assert s.ReadRight(s.inflight[j], y);
      }
      forall k: nat, y: nat ensures s'.SentRight(k, y) {
        assert s.SentRight(k, y);
        SameReads(s, s', k, y / 2048);
      }
    }
  }

  lemma MarkShape(s: State, d: nat, x: nat)
    requires s.Shape() && Enabled(s, Mark(d, x))
    ensures Next(s, Mark(d, x)).Shape()
  {
    var s' := Next(s, Mark(d, x));
    MarkBase(s, d, x);
  }

  lemma MarkKeeps(s: State, d: nat, x: nat)
    requires s.Inv() && Enabled(s, Mark(d, x))
    ensures Next(s, Mark(d, x)).Inv()
  {
    var s' := Next(s, Mark(d, x));
    MarkShape(s, d, x);
    if !s.Broken() {
      forall j, y | 0 <= j < |s'.inflight| ensures s'.ReadRight(s'.inflight[j], y) {
        assert s.ReadRight(s.inflight[j], y);
      }
      forall k: nat, y: nat ensures s'.SentRight(k, y) {
        assert s.SentRight(k, y);
        SameReads(s, s', k, y / 2048);
      }
    }
  }

  /** Every step keeps the invariant, as long as no re-read overtakes the bulk read of its chunk. */
  lemma StepKeeps(s: State, e: Event)
    requires s.Inv() && Enabled(s, e) && NotOvertaking(s, e)
    ensures Next(s, e).Inv()
  {
    match e
    case Bulk(d) => BulkKeeps(s, d);
    case Reread(d, c) => RereadKeeps(s, d, c);
    case Capture(i, x) => CaptureKeeps(s, i, x);
    case Complete(i, ok, junk) => CompleteKeeps(s, i, ok, junk);
    case Send => SendKeeps(s);
    case SyncSend(d, c, junk) => SyncSendKeeps(s, d, c, junk);
    case Land(d, x, v) => LandKeeps(s, d, x, v);
    case Mark(d, x) => MarkKeeps(s, d, x);
  }

  ghost predicate Goes(s: State, e: Event, t: State) {
    Enabled(s, e) && Next(s, e) == t
  }

  /** A run of the code: the states `ss` with the events `es` between them. */
  ghost predicate Path(ss: seq<State>, es: seq<Event>) {
    |ss| == |es| + 1 && forall k :: 0 <= k < |es| ==> Goes(ss[k], es[k], ss[k + 1])
  }

  /** block_save_setup: nothing read yet, nothing dirty, destination disks of the right sizes. */
  ghost predicate Start(s: State) {
    && s.Base() && s.inflight == [] && s.queue == []
    && (forall d :: 0 <= d < |s.devs| ==> s.devs[d].cur == 0 && s.devs[d].dirty == {})
  }

  /** What block_save_complete leaves behind: all sectors passed, nothing dirty or under way. */
  ghost predicate Finished(s: State) {
    && s.inflight == [] && s.queue == [] && s.unmarked == multiset{}
    && (forall d :: 0 <= d < |s.devs| ==> s.devs[d].cur == |s.devs[d].disk| && s.devs[d].dirty == {})
  }

  /** Every state of a run satisfies the invariant. */
  lemma {:induction false} RunKeeps(ss: seq<State>, es: seq<Event>, k: nat)
    requires Path(ss, es) && k < |ss| && Start(ss[0])
    requires forall i :: 0 <= i < k ==> NotOvertaking(ss[i], es[i])
    ensures ss[k].Inv()
  {
    if k > 0 {
      RunKeeps(ss, es, k - 1);
      assert Goes(ss[k - 1], es[k - 1], ss[k]);
      StepKeeps(ss[k - 1], es[k - 1]);
    }
  }

  lemma FinishedIsEqual(s: State)
    requires s.Inv() && Finished(s)
    ensures |s.dest| == |s.devs| && forall d :: 0 <= d < |s.devs| ==> s.dest[d] == s.devs[d].disk
  {
    forall d | 0 <= d < |s.devs| ensures s.dest[d] == s.devs[d].disk {
      forall x | 0 <= x < |s.dest[d]| ensures s.dest[d][x] == s.devs[d].disk[x] { assert s.SentRight(d, x); }
    }
  }

  /** Over every interleaving of reads, completions, sends and guest writes: when migration
      has finished, the destination equals the source. */
  lemma Converges(ss: seq<State>, es: seq<Event>)
    requires Path(ss, es) && Start(ss[0]) && Finished(ss[|es|])
    requires forall i :: 0 <= i < |es| ==> NotOvertaking(ss[i], es[i])
    ensures var t := ss[|es|];
            |t.dest| == |t.devs| && forall d :: 0 <= d < |t.devs| ==> t.dest[d] == t.devs[d].disk
  {
    RunKeeps(ss, es, |es|);
    FinishedIsEqual(ss[|es|]);
  }

  /** Dirty chunks over all devices. */
  function DirtyCount(devs: seq<Device>): nat {
    if devs == [] then 0 else DirtyCount(devs[..|devs| - 1]) + |devs[|devs| - 1].dirty|
  }

  lemma {:induction false} DirtyLess(devs: seq<Device>, d: nat, v: Device)
    requires d < |devs| && |v.dirty| < |devs[d].dirty|
    ensures DirtyCount(devs[d := v]) < DirtyCount(devs)
  {
    var n := |devs| - 1;
    if d == n {
      assert devs[d := v][..n] == devs[..n];
    } else {
      assert devs[d := v][..n] == devs[..n][d := v];
      DirtyLess(devs[..n], d, v);
    }
  }

  /** A migration of one disk of one sector. */
  function OneSector(disk: Sector, dirty: set<nat>, cur: nat, aio: set<nat>, pending: seq<Read>, queue: seq<Block>,
                     unmarked: multiset<(nat, nat)>, dest: Sector): State
  {
    State([Device([disk], dirty, aio, cur)], pending, queue, unmarked, [[dest]], |pending|, |queue|)
  }

  /** A block whose first sector is `v`. */
  function Filled(v: Sector): Block { Block(0, 0, seq(CHUNK, o => if o == 0 then v else 0), true) }

  lemma StaleRead(got: map<nat, Sector>, bulk: bool)
    requires 0 in got && got.Keys == {0}
    ensures BufferOf(Read(0, 0, bulk, got), seq(CHUNK, _ => 0)) == Filled(got[0]).buf
  {
    var z: Buffer := seq(CHUNK, _ => 0);
    forall o | 0 <= o < CHUNK ensures BufferOf(Read(0, 0, bulk, got), z)[o] == Filled(got[0]).buf[o] {}
  }

  lemma FilledWritten(v: Sector, w: Sector)
    ensures Written([[w]], Filled(v)) == [[v]]
  {
    assert Written([[w]], Filled(v))[0] == [v];
  }

  lemma OneSectorBulk()
    ensures Goes(OneSector(1, {}, 0, {}, [], [], multiset{}, 0), Bulk(0),
                 OneSector(1, {}, 1, {}, [Read(0, 0, true, map[])], [], multiset{}, 0))
  {
    assert Next(OneSector(1, {}, 0, {}, [], [], multiset{}, 0), Bulk(0)).devs[0].dirty == {};
  }

  lemma OneSectorCapture(v: Sector, aio: set<nat>, before: seq<Read>, bulk: bool)
    requires forall i :: 0 <= i < |before| ==> before[i].dev == 0 && before[i].chunk == 0 && before[i].got.Keys == {0}
    ensures Goes(OneSector(v, {}, 1, aio, before + [Read(0, 0, bulk, map[])], [], multiset{}, 0), Capture(|before|, 0),
                 OneSector(v, {}, 1, aio, before + [Read(0, 0, bulk, map[0 := v])], [], multiset{}, 0))
  {
    var s := OneSector(v, {}, 1, aio, before + [Read(0, 0, bulk, map[])], [], multiset{}, 0);
    assert s.inflight[|before|] == Read(0, 0, bulk, map[]);
    assert Next(s, Capture(|before|, 0)).inflight == before + [Read(0, 0, bulk, map[0 := v])];
  }

  lemma OneSectorLand(v: Sector, w: Sector, r: Read)
    requires r == Read(0, 0, true, map[0 := v])
    ensures Goes(OneSector(v, {}, 1, {}, [r], [], multiset{}, 0), Land(0, 0, w),
                 OneSector(w, {}, 1, {}, [r], [], multiset{(0, 0)}, 0))
  {
    assert Next(OneSector(v, {}, 1, {}, [r], [], multiset{}, 0), Land(0, 0, w)).devs[0].disk == [w];
  }

  lemma OneSectorMark(w: Sector, r: Read)
    requires r.dev == 0 && r.chunk == 0 && r.got.Keys == {0}
    ensures Goes(OneSector(w, {}, 1, {}, [r], [], multiset{(0, 0)}, 0), Mark(0, 0),
                 OneSector(w, {0}, 1, {}, [r], [], multiset{}, 0))
  {
    assert Next(OneSector(w, {}, 1, {}, [r], [], multiset{(0, 0)}, 0), Mark(0, 0)).unmarked == multiset{};
    assert Next(OneSector(w, {}, 1, {}, [r], [], multiset{(0, 0)}, 0), Mark(0, 0)).devs[0].dirty == {0};
  }

  lemma OneSectorReread(w: Sector, r: Read)
    requires r.dev == 0 && r.chunk == 0 && r.got.Keys == {0}
    ensures Goes(OneSector(w, {0}, 1, {}, [r], [], multiset{}, 0), Reread(0, 0),
                 OneSector(w, {}, 1, {0}, [r, Read(0, 0, false, map[])], [], multiset{}, 0))
  {
    assert Next(OneSector(w, {0}, 1, {}, [r], [], multiset{}, 0), Reread(0, 0)).devs[0].dirty == {};
    assert Next(OneSector(w, {0}, 1, {}, [r], [], multiset{}, 0), Reread(0, 0)).devs[0].aio == {0};
  }

  lemma OneSectorComplete(w: Sector, aio: set<nat>, before: seq<Read>, bulk: bool, u: Sector, queue: seq<Block>)
    requires aio <= {0}
    requires forall i :: 0 <= i < |before| ==> before[i].dev == 0 && before[i].chunk == 0 && before[i].got.Keys == {0}
    requires forall k :: 0 <= k < |queue| ==> queue[k].dev == 0 && queue[k].chunk == 0
    ensures Goes(OneSector(w, {}, 1, aio, before + [Read(0, 0, bulk, map[0 := u])], queue, multiset{}, 0),
                 Complete(|before|, true, seq(CHUNK, _ => 0)),
                 OneSector(w, {}, 1, {}, before, queue + [Filled(u)], multiset{}, 0))
  {
    var z: Buffer := seq(CHUNK, _ => 0);
    var s := OneSector(w, {}, 1, aio, before + [Read(0, 0, bulk, map[0 := u])], queue, multiset{}, 0);
    assert s.inflight[|before|] == Read(0, 0, bulk, map[0 := u]);
    assert s.inflight[..|before|] + s.inflight[|before| + 1..] == before;
    StaleRead(map[0 := u], bulk);
    assert Next(s, Complete(|before|, true, z)).devs[0].aio == {};
  }

  lemma OneSectorSend(w: Sector, v: Sector, u: Sector, queue: seq<Block>)
    requires forall k :: 0 <= k < |queue| ==> queue[k].dev == 0 && queue[k].chunk == 0
    ensures Goes(OneSector(w, {}, 1, {}, [], [Filled(u)] + queue, multiset{}, v), Send,
                 OneSector(w, {}, 1, {}, [], queue, multiset{}, u))
  {
    FilledWritten(u, v);
    assert ([Filled(u)] + queue)[1..] == queue;
  }

  /** The code can lead from `s` to `t`. */
  ghost predicate Reach(s: State, t: State) {
    exists ss: seq<State>, es: seq<Event> :: Path(ss, es) && ss[0] == s && ss[|es|] == t
  }

  lemma ReachNow(s: State)
    ensures Reach(s, s)
  {
    assert Path([s], []) && [s][0] == s;
  }

  lemma ReachOn(s: State, t: State, e: Event, u: State)
    requires Reach(s, t) && Goes(t, e, u)
    ensures Reach(s, u)
  {
    var ss: seq<State>, es: seq<Event> :| Path(ss, es) && ss[0] == s && ss[|es|] == t;
    hide Goes;
    var ss', es' := ss + [u], es + [e];
    forall k | 0 <= k < |es'| ensures Goes(ss'[k], es'[k], ss'[k + 1]) {
      if k < |es| { assert Goes(ss[k], es[k], ss[k + 1]); }
    }
    assert Path(ss', es') && ss'[0] == s && ss'[|es'|] == u;
  }

  /** Until the chunk is read again, while its bulk read is still in flight. */
  lemma OvertakenReads(r: Read)
    requires r == Read(0, 0, true, map[0 := 1])
    ensures Reach(OneSector(1, {}, 0, {}, [], [], multiset{}, 0),
                  OneSector(2, {}, 1, {0}, [r] + [Read(0, 0, false, map[])], [], multiset{}, 0))
  {
    var s0 := OneSector(1, {}, 0, {}, [], [], multiset{}, 0);
    var s1 := OneSector(1, {}, 1, {}, [Read(0, 0, true, map[])], [], multiset{}, 0);
    var s2 := OneSector(1, {}, 1, {}, [r], [], multiset{}, 0);
    var s3 := OneSector(2, {}, 1, {}, [r], [], multiset{(0, 0)}, 0);
    var s4 := OneSector(2, {0}, 1, {}, [r], [], multiset{}, 0);
    var s5 := OneSector(2, {}, 1, {0}, [r] + [Read(0, 0, false, map[])], [], multiset{}, 0);
    hide Goes, Reach, OneSector;
    assert [] + [Read(0, 0, true, map[])] == [Read(0, 0, true, map[])] && [] + [r] == [r];
    assert [r, Read(0, 0, false, map[])] == [r] + [Read(0, 0, false, map[])];
    ReachNow(s0);
    OneSectorBulk();
    ReachOn(s0, s0, Bulk(0), s1);
    OneSectorCapture(1, {}, [], true);
    ReachOn(s0, s1, Capture(0, 0), s2);
    OneSectorLand(1, 2, r);
    ReachOn(s0, s2, Land(0, 0, 2), s3);
    OneSectorMark(2, r);
    ReachOn(s0, s3, Mark(0, 0), s4);
    OneSectorReread(2, r);
    ReachOn(s0, s4, Reread(0, 0), s5);
  }

  /** Without the assumption convergence fails: the code allows a run, on a disk of one sector,
      in which the bulk read takes 1, the guest writes 2, the re-read takes 2 and is sent, and
      the bulk read completes last; migration finishes with the old content at the destination. */
  lemma BulkReadOvertaken()
    ensures exists s, t :: Start(s) && Reach(s, t) && Finished(t) &&
                           t.dest == [[1]] && |t.devs| == 1 && t.devs[0].disk == [2]
  {
    var r, r' := Read(0, 0, true, map[0 := 1]), Read(0, 0, false, map[0 := 2]);
    var z: Buffer := seq(CHUNK, _ => 0);
    var s0 := OneSector(1, {}, 0, {}, [], [], multiset{}, 0);
    var s5 := OneSector(2, {}, 1, {0}, [r] + [Read(0, 0, false, map[])], [], multiset{}, 0);
    var s6 := OneSector(2, {}, 1, {0}, [r] + [r'], [], multiset{}, 0);
    var s7 := OneSector(2, {}, 1, {}, [r], [Filled(2)], multiset{}, 0);
    var s8 := OneSector(2, {}, 1, {}, [], [Filled(2)] + [Filled(1)], multiset{}, 0);
    var s9 := OneSector(2, {}, 1, {}, [], [Filled(1)], multiset{}, 2);
    var t := OneSector(2, {}, 1, {}, [], [], multiset{}, 1);
    OneSectorEnds();
    hide Goes, Reach, OneSector, Filled, Start, Finished;
    assert [] + [r] == [r] && [] + [Filled(2)] == [Filled(2)] && [Filled(1)] + [] == [Filled(1)];
    OvertakenReads(r);
    OneSectorCapture(2, {0}, [r], false);
    ReachOn(s0, s5, Capture(1, 0), s6);
    OneSectorComplete(2, {0}, [r], false, 2, []);
    ReachOn(s0, s6, Complete(1, true, z), s7);
    OneSectorComplete(2, {}, [], true, 1, [Filled(2)]);
    ReachOn(s0, s7, Complete(0, true, z), s8);
    OneSectorSend(2, 0, 2, [Filled(1)]);
    ReachOn(s0, s8, Send, s9);
    OneSectorSend(2, 2, 1, []);
    ReachOn(s0, s9, Send, t);
  }

  lemma OneSectorEnds()
    ensures Start(OneSector(1, {}, 0, {}, [], [], multiset{}, 0))
    ensures var t := OneSector(2, {}, 1, {}, [], [], multiset{}, 1);
            Finished(t) && t.dest == [[1]] && |t.devs| == 1 && t.devs[0].disk == [2]
    ensures Filled(1).dev == Filled(2).dev == 0 && Filled(1).chunk == Filled(2).chunk == 0
  {}
}
