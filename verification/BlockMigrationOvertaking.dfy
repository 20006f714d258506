/**
 * The other half of convergence (block-migration.c): wherever a re-read overtakes the bulk read of its
 * chunk, the code can go on to finish with different disks.
 */
module BlockMigrationOvertaking {
  import opened BlockMigration

  // --------------------------------------------------------------------------------------- runs

  lemma {:induction false} ReachAlong(s: State, t: State, ss: seq<State>, es: seq<Event>)
    requires Reach(s, t) && Path(ss, es) && ss[0] == t
    ensures Reach(s, ss[|es|])
    decreases |es|
  {
    if es != [] {
      var n := |es| - 1;
      assert Path(ss[..n + 1], es[..n]) by {
        forall k | 0 <= k < n ensures Goes(ss[k], es[k], ss[k + 1]) {}
        hide Goes;
        assert ss[..n + 1][0] == t;
      }
      ReachAlong(s, t, ss[..n + 1], es[..n]);
      assert Goes(ss[n], es[n], ss[n + 1]);
      ReachOn(s, ss[n], es[n], ss[n + 1]);
    }
  }

  lemma ReachTrans(s: State, t: State, u: State)
    requires Reach(s, t) && Reach(t, u)
    ensures Reach(s, u)
  {
    hide Goes;
    var ss: seq<State>, es: seq<Event> :| Path(ss, es) && ss[0] == t && ss[|es|] == u;
    ReachAlong(s, t, ss, es);
  }

  lemma ReachStep(s: State, t: State, e: Event)
    requires Reach(s, t) && Enabled(t, e)
    ensures Reach(s, Next(t, e))
  {
    hide Enabled, Next;
    ReachOn(s, t, e, Next(t, e));
  }

  // ------------------------------------------------------------------------------- finishing reads

  /** Nothing but the buffer of read `i` differs, which has got more of the chunk. */
  ghost predicate Captured(s: State, t: State, i: nat) {
    && s.Base() && t.Base() && i < |s.inflight| == |t.inflight| && t == s.(inflight := t.inflight)
    && (forall j :: 0 <= j < |s.inflight| && j != i ==> t.inflight[j] == s.inflight[j])
    && (var r, r' := s.inflight[i], t.inflight[i];
        && r' == r.(got := r'.got)
        && (forall x :: x in r.got ==> x in r'.got && r'.got[x] == r.got[x]))
  }

  /** The device reads what is still missing of read `i`, from sector `x` on. */
  lemma {:induction false} CaptureFrom(s: State, i: nat, x: nat) returns (t: State)
    requires s.Base() && i < |s.inflight| && s.inflight[i].chunk * 2048 <= x <= (s.inflight[i].chunk + 1) * 2048
    requires forall y: nat :: InChunk(s.devs[s.inflight[i].dev], s.inflight[i].chunk, y) && y < x ==>
               y in s.inflight[i].got
    ensures Reach(s, t) && Captured(s, t, i) && AllGot(t.devs[t.inflight[i].dev], t.inflight[i])
    decreases (s.inflight[i].chunk + 1) * 2048 - x
  {
    hide Reach, State.Base;
    ReachNow(s);
    t := s;
    var r := s.inflight[i];
    assert r.dev < |s.devs| by { InRange(s, i); }
    if x < (r.chunk + 1) * 2048 {
      if x < |s.devs[r.dev].disk| && x !in r.got {
        var e := Capture(i, x);
        assert Enabled(s, e);
        CaptureBase(s, i, x);
        ReachStep(s, s, e);
        var u := Next(s, e);
        t := CaptureFrom(u, i, x + 1);
        ReachTrans(s, u, t);
      } else {
        t := CaptureFrom(s, i, x + 1);
      }
    }
  }

  lemma InRange(s: State, i: nat)
    requires s.Base() && i < |s.inflight|
    ensures s.inflight[i].dev < |s.devs| && s.inflight[i].chunk * 2048 < |s.devs[s.inflight[i].dev].disk|
  {
    assert s.ReadOk(s.inflight[i]) && s.devs[s.inflight[i].dev].Ok();
  }

  lemma CaptureAll(s: State, i: nat) returns (t: State)
    requires s.Base() && i < |s.inflight|
    ensures Reach(s, t) && Captured(s, t, i) && AllGot(t.devs[t.inflight[i].dev], t.inflight[i])
  {
    hide Reach;
    InRange(s, i);
    t := CaptureFrom(s, i, s.inflight[i].chunk * 2048);
  }

  /** Read `i` has been queued as block `b`. */
  ghost predicate Queued(s: State, t: State, i: nat, b: Block) {
    && s.Base() && t.Base() && i < |s.inflight| && b.ok
    && (var r := s.inflight[i];
        && r.dev < |s.devs| && b.dev == r.dev && b.chunk == r.chunk
        && t.devs == s.devs[r.dev := s.devs[r.dev].(aio := s.devs[r.dev].aio - {r.chunk})]
        && (forall x :: x in r.got && x < |s.devs[r.dev].disk| ==> b.buf[x % 2048] == r.got[x]))
    && t.inflight == s.inflight[..i] + s.inflight[i + 1..] && t.queue == s.queue + [b]
    && t.unmarked == s.unmarked && t.dest == s.dest
  }

  /** Read `i` gets the rest of its chunk and is queued. */
  lemma FinishRead(s: State, i: nat) returns (t: State, b: Block)
    requires s.Base() && i < |s.inflight|
    ensures Reach(s, t) && Queued(s, t, i, b)
  {
    hide Reach, State.Base;
    InRange(s, i);
    var u := CaptureAll(s, i);
    var junk: Buffer, r := seq(CHUNK, _ => 0), u.inflight[i];
    var e := Complete(i, true, junk);
    assert Enabled(u, e);
    CompleteBase(u, i, true, junk);
    t, b := Next(u, e), Block(r.dev, r.chunk, BufferOf(r, junk), true);
    ReachStep(s, u, e);
    assert t.inflight == s.inflight[..i] + s.inflight[i + 1..];
    forall x | x in s.inflight[i].got && x < |s.devs[r.dev].disk| ensures b.buf[x % 2048] == s.inflight[i].got[x] {
      GotInChunk(s, i, x);
      assert r.chunk * 2048 + x % 2048 == x;
    }
  }

  lemma GotInChunk(s: State, i: nat, x: nat)
    requires s.Base() && i < |s.inflight| && x in s.inflight[i].got
    ensures x / 2048 == s.inflight[i].chunk
  {
    assert s.ReadOk(s.inflight[i]);
  }

  // ------------------------------------------------------------------------------------- the end

  /** Sector `x` of device `d` is wrong at the destination once the queue is sent, and nothing is going
      to send it again. */
  ghost predicate Stuck(s: State, d: nat, x: nat) {
    && s.Base() && !s.Broken() && s.unmarked == multiset{}
    && d < |s.devs| && s.devs[d].cur == |s.devs[d].disk| && x < |s.devs[d].disk|
    && x / 2048 !in s.devs[d].dirty && !s.Reading(d, x / 2048)
    && Flushed(s.dest, s.queue)[d][x] != s.devs[d].disk[x]
  }

  function Remaining(devs: seq<Device>): int {
    if devs == [] then 0
    else Remaining(devs[..|devs| - 1]) + |devs[|devs| - 1].disk| - devs[|devs| - 1].cur
  }

  lemma {:induction false} RemainingUpdate(devs: seq<Device>, d: nat, v: Device)
    requires d < |devs| && |v.disk| == |devs[d].disk|
    ensures Remaining(devs[d := v]) == Remaining(devs) + devs[d].cur - v.cur
  {
    var n := |devs| - 1;
    if d == n {
      assert devs[d := v][..n] == devs[..n];
    } else {
      assert devs[d := v][..n] == devs[..n][d := v];
      RemainingUpdate(devs[..n], d, v);
    }
  }

  lemma {:induction false} RemainingNat(devs: seq<Device>)
    requires forall d :: 0 <= d < |devs| ==> devs[d].cur <= |devs[d].disk|
    ensures Remaining(devs) >= 0
  {
    if devs != [] {
      RemainingNat(devs[..|devs| - 1]);
    }
  }

  lemma {:induction false} DirtySame(devs: seq<Device>, d: nat, v: Device)
    requires d < |devs| && v.dirty == devs[d].dirty
    ensures DirtyCount(devs[d := v]) == DirtyCount(devs)
  {
    var n := |devs| - 1;
    if d == n {
      assert devs[d := v][..n] == devs[..n];
    } else {
      assert devs[d := v][..n] == devs[..n][d := v];
      DirtySame(devs[..n], d, v);
    }
  }

  /** A read that finishes is for another chunk. */
  lemma StuckFinish(s: State, d: nat, x: nat) returns (t: State)
    requires Stuck(s, d, x) && s.inflight != []
    ensures Reach(s, t) && Stuck(t, d, x) && |t.inflight| < |s.inflight|
    ensures Remaining(t.devs) == Remaining(s.devs) && DirtyCount(t.devs) == DirtyCount(s.devs)
  {
    hide Reach, Flushed, Written, DirtyCount, Remaining;
    var b;
    t, b := FinishRead(s, 0);
    var r := s.inflight[0];
    RemainingUpdate(s.devs, r.dev, t.devs[r.dev]);
    DirtySame(s.devs, r.dev, t.devs[r.dev]);
    assert t.inflight == s.inflight[1..];
    FlushedAppend(s.dest, s.queue, b);
    WrittenAt(Flushed(s.dest, s.queue), b, d, x);
  }

  lemma StuckSend(s: State, d: nat, x: nat) returns (t: State)
    requires Stuck(s, d, x) && s.queue != []
    ensures Reach(s, t) && Stuck(t, d, x) && t.devs == s.devs && t.inflight == s.inflight && |t.queue| < |s.queue|
  {
    hide Reach, Written;
    assert s.queue[0].ok;
    SendBase(s);
    ReachNow(s);
    ReachStep(s, s, Send);
    t := Next(s, Send);
    assert forall k :: 0 <= k < |t.queue| ==> t.queue[k] == s.queue[k + 1];
  }

  lemma StuckBulk(s: State, d: nat, x: nat, k: nat) returns (t: State)
    requires Stuck(s, d, x) && k < |s.devs| && s.devs[k].cur < |s.devs[k].disk|
    ensures Reach(s, t) && Stuck(t, d, x) && Remaining(t.devs) < Remaining(s.devs)
  {
    hide Reach, Flushed, Remaining;
    BulkBase(s, k);
    ReachNow(s);
    ReachStep(s, s, Bulk(k));
    t := Next(s, Bulk(k));
    RemainingUpdate(s.devs, k, t.devs[k]);
    assert t.inflight[..|s.inflight|] == s.inflight;
  }

  lemma StuckSync(s: State, d: nat, x: nat, k: nat, c: nat) returns (t: State)
    requires Stuck(s, d, x) && s.inflight == [] && s.queue == []
    requires k < |s.devs| && s.devs[k].cur == |s.devs[k].disk| && c in s.devs[k].dirty
    ensures Reach(s, t) && Stuck(t, d, x) && DirtyCount(t.devs) < DirtyCount(s.devs)
    ensures Remaining(t.devs) == Remaining(s.devs)
  {
    hide Reach, Written, DirtyCount, Remaining;
    var junk: Buffer := seq(CHUNK, _ => 0);
    var e := SyncSend(k, c, junk);
    SyncSendBase(s, k, c, junk);
    ReachNow(s);
    ReachStep(s, s, e);
    t := Next(s, e);
    RemainingUpdate(s.devs, k, t.devs[k]);
    DirtyLess(s.devs, k, t.devs[k]);
    WrittenAt(s.dest, Block(k, c, ReadNow(s.devs[k], c, junk), true), d, x);
  }

  /** Migration goes on to its end, and the sector stays wrong. */
  lemma {:induction false} StuckEnds(s: State, d: nat, x: nat) returns (t: State)
    requires Stuck(s, d, x)
    ensures Reach(s, t) && Finished(t) && Stuck(t, d, x)
    decreases Remaining(s.devs), DirtyCount(s.devs), |s.inflight|, |s.queue|
  {
    hide Reach, DirtyCount, Remaining, Flushed;
    ReachNow(s);
    RemainingNat(s.devs);
    var u;
    if s.inflight != [] {
      u := StuckFinish(s, d, x);
    } else if s.queue != [] {
      u := StuckSend(s, d, x);
    } else if k :| 0 <= k < |s.devs| && s.devs[k].cur != |s.devs[k].disk| {
      assert s.devs[k].Ok();
      u := StuckBulk(s, d, x, k);
    } else if k :| 0 <= k < |s.devs| && s.devs[k].dirty != {} {
      var c :| c in s.devs[k].dirty;
      u := StuckSync(s, d, x, k, c);
    } else {
      return s;
    }
    t := StuckEnds(u, d, x);
    ReachTrans(s, u, t);
  }

  // ---------------------------------------------------------------------------------- overtaking

  /** Every write that has landed is marked. */
  ghost predicate Marked(s: State, t: State) {
    && s.Base() && t.Base() && t == s.(devs := t.devs, unmarked := multiset{}) && |t.devs| == |s.devs|
    && forall k :: 0 <= k < |s.devs| ==> t.devs[k] == s.devs[k].(dirty := t.devs[k].dirty)
  }

  lemma {:induction false} MarkAll(s: State) returns (t: State)
    requires s.Base()
    ensures Reach(s, t) && Marked(s, t)
    decreases |s.unmarked|
  {
    hide Reach, State.Base;
    ReachNow(s);
    if s.unmarked == multiset{} {
      t := s;
    } else {
      var w :| w in s.unmarked;
      var e := Mark(w.0, w.1);
      UnmarkedInRange(s, w);
      MarkBase(s, w.0, w.1);
      ReachStep(s, s, e);
      var u := Next(s, e);
      t := MarkAll(u);
      ReachTrans(s, u, t);
    }
  }

  lemma UnmarkedInRange(s: State, w: (nat, nat))
    requires s.Base() && w in s.unmarked
    ensures w.0 < |s.devs|
  {}

  /** The bulk read `i` of chunk `c` has all of it and is still in flight, as the only read of the
      chunk, and nothing marks the chunk as being read. */
  ghost predicate Poised(s: State, d: nat, c: nat, i: nat) {
    && s.Base() && !s.Broken() && s.unmarked == multiset{} && d < |s.devs|
    && i < |s.inflight| && s.inflight[i].dev == d && s.inflight[i].chunk == c
    && (forall j :: 0 <= j < |s.inflight| && j != i ==> s.inflight[j].dev != d || s.inflight[j].chunk != c)
    && AllGot(s.devs[d], s.inflight[i])
    && s.devs[d].cur == |s.devs[d].disk| && c !in s.devs[d].aio && c * 2048 < |s.devs[d].disk|
  }

  /** The guest writes to the chunk, which is then dirty. */
  lemma WriteThere(s: State, d: nat, c: nat, i: nat) returns (t: State)
    requires Poised(s, d, c, i)
    ensures Reach(s, t) && Poised(t, d, c, i) && c in t.devs[d].dirty
    ensures t.devs[d].disk[c * 2048] != t.inflight[i].got[c * 2048]
  {
    hide Reach;
    var x := c * 2048;
    assert InChunk(s.devs[d], c, x);
    var v := s.inflight[i].got[x] + 1;
    LandBase(s, d, x, v);
    ReachNow(s);
    ReachStep(s, s, Land(d, x, v));
    var u := Next(s, Land(d, x, v));
    MarkBase(u, d, x);
    ReachStep(s, u, Mark(d, x));
    t := Next(u, Mark(d, x));
    assert t.unmarked == multiset{};
  }

  /** The chunk is read again, and this read is queued first. */
  lemma ReadAgain(s: State, d: nat, c: nat, i: nat) returns (t: State)
    requires Poised(s, d, c, i) && c in s.devs[d].dirty
    ensures Reach(s, t) && Poised(t, d, c, i) && c !in t.devs[d].dirty
    ensures t.devs[d].disk == s.devs[d].disk && t.inflight == s.inflight
  {
    hide Reach;
    var e, n := Reread(d, c), |s.inflight|;
    RereadBase(s, d, c);
    ReachNow(s);
    ReachStep(s, s, e);
    var u, b := Next(s, e), Block(0, 0, seq(CHUNK, _ => 0), true);
    assert u.inflight[n] == Read(d, c, false, map[]);
    t, b := FinishRead(u, n);
    ReachTrans(s, u, t);
    assert t.inflight == s.inflight;
  }

  /** The old data is queued last. */
  lemma StaleLast(s: State, d: nat, c: nat, i: nat) returns (t: State)
    requires Poised(s, d, c, i) && c !in s.devs[d].dirty
    requires c * 2048 in s.inflight[i].got && s.devs[d].disk[c * 2048] != s.inflight[i].got[c * 2048]
    ensures Reach(s, t) && Stuck(t, d, c * 2048)
  {
    hide Reach, Flushed, Written;
    var b;
    t, b := FinishRead(s, i);
    forall j | 0 <= j < |t.inflight| ensures t.inflight[j].dev != d || t.inflight[j].chunk != c {
      assert t.inflight[j] == s.inflight[if j < i then j else j + 1];
    }
    FlushedAppend(s.dest, s.queue, b);
    WrittenAt(Flushed(s.dest, s.queue), b, d, c * 2048);
  }

  lemma PoisedEnds(s: State, d: nat, c: nat, i: nat) returns (t: State)
    requires Poised(s, d, c, i)
    ensures Reach(s, t) && Finished(t) && Stuck(t, d, c * 2048)
  {
    hide Reach, Poised, Stuck, Finished;
    var w := WriteThere(s, d, c, i);
    var r := ReadAgain(w, d, c, i);
    GotFirst(r, d, c, i);
    var l := StaleLast(r, d, c, i);
    t := StuckEnds(l, d, c * 2048);
    ReachTrans(s, w, r);
    ReachTrans(s, r, l);
    ReachTrans(s, l, t);
  }

  lemma GotFirst(s: State, d: nat, c: nat, i: nat)
    requires Poised(s, d, c, i)
    ensures i < |s.inflight| && c * 2048 in s.inflight[i].got
  {
    assert InChunk(s.devs[d], c, c * 2048);
  }

  /** After a re-read has overtaken the bulk read of its chunk it may finish first. */
  lemma Overtakes(s: State, d: nat, c: nat, i: nat) returns (t: State)
    requires s.Shape() && !s.Broken() && Enabled(s, Reread(d, c))
    requires i < |s.inflight| && s.inflight[i].dev == d && s.inflight[i].chunk == c
    ensures Reach(Next(s, Reread(d, c)), t) && Poised(t, d, c, i)
  {
    hide Reach;
    var s1, n := Next(s, Reread(d, c)), |s.inflight|;
    RereadBase(s, d, c);
    assert s1.inflight[n] == Read(d, c, false, map[]);
    var s2, b := FinishRead(s1, n);
    assert s2.inflight == s.inflight;
    var s3 := MarkAll(s2);
    t := CaptureAll(s3, i);
    ReachTrans(s1, s2, s3);
    ReachTrans(s1, s3, t);
    InRange(s, i);
  }

  /** From every state in which a re-read may overtake the bulk read of its chunk, the code can go on
      to finish with a destination that differs from the source. */
  lemma OvertakingDiverges(s: State, d: nat, c: nat) returns (t: State)
    requires s.Inv() && !s.Broken() && Enabled(s, Reread(d, c)) && !NotOvertaking(s, Reread(d, c))
    ensures Reach(Next(s, Reread(d, c)), t) && Finished(t)
    ensures d < |t.devs| == |t.dest| && t.dest[d] != t.devs[d].disk
  {
    hide Reach;
    var i :| 0 <= i < |s.inflight| && s.inflight[i].bulk && s.inflight[i].dev == d && s.inflight[i].chunk == c;
    var u := Overtakes(s, d, c, i);
    t := PoisedEnds(u, d, c, i);
    ReachTrans(Next(s, Reread(d, c)), u, t);
  }

  /** A re-read keeps the invariant, from which convergence follows, exactly when it does not overtake
      the bulk read of its chunk. */
  lemma RereadExactly(s: State, d: nat, c: nat)
    requires s.Inv() && Enabled(s, Reread(d, c))
    ensures Next(s, Reread(d, c)).Inv() <==> NotOvertaking(s, Reread(d, c))
  {
    var t := Next(s, Reread(d, c));
    if NotOvertaking(s, Reread(d, c)) {
      RereadKeeps(s, d, c);
    } else {
      var i :| 0 <= i < |s.inflight| && s.inflight[i].bulk && s.inflight[i].dev == d && s.inflight[i].chunk == c;
      assert t.inflight[i] == s.inflight[i] && t.inflight[|s.inflight|] == Read(d, c, false, map[]);
    }
  }
}
