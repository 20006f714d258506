/**
 * Merging of write requests (block.c, `multiwrite_merge`): adjacent and overlapping requests,
 * sorted by start sector, are joined into larger ones.
 */
module Multiwrite {
  import opened Bytes
  import opened Wrappers

  const IOV_MAX: nat := 1024

  /** QEMUIOVector: a list of buffers. */
  type Vector = seq<seq<Byte>>

  function Flat(v: Vector): (r: seq<Byte>) {
    if v == [] then [] else v[0] + Flat(v[1..])
  }

  /** qemu_iovec_concat of the first `n` bytes: whole buffers, then part of one; empty ones are skipped. */
  function Take(v: Vector, n: nat): (r: Vector)
    ensures |r| <= |v|
  {
    if n == 0 || v == [] then []
    else if |v[0]| == 0 then Take(v[1..], n)
    else if |v[0]| >= n then [v[0][..n]]
    else [v[0]] + Take(v[1..], n - |v[0]|)
  }

  lemma {:induction false} TakeFlat(v: Vector, n: nat)
    ensures Flat(Take(v, n)) == if n <= |Flat(v)| then Flat(v)[..n] else Flat(v)
  {
    if n > 0 && v != [] {
      if |v[0]| >= n {
        assert |v[0]| != 0 ==> [v[0][..n]][1..] == [];
      } else {
        TakeFlat(v[1..], n - |v[0]|);
        assert |v[0]| != 0 ==> ([v[0]] + Take(v[1..], n - |v[0]|))[1..] == Take(v[1..], n - |v[0]|);
      }
    }
  }

  lemma {:induction false} FlatAppend(v: Vector, w: Vector)
    ensures Flat(v + w) == Flat(v) + Flat(w)
  {
    if v == [] {
      assert v + w == w;
    } else {
      assert (v + w)[1..] == v[1..] + w;
      FlatAppend(v[1..], w);
    }
  }

  /** BlockRequest */
  datatype Request = Request(sector: nat, nb: nat, vec: Vector)

  predicate Sized(r: Request) { |Flat(r.vec)| == r.nb * 512 }

  function End(r: Request): nat { r.sector + r.nb }

  /** Byte `x` of the disk is written by `r`. */
  predicate Covers(r: Request, x: nat) { r.sector * 512 <= x < r.sector * 512 + |Flat(r.vec)| }

  function DataAt(r: Request, x: nat): Byte
    requires Covers(r, x)
  {
    Flat(r.vec)[x - r.sector * 512]
  }

  /** What the requests, applied in order, leave at byte `x`; None if none of them writes it. */
  function LastWrite(reqs: seq<Request>, x: nat): Option<Byte> {
    if reqs == [] then None
    else if Covers(reqs[|reqs| - 1], x) then Some(DataAt(reqs[|reqs| - 1], x))
    else LastWrite(reqs[..|reqs| - 1], x)
  }

  /** Byte `x` of disk `d` after the requests. */
  function DiskAfter(reqs: seq<Request>, d: nat -> Byte, x: nat): Byte {
    match LastWrite(reqs, x) case Some(b) => b case None => d(x)
  }

  ghost predicate Sorted(reqs: seq<Request>) {
    forall i, j :: 0 <= i < j < |reqs| ==> reqs[i].sector <= reqs[j].sector
  }

  /** Requests `a` and `r` touch, and their vectors together stay within IOV_MAX. */
  predicate Joins(a: Request, r: Request) {
    r.sector <= End(a) && |a.vec| + |r.vec| + 1 <= IOV_MAX
  }

  /** The merged request: the first one cut off where the second begins, then the second. */
  function Join(a: Request, r: Request): Request
    requires a.sector <= r.sector
  {
    var vec := Take(a.vec, (r.sector - a.sector) * 512) + Take(r.vec, |Flat(r.vec)|);
    Request(a.sector, |Flat(vec)| / 512, vec)
  }

  /** One turn of the merge loop: `out` are the requests up to `outidx`. */
  function Step(out: seq<Request>, r: Request): (out': seq<Request>)
    requires out != [] && out[|out| - 1].sector <= r.sector
    ensures out' != [] && out'[|out'| - 1].sector <= r.sector
  {
    var last := out[|out| - 1];
    if Joins(last, r) then out[..|out| - 1] + [Join(last, r)] else out + [r]
  }

  ghost predicate Ready(out: seq<Request>, rest: seq<Request>) {
    out != [] && Sorted(rest) && (rest != [] ==> out[|out| - 1].sector <= rest[0].sector)
  }

  function Merge(out: seq<Request>, rest: seq<Request>): seq<Request>
    requires Ready(out, rest)
    decreases |rest|
  {
    if rest == [] then out else Merge(Step(out, rest[0]), rest[1..])
  }

  lemma JoinData(a: Request, r: Request)
    requires Sized(a) && Sized(r) && a.sector <= r.sector <= End(a)
    ensures Sized(Join(a, r)) && End(Join(a, r)) == End(r)
    ensures Flat(Join(a, r).vec) == Flat(a.vec)[..(r.sector - a.sector) * 512] + Flat(r.vec)
  {
    var n := (r.sector - a.sector) * 512;
    TakeFlat(a.vec, n);
    TakeFlat(r.vec, |Flat(r.vec)|);
    FlatAppend(Take(a.vec, n), Take(r.vec, |Flat(r.vec)|));
    assert Flat(r.vec)[..|Flat(r.vec)|] == Flat(r.vec);
  }

  /** The merged request writes what the two did, except that the first one's tail is lost
      if the second one ends before it. */
  lemma JoinWrites(a: Request, r: Request, x: nat)
    requires Sized(a) && Sized(r) && a.sector <= r.sector <= End(a)
    ensures Covers(Join(a, r), x) <==> a.sector * 512 <= x < End(r) * 512
    ensures Covers(Join(a, r), x) ==>
              DataAt(Join(a, r), x) == if Covers(r, x) then DataAt(r, x) else assert Covers(a, x); DataAt(a, x)
  {
    JoinData(a, r);
  }

  lemma {:induction false} LastWriteAppend(a: seq<Request>, b: seq<Request>, x: nat)
    ensures LastWrite(a + b, x) == if LastWrite(b, x).Some? then LastWrite(b, x) else LastWrite(a, x)
  {
    if b == [] {
      assert a + b == a;
    } else {
      assert (a + b)[..|a + b| - 1] == a + b[..|b| - 1];
      LastWriteAppend(a, b[..|b| - 1], x);
    }
  }

  /** Byte `x` is cut off `last` when `r` is joined to it, and nothing makes up for it: no later
      request writes it, and what was written before is not the same byte anyway. */
  ghost predicate Lost(pre: seq<Request>, last: Request, r: Request, rest: seq<Request>, x: nat) {
    && Joins(last, r) && Covers(last, x) && x >= End(r) * 512
    && LastWrite(rest, x).None? && LastWrite(pre, x) != Some(DataAt(last, x))
  }

  /** No byte is lost in any turn of the loop. */
  ghost predicate Lossless(out: seq<Request>, rest: seq<Request>)
    requires Ready(out, rest)
    decreases |rest|
  {
    rest == [] ||
    ((forall x :: !LostNow(out, rest, x)) && Lossless(Step(out, rest[0]), rest[1..]))
  }

  /** Byte `x` is lost in the next turn. */
  ghost predicate LostNow(out: seq<Request>, rest: seq<Request>, x: nat) {
    out != [] && rest != [] && Lost(out[..|out| - 1], out[|out| - 1], rest[0], rest[1..], x)
  }

  ghost predicate AllSized(reqs: seq<Request>) {
    forall i :: 0 <= i < |reqs| ==> Sized(reqs[i])
  }

  lemma StepSized(out: seq<Request>, r: Request)
    requires out != [] && out[|out| - 1].sector <= r.sector && AllSized(out) && Sized(r)
    ensures AllSized(Step(out, r))
  {
    var last := out[|out| - 1];
    if Joins(last, r) { JoinData(last, r); }
  }

  /** One turn of the loop keeps what ends up at `x`, unless `x` is lost. */
  lemma StepWrites(out: seq<Request>, r: Request, rest: seq<Request>, x: nat)
    requires out != [] && out[|out| - 1].sector <= r.sector && AllSized(out) && Sized(r)
    ensures LastWrite(Step(out, r) + rest, x) == LastWrite(out + [r] + rest, x) <==>
            !Lost(out[..|out| - 1], out[|out| - 1], r, rest, x)
  {
    var pre, last := out[..|out| - 1], out[|out| - 1];
    LastWriteAppend(Step(out, r), rest, x);
    LastWriteAppend(out + [r], rest, x);
    assert (out + [r])[..|out|] == out;
    if Joins(last, r) {
      var j := Join(last, r);
      JoinWrites(last, r, x);
      assert (pre + [j])[..|pre|] == pre;
    } else {
      assert Step(out, r) == out + [r];
    }
  }

  lemma StepUntouched(out: seq<Request>, r: Request, x: nat)
    requires out != [] && out[|out| - 1].sector <= r.sector && AllSized(out) && Sized(r)
    requires !Covers(out[|out| - 1], x) && !Covers(r, x)
    ensures var out' := Step(out, r); !Covers(out'[|out'| - 1], x) && LastWrite(out', x) == LastWrite(out, x)
  {
    var last, pre := out[|out| - 1], out[..|out| - 1];
    if Joins(last, r) {
      JoinWrites(last, r, x);
      assert (pre + [Join(last, r)])[..|pre|] == pre;
    } else {
      assert (out + [r])[..|out|] == out;
    }
  }

  /** A byte that neither the current request nor any later one writes is not touched again. */
  lemma {:induction false} Untouched(out: seq<Request>, rest: seq<Request>, x: nat)
    requires Ready(out, rest) && AllSized(out) && AllSized(rest)
    requires !Covers(out[|out| - 1], x) && LastWrite(rest, x).None?
    ensures LastWrite(Merge(out, rest), x) == LastWrite(out, x)
    decreases |rest|
  {
    if rest != [] {
      var r := rest[0];
      assert [r] + rest[1..] == rest;
      LastWriteAppend([r], rest[1..], x);
      assert LastWrite([], x).None? && [r][..0] == [];
      StepSized(out, r);
      StepUntouched(out, r, x);
      Untouched(Step(out, r), rest[1..], x);
    }
  }

  /** The two lists of requests write the same at every byte. */
  ghost predicate SameWrites(a: seq<Request>, b: seq<Request>) {
    forall x :: LastWrite(a, x) == LastWrite(b, x)
  }

  lemma LostShows(out: seq<Request>, rest: seq<Request>, x: nat)
    requires Ready(out, rest) && AllSized(out) && AllSized(rest) && LostNow(out, rest, x)
    ensures LastWrite(Merge(out, rest), x) != LastWrite(out + rest, x)
  {
    var r, rest' := rest[0], rest[1..];
    var out' := Step(out, r);
    assert out + [r] + rest' == out + rest;
    StepSized(out, r);
    StepWrites(out, r, rest', x);
    JoinWrites(out[|out| - 1], r, x);
    Untouched(out', rest', x);
    LastWriteAppend(out', rest', x);
  }

  lemma StepSameWrites(out: seq<Request>, rest: seq<Request>)
    requires rest != [] && Ready(out, rest) && AllSized(out) && AllSized(rest)
    requires forall x :: !LostNow(out, rest, x)
    ensures SameWrites(Step(out, rest[0]) + rest[1..], out + rest)
  {
    var r, rest' := rest[0], rest[1..];
    assert out + [r] + rest' == out + rest;
    forall x ensures LastWrite(Step(out, r) + rest', x) == LastWrite(out + rest, x) {
      assert !LostNow(out, rest, x);
      StepWrites(out, r, rest', x);
    }
  }

  /** Merging writes the same as the requests themselves, in order, at every byte if and only
      if no byte is lost in any turn of the loop. */
  lemma {:induction false} MergeWrites(out: seq<Request>, rest: seq<Request>)
    requires Ready(out, rest) && AllSized(out) && AllSized(rest)
    ensures SameWrites(Merge(out, rest), out + rest) <==> Lossless(out, rest)
    decreases |rest|
  {
    if rest == [] {
      assert out + rest == out;
    } else if exists x :: LostNow(out, rest, x) {
      var x :| LostNow(out, rest, x);
      LostShows(out, rest, x);
    } else {
      StepSized(out, rest[0]);
      StepSameWrites(out, rest);
      MergeWrites(Step(out, rest[0]), rest[1..]);
      hide LastWrite, Step;
    }
  }

  ghost predicate Invisible(a: seq<Request>, b: seq<Request>) {
    forall d: nat -> Byte, x: nat :: DiskAfter(a, d, x) == DiskAfter(b, d, x)
  }

  lemma VisibleOnSomeDisk(a: seq<Request>, b: seq<Request>)
    ensures Invisible(a, b) <==> SameWrites(a, b)
  {
    if !SameWrites(a, b) {
      var x :| LastWrite(a, x) != LastWrite(b, x);
      var m, o := LastWrite(a, x), LastWrite(b, x);
      var other: Byte := if m.Some? then (m.value + 1) % 256 else (o.value + 1) % 256;
      var d: nat -> Byte := (y: nat) => other;
      assert DiskAfter(a, d, x) != DiskAfter(b, d, x);
    }
  }

  /** The same, said of disks: merging is invisible on every disk if and only if no byte is lost. */
  lemma MergeInvisible(out: seq<Request>, rest: seq<Request>)
    requires Ready(out, rest) && AllSized(out) && AllSized(rest)
    ensures Invisible(Merge(out, rest), out + rest) <==> Lossless(out, rest)
  {
    MergeWrites(out, rest);
    VisibleOnSomeDisk(Merge(out, rest), out + rest);
  }

  /** The request before `i`, if it touches `i` and ends after it, sticks out only over sectors that
      later requests write. */
  ghost predicate TailRewritten(reqs: seq<Request>, i: nat)
    requires 0 < i < |reqs|
  {
    reqs[i].sector <= End(reqs[i - 1]) ==>
      forall t :: End(reqs[i]) <= t < End(reqs[i - 1]) ==> WrittenAfter(reqs, i, t)
  }

  /** Some request after `i` writes sector `t`. */
  ghost predicate WrittenAfter(reqs: seq<Request>, i: nat, t: nat) {
    exists j :: i < j < |reqs| && reqs[j].sector <= t < End(reqs[j])
  }

  /** What a caller can tell from the sorted array, without merging. */
  ghost predicate TailsRewritten(reqs: seq<Request>) {
    forall i :: 0 < i < |reqs| ==> TailRewritten(reqs, i)
  }

  lemma {:induction false} WrittenIsWrite(reqs: seq<Request>, i: nat, x: nat)
    requires i < |reqs| && AllSized(reqs)
    ensures LastWrite(reqs[i + 1..], x).Some? <==> WrittenAfter(reqs, i, x / 512)
  {
    var n := |reqs| - 1;
    if i < n {
      assert reqs[i + 1..][..n - i - 1] == reqs[..n][i + 1..];
      WrittenIsWrite(reqs[..n], i, x);
      assert Covers(reqs[n], x) <==> reqs[n].sector <= x / 512 < End(reqs[n]) by { assert Sized(reqs[n]); }
    }
  }

  /** The requests from `i` on are still to be merged, and the last one merged ends where its
      predecessor does. */
  ghost predicate Upto(out: seq<Request>, reqs: seq<Request>, i: nat) {
    && 0 < i <= |reqs| && Ready(out, reqs[i..]) && AllSized(out) && AllSized(reqs)
    && End(out[|out| - 1]) == End(reqs[i - 1])
  }

  lemma UptoStep(out: seq<Request>, reqs: seq<Request>, i: nat)
    requires Upto(out, reqs, i) && i < |reqs|
    ensures out[|out| - 1].sector <= reqs[i].sector
    ensures Upto(Step(out, reqs[i]), reqs, i + 1) && reqs[i..][0] == reqs[i] && reqs[i..][1..] == reqs[i + 1..]
  {
    hide Sized;
    ReadyStep(out, reqs, i);
    StepSized(out, reqs[i]);
    if Joins(out[|out| - 1], reqs[i]) {
      JoinData(out[|out| - 1], reqs[i]);
    }
  }

  lemma NotLostNow(out: seq<Request>, reqs: seq<Request>, i: nat, x: nat)
    requires Upto(out, reqs, i) && i < |reqs| && TailRewritten(reqs, i)
    ensures !LostNow(out, reqs[i..], x)
  {
    UptoStep(out, reqs, i);
    var last := out[|out| - 1];
    if Joins(last, reqs[i]) && Covers(last, x) && x >= End(reqs[i]) * 512 {
      assert Sized(last) && End(reqs[i]) <= x / 512 < End(reqs[i - 1]);
      WrittenIsWrite(reqs, i, x);
    }
  }

  /** If every tail is rewritten nothing is lost. */
  lemma {:induction false} TailsSuffice(out: seq<Request>, reqs: seq<Request>, i: nat)
    requires Upto(out, reqs, i) && forall k :: i <= k < |reqs| ==> TailRewritten(reqs, k)
    ensures Lossless(out, reqs[i..])
    decreases |reqs| - i
  {
    hide TailRewritten, LostNow, Step;
    if i < |reqs| {
      UptoStep(out, reqs, i);
      forall x ensures !LostNow(out, reqs[i..], x) {
        NotLostNow(out, reqs, i, x);
      }
      TailsSuffice(Step(out, reqs[i]), reqs, i + 1);
    }
  }

  function Width(reqs: seq<Request>): nat {
    if reqs == [] then 0 else |reqs[0].vec| + Width(reqs[1..])
  }

  /** All the vectors together stay within IOV_MAX, so that no turn of the loop is refused for it. */
  predicate Roomy(reqs: seq<Request>) { Width(reqs) + |reqs| <= IOV_MAX }

  /** What is left of the room, and that the requests before the last one end before it starts. */
  ghost predicate RoomyAt(out: seq<Request>, rest: seq<Request>) {
    && out != [] && |out[|out| - 1].vec| + Width(rest) + |rest| <= IOV_MAX
    && forall k :: 0 <= k < |out| - 1 ==> End(out[k]) < out[|out| - 1].sector
  }

  lemma RoomyStep(out: seq<Request>, rest: seq<Request>)
    requires rest != [] && RoomyAt(out, rest) && Ready(out, rest)
    ensures RoomyAt(Step(out, rest[0]), rest[1..])
    ensures Joins(out[|out| - 1], rest[0]) <==> rest[0].sector <= End(out[|out| - 1])
  {}

  lemma {:induction false} NoWriteBefore(pre: seq<Request>, x: nat)
    requires AllSized(pre) && forall k :: 0 <= k < |pre| ==> End(pre[k]) * 512 <= x
    ensures LastWrite(pre, x).None?
  {
    if pre != [] {
      assert Sized(pre[|pre| - 1]);
      NoWriteBefore(pre[..|pre| - 1], x);
    }
  }

  lemma TailIsLost(out: seq<Request>, reqs: seq<Request>, i: nat)
    requires Upto(out, reqs, i) && i < |reqs| && RoomyAt(out, reqs[i..]) && !TailRewritten(reqs, i)
    ensures exists x :: LostNow(out, reqs[i..], x)
  {
    UptoStep(out, reqs, i);
    RoomyStep(out, reqs[i..]);
    var t :| End(reqs[i]) <= t < End(reqs[i - 1]) && !WrittenAfter(reqs, i, t);
    var last, x := out[|out| - 1], t * 512;
    assert Sized(last) && Covers(last, x);
    WrittenIsWrite(reqs, i, x);
    NoWriteBefore(out[..|out| - 1], x);
    assert LostNow(out, reqs[i..], x);
  }

  /** Within IOV_MAX a tail that is not rewritten is lost. */
  lemma {:induction false} TailsNeeded(out: seq<Request>, reqs: seq<Request>, i: nat)
    requires Upto(out, reqs, i) && RoomyAt(out, reqs[i..]) && Lossless(out, reqs[i..])
    ensures forall k :: i <= k < |reqs| ==> TailRewritten(reqs, k)
    decreases |reqs| - i
  {
    hide TailRewritten, LostNow, Step, RoomyAt;
    if i < |reqs| {
      UptoStep(out, reqs, i);
      RoomyStep(out, reqs[i..]);
      if !TailRewritten(reqs, i) {
        TailIsLost(out, reqs, i);
      }
      TailsNeeded(Step(out, reqs[i]), reqs, i + 1);
    }
  }

  /** Merging a sorted array is invisible on every disk if every tail is rewritten, and within
      IOV_MAX only then. */
  lemma MergeExact(reqs: seq<Request>)
    requires reqs != [] && Sorted(reqs) && AllSized(reqs)
    ensures Ready(reqs[..1], reqs[1..])
    ensures TailsRewritten(reqs) ==> Invisible(Merge(reqs[..1], reqs[1..]), reqs)
    ensures Roomy(reqs) ==> (Invisible(Merge(reqs[..1], reqs[1..]), reqs) <==> TailsRewritten(reqs))
  {
    hide Invisible, TailRewritten, Sized;
    var out := reqs[..1];
    assert out + reqs[1..] == reqs && Upto(out, reqs, 1);
    MergeInvisible(out, reqs[1..]);
    if TailsRewritten(reqs) {
      TailsSuffice(out, reqs, 1);
    }
    if Roomy(reqs) && Lossless(out, reqs[1..]) {
      TailsNeeded(out, reqs, 1);
    }
  }

  /** The simple case: no request ends before the one before it that it touches. */
  predicate NeverNested(reqs: seq<Request>) {
    forall i :: 0 < i < |reqs| && reqs[i].sector <= End(reqs[i - 1]) ==> End(reqs[i - 1]) <= End(reqs[i])
  }

  lemma NeverNestedIsInvisible(reqs: seq<Request>)
    requires reqs != [] && Sorted(reqs) && AllSized(reqs) && NeverNested(reqs)
    ensures Ready(reqs[..1], reqs[1..]) && Invisible(Merge(reqs[..1], reqs[1..]), reqs)
  {
    hide Invisible, Sized;
    assert TailsRewritten(reqs);
    MergeExact(reqs);
  }

  /** A short write inside a longer one: the tail of the longer one never reaches the disk. */
  lemma NestedIsLost(b: seq<Byte>)
    requires |b| == 512
    ensures var long, short := Request(0, 3, [b + b + b]), Request(1, 1, [b]);
            Ready([long], [short]) && AllSized([long]) && AllSized([short]) && !Lossless([long], [short])
  {
    var long, short := Request(0, 3, [b + b + b]), Request(1, 1, [b]);
    assert long.vec[1..] == [] && short.vec[1..] == [];
    assert Flat(long.vec) == long.vec[0] + Flat([]) && Flat(short.vec) == short.vec[0] + Flat([]);
    assert Flat(long.vec) == b + b + b && Flat(short.vec) == b;
    assert [short][1..] == [] && LastWrite([], 1024).None?;
    assert LostNow([long], [short], 1024);
  }

  /** Merged vectors stay within IOV_MAX if the given ones do. */
  lemma {:induction false} MergeIovMax(out: seq<Request>, rest: seq<Request>)
    requires Ready(out, rest)
    requires forall i :: 0 <= i < |out| ==> |out[i].vec| <= IOV_MAX
    requires forall i :: 0 <= i < |rest| ==> |rest[i].vec| <= IOV_MAX
    ensures forall i :: 0 <= i < |Merge(out, rest)| ==> |Merge(out, rest)[i].vec| <= IOV_MAX
    decreases |rest|
  {
    if rest != [] { MergeIovMax(Step(out, rest[0]), rest[1..]); }
  }

  /** The array starts with `out`. */
  ghost predicate Starts(reqs: array<Request>, out: seq<Request>)
    reads reqs
  {
    |out| <= reqs.Length && forall k :: 0 <= k < |out| ==> reqs[k] == out[k]
  }

  /** One turn of the loop of multiwrite_merge, in place. */
  method MergeOne(reqs: array<Request>, outidx: nat, i: nat, ghost out: seq<Request>) returns (outidx': nat)
    requires outidx < i < reqs.Length && |out| == outidx + 1 && Starts(reqs, out)
    requires out[outidx].sector <= reqs[i].sector
    modifies reqs
    ensures outidx' <= i && |Step(out, old(reqs[i]))| == outidx' + 1 && Starts(reqs, Step(out, old(reqs[i])))
    ensures forall k :: i < k < reqs.Length ==> reqs[k] == old(reqs[k])
  {
    if Joins(reqs[outidx], reqs[i]) {
      reqs[outidx] := Join(reqs[outidx], reqs[i]);
      outidx' := outidx;
    } else {
      reqs[outidx + 1] := reqs[i];
      outidx' := outidx + 1;
    }
    hide Join, Joins;
  }

  /** The loop of multiwrite_merge. */
  method MergeLoop(reqs: array<Request>, num: nat) returns (n: nat)
    requires 0 < num <= reqs.Length && Sorted(reqs[..num])
    modifies reqs
    ensures 0 < n <= num && reqs[..n] == Merge(old(reqs[..1]), old(reqs[1..num]))
    ensures forall k :: num <= k < reqs.Length ==> reqs[k] == old(reqs[k])
  {
    ghost var was := reqs[..num];
    assert was[..1] == reqs[..1] && was[1..] == reqs[1..num];
    ghost var out := was[..1];
    var outidx: nat, i: nat := 0, 1;
    assert Ready(out, was[1..]);
    hide Step, Merge, Ready, Sorted;
    while i < num
      invariant outidx < i <= num && |out| == outidx + 1 && Starts(reqs, out)
      invariant forall k :: i <= k < num ==> reqs[k] == was[k]
      invariant forall k :: num <= k < reqs.Length ==> reqs[k] == old(reqs[k])
      invariant Ready(out, was[i..]) && Merge(out, was[i..]) == Merge(was[..1], was[1..])
    {
      ReadyStep(out, was, i);
      outidx := MergeOne(reqs, outidx, i, out);
      out := Step(out, was[i]);
      i := i + 1;
    }
    n := outidx + 1;
    assert was[num..] == [];
    MergeDone(out);
    assert reqs[..n] == out;
  }

  /** multiwrite_merge on an array that qsort has sorted by start sector. */
  method MultiwriteMerge(reqs: array<Request>, num: nat) returns (n: nat)
    requires 0 < num <= reqs.Length && Sorted(reqs[..num])
    modifies reqs
    ensures 0 < n <= num && reqs[..n] == Merge(old(reqs[..1]), old(reqs[1..num]))
    ensures AllSized(old(reqs[..num])) && TailsRewritten(old(reqs[..num])) ==>
              Invisible(reqs[..n], old(reqs[..num]))
    ensures AllSized(old(reqs[..num])) && Roomy(old(reqs[..num])) ==>
              (Invisible(reqs[..n], old(reqs[..num])) <==> TailsRewritten(old(reqs[..num])))
    ensures forall k :: num <= k < reqs.Length ==> reqs[k] == old(reqs[k])
  {
    hide Merge, AllSized, TailsRewritten, Roomy, Invisible;
    ghost var was := reqs[..num];
    assert was[..1] == reqs[..1] && was[1..] == reqs[1..num];
    n := MergeLoop(reqs, num);
    if AllSized(was) {
      MergeExact(was);
    }
  }

  lemma MergeDone(out: seq<Request>)
    requires out != []
    ensures Ready(out, []) && Merge(out, []) == out
  {}

  lemma ReadyStep(out: seq<Request>, was: seq<Request>, i: nat)
    requires i < |was| && Ready(out, was[i..])
    ensures out != [] && out[|out| - 1].sector <= was[i].sector
    ensures Ready(Step(out, was[i]), was[i + 1..]) && Merge(out, was[i..]) == Merge(Step(out, was[i]), was[i + 1..])
  {
    assert was[i..][0] == was[i] && was[i..][1..] == was[i + 1..];
  }
}
