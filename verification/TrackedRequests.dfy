/**
 * Serialisation of overlapping block requests for copy-on-read (block.c): coroutines that
 * wait for tracked requests touching the same clusters, and the resulting isolation.
 */
module TrackedRequests {
  import opened Arithmetic
  import opened Wrappers

  /** BdrvTrackedRequest; `cor` marks a copy-on-read request. */
  datatype Request = Request(id: nat, sector: nat, nb: nat, cor: bool)

  /** `x` rounded down to a multiple of `c`. */
  function AlignDown(x: nat, c: nat): (r: nat)
    requires c > 0
    ensures r <= x
  {
    x - x % c
  }

  function AlignUp(x: nat, c: nat): (r: nat)
    requires c > 0
  {
    AlignDown(x + c - 1, c)
  }

  /** bdrv_round_to_clusters; `c` is the cluster size in sectors, 0 when it is not known. */
  function RoundToClusters(c: nat, sector: nat, nb: nat): (r: (nat, nat)) {
    if c == 0 then (sector, nb)
    else
      var start := AlignDown(sector, c);
      (start, AlignUp(sector - start + nb, c))
  }

  /** tracked_request_overlaps */
  predicate Overlaps(r: Request, sector: nat, nb: nat) {
    sector < r.sector + r.nb && r.sector < sector + nb
  }

  predicate Covers(r: Request, x: nat) { r.sector <= x < r.sector + r.nb }

  function ClusterOf(c: nat, x: nat): nat { if c == 0 then x else x / c }

  /** Some cluster is touched by both requests. */
  ghost predicate ShareCluster(c: nat, a: Request, b: Request) {
    exists x, y :: Covers(a, x) && Covers(b, y) && ClusterOf(c, x) == ClusterOf(c, y)
  }

  /** Some of the requests shares a cluster with `req`. */
  ghost predicate Shares(c: nat, tracked: seq<Request>, req: Request) {
    exists i :: 0 <= i < |tracked| && ShareCluster(c, req, tracked[i])
  }

  /** The first one that does. */
  ghost predicate FirstSharing(c: nat, tracked: seq<Request>, req: Request, i: nat) {
    && i < |tracked| && ShareCluster(c, req, tracked[i])
    && forall j :: 0 <= j < i ==> !ShareCluster(c, req, tracked[j])
  }

  /** A sector lies in the clusters `lo` to `hi` exactly when it lies between their ends. */
  lemma ClusterRange(y: nat, c: nat, lo: nat, hi: nat)
    requires c > 0
    ensures lo * c <= y < (hi + 1) * c <==> lo <= y / c <= hi
  {
    var q := y / c;
    assert q * c <= y < q * c + c && (q + 1) * c == q * c + c;
    if q < lo { MulMono(q + 1, lo, c); }
    if lo <= q { MulMono(lo, q, c); }
    if q <= hi { MulMono(q + 1, hi + 1, c); }
    if hi < q { MulMono(hi + 1, q, c); }
  }

  /** The rounded range runs from the start of the first cluster to the end of the last. */
  lemma RoundedRange(c: nat, sector: nat, nb: nat)
    requires c > 0 && nb > 0
    ensures var (s, n) := RoundToClusters(c, sector, nb);
            s == sector / c * c && s + n == ((sector + nb - 1) / c + 1) * c
  {
    var q := sector / c;
    var s := AlignDown(sector, c);
    assert s == q * c;
    var m := sector - s + nb + c - 1;
    var d := m / c;
    assert m == d * c + m % c;
    assert s + (m - m % c) == (q + d) * c;
    var last := sector + nb - 1;
    assert (q + d) * c == q * c + d * c && q + d >= 1;
    assert (q + d - 1) * c == (q + d) * c - c;
    DivUnique(last, c, q + d - 1);
  }

  /** Every cluster between the first and the last of a request holds one of its sectors. */
  lemma Counterpart(c: nat, a: Request, k: nat) returns (x: nat)
    requires c > 0 && a.nb > 0 && a.sector / c <= k <= (a.sector + a.nb - 1) / c
    ensures Covers(a, x) && x / c == k
  {
    if k == a.sector / c {
      x := a.sector;
    } else {
      x := k * c;
      ClusterRange(a.sector, c, k, k);
      ClusterRange(a.sector, c, 0, k - 1);
      ClusterRange(a.sector + a.nb - 1, c, k, (a.sector + a.nb - 1) / c);
      DivUnique(x, c, k);
    }
  }

  lemma Between(c: nat, lo: nat, x: nat, hi: nat)
    requires c > 0 && lo <= x <= hi
    ensures lo / c <= x / c <= hi / c
  {
    ClusterRange(x, c, lo / c, hi / c);
    ClusterRange(lo, c, lo / c, lo / c);
    ClusterRange(hi, c, hi / c, hi / c);
  }

  /** Comparing one rounded range with the other unrounded one decides exactly whether two
      requests share a cluster. */
  lemma RoundedOverlap(c: nat, a: Request, b: Request)
    requires a.nb > 0 && b.nb > 0
    ensures var (s, n) := RoundToClusters(c, a.sector, a.nb); Overlaps(b, s, n) <==> ShareCluster(c, a, b)
  {
    var (s, n) := RoundToClusters(c, a.sector, a.nb);
    if c > 0 { RoundedRange(c, a.sector, a.nb); }
    var lo, hi := ClusterOf(c, a.sector), ClusterOf(c, a.sector + a.nb - 1);
    if Overlaps(b, s, n) {
      var y := if b.sector < s then s else b.sector;
      assert Covers(b, y);
      if c > 0 {
        ClusterRange(y, c, lo, hi);
        var x := Counterpart(c, a, y / c);
        assert Covers(a, x) && ClusterOf(c, x) == ClusterOf(c, y);
      } else {
        assert Covers(a, y) && ClusterOf(c, y) == ClusterOf(c, y);
      }
    }
    if ShareCluster(c, a, b) {
      var x, y :| Covers(a, x) && Covers(b, y) && ClusterOf(c, x) == ClusterOf(c, y);
      if c > 0 {
        Between(c, a.sector, x, a.sector + a.nb - 1);
        ClusterRange(y, c, lo, hi);
      }
    }
  }

  lemma ShareSymmetric(c: nat, a: Request, b: Request)
    ensures ShareCluster(c, a, b) <==> ShareCluster(c, b, a)
  {
    if ShareCluster(c, a, b) {
      var x, y :| Covers(a, x) && Covers(b, y) && ClusterOf(c, x) == ClusterOf(c, y);
      assert Covers(b, y) && Covers(a, x) && ClusterOf(c, y) == ClusterOf(c, x);
    }
    if ShareCluster(c, b, a) {
      var x, y :| Covers(b, x) && Covers(a, y) && ClusterOf(c, x) == ClusterOf(c, y);
      assert Covers(a, y) && Covers(b, x) && ClusterOf(c, y) == ClusterOf(c, x);
    }
  }

  /** A coroutine in wait_for_overlapping_requests: asleep in the queue of the tracked request
      `on`, or restarted and about to look again. */
  datatype Waiter = Waiter(req: Request, on: Option<nat>)

  function Cor(r: Request): nat { if r.cor then 1 else 0 }

  function CountTracked(rs: seq<Request>): nat {
    if rs == [] then 0 else Cor(rs[0]) + CountTracked(rs[1..])
  }

  function CountWaiting(ws: seq<Waiter>): nat {
    if ws == [] then 0 else Cor(ws[0].req) + CountWaiting(ws[1..])
  }

  lemma {:induction false} CountTrackedSplit(rs: seq<Request>, i: nat)
    requires i < |rs|
    ensures CountTracked(rs[..i] + rs[i + 1..]) + Cor(rs[i]) == CountTracked(rs)
  {
    if i == 0 {
      assert rs[..0] + rs[1..] == rs[1..];
    } else {
      CountTrackedSplit(rs[1..], i - 1);
      assert (rs[..i] + rs[i + 1..])[1..] == rs[1..][..i - 1] + rs[1..][i..];
    }
  }

  lemma {:induction false} CountWaitingSplit(ws: seq<Waiter>, i: nat)
    requires i < |ws|
    ensures CountWaiting(ws[..i] + ws[i + 1..]) + Cor(ws[i].req) == CountWaiting(ws)
  {
    if i == 0 {
      assert ws[..0] + ws[1..] == ws[1..];
    } else {
      CountWaitingSplit(ws[1..], i - 1);
      assert (ws[..i] + ws[i + 1..])[1..] == ws[1..][..i - 1] + ws[1..][i..];
    }
  }

  lemma {:induction false} CountWaitingSame(ws: seq<Waiter>, ws': seq<Waiter>)
    requires |ws| == |ws'| && forall k :: 0 <= k < |ws| ==> ws[k].req == ws'[k].req
    ensures CountWaiting(ws) == CountWaiting(ws')
  {
    if ws != [] { CountWaitingSame(ws[1..], ws'[1..]); }
  }

  lemma {:induction false} NoCor(rs: seq<Request>)
    requires CountTracked(rs) == 0
    ensures forall i :: 0 <= i < |rs| ==> !rs[i].cor
  {
    if rs != [] {
      NoCor(rs[1..]);
      assert forall i :: 1 <= i < |rs| ==> rs[i] == rs[1..][i - 1];
    }
  }

  /** A copy-on-read request has its clusters to itself. */
  ghost predicate Isolated(c: nat, tracked: seq<Request>) {
    forall i, j :: 0 <= i < j < |tracked| && (tracked[i].cor || tracked[j].cor) ==>
      !ShareCluster(c, tracked[i], tracked[j])
  }

  ghost predicate DistinctIds(tracked: seq<Request>, waiting: seq<Waiter>) {
    && (forall i, j :: 0 <= i < j < |tracked| ==> tracked[i].id != tracked[j].id)
    && (forall i, j :: 0 <= i < j < |waiting| ==> waiting[i].req.id != waiting[j].req.id)
    && (forall i, j :: 0 <= i < |tracked| && 0 <= j < |waiting| ==> tracked[i].id != waiting[j].req.id)
  }

  /** Whoever sleeps, sleeps on a request that is still tracked and shares a cluster with it. */
  ghost predicate Awaited(c: nat, tracked: seq<Request>, w: Waiter) {
    w.on.Some? ==> exists i :: 0 <= i < |tracked| && tracked[i].id == w.on.value && ShareCluster(c, w.req, tracked[i])
  }

  class BlockDriverState {
    const cluster: nat
    var tracked: seq<Request>
    var waiting: seq<Waiter>
    var copyOnReadInFlight: nat

    ghost predicate Valid()
      reads this
    {
      && (forall i :: 0 <= i < |tracked| ==> tracked[i].nb > 0)
      && (forall k :: 0 <= k < |waiting| ==> waiting[k].req.nb > 0)
      && Isolated(cluster, tracked) && DistinctIds(tracked, waiting)
      && copyOnReadInFlight == CountTracked(tracked) + CountWaiting(waiting)
      && (forall k :: 0 <= k < |waiting| ==> Awaited(cluster, tracked, waiting[k]))
    }

    constructor (cluster: nat)
      ensures Valid() && this.cluster == cluster && tracked == [] && waiting == []
    {
      this.cluster := cluster;
      tracked, waiting, copyOnReadInFlight := [], [], 0;
    }

    /** One scan of wait_for_overlapping_requests. */
    method FindOverlap(req: Request) returns (r: Option<nat>)
      requires req.nb > 0 && forall i :: 0 <= i < |tracked| ==> tracked[i].nb > 0
      ensures r.Some? ==> r.value < |tracked| && FirstSharing(cluster, tracked, req, r.value)
      ensures r.None? ==> forall i :: 0 <= i < |tracked| ==> !ShareCluster(cluster, req, tracked[i])
    {
      var (s, n) := RoundToClusters(cluster, req.sector, req.nb);
      for i := 0 to |tracked|
        invariant forall j :: 0 <= j < i ==> !ShareCluster(cluster, req, tracked[j])
      {
        RoundedOverlap(cluster, req, tracked[i]);
        if Overlaps(tracked[i], s, n) {
          return Some(i);
        }
      }
      return None;
    }

    /** tracked_request_begin, for a request that is `alone` or need not be. */
    method Begin(req: Request)
      requires req.nb > 0 && Isolated(cluster, tracked)
      requires (!req.cor && CountTracked(tracked) == 0) ||
               forall i :: 0 <= i < |tracked| ==> !ShareCluster(cluster, req, tracked[i])
      modifies this`tracked
      ensures tracked == [req] + old(tracked) && Isolated(cluster, tracked)
      ensures CountTracked(tracked) == Cor(req) + CountTracked(old(tracked))
    {
      if CountTracked(tracked) == 0 { NoCor(tracked); }
      tracked := [req] + tracked;
      assert tracked[1..] == old(tracked);
      assert forall i :: 1 <= i < |tracked| ==> tracked[i] == old(tracked)[i - 1];
    }

    ghost predicate NewId(id: nat)
      reads this
    {
      && (forall i :: 0 <= i < |tracked| ==> tracked[i].id != id)
      && (forall k :: 0 <= k < |waiting| ==> waiting[k].req.id != id)
    }

    /** The head of bdrv_co_do_readv and bdrv_co_do_writev: a new request waits if a copy-on-read
        is in flight and somebody is in its clusters, and is tracked otherwise. */
    method Arrive(req: Request)
      requires Valid() && req.nb > 0 && NewId(req.id)
      modifies this
      ensures Valid()
      ensures if (req.cor || old(copyOnReadInFlight) > 0) && Shares(cluster, old(tracked), req)
              then && tracked == old(tracked)
                   && exists i: nat :: FirstSharing(cluster, tracked, req, i) &&
                        waiting == old(waiting) + [Waiter(req, Some(tracked[i].id))]
              else tracked == [req] + old(tracked) && waiting == old(waiting)
    {
      var inFlight := copyOnReadInFlight + if req.cor then 1 else 0;
      var blocker := None;
      if inFlight > 0 {
        blocker := FindOverlap(req);
      }
      if blocker.Some? {
        Sleep(req, blocker.value);
      } else {
        Enter(req);
      }
    }

    /** The request goes to sleep in the queue of tracked request `i`. */
    method Sleep(req: Request, i: nat)
      requires Valid() && req.nb > 0 && NewId(req.id) && i < |tracked| && ShareCluster(cluster, req, tracked[i])
      modifies this`waiting, this`copyOnReadInFlight
      ensures Valid() && waiting == old(waiting) + [Waiter(req, Some(tracked[i].id))]
    {
      var w := Waiter(req, Some(tracked[i].id));
      AppendWaiter(waiting, w);
      hide ShareCluster, CountWaiting, CountTracked, Isolated;
      waiting := waiting + [w];
      copyOnReadInFlight := copyOnReadInFlight + if req.cor then 1 else 0;
      assert Awaited(cluster, tracked, w);
    }

    /** The request is tracked without having slept. */
    method Enter(req: Request)
      requires Valid() && req.nb > 0 && NewId(req.id)
      requires copyOnReadInFlight + Cor(req) == 0 ||
               forall i :: 0 <= i < |tracked| ==> !ShareCluster(cluster, req, tracked[i])
      modifies this`tracked, this`copyOnReadInFlight
      ensures Valid() && tracked == [req] + old(tracked)
    {
      Begin(req);
      copyOnReadInFlight := copyOnReadInFlight + if req.cor then 1 else 0;
      forall k | 0 <= k < |waiting| ensures Awaited(cluster, tracked, waiting[k]) {
        StillAwaited(cluster, old(tracked), [req], waiting[k]);
      }
      hide ShareCluster, CountWaiting, CountTracked, Isolated, Awaited;
    }

    /** A restarted waiter looks again: it goes back to sleep or is tracked. */
    method Resume(k: nat)
      requires Valid() && k < |waiting| && waiting[k].on.None?
      modifies this
      ensures Valid()
      ensures var req, others := old(waiting)[k].req, old(waiting)[..k] + old(waiting)[k + 1..];
              if Shares(cluster, old(tracked), req)
              then && tracked == old(tracked)
                   && exists i: nat :: FirstSharing(cluster, tracked, req, i) &&
                        waiting == old(waiting)[k := Waiter(req, Some(tracked[i].id))]
              else tracked == [req] + old(tracked) && waiting == others
    {
      var req := waiting[k].req;
      var blocker := FindOverlap(req);
      if blocker.Some? {
        var on := tracked[blocker.value].id;
        CountWaitingSame(waiting, waiting[k := Waiter(req, Some(on))]);
        waiting := waiting[k := Waiter(req, Some(on))];
      } else {
        Begin(req);
        CountWaitingSplit(waiting, k);
        MoveWaiter(old(tracked), waiting, k);
        hide ShareCluster, CountWaiting, CountTracked, Isolated, DistinctIds;
        waiting := waiting[..k] + waiting[k + 1..];
        forall j | 0 <= j < |waiting| ensures Awaited(cluster, tracked, waiting[j]) {
          StillAwaited(cluster, old(tracked), [req], old(waiting)[if j < k then j else j + 1]);
        }
      }
    }

    /** qemu_co_queue_restart_all on the queue of request `id`. */
    method RestartAll(id: nat)
      modifies this`waiting
      ensures |waiting| == old(|waiting|)
      ensures forall k :: 0 <= k < |waiting| ==> waiting[k] == Restarted(old(waiting)[k], id)
    {
      var k := 0;
      while k < |waiting|
        invariant 0 <= k <= |waiting| == |old(waiting)|
        invariant forall j :: k <= j < |waiting| ==> waiting[j] == old(waiting)[j]
        invariant forall j :: 0 <= j < k ==> waiting[j] == Restarted(old(waiting)[j], id)
      {
        if waiting[k].on == Some(id) {
          waiting := waiting[k := waiting[k].(on := None)];
        }
        k := k + 1;
      }
    }

    /** tracked_request_end and what follows it: the request goes, and its whole queue is restarted. */
    method End(i: nat)
      requires Valid() && i < |tracked|
      modifies this
      ensures Valid() && tracked == old(tracked)[..i] + old(tracked)[i + 1..]
      ensures |waiting| == old(|waiting|)
      ensures forall k :: 0 <= k < |waiting| ==> waiting[k] == Restarted(old(waiting)[k], old(tracked)[i].id)
    {
      var req := tracked[i];
      CountTrackedSplit(tracked, i);
      RestartAll(req.id);
      CountWaitingSame(waiting, old(waiting));
      forall j | 0 <= j < |waiting| ensures Awaited(cluster, old(tracked)[..i] + old(tracked)[i + 1..], waiting[j]) {
        AwaitedLater(cluster, tracked, i, old(waiting)[j]);
      }
      RemoveTracked(cluster, tracked, i, old(waiting), waiting);
      hide ShareCluster, CountWaiting, CountTracked, Awaited, Isolated, DistinctIds;
      tracked := tracked[..i] + tracked[i + 1..];
      if req.cor {
        copyOnReadInFlight := copyOnReadInFlight - 1;
      }
    }
  }

  function Restarted(w: Waiter, id: nat): Waiter {
    if w.on == Some(id) then w.(on := None) else w
  }

  lemma RemoveTracked(c: nat, tracked: seq<Request>, i: nat, waiting: seq<Waiter>, waiting': seq<Waiter>)
    requires i < |tracked| && Isolated(c, tracked) && DistinctIds(tracked, waiting)
    requires |waiting'| == |waiting| && forall k :: 0 <= k < |waiting| ==> waiting'[k].req == waiting[k].req
    ensures Isolated(c, tracked[..i] + tracked[i + 1..]) && DistinctIds(tracked[..i] + tracked[i + 1..], waiting')
  {
    hide ShareCluster;
    var rest := tracked[..i] + tracked[i + 1..];
    assert forall j :: 0 <= j < |rest| ==> rest[j] == tracked[if j < i then j else j + 1];
  }

  lemma MoveWaiter(tracked: seq<Request>, waiting: seq<Waiter>, k: nat)
    requires k < |waiting| && DistinctIds(tracked, waiting)
    ensures DistinctIds([waiting[k].req] + tracked, waiting[..k] + waiting[k + 1..])
  {
    var rest := waiting[..k] + waiting[k + 1..];
    assert forall j :: 0 <= j < |rest| ==> rest[j] == waiting[if j < k then j else j + 1];
  }

  lemma AwaitedLater(c: nat, tracked: seq<Request>, i: nat, w: Waiter)
    requires i < |tracked| && Awaited(c, tracked, w)
    ensures Awaited(c, tracked[..i] + tracked[i + 1..], Restarted(w, tracked[i].id))
  {
    var rest := tracked[..i] + tracked[i + 1..];
    if w.on.Some? && w.on.value != tracked[i].id {
      var m :| 0 <= m < |tracked| && tracked[m].id == w.on.value && ShareCluster(c, w.req, tracked[m]);
      assert rest[if m < i then m else m - 1] == tracked[m];
    }
  }

  lemma {:induction false} AppendWaiter(ws: seq<Waiter>, w: Waiter)
    ensures CountWaiting(ws + [w]) == CountWaiting(ws) + Cor(w.req)
  {
    if ws == [] {
      assert (ws + [w])[1..] == [];
    } else {
      AppendWaiter(ws[1..], w);
      assert (ws + [w])[1..] == ws[1..] + [w];
    }
  }

  lemma StillAwaited(c: nat, tracked: seq<Request>, more: seq<Request>, w: Waiter)
    requires Awaited(c, tracked, w)
    ensures Awaited(c, more + tracked, w)
  {
    if w.on.Some? {
      var i :| 0 <= i < |tracked| && tracked[i].id == w.on.value && ShareCluster(c, w.req, tracked[i]);
      assert (more + tracked)[|more| + i] == tracked[i];
    }
  }

  /** What isolation means on the disk: while a copy-on-read request is tracked, no sector of any
      cluster it copies is being read or written by another tracked request. */
  lemma CopyIsAtomic(c: nat, tracked: seq<Request>, i: nat, j: nat, x: nat, y: nat)
    requires Isolated(c, tracked) && i < |tracked| && j < |tracked| && i != j && tracked[i].cor
    requires Covers(tracked[i], x) && ClusterOf(c, x) == ClusterOf(c, y)
    ensures !Covers(tracked[j], y)
  {
    if Covers(tracked[j], y) {
      assert ShareCluster(c, tracked[i], tracked[j]);
      ShareSymmetric(c, tracked[i], tracked[j]);
    }
  }

  /** A sector written to the disk at a moment when `tracked` are the requests in progress, by
      request `writer` of them; the copy-on-read request is number `copy`. */
  datatype Write = Write(tracked: seq<Request>, copy: nat, writer: nat, sector: nat, value: int)

  /** The write is by another request than the copy-on-read request `r`, under isolation. */
  ghost predicate Meanwhile(c: nat, r: Request, w: Write) {
    && Isolated(c, w.tracked) && w.copy < |w.tracked| && w.tracked[w.copy] == r
    && w.writer < |w.tracked| && w.writer != w.copy && Covers(w.tracked[w.writer], w.sector)
  }

  function Written(disk: seq<int>, ws: seq<Write>): (r: seq<int>)
    ensures |r| == |disk|
  {
    if ws == [] then disk
    else
      var before, w := Written(disk, ws[..|ws| - 1]), ws[|ws| - 1];
      if w.sector < |disk| then before[w.sector := w.value] else before
  }

  function Cut(x: nat, limit: nat): (r: nat)
    ensures r <= x && r <= limit
  {
    if x < limit then x else limit
  }

  /** The disk after the sectors from `s` on, as far as it goes, are written back from a buffer filled
      earlier. */
  function WrittenBack(disk: seq<int>, earlier: seq<int>, s: nat, n: nat): (r: seq<int>)
    requires |earlier| == |disk|
    ensures |r| == |disk|
  {
    var lo, hi := Cut(s, |disk|), Cut(s + n, |disk|);
    disk[..lo] + earlier[lo..hi] + disk[hi..]
  }

  /** Sector `y` is in the range that the request is rounded to. */
  predicate InRounded(c: nat, r: Request, y: nat) {
    var (s, n) := RoundToClusters(c, r.sector, r.nb);
    s <= y < s + n
  }

  lemma RoundedClusters(c: nat, r: Request, y: nat)
    requires c > 0 && r.nb > 0 && InRounded(c, r, y)
    ensures r.sector / c <= y / c <= (r.sector + r.nb - 1) / c
  {
    hide RoundToClusters;
    RoundedRange(c, r.sector, r.nb);
    ClusterRange(y, c, r.sector / c, (r.sector + r.nb - 1) / c);
  }

  /** Every sector of the rounded range is in a cluster of the request. */
  lemma RoundedSectors(c: nat, r: Request, y: nat) returns (x: nat)
    requires r.nb > 0 && InRounded(c, r, y)
    ensures Covers(r, x) && ClusterOf(c, x) == ClusterOf(c, y)
  {
    if c == 0 {
      x := y;
    } else {
      hide InRounded;
      RoundedClusters(c, r, y);
      x := Counterpart(c, r, y / c);
    }
  }

  /** Whatever is written while the copy is in progress, none of it is inside the clusters that it
      has read. */
  lemma {:induction false} CopyUntouched(c: nat, r: Request, disk: seq<int>, ws: seq<Write>, y: nat)
    requires r.cor && r.nb > 0 && y < |disk| && InRounded(c, r, y)
    requires forall k :: 0 <= k < |ws| ==> Meanwhile(c, r, ws[k])
    ensures Written(disk, ws)[y] == disk[y]
  {
    hide InRounded, Isolated, ClusterOf;
    if ws != [] {
      var w := ws[|ws| - 1];
      CopyUntouched(c, r, disk, ws[..|ws| - 1], y);
      assert Meanwhile(c, r, w);
      if w.sector == y {
        var x := RoundedSectors(c, r, y);
        CopyIsAtomic(c, w.tracked, w.copy, w.writer, x, y);
      }
    }
  }

  /** bdrv_co_do_copy_on_readv: a copy reads whole clusters and later writes them back.  Whatever the
      other requests write in between, writing back loses none of it. */
  lemma CopyIsInvisible(c: nat, r: Request, disk: seq<int>, ws: seq<Write>)
    requires r.cor && r.nb > 0 && forall k :: 0 <= k < |ws| ==> Meanwhile(c, r, ws[k])
    ensures var (s, n) := RoundToClusters(c, r.sector, r.nb);
            WrittenBack(Written(disk, ws), disk, s, n) == Written(disk, ws)
  {
    hide RoundToClusters, Meanwhile, Written;
    var (s, n) := RoundToClusters(c, r.sector, r.nb);
    forall y: nat | s <= y < s + n && y < |disk| ensures disk[y] == Written(disk, ws)[y] {
      CopyUntouched(c, r, disk, ws, y);
    }
    WrittenBackSame(Written(disk, ws), disk, s, n);
  }

  lemma WrittenBackSame(disk: seq<int>, earlier: seq<int>, s: nat, n: nat)
    requires |earlier| == |disk| && forall y :: s <= y < s + n && y < |disk| ==> earlier[y] == disk[y]
    ensures WrittenBack(disk, earlier, s, n) == disk
  {
    var lo, hi := Cut(s, |disk|), Cut(s + n, |disk|);
    assert earlier[lo..hi] == disk[lo..hi];
  }
}
