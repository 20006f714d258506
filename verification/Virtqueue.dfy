/**
 * The consumer side of a split virtqueue (vhost_user.c), after section 2.4 of the VIRTIO 1.0
 * specification.  Indices run freely in 16 bits; ring positions are the indices modulo the ring
 * size; a buffer is a chain of descriptors.
 */
module Virtqueue {
  import opened Arithmetic
  import opened Bytes

  /** A descriptor; `more` is its NEXT flag. */
  datatype Desc = Desc(addr: nat, len: nat, more: bool, next: nat)

  datatype UsedElem = UsedElem(id: nat, len: nat)

  /** A shared memory region, at three addresses: the guest's, the peer's and ours. */
  datatype Region = Region(guest: nat, user: nat, size: nat, mmap: nat)

  // ------------------------------------------------------------------------- address translation

  predicate HoldsGuest(r: Region, a: nat) { r.guest <= a < r.guest + r.size }

  predicate HoldsUser(r: Region, a: nat) { r.user <= a < r.user + r.size }

  /** Where a guest address is found: in the first region that holds it, or nowhere. */
  function GuestToHost(regions: seq<Region>, a: nat): nat {
    if regions == [] then 0
    else if HoldsGuest(regions[0], a) then regions[0].mmap + (a - regions[0].guest)
    else GuestToHost(regions[1..], a)
  }

  function UserToHost(regions: seq<Region>, a: nat): nat {
    if regions == [] then 0
    else if HoldsUser(regions[0], a) then regions[0].mmap + (a - regions[0].user)
    else UserToHost(regions[1..], a)
  }

  /** No two regions share a guest address or a peer address. */
  ghost predicate Separate(regions: seq<Region>) {
    forall i, j :: 0 <= i < j < |regions| ==> Apart(regions[i], regions[j])
  }

  predicate Apart(r: Region, s: Region) {
    && (r.guest + r.size <= s.guest || s.guest + s.size <= r.guest)
    && (r.user + r.size <= s.user || s.user + s.size <= r.user)
  }

  /** The two translations agree on every shared byte. */
  lemma {:induction false} TranslationsAgree(regions: seq<Region>, i: nat, o: nat)
    requires Separate(regions) && i < |regions| && o < regions[i].size
    ensures GuestToHost(regions, regions[i].guest + o) == regions[i].mmap + o
    ensures UserToHost(regions, regions[i].user + o) == regions[i].mmap + o
  {
    if i > 0 {
      assert Apart(regions[0], regions[i]);
      TranslationsAgree(regions[1..], i - 1, o);
    }
  }

  /** _map_guest_addr */
  method MapGuestAddr(regions: seq<Region>, a: nat) returns (host: nat)
    ensures host == GuestToHost(regions, a)
  {
    var i := 0;
    while i < |regions|
      invariant 0 <= i <= |regions| && GuestToHost(regions[i..], a) == GuestToHost(regions, a)
    {
      if HoldsGuest(regions[i], a) {
        return regions[i].mmap + a - regions[i].guest;
      }
      assert regions[i..][1..] == regions[i + 1..];
      i := i + 1;
    }
    return 0;
  }

  /** _map_user_addr */
  method MapUserAddr(regions: seq<Region>, a: nat) returns (host: nat)
    ensures host == UserToHost(regions, a)
  {
    var i := 0;
    while i < |regions|
      invariant 0 <= i <= |regions| && UserToHost(regions[i..], a) == UserToHost(regions, a)
    {
      if HoldsUser(regions[i], a) {
        return regions[i].mmap + a - regions[i].user;
      }
      assert regions[i..][1..] == regions[i + 1..];
      i := i + 1;
    }
    return 0;
  }

  // ------------------------------------------------------------------------------------- chains

  /** `p` is the chain of descriptors that starts at `head`. */
  ghost predicate IsChain(desc: seq<Desc>, head: nat, p: seq<nat>) {
    && p != [] && p[0] == head
    && (forall j :: 0 <= j < |p| ==> p[j] < |desc|)
    && (forall j :: 0 <= j < |p| - 1 ==> Linked(desc, p, j))
    && !desc[p[|p| - 1]].more
  }

  ghost predicate Linked(desc: seq<Desc>, p: seq<nat>, j: nat)
    requires j + 1 < |p| && p[j] < |desc|
  {
    desc[p[j]].more && desc[p[j]].next == p[j + 1]
  }

  /** Where the NEXT flag says that a chain goes on, and where. */
  lemma ChainStep(desc: seq<Desc>, head: nat, p: seq<nat>, j: nat)
    requires IsChain(desc, head, p) && j < |p|
    ensures p[j] < |desc| && (desc[p[j]].more <==> j + 1 < |p|)
    ensures j + 1 < |p| ==> desc[p[j]].next == p[j + 1]
  {
    if j + 1 < |p| {
      assert Linked(desc, p, j);
    }
  }

  ghost predicate HasChain(desc: seq<Desc>, head: nat) {
    exists p :: IsChain(desc, head, p)
  }

  ghost function ChainOf(desc: seq<Desc>, head: nat): (p: seq<nat>)
    requires HasChain(desc, head)
    ensures IsChain(desc, head, p)
  {
    var p :| IsChain(desc, head, p);
    p
  }

  ghost predicate Known(desc: seq<Desc>, p: seq<nat>) {
    forall j :: 0 <= j < |p| ==> p[j] < |desc|
  }

  /** Bytes described by the first `k` descriptors of a chain. */
  ghost function Total(desc: seq<Desc>, p: seq<nat>, k: nat): nat
    requires Known(desc, p) && k <= |p|
  {
    if k == 0 then 0 else Total(desc, p, k - 1) + desc[p[k - 1]].len
  }

  /** The most descriptors of a chain that total less than an Ethernet packet buffer. */
  ghost function Longest(desc: seq<Desc>, p: seq<nat>, k: nat): (r: nat)
    requires Known(desc, p) && k <= |p|
    ensures r <= k && Total(desc, p, r) < 1518
  {
    if Total(desc, p, k) < 1518 then k else Longest(desc, p, k - 1)
  }

  lemma {:induction false} TotalGrows(desc: seq<Desc>, p: seq<nat>, j: nat, k: nat)
    requires Known(desc, p) && j <= k <= |p|
    ensures Total(desc, p, j) <= Total(desc, p, k)
  {
    if j < k {
      TotalGrows(desc, p, j, k - 1);
    }
  }

  /** Taking descriptors while they fit takes the most that fit. */
  lemma {:induction false} GreedyIsLongest(desc: seq<Desc>, p: seq<nat>, j: nat, k: nat)
    requires Known(desc, p) && j <= k <= |p| && Total(desc, p, j) < 1518
    requires j == |p| || Total(desc, p, j + 1) >= 1518
    ensures Longest(desc, p, k) == j
  {
    if j < k {
      TotalGrows(desc, p, j + 1, k);
      GreedyIsLongest(desc, p, j, k - 1);
    }
  }

  /** The region that translates `a` also holds the `len` bytes from there on, and is really there. */
  ghost predicate Mapped(regions: seq<Region>, size: nat, a: nat, len: nat) {
    regions != [] &&
    if HoldsGuest(regions[0], a)
    then a + len <= regions[0].guest + regions[0].size && regions[0].mmap + regions[0].size <= size
    else Mapped(regions[1..], size, a, len)
  }

  lemma {:induction false} MappedInside(regions: seq<Region>, size: nat, a: nat, len: nat)
    requires Mapped(regions, size, a, len)
    ensures GuestToHost(regions, a) + len <= size
  {
    if !HoldsGuest(regions[0], a) {
      MappedInside(regions[1..], size, a, len);
    }
  }

  /** A descriptor whose bytes, if it has any, are in a mapped region. */
  ghost predicate Readable(regions: seq<Region>, host: seq<Byte>, d: Desc) {
    d.len == 0 || Mapped(regions, |host|, d.addr, d.len)
  }

  /** The first `k` descriptors of a chain are readable. */
  ghost predicate AllReadable(regions: seq<Region>, host: seq<Byte>, desc: seq<Desc>, p: seq<nat>, k: nat)
    requires Known(desc, p) && k <= |p|
  {
    forall j :: 0 <= j < k ==> Readable(regions, host, desc[p[j]])
  }

  /** The descriptor at which copying stops for want of room, if there is one, is not so long that a
      32-bit sum wraps. */
  ghost predicate StopsAt(desc: seq<Desc>, p: seq<nat>, k: nat)
    requires Known(desc, p) && k <= |p|
  {
    k < |p| ==> desc[p[k]].len < 0x1_0000_0000 - 1518
  }

  /** There is a chain at `head`, and what is copied of it can be read.  Nothing is asked of the
      descriptors after that, or outside the chain. */
  ghost predicate ChainReadable(regions: seq<Region>, host: seq<Byte>, desc: seq<Desc>, head: nat) {
    HasChain(desc, head) &&
    var p := ChainOf(desc, head);
    var k := Longest(desc, p, |p|);
    AllReadable(regions, host, desc, p, k) && StopsAt(desc, p, k)
  }

  ghost function Contents(regions: seq<Region>, host: seq<Byte>, d: Desc): (r: seq<Byte>)
    requires Readable(regions, host, d)
    ensures |r| == d.len
  {
    if d.len == 0 then []
    else
      var at := GuestToHost(regions, d.addr);
      MappedInside(regions, |host|, d.addr, d.len);
      host[at..at + d.len]
  }

  /** The bytes of the first `k` descriptors. */
  ghost function Gather(regions: seq<Region>, host: seq<Byte>, desc: seq<Desc>, p: seq<nat>, k: nat): (r: seq<Byte>)
    requires Known(desc, p) && k <= |p| && AllReadable(regions, host, desc, p, k)
    ensures |r| == Total(desc, p, k)
  {
    if k == 0 then [] else Gather(regions, host, desc, p, k - 1) + Contents(regions, host, desc[p[k - 1]])
  }

  /** The frame that the chain at `head` carries. */
  ghost function Frame(regions: seq<Region>, host: seq<Byte>, desc: seq<Desc>, head: nat): (r: seq<Byte>)
    requires ChainReadable(regions, host, desc, head)
    ensures |r| < 1518
  {
    var p := ChainOf(desc, head);
    Gather(regions, host, desc, p, Longest(desc, p, |p|))
  }

  /** Byte `o` of descriptor `j` of the chain is, in the bytes of the first `k`, the byte of shared memory
      at its translated address. */
  lemma {:induction false} GatherBytes(regions: seq<Region>, host: seq<Byte>, desc: seq<Desc>, p: seq<nat>, k: nat,
                                       j: nat, o: nat)
    requires Known(desc, p) && j < k <= |p| && AllReadable(regions, host, desc, p, k) && o < desc[p[j]].len
    ensures Total(desc, p, j) + o < Total(desc, p, k) && GuestToHost(regions, desc[p[j]].addr) + o < |host|
    ensures Gather(regions, host, desc, p, k)[Total(desc, p, j) + o] ==
            host[GuestToHost(regions, desc[p[j]].addr) + o]
  {
    hide GuestToHost, Mapped, Readable, Contents;
    var before, last := Gather(regions, host, desc, p, k - 1), Contents(regions, host, desc[p[k - 1]]);
    TotalStep(desc, p, k - 1);
    if j < k - 1 {
      GatherBytes(regions, host, desc, p, k - 1, j, o);
      assert (before + last)[Total(desc, p, j) + o] == before[Total(desc, p, j) + o];
    } else {
      ContentsByte(regions, host, desc[p[j]], o);
      assert (before + last)[Total(desc, p, j) + o] == last[o];
    }
  }

  lemma ContentsByte(regions: seq<Region>, host: seq<Byte>, d: Desc, o: nat)
    requires Readable(regions, host, d) && o < d.len
    ensures GuestToHost(regions, d.addr) + o < |host|
    ensures Contents(regions, host, d)[o] == host[GuestToHost(regions, d.addr) + o]
  {
    hide GuestToHost, Mapped;
    MappedInside(regions, |host|, d.addr, d.len);
  }

  /** The frame holds, descriptor by descriptor, the bytes of shared memory at the translated addresses. */
  ghost predicate Copied(regions: seq<Region>, host: seq<Byte>, desc: seq<Desc>, p: seq<nat>, frame: seq<Byte>)
    requires Known(desc, p)
  {
    && |frame| == Total(desc, p, Longest(desc, p, |p|))
    && forall j: nat, o: nat :: j < Longest(desc, p, |p|) && o < desc[p[j]].len ==>
         CopiedByte(regions, host, desc[p[j]], frame, Total(desc, p, j), o)
  }

  predicate CopiedByte(regions: seq<Region>, host: seq<Byte>, d: Desc, frame: seq<Byte>, at: nat, o: nat) {
    && at + o < |frame| && GuestToHost(regions, d.addr) + o < |host|
    && frame[at + o] == host[GuestToHost(regions, d.addr) + o]
  }

  lemma FrameBytes(regions: seq<Region>, host: seq<Byte>, desc: seq<Desc>, head: nat)
    requires ChainReadable(regions, host, desc, head)
    ensures Copied(regions, host, desc, ChainOf(desc, head), Frame(regions, host, desc, head))
  {
    hide IsChain, HasChain, GuestToHost, Mapped;
    var p := ChainOf(desc, head);
    ChainStarts(desc, head, p);
    var k := Longest(desc, p, |p|);
    forall j: nat, o: nat | j < k && o < desc[p[j]].len
      ensures CopiedByte(regions, host, desc[p[j]], Frame(regions, host, desc, head), Total(desc, p, j), o)
    {
      GatherBytes(regions, host, desc, p, k, j, o);
    }
  }

  lemma TailChain(desc: seq<Desc>, head: nat, p: seq<nat>)
    requires IsChain(desc, head, p) && |p| > 1
    ensures head < |desc| && IsChain(desc, desc[head].next, p[1..])
  {
    var q := p[1..];
    assert Linked(desc, p, 0);
    forall j | 0 <= j < |q| - 1 ensures Linked(desc, q, j) {
      assert Linked(desc, p, j + 1);
    }
  }

  /** There is only one chain at a head. */
  lemma {:induction false} OneChain(desc: seq<Desc>, head: nat, p: seq<nat>, q: seq<nat>)
    requires IsChain(desc, head, p) && IsChain(desc, head, q)
    ensures p == q
    decreases |p|
  {
    ChainStep(desc, head, p, 0);
    ChainStep(desc, head, q, 0);
    if |p| > 1 {
      TailChain(desc, head, p);
      TailChain(desc, head, q);
      OneChain(desc, desc[head].next, p[1..], q[1..]);
      assert p == [p[0]] + p[1..] && q == [q[0]] + q[1..];
    }
  }

  /** With separate regions, a readable descriptor is copied from the region that holds its address. */
  lemma {:induction false} CopiedFrom(regions: seq<Region>, size: nat, d: Desc, i: nat, o: nat)
    requires Separate(regions) && i < |regions| && HoldsGuest(regions[i], d.addr) && o < d.len
    requires Mapped(regions, size, d.addr, d.len)
    ensures HoldsGuest(regions[i], d.addr + o)
    ensures GuestToHost(regions, d.addr) + o == regions[i].mmap + (d.addr + o - regions[i].guest)
    ensures GuestToHost(regions, d.addr) + o == GuestToHost(regions, d.addr + o)
  {
    if i > 0 {
      assert Apart(regions[0], regions[i]);
      CopiedFrom(regions[1..], size, d, i - 1, o);
    }
  }

  lemma {:induction false} LongestStops(desc: seq<Desc>, p: seq<nat>, k: nat)
    requires Known(desc, p) && k <= |p| && Longest(desc, p, k) < k
    ensures Total(desc, p, Longest(desc, p, k) + 1) >= 1518
  {
    if Longest(desc, p, k) < k - 1 {
      LongestStops(desc, p, k - 1);
    }
  }

  /** The descriptors before the end of the chain, or before one too large for the buffer, are empty. */
  ghost predicate NothingFits(desc: seq<Desc>, p: seq<nat>)
    requires Known(desc, p)
  {
    exists k: nat :: k <= |p| && Total(desc, p, k) == 0 && (k == |p| || desc[p[k]].len >= 1518)
  }

  /** Exactly these chains carry no frame, and get no element in the used ring. */
  lemma NoFrame(regions: seq<Region>, host: seq<Byte>, desc: seq<Desc>, head: nat)
    requires ChainReadable(regions, host, desc, head)
    ensures Frame(regions, host, desc, head) == [] <==> NothingFits(desc, ChainOf(desc, head))
  {
    hide IsChain, HasChain, AllReadable;
    var p := ChainOf(desc, head);
    ChainStarts(desc, head, p);
    var r := Longest(desc, p, |p|);
    if Total(desc, p, r) == 0 && r < |p| {
      LongestStops(desc, p, |p|);
    }
    if NothingFits(desc, p) {
      var k: nat :| k <= |p| && Total(desc, p, k) == 0 && (k == |p| || desc[p[k]].len >= 1518);
      GreedyIsLongest(desc, p, k, |p|);
    }
  }

  /** The bytes of one descriptor, at its translated address. */
  method CopyDesc(regions: seq<Region>, host: seq<Byte>, d: Desc) returns (data: seq<Byte>)
    requires Readable(regions, host, d)
    ensures data == Contents(regions, host, d)
  {
    hide GuestToHost, Mapped;
    var cur := MapGuestAddr(regions, d.addr);
    data := [];
    if d.len > 0 {
      MappedInside(regions, |host|, d.addr, d.len);
      data := host[cur..cur + d.len];
    }
  }

  lemma GatherStep(regions: seq<Region>, host: seq<Byte>, desc: seq<Desc>, p: seq<nat>, k: nat)
    requires Known(desc, p) && k < |p| && AllReadable(regions, host, desc, p, k + 1)
    ensures Gather(regions, host, desc, p, k + 1) ==
            Gather(regions, host, desc, p, k) + Contents(regions, host, desc[p[k]])
  {}

  lemma TotalStep(desc: seq<Desc>, p: seq<nat>, k: nat)
    requires Known(desc, p) && k < |p|
    ensures Total(desc, p, k + 1) == Total(desc, p, k) + desc[p[k]].len
  {}

  lemma {:induction false} LongestAtLeast(desc: seq<Desc>, p: seq<nat>, j: nat, k: nat)
    requires Known(desc, p) && j <= k <= |p| && Total(desc, p, j) < 1518
    ensures j <= Longest(desc, p, k)
  {
    if j < k {
      LongestAtLeast(desc, p, j, k - 1);
    }
  }

  /** One turn of the copying loop of process_desc, at position `j` of the chain. */
  method CopyTurn(regions: seq<Region>, host: seq<Byte>, desc: seq<Desc>, i: nat, buf: seq<Byte>,
                  ghost head: nat, ghost p: seq<nat>, ghost j: nat)
    returns (done: bool, i': nat, buf': seq<Byte>)
    requires IsChain(desc, head, p) && Known(desc, p)
    requires var k := Longest(desc, p, |p|);
             AllReadable(regions, host, desc, p, k) && StopsAt(desc, p, k) && j <= k
    requires j < |p| && i == p[j] && buf == Gather(regions, host, desc, p, j) && |buf| < 1518
    ensures done ==> buf' == Gather(regions, host, desc, p, Longest(desc, p, |p|))
    ensures !done ==> j + 1 < |p| && i' == p[j + 1] && |buf'| < 1518 && j < Longest(desc, p, |p|)
    ensures !done ==> buf' == Gather(regions, host, desc, p, j + 1)
  {
    hide IsChain, GuestToHost, Mapped, Contents, Gather, Total, Longest;
    ChainStep(desc, head, p, j);
    TotalStep(desc, p, j);
    done, i', buf' := true, i, buf;
    if j < Longest(desc, p, |p|) {
      TotalGrows(desc, p, j + 1, Longest(desc, p, |p|));
    }
    if (|buf| + desc[i].len) % 0x1_0000_0000 >= 1518 {
      GreedyIsLongest(desc, p, j, |p|);
    } else {
      LongestAtLeast(desc, p, j + 1, |p|);
      GatherStep(regions, host, desc, p, j);
      var data := CopyDesc(regions, host, desc[i]);
      buf' := buf + data;
      if desc[i].more {
        done, i' := false, desc[i].next;
      } else {
        GreedyIsLongest(desc, p, j + 1, |p|);
      }
    }
  }

  /** The copying loop of process_desc. */
  method CopyChain(regions: seq<Region>, host: seq<Byte>, desc: seq<Desc>, head: nat) returns (buf: seq<Byte>)
    requires ChainReadable(regions, host, desc, head)
    ensures buf == Frame(regions, host, desc, head) && Copied(regions, host, desc, ChainOf(desc, head), buf)
  {
    ghost var p := ChainOf(desc, head);
    ghost var j := 0;
    hide IsChain, HasChain, Gather, Total, Longest;
    buf := [];
    var i := head;
    ChainStarts(desc, head, p);
    GatherNone(regions, host, desc, p);
    var done := false;
    while !done
      invariant done ==> buf == Gather(regions, host, desc, p, Longest(desc, p, |p|))
      invariant !done ==> j < |p| && i == p[j] && |buf| < 1518 && j <= Longest(desc, p, |p|)
      invariant !done ==> buf == Gather(regions, host, desc, p, j)
      decreases !done, |p| - j
    {
      done, i, buf := CopyTurn(regions, host, desc, i, buf, head, p, j);
      j := j + 1;
    }
    FrameBytes(regions, host, desc, head);
  }

  lemma GatherNone(regions: seq<Region>, host: seq<Byte>, desc: seq<Desc>, p: seq<nat>)
    requires Known(desc, p)
    ensures Gather(regions, host, desc, p, 0) == []
  {}

  lemma ChainStarts(desc: seq<Desc>, head: nat, p: seq<nat>)
    requires IsChain(desc, head, p)
    ensures p != [] && p[0] == head && Known(desc, p)
  {}

  // ------------------------------------------------------------------------------------ indices

  /** A ring size for which positions survive the 16-bit wrap of the indices. */
  predicate RingSize(num: nat) {
    0 < num <= 32768 && 65536 % num == 0
  }

  /** Wrapping an index does not move its position in the ring. */
  lemma WrapKeepsPosition(x: nat, num: nat)
    requires RingSize(num)
    ensures (x % 65536) % num == x % num
  {
    var turns, per := x / 65536, 65536 / num;
    assert 65536 == per * num;
    assert x == x % 65536 + turns * 65536;
    assert turns * 65536 == (turns * per) * num;
    ModTurns(x % 65536, turns * per, num);
  }

  /** Counting one position around the ring agrees with reducing the next 16-bit index. */
  predicate StepAgrees(x: nat, num: nat)
    requires num > 0
  {
    ((x + 1) % 65536) % num == (x % num + 1) % num
  }

  lemma StepsAgree(x: nat, num: nat)
    requires RingSize(num)
    ensures StepAgrees(x, num)
  {
    WrapKeepsPosition(x + 1, num);
    NextPosition(x, num);
  }

  lemma LastStep(num: nat)
    requires 0 < num <= 32768 && StepAgrees(65535, num)
    ensures RingSize(num)
  {
    NextPosition(65535, num);
  }

  /** They agree at every index exactly when the ring size divides 65536. */
  lemma WrapNeedsDivisor(num: nat)
    requires 0 < num <= 32768
    ensures RingSize(num) <==> forall x: nat :: x < 65536 ==> StepAgrees(x, num)
  {
    hide StepAgrees, RingSize;
    forall x: nat | RingSize(num) && x < 65536 ensures StepAgrees(x, num) {
      StepsAgree(x, num);
    }
    if forall x: nat :: x < 65536 ==> StepAgrees(x, num) {
      LastStep(num);
    }
  }

  /** A 16-bit index. */
  function Wrap(x: nat): (r: nat)
    ensures r < 65536
  {
    x % 65536
  }

  lemma WrapNext(x: nat)
    ensures Wrap(Wrap(x) + 1) == Wrap(x + 1)
  {}

  /** How far the available index is ahead. */
  function Outstanding(availIdx: nat, first: nat): nat
    requires first < 65536
  {
    Wrap(availIdx + 65536 - first)
  }

  lemma CaughtUp(availIdx: nat, first: nat, count: nat)
    requires availIdx < 65536 && first < 65536 && count <= Outstanding(availIdx, first)
    ensures Wrap(first + count) == availIdx <==> count == Outstanding(availIdx, first)
  {}

  lemma NextPosition(x: nat, num: nat)
    requires num > 0
    ensures (x % num + 1) % num == (x + 1) % num
  {
    var q, r := x / num, x % num;
    assert x == q * num + r;
    ModTurns(r + 1, q, num);
  }

  /** What the guest has put in shared memory, as one call finds it. */
  datatype Shared = Shared(desc: seq<Desc>, avail: seq<nat>, availIdx: nat, regions: seq<Region>, host: seq<Byte>)

  /** The head of the `k`-th chain after index `first`. */
  function Head(g: Shared, num: nat, first: nat, k: nat): nat
    requires 0 < num <= |g.avail|
  {
    g.avail[(first + k) % num]
  }

  ghost predicate Usable(g: Shared, num: nat, first: nat, n: nat) {
    && RingSize(num) && num <= |g.avail|
    && forall k: nat :: k < n ==> ChainReadable(g.regions, g.host, g.desc, Head(g, num, first, k))
  }

  /** The frame of the `k`-th chain. */
  ghost function FrameAt(g: Shared, num: nat, first: nat, n: nat, k: nat): seq<Byte>
    requires Usable(g, num, first, n) && k < n
  {
    Frame(g.regions, g.host, g.desc, Head(g, num, first, k))
  }

  /** The frames of the first `k` chains, without the empty ones. */
  ghost function Frames(g: Shared, num: nat, first: nat, n: nat, k: nat): seq<seq<Byte>>
    requires Usable(g, num, first, n) && k <= n
  {
    if k == 0 then []
    else
      var f := FrameAt(g, num, first, n, k - 1);
      Frames(g, num, first, n, k - 1) + if f == [] then [] else [f]
  }

  /** The used ring after the first `k` chains: an element for each frame, in order, where a chain
      without a frame leaves the element at its position alone. */
  ghost predicate UsedAfter(g: Shared, num: nat, first: nat, n: nat, k: nat, start: nat, was: seq<UsedElem>,
                            now: seq<UsedElem>)
    requires Usable(g, num, first, n) && k <= n <= num
  {
    && |now| == |was| && num <= |was|
    && (forall j: nat :: j < k ==>
          now[Position(start, j, num)] == NewElem(g, num, first, n, j, was[Position(start, j, num)]))
    && (forall i: nat :: i < |was| && (forall j: nat :: j < k ==> Position(start, j, num) != i) ==> now[i] == was[i])
  }

  function Position(start: nat, k: nat, num: nat): (i: nat)
    requires num > 0
    ensures i < num
  {
    (start + k) % num
  }

  /** The position after `a`. */
  function After(a: nat, num: nat): (r: nat)
    requires num > 0
    ensures r < num
  {
    (a + 1) % num
  }

  lemma AfterPosition(start: nat, k: nat, num: nat)
    requires num > 0
    ensures After(Position(start, k, num), num) == Position(start, k + 1, num)
  {
    NextPosition(start + k, num);
  }

  lemma FramesStep(g: Shared, num: nat, first: nat, n: nat, k: nat)
    requires Usable(g, num, first, n) && k < n
    ensures var f := FrameAt(g, num, first, n, k);
            Frames(g, num, first, n, k + 1) == Frames(g, num, first, n, k) + if f == [] then [] else [f]
  {}

  ghost function NewElem(g: Shared, num: nat, first: nat, n: nat, k: nat, was: UsedElem): UsedElem
    requires Usable(g, num, first, n) && k < n
  {
    var f := FrameAt(g, num, first, n, k);
    if f == [] then was else UsedElem(Head(g, num, first, k), |f|)
  }

  lemma UsedStep(g: Shared, num: nat, first: nat, n: nat, k: nat, start: nat, was: seq<UsedElem>,
                 now: seq<UsedElem>, next: seq<UsedElem>)
    requires Usable(g, num, first, n) && k < n <= num && UsedAfter(g, num, first, n, k, start, was, now)
    requires var i := Position(start, k, num); next == now[i := NewElem(g, num, first, n, k, now[i])]
    ensures UsedAfter(g, num, first, n, k + 1, start, was, next)
  {
    hide Usable, Position, NewElem;
    var i := Position(start, k, num);
    forall j: nat | j < k ensures Position(start, j, num) != i {
      PositionsApart(start, j, k, num);
    }
    assert now[i] == was[i];
  }

  lemma PositionsApart(start: nat, j: nat, k: nat, num: nat)
    requires j < k < num
    ensures Position(start, j, num) != Position(start, k, num)
  {
    ModApart(start + j, start + k, num);
  }

  class Vring {
    const num: nat
    const used: array<UsedElem>
    var usedIdx: nat
    var lastAvail: nat
    var lastUsed: nat
    /** The frames handed to a packet handler. */
    var frames: seq<seq<Byte>>

    ghost predicate Valid()
      reads this
    {
      0 < num && RingSize(num) && num <= used.Length && lastAvail < 65536 && lastUsed < 65536
    }

    /** process_desc, on the chain that the available ring names at `a`. */
    method ProcessDesc(g: Shared, a: nat)
      requires Valid() && a < num <= |g.avail|
      requires ChainReadable(g.regions, g.host, g.desc, g.avail[a])
      modifies used, `frames
      ensures var f := Frame(g.regions, g.host, g.desc, g.avail[a]);
              && (f == [] ==> used[..] == old(used[..]) && frames == old(frames))
              && (f != [] ==> used[..] == old(used[..])[lastUsed % num := UsedElem(g.avail[a], |f|)]
                              && frames == old(frames) + [f])
    {
      hide ChainReadable, Frame;
      var head := g.avail[a];
      var buf := CopyChain(g.regions, g.host, g.desc, head);
      if buf == [] { return; }
      used[lastUsed % num] := UsedElem(head, |buf|);
      frames := frames + [buf];
    }

    /** process_avail_vring */
    method ProcessAvail(g: Shared) returns (count: nat)
      requires Valid() && g.availIdx < 65536 && Outstanding(g.availIdx, lastAvail) <= num
      requires Usable(g, num, lastAvail, Outstanding(g.availIdx, lastAvail))
      modifies this, used
      ensures Valid()
      ensures count == Outstanding(g.availIdx, old(lastAvail))
      ensures lastAvail == g.availIdx && lastUsed == Wrap(old(lastUsed) + count) && usedIdx == lastUsed
      ensures UsedAfter(g, num, old(lastAvail), count, count, old(lastUsed), old(used[..]), used[..])
      ensures frames == old(frames) + Frames(g, num, old(lastAvail), count, count)
    {
      hide Usable, Frames, FrameAt, RingSize, UsedAfter, Wrap, Outstanding, Position, After;
      ghost var n := Outstanding(g.availIdx, lastAvail);
      ghost var first, start := lastAvail, lastUsed;
      count := 0;
      var a := Position(lastAvail, 0, num);
      FramesNone(g, num, first, n);
      UsedNone(g, num, first, n, start, used[..]);
      CaughtUp(g.availIdx, first, 0);
      WrapSmall(first);
      WrapSmall(start);
      while lastAvail != g.availIdx
        invariant Valid() && count <= n
        invariant lastAvail == Wrap(first + count) && lastUsed == Wrap(start + count)
        invariant a == Position(first, count, num)
        invariant lastAvail == g.availIdx <==> count == n
        invariant UsedAfter(g, num, first, n, count, start, old(used[..]), used[..])
        invariant frames == old(frames) + Frames(g, num, first, n, count)
        decreases n - count
      {
        ProcessOne(g, a, first, n, count, start, old(used[..]));
        FramesStep(g, num, first, n, count);
        AfterPosition(first, count, num);
        a := After(a, num);
        WrapNext(first + count);
        WrapNext(start + count);
        lastAvail := Wrap(lastAvail + 1);
        lastUsed := Wrap(lastUsed + 1);
        count := count + 1;
        CaughtUp(g.availIdx, first, count);
      }
      usedIdx := lastUsed;
    }

    /** What the `k`-th chain adds to the used ring and to the frames. */
    method ProcessOne(g: Shared, a: nat, ghost first: nat, ghost n: nat, ghost k: nat, ghost start: nat,
                      ghost was: seq<UsedElem>)
      requires Valid() && Usable(g, num, first, n) && k < n <= num
      requires a == Position(first, k, num) && lastUsed == Wrap(start + k)
      requires UsedAfter(g, num, first, n, k, start, was, used[..])
      modifies used, `frames
      ensures UsedAfter(g, num, first, n, k + 1, start, was, used[..])
      ensures var f := FrameAt(g, num, first, n, k);
              frames == old(frames) + if f == [] then [] else [f]
    {
      hide ChainReadable, Frame, RingSize, UsedAfter;
      ghost var now := used[..];
      WrapKeepsPosition(start + k, num);
      assert g.avail[a] == Head(g, num, first, k);
      ProcessDesc(g, a);
      UsedStep(g, num, first, n, k, start, was, now, used[..]);
    }
  }

  lemma FramesNone(g: Shared, num: nat, first: nat, n: nat)
    requires Usable(g, num, first, n)
    ensures Frames(g, num, first, n, 0) == []
  {}

  lemma WrapSmall(x: nat)
    requires x < 65536
    ensures Wrap(x) == x
  {}

  lemma UsedNone(g: Shared, num: nat, first: nat, n: nat, start: nat, was: seq<UsedElem>)
    requires Usable(g, num, first, n) && n <= num <= |was|
    ensures UsedAfter(g, num, first, n, 0, start, was, was)
  {}
}
