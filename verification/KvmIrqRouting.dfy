/**
 * Interrupt routing in KVM (kvm-all.c): the bitmap of used GSIs, the table of routing
 * entries, and the hash table of routes made on the fly for MSI messages.
 */
module KvmIrqRouting {
  import opened Wrappers

  const HASH_SIZE: nat := 256
  const WORD: nat := 0x1_0000_0000

  /** MSIMessage: a 64-bit address and 32-bit data. */
  datatype Message = Message(address: nat, data: nat)

  /** kvm_irq_routing_entry */
  datatype Entry =
    | Irqchip(gsi: nat, chip: nat, pin: nat)
    | Msi(gsi: nat, addressLo: nat, addressHi: nat, data: nat)

  /** What becomes of a message: its GSI is raised, the kernel takes it directly, or -ENOSPC. */
  datatype Delivery = Raised(gsi: nat) | Signalled(msg: Message) | NoSpace

  function Hash(data: nat): (h: nat) ensures h < HASH_SIZE { data % HASH_SIZE }

  function MsiEntry(gsi: nat, msg: Message): (e: Entry)
    ensures e.gsi == gsi && Stands(e, msg)
  {
    Msi(gsi, msg.address % WORD, msg.address / WORD, msg.data)
  }

  /** The routing entry says what the message says: its address in two words of 32 bits, and its data. */
  predicate Stands(e: Entry, msg: Message) {
    && e.Msi? && e.addressLo < 0x1_0000_0000 && e.addressHi * 0x1_0000_0000 + e.addressLo == msg.address
    && e.data == msg.data
  }

  /** The comparison of kvm_lookup_msi_route. */
  predicate For(e: Entry, msg: Message) {
    e.Msi? && e.addressLo == msg.address % WORD && e.addressHi == msg.address / WORD && e.data == msg.data
  }

  /** It finds the entries that stand for the message, and an entry stands for one message only. */
  lemma ForExactly(e: Entry, msg: Message, other: Message)
    ensures For(e, msg) <==> Stands(e, msg)
    ensures For(e, msg) && For(e, other) ==> msg == other
  {
    if Stands(e, msg) {
      Words(e.addressHi, e.addressLo);
    }
  }

  lemma Words(hi: nat, lo: nat)
    requires lo < 0x1_0000_0000
    ensures (hi * 0x1_0000_0000 + lo) / 0x1_0000_0000 == hi && (hi * 0x1_0000_0000 + lo) % 0x1_0000_0000 == lo
  {}

  function Align32(n: nat): (r: nat)
    ensures r >= n && r % 32 == 0
  {
    (n + 31) / 32 * 32
  }

  /** An MSI entry shares its GSI with no other entry. */
  ghost predicate MsiDistinct(routes: seq<Entry>) {
    forall i, j :: 0 <= i < j < |routes| && (routes[i].Msi? || routes[j].Msi?) ==> routes[i].gsi != routes[j].gsi
  }

  ghost predicate Routed(routes: seq<Entry>, gsi: nat) {
    exists i :: 0 <= i < |routes| && routes[i].gsi == gsi
  }

  /** The routes of one hash bucket: MSI entries of the table, for distinct messages. */
  ghost predicate BucketOk(routes: seq<Entry>, bucket: seq<Entry>, h: nat) {
    && (forall k :: 0 <= k < |bucket| ==> bucket[k].Msi? && bucket[k] in routes && Hash(bucket[k].data) == h)
    && (forall j, k :: 0 <= j < k < |bucket| ==> bucket[j].gsi != bucket[k].gsi)
    && (forall j, k, msg :: 0 <= j < k < |bucket| && For(bucket[j], msg) ==> !For(bucket[k], msg))
  }

  /** `gsi` belongs to a route made on the fly. */
  ghost predicate Dynamic(buckets: seq<seq<Entry>>, gsi: nat) {
    exists h, k :: 0 <= h < |buckets| && 0 <= k < |buckets[h]| && buckets[h][k].gsi == gsi
  }

  /** The bitmap marks exactly the routed GSIs and the over-allocated ones; every MSI route was
      either handed out by add_msi_route (`owned`) or hangs in its hash bucket, never both. */
  ghost predicate Ok(count: nat, used: seq<bool>, routes: seq<Entry>, buckets: seq<seq<Entry>>, owned: set<nat>) {
    && |used| == Align32(count) && |buckets| == HASH_SIZE
    && MsiDistinct(routes)
    && (forall g :: count <= g < |used| ==> used[g])
    && (forall g :: 0 <= g < count ==> (used[g] <==> Routed(routes, g)))
    && (forall i :: 0 <= i < |routes| ==> routes[i].gsi < count)
    && (forall h :: 0 <= h < HASH_SIZE ==> BucketOk(routes, buckets[h], h))
    && (forall g :: g in owned ==> Routed(routes, g) && !Dynamic(buckets, g))
    && (forall i :: 0 <= i < |routes| && routes[i].Msi? ==> routes[i].gsi in owned || Dynamic(buckets, routes[i].gsi))
    && (forall i :: 0 <= i < |routes| && routes[i].gsi in owned ==> routes[i].Msi?)
  }

  /** From one state of a flush to another only dynamic routes go, each with its place in a bucket. */
  ghost predicate Given(routes0: seq<Entry>, buckets0: seq<seq<Entry>>, routes: seq<Entry>, buckets: seq<seq<Entry>>) {
    && (forall e :: e in routes <==> e in routes0 && (Dynamic(buckets0, e.gsi) ==> Dynamic(buckets, e.gsi)))
    && (forall g :: Dynamic(buckets, g) ==> Dynamic(buckets0, g))
  }

  lemma GivenStep(routes0: seq<Entry>, buckets0: seq<seq<Entry>>, routes: seq<Entry>, buckets: seq<seq<Entry>>,
                  routes': seq<Entry>, h: nat)
    requires Given(routes0, buckets0, routes, buckets)
    requires |buckets| == HASH_SIZE && h < HASH_SIZE && buckets[h] != [] && MsiDistinct(routes)
    requires forall i :: 0 <= i < HASH_SIZE ==> BucketOk(routes, buckets[i], i)
    requires forall e :: e in routes' <==> e in routes && e.gsi != buckets[h][0].gsi
    ensures Given(routes0, buckets0, routes', DropHead(buckets, h))
  {
    forall g ensures Dynamic(DropHead(buckets, h), g) <==> Dynamic(buckets, g) && g != buckets[h][0].gsi {
      DropHeadDynamic(routes, buckets, h, g);
    }
    assert Dynamic(buckets, buckets[h][0].gsi);
    hide Dynamic;
  }

  lemma NoneDynamic(buckets: seq<seq<Entry>>)
    requires forall h :: 0 <= h < |buckets| ==> buckets[h] == []
    ensures forall g :: !Dynamic(buckets, g)
  {}

  /** `routes'` is `routes` without the entries for `gsi`, in any order. */
  ghost predicate Without(routes: seq<Entry>, routes': seq<Entry>, gsi: nat) {
    MsiDistinct(routes') && forall e :: e in routes' <==> e in routes && e.gsi != gsi
  }

  lemma WithoutRouted(routes: seq<Entry>, routes': seq<Entry>, gsi: nat, g: nat)
    requires Without(routes, routes', gsi)
    ensures Routed(routes', g) <==> Routed(routes, g) && g != gsi
  {
    if Routed(routes, g) && g != gsi {
      var i :| 0 <= i < |routes| && routes[i].gsi == g;
      assert routes[i] in routes';
      var j :| 0 <= j < |routes'| && routes'[j] == routes[i];
    }
    if Routed(routes', g) {
      var i :| 0 <= i < |routes'| && routes'[i].gsi == g;
      assert routes'[i] in routes;
      var j :| 0 <= j < |routes| && routes[j] == routes'[i];
    }
  }

  /** Entry `i` replaced by the last one. */
  function Filled(routes: seq<Entry>, i: nat): (r: seq<Entry>)
    requires i < |routes|
    ensures |r| == |routes| - 1
  {
    routes[i := routes[|routes| - 1]][..|routes| - 1]
  }

  /** What the loop of kvm_irqchip_release_virq leaves, from entry `i` on. */
  function Release(routes: seq<Entry>, virq: nat, i: nat): seq<Entry>
    decreases |routes| - i
  {
    if i >= |routes| then routes
    else Release(if routes[i].gsi == virq then Filled(routes, i) else routes, virq, i + 1)
  }

  /** How many entries from `i` on are for the virq. */
  function Matches(routes: seq<Entry>, virq: nat, i: nat): (m: nat)
    ensures i <= |routes| ==> m <= |routes| - i
    decreases |routes| - i
  {
    if i >= |routes| then 0 else (if routes[i].gsi == virq then 1 else 0) + Matches(routes, virq, i + 1)
  }

  /** None of the last `m - 1` entries is for the virq. */
  ghost predicate LastClear(routes: seq<Entry>, virq: nat, m: nat) {
    forall j :: 0 <= j < |routes| < j + m ==> routes[j].gsi != virq
  }

  lemma {:induction false} ReleasePrefix(routes: seq<Entry>, virq: nat, i: nat)
    requires i <= |routes|
    ensures i <= |Release(routes, virq, i)| && Release(routes, virq, i)[..i] == routes[..i]
    decreases |routes| - i
  {
    if i < |routes| {
      if routes[i].gsi == virq {
        var now := Filled(routes, i);
        if i + 1 <= |now| {
          ReleasePrefix(now, virq, i + 1);
          assert Release(now, virq, i + 1)[..i + 1][..i] == now[..i];
        }
        assert now[..i] == routes[..i];
      } else {
        ReleasePrefix(routes, virq, i + 1);
        assert Release(routes, virq, i + 1)[..i + 1][..i] == routes[..i];
      }
    }
  }

  lemma {:induction false} MatchesFilled(routes: seq<Entry>, virq: nat, i: nat, k: nat)
    requires i < k < |routes|
    ensures Matches(Filled(routes, i), virq, k) + (if routes[|routes| - 1].gsi == virq then 1 else 0)
            == Matches(routes, virq, k)
    decreases |routes| - k
  {
    if k < |routes| - 1 {
      MatchesFilled(routes, virq, i, k + 1);
    }
  }

  /** All routes of a virq go exactly when none of the last ones, one fewer than there are routes of
      the virq, is such a route: an entry that fills a gap is not looked at. */
  lemma {:induction false} ReleaseFrom(routes: seq<Entry>, virq: nat, i: nat)
    requires i <= |routes| && forall j :: 0 <= j < i ==> routes[j].gsi != virq
    ensures !Routed(Release(routes, virq, i), virq) <==> LastClear(routes, virq, Matches(routes, virq, i))
    decreases |routes| - i
  {
    if i < |routes| {
      var n := |routes| - 1;
      if routes[i].gsi != virq {
        ReleaseFrom(routes, virq, i + 1);
      } else if i < n {
        var now := Filled(routes, i);
        MatchesFilled(routes, virq, i, i + 1);
        if routes[n].gsi == virq {
          ReleasePrefix(now, virq, i + 1);
          assert Release(now, virq, i + 1)[..i + 1][i] == now[i] == routes[n];
        } else {
          ReleaseFrom(now, virq, i + 1);
          LastClearFilled(routes, virq, i, Matches(now, virq, i + 1));
        }
      } else {
        assert Matches(routes, virq, i + 1) == 0;
      }
    }
  }

  lemma LastClearFilled(routes: seq<Entry>, virq: nat, i: nat, m: nat)
    requires i < |routes| - 1 && m <= |routes| - 2 - i && routes[|routes| - 1].gsi != virq
    ensures LastClear(Filled(routes, i), virq, m) <==> LastClear(routes, virq, m + 1)
  {
    var now := Filled(routes, i);
    assert forall j :: i < j < |now| ==> now[j] == routes[j];
  }

  lemma FilledKeeps(routes: seq<Entry>, i: nat)
    requires i < |routes|
    ensures multiset(Filled(routes, i)) == multiset(routes) - multiset{routes[i]}
  {
    var n := |routes| - 1;
    if i == n {
      assert routes == routes[..n] + [routes[n]] && Filled(routes, i) == routes[..n];
    } else {
      assert routes == routes[..i] + [routes[i]] + routes[i + 1..n] + [routes[n]];
      assert Filled(routes, i) == routes[..i] + [routes[n]] + routes[i + 1..n];
    }
  }

  /** Routes of other GSIs all stay, and no route is made up. */
  lemma {:induction false} ReleaseKeeps(routes: seq<Entry>, virq: nat, i: nat)
    ensures forall e: Entry :: e.gsi != virq ==> multiset(Release(routes, virq, i))[e] == multiset(routes)[e]
    ensures multiset(Release(routes, virq, i)) <= multiset(routes)
    decreases |routes| - i
  {
    if i < |routes| {
      if routes[i].gsi == virq {
        FilledKeeps(routes, i);
        ReleaseKeeps(Filled(routes, i), virq, i + 1);
      } else {
        ReleaseKeeps(routes, virq, i + 1);
      }
    }
  }

  /** kvm_irqchip_release_virq as a whole. */
  lemma ReleaseExactly(routes: seq<Entry>, virq: nat)
    ensures !Routed(Release(routes, virq, 0), virq) <==> LastClear(routes, virq, Matches(routes, virq, 0))
    ensures forall e: Entry :: e.gsi != virq ==> multiset(Release(routes, virq, 0))[e] == multiset(routes)[e]
    ensures multiset(Release(routes, virq, 0)) <= multiset(routes)
  {
    ReleaseFrom(routes, virq, 0);
    ReleaseKeeps(routes, virq, 0);
  }

  lemma {:induction false} ReleaseNone(routes: seq<Entry>, virq: nat, i: nat)
    requires forall j :: i <= j < |routes| ==> routes[j].gsi != virq
    ensures Release(routes, virq, i) == routes
    decreases |routes| - i
  {
    if i < |routes| {
      ReleaseNone(routes, virq, i + 1);
    }
  }

  lemma FilledWithout(routes: seq<Entry>, virq: nat, i: nat)
    requires i < |routes| && MsiDistinct(routes) && routes[i].gsi == virq && routes[i].Msi?
    ensures Without(routes, Filled(routes, i), virq)
  {
    var n, now := |routes| - 1, Filled(routes, i);
    assert forall j :: 0 <= j < n ==> now[j] == routes[if j == i then n else j];
    forall e | e in routes && e.gsi != virq ensures e in now {
      var k :| 0 <= k < |routes| && routes[k] == e;
      assert now[if k == n then i else k] == e;
    }
  }

  /** A virq with MSI routes has only one, and it goes. */
  lemma {:induction false} ReleaseMsi(routes: seq<Entry>, virq: nat, i: nat)
    requires i <= |routes| && MsiDistinct(routes) && forall j :: 0 <= j < i ==> routes[j].gsi != virq
    requires forall j :: 0 <= j < |routes| && routes[j].gsi == virq ==> routes[j].Msi?
    ensures Without(routes, Release(routes, virq, i), virq)
    decreases |routes| - i
  {
    if i < |routes| {
      if routes[i].gsi == virq {
        hide MsiDistinct;
        FilledWithout(routes, virq, i);
        var now := Filled(routes, i);
        forall j | 0 <= j < |now| ensures now[j].gsi != virq { assert now[j] in now; }
        ReleaseNone(now, virq, i + 1);
      } else {
        ReleaseMsi(routes, virq, i + 1);
      }
    }
  }

  /** Releasing a GSI handed out by add_msi_route. */
  lemma ReleaseOwnedOk(count: nat, used: seq<bool>, routes: seq<Entry>, routes': seq<Entry>,
                       buckets: seq<seq<Entry>>, owned: set<nat>, gsi: nat)
    requires Ok(count, used, routes, buckets, owned) && gsi in owned && gsi < count && Without(routes, routes', gsi)
    ensures Ok(count, used[gsi := false], routes', buckets, owned - {gsi})
  {
    forall g ensures Routed(routes', g) <==> Routed(routes, g) && g != gsi { WithoutRouted(routes, routes', gsi, g); }
    forall h | 0 <= h < HASH_SIZE ensures BucketOk(routes', buckets[h], h) {
      assert BucketOk(routes, buckets[h], h);
      forall k | 0 <= k < |buckets[h]| ensures buckets[h][k] in routes' {
        assert Dynamic(buckets, buckets[h][k].gsi);
      }
    }
    forall i | 0 <= i < |routes'|
      ensures routes'[i].gsi < count
      ensures routes'[i].Msi? ==> routes'[i].gsi in owned - {gsi} || Dynamic(buckets, routes'[i].gsi)
      ensures routes'[i].gsi in owned - {gsi} ==> routes'[i].Msi?
    {
      assert routes'[i] in routes;
      var j :| 0 <= j < |routes| && routes[j] == routes'[i];
    }
  }

  /** Dropping the first route of bucket `h`. */
  function DropHead(buckets: seq<seq<Entry>>, h: nat): seq<seq<Entry>>
    requires h < |buckets| && buckets[h] != []
  {
    buckets[h := buckets[h][1..]]
  }

  lemma OneRoute(routes: seq<Entry>, e: Entry, f: Entry)
    requires MsiDistinct(routes) && e in routes && f in routes && e.Msi? && e.gsi == f.gsi
    ensures e == f
  {
    var i :| 0 <= i < |routes| && routes[i] == e;
    var j :| 0 <= j < |routes| && routes[j] == f;
  }

  /** The head of a bucket is the only dynamic route of its GSI. */
  lemma OnlyHead(routes: seq<Entry>, buckets: seq<seq<Entry>>, h: nat, i: nat, k: nat)
    requires |buckets| == HASH_SIZE && h < HASH_SIZE && buckets[h] != [] && MsiDistinct(routes)
    requires i < HASH_SIZE && k < |buckets[i]| && (i == h ==> k > 0)
    requires BucketOk(routes, buckets[i], i) && BucketOk(routes, buckets[h], h)
    ensures buckets[i][k].gsi != buckets[h][0].gsi
  {
    hide MsiDistinct;
    if i != h && buckets[i][k].gsi == buckets[h][0].gsi {
      OneRoute(routes, buckets[i][k], buckets[h][0]);
    }
  }

  lemma DropHeadDynamic(routes: seq<Entry>, buckets: seq<seq<Entry>>, h: nat, g: nat)
    requires |buckets| == HASH_SIZE && h < HASH_SIZE && buckets[h] != [] && MsiDistinct(routes)
    requires forall i :: 0 <= i < HASH_SIZE ==> BucketOk(routes, buckets[i], i)
    ensures Dynamic(DropHead(buckets, h), g) <==> Dynamic(buckets, g) && g != buckets[h][0].gsi
  {
    hide BucketOk, MsiDistinct;
    var b': seq<seq<Entry>> := DropHead(buckets, h);
    if Dynamic(buckets, g) && g != buckets[h][0].gsi {
      var i, k :| 0 <= i < |buckets| && 0 <= k < |buckets[i]| && buckets[i][k].gsi == g;
      if i == h { assert b'[h][k - 1].gsi == g; } else { assert b'[i][k].gsi == g; }
    }
    if Dynamic(b', g) {
      var i, k :| 0 <= i < |b'| && 0 <= k < |b'[i]| && b'[i][k].gsi == g;
      var k' := if i == h then k + 1 else k;
      assert buckets[i][k'] == b'[i][k];
      OnlyHead(routes, buckets, h, i, k');
    }
  }

  lemma ReleaseDynamicOk(count: nat, used: seq<bool>, routes: seq<Entry>, routes': seq<Entry>,
                         buckets: seq<seq<Entry>>, owned: set<nat>, h: nat)
    requires Ok(count, used, routes, buckets, owned) && h < HASH_SIZE && buckets[h] != []
    requires Without(routes, routes', buckets[h][0].gsi) && buckets[h][0].gsi < count
    ensures Ok(count, used[buckets[h][0].gsi := false], routes', DropHead(buckets, h), owned)
  {
    var gsi := buckets[h][0].gsi;
    var b': seq<seq<Entry>> := DropHead(buckets, h);
    forall g ensures Routed(routes', g) <==> Routed(routes, g) && g != gsi { WithoutRouted(routes, routes', gsi, g); }
    forall g ensures Dynamic(b', g) <==> Dynamic(buckets, g) && g != gsi { DropHeadDynamic(routes, buckets, h, g); }
    forall i | 0 <= i < HASH_SIZE ensures BucketOk(routes', b'[i], i) {
      assert BucketOk(routes, buckets[i], i);
      forall k | 0 <= k < |b'[i]| ensures b'[i][k] in routes' {
        assert b'[i][k] == buckets[i][if i == h then k + 1 else k];
        assert Dynamic(b', b'[i][k].gsi);
      }
    }
    assert Dynamic(buckets, gsi);
    forall i | 0 <= i < |routes'|
      ensures routes'[i].gsi < count
      ensures routes'[i].Msi? ==> routes'[i].gsi in owned || Dynamic(b', routes'[i].gsi)
      ensures routes'[i].gsi in owned ==> routes'[i].Msi?
    {
      assert routes'[i] in routes;
      var j :| 0 <= j < |routes| && routes[j] == routes'[i];
    }
  }

  lemma AppendRouted(routes: seq<Entry>, e: Entry, g: nat)
    ensures Routed(routes + [e], g) <==> Routed(routes, g) || g == e.gsi
  {
    var routes' := routes + [e];
    if Routed(routes, g) {
      var i :| 0 <= i < |routes| && routes[i].gsi == g;
      assert routes'[i].gsi == g;
    }
    assert routes'[|routes|] == e;
  }

  /** A new MSI entry on an unused GSI, handed out to the caller. */
  lemma AddOwnedOk(count: nat, used: seq<bool>, routes: seq<Entry>, buckets: seq<seq<Entry>>, owned: set<nat>, e: Entry)
    requires Ok(count, used, routes, buckets, owned) && e.Msi? && e.gsi < count && !used[e.gsi]
    ensures Ok(count, used[e.gsi := true], routes + [e], buckets, owned + {e.gsi})
  {
    var routes' := routes + [e];
    forall g ensures Routed(routes', g) <==> Routed(routes, g) || g == e.gsi { AppendRouted(routes, e, g); }
    NotDynamic(count, used, routes, buckets, owned, e.gsi);
    forall h | 0 <= h < HASH_SIZE ensures BucketOk(routes', buckets[h], h) {
      assert BucketOk(routes, buckets[h], h);
    }
  }

  lemma NotDynamic(count: nat, used: seq<bool>, routes: seq<Entry>, buckets: seq<seq<Entry>>, owned: set<nat>, g: nat)
    requires Ok(count, used, routes, buckets, owned) && g < count && !used[g]
    ensures !Dynamic(buckets, g) && g !in owned && forall i :: 0 <= i < |routes| ==> routes[i].gsi != g
  {
    if Dynamic(buckets, g) {
      var h, k :| 0 <= h < |buckets| && 0 <= k < |buckets[h]| && buckets[h][k].gsi == g;
      assert BucketOk(routes, buckets[h], h);
      var i :| 0 <= i < |routes| && routes[i] == buckets[h][k];
      assert Routed(routes, g);
    }
    forall i | 0 <= i < |routes| ensures routes[i].gsi != g {
      if routes[i].gsi == g { assert Routed(routes, g); }
    }
  }

  /** Remembering `e` at the end of bucket `h`. */
  function Remember(buckets: seq<seq<Entry>>, h: nat, e: Entry): seq<seq<Entry>>
    requires h < |buckets|
  {
    buckets[h := buckets[h] + [e]]
  }

  lemma RememberDynamic(buckets: seq<seq<Entry>>, h: nat, e: Entry, g: nat)
    requires h < |buckets|
    ensures Dynamic(Remember(buckets, h, e), g) <==> Dynamic(buckets, g) || g == e.gsi
  {
    var b': seq<seq<Entry>> := Remember(buckets, h, e);
    if Dynamic(buckets, g) {
      var i, k :| 0 <= i < |buckets| && 0 <= k < |buckets[i]| && buckets[i][k].gsi == g;
      assert b'[i][k].gsi == g;
    }
    assert b'[h][|buckets[h]|] == e;
    if Dynamic(b', g) && g != e.gsi {
      var i, k :| 0 <= i < |b'| && 0 <= k < |b'[i]| && b'[i][k].gsi == g;
      assert buckets[i][k].gsi == g;
    }
  }

  lemma RememberBucket(routes: seq<Entry>, bucket: seq<Entry>, h: nat, gsi: nat, msg: Message)
    requires BucketOk(routes, bucket, h) && h == Hash(msg.data)
    requires forall k :: 0 <= k < |bucket| ==> !For(bucket[k], msg) && bucket[k].gsi != gsi
    ensures BucketOk(routes + [MsiEntry(gsi, msg)], bucket + [MsiEntry(gsi, msg)], h)
  {
    var e := MsiEntry(gsi, msg);
    forall j, m | 0 <= j < |bucket| && For(bucket[j], m) ensures !For(e, m) {
      assert !For(bucket[j], msg);
    }
  }

  /** A new MSI entry on an unused GSI, remembered in the bucket of its message. */
  lemma AddDynamicOk(count: nat, used: seq<bool>, routes: seq<Entry>, buckets: seq<seq<Entry>>, owned: set<nat>,
                     gsi: nat, msg: Message)
    requires Ok(count, used, routes, buckets, owned) && gsi < count && !used[gsi]
    requires var b := buckets[Hash(msg.data)]; forall k :: 0 <= k < |b| ==> !For(b[k], msg)
    ensures var e := MsiEntry(gsi, msg);
            Ok(count, used[gsi := true], routes + [e], Remember(buckets, Hash(msg.data), e), owned)
  {
    var h, e := Hash(msg.data), MsiEntry(gsi, msg);
    var routes' := routes + [e];
    var b': seq<seq<Entry>> := Remember(buckets, h, e);
    forall g ensures Routed(routes', g) <==> Routed(routes, g) || g == gsi { AppendRouted(routes, e, g); }
    forall g ensures Dynamic(b', g) <==> Dynamic(buckets, g) || g == gsi { RememberDynamic(buckets, h, e, g); }
    NotDynamic(count, used, routes, buckets, owned, gsi);
    forall i | 0 <= i < HASH_SIZE ensures BucketOk(routes', b'[i], i) {
      assert BucketOk(routes, buckets[i], i);
      if i == h {
        forall j | 0 <= j < |buckets[h]| ensures buckets[h][j].gsi != gsi {
          assert Dynamic(buckets, buckets[h][j].gsi);
        }
        RememberBucket(routes, buckets[h], h, gsi, msg);
      }
    }
    hide Routed, Dynamic, BucketOk, Remember;
  }

  class IrqState {
    const gsiCount: nat
    /** KVM_SIGNAL_MSI is available, so no routes are made on the fly. */
    const directMsi: bool
    const used: array<bool>
    var routes: seq<Entry>
    var buckets: seq<seq<Entry>>
    /** The GSIs that add_msi_route has handed out. */
    ghost var owned: set<nat>

    ghost predicate Valid()
      reads this, used
    {
      Ok(gsiCount, used[..], routes, buckets, owned)
    }

    /** kvm_init_irq_routing */
    constructor (count: nat, direct: bool)
      ensures Valid() && fresh(used) && gsiCount == count && directMsi == direct && routes == [] && owned == {}
      ensures forall h :: 0 <= h < HASH_SIZE ==> buckets[h] == []
    {
      gsiCount, directMsi := count, direct;
      used := new bool[Align32(count)](_ => false);
      routes := [];
      buckets := seq(HASH_SIZE, _ => []);
      owned := {};
      new;
      for i := count to Align32(count)
        modifies used
        invariant forall g :: 0 <= g < count ==> !used[g]
        invariant forall g :: count <= g < i ==> used[g]
      {
        used[i] := true;
      }
    }

    /** The search of kvm_irqchip_get_virq: word by word, for the lowest clear bit. */
    method FindFree() returns (r: Option<nat>)
      requires used.Length % 32 == 0
      ensures r.Some? ==> r.value < used.Length && !used[r.value] && forall g :: 0 <= g < r.value ==> used[g]
      ensures r.None? ==> forall g :: 0 <= g < used.Length ==> used[g]
    {
      for word := 0 to used.Length / 32
        invariant forall g :: 0 <= g < 32 * word ==> used[g]
      {
        var bit := 0;
        while bit < 32 && used[32 * word + bit]
          invariant 0 <= bit <= 32
          invariant forall g :: 0 <= g < 32 * word + bit ==> used[g]
        {
          bit := bit + 1;
        }
        if bit < 32 {
          return Some(32 * word + bit);
        }
      }
      return None;
    }

    /** kvm_irqchip_release_virq without direct mapping.  The loop bound shrinks as entries are
        replaced by the last one. */
    method ReleaseVirq(virq: nat)
      requires virq < used.Length
      modifies this`routes, used
      ensures routes == Release(old(routes), virq, 0) && used[..] == old(used[..])[virq := false]
    {
      var i := 0;
      while i < |routes|
        modifies this`routes
        invariant 0 <= i && Release(routes, virq, i) == Release(old(routes), virq, 0)
        decreases |routes| - i
      {
        if routes[i].gsi == virq {
          routes := Filled(routes, i);
        }
        i := i + 1;
      }
      used[virq] := false;
    }

    /** One step of kvm_flush_dynamic_msi_routes: the first route of bucket `h` goes. */
    method FlushOne(h: nat)
      requires Valid() && h < HASH_SIZE && buckets[h] != []
      modifies this`routes, this`buckets, used
      ensures Valid() && buckets == old(DropHead(buckets, h))
      ensures forall e :: e in routes <==> e in old(routes) && e.gsi != old(buckets[h][0].gsi)
      ensures !used[old(buckets[h][0].gsi)]
      ensures forall g :: 0 <= g < used.Length && g != old(buckets[h][0].gsi) ==> used[g] == old(used[g])
    {
      assert BucketOk(routes, buckets[h], h);
      var gsi := buckets[h][0].gsi;
      var i :| 0 <= i < |routes| && routes[i] == buckets[h][0];
      ghost var used0, routes0 := used[..], routes;
      ReleaseMsi(routes, gsi, 0);
      ReleaseVirq(gsi);
      ReleaseDynamicOk(gsiCount, used0, routes0, routes, buckets, owned, h);
      assert used[..] == used0[gsi := false];
      buckets := DropHead(buckets, h);
    }

    /** The inner loop of kvm_flush_dynamic_msi_routes: bucket `h` is emptied. */
    method FlushBucket(h: nat, ghost routes0: seq<Entry>, ghost buckets0: seq<seq<Entry>>)
      requires Valid() && h < HASH_SIZE && Given(routes0, buckets0, routes, buckets)
      modifies this`routes, this`buckets, used
      ensures Valid() && buckets == old(buckets)[h := []] && Given(routes0, buckets0, routes, buckets)
      ensures forall g :: 0 <= g < used.Length && used[g] ==> old(used[g])
      ensures if old(buckets[h]) == [] then used[..] == old(used[..]) && routes == old(routes)
              else exists g :: 0 <= g < used.Length && !used[g]
    {
      hide Dynamic, Routed, Given;
      ghost var freed := false;
      while buckets[h] != []
        invariant Valid() && buckets == old(buckets)[h := buckets[h]] && Given(routes0, buckets0, routes, buckets)
        invariant forall g :: 0 <= g < used.Length && used[g] ==> old(used[g])
        invariant if !freed then used[..] == old(used[..]) && routes == old(routes) && buckets == old(buckets)
                  else old(buckets[h]) != [] && exists g :: 0 <= g < used.Length && !used[g]
        decreases |buckets[h]|
      {
        ghost var was, wasIn := routes, buckets;
        FlushOne(h);
        GivenStep(routes0, buckets0, was, wasIn, routes, h);
        freed := true;
      }
    }

    /** kvm_flush_dynamic_msi_routes */
    method FlushDynamic()
      requires Valid()
      modifies this`routes, this`buckets, used
      ensures Valid() && forall h :: 0 <= h < HASH_SIZE ==> buckets[h] == []
      ensures forall g :: 0 <= g < used.Length && used[g] ==> old(used[g])
      ensures (exists h :: 0 <= h < HASH_SIZE && old(buckets[h]) != []) ==> exists g :: 0 <= g < used.Length && !used[g]
      ensures (forall h :: 0 <= h < HASH_SIZE ==> old(buckets[h]) == []) ==>
                used[..] == old(used[..]) && routes == old(routes)
      ensures forall e :: e in routes <==> e in old(routes) && !old(Dynamic(buckets, e.gsi))
    {
      hide Dynamic, Routed, MsiDistinct, BucketOk;
      ghost var freed := false;
      for hash := 0 to HASH_SIZE
        invariant Valid() && Given(old(routes), old(buckets), routes, buckets)
        invariant forall h :: 0 <= h < HASH_SIZE ==> buckets[h] == if h < hash then [] else old(buckets[h])
        invariant forall g :: 0 <= g < used.Length && used[g] ==> old(used[g])
        invariant if freed then exists g :: 0 <= g < used.Length && !used[g]
                  else used[..] == old(used[..]) && routes == old(routes)
        invariant freed <==> exists h :: 0 <= h < hash && old(buckets[h]) != []
      {
        FlushBucket(hash, old(routes), old(buckets));
        freed := freed || old(buckets[hash]) != [];
      }
      NoneDynamic(buckets);
    }

    ghost predicate Full()
      reads used
    {
      forall g :: 0 <= g < used.Length ==> used[g]
    }

    ghost predicate NoDynamic()
      reads this
    {
      forall h :: 0 <= h < |buckets| ==> buckets[h] == []
    }

    ghost predicate LowestFree(g: nat)
      reads this, used
    {
      g < gsiCount <= used.Length && !used[g] && forall k :: 0 <= k < g ==> used[k]
    }

    /** kvm_irqchip_get_virq; None stands for -ENOSPC. Dynamic routes are given up only when no
        GSI is free, and then one is found if there were any. */
    method GetVirq() returns (r: Option<nat>)
      requires Valid()
      modifies this`routes, this`buckets, used
      ensures Valid()
      ensures r.Some? ==> LowestFree(r.value)
      ensures !old(Full()) ==> r.Some? && routes == old(routes) && buckets == old(buckets) && used[..] == old(used[..])
      ensures old(Full()) && directMsi ==>
                r.None? && routes == old(routes) && buckets == old(buckets) && used[..] == old(used[..])
      ensures old(Full()) && !directMsi ==> NoDynamic() && (r.None? <==> old(NoDynamic()))
      ensures forall e :: e in routes <==>
                e in old(routes) && (old(Full()) && !directMsi ==> !old(Dynamic(buckets, e.gsi)))
      ensures old(NoDynamic()) ==> routes == old(routes)
    {
      r := FindFree();
      if r.None? && !directMsi {
        FlushDynamic();
        r := FindFree();
      }
    }

    /** kvm_add_routing_entry */
    method AddEntry(e: Entry)
      requires e.gsi < used.Length
      modifies this`routes, used
      ensures routes == old(routes) + [e] && used[..] == old(used[..])[e.gsi := true]
    {
      routes := routes + [e];
      used[e.gsi] := true;
    }

    /** kvm_irqchip_add_irq_route: the routing stays consistent exactly when the line is a GSI of the
        kernel and carries no MSI. */
    method AddIrqRoute(irq: nat, chip: nat, pin: nat)
      requires Valid() && irq < used.Length && pin < gsiCount
      modifies this`routes, used
      ensures routes == old(routes) + [Irqchip(irq, chip, pin)] && used[..] == old(used[..])[irq := true]
      ensures Valid() <==> irq < gsiCount && forall e :: e in old(routes) && e.gsi == irq ==> e.Irqchip?
    {
      ghost var used0, routes0 := used[..], routes;
      AddEntry(Irqchip(irq, chip, pin));
      assert routes[|routes0|] == Irqchip(irq, chip, pin);
      if i :| 0 <= i < |routes0| && routes0[i].gsi == irq && routes0[i].Msi? {
        assert routes[i] == routes0[i] && routes0[i] in routes0;
      } else if irq < gsiCount {
        AddIrqchipOk(gsiCount, used0, routes0, buckets, owned, Irqchip(irq, chip, pin));
      }
    }

    /** Some bucket, any bucket, holds a route for `msg`. */
    ghost predicate HasRoute(msg: Message)
      reads this
    {
      exists h, k :: 0 <= h < |buckets| && 0 <= k < |buckets[h]| && For(buckets[h][k], msg)
    }

    /** kvm_lookup_msi_route: looking in one bucket finds a route exactly when there is one. */
    method LookupMsi(msg: Message) returns (r: Option<Entry>)
      requires Valid()
      ensures r.Some? ==> For(r.value, msg) && r.value in buckets[Hash(msg.data)] && r.value in routes
      ensures r.Some? <==> HasRoute(msg)
    {
      var h := Hash(msg.data);
      assert BucketOk(routes, buckets[h], h);
      for k := 0 to |buckets[h]|
        invariant forall j :: 0 <= j < k ==> !For(buckets[h][j], msg)
      {
        if For(buckets[h][k], msg) {
          return Some(buckets[h][k]);
        }
      }
      forall i, j | 0 <= i < |buckets| && 0 <= j < |buckets[i]| ensures !For(buckets[i][j], msg) {
        assert BucketOk(routes, buckets[i], i);
      }
      return None;
    }

    /** kvm_irqchip_send_msi: the GSI that is raised, unless the message goes to the kernel as it is. */
    method SendMsi(msg: Message) returns (r: Delivery)
      requires Valid()
      modifies this`routes, this`buckets, used
      ensures Valid() && (directMsi <==> r == Signalled(msg))
      ensures r.Signalled? ==> routes == old(routes) && buckets == old(buckets) && used[..] == old(used[..])
      ensures r.Raised? ==> HasRoute(msg) && MsiEntry(r.gsi, msg) in routes && r.gsi !in owned
      ensures r.NoSpace? ==> old(Full() && NoDynamic()) && routes == old(routes)
      ensures !directMsi && old(HasRoute(msg)) ==> r.Raised? && routes == old(routes) && buckets == old(buckets)
      ensures r.Raised? && !old(HasRoute(msg)) ==>
                forall e :: e in routes <==>
                            || e == MsiEntry(r.gsi, msg)
                            || (e in old(routes) && (old(Full()) ==> !old(Dynamic(buckets, e.gsi))))
    {
      if directMsi {
        return Signalled(msg);
      }
      var route := LookupMsi(msg);
      if route.Some? {
        assert route.value == MsiEntry(route.value.gsi, msg);
        var k :| 0 <= k < |buckets[Hash(msg.data)]| && buckets[Hash(msg.data)][k] == route.value;
        assert Dynamic(buckets, route.value.gsi);
        return Raised(route.value.gsi);
      }
      var virq := GetVirq();
      if virq.None? {
        return NoSpace;
      }
      var h, e := Hash(msg.data), MsiEntry(virq.value, msg);
      ghost var used0, routes0 := used[..], routes;
      AddDynamicOk(gsiCount, used0, routes0, buckets, owned, virq.value, msg);
      AddEntry(e);
      buckets := Remember(buckets, h, e);
      assert buckets[h][|buckets[h]| - 1] == e && routes[|routes| - 1] == e;
      assert Dynamic(buckets, e.gsi);
      return Raised(virq.value);
    }

    /** kvm_irqchip_add_msi_route with GSI routing and without direct mapping; None stands for -ENOSPC. */
    method AddMsiRoute(msg: Message) returns (r: Option<nat>)
      requires Valid()
      modifies this`routes, this`buckets, this`owned, used
      ensures Valid()
      ensures r.Some? ==> r.value !in old(owned) && owned == old(owned) + {r.value} && MsiEntry(r.value, msg) in routes
      ensures r.Some? && !old(Full()) ==> old(LowestFree(r.value))
      ensures r.None? ==> owned == old(owned)
      ensures r.None? <==> old(Full()) && (directMsi || old(NoDynamic()))
      ensures forall e :: e in routes <==>
                          || (r.Some? && e == MsiEntry(r.value, msg))
                          || (e in old(routes) && (old(Full()) && !directMsi ==> !old(Dynamic(buckets, e.gsi))))
    {
      r := GetVirq();
      if r.None? {
        return;
      }
      ghost var used0, routes0 := used[..], routes;
      AddOwnedOk(gsiCount, used0, routes0, buckets, owned, MsiEntry(r.value, msg));
      NotDynamic(gsiCount, used0, routes0, buckets, owned, r.value);
      AddEntry(MsiEntry(r.value, msg));
      owned := owned + {r.value};
      assert routes[|routes| - 1] == MsiEntry(r.value, msg);
    }

    /** kvm_irqchip_release_virq on a GSI that add_msi_route handed out. */
    method ReleaseMsiRoute(virq: nat)
      requires Valid() && virq in owned
      modifies this`routes, this`owned, used
      ensures Valid() && owned == old(owned) - {virq} && !used[virq] && !Routed(routes, virq)
      ensures forall e :: e in routes <==> e in old(routes) && e.gsi != virq
    {
      assert Routed(routes, virq);
      ghost var used0, routes0 := used[..], routes;
      ReleaseMsi(routes, virq, 0);
      ReleaseVirq(virq);
      ReleaseOwnedOk(gsiCount, used0, routes0, routes, buckets, owned, virq);
      assert used[..] == used0[virq := false];
      owned := owned - {virq};
    }
  }

  lemma AddIrqchipOk(count: nat, used: seq<bool>, routes: seq<Entry>, buckets: seq<seq<Entry>>, owned: set<nat>,
                     e: Entry)
    requires Ok(count, used, routes, buckets, owned) && e.Irqchip? && e.gsi < count
    requires forall i :: 0 <= i < |routes| && routes[i].gsi == e.gsi ==> routes[i].Irqchip?
    ensures Ok(count, used[e.gsi := true], routes + [e], buckets, owned)
  {
    var routes' := routes + [e];
    forall g ensures Routed(routes', g) <==> Routed(routes, g) || g == e.gsi { AppendRouted(routes, e, g); }
    forall h | 0 <= h < HASH_SIZE ensures BucketOk(routes', buckets[h], h) {
      assert BucketOk(routes, buckets[h], h);
    }
  }

  /** A line added to the GSI of an MSI route. */
  method LineOnMsiRoute(msg: Message, chip: nat) returns (m: IrqState)
    ensures !m.Valid()
  {
    m := new IrqState(1, false);
    assert !Routed(m.routes, 0) && !m.used[0];
    var r := m.AddMsiRoute(msg);
    m.AddIrqRoute(r.value, chip, 0);
  }

  /** Two lines on one GSI, which is then released: one of them stays. */
  method LinesReleased(chip: nat, other: nat, count: nat) returns (m: IrqState)
    requires count > 0
    ensures m.routes == [Irqchip(0, other, 0)] && m.used.Length > 0 && !m.used[0]
  {
    m := new IrqState(count, false);
    m.AddIrqRoute(0, chip, 0);
    m.AddIrqRoute(0, other, 0);
    ghost var routes := m.routes;
    m.ReleaseVirq(0);
    assert Filled(routes, 0) == [Irqchip(0, other, 0)];
  }
}
