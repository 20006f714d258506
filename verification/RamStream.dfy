/**
 * The byte stream of RAM migration (arch_init.c).  A record names its block only when the block
 * differs from the one before; the loader remembers the block for itself.
 */
module RamStream {
  import opened Octets
  import opened Wrappers

  datatype Block = Block(name: seq<Byte>, length: nat)

  /** A page record: a page of one byte, a page of data, or a delta. */
  datatype Record =
    | Fill(block: nat, addr: nat, value: Byte)
    | Data(block: nat, addr: nat, page: seq<Byte>)
    | Delta(block: nat, addr: nat, payload: seq<Byte>)

  // ----------------------------------------------------------------------------------- integers

  function Pow256(k: nat): (p: nat)
    ensures p > 0
  {
    if k == 0 then 1 else 256 * Pow256(k - 1)
  }

  /** `n` in `k` bytes, the most significant first. */
  function Be(n: nat, k: nat): (s: seq<Byte>)
    ensures |s| == k
  {
    if k == 0 then [] else Be(n / 256, k - 1) + [Octet(n % 256)]
  }

  function Value(s: seq<Byte>): nat {
    if s == [] then 0 else Value(s[..|s| - 1]) * 256 + s[|s| - 1] as nat
  }

  lemma ValueStep(s: seq<Byte>, last: Byte)
    ensures Value(s + [last]) == Value(s) * 256 + last as nat
  {
    assert (s + [last])[..|s|] == s;
  }

  lemma BeStep(v: nat, d: nat, k: nat)
    requires d < 256
    ensures Be(v * 256 + d, k + 1) == Be(v, k) + [Octet(d)]
  {
    hide Octet;
    LastDigit(v, d);
  }

  lemma LastDigit(n: nat, d: nat)
    requires d < 256
    ensures (n * 256 + d) / 256 == n && (n * 256 + d) % 256 == d
  {}

  lemma NoBytes(n: nat)
    ensures Be(n, 0) == [] && Value([]) == 0
  {}

  lemma DropDigit(n: nat, k: nat) returns (q: nat, d: nat)
    requires k > 0 && n < Pow256(k)
    ensures n == q * 256 + d && d < 256 && q < Pow256(k - 1)
  {
    q, d := n / 256, n % 256;
  }

  lemma ValueOfBeStep(n: nat, q: nat, d: nat, k: nat)
    requires k > 0 && d < 256 && n == q * 256 + d && Value(Be(q, k - 1)) == q
    ensures Value(Be(n, k)) == n
  {
    hide Octet, Be, Value;
    BeStep(q, d, k - 1);
    ValueStep(Be(q, k - 1), Octet(d));
  }

  lemma {:induction false} ValueOfBe(n: nat, k: nat)
    requires n < Pow256(k)
    ensures Value(Be(n, k)) == n
  {
    if k == 0 {
      NoBytes(n);
    } else {
      hide Octet, Be, Value, Pow256;
      var q, d := DropDigit(n, k);
      ValueOfBe(q, k - 1);
      ValueOfBeStep(n, q, d, k);
    }
  }

  lemma {:induction false} BeOfValue(s: seq<Byte>)
    ensures Be(Value(s), |s|) == s
  {
    hide Octet, Be, Value;
    if s == [] {
      NoBytes(Value(s));
    } else {
      var n := |s| - 1;
      var d := s[n] as nat;
      BeOfValue(s[..n]);
      OctetOf(s[n]);
      BeStep(Value(s[..n]), d, n);
      ValueStep(s[..n], s[n]);
      assert s == s[..n] + [s[n]];
    }
  }

  /** The most significant byte comes first. */
  lemma {:induction false} ValueOfFirst(first: Byte, s: seq<Byte>)
    ensures Value([first] + s) == first as nat * Pow256(|s|) + Value(s)
  {
    var n := |s| - 1;
    if s == [] {
      assert [first] + s == [first] && [first][..0] == [];
    } else {
      assert ([first] + s)[..|s|] == [first] + s[..n];
      ValueOfFirst(first, s[..n]);
      Scale(first as nat, Pow256(n), Value(s[..n]), s[n] as nat);
    }
  }

  lemma Scale(a: nat, p: nat, v: nat, d: nat)
    ensures (a * p + v) * 256 + d == a * (256 * p) + (v * 256 + d)
  {}

  lemma Pow8()
    ensures Pow256(8) == 0x1_0000_0000_0000_0000 && Pow256(2) == 0x1_0000
  {
    assert Pow256(2) == 65536;
    assert Pow256(4) == 0x1_0000_0000;
    assert Pow256(6) == 0x1_0000_0000_0000;
  }

  // -------------------------------------------------------------------------------------- flags

  const COMPRESS: nat := 0x02
  const MEM_SIZE: nat := 0x04
  const PAGE: nat := 0x08
  const EOS: nat := 0x10
  const CONTINUE: nat := 0x20
  const XBZRLE: nat := 0x40

  predicate Has(flags: nat, flag: nat)
    requires flag > 0
  {
    flags / flag % 2 == 1
  }

  function FlagOf(r: Record): nat {
    match r
    case Fill(_, _, _) => COMPRESS
    case Data(_, _, _) => PAGE
    case Delta(_, _, _) => XBZRLE
  }

  /** Flags do not collide with page-aligned addresses. */
  lemma Parts(addr: nat, flags: nat)
    requires addr % 4096 == 0 && flags < 4096
    ensures (addr + flags) % 4096 == flags && addr + flags - flags == addr
  {}

  // ------------------------------------------------------------------------------------- sender

  /** What a list of blocks must be for its entries to be written and read: names that one byte can
      count, no name twice, whole pages. */
  ghost predicate EntriesOk(blocks: seq<Block>) {
    && (forall i :: 0 <= i < |blocks| ==> EntryOk(blocks[i]))
    && (forall i, j :: 0 <= i < j < |blocks| ==> blocks[i].name != blocks[j].name)
  }

  predicate EntryOk(b: Block) {
    |b.name| < 256 && b.length % 4096 == 0 && b.length < 0x1_0000_0000_0000_0000
  }

  /** The blocks of RAM: none is empty. */
  ghost predicate BlocksOk(blocks: seq<Block>) {
    EntriesOk(blocks) && forall i :: 0 <= i < |blocks| ==> blocks[i].length > 0
  }

  predicate RecordOk(blocks: seq<Block>, r: Record) {
    && r.block < |blocks| && r.addr % 4096 == 0 && r.addr < blocks[r.block].length
    && (r.Data? ==> |r.page| == 4096)
    && (r.Delta? ==> |r.payload| <= 4096)
  }

  /** save_block_hdr */
  function Header(b: Block, addr: nat, continued: bool, flag: nat): seq<Byte>
    requires EntryOk(b)
  {
    Be(addr + (if continued then CONTINUE else 0) + flag, 8)
    + if continued then [] else [Octet(|b.name|)] + b.name
  }

  function Body(r: Record): seq<Byte> {
    match r
    case Fill(_, _, value) => [value]
    case Data(_, _, page) => page
    case Delta(_, _, payload) => [1] + Be(|payload|, 2) + payload
  }

  function Encode(blocks: seq<Block>, last: Option<nat>, r: Record): seq<Byte>
    requires r.block < |blocks| && EntryOk(blocks[r.block])
  {
    Header(blocks[r.block], r.addr, last == Some(r.block), FlagOf(r)) + Body(r)
  }

  // ------------------------------------------------------------------------------------- loader

  /** host_from_stream_offset: the block a record is for, and the stream after its name. */
  function FindBlock(blocks: seq<Block>, current: Option<nat>, continued: bool, s: seq<Byte>)
    : Option<(nat, seq<Byte>)>
  {
    if continued then
      if current.None? then None else Some((current.value, s))
    else if s == [] || |s| - 1 < s[0] as nat then None
    else
      var n := s[0] as nat;
      match Named(blocks, s[1..1 + n], 0)
      case None => None
      case Some(i) => Some((i, s[1 + n..]))
  }

  /** The first block with a name, from the `i`-th on. */
  function Named(blocks: seq<Block>, name: seq<Byte>, i: nat): (r: Option<nat>)
    ensures r.Some? ==> r.value < |blocks|
    decreases |blocks| - i
  {
    if i >= |blocks| then None else if blocks[i].name == name then Some(i) else Named(blocks, name, i + 1)
  }

  lemma {:induction false} NamedIs(blocks: seq<Block>, k: nat, i: nat)
    requires EntriesOk(blocks) && i <= k < |blocks|
    ensures Named(blocks, blocks[k].name, i) == Some(k)
    decreases k - i
  {
    if i < k {
      NamedIs(blocks, k, i + 1);
    }
  }

  /** The rest of a record whose header had `flags`, for block `b`. */
  function LoadBody(b: nat, addr: nat, flags: nat, s: seq<Byte>): Option<(Record, seq<Byte>)> {
    if Has(flags, COMPRESS) then
      if s == [] then None else Some((Fill(b, addr, s[0]), s[1..]))
    else if Has(flags, PAGE) then
      if |s| < 4096 then None else Some((Data(b, addr, s[..4096]), s[4096..]))
    else if |s| < 3 || s[0] != 1 || Value(s[1..3]) > 4096 || |s| - 3 < Value(s[1..3]) then None
    else
      var n := Value(s[1..3]);
      Some((Delta(b, addr, s[3..3 + n]), s[3 + n..]))
  }

  predicate IsPage(flags: nat) { Has(flags, COMPRESS) || Has(flags, PAGE) || Has(flags, XBZRLE) }

  function LoadRecord(blocks: seq<Block>, current: Option<nat>, header: nat, s: seq<Byte>)
    : (r: Option<(Record, seq<Byte>)>)
    ensures r.Some? ==> |r.value.1| <= |s|
  {
    var flags := header % 4096;
    match FindBlock(blocks, current, Has(flags, CONTINUE), s)
    case None => None
    case Some(found) => LoadBody(found.0, header - flags, flags, found.1)
  }

  lemma BodyUndone(r: Record, blocks: seq<Block>, flags: nat, rest: seq<Byte>)
    requires RecordOk(blocks, r) && (flags == FlagOf(r) || flags == FlagOf(r) + CONTINUE)
    ensures LoadBody(r.block, r.addr, flags, Body(r) + rest) == Some((r, rest))
  {
    hide Value, Be, Pow256;
    match r
    case Fill(_, _, value) =>
      assert ([value] + rest)[1..] == rest;
    case Data(_, _, page) =>
      assert (page + rest)[..4096] == page && (page + rest)[4096..] == rest;
    case Delta(_, _, payload) =>
      DeltaParts(payload, rest);
  }

  /** The kind of record that the flags of a header announce. */
  predicate KindOf(r: Record, flags: nat) {
    if Has(flags, COMPRESS) then r.Fill? else if Has(flags, PAGE) then r.Data? else r.Delta?
  }

  /** The loader takes exactly the bytes of a record of the announced kind, with a whole page or a delta
      of at most a page, and rejects everything else. */
  lemma BodyExactly(b: nat, addr: nat, flags: nat, s: seq<Byte>, r: Record, rest: seq<Byte>)
    ensures LoadBody(b, addr, flags, s) == Some((r, rest)) <==>
            && KindOf(r, flags) && r.block == b && r.addr == addr && s == Body(r) + rest
            && (r.Data? ==> |r.page| == 4096) && (r.Delta? ==> |r.payload| <= 4096)
  {
    hide Value, Be, Pow256, Has;
    if LoadBody(b, addr, flags, s) == Some((r, rest)) {
      if r.Delta? {
        DeltaRead(s);
      }
    } else if KindOf(r, flags) && s == Body(r) + rest && r.Delta? && |r.payload| <= 4096 {
      DeltaParts(r.payload, rest);
    }
  }

  lemma DeltaRead(s: seq<Byte>)
    requires |s| >= 3 && s[0] == 1 && |s| - 3 >= Value(s[1..3])
    ensures var n := Value(s[1..3]); s == [1] + Be(n, 2) + s[3..3 + n] + s[3 + n..]
  {
    hide Value, Be, Pow256;
    BeOfValue(s[1..3]);
  }

  lemma DeltaParts(payload: seq<Byte>, rest: seq<Byte>)
    requires |payload| <= 4096
    ensures var s, n := [1] + Be(|payload|, 2) + payload + rest, |payload|;
            Value(s[1..3]) == n && s[3..3 + n] == payload && s[3 + n..] == rest
  {
    hide Value, Be, Pow256;
    Pow8();
    ValueOfBe(|payload|, 2);
    EntryParts(1, Be(|payload|, 2), payload, rest);
  }

  lemma BlockFound(blocks: seq<Block>, last: Option<nat>, b: nat, rest: seq<Byte>)
    requires BlocksOk(blocks) && b < |blocks|
    ensures var continued := last == Some(b);
            var name := if continued then [] else [Octet(|blocks[b].name|)] + blocks[b].name;
            FindBlock(blocks, last, continued, name + rest) == Some((b, rest))
  {
    hide Octet;
    if last == Some(b) {
      assert [] + rest == rest;
    } else {
      var n, name := |blocks[b].name|, [Octet(|blocks[b].name|)] + blocks[b].name;
      var s := name + rest;
      assert s[1..1 + n] == blocks[b].name && s[1 + n..] == rest;
      NamedIs(blocks, b, 0);
    }
  }

  /** The loader decodes a record for the block that the sender meant. */
  lemma RecordUndone(blocks: seq<Block>, last: Option<nat>, r: Record, rest: seq<Byte>)
    requires BlocksOk(blocks) && RecordOk(blocks, r)
    ensures var s := Encode(blocks, last, r) + rest;
            |s| >= 8 && IsPage(Value(s[..8]) % 4096) && !Has(Value(s[..8]) % 4096, MEM_SIZE)
            && !Has(Value(s[..8]) % 4096, EOS)
            && LoadRecord(blocks, last, Value(s[..8]), s[8..]) == Some((r, rest))
  {
    hide Octet, Be, Value, LoadBody, FindBlock, Pow256, Body;
    var b, continued := blocks[r.block], last == Some(r.block);
    var flags := (if continued then CONTINUE else 0) + FlagOf(r);
    var header := r.addr + flags;
    var name := if continued then [] else [Octet(|b.name|)] + b.name;
    var s := Encode(blocks, last, r) + rest;
    Front(Be(header, 8), name, Body(r), rest);
    Pow8();
    ValueOfBe(header, 8);
    Parts(r.addr, flags);
    BlockFound(blocks, last, r.block, Body(r) + rest);
    BodyUndone(r, blocks, flags, rest);
  }

  lemma Front(head: seq<Byte>, name: seq<Byte>, body: seq<Byte>, rest: seq<Byte>)
    ensures var s := head + name + body + rest;
            s[..|head|] == head && s[|head|..] == name + (body + rest)
  {}

  // ---------------------------------------------------------------------------------- block list

  function Sum(blocks: seq<Block>): nat {
    if blocks == [] then 0 else blocks[0].length + Sum(blocks[1..])
  }

  /** The list of blocks that the sender announces. */
  function List(blocks: seq<Block>): seq<Byte>
    requires forall i :: 0 <= i < |blocks| ==> EntryOk(blocks[i])
  {
    if blocks == [] then [] else Entry(blocks[0]) + List(blocks[1..])
  }

  function Entry(b: Block): seq<Byte>
    requires EntryOk(b)
  {
    [Octet(|b.name|)] + b.name + Be(b.length, 8)
  }

  /** One entry of the list: the length it announces, for a block that must exist with that length. */
  function LoadEntry(blocks: seq<Block>, s: seq<Byte>): (r: Option<(nat, seq<Byte>)>)
    ensures r.Some? ==> |r.value.1| < |s|
  {
    if s == [] || |s| - 1 < s[0] as nat + 8 then None
    else
      var n := s[0] as nat;
      var length := Value(s[1 + n..9 + n]);
      match Named(blocks, s[1..1 + n], 0)
      case None => None
      case Some(i) => if blocks[i].length != length then None else Some((length, s[9 + n..]))
  }

  lemma {:induction false} NamedFinds(blocks: seq<Block>, name: seq<Byte>, i: nat)
    ensures var r := Named(blocks, name, i); r.Some? ==> r.value < |blocks| && blocks[r.value].name == name
    decreases |blocks| - i
  {
    if i < |blocks| {
      NamedFinds(blocks, name, i + 1);
    }
  }

  /** What an accepted entry consists of. */
  lemma EntryRead(s: seq<Byte>, b: Block, rest: seq<Byte>)
    requires EntryOk(b) && |s| >= 9 + |b.name| && s[0] as nat == |b.name|
    requires s[1..1 + |b.name|] == b.name && Value(s[1 + |b.name|..9 + |b.name|]) == b.length
    requires s[9 + |b.name|..] == rest
    ensures s == Entry(b) + rest
  {
    hide Octet, Be, Value, Pow256;
    var n := |b.name|;
    BeOfValue(s[1 + n..9 + n]);
    OctetOf(s[0]);
    FourParts(s, 1 + n, 9 + n);
  }

  lemma FourParts(s: seq<Byte>, a: nat, b: nat)
    requires 1 <= a <= b <= |s|
    ensures s == [s[0]] + s[1..a] + s[a..b] + s[b..]
  {}

  /** The loader takes exactly the entry of a block that it has, with the length that it has. */
  lemma EntryExactly(blocks: seq<Block>, s: seq<Byte>, length: nat, rest: seq<Byte>)
    requires EntriesOk(blocks)
    ensures LoadEntry(blocks, s) == Some((length, rest)) <==>
            exists i :: 0 <= i < |blocks| && blocks[i].length == length && s == Entry(blocks[i]) + rest
  {
    hide Octet, Be, Value, Pow256, Named, Entry;
    if LoadEntry(blocks, s) == Some((length, rest)) {
      var name := s[1..1 + s[0] as nat];
      NamedFinds(blocks, name, 0);
      EntryRead(s, blocks[Named(blocks, name, 0).value], rest);
    }
    if i :| 0 <= i < |blocks| && blocks[i].length == length && s == Entry(blocks[i]) + rest {
      EntryUndone(blocks, i, rest);
    }
  }

  /** The loader's reading of the list: entries until they add up to `total`; what is left unread. */
  function LoadList(blocks: seq<Block>, total: nat, s: seq<Byte>): (r: Option<seq<Byte>>)
    ensures r.Some? ==> |r.value| <= |s|
    decreases |s|
  {
    if total == 0 then Some(s)
    else match LoadEntry(blocks, s)
      case None => None
      case Some(e) => LoadList(blocks, Minus(total, e.0), e.1)
  }

  /** Subtraction in 64 bits. */
  function Minus(a: nat, b: nat): nat {
    if a >= b then a - b else (a + 0x1_0000_0000_0000_0000 - b % 0x1_0000_0000_0000_0000) % 0x1_0000_0000_0000_0000
  }

  lemma EntryParts(first: Byte, name: seq<Byte>, length: seq<Byte>, rest: seq<Byte>)
    ensures var s, n, m := [first] + name + length + rest, 1 + |name|, 1 + |name| + |length|;
            s[0] == first && s[1..n] == name && s[n..m] == length && s[m..] == rest
  {}

  lemma EntryUndone(blocks: seq<Block>, k: nat, rest: seq<Byte>)
    requires EntriesOk(blocks) && k < |blocks|
    ensures LoadEntry(blocks, Entry(blocks[k]) + rest) == Some((blocks[k].length, rest))
  {
    hide Octet, Be, Value, Pow256;
    var b, n := blocks[k], |blocks[k].name|;
    var s := Entry(b) + rest;
    EntryParts(Octet(n), b.name, Be(b.length, 8), rest);
    Pow8();
    ValueOfBe(b.length, 8);
    NamedIs(blocks, k, 0);
  }

  lemma {:induction false} ListUndone(blocks: seq<Block>, k: nat, rest: seq<Byte>)
    requires EntriesOk(blocks) && k <= |blocks|
    requires k < |blocks| ==> blocks[|blocks| - 1].length > 0
    ensures LoadList(blocks, Sum(blocks[k..]), List(blocks[k..]) + rest) == Some(rest)
    decreases |blocks| - k
  {
    hide LoadEntry, Entry;
    var later := blocks[k..];
    if k < |blocks| {
      SumPositive(later);
      assert later[1..] == blocks[k + 1..];
      assert List(later) + rest == Entry(blocks[k]) + (List(later[1..]) + rest);
      EntryUndone(blocks, k, List(later[1..]) + rest);
      ListUndone(blocks, k + 1, rest);
    } else {
      assert List(later) + rest == rest;
    }
  }

  lemma {:induction false} SumPositive(blocks: seq<Block>)
    requires blocks != [] && blocks[|blocks| - 1].length > 0
    ensures Sum(blocks) > 0
  {
    if |blocks| > 1 {
      SumPositive(blocks[1..]);
    }
  }

  /** A last block without memory is never read: the entries before it already add up. */
  lemma {:induction false} ListCut(blocks: seq<Block>, k: nat, rest: seq<Byte>)
    requires EntriesOk(blocks) && k < |blocks| && blocks[|blocks| - 1].length == 0
    ensures var left := LoadList(blocks, Sum(blocks[k..]), List(blocks[k..]) + rest);
            left.Some? && |left.value| > |rest|
    decreases |blocks| - k
  {
    hide LoadEntry, Entry;
    var later := blocks[k..];
    EntryLong(blocks[k]);
    if k == |blocks| - 1 {
      assert later[1..] == [];
    } else if Sum(later) > 0 {
      assert later[1..] == blocks[k + 1..];
      assert List(later) + rest == Entry(blocks[k]) + (List(later[1..]) + rest);
      EntryUndone(blocks, k, List(later[1..]) + rest);
      ListCut(blocks, k + 1, rest);
    }
  }

  lemma EntryLong(b: Block)
    requires EntryOk(b)
    ensures |Entry(b)| > 0
  {}

  /** The loader stops at the announced total, so it would read exactly the list if and only if the
      last entry is not empty; of the lists that the sender writes none ends so. */
  lemma ListExact(blocks: seq<Block>, rest: seq<Byte>)
    requires EntriesOk(blocks) && blocks != []
    ensures LoadList(blocks, Sum(blocks), List(blocks) + rest) == Some(rest) <==> blocks[|blocks| - 1].length > 0
  {
    assert blocks[0..] == blocks;
    if blocks[|blocks| - 1].length > 0 {
      ListUndone(blocks, 0, rest);
    } else {
      ListCut(blocks, 0, rest);
    }
  }

  // ------------------------------------------------------------------------------------ sections

  /** What one call of ram_load makes of the stream: the records, the loader's block afterwards, and
      what it leaves unread. */
  datatype Loaded = Loaded(records: seq<Record>, current: Option<nat>, rest: seq<Byte>)

  /** The loop of ram_load, for a stream without RDMA hooks. */
  function Load(blocks: seq<Block>, current: Option<nat>, s: seq<Byte>): Option<Loaded>
    decreases |s|, 0
  {
    if |s| < 8 then None
    else
      var header := Value(s[..8]);
      var flags := header % 4096;
      var list := if Has(flags, MEM_SIZE) then LoadList(blocks, header - flags, s[8..]) else Some(s[8..]);
      if list.None? then None
      else if IsPage(flags) then
        match LoadRecord(blocks, current, header, list.value)
        case None => None
        case Some(one) => Then(one.0, LoadUnless(blocks, Some(one.0.block), Has(flags, EOS), one.1))
      else LoadUnless(blocks, current, Has(flags, EOS), list.value)
  }

  function LoadUnless(blocks: seq<Block>, current: Option<nat>, end: bool, s: seq<Byte>): Option<Loaded>
    decreases |s|, 1
  {
    if end then Some(Loaded([], current, s)) else Load(blocks, current, s)
  }

  function Then(r: Record, later: Option<Loaded>): Option<Loaded> {
    if later.None? then None else Some(later.value.(records := [r] + later.value.records))
  }

  ghost predicate RecordsOk(blocks: seq<Block>, records: seq<Record>) {
    forall i :: 0 <= i < |records| ==> RecordOk(blocks, records[i])
  }

  /** The records of one round, as the sender writes them. */
  function Round(blocks: seq<Block>, last: Option<nat>, records: seq<Record>): seq<Byte>
    requires forall i :: 0 <= i < |blocks| ==> EntryOk(blocks[i])
    requires RecordsOk(blocks, records)
    decreases |records|
  {
    if records == [] then Be(EOS, 8)
    else
      assert RecordOk(blocks, records[0]);
      Encode(blocks, last, records[0]) + Round(blocks, Some(records[0].block), records[1..])
  }

  function LastBlock(last: Option<nat>, records: seq<Record>): Option<nat> {
    if records == [] then last else Some(records[|records| - 1].block)
  }

  /** What ram_save_setup writes. */
  function Setup(blocks: seq<Block>): seq<Byte>
    requires forall i :: 0 <= i < |blocks| ==> EntryOk(blocks[i])
  {
    Be(Sum(blocks) + MEM_SIZE, 8) + List(blocks) + Be(EOS, 8)
  }

  lemma EosLoads(blocks: seq<Block>, current: Option<nat>, rest: seq<Byte>)
    ensures Load(blocks, current, Be(EOS, 8) + rest) == Some(Loaded([], current, rest))
  {
    hide Be, Value, Pow256, LoadList, LoadRecord;
    var s := Be(EOS, 8) + rest;
    assert s[..8] == Be(EOS, 8) && s[8..] == rest;
    Pow8();
    ValueOfBe(EOS, 8);
  }

  lemma LoadsRecord(blocks: seq<Block>, last: Option<nat>, s: seq<Byte>, r: Record, tail: seq<Byte>)
    requires |s| >= 8 && IsPage(Value(s[..8]) % 4096) && !Has(Value(s[..8]) % 4096, MEM_SIZE)
    requires !Has(Value(s[..8]) % 4096, EOS) && LoadRecord(blocks, last, Value(s[..8]), s[8..]) == Some((r, tail))
    ensures Load(blocks, last, s) == Then(r, Load(blocks, Some(r.block), tail))
  {
    hide Value, LoadRecord, LoadList, IsPage, Has;
  }

  /** A round is loaded record by record, and the loader ends with the sender's last block. */
  lemma {:induction false} RoundLoads(blocks: seq<Block>, last: Option<nat>, records: seq<Record>, rest: seq<Byte>)
    requires BlocksOk(blocks) && RecordsOk(blocks, records)
    ensures Load(blocks, last, Round(blocks, last, records) + rest) ==
            Some(Loaded(records, LastBlock(last, records), rest))
    decreases |records|
  {
    if records == [] {
      hide Be, Load;
      EosLoads(blocks, last, rest);
    } else {
      var r, later := records[0], records[1..];
      assert RecordOk(blocks, r);
      RoundUnfold(blocks, last, records, rest);
      hide Round, Load, Encode, LoadRecord, IsPage, Has, Value, EntryOk;
      var tail := Round(blocks, Some(r.block), later) + rest;
      RecordUndone(blocks, last, r, tail);
      LoadsRecord(blocks, last, Encode(blocks, last, r) + tail, r, tail);
      RoundLoads(blocks, Some(r.block), later, rest);
      FirstAndLater(last, records, rest);
    }
  }

  lemma RoundUnfold(blocks: seq<Block>, last: Option<nat>, records: seq<Record>, rest: seq<Byte>)
    requires BlocksOk(blocks) && RecordsOk(blocks, records) && records != []
    ensures var r := records[0];
            && RecordOk(blocks, r) && RecordsOk(blocks, records[1..])
            && Round(blocks, last, records) + rest ==
               Encode(blocks, last, r) + (Round(blocks, Some(r.block), records[1..]) + rest)
  {
    hide Encode, Be;
    assert RecordOk(blocks, records[0]);
  }

  lemma FirstAndLater(last: Option<nat>, records: seq<Record>, rest: seq<Byte>)
    requires records != []
    ensures var r, later := records[0], records[1..];
            Then(r, Some(Loaded(later, LastBlock(Some(r.block), later), rest))) ==
            Some(Loaded(records, LastBlock(last, records), rest))
  {
    assert records == [records[0]] + records[1..];
  }

  lemma {:induction false} SumAligned(blocks: seq<Block>)
    requires forall i :: 0 <= i < |blocks| ==> EntryOk(blocks[i])
    ensures Sum(blocks) % 4096 == 0
  {
    if blocks != [] {
      SumAligned(blocks[1..]);
    }
  }

  /** The setup section is loaded without a record, and checks every block. */
  lemma SetupLoads(blocks: seq<Block>, current: Option<nat>, rest: seq<Byte>)
    requires BlocksOk(blocks) && Sum(blocks) < 0x1_0000_0000_0000_0000
    ensures Load(blocks, current, Setup(blocks) + rest) == Some(Loaded([], current, rest))
  {
    hide Be, Value, List, LoadList, Pow256, Sum, Load;
    var total, end := Sum(blocks), Be(EOS, 8) + rest;
    var s := Setup(blocks) + rest;
    Front(Be(total + MEM_SIZE, 8), List(blocks), Be(EOS, 8), rest);
    SumAligned(blocks);
    Pow8();
    ValueOfBe(total + MEM_SIZE, 8);
    assert blocks[0..] == blocks;
    ListUndone(blocks, 0, end);
    SkipList(blocks, current, s, total, end);
    EosLoads(blocks, current, rest);
  }

  lemma SkipList(blocks: seq<Block>, current: Option<nat>, s: seq<Byte>, total: nat, rest: seq<Byte>)
    requires |s| >= 8 && Value(s[..8]) == total + MEM_SIZE && total % 4096 == 0
    requires LoadList(blocks, total, s[8..]) == Some(rest)
    ensures Load(blocks, current, s) == Load(blocks, current, rest)
  {
    hide Be, Value, LoadList, LoadRecord, Has, IsPage;
    Parts(total, MEM_SIZE);
    MemSizeFlags();
  }

  lemma MemSizeFlags()
    ensures Has(MEM_SIZE, MEM_SIZE) && !Has(MEM_SIZE, EOS) && !IsPage(MEM_SIZE)
  {}

  // -------------------------------------------------------------------------------- the wire format

  /** A record, byte by byte: a word with the address and the flags, the name of the block unless it is
      the block before, and the contents. */
  ghost predicate InFormat(s: seq<Byte>, r: Record, name: seq<Byte>, named: bool) {
    var at := if named then 9 + |name| else 8;
    && at <= |s| && Value(s[..8]) == r.addr + (if named then 0 else 0x20) + Kind(r)
    && (named ==> s[8] as nat == |name| && s[9..at] == name)
    && BodyFormat(s[at..], r)
  }

  function Kind(r: Record): (flag: nat)
    ensures flag == if r.Fill? then 0x02 else if r.Data? then 0x08 else 0x40
  {
    FlagOf(r)
  }

  ghost predicate BodyFormat(s: seq<Byte>, r: Record) {
    match r
    case Fill(_, _, value) => s == [value]
    case Data(_, _, page) => s == page
    case Delta(_, _, payload) => DeltaFormat(s, payload)
  }

  lemma RecordFormat(blocks: seq<Block>, last: Option<nat>, r: Record)
    requires BlocksOk(blocks) && RecordOk(blocks, r)
    ensures InFormat(Encode(blocks, last, r), r, blocks[r.block].name, last != Some(r.block))
  {
    hide Octet, Be, Value, Pow256, Body, BodyFormat;
    var b, continued := blocks[r.block], last == Some(r.block);
    var header := r.addr + (if continued then CONTINUE else 0) + FlagOf(r);
    var name := if continued then [] else [Octet(|b.name|)] + b.name;
    WordFits(r.addr, header, b);
    ThreeParts(Be(header, 8), name, Body(r));
    BodyInFormat(r);
    if !continued {
      NamePart(Be(header, 8), Octet(|b.name|), b.name, Body(r));
    }
  }

  lemma WordFits(addr: nat, header: nat, b: Block)
    requires EntryOk(b) && addr % 4096 == 0 && addr < b.length && header < addr + 4096
    ensures Value(Be(header, 8)) == header
  {
    hide Be, Value, Pow256;
    Pow8();
    ValueOfBe(header, 8);
  }

  lemma BodyInFormat(r: Record)
    requires r.Delta? ==> |r.payload| <= 4096
    ensures BodyFormat(Body(r), r)
  {
    hide Be, DeltaFormat;
    if r.Delta? {
      DeltaBody(r.payload);
    }
  }

  lemma ThreeParts(head: seq<Byte>, name: seq<Byte>, body: seq<Byte>)
    ensures var s := head + name + body; s[..|head|] == head && s[|head| + |name|..] == body
  {}

  lemma NamePart(head: seq<Byte>, count: Byte, name: seq<Byte>, body: seq<Byte>)
    ensures var s, n := head + ([count] + name) + body, |head|; s[n] == count && s[n + 1..n + 1 + |name|] == name
  {}

  lemma DeltaBody(payload: seq<Byte>)
    requires |payload| <= 4096
    ensures DeltaFormat([1] + Be(|payload|, 2) + payload, payload)
  {
    hide Be, Value, Pow256;
    DeltaParts(payload, []);
    var s := [1] + Be(|payload|, 2) + payload;
    assert s + [] == s && s[3..] == s[3..3 + |payload|];
  }

  /** The kind of encoding, the length and the encoding. */
  predicate DeltaFormat(s: seq<Byte>, payload: seq<Byte>) {
    |s| == 3 + |payload| && s[0] == 1 && Value(s[1..3]) == |payload| && s[3..] == payload
  }

  /** The setup section: the total and its flag, an entry for each block, and the end mark. */
  lemma SetupFormat(blocks: seq<Block>)
    requires BlocksOk(blocks) && Sum(blocks) < 0x1_0000_0000_0000_0000
    ensures var s := Setup(blocks);
            && |s| == 16 + |List(blocks)| && Value(s[..8]) == Sum(blocks) + 0x04
            && s[8..|s| - 8] == List(blocks) && Value(s[|s| - 8..]) == 0x10
  {
    hide Be, Value, Pow256, List, Sum;
    SumAligned(blocks);
    Pow8();
    ValueOfBe(Sum(blocks) + MEM_SIZE, 8);
    ValueOfBe(EOS, 8);
    var s := Setup(blocks);
    assert s[..8] == Be(Sum(blocks) + MEM_SIZE, 8) && s[|s| - 8..] == Be(EOS, 8);
    assert s[8..|s| - 8] == List(blocks);
  }

  /** The entry of block `k`, in its place: the length of the name, the name and the length. */
  lemma {:induction false} ListFormat(blocks: seq<Block>, k: nat)
    requires BlocksOk(blocks) && k < |blocks|
    ensures var e, n := Entry(blocks[k]), |blocks[k].name|;
            && List(blocks) == List(blocks[..k]) + e + List(blocks[k + 1..])
            && |e| == 9 + n && e[0] as nat == n && e[1..1 + n] == blocks[k].name
            && Value(e[1 + n..]) == blocks[k].length
  {
    hide Octet, Be, Value, Pow256, Entry;
    EntryFormat(blocks[k]);
    ListSplit(blocks, k);
  }

  lemma EntryFormat(b: Block)
    requires EntryOk(b)
    ensures var e, n := Entry(b), |b.name|;
            |e| == 9 + n && e[0] as nat == n && e[1..1 + n] == b.name && Value(e[1 + n..]) == b.length
  {
    hide Octet, Be, Value, Pow256;
    Pow8();
    ValueOfBe(b.length, 8);
    EntryParts(Octet(|b.name|), b.name, Be(b.length, 8), []);
    assert Entry(b) + [] == Entry(b);
    assert Entry(b)[1 + |b.name|..] == Be(b.length, 8);
  }

  lemma {:induction false} ListSplit(blocks: seq<Block>, k: nat)
    requires k < |blocks| && forall i :: 0 <= i < |blocks| ==> EntryOk(blocks[i])
    ensures List(blocks) == List(blocks[..k]) + Entry(blocks[k]) + List(blocks[k + 1..])
    decreases |blocks|
  {
    hide Entry;
    if k > 0 {
      var rest := blocks[1..];
      assert rest[..k - 1] == blocks[..k][1..] && rest[k..] == blocks[k + 1..];
      ListSplit(rest, k - 1);
    }
  }

  /** A round ends with the end mark. */
  lemma {:induction false} RoundFormat(blocks: seq<Block>, last: Option<nat>, records: seq<Record>)
    requires BlocksOk(blocks) && RecordsOk(blocks, records)
    ensures var s := Round(blocks, last, records); |s| >= 8 && Value(s[|s| - 8..]) == 0x10
    decreases |records|
  {
    hide Be, Value, Pow256, Encode;
    if records == [] {
      Pow8();
      ValueOfBe(EOS, 8);
    } else {
      assert RecordOk(blocks, records[0]);
      var first, later := Encode(blocks, last, records[0]), Round(blocks, Some(records[0].block), records[1..]);
      RoundFormat(blocks, Some(records[0].block), records[1..]);
      assert (first + later)[|first + later| - 8..] == later[|later| - 8..];
    }
  }

  // ------------------------------------------------------------------------- the code on streams

  /** Records without the end mark, one after the other. */
  function Encoded(blocks: seq<Block>, last: Option<nat>, records: seq<Record>): seq<Byte>
    requires forall i :: 0 <= i < |blocks| ==> EntryOk(blocks[i])
    requires RecordsOk(blocks, records)
    decreases |records|
  {
    if records == [] then []
    else
      var before, r := records[..|records| - 1], records[|records| - 1];
      assert RecordOk(blocks, r);
      Encoded(blocks, last, before) + Encode(blocks, LastBlock(last, before), r)
  }

  lemma {:induction false} RoundIsEncoded(blocks: seq<Block>, last: Option<nat>, records: seq<Record>,
                                          later: seq<Record>)
    requires forall i :: 0 <= i < |blocks| ==> EntryOk(blocks[i])
    requires RecordsOk(blocks, records) && RecordsOk(blocks, later) && RecordsOk(blocks, records + later)
    ensures Round(blocks, last, records + later) ==
            Encoded(blocks, last, records) + Round(blocks, LastBlock(last, records), later)
    decreases |records|
  {
    hide Encode, RecordOk, EntryOk, Be;
    if records == [] {
      assert records + later == later;
      assert [] + Round(blocks, last, later) == Round(blocks, last, later);
    } else {
      var before, r := records[..|records| - 1], records[|records| - 1];
      assert records + later == before + ([r] + later);
      RoundIsEncoded(blocks, last, before, [r] + later);
      assert ([r] + later)[1..] == later;
    }
  }

  lemma RecordInBlock(blocks: seq<Block>, records: seq<Record>, i: nat)
    requires BlocksOk(blocks) && RecordsOk(blocks, records) && i < |records|
    ensures records[i].block < |blocks| && EntryOk(blocks[records[i].block])
    ensures RecordsOk(blocks, records[..i + 1])
  {
    assert RecordOk(blocks, records[i]);
  }

  lemma RoundEnds(blocks: seq<Block>, last: Option<nat>)
    requires BlocksOk(blocks)
    ensures Round(blocks, last, []) == Be(EOS, 8)
  {}

  class Saver {
    const blocks: seq<Block>
    var file: seq<Byte>
    var lastSent: Option<nat>

    /** save_block_hdr; a block name is written as a length and its bytes. */
    method SaveBlockHdr(b: nat, addr: nat, continued: bool, flag: nat)
      requires b < |blocks| && EntryOk(blocks[b])
      modifies `file
      ensures file == old(file) + Header(blocks[b], addr, continued, flag)
    {
      file := file + Be(addr + (if continued then CONTINUE else 0) + flag, 8);
      if !continued {
        file := file + [Octet(|blocks[b].name|)];
        file := file + blocks[b].name;
      }
    }

    /** The part of ram_save_block that writes one page record. */
    method Send(r: Record)
      requires r.block < |blocks| && EntryOk(blocks[r.block])
      modifies this
      ensures file == old(file) + Encode(blocks, old(lastSent), r) && lastSent == Some(r.block)
    {
      hide Header, Be;
      ghost var was := file;
      SaveBlockHdr(r.block, r.addr, lastSent == Some(r.block), FlagOf(r));
      ghost var header := file[|was|..];
      match r {
        case Fill(_, _, value) => file := file + [value];
        case Data(_, _, page) => file := file + page;
        case Delta(_, _, payload) =>
          file := file + [1];
          file := file + Be(|payload|, 2);
          file := file + payload;
          assert file == was + header + ([1] + Be(|payload|, 2) + payload);
      }
      lastSent := Some(r.block);
    }

    /** What one call of ram_save_iterate or ram_save_complete writes for the pages it chooses. */
    method SaveRound(records: seq<Record>)
      requires BlocksOk(blocks) && RecordsOk(blocks, records)
      modifies this
      ensures file == old(file) + Round(blocks, old(lastSent), records)
      ensures lastSent == LastBlock(old(lastSent), records)
    {
      hide Encode, Be, EntryOk, RecordOk, Round;
      ghost var last := lastSent;
      var i := 0;
      while i < |records|
        invariant 0 <= i <= |records| && RecordsOk(blocks, records[..i])
        invariant lastSent == LastBlock(last, records[..i])
        invariant file == old(file) + Encoded(blocks, last, records[..i])
      {
        RecordInBlock(blocks, records, i);
        ghost var next := records[..i + 1];
        assert next[..i] == records[..i] && next[i] == records[i];
        Send(records[i]);
        i := i + 1;
      }
      file := file + Be(EOS, 8);
      assert records[..i] == records && records + [] == records;
      RoundIsEncoded(blocks, last, records, []);
      RoundEnds(blocks, lastSent);
    }

    /** ram_save_setup, the part that writes. */
    method SaveSetup()
      requires forall i :: 0 <= i < |blocks| ==> EntryOk(blocks[i])
      modifies `file
      ensures file == old(file) + Setup(blocks)
    {
      hide Be, Octet, Entry;
      var total, i := 0, |blocks|;
      assert blocks[i..] == [];
      while i > 0
        invariant 0 <= i <= |blocks| && total == Sum(blocks[i..])
      {
        i := i - 1;
        assert blocks[i..][1..] == blocks[i + 1..];
        total := total + blocks[i].length;
      }
      assert blocks[0..] == blocks;
      file := file + Be(total + MEM_SIZE, 8);
      ghost var head := file;
      while i < |blocks|
        invariant 0 <= i <= |blocks| && file + List(blocks[i..]) == head + List(blocks)
      {
        assert blocks[i..][1..] == blocks[i + 1..];
        assert file + List(blocks[i..]) == file + Entry(blocks[i]) + List(blocks[i + 1..]);
        file := file + Entry(blocks[i]);
        i := i + 1;
      }
      assert blocks[i..] == [];
      assert file + List(blocks[i..]) == file;
      file := file + Be(EOS, 8);
      assert file == old(file) + (Be(total + MEM_SIZE, 8) + List(blocks) + Be(EOS, 8));
    }
  }

  /** ram_load on the rest of a stream, with `current` the block that an earlier call left behind. */
  method RamLoad(blocks: seq<Block>, current: Option<nat>, stream: seq<Byte>) returns (ok: bool, loaded: Loaded)
    ensures ok <==> Load(blocks, current, stream).Some?
    ensures ok ==> Load(blocks, current, stream) == Some(loaded)
  {
    hide Value, LoadRecord, LoadList, Has, IsPage;
    loaded := Loaded([], current, stream);
    AfterNone(Load(blocks, current, stream));
    while true
      invariant Load(blocks, current, stream) == After(loaded.records, Load(blocks, loaded.current, loaded.rest))
      decreases |loaded.rest|
    {
      if |loaded.rest| < 8 { return false, loaded; }
      var header, s := Value(loaded.rest[..8]), loaded.rest[8..];
      var flags := header % 4096;
      if Has(flags, MEM_SIZE) {
        var list := LoadList(blocks, header - flags, s);
        if list.None? { return false, loaded; }
        s := list.value;
      }
      ghost var records, later := loaded.records, LoadUnless(blocks, loaded.current, Has(flags, EOS), s);
      if IsPage(flags) {
        var one := LoadRecord(blocks, loaded.current, header, s);
        if one.None? { return false, loaded; }
        loaded := Loaded(loaded.records + [one.value.0], Some(one.value.0.block), one.value.1);
        later := LoadUnless(blocks, loaded.current, Has(flags, EOS), loaded.rest);
        AfterThen(records, one.value.0, later);
      } else {
        loaded := loaded.(rest := s);
      }
      if Has(flags, EOS) {
        AfterEnd(loaded);
        return true, loaded;
      }
    }
  }

  function After(records: seq<Record>, later: Option<Loaded>): Option<Loaded> {
    if later.None? then None else Some(later.value.(records := records + later.value.records))
  }

  lemma AfterNone(later: Option<Loaded>)
    ensures After([], later) == later
  {
    if later.Some? {
      assert [] + later.value.records == later.value.records;
    }
  }

  lemma AfterThen(records: seq<Record>, r: Record, later: Option<Loaded>)
    ensures After(records, Then(r, later)) == After(records + [r], later)
  {
    if later.Some? {
      assert records + ([r] + later.value.records) == records + [r] + later.value.records;
    }
  }

  lemma AfterEnd(loaded: Loaded)
    ensures After(loaded.records, Some(Loaded([], loaded.current, loaded.rest))) == Some(loaded)
  {
    assert loaded.records + [] == loaded.records;
  }

  // --------------------------------------------------------------------------------- a whole run

  /** `n` calls of ram_load, one for each section. */
  function LoadMany(blocks: seq<Block>, current: Option<nat>, s: seq<Byte>, n: nat): Option<Loaded>
    decreases n
  {
    if n == 0 then Some(Loaded([], current, s))
    else match Load(blocks, current, s)
      case None => None
      case Some(one) => After(one.records, LoadMany(blocks, one.current, one.rest, n - 1))
  }

  ghost predicate RoundsOk(blocks: seq<Block>, rounds: seq<seq<Record>>) {
    forall i :: 0 <= i < |rounds| ==> RecordsOk(blocks, rounds[i])
  }

  /** The sections that follow the setup section. */
  function Rounds(blocks: seq<Block>, last: Option<nat>, rounds: seq<seq<Record>>): seq<Byte>
    requires forall i :: 0 <= i < |blocks| ==> EntryOk(blocks[i])
    requires RoundsOk(blocks, rounds)
    decreases |rounds|
  {
    if rounds == [] then []
    else
      assert RecordsOk(blocks, rounds[0]);
      Round(blocks, last, rounds[0]) + Rounds(blocks, LastBlock(last, rounds[0]), rounds[1..])
  }

  function Flat(rounds: seq<seq<Record>>): seq<Record> {
    if rounds == [] then [] else rounds[0] + Flat(rounds[1..])
  }

  lemma {:induction false} RoundsLoad(blocks: seq<Block>, last: Option<nat>, rounds: seq<seq<Record>>, rest: seq<Byte>)
    requires BlocksOk(blocks) && RoundsOk(blocks, rounds)
    ensures var l := LoadMany(blocks, last, Rounds(blocks, last, rounds) + rest, |rounds|);
            l.Some? && l.value.records == Flat(rounds) && l.value.rest == rest
    decreases |rounds|
  {
    hide Load, Round, LastBlock, RecordsOk, EntryOk;
    if rounds == [] {
      assert [] + rest == rest;
    } else {
      var r, later := rounds[0], rounds[1..];
      assert RecordsOk(blocks, r);
      var tail := Rounds(blocks, LastBlock(last, r), later) + rest;
      assert Rounds(blocks, last, rounds) + rest == Round(blocks, last, r) + tail;
      RoundLoads(blocks, last, r, tail);
      RoundsLoad(blocks, LastBlock(last, r), later, rest);
    }
  }

  /** A whole migration: the setup section and any number of rounds are loaded as the records that
      were sent, although the sender names a block only when it changes, also from one round to the
      next. */
  lemma RunLoads(blocks: seq<Block>, rounds: seq<seq<Record>>, rest: seq<Byte>)
    requires BlocksOk(blocks) && Sum(blocks) < 0x1_0000_0000_0000_0000 && RoundsOk(blocks, rounds)
    ensures var l := LoadMany(blocks, None, Setup(blocks) + (Rounds(blocks, None, rounds) + rest), 1 + |rounds|);
            l.Some? && l.value.records == Flat(rounds) && l.value.rest == rest
  {
    hide Load, Setup, Rounds, RecordsOk, EntryOk, Sum;
    var tail := Rounds(blocks, None, rounds) + rest;
    SetupLoads(blocks, None, tail);
    RoundsLoad(blocks, None, rounds, rest);
    AfterNone(LoadMany(blocks, None, tail, |rounds|));
  }
}
