/**
 * Xor based zero run length encoding of a page against an older copy of it (xbzrle.c).  The encoder
 * looks at eight bytes at a time; the decoder knows only the older copy and the encoded bytes.
 */
module Xbzrle {
  import opened Octets
  import opened Wrappers

  type Word = bv64

  // ------------------------------------------------------------------------- eight bytes at once

  function Join(b0: Byte, b1: Byte, b2: Byte, b3: Byte, b4: Byte, b5: Byte, b6: Byte, b7: Byte): Word {
    (b0 as Word) | (b1 as Word << 8) | (b2 as Word << 16) | (b3 as Word << 24)
    | (b4 as Word << 32) | (b5 as Word << 40) | (b6 as Word << 48) | (b7 as Word << 56)
  }

  function WordAt(s: seq<Byte>, i: nat): Word
    requires i + 8 <= |s|
  {
    Join(s[i], s[i + 1], s[i + 2], s[i + 3], s[i + 4], s[i + 5], s[i + 6], s[i + 7])
  }

  /** The subtraction trick by which the source finds a zero byte in a word. */
  predicate HasZeroByte(x: Word) {
    (x - 0x0101_0101_0101_0101) & !x & 0x8080_8080_8080_8080 != 0
  }

  predicate SomeByteZero(x: Word) {
    || x & 0xff == 0
    || x & 0xff00 == 0
    || x & 0xff_0000 == 0
    || x & 0xff00_0000 == 0
    || x & 0xff_0000_0000 == 0
    || x & 0xff00_0000_0000 == 0
    || x & 0xff_0000_0000_0000 == 0
    || x & 0xff00_0000_0000_0000 == 0
  }

  /** The trick is exact: no borrow makes it report a word without a zero byte. */
  lemma TrickIsExact(x: Word)
    ensures HasZeroByte(x) <==> SomeByteZero(x)
  {}

  lemma JoinEqual(a0: Byte, a1: Byte, a2: Byte, a3: Byte, a4: Byte, a5: Byte, a6: Byte, a7: Byte,
                  b0: Byte, b1: Byte, b2: Byte, b3: Byte, b4: Byte, b5: Byte, b6: Byte, b7: Byte)
    ensures Join(a0, a1, a2, a3, a4, a5, a6, a7) == Join(b0, b1, b2, b3, b4, b5, b6, b7) <==>
            a0 == b0 && a1 == b1 && a2 == b2 && a3 == b3 && a4 == b4 && a5 == b5 && a6 == b6 && a7 == b7
  {}

  lemma JoinXor(a0: Byte, a1: Byte, a2: Byte, a3: Byte, a4: Byte, a5: Byte, a6: Byte, a7: Byte,
                b0: Byte, b1: Byte, b2: Byte, b3: Byte, b4: Byte, b5: Byte, b6: Byte, b7: Byte)
    ensures Join(a0, a1, a2, a3, a4, a5, a6, a7) ^ Join(b0, b1, b2, b3, b4, b5, b6, b7) ==
            Join(a0 ^ b0, a1 ^ b1, a2 ^ b2, a3 ^ b3, a4 ^ b4, a5 ^ b5, a6 ^ b6, a7 ^ b7)
  {}

  lemma JoinZero(b0: Byte, b1: Byte, b2: Byte, b3: Byte, b4: Byte, b5: Byte, b6: Byte, b7: Byte)
    ensures SomeByteZero(Join(b0, b1, b2, b3, b4, b5, b6, b7)) <==>
            b0 == 0 || b1 == 0 || b2 == 0 || b3 == 0 || b4 == 0 || b5 == 0 || b6 == 0 || b7 == 0
  {}

  lemma JoinMeet(a0: Byte, a1: Byte, a2: Byte, a3: Byte, a4: Byte, a5: Byte, a6: Byte, a7: Byte,
                 b0: Byte, b1: Byte, b2: Byte, b3: Byte, b4: Byte, b5: Byte, b6: Byte, b7: Byte)
    ensures SomeByteZero(Join(a0, a1, a2, a3, a4, a5, a6, a7) ^ Join(b0, b1, b2, b3, b4, b5, b6, b7)) <==>
            a0 == b0 || a1 == b1 || a2 == b2 || a3 == b3 || a4 == b4 || a5 == b5 || a6 == b6 || a7 == b7
  {
    hide Join, SomeByteZero;
    JoinXor(a0, a1, a2, a3, a4, a5, a6, a7, b0, b1, b2, b3, b4, b5, b6, b7);
    JoinZero(a0 ^ b0, a1 ^ b1, a2 ^ b2, a3 ^ b3, a4 ^ b4, a5 ^ b5, a6 ^ b6, a7 ^ b7);
  }

  /** The comparison of two words. */
  predicate SameWord(s: seq<Byte>, t: seq<Byte>, i: nat)
    requires i + 8 <= |s| && i + 8 <= |t|
  {
    WordAt(s, i) == WordAt(t, i)
  }

  /** The test for an unchanged byte within two words. */
  predicate MeetWord(s: seq<Byte>, t: seq<Byte>, i: nat)
    requires i + 8 <= |s| && i + 8 <= |t|
  {
    HasZeroByte(WordAt(s, i) ^ WordAt(t, i))
  }

  predicate SameByte(s: seq<Byte>, t: seq<Byte>, i: nat)
    requires i < |s| && i < |t|
  {
    s[i] == t[i]
  }

  /** Comparing two words compares their eight bytes. */
  lemma WordsEqual(s: seq<Byte>, t: seq<Byte>, i: nat)
    requires i + 8 <= |s| && i + 8 <= |t|
    ensures SameWord(s, t, i) <==> AllSame(s, t, i, i + 8)
  {
    hide Join;
    JoinEqual(s[i], s[i + 1], s[i + 2], s[i + 3], s[i + 4], s[i + 5], s[i + 6], s[i + 7],
              t[i], t[i + 1], t[i + 2], t[i + 3], t[i + 4], t[i + 5], t[i + 6], t[i + 7]);
    forall k | i <= k < i + 8 && SameWord(s, t, i) ensures s[k] == t[k] {
      assert k - i in {0, 1, 2, 3, 4, 5, 6, 7};
    }
  }

  ghost predicate AllSame(s: seq<Byte>, t: seq<Byte>, i: nat, j: nat)
    requires j <= |s| && j <= |t|
  {
    forall k :: i <= k < j ==> s[k] == t[k]
  }

  ghost predicate NoneSame(s: seq<Byte>, t: seq<Byte>, i: nat, j: nat)
    requires j <= |s| && j <= |t|
  {
    forall k :: i <= k < j ==> s[k] != t[k]
  }

  ghost predicate SomeSame(s: seq<Byte>, t: seq<Byte>, i: nat)
    requires i + 8 <= |s| && i + 8 <= |t|
  {
    || s[i] == t[i] || s[i + 1] == t[i + 1] || s[i + 2] == t[i + 2] || s[i + 3] == t[i + 3]
    || s[i + 4] == t[i + 4] || s[i + 5] == t[i + 5] || s[i + 6] == t[i + 6] || s[i + 7] == t[i + 7]
  }

  lemma MeetIsSome(s: seq<Byte>, t: seq<Byte>, i: nat)
    requires i + 8 <= |s| && i + 8 <= |t|
    ensures MeetWord(s, t, i) <==> SomeSame(s, t, i)
  {
    hide Join, SomeByteZero, HasZeroByte;
    TrickIsExact(WordAt(s, i) ^ WordAt(t, i));
    JoinMeet(s[i], s[i + 1], s[i + 2], s[i + 3], s[i + 4], s[i + 5], s[i + 6], s[i + 7],
             t[i], t[i + 1], t[i + 2], t[i + 3], t[i + 4], t[i + 5], t[i + 6], t[i + 7]);
  }

  /** The trick, applied to the exclusive or, tells whether some byte is the same. */
  lemma WordsMeet(s: seq<Byte>, t: seq<Byte>, i: nat)
    requires i + 8 <= |s| && i + 8 <= |t|
    ensures MeetWord(s, t, i) <==> !NoneSame(s, t, i, i + 8)
  {
    MeetIsSome(s, t, i);
    hide MeetWord;
    forall k | i <= k < i + 8 && s[k] == t[k] ensures SomeSame(s, t, i) {
      assert k - i in {0, 1, 2, 3, 4, 5, 6, 7};
    }
  }

  // --------------------------------------------------------------------------------------- runs

  /** Length of the run of unchanged bytes at `i`. */
  function Unchanged(prev: seq<Byte>, cur: seq<Byte>, i: nat): (n: nat)
    requires |prev| == |cur| && i <= |cur|
    ensures i + n <= |cur|
    decreases |cur| - i
  {
    if i < |cur| && prev[i] == cur[i] then 1 + Unchanged(prev, cur, i + 1) else 0
  }

  /** Length of the run of changed bytes at `i`. */
  function Changed(prev: seq<Byte>, cur: seq<Byte>, i: nat): (n: nat)
    requires |prev| == |cur| && i <= |cur|
    ensures i + n <= |cur|
    decreases |cur| - i
  {
    if i < |cur| && prev[i] != cur[i] then 1 + Changed(prev, cur, i + 1) else 0
  }

  lemma {:induction false} UnchangedIs(prev: seq<Byte>, cur: seq<Byte>, i: nat, j: nat)
    requires |prev| == |cur| && i <= j <= |cur| && AllSame(prev, cur, i, j)
    requires j == |cur| || prev[j] != cur[j]
    ensures Unchanged(prev, cur, i) == j - i
    decreases j - i
  {
    if i < j {
      UnchangedIs(prev, cur, i + 1, j);
    }
  }

  lemma {:induction false} ChangedIs(prev: seq<Byte>, cur: seq<Byte>, i: nat, j: nat)
    requires |prev| == |cur| && i <= j <= |cur| && NoneSame(prev, cur, i, j)
    requires j == |cur| || prev[j] == cur[j]
    ensures Changed(prev, cur, i) == j - i
    decreases j - i
  {
    if i < j {
      ChangedIs(prev, cur, i + 1, j);
    }
  }

  lemma {:induction false} UnchangedEnds(prev: seq<Byte>, cur: seq<Byte>, i: nat)
    requires |prev| == |cur| && i <= |cur|
    ensures var j := i + Unchanged(prev, cur, i);
            AllSame(prev, cur, i, j) && (j == |cur| || prev[j] != cur[j])
    decreases |cur| - i
  {
    if i < |cur| && prev[i] == cur[i] {
      UnchangedEnds(prev, cur, i + 1);
    }
  }

  lemma {:induction false} ChangedEnds(prev: seq<Byte>, cur: seq<Byte>, i: nat)
    requires |prev| == |cur| && i <= |cur|
    ensures var j := i + Changed(prev, cur, i);
            NoneSame(prev, cur, i, j) && (j == |cur| || prev[j] == cur[j])
    decreases |cur| - i
  {
    if i < |cur| && prev[i] != cur[i] {
      ChangedEnds(prev, cur, i + 1);
    }
  }

  lemma AllSameMore(s: seq<Byte>, t: seq<Byte>, i: nat, j: nat, k: nat)
    requires i <= j <= k <= |s| && k <= |t| && AllSame(s, t, i, j) && AllSame(s, t, j, k)
    ensures AllSame(s, t, i, k)
  {}

  lemma NoneSameMore(s: seq<Byte>, t: seq<Byte>, i: nat, j: nat, k: nat)
    requires i <= j <= k <= |s| && k <= |t| && NoneSame(s, t, i, j) && NoneSame(s, t, j, k)
    ensures NoneSame(s, t, i, k)
  {}

  /** Bytes that are the same or, with `same` false, differ, one at a time up to `limit`. */
  method ScanBytes(prev: seq<Byte>, cur: seq<Byte>, i: nat, limit: nat, same: bool) returns (j: nat)
    requires i <= limit <= |cur| == |prev|
    ensures i <= j <= limit && (j < limit ==> (SameByte(prev, cur, j) <==> !same))
    ensures if same then AllSame(prev, cur, i, j) else NoneSame(prev, cur, i, j)
  {
    j := i;
    while j < limit && SameByte(prev, cur, j) == same
      invariant i <= j <= limit
      invariant if same then AllSame(prev, cur, i, j) else NoneSame(prev, cur, i, j)
    {
      j := j + 1;
    }
  }

  /** Whole words that are the same. */
  method ScanSameWords(prev: seq<Byte>, cur: seq<Byte>, i: nat) returns (j: nat)
    requires |prev| == |cur| && i <= |cur| && (|cur| - i) % 8 == 0
    ensures i <= j <= |cur| && AllSame(prev, cur, i, j)
  {
    hide SameWord;
    j := i;
    while j < |cur| && SameWord(prev, cur, j)
      invariant i <= j <= |cur| && (|cur| - j) % 8 == 0
      invariant AllSame(prev, cur, i, j)
    {
      WordsEqual(prev, cur, j);
      AllSameMore(prev, cur, i, j, j + 8);
      j := j + 8;
    }
  }

  /** Whole words without an unchanged byte; stops before the first word that has one. */
  method ScanOtherWords(prev: seq<Byte>, cur: seq<Byte>, i: nat) returns (j: nat)
    requires |prev| == |cur| && i <= |cur| && (|cur| - i) % 8 == 0
    ensures i <= j <= |cur| && NoneSame(prev, cur, i, j)
    ensures j == |cur| || (j + 8 <= |cur| && !NoneSame(prev, cur, j, j + 8))
  {
    hide MeetWord, NoneSame;
    j := i;
    NoneSameNone(prev, cur, i);
    while j < |cur|
      invariant i <= j <= |cur| && (|cur| - j) % 8 == 0
      invariant NoneSame(prev, cur, i, j)
    {
      WordsMeet(prev, cur, j);
      if MeetWord(prev, cur, j) { break; }
      NoneSameMore(prev, cur, i, j, j + 8);
      j := j + 8;
    }
  }

  lemma NoneSameNone(s: seq<Byte>, t: seq<Byte>, i: nat)
    requires i <= |s| && i <= |t|
    ensures NoneSame(s, t, i, i)
  {}

  /** The scan for the end of an unchanged run: single bytes up to a word boundary, whole words,
      single bytes again. */
  method ScanUnchanged(prev: seq<Byte>, cur: seq<Byte>, i: nat) returns (j: nat)
    requires |prev| == |cur| && |cur| % 8 == 0 && i <= |cur|
    ensures j == i + Unchanged(prev, cur, i)
  {
    hide AllSame, Unchanged;
    var edge := i + (|cur| - i) % 8;
    j := ScanBytes(prev, cur, i, edge, true);
    if j == edge {
      ghost var k := j;
      j := ScanSameWords(prev, cur, j);
      AllSameMore(prev, cur, i, k, j);
      k := j;
      j := ScanBytes(prev, cur, j, |cur|, true);
      AllSameMore(prev, cur, i, k, j);
    }
    UnchangedIs(prev, cur, i, j);
  }

  /** The scan for the end of a changed run; a word that holds an unchanged byte ends it. */
  method ScanChanged(prev: seq<Byte>, cur: seq<Byte>, i: nat) returns (j: nat)
    requires |prev| == |cur| && |cur| % 8 == 0 && i <= |cur|
    ensures j == i + Changed(prev, cur, i)
  {
    hide NoneSame, Changed;
    var edge := i + (|cur| - i) % 8;
    j := ScanBytes(prev, cur, i, edge, false);
    if j == edge {
      ghost var k := j;
      j := ScanOtherWords(prev, cur, j);
      NoneSameMore(prev, cur, i, k, j);
      if j < |cur| {
        k := j;
        j := ScanBytes(prev, cur, j, j + 8, false);
        NoneSameMore(prev, cur, i, k, j);
      }
    }
    ChangedIs(prev, cur, i, j);
  }

  // ------------------------------------------------------------------------------------ lengths

  /** A length of at most 14 bits in ULEB128. */
  function Uleb(n: nat): (r: seq<Byte>)
    requires n <= 0x3fff
    ensures |r| == if n < 0x80 then 1 else 2
  {
    if n < 0x80 then [Octet(n)] else [Octet(n % 0x80 + 0x80), Octet(n / 0x80)]
  }

  /** The length at `i` and the number of bytes it takes. */
  function UlebAt(s: seq<Byte>, i: nat): Option<(nat, nat)>
    requires i + 2 <= |s|
  {
    if Int(s[i]) < 0x80 then Some((Int(s[i]), 1))
    else if Int(s[i + 1]) >= 0x80 then None
    else Some((Int(s[i]) - 0x80 + Int(s[i + 1]) * 0x80, 2))
  }

  /** The number that little-endian groups of seven bits stand for. */
  function LebValue(s: seq<Byte>): nat {
    if s == [] then 0 else Int(s[0]) % 128 + 128 * LebValue(s[1..])
  }

  /** `s` is a LEB128 number: all its bytes but the last have the top bit set. */
  ghost predicate Leb128(s: seq<Byte>, n: nat) {
    && s != [] && LebValue(s) == n && Int(s[|s| - 1]) < 128
    && forall k :: 0 <= k < |s| - 1 ==> Int(s[k]) >= 128
  }

  lemma LebOne(a: Byte)
    ensures Leb128([a], Int(a)) <==> Int(a) < 128
    ensures forall n :: Leb128([a], n) ==> n == Int(a)
    ensures LebValue([a]) == Int(a) % 128
  {
    hide Int;
    var s := [a];
    assert s[1..] == [];
    assert LebValue(s) == Int(s[0]) % 128 + 128 * LebValue(s[1..]);
  }

  lemma LebTwo(a: Byte, b: Byte, n: nat)
    ensures Leb128([a, b], n) <==> Int(a) >= 128 > Int(b) && n == Int(a) - 128 + 128 * Int(b)
  {
    hide Int;
    var s := [a, b];
    assert s[1..] == [b];
    LebOne(b);
    assert LebValue(s) == Int(a) % 128 + 128 * LebValue([b]);
  }

  /** Lengths are written as LEB128 numbers of one or two bytes. */
  lemma UlebIsLeb128(n: nat)
    requires n <= 0x3fff
    ensures Leb128(Uleb(n), n)
  {
    hide Octet, Int, Leb128;
    if n < 0x80 {
      IntOfOctet(n);
      LebOne(Octet(n));
    } else {
      IntOfOctet(n % 0x80 + 0x80);
      IntOfOctet(n / 0x80);
      LebTwo(Octet(n % 0x80 + 0x80), Octet(n / 0x80), n);
    }
  }

  /** They are read as such, and anything longer is refused. */
  lemma UlebAtExactly(s: seq<Byte>, i: nat, n: nat, k: nat)
    requires i + 2 <= |s|
    ensures UlebAt(s, i) == Some((n, k)) <==> 1 <= k <= 2 && Leb128(s[i..i + k], n)
  {
    hide Int, Leb128;
    assert s[i..i + 1] == [s[i]] && s[i..i + 2] == [s[i], s[i + 1]];
    LebOne(s[i]);
    LebTwo(s[i], s[i + 1], n);
  }

  lemma UlebInverse(s: seq<Byte>, i: nat, n: nat)
    requires n <= 0x3fff && i + 2 <= |s| && i + |Uleb(n)| <= |s|
    requires s[i..i + |Uleb(n)|] == Uleb(n)
    ensures UlebAt(s, i) == Some((n, |Uleb(n)|))
  {
    assert s[i] == s[i..i + |Uleb(n)|][0];
    hide Octet;
    if n >= 0x80 {
      assert s[i + 1] == s[i..i + |Uleb(n)|][1];
    }
  }

  // ---------------------------------------------------------------------- encoding and decoding

  /** One unchanged run of length `z` and the changed run of length `n` after it, from `i`. */
  function Chunk(cur: seq<Byte>, i: nat, z: nat, n: nat): (r: seq<Byte>)
    requires i + z + n <= |cur| <= 0x3fff
    ensures |r| == |Uleb(z)| + |Uleb(n)| + n
  {
    Uleb(z) + Uleb(n) + cur[i + z..i + z + n]
  }

  /** A chunk is the length of the unchanged run, the length of the changed run, and its bytes. */
  lemma ChunkFormat(cur: seq<Byte>, i: nat, z: nat, n: nat)
    requires i + z + n <= |cur| <= 0x3fff
    ensures var c, a := Chunk(cur, i, z, n), |Uleb(z)|;
            var b := a + |Uleb(n)|;
            Leb128(c[..a], z) && Leb128(c[a..b], n) && c[b..] == cur[i + z..i + z + n]
  {
    hide Uleb, Leb128;
    UlebIsLeb128(z);
    UlebIsLeb128(n);
    var c, a := Chunk(cur, i, z, n), |Uleb(z)|;
    assert c[..a] == Uleb(z) && c[a..a + |Uleb(n)|] == Uleb(n);
  }

  /** The encoding of the page from `i` on: chunks, and nothing for a last unchanged run. */
  function Enc(prev: seq<Byte>, cur: seq<Byte>, i: nat): seq<Byte>
    requires |prev| == |cur| <= 0x3fff && i <= |cur|
    decreases |cur| - i
  {
    var z := Unchanged(prev, cur, i);
    if i + z == |cur| then []
    else
      var n := Changed(prev, cur, i + z);
      UnchangedEnds(prev, cur, i);
      Chunk(cur, i, z, n) + Enc(prev, cur, i + z + n)
  }

  /** Where the decoder stands: how much it has read, the page so far and how much of it is settled. */
  datatype Cursor = Cursor(i: nat, page: seq<Byte>, d: nat)

  /** The page with the given bytes from `d` on. */
  function Patched(page: seq<Byte>, d: nat, bytes: seq<Byte>): (r: seq<Byte>)
    requires d + |bytes| <= |page|
    ensures |r| == |page|
  {
    page[..d] + bytes + page[d + |bytes|..]
  }

  /** The decoder's treatment of one chunk. */
  function DecStep(src: seq<Byte>, c: Cursor): (r: Option<Cursor>)
    requires c.i < |src|
    ensures r.Some? ==> c.i < r.value.i <= |src| && |r.value.page| == |c.page|
  {
    if |src| - c.i < 2 then None
    else match UlebAt(src, c.i)
      case None => None
      case Some(zr) =>
        var i, d := c.i + zr.1, c.d + zr.0;
        if (c.i > 0 && zr.0 == 0) || d > |c.page| || |src| - i < 2 then None
        else match UlebAt(src, i)
          case None => None
          case Some(nz) =>
            var j := i + nz.1;
            if nz.0 == 0 || d + nz.0 > |c.page| || j + nz.0 > |src| then None
            else Some(Cursor(j + nz.0, Patched(c.page, d, src[j..j + nz.0]), d + nz.0))
  }

  /** The whole decoder: the page it leaves, or failure. */
  function Dec(src: seq<Byte>, c: Cursor): Option<seq<Byte>>
    decreases |src| - c.i
  {
    if c.i >= |src| then Some(c.page)
    else match DecStep(src, c)
      case None => None
      case Some(next) => Dec(src, next)
  }

  function Decode(src: seq<Byte>, page: seq<Byte>): Option<seq<Byte>> {
    Dec(src, Cursor(0, page, 0))
  }

  /** The two lengths and the bytes of a chunk, where it lies in a stream. */
  lemma ChunkParts(src: seq<Byte>, i: nat, cur: seq<Byte>, from: nat, z: nat, n: nat)
    requires from + z + n <= |cur| <= 0x3fff && i + |Chunk(cur, from, z, n)| <= |src| && n > 0
    requires src[i..i + |Chunk(cur, from, z, n)|] == Chunk(cur, from, z, n)
    ensures i + 2 <= |src| && UlebAt(src, i) == Some((z, |Uleb(z)|))
    ensures var j := i + |Uleb(z)|;
            && j + 2 <= |src| && UlebAt(src, j) == Some((n, |Uleb(n)|))
            && j + |Uleb(n)| + n <= |src| && src[j + |Uleb(n)|..j + |Uleb(n)| + n] == cur[from + z..from + z + n]
  {
    hide Uleb, UlebAt;
    var at, chunk := from + z, Chunk(cur, from, z, n);
    var first, second := |Uleb(z)|, |Uleb(n)|;
    assert chunk[..first] == Uleb(z) && chunk[first..first + second] == Uleb(n);
    assert chunk[first + second..] == cur[at..at + n];
    SliceOf(src, i, |chunk|, 0, first);
    SliceOf(src, i, |chunk|, first, first + second);
    SliceOf(src, i, |chunk|, first + second, |chunk|);
    UlebInverse(src, i, z);
    UlebInverse(src, i + first, n);
  }

  /** The decoder undoes one chunk. */
  lemma StepUndoesChunk(src: seq<Byte>, c: Cursor, cur: seq<Byte>, z: nat, n: nat)
    requires c.d + z + n <= |cur| == |c.page| <= 0x3fff && n > 0
    requires c.i + |Chunk(cur, c.d, z, n)| <= |src|
    requires src[c.i..c.i + |Chunk(cur, c.d, z, n)|] == Chunk(cur, c.d, z, n)
    requires c.i == 0 || z > 0
    ensures var at := c.d + z;
            DecStep(src, c) == Some(Cursor(c.i + |Chunk(cur, c.d, z, n)|, Patched(c.page, at, cur[at..at + n]), at + n))
  {
    hide Uleb, UlebAt, Chunk, Patched;
    ChunkParts(src, c.i, cur, c.d, z, n);
  }

  lemma SliceOf(src: seq<Byte>, i: nat, len: nat, a: nat, b: nat)
    requires i + len <= |src| && a <= b <= len
    ensures src[i + a..i + b] == src[i..i + len][a..b]
  {
    var x, y := src[i + a..i + b], src[i..i + len][a..b];
    forall k | 0 <= k < |x| ensures x[k] == y[k] {}
  }

  /** `page` is `base` with the bytes that changed from `prev` to `cur`, as far as `d`. */
  ghost predicate Overlays(prev: seq<Byte>, cur: seq<Byte>, base: seq<Byte>, page: seq<Byte>, d: nat) {
    && |prev| == |cur| == |base| == |page|
    && forall k :: 0 <= k < |cur| ==> page[k] == if k < d && prev[k] != cur[k] then cur[k] else base[k]
  }

  /** The state of the decoder after the part of a page before `c.d` has been settled. */
  ghost predicate Midway(prev: seq<Byte>, cur: seq<Byte>, base: seq<Byte>, c: Cursor) {
    && |cur| <= 0x3fff && c.d <= |cur| && Overlays(prev, cur, base, c.page, c.d)
    && (c.i == 0 || c.d == |cur| || SameByte(prev, cur, c.d))
  }

  /** Where the decoder is after a chunk of `z` unchanged and `n` changed bytes. */
  function Further(cur: seq<Byte>, c: Cursor, z: nat, n: nat): Cursor
    requires c.d + z + n <= |cur| == |c.page| <= 0x3fff
  {
    Cursor(c.i + |Chunk(cur, c.d, z, n)|, Patched(c.page, c.d + z, cur[c.d + z..c.d + z + n]), c.d + z + n)
  }

  /** A chunk settles another part of the page. */
  lemma FurtherMidway(prev: seq<Byte>, cur: seq<Byte>, base: seq<Byte>, c: Cursor, z: nat, n: nat)
    requires Midway(prev, cur, base, c) && c.d + z + n <= |cur| == |prev| == |c.page|
    requires AllSame(prev, cur, c.d, c.d + z) && NoneSame(prev, cur, c.d + z, c.d + z + n)
    requires c.d + z + n < |cur| ==> SameByte(prev, cur, c.d + z + n)
    ensures Midway(prev, cur, base, Further(cur, c, z, n))
  {
    hide AllSame, NoneSame, Overlays, Patched, Chunk, SameByte;
    OverlayNext(prev, cur, base, c.page, c.d, c.d + z, n);
  }

  lemma DecFurther(src: seq<Byte>, c: Cursor, cur: seq<Byte>, z: nat, n: nat)
    requires c.d + z + n <= |cur| == |c.page| <= 0x3fff && n > 0 && (c.i == 0 || z > 0)
    requires 0 < |Chunk(cur, c.d, z, n)| <= |src| - c.i
    requires src[c.i..c.i + |Chunk(cur, c.d, z, n)|] == Chunk(cur, c.d, z, n)
    ensures Dec(src, c) == Dec(src, Further(cur, c, z, n))
  {
    hide DecStep, Dec, Chunk, Patched;
    StepUndoesChunk(src, c, cur, z, n);
    DecNext(src, c, Further(cur, c, z, n));
  }

  /** The decoder undoes the next chunk of an encoding. */
  lemma DecUndoesChunk(prev: seq<Byte>, cur: seq<Byte>, base: seq<Byte>, read: seq<Byte>, c: Cursor)
    returns (chunk: seq<Byte>, next: Cursor)
    requires Midway(prev, cur, base, c) && c.i == |read| && c.d + Unchanged(prev, cur, c.d) < |cur|
    ensures Midway(prev, cur, base, next) && c.d < next.d && next.i == |read| + |chunk|
    ensures Enc(prev, cur, c.d) == chunk + Enc(prev, cur, next.d)
    ensures Dec(read + Enc(prev, cur, c.d), c) == Dec(read + Enc(prev, cur, c.d), next)
  {
    hide Unchanged, Changed, Chunk, AllSame, NoneSame, Enc, Dec, Overlays, Patched, SameByte;
    OverlaySizes(prev, cur, base, c.page, c.d);
    var z, n := NextRuns(prev, cur, c.d);
    next, chunk := Further(cur, c, z, n), Chunk(cur, c.d, z, n);
    FurtherMidway(prev, cur, base, c, z, n);
    EncUnfold(prev, cur, c.d);
    Split(read, chunk, Enc(prev, cur, next.d));
    ChunkSome(cur, c.d, z, n);
    DecFurther(read + Enc(prev, cur, c.d), c, cur, z, n);
  }

  lemma ChunkSome(cur: seq<Byte>, from: nat, z: nat, n: nat)
    requires from + z + n <= |cur| <= 0x3fff && n > 0
    ensures |Chunk(cur, from, z, n)| > 0
  {
    hide Uleb;
  }

  /** The runs of the next chunk: `z` unchanged bytes and then `n` changed ones. */
  lemma NextRuns(prev: seq<Byte>, cur: seq<Byte>, d: nat) returns (z: nat, n: nat)
    requires |prev| == |cur| && d <= |cur| && d + Unchanged(prev, cur, d) < |cur|
    ensures z == Unchanged(prev, cur, d) && n == Changed(prev, cur, d + z) && n > 0 && d + z + n <= |cur|
    ensures AllSame(prev, cur, d, d + z) && NoneSame(prev, cur, d + z, d + z + n)
    ensures SameByte(prev, cur, d) ==> z > 0
    ensures d + z + n < |cur| ==> SameByte(prev, cur, d + z + n)
  {
    hide Unchanged, Changed, AllSame, NoneSame;
    z := Unchanged(prev, cur, d);
    UnchangedEnds(prev, cur, d);
    n := Changed(prev, cur, d + z);
    ChangedEnds(prev, cur, d + z);
    ChangedSome(prev, cur, d + z);
    UnchangedSome(prev, cur, d);
  }

  /** The decoder undoes the rest of an encoding. */
  lemma {:induction false} DecUndoesEnc(prev: seq<Byte>, cur: seq<Byte>, base: seq<Byte>, read: seq<Byte>, c: Cursor)
    requires Midway(prev, cur, base, c) && c.i == |read|
    ensures var r := Dec(read + Enc(prev, cur, c.d), c);
            r.Some? && Overlays(prev, cur, base, r.value, |cur|)
    decreases |cur| - c.d
  {
    hide DecStep, Unchanged, Changed, Chunk, AllSame, NoneSame, Enc, Dec, Overlays;
    OverlaySizes(prev, cur, base, c.page, c.d);
    if c.d + Unchanged(prev, cur, c.d) == |cur| {
      EncUnfold(prev, cur, c.d);
      UnchangedEnds(prev, cur, c.d);
      OverlayDone(prev, cur, base, c.page, c.d);
      DecDone(read + Enc(prev, cur, c.d), c);
    } else {
      var chunk, next := DecUndoesChunk(prev, cur, base, read, c);
      Split(read, chunk, Enc(prev, cur, next.d));
      DecUndoesEnc(prev, cur, base, read + chunk, next);
    }
  }

  lemma EncUnfold(prev: seq<Byte>, cur: seq<Byte>, i: nat)
    requires |prev| == |cur| <= 0x3fff && i <= |cur|
    ensures var z := Unchanged(prev, cur, i);
            if i + z == |cur| then Enc(prev, cur, i) == []
            else
              var n := Changed(prev, cur, i + z);
              Enc(prev, cur, i) == Chunk(cur, i, z, n) + Enc(prev, cur, i + z + n)
  {
    hide Unchanged, Changed, Chunk, Uleb, AllSame;
  }

  lemma DecDone(src: seq<Byte>, c: Cursor)
    requires c.i >= |src|
    ensures Dec(src, c) == Some(c.page)
  {}

  lemma DecNext(src: seq<Byte>, c: Cursor, next: Cursor)
    requires c.i < |src| && DecStep(src, c) == Some(next)
    ensures Dec(src, c) == Dec(src, next)
  {}

  lemma Split(read: seq<Byte>, chunk: seq<Byte>, rest: seq<Byte>)
    ensures read + (chunk + rest) == read + chunk + rest
    ensures (read + (chunk + rest))[|read|..|read| + |chunk|] == chunk
  {}

  lemma OverlaySizes(prev: seq<Byte>, cur: seq<Byte>, base: seq<Byte>, page: seq<Byte>, d: nat)
    requires Overlays(prev, cur, base, page, d)
    ensures |prev| == |cur| == |base| == |page|
  {}

  lemma OverlayDone(prev: seq<Byte>, cur: seq<Byte>, base: seq<Byte>, page: seq<Byte>, d: nat)
    requires Overlays(prev, cur, base, page, d) && d <= |cur| && AllSame(prev, cur, d, |cur|)
    ensures Overlays(prev, cur, base, page, |cur|)
  {}

  lemma OverlayNext(prev: seq<Byte>, cur: seq<Byte>, base: seq<Byte>, page: seq<Byte>, d: nat, at: nat, n: nat)
    requires Overlays(prev, cur, base, page, d) && d <= at && at + n <= |cur|
    requires AllSame(prev, cur, d, at) && NoneSame(prev, cur, at, at + n)
    ensures |page| == |cur| && Overlays(prev, cur, base, Patched(page, at, cur[at..at + n]), at + n)
  {}

  lemma ChangedSome(prev: seq<Byte>, cur: seq<Byte>, i: nat)
    requires |prev| == |cur| && i < |cur| && prev[i] != cur[i]
    ensures Changed(prev, cur, i) > 0
  {}

  lemma UnchangedSome(prev: seq<Byte>, cur: seq<Byte>, i: nat)
    requires |prev| == |cur| && i < |cur|
    ensures prev[i] == cur[i] ==> Unchanged(prev, cur, i) > 0
  {}

  /** Decoding an encoding on top of any page puts exactly the changed bytes on it. */
  lemma DecodeOver(prev: seq<Byte>, cur: seq<Byte>, base: seq<Byte>)
    requires |prev| == |cur| == |base| <= 0x3fff
    ensures var r := Decode(Enc(prev, cur, 0), base);
            r.Some? && |r.value| == |base| && Overlays(prev, cur, base, r.value, |cur|)
  {
    hide Enc, Dec;
    DecUndoesEnc(prev, cur, base, [], Cursor(0, base, 0));
    assert [] + Enc(prev, cur, 0) == Enc(prev, cur, 0);
  }

  /** Wherever the page did not change from `prev` to `cur`, `base` already has it. */
  predicate Agrees(prev: seq<Byte>, cur: seq<Byte>, base: seq<Byte>)
    requires |prev| == |cur| == |base|
  {
    forall k :: 0 <= k < |cur| && prev[k] == cur[k] ==> base[k] == cur[k]
  }

  /** A delta gives the page exactly on the pages that agree with it where nothing changed. */
  lemma DeltaExactly(prev: seq<Byte>, cur: seq<Byte>, base: seq<Byte>)
    requires |prev| == |cur| == |base| <= 0x3fff
    ensures Decode(Enc(prev, cur, 0), base) == Some(cur) <==> Agrees(prev, cur, base)
  {
    hide Enc, Decode;
    DecodeOver(prev, cur, base);
    var r := Decode(Enc(prev, cur, 0), base);
    if Agrees(prev, cur, base) {
      assert r.value == cur;
    }
  }

  /** Decoding an encoded page on top of the older copy gives the page. */
  lemma RoundTrip(prev: seq<Byte>, cur: seq<Byte>)
    requires |prev| == |cur| <= 0x3fff
    ensures Decode(Enc(prev, cur, 0), prev) == Some(cur)
  {
    hide Enc, Decode;
    DeltaExactly(prev, cur, prev);
  }

  /** Nothing is encoded exactly when nothing has changed. */
  lemma EmptyMeansSame(prev: seq<Byte>, cur: seq<Byte>)
    requires |prev| == |cur| <= 0x3fff
    ensures Enc(prev, cur, 0) == [] <==> prev == cur
  {
    RoundTrip(prev, cur);
    if prev == cur {
      UnchangedIs(prev, cur, 0, |cur|);
    }
  }

  // ------------------------------------------------------------------------------------ methods

  /** The encoding fits a buffer of `room` bytes.  The encoder asks for two spare bytes before every
      unchanged run, also before a last one that it does not write. */
  predicate Fits(prev: seq<Byte>, cur: seq<Byte>, room: nat)
    requires |prev| == |cur| <= 0x3fff
  {
    cur == [] ||
    |Enc(prev, cur, 0)| + (if prev[|cur| - 1] == cur[|cur| - 1] then 2 else 0) <= room
  }

  /** `done` encodes the page before `i`, where a changed run has just ended. */
  ghost predicate Encoded(prev: seq<Byte>, cur: seq<Byte>, i: nat, done: seq<Byte>) {
    && |prev| == |cur| <= 0x3fff && i <= |cur| && done + Enc(prev, cur, i) == Enc(prev, cur, 0)
    && (i > 0 ==> prev[i - 1] != cur[i - 1])
  }

  lemma EncodedNone(prev: seq<Byte>, cur: seq<Byte>)
    requires |prev| == |cur| <= 0x3fff
    ensures Encoded(prev, cur, 0, [])
  {
    assert [] + Enc(prev, cur, 0) == Enc(prev, cur, 0);
  }

  /** Less than two bytes of room before the end of the page are too few. */
  lemma NoRoom(prev: seq<Byte>, cur: seq<Byte>, i: nat, done: seq<Byte>, room: nat)
    requires Encoded(prev, cur, i, done) && i < |cur| && |done| + 2 > room
    ensures !Fits(prev, cur, room)
  {
    hide Enc, Unchanged, Changed, Chunk;
    var z := Unchanged(prev, cur, i);
    UnchangedEnds(prev, cur, i);
    EncUnfold(prev, cur, i);
    if i + z < |cur| {
      ChangedSome(prev, cur, i + z);
    }
    assert |done + Enc(prev, cur, i)| == |done| + |Enc(prev, cur, i)|;
  }

  /** The next chunk of an encoding, from `i` over `j` to `k`. */
  ghost predicate NextChunk(prev: seq<Byte>, cur: seq<Byte>, i: nat, j: nat, k: nat) {
    && |prev| == |cur| <= 0x3fff && i <= j < k <= |cur| && prev[k - 1] != cur[k - 1]
    && j == i + Unchanged(prev, cur, i) && k == j + Changed(prev, cur, j)
  }

  lemma EncOfChunk(prev: seq<Byte>, cur: seq<Byte>, i: nat, j: nat, k: nat)
    requires NextChunk(prev, cur, i, j, k)
    ensures Enc(prev, cur, i) == Chunk(cur, i, j - i, k - j) + Enc(prev, cur, k)
  {
    hide Enc, Unchanged, Changed, Chunk;
    EncUnfold(prev, cur, i);
  }

  lemma ChunkEncodes(prev: seq<Byte>, cur: seq<Byte>, i: nat, j: nat, k: nat, done: seq<Byte>, room: nat)
    requires Encoded(prev, cur, i, done) && NextChunk(prev, cur, i, j, k)
    ensures |done| + |Chunk(cur, i, j - i, k - j)| > room ==> !Fits(prev, cur, room)
    ensures Encoded(prev, cur, k, done + Chunk(cur, i, j - i, k - j))
  {
    hide Enc, Unchanged, Changed, Chunk;
    EncOfChunk(prev, cur, i, j, k);
    Split(done, Chunk(cur, i, j - i, k - j), Enc(prev, cur, k));
  }

  /** Nothing is left to encode: the page ends here, or in an unchanged run that had room. */
  lemma EncodedAll(prev: seq<Byte>, cur: seq<Byte>, i: nat, done: seq<Byte>, room: nat)
    requires Encoded(prev, cur, i, done) && |done| <= room && i + Unchanged(prev, cur, i) == |cur|
    requires i < |cur| ==> |done| + 2 <= room
    ensures Fits(prev, cur, room) && done == Enc(prev, cur, 0) && (i == 0 ==> done == [])
  {
    hide Enc, Unchanged;
    EncUnfold(prev, cur, i);
    UnchangedEnds(prev, cur, i);
    assert done + [] == done;
  }

  lemma UnchangedAtEnd(prev: seq<Byte>, cur: seq<Byte>)
    requires |prev| == |cur|
    ensures Unchanged(prev, cur, |cur|) == 0
  {}

  /** xbzrle_encode_buffer: the length of the encoding, or -1 when it runs out of room. */
  method EncodeBuffer(prev: seq<Byte>, cur: seq<Byte>, dst: array<Byte>) returns (r: int)
    requires |prev| == |cur| <= 0x3fff && |cur| % 8 == 0
    modifies dst
    ensures r == -1 <==> !Fits(prev, cur, dst.Length)
    ensures r != -1 ==> 0 <= r <= dst.Length && dst[..r] == Enc(prev, cur, 0)
  {
    hide Unchanged, Changed, Chunk, Enc, AllSame, NoneSame, Fits, Encoded, NextChunk;
    var d, i := 0, 0;
    EncodedNone(prev, cur);
    assert dst[..d] == [];
    while i < |cur|
      invariant 0 <= i <= |cur| && 0 <= d <= dst.Length
      invariant Encoded(prev, cur, i, dst[..d])
      decreases |cur| - i
    {
      ghost var done := dst[..d];
      if d + 2 > dst.Length {
        NoRoom(prev, cur, i, done, dst.Length);
        return -1;
      }
      var j := ScanUnchanged(prev, cur, i);
      if j == |cur| {
        EncodedAll(prev, cur, i, done, dst.Length);
        return if j - i == |cur| then 0 else d;
      }
      var e, k := EncodeRun(prev, cur, dst, d, i, j);
      ChunkEncodes(prev, cur, i, j, k, done, dst.Length);
      if e == -1 { return -1; }
      d, i := e, k;
    }
    UnchangedAtEnd(prev, cur);
    EncodedAll(prev, cur, i, dst[..d], dst.Length);
    return d;
  }

  /** One turn of the encoder, after the unchanged run from `i` to `j`. */
  method EncodeRun(prev: seq<Byte>, cur: seq<Byte>, dst: array<Byte>, d: nat, i: nat, j: nat)
    returns (e: int, k: nat)
    requires |prev| == |cur| <= 0x3fff && |cur| % 8 == 0 && i <= j < |cur| && d + 2 <= dst.Length
    requires j == i + Unchanged(prev, cur, i)
    modifies dst
    ensures j < k <= |cur| && NextChunk(prev, cur, i, j, k)
    ensures e == -1 || (d < e <= dst.Length && dst[..e] == old(dst[..d]) + Chunk(cur, i, j - i, k - j))
    ensures e == -1 ==> d + |Chunk(cur, i, j - i, k - j)| > dst.Length
  {
    hide Unchanged, Changed, Uleb;
    ghost var was := dst[..d];
    UnchangedEnds(prev, cur, i);
    ChangedSome(prev, cur, j);
    ChangedEnds(prev, cur, j);
    var length := Uleb(j - i);
    Put(dst, d, length);
    k := ScanChanged(prev, cur, j);
    if d + |length| + 2 > dst.Length { return -1, k; }
    ghost var first := length;
    var at := d + |length|;
    length := Uleb(k - j);
    Put(dst, at, length);
    at := at + |length|;
    assert dst[..at] == was + (first + length);
    if at + (k - j) > dst.Length { return -1, k; }
    Put(dst, at, cur[j..k]);
    e := at + (k - j);
    assert dst[..e] == was + (first + length + cur[j..k]);
  }

  /** Copies bytes into a buffer. */
  method Put(dst: array<Byte>, d: nat, data: seq<Byte>)
    requires d + |data| <= dst.Length
    modifies dst
    ensures dst[..d + |data|] == old(dst[..d]) + data
  {
    var i := 0;
    while i < |data|
      invariant 0 <= i <= |data|
      invariant dst[..d + i] == old(dst[..d]) + data[..i]
    {
      dst[d + i] := data[i];
      i := i + 1;
    }
  }

  /** xbzrle_decode_buffer, in place on a page. */
  method DecodeBuffer(src: seq<Byte>, page: array<Byte>) returns (ok: bool)
    modifies page
    ensures ok <==> Decode(src, old(page[..])).Some?
    ensures ok ==> page[..] == Decode(src, old(page[..])).value
  {
    hide DecStep;
    var i: nat, d: nat := 0, 0;
    while i < |src|
      invariant i <= |src|
      invariant Dec(src, Cursor(i, page[..], d)) == Decode(src, old(page[..]))
      decreases |src| - i
    {
      ok, i, d := DecodeChunk(src, page, i, d);
      if !ok { return; }
    }
    return true;
  }

  /** One turn of the decoder. */
  method DecodeChunk(src: seq<Byte>, page: array<Byte>, i0: nat, d0: nat) returns (ok: bool, i: nat, d: nat)
    requires i0 < |src|
    modifies page
    ensures ok ==> DecStep(src, Cursor(i0, old(page[..]), d0)) == Some(Cursor(i, page[..], d))
    ensures !ok ==> DecStep(src, Cursor(i0, old(page[..]), d0)) == None
  {
    hide UlebAt;
    ok, i, d := false, i0, d0;
    if |src| - i < 2 { return; }
    var zr := UlebAt(src, i);
    if zr.None? || (i > 0 && zr.value.0 == 0) { return; }
    i := i + zr.value.1;
    d := d + zr.value.0;
    if d > page.Length || |src| - i < 2 { return; }
    var nz := UlebAt(src, i);
    if nz.None? || nz.value.0 == 0 { return; }
    i := i + nz.value.1;
    if d + nz.value.0 > page.Length || i + nz.value.0 > |src| { return; }
    PutAt(page, d, src[i..i + nz.value.0]);
    d := d + nz.value.0;
    i := i + nz.value.0;
    ok := true;
  }

  /** Copies bytes into the middle of a page. */
  method PutAt(page: array<Byte>, d: nat, data: seq<Byte>)
    requires d + |data| <= page.Length
    modifies page
    ensures page[..] == old(page[..d]) + data + old(page[d + |data|..])
  {
    var i := 0;
    while i < |data|
      invariant 0 <= i <= |data|
      invariant forall k :: 0 <= k < i ==> page[d + k] == data[k]
      invariant forall k :: 0 <= k < page.Length && !(d <= k < d + i) ==> page[k] == old(page[k])
    {
      page[d + i] := data[i];
      i := i + 1;
    }
  }
}
