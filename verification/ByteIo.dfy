/**
 * Byte-granular I/O on top of sector I/O (block.c): `bdrv_pread` and `bdrv_pwritev` read or
 * read-modify-write the partial sectors at either end and go straight to disk in between.
 */
module ByteIo {
  import opened Bytes

  /** `disk` with `data` written at `offset`. */
  function Splice(disk: seq<Byte>, offset: nat, data: seq<Byte>): (r: seq<Byte>)
    requires offset + |data| <= |disk|
    ensures |r| == |disk|
  {
    disk[..offset] + data + disk[offset + |data|..]
  }

  lemma SpliceAt(disk: seq<Byte>, offset: nat, data: seq<Byte>, x: nat)
    requires offset + |data| <= |disk| && x < |disk|
    ensures Splice(disk, offset, data)[x] == if offset <= x < offset + |data| then data[x - offset] else disk[x]
  {}

  /** Rewriting part of a range that is read and written back is writing just that part. */
  lemma SpliceWithin(disk: seq<Byte>, base: nat, n: nat, at: nat, data: seq<Byte>)
    requires base + n <= |disk| && at + |data| <= n
    ensures Splice(disk, base, Splice(disk[base..base + n], at, data)) == Splice(disk, base + at, data)
  {
    var sector := disk[base..base + n];
    forall x | 0 <= x < |disk|
      ensures Splice(disk, base, Splice(sector, at, data))[x] == Splice(disk, base + at, data)[x]
    {
      SpliceAt(disk, base, Splice(sector, at, data), x);
      SpliceAt(disk, base + at, data, x);
      if base <= x < base + n { SpliceAt(sector, at, data, x - base); }
    }
  }

  /** Two adjacent writes are one. */
  lemma SpliceSplice(disk: seq<Byte>, offset: nat, a: seq<Byte>, b: seq<Byte>)
    requires offset + |a| + |b| <= |disk|
    ensures Splice(Splice(disk, offset, a), offset + |a|, b) == Splice(disk, offset, a + b)
  {
    var mid := Splice(disk, offset, a);
    forall x | 0 <= x < |disk|
      ensures Splice(mid, offset + |a|, b)[x] == Splice(disk, offset, a + b)[x]
    {
      SpliceAt(disk, offset, a, x);
      SpliceAt(mid, offset + |a|, b, x);
      SpliceAt(disk, offset, a + b, x);
    }
  }

  /** Bytes outside the sectors that the range from `lo` to `hi` touches are the same. */
  ghost predicate SameOutside(a: seq<Byte>, b: seq<Byte>, lo: nat, hi: nat) {
    |a| == |b| && forall x :: 0 <= x < |a| && (x / 512 < lo / 512 || x >= (hi + 511) / 512 * 512) ==> a[x] == b[x]
  }

  /** Length of the part before the first sector boundary. */
  function HeadLength(offset: nat, count: nat): (len: nat)
    ensures len <= count
  {
    var len := (512 - offset % 512) % 512;
    if len > count then count else len
  }

  /** The head fits in its sector, and what follows it starts on a boundary. */
  lemma HeadLayout(offset: nat, count: nat)
    ensures var len := HeadLength(offset, count);
            && (len > 0 ==> offset % 512 + len <= 512)
            && (len < count ==> offset + len == (offset / 512 + if len > 0 then 1 else 0) * 512)
  {}

  lemma SliceSlice(bytes: seq<Byte>, a: nat, b: nat, c: nat)
    requires a <= b <= c <= |bytes|
    ensures bytes[a..b] + bytes[b..c] == bytes[a..c]
  {}

  lemma SliceOfSlice(bytes: seq<Byte>, lo: nat, hi: nat, a: nat, b: nat)
    requires lo <= hi <= |bytes| && a <= b <= hi - lo
    ensures bytes[lo..hi][a..b] == bytes[lo + a..lo + b]
  {
    forall i | 0 <= i < b - a ensures bytes[lo..hi][a..b][i] == bytes[lo + a..lo + b][i] {
      assert bytes[lo..hi][a + i] == bytes[lo + (a + i)];
    }
  }

  /** The first `done` bytes of `data` have been written at `offset`. */
  ghost predicate Wrote(was: seq<Byte>, now: seq<Byte>, offset: nat, data: seq<Byte>, done: nat) {
    done <= |data| &&
    if done == 0 then now == was else offset + done <= |was| && now == Splice(was, offset, data[..done])
  }

  lemma WroteMore(was: seq<Byte>, mid: seq<Byte>, now: seq<Byte>, offset: nat, data: seq<Byte>, done: nat, n: nat)
    requires Wrote(was, mid, offset, data, done) && done + n <= |data| && offset + done + n <= |mid|
    requires now == Splice(mid, offset + done, data[done..done + n])
    ensures Wrote(was, now, offset, data, done + n)
  {
    assert data[..done] + data[done..done + n] == data[..done + n];
    if done == 0 {
      assert data[0..n] == data[..n];
      if n == 0 { assert now == mid; }
    } else {
      SpliceSplice(was, offset, data[..done], data[done..done + n]);
    }
  }

  /** A write that fails in the sectors from `lo` to `hi` has spoilt nothing outside the range asked for. */
  lemma WroteOutside(was: seq<Byte>, mid: seq<Byte>, now: seq<Byte>, offset: nat, data: seq<Byte>, done: nat,
                     lo: nat, hi: nat)
    requires Wrote(was, mid, offset, data, done) && |now| == |mid|
    requires forall x :: 0 <= x < |mid| && !(lo * 512 <= x < hi * 512) ==> now[x] == mid[x]
    requires offset / 512 <= lo && hi * 512 <= (offset + |data| + 511) / 512 * 512
    ensures SameOutside(was, now, offset, offset + |data|)
  {
    forall x | 0 <= x < |was| && (x / 512 < offset / 512 || x >= (offset + |data| + 511) / 512 * 512)
      ensures was[x] == now[x]
    {
      if done > 0 { SpliceAt(was, offset, data[..done], x); }
    }
  }

  /** The sectors from `lo` up to `hi` are on the disk and none of them is bad. */
  predicate Good(bad: set<nat>, size: nat, lo: nat, hi: nat) {
    hi * 512 <= size && forall x :: lo <= x < hi ==> x !in bad
  }

  lemma GoodJoin(bad: set<nat>, size: nat, lo: nat, mid: nat, hi: nat)
    requires lo <= mid <= hi
    ensures Good(bad, size, lo, hi) <==> Good(bad, size, lo, mid) && Good(bad, size, mid, hi)
  {}

  /** The first sector after the one that holds the byte before `end`. */
  function SectorAfter(end: nat): nat { (end + 511) / 512 }

  /** What must be good for the head and for the rest. */
  lemma HeadGood(bad: set<nat>, size: nat, offset: nat, count: nat)
    requires count > 0
    ensures var len, all := HeadLength(offset, count), SectorAfter(offset + count);
            && (len == count ==> all == offset / 512 + 1)
            && (len > 0 ==> SectorAfter(offset % 512 + len) == 1)
            && (0 < len < count ==> (Good(bad, size, offset / 512, all) <==>
                                       && Good(bad, size, offset / 512, offset / 512 + 1)
                                       && Good(bad, size, offset / 512 + 1, all)))
  {
    hide Good;
    GoodJoin(bad, size, offset / 512, offset / 512 + 1, SectorAfter(offset + count));
  }

  class Disk {
    var bytes: seq<Byte>
    /** The sectors on which I/O fails. */
    const bad: set<nat>

    /** bdrv_read; it fails on a bad sector and past the end of the disk. */
    method ReadSectors(sector: nat, n: nat) returns (ok: bool, buf: seq<Byte>)
      ensures ok <==> Good(bad, |bytes|, sector, sector + n)
      ensures ok ==> sector * 512 + n * 512 <= |bytes| && buf == bytes[sector * 512..sector * 512 + n * 512]
    {
      if !Good(bad, |bytes|, sector, sector + n) {
        return false, [];
      }
      return true, bytes[sector * 512..sector * 512 + n * 512];
    }

    /** bdrv_write; a failed write may leave anything in the sectors concerned. */
    method WriteSectors(sector: nat, buf: seq<Byte>) returns (ok: bool)
      requires |buf| % 512 == 0
      modifies this
      ensures ok <==> Good(bad, old(|bytes|), sector, sector + |buf| / 512)
      ensures ok ==> sector * 512 + |buf| <= old(|bytes|) && bytes == Splice(old(bytes), sector * 512, buf)
      ensures !ok ==> |bytes| == old(|bytes|)
      ensures !ok ==> forall x :: 0 <= x < |bytes| && !(sector * 512 <= x < sector * 512 + |buf|) ==>
                bytes[x] == old(bytes)[x]
    {
      if sector * 512 + |buf| > |bytes| {
        return false;
      }
      if !Good(bad, |bytes|, sector, sector + |buf| / 512) {
        var junk: seq<Byte> :| |junk| == |buf|;
        bytes := Splice(bytes, sector * 512, junk);
        return false;
      }
      bytes := Splice(bytes, sector * 512, buf);
      return true;
    }

    /** Part of a run of sectors, through a temporary buffer. */
    method ReadPart(sector: nat, n: nat, at: nat, len: nat) returns (ok: bool, buf: seq<Byte>)
      requires at + len <= n * 512
      ensures ok <==> Good(bad, |bytes|, sector, sector + n)
      ensures ok ==> sector * 512 + at + len <= |bytes| && buf == bytes[sector * 512 + at..sector * 512 + at + len]
    {
      var tmp;
      ok, tmp := ReadSectors(sector, n);
      if ok {
        buf := tmp[at..at + len];
        SliceOfSlice(bytes, sector * 512, (sector + n) * 512, at, at + len);
      } else {
        buf := [];
      }
    }

    /** The part of bdrv_pread that starts on a sector boundary. */
    method ReadAligned(sector: nat, count: nat) returns (ok: bool, buf: seq<Byte>)
      requires count > 0
      ensures ok <==> Good(bad, |bytes|, sector, SectorAfter(sector * 512 + count))
      ensures ok ==> sector * 512 + count <= |bytes| && buf == bytes[sector * 512..sector * 512 + count]
    {
      hide Good;
      var nb, rest := count / 512, count % 512;
      assert SectorAfter(sector * 512 + count) == sector + nb + if rest == 0 then 0 else 1;
      GoodJoin(bad, |bytes|, sector, sector + nb, SectorAfter(sector * 512 + count));
      ok, buf := true, [];
      // read the sectors in place
      if nb > 0 {
        ok, buf := ReadPart(sector, nb, 0, nb * 512);
        if !ok || rest == 0 { return; }
      }
      // add data from the last sector
      var part;
      ok, part := ReadPart(sector + nb, 1, 0, rest);
      if ok {
        SliceSlice(bytes, sector * 512, sector * 512 + nb * 512, sector * 512 + count);
        buf := buf + part;
      }
    }

    /** bdrv_pread */
    method Pread(offset: nat, count1: nat) returns (ok: bool, buf: seq<Byte>)
      ensures ok <==> count1 == 0 || Good(bad, |bytes|, offset / 512, SectorAfter(offset + count1))
      ensures ok ==> count1 == 0 || offset + count1 <= |bytes|
      ensures ok ==> buf == if count1 == 0 then [] else bytes[offset..offset + count1]
    {
      hide HeadLength, Good, SectorAfter;
      var len := HeadLength(offset, count1);
      HeadLayout(offset, count1);
      var sector := offset / 512;
      ok, buf := true, [];
      if count1 == 0 { return; }
      HeadGood(bad, |bytes|, offset, count1);
      // first read to align to sector start
      if len > 0 {
        ok, buf := ReadPart(sector, 1, offset % 512, len);
        if !ok { return; }
        sector := sector + 1;
      }
      if count1 - len > 0 {
        var part;
        ok, part := ReadAligned(sector, count1 - len);
        if ok {
          SliceSlice(bytes, offset, offset + len, offset + count1);
          buf := buf + part;
        }
      }
    }

    /** One read-modify-write of a single sector. */
    method PatchSector(sector: nat, at: nat, data: seq<Byte>) returns (ok: bool)
      requires at + |data| <= 512
      modifies this
      ensures ok <==> Good(bad, old(|bytes|), sector, sector + 1)
      ensures ok ==> sector * 512 + 512 <= old(|bytes|) && bytes == Splice(old(bytes), sector * 512 + at, data)
      ensures !ok ==> |bytes| == old(|bytes|)
      ensures !ok ==> forall x :: 0 <= x < |bytes| && !(sector * 512 <= x < (sector + 1) * 512) ==>
                bytes[x] == old(bytes)[x]
    {
      var tmp;
      ok, tmp := ReadSectors(sector, 1);
      if !ok { return; }
      SpliceWithin(bytes, sector * 512, 512, at, data);
      ok := WriteSectors(sector, Splice(tmp, at, data));
    }

    /** A write of `data[done..done + n]`, which starts at byte `at` of `sector`, by patching one
        sector or, when it is whole sectors, directly. */
    method WritePart(offset: nat, data: seq<Byte>, done: nat, n: nat, sector: nat, at: nat,
                     ghost was: seq<Byte>) returns (ok: bool)
      requires Wrote(was, bytes, offset, data, done) && 0 < n && done + n <= |data|
      requires sector * 512 + at == offset + done && (at + n <= 512 || (at == 0 && n % 512 == 0))
      modifies this
      ensures |bytes| == old(|bytes|)
      ensures ok <==> Good(bad, |bytes|, sector, sector + SectorAfter(at + n))
      ensures ok ==> Wrote(was, bytes, offset, data, done + n)
      ensures !ok ==> SameOutside(was, bytes, offset, offset + |data|)
    {
      hide Good;
      ghost var mid := bytes;
      if at == 0 && n % 512 == 0 {
        ok := WriteSectors(sector, data[done..done + n]);
      } else {
        ok := PatchSector(sector, at, data[done..done + n]);
      }
      if ok {
        WroteMore(was, mid, bytes, offset, data, done, n);
      } else {
        WroteOutside(was, mid, bytes, offset, data, done, sector, sector + SectorAfter(at + n));
      }
    }

    /** The part of bdrv_pwritev that starts on a sector boundary. */
    method WriteAligned(offset: nat, data: seq<Byte>, done: nat, sector: nat, ghost was: seq<Byte>) returns (ok: bool)
      requires Wrote(was, bytes, offset, data, done) && done < |data| && sector * 512 == offset + done
      modifies this
      ensures |bytes| == old(|bytes|)
      ensures ok <==> Good(bad, |bytes|, sector, SectorAfter(offset + |data|))
      ensures ok ==> Wrote(was, bytes, offset, data, |data|)
      ensures !ok ==> SameOutside(was, bytes, offset, offset + |data|)
    {
      hide Wrote, SameOutside, Good;
      var count := |data| - done;
      var nb, rest := count / 512, count % 512;
      assert SectorAfter(offset + |data|) == sector + nb + if rest == 0 then 0 else 1;
      GoodJoin(bad, |bytes|, sector, sector + nb, SectorAfter(offset + |data|));
      // write the sectors in place
      if nb > 0 {
        ok := WritePart(offset, data, done, nb * 512, sector, 0, was);
        if !ok || rest == 0 { return; }
      }
      // add data from the last sector
      ok := WritePart(offset, data, done + nb * 512, rest, sector + nb, 0, was);
    }

    /** bdrv_pwritev with the vector's data laid out flat. */
    method Pwritev(offset: nat, data: seq<Byte>) returns (ok: bool)
      modifies this
      ensures |bytes| == old(|bytes|)
      ensures ok <==> data == [] || Good(bad, |bytes|, offset / 512, SectorAfter(offset + |data|))
      ensures ok ==> Wrote(old(bytes), bytes, offset, data, |data|)
      ensures !ok ==> SameOutside(old(bytes), bytes, offset, offset + |data|)
    {
      hide HeadLength, SameOutside, Good, SectorAfter;
      if data == [] { return true; }
      var len := HeadLength(offset, |data|);
      HeadLayout(offset, |data|);
      var sector := offset / 512;
      HeadGood(bad, |bytes|, offset, |data|);
      ok := true;
      // first write to align to sector start
      if len > 0 {
        ok := WritePart(offset, data, 0, len, sector, offset % 512, old(bytes));
        if !ok { return; }
        sector := sector + 1;
      }
      if |data| - len > 0 {
        ok := WriteAligned(offset, data, len, sector, old(bytes));
      }
    }

    /** Reading back a range that has been written returns what was written. */
    method WriteThenRead(offset: nat, data: seq<Byte>) returns (ok: bool, buf: seq<Byte>)
      modifies this
      ensures ok <==> data == [] || Good(bad, |bytes|, offset / 512, SectorAfter(offset + |data|))
      ensures ok ==> buf == data
    {
      hide Good, SectorAfter;
      buf := [];
      ok := Pwritev(offset, data);
      if ok {
        ok, buf := Pread(offset, |data|);
        if data != [] {
          assert data[..|data|] == data;
          forall x | 0 <= x < |data| && offset + |data| <= |bytes|
            ensures bytes[offset..offset + |data|][x] == data[x]
          {
            SpliceAt(old(bytes), offset, data, offset + x);
          }
        }
      }
    }
  }
}
