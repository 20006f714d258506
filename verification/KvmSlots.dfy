/**
 * KVM memory slots (kvm-all.c): `kvm_set_phys_mem` keeps an array of slots that maps
 * guest physical addresses to host pointers, cutting and removing overlapping slots.
 */
module KvmSlots {
  import opened Wrappers

  const PAGE_SIZE: nat := 4096
  const SPACE: nat := 0x1_0000_0000_0000_0000

  /** KVMSlot without its number and flags; a slot of size 0 is free. */
  datatype Slot = Slot(start: nat, size: nat, ram: int)

  function End(s: Slot): nat { s.start + s.size }

  predicate In(s: Slot, a: nat) { s.start <= a < End(s) }

  predicate Overlaps(s: Slot, lo: nat, hi: nat) { s.size != 0 && hi > s.start && lo < End(s) }

  /** The test of kvm_lookup_overlapping_slot, whose sums are taken in 64 bits. */
  predicate Meets(s: Slot, lo: nat, hi: nat) { s.size != 0 && hi > s.start && lo < End(s) % SPACE }

  /** The test misses an overlap exactly when the slot or the range ends at 2^64, where the sum wraps
      to zero. */
  lemma WrapHides(s: Slot, lo: nat, size: nat)
    requires End(s) <= SPACE && 0 < size && lo + size <= SPACE
    ensures Meets(s, lo, (lo + size) % SPACE) <==>
            Overlaps(s, lo, lo + size) && End(s) < SPACE && lo + size < SPACE
  {
    if lo + size == SPACE || End(s) == SPACE {
      assert SPACE % SPACE == 0;
    }
  }

  /** For example, a slot on the last page is not found for its own range. */
  lemma LastPageHidden(ram: int)
    ensures var s := Slot(SPACE - PAGE_SIZE, PAGE_SIZE, ram);
            Overlaps(s, s.start, End(s)) && !Meets(s, s.start, End(s) % SPACE)
  {
    WrapHides(Slot(SPACE - PAGE_SIZE, PAGE_SIZE, ram), SPACE - PAGE_SIZE, PAGE_SIZE);
  }

  /** The slot overlaps the range and is not found. */
  predicate Unseen(s: Slot, lo: nat, hi: nat) { Overlaps(s, lo, hi) && (End(s) == SPACE || hi == SPACE) }

  ghost predicate AllSeen(slots: seq<Slot>, lo: nat, hi: nat) {
    forall i :: 0 <= i < |slots| ==> !Unseen(slots[i], lo, hi)
  }

  /** A slot up to the last address. */
  predicate Top(s: Slot) { s.size != 0 && End(s) == SPACE }

  /** Slots up to the last address neither come nor go. */
  ghost predicate TopKept(before: seq<Slot>, slots: seq<Slot>) {
    |before| == |slots| &&
    forall i :: 0 <= i < |slots| && (Top(before[i]) || Top(slots[i])) ==> slots[i] == before[i]
  }

  /** No slot ends beyond the last address. */
  ghost predicate Below(slots: seq<Slot>) {
    forall i :: 0 <= i < |slots| ==> End(slots[i]) <= SPACE
  }

  /** The host pointer for guest address `a`. */
  function Host(slots: seq<Slot>, a: nat): Option<int> {
    if slots == [] then None
    else if In(slots[|slots| - 1], a) then Some(slots[|slots| - 1].ram + (a - slots[|slots| - 1].start))
    else Host(slots[..|slots| - 1], a)
  }

  function Live(slots: seq<Slot>): nat {
    if slots == [] then 0
    else Live(slots[..|slots| - 1]) + if slots[|slots| - 1].size != 0 then 1 else 0
  }

  ghost predicate Disjoint(slots: seq<Slot>) {
    forall i, j, a :: 0 <= i < j < |slots| && In(slots[i], a) ==> !In(slots[j], a)
  }

  /** With disjoint slots, `Host` does not depend on the order of the slots. */
  lemma {:induction false} HostIs(slots: seq<Slot>, i: nat, a: nat)
    requires Disjoint(slots) && i < |slots| && In(slots[i], a)
    ensures Host(slots, a) == Some(slots[i].ram + (a - slots[i].start))
  {
    if i < |slots| - 1 { HostIs(slots[..|slots| - 1], i, a); }
  }

  lemma {:induction false} HostNone(slots: seq<Slot>, a: nat)
    ensures Host(slots, a) == None <==> forall i :: 0 <= i < |slots| ==> !In(slots[i], a)
  {
    if slots != [] {
      var rest := slots[..|slots| - 1];
      HostNone(rest, a);
      if Host(slots, a) != None && !In(slots[|slots| - 1], a) {
        var i :| 0 <= i < |rest| && In(rest[i], a);
        assert In(slots[i], a);
      }
    }
  }

  lemma {:induction false} LiveUpdate(slots: seq<Slot>, i: nat, s: Slot)
    requires i < |slots|
    ensures Live(slots[i := s]) ==
            Live(slots) - (if slots[i].size != 0 then 1 else 0) + if s.size != 0 then 1 else 0
  {
    var n := |slots| - 1;
    if i == n {
      assert slots[i := s][..n] == slots[..n];
    } else {
      assert slots[i := s][..n] == slots[..n][i := s];
      LiveUpdate(slots[..n], i, s);
    }
  }

  lemma {:induction false} LiveBound(slots: seq<Slot>)
    ensures Live(slots) <= |slots|
    ensures Live(slots) == |slots| <==> forall i :: 0 <= i < |slots| ==> slots[i].size != 0
  {
    if slots != [] {
      var rest := slots[..|slots| - 1];
      LiveBound(rest);
      assert forall i :: 0 <= i < |rest| ==> rest[i] == slots[i];
    }
  }

  /** Replacing slot `i` by `s`, where the new range of `s` was free or belonged to slot `i`. */
  lemma HostUpdate(slots: seq<Slot>, i: nat, s: Slot, a: nat)
    requires Disjoint(slots) && i < |slots|
    requires forall j, b :: 0 <= j < |slots| && j != i && In(s, b) ==> !In(slots[j], b)
    ensures Disjoint(slots[i := s])
    ensures Host(slots[i := s], a) ==
            if In(s, a) then Some(s.ram + (a - s.start))
            else if In(slots[i], a) then None
            else Host(slots, a)
  {
    var t := slots[i := s];
    assert Disjoint(t);
    if In(s, a) {
      HostIs(t, i, a);
    } else if exists j :: 0 <= j < |t| && In(t[j], a) {
      var j :| 0 <= j < |t| && In(t[j], a);
      HostIs(t, j, a);
      HostIs(slots, j, a);
    } else {
      assert forall j :: 0 <= j < |t| && j != i ==> t[j] == slots[j];
      HostNone(t, a);
      HostNone(slots, a);
    }
  }

  function Crosses(s: Slot, x: nat): nat { if s.start < x < End(s) then 1 else 0 }

  /** What a slot may cost while the range from `lo` to `hi` is cut out: itself, and one
      more slot for each end of the range that it straddles. */
  function Weight(s: Slot, lo: nat, hi: nat): nat {
    if s.size == 0 then 0 else 1 + Crosses(s, lo) + Crosses(s, hi)
  }

  function Potential(slots: seq<Slot>, lo: nat, hi: nat): nat {
    if slots == [] then 0
    else Potential(slots[..|slots| - 1], lo, hi) + Weight(slots[|slots| - 1], lo, hi)
  }

  lemma {:induction false} PotentialUpdate(slots: seq<Slot>, i: nat, s: Slot, lo: nat, hi: nat)
    requires i < |slots|
    ensures Potential(slots[i := s], lo, hi) == Potential(slots, lo, hi) - Weight(slots[i], lo, hi) + Weight(s, lo, hi)
  {
    var n := |slots| - 1;
    if i == n {
      assert slots[i := s][..n] == slots[..n];
    } else {
      assert slots[i := s][..n] == slots[..n][i := s];
      PotentialUpdate(slots[..n], i, s, lo, hi);
    }
  }

  /** Disjoint slots straddle each end of the range at most once. */
  lemma {:induction false} PotentialBound(slots: seq<Slot>, lo: nat, hi: nat)
    requires Disjoint(slots)
    ensures Live(slots) <= Potential(slots, lo, hi) <= Live(slots) + At(slots, lo) + At(slots, hi)
  {
    if slots != [] {
      var rest, last := slots[..|slots| - 1], slots[|slots| - 1];
      PotentialBound(rest, lo, hi);
      forall x | Crosses(last, x) == 1 ensures At(rest, x) == 0 {
        forall j | 0 <= j < |rest| ensures !In(rest[j], x) { assert rest[j] == slots[j]; }
      }
      forall x ensures At(rest, x) <= At(slots, x) && Crosses(last, x) <= At(slots, x) {
        if At(rest, x) == 1 {
          var j :| 0 <= j < |rest| && In(rest[j], x);
          assert In(slots[j], x);
        }
        if Crosses(last, x) == 1 { assert In(slots[|slots| - 1], x); }
      }
    }
  }

  ghost function At(slots: seq<Slot>, x: nat): nat {
    if exists j :: 0 <= j < |slots| && In(slots[j], x) then 1 else 0
  }

  /** If no slot overlaps the range, no slot straddles its ends. */
  lemma {:induction false} NothingToCut(slots: seq<Slot>, lo: nat, hi: nat)
    requires lo < hi && forall i :: 0 <= i < |slots| ==> !Overlaps(slots[i], lo, hi)
    ensures Potential(slots, lo, hi) == Live(slots)
  {
    if slots != [] { NothingToCut(slots[..|slots| - 1], lo, hi); }
  }

  /** The guest map with the addresses from `lo` to `hi` redirected to `ram` on, or erased. */
  function Updated(h: Option<int>, a: nat, lo: nat, hi: nat, ram: Option<int>): Option<int> {
    if lo <= a < hi then (if ram.Some? then Some(ram.value + (a - lo)) else None) else h
  }

  /** `h` while the range from `lo` to `hi` is being erased from `h0`. */
  predicate Erasing(h0: Option<int>, h: Option<int>, a: nat, lo: nat, hi: nat) {
    h == h0 || (lo <= a < hi && h == None)
  }

  /** What sticks out of slot `s` below `lo`. */
  function Prefix(s: Slot, lo: nat): Slot {
    Slot(s.start, if s.start < lo then lo - s.start else 0, s.ram)
  }

  /** What sticks out of slot `s` from `hi` on. */
  function Suffix(s: Slot, hi: nat): Slot {
    Slot(hi, if End(s) > hi then End(s) - hi else 0, s.ram + (hi - s.start))
  }

  class KvmState {
    const slots: array<Slot>

    ghost function Map(a: nat): Option<int>
      reads slots
    {
      Host(slots[..], a)
    }

    ghost predicate Valid()
      reads slots
    {
      Disjoint(slots[..]) && Below(slots[..])
    }

    constructor (n: nat)
      ensures fresh(slots) && Valid() && slots.Length == n && Live(slots[..]) == 0
      ensures forall a :: Map(a) == None
    {
      slots := new Slot[n](_ => Slot(0, 0, 0));
      new;
      NoneLive(slots[..]);
      hide *;
    }

    /** kvm_alloc_slot; None stands for the abort of the source. */
    method AllocSlot() returns (r: Option<nat>)
      ensures r.Some? ==> r.value < slots.Length && slots[r.value].size == 0
      ensures r.None? <==> Live(slots[..]) == slots.Length
    {
      LiveBound(slots[..]);
      for i := 0 to slots.Length
        invariant forall j :: 0 <= j < i ==> slots[j].size != 0
      {
        if slots[i].size == 0 {
          return Some(i);
        }
      }
      return None;
    }

    /** kvm_lookup_overlapping_slot: the overlapping slot with the lowest start address. */
    method LookupOverlapping(lo: nat, hi: nat) returns (r: Option<nat>)
      ensures r.Some? ==> r.value < slots.Length && Meets(slots[r.value], lo, hi)
      ensures r.Some? ==> forall j :: 0 <= j < slots.Length && Meets(slots[j], lo, hi) ==>
                slots[r.value].start <= slots[j].start
      ensures r.None? ==> forall j :: 0 <= j < slots.Length ==> !Meets(slots[j], lo, hi)
    {
      r := None;
      for i := 0 to slots.Length
        invariant r.Some? ==> r.value < i && Meets(slots[r.value], lo, hi)
        invariant r.Some? ==> forall j :: 0 <= j < i && Meets(slots[j], lo, hi) ==>
                    slots[r.value].start <= slots[j].start
        invariant r.None? ==> forall j :: 0 <= j < i ==> !Meets(slots[j], lo, hi)
      {
        if !(slots[i].size == 0 || (r.Some? && slots[r.value].start < slots[i].start)) {
          if hi > slots[i].start && lo < (slots[i].start + slots[i].size) % SPACE {
            r := Some(i);
          }
        }
      }
    }

    /** The lookup finds what overlaps the range and is not unseen. */
    lemma Finds(lo: nat, size: nat)
      requires Valid() && 0 < size && lo + size <= SPACE
      ensures forall j :: 0 <= j < slots.Length ==>
                (Meets(slots[j], lo, (lo + size) % SPACE) <==>
                 Overlaps(slots[j], lo, lo + size) && !Unseen(slots[j], lo, lo + size))
    {
      forall j | 0 <= j < slots.Length
        ensures Meets(slots[j], lo, (lo + size) % SPACE) <==>
                Overlaps(slots[j], lo, lo + size) && !Unseen(slots[j], lo, lo + size)
      {
        assert End(slots[..][j]) <= SPACE;
        WrapHides(slots[j], lo, size);
      }
    }

    /** No slot but `i` meets `s`. */
    ghost predicate Room(i: nat, s: Slot)
      reads slots
    {
      forall j, b :: 0 <= j < slots.Length && j != i && In(s, b) ==> !In(slots[j], b)
    }

    /** Overwriting slot `i` with `s`. */
    method Put(i: nat, s: Slot, ghost lo: nat, ghost hi: nat)
      requires Valid() && i < slots.Length && End(s) <= SPACE
      modifies slots
      ensures slots[..] == old(slots[..])[i := s]
      ensures old(Room(i, s)) ==> Valid()
      ensures old(Room(i, s)) ==>
                forall a: nat :: Map(a) == if In(s, a) then Some(s.ram + (a - s.start))
                                           else if In(old(slots[i]), a) then None else old(Map(a))
      ensures Live(slots[..]) ==
              old(Live(slots[..])) - (if old(slots[i]).size != 0 then 1 else 0) + if s.size != 0 then 1 else 0
      ensures Potential(slots[..], lo, hi) ==
              old(Potential(slots[..], lo, hi)) - Weight(old(slots[i]), lo, hi) + Weight(s, lo, hi)
    {
      ghost var before := slots[..];
      slots[i] := s;
      assert slots[..] == before[i := s];
      LiveUpdate(before, i, s);
      PotentialUpdate(before, i, s, lo, hi);
      if old(Room(i, s)) {
        HostUpdate(before, i, s, 0);
        forall a: nat ensures Map(a) == if In(s, a) then Some(s.ram + (a - s.start))
                                   else if In(before[i], a) then None else Host(before, a)
        {
          HostUpdate(before, i, s, a);
        }
      }
    }

    /** One turn of the loop: slot `m`, which overlaps the range, is unregistered, and what
        sticks out of the range on either side is registered again. */
    method CutOut(m: nat, lo: nat, hi: nat) returns (ok: bool)
      requires Valid() && lo < hi < SPACE && m < slots.Length && Overlaps(slots[m], lo, hi) && End(slots[m]) < SPACE
      modifies slots
      ensures Valid() && TopKept(old(slots[..]), slots[..])
      ensures ok ==> Potential(slots[..], lo, hi) == old(Potential(slots[..], lo, hi)) - 1
      ensures ok ==> forall a: nat :: Map(a) == if lo <= a < hi && In(old(slots[m]), a) then None else old(Map(a))
      ensures old(Potential(slots[..], lo, hi)) < slots.Length + 2 ==> ok
    {
      hide Live, Potential, Host, Disjoint;
      var mem := slots[m];
      ghost var before := slots[..];
      forall a: nat | In(mem, a) ensures Host(before, a) == Some(mem.ram + (a - mem.start)) { HostIs(before, m, a); }
      assert Room(m, mem.(size := 0));
      Put(m, mem.(size := 0), lo, hi);
      assert TopKept(before, slots[..]);
      // register prefix slot
      ok := Keep(Prefix(mem, lo), lo, hi);
      TopKeptThen(before, old(slots[..])[m := mem.(size := 0)], slots[..]);
      if !ok { return; }
      // register suffix slot
      ghost var mid := slots[..];
      ok := Keep(Suffix(mem, hi), lo, hi);
      TopKeptThen(before, mid, slots[..]);
    }

    /** A part of an unregistered slot is registered again, if there is any. */
    method Keep(s: Slot, ghost lo: nat, ghost hi: nat) returns (ok: bool)
      requires Valid() && (s.size > 0 ==> End(s) < SPACE) && Vacant(s)
      modifies slots
      ensures Valid() && (s.size == 0 || old(Potential(slots[..], lo, hi)) < slots.Length ==> ok)
      ensures TopKept(old(slots[..]), slots[..])
      ensures ok ==> Potential(slots[..], lo, hi) == old(Potential(slots[..], lo, hi)) + Weight(s, lo, hi)
      ensures ok ==> forall a: nat :: Map(a) == if In(s, a) then Some(s.ram + (a - s.start)) else old(Map(a))
    {
      ok := true;
      if s.size != 0 {
        PotentialBound(slots[..], lo, hi);
        ok := Register(s, lo, hi);
      }
    }

    /** No address of `s` is mapped. */
    ghost predicate Vacant(s: Slot)
      reads slots
    {
      forall a :: In(s, a) ==> Map(a) == None
    }

    /** `s` has been put in one of the free slots. */
    ghost predicate Placed(before: seq<Slot>, s: Slot)
      reads slots
    {
      |before| == slots.Length &&
      exists r :: 0 <= r < |before| && before[r].size == 0 && slots[..] == before[r := s]
    }

    /** A free slot is taken for `s`; the slots stay disjoint exactly when nothing of it was mapped. */
    method Register(s: Slot, ghost lo: nat, ghost hi: nat) returns (ok: bool)
      requires Valid() && 0 < s.size && End(s) <= SPACE
      modifies slots
      ensures ok <==> old(Live(slots[..])) < slots.Length
      ensures if ok then Placed(old(slots[..]), s) else slots[..] == old(slots[..])
      ensures ok ==> Live(slots[..]) == old(Live(slots[..])) + 1
      ensures ok ==> Potential(slots[..], lo, hi) == old(Potential(slots[..], lo, hi)) + Weight(s, lo, hi)
      ensures ok ==> (Valid() <==> old(Vacant(s)))
      ensures ok && old(Vacant(s)) ==>
                forall a: nat :: Map(a) == if In(s, a) then Some(s.ram + (a - s.start)) else old(Map(a))
    {
      LiveBound(slots[..]);
      var r := AllocSlot();
      if r.None? {
        return false;
      }
      ghost var before := slots[..];
      RoomIsVacant(r.value, s);
      Put(r.value, s, lo, hi);
      if !old(Room(r.value, s)) {
        var j, b :| 0 <= j < |before| && j != r.value && In(s, b) && In(before[j], b);
        assert slots[..][j] == before[j] && slots[..][r.value] == s;
      }
      return true;
    }

    lemma RoomIsVacant(i: nat, s: Slot)
      requires i < slots.Length && slots[i].size == 0
      ensures Room(i, s) <==> Vacant(s)
    {
      forall a | In(s, a) ensures Map(a) == None <==> forall j :: 0 <= j < slots.Length ==> !In(slots[j], a) {
        HostNone(slots[..], a);
        assert forall j :: 0 <= j < slots.Length ==> slots[..][j] == slots[j];
      }
    }

    /** The guest map while the range is being erased from the map of `before`. */
    ghost predicate AllErasing(before: seq<Slot>, lo: nat, hi: nat)
      reads slots
    {
      forall a: nat :: Erasing(Host(before, a), Map(a), a, lo, hi)
    }

    /** The guest map is that of `before` with the range redirected or erased. */
    ghost predicate AllUpdated(before: seq<Slot>, lo: nat, hi: nat, ram: Option<int>)
      reads slots
    {
      forall a :: Map(a) == Updated(Host(before, a), a, lo, hi, ram)
    }

    /** One turn of the loop of kvm_set_phys_mem; `over` if it is the last one. */
    method CutTurn(lo: nat, size: nat, ram: int, add: bool, ghost before: seq<Slot>)
      returns (ok: bool, over: bool, done: bool)
      requires Valid() && 0 < size && lo + size <= SPACE && AllErasing(before, lo, lo + size)
      modifies slots
      ensures Valid() && (old(Potential(slots[..], lo, lo + size)) < slots.Length + 2 ==> ok) && (over ==> ok)
      ensures TopKept(old(slots[..]), slots[..]) && (lo + size == SPACE ==> over && !done)
      ensures over ==> slots[..] == old(slots[..])
      ensures over && (done || AllSeen(slots[..], lo, lo + size)) ==>
                AllUpdated(before, lo, lo + size, if done then Some(ram) else None)
      ensures over && done ==> add && AllSeen(slots[..], lo, lo + size)
      ensures over && !done && AllSeen(slots[..], lo, lo + size) ==>
                Potential(slots[..], lo, lo + size) == Live(slots[..])
      ensures ok && !over ==> AllErasing(before, lo, lo + size)
      ensures ok && !over ==> Potential(slots[..], lo, lo + size) == old(Potential(slots[..], lo, lo + size)) - 1
    {
      hide Live, Potential, Host, Meets;
      Finds(lo, size);
      var r := LookupOverlapping(lo, (lo + size) % SPACE);
      if r.None? {
        if AllSeen(slots[..], lo, lo + size) {
          NothingLeft(before, slots[..], lo, lo + size);
        }
        return true, true, false;
      }
      var mem := slots[r.value];
      if add && lo >= mem.start && lo + size <= End(mem) && ram - lo == mem.ram - mem.start {
        AlreadyThere(before, slots[..], r.value, lo, lo + size, ram);
        InsideIsSeen(slots[..], r.value, lo, lo + size);
        return true, true, true;
      }
      ok := CutOut(r.value, lo, lo + size);
      over, done := false, false;
    }

    /** The loop of kvm_set_phys_mem. `done` says that the range, which is to be added, already
        leads where it should; only the flags of its slot change. `ok` is false when the source
        aborts for want of a free slot. */
    method CutAll(lo: nat, size: nat, ram: int, add: bool) returns (ok: bool, done: bool)
      requires Valid() && 0 < size && lo + size <= SPACE
      modifies slots
      ensures Valid() && (old(Live(slots[..])) + 2 <= slots.Length ==> ok) && TopKept(old(slots[..]), slots[..])
      ensures lo + size == SPACE ==> ok && !done && slots[..] == old(slots[..])
      ensures ok && done ==> add && Live(slots[..]) <= old(Live(slots[..])) + 2 && AllSeen(slots[..], lo, lo + size)
      ensures ok && AllSeen(slots[..], lo, lo + size) ==>
                AllUpdated(old(slots[..]), lo, lo + size, if done then Some(ram) else None)
      ensures ok && !done && AllSeen(slots[..], lo, lo + size) ==> Live(slots[..]) <= old(Live(slots[..])) + 1
    {
      ghost var before, hi := slots[..], lo + size;
      ghost var turns := 0;
      PotentialBound(before, lo, hi);
      hide Live, Potential, AllUpdated, AllErasing, Valid, AllSeen, TopKept;
      assert AllErasing(before, lo, hi) by { Unerased(lo, hi); }
      TopKeptNow(before);
      while true
        invariant Valid() && AllErasing(before, lo, hi) && TopKept(before, slots[..])
        invariant turns >= 0 && Potential(slots[..], lo, hi) + turns == Potential(before, lo, hi)
        invariant turns == 0 ==> slots[..] == before
        invariant hi == SPACE ==> turns == 0
        decreases Potential(before, lo, hi) - turns
      {
        PotentialIsBound(lo, hi);
        ghost var mid := slots[..];
        var over;
        ok, over, done := CutTurn(lo, size, ram, add, before);
        TopKeptThen(before, mid, slots[..]);
        if !ok || over { return; }
        turns := turns + 1;
      }
    }

    lemma Unerased(lo: nat, hi: nat)
      ensures AllErasing(slots[..], lo, hi)
    {}

    lemma PotentialIsBound(lo: nat, hi: nat)
      requires Valid()
      ensures Live(slots[..]) <= Potential(slots[..], lo, hi) <= Live(slots[..]) + 2
    {
      PotentialBound(slots[..], lo, hi);
    }

    /** An unseen slot is in the way: the new slot would overlap it, and what it maps is not erased. */
    lemma StillThere(before: seq<Slot>, lo: nat, size: nat, ram: int)
      requires Valid() && 0 < size && !AllSeen(slots[..], lo, lo + size)
      ensures !Vacant(Slot(lo, size, ram)) && !AllUpdated(before, lo, lo + size, None)
    {
      var i :| 0 <= i < slots.Length && Unseen(slots[..][i], lo, lo + size);
      var s := slots[..][i];
      var a := if lo < s.start then s.start else lo;
      HostIs(slots[..], i, a);
      assert In(Slot(lo, size, ram), a) && Map(a) != None;
    }

    /** kvm_set_phys_mem from its loop on.  It is a plain update of the guest map on exactly the given
        range, and leaves the slots disjoint, if and only if no slot that overlaps the range is unseen;
        then it costs at most two more slots. */
    method Replace(lo: nat, size: nat, ram: int, add: bool) returns (ok: bool)
      requires Valid() && 0 < size && lo + size <= SPACE
      modifies slots
      ensures ok ==> (Valid() && AllUpdated(old(slots[..]), lo, lo + size, if add then Some(ram) else None) <==>
                      old(AllSeen(slots[..], lo, lo + size)))
      ensures old(AllSeen(slots[..], lo, lo + size)) ==> Valid()
      ensures ok && old(AllSeen(slots[..], lo, lo + size)) ==>
                && Live(slots[..]) <= old(Live(slots[..])) + 2
                && (TopKept(old(slots[..]), slots[..]) || (add && lo + size == SPACE))
                && (add && lo + size == SPACE ==> Slot(lo, size, ram) in slots[..])
      ensures old(AllSeen(slots[..], lo, lo + size)) && old(Live(slots[..])) + 2 <= slots.Length ==> ok
    {
      hide Live, Potential, Host, TopKept, AllSeen, Disjoint, Below;
      ghost var before := slots[..];
      var done;
      ok, done := CutAll(lo, size, ram, add);
      if ok {
        SeenSame(before, slots[..], lo, lo + size);
        ghost var mid := slots[..];
        if !done && !AllSeen(mid, lo, lo + size) {
          StillThere(before, lo, size, ram);
        }
        if !done && add {
          ok := Register(Slot(lo, size, ram), lo, lo + size);
          if ok {
            PlacedKeepsTop(before, mid, Slot(lo, size, ram));
          }
        }
      }
    }

    lemma PlacedKeepsTop(before: seq<Slot>, mid: seq<Slot>, s: Slot)
      requires TopKept(before, mid) && Placed(mid, s)
      ensures s in slots[..] && (End(s) < SPACE ==> TopKept(before, slots[..]))
    {
      var r :| 0 <= r < |mid| && mid[r].size == 0 && slots[..] == mid[r := s];
      assert slots[..][r] == s;
    }
  }

  lemma TopKeptNow(slots: seq<Slot>)
    ensures TopKept(slots, slots)
  {}

  lemma TopKeptThen(a: seq<Slot>, b: seq<Slot>, c: seq<Slot>)
    requires TopKept(a, b) && TopKept(b, c)
    ensures TopKept(a, c)
  {}

  /** What is unseen stays so. */
  lemma SeenSame(before: seq<Slot>, slots: seq<Slot>, lo: nat, hi: nat)
    requires TopKept(before, slots) && (hi == SPACE ==> slots == before)
    ensures AllSeen(before, lo, hi) <==> AllSeen(slots, lo, hi)
  {
    forall i | 0 <= i < |slots| ensures Unseen(before[i], lo, hi) <==> Unseen(slots[i], lo, hi) {}
  }

  lemma InsideIsSeen(slots: seq<Slot>, m: nat, lo: nat, hi: nat)
    requires Disjoint(slots) && m < |slots| && slots[m].start <= lo < hi <= End(slots[m]) && !Unseen(slots[m], lo, hi)
    ensures AllSeen(slots, lo, hi)
  {
    forall i | 0 <= i < |slots| && i != m ensures !Overlaps(slots[i], lo, hi) {
      var a := if lo < slots[i].start then slots[i].start else lo;
      assert Overlaps(slots[i], lo, hi) ==> In(slots[i], a) && In(slots[m], a);
    }
  }

  lemma NothingLeft(before: seq<Slot>, slots: seq<Slot>, lo: nat, hi: nat)
    requires lo < hi && forall i :: 0 <= i < |slots| ==> !Overlaps(slots[i], lo, hi)
    requires forall a :: Erasing(Host(before, a), Host(slots, a), a, lo, hi)
    ensures forall a :: Host(slots, a) == Updated(Host(before, a), a, lo, hi, None)
    ensures Potential(slots, lo, hi) == Live(slots)
  {
    forall a: nat ensures Host(slots, a) == Updated(Host(before, a), a, lo, hi, None) { HostNone(slots, a); }
    NothingToCut(slots, lo, hi);
  }

  lemma AlreadyThere(before: seq<Slot>, slots: seq<Slot>, m: nat, lo: nat, hi: nat, ram: int)
    requires Disjoint(slots) && m < |slots| && slots[m].start <= lo && hi <= End(slots[m])
    requires ram - lo == slots[m].ram - slots[m].start
    requires forall a :: Erasing(Host(before, a), Host(slots, a), a, lo, hi)
    ensures forall a :: Host(slots, a) == Updated(Host(before, a), a, lo, hi, Some(ram))
  {
    forall a: nat ensures Host(slots, a) == Updated(Host(before, a), a, lo, hi, Some(ram)) {
      if lo <= a < hi { HostIs(slots, m, a); }
    }
  }

  lemma {:induction false} NoneLive(slots: seq<Slot>)
    requires forall i :: 0 <= i < |slots| ==> slots[i].size == 0
    ensures Live(slots) == 0 && Disjoint(slots) && forall a :: Host(slots, a) == None
  {
    if slots != [] {
      NoneLive(slots[..|slots| - 1]);
      forall a ensures Host(slots, a) == None { HostNone(slots, a); }
    }
  }

  /** What kvm_set_phys_mem looks at in a MemoryRegionSection and its region. */
  datatype Section = Section(offset: nat, size: nat, offsetInRegion: nat, ramPtr: int,
                             isRam: bool, readonly: bool, romDevice: bool, romdMode: bool)

  datatype Effect = Ignore | Apply(lo: nat, size: nat, ram: int, add: bool)

  /** The checks and the rounding at the head of kvm_set_phys_mem. */
  function EffectOf(sec: Section, add: bool, readonlyAllowed: bool): Effect {
    var delta := (PAGE_SIZE - sec.size % PAGE_SIZE) % PAGE_SIZE;
    if delta > sec.size then Ignore
    else
      var lo, rest := sec.offset + delta, sec.size - delta;
      var size := rest - rest % PAGE_SIZE;
      var ram := sec.ramPtr + sec.offsetInRegion + delta;
      if size == 0 || lo % PAGE_SIZE != 0 then Ignore
      else if sec.isRam then Apply(lo, size, ram, add)
      else if (!sec.readonly && !sec.romDevice) || !readonlyAllowed then Ignore
      else Apply(lo, size, ram, add && sec.romdMode)
  }

  lemma WholePages(size: nat)
    ensures (size - size % PAGE_SIZE) % PAGE_SIZE == 0
  {}

  /** Whatever is applied is whole pages of the section, each with its own host pointer;
      a page-aligned RAM section is applied as it is. */
  lemma EffectIsWithin(sec: Section, add: bool, readonlyAllowed: bool)
    ensures var e := EffectOf(sec, add, readonlyAllowed);
            e.Apply? ==>
              && 0 < e.size && e.lo % PAGE_SIZE == 0 && e.size % PAGE_SIZE == 0
              && sec.offset <= e.lo && e.lo + e.size <= sec.offset + sec.size
              && e.ram - e.lo == sec.ramPtr + sec.offsetInRegion - sec.offset
    ensures sec.isRam && sec.offset % PAGE_SIZE == 0 && sec.size % PAGE_SIZE == 0 && 0 < sec.size ==>
              EffectOf(sec, add, readonlyAllowed) == Apply(sec.offset, sec.size, sec.ramPtr + sec.offsetInRegion, add)
  {
    var delta := (PAGE_SIZE - sec.size % PAGE_SIZE) % PAGE_SIZE;
    if delta <= sec.size {
      WholePages(sec.size - delta);
    }
  }

  /** What TARGET_PAGE_ALIGN adds to a size. */
  function Padding(size: nat): (d: nat)
    ensures d < 4096 && (size + d) % 4096 == 0
  {
    (PAGE_SIZE - size % PAGE_SIZE) % PAGE_SIZE
  }

  /** The section takes address `a`: skipping the padding of its size leads to a page boundary, and the
      page of `a` lies between that and the end of the section. */
  predicate Takes(sec: Section, a: nat) {
    && (sec.offset + Padding(sec.size)) % 4096 == 0 && sec.offset + Padding(sec.size) <= a
    && a - a % 4096 + 4096 <= sec.offset + sec.size
  }

  /** RAM can have a slot, and so can what the guest cannot write, if there are read-only slots. */
  predicate Slottable(sec: Section, readonlyAllowed: bool) {
    sec.isRam || ((sec.readonly || sec.romDevice) && readonlyAllowed)
  }

  lemma TakesRange(sec: Section, a: nat)
    requires Padding(sec.size) <= sec.size && (sec.offset + Padding(sec.size)) % 4096 == 0
    ensures var lo, rest := sec.offset + Padding(sec.size), sec.size - Padding(sec.size);
            Takes(sec, a) <==> lo <= a < lo + (rest - rest % 4096)
  {
    hide Padding;
    var lo, rest := sec.offset + Padding(sec.size), sec.size - Padding(sec.size);
    PageInside(lo / 4096, rest / 4096, rest % 4096, a / 4096, a % 4096);
  }

  /** Page `q` ends within whole pages and a rest exactly when it is one of the whole pages. */
  lemma PageInside(p: nat, t: nat, u: nat, q: nat, r: nat)
    requires u < 4096 && r < 4096
    ensures q * 4096 + 4096 <= p * 4096 + (t * 4096 + u) <==> q * 4096 + r < p * 4096 + t * 4096
  {}

  /** Exactly when a section has an effect, on which addresses, and which. */
  lemma EffectExactly(sec: Section, add: bool, readonlyAllowed: bool)
    ensures var e := EffectOf(sec, add, readonlyAllowed);
            && (e.Apply? <==> Slottable(sec, readonlyAllowed) && exists a :: Takes(sec, a))
            && (e.Apply? ==> forall a: nat :: e.lo <= a < e.lo + e.size <==> Takes(sec, a))
            && (e.Apply? ==> e.ram - e.lo == sec.ramPtr + sec.offsetInRegion - sec.offset)
            && (e.Apply? ==> (e.add <==> add && (sec.isRam || sec.romdMode)))
  {
    var d := Padding(sec.size);
    if d <= sec.size && (sec.offset + d) % 4096 == 0 {
      forall a: nat ensures var lo, rest := sec.offset + d, sec.size - d;
                            Takes(sec, a) <==> lo <= a < lo + (rest - rest % 4096)
      {
        TakesRange(sec, a);
      }
      if sec.size - d >= 4096 {
        assert Takes(sec, sec.offset + d);
      }
    }
  }

  /** What becomes of the host pointer `h` of address `a`, by the fields of the section. */
  lemma EffectOnMap(sec: Section, add: bool, readonlyAllowed: bool, h: Option<int>, a: nat)
    ensures var now := After(h, a, EffectOf(sec, add, readonlyAllowed));
            && (!Takes(sec, a) ==> now == h)
            && (!sec.isRam && (!readonlyAllowed || (!sec.readonly && !sec.romDevice)) ==> now == h)
            && (Takes(sec, a) && sec.isRam ==>
                  now == if add then Some(sec.ramPtr + sec.offsetInRegion + (a - sec.offset)) else None)
            && (Takes(sec, a) && !sec.isRam && readonlyAllowed && (sec.readonly || sec.romDevice) ==>
                  now == if add && sec.romdMode then Some(sec.ramPtr + sec.offsetInRegion + (a - sec.offset)) else None)
  {
    hide EffectOf, Takes;
    EffectExactly(sec, add, readonlyAllowed);
  }

  /** The guest map after one more section is added or removed. */
  function After(h: Option<int>, a: nat, e: Effect): Option<int> {
    if e.Ignore? then h else Updated(h, a, e.lo, e.lo + e.size, if e.add then Some(e.ram) else None)
  }

  datatype Change = Change(sec: Section, add: bool)

  /** The effect overlaps no slot that it does not see. */
  ghost predicate Sees(slots: seq<Slot>, e: Effect) {
    e.Ignore? || AllSeen(slots, e.lo, e.lo + e.size)
  }

  /** The guest map has changed by the effect. */
  ghost predicate Changed(before: seq<Slot>, slots: seq<Slot>, e: Effect) {
    forall a :: Host(slots, a) == After(Host(before, a), a, e)
  }

  /** Where the slot up to the last address begins; the end of the address space if there is none. */
  ghost function TopStart(slots: seq<Slot>): nat {
    if HasTop(slots) then slots[TopIndex(slots)].start else SPACE
  }

  ghost predicate HasTop(slots: seq<Slot>) {
    exists t :: 0 <= t < |slots| && Top(slots[t])
  }

  ghost function TopIndex(slots: seq<Slot>): (t: nat)
    requires HasTop(slots)
    ensures t < |slots| && Top(slots[t])
  {
    var t :| 0 <= t < |slots| && Top(slots[t]);
    t
  }

  function TopAfter(top: nat, e: Effect): nat {
    if e.Apply? && e.add && e.lo + e.size == SPACE then e.lo else top
  }

  lemma TopStartIs(slots: seq<Slot>, i: nat)
    requires Disjoint(slots) && i < |slots| && Top(slots[i])
    ensures TopStart(slots) == slots[i].start
  {
    var t := TopIndex(slots);
    assert In(slots[t], SPACE - 1) && In(slots[i], SPACE - 1);
  }

  lemma TopStartKept(before: seq<Slot>, slots: seq<Slot>)
    requires Disjoint(before) && Disjoint(slots) && TopKept(before, slots)
    ensures TopStart(slots) == TopStart(before)
  {
    if i: nat :| i < |slots| && Top(slots[i]) {
      TopStartIs(slots, i);
      TopStartIs(before, i);
    } else {
      assert forall i: nat :: i < |before| ==> !Top(before[i]);
    }
  }

  /** What a caller can tell: a range up to the last address must not be mapped anywhere, and another
      must end before the slot up to the last address. */
  lemma SeenIs(slots: seq<Slot>, lo: nat, hi: nat)
    requires Disjoint(slots) && Below(slots) && lo < hi <= SPACE
    ensures AllSeen(slots, lo, hi) <==>
            if hi == SPACE then forall a :: lo <= a < SPACE ==> Host(slots, a) == None else hi <= TopStart(slots)
  {
    if hi == SPACE {
      forall a | lo <= a < SPACE && AllSeen(slots, lo, hi) ensures Host(slots, a) == None {
        HostNone(slots, a);
        assert forall i :: 0 <= i < |slots| && In(slots[i], a) ==> Unseen(slots[i], lo, hi);
      }
      if i :| 0 <= i < |slots| && Unseen(slots[i], lo, hi) {
        var a := if lo < slots[i].start then slots[i].start else lo;
        HostIs(slots, i, a);
        assert lo <= a < SPACE && Host(slots, a) != None;
      }
    } else if i :| 0 <= i < |slots| && Top(slots[i]) {
      TopStartIs(slots, i);
      forall j | 0 <= j < |slots| && Top(slots[j]) ensures slots[j].start == slots[i].start {
        TopStartIs(slots, j);
      }
    }
  }

  lemma TopMoves(before: seq<Slot>, slots: seq<Slot>, e: Effect)
    requires Disjoint(before) && Disjoint(slots) && e.Apply? && e.size > 0
    requires if e.add && e.lo + e.size == SPACE then Slot(e.lo, e.size, e.ram) in slots else TopKept(before, slots)
    ensures TopStart(slots) == TopAfter(TopStart(before), e)
  {
    if e.add && e.lo + e.size == SPACE {
      var r :| 0 <= r < |slots| && slots[r] == Slot(e.lo, e.size, e.ram);
      TopStartIs(slots, r);
    } else {
      TopStartKept(before, slots);
    }
  }

  /** kvm_set_phys_mem: the update of the guest map that the section describes, if and only if it
      overlaps no slot that it does not see. */
  method SetPhysMem(s: KvmState, c: Change, readonlyAllowed: bool) returns (ok: bool)
    requires s.Valid() && c.sec.offset + c.sec.size <= SPACE
    modifies s.slots
    ensures var e := EffectOf(c.sec, c.add, readonlyAllowed);
            && (ok ==> (s.Valid() && Changed(old(s.slots[..]), s.slots[..], e) <==> old(Sees(s.slots[..], e))))
            && (old(Sees(s.slots[..], e)) ==> s.Valid())
            && (ok && old(Sees(s.slots[..], e)) ==>
                  && Live(s.slots[..]) <= old(Live(s.slots[..])) + 2
                  && TopStart(s.slots[..]) == TopAfter(old(TopStart(s.slots[..])), e))
            && (old(Sees(s.slots[..], e)) && old(Live(s.slots[..])) + 2 <= s.slots.Length ==> ok)
            && (ok && old(Sees(s.slots[..], e)) ==> Follows(old(s.slots[..]), s.slots[..], c, readonlyAllowed))
  {
    EffectIsWithin(c.sec, c.add, readonlyAllowed);
    hide EffectOf, Disjoint, Below, AllSeen, TopKept, TopStart, Live, Host;
    var e := EffectOf(c.sec, c.add, readonlyAllowed);
    ok := true;
    ghost var before := s.slots[..];
    if e.Apply? {
      ok := s.Replace(e.lo, e.size, e.ram, e.add);
      if ok && AllSeen(before, e.lo, e.lo + e.size) {
        TopMoves(before, s.slots[..], e);
      }
    }
    if ok && Sees(before, e) {
      ChangedFollows(before, s.slots[..], c, readonlyAllowed);
    }
  }

  /** The guest map has changed as the fields of the section say. */
  ghost predicate Follows(before: seq<Slot>, slots: seq<Slot>, c: Change, readonlyAllowed: bool) {
    forall a: nat :: FollowsAt(Host(before, a), Host(slots, a), c.sec, c.add, readonlyAllowed, a)
  }

  predicate FollowsAt(h: Option<int>, now: Option<int>, sec: Section, add: bool, readonlyAllowed: bool, a: nat) {
    if !Takes(sec, a) || !Slottable(sec, readonlyAllowed) then now == h
    else if add && (sec.isRam || sec.romdMode) then now == Some(sec.ramPtr + sec.offsetInRegion + (a - sec.offset))
    else now == None
  }

  lemma ChangedFollows(before: seq<Slot>, slots: seq<Slot>, c: Change, readonlyAllowed: bool)
    requires Changed(before, slots, EffectOf(c.sec, c.add, readonlyAllowed))
    ensures Follows(before, slots, c, readonlyAllowed)
  {
    hide EffectOf, Takes, Host, After;
    forall a: nat ensures FollowsAt(Host(before, a), Host(slots, a), c.sec, c.add, readonlyAllowed, a) {
      assert Host(slots, a) == After(Host(before, a), a, EffectOf(c.sec, c.add, readonlyAllowed));
      EffectOnMap(c.sec, c.add, readonlyAllowed, Host(before, a), a);
    }
  }

  function Run(h: Option<int>, a: nat, cs: seq<Change>, readonlyAllowed: bool): Option<int> {
    if cs == [] then h
    else After(Run(h, a, cs[..|cs| - 1], readonlyAllowed), a,
               EffectOf(cs[|cs| - 1].sec, cs[|cs| - 1].add, readonlyAllowed))
  }

  function TopRun(top: nat, cs: seq<Change>, readonlyAllowed: bool): nat {
    if cs == [] then top
    else TopAfter(TopRun(top, cs[..|cs| - 1], readonlyAllowed),
                  EffectOf(cs[|cs| - 1].sec, cs[|cs| - 1].add, readonlyAllowed))
  }

  /** Change `i` sees every slot that it overlaps, as can be told from the guest map before the run. */
  ghost predicate VisibleAt(slots: seq<Slot>, cs: seq<Change>, readonlyAllowed: bool, i: nat)
    requires i < |cs|
  {
    var e := EffectOf(cs[i].sec, cs[i].add, readonlyAllowed);
    e.Ignore? ||
    if e.lo + e.size == SPACE
    then forall a :: e.lo <= a < SPACE ==> Run(Host(slots, a), a, cs[..i], readonlyAllowed) == None
    else e.lo + e.size <= TopRun(TopStart(slots), cs[..i], readonlyAllowed)
  }

  ghost predicate Visible(slots: seq<Slot>, cs: seq<Change>, readonlyAllowed: bool) {
    forall i :: 0 <= i < |cs| ==> cs[i].sec.offset + cs[i].sec.size <= SPACE && VisibleAt(slots, cs, readonlyAllowed, i)
  }

  /** The guest map after the first `i` changes of a run. */
  ghost predicate RunSoFar(before: seq<Slot>, slots: seq<Slot>, cs: seq<Change>, readonlyAllowed: bool, i: nat)
    requires i <= |cs|
  {
    && (forall a :: Host(slots, a) == Run(Host(before, a), a, cs[..i], readonlyAllowed))
    && TopStart(slots) == TopRun(TopStart(before), cs[..i], readonlyAllowed)
  }

  lemma SeesNext(before: seq<Slot>, slots: seq<Slot>, cs: seq<Change>, readonlyAllowed: bool, i: nat)
    requires Disjoint(slots) && Below(slots) && i < |cs| && Visible(before, cs, readonlyAllowed)
    requires RunSoFar(before, slots, cs, readonlyAllowed, i)
    ensures cs[i].sec.offset + cs[i].sec.size <= SPACE
    ensures Sees(slots, EffectOf(cs[i].sec, cs[i].add, readonlyAllowed))
  {
    EffectIsWithin(cs[i].sec, cs[i].add, readonlyAllowed);
    hide EffectOf, Disjoint, Below, AllSeen, TopStart, Host, Run, TopRun;
    var e := EffectOf(cs[i].sec, cs[i].add, readonlyAllowed);
    assert VisibleAt(before, cs, readonlyAllowed, i);
    if e.Apply? {
      SeenIs(slots, e.lo, e.lo + e.size);
    }
  }

  lemma RunNext(before: seq<Slot>, mid: seq<Slot>, slots: seq<Slot>, cs: seq<Change>, readonlyAllowed: bool, i: nat)
    requires i < |cs| && RunSoFar(before, mid, cs, readonlyAllowed, i)
    requires var e := EffectOf(cs[i].sec, cs[i].add, readonlyAllowed);
             Changed(mid, slots, e) && TopStart(slots) == TopAfter(TopStart(mid), e)
    ensures RunSoFar(before, slots, cs, readonlyAllowed, i + 1)
  {
    hide EffectOf, TopStart, Host, After, TopAfter;
    assert cs[..i + 1][..i] == cs[..i];
  }

  /** Any run of region_add and region_del callbacks that see what they overlap acts on the guest map
      as the same run of plain map updates. */
  method RunChanges(s: KvmState, cs: seq<Change>, readonlyAllowed: bool) returns (ok: bool)
    requires s.Valid() && Visible(s.slots[..], cs, readonlyAllowed)
    modifies s.slots
    ensures s.Valid()
    ensures ok ==> forall a :: s.Map(a) == Run(old(s.Map(a)), a, cs, readonlyAllowed)
    ensures old(Live(s.slots[..])) + 2 * |cs| <= s.slots.Length ==> ok
  {
    hide EffectOf, Disjoint, Below, AllSeen, TopStart, Live, Host, Run, TopRun, Visible, RunSoFar, Changed;
    ok := true;
    ghost var before := s.slots[..];
    RunStarts(before, cs, readonlyAllowed);
    for i := 0 to |cs|
      invariant s.Valid() && ok && RunSoFar(before, s.slots[..], cs, readonlyAllowed, i)
      invariant Live(s.slots[..]) <= old(Live(s.slots[..])) + 2 * i
    {
      ghost var mid := s.slots[..];
      SeesNext(before, mid, cs, readonlyAllowed, i);
      ok := SetPhysMem(s, cs[i], readonlyAllowed);
      if !ok { return; }
      RunNext(before, mid, s.slots[..], cs, readonlyAllowed, i);
    }
    RunEnds(before, s.slots[..], cs, readonlyAllowed);
  }

  lemma RunStarts(slots: seq<Slot>, cs: seq<Change>, readonlyAllowed: bool)
    ensures RunSoFar(slots, slots, cs, readonlyAllowed, 0)
  {}

  lemma RunEnds(before: seq<Slot>, slots: seq<Slot>, cs: seq<Change>, readonlyAllowed: bool)
    requires RunSoFar(before, slots, cs, readonlyAllowed, |cs|)
    ensures forall a :: Host(slots, a) == Run(Host(before, a), a, cs, readonlyAllowed)
  {
    assert cs[..|cs|] == cs;
  }
}
