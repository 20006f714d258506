/**
 * Arithmetic of the physical page radix tree: a tree of 512-way nodes whose
 * slots at height `h` each cover `Span(h)` consecutive guest pages. Shifts by
 * `h * 9` bits are written as `h` divisions by 512.
 */
module Radix {

  const L2_SIZE: nat := 512

  /** Number of pages covered by one slot at height `h`: `1 << (h * 9)`. */
  function Span(h: nat): (r: nat)
    ensures r >= 1
  {
    if h == 0 then 1 else 512 * Span(h - 1)
  }

  /** `(x >> (h * 9)) & 511`: the slot that page `x` falls in, in a node with slots of height `h`. */
  function Digit(x: nat, h: nat): (r: nat)
    ensures r < L2_SIZE
  {
    if h == 0 then x % 512 else Digit(x / 512, h - 1)
  }

  /** `(x & ((1 << (h * 9)) - 1)) == 0` */
  predicate Aligned(x: nat, h: nat) {
    h == 0 || (x % 512 == 0 && Aligned(x / 512, h - 1))
  }

  /** First page of slot `k` of a node that starts at page `b` and has slots of height `h`. */
  function SlotBase(b: nat, h: nat, k: nat): (r: nat)
    ensures r >= b
  {
    if k == 0 then b else SlotBase(b, h, k - 1) + Span(h)
  }

  predicate InSlot(b: nat, h: nat, k: nat, x: nat) {
    SlotBase(b, h, k) <= x < SlotBase(b, h, k) + Span(h)
  }

  lemma {:induction false} SlotClosed(b: nat, h: nat, k: nat)
    ensures SlotBase(b, h, k) == b + k * Span(h)
  {
    if k > 0 { SlotClosed(b, h, k - 1); }
  }

  lemma {:induction false} SlotsDisjoint(b: nat, h: nat, j: nat, k: nat)
    requires j < k
    ensures SlotBase(b, h, j) + Span(h) <= SlotBase(b, h, k)
  {
    if j < k - 1 { SlotsDisjoint(b, h, j, k - 1); }
  }

  lemma SlotInside(b: nat, h: nat, k: nat)
    requires k < L2_SIZE
    ensures SlotBase(b, h, k) + Span(h) <= b + Span(h + 1)
    ensures SlotBase(b, h, L2_SIZE) == b + Span(h + 1)
  {
    SlotsDisjoint(b, h, k, L2_SIZE);
    SlotClosed(b, h, L2_SIZE);
  }

  lemma {:induction false} SlotScale(b: nat, h: nat, k: nat)
    ensures SlotBase(512 * b, h + 1, k) == 512 * SlotBase(b, h, k)
  {
    if k > 0 { SlotScale(b, h, k - 1); }
  }

  /** Slots are exactly the digit classes of a node that starts on its own boundary. */
  lemma {:induction false} DigitIsSlot(b: nat, h: nat, x: nat)
    requires Aligned(b, h + 1) && b <= x < b + Span(h + 1)
    ensures InSlot(b, h, Digit(x, h), x)
  {
    if h == 0 {
      SlotClosed(b, 0, x % 512);
    } else {
      DigitIsSlot(b / 512, h - 1, x / 512);
      SlotScale(b / 512, h - 1, Digit(x, h));
    }
  }

  lemma SlotIsDigit(b: nat, h: nat, k: nat, x: nat)
    requires Aligned(b, h + 1) && k < L2_SIZE && InSlot(b, h, k, x)
    ensures b <= x < b + Span(h + 1) && Digit(x, h) == k
  {
    SlotInside(b, h, k);
    DigitIsSlot(b, h, x);
    var d := Digit(x, h);
    if d < k { SlotsDisjoint(b, h, d, k); }
    if k < d { SlotsDisjoint(b, h, k, d); }
  }

  lemma ShiftOut(x: nat, s: nat)
    ensures (x + 512 * s) / 512 == x / 512 + s
    ensures (x + 512 * s) % 512 == x % 512
  {}

  lemma {:induction false} AlignedStep(x: nat, h: nat)
    requires Aligned(x, h)
    ensures Aligned(x + Span(h), h)
  {
    if h > 0 {
      AlignedStep(x / 512, h - 1);
      ShiftOut(x, Span(h - 1));
    }
  }

  lemma {:induction false} AlignedDown(x: nat, h: nat)
    requires Aligned(x, h + 1)
    ensures Aligned(x, h)
  {
    if h > 0 { AlignedDown(x / 512, h - 1); }
  }

  /** A slot of an aligned node is itself aligned. */
  lemma {:induction false} SlotAligned(b: nat, h: nat, k: nat)
    requires Aligned(b, h + 1)
    ensures Aligned(SlotBase(b, h, k), h)
  {
    if k == 0 {
      AlignedDown(b, h);
    } else {
      SlotAligned(b, h, k - 1);
      AlignedStep(SlotBase(b, h, k - 1), h);
    }
  }

  lemma {:induction false} SameBoundary(a: nat, x: nat, h: nat)
    requires Aligned(a, h) && Aligned(x, h) && a <= x < a + Span(h)
    ensures a == x
  {
    if h > 0 { SameBoundary(a / 512, x / 512, h - 1); }
  }

  /** Moving by whole slots of height `h` keeps every digit below `h`. */
  lemma {:induction false} DigitShift(x: nat, h: nat, i: nat)
    requires i < h
    ensures Digit(x + Span(h), i) == Digit(x, i)
    decreases h
  {
    ShiftOut(x, Span(h - 1));
    if i > 0 { DigitShift(x / 512, h - 1, i - 1); }
  }
}
