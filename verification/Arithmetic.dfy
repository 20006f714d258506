/** Facts about multiplication, quotients and remainders with a divisor that is not a constant. */
module Arithmetic {

  lemma MulMono(a: nat, b: nat, c: nat)
    requires a <= b
    ensures a * c <= b * c
  {}

  lemma DivUnique(x: nat, c: nat, q: nat)
    requires c > 0 && q * c <= x < q * c + c
    ensures x / c == q && x % c == x - q * c
  {
    var d := x / c;
    assert x == d * c + x % c;
    assert (d + 1) * c == d * c + c && (q + 1) * c == q * c + c;
    if d < q { MulMono(d + 1, q, c); }
    if q < d { MulMono(q + 1, d, c); }
  }

  /** Whole turns do not change a remainder. */
  lemma ModTurns(a: nat, turns: nat, c: nat)
    requires c > 0
    ensures (a + turns * c) % c == a % c
  {
    var q, r := a / c, a % c;
    assert a == q * c + r;
    assert (q + turns) * c == q * c + turns * c;
    DivUnique(a + turns * c, c, q + turns);
  }

  /** Two numbers less than `c` apart with the same remainder are equal. */
  lemma ModApart(a: nat, b: nat, c: nat)
    requires c > 0 && a < b < a + c
    ensures a % c != b % c
  {
    var q, r := a / c, a % c;
    assert a == q * c + r;
    if b < q * c + c {
      DivUnique(b, c, q);
    } else {
      assert (q + 1) * c == q * c + c;
      DivUnique(b, c, q + 1);
    }
  }
}
