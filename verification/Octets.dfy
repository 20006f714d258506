/** Bytes as bit vectors, and the byte with a given value. */
module Octets {
  type Byte = bv8

  function Octet(n: nat): (b: Byte)
    requires n < 256
    ensures b as nat == n
  {
    if n == 0 then 0 else Octet(n - 1) + 1
  }

  /** The value of a byte. */
  function Int(b: Byte): (n: nat)
    ensures n < 256
  {
    b as nat
  }

  lemma IntOfOctet(n: nat)
    requires n < 256
    ensures Int(Octet(n)) == n
  {
    hide Octet;
  }

  /** A byte has one value only. */
  lemma OctetOf(b: Byte)
    ensures b as nat < 256 && Octet(b as nat) == b
  {
    hide Octet;
    var c := Octet(b as nat);
    assert c as nat as Byte == b as nat as Byte;
  }
}
