/** Products and quotients that the solver needs help with. */
module Arithmetic {

  lemma TimesMono(a: int, b: int, c: nat)
    ensures a >= b ==> a * c >= b * c
  {
  }

  // ----- shifts by a fixed number of bits -----

  lemma By2(q: nat, r: nat) requires r < 2 ensures (2 * q + r) / 2 == q && (2 * q + r) % 2 == r {}
  lemma By4(q: nat, r: nat) requires r < 4 ensures (4 * q + r) / 4 == q {}
  lemma By128(q: nat, r: nat) requires r < 128 ensures (128 * q + r) / 128 == q {}
  lemma By4096(q: nat, r: nat) requires r < 4096 ensures (4096 * q + r) / 4096 == q && (4096 * q + r) % 4096 == r {}
  lemma By2M(q: nat, r: nat) requires r < 0x20_0000 ensures (0x20_0000 * q + r) / 0x20_0000 == q {}
}
