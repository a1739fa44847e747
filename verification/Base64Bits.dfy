/**
  The 32-bit quantum of the base64 decoder: shifting sextets in, and the bytes in its low bits.
  */
module Base64Bits {
  import opened Bytes

  const BAD := 0x40
  const PAD := 0x41
  const WRAP := 0x1_0000_0000

  /**
    (quantum << 6) | v in 32 bits. A sextet fills the six free bits; PAD also sets bit 6, which
    is the lowest bit of the quantum before.
    */
  function ShiftIn(q: nat, v: nat): (r: nat)
    requires v <= PAD
    ensures r < WRAP
  {
    if v < BAD then (q * 64 + v) % WRAP
    else if q % 2 == 0 then (q * 64 + v) % WRAP
    else (q * 64 + v - BAD) % WRAP
  }

  /** byte(q >> n), the shift given as a power of two. */
  function Shifted(q: nat, pow: nat): byte
    requires pow > 0
  {
    q / pow % 0x100
  }

  function Quantum(q: nat): (out: seq<byte>)
    ensures |out| == 3
  {
    [Shifted(q, 0x1_0000), Shifted(q, 0x100), Shifted(q, 1)]
  }

  /** The low bits of a quantum are what was shifted in last. */
  lemma LowBits(q: nat, v: nat)
    requires v < 64
    ensures var r := ShiftIn(q, v);
      && r % 64 == v
      && r % 0x1000 == q % 64 * 64 + v
      && r % 0x4_0000 == q % 0x1000 * 64 + v
      && r % 0x100_0000 == q % 0x4_0000 * 64 + v
  {
    var r, a := ShiftIn(q, v), (q * 64 + v) / WRAP;
    LowSextet(q, v, a, r);
    LowTwo(q, v, a, r);
    LowThree(q, v, a, r);
    LowFour(q, v, a, r);
  }

  lemma LowSextet(q: nat, v: nat, a: nat, r: nat)
    requires v < 64 && r == q * 64 + v - a * WRAP
    ensures r % 64 == v
  {
    Remainder(q - a * 0x400_0000, 64, v);
  }

  lemma LowTwo(q: nat, v: nat, a: nat, r: nat)
    requires v < 64 && r == q * 64 + v - a * WRAP
    ensures r % 0x1000 == q % 64 * 64 + v
  {
    Remainder(q / 64 - a * 0x10_0000, 0x1000, q % 64 * 64 + v);
  }

  lemma LowThree(q: nat, v: nat, a: nat, r: nat)
    requires v < 64 && r == q * 64 + v - a * WRAP
    ensures r % 0x4_0000 == q % 0x1000 * 64 + v
  {
    Remainder(q / 0x1000 - a * 0x4000, 0x4_0000, q % 0x1000 * 64 + v);
  }

  lemma LowFour(q: nat, v: nat, a: nat, r: nat)
    requires v < 64 && r == q * 64 + v - a * WRAP
    ensures r % 0x100_0000 == q % 0x4_0000 * 64 + v
  {
    Remainder(q / 0x4_0000 - a * 0x100, 0x100_0000, q % 0x4_0000 * 64 + v);
  }

  /** Division with remainder is unique. */
  lemma Remainder(h: int, m: nat, l: nat)
    requires l < m
    ensures (h * m + l) % m == l && (h * m + l) / m == h
  {
    var r := h * m + l;
    assert r == r / m * m + r % m;
    Difference(r / m, h, m);
    Small(r / m - h, m);
  }

  lemma Difference(a: int, b: int, m: nat)
    ensures (a - b) * m == a * m - b * m
  {
  }

  lemma Small(d: int, m: nat)
    ensures d * m < m && d * m + m > 0 ==> d == 0
  {
    Difference(d, 1, m);
    Difference(-1, d, m);
    Sign(d - 1, m);
    Sign(-1 - d, m);
  }

  lemma Sign(x: int, m: nat)
    ensures x >= 0 ==> x * m >= 0
  {
  }

  /** The bytes of a quantum whose low 24 bits hold them. */
  lemma ThreeBytes(h: nat, b0: byte, b1: byte, b2: byte)
    ensures Quantum(h * 0x100_0000 + b0 * 0x1_0000 + b1 * 0x100 + b2) == [b0, b1, b2]
  {
    var q := h * 0x100_0000 + b0 * 0x1_0000 + b1 * 0x100 + b2;
    Remainder(h * 0x100 + b0, 0x1_0000, b1 * 0x100 + b2);
    Remainder(h, 0x100, b0);
    Remainder(h * 0x1_0000 + b0 * 0x100 + b1, 0x100, b2);
    Remainder(h * 0x100 + b0, 0x100, b1);
    assert q / 1 == q;
  }
}
