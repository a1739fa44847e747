/**
  What base64 text decodes to: the decoder seen as sextets that are read in fours. A pad byte
  closes what waits; whether it leaves its own low bits behind, as one sextet with the value 1,
  depends on how full the output buffer is.
*/
module Base64Text {
  import opened Bytes
  import opened Base64Bits
  import opened Base64

  type Sextet = v: nat | v < BAD

  /** The code of a byte that is not skipped: a sextet or PAD. */
  type Sign = v: nat | v <= PAD && v != BAD

  function Codes(bs: seq<byte>): (cs: seq<Sign>) {
    if bs == [] then []
    else (if Code(bs[0]) == BAD then [] else [Code(bs[0])]) + Codes(bs[1..])
  }

  /** The sextets that a decoder holds and has not written. */
  function Held(s: B64State): (w: seq<Sextet>)
    requires s.cnt < 4
    ensures |w| == s.cnt
  {
    match s.cnt
    case 0 => []
    case 1 => [s.quantum % 64]
    case 2 => [s.quantum / 64 % 64, s.quantum % 64]
    case _ => [s.quantum / 0x1000 % 64, s.quantum / 64 % 64, s.quantum % 64]
  }

  function ByteAt0(v0: nat, v1: nat): byte
    requires v0 < 64 && v1 < 64
  {
    v0 * 4 + v1 / 16
  }

  function ByteAt1(v1: nat, v2: nat): byte
    requires v1 < 64 && v2 < 64
  {
    v1 % 16 * 16 + v2 / 4
  }

  function Three(v0: nat, v1: nat, v2: nat, v3: nat): (out: seq<byte>)
    requires v0 < 64 && v1 < 64 && v2 < 64 && v3 < 64
    ensures |out| == 3
  {
    [ByteAt0(v0, v1), ByteAt1(v1, v2), v2 % 4 * 64 + v3]
  }

  /** The bytes of the full groups of four. */
  function Groups(vs: seq<Sextet>): seq<byte> {
    if |vs| < 4 then [] else Three(vs[0], vs[1], vs[2], vs[3]) + Groups(vs[4..])
  }

  /** The whole bytes among fewer than four sextets. */
  function TailOf(w: seq<Sextet>): seq<byte> {
    if |w| == 2 then [ByteAt0(w[0], w[1])]
    else if |w| == 3 then [ByteAt0(w[0], w[1]), ByteAt1(w[1], w[2])]
    else []
  }

  /** The bytes of sextets that a pad byte closes. */
  function Closed(vs: seq<Sextet>): seq<byte> {
    if |vs| < 4 then TailOf(vs) else Three(vs[0], vs[1], vs[2], vs[3]) + Closed(vs[4..])
  }

  /** Where the first pad is. */
  function PadAt(cs: seq<Sign>): (n: nat)
    ensures n <= |cs| && (n < |cs| ==> cs[n] == PAD)
    ensures forall k :: 0 <= k < n ==> cs[k] < BAD
  {
    if cs == [] || cs[0] == PAD then 0 else 1 + PadAt(cs[1..])
  }

  /** The sextets in front of the first pad. */
  function Front(cs: seq<Sign>): (vs: seq<Sextet>)
    ensures |vs| == PadAt(cs)
  {
    cs[..PadAt(cs)]
  }

  /** What cs reads as behind the sextets w, when every pad leaves the sextets left behind. */
  function Read(w: seq<Sextet>, left: seq<Sextet>, cs: seq<Sign>): seq<byte>
    decreases |cs|
  {
    if PadAt(cs) == |cs| then Groups(w + Front(cs))
    else Closed(w + Front(cs)) + Read(left, left, cs[PadAt(cs) + 1..])
  }

  /** What an input decodes to when no pad leaves anything. */
  function Text(s: B64State, bs: seq<byte>): seq<byte>
    requires s.cnt < 4
  {
    Read(Held(s), [], Codes(bs))
  }

  // ---- The quantum as sextets -----------------------------------------------------------

  lemma PushHeld(s: B64State, v: nat)
    requires s.cnt < 3 && v < 64
    ensures PushSextet(s, v).0 == [] && PushSextet(s, v).1.cnt == s.cnt + 1
    ensures Held(PushSextet(s, v).1) == Held(s) + [v]
  {
    hide ShiftIn;
    var q, r := s.quantum, ShiftIn(s.quantum, v);
    LowBits(q, v);
    Digits(q);
    Digits(r);
  }

  /** The low sextets of a number. */
  lemma Digits(q: nat)
    ensures q % 0x1000 == q / 64 % 64 * 64 + q % 64
    ensures q % 0x4_0000 == q / 0x1000 % 64 * 0x1000 + q % 0x1000
  {
    var a, b := q / 64, q / 0x1000;
    Remainder(a / 64, 0x1000, a % 64 * 64 + q % 64);
    Remainder(b / 64, 0x4_0000, b % 64 * 0x1000 + q % 0x1000);
  }

  lemma GroupHeld(s: B64State, v: nat)
    requires s.cnt == 3 && v < 64
    ensures var w := Held(s);
      PushSextet(s, v).0 == Three(w[0], w[1], w[2], v) && PushSextet(s, v).1.cnt == 0
  {
    hide ShiftIn, Quantum;
    var w, r := Held(s), ShiftIn(s.quantum, v);
    LowBits(s.quantum, v);
    Digits(s.quantum);
    Gather(r / 0x100_0000, w[0], w[1], w[2], v);
  }

  lemma Gather(h: nat, v0: nat, v1: nat, v2: nat, v3: nat)
    requires v0 < 64 && v1 < 64 && v2 < 64 && v3 < 64
    ensures Quantum(h * 0x100_0000 + v0 * 0x4_0000 + v1 * 0x1000 + v2 * 64 + v3) == Three(v0, v1, v2, v3)
  {
    hide Quantum;
    var b2: nat := v2 % 4 * 64 + v3;
    ThreeBytes(h, ByteAt0(v0, v1), ByteAt1(v1, v2), b2);
  }

  lemma TailHeld(s: B64State)
    requires s.cnt < 4
    ensures Tail(s) == TailOf(Held(s))
  {
    hide Shifted;
    var q := s.quantum;
    var v0: nat, v1: nat, v2: nat := q / 0x1000 % 64, q / 64 % 64, q % 64;
    Digits(q);
    if s.cnt == 2 {
      TailOfTwo(q / 0x1000, v1, v2);
    } else if s.cnt == 3 {
      TailOfThree(q / 0x4_0000, v0, v1, v2);
    }
  }

  lemma TailOfTwo(h: nat, v0: nat, v1: nat)
    requires v0 < 64 && v1 < 64
    ensures Shifted(h * 0x1000 + v0 * 64 + v1, 0x10) == ByteAt0(v0, v1)
  {
    var b0: nat := ByteAt0(v0, v1);
    Remainder(h * 0x100 + b0, 0x10, v1 % 16);
    ShiftedIs(h * 0x1000 + v0 * 64 + v1, 0x10, h, b0);
  }

  lemma TailOfThree(h: nat, v0: nat, v1: nat, v2: nat)
    requires v0 < 64 && v1 < 64 && v2 < 64
    ensures var q := h * 0x4_0000 + v0 * 0x1000 + v1 * 64 + v2;
      Shifted(q, 0x400) == ByteAt0(v0, v1) && Shifted(q, 4) == ByteAt1(v1, v2)
  {
    var q := h * 0x4_0000 + v0 * 0x1000 + v1 * 64 + v2;
    var b0: nat, b1: nat := ByteAt0(v0, v1), ByteAt1(v1, v2);
    Remainder(h * 0x100 + b0, 0x400, v1 % 16 * 64 + v2);
    ShiftedIs(q, 0x400, h, b0);
    Remainder(h * 0x1_0000 + b0 * 0x100 + b1, 4, v2 % 4);
    ShiftedIs(q, 4, h * 0x100 + b0, b1);
  }

  lemma ShiftedIs(q: nat, pow: nat, h: nat, b: byte)
    requires pow > 0 && q / pow == h * 0x100 + b
    ensures Shifted(q, pow) == b
  {
    Remainder(h, 0x100, b);
  }

  /** A pad that is shifted in leaves one sextet, with the value 1. */
  lemma PadHeld(s: B64State)
    ensures var s' := PushSextet(s.(cnt := 0), PAD).1; s'.cnt == 1 && Held(s') == [1]
  {
    PadLow(s.quantum);
  }

  lemma PadLow(q: nat)
    ensures ShiftIn(q, PAD) % 64 == 1
  {
    var t := if q % 2 == 0 then q * 64 + PAD else q * 64 + PAD - BAD;
    var a := t / WRAP;
    Remainder(if q % 2 == 0 then q + 1 - a * 0x400_0000 else q - a * 0x400_0000, 64, 1);
  }

  // ---- Reading sign by sign -------------------------------------------------------------

  lemma ReadNothing(w: seq<Sextet>, left: seq<Sextet>)
    requires |w| < 4
    ensures Read(w, left, []) == []
  {
    assert w + Front([]) == w;
  }

  lemma PadAtSextet(v: Sextet, cs: seq<Sign>)
    ensures var vs: seq<Sign> := [v] + cs;
      PadAt(vs) == 1 + PadAt(cs) && Front(vs) == [v] + Front(cs) && vs[PadAt(vs)..] == cs[PadAt(cs)..]
  {
    var vs: seq<Sign> := [v] + cs;
    assert vs[1..] == cs;
  }

  lemma ReadOne(w: seq<Sextet>, left: seq<Sextet>, v: Sextet, cs: seq<Sign>)
    ensures Read(w, left, [v] + cs) == Read(w + [v], left, cs)
  {
    hide Groups, Closed;
    PadAtSextet(v, cs);
    var vs: seq<Sign> := [v] + cs;
    Assoc(w, [v], Front(cs));
    if PadAt(cs) < |cs| {
      assert vs[PadAt(vs) + 1..] == cs[PadAt(cs) + 1..];
    }
  }

  lemma ReadFour(left: seq<Sextet>, v0: Sextet, v1: Sextet, v2: Sextet, v3: Sextet, cs: seq<Sign>)
    ensures Read([v0, v1, v2, v3], left, cs) == Three(v0, v1, v2, v3) + Read([], left, cs)
  {
    var vs := [v0, v1, v2, v3] + Front(cs);
    assert vs[4..] == Front(cs) && [] + Front(cs) == Front(cs);
    if PadAt(cs) < |cs| {
      Assoc(Three(v0, v1, v2, v3), Closed(Front(cs)), Read(left, left, cs[PadAt(cs) + 1..]));
    }
  }

  lemma ReadPad(w: seq<Sextet>, left: seq<Sextet>, cs: seq<Sign>)
    requires |w| < 4
    ensures Read(w, left, [PAD] + cs) == TailOf(w) + Read(left, left, cs)
  {
    var vs: seq<Sign> := [PAD] + cs;
    assert vs[1..] == cs && w + Front(vs) == w;
  }

  /** A sextet shifted in: what it writes, then what is read from the new state. */
  lemma ReadPush(s: B64State, left: seq<Sextet>, v: Sextet, cs: seq<Sign>)
    requires s.cnt < 4
    ensures var (now, s') := PushSextet(s, v);
      s'.cnt < 4 && Read(Held(s), left, [v] + cs) == now + Read(Held(s'), left, cs)
  {
    hide PushSextet, Read, Held;
    ReadOne(Held(s), left, v, cs);
    var (now, s') := PushSextet(s, v);
    if s.cnt < 3 {
      PushHeld(s, v);
      assert [] + Read(Held(s'), left, cs) == Read(Held(s'), left, cs);
    } else {
      GroupHeld(s, v);
      var w := Held(s);
      assert w + [v] == [w[0], w[1], w[2], v];
      ReadFour(left, w[0], w[1], w[2], v, cs);
      assert Held(s') == [];
    }
  }

  lemma CodesSplit(a: seq<byte>, b: seq<byte>)
    ensures Codes(a + b) == Codes(a) + Codes(b)
  {
    if a == [] {
      assert a + b == b;
    } else {
      assert (a + b)[1..] == a[1..] + b;
      CodesSplit(a[1..], b);
    }
  }

  lemma CodesOne(bs: seq<byte>)
    requires bs != []
    ensures Code(bs[0]) == BAD ==> Codes(bs) == Codes(bs[1..])
    ensures Code(bs[0]) != BAD ==> Codes(bs) == [Code(bs[0])] + Codes(bs[1..])
  {
  }
}
