/**
  The base64 decoder (RFC 4648, section 4): bytes outside the alphabet are skipped, six bits at
  a time are shifted into a 32-bit quantum, and every fourth sextet writes three bytes. It
  resumes at any byte and stops when fewer than three bytes of the buffer may be left.
  */
module Base64 {
  import opened Bytes
  import opened Base64Bits

  /** The value of a byte: a sextet, PAD for '=', or BAD for a byte to skip. */
  function Code(c: byte): (v: nat)
    ensures v <= PAD
    ensures v == PAD <==> c == EQ
  {
    if IsUpper(c) then c - 0x41
    else if IsLower(c) then c - 0x61 + 26
    else if IsDigit(c) then c - 0x30 + 52
    else if c == 0x2B then 62
    else if c == SLASH then 63
    else if c == EQ then PAD
    else BAD
  }

  /** The last 32 bits shifted in, and how many sextets of them are not written yet. */
  datatype B64State = B64State(quantum: nat, cnt: nat) {
    ghost predicate Valid() { quantum < WRAP && cnt < 4 }
  }

  /** What a pad byte writes: the whole bytes among the sextets that wait. */
  function Tail(s: B64State): (out: seq<byte>)
    ensures |out| < 3
  {
    if s.cnt == 2 then [Shifted(s.quantum, 0x10)]
    else if s.cnt == 3 then [Shifted(s.quantum, 0x400), Shifted(s.quantum, 4)]
    else []
  }

  function PushSextet(s: B64State, v: nat): (r: (seq<byte>, B64State))
    requires v <= PAD
    ensures s.cnt < 4 ==> r.1.Valid()
  {
    var q := ShiftIn(s.quantum, v);
    if s.cnt + 1 >= 4 then (Quantum(q), B64State(q, 0)) else ([], B64State(q, s.cnt + 1))
  }

  /**
    One byte that counts: what it writes, the state, and whether the call ends. A pad byte
    writes what waits and is then shifted in like a sextet, unless the buffer is full.
    */
  function Take(s: B64State, v: nat, written: nat, lim: nat): (r: (seq<byte>, B64State, bool))
    requires v <= PAD
    ensures s.Valid() ==> r.1.Valid()
  {
    if v == PAD && written + |Tail(s)| >= lim then (Tail(s), s.(cnt := 0), true)
    else if v == PAD then (Tail(s), PushSextet(s.(cnt := 0), v).1, false)
    else
      var (now, s') := PushSextet(s, v);
      (now, s', now != [] && written + |now| >= lim)
  }

  /** One call: lim is the buffer length less three and written what it already holds. */
  function Fill(s: B64State, bs: seq<byte>, written: nat, lim: nat): (r: (seq<byte>, B64State, nat))
    ensures r.2 <= |bs| && (bs != [] ==> r.2 > 0)
    ensures s.Valid() ==> r.1.Valid()
    decreases |bs|
  {
    if bs == [] then ([], s, 0)
    else if Code(bs[0]) == BAD then Onward([], Fill(s, bs[1..], written, lim))
    else
      var (out, s', stop) := Take(s, Code(bs[0]), written, lim);
      if stop then (out, s', 1) else Onward(out, Fill(s', bs[1..], written + |out|, lim))
  }

  function Onward(out: seq<byte>, r: (seq<byte>, B64State, nat)): (seq<byte>, B64State, nat) {
    (out + r.0, r.1, r.2 + 1)
  }

  /** All calls that an input takes. */
  function DecodeAll(s: B64State, bs: seq<byte>, lim: nat): (r: (seq<byte>, B64State))
    ensures s.Valid() ==> r.1.Valid()
    decreases |bs|
  {
    if bs == [] then ([], s)
    else
      var (out, s1, used) := Fill(s, bs, 0, lim);
      var (more, s') := DecodeAll(s1, bs[used..], lim);
      (out + more, s')
  }

  // ---- The standard's encoding ----------------------------------------------------------

  function Char(v: nat): (c: byte)
    requires v < 64
    ensures Code(c) == v
  {
    if v < 26 then 0x41 + v
    else if v < 52 then 0x61 + (v - 26)
    else if v < 62 then 0x30 + (v - 52)
    else if v == 62 then 0x2B else SLASH
  }

  /** The encoding of RFC 4648, section 4, padded to whole groups of four. */
  function Encode(b: seq<byte>): seq<byte> {
    if b == [] then []
    else if |b| == 1 then [Char(b[0] / 4), Char(b[0] % 4 * 16), EQ, EQ]
    else if |b| == 2 then
      [Char(b[0] / 4), Char(b[0] % 4 * 16 + b[1] / 16), Char(b[1] % 16 * 4), EQ]
    else
      [Char(b[0] / 4), Char(b[0] % 4 * 16 + b[1] / 16), Char(b[1] % 16 * 4 + b[2] / 64), Char(b[2] % 64)]
      + Encode(b[3..])
  }

  /** The input without the bytes the decoder skips. */
  function Relevant(bs: seq<byte>): seq<byte> {
    if bs == [] then []
    else (if Code(bs[0]) == BAD then [] else [bs[0]]) + Relevant(bs[1..])
  }

  // ---- The decoder as a loop ------------------------------------------------------------

  class B64Decoder {
    var quantum: nat
    var quantumCnt: nat

    ghost predicate Valid()
      reads this
    {
      View().Valid()
    }

    ghost function View(): B64State
      reads this
    {
      B64State(quantum, quantumCnt)
    }

    constructor ()
      ensures Valid() && quantumCnt == 0
    {
      quantum, quantumCnt := 0, 0;
    }

    /** One call. Every write stays inside the buffer although only its length less three is tested. */
    method B64Decode(bs: seq<byte>, out: array<byte>) returns (outLen: nat, consumed: nat)
      requires Valid()
      modifies this, out
      ensures Valid() && outLen <= out.Length
      ensures out.Length < 3 ==> outLen == 0 && consumed == 0 && View() == old(View())
      ensures out.Length >= 3 ==>
        (out[..outLen], View(), consumed) == Fill(old(View()), bs, 0, out.Length - 3)
    {
      if out.Length < 3 {
        return 0, 0;
      }
      hide Fill, Take, Onward, Code, ShiftIn, PushSextet, Tail, Later;
      var outLim := out.Length - 3;
      var i: nat, result: nat := 0, 0;
      ghost var whole := Fill(View(), bs, 0, outLim);
      ghost var written: seq<byte> := [];
      assert bs[0..] == bs;
      LaterNothing(whole);
      while i < |bs|
        invariant Valid() && i <= |bs| && (result == 0 || result < outLim)
        invariant |written| == result && written == out[..result]
        invariant whole == Later(written, i, Fill(View(), bs[i..], result, outLim))
        decreases |bs| - i
      {
        FillStep(View(), bs, i, written, outLim);
        var v := Code(bs[i]);
        i := i + 1;
        if v != BAD {
          ghost var now := Take(View(), v, result, outLim).0;
          var stop;
          result, stop := TakeByte(out, result, v, outLim);
          written := written + now;
          if stop {
            return result, i;
          }
        }
      }
      FillNothing(View(), result, outLim);
      LaterEnd(written, i, View());
      assert bs[i..] == [];
      return result, i;
    }

    method TakeByte(out: array<byte>, at: nat, v: nat, outLim: nat) returns (result: nat, stop: bool)
      requires Valid() && v <= PAD && at + 3 <= out.Length && outLim == out.Length - 3
      requires at == 0 || at < outLim
      modifies this, out
      ensures Valid() && result <= out.Length
      ensures var (now, s', end) := Take(old(View()), v, at, outLim);
        out[..result] == old(out[..at]) + now && View() == s' && stop == end
      ensures !stop ==> result == 0 || result < outLim
    {
      result := at;
      if v == PAD {
        result := PutTail(out, result);
        quantumCnt := 0;
        if result >= outLim {
          return result, true;
        }
      }
      var wrote;
      result, wrote := PutSextet(out, result, v);
      stop := wrote && result >= outLim;
    }

    /** The quantum update: every fourth sextet writes three bytes. */
    method PutSextet(out: array<byte>, at: nat, v: nat) returns (result: nat, wrote: bool)
      requires Valid() && v <= PAD && at + 3 <= out.Length
      modifies this, out
      ensures Valid() && result == at + |PushSextet(old(View()), v).0|
      ensures out[..result] == old(out[..at]) + PushSextet(old(View()), v).0
      ensures View() == PushSextet(old(View()), v).1
      ensures wrote <==> PushSextet(old(View()), v).0 != []
    {
      result, wrote := at, false;
      quantum := ShiftIn(quantum, v);
      quantumCnt := quantumCnt + 1;
      if quantumCnt >= 4 {
        quantumCnt := 0;
        out[at], out[at + 1], out[at + 2] := Shifted(quantum, 0x1_0000), Shifted(quantum, 0x100), Shifted(quantum, 1);
        result, wrote := at + 3, true;
      }
    }

    method PutTail(out: array<byte>, at: nat) returns (result: nat)
      requires at + 3 <= out.Length
      modifies out
      ensures result == at + |Tail(View())| && out[..result] == old(out[..at]) + Tail(View())
    {
      result := at;
      match quantumCnt {
        case 2 =>
          out[at] := Shifted(quantum, 0x10);
          result := at + 1;
        case 3 =>
          out[at], out[at + 1] := Shifted(quantum, 0x400), Shifted(quantum, 4);
          result := at + 2;
        case _ =>
      }
    }
  }

  lemma FillNothing(s: B64State, written: nat, lim: nat)
    ensures Fill(s, [], written, lim) == ([], s, 0)
  {
  }

  /** The result of a call that has already written done and used i bytes. */
  function Later(done: seq<byte>, i: nat, r: (seq<byte>, B64State, nat)): (seq<byte>, B64State, nat) {
    (done + r.0, r.1, i + r.2)
  }

  lemma LaterNothing(r: (seq<byte>, B64State, nat))
    ensures Later([], 0, r) == r
  {
    assert [] + r.0 == r.0;
  }

  lemma LaterEnd(done: seq<byte>, i: nat, s: B64State)
    ensures Later(done, i, ([], s, 0)) == (done, s, i)
  {
    assert done + [] == done;
  }

  /** One byte of a call: what it writes, and whether the call goes on. */
  lemma FillStep(s: B64State, bs: seq<byte>, i: nat, done: seq<byte>, lim: nat)
    requires i < |bs|
    ensures var whole := Later(done, i, Fill(s, bs[i..], |done|, lim));
      && (Code(bs[i]) == BAD ==> whole == Later(done, i + 1, Fill(s, bs[i + 1..], |done|, lim)))
      && (Code(bs[i]) != BAD ==>
            var (now, s', stop) := Take(s, Code(bs[i]), |done|, lim);
            if stop then whole == (done + now, s', i + 1)
            else whole == Later(done + now, i + 1, Fill(s', bs[i + 1..], |done + now|, lim)))
  {
    hide Take;
    assert bs[i..][1..] == bs[i + 1..];
    if Code(bs[i]) == BAD {
      assert [] + Fill(s, bs[i + 1..], |done|, lim).0 == Fill(s, bs[i + 1..], |done|, lim).0;
    } else {
      var (now, s', stop) := Take(s, Code(bs[i]), |done|, lim);
      if !stop {
        Assoc(done, now, Fill(s', bs[i + 1..], |done| + |now|, lim).0);
      }
    }
  }

  /** The alphabet of RFC 4648, section 4: '=' pads, and every byte outside of it is passed over. */
  lemma InByteValues(c: byte)
    ensures 'A' as int <= c <= 'Z' as int ==> Code(c) == c - 'A' as int
    ensures 'a' as int <= c <= 'z' as int ==> Code(c) == c - 'a' as int + 26
    ensures '0' as int <= c <= '9' as int ==> Code(c) == c - '0' as int + 52
    ensures (c == '+' as int ==> Code(c) == 62) && (c == '/' as int ==> Code(c) == 63)
    ensures Code(c) == PAD <==> c == '=' as int
    ensures Code(c) == BAD <==>
      && !('A' as int <= c <= 'Z' as int) && !('a' as int <= c <= 'z' as int) && !('0' as int <= c <= '9' as int)
      && c != '+' as int && c != '/' as int && c != '=' as int
  {
  }

  /** "Man" is "TWFu", and "Ma" is "TWE=". */
  lemma EncodesInBytes()
    ensures Encode([0x4D, 0x61, 0x6E]) == [0x54, 0x57, 0x46, 0x75] && Encode([0x4D, 0x61]) == [0x54, 0x57, 0x45, 0x3D]
  {
    assert [0x4D, 0x61, 0x6E][3..] == [];
  }
}
