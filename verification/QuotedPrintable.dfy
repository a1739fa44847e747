/**
  The quoted-printable decoder (RFC 2045, section 6.7). It resumes at any byte, writes into a
  buffer of any size, and pushes the bytes of a broken escape back as literal text, one byte
  each time it is next given input.
  */
module QuotedPrintable {
  import opened Bytes

  datatype QpSt = QpIdle | QpEq | Qp1 | QpFail1 | QpFail2 | QpFail3

  /** The decoder's fields as a value: the two bytes after '=', the first hex digit, the state. */
  datatype QpState = QpState(x: byte, y: byte, n: byte, st: QpSt)

  type Digit = d: int | 0 <= d < 16

  function HexDigit(c: byte): Option<Digit> {
    if IsDigit(c) then Some(c - 0x30)
    else if 0x61 <= c <= 0x66 then Some(c - 0x57)
    else if 0x41 <= c <= 0x46 then Some(c - 0x37)
    else None
  }

  function FromDigits(hi: nat, lo: nat): (b: byte)
    requires hi < 16 && lo < 16
  {
    hi * 16 + lo
  }

  // ---- The transducer -------------------------------------------------------------------

  /** Bytes pushed back and still to be written. */
  function Pending(s: QpState): seq<byte> {
    match s.st
    case QpFail1 => [s.x]
    case QpFail2 => [s.x, s.y]
    case QpFail3 => [s.y]
    case _ => []
  }

  /** The state after the first pending byte is written. */
  function AfterPending(s: QpState): QpState
    requires Pending(s) != []
  {
    if s.st.QpFail2? then s.(st := QpFail3) else s.(st := QpIdle)
  }

  /** One input byte with nothing pending: what it writes, and the state after it. */
  function QpByte(s: QpState, c: byte): (r: (seq<byte>, QpState))
    requires Pending(s) == []
    requires s.n < 16
    ensures |r.0| <= 1 && r.1.n < 16
  {
    match s.st
    case QpIdle => if c == EQ then ([], s.(st := QpEq)) else ([c], s)
    case QpEq =>
      if c == LF then ([], s.(x := c, st := QpIdle))
      else if c == CR then ([], s.(x := c, st := Qp1))
      else (match HexDigit(c)
            case Some(d) => ([], s.(x := c, n := d, st := Qp1))
            case None => ([EQ], s.(x := c, st := QpFail1)))
    case _ =>
      if s.x == CR then
        if c == LF then ([], s.(y := c, st := QpIdle)) else ([EQ], s.(y := c, st := QpFail2))
      else (match HexDigit(c)
            case Some(d) => ([FromDigits(s.n, d)], s.(y := c, st := QpIdle))
            case None => ([EQ], s.(y := c, st := QpFail2)))
  }

  /** The whole run: pending bytes are written only while input is left. */
  function QpRun(s: QpState, bs: seq<byte>): (r: (seq<byte>, QpState))
    requires s.n < 16
    ensures r.1.n < 16
    decreases |bs|, |Pending(s)|
  {
    if bs == [] then ([], s)
    else if Pending(s) != [] then
      var (out, s') := QpRun(AfterPending(s), bs);
      ([Pending(s)[0]] + out, s')
    else
      var (now, s1) := QpByte(s, bs[0]);
      var (out, s') := QpRun(s1, bs[1..]);
      (now + out, s')
  }

  lemma RunWrites(s: QpState, bs: seq<byte>)
    requires s.n < 16 && bs != [] && Pending(s) != []
    ensures QpRun(s, bs).0 == [Pending(s)[0]] + QpRun(AfterPending(s), bs).0
    ensures QpRun(s, bs).1 == QpRun(AfterPending(s), bs).1
  {
  }

  lemma RunReads(s: QpState, bs: seq<byte>)
    requires s.n < 16 && bs != [] && Pending(s) == []
    ensures QpRun(s, bs).0 == QpByte(s, bs[0]).0 + QpRun(QpByte(s, bs[0]).1, bs[1..]).0
    ensures QpRun(s, bs).1 == QpRun(QpByte(s, bs[0]).1, bs[1..]).1
  {
    hide QpByte;
  }

  /** Input may be split anywhere: outputs are joined, the state is handed on. */
  lemma {:induction false} QpRunSplits(s: QpState, a: seq<byte>, b: seq<byte>)
    requires s.n < 16
    ensures var (out, s') := QpRun(s, a);
      QpRun(s, a + b) == (out + QpRun(s', b).0, QpRun(s', b).1)
    decreases |a|, |Pending(s)|
  {
    hide QpByte;
    if a == [] {
      assert a + b == b;
      assert [] + QpRun(s, b).0 == QpRun(s, b).0;
    } else if Pending(s) != [] {
      QpRunSplits(AfterPending(s), a, b);
      var (out, s') := QpRun(AfterPending(s), a);
      var first := [Pending(s)[0]];
      Assoc(first, out, QpRun(s', b).0);
    } else {
      var (now, s1) := QpByte(s, a[0]);
      QpRunSplits(s1, a[1..], b);
      assert (a + b)[1..] == a[1..] + b;
      var (out, s') := QpRun(s1, a[1..]);
      Assoc(now, out, QpRun(s', b).0);
    }
  }

  // ---- What it decodes ------------------------------------------------------------------

  /**
    Decoding by looking ahead: a good escape is its byte, a soft break is nothing, a broken
    escape is itself, and an escape cut off by the end of the input is nothing.
    */
  function QpText(bs: seq<byte>): seq<byte>
    decreases |bs|
  {
    if bs == [] then []
    else if bs[0] != EQ then [bs[0]] + QpText(bs[1..])
    else if |bs| == 1 then []
    else if bs[1] == LF then QpText(bs[2..])
    else if bs[1] != CR && HexDigit(bs[1]).None? then bs[..2] + QpText(bs[2..])
    else if |bs| == 2 then []
    else if bs[1] == CR then (if bs[2] == LF then [] else bs[..3]) + QpText(bs[3..])
    else match HexDigit(bs[2])
      case Some(d) => [FromDigits(HexDigit(bs[1]).value, d)] + QpText(bs[3..])
      case None => bs[..3] + QpText(bs[3..])
  }

  /** Two steps of a run from idle over a byte that starts no escape, or over an escape. */
  lemma RunPlain(s: QpState, bs: seq<byte>)
    requires s.st.QpIdle? && s.n < 16 && bs != [] && bs[0] != EQ
    ensures QpRun(s, bs) == ([bs[0]] + QpRun(s, bs[1..]).0, QpRun(s, bs[1..]).1)
  {
  }

  lemma RunEscape(s: QpState, bs: seq<byte>)
    requires s.st.QpIdle? && s.n < 16 && |bs| >= 2 && bs[0] == EQ
    ensures var (now, s2) := QpByte(s.(st := QpEq), bs[1]);
      QpRun(s, bs) == (now + QpRun(s2, bs[2..]).0, QpRun(s2, bs[2..]).1)
  {
    var s1 := s.(st := QpEq);
    var (now, s2) := QpByte(s1, bs[1]);
    assert QpRun(s1, bs[1..]) == (now + QpRun(s2, bs[1..][1..]).0, QpRun(s2, bs[1..][1..]).1);
    assert bs[1..][1..] == bs[2..];
    assert [] + (now + QpRun(s2, bs[2..]).0) == now + QpRun(s2, bs[2..]).0;
  }

  lemma RunNothing(s: QpState)
    requires s.n < 16
    ensures QpRun(s, []) == ([], s)
  {
  }

  lemma RunSecond(s: QpState, bs: seq<byte>)
    requires s.st.Qp1? && s.n < 16 && bs != []
    ensures var (now, s2) := QpByte(s, bs[0]);
      QpRun(s, bs) == (now + QpRun(s2, bs[1..]).0, QpRun(s2, bs[1..]).1)
  {
  }

  /** Pending bytes come out in front of what the rest yields from idle, unless no input is left. */
  lemma RunPending(s: QpState, bs: seq<byte>)
    requires s.n < 16 && Pending(s) != []
    ensures bs == [] ==> QpRun(s, bs) == ([], s)
    ensures bs != [] ==>
      var (out, s') := QpRun(s.(st := QpIdle), bs);
      QpRun(s, bs) == (Pending(s) + out, s')
  {
    if bs != [] && s.st.QpFail2? {
      var out := QpRun(s.(st := QpIdle), bs).0;
      assert [s.x] + ([s.y] + out) == [s.x, s.y] + out;
    }
  }

  /** Every byte written or still pending is what looking ahead says, on every input. */
  lemma {:induction false} RunIsText(s: QpState, bs: seq<byte>)
    requires s.st.QpIdle? && s.n < 16
    ensures var (out, s') := QpRun(s, bs);
      out + Pending(s') == QpText(bs)
    decreases |bs|, 2
  {
    if bs == [] {
    } else if bs[0] != EQ {
      RunPlain(s, bs);
      RunIsText(s, bs[1..]);
    } else if |bs| == 1 {
      assert QpRun(s.(st := QpEq), bs[1..]) == ([], s.(st := QpEq));
    } else {
      RunEscape(s, bs);
      EscapeIsText(s, bs);
    }
  }

  lemma {:induction false} EscapeIsText(s: QpState, bs: seq<byte>)
    requires s.st.QpIdle? && s.n < 16 && |bs| >= 2 && bs[0] == EQ
    ensures var (out, s') := QpRun(s, bs);
      out + Pending(s') == QpText(bs)
    decreases |bs|, 1
  {
    hide QpRun;
    RunEscape(s, bs);
    var s2 := QpByte(s.(st := QpEq), bs[1]).1;
    if s2.st.QpIdle? {
      RunIsText(s2, bs[2..]);
    } else if s2.st.QpFail1? {
      FailIsText(s2, [EQ], bs[2..]);
      assert bs[..2] == [EQ] + [s2.x];
    } else if |bs| == 2 {
      RunNothing(s2);
      assert bs[2..] == [];
    } else {
      LongEscapeIsText(s2, bs);
    }
  }

  /** After a failed escape: what was written of it, its pending bytes, and then the rest as text. */
  lemma {:induction false} FailIsText(s: QpState, written: seq<byte>, bs: seq<byte>)
    requires s.n < 16 && Pending(s) != []
    ensures var (out, s') := QpRun(s, bs);
      written + out + Pending(s') == written + Pending(s) + QpText(bs)
    decreases |bs|, 3
  {
    hide QpRun, QpText;
    RunPending(s, bs);
    RunIsText(s.(st := QpIdle), bs);
    if bs == [] {
      RunNothing(s.(st := QpIdle));
    }
  }

  lemma {:induction false} LongEscapeIsText(s2: QpState, bs: seq<byte>)
    requires s2.st.Qp1? && s2.n < 16 && |bs| >= 3 && bs[0] == EQ && s2.x == bs[1]
    requires bs[1] == CR || HexDigit(bs[1]) == Some(s2.n)
    ensures var (out, s') := QpRun(s2, bs[2..]);
      out + Pending(s') == QpText(bs)
    decreases |bs|, 0
  {
    hide QpRun;
    RunSecond(s2, bs[2..]);
    assert bs[2..][1..] == bs[3..];
    var (now, s3) := QpByte(s2, bs[2]);
    if s3.st.QpFail2? {
      FailIsText(s3, now, bs[3..]);
      assert bs[..3] == [EQ] + [s3.x, s3.y];
    } else {
      RunIsText(s3, bs[3..]);
    }
  }

  // ---- Round trip -----------------------------------------------------------------------

  /** The pieces of an encoding: a literal byte, an escape with its two letter cases, a soft break. */
  datatype QpToken = Literal(b: byte) | Escape(v: byte, upHi: bool, upLo: bool) | SoftBreak(cr: bool)

  predicate GoodToken(t: QpToken) {
    t.Literal? ==> t.b != EQ
  }

  function DigitByte(d: nat, up: bool): (c: byte)
    requires d < 16
    ensures HexDigit(c) == Some(d)
  {
    if d < 10 then 0x30 + d else if up then 0x37 + d else 0x57 + d
  }

  function TokenBytes(t: QpToken): seq<byte> {
    match t
    case Literal(b) => [b]
    case Escape(v, upHi, upLo) => [EQ, DigitByte(v / 16, upHi), DigitByte(v % 16, upLo)]
    case SoftBreak(cr) => if cr then [EQ, CR, LF] else [EQ, LF]
  }

  function TokenValue(t: QpToken): seq<byte> {
    match t
    case Literal(b) => [b]
    case Escape(v, _, _) => [v]
    case SoftBreak(_) => []
  }

  function Encoding(ts: seq<QpToken>): seq<byte> {
    if ts == [] then [] else TokenBytes(ts[0]) + Encoding(ts[1..])
  }

  function Value(ts: seq<QpToken>): seq<byte> {
    if ts == [] then [] else TokenValue(ts[0]) + Value(ts[1..])
  }

  lemma TokenRoundTrip(s: QpState, t: QpToken)
    requires s.st.QpIdle? && s.n < 16 && GoodToken(t)
    ensures QpRun(s, TokenBytes(t)).0 == TokenValue(t)
    ensures QpRun(s, TokenBytes(t)).1.st.QpIdle?
  {
    hide QpRun, HexDigit;
    var bs := TokenBytes(t);
    if t.Literal? {
      assert |bs[1..]| == 0;
      RunPlain(s, bs);
      RunNothing(s);
    } else {
      RunEscape(s, bs);
      var s2 := QpByte(s.(st := QpEq), bs[1]).1;
      if |bs| == 3 {
        var last: seq<byte> := [bs[2]];
        assert bs[2..] == last && |last[1..]| == 0;
        RunSecond(s2, last);
        RunNothing(QpByte(s2, bs[2]).1);
      } else {
        assert |bs[2..]| == 0;
        RunNothing(s2);
      }
    }
  }

  /** Any encoding of a byte string decodes to it and leaves the decoder idle. */
  lemma {:induction false} QpRoundTrip(s: QpState, ts: seq<QpToken>)
    requires s.st.QpIdle? && s.n < 16
    requires forall k :: 0 <= k < |ts| ==> GoodToken(ts[k])
    ensures QpRun(s, Encoding(ts)).0 == Value(ts)
    ensures QpRun(s, Encoding(ts)).1.st.QpIdle?
    decreases |ts|
  {
    if ts != [] {
      var first := TokenBytes(ts[0]);
      TokenRoundTrip(s, ts[0]);
      QpRunSplits(s, first, Encoding(ts[1..]));
      QpRoundTrip(QpRun(s, first).1, ts[1..]);
    }
  }

  // ---- The decoder as a loop ------------------------------------------------------------

  /** What is left to write without input, for the termination of the caller's loop. */
  function PushbackRank(s: QpState): nat { |Pending(s)| }

  class QpDecoder {
    var x: byte
    var y: byte
    var n: byte
    var st: QpSt

    ghost predicate Valid()
      reads this
    {
      n < 16
    }

    ghost function View(): QpState
      reads this
    {
      QpState(x, y, n, st)
    }

    constructor ()
      ensures Valid() && st == QpIdle
    {
      x, y, n, st := 0, 0, 0, QpIdle;
    }

    /** One turn: a pending byte is written, or c is used and may be written. */
    method QpStep(c: byte) returns (used: bool, emit: bool, ch: byte)
      requires Valid()
      modifies this
      ensures Valid()
      ensures used <==> Pending(old(View())) == []
      ensures !used ==> emit && ch == Pending(old(View()))[0] && View() == AfterPending(old(View()))
      ensures used ==> (if emit then [ch] else [], View()) == QpByte(old(View()), c)
    {
      used, emit, ch := true, true, c;
      match st {
        case QpIdle =>
          if ch == EQ {
            st := QpEq;
            emit := false;
          }
        case QpEq =>
          x := ch;
          if ch == CR {
            st := Qp1;
            emit := false;
          } else if ch == LF {
            st := QpIdle;
            emit := false;
          } else if HexDigit(ch).Some? {
            n := HexDigit(ch).value;
            st := Qp1;
            emit := false;
          } else {
            st := QpFail1;
            ch := EQ;
          }
        case Qp1 =>
          y := ch;
          if x == CR {
            if ch == LF {
              st := QpIdle;
              emit := false;
            } else {
              st := QpFail2;
              ch := EQ;
            }
          } else if HexDigit(ch).Some? {
            st := QpIdle;
            ch := FromDigits(n, HexDigit(ch).value);
          } else {
            st := QpFail2;
            ch := EQ;
          }
        case QpFail1 =>
          used := false;
          st := QpIdle;
          ch := x;
        case QpFail2 =>
          used := false;
          st := QpFail3;
          ch := x;
        case QpFail3 =>
          used := false;
          st := QpIdle;
          ch := y;
      }
    }

    /**
      Decodes until the input is used up or the buffer is full. What it wrote, followed by what
      the rest of the input yields from the new state, is what the whole input yields.
      */
    method QpDecode(bs: seq<byte>, out: array<byte>) returns (outLen: nat, consumed: nat)
      requires Valid()
      modifies this, out
      ensures Valid() && outLen <= out.Length && consumed <= |bs|
      ensures out.Length == 0 ==> outLen == 0 && consumed == 0 && View() == old(View())
      ensures var (rest, s') := QpRun(View(), bs[consumed..]);
        QpRun(old(View()), bs) == (out[..outLen] + rest, s')
      ensures out.Length > 0 ==> outLen == out.Length || consumed == |bs|
      ensures out.Length > 0 && bs != [] && consumed == 0 ==> PushbackRank(View()) < PushbackRank(old(View()))
    {
      hide QpByte, QpRun;
      ghost var whole, s0 := QpRun(View(), bs), View();
      ghost var written: seq<byte> := [];
      assert bs[0..] == bs && written + whole.0 == whole.0;
      if out.Length == 0 {
        return 0, 0;
      }
      var i: nat, result: nat := 0, 0;
      while i < |bs|
        invariant Valid() && i <= |bs| && result < out.Length
        invariant written == out[..result]
        invariant var r := QpRun(View(), bs[i..]); whole == (written + r.0, r.1)
        invariant i > 0 || (result == 0 && View() == s0) || PushbackRank(View()) < PushbackRank(s0)
        decreases |bs| - i, PushbackRank(View())
      {
        RunStep(View(), bs, i, written, whole);
        var used, emit, ch := QpStep(bs[i]);
        if used {
          i := i + 1;
        }
        if !emit {
          assert written + [] == written;
          continue;
        }
        out[result] := ch;
        result := result + 1;
        written := written + [ch];
        assert written == out[..result];
        if result >= out.Length {
          return result, i;
        }
      }
      return result, i;
    }
  }

  /** One step of a run: a pending byte is written, or an input byte is used. */
  lemma RunStep(s: QpState, bs: seq<byte>, i: nat, written: seq<byte>, whole: (seq<byte>, QpState))
    requires s.n < 16 && i < |bs|
    requires var r := QpRun(s, bs[i..]); whole == (written + r.0, r.1)
    ensures Pending(s) != [] ==>
      var r := QpRun(AfterPending(s), bs[i..]); whole == (written + [Pending(s)[0]] + r.0, r.1)
    ensures Pending(s) == [] ==>
      var (now, s1) := QpByte(s, bs[i]);
      var r := QpRun(s1, bs[i + 1..]);
      |now| <= 1 && whole == (written + now + r.0, r.1)
  {
    hide QpByte, QpRun;
    assert bs[i..][1..] == bs[i + 1..];
    if Pending(s) != [] {
      RunWrites(s, bs[i..]);
      var first, rest := [Pending(s)[0]], QpRun(AfterPending(s), bs[i..]).0;
      assert written + (first + rest) == written + first + rest;
    } else {
      RunReads(s, bs[i..]);
      var now, rest := QpByte(s, bs[i]).0, QpRun(QpByte(s, bs[i]).1, bs[i + 1..]).0;
      assert written + (now + rest) == written + now + rest;
    }
  }

  /** The hexadecimal digits, in either case, and no other byte. */
  lemma InByteValues(c: byte)
    ensures 0x30 <= c <= 0x39 ==> HexDigit(c) == Some(c - 0x30)
    ensures 0x41 <= c <= 0x46 ==> HexDigit(c) == Some(c - 0x41 + 10)
    ensures 0x61 <= c <= 0x66 ==> HexDigit(c) == Some(c - 0x61 + 10)
    ensures !(0x30 <= c <= 0x39) && !(0x41 <= c <= 0x46) && !(0x61 <= c <= 0x66) ==> HexDigit(c) == None
  {
  }

  /** "a=3D=e9=" and a line end, LF or CR LF, and "b": the escapes and the soft break are undone. */
  lemma TextInBytes(s: QpState, cr: bool)
    requires s.st.QpIdle? && s.n < 16
    ensures QpRun(s, [0x61, 0x3D, 0x33, 0x44, 0x3D, 0x65, 0x39, 0x3D] + (if cr then [0x0D, 0x0A] else [0x0A]) + [0x62]).0
      == [0x61, 0x3D, 0xE9, 0x62]
  {
    hide QpRun;
    var ts := [Literal(0x61), Escape(0x3D, false, true), Escape(0xE9, false, false), SoftBreak(cr), Literal(0x62)];
    EncodingFive(ts);
    QpRoundTrip(s, ts);
    assert Encoding(ts)
      == [0x61, 0x3D, 0x33, 0x44, 0x3D, 0x65, 0x39, 0x3D] + (if cr then [0x0D, 0x0A] else [0x0A]) + [0x62];
  }

  lemma EncodingFive(ts: seq<QpToken>)
    requires |ts| == 5
    ensures Encoding(ts)
      == TokenBytes(ts[0]) + (TokenBytes(ts[1]) + (TokenBytes(ts[2]) + (TokenBytes(ts[3]) + TokenBytes(ts[4]))))
    ensures Value(ts) == TokenValue(ts[0]) + (TokenValue(ts[1]) + (TokenValue(ts[2]) + (TokenValue(ts[3]) + TokenValue(ts[4]))))
  {
    hide TokenBytes, TokenValue;
    var a := ts[1..];
    var b := a[1..];
    var c := b[1..];
    var d := c[1..];
    assert d[1..] == [] && TokenBytes(d[0]) + [] == TokenBytes(d[0]) && TokenValue(d[0]) + [] == TokenValue(d[0]);
    assert Encoding(d) == TokenBytes(d[0]) + Encoding([]) && Encoding([]) == [];
    assert Value(d) == TokenValue(d[0]) + Value([]) && Value([]) == [];
    assert Encoding(c) == TokenBytes(c[0]) + Encoding(d) && Value(c) == TokenValue(c[0]) + Value(d);
    assert Encoding(b) == TokenBytes(b[0]) + Encoding(c) && Value(b) == TokenValue(b[0]) + Value(c);
    assert Encoding(a) == TokenBytes(a[0]) + Encoding(b) && Value(a) == TokenValue(a[0]) + Value(b);
  }
}
