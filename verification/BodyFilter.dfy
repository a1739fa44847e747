/**
  The body checksum's filter: white space, '=' and the '>' of a line that starts with ">From"
  are dropped, and the rest goes to the hash in batches. The hash is the byte string it was
  given so far.
  */
module BodyFilter {
  import opened Bytes

  const FROM_SEQ: seq<byte> := [LF, GT, 0x46, 0x72, 0x6F, 0x6D]  // "\n>From"
  const FROM_TAIL: seq<byte> := [GT, 0x46, 0x72, 0x6F, 0x6D]     // ">From"
  const FROM: seq<byte> := [0x46, 0x72, 0x6F, 0x6D]              // "From"
  const BODY_BUF_LEN := 1024

  predicate Dropped(c: byte) { c == SP || c == TAB || c == CR || c == EQ }

  // ---- The definition by lines ----------------------------------------------------------

  /** The index of the first LF, or the length. */
  function LineEnd(bs: seq<byte>): (n: nat)
    ensures n <= |bs|
    ensures n < |bs| ==> bs[n] == LF
    ensures LF !in bs[..n]
  {
    if bs == [] || bs[0] == LF then 0
    else
      var n := LineEnd(bs[1..]);
      assert bs[..n + 1] == [bs[0]] + bs[1..][..n];
      n + 1
  }

  function Filtered(line: seq<byte>): seq<byte> {
    if line == [] then []
    else (if Dropped(line[0]) then [] else [line[0]]) + Filtered(line[1..])
  }

  /** A line without its LF as it enters the checksum. */
  function LineText(line: seq<byte>): seq<byte> {
    Filtered(if FROM_TAIL <= line then line[1..] else line)
  }

  /** The body as it enters the checksum, line by line. */
  function BodyText(bs: seq<byte>): seq<byte>
    decreases |bs|
  {
    var n := LineEnd(bs);
    if n == |bs| then LineText(bs) else LineText(bs[..n]) + BodyText(bs[n + 1..])
  }

  /** The same, from the middle of a line on. */
  function RestText(bs: seq<byte>): seq<byte> {
    var n := LineEnd(bs);
    if n == |bs| then Filtered(bs) else Filtered(bs[..n]) + BodyText(bs[n + 1..])
  }

  // ---- The machine ----------------------------------------------------------------------

  /** A partial match of ">From" at the start of a line, kept back. */
  function Held(flen: nat): (p: seq<byte>)
    requires flen <= 5
  {
    if flen == 0 then [] else FROM_TAIL[..flen - 1]
  }

  /** One byte in state flen: the bytes it lets through and the next state. */
  function BodyByte(flen: nat, c: byte): (r: (seq<byte>, nat))
    requires flen <= 5
    ensures r.1 <= 5
  {
    if flen != 0 && c == FROM_SEQ[flen] then (if flen == 5 then (FROM, 0) else ([], flen + 1))
    else if c == LF then (Held(flen), 1)
    else if Dropped(c) then (Held(flen), 0)
    else (Held(flen) + [c], 0)
  }

  function BodyRun(flen: nat, bs: seq<byte>): (r: (seq<byte>, nat))
    requires flen <= 5
    ensures r.1 <= 5
    decreases |bs|
  {
    if bs == [] then ([], flen)
    else
      var (now, flen1) := BodyByte(flen, bs[0]);
      var (out, flen') := BodyRun(flen1, bs[1..]);
      (now + out, flen')
  }

  lemma {:induction false} BodyRunSplits(flen: nat, a: seq<byte>, b: seq<byte>)
    requires flen <= 5
    ensures var (out, flen') := BodyRun(flen, a);
      BodyRun(flen, a + b) == (out + BodyRun(flen', b).0, BodyRun(flen', b).1)
    decreases |a|
  {
    hide BodyByte;
    if a == [] {
      assert a + b == b;
      assert [] + BodyRun(flen, b).0 == BodyRun(flen, b).0;
    } else {
      var (now, flen1) := BodyByte(flen, a[0]);
      BodyRunSplits(flen1, a[1..], b);
      assert (a + b)[1..] == a[1..] + b;
      var (out, flen') := BodyRun(flen1, a[1..]);
      Assoc(now, out, BodyRun(flen', b).0);
    }
  }

  /** What the input still yields from state flen, the held bytes included. */
  function OwedText(flen: nat, bs: seq<byte>): seq<byte>
    requires flen <= 5
  {
    if flen == 0 then RestText(bs) else BodyText(Held(flen) + bs)
  }

  lemma LineEndCons(c: byte, bs: seq<byte>)
    ensures LineEnd([c] + bs) == if c == LF then 0 else LineEnd(bs) + 1
  {
    assert ([c] + bs)[1..] == bs;
  }

  lemma RestTextCons(c: byte, bs: seq<byte>)
    ensures RestText([c] + bs)
      == if c == LF then BodyText(bs) else (if Dropped(c) then [] else [c]) + RestText(bs)
  {
    if c == LF {
      RestTextAtEnd(bs);
    } else {
      RestTextInside(c, bs);
    }
  }

  lemma RestTextAtEnd(bs: seq<byte>)
    ensures RestText([LF] + bs) == BodyText(bs)
  {
    hide BodyText;
    var all := [LF] + bs;
    assert LineEnd(all) == 0;
    assert all[..0] == [] && all[0 + 1..] == bs;
    assert [] + BodyText(bs) == BodyText(bs);
  }

  lemma RestTextInside(c: byte, bs: seq<byte>)
    requires c != LF
    ensures RestText([c] + bs) == (if Dropped(c) then [] else [c]) + RestText(bs)
  {
    hide BodyText;
    LineEndCons(c, bs);
    var all, n := [c] + bs, LineEnd(bs);
    var one := if Dropped(c) then [] else [c];
    FilteredCons(c, bs[..n]);
    assert all[..n + 1] == [c] + bs[..n];
    if n == |bs| {
      assert bs[..n] == bs && all[..n + 1] == all;
    } else {
      assert all[n + 1 + 1..] == bs[n + 1..];
      assert one + (Filtered(bs[..n]) + BodyText(bs[n + 1..])) == one + Filtered(bs[..n]) + BodyText(bs[n + 1..]);
    }
  }

  lemma FilteredCons(c: byte, bs: seq<byte>)
    ensures Filtered([c] + bs) == (if Dropped(c) then [] else [c]) + Filtered(bs)
  {
    assert ([c] + bs)[1..] == bs;
  }

  /** A text that does not start with ">From" has nothing removed from its first line. */
  lemma PlainStart(bs: seq<byte>)
    requires !(FROM_TAIL <= bs)
    ensures BodyText(bs) == RestText(bs)
  {
    var n := LineEnd(bs);
    assert FROM_TAIL <= bs[..n] ==> FROM_TAIL <= bs;
  }

  lemma FromStart(bs: seq<byte>)
    ensures BodyText(FROM_TAIL + bs) == FROM + RestText(bs)
  {
    hide LineText, Filtered, LineEnd;
    var all, n := FROM_TAIL + bs, LineEnd(bs);
    FromLineEnd(bs);
    assert LineEnd(all) == n + 5;
    assert all[..n + 5] == FROM_TAIL + bs[..n];
    FromLine(bs[..n]);
    if n == |bs| {
      assert bs[..n] == bs && all[..n + 5] == all;
    } else {
      assert all[n + 6..] == bs[n + 1..];
      Assoc(FROM, Filtered(bs[..n]), BodyText(bs[n + 1..]));
    }
  }

  lemma FromLineEnd(bs: seq<byte>)
    ensures LineEnd(FROM_TAIL + bs) == LineEnd(bs) + 5
  {
    hide LineEnd;
    LineEndCons(0x6D, bs);
    LineEndCons(0x6F, [0x6D] + bs);
    LineEndCons(0x72, [0x6F] + ([0x6D] + bs));
    LineEndCons(0x46, [0x72] + ([0x6F] + ([0x6D] + bs)));
    LineEndCons(GT, [0x46] + ([0x72] + ([0x6F] + ([0x6D] + bs))));
    assert FROM_TAIL + bs == [GT] + ([0x46] + ([0x72] + ([0x6F] + ([0x6D] + bs))));
  }

  lemma {:induction false} FilteredAppend(a: seq<byte>, b: seq<byte>)
    ensures Filtered(a + b) == Filtered(a) + Filtered(b)
  {
    if a == [] {
      assert a + b == b;
    } else {
      assert (a + b)[1..] == a[1..] + b;
      FilteredAppend(a[1..], b);
    }
  }

  lemma FromLine(line: seq<byte>)
    ensures LineText(FROM_TAIL + line) == FROM + Filtered(line)
  {
    assert FROM_TAIL <= FROM_TAIL + line;
    assert (FROM_TAIL + line)[1..] == FROM + line;
    FilteredAppend(FROM, line);
    assert Filtered(FROM) == FROM by {
      assert FROM[1..][1..][1..][1..] == [];
    }
  }

  /** Held bytes contain no line end and nothing that is dropped. */
  lemma {:induction false} HeldPassThrough(k: nat, bs: seq<byte>)
    requires k <= 4
    ensures RestText(FROM_TAIL[..k] + bs) == FROM_TAIL[..k] + RestText(bs)
  {
    hide RestText;
    if k == 0 {
      assert FROM_TAIL[..k] + bs == bs && FROM_TAIL[..k] + RestText(bs) == RestText(bs);
    } else {
      var c := FROM_TAIL[k - 1];
      HeldPassThrough(k - 1, [c] + bs);
      RestTextCons(c, bs);
      assert FROM_TAIL[..k] == FROM_TAIL[..k - 1] + [c];
      assert FROM_TAIL[..k] + bs == FROM_TAIL[..k - 1] + ([c] + bs);
      assert FROM_TAIL[..k - 1] + ([c] + RestText(bs)) == FROM_TAIL[..k] + RestText(bs);
    }
  }

  /** One byte of the machine pays off one byte of the definition. */
  lemma ByteOwes(flen: nat, c: byte, bs: seq<byte>)
    requires flen <= 5
    ensures var (now, flen') := BodyByte(flen, c);
      OwedText(flen, [c] + bs) == now + OwedText(flen', bs)
  {
    hide OwedText;
    if flen != 0 && c == FROM_SEQ[flen] {
      MatchOwes(flen, bs);
    } else {
      OtherOwes(flen, c, bs);
    }
  }

  /** A byte that does not go on with the match: the held bytes are let go, and it is filtered. */
  lemma OtherOwes(flen: nat, c: byte, bs: seq<byte>)
    requires flen <= 5 && (flen == 0 || c != FROM_SEQ[flen])
    ensures c == LF ==> OwedText(flen, [c] + bs) == Held(flen) + OwedText(1, bs)
    ensures c != LF && Dropped(c) ==> OwedText(flen, [c] + bs) == Held(flen) + OwedText(0, bs)
    ensures c != LF && !Dropped(c) ==> OwedText(flen, [c] + bs) == Held(flen) + [c] + OwedText(0, bs)
  {
    hide RestText, BodyText, Held;
    HeldEnds();
    RestTextCons(c, bs);
    if flen != 0 {
      MismatchOwes(flen, c, bs);
    }
    Assoc(Held(flen), [c], RestText(bs));
    assert [] + RestText(bs) == RestText(bs) && [] + bs == bs && [] + ([c] + RestText(bs)) == [c] + RestText(bs);
  }

  lemma HeldEnds()
    ensures Held(0) == [] && Held(1) == []
  {
  }

  lemma MatchOwes(flen: nat, bs: seq<byte>)
    requires 1 <= flen <= 5
    ensures flen < 5 ==> OwedText(flen, [FROM_SEQ[flen]] + bs) == [] + OwedText(flen + 1, bs)
    ensures flen == 5 ==> OwedText(flen, [FROM_SEQ[flen]] + bs) == FROM + OwedText(0, bs)
  {
    hide RestText, BodyText;
    assert FROM_TAIL[..flen] == FROM_TAIL[..flen - 1] + [FROM_SEQ[flen]];
    assert Held(flen) + ([FROM_SEQ[flen]] + bs) == FROM_TAIL[..flen] + bs;
    if flen == 5 {
      assert FROM_TAIL[..5] == FROM_TAIL;
      FromStart(bs);
    }
  }

  lemma MismatchOwes(flen: nat, c: byte, bs: seq<byte>)
    requires 1 <= flen <= 5 && c != FROM_SEQ[flen]
    ensures OwedText(flen, [c] + bs) == Held(flen) + RestText([c] + bs)
  {
    var all := Held(flen) + ([c] + bs);
    assert FROM_SEQ[flen] == FROM_TAIL[flen - 1] && all[flen - 1] == c;
    PlainStart(all);
    HeldPassThrough(flen - 1, [c] + bs);
  }

  /** On every input, what went through and what is held back make up the text by lines. */
  lemma {:induction false} RunIsOwed(flen: nat, bs: seq<byte>)
    requires flen <= 5
    ensures var (out, flen') := BodyRun(flen, bs);
      out + Held(flen') == OwedText(flen, bs)
    decreases |bs|
  {
    hide BodyByte, OwedText, Held;
    if bs == [] {
      assert [] + Held(flen) == Held(flen);
      NothingOwes(flen);
    } else {
      var (now, flen1) := BodyByte(flen, bs[0]);
      RunIsOwed(flen1, bs[1..]);
      ByteOwes(flen, bs[0], bs[1..]);
      assert bs == [bs[0]] + bs[1..];
      var (out, flen') := BodyRun(flen1, bs[1..]);
      Assoc(now, out, Held(flen'));
    }
  }

  lemma NothingOwes(flen: nat)
    requires flen <= 5
    ensures OwedText(flen, []) == Held(flen)
  {
    if flen > 0 {
      PlainStart(Held(flen));
      HeldPassThrough(flen - 1, []);
      assert Held(flen) + [] == Held(flen);
    }
  }

  lemma BodyRunIsText(bs: seq<byte>)
    ensures var (out, flen) := BodyRun(1, bs);
      out + Held(flen) == BodyText(bs)
  {
    RunIsOwed(1, bs);
    assert Held(1) + bs == bs;
  }

  // ---- The streaming filter -------------------------------------------------------------

  class BodyState {
    var md5: seq<byte>
    var total: nat
    var flen: nat
    var buf: seq<byte>

    /** All input so far. */
    ghost var input: seq<byte>

    ghost predicate Valid()
      reads this
    {
      && flen <= 5
      && (Accepted(), flen) == BodyRun(1, input)
      && total == |Accepted()|
      && |buf| < BODY_BUF_LEN
    }

    /** The bytes that went through, whether the hash has them yet or not. */
    ghost function Accepted(): seq<byte>
      reads this
    {
      md5 + buf
    }

    constructor ()
      ensures Valid() && input == []
    {
      md5, total, flen, buf := [], 0, 1, [];
      input := [];
      new;
      assert md5 + buf == [];
    }

    method Emit(p: seq<byte>)
      modifies this`buf, this`total, this`md5
      ensures Accepted() == old(Accepted()) + p && total == old(total) + |p|
      ensures |buf| < BODY_BUF_LEN
    {
      buf := buf + p;
      total := total + |p|;
      assert md5 + buf == old(md5 + buf) + p;
      if |buf| >= BODY_BUF_LEN {
        md5 := md5 + buf;
        buf := [];
      }
    }

    method Body0(bp: seq<byte>)
      requires Valid()
      modifies this
      ensures Valid() && input == old(input) + bp
    {
      ghost var before := Accepted();
      ghost var flen0 := flen;
      for i := 0 to |bp|
        invariant flen <= 5 && |buf| < BODY_BUF_LEN && total == |Accepted()|
        invariant input == old(input)
        invariant var r := BodyRun(flen0, bp[..i]); Accepted() == before + r.0 && flen == r.1
      {
        RunSnoc(flen0, bp, i);
        OneByte(bp[i], before, BodyRun(flen0, bp[..i]).0);
      }
      assert bp[..|bp|] == bp;
      BodyRunSplits(1, input, bp);
      input := input + bp;
    }

    /** The body of the loop. */
    method OneByte(c: byte, ghost before: seq<byte>, ghost out: seq<byte>)
      requires flen <= 5 && |buf| < BODY_BUF_LEN && total == |Accepted()|
      requires Accepted() == before + out
      modifies this`flen, this`buf, this`total, this`md5
      ensures |buf| < BODY_BUF_LEN && total == |Accepted()|
      ensures Accepted() == before + (out + BodyByte(old(flen), c).0) && flen == BodyByte(old(flen), c).1
    {
      ghost var flen0 := flen;
      assert before + (out + BodyByte(flen0, c).0) == before + out + BodyByte(flen0, c).0;
      if flen != 0 {
        if c == FROM_SEQ[flen] {
          flen := flen + 1;
          if flen >= 6 {
            Emit(FROM);
            flen := 0;
          }
          return;
        }
        flen := flen - 1;
        if flen != 0 {
          Emit(FROM_TAIL[..flen]);
          flen := 0;
        }
      }
      assert Accepted() == before + out + Held(flen0);
      if c == LF {
        flen := 1;
        return;
      }
      if Dropped(c) {
        return;
      }
      Emit([c]);
      assert before + out + Held(flen0) + [c] == before + out + (Held(flen0) + [c]);
    }

    /** The hash gets what is left in the buffer; bytes held back never reach it. */
    method Final() returns (sum: seq<byte>, ok: bool)
      requires Valid()
      modifies this`md5, this`buf
      ensures Valid() && buf == []
      ensures sum + Held(flen) == BodyText(input)
      ensures ok <==> |sum| >= 30
    {
      if |buf| != 0 {
        md5 := md5 + buf;
        buf := [];
      }
      assert md5 + buf == md5;
      sum := md5;
      ok := total >= 30;
      BodyRunIsText(input);
    }
  }

  lemma RunSnoc(flen: nat, bs: seq<byte>, i: nat)
    requires flen <= 5 && i < |bs|
    ensures var (out, flen1) := BodyRun(flen, bs[..i]);
      BodyRun(flen, bs[..i + 1]) == (out + BodyByte(flen1, bs[i]).0, BodyByte(flen1, bs[i]).1)
  {
    hide BodyByte;
    assert bs[..i + 1] == bs[..i] + [bs[i]];
    BodyRunSplits(flen, bs[..i], [bs[i]]);
    var flen1 := BodyRun(flen, bs[..i]).1;
    assert [bs[i]][1..] == [];
    assert BodyByte(flen1, bs[i]).0 + [] == BodyByte(flen1, bs[i]).0;
  }

  // ---- In byte values -------------------------------------------------------------------

  /** Space, tab, line feed, carriage return and '=' never reach the sum. */
  predicate Passed(c: byte) {
    c != 0x20 && c != 0x09 && c != 0x0A && c != 0x0D && c != 0x3D
  }

  function PassedOf(bs: seq<byte>): seq<byte> {
    if bs == [] then [] else (if Passed(bs[0]) then [bs[0]] else []) + PassedOf(bs[1..])
  }

  lemma {:induction false} PassedSplits(a: seq<byte>, b: seq<byte>)
    ensures PassedOf(a + b) == PassedOf(a) + PassedOf(b)
  {
    if a == [] {
      assert a + b == b;
    } else {
      assert (a + b)[1..] == a[1..] + b;
      PassedSplits(a[1..], b);
    }
  }

  lemma {:induction false} FilteredIsPassed(line: seq<byte>)
    requires LF !in line
    ensures Filtered(line) == PassedOf(line)
  {
    if line != [] {
      assert line[0] in line && forall x :: x in line[1..] ==> x in line;
      FilteredIsPassed(line[1..]);
    }
  }

  /** The text begins with ">From". */
  predicate EscapedFrom(bs: seq<byte>) {
    |bs| >= 5 && bs[0] == 0x3E && bs[1] == 0x46 && bs[2] == 0x72 && bs[3] == 0x6F && bs[4] == 0x6D
  }

  /** The text without the '>' in front of every line that begins with ">From". */
  function Unescaped(bs: seq<byte>): seq<byte>
    decreases |bs|
  {
    var n := LineEnd(bs);
    var line := if EscapedFrom(bs[..n]) then bs[1..n] else bs[..n];
    if n == |bs| then line else line + [0x0A] + Unescaped(bs[n + 1..])
  }

  /** Of every body exactly the bytes that pass are summed, in order, behind the unescaping of ">From". */
  lemma {:induction false} SumInBytes(bs: seq<byte>)
    ensures BodyText(bs) == PassedOf(Unescaped(bs))
    decreases |bs|
  {
    hide PassedOf, Filtered, LineEnd;
    var n := LineEnd(bs);
    var line := if EscapedFrom(bs[..n]) then bs[1..n] else bs[..n];
    assert line == if EscapedFrom(bs[..n]) then bs[..n][1..] else bs[..n];
    assert forall x :: x in line ==> x in bs[..n];
    FilteredIsPassed(line);
    FromIs(bs[..n]);
    if n < |bs| {
      SumInBytes(bs[n + 1..]);
      PassedSplits(line + [0x0A], Unescaped(bs[n + 1..]));
      PassedSplits(line, [0x0A]);
      NewlineDoesNotPass();
      assert PassedOf(line) + [] == PassedOf(line);
    } else {
      assert bs[..n] == bs;
    }
  }

  lemma NewlineDoesNotPass()
    ensures PassedOf([0x0A]) == []
  {
  }

  lemma FromIs(line: seq<byte>)
    ensures EscapedFrom(line) <==> FROM_TAIL <= line
  {
  }
}
