/**
  Two base64 encodings in a row, the first one padded: whether the second is decoded depends on
  how full the output buffer is at the pad.
*/
module Base64Padding {
  import opened Bytes
  import opened Base64Bits
  import opened Base64
  import opened Base64Text
  import opened Base64Settles

  /** A sextet that does not end the call. */
  lemma FillOne(s: B64State, v: Sextet, rest: seq<byte>, written: nat, lim: nat)
    requires s.cnt < 4 && (s.cnt == 3 ==> written + 3 < lim)
    ensures var (now, s1) := PushSextet(s, v);
      Fill(s, [Char(v)] + rest, written, lim) == Onward(now, Fill(s1, rest, written + |now|, lim))
  {
    hide ShiftIn, Char;
    var bs := [Char(v)] + rest;
    assert bs[1..] == rest;
  }

  lemma OnwardIsLater(done: seq<byte>, i: nat, now: seq<byte>, r: (seq<byte>, B64State, nat))
    ensures Later(done, i, Onward(now, r)) == Later(done + now, i + 1, r)
    ensures Onward(now, r) == Later(now, 1, r)
  {
    Assoc(done, now, r.0);
  }

  lemma FillThree(s: B64State, v0: Sextet, v1: Sextet, v2: Sextet, rest: seq<byte>, written: nat, lim: nat)
      returns (s': B64State)
    requires s.Valid() && s.cnt == 0
    ensures s'.Valid() && Held(s') == [v0, v1, v2]
    ensures Fill(s, [Char(v0), Char(v1), Char(v2)] + rest, written, lim) == Later([], 3, Fill(s', rest, written, lim))
  {
    hide PushSextet, Fill, Held, Char;
    var s1 := PushSextet(s, v0).1;
    var s2 := PushSextet(s1, v1).1;
    s' := PushSextet(s2, v2).1;
    PushHeld(s, v0);
    PushHeld(s1, v1);
    PushHeld(s2, v2);
    var r2 := [Char(v2)] + rest;
    var r1 := [Char(v1)] + r2;
    assert [Char(v0), Char(v1), Char(v2)] + rest == [Char(v0)] + r1;
    FillOne(s, v0, r1, written, lim);
    FillOne(s1, v1, r2, written, lim);
    FillOne(s2, v2, rest, written, lim);
    HeldNothing(s);
    OnwardIsLater([], 1, [], Fill(s2, r2, written, lim));
    OnwardIsLater([], 2, [], Fill(s', rest, written, lim));
  }

  lemma FillGroup(s: B64State, b0: byte, b1: byte, b2: byte, rest: seq<byte>, written: nat, lim: nat)
      returns (s': B64State)
    requires s.Valid() && s.cnt == 0 && written + 3 < lim
    ensures s'.Valid() && s'.cnt == 0
    ensures Fill(s, Encode([b0, b1, b2]) + rest, written, lim) == Later([b0, b1, b2], 4, Fill(s', rest, written + 3, lim))
  {
    hide PushSextet, Fill, Held, Char;
    var v0: Sextet, v1: Sextet := b0 / 4, b0 % 4 * 16 + b1 / 16;
    var v2: Sextet, v3: Sextet := b1 % 16 * 4 + b2 / 64, b2 % 64;
    var r3 := [Char(v3)] + rest;
    assert Encode([b0, b1, b2]) == [Char(v0), Char(v1), Char(v2), Char(v3)] + Encode([b0, b1, b2][3..]);
    assert Encode([b0, b1, b2]) + rest == [Char(v0), Char(v1), Char(v2)] + r3;
    var s3 := FillThree(s, v0, v1, v2, r3, written, lim);
    s' := PushSextet(s3, v3).1;
    assert s3.cnt == |Held(s3)| == 3;
    GroupHeld(s3, v3);
    GroupOf(b0, b1, b2);
    FillOne(s3, v3, rest, written, lim);
    OnwardIsLater([], 3, [b0, b1, b2], Fill(s', rest, written + 3, lim));
    assert [] + [b0, b1, b2] == [b0, b1, b2];
  }

  lemma {:induction false} FillGroups(s: B64State, p: seq<byte>, rest: seq<byte>, written: nat, lim: nat)
      returns (s': B64State)
    requires s.Valid() && s.cnt == 0 && |p| % 3 == 0 && written + |p| < lim
    ensures s'.Valid() && s'.cnt == 0
    ensures Fill(s, Encode(p) + rest, written, lim) == Later(p, |Encode(p)|, Fill(s', rest, written + |p|, lim))
    decreases |p|
  {
    hide Fill, Encode;
    if p == [] {
      s' := s;
      EncodeNothing();
      assert [] + rest == rest;
      LaterNothing(Fill(s, rest, written, lim));
    } else {
      var g, more := [p[0], p[1], p[2]], p[3..];
      assert p == g + more;
      EncodeSplits(g, more);
      EncodeLength(g);
      Assoc(Encode(g), Encode(more), rest);
      var s1 := FillGroup(s, p[0], p[1], p[2], Encode(more) + rest, written, lim);
      s' := FillGroups(s1, more, rest, written + 3, lim);
      Assoc(g, more, Fill(s', rest, written + |p|, lim).0);
    }
  }

  lemma EncodeNothing()
    ensures Encode([]) == []
  {
  }

  lemma EncodeLength(g: seq<byte>)
    requires |g| == 3
    ensures |Encode(g)| == 4
  {
    hide Char;
    assert g[3..] == [];
  }

  lemma {:induction false} EncodeSplits(p: seq<byte>, d: seq<byte>)
    requires |p| % 3 == 0
    ensures Encode(p + d) == Encode(p) + Encode(d)
    decreases |p|
  {
    hide Encode;
    if p == [] {
      EncodeNothing();
      assert p + d == d;
    } else {
      var g, more := [p[0], p[1], p[2]], p[3..];
      assert p == g + more;
      Assoc(g, more, d);
      EncodeGroup(g, more + d);
      EncodeGroup(g, more);
      EncodeSplits(more, d);
      Assoc(Encode(g), Encode(more), Encode(d));
    }
  }

  lemma EncodeGroup(g: seq<byte>, more: seq<byte>)
    requires |g| == 3
    ensures Encode(g + more) == Encode(g) + Encode(more)
  {
    hide Char;
    assert (g + more)[3..] == more && g[3..] == [];
  }

  /** A pad behind two bytes, when they fill the buffer: it ends the call and leaves nothing behind. */
  lemma FillLastTwo(s: B64State, b0: byte, b1: byte, rest: seq<byte>, written: nat, lim: nat)
      returns (s': B64State)
    requires s.Valid() && s.cnt == 0 && written < lim <= written + 2
    ensures s'.Valid() && s'.cnt == 0
    ensures Fill(s, Encode([b0, b1]) + rest, written, lim) == ([b0, b1], s', 4)
  {
    hide PushSextet, Held, Char, Tail, ShiftIn;
    var v0: Sextet, v1: Sextet, v2: Sextet := b0 / 4, b0 % 4 * 16 + b1 / 16, b1 % 16 * 4;
    var pad := [EQ] + rest;
    assert Encode([b0, b1]) + rest == [Char(v0), Char(v1), Char(v2)] + pad;
    var s3 := FillThree(s, v0, v1, v2, pad, written, lim);
    assert s3.cnt == |Held(s3)| == 3;
    TailHeld(s3);
    assert Tail(s3) == [b0, b1];
    s' := s3.(cnt := 0);
    assert Fill(s3, pad, written, lim) == ([b0, b1], s', 1);
    assert [] + [b0, b1] == [b0, b1];
  }

  /** Two bytes and the pad at the very end of the buffer: the second encoding is decoded too. */
  lemma SecondIsDecoded(s: B64State, p: seq<byte>, d: seq<byte>, c: seq<byte>, lim: nat)
    requires s.Valid() && s.cnt == 0 && |p| % 3 == 0 && |d| == 2 && |p| < lim <= |p| + 2
    ensures DecodeAll(s, Encode(p + d) + Encode(c), lim).0 == p + d + c
  {
    hide Fill, Encode, Settles;
    EncodeSplits(p, d);
    Assoc(Encode(p), Encode(d), Encode(c));
    var bs := Encode(p + d) + Encode(c);
    var s1 := FillGroups(s, p, Encode(d) + Encode(c), 0, lim);
    assert d == [d[0], d[1]];
    var s2 := FillLastTwo(s1, d[0], d[1], Encode(c), |p|, lim);
    EncodeOfTwo(d);
    var (out, s', used) := Fill(s, bs, 0, lim);
    assert out == p + d && s' == s2 && used == |Encode(p + d)|;
    assert bs[used..] == Encode(c);
    RelevantEncode(c);
    B64RoundTrip(s2, c, Encode(c), lim);
  }

  lemma EncodeOfTwo(d: seq<byte>)
    requires |d| == 2
    ensures |Encode(d)| == 4
  {
  }

  lemma {:induction false} RelevantEncode(c: seq<byte>)
    ensures Relevant(Encode(c)) == Encode(c)
  {
    var e := Encode(c);
    forall k | 0 <= k < |e| ensures Code(e[k]) != BAD {
      EncodeCounts(c, k);
    }
    AllRelevant(e);
  }

  lemma {:induction false} AllRelevant(e: seq<byte>)
    requires forall k :: 0 <= k < |e| ==> Code(e[k]) != BAD
    ensures Relevant(e) == e
  {
    hide Code;
    if e != [] {
      AllRelevant(e[1..]);
    }
  }

  lemma {:induction false} EncodeCounts(c: seq<byte>, k: nat)
    requires k < |Encode(c)|
    ensures Code(Encode(c)[k]) != BAD
    decreases |c|
  {
    hide Char;
    if |c| >= 3 && k >= 4 {
      EncodeCounts(c[3..], k - 4);
    }
  }

  /**
    With the program's buffer of 1024 bytes: behind 1022 decoded bytes the second encoding is
    decoded, behind two it is not.
    */
  lemma WrittenBeforeShows(p: seq<byte>, d: seq<byte>, c: seq<byte>)
    requires |p| == 1020 && |d| == 2
    ensures DecodeAll(B64State(0, 0), Encode(p + d) + Encode(c), 1021).0 == p + d + c
    ensures DecodeAll(B64State(0, 0), Encode([0x41, 0x42]) + Encode([0x41, 0x42, 0x43]), 1021).0 == [0x41, 0x42, 5, 5, 9]
  {
    hide DecodeAll, Encode;
    SecondIsDecoded(B64State(0, 0), p, d, c, 1021);
    ShortMessage();
  }

  lemma ShortMessage()
    ensures DecodeAll(B64State(0, 0), Encode([0x41, 0x42]) + Encode([0x41, 0x42, 0x43]), 1021).0 == [0x41, 0x42, 5, 5, 9]
  {
    hide DecodeAll, Read, Codes, Encode;
    var first: seq<byte>, second: seq<byte> := [0x51, 0x55, 0x49, EQ], [0x51, 0x55, 0x4A, 0x44];
    TwoEncodings();
    AllOf(B64State(0, 0), [1], first + second, 1021);
    CodesSplit(first, second);
    CodesOfChars(0x51, 0x55, 0x49, EQ);
    CodesOfChars(0x51, 0x55, 0x4A, 0x44);
    assert [16, 20, 8, PAD] + [16, 20, 9, 3] == [16, 20, 8, PAD, 16, 20, 9, 3];
    HeldNothing(B64State(0, 0));
    ShortRead([16, 20, 8, PAD, 16, 20, 9, 3]);
  }

  lemma TwoEncodings()
    ensures Encode([0x41, 0x42]) == [0x51, 0x55, 0x49, EQ]
    ensures Encode([0x41, 0x42, 0x43]) == [0x51, 0x55, 0x4A, 0x44]
  {
    assert Encode([0x41, 0x42, 0x43]) == [0x51, 0x55, 0x4A, 0x44] + Encode([0x41, 0x42, 0x43][3..]);
  }

  lemma ShortRead(cs: seq<Sign>)
    requires cs == [16, 20, 8, PAD, 16, 20, 9, 3]
    ensures Read([], [1], cs) == [0x41, 0x42, 5, 5, 9]
  {
    PadIs(cs, 3);
    var rest := cs[4..];
    PadIs(rest, 4);
    assert [] + Front(cs) == [16, 20, 8];
    assert [1] + Front(rest) == [1, 16, 20, 9, 3];
    assert [1, 16, 20, 9, 3][4..] == [3];
  }

  lemma PadIs(cs: seq<Sign>, n: nat)
    requires n <= |cs| && (n < |cs| ==> cs[n] == PAD) && forall k :: 0 <= k < n ==> cs[k] < BAD
    ensures PadAt(cs) == n
  {
  }
}
