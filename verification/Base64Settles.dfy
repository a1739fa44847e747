/** When base64 text decodes alike through every output buffer, and the round trip. */
module Base64Settles {
  import opened Bytes
  import opened Base64Bits
  import opened Base64
  import opened Base64Text

  /** The full groups of four hold only the value 1, that of 'B'. */
  predicate Ones(vs: seq<Sextet>) {
    forall k :: 0 <= k < |vs| / 4 * 4 ==> vs[k] == 1
  }

  /** Behind a pad: a sextet that the pad leaves there makes no difference. */
  predicate SettlesAfter(cs: seq<Sign>)
    decreases |cs|
  {
    var vs := Front(cs);
    && Ones(vs)
    && (if |vs| == |cs| then |vs| % 4 != 3 else |vs| % 4 == 0 && SettlesAfter(cs[|vs| + 1..]))
  }

  predicate SignsSettle(cs: seq<Sign>) {
    PadAt(cs) < |cs| ==> SettlesAfter(cs[PadAt(cs) + 1..])
  }

  /** The condition on the input alone: what is behind its first pad byte. */
  predicate Settles(bs: seq<byte>) {
    SignsSettle(Codes(bs))
  }

  // ---- A sextet left behind -------------------------------------------------------------

  predicate FourOnes(vs: seq<Sextet>)
    requires |vs| >= 4
  {
    vs[0] == 1 && vs[1] == 1 && vs[2] == 1 && vs[3] == 1
  }

  lemma OnesBehindFour(vs: seq<Sextet>)
    requires |vs| >= 4
    ensures Ones(vs) <==> FourOnes(vs) && Ones(vs[4..])
  {
    if FourOnes(vs) && Ones(vs[4..]) {
      forall k | 0 <= k < |vs| / 4 * 4 ensures vs[k] == 1 {
        assert k >= 4 ==> vs[k] == vs[4..][k - 4];
      }
    }
    if Ones(vs) {
      assert forall k :: 0 <= k < |vs[4..]| / 4 * 4 ==> vs[4..][k] == vs[k + 4];
    }
  }

  lemma ThreeInjective(vs: seq<Sextet>)
    requires |vs| >= 4
    ensures Three(1, vs[0], vs[1], vs[2]) == Three(vs[0], vs[1], vs[2], vs[3]) <==> FourOnes(vs)
  {
    var a, b := Three(1, vs[0], vs[1], vs[2]), Three(vs[0], vs[1], vs[2], vs[3]);
    if a == b {
      assert a[0] == b[0] && a[1] == b[1] && a[2] == b[2];
    }
  }

  lemma Prefixed<T>(a: seq<T>, b: seq<T>, x: seq<T>, y: seq<T>)
    requires |a| == |b|
    ensures a + x == b + y <==> a == b && x == y
  {
    if a + x == b + y {
      assert a == (a + x)[..|a|] && b == (b + y)[..|b|];
      assert x == (a + x)[|a|..] && y == (b + y)[|b|..];
    }
  }

  /** A group when a 1 stands before it: the same bytes mean ones, and a 1 before the rest. */
  lemma ShiftedGroups(vs: seq<Sextet>)
    requires |vs| >= 4
    ensures Groups([1] + vs) == Groups(vs) <==> FourOnes(vs) && Groups([1] + vs[4..]) == Groups(vs[4..])
  {
    hide Groups, Three;
    SplitFour(vs);
    GroupAndRest(vs[0], vs[1], vs[2], vs[3], vs[4..]);
    GroupAndRest(1, vs[0], vs[1], vs[2], [vs[3]] + vs[4..]);
    ThreeInjective(vs);
    var t1, t2 := Three(1, vs[0], vs[1], vs[2]), Three(vs[0], vs[1], vs[2], vs[3]);
    Prefixed(t1, t2, Groups([vs[3]] + vs[4..]), Groups(vs[4..]));
  }

  lemma ShiftedClosed(vs: seq<Sextet>)
    requires |vs| >= 4
    ensures Closed([1] + vs) == Closed(vs) <==> FourOnes(vs) && Closed([1] + vs[4..]) == Closed(vs[4..])
  {
    hide Closed, Three;
    SplitFour(vs);
    GroupAndRest(vs[0], vs[1], vs[2], vs[3], vs[4..]);
    GroupAndRest(1, vs[0], vs[1], vs[2], [vs[3]] + vs[4..]);
    ThreeInjective(vs);
    var t1, t2 := Three(1, vs[0], vs[1], vs[2]), Three(vs[0], vs[1], vs[2], vs[3]);
    Prefixed(t1, t2, Closed([vs[3]] + vs[4..]), Closed(vs[4..]));
  }

  lemma SplitFour(vs: seq<Sextet>)
    requires |vs| >= 4
    ensures vs == [vs[0], vs[1], vs[2], vs[3]] + vs[4..]
    ensures [1] + vs == [1, vs[0], vs[1], vs[2]] + ([vs[3]] + vs[4..])
  {
  }

  lemma GroupAndRest(v0: Sextet, v1: Sextet, v2: Sextet, v3: Sextet, rest: seq<Sextet>)
    ensures Groups([v0, v1, v2, v3] + rest) == Three(v0, v1, v2, v3) + Groups(rest)
    ensures Closed([v0, v1, v2, v3] + rest) == Three(v0, v1, v2, v3) + Closed(rest)
  {
    hide Three;
    var vs := [v0, v1, v2, v3] + rest;
    assert vs[4..] == rest;
  }

  lemma Lengths(vs: seq<Sextet>)
    ensures |Groups(vs)| == |vs| / 4 * 3
    ensures |Closed(vs)| == |vs| / 4 * 3 + (if |vs| % 4 == 3 then 2 else if |vs| % 4 == 2 then 1 else 0)
  {
    hide Three;
    if |vs| >= 4 {
      Lengths(vs[4..]);
    }
  }

  lemma FewOnes(vs: seq<Sextet>)
    requires |vs| < 4
    ensures Ones(vs)
  {
  }

  lemma FewGroups(vs: seq<Sextet>)
    requires |vs| < 4
    ensures Groups(vs) == []
  {
  }

  /** Without a pad, a 1 in front of the sextets is not seen exactly when they are ones and no three are over. */
  lemma {:induction false} GroupsShift(vs: seq<Sextet>)
    ensures Groups([1] + vs) == Groups(vs) <==> Ones(vs) && |vs| % 4 != 3
    ensures |Groups([1] + vs)| >= |Groups(vs)|
  {
    hide Groups, Ones, FourOnes;
    Lengths(vs);
    Lengths([1] + vs);
    if |vs| >= 4 {
      ShiftedGroups(vs);
      OnesBehindFour(vs);
      GroupsShift(vs[4..]);
    } else if |vs| < 3 {
      FewGroups(vs);
      FewGroups([1] + vs);
      FewOnes(vs);
    }
  }

  /** The same for sextets that a pad closes: nothing may be over. */
  lemma {:induction false} ClosedShift(vs: seq<Sextet>)
    ensures Closed([1] + vs) == Closed(vs) <==> Ones(vs) && |vs| % 4 == 0
    ensures |Closed([1] + vs)| >= |Closed(vs)|
  {
    hide Closed;
    Lengths(vs);
    Lengths([1] + vs);
    if |vs| >= 4 {
      ShiftedClosed(vs);
      OnesBehindFour(vs);
      ClosedShift(vs[4..]);
    } else if vs == [] {
      assert [1] + vs == [1];
    }
  }

  /** Text behind a pad reads alike whether pads leave a 1 behind or not, exactly when it settles. */
  lemma {:induction false} ReadShift(cs: seq<Sign>)
    ensures Read([1], [1], cs) == Read([], [], cs) <==> SettlesAfter(cs)
    ensures |Read([1], [1], cs)| >= |Read([], [], cs)|
    decreases |cs|
  {
    hide Groups, Closed, Ones;
    var vs := Front(cs);
    assert [] + vs == vs;
    if |vs| == |cs| {
      GroupsShift(vs);
    } else {
      var rest := cs[|vs| + 1..];
      ReadShift(rest);
      ClosedShift(vs);
      var a, b := Closed([1] + vs), Closed(vs);
      var x, y := Read([1], [1], rest), Read([], [], rest);
      if a + x == b + y {
        assert |a| + |x| == |b| + |y|;
        Prefixed(a, b, x, y);
      }
    }
  }

  /** And so does text in which only the first pad left one. */
  lemma {:induction false} ReadSettled(cs: seq<Sign>)
    requires SettlesAfter(cs)
    ensures Read([1], [], cs) == Read([], [], cs)
  {
    hide Groups, Closed, Ones;
    var vs := Front(cs);
    assert [] + vs == vs;
    if |vs| == |cs| {
      GroupsShift(vs);
    } else {
      ClosedShift(vs);
    }
  }

  // ---- The decoder reads ----------------------------------------------------------------

  /** Every pad stops the call, none does, or it makes no difference. */
  ghost predicate Regular(left: seq<Sextet>, cs: seq<Sign>, room: int, lim: nat) {
    || (left == [] && lim == 0)
    || (left == [1] && room > 0)
    || (left == [] && SignsSettle(cs))
  }

  lemma SettleTail(c: Sign, cs: seq<Sign>)
    requires SignsSettle([c] + cs)
    ensures SignsSettle(cs)
    ensures c == PAD ==> SettlesAfter(cs)
  {
    hide Ones;
    var all: seq<Sign> := [c] + cs;
    assert all[1..] == cs;
    if c != PAD {
      PadAtSextet(c, cs);
      if PadAt(cs) < |cs| {
        assert all[PadAt(all) + 1..] == cs[PadAt(cs) + 1..];
      }
    }
  }

  lemma TakeReads(s: B64State, left: seq<Sextet>, c: Sign, cs: seq<Sign>, written: nat, lim: nat)
    requires s.Valid() && Regular(left, [c] + cs, lim - written - 3, lim)
    ensures var (now, s', stop) := Take(s, c, written, lim);
      && Read(Held(s), left, [c] + cs) == now + Read(Held(s'), left, cs)
      && Regular(left, cs, lim - written - |now|, lim)
      && |now| <= 3
  {
    hide PushSextet, Read, Held, Ones, SettlesAfter, SignsSettle;
    if left == [] && SignsSettle([c] + cs) {
      SettleTail(c, cs);
    }
    if c != PAD {
      ReadPush(s, left, c, cs);
      PushLength(s, c);
    } else {
      ReadPad(Held(s), left, cs);
      TailHeld(s);
      PadHeld(s);
      var (now, s', stop) := Take(s, c, written, lim);
      if stop {
        HeldNothing(s');
      } else if left == [] {
        ReadSettled(cs);
      }
    }
  }

  lemma PushLength(s: B64State, v: nat)
    requires v <= PAD
    ensures |PushSextet(s, v).0| <= 3
  {
  }

  lemma HeldNothing(s: B64State)
    requires s.cnt == 0
    ensures Held(s) == []
  {
  }

  /** One call writes the front of what is read, and stands where the rest of it follows. */
  lemma {:induction false} FillReads(
      s: B64State, left: seq<Sextet>, a: seq<byte>, cb: seq<Sign>, written: nat, lim: nat)
    requires s.Valid() && Regular(left, Codes(a) + cb, lim - written - 3 * |a|, lim)
    ensures var (out, s', used) := Fill(s, a, written, lim);
      && Read(Held(s), left, Codes(a) + cb) == out + Read(Held(s'), left, Codes(a[used..]) + cb)
      && Regular(left, Codes(a[used..]) + cb, lim - 3 * |a[used..]|, lim)
    decreases |a|
  {
    hide Take, Read, Held, SignsSettle, Codes;
    if a == [] {
      assert [] + Read(Held(s), left, Codes(a) + cb) == Read(Held(s), left, Codes(a) + cb);
    } else {
      CodesOne(a);
      var c, rest := Code(a[0]), Codes(a[1..]) + cb;
      if c == BAD {
        FillReads(s, left, a[1..], cb, written, lim);
        OnwardReads(s, left, a, cb, [], s, written, lim);
      } else {
        Assoc([c], Codes(a[1..]), cb);
        TakeReads(s, left, c, rest, written, lim);
        var (now, s1, stop) := Take(s, c, written, lim);
        if !stop {
          FillReads(s1, left, a[1..], cb, written + |now|, lim);
          OnwardReads(s, left, a, cb, now, s1, written + |now|, lim);
        }
      }
    }
  }

  lemma OnwardReads(
      s: B64State, left: seq<Sextet>, a: seq<byte>, cb: seq<Sign>, now: seq<byte>, s1: B64State, written: nat, lim: nat)
    requires s.Valid() && s1.Valid() && a != []
    requires Read(Held(s), left, Codes(a) + cb) == now + Read(Held(s1), left, Codes(a[1..]) + cb)
    requires var (out, s', used) := Fill(s1, a[1..], written, lim);
      Read(Held(s1), left, Codes(a[1..]) + cb) == out + Read(Held(s'), left, Codes(a[1..][used..]) + cb)
    ensures var (out, s', used) := Onward(now, Fill(s1, a[1..], written, lim));
      && a[used..] == a[1..][used - 1..]
      && Read(Held(s), left, Codes(a) + cb) == out + Read(Held(s'), left, Codes(a[used..]) + cb)
  {
    hide Read, Held, Codes, Fill;
    var (out, s', used) := Fill(s1, a[1..], written, lim);
    assert a[1..][used..] == a[used + 1..];
    Assoc(now, out, Read(Held(s'), left, Codes(a[used + 1..]) + cb));
  }

  /** All calls together write what is read, and leave the rest to read. */
  lemma {:induction false} AllReads(s: B64State, left: seq<Sextet>, a: seq<byte>, cb: seq<Sign>, lim: nat)
    requires s.Valid() && Regular(left, Codes(a) + cb, lim - 3 * |a|, lim)
    ensures var (out, s') := DecodeAll(s, a, lim);
      Read(Held(s), left, Codes(a) + cb) == out + Read(Held(s'), left, cb) && Regular(left, cb, lim, lim)
    decreases |a|
  {
    hide Fill, Read, Held, SignsSettle;
    if a == [] {
      assert Codes(a) + cb == cb;
      assert [] + Read(Held(s), left, cb) == Read(Held(s), left, cb);
    } else {
      FillReads(s, left, a, cb, 0, lim);
      var (out, s1, used) := Fill(s, a, 0, lim);
      AllReads(s1, left, a[used..], cb, lim);
      var (more, s') := DecodeAll(s1, a[used..], lim);
      Assoc(out, more, Read(Held(s'), left, cb));
    }
  }

  lemma AllOf(s: B64State, left: seq<Sextet>, bs: seq<byte>, lim: nat)
    requires s.Valid() && Regular(left, Codes(bs), lim - 3 * |bs|, lim)
    ensures DecodeAll(s, bs, lim).0 == Read(Held(s), left, Codes(bs))
  {
    hide DecodeAll, Read, Held, SignsSettle, Codes;
    assert Codes(bs) + [] == Codes(bs);
    AllReads(s, left, bs, [], lim);
    var (out, s') := DecodeAll(s, bs, lim);
    ReadNothing(Held(s'), left);
    assert out + [] == out;
  }

  /** Text that settles decodes alike through every buffer. */
  lemma DecodesText(s: B64State, bs: seq<byte>, lim: nat)
    requires s.Valid() && Settles(bs)
    ensures DecodeAll(s, bs, lim).0 == Text(s, bs)
  {
    hide DecodeAll, Read, Held, SignsSettle, Codes;
    AllOf(s, [], bs, lim);
  }

  /** What the smallest buffer and a large one write. */
  lemma TwoBuffers(s: B64State, bs: seq<byte>)
    requires s.Valid()
    ensures DecodeAll(s, bs, 0).0 == Read(Held(s), [], Codes(bs))
    ensures DecodeAll(s, bs, 3 * |bs| + 1).0 == Read(Held(s), [1], Codes(bs))
  {
    hide DecodeAll, Read, Held, SignsSettle, Codes;
    AllOf(s, [], bs, 0);
    AllOf(s, [1], bs, 3 * |bs| + 1);
  }

  /** Pads that leave a 1 behind are not seen exactly when the text settles. */
  lemma LeftIsSeen(w: seq<Sextet>, cs: seq<Sign>)
    ensures Read(w, [], cs) == Read(w, [1], cs) <==> SignsSettle(cs)
  {
    hide Groups, Closed, SettlesAfter;
    var n := PadAt(cs);
    if n < |cs| {
      var rest := cs[n + 1..];
      ReadShift(rest);
      var first := Closed(w + Front(cs));
      Prefixed(first, first, Read([], [], rest), Read([1], [1], rest));
    }
  }

  /** The size of the output buffer does not show in what is written. */
  ghost predicate SameInEveryBuffer(s: B64State, bs: seq<byte>) {
    forall l1: nat, l2: nat :: DecodeAll(s, bs, l1).0 == DecodeAll(s, bs, l2).0
  }

  lemma SameInTwo(s: B64State, bs: seq<byte>)
    requires s.Valid() && SameInEveryBuffer(s, bs)
    ensures Settles(bs)
  {
    hide DecodeAll, Read, Held, SignsSettle, Codes;
    var large: nat := 3 * |bs| + 1;
    assert DecodeAll(s, bs, 0).0 == DecodeAll(s, bs, large).0;
    TwoBuffers(s, bs);
    LeftIsSeen(Held(s), Codes(bs));
  }

  /** Whatever the decoder holds: the size of the output buffer does not show exactly when the input settles. */
  lemma BufferDoesNotShow(s: B64State, bs: seq<byte>)
    requires s.Valid()
    ensures SameInEveryBuffer(s, bs) <==> Settles(bs)
  {
    hide DecodeAll, Settles;
    if Settles(bs) {
      forall l1: nat, l2: nat ensures DecodeAll(s, bs, l1).0 == DecodeAll(s, bs, l2).0 {
        DecodesText(s, bs, l1);
        DecodesText(s, bs, l2);
      }
    }
    if SameInEveryBuffer(s, bs) {
      SameInTwo(s, bs);
    }
  }

  /** Text that may come in parts: it settles, or is so short that the buffer is never full. */
  predicate Joins(bs: seq<byte>, lim: nat) {
    Settles(bs) || 3 * |bs| < lim
  }

  /** The parts of such text together decode to what it decodes to at once. */
  lemma TextSplits(s: B64State, a: seq<byte>, b: seq<byte>, lim: nat)
    requires s.Valid() && Joins(a + b, lim)
    ensures var (out, s') := DecodeAll(s, a, lim);
      DecodeAll(s, a + b, lim).0 == out + DecodeAll(s', b, lim).0
  {
    hide DecodeAll, Read, Held, SignsSettle, Codes;
    var (out, s') := DecodeAll(s, a, lim);
    var left: seq<Sextet> := if Settles(a + b) then [] else [1];
    CodesSplit(a, b);
    AllReads(s, left, a, Codes(b), lim);
    AllOf(s, left, a + b, lim);
    AllOf(s', left, b, lim);
  }

  // ---- Any calls ------------------------------------------------------------------------

  /** A stretch of the input, and the room that its output buffer has. */
  datatype Call = Call(bytes: seq<byte>, lim: nat)

  function Joined(calls: seq<Call>): seq<byte> {
    if calls == [] then [] else calls[0].bytes + Joined(calls[1..])
  }

  /** What calls in a row write, and what the decoder holds behind them. */
  function DecodeCalls(s: B64State, calls: seq<Call>): (seq<byte>, B64State)
    decreases |calls|
  {
    if calls == [] then ([], s)
    else
      var (out, s1) := DecodeAll(s, calls[0].bytes, calls[0].lim);
      var (more, s') := DecodeCalls(s1, calls[1..]);
      (out + more, s')
  }

  lemma {:induction false} SettleBehind(a: seq<Sign>, cs: seq<Sign>)
    requires SignsSettle(a + cs)
    ensures SignsSettle(cs)
  {
    hide SignsSettle;
    if a == [] {
      assert a + cs == cs;
    } else {
      assert a + cs == [a[0]] + (a[1..] + cs);
      SettleTail(a[0], a[1..] + cs);
      SettleBehind(a[1..], cs);
    }
  }

  /** Input that settles: calls in a row write what is read, however large their buffers are. */
  lemma {:induction false} CallsRead(s: B64State, calls: seq<Call>)
    requires s.Valid() && Settles(Joined(calls))
    ensures DecodeCalls(s, calls).0 == Text(s, Joined(calls))
    decreases |calls|
  {
    hide DecodeAll, Read, Held, SignsSettle, Codes;
    if calls == [] {
      CodesOfNothing();
      ReadNothing(Held(s), []);
    } else {
      var a, b := calls[0].bytes, Joined(calls[1..]);
      CodesSplit(a, b);
      AllReads(s, [], a, Codes(b), calls[0].lim);
      SettleBehind(Codes(a), Codes(b));
      CallsRead(DecodeAll(s, a, calls[0].lim).1, calls[1..]);
    }
  }

  lemma CodesOfNothing()
    ensures Codes([]) == []
  {
  }

  /** Neither how the input is cut into calls nor how large their buffers are shows in what is written. */
  ghost predicate SameInAnyCalls(s: B64State, bs: seq<byte>) {
    forall c1, c2 :: Joined(c1) == bs == Joined(c2) ==> DecodeCalls(s, c1).0 == DecodeCalls(s, c2).0
  }

  lemma OneCall(s: B64State, bs: seq<byte>, lim: nat)
    ensures Joined([Call(bs, lim)]) == bs && DecodeCalls(s, [Call(bs, lim)]).0 == DecodeAll(s, bs, lim).0
  {
    hide DecodeAll;
    var calls := [Call(bs, lim)];
    assert calls[1..] == [] && bs + [] == bs;
    var out := DecodeAll(s, bs, lim).0;
    assert out + [] == out;
  }

  /** Whatever the decoder holds: neither shows, for any calls, exactly when the input settles. */
  lemma CallsDoNotShow(s: B64State, bs: seq<byte>)
    requires s.Valid()
    ensures SameInAnyCalls(s, bs) <==> Settles(bs)
  {
    hide DecodeAll, Settles, DecodeCalls, Joined;
    if Settles(bs) {
      forall c1, c2 | Joined(c1) == bs == Joined(c2) ensures DecodeCalls(s, c1).0 == DecodeCalls(s, c2).0 {
        CallsRead(s, c1);
        CallsRead(s, c2);
      }
    }
    if SameInAnyCalls(s, bs) {
      forall l1: nat, l2: nat ensures DecodeAll(s, bs, l1).0 == DecodeAll(s, bs, l2).0 {
        OneCall(s, bs, l1);
        OneCall(s, bs, l2);
      }
      BufferDoesNotShow(s, bs);
    }
  }

  // ---- Round trip -----------------------------------------------------------------------

  lemma {:induction false} CodesOfRelevant(bs: seq<byte>)
    ensures Codes(Relevant(bs)) == Codes(bs)
    decreases |bs|
  {
    if bs != [] {
      CodesOfRelevant(bs[1..]);
      if Code(bs[0]) != BAD {
        assert Relevant(bs)[1..] == Relevant(bs[1..]);
      } else {
        assert Relevant(bs) == Relevant(bs[1..]);
      }
    }
  }

  /** The sextets of three bytes. */
  lemma GroupOf(b0: byte, b1: byte, b2: byte)
    ensures Three(b0 / 4, b0 % 4 * 16 + b1 / 16, b1 % 16 * 4 + b2 / 64, b2 % 64) == [b0, b1, b2]
  {
  }

  lemma CodesOfGroup(v0: nat, v1: nat, v2: nat, v3: nat, rest: seq<byte>)
    requires v0 < 64 && v1 < 64 && v2 < 64 && v3 < 64
    ensures Codes([Char(v0), Char(v1), Char(v2), Char(v3)] + rest) == [v0, v1, v2, v3] + Codes(rest)
  {
    CodesSplit([Char(v0), Char(v1), Char(v2), Char(v3)], rest);
    CodesOfChars(Char(v0), Char(v1), Char(v2), Char(v3));
  }

  lemma CodesOfChars(c0: byte, c1: byte, c2: byte, c3: byte)
    requires Code(c0) != BAD && Code(c1) != BAD && Code(c2) != BAD && Code(c3) != BAD
    ensures Codes([c0, c1, c2, c3]) == [Code(c0), Code(c1), Code(c2), Code(c3)]
  {
    hide Code;
    var cs := [c0, c1, c2, c3];
    assert cs[1..] == [c1, c2, c3] && cs[1..][1..] == [c2, c3] && cs[1..][1..][1..] == [c3];
    assert Codes([c3]) == [Code(c3)] + Codes([]);
    assert Codes([c2, c3]) == [Code(c2)] + Codes([c3]);
    assert Codes([c1, c2, c3]) == [Code(c1)] + Codes([c2, c3]);
  }

  /** A sextet in front moves neither the first pad nor what is behind it. */
  lemma SettleOne(v: Sextet, cs: seq<Sign>)
    ensures SignsSettle([v] + cs) <==> SignsSettle(cs)
  {
    hide SettlesAfter;
    PadAtSextet(v, cs);
    var all: seq<Sign> := [v] + cs;
    if PadAt(cs) < |cs| {
      assert all[PadAt(all) + 1..] == cs[PadAt(cs) + 1..];
    }
  }

  lemma SettleFour(v0: Sextet, v1: Sextet, v2: Sextet, v3: Sextet, cs: seq<Sign>)
    ensures SignsSettle([v0, v1, v2, v3] + cs) <==> SignsSettle(cs)
    ensures Read([], [], [v0, v1, v2, v3] + cs) == Three(v0, v1, v2, v3) + Read([], [], cs)
  {
    hide Three, Read, SignsSettle;
    var c3: seq<Sign> := [v3] + cs;
    var c2: seq<Sign> := [v2] + c3;
    var c1: seq<Sign> := [v1] + c2;
    assert [v0, v1, v2, v3] + cs == [v0] + c1;
    SettleOne(v0, c1);
    SettleOne(v1, c2);
    SettleOne(v2, c3);
    SettleOne(v3, cs);
    ReadOne([], [], v0, c1);
    ReadOne([v0], [], v1, c2);
    ReadOne([v0, v1], [], v2, c3);
    ReadOne([v0, v1, v2], [], v3, cs);
    ReadFour([], v0, v1, v2, v3, cs);
    assert [] + [v0] == [v0] && [v0] + [v1] == [v0, v1];
    assert [v0, v1] + [v2] == [v0, v1, v2] && [v0, v1, v2] + [v3] == [v0, v1, v2, v3];
  }

  lemma {:induction false} EncodingReads(b: seq<byte>)
    ensures SignsSettle(Codes(Encode(b))) && Read([], [], Codes(Encode(b))) == b
    decreases |b|
  {
    hide SignsSettle, Codes, Read;
    if b == [] {
      NothingReads();
    } else if |b| == 1 {
      OneByteReads(b[0]);
    } else if |b| == 2 {
      TwoBytesRead(b[0], b[1]);
    } else {
      var v0, v1, v2, v3 := b[0] / 4, b[0] % 4 * 16 + b[1] / 16, b[1] % 16 * 4 + b[2] / 64, b[2] % 64;
      CodesOfGroup(v0, v1, v2, v3, Encode(b[3..]));
      SettleFour(v0, v1, v2, v3, Codes(Encode(b[3..])));
      EncodingReads(b[3..]);
      GroupOf(b[0], b[1], b[2]);
      assert b == [b[0], b[1], b[2]] + b[3..];
    }
  }

  lemma NothingReads()
    ensures SignsSettle(Codes([])) && Read([], [], Codes([])) == []
  {
    ReadNothing([], []);
  }

  /** The signs of a last group. */
  lemma LastGroupReads(v0: Sextet, v1: Sextet, cs: seq<Sign>)
    requires cs == [PAD, PAD] || exists v2: Sextet :: cs == [v2, PAD]
    ensures SignsSettle([v0, v1] + cs)
    ensures Read([], [], [v0, v1] + cs) == TailOf([v0, v1] + Front(cs))
  {
    hide Read, SignsSettle, TailOf;
    assert [v0, v1] + cs == [v0] + ([v1] + cs);
    SettleOne(v0, [v1] + cs);
    SettleOne(v1, cs);
    ReadOne([], [], v0, [v1] + cs);
    ReadOne([v0], [], v1, cs);
    assert [] + [v0] == [v0] && [v0] + [v1] == [v0, v1];
    if cs == [PAD, PAD] {
      LastPads([v0, v1]);
    } else {
      LastPad(v0, v1, cs[0]);
    }
  }

  lemma LastPads(w: seq<Sextet>)
    requires |w| < 4
    ensures SignsSettle([PAD, PAD]) && Front([PAD, PAD]) == []
    ensures Read(w, [], [PAD, PAD]) == TailOf(w + [])
  {
    hide Read, TailOf;
    assert [PAD, PAD] == [PAD] + [PAD] && [PAD] == [PAD] + [];
    PadsSettle([PAD, PAD]);
    ReadPad(w, [], [PAD]);
    ReadPad([], [], []);
    ReadNothing([], []);
    NoTail();
    assert w + [] == w && TailOf(w) + ([] + []) == TailOf(w);
  }

  lemma PadsSettle(cs: seq<Sign>)
    requires cs == [PAD, PAD]
    ensures SignsSettle(cs) && Front(cs) == []
  {
    assert cs[1..] == [PAD] && cs[1..][1..] == [];
    assert SettlesAfter([]);
    assert SettlesAfter([PAD]);
  }

  lemma NoTail()
    ensures TailOf([]) == []
  {
  }

  lemma LastPad(v0: Sextet, v1: Sextet, v2: Sextet)
    ensures SignsSettle([v2, PAD]) && Front([v2, PAD]) == [v2]
    ensures Read([v0, v1], [], [v2, PAD]) == TailOf([v0, v1] + [v2])
  {
    hide Read, TailOf;
    assert [v2, PAD] == [v2] + [PAD] && [PAD] == [PAD] + [];
    ReadOne([v0, v1], [], v2, [PAD]);
    ReadPad([v0, v1] + [v2], [], []);
    ReadNothing([], []);
    assert [v2, PAD][1..] == [PAD];
    assert PadAt([v2, PAD]) == 1 && [v2, PAD][2..] == [];
    assert TailOf([v0, v1] + [v2]) + [] == TailOf([v0, v1] + [v2]);
  }

  lemma OneByteReads(b0: byte)
    ensures SignsSettle(Codes(Encode([b0]))) && Read([], [], Codes(Encode([b0]))) == [b0]
  {
    hide Code, Char, Read, SignsSettle, Codes;
    var v0: Sextet, v1: Sextet := b0 / 4, b0 % 4 * 16;
    CodesOfChars(Char(v0), Char(v1), EQ, EQ);
    LastPads([v0, v1]);
    LastGroupReads(v0, v1, [PAD, PAD]);
    assert [v0, v1] + [PAD, PAD] == [v0, v1, PAD, PAD];
    assert [v0, v1] + [] == [v0, v1];
  }

  lemma TwoBytesRead(b0: byte, b1: byte)
    ensures SignsSettle(Codes(Encode([b0, b1]))) && Read([], [], Codes(Encode([b0, b1]))) == [b0, b1]
  {
    hide Code, Char, Read, SignsSettle, Codes;
    var v0: Sextet, v1: Sextet, v2: Sextet := b0 / 4, b0 % 4 * 16 + b1 / 16, b1 % 16 * 4;
    CodesOfChars(Char(v0), Char(v1), Char(v2), EQ);
    LastPad(v0, v1, v2);
    LastGroupReads(v0, v1, [v2, PAD]);
    assert [v0, v1] + [v2, PAD] == [v0, v1, v2, PAD];
    assert [v0, v1] + [v2] == [v0, v1, v2];
  }

  /** The encoding of b, with bytes to skip anywhere in it, settles and decodes to exactly b from a fresh start. */
  lemma B64RoundTrip(s: B64State, b: seq<byte>, bs: seq<byte>, lim: nat)
    requires s.Valid() && s.cnt == 0 && Relevant(bs) == Encode(b)
    ensures Settles(bs) && DecodeAll(s, bs, lim).0 == b
  {
    hide DecodeAll, SignsSettle, Codes, Read, Relevant, Encode;
    CodesOfRelevant(bs);
    EncodingReads(b);
    DecodesText(s, bs, lim);
  }
}
