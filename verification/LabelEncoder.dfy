/**
  The label encoder as the program runs it: loops over fixed-size arrays, at most 63 bytes of
  output, and nothing written unless the whole label fits. Each loop is proved against the
  functions of Utf8 and Punycode.
  */
module LabelEncoder {
  import opened Bytes
  import opened Punycode
  import opened Utf8

  const PREFIX: seq<byte> := [0x78, 0x6E, 0x2D, 0x2D]  // "xn--"

  /** The bound under which the source's unsigned arithmetic equals arithmetic on naturals. */
  const DELTA_LIMIT := 0x800_0000

  method PunyAdapt(delta0: nat, numpoints: nat, firsttime: bool) returns (bias: nat)
    requires numpoints > 0
    ensures bias == Adapt(delta0, numpoints, firsttime)
  {
    var delta: nat := if firsttime then delta0 / DAMP else delta0 / 2;
    delta := delta + delta / numpoints;
    var k: nat := 0;
    while delta > ADAPT_LIMIT
      invariant AdaptTail(delta, k) == Adapt(delta0, numpoints, firsttime)
    {
      delta := delta / (BASE - TMIN);
      k := k + BASE;
    }
    bias := k + ((BASE - TMIN + 1) * delta) / (delta + SKEW);
  }

  method PunyOut(puny: array<byte>, punyLen: nat, c: byte) returns (ok: bool, len: nat)
    requires puny.Length == LABEL_MAX && punyLen <= LABEL_MAX
    modifies puny
    ensures ok <==> punyLen < LABEL_MAX
    ensures ok ==> len == punyLen + 1 && puny[..len] == old(puny[..punyLen]) + [c]
    ensures !ok ==> len == punyLen && puny[..] == old(puny[..])
  {
    if punyLen >= LABEL_MAX {
      return false, punyLen;
    }
    puny[punyLen] := c;
    return true, punyLen + 1;
  }

  // ---- Reading the label ----------------------------------------------------------------

  function Prepend(us: seq<CodePoint>, r: Option<seq<CodePoint>>): Option<seq<CodePoint>> {
    match r
    case None => None
    case Some(vs) => Some(us + vs)
  }

  lemma PrependNothing(r: Option<seq<CodePoint>>)
    ensures Prepend([], r) == r
  {
    assert r.Some? ==> [] + r.value == r.value;
  }

  lemma PrependTwice(us: seq<CodePoint>, u: CodePoint, r: Option<seq<CodePoint>>)
    ensures Prepend(us, Prepend([u], r)) == Prepend(us + [u], r)
  {
    if r.Some? {
      Assoc(us, [u], r.value);
    }
  }

  /** One turn of the reading loop: the code point at i and where the next one starts. */
  method ReadUtf8(buf: seq<byte>, start: nat, end: nat) returns (ok: bool, uc: int, i: nat)
    requires start < |buf| && end <= |buf|
    ensures ok <==> ReadCodePoint(buf, start, end).Some?
    ensures ok ==> ReadCodePoint(buf, start, end) == Some((uc, i))
  {
    i := start + 1;
    uc := buf[start];
    ok := false;
    if uc >= 0x80 {
      if 0xC0 <= uc < 0xE0 {
        uc := uc - 0xC0;
        if uc == 0 || i >= end || !IsTrail(buf[i]) {
          return;
        }
        uc, i := Join(uc, Payload(buf[i])), i + 1;
      } else if 0xE0 <= uc < 0xF0 {
        uc := uc - 0xE0;
        if uc == 0 || i + 1 >= end {
          return;
        }
        TwoTrail(buf, i, uc);
        if !IsTrail(buf[i]) || !IsTrail(buf[i + 1]) {
          return;
        }
        uc, i := Join(Join(uc, Payload(buf[i])), Payload(buf[i + 1])), i + 2;
      } else if 0xF0 <= uc < 0xF8 {
        uc := uc - 0xF0;
        if uc == 0 || i + 2 >= end {
          return;
        }
        ThreeTrail(buf, i, uc);
        if !IsTrail(buf[i]) || !IsTrail(buf[i + 1]) || !IsTrail(buf[i + 2]) {
          return;
        }
        uc, i := Join(Join(Join(uc, Payload(buf[i])), Payload(buf[i + 1])), Payload(buf[i + 2])), i + 3;
      } else {
        return;
      }
      if uc > UTF8_MAX {
        return;
      }
    }
    ok := true;
  }

  lemma TwoTrail(s: seq<byte>, i: nat, hi: nat)
    requires i + 2 <= |s|
    ensures ReadTrail(s, i, hi, 2)
      == if IsTrail(s[i]) && IsTrail(s[i + 1]) then Checked(Join(Join(hi, Payload(s[i])), Payload(s[i + 1])), i + 2)
         else None
  {
  }

  lemma ThreeTrail(s: seq<byte>, i: nat, hi: nat)
    requires i + 3 <= |s|
    ensures ReadTrail(s, i, hi, 3)
      == if IsTrail(s[i]) && IsTrail(s[i + 1]) && IsTrail(s[i + 2]) then
           Checked(Join(Join(Join(hi, Payload(s[i])), Payload(s[i + 1])), Payload(s[i + 2])), i + 3)
         else None
  {
    if IsTrail(s[i]) {
      TwoTrail(s, i + 1, Join(hi, Payload(s[i])));
    }
  }

  method ReadLabel(buf: seq<byte>, start: nat, end: nat) returns (ok: bool, unicode: array<CodePoint>, unicodeLen: nat)
    requires end <= |buf|
    requires start < end || start + (LABEL_MAX + 1) <= |buf|
    ensures fresh(unicode) && unicode.Length == LABEL_MAX + 1
    ensures ok <==> DecodeLabel(buf, start, end, 0).Some?
    ensures ok ==> 1 <= unicodeLen <= LABEL_MAX && unicode[unicodeLen] == 0
    ensures ok ==> DecodeLabel(buf, start, end, 0) == Some(unicode[..unicodeLen])
  {
    unicode := new CodePoint[LABEL_MAX + 1](_ => 0);
    unicodeLen := 0;
    ok := false;
    var i: nat := start;
    ghost var us: seq<CodePoint> := [];
    ghost var whole := DecodeLabel(buf, start, end, 0);
    PrependNothing(whole);
    hide DecodeLabel, ReadCodePoint, Prepend;
    while true
      invariant unicodeLen == |us| <= LABEL_MAX && us == unicode[..unicodeLen]
      invariant i < end || i + (LABEL_MAX + 1 - unicodeLen) <= |buf|
      invariant forall k :: unicodeLen <= k <= LABEL_MAX ==> unicode[k] == 0
      invariant whole == Prepend(us, DecodeLabel(buf, i, end, unicodeLen))
      decreases LABEL_MAX - unicodeLen
    {
      ReadStep(us, buf, i, end, whole);
      var good, uc, next := ReadUtf8(buf, i, end);
      if !good || unicodeLen >= LABEL_MAX {
        return;
      }
      unicode[unicodeLen] := uc;
      unicodeLen := unicodeLen + 1;
      us := us + [uc];
      assert us == unicode[..unicodeLen];
      if next == end {
        ok := true;
        return;
      }
      i := next;
    }
  }

  /** One turn of the reading loop, after the code points us. */
  lemma ReadStep(us: seq<CodePoint>, s: seq<byte>, i: nat, end: nat, whole: Option<seq<CodePoint>>)
    requires end <= |s| && |us| <= LABEL_MAX
    requires i < end || i + (LABEL_MAX + 1 - |us|) <= |s|
    requires whole == Prepend(us, DecodeLabel(s, i, end, |us|))
    ensures ReadCodePoint(s, i, end).None? || |us| >= LABEL_MAX ==> whole.None?
    ensures ReadCodePoint(s, i, end).Some? && |us| < LABEL_MAX ==>
      var (u, j) := ReadCodePoint(s, i, end).value;
      && (j == end ==> whole == Some(us + [u]))
      && (j != end ==> whole == Prepend(us + [u], DecodeLabel(s, j, end, |us| + 1)))
  {
    if ReadCodePoint(s, i, end).Some? && |us| < LABEL_MAX {
      var (u, j) := ReadCodePoint(s, i, end).value;
      if j != end {
        PrependTwice(us, u, DecodeLabel(s, j, end, |us| + 1));
      }
    }
  }

  // ---- Writing the label ----------------------------------------------------------------

  /** The variable-length integer loop: k rises by BASE until q is below its threshold. */
  method PutVarInt(puny: array<byte>, punyLen: nat, delta: nat, bias: nat) returns (ok: bool, len: nat)
    requires puny.Length == LABEL_MAX && punyLen <= LABEL_MAX
    modifies puny
    ensures len <= LABEL_MAX
    ensures ok <==> punyLen + |VarInt(delta, BASE, bias)| <= LABEL_MAX
    ensures ok ==> puny[..len] == old(puny[..punyLen]) + VarInt(delta, BASE, bias)
  {
    var q: nat, k: nat := delta, BASE;
    len := punyLen;
    ghost var before := puny[..punyLen];
    ghost var whole := VarInt(delta, BASE, bias);
    ghost var done: seq<byte> := [];
    hide VarInt, LowPart, HighPart, Digit;
    while true
      invariant len <= LABEL_MAX
      invariant done + VarInt(q, k, bias) == whole
      invariant puny[..len] == before + done
      decreases q
    {
      var t := if k <= bias then TMIN else if k >= bias + TMAX then TMAX else k - bias;
      assert t == Threshold(k, bias);
      VarIntDigit(done, q, k, bias, whole);
      if q < t {
        Assoc(before, done, [Digit(q)]);
        ok, len := PunyOut(puny, len, Digit(q));
        return;
      }
      var d := LowPart(q, t);
      ok, len := PunyOut(puny, len, Digit(d));
      if !ok {
        return;
      }
      Assoc(before, done, [Digit(d)]);
      done := done + [Digit(d)];
      q, k := HighPart(q, t), k + BASE;
    }
  }

  /** What is written and what is still to be written, before and after one digit. */
  lemma VarIntDigit(done: seq<byte>, q: nat, k: nat, bias: nat, whole: seq<byte>)
    requires done + VarInt(q, k, bias) == whole
    ensures |done| < |whole|
    ensures q < Threshold(k, bias) ==> done + [Digit(q)] == whole
    ensures var t := Threshold(k, bias);
      q >= t ==> done + [Digit(LowPart(q, t))] + VarInt(HighPart(q, t), k + BASE, bias) == whole
  {
    var t := Threshold(k, bias);
    if q >= t {
      var d, tail := [Digit(LowPart(q, t))], VarInt(HighPart(q, t), k + BASE, bias);
      Assoc(done, d, tail);
    }
  }

  /** The minimum search over all unicodeLen + 1 slots; the extra slot holds 0 and is never chosen. */
  method FindMin(unicode: seq<CodePoint>, unicodeLen: nat, n: nat) returns (m: nat)
    requires unicodeLen < |unicode| && unicode[unicodeLen] == 0
    requires INITIAL_N <= n <= UTF8_MAX + 1
    ensures m == MinFrom(unicode[..unicodeLen], n)
  {
    m := UTF8_MAX + 1;
    ghost var us := unicode[..unicodeLen];
    for idx := 0 to unicodeLen + 1
      invariant n <= m <= UTF8_MAX + 1
      invariant m == UTF8_MAX + 1 || m in us
      invariant forall j :: 0 <= j < Min(idx, unicodeLen) && us[j] >= n ==> m <= us[j]
    {
      if unicode[idx] < m && unicode[idx] >= n {
        m := unicode[idx];
        assert m == us[idx];
      }
    }
    assert forall u :: u in us && u >= n ==> m <= u;
  }

  /** One insertion: delta goes out, the bias adapts, delta starts again. */
  method InsertOne(puny: array<byte>, punyLen: nat, e: EncState, b: nat) returns (ok: bool, len: nat, e': EncState)
    requires puny.Length == LABEL_MAX && punyLen <= LABEL_MAX
    modifies puny
    ensures len <= LABEL_MAX
    ensures var piece := VarInt(e.delta, BASE, e.bias);
      && (ok <==> punyLen + |piece| <= LABEL_MAX)
      && (ok ==> puny[..len] == old(puny[..punyLen]) + piece)
    ensures ok ==> e' == AfterInsert(e, b)
  {
    e' := e;
    ok, len := PutVarInt(puny, punyLen, e.delta, e.bias);
    if ok {
      var bias := PunyAdapt(e.delta, e.h + 1, e.h == b);
      e' := EncState(0, bias, e.h + 1);
    }
  }

  /**
    One pass of the inner loop, from the start of round n. The ghost values carry the
    decoder's side of the link, which bounds delta.
    */
  method InsertRound(puny: array<byte>, punyLen: nat, unicode: seq<CodePoint>, unicodeLen: nat, n: nat,
                     e: EncState, b: nat, ghost dn0: nat, ghost di0: nat)
    returns (ok: bool, len: nat, e': EncState, ghost dn: nat, ghost di: nat)
    requires puny.Length == LABEL_MAX && punyLen <= LABEL_MAX
    requires unicodeLen <= |unicode| && unicodeLen <= LABEL_MAX && n <= UTF8_MAX
    requires Linked(unicode[..unicodeLen], n, 0, dn0, di0, e, b)
    modifies puny
    ensures len <= LABEL_MAX
    ensures var out := EncodeRound(unicode[..unicodeLen], n, 0, e, b).0;
      && (ok <==> punyLen + |out| <= LABEL_MAX)
      && (ok ==> puny[..len] == old(puny[..punyLen]) + out)
    ensures ok ==> e' == EncodeRound(unicode[..unicodeLen], n, 0, e, b).1
    ensures ok ==> Linked(unicode[..unicodeLen], n + 1, 0, dn, di, Moved(e'), b)
    ensures ok ==> e'.delta < DELTA_LIMIT
  {
    ghost var us := unicode[..unicodeLen];
    ghost var before := puny[..punyLen];
    ghost var whole := EncodeRound(us, n, 0, e, b);
    ghost var done: seq<byte> := [];
    assert done + whole.0 == whole.0;
    hide EncodeRound, VarInt, Below, Rebuilt, Steps, AfterInsert;
    len, dn, di := punyLen, dn0, di0;
    e' := e;
    for idx := 0 to unicodeLen
      invariant len <= LABEL_MAX
      invariant Linked(us, n, idx, dn, di, e', b)
      invariant puny[..len] == before + done
      invariant var r := EncodeRound(us, n, idx, e', b); (done + r.0, r.1) == whole
    {
      InsertStep(us, n, idx, dn, di, e', b, done, whole);
      assert e'.delta < DELTA_LIMIT;
      var uc := unicode[idx];
      if uc < n {
        e' := e'.(delta := e'.delta + 1);
      } else if uc == n {
        ghost var piece := VarInt(e'.delta, BASE, e'.bias);
        Assoc(before, done, piece);
        ok, len, e' := InsertOne(puny, len, e', b);
        if !ok {
          return;
        }
        done, dn, di := done + piece, n, |Below(us[..idx], n + 1)| + 1;
      }
    }
    RoundEnds(us, n, e', b, done);
    DeltaBound(us, n, unicodeLen, dn, di, e', b);
    LinkMoves(us, n, dn, di, e', b);
    ok := true;
  }

  lemma RoundEnds(us: seq<CodePoint>, n: nat, e: EncState, b: nat, done: seq<byte>)
    ensures EncodeRound(us, n, |us|, e, b) == ([], e) && done + [] == done
  {
  }

  lemma RoundsEnd(us: seq<CodePoint>, n: nat, e: EncState, b: nat, done: seq<byte>)
    requires n <= UTF8_MAX + 1 && e.h >= |us|
    ensures EncodeRounds(us, n, e, b) == [] && done + [] == done
  {
  }

  /** One code point of the pass: what is still to be written, and the link after it. */
  lemma InsertStep(us: seq<CodePoint>, n: nat, pos: nat, dn: nat, di: nat, e: EncState, b: nat,
                   done: seq<byte>, whole: (seq<byte>, EncState))
    requires pos < |us| <= LABEL_MAX && n <= UTF8_MAX
    requires Linked(us, n, pos, dn, di, e, b)
    requires var r := EncodeRound(us, n, pos, e, b); (done + r.0, r.1) == whole
    ensures e.delta < DELTA_LIMIT
    ensures us[pos] < n ==>
      var e' := e.(delta := e.delta + 1);
      var r := EncodeRound(us, n, pos + 1, e', b);
      (done + r.0, r.1) == whole && Linked(us, n, pos + 1, dn, di, e', b)
    ensures us[pos] > n ==>
      var r := EncodeRound(us, n, pos + 1, e, b);
      (done + r.0, r.1) == whole && Linked(us, n, pos + 1, dn, di, e, b)
    ensures us[pos] == n ==>
      var r := EncodeRound(us, n, pos + 1, AfterInsert(e, b), b);
      && (done + VarInt(e.delta, BASE, e.bias) + r.0, r.1) == whole
      && |whole.0| >= |done| + |VarInt(e.delta, BASE, e.bias)|
      && Linked(us, n, pos + 1, n, |Below(us[..pos], n + 1)| + 1, AfterInsert(e, b), b)
  {
    DeltaBound(us, n, pos, dn, di, e, b);
    if us[pos] == n {
      LinkInserts(us, n, pos, dn, di, e, b);
      var out := EncodeRound(us, n, pos + 1, AfterInsert(e, b), b).0;
      Assoc(done, VarInt(e.delta, BASE, e.bias), out);
    } else {
      LinkSkips(us, n, pos, dn, di, e, b);
    }
  }

  lemma BasicsStep(us: seq<CodePoint>, k: nat)
    requires k < |us|
    ensures Basics(us[..k + 1]) == Basics(us[..k]) + if us[k] < INITIAL_N then [us[k]] else []
    ensures |Basics(us[..k + 1])| <= |Basics(us)|
  {
    assert us[..k + 1] == us[..k] + [us[k]];
    BelowAppend(us[..k], [us[k]], INITIAL_N);
    assert [us[k]][1..] == [];
    assert us == us[..k + 1] + us[k + 1..];
    BelowAppend(us[..k + 1], us[k + 1..], INITIAL_N);
  }

  /** The prefix, the basic code points and the delimiter. */
  method PutBasics(puny: array<byte>, unicode: seq<CodePoint>, unicodeLen: nat) returns (ok: bool, len: nat, b: nat)
    requires puny.Length == LABEL_MAX && unicodeLen < |unicode|
    modifies puny
    ensures len <= LABEL_MAX
    ensures b <= |Basics(unicode[..unicodeLen])|
    ensures ok <==> |PREFIX + Delimited(Basics(unicode[..unicodeLen]))| <= LABEL_MAX
    ensures ok ==> puny[..len] == PREFIX + Delimited(Basics(unicode[..unicodeLen]))
    ensures ok ==> b == |Basics(unicode[..unicodeLen])|
  {
    ghost var us := unicode[..unicodeLen];
    puny[0], puny[1], puny[2], puny[3] := PREFIX[0], PREFIX[1], PREFIX[2], PREFIX[3];
    len, b := |PREFIX|, 0;
    assert puny[..len] == PREFIX;
    for idx := 0 to unicodeLen
      invariant len <= LABEL_MAX
      invariant puny[..len] == PREFIX + Basics(us[..idx])
      invariant b == |Basics(us[..idx])| <= |Basics(us)|
    {
      BasicsStep(us, idx);
      var uc := unicode[idx];
      if uc < 0x80 {
        ok, len := PunyOut(puny, len, uc);
        if !ok {
          return;
        }
        b := b + 1;
      }
    }
    assert us[..unicodeLen] == us;
    ok := true;
    if b != 0 {
      ok, len := PunyOut(puny, len, DASH);
    }
  }

  /** One round of the outer loop: what is still to be written, and the link at its start. */
  lemma RoundStep(us: seq<CodePoint>, n: nat, dn: nat, di: nat, e: EncState, b: nat, done: seq<byte>, whole: seq<byte>)
    requires n <= UTF8_MAX + 1 && |us| <= LABEL_MAX && e.h < |us|
    requires Linked(us, n, 0, dn, di, e, b)
    requires done + EncodeRounds(us, n, e, b) == whole
    ensures var m := MinFrom(us, n);
      && n <= m <= UTF8_MAX && m in us
      && Linked(us, m, 0, dn, di, RoundStart(e, n, m), b)
      && RoundStart(e, n, m).delta < DELTA_LIMIT
      && var (out, e') := EncodeRound(us, m, 0, RoundStart(e, n, m), b);
         done + out + EncodeRounds(us, m + 1, Moved(e'), b) == whole
  {
    var m := MinFrom(us, n);
    RebuiltEnds(us, n);
    MinimumIsReal(us, n, e.h);
    LinkJumps(us, n, dn, di, e, b);
    DeltaBound(us, m, 0, dn, di, RoundStart(e, n, m), b);
    var (out, e') := EncodeRound(us, m, 0, RoundStart(e, n, m), b);
    var rest := EncodeRounds(us, m + 1, Moved(e'), b);
    assert EncodeRounds(us, n, e, b) == out + rest;
    Assoc(done, out, rest);
  }

  /** One turn of the outer loop: find the next code point and insert it everywhere. */
  method PutRound(puny: array<byte>, punyLen: nat, unicode: seq<CodePoint>, unicodeLen: nat, n: nat, e: EncState,
                  b: nat, ghost dn0: nat, ghost di0: nat, ghost done0: seq<byte>, ghost whole: seq<byte>)
    returns (ok: bool, len: nat, m: nat, e': EncState, ghost dn: nat, ghost di: nat, ghost done: seq<byte>)
    requires puny.Length == LABEL_MAX && punyLen <= LABEL_MAX
    requires unicodeLen < |unicode| && unicodeLen <= LABEL_MAX && unicode[unicodeLen] == 0
    requires INITIAL_N <= n <= UTF8_MAX + 1 && e.h < unicodeLen
    requires Linked(unicode[..unicodeLen], n, 0, dn0, di0, e, b)
    requires done0 + EncodeRounds(unicode[..unicodeLen], n, e, b) == whole
    modifies puny
    ensures len <= LABEL_MAX && n <= m <= UTF8_MAX
    ensures !ok ==> punyLen - |done0| + |whole| > LABEL_MAX
    ensures ok ==> Linked(unicode[..unicodeLen], m + 1, 0, dn, di, e', b)
    ensures ok ==> done + EncodeRounds(unicode[..unicodeLen], m + 1, e', b) == whole
    ensures ok ==> done0 <= done && puny[..len] == old(puny[..punyLen]) + done[|done0|..]
  {
    ghost var us := unicode[..unicodeLen];
    RoundStep(us, n, dn0, di0, e, b, done0, whole);
    m := FindMin(unicode, unicodeLen, n);
    var start := RoundStart(e, n, m);
    done := done0 + EncodeRound(us, m, 0, start, b).0;
    ok, len, e', dn, di := InsertRound(puny, punyLen, unicode, unicodeLen, m, start, b, dn0, di0);
    e' := Moved(e');
  }

  /** The outer loop: while code points are left, run another round. */
  method PutRounds(puny: array<byte>, punyLen: nat, unicode: seq<CodePoint>, unicodeLen: nat, b: nat)
    returns (ok: bool, len: nat)
    requires puny.Length == LABEL_MAX && punyLen <= LABEL_MAX
    requires unicodeLen < |unicode| && unicodeLen <= LABEL_MAX && unicode[unicodeLen] == 0
    requires b == |Basics(unicode[..unicodeLen])|
    modifies puny
    ensures len <= LABEL_MAX
    ensures var out := EncodeRounds(unicode[..unicodeLen], INITIAL_N, EncState(0, INITIAL_BIAS, b), b);
      && (ok <==> punyLen + |out| <= LABEL_MAX)
      && (ok ==> puny[..len] == old(puny[..punyLen]) + out)
  {
    ghost var us, before := unicode[..unicodeLen], puny[..punyLen];
    var n: nat, e := INITIAL_N, EncState(0, INITIAL_BIAS, b);
    ghost var whole := EncodeRounds(us, n, e, b);
    ghost var done: seq<byte>, dn: nat, di: nat := [], INITIAL_N, 0;
    LinkStarts(us);
    assert done + whole == whole;
    len := punyLen;
    hide EncodeRounds, Linked, Basics;
    while e.h < unicodeLen
      invariant len <= LABEL_MAX && INITIAL_N <= n <= UTF8_MAX + 1
      invariant Linked(us, n, 0, dn, di, e, b)
      invariant done + EncodeRounds(us, n, e, b) == whole
      invariant puny[..len] == before + done
      decreases UTF8_MAX + 1 - n
    {
      ghost var done0 := done;
      ok, len, n, e, dn, di, done := PutRound(puny, len, unicode, unicodeLen, n, e, b, dn, di, done, whole);
      if !ok {
        return;
      }
      n := n + 1;
      assert done == done0 + done[|done0|..];
      Assoc(before, done0, done[|done0|..]);
    }
    RoundsEnd(us, n, e, b, done);
    ok := true;
  }

  /** The whole label: it is written exactly when prefix and encoding fit in 63 bytes. */
  method EncodeLabel(unicode: seq<CodePoint>, unicodeLen: nat) returns (ok: bool, puny: array<byte>, len: nat)
    requires unicodeLen < |unicode| && unicodeLen <= LABEL_MAX && unicode[unicodeLen] == 0
    ensures fresh(puny) && puny.Length == LABEL_MAX && len <= LABEL_MAX
    ensures ok <==> |PREFIX + Encode(unicode[..unicodeLen])| <= LABEL_MAX
    ensures ok ==> puny[..len] == PREFIX + Encode(unicode[..unicodeLen])
  {
    puny := new byte[LABEL_MAX](_ => 0);
    var b;
    ok, len, b := PutBasics(puny, unicode, unicodeLen);
    ghost var us := unicode[..unicodeLen];
    ghost var basics := PREFIX + Delimited(Basics(us));
    ghost var tail := EncodeRounds(us, INITIAL_N, EncState(0, INITIAL_BIAS, |Basics(us)|), |Basics(us)|);
    assert PREFIX + Encode(us) == basics + tail;
    if ok {
      ok, len := PutRounds(puny, len, unicode, unicodeLen, b);
    }
  }

  /** A label read and written: the bytes that spell it in Punycode, when they fit. */
  function LabelCode(s: seq<byte>, start: nat, end: nat): Option<seq<byte>>
    requires end <= |s|
    requires start < end || start + (LABEL_MAX + 1) <= |s|
  {
    match DecodeLabel(s, start, end, 0)
    case None => None
    case Some(us) => if |PREFIX + Encode(us)| <= LABEL_MAX then Some(PREFIX + Encode(us)) else None
  }

  method RewriteLabel(buf: seq<byte>, start: nat, end: nat) returns (ok: bool, puny: array<byte>, len: nat)
    requires end <= |buf|
    requires start < end || start + (LABEL_MAX + 1) <= |buf|
    ensures fresh(puny) && puny.Length == LABEL_MAX && len <= LABEL_MAX
    ensures ok <==> LabelCode(buf, start, end).Some?
    ensures ok ==> LabelCode(buf, start, end) == Some(puny[..len])
  {
    len := 0;
    var unicode, unicodeLen;
    ok, unicode, unicodeLen := ReadLabel(buf, start, end);
    if ok {
      ok, puny, len := EncodeLabel(unicode[..], unicodeLen);
    } else {
      puny := new byte[LABEL_MAX](_ => 0);
    }
  }
}
