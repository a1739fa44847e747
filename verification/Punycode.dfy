/**
  Punycode (RFC 3492): the encoder of section 6.3 as the label encoder runs it, the decoder
  of section 6.2, and the proof that the decoder takes every encoding back to its code points.
  */
module Punycode {
  import opened Bytes

  const UTF8_MAX := 0x10FFFF
  const BASE := 36
  const TMIN := 1
  const TMAX := 26
  const SKEW := 38
  const DAMP := 700
  const INITIAL_BIAS := 72
  const INITIAL_N := 0x80
  const ADAPT_LIMIT := 455  // ((BASE - TMIN) * TMAX) / 2

  type CodePoint = c: int | 0 <= c <= UTF8_MAX

  // ---- Bias adaptation and digits -------------------------------------------------------

  function Quotient(x: nat, c: nat): nat
    requires c > 0
  {
    x / c
  }

  /** The division loop of section 6.1, then the final bias. */
  function AdaptTail(delta: nat, k: nat): nat
    decreases delta
  {
    if delta > ADAPT_LIMIT then AdaptTail(delta / (BASE - TMIN), k + BASE)
    else k + ((BASE - TMIN + 1) * delta) / (delta + SKEW)
  }

  function Adapt(delta: nat, numpoints: nat, firsttime: bool): nat
    requires numpoints > 0
  {
    var d := if firsttime then delta / DAMP else delta / 2;
    AdaptTail(d + Quotient(d, numpoints), 0)
  }

  function Threshold(k: nat, bias: nat): (t: nat)
    ensures TMIN <= t <= TMAX
  {
    if k <= bias then TMIN else if k >= bias + TMAX then TMAX else k - bias
  }

  /** The d-th character of "abcdefghijklmnopqrstuvwxyz0123456789". */
  function Digit(d: nat): (c: byte)
    requires d < BASE
    ensures c != DASH
  {
    if d < 26 then 0x61 + d else 0x30 + (d - 26)
  }

  /** The digit a character stands for, in either case (section 5). */
  function DigitValue(c: byte): Option<nat> {
    if IsLower(c) then Some(c - 0x61)
    else if IsUpper(c) then Some(c - 0x41)
    else if IsDigit(c) then Some(c - 0x30 + 26)
    else None
  }

  // ---- Variable-length integers ---------------------------------------------------------

  lemma QuotientIsLess(x: nat, c: nat)
    requires c > 0
    ensures x / c <= x
  {
    MulMonotone(x / c, x / c, 1, c);
  }

  lemma ProductIsNat(a: nat, b: nat)
    ensures a * b >= 0
  {
  }

  lemma MulMonotone(a: nat, a': nat, c: nat, c': nat)
    requires a <= a' && c <= c'
    ensures a * c <= a' * c'
  {
    assert a * c <= a' * c;
    assert a' * c <= a' * c';
  }

  /** The digit value written for q at threshold t, and what is left of q after it. */
  function LowPart(q: nat, t: nat): (d: nat)
    requires TMIN <= t <= TMAX && t <= q
    ensures t <= d < BASE
  {
    t + (q - t) % (BASE - t)
  }

  function HighPart(q: nat, t: nat): (p: nat)
    requires TMIN <= t <= TMAX && t <= q
    ensures p < q
  {
    QuotientIsLess(q - t, BASE - t);
    (q - t) / (BASE - t)
  }

  /** The generalized variable-length integer for q (section 3.3). */
  function VarInt(q: nat, k: nat, bias: nat): (s: seq<byte>)
    ensures s != [] && DASH !in s
    decreases q
  {
    var t := Threshold(k, bias);
    if q < t then [Digit(q)]
    else [Digit(LowPart(q, t))] + VarInt(HighPart(q, t), k + BASE, bias)
  }

  /** Reads one variable-length integer, adding digit * weight to i at each digit (section 6.2). */
  function ReadVarInt(s: seq<byte>, i: nat, w: nat, k: nat, bias: nat): (r: Option<(nat, seq<byte>)>)
    ensures r.Some? ==> r.value.0 >= i && |r.value.1| < |s|
    decreases |s|
  {
    if s == [] then None
    else match DigitValue(s[0])
      case None => None
      case Some(d) =>
        var t := Threshold(k, bias);
        ProductIsNat(d, w);
        ProductIsNat(w, BASE - t);
        if d < t then Some((i + d * w, s[1..]))
        else ReadVarInt(s[1..], i + d * w, w * (BASE - t), k + BASE, bias)
  }

  lemma WeightSplit(q: nat, t: nat, w: nat, i: nat)
    requires TMIN <= t <= TMAX && t <= q
    ensures (i + LowPart(q, t) * w) + HighPart(q, t) * (w * (BASE - t)) == i + q * w
  {
    var p, c := HighPart(q, t), BASE - t;
    assert q == LowPart(q, t) + p * c;
    Distribute(LowPart(q, t), p * c, w);
    Reassociate(p, c, w);
  }

  lemma Distribute(a: nat, b: nat, w: nat)
    ensures (a + b) * w == a * w + b * w
  {
  }

  lemma Reassociate(p: nat, c: nat, w: nat)
    ensures p * c * w == p * (w * c)
  {
  }

  lemma ReadDigit(s: seq<byte>, d: nat, i: nat, w: nat, k: nat, bias: nat)
    requires s != [] && d < BASE && s[0] == Digit(d)
    ensures d < Threshold(k, bias) ==> ReadVarInt(s, i, w, k, bias) == Some((i + d * w, s[1..]))
    ensures d >= Threshold(k, bias) ==>
      ReadVarInt(s, i, w, k, bias)
      == ReadVarInt(s[1..], i + d * w, w * (BASE - Threshold(k, bias)), k + BASE, bias)
  {
    assert DigitValue(s[0]) == Some(d);
  }

  lemma VarIntSplits(q: nat, k: nat, bias: nat, rest: seq<byte>)
    requires q >= Threshold(k, bias)
    ensures var t, s := Threshold(k, bias), VarInt(q, k, bias) + rest;
      && s[0] == Digit(LowPart(q, t))
      && s[1..] == VarInt(HighPart(q, t), k + BASE, bias) + rest
  {
  }

  /** One digit read: what the rest of the integer has to contribute stays the same. */
  lemma ReadFirstDigit(q: nat, i: nat, w: nat, k: nat, bias: nat, rest: seq<byte>) returns (i': nat, w': nat)
    requires q >= Threshold(k, bias)
    ensures var p := HighPart(q, Threshold(k, bias));
      && ReadVarInt(VarInt(q, k, bias) + rest, i, w, k, bias)
         == ReadVarInt(VarInt(p, k + BASE, bias) + rest, i', w', k + BASE, bias)
      && i' + p * w' == i + q * w
  {
    var t := Threshold(k, bias);
    i', w' := i + LowPart(q, t) * w, w * (BASE - t);
    VarIntSplits(q, k, bias, rest);
    ReadDigit(VarInt(q, k, bias) + rest, LowPart(q, t), i, w, k, bias);
    WeightSplit(q, t, w, i);
  }

  lemma {:induction false} ReadInvertsVarInt(q: nat, i: nat, w: nat, k: nat, bias: nat, rest: seq<byte>)
    ensures ReadVarInt(VarInt(q, k, bias) + rest, i, w, k, bias) == Some((i + q * w, rest))
    decreases q
  {
    var t := Threshold(k, bias);
    if q < t {
      assert (VarInt(q, k, bias) + rest)[1..] == rest;
      ReadDigit(VarInt(q, k, bias) + rest, q, i, w, k, bias);
    } else {
      var i', w' := ReadFirstDigit(q, i, w, k, bias, rest);
      ReadInvertsVarInt(HighPart(q, t), i', w', k + BASE, bias, rest);
    }
  }

  // ---- The encoder ----------------------------------------------------------------------

  /** What the encoder carries between insertions: delta, bias and the count handled so far. */
  datatype EncState = EncState(delta: nat, bias: nat, h: nat)

  /** The least code point of us that is at least n, or UTF8_MAX + 1. */
  function MinFrom(us: seq<CodePoint>, n: nat): (m: nat)
    ensures m <= UTF8_MAX + 1
    ensures n <= UTF8_MAX + 1 ==> n <= m
    ensures forall u :: u in us && u >= n ==> m <= u
    ensures m == UTF8_MAX + 1 || m in us
  {
    if us == [] then UTF8_MAX + 1
    else
      var m := MinFrom(us[1..], n);
      assert forall u :: u in us <==> u == us[0] || u in us[1..];
      if us[0] >= n && us[0] < m then us[0] else m
  }

  /** One pass over the code points from pos on, inserting those equal to n. */
  function EncodeRound(us: seq<CodePoint>, n: nat, pos: nat, e: EncState, b: nat)
    : (r: (seq<byte>, EncState))
    requires pos <= |us|
    ensures DASH !in r.0
    decreases |us| - pos
  {
    if pos == |us| then ([], e)
    else if us[pos] < n then EncodeRound(us, n, pos + 1, e.(delta := e.delta + 1), b)
    else if us[pos] == n then
      var (out, e') := EncodeRound(us, n, pos + 1, AfterInsert(e, b), b);
      (VarInt(e.delta, BASE, e.bias) + out, e')
    else EncodeRound(us, n, pos + 1, e, b)
  }

  function AfterInsert(e: EncState, b: nat): EncState {
    EncState(0, Adapt(e.delta, e.h + 1, e.h == b), e.h + 1)
  }

  /** The round for code point m, entered from code point n. */
  function RoundStart(e: EncState, n: nat, m: nat): EncState
    requires n <= m
  {
    e.(delta := e.delta + (m - n) * (e.h + 1))
  }

  /** All rounds from code point n on. */
  function EncodeRounds(us: seq<CodePoint>, n: nat, e: EncState, b: nat): (out: seq<byte>)
    requires n <= UTF8_MAX + 1
    ensures DASH !in out
    decreases UTF8_MAX + 1 - n
  {
    var m := MinFrom(us, n);
    if e.h >= |us| || m > UTF8_MAX then []
    else
      var (out, e') := EncodeRound(us, m, 0, RoundStart(e, n, m), b);
      out + EncodeRounds(us, m + 1, e'.(delta := e'.delta + 1), b)
  }

  /** The code points of us below n, in order. */
  function Below(us: seq<CodePoint>, n: nat): (r: seq<CodePoint>)
    ensures |r| <= |us|
    ensures forall u :: u in r ==> u < n
  {
    if us == [] then []
    else if us[0] < n then [us[0]] + Below(us[1..], n)
    else Below(us[1..], n)
  }

  /** The basic code points of us, as bytes. */
  function Basics(us: seq<CodePoint>): (r: seq<byte>)
    ensures r == Below(us, INITIAL_N)
  {
    var r := Below(us, INITIAL_N);
    assert forall i :: 0 <= i < |r| ==> r[i] in r;
    r
  }

  function Delimited(basics: seq<byte>): seq<byte> {
    if basics == [] then [] else basics + [DASH]
  }

  /** The whole encoding of section 6.3, unbounded. */
  function Encode(us: seq<CodePoint>): seq<byte> {
    var b := |Basics(us)|;
    Delimited(Basics(us)) + EncodeRounds(us, INITIAL_N, EncState(0, INITIAL_BIAS, b), b)
  }

  // ---- The decoder ----------------------------------------------------------------------

  function Inserted(out: seq<nat>, at: nat, c: nat): seq<nat>
    requires at <= |out|
  {
    out[..at] + [c] + out[at..]
  }

  /** The main loop of section 6.2, over unbounded integers. */
  function DecodeTail(out: seq<nat>, n: nat, i: nat, bias: nat, s: seq<byte>): Option<seq<nat>>
    decreases |s|, 0
  {
    if s == [] then Some(out)
    else match ReadVarInt(s, i, 1, BASE, bias)
      case None => None
      case Some((i', rest)) => DecodeInsert(out, n, i, i', bias, rest)
  }

  /** The insertion of one code point, and what follows. */
  function DecodeInsert(out: seq<nat>, n: nat, i: nat, i': nat, bias: nat, rest: seq<byte>): Option<seq<nat>>
    requires i <= i'
    decreases |rest|, 1
  {
    var (n', at) := (n + i' / (|out| + 1), i' % (|out| + 1));
    DecodeTail(Inserted(out, at, n'), n', at + 1, Adapt(i' - i, |out| + 1, i == 0), rest)
  }

  /** The position of the last delimiter, or -1. */
  function LastDash(s: seq<byte>): (at: int)
    ensures -1 <= at < |s|
    ensures at >= 0 ==> s[at] == DASH
    ensures forall j :: at < j < |s| ==> s[j] != DASH
  {
    if s == [] then -1
    else if s[|s| - 1] == DASH then |s| - 1
    else LastDash(s[..|s| - 1])
  }

  predicate AllBasic(s: seq<byte>) {
    forall i :: 0 <= i < |s| ==> s[i] < INITIAL_N
  }

  /** The decoder of section 6.2. */
  function Decode(s: seq<byte>): Option<seq<nat>> {
    var at := LastDash(s);
    var basics, tail := if at < 0 then [] else s[..at], if at <= 0 then s else s[at + 1..];
    if AllBasic(basics) then DecodeTail(basics, INITIAL_N, 0, INITIAL_BIAS, tail) else None
  }

  // ---- Decoder and encoder in step ------------------------------------------------------

  /** What the decoder has rebuilt when the encoder stands before position pos of round n. */
  function Rebuilt(us: seq<CodePoint>, n: nat, pos: nat): seq<CodePoint>
    requires pos <= |us|
  {
    Below(us[..pos], n + 1) + Below(us[pos..], n)
  }

  lemma {:induction false} BelowAppend(a: seq<CodePoint>, b: seq<CodePoint>, n: nat)
    ensures Below(a + b, n) == Below(a, n) + Below(b, n)
  {
    if a == [] {
      assert a + b == b;
    } else {
      BelowAppend(a[1..], b, n);
      assert (a + b)[0] == a[0] && (a + b)[1..] == a[1..] + b;
      Assoc([a[0]], Below(a[1..], n), Below(b, n));
    }
  }

  lemma {:induction false} BelowIsAll(us: seq<CodePoint>, n: nat)
    requires |Below(us, n)| >= |us|
    ensures Below(us, n) == us
  {
    if us != [] {
      BelowIsAll(us[1..], n);
    }
  }

  /** No code point lies between n and MinFrom(us, n). */
  lemma {:induction false} BelowSkips(us: seq<CodePoint>, n: nat, m: nat)
    requires n <= m
    requires forall u :: u in us && u >= n ==> m <= u
    ensures Below(us, n) == Below(us, m)
  {
    if us != [] {
      assert us[0] in us;
      assert forall u :: u in us[1..] ==> u in us;
      BelowSkips(us[1..], n, m);
    }
  }

  lemma {:induction false} BelowHasAll(us: seq<CodePoint>, n: nat)
    requires forall u :: u in us ==> u < n
    ensures Below(us, n) == us
  {
    if us != [] {
      assert us[0] in us;
      assert forall u :: u in us[1..] ==> u in us;
      BelowHasAll(us[1..], n);
    }
  }

  /** How the rebuilt text changes when the encoder moves over position pos. */
  lemma RebuiltStep(us: seq<CodePoint>, n: nat, pos: nat)
    requires pos < |us|
    ensures us[pos] <= n ==> Below(us[..pos + 1], n + 1) == Below(us[..pos], n + 1) + [us[pos]]
    ensures us[pos] > n ==> Below(us[..pos + 1], n + 1) == Below(us[..pos], n + 1)
    ensures us[pos] >= n ==> Below(us[pos..], n) == Below(us[pos + 1..], n)
    ensures us[pos] < n ==> Below(us[pos..], n) == [us[pos]] + Below(us[pos + 1..], n)
  {
    assert us[..pos + 1] == us[..pos] + [us[pos]];
    BelowAppend(us[..pos], [us[pos]], n + 1);
    assert us[pos..][1..] == us[pos + 1..];
    assert [us[pos]][1..] == [];
  }

  lemma RebuiltSkips(us: seq<CodePoint>, n: nat, pos: nat)
    requires pos < |us| && us[pos] != n
    ensures Rebuilt(us, n, pos + 1) == Rebuilt(us, n, pos)
  {
    RebuiltStep(us, n, pos);
  }

  lemma RebuiltInserts(us: seq<CodePoint>, n: nat, pos: nat)
    requires pos < |us| && us[pos] == n
    ensures Rebuilt(us, n, pos + 1) == Inserted(Rebuilt(us, n, pos), |Below(us[..pos], n + 1)|, n)
  {
    RebuiltStep(us, n, pos);
  }

  lemma RebuiltEnds(us: seq<CodePoint>, n: nat)
    ensures Rebuilt(us, n, 0) == Below(us, n)
    ensures Rebuilt(us, n, |us|) == Below(us, n + 1)
  {
    assert us[..0] == [] && us[0..] == us && us[..|us|] == us && us[|us|..] == [];
  }

  /** The decoder steps that gap whole code points take over len insertion points each. */
  ghost function Steps(gap: nat, len: nat): nat {
    if gap == 0 then 0 else Steps(gap - 1, len) + len
  }

  lemma {:induction false} StepsIsProduct(gap: nat, len: nat)
    ensures Steps(gap, len) == gap * len
  {
    if gap > 0 {
      StepsIsProduct(gap - 1, len);
    }
  }

  lemma {:induction false} StepsAdd(a: nat, b: nat, len: nat)
    ensures Steps(a + b, len) == Steps(a, len) + Steps(b, len)
  {
    if b > 0 {
      StepsAdd(a, b - 1, len);
    }
  }

  /**
    The link between the two machines. The encoder stands before position pos of round n with
    state e; the decoder holds the rebuilt text, code point dn and insertion index di. The
    encoder's delta is the number of decoder steps from (dn, di) to (n, place of pos).
    */
  ghost predicate Linked(us: seq<CodePoint>, n: nat, pos: nat, dn: nat, di: nat, e: EncState, b: nat) {
    && pos <= |us|
    && INITIAL_N <= dn <= n
    && e.h == |Rebuilt(us, n, pos)|
    && di <= e.h
    && b <= e.h
    && (e.h == b <==> di == 0)
    && e.delta + di == Steps(n - dn, e.h + 1) + |Below(us[..pos], n + 1)|
  }

  /** Under the link, delta stays below 2^27, so a 32-bit or 64-bit unsigned never wraps. */
  lemma DeltaBound(us: seq<CodePoint>, n: nat, pos: nat, dn: nat, di: nat, e: EncState, b: nat)
    requires Linked(us, n, pos, dn, di, e, b)
    requires |us| <= 63 && n <= UTF8_MAX + 1
    ensures e.delta < 0x800_0000
  {
    StepsIsProduct(n - dn, e.h + 1);
    assert |Rebuilt(us, n, pos)| <= |us[..pos]| + |us[pos..]|;
    MulMonotone(n - dn, UTF8_MAX + 1, e.h + 1, 64);
  }

  /** The decoder's division takes back apart what Steps put together. */
  lemma {:induction false} StepsSplit(gap: nat, r: nat, len: nat)
    requires r < len
    ensures (Steps(gap, len) + r) / len == gap && (Steps(gap, len) + r) % len == r
  {
    if gap > 0 {
      StepsSplit(gap - 1, r, len);
      DivModAdd(Steps(gap - 1, len) + r, len);
    }
  }

  lemma DivModAdd(x: nat, len: nat)
    requires len > 0
    ensures (x + len) / len == x / len + 1 && (x + len) % len == x % len
  {
    var y := x + len;
    var p, q := x / len + 1, y / len;
    if q < p {
      MulMonotone(q + 1, p, len, len);
    }
    if p < q {
      MulMonotone(p + 1, q, len, len);
    }
  }

  /** Moving over a code point other than n keeps the link. */
  lemma LinkSkips(us: seq<CodePoint>, n: nat, pos: nat, dn: nat, di: nat, e: EncState, b: nat)
    requires Linked(us, n, pos, dn, di, e, b) && pos < |us| && us[pos] != n
    ensures us[pos] < n ==> Linked(us, n, pos + 1, dn, di, e.(delta := e.delta + 1), b)
    ensures us[pos] > n ==> Linked(us, n, pos + 1, dn, di, e, b)
  {
    RebuiltStep(us, n, pos);
    RebuiltSkips(us, n, pos);
  }

  /** One insertion: the decoder reads delta and puts n where the encoder found it. */
  lemma LinkInserts(us: seq<CodePoint>, n: nat, pos: nat, dn: nat, di: nat, e: EncState, b: nat)
    requires Linked(us, n, pos, dn, di, e, b) && pos < |us| && us[pos] == n
    ensures Linked(us, n, pos + 1, n, |Below(us[..pos], n + 1)| + 1, AfterInsert(e, b), b)
  {
    RebuiltStep(us, n, pos);
    RebuiltInserts(us, n, pos);
  }

  lemma DecoderInserts(us: seq<CodePoint>, n: nat, pos: nat, dn: nat, di: nat, e: EncState, b: nat, rest: seq<byte>)
    requires Linked(us, n, pos, dn, di, e, b) && pos < |us| && us[pos] == n
    ensures DecodeTail(Rebuilt(us, n, pos), dn, di, e.bias, VarInt(e.delta, BASE, e.bias) + rest)
      == DecodeTail(Rebuilt(us, n, pos + 1), n, |Below(us[..pos], n + 1)| + 1, AfterInsert(e, b).bias, rest)
  {
    hide VarInt, ReadVarInt, Adapt, Steps, Below, DecodeInsert;
    var at := |Below(us[..pos], n + 1)|;
    ReadInvertsVarInt(e.delta, di, 1, BASE, e.bias, rest);
    assert VarInt(e.delta, BASE, e.bias) + rest != [];
    StepsSplit(n - dn, at, e.h + 1);
    RebuiltInserts(us, n, pos);
    InsertsAt(Rebuilt(us, n, pos), dn, di, di + e.delta, e.bias, rest, n, at);
  }

  lemma InsertsAt(out: seq<nat>, n: nat, i: nat, i': nat, bias: nat, rest: seq<byte>, n': nat, at: nat)
    requires i <= i' && n' == n + i' / (|out| + 1) && at == i' % (|out| + 1)
    ensures DecodeInsert(out, n, i, i', bias, rest)
      == DecodeTail(Inserted(out, at, n'), n', at + 1, Adapt(i' - i, |out| + 1, i == 0), rest)
  {
  }

  /** A whole round: the decoder follows the encoder from pos to the end. */
  lemma {:induction false} RoundFollows(us: seq<CodePoint>, n: nat, pos: nat, dn: nat, di: nat, e: EncState, b: nat, rest: seq<byte>)
      returns (dn': nat, di': nat)
    requires Linked(us, n, pos, dn, di, e, b)
    ensures var (out, e') := EncodeRound(us, n, pos, e, b);
      && Linked(us, n, |us|, dn', di', e', b)
      && DecodeTail(Rebuilt(us, n, pos), dn, di, e.bias, out + rest)
         == DecodeTail(Rebuilt(us, n, |us|), dn', di', e'.bias, rest)
    decreases |us| - pos
  {
    hide VarInt, ReadVarInt, Adapt, Steps, Below, Rebuilt, DecodeTail;
    if pos == |us| {
      dn', di' := dn, di;
      assert [] + rest == rest;
    } else if us[pos] == n {
      var (tail, e') := EncodeRound(us, n, pos + 1, AfterInsert(e, b), b);
      LinkInserts(us, n, pos, dn, di, e, b);
      DecoderInserts(us, n, pos, dn, di, e, b, tail + rest);
      dn', di' := RoundFollows(us, n, pos + 1, n, |Below(us[..pos], n + 1)| + 1, AfterInsert(e, b), b, rest);
      Assoc(VarInt(e.delta, BASE, e.bias), tail, rest);
    } else {
      LinkSkips(us, n, pos, dn, di, e, b);
      RebuiltSkips(us, n, pos);
      dn', di' := RoundFollows(us, n, pos + 1, dn, di, if us[pos] < n then e.(delta := e.delta + 1) else e, b, rest);
    }
  }

  lemma EmptyBelow(n: nat)
    ensures Below([], n) == []
  {
  }

  /** Between rounds: jumping from n to the next code point m keeps the link. */
  lemma LinkJumps(us: seq<CodePoint>, n: nat, dn: nat, di: nat, e: EncState, b: nat)
    requires Linked(us, n, 0, dn, di, e, b) && n <= UTF8_MAX + 1
    ensures var m := MinFrom(us, n);
      && Linked(us, m, 0, dn, di, RoundStart(e, n, m), b)
      && Rebuilt(us, m, 0) == Rebuilt(us, n, 0)
  {
    hide MinFrom, Below, Rebuilt, Steps;
    var m := MinFrom(us, n);
    BelowSkips(us, n, m);
    RebuiltEnds(us, n);
    RebuiltEnds(us, m);
    EmptyBelow(n + 1);
    EmptyBelow(m + 1);
    assert us[..0] == [];
    StepsAdd(n - dn, m - n, e.h + 1);
    StepsIsProduct(m - n, e.h + 1);
  }

  /** At the end of round n the encoder moves on to round n + 1, and counts what it handled. */
  lemma LinkMoves(us: seq<CodePoint>, n: nat, dn: nat, di: nat, e: EncState, b: nat)
    requires Linked(us, n, |us|, dn, di, e, b)
    ensures Linked(us, n + 1, 0, dn, di, e.(delta := e.delta + 1), b)
    ensures e.h == |Below(us, n + 1)|
    ensures Rebuilt(us, n + 1, 0) == Rebuilt(us, n, |us|)
  {
    RebuiltEnds(us, n);
    RebuiltEnds(us, n + 1);
    assert us[..0] == [] && us[..|us|] == us;
  }

  /** While some code point is not yet handled, the minimum search finds a real one. */
  lemma MinimumIsReal(us: seq<CodePoint>, n: nat, h: nat)
    requires h == |Below(us, n)| && h < |us| && n <= UTF8_MAX + 1
    ensures n <= MinFrom(us, n) <= UTF8_MAX && MinFrom(us, n) in us
  {
    if MinFrom(us, n) > UTF8_MAX {
      forall u | u in us ensures u < n {
        if u >= n {
          assert false;
        }
      }
      BelowHasAll(us, n);
    }
  }

  function Moved(e: EncState): EncState {
    e.(delta := e.delta + 1)
  }

  /** The round after n, as the encoder enters it. */
  lemma RoundsUnfold(us: seq<CodePoint>, n: nat, dn: nat, di: nat, e: EncState, b: nat) returns (m: nat, start: EncState)
    requires n <= UTF8_MAX + 1
    requires Linked(us, n, 0, dn, di, e, b) && e.h < |us|
    ensures n <= m <= UTF8_MAX && start.bias == e.bias
    ensures Linked(us, m, 0, dn, di, start, b) && Rebuilt(us, m, 0) == Rebuilt(us, n, 0)
    ensures var (out, e') := EncodeRound(us, m, 0, start, b);
      EncodeRounds(us, n, e, b) == out + EncodeRounds(us, m + 1, Moved(e'), b)
  {
    hide Below, Rebuilt, Steps, EncodeRound, MinFrom;
    RebuiltEnds(us, n);
    MinimumIsReal(us, n, e.h);
    LinkJumps(us, n, dn, di, e, b);
    m := MinFrom(us, n);
    start := RoundStart(e, n, m);
  }

  /** One whole round: the decoder follows from the start of round n to the start of the next. */
  lemma NextRound(us: seq<CodePoint>, n: nat, dn: nat, di: nat, e: EncState, b: nat)
      returns (m: nat, e': EncState, dn': nat, di': nat)
    requires n <= UTF8_MAX + 1
    requires Linked(us, n, 0, dn, di, e, b) && e.h < |us|
    ensures n <= m <= UTF8_MAX
    ensures Linked(us, m + 1, 0, dn', di', e', b)
    ensures DecodeTail(Rebuilt(us, n, 0), dn, di, e.bias, EncodeRounds(us, n, e, b))
      == DecodeTail(Rebuilt(us, m + 1, 0), dn', di', e'.bias, EncodeRounds(us, m + 1, e', b))
  {
    var start;
    m, start := RoundsUnfold(us, n, dn, di, e, b);
    var end := EncodeRound(us, m, 0, start, b).1;
    e' := Moved(end);
    dn', di' := RoundFollows(us, m, 0, dn, di, start, b, EncodeRounds(us, m + 1, e', b));
    LinkMoves(us, m, dn', di', end, b);
  }

  /** All rounds: the decoder ends with exactly the code points of us. */
  lemma {:induction false} RoundsFollow(us: seq<CodePoint>, n: nat, dn: nat, di: nat, e: EncState, b: nat)
    requires n <= UTF8_MAX + 1
    requires Linked(us, n, 0, dn, di, e, b)
    ensures DecodeTail(Rebuilt(us, n, 0), dn, di, e.bias, EncodeRounds(us, n, e, b)) == Some(us)
    decreases UTF8_MAX + 1 - n
  {
    if e.h >= |us| {
      RebuiltEnds(us, n);
      BelowIsAll(us, n);
    } else {
      var m, e', dn', di' := NextRound(us, n, dn, di, e, b);
      RoundsFollow(us, m + 1, dn', di', e', b);
    }
  }

  lemma LinkStarts(us: seq<CodePoint>)
    ensures var b := |Basics(us)|;
      Linked(us, INITIAL_N, 0, INITIAL_N, 0, EncState(0, INITIAL_BIAS, b), b)
  {
    RebuiltEnds(us, INITIAL_N);
    assert us[..0] == [];
  }

  lemma LastDashOf(a: seq<byte>, tail: seq<byte>)
    requires DASH !in tail
    ensures LastDash(a + [DASH] + tail) == |a|
  {
    hide LastDash;
    var s := a + [DASH] + tail;
    var at := LastDash(s);
    assert s[|a|] == DASH;
    assert forall j :: |a| < j < |s| ==> s[j] in tail;
    assert at <= |a|;
  }

  lemma DecodeSplits(basics: seq<byte>, tail: seq<byte>)
    requires AllBasic(basics) && DASH !in tail
    ensures Decode(Delimited(basics) + tail) == DecodeTail(basics, INITIAL_N, 0, INITIAL_BIAS, tail)
  {
    var s := Delimited(basics) + tail;
    if basics == [] {
      assert s == tail;
      assert LastDash(s) == -1;
    } else {
      LastDashOf(basics, tail);
      assert s[..|basics|] == basics && s[|basics| + 1..] == tail;
    }
  }

  /** The round trip: every sequence of code points comes back from its encoding. */
  lemma DecodeInvertsEncode(us: seq<CodePoint>)
    ensures Decode(Encode(us)) == Some(us)
  {
    var basics := Basics(us);
    var start := EncState(0, INITIAL_BIAS, |basics|);
    LinkStarts(us);
    RebuiltEnds(us, INITIAL_N);
    assert Rebuilt(us, INITIAL_N, 0) == basics;
    assert forall i :: 0 <= i < |basics| ==> basics[i] in Below(us, INITIAL_N);
    DecodeSplits(basics, EncodeRounds(us, INITIAL_N, start, |basics|));
    RoundsFollow(us, INITIAL_N, INITIAL_N, 0, start, |basics|);
  }

  /** Different sequences never share an encoding. */
  lemma EncodeInjective(us: seq<CodePoint>, vs: seq<CodePoint>)
    ensures Encode(us) == Encode(vs) ==> us == vs
  {
    DecodeInvertsEncode(us);
    DecodeInvertsEncode(vs);
  }

  // ---- In numbers -----------------------------------------------------------------------

  /** The bias of RFC 3492, section 6.1, for the initial damping and every delta of a label. */
  lemma AdaptInNumbers(delta: nat, n: nat, first: bool, d: nat, e: nat)
    requires n > 0 && d == delta / (if first then 700 else 2) && e == d + d / n
    ensures e <= 455 ==> Adapt(delta, n, first) == 36 * e / (e + 38)
    ensures e > 455 >= e / 35 ==> Adapt(delta, n, first) == 36 + 36 * (e / 35) / (e / 35 + 38)
    ensures e / 35 > 455 >= e / 35 / 35 ==> Adapt(delta, n, first) == 72 + 36 * (e / 35 / 35) / (e / 35 / 35 + 38)
    ensures e / 35 / 35 > 455 >= e / 35 / 35 / 35 ==>
      Adapt(delta, n, first) == 108 + 36 * (e / 35 / 35 / 35) / (e / 35 / 35 / 35 + 38)
  {
    assert Adapt(delta, n, first) == AdaptTail(e, 0);
    TailInNumbers(e, 0);
    TailInNumbers(e / 35, 36);
    TailInNumbers(e / 35 / 35, 72);
    TailInNumbers(e / 35 / 35 / 35, 108);
  }

  lemma TailInNumbers(e: nat, k: nat)
    ensures AdaptTail(e, k) == if e > 455 then AdaptTail(e / 35, k + 36) else k + 36 * e / (e + 38)
  {
  }

  /** U+00FC U+00E9 is encoded as "9ca1b", as RFC 3492, section 6.3, has it. */
  lemma EncodesInBytes()
    ensures Encode([0xFC, 0xE9]) == [0x39, 0x63, 0x61, 0x31, 0x62]
  {
    hide EncodeRounds;
    var us: seq<CodePoint> := [0xFC, 0xE9];
    assert Below(us, INITIAL_N) == [] by { assert us[1..] == [0xE9] && us[1..][1..] == []; }
    FirstRound();
    SecondRound();
    ThirdRound();
  }

  lemma FirstRound()
    ensures EncodeRounds([0xFC, 0xE9], 0x80, EncState(0, 72, 0), 0)
      == [0x39, 0x63, 0x61] + EncodeRounds([0xFC, 0xE9], 0xEA, EncState(1, 0, 1), 0)
  {
    hide VarInt, Adapt;
    var us: seq<CodePoint> := [0xFC, 0xE9];
    TwoLeft(0x80);
    FirstDigits();
    var e := EncState(105, 72, 0);
    assert RoundStart(EncState(0, 72, 0), 0x80, 0xE9) == e;
    assert EncodeRound(us, 0xE9, 2, EncState(0, 0, 1), 0) == ([], EncState(0, 0, 1));
    assert EncodeRound(us, 0xE9, 1, e, 0) == ([0x39, 0x63, 0x61] + [], EncState(0, 0, 1));
    assert EncodeRound(us, 0xE9, 0, e, 0) == EncodeRound(us, 0xE9, 1, e, 0);
  }

  lemma SecondRound()
    ensures EncodeRounds([0xFC, 0xE9], 0xEA, EncState(1, 0, 1), 0)
      == [0x31, 0x62] + EncodeRounds([0xFC, 0xE9], 0xFD, EncState(2, Adapt(37, 2, false), 2), 0)
  {
    hide VarInt, Adapt;
    var us: seq<CodePoint> := [0xFC, 0xE9];
    TwoLeft(0xEA);
    SecondDigits();
    var e, e1 := EncState(37, 0, 1), EncState(0, Adapt(37, 2, false), 2);
    assert RoundStart(EncState(1, 0, 1), 0xEA, 0xFC) == e;
    assert EncodeRound(us, 0xFC, 2, e1.(delta := 1), 0) == ([], e1.(delta := 1));
    assert EncodeRound(us, 0xFC, 1, e1, 0) == ([], e1.(delta := 1));
    assert EncodeRound(us, 0xFC, 0, e, 0) == ([0x31, 0x62] + [], e1.(delta := 1));
  }

  lemma ThirdRound()
    ensures EncodeRounds([0xFC, 0xE9], 0xFD, EncState(2, Adapt(37, 2, false), 2), 0) == []
  {
    hide Adapt;
  }

  lemma TwoLeft(n: nat)
    requires n <= 0xFC
    ensures MinFrom([0xFC, 0xE9], n) == if n <= 0xE9 then 0xE9 else 0xFC
  {
    var us: seq<CodePoint> := [0xFC, 0xE9];
    assert us[1..] == [0xE9] && us[1..][1..] == [];
    assert MinFrom(us[1..][1..], n) == UTF8_MAX + 1;
    assert MinFrom(us[1..], n) == if n <= 0xE9 then 0xE9 else UTF8_MAX + 1;
  }

  /** The delta 105 with the initial bias. */
  lemma FirstDigits()
    ensures VarInt(105, 36, 72) == [0x39, 0x63, 0x61] && Adapt(105, 1, true) == 0
  {
    assert VarInt(0, 108, 72) == [0x61];
    assert VarInt(2, 72, 72) == [0x63] + VarInt(0, 108, 72);
    assert VarInt(105, 36, 72) == [0x39] + VarInt(2, 72, 72);
  }

  lemma SecondDigits()
    ensures VarInt(37, 36, 0) == [0x31, 0x62]
  {
    assert VarInt(1, 72, 0) == [0x62];
    assert VarInt(37, 36, 0) == [0x31] + VarInt(1, 72, 0);
  }
}
