/**
  Host labels and host names as values: how a label is rewritten to Punycode, how labels make
  a name, which part of a name is kept, and how names are packed one after another.
  */
module HostLabels {
  import opened Bytes
  import opened Punycode
  import opened Utf8
  import opened LabelEncoder

  const HOST_MAX := 256

  // ---- Labels and names -----------------------------------------------------------------

  /** The bytes that replace a label, when it can be rewritten. */
  function PunyLabel(s: seq<byte>, start: nat, end: nat): Option<seq<byte>>
    requires end <= |s|
    requires start < end || start + (LABEL_MAX + 1) <= |s|
  {
    match LabelCode(s, start, end)
    case None => None
    case Some(p) => if start + |p| <= HOST_MAX then Some(p) else None
  }

  /** The label as it stands after rewriting was tried. */
  function Rewritten(s: seq<byte>, start: nat, end: nat): seq<byte>
    requires start <= end <= |s|
    requires start < end || start + (LABEL_MAX + 1) <= |s|
  {
    match PunyLabel(s, start, end)
    case None => s[start..end]
    case Some(p) => p
  }

  lemma RewrittenIs(s: seq<byte>, start: nat, end: nat)
    requires start <= end <= |s|
    requires start < end || start + (LABEL_MAX + 1) <= |s|
    ensures var code := LabelCode(s, start, end);
      Rewritten(s, start, end)
      == if code.Some? && start + |code.value| <= HOST_MAX then code.value else s[start..end]
  {
    hide LabelCode;
  }

  /** A byte that may stand in a saved label. */
  predicate IsPlain(c: byte) { c != NUL && c != DOT }

  predicate Plain(s: seq<byte>) {
    forall k :: 0 <= k < |s| ==> IsPlain(s[k])
  }

  predicate AllPlain(ls: seq<seq<byte>>) {
    forall k :: 0 <= k < |ls| ==> Plain(ls[k])
  }

  /** Labels, each with the dot after it. */
  function Dotted(ls: seq<seq<byte>>): seq<byte> {
    if ls == [] then [] else Dotted(ls[..|ls| - 1]) + ls[|ls| - 1] + [DOT]
  }

  /** Names, each with the NUL after it. */
  function Packed(names: seq<seq<byte>>): seq<byte> {
    if names == [] then [] else names[0] + [NUL] + Packed(names[1..])
  }

  /** The name that is kept: the last two labels of three or more when trimming, else all. */
  function Kept(ls: seq<seq<byte>>, last: seq<byte>, trim: bool): seq<byte> {
    if trim && |ls| >= 2 then ls[|ls| - 1] + [DOT] + last else Dotted(ls) + last
  }

  /** The name that is kept is a suffix of the whole name, found where the second label from the end starts. */
  lemma KeptIsSuffix(ls: seq<seq<byte>>, last: seq<byte>, trim: bool)
    requires AllPlain(ls) && Plain(last)
    ensures var name, at := Dotted(ls) + last, if trim && |ls| >= 2 then |Dotted(ls[..|ls| - 1])| else 0;
      at <= |name| && Kept(ls, last, trim) == name[at..]
    ensures NulFree(Kept(ls, last, trim))
    ensures Dotted(ls) + last != [] ==> Kept(ls, last, trim) != []
  {
    DottedNulFree(ls);
    if |ls| >= 2 {
      assert Plain(ls[|ls| - 1]);
      var head := Dotted(ls[..|ls| - 1]);
      assert Dotted(ls) + last == head + (ls[|ls| - 1] + [DOT] + last);
    }
  }

  predicate NulFree(s: seq<byte>) {
    forall k :: 0 <= k < |s| ==> s[k] != NUL
  }

  /** The first NUL of packed names ends the first name. */
  lemma FirstNul(name: seq<byte>, rest: seq<seq<byte>>)
    ensures NulFree(name) ==>
      var s, n := Packed([name] + rest), |name|;
      && n + 1 <= |s| && s[n] == NUL && (forall k :: 0 <= k < n ==> s[k] != NUL)
      && s[n + 1..] == Packed(rest)
  {
    assert ([name] + rest)[1..] == rest;
  }

  lemma DottedPush(ls: seq<seq<byte>>, l: seq<byte>)
    ensures (ls + [l])[..|ls|] == ls
    ensures Dotted(ls + [l]) == Dotted(ls) + l + [DOT]
    ensures AllPlain(ls) && Plain(l) ==> AllPlain(ls + [l])
  {
    assert (ls + [l])[..|ls|] == ls;
  }

  /** Behind the queue q: a dot after label l makes it one more finished label. */
  lemma DottedBehind(q: seq<byte>, ls: seq<seq<byte>>, l: seq<byte>)
    ensures q + Dotted(ls + [l]) + [] == q + Dotted(ls) + l + [DOT]
    ensures |Dotted(ls + [l])| == |Dotted(ls)| + |l| + 1
    ensures (ls + [l])[..|ls|] == ls
    ensures AllPlain(ls) && Plain(l) ==> AllPlain(ls + [l])
  {
    DottedPush(ls, l);
  }

  lemma {:induction false} DottedNulFree(ls: seq<seq<byte>>)
    requires AllPlain(ls)
    ensures NulFree(Dotted(ls))
  {
    if ls != [] {
      DottedNulFree(ls[..|ls| - 1]);
      assert Plain(ls[|ls| - 1]);
    }
  }

  lemma {:induction false} PackedAppend(names: seq<seq<byte>>, name: seq<byte>)
    ensures Packed(names + [name]) == Packed(names) + name + [NUL]
  {
    if names == [] {
      assert [name][1..] == [];
    } else {
      PackedAppend(names[1..], name);
      assert (names + [name])[1..] == names[1..] + [name];
    }
  }

  /** Names with a NUL between them. */
  function Joined(names: seq<seq<byte>>): seq<byte> {
    if names == [] then []
    else if |names| == 1 then names[0]
    else names[0] + [NUL] + Joined(names[1..])
  }

  /** Packed names without the last NUL. */
  lemma {:induction false} PackedJoined(names: seq<seq<byte>>)
    requires names != []
    ensures Packed(names) == Joined(names) + [NUL]
    ensures names[0] != [] ==> |Packed(names)| > 1
  {
    if |names| == 1 {
      assert Packed(names[1..]) == [];
    } else {
      PackedJoined(names[1..]);
      Assoc(names[0] + [NUL], Joined(names[1..]), [NUL]);
    }
  }

  /** The code points of a plain label are plain, so its Punycode form is too. */
  lemma {:induction false} DecodedIsPlain(s: seq<byte>, i: nat, end: nat, count: nat)
    requires i < end <= |s| && count <= LABEL_MAX && Plain(s[i..end]) && DecodeLabel(s, i, end, count).Some?
    ensures forall u :: u in DecodeLabel(s, i, end, count).value ==> u != NUL && u != DOT
    decreases LABEL_MAX - count
  {
    var (u, j) := ReadCodePoint(s, i, end).value;
    assert s[i] == s[i..end][0];
    assert u != NUL && u != DOT by {
      if s[i] == 0xC1 {
        OverlongIsNotEncoded(s, i, end);
      } else {
        ReadIsEncoded(s, i, end);
        assert EncodeCodePoint(u)[0] == s[i..j][0] == s[i];
      }
    }
    if j != end {
      assert s[j..end] == s[i..end][j - i..];
      DecodedIsPlain(s, j, end, count + 1);
    }
  }

  lemma {:induction false} RoundsArePlain(us: seq<CodePoint>, n: nat, e: EncState, b: nat)
    requires n <= UTF8_MAX + 1
    ensures Plain(EncodeRounds(us, n, e, b))
    decreases UTF8_MAX + 1 - n
  {
    var m := MinFrom(us, n);
    if e.h < |us| && m <= UTF8_MAX {
      RoundIsPlain(us, m, 0, RoundStart(e, n, m), b);
      RoundsArePlain(us, m + 1, Moved(EncodeRound(us, m, 0, RoundStart(e, n, m), b).1), b);
    }
  }

  lemma {:induction false} RoundIsPlain(us: seq<CodePoint>, n: nat, pos: nat, e: EncState, b: nat)
    requires pos <= |us|
    ensures Plain(EncodeRound(us, n, pos, e, b).0)
    decreases |us| - pos
  {
    if pos < |us| {
      if us[pos] == n {
        VarIntIsPlain(e.delta, BASE, e.bias);
        RoundIsPlain(us, n, pos + 1, AfterInsert(e, b), b);
      } else {
        RoundIsPlain(us, n, pos + 1, if us[pos] < n then e.(delta := e.delta + 1) else e, b);
      }
    }
  }

  lemma {:induction false} VarIntIsPlain(q: nat, k: nat, bias: nat)
    ensures Plain(VarInt(q, k, bias))
    decreases q
  {
    var t := Threshold(k, bias);
    if q >= t {
      VarIntIsPlain(HighPart(q, t), k + BASE, bias);
    }
  }

  lemma {:induction false} BelowIsPart(us: seq<CodePoint>, n: nat)
    ensures forall u :: u in Below(us, n) ==> u in us
  {
    if us != [] {
      BelowIsPart(us[1..], n);
    }
  }

  lemma EncodeIsPlain(us: seq<CodePoint>)
    requires forall u :: u in us ==> u != NUL && u != DOT
    ensures Plain(Encode(us))
  {
    var b := |Basics(us)|;
    BelowIsPart(us, INITIAL_N);
    RoundsArePlain(us, INITIAL_N, EncState(0, INITIAL_BIAS, b), b);
    forall k | 0 <= k < b ensures IsPlain(Basics(us)[k]) {
      assert Basics(us)[k] in Below(us, INITIAL_N);
    }
  }

  lemma RewrittenIsPlain(s: seq<byte>, start: nat, end: nat)
    requires start <= end <= |s| && Plain(s[start..end])
    requires start < end || start + (LABEL_MAX + 1) <= |s|
    ensures Plain(Rewritten(s, start, end))
    ensures Rewritten(s, start, end) == [] <==> start == end
  {
    if PunyLabel(s, start, end).Some? {
      DecodedIsPlain(s, start, end, 0);
      EncodeIsPlain(DecodeLabel(s, start, end, 0).value);
    }
  }

  // ---- What rewriting a label promises --------------------------------------------------

  /** A rewritten label is the prefix and a Punycode string that decodes to the label's code points. */
  lemma RewrittenLabelDecodes(s: seq<byte>, start: nat, end: nat)
    requires start < end <= |s|
    ensures PunyLabel(s, start, end).Some? ==>
      var p := PunyLabel(s, start, end).value;
      && PREFIX <= p && |p| <= LABEL_MAX
      && DecodeLabel(s, start, end, 0).Some?
      && Decode(p[|PREFIX|..]) == Some(DecodeLabel(s, start, end, 0).value)
  {
    hide Decode, DecodeLabel, Encode;
    if PunyLabel(s, start, end).Some? {
      var us := DecodeLabel(s, start, end, 0).value;
      var p := PunyLabel(s, start, end).value;
      assert p[|PREFIX|..] == Encode(us);
      DecodeInvertsEncode(us);
    }
  }

  /** Different labels in RFC 3629 form are never rewritten to the same bytes. */
  lemma RewritingIsInjective(s: seq<byte>, a: nat, b: nat, s': seq<byte>, a': nat, b': nat)
    requires a < b <= |s| && a' < b' <= |s'|
    requires 0xC1 !in s[a..b] && 0xC1 !in s'[a'..b']
    ensures PunyLabel(s, a, b).Some? && PunyLabel(s, a, b) == PunyLabel(s', a', b') ==> s[a..b] == s'[a'..b']
  {
    hide Decode, DecodeLabel, PunyLabel, EncodeText;
    RewrittenLabelDecodes(s, a, b);
    RewrittenLabelDecodes(s', a', b');
    if PunyLabel(s, a, b).Some? && PunyLabel(s, a, b) == PunyLabel(s', a', b') {
      DecodedIsText(s, a, b, 0);
      DecodedIsText(s', a', b', 0);
    }
  }

  /**
    End to end: a label that spells code points in RFC 3629 is rewritten exactly when there are
    at most 63 of them, none needs an E0 or F0 lead byte, and the result fits the limits.
    */
  lemma TextIsRewritten(s: seq<byte>, start: nat, end: nat, us: seq<CodePoint>)
    requires us != [] && start + |EncodeText(us)| == end <= |s| && s[start..end] == EncodeText(us)
    ensures PunyLabel(s, start, end)
      == if |us| <= LABEL_MAX && !HasRefused(us) && |PREFIX + Encode(us)| <= LABEL_MAX
            && start + |PREFIX + Encode(us)| <= HOST_MAX
         then Some(PREFIX + Encode(us)) else None
  {
    DecodeInvertsText(s, start, end, 0, us);
  }

  // ---- Labels as the scanner stores them ------------------------------------------------

  /** No byte of the kind that goes on with a multi-byte character. */
  predicate TrailFree(l: seq<byte>) {
    forall k :: 0 <= k < |l| ==> !(0x80 <= l[k] < 0xC0)
  }

  predicate HasWide(l: seq<byte>) {
    exists k :: 0 <= k < |l| && l[k] >= 0xC0
  }

  lemma {:induction false} WideIsNotRead(s: seq<byte>, i: nat, end: nat, count: nat)
    requires i < end <= |s| && count <= LABEL_MAX && TrailFree(s[i..end]) && HasWide(s[i..end])
    ensures DecodeLabel(s, i, end, count).None?
    decreases end - i
  {
    var k :| 0 <= k < |s[i..end]| && s[i..end][k] >= 0xC0;
    assert s[i + k] == s[i..end][k];
    if s[i] < 0x80 {
      if i + 1 < end && count < LABEL_MAX {
        assert s[i + 1..end] == s[i..end][1..];
        assert s[i + 1..end][k - 1] == s[i..end][k];
        WideIsNotRead(s, i + 1, end, count + 1);
      }
    } else {
      assert s[i..end][0] == s[i];
      assert i + 1 < end ==> s[i..end][1] == s[i + 1];
    }
  }

  /** A label with a byte from 0xC0 on and no byte that goes on with it is never rewritten. */
  lemma WideIsNotRewritten(s: seq<byte>, start: nat, end: nat)
    requires start < end <= |s| && TrailFree(s[start..end]) && HasWide(s[start..end])
    ensures Rewritten(s, start, end) == s[start..end]
  {
    WideIsNotRead(s, start, end, 0);
  }

  lemma {:induction false} AllBelow(us: seq<CodePoint>)
    requires forall k :: 0 <= k < |us| ==> us[k] < 0x80
    ensures Below(us, INITIAL_N) == us
  {
    if us != [] {
      AllBelow(us[1..]);
      assert us == [us[0]] + us[1..];
    }
  }

  lemma {:induction false} AsciiText(us: seq<CodePoint>)
    requires forall k :: 0 <= k < |us| ==> us[k] < 0x80
    ensures EncodeText(us) == us && !HasRefused(us)
  {
    if us != [] {
      AsciiText(us[1..]);
      assert us == [us[0]] + us[1..];
    }
  }

  /** An ASCII label is rewritten to itself between "xn--" and a dash, when that fits. */
  lemma AsciiIsRewritten(s: seq<byte>, start: nat, end: nat)
    requires start < end <= |s| && forall k :: start <= k < end ==> s[k] < 0x80
    ensures var l := s[start..end];
      Rewritten(s, start, end)
      == if |l| <= 58 && start + |l| + 5 <= 256 then [0x78, 0x6E, 0x2D, 0x2D] + l + [0x2D] else l
  {
    hide EncodeRounds, Below;
    var us: seq<CodePoint> := s[start..end];
    AllBelow(us);
    AsciiText(us);
    TextIsRewritten(s, start, end, us);
    assert Encode(us) == Delimited(Basics(us)) + EncodeRounds(us, INITIAL_N, EncState(0, INITIAL_BIAS, |us|), |us|);
    NoRounds(us);
    assert Encode(us) == us + [DASH];
    assert PREFIX + (us + [DASH]) == PREFIX + us + [DASH];
  }

  lemma NoRounds(us: seq<CodePoint>)
    ensures EncodeRounds(us, INITIAL_N, EncState(0, INITIAL_BIAS, |us|), |us|) == []
  {
  }
}
