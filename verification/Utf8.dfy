/**
  The UTF-8 reader of the label encoder, and its relation to the encoding of RFC 3629,
  section 3. The bit tests of the source are written as ranges: lead & 0xE0 == 0xC0 is
  0xC0 <= lead < 0xE0, and b ^ 0x80 <= 0x3F is 0x80 <= b < 0xC0.
  */
module Utf8 {
  import opened Bytes
  import opened Punycode

  const LABEL_MAX := 63

  predicate IsTrail(b: byte) { 0x80 <= b < 0xC0 }

  /** The six payload bits of a trailing byte. */
  function Payload(b: byte): (v: int)
    ensures IsTrail(b) ==> 0 <= v < 0x40
  {
    b - 0x80
  }

  /** Six more bits appended to a code point in progress. */
  function Join(hi: int, lo: int): int {
    hi * 0x40 + lo
  }

  function Checked(u: int, next: nat): (r: Option<(CodePoint, nat)>)
    requires u >= 0
  {
    if u > UTF8_MAX then None else Some((u, next))
  }

  /** A code point whose lead byte gave the bits hi, with n trailing bytes from s[i] on. */
  function ReadTrail(s: seq<byte>, i: nat, hi: int, n: nat): (r: Option<(CodePoint, nat)>)
    requires hi >= 0 && i + n <= |s|
    ensures r.Some? ==> r.value.1 == i + n
    decreases n
  {
    if n == 0 then Checked(hi, i)
    else if !IsTrail(s[i]) then None
    else ReadTrail(s, i + 1, Join(hi, Payload(s[i])), n - 1)
  }

  /** One code point of s at i, and the index after it; trailing bytes must lie before end. */
  function ReadCodePoint(s: seq<byte>, i: nat, end: nat): (r: Option<(CodePoint, nat)>)
    requires i < |s| && end <= |s|
    ensures r.Some? ==> i < r.value.1 <= i + 4
    ensures r.Some? && i < end ==> r.value.1 <= end
    ensures r.Some? && i >= end ==> r.value.1 == i + 1
  {
    var lead: int := s[i];
    if lead < 0x80 then Some((lead, i + 1))
    else if 0xC0 <= lead < 0xE0 then
      if lead == 0xC0 || i + 1 >= end then None else ReadTrail(s, i + 1, lead - 0xC0, 1)
    else if 0xE0 <= lead < 0xF0 then
      if lead == 0xE0 || i + 2 >= end then None else ReadTrail(s, i + 1, lead - 0xE0, 2)
    else if 0xF0 <= lead < 0xF8 then
      if lead == 0xF0 || i + 3 >= end then None else ReadTrail(s, i + 1, lead - 0xF0, 3)
    else None
  }

  /**
    The code points of s from i up to exactly end, when there are at most LABEL_MAX of them
    including the count already read. The caller may stand at or past end: the reader then
    walks on over single bytes and gives up after LABEL_MAX of them.
    */
  function DecodeLabel(s: seq<byte>, i: nat, end: nat, count: nat): (r: Option<seq<CodePoint>>)
    requires end <= |s| && count <= LABEL_MAX
    requires i < end || i + (LABEL_MAX + 1 - count) <= |s|
    ensures r.Some? ==> 1 <= |r.value| <= LABEL_MAX - count
    ensures r.Some? ==> i < end
    decreases LABEL_MAX - count
  {
    match ReadCodePoint(s, i, end)
    case None => None
    case Some((u, j)) =>
      if count >= LABEL_MAX then None
      else if j == end then Some([u])
      else match DecodeLabel(s, j, end, count + 1)
        case None => None
        case Some(us) => Some([u] + us)
  }

  // ---- RFC 3629 -------------------------------------------------------------------------

  function LeadBase(n: nat): (b: int)
    requires 1 <= n <= 3
  {
    if n == 1 then 0xC0 else if n == 2 then 0xE0 else 0xF0
  }

  /** The low 6 * n bits of u as n trailing bytes. */
  function EncodeTrail(u: nat, n: nat): (s: seq<byte>)
    ensures |s| == n
    ensures forall k :: 0 <= k < n ==> IsTrail(s[k])
  {
    if n == 0 then [] else EncodeTrail(u / 0x40, n - 1) + [0x80 + u % 0x40]
  }

  /** The bits of u above its low 6 * n. */
  function LeadBits(u: nat, n: nat): nat {
    if n == 0 then u else LeadBits(u / 0x40, n - 1)
  }

  function TrailCount(u: CodePoint): (n: nat)
    ensures n <= 3
  {
    if u < 0x80 then 0 else if u < 0x800 then 1 else if u < 0x10000 then 2 else 3
  }

  lemma LeadBitsRange(u: CodePoint)
    ensures var n, hi := TrailCount(u), LeadBits(u, TrailCount(u));
      && (n == 0 ==> hi < 0x80)
      && (n == 1 ==> 2 <= hi < 0x20)
      && (n == 2 ==> hi < 0x10 && (hi == 0 <==> u < 0x1000))
      && (n == 3 ==> hi < 0x08 && (hi == 0 <==> u < 0x40000))
  {
    var n := TrailCount(u);
    if n == 2 {
      assert LeadBits(u, 2) == LeadBits(u / 0x40, 1) == LeadBits(u / 0x40 / 0x40, 0);
    } else if n == 3 {
      assert LeadBits(u, 3) == LeadBits(u / 0x40, 2) == LeadBits(u / 0x40 / 0x40, 1) == LeadBits(u / 0x40 / 0x40 / 0x40, 0);
    } else if n == 1 {
      assert LeadBits(u, 1) == LeadBits(u / 0x40, 0);
    }
  }

  function EncodeCodePoint(u: CodePoint): (s: seq<byte>)
    ensures 1 <= |s| <= 4
  {
    LeadBitsRange(u);
    var n := TrailCount(u);
    if n == 0 then [u] else [LeadBase(n) + LeadBits(u, n)] + EncodeTrail(u, n)
  }

  function EncodeText(us: seq<CodePoint>): (s: seq<byte>)
    ensures |s| >= |us|
  {
    if us == [] then [] else EncodeCodePoint(us[0]) + EncodeText(us[1..])
  }

  /** The code points whose encoding starts with E0 or F0, which the reader refuses. */
  predicate Refused(u: CodePoint) {
    0x800 <= u < 0x1000 || 0x10000 <= u < 0x40000
  }

  predicate HasRefused(us: seq<CodePoint>) {
    exists u :: u in us && Refused(u)
  }

  lemma {:induction false} ReadsTrail(s: seq<byte>, i: nat, u: nat, n: nat, m: nat)
    requires i + n + m <= |s|
    requires s[i..i + n] == EncodeTrail(u, n)
    ensures ReadTrail(s, i, LeadBits(u, n), n + m) == ReadTrail(s, i + n, u, m)
    decreases n
  {
    if n > 0 {
      var e := EncodeTrail(u, n);
      assert s[i..i + (n - 1)] == e[..n - 1] == EncodeTrail(u / 0x40, n - 1);
      assert s[i + (n - 1)] == s[i..i + n][n - 1] == 0x80 + u % 0x40;
      ReadsTrail(s, i, u / 0x40, n - 1, m + 1);
    }
  }

  lemma ReadsEncoded(s: seq<byte>, i: nat, end: nat, u: CodePoint)
    requires i + |EncodeCodePoint(u)| <= end <= |s|
    requires s[i..i + |EncodeCodePoint(u)|] == EncodeCodePoint(u)
    ensures ReadCodePoint(s, i, end) == if Refused(u) then None else Some((u, i + |EncodeCodePoint(u)|))
  {
    var n := TrailCount(u);
    var e := EncodeCodePoint(u);
    LeadBitsRange(u);
    assert s[i] == s[i..i + |e|][0] == e[0];
    if n > 0 {
      assert s[i + 1..i + 1 + n] == s[i..i + |e|][1..] == EncodeTrail(u, n);
      ReadsTrail(s, i + 1, u, n, 0);
    }
  }

  lemma RefusedSplits(us: seq<CodePoint>)
    requires us != []
    ensures HasRefused(us) <==> Refused(us[0]) || HasRefused(us[1..])
    ensures us == [us[0]] + us[1..]
  {
    assert forall u :: u in us <==> u == us[0] || u in us[1..];
  }

  /** The first code point of an encoded text, and the encoded rest behind it. */
  lemma ReadsFirst(s: seq<byte>, i: nat, end: nat, us: seq<CodePoint>) returns (j: nat)
    requires us != [] && i + |EncodeText(us)| == end <= |s| && s[i..end] == EncodeText(us)
    ensures i < j && j + |EncodeText(us[1..])| == end && s[j..end] == EncodeText(us[1..])
    ensures ReadCodePoint(s, i, end) == if Refused(us[0]) then None else Some((us[0], j))
  {
    var first, rest := EncodeCodePoint(us[0]), EncodeText(us[1..]);
    j := i + |first|;
    assert EncodeText(us) == first + rest;
    assert s[i..j] == s[i..end][..|first|];
    assert s[j..end] == s[i..end][|first|..];
    ReadsEncoded(s, i, end, us[0]);
  }

  /** The reader inverts RFC 3629 exactly when the text is short enough and nothing in it is refused. */
  lemma {:induction false} DecodeInvertsText(s: seq<byte>, i: nat, end: nat, count: nat, us: seq<CodePoint>)
    requires us != [] && count <= LABEL_MAX
    requires i + |EncodeText(us)| == end <= |s| && s[i..end] == EncodeText(us)
    ensures DecodeLabel(s, i, end, count)
      == if |us| + count <= LABEL_MAX && !HasRefused(us) then Some(us) else None
    decreases us
  {
    var j := ReadsFirst(s, i, end, us);
    RefusedSplits(us);
    if us[1..] == [] {
      assert EncodeText(us[1..]) == [] && !HasRefused(us[1..]);
      assert us == [us[0]];
    } else if !Refused(us[0]) && count < LABEL_MAX {
      DecodeInvertsText(s, j, end, count + 1, us[1..]);
    }
  }

  lemma {:induction false} TrailIsEncoded(s: seq<byte>, i: nat, hi: int, n: nat)
    requires hi >= 0 && i + n <= |s| && ReadTrail(s, i, hi, n).Some?
    ensures var u := ReadTrail(s, i, hi, n).value.0;
      s[i..i + n] == EncodeTrail(u, n) && LeadBits(u, n) == hi
    decreases n
  {
    if n > 0 {
      var hi' := Join(hi, Payload(s[i]));
      TrailIsEncoded(s, i + 1, hi', n - 1);
      var u := ReadTrail(s, i, hi, n).value.0;
      LeadBitsPeel(u, n - 1);
      TrailPeel(u, n - 1);
      assert s[i..i + n] == [s[i]] + s[i + 1..i + 1 + (n - 1)];
    }
  }

  lemma {:induction false} LeadBitsPeel(u: nat, n: nat)
    ensures LeadBits(u, n + 1) == LeadBits(u, n) / 0x40
  {
    if n > 0 {
      LeadBitsPeel(u / 0x40, n - 1);
    }
  }

  lemma {:induction false} TrailPeel(u: nat, n: nat)
    ensures EncodeTrail(u, n + 1) == [0x80 + LeadBits(u, n) % 0x40] + EncodeTrail(u, n)
  {
    if n > 0 {
      TrailPeel(u / 0x40, n - 1);
    }
  }

  /** What the reader accepts without a C1 lead byte is the one encoding of what it read. */
  lemma ReadIsEncoded(s: seq<byte>, i: nat, end: nat)
    requires i < end <= |s| && ReadCodePoint(s, i, end).Some? && s[i] != 0xC1
    ensures var (u, j) := ReadCodePoint(s, i, end).value;
      s[i..j] == EncodeCodePoint(u) && !Refused(u)
  {
    var (u, j) := ReadCodePoint(s, i, end).value;
    var n := j - i - 1;
    if n > 0 {
      TrailIsEncoded(s, i + 1, s[i] - LeadBase(n), n);
      CountFromLead(u, n);
      LeadBitsRange(u);
      assert s[i..j] == [s[i]] + s[i + 1..i + 1 + n];
    } else {
      assert s[i..j] == [u];
    }
  }

  lemma CountFromLead(u: CodePoint, n: nat)
    requires 1 <= n <= 3 && LeadBits(u, n) > 0
    requires n == 1 ==> 2 <= LeadBits(u, 1) < 0x20
    requires n == 2 ==> LeadBits(u, 2) < 0x10
    ensures TrailCount(u) == n
  {
    assert LeadBits(u, 1) == LeadBits(u / 0x40, 0);
    assert LeadBits(u, 2) == LeadBits(u / 0x40, 1) == LeadBits(u / 0x40 / 0x40, 0);
    assert LeadBits(u, 3) == LeadBits(u / 0x40, 2) == LeadBits(u / 0x40 / 0x40, 1) == LeadBits(u / 0x40 / 0x40 / 0x40, 0);
  }

  /** C1 opens an overlong form of an ASCII code point, so it never belongs to RFC 3629. */
  lemma OverlongIsNotEncoded(s: seq<byte>, i: nat, end: nat)
    requires i < end <= |s| && ReadCodePoint(s, i, end).Some? && s[i] == 0xC1
    ensures var (u, j) := ReadCodePoint(s, i, end).value;
      u < 0x80 && 0xC1 !in EncodeCodePoint(u)
  {
  }

  lemma EncodedLacksC1(u: CodePoint)
    ensures 0xC1 !in EncodeCodePoint(u)
  {
    LeadBitsRange(u);
  }

  lemma {:induction false} TextLacksC1(us: seq<CodePoint>)
    ensures 0xC1 !in EncodeText(us)
  {
    if us != [] {
      EncodedLacksC1(us[0]);
      TextLacksC1(us[1..]);
    }
  }

  /** An accepted label is the RFC 3629 encoding of its code points exactly when it holds no C1 byte. */
  lemma {:induction false} DecodedIsText(s: seq<byte>, i: nat, end: nat, count: nat)
    requires i < end <= |s| && count <= LABEL_MAX && DecodeLabel(s, i, end, count).Some?
    ensures 0xC1 !in s[i..end] <==> s[i..end] == EncodeText(DecodeLabel(s, i, end, count).value)
    decreases LABEL_MAX - count
  {
    var us := DecodeLabel(s, i, end, count).value;
    TextLacksC1(us);
    if 0xC1 !in s[i..end] {
      var (u, j) := ReadCodePoint(s, i, end).value;
      assert s[i] == s[i..end][0];
      ReadIsEncoded(s, i, end);
      if j < end {
        assert s[i..end] == s[i..j] + s[j..end];
        DecodedIsText(s, j, end, count + 1);
        assert us[1..] == DecodeLabel(s, j, end, count + 1).value;
      } else {
        assert us[1..] == [];
      }
    }
  }
}
