/**
  The second fuzzy checksum as a machine over bytes. A byte may be looked at more than once:
  a character reference can end just before it, and a tag name can end at it.
  */
module Fuz2Machine {
  import opened Bytes
  import opened WordTables
  import opened Cref
  import opened Entities

  const LANG_NUM := 4
  const FC_A: byte := 0x61   // lowest folded letter
  const FC_SP: byte := 0x20  // folded space
  const FC_LT: byte := 0x3C  // folded '<'
  const MIN_WLEN := 3
  const SKIP_WLEN := WORD_LEN + 1
  const FAILSAFE := 2000

  type FoldTable = t: seq<byte> | |t| == 256 witness seq(256, i => 0)

  /** A language's word table, and the character set it needs, if any. */
  datatype Dict = Dict(words: Table, cset: Option<Charset>)

  /** The embedded tables. */
  datatype Tables = Tables(fold1: FoldTable, fold2: FoldTable, dicts: seq<Dict>, crefs: Table) {
    predicate Good() {
      && |dicts| == LANG_NUM
      && (forall i :: 0 <= i < LANG_NUM ==> WellFormedTable(dicts[i].words, 0))
      && WellFormedTable(crefs, 1)
    }

    function Fold(cs: Charset, c: byte): byte {
      if cs.Latin1? then fold1[c] else fold2[c]
    }
  }

  datatype FuzSt = InWord | StartTag | SkipTag | SkipComment

  /** Per language: letters and words counted, and the bytes its hash was given. */
  datatype Lang = Lang(wsummed: nat, wtotal: nat, md5: seq<byte>)

  /** The checksum's fields, and the content type it shares with the MIME parser. */
  datatype FuzState = FuzState(
    wlen: nat, w: Word, st: FuzSt, cref: CrefState, btotal: nat, xsummed: nat,
    tagLen: nat, tag: Word, lang: seq<Lang>, ct: ContentType)

  const NO_WORD: Word := Padded([])

  ghost predicate ValidFuz(s: FuzState) {
    && s.wlen <= SKIP_WLEN
    && (s.wlen <= WORD_LEN ==> s.w == Padded(s.w[..s.wlen]))
    && (s.st.StartTag? ==> s.tagLen <= WORD_LEN)
    && |s.lang| == LANG_NUM
    && ValidCref(s.cref)
  }

  // ---- One byte -------------------------------------------------------------------------

  predicate Known(d: Dict, cs: Charset, w: Word, wlen: nat)
    requires WellFormedTable(d.words, 0) && wlen <= WORD_LEN
  {
    && (d.cset.None? || d.cset.value == cs)
    && 1 <= wlen && w[..wlen] in Records(d.words[BucketOf(w, d.words)], 0, 0)
  }

  function Counted(l: Lang, word: seq<byte>): Lang {
    Lang(l.wsummed + |word|, l.wtotal + 1, l.md5 + word)
  }

  function Credit(d: Dict, cs: Charset, w: Word, wlen: nat, l: Lang): Lang
    requires WellFormedTable(d.words, 0) && wlen <= WORD_LEN
  {
    if Known(d, cs, w, wlen) then Counted(l, w[..wlen]) else l
  }

  function AddWord(t: Tables, cs: Charset, s: FuzState): FuzState
    requires t.Good() && |s.lang| == LANG_NUM && s.wlen <= WORD_LEN
  {
    s.(lang := seq(LANG_NUM, i requires 0 <= i < LANG_NUM => Credit(t.dicts[i], cs, s.w, s.wlen, s.lang[i])))
  }

  /** A byte of text, after character references are resolved. */
  function WordByte(t: Tables, cs: Charset, s: FuzState, c: byte): (s': FuzState)
    requires t.Good() && |s.lang| == LANG_NUM
    ensures |s'.lang| == LANG_NUM && s'.cref == s.cref && s'.ct == s.ct
  {
    var f := t.Fold(cs, c);
    if f >= FC_A then
      if s.wlen < WORD_LEN then s.(btotal := s.btotal + 1, w := s.w[s.wlen := f], wlen := s.wlen + 1)
      else s.(btotal := s.btotal + 1, wlen := SKIP_WLEN)
    else if f == FC_SP then
      (if MIN_WLEN <= s.wlen <= WORD_LEN then AddWord(t, cs, s) else s).(wlen := 0, w := NO_WORD)
    else if f == FC_LT then s.(btotal := s.btotal + 1, tagLen := 0, tag := NO_WORD, st := StartTag)
    else s.(btotal := s.btotal + 1, wlen := SKIP_WLEN, st := InWord)
  }

  /** A byte of a tag name, given in lower case. */
  predicate TagByte(tagLen: nat, c: byte) {
    || ((IsLower(c) || IsDigit(c)) && tagLen < WORD_LEN)
    || ((c == SLASH || c == BANG) && tagLen == 0)
    || (c == DASH && 1 <= tagLen <= 2)
  }

  const HTML: seq<byte> := [0x68, 0x74, 0x6D, 0x6C]  // "html"
  const COMMENT: seq<byte> := [BANG, DASH, DASH]     // "!--"

  /** A byte at the start of a tag; it is used unless the tag name ends at it. */
  function TagStep(s: FuzState, c: byte): (FuzState, bool)
    requires s.tagLen <= WORD_LEN
  {
    if TagByte(s.tagLen, c) then
      (s.(tag := s.tag[s.tagLen := c], tagLen := s.tagLen + 1, btotal := s.btotal + 1), true)
    else
      var s1 := if s.tagLen == 4 && s.tag[..4] == HTML then s.(ct := Html) else s;
      if s1.ct == Html && s1.tagLen > 0 then
        var s2 := s1.(xsummed := s1.xsummed + s1.tagLen + 1);
        if c == GT then (s2.(xsummed := s2.xsummed + 1, btotal := s2.btotal + 1, st := InWord), true)
        else if s2.tagLen >= 3 && s2.tag[..3] == COMMENT then (s2.(st := SkipComment), false)
        else (s2.(st := SkipTag), false)
      else (s1.(wlen := SKIP_WLEN, st := InWord), false)
  }

  /** A byte inside a tag or a comment. */
  function FillerByte(t: Tables, cs: Charset, s: FuzState, c: byte): (s': FuzState)
    requires t.Good()
    ensures s'.lang == s.lang && s'.cref == s.cref && s'.ct == s.ct
  {
    if c == GT then s.(xsummed := s.xsummed + 1, btotal := s.btotal + 1, st := InWord)
    else if t.Fold(cs, c) != FC_SP then
      var s1 := s.(xsummed := s.xsummed + 1, btotal := s.btotal + 1, tagLen := s.tagLen + 1);
      if s1.tagLen > FAILSAFE then s1.(wlen := SKIP_WLEN, st := InWord) else s1
    else s
  }

  /** One look at a byte: the state after it, and whether the byte is used up. */
  function Look(t: Tables, cs: Charset, s: FuzState, c: byte): (r: (FuzState, bool))
    requires t.Good() && |s.lang| == LANG_NUM && (s.st.StartTag? ==> s.tagLen <= WORD_LEN)
    ensures |r.0.lang| == LANG_NUM && (r.0.st.StartTag? ==> r.0.tagLen <= WORD_LEN)
    ensures !r.1 ==> LookRank(r.0) < LookRank(s)
  {
    match s.st
    case InWord =>
      if s.cref.st != CrefIdle || (c == AMP && s.ct == Html) then
        var (cref, i) := CrefStep(s.cref, c, t.crefs);
        if i < 0 then (s.(cref := cref), true)
        else (WordByte(t, cs, s.(cref := cref), cref.result), i == 0)
      else (WordByte(t, cs, s, c), true)
    case StartTag => TagStep(s, ToLower(c))
    case SkipTag =>
      var s1 := s.(btotal := s.btotal + 1);
      if s.cref.st != CrefIdle || c == AMP then
        var (cref, i) := CrefStep(s.cref, c, t.crefs);
        if i < 0 then (s1.(cref := cref), true)
        else (FillerByte(t, cs, s1.(cref := cref), cref.result), i == 0)
      else (FillerByte(t, cs, s1, c), true)
    case SkipComment => (FillerByte(t, cs, s, c), true)
  }

  /** A pending character reference counts two, a tag name in progress one. */
  function LookRank(s: FuzState): nat {
    (if s.cref.st == CrefIdle then 0 else 2) + (if s.st.StartTag? then 1 else 0)
  }

  /** One byte, looked at until it is used up. */
  function FuzByte(t: Tables, cs: Charset, s: FuzState, c: byte): (s': FuzState)
    requires t.Good() && |s.lang| == LANG_NUM && (s.st.StartTag? ==> s.tagLen <= WORD_LEN)
    ensures |s'.lang| == LANG_NUM && (s'.st.StartTag? ==> s'.tagLen <= WORD_LEN)
    decreases LookRank(s)
  {
    var (s1, used) := Look(t, cs, s, c);
    if used then s1 else FuzByte(t, cs, s1, c)
  }

  function FuzRun(t: Tables, cs: Charset, s: FuzState, bs: seq<byte>): (s': FuzState)
    requires t.Good() && |s.lang| == LANG_NUM && (s.st.StartTag? ==> s.tagLen <= WORD_LEN)
    ensures |s'.lang| == LANG_NUM && (s'.st.StartTag? ==> s'.tagLen <= WORD_LEN)
    decreases |bs|
  {
    if bs == [] then s else FuzRun(t, cs, FuzByte(t, cs, s, bs[0]), bs[1..])
  }

  /** Text may be fed in pieces cut anywhere, inside words, tags, comments and references too. */
  lemma {:induction false} FuzRunSplits(t: Tables, cs: Charset, s: FuzState, a: seq<byte>, b: seq<byte>)
    requires t.Good() && |s.lang| == LANG_NUM && (s.st.StartTag? ==> s.tagLen <= WORD_LEN)
    ensures FuzRun(t, cs, s, a + b) == FuzRun(t, cs, FuzRun(t, cs, s, a), b)
    decreases |a|
  {
    hide FuzByte;
    if a == [] {
      assert a + b == b;
    } else {
      assert (a + b)[1..] == a[1..] + b;
      FuzRunSplits(t, cs, FuzByte(t, cs, s, a[0]), a[1..], b);
    }
  }

  // ---- What every step keeps ------------------------------------------------------------

  /** Letters, filler and what is still open never exceed the bytes counted, in any language. */
  ghost predicate Accounted(s: FuzState) {
    forall i :: 0 <= i < |s.lang| ==>
      s.lang[i].wsummed + s.xsummed + (if s.wlen <= WORD_LEN then s.wlen else 0)
      + (if s.st.StartTag? then s.tagLen + 1 else 0) <= s.btotal
  }

  lemma PaddedPush(w: Word, n: nat, c: byte)
    requires n < WORD_LEN && w == Padded(w[..n])
    ensures w[n := c] == Padded(w[n := c][..n + 1])
  {
  }

  lemma WordByteKeeps(t: Tables, cs: Charset, s: FuzState, c: byte)
    requires t.Good() && ValidFuz(s) && Accounted(s) && s.st == InWord
    ensures ValidFuz(WordByte(t, cs, s, c)) && Accounted(WordByte(t, cs, s, c))
  {
    var f := t.Fold(cs, c);
    if f >= FC_A && s.wlen < WORD_LEN {
      PaddedPush(s.w, s.wlen, f);
    }
  }

  lemma TagStepKeeps(s: FuzState, c: byte)
    requires ValidFuz(s) && Accounted(s) && s.st == StartTag
    ensures ValidFuz(TagStep(s, c).0) && Accounted(TagStep(s, c).0)
  {
  }

  lemma FillerByteKeeps(t: Tables, cs: Charset, s: FuzState, c: byte)
    requires t.Good() && ValidFuz(s) && Accounted(s) && (s.st == SkipTag || s.st == SkipComment)
    ensures ValidFuz(FillerByte(t, cs, s, c)) && Accounted(FillerByte(t, cs, s, c))
  {
  }

  /** A change of the reference decoder and more bytes counted keep the books. */
  lemma CrefKeeps(s: FuzState, cref: CrefState, more: nat)
    requires ValidFuz(s) && Accounted(s) && ValidCref(cref)
    ensures var s' := s.(cref := cref, btotal := s.btotal + more); ValidFuz(s') && Accounted(s')
  {
  }

  lemma LookKeeps(t: Tables, cs: Charset, s: FuzState, c: byte)
    requires t.Good() && ValidFuz(s) && Accounted(s)
    ensures var s' := Look(t, cs, s, c).0; ValidFuz(s') && Accounted(s')
  {
    hide Accounted, CrefStep, WordByte, FillerByte, TagStep, ValidCref;
    StepKeepsValid(s.cref, c, t.crefs);
    var (cref, i) := CrefStep(s.cref, c, t.crefs);
    match s.st {
      case InWord =>
        WordByteKeeps(t, cs, s, c);
        CrefKeeps(s, cref, 0);
        WordByteKeeps(t, cs, s.(cref := cref), cref.result);
        assert s.(cref := cref) == s.(cref := cref, btotal := s.btotal + 0);
      case StartTag =>
        TagStepKeeps(s, ToLower(c));
      case SkipTag =>
        CrefKeeps(s, s.cref, 1);
        CrefKeeps(s, cref, 1);
        FillerByteKeeps(t, cs, s.(btotal := s.btotal + 1), c);
        FillerByteKeeps(t, cs, s.(btotal := s.btotal + 1, cref := cref), cref.result);
      case SkipComment =>
        FillerByteKeeps(t, cs, s, c);
    }
  }

  lemma {:induction false} ByteKeeps(t: Tables, cs: Charset, s: FuzState, c: byte)
    requires t.Good() && ValidFuz(s) && Accounted(s)
    ensures var s' := FuzByte(t, cs, s, c); ValidFuz(s') && Accounted(s')
    decreases LookRank(s)
  {
    hide Look, ValidFuz, Accounted;
    LookKeeps(t, cs, s, c);
    KeepsRequires(s);
    var (s1, used) := Look(t, cs, s, c);
    if !used {
      ByteKeeps(t, cs, s1, c);
    }
  }

  lemma KeepsRequires(s: FuzState)
    requires ValidFuz(s)
    ensures |s.lang| == LANG_NUM && (s.st.StartTag? ==> s.tagLen <= WORD_LEN)
  {
  }

  /** Byte accounting over any text: through words, tags, comments and character references. */
  lemma {:induction false} RunKeeps(t: Tables, cs: Charset, s: FuzState, bs: seq<byte>)
    requires t.Good() && ValidFuz(s) && Accounted(s)
    ensures var s' := FuzRun(t, cs, s, bs); ValidFuz(s') && Accounted(s')
    decreases |bs|
  {
    hide FuzByte;
    if bs != [] {
      ByteKeeps(t, cs, s, bs[0]);
      RunKeeps(t, cs, FuzByte(t, cs, s, bs[0]), bs[1..]);
    }
  }
}
