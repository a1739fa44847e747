/**
  Whole header fields through the MIME header machine: what a Content-Transfer-Encoding field
  and a multipart Content-Type field leave behind, in any letter case.
  */
module MimeFields {
  import opened Bytes
  import opened Entities
  import opened MimeHeader
  import opened MimeSteps

  // ---- Content-Transfer-Encoding --------------------------------------------------------

  datatype CodingName = CodingName(name: seq<byte>, ce: TransferEncoding)

  predicate IsCoding(c: CodingName) {
    (Spells(c.name, QUOTED_PRINTABLE) && c.ce == QuotedPrintable) || (Spells(c.name, BASE64) && c.ce == Base64)
  }

  lemma FirstLetters()
    ensures RANSFER_ENCODING[0] == 'r' as int && YPE[0] == 'y' as int && MULTIPART[0] == 'm' as int
    ensures BASE64[0] == 'b' as int && QUOTED_PRINTABLE[0] == 'q' as int && BOUNDARY[0] == 'b' as int
    ensures |RANSFER_ENCODING| > 0 && |YPE| > 0 && |MULTIPART| > 0 && |BASE64| > 0 && |QUOTED_PRINTABLE| > 0
    ensures |BOUNDARY| > 0 && |CONTENT_T| > 0
  {
  }

  lemma ContentStep(s: HdrState, ct: seq<byte>, rest: seq<byte>, inHdrs: bool)
    requires Ready(s, inHdrs) && s.st.MhCeCt? && s.pos == 0 && Spells(ct, CONTENT_T) && rest != []
    requires Is(rest[0], 'r') || Is(rest[0], 'y')
    ensures ct + rest != []
    ensures HdrStep(s, ct + rest, inHdrs)
      == Step(s.(st := if Is(rest[0], 'r') then MhCe else MhCt, pos := 0), rest, false, [])
  {
    hide HdrInv, AsciiBytes;
    MatchesWord(s, MhCtWS, MhIdle, CONTENT_T, ct, rest);
  }

  /** A transfer encoding field sets the encoding and nothing else, whatever follows the name. */
  lemma EncodingField(s: HdrState, ct: seq<byte>, te: seq<byte>, ws: seq<byte>, coding: CodingName, rest: seq<byte>, inHdrs: bool)
    requires Ready(s, inHdrs) && s.st.MhCeCt? && s.pos == 0
    requires Spells(ct, CONTENT_T) && Spells(te, RANSFER_ENCODING) && IsCoding(coding)
    requires AllWS(ws)
    ensures HdrRun(s, ct + (te + (ws + (coding.name + rest))), inHdrs)
      == (s.(st := MhIdle, pos := 0), [SetCe(coding.ce)])
  {
    hide *;
    var b3 := coding.name + rest;
    var b2 := ws + b3;
    var b1 := te + b2;
    StartsWithR(te, b2);
    ContentStep(s, ct, b1, inHdrs);
    var s1 := s.(st := MhCe, pos := 0);
    AwayFromSlots(s, inHdrs);
    StepLeads(s, ct + b1, s1, b1, inHdrs);
    CeSteps(s1, te, b2, inHdrs);
    var s2 := s1.(st := MhCeWS);
    CodingStarts(coding, ws, rest);
    StepLeads(s1, b1, s2, b2, inHdrs);
    CodingSteps(s2, ws, coding, rest, inHdrs);
  }

  lemma StartsWithR(te: seq<byte>, rest: seq<byte>)
    requires Spells(te, RANSFER_ENCODING)
    ensures te + rest != [] && Is((te + rest)[0], 'r')
  {
    FirstLetters();
    FirstOf(te, RANSFER_ENCODING, rest);
  }

  lemma CodingStarts(coding: CodingName, ws: seq<byte>, rest: seq<byte>)
    requires IsCoding(coding)
    ensures var bp := coding.name + rest;
      && bp != [] && ws + bp != [] && !IsWS(bp[0])
      && Is(bp[0], if Spells(coding.name, QUOTED_PRINTABLE) then 'q' else 'b')
  {
    FirstLetters();
    FirstOf(coding.name, if Spells(coding.name, QUOTED_PRINTABLE) then QUOTED_PRINTABLE else BASE64, rest);
  }

  lemma CeSteps(s: HdrState, te: seq<byte>, rest: seq<byte>, inHdrs: bool)
    requires Ready(s, inHdrs) && s.st.MhCe? && s.pos == 0 && Spells(te, RANSFER_ENCODING)
    ensures te + rest != []
    ensures HdrStep(s, te + rest, inHdrs) == Step(s.(st := MhCeWS), rest, false, [])
  {
    hide HdrInv, AsciiBytes;
    MatchesWord(s, MhCeWS, MhIdle, RANSFER_ENCODING, te, rest);
  }

  lemma CodingSteps(s: HdrState, ws: seq<byte>, coding: CodingName, rest: seq<byte>, inHdrs: bool)
    requires Ready(s, inHdrs) && s.st.MhCeWS? && s.pos == 0 && IsCoding(coding)
    requires AllWS(ws)
    ensures HdrRun(s, ws + (coding.name + rest), inHdrs) == (s.(st := MhIdle), [SetCe(coding.ce)])
  {
    hide *;
    var bp := coding.name + rest;
    var qp := Spells(coding.name, QUOTED_PRINTABLE);
    CodingStarts(coding, ws, rest);
    SpansWS(ws, bp);
    var s1 := s.(st := if qp then MhQp else MhB64);
    CeWSIs(s, ws + bp, bp, s1, inHdrs);
    AwayFromSlots(s, inHdrs);
    StepLeads(s, ws + bp, s1, bp, inHdrs);
    var s2 := s1.(st := MhIdle);
    NamedIs(s1, coding, rest, inHdrs);
    RunAfter(s1, bp, inHdrs, Step(s2, rest, false, [SetCe(coding.ce)]));
    RunIdle(s2, rest, inHdrs);
    assert [SetCe(coding.ce)] + [] == [SetCe(coding.ce)];
  }

  lemma CeWSIs(s: HdrState, bp: seq<byte>, r: seq<byte>, s1: HdrState, inHdrs: bool)
    requires Ready(s, inHdrs) && s.st.MhCeWS? && bp != [] && SpanWS(bp) == r != []
    requires (Is(r[0], 'b') && s1 == s.(st := MhB64)) || (Is(r[0], 'q') && s1 == s.(st := MhQp))
    ensures HdrStep(s, bp, inHdrs) == Step(s1, r, false, [])
  {
    hide HdrInv, AsciiBytes;
  }

  lemma NamedIs(s: HdrState, coding: CodingName, rest: seq<byte>, inHdrs: bool)
    requires Ready(s, inHdrs) && s.pos == 0 && IsCoding(coding)
    requires if Spells(coding.name, QUOTED_PRINTABLE) then s.st.MhQp? else s.st.MhB64?
    ensures coding.name + rest != []
    ensures HdrStep(s, coding.name + rest, inHdrs) == Step(s.(st := MhIdle), rest, false, [SetCe(coding.ce)])
  {
    hide HdrInv, AsciiBytes;
    FirstLetters();
    if s.st.MhQp? {
      MatchesWord(s, MhIdle, MhIdle, QUOTED_PRINTABLE, coding.name, rest);
    } else {
      MatchesWord(s, MhIdle, MhIdle, BASE64, coding.name, rest);
    }
    if Spells(coding.name, QUOTED_PRINTABLE) {
      assert ToLower(coding.name[0]) == ToLower(QUOTED_PRINTABLE[0]);
    }
  }

  // ---- The boundary value ---------------------------------------------------------------

  /** A value that holds no line end, and white space or semicolons only inside quotes. */
  predicate IsValue(v: seq<byte>, quoted: bool) {
    v == []
    || (v[0] != LF && (quoted || (v[0] != SP && v[0] != TAB && v[0] != SEMI))
        && IsValue(v[1..], if v[0] == DQUOTE then !quoted else quoted))
  }

  /** The value without its quotes and carriage returns. */
  function Unquoted(v: seq<byte>): seq<byte> {
    if v == [] then []
    else (if v[0] == CR || v[0] == DQUOTE then [] else [v[0]]) + Unquoted(v[1..])
  }

  /** Is a quote open behind the value? */
  function EndQuote(v: seq<byte>, quoted: bool): bool {
    if v == [] then quoted else EndQuote(v[1..], if v[0] == DQUOTE then !quoted else quoted)
  }

  /** The bytes that end a value: a line feed, and outside quotes a space, a tab or a semicolon. */
  predicate EndsValue(c: byte, quoted: bool) {
    c == LF || ((c == SP || c == TAB || c == SEMI) && !quoted)
  }

  /** The state when a boundary value has been read and its line ends. */
  ghost predicate TookBoundary(s: HdrState, v: seq<byte>, s': HdrState) {
    && SlotsOk(s) && s.nest < BND_NUM && s.pos <= BND_DIM && SlotsOk(s')
    && s'.nest == s.nest + 1 && s'.st.MhIdle?
    && s'.slots[s.nest].bndLen == s.pos + |Unquoted(v)| <= BND_DIM
    && s'.slots[s.nest].bnd[..s'.slots[s.nest].bndLen] == s.slots[s.nest].bnd[..s.pos] + Unquoted(v)
    && s'.slots[s.nest].cmpLen == 0
    && (forall k :: 0 <= k < BND_NUM && k != s.nest ==> s'.slots[k] == s.slots[k])
  }

  /** What reading a value and the byte behind it comes to. */
  ghost predicate ValueRead(s: HdrState, v: seq<byte>, rest: seq<byte>, r: Step) {
    if s.pos + |Unquoted(v)| < BND_MAX then !r.stop && r.bp == rest && r.effs == [] && TookBoundary(s, v, r.s)
    else r.stop && r.effs == [] && r.s.st.MhIdle? && r.s.nest == s.nest
  }

  /** A boundary is taken exactly when, with its two dashes, it is shorter than BND_MAX, whatever ends it. */
  lemma {:induction false} ReadsValue(s: HdrState, v: seq<byte>, end: byte, rest: seq<byte>)
    requires SlotsOk(s) && s.nest < BND_NUM && s.st.MhBndValue? && s.pos < BND_MAX && IsValue(v, s.quoted)
    requires EndsValue(end, EndQuote(v, s.quoted))
    ensures ValueRead(s, v, rest, BndValueStep(s, v + ([end] + rest)))
    decreases |v|
  {
    if v == [] {
      var all := v + ([end] + rest);
      assert all[0] == end && all[1..] == rest;
      assert s.slots[s.nest].bnd[..s.pos] + [] == s.slots[s.nest].bnd[..s.pos];
    } else if v[0] == CR || v[0] == DQUOTE {
      DropsByte(s, v, end, rest);
    } else {
      StoresByte(s, v, end, rest);
    }
  }

  lemma {:induction false} DropsByte(s: HdrState, v: seq<byte>, end: byte, rest: seq<byte>)
    requires SlotsOk(s) && s.nest < BND_NUM && s.st.MhBndValue? && s.pos < BND_MAX && IsValue(v, s.quoted)
    requires EndsValue(end, EndQuote(v, s.quoted)) && v != [] && (v[0] == CR || v[0] == DQUOTE)
    ensures ValueRead(s, v, rest, BndValueStep(s, v + ([end] + rest)))
    decreases |v|, 0
  {
    hide TookBoundary;
    var all := v + ([end] + rest);
    var s1 := if v[0] == CR then s else s.(quoted := !s.quoted);
    assert all[0] == v[0] && all[1..] == v[1..] + ([end] + rest);
    ReadsValue(s1, v[1..], end, rest);
    assert Unquoted(v) == Unquoted(v[1..]);
    SameBoundary(s, s1, v, BndValueStep(s1, v[1..] + ([end] + rest)).s);
  }

  lemma SameBoundary(s: HdrState, s1: HdrState, v: seq<byte>, s': HdrState)
    requires v != [] && Unquoted(v) == Unquoted(v[1..]) && s1 == s.(quoted := s1.quoted)
    ensures TookBoundary(s1, v[1..], s') ==> TookBoundary(s, v, s')
  {
  }

  lemma {:induction false} StoresByte(s: HdrState, v: seq<byte>, end: byte, rest: seq<byte>)
    requires SlotsOk(s) && s.nest < BND_NUM && s.st.MhBndValue? && s.pos < BND_MAX && IsValue(v, s.quoted)
    requires EndsValue(end, EndQuote(v, s.quoted)) && v != [] && v[0] != CR && v[0] != DQUOTE
    ensures ValueRead(s, v, rest, BndValueStep(s, v + ([end] + rest)))
    decreases |v|, 0
  {
    var all := v + ([end] + rest);
    var s1 := s.(slots := s.slots[s.nest := PutByte(s.slots[s.nest], s.pos, v[0])], pos := s.pos + 1);
    assert all[0] == v[0] && all[1..] == v[1..] + ([end] + rest);
    assert s1.slots[s.nest].bnd[..s.pos + 1] == s.slots[s.nest].bnd[..s.pos] + [v[0]];
    if s1.pos < BND_MAX {
      ReadsValue(s1, v[1..], end, rest);
      var head := s.slots[s.nest].bnd[..s.pos];
      assert head + [v[0]] + Unquoted(v[1..]) == head + ([v[0]] + Unquoted(v[1..]));
    }
  }

  // ---- Content-Type: multipart ----------------------------------------------------------

  /** The slot a boundary goes to: the first one in message headers, else the next free one. */
  function SlotFor(s: HdrState, inHdrs: bool): nat {
    if inHdrs then 0 else s.nest
  }

  /** The state once "boundary=" has been read. */
  ghost predicate Opened(s: HdrState, inHdrs: bool, s': HdrState) {
    && SlotsOk(s') && s'.st.MhBndValue? && s'.pos == 2 && !s'.quoted && s'.nest == SlotFor(s, inHdrs) < BND_NUM
    && s'.slots[s'.nest].bnd[..2] == [DASH, DASH]
    && SlotsOk(s) && (forall k :: 0 <= k < BND_NUM && k != s'.nest ==> s'.slots[k] == s.slots[k])
  }

  lemma OpensSlot(s: HdrState, word: seq<byte>, rest: seq<byte>, inHdrs: bool)
    requires Ready(s, inHdrs) && s.st.MhBnd? && s.pos == 0 && Spells(word, BOUNDARY)
    ensures word + rest != []
    ensures var r := HdrStep(s, word + rest, inHdrs);
      !r.stop && r.bp == rest && r.effs == [] && Opened(s, inHdrs, r.s)
  {
    hide AsciiBytes;
    FirstLetters();
    MatchesWord(s, MhBndValue, MhBndSkipParam, BOUNDARY, word, rest);
  }

  /** From behind the parameter before it: white space, "boundary=", the value and the byte that ends it. */
  lemma BoundaryParam(s: HdrState, ws: seq<byte>, word: seq<byte>, v: seq<byte>, end: byte, rest: seq<byte>, inHdrs: bool)
    requires Ready(s, inHdrs) && s.st.MhBndSpanWS? && s.pos == 0
    requires AllWS(ws) && Spells(word, BOUNDARY)
    requires IsValue(v, false) && EndsValue(end, EndQuote(v, false)) && 2 + |Unquoted(v)| < BND_MAX
    ensures var (s', effs) := HdrRun(s, ws + (word + (v + ([end] + rest))), inHdrs);
      effs == [] && HasLevel(s', SlotFor(s, inHdrs), v)
  {
    hide HdrInv, AsciiBytes, HdrRun, HdrStep;
    var value := v + ([end] + rest);
    var bp := word + value;
    BoundaryStarts(word, ws, value);
    var s1 := s.(st := MhBnd);
    SpanIs(s, ws + bp, bp, inHdrs);
    RunAfter(s, ws + bp, inHdrs, Step(s1, bp, false, []));
    OpensSlot(s1, word, value, inHdrs);
    var r2 := HdrStep(s1, bp, inHdrs);
    RunAfter(s1, bp, inHdrs, r2);
    ReadsValue(r2.s, v, end, rest);
    StepAtBoundary(r2.s, value, inHdrs);
    var r3 := BndValueStep(r2.s, value);
    RunAfter(r2.s, value, inHdrs, r3);
    RunIdle(r3.s, rest, inHdrs);
  }

  /** Level k is the innermost one, and its slot holds two dashes and the value without its quotes. */
  ghost predicate HasLevel(s: HdrState, k: nat, v: seq<byte>) {
    && s.st.MhIdle? && k < BND_NUM && s.nest == k + 1 && SlotsOk(s)
    && s.slots[k].bndLen == 2 + |Unquoted(v)| <= BND_DIM && s.slots[k].cmpLen == 0
    && s.slots[k].bnd[..s.slots[k].bndLen] == [DASH, DASH] + Unquoted(v)
  }

  lemma SpanIs(s: HdrState, bp: seq<byte>, r: seq<byte>, inHdrs: bool)
    requires Ready(s, inHdrs) && s.st.MhBndSpanWS? && bp != [] && SpanWS(bp) == r != []
    ensures HdrStep(s, bp, inHdrs) == Step(s.(st := MhBnd), r, false, [])
  {
    hide HdrInv, AsciiBytes;
  }

  /** A multipart field up to its boundary parameter, any other parameters in front of it included. */
  datatype MultipartWords = MultipartWords(
    ct: seq<byte>, ype: seq<byte>, ws: seq<byte>, multi: seq<byte>, sub: seq<byte>, sep: byte, others: seq<Param>)
  {
    function Field(rest: seq<byte>): seq<byte> {
      ct + (ype + (ws + (multi + (sub + ([sep] + (ParamBytes(others) + rest))))))
    }
  }

  predicate GoodWords(w: MultipartWords) {
    && Spells(w.ct, CONTENT_T) && Spells(w.ype, YPE) && Spells(w.multi, MULTIPART)
    && AllWS(w.ws) && IsParam(w.sub) && EndsParam(w.sep) && AllOther(w.others, BOUNDARY)
  }

  lemma ReachesParam(s: HdrState, w: MultipartWords, rest: seq<byte>, inHdrs: bool)
    requires Ready(s, inHdrs) && s.st.MhCeCt? && s.pos == 0 && (inHdrs || s.nest < BND_NUM)
    requires GoodWords(w)
    ensures Ready(s.(st := MhBndSpanWS), inHdrs)
    ensures HdrRun(s, w.Field(rest), inHdrs) == HdrRun(s.(st := MhBndSpanWS), rest, inHdrs)
  {
    hide HdrInv, AsciiBytes, HdrRun, HdrStep, AllOther, ParamBytes, SpanWS, EqFold;
    ReadySlots(s, inHdrs);
    var b5 := ParamBytes(w.others) + rest;
    var b4 := w.sub + ([w.sep] + b5);
    var b3 := w.multi + b4;
    var b2 := w.ws + b3;
    var b1 := w.ype + b2;
    YpeStarts(w, b2);
    ContentStep(s, w.ct, b1, inHdrs);
    var s1, s2, s3, s4, s5 := s.(st := MhCt), s.(st := MhCtWS), s.(st := MhMultipart), s.(st := MhBndSkipParam), s.(st := MhBndSpanWS);
    StepLeads(s, w.ct + b1, s1, b1, inHdrs);
    YpeIs(s1, w, b2, inHdrs);
    StepLeads(s1, b1, s2, b2, inHdrs);
    MultiStarts(w, b4);
    CtWSIs(s2, b2, b3, inHdrs);
    StepLeads(s2, b2, s3, b3, inHdrs);
    MultiIs(s3, w, b4, inHdrs);
    StepLeads(s3, b3, s4, b4, inHdrs);
    ParamIsSkipped(BoundarySearch(), s4, w.sub, w.sep, b5, inHdrs);
    OthersArePassed(BoundarySearch(), s5, w.others, rest, inHdrs);
  }

  lemma YpeStarts(w: MultipartWords, b2: seq<byte>)
    requires GoodWords(w)
    ensures var b1 := w.ype + b2; b1 != [] && Is(b1[0], 'y') && !Is(b1[0], 'r')
  {
    FirstLetters();
    FirstOf(w.ype, YPE, b2);
  }

  lemma YpeIs(s: HdrState, w: MultipartWords, rest: seq<byte>, inHdrs: bool)
    requires Ready(s, inHdrs) && s.st.MhCt? && s.pos == 0 && GoodWords(w)
    ensures w.ype + rest != []
    ensures HdrStep(s, w.ype + rest, inHdrs) == Step(s.(st := MhCtWS), rest, false, [])
  {
    hide HdrInv, AsciiBytes;
    MatchesWord(s, MhCtWS, MhIdle, YPE, w.ype, rest);
  }

  /** The white space before the type is skipped, and its first letter decides. */
  lemma MultiStarts(w: MultipartWords, b4: seq<byte>)
    requires GoodWords(w)
    ensures var b3 := w.multi + b4;
      && b3 != [] && Is(b3[0], 'm') && w.ws + b3 != [] && SpanWS(w.ws + b3) == b3
  {
    FirstLetters();
    FirstOf(w.multi, MULTIPART, b4);
    SpansWS(w.ws, w.multi + b4);
  }

  lemma CtWSIs(s: HdrState, bp: seq<byte>, r: seq<byte>, inHdrs: bool)
    requires Ready(s, inHdrs) && s.st.MhCtWS? && (inHdrs || s.nest < BND_NUM)
    requires bp != [] && SpanWS(bp) == r != [] && Is(r[0], 'm')
    ensures HdrStep(s, bp, inHdrs) == Step(s.(st := MhMultipart), r, false, [])
  {
    hide HdrInv, AsciiBytes;
  }

  lemma MultiIs(s: HdrState, w: MultipartWords, rest: seq<byte>, inHdrs: bool)
    requires Ready(s, inHdrs) && s.st.MhMultipart? && s.pos == 0 && GoodWords(w)
    ensures w.multi + rest != []
    ensures HdrStep(s, w.multi + rest, inHdrs) == Step(s.(st := MhBndSkipParam), rest, false, [])
  {
    hide HdrInv, AsciiBytes;
    MatchesWord(s.(st := MhText), MhBndSkipParam, MhIdle, MULTIPART, w.multi, rest);
  }

  /**
    A multipart field with a boundary parameter opens one more level, wherever the parameter
    stands and whatever comes behind it: the slot holds two dashes and the value without its quotes.
    */
  lemma MultipartField(s: HdrState, w: MultipartWords, ws: seq<byte>, word: seq<byte>, v: seq<byte>, end: byte,
      rest: seq<byte>, inHdrs: bool)
    requires Ready(s, inHdrs) && s.st.MhCeCt? && s.pos == 0 && (inHdrs || s.nest < BND_NUM)
    requires GoodWords(w) && AllWS(ws) && Spells(word, BOUNDARY)
    requires IsValue(v, false) && EndsValue(end, EndQuote(v, false)) && 2 + |Unquoted(v)| < BND_MAX
    ensures var (s', effs) := HdrRun(s, w.Field(ws + (word + (v + ([end] + rest)))), inHdrs);
      effs == [] && HasLevel(s', SlotFor(s, inHdrs), v)
  {
    hide HdrInv, AsciiBytes, HdrRun, GoodWords, HasLevel, MultipartWords.Field;
    ReachesParam(s, w, ws + (word + (v + ([end] + rest))), inHdrs);
    BoundaryParam(s.(st := MhBndSpanWS), ws, word, v, end, rest, inHdrs);
  }

  // ---- The same in the header of the message --------------------------------------------

  /** A boundary value may come in two pieces. */
  lemma {:induction false} ValueSplits(s: HdrState, v: seq<byte>, rest: seq<byte>)
    requires SlotsOk(s) && s.nest < BND_NUM && s.st.MhBndValue? && s.pos < BND_MAX && IsValue(v, s.quoted)
    requires s.pos + |Unquoted(v)| < BND_MAX
    ensures var r := BndValueStep(s, v);
      && r == Step(r.s, [], true, []) && SlotsOk(r.s) && r.s.nest == s.nest && r.s.st.MhBndValue? && r.s.pos < BND_MAX
      && BndValueStep(r.s, rest) == BndValueStep(s, v + rest)
    decreases |v|
  {
    if v == [] {
      assert v + rest == rest;
    } else {
      assert (v + rest)[0] == v[0] && (v + rest)[1..] == v[1..] + rest;
      if v[0] == CR {
        ValueSplits(s, v[1..], rest);
      } else if v[0] == DQUOTE {
        ValueSplits(s.(quoted := !s.quoted), v[1..], rest);
      } else {
        ValueSplits(s.(slots := s.slots[s.nest := PutByte(s.slots[s.nest], s.pos, v[0])], pos := s.pos + 1), v[1..], rest);
      }
    }
  }

  /** The value, and then the line end that the parser is given when it still waits. */
  lemma ValueThenEnd(s: HdrState, v: seq<byte>)
    requires Ready(s, true) && HeaderSlot(s, true) && s.st.MhBndValue? && s.pos == 2 && !s.quoted
    requires IsValue(v, false) && 2 + |Unquoted(v)| < BND_MAX
    ensures var (s1, e1) := HdrRun(s, v, true);
      var (s2, e2) := HdrRun(s1, [LF], true);
      !s1.st.MhIdle? && e1 == [] && e2 == [] && SlotsOk(s) && s.nest < BND_NUM && TookBoundary(s, v, s2)
  {
    hide HdrInv, HdrStep, TookBoundary;
    ReadySlots(s, true);
    SlotOpen(s, true);
    ValueSplits(s, v, [LF]);
    ReadsValue(s, v, LF, []);
    assert [LF] + [] == [LF];
    var s1 := BndValueStep(s, v).s;
    if v == [] {
      RunNothing(s, true);
    } else {
      StepAtBoundary(s, v, true);
      RunStops(s, v, true);
    }
    assert HdrRun(s, v, true) == (s1, []);
    StepAtBoundary(s1, [LF], true);
    var r := BndValueStep(s1, [LF]);
    EndOfValue(s, v, r.s);
    RunAfter(s1, [LF], true, r);
    RunNothing(r.s, true);
  }

  lemma SlotOpen(s: HdrState, inHdrs: bool)
    requires Ready(s, inHdrs) && s.st.MhBndValue?
    ensures s.nest < BND_NUM
  {
  }

  lemma EndOfValue(s: HdrState, v: seq<byte>, s': HdrState)
    requires TookBoundary(s, v, s')
    ensures SlotsOk(s) && s.nest < BND_NUM && s'.st.MhIdle?
  {
  }

  /** What may stand behind the value in the header of a message: nothing, or a byte that ends it and anything. */
  predicate EndsField(v: seq<byte>, tail: seq<byte>) {
    tail == [] || EndsValue(tail[0], EndQuote(v, false))
  }

  /**
    A multipart field in the header of the message: one level is open, whatever was open before,
    and its slot holds two dashes and the value, wherever among the parameters it stands.
    */
  lemma MessageField(s: HdrState, w: MultipartWords, ws: seq<byte>, word: seq<byte>, v: seq<byte>, tail: seq<byte>)
    requires Ready(s, true) && GoodWords(w) && AllWS(ws) && Spells(word, BOUNDARY)
    requires IsValue(v, false) && EndsField(v, tail) && 2 + |Unquoted(v)| < BND_MAX
    ensures var (s', effs) := FieldRun(s, w.Field(ws + (word + (v + tail))));
      effs == [] && s'.bol && HasLevel(s', 0, v)
  {
    hide HdrInv, AsciiBytes, HdrRun, HdrStep, EqFold, Unquoted, SpanWS, MultipartWords.Field, GoodWords;
    FieldStarts(s);
    var s0 := s.(st := MhCeCt, pos := 0);
    if tail != [] {
      assert tail == [tail[0]] + tail[1..];
      MultipartField(s0, w, ws, word, v, tail[0], tail[1..], true);
    } else {
      assert v + tail == v;
      LastParam(s0, w, ws, word, v);
    }
  }

  /** The boundary is the last of the field. */
  lemma LastParam(s0: HdrState, w: MultipartWords, ws: seq<byte>, word: seq<byte>, v: seq<byte>)
    requires Ready(s0, true) && s0.st.MhCeCt? && s0.pos == 0 && GoodWords(w) && AllWS(ws) && Spells(word, BOUNDARY)
    requires IsValue(v, false) && 2 + |Unquoted(v)| < BND_MAX
    ensures var (s1, e1) := HdrRun(s0, w.Field(ws + (word + v)), true);
      var (s2, e2) := HdrRun(s1, [LF], true);
      !s1.st.MhIdle? && e1 == [] && e2 == [] && HasLevel(s2, 0, v)
  {
    hide HdrInv, AsciiBytes, HdrRun, HdrStep, EqFold, Unquoted, SpanWS, MultipartWords.Field, GoodWords;
    ReachesParam(s0, w, ws + (word + v), true);
    var s1, s2 := s0.(st := MhBndSpanWS), s0.(st := MhBnd);
    var bp := word + v;
    BoundaryStarts(word, ws, v);
    SpanIs(s1, ws + bp, bp, true);
    StepLeads(s1, ws + bp, s2, bp, true);
    OpensSlot(s2, word, v, true);
    var r := HdrStep(s2, bp, true);
    RunAfter(s2, bp, true, r);
    ValueThenEnd(r.s, v);
  }

  lemma BoundaryStarts(word: seq<byte>, ws: seq<byte>, v: seq<byte>)
    requires Spells(word, BOUNDARY) && AllWS(ws)
    ensures var bp := word + v; bp != [] && ws + bp != [] && SpanWS(ws + bp) == bp
  {
    FirstLetters();
    FirstOf(word, BOUNDARY, v);
    SpansWS(ws, word + v);
  }

  // ---- Other fields of the message ------------------------------------------------------

  /** A field that is no Content-Type: it does not begin with "Content-Ty" in any case. */
  predicate NoContentType(field: seq<byte>) {
    !(|field| > |CONTENT_T| && EqFold(field[..|CONTENT_T|], CONTENT_T) && Is(field[|CONTENT_T|], 'y'))
  }

  /** Only the state, the position and the mark of a line start may differ. */
  ghost predicate OnlyMoved(s: HdrState, s': HdrState) {
    s' == s.(st := s'.st, pos := s'.pos, bol := s'.bol)
  }

  /** The states behind "Content-Tr". */
  predicate InEncoding(st: MhdrSt) {
    st.MhCe? || st.MhCeWS? || st.MhQp? || st.MhB64? || st.MhIdle?
  }

  /** The states of a text field. */
  predicate InTextType(st: MhdrSt) {
    || st.MhText? || st.MhHtml? || st.MhIdle?
    || st.MhCsetSkipParam? || st.MhCsetSpanWS? || st.MhCset? || st.MhCsetIso8859? || st.MhCsetIsoX?
  }

  /** No boundary is reached from either. */
  predicate OpensNothing(st: MhdrSt) {
    InEncoding(st) || InTextType(st)
  }

  lemma EncodingStep(s: HdrState, bp: seq<byte>)
    requires Ready(s, true) && InEncoding(s.st) && !s.st.MhIdle? && bp != []
    ensures InEncoding(HdrStep(s, bp, true).s.st)
  {
    hide HdrInv, Match, AsciiBytes, SpanWS;
  }

  lemma TextTypeStep(s: HdrState, bp: seq<byte>)
    requires Ready(s, true) && InTextType(s.st) && !s.st.MhIdle? && bp != []
    ensures InTextType(HdrStep(s, bp, true).s.st)
  {
    hide HdrStep, Ready;
    if s.st.MhText? || s.st.MhHtml? || s.st.MhCset? || s.st.MhCsetIso8859? {
      TextMatchStep(s, bp);
    } else {
      TextScanStep(s, bp);
    }
  }

  lemma TextMatchStep(s: HdrState, bp: seq<byte>)
    requires Ready(s, true) && bp != [] && (s.st.MhText? || s.st.MhHtml? || s.st.MhCset? || s.st.MhCsetIso8859?)
    ensures InTextType(HdrStep(s, bp, true).s.st)
  {
    hide HdrInv, Match, MatchStep, CompareLen, AsciiBytes, EqFold, BndStep, BndValueStep, IsoXStep;
  }

  lemma TextScanStep(s: HdrState, bp: seq<byte>)
    requires Ready(s, true) && bp != [] && (s.st.MhCsetSkipParam? || s.st.MhCsetSpanWS? || s.st.MhCsetIsoX?)
    ensures InTextType(HdrStep(s, bp, true).s.st)
  {
    hide HdrInv, Match, MatchStep, CompareLen, AsciiBytes, EqFold, BndStep, BndValueStep, IsoXStep, SpanWS, SkipParam;
  }

  lemma NothingOpenedStep(s: HdrState, bp: seq<byte>)
    requires Ready(s, true) && OpensNothing(s.st) && !s.st.MhIdle? && bp != []
    ensures OpensNothing(HdrStep(s, bp, true).s.st) && OnlyMoved(s, HdrStep(s, bp, true).s)
  {
    hide HdrInv, HdrStep, Progresses;
    PlainStepMoves(s, bp, true);
    if InEncoding(s.st) {
      EncodingStep(s, bp);
    } else {
      TextTypeStep(s, bp);
    }
  }

  lemma {:induction false} NothingOpened(s: HdrState, bp: seq<byte>)
    requires Ready(s, true) && OpensNothing(s.st)
    ensures HeaderSlot(s, true)
    ensures OpensNothing(HdrRun(s, bp, true).0.st) && OnlyMoved(s, HdrRun(s, bp, true).0)
    decreases |bp|, Rank(s.st, bp)
  {
    hide HdrInv, HdrStep, Rank;
    if bp != [] && !s.st.MhIdle? {
      NothingOpenedStep(s, bp);
      StepKeeps(s, bp, true);
      var r := HdrStep(s, bp, true);
      if !r.stop {
        NothingOpened(r.s, r.bp);
      }
    }
  }

  /** Where the first step of a field leads, when it is no Content-Type. */
  lemma ContentStepLeads(s: HdrState, field: seq<byte>)
    requires Ready(s, true) && s.st.MhCeCt? && s.pos == 0 && field != [] && NoContentType(field)
    ensures var r := HdrStep(s, field, true);
      && OnlyMoved(s, r.s)
      && (OpensNothing(r.s.st) || (r.s.st.MhCtWS? && r.stop) || (r.s.st.MhCeCt? && r.bp == [] && r.s.pos < |CONTENT_T|))
  {
    hide HdrInv, AsciiBytes;
    var n := CompareLen(CONTENT_T, 0, field);
    if n == |CONTENT_T| {
      assert CONTENT_T[0..0 + n] == CONTENT_T;
      if EqFold(CONTENT_T, field[..n]) {
        EqFoldFlips(CONTENT_T, field[..n]);
      }
    }
  }

  /** The line end, when the machine still waits. */
  lemma EndLeads(s: HdrState)
    requires Ready(s, true) && (s.st.MhCtWS? || (s.st.MhCeCt? && s.pos < |CONTENT_T|))
    ensures HeaderSlot(s, true)
    ensures OnlyMoved(s, HdrRun(s, [LF], true).0)
  {
    hide HdrInv, AsciiBytes;
    if s.st.MhCtWS? {
      assert SpanWS([LF]) == [];
      RunStops(s, [LF], true);
    } else {
      var n := CompareLen(CONTENT_T, s.pos, [LF]);
      assert n == 1 && [LF][..1] == [LF];
      NoLineEndInName();
      assert CONTENT_T[s.pos..s.pos + 1][0] == CONTENT_T[s.pos];
      StepLeads(s, [LF], s.(st := MhIdle), [LF], true);
      RunIdle(s.(st := MhIdle), [LF], true);
    }
  }

  lemma NoLineEndInName()
    ensures |CONTENT_T| == 9 && forall k :: 0 <= k < |CONTENT_T| ==> ToLower(CONTENT_T[k]) != ToLower(LF)
  {
  }

  /** A field that is no Content-Type leaves every boundary as it is. */
  lemma OtherFieldOpensNone(s: HdrState, field: seq<byte>)
    requires Ready(s, true) && NoContentType(field)
    ensures OnlyMoved(s, FieldRun(s, field).0)
  {
    hide HdrInv, AsciiBytes, HdrRun, HdrStep, NoContentType;
    FieldStarts(s);
    var s0 := s.(st := MhCeCt, pos := 0);
    var s1 := HdrRun(s0, field, true).0;
    if field == [] {
      RunNothing(s0, true);
      NoLineEndInName();
      EndLeads(s0);
    } else {
      ContentStepLeads(s0, field);
      StepKeeps(s0, field, true);
      var r := HdrStep(s0, field, true);
      if r.stop {
        RunStops(s0, field, true);
      } else {
        RunAfter(s0, field, true, r);
        if OpensNothing(r.s.st) {
          NothingOpened(r.s, r.bp);
        } else {
          RunNothing(r.s, true);
        }
      }
      if OpensNothing(s1.st) {
        NothingOpened(s1, [LF]);
      } else {
        EndLeads(s1);
      }
    }
  }
}
