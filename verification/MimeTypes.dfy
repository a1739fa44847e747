/**
  Text Content-Type fields through the MIME header machine: plain or HTML, with a character set,
  in any letter case; and the types that are taken for binary.
  */
module MimeTypes {
  import opened Bytes
  import opened Entities
  import opened MimeHeader
  import opened MimeSteps
  import opened MimeFields

  predicate AllDigits(ds: seq<byte>) {
    forall k :: 0 <= k < |ds| ==> IsDigit(ds[k])
  }

  /** The number that digits make behind the value so far. */
  function Number(value: nat, ds: seq<byte>): nat
    requires AllDigits(ds)
    decreases |ds|
  {
    if ds == [] then value else assert IsDigit(ds[0]); Number(value * 10 + (ds[0] as int - 0x30), ds[1..])
  }

  lemma {:induction false} NumberGrows(value: nat, ds: seq<byte>)
    requires AllDigits(ds)
    ensures value <= Number(value, ds)
    decreases |ds|
  {
    if ds != [] {
      assert IsDigit(ds[0]);
      NumberGrows(value * 10 + (ds[0] as int - 0x30), ds[1..]);
    }
  }

  /** The bytes that end a character set's number properly. */
  predicate EndsNumber(c: byte) { c == DQUOTE || IsWS(c) || c == SEMI }

  /** A number of at most 99 picks the set: 8859-2 when it is 2 and properly ended, else 8859-1. */
  lemma {:induction false} ReadsNumber(s: HdrState, ds: seq<byte>, stop: byte, rest: seq<byte>)
    requires AllDigits(ds) && Number(s.pos, ds) <= 99 && !IsDigit(stop)
    ensures IsoXStep(s, ds + ([stop] + rest))
      == Step(s.(st := MhIdle, pos := Number(s.pos, ds)), rest, true,
              [SetCset(if EndsNumber(stop) && Number(s.pos, ds) == 2 then Latin2 else Latin1)])
    decreases |ds|
  {
    var bp := ds + ([stop] + rest);
    if ds == [] {
      assert bp[0] == stop && bp[1..] == rest;
    } else {
      assert bp[0] == ds[0] && bp[1..] == ds[1..] + ([stop] + rest) && IsDigit(ds[0]);
      var pos := s.pos * 10 + (ds[0] as int - 0x30);
      NumberGrows(pos, ds[1..]);
      ReadsNumber(s.(pos := pos), ds[1..], stop, rest);
    }
  }

  /** A larger number changes no character set. */
  lemma {:induction false} NumberTooLarge(s: HdrState, ds: seq<byte>, rest: seq<byte>)
    requires AllDigits(ds) && Number(s.pos, ds) > 99 >= s.pos
    ensures var r := IsoXStep(s, ds + rest);
      r.stop && r.effs == [] && r.s == s.(st := MhIdle, pos := r.s.pos)
    decreases |ds|
  {
    var bp := ds + rest;
    assert bp[0] == ds[0] && bp[1..] == ds[1..] + rest && IsDigit(ds[0]);
    var pos := s.pos * 10 + (ds[0] as int - 0x30);
    if pos <= 99 {
      NumberTooLarge(s.(pos := pos), ds[1..], rest);
    }
  }

  /**
    The words of a text field in front of its character set. Behind "text" comes "/html", or
    something that does not start like it; any parameters may stand there.
    */
  datatype TextWords = TextWords(
    ct: seq<byte>, ype: seq<byte>, ws: seq<byte>, text: seq<byte>, html: seq<byte>, param: seq<byte>, sep: byte,
    others: seq<Param>)
  {
    function Params(rest: seq<byte>): seq<byte> { param + ([sep] + (ParamBytes(others) + rest)) }

    function Field(rest: seq<byte>): seq<byte> { ct + (ype + (ws + (text + (html + Params(rest))))) }

    predicate Good() {
      && Spells(ct, CONTENT_T) && Spells(ype, YPE) && Spells(text, TEXT)
      && (html == [] || Spells(html, SLASH_HTML))
      && AllWS(ws) && IsParam(param) && EndsParam(sep) && AllOther(others, CHARSET)
    }

    /** The parameter text is not another "/html". */
    predicate NotHtml(rest: seq<byte>) {
      Match(SLASH_HTML, 0, Params(rest)) == Failed
    }

    function Effs(): seq<Effect> { [SetCt(Text)] + if html == [] then [] else [SetCt(Html)] }
  }

  /** What a field says of its character set: nothing, the name of a foreign one, or the number of an 8859 one. */
  datatype CharsetWords =
    | Unnamed
    | Foreign(ws: seq<byte>, charset: seq<byte>, quote: bool, name: seq<byte>)
    | Numbered(ws: seq<byte>, charset: seq<byte>, quote: bool, iso: seq<byte>, ds: seq<byte>, stop: byte, more: seq<byte>)
  {
    function Last(): seq<byte>
      requires Numbered?
    {
      ds + ([stop] + more)
    }

    /** What stands behind "charset=". */
    function Name(): seq<byte>
      requires !Unnamed?
    {
      (if quote then [DQUOTE] else []) + if Foreign? then name else iso + Last()
    }

    function Bytes(): seq<byte> { if Unnamed? then [] else ws + (charset + Name()) }

    predicate Good() {
      match this
      case Unnamed => true
      case Foreign(ws, charset, quote, name) =>
        AllWS(ws) && Spells(charset, CHARSET) && name != [] && (quote || name[0] != DQUOTE) && Match(ISO_8859, 0, name) == Failed
      case Numbered(ws, charset, quote, iso, ds, stop, more) =>
        AllWS(ws) && Spells(charset, CHARSET) && Spells(iso, ISO_8859) && AllDigits(ds) && !IsDigit(stop)
    }

    /** Only the number of an 8859 set picks one, when it is 99 at most. */
    function Effs(): seq<Effect>
      requires Good()
    {
      if !Numbered? || Number(0, ds) > 99 then []
      else [SetCset(if EndsNumber(stop) && Number(0, ds) == 2 then Latin2 else Latin1)]
    }
  }

  lemma LettersOfText()
    ensures TEXT[0] == 't' as int && CHARSET[0] == 'c' as int && ISO_8859[0] == 'i' as int
    ensures |TEXT| > 0 && |CHARSET| > 0 && |ISO_8859| > 0 && |SLASH_HTML| > 0
  {
  }

  lemma TextStarts(w: TextWords, tail: seq<byte>)
    requires w.Good()
    ensures var bp := w.text + tail;
      && bp != [] && Is(bp[0], 't') && w.ws + bp != [] && SpanWS(w.ws + bp) == bp
  {
    LettersOfText();
    FirstOf(w.text, TEXT, tail);
    SpansWS(w.ws, w.text + tail);
  }

  lemma YpeStep(s: HdrState, ype: seq<byte>, tail: seq<byte>, inHdrs: bool)
    requires Ready(s, inHdrs) && s.st.MhCt? && s.pos == 0 && Spells(ype, YPE)
    ensures ype + tail != [] && Is((ype + tail)[0], 'y')
    ensures HdrStep(s, ype + tail, inHdrs) == Step(s.(st := MhCtWS), tail, false, [])
  {
    hide HdrInv, AsciiBytes;
    FirstLetters();
    FirstOf(ype, YPE, tail);
    MatchesWord(s, MhCtWS, MhIdle, YPE, ype, tail);
  }

  lemma TextWSStep(s: HdrState, bp: seq<byte>, r: seq<byte>, inHdrs: bool)
    requires Ready(s, inHdrs) && s.st.MhCtWS? && bp != [] && SpanWS(bp) == r != []
    ensures Is(r[0], 't') ==> HdrStep(s, bp, inHdrs) == Step(s.(st := MhText), r, false, [])
    ensures !Is(r[0], 't') && !Is(r[0], 'm') ==>
      HdrStep(s, bp, inHdrs) == Step(s.(st := MhIdle), r, true, [SetCt(Binary)])
  {
    hide HdrInv, AsciiBytes;
  }

  lemma TextStep(s: HdrState, w: TextWords, tail: seq<byte>, inHdrs: bool)
    requires Ready(s, inHdrs) && s.st.MhText? && s.pos == 0 && w.Good()
    ensures w.text + tail != []
    ensures HdrStep(s, w.text + tail, inHdrs) == Step(s.(st := MhHtml), tail, false, [SetCt(Text)])
  {
    hide HdrInv, AsciiBytes;
    FirstOf(w.text, TEXT, tail);
    MatchesWord(s, MhHtml, MhIdle, TEXT, w.text, tail);
  }

  lemma HtmlStep(s: HdrState, w: TextWords, tail: seq<byte>, inHdrs: bool)
    requires Ready(s, inHdrs) && s.st.MhHtml? && s.pos == 0 && w.Good() && tail != []
    requires w.html == [] ==> Match(SLASH_HTML, 0, tail) == Failed
    ensures w.html + tail != []
    ensures HdrStep(s, w.html + tail, inHdrs)
      == Step(s.(st := MhCsetSkipParam), tail, false, if w.html == [] then [] else [SetCt(Html)])
  {
    hide HdrInv, AsciiBytes;
    if w.html == [] {
      assert w.html + tail == tail;
    } else {
      MatchesWord(s, MhCsetSkipParam, MhCsetSkipParam, SLASH_HTML, w.html, tail);
    }
  }

  lemma SkipRuns(s: HdrState, w: TextWords, tail: seq<byte>, inHdrs: bool)
    requires Ready(s, inHdrs) && s.st.MhCsetSkipParam? && s.pos == 0 && w.Good()
    ensures Ready(s.(st := MhCsetSpanWS), inHdrs) && HeaderSlot(s, inHdrs)
    ensures HdrRun(s, w.param + ([w.sep] + (ParamBytes(w.others) + tail)), inHdrs)
      == HdrRun(s.(st := MhCsetSpanWS), tail, inHdrs)
  {
    hide HdrInv, AsciiBytes, HdrRun, HdrStep, EqFold, AllOther;
    ParamIsSkipped(CharsetSearch(), s, w.param, w.sep, ParamBytes(w.others) + tail, inHdrs);
    OthersArePassed(CharsetSearch(), s.(st := MhCsetSpanWS), w.others, tail, inHdrs);
  }

  lemma SpanStep(s: HdrState, c: CharsetWords, inHdrs: bool)
    requires Ready(s, inHdrs) && s.st.MhCsetSpanWS? && c.Good() && !c.Unnamed?
    ensures var bp := c.charset + c.Name();
      bp != [] && c.Bytes() != [] && HdrStep(s, c.Bytes(), inHdrs) == Step(s.(st := MhCset), bp, false, [])
  {
    hide HdrInv, AsciiBytes;
    LettersOfText();
    FirstOf(c.charset, CHARSET, c.Name());
    SpansWS(c.ws, c.charset + c.Name());
  }

  lemma CharsetStep(s: HdrState, charset: seq<byte>, tail: seq<byte>, inHdrs: bool)
    requires Ready(s, inHdrs) && s.st.MhCset? && s.pos == 0 && Spells(charset, CHARSET)
    ensures charset + tail != []
    ensures HdrStep(s, charset + tail, inHdrs) == Step(s.(st := MhCsetIso8859), tail, false, [])
  {
    hide HdrInv, AsciiBytes;
    FirstOf(charset, CHARSET, tail);
    MatchesWord(s, MhCsetIso8859, MhCsetSkipParam, CHARSET, charset, tail);
  }

  /** Behind "charset=" an opening quote is dropped. */
  lemma QuoteStep(s: HdrState, quote: bool, word: seq<byte>, inHdrs: bool)
    requires Ready(s, inHdrs) && s.st.MhCsetIso8859? && s.pos == 0 && word != [] && (quote || word[0] != DQUOTE)
    ensures var bp := (if quote then [DQUOTE] else []) + word;
      bp != [] && HdrStep(s, bp, inHdrs) == MatchStep(s, MhCsetIsoX, MhIdle, ISO_8859, word)
  {
    hide HdrInv, AsciiBytes, Match, MatchStep;
    var bp := (if quote then [DQUOTE] else []) + word;
    if quote {
      assert bp[0] == DQUOTE && bp[1..] == word;
    } else {
      assert bp == word;
    }
  }

  /** Then comes a set of the 8859 family, or none of them. */
  lemma IsoStep(s: HdrState, c: CharsetWords, inHdrs: bool)
    requires Ready(s, inHdrs) && s.st.MhCsetIso8859? && s.pos == 0 && c.Good() && !c.Unnamed?
    ensures c.Name() != []
    ensures c.Numbered? ==> HdrStep(s, c.Name(), inHdrs) == Step(s.(st := MhCsetIsoX), c.Last(), false, [])
    ensures c.Foreign? ==> HdrStep(s, c.Name(), inHdrs) == Step(s.(st := MhIdle), c.name, false, [])
  {
    hide HdrInv, AsciiBytes, Match, EqFold, HdrStep;
    if c.Numbered? {
      LettersOfText();
      FirstOf(c.iso, ISO_8859, c.Last());
      MatchesWord(s, MhCsetIsoX, MhIdle, ISO_8859, c.iso, c.Last());
      QuoteStep(s, c.quote, c.iso + c.Last(), inHdrs);
    } else {
      QuoteStep(s, c.quote, c.name, inHdrs);
    }
  }

  /** The number as a whole. */
  lemma NumberIs(s: HdrState, c: CharsetWords)
    requires s.pos == 0 && c.Good() && c.Numbered?
    ensures var r := IsoXStep(s, c.Last());
      c.Last() != [] && r.stop && r.effs == c.Effs() && r.s == s.(st := MhIdle, pos := r.s.pos)
  {
    hide AsciiBytes, EqFold, IsoXStep;
    if Number(0, c.ds) > 99 {
      NumberTooLarge(s, c.ds, [c.stop] + c.more);
    } else {
      ReadsNumber(s, c.ds, c.stop, c.more);
    }
  }

  lemma NumberStep(s: HdrState, c: CharsetWords, inHdrs: bool) returns (s': HdrState)
    requires Ready(s, inHdrs) && s.st.MhCsetIsoX? && s.pos == 0 && c.Good() && c.Numbered?
    ensures s' == s.(st := MhIdle, pos := s'.pos) && HdrRun(s, c.Last(), inHdrs) == (s', c.Effs())
  {
    hide HdrInv, AsciiBytes, EqFold, IsoXStep, CharsetWords.Good, CharsetWords.Effs, HdrRun;
    AwayFromSlots(s, inHdrs);
    NumberIs(s, c);
    s' := IsoXStep(s, c.Last()).s;
    RunStops(s, c.Last(), inHdrs);
  }

  /** From behind the other parameters on. */
  lemma CharsetRuns(s: HdrState, c: CharsetWords, inHdrs: bool) returns (s': HdrState)
    requires Ready(s, inHdrs) && s.st.MhCsetSpanWS? && s.pos == 0 && c.Good()
    ensures s' == s.(st := s'.st, pos := s'.pos) && HdrRun(s, c.Bytes(), inHdrs) == (s', c.Effs())
  {
    hide HdrInv, AsciiBytes, HdrRun, HdrStep, EqFold, Match;
    AwayFromSlots(s, inHdrs);
    if c.Unnamed? {
      RunNothing(s, inHdrs);
      s' := s;
    } else {
      var s1, s2 := s.(st := MhCset), s.(st := MhCsetIso8859);
      SpanStep(s, c, inHdrs);
      StepLeads(s, c.Bytes(), s1, c.charset + c.Name(), inHdrs);
      CharsetStep(s1, c.charset, c.Name(), inHdrs);
      StepLeads(s1, c.charset + c.Name(), s2, c.Name(), inHdrs);
      IsoStep(s2, c, inHdrs);
      if c.Foreign? {
        s' := s.(st := MhIdle);
        StepLeads(s2, c.Name(), s', c.name, inHdrs);
        RunIdle(s', c.name, inHdrs);
      } else {
        StepLeads(s2, c.Name(), s.(st := MhCsetIsoX), c.Last(), inHdrs);
        s' := NumberStep(s.(st := MhCsetIsoX), c, inHdrs);
      }
    }
  }

  lemma FieldUnfolds(w: TextWords, rest: seq<byte>)
    ensures w.Params(rest) == w.param + ([w.sep] + (ParamBytes(w.others) + rest)) && w.Params(rest) != []
    ensures w.Field(rest) == w.ct + (w.ype + (w.ws + (w.text + (w.html + w.Params(rest)))))
  {
  }

  /**
    A text field sets the type, HTML when it says so, and the character set whose number it gives,
    wherever among its parameters; it opens no boundary.
    */
  lemma TextField(s: HdrState, w: TextWords, c: CharsetWords, inHdrs: bool) returns (s': HdrState)
    requires Ready(s, inHdrs) && s.st.MhCeCt? && s.pos == 0 && w.Good() && c.Good()
    requires w.html == [] ==> w.NotHtml(c.Bytes())
    ensures s' == s.(st := s'.st, pos := s'.pos)
    ensures HdrRun(s, w.Field(c.Bytes()), inHdrs) == (s', w.Effs() + c.Effs())
  {
    hide *;
    var rest := c.Bytes();
    FieldUnfolds(w, rest);
    var b5 := w.Params(rest);
    var b4 := w.html + b5;
    var b3 := w.text + b4;
    var b2 := w.ws + b3;
    var b1 := w.ype + b2;
    AwayFromSlots(s, inHdrs);
    var s1, s2, s3, s4, s5 := s.(st := MhCt, pos := 0), s.(st := MhCtWS), s.(st := MhText), s.(st := MhHtml),
        s.(st := MhCsetSkipParam);
    SpellsCt(w);
    TypeIsNext(s, inHdrs);
    YpeStep(s1, w.ype, b2, inHdrs);
    NotBoth(b1[0]);
    ContentStep(s, w.ct, b1, inHdrs);
    StepLeads(s, w.ct + b1, s1, b1, inHdrs);
    StepLeads(s1, b1, s2, b2, inHdrs);
    TextStarts(w, b4);
    TextWSStep(s2, b2, b3, inHdrs);
    StepLeads(s2, b2, s3, b3, inHdrs);
    TextStep(s3, w, b4, inHdrs);
    RunAfter(s3, b3, inHdrs, Step(s4, b4, false, [SetCt(Text)]));
    NotHtmlFails(w, rest);
    HtmlStep(s4, w, b5, inHdrs);
    var html := if w.html == [] then [] else [SetCt(Html)];
    RunAfter(s4, b4, inHdrs, Step(s5, b5, false, html));
    SkipRuns(s5, w, rest, inHdrs);
    s' := CharsetRuns(s.(st := MhCsetSpanWS), c, inHdrs);
    EffsOf(w);
    assert [SetCt(Text)] + (html + c.Effs()) == [SetCt(Text)] + html + c.Effs();
  }

  lemma EffsOf(w: TextWords)
    ensures w.Effs() == [SetCt(Text)] + if w.html == [] then [] else [SetCt(Html)]
  {
  }

  lemma TypeIsNext(s: HdrState, inHdrs: bool)
    requires Ready(s, inHdrs)
    ensures Ready(s.(st := MhCt, pos := 0), inHdrs)
  {
  }

  lemma SpellsCt(w: TextWords)
    requires w.Good()
    ensures Spells(w.ct, CONTENT_T) && Spells(w.ype, YPE)
  {
  }

  lemma NotBoth(c: byte)
    ensures !(Is(c, 'r') && Is(c, 'y'))
  {
  }

  lemma NotHtmlFails(w: TextWords, rest: seq<byte>)
    ensures w.NotHtml(rest) <==> Match(SLASH_HTML, 0, w.Params(rest)) == Failed
  {
  }

  /** Any type but text and multipart is binary. */
  lemma OtherField(s: HdrState, ct: seq<byte>, ype: seq<byte>, ws: seq<byte>, name: seq<byte>, inHdrs: bool)
    requires Ready(s, inHdrs) && s.st.MhCeCt? && s.pos == 0
    requires Spells(ct, CONTENT_T) && Spells(ype, YPE) && AllWS(ws)
    requires name != [] && !IsWS(name[0]) && !Is(name[0], 't') && !Is(name[0], 'm')
    ensures HdrRun(s, ct + (ype + (ws + name)), inHdrs) == (s.(st := MhIdle), [SetCt(Binary)])
  {
    hide HdrInv, AsciiBytes, HdrRun, HdrStep, SpanWS, EqFold;
    var b2 := ws + name;
    var b1 := ype + b2;
    var s1, s2 := s.(st := MhCt, pos := 0), s.(st := MhCtWS);
    MoveKeeps(s, MhCt, 0, inHdrs);
    YpeStep(s1, ype, b2, inHdrs);
    NotBoth(b1[0]);
    ContentStep(s, ct, b1, inHdrs);
    StepLeads(s, ct + b1, s1, b1, inHdrs);
    StepLeads(s1, b1, s2, b2, inHdrs);
    SpansWS(ws, name);
    TextWSStep(s2, b2, name, inHdrs);
    RunStops(s2, b2, inHdrs);
  }

  /** A Content-Type field of a type that does not begin with m. */
  ghost predicate IsOtherType(field: seq<byte>) {
    exists ct, ype, ws, name ::
      && field == ct + (ype + (ws + name)) && Spells(ct, CONTENT_T) && Spells(ype, YPE) && AllWS(ws)
      && name != [] && !IsWS(name[0]) && !Is(name[0], 'm')
  }

  lemma TypeLeads(s: HdrState, ct: seq<byte>, ype: seq<byte>, ws: seq<byte>, name: seq<byte>)
    requires Ready(s, true) && s.st.MhCeCt? && s.pos == 0
    requires Spells(ct, CONTENT_T) && Spells(ype, YPE) && AllWS(ws) && name != [] && !IsWS(name[0]) && Is(name[0], 't')
    ensures Ready(s.(st := MhText), true)
    ensures HdrRun(s, ct + (ype + (ws + name)), true) == HdrRun(s.(st := MhText), name, true)
  {
    hide HdrInv, AsciiBytes, HdrRun, HdrStep, SpanWS, EqFold;
    var b2 := ws + name;
    var b1 := ype + b2;
    var s1, s2 := s.(st := MhCt, pos := 0), s.(st := MhCtWS);
    MoveKeeps(s, MhCt, 0, true);
    YpeStep(s1, ype, b2, true);
    NotBoth(b1[0]);
    ContentStep(s, ct, b1, true);
    StepLeads(s, ct + b1, s1, b1, true);
    StepLeads(s1, b1, s2, b2, true);
    SpansWS(ws, name);
    TextWSStep(s2, b2, name, true);
    StepLeads(s2, b2, s.(st := MhText), name, true);
  }

  /** A field of a type that does not begin with m leaves every boundary as it is, whatever its parameters. */
  lemma OtherTypeOpensNone(s: HdrState, field: seq<byte>)
    requires Ready(s, true) && IsOtherType(field)
    ensures OnlyMoved(s, FieldRun(s, field).0)
  {
    hide HdrInv, AsciiBytes, HdrRun, HdrStep, EqFold;
    var ct, ype, ws, name :| field == ct + (ype + (ws + name)) && Spells(ct, CONTENT_T) && Spells(ype, YPE) && AllWS(ws)
      && name != [] && !IsWS(name[0]) && !Is(name[0], 'm');
    FieldStarts(s);
    var s0 := s.(st := MhCeCt, pos := 0);
    var s1 := HdrRun(s0, field, true).0;
    if Is(name[0], 't') {
      TypeLeads(s0, ct, ype, ws, name);
      NothingOpened(s0.(st := MhText), name);
      NothingOpened(s1, [LF]);
    } else {
      OtherField(s0, ct, ype, ws, name, true);
    }
  }
}
