/**
  Steps of the MIME header machine in a row: words that match, white space, and the parameters
  that are passed over on the way to the one looked for.
  */
module MimeSteps {
  import opened Bytes
  import opened MimeHeader

  // ---- Single steps in a run ------------------------------------------------------------

  /** A word that spells the target in any case. */
  predicate Spells(word: seq<byte>, tgt: seq<byte>) {
    EqFold(word, tgt) && tgt != []
  }

  lemma MatchesWord(s: HdrState, ok: MhdrSt, fail: MhdrSt, tgt: seq<byte>, word: seq<byte>, rest: seq<byte>)
    requires s.pos == 0 && Spells(word, tgt)
    ensures Match(tgt, s.pos, word + rest) == Matched
    ensures MatchStep(s, ok, fail, tgt, word + rest) == Step(s.(st := ok, pos := 0), rest, false, [])
  {
    assert CompareLen(tgt, 0, word + rest) == |tgt|;
    assert tgt[0..|tgt|] == tgt && (word + rest)[..|tgt|] == word && (word + rest)[|tgt|..] == rest;
  }

  lemma {:induction false} SpansWS(ws: seq<byte>, rest: seq<byte>)
    requires AllWS(ws) && rest != [] && !IsWS(rest[0])
    ensures SpanWS(ws + rest) == rest
  {
    if ws == [] {
      assert ws + rest == rest;
    } else {
      assert (ws + rest)[1..] == ws[1..] + rest;
      SpansWS(ws[1..], rest);
    }
  }

  lemma AwayFromSlots(s: HdrState, inHdrs: bool)
    ensures !s.st.MhBndValue? ==> HeaderSlot(s, inHdrs)
  {
  }

  /** The run behind one step. */
  lemma RunAfter(s: HdrState, bp: seq<byte>, inHdrs: bool, r: Step)
    requires Ready(s, inHdrs) && HeaderSlot(s, inHdrs) && bp != [] && !s.st.MhIdle?
    requires r == HdrStep(s, bp, inHdrs) && !r.stop
    ensures Ready(r.s, inHdrs) && HeaderSlot(r.s, inHdrs)
    ensures HdrRun(s, bp, inHdrs) == (HdrRun(r.s, r.bp, inHdrs).0, r.effs + HdrRun(r.s, r.bp, inHdrs).1)
  {
    hide HdrStep, HdrInv;
    StepKeeps(s, bp, inHdrs);
  }

  /** A run comes down to the run from the next state when its first step has no effect. */
  lemma StepLeads(s: HdrState, bp: seq<byte>, s1: HdrState, rest: seq<byte>, inHdrs: bool)
    requires Ready(s, inHdrs) && HeaderSlot(s, inHdrs) && bp != [] && !s.st.MhIdle?
    requires HdrStep(s, bp, inHdrs) == Step(s1, rest, false, [])
    ensures Ready(s1, inHdrs) && HeaderSlot(s1, inHdrs) && HdrRun(s, bp, inHdrs) == HdrRun(s1, rest, inHdrs)
  {
    hide HdrStep, HdrInv, HdrRun;
    RunAfter(s, bp, inHdrs, Step(s1, rest, false, []));
    assert [] + HdrRun(s1, rest, inHdrs).1 == HdrRun(s1, rest, inHdrs).1;
  }

  lemma RunIdle(s: HdrState, bp: seq<byte>, inHdrs: bool)
    requires Ready(s, inHdrs) && s.st.MhIdle?
    ensures HdrRun(s, bp, inHdrs) == (s, [])
  {
  }

  lemma FirstOf(word: seq<byte>, tgt: seq<byte>, rest: seq<byte>)
    requires Spells(word, tgt)
    ensures |word| > 0 && |tgt| > 0 && word + rest != [] && (word + rest)[0] == word[0] && ToLower(word[0]) == ToLower(tgt[0])
  {
  }

  lemma RunStops(s: HdrState, bp: seq<byte>, inHdrs: bool)
    requires Ready(s, inHdrs) && HeaderSlot(s, inHdrs) && bp != [] && !s.st.MhIdle? && HdrStep(s, bp, inHdrs).stop
    ensures HdrRun(s, bp, inHdrs) == (HdrStep(s, bp, inHdrs).s, HdrStep(s, bp, inHdrs).effs)
  {
    hide HdrStep, HdrInv;
  }

  lemma RunNothing(s: HdrState, inHdrs: bool)
    requires Ready(s, inHdrs) && HeaderSlot(s, inHdrs)
    ensures HdrRun(s, [], inHdrs) == (s, [])
  {
  }

  // ---- White space and parameters -------------------------------------------------------

  /** All leading white space, and nothing else, is passed over. */
  lemma {:induction false} SpanWSLeaves(bp: seq<byte>)
    ensures var r := SpanWS(bp);
      && bp[|bp| - |r|..] == r && (forall k :: 0 <= k < |bp| - |r| ==> IsWS(bp[k]))
      && (r != [] ==> !IsWS(r[0]))
  {
    if bp != [] && IsWS(bp[0]) {
      SpanWSLeaves(bp[1..]);
      var r := SpanWS(bp[1..]);
      assert bp[1..][|bp| - 1 - |r|..] == bp[|bp| - |r|..];
      assert forall k :: 1 <= k < |bp| ==> bp[k] == bp[1..][k - 1];
    } else {
      assert bp[0..] == bp;
    }
  }

  /** Bytes that are neither white space nor a semicolon. */
  predicate IsParam(p: seq<byte>) {
    forall k :: 0 <= k < |p| ==> !IsWS(p[k]) && p[k] != SEMI
  }

  /** A parameter reaches to the first white space, which is left to read, or to the first semicolon, which is not. */
  lemma {:induction false} SkipParamLeaves(bp: seq<byte>) returns (p: seq<byte>)
    ensures IsParam(p) && p <= bp
    ensures if |p| == |bp| then SkipParam(bp) == ([], false)
            else if bp[|p|] == SEMI then SkipParam(bp) == (bp[|p| + 1..], true)
            else IsWS(bp[|p|]) && SkipParam(bp) == (bp[|p|..], true)
  {
    if bp == [] || IsWS(bp[0]) || bp[0] == SEMI {
      p := [];
    } else {
      var q := SkipParamLeaves(bp[1..]);
      p := [bp[0]] + q;
      assert bp == [bp[0]] + bp[1..];
      if |q| < |bp[1..]| {
        assert bp[1..][|q|] == bp[|p|] && bp[1..][|q|..] == bp[|p|..];
      }
    }
  }

  /** A parameter and the byte behind it: a semicolon, or white space. */
  datatype Param = Param(ws: seq<byte>, text: seq<byte>, sep: byte) {
    function Bytes(): (bs: seq<byte>)
      ensures |bs| > 0
    {
      ws + (text + [sep])
    }

    /** It is not the one looked for. */
    predicate Other(tgt: seq<byte>) {
      && AllWS(ws) && IsParam(text) && EndsParam(sep)
      && !(|text| >= |tgt| && EqFold(text[..|tgt|], tgt))
    }
  }

  predicate AllWS(ws: seq<byte>) {
    forall k :: 0 <= k < |ws| ==> IsWS(ws[k])
  }

  predicate EndsParam(c: byte) { c == SEMI || IsWS(c) }

  function ParamBytes(ps: seq<Param>): seq<byte> {
    if ps == [] then [] else ps[0].Bytes() + ParamBytes(ps[1..])
  }

  predicate AllOther(ps: seq<Param>, tgt: seq<byte>) {
    forall k :: 0 <= k < |ps| ==> ps[k].Other(tgt)
  }

  lemma {:induction false} SkipsParam(p: seq<byte>, sep: byte, rest: seq<byte>)
    requires IsParam(p) && EndsParam(sep)
    ensures SkipParam(p + ([sep] + rest)) == (if sep == SEMI then rest else [sep] + rest, true)
  {
    var all := p + ([sep] + rest);
    if p == [] {
      assert all[0] == sep && all[1..] == rest && all == [sep] + rest;
    } else {
      assert all[0] == p[0] && all[1..] == p[1..] + ([sep] + rest);
      SkipsParam(p[1..], sep, rest);
    }
  }

  /** The states that scan for one parameter of a field, and its name. */
  datatype Search = Search(skip: MhdrSt, span: MhdrSt, find: MhdrSt, tgt: seq<byte>)

  function BoundarySearch(): Search { Search(MhBndSkipParam, MhBndSpanWS, MhBnd, BOUNDARY) }

  function CharsetSearch(): Search { Search(MhCsetSkipParam, MhCsetSpanWS, MhCset, CHARSET) }

  predicate IsSearch(f: Search) { f == BoundarySearch() || f == CharsetSearch() }

  /** A name is looked for in letters and an equals sign. */
  predicate NameBytes(tgt: seq<byte>) {
    tgt != [] && forall k :: 0 <= k < |tgt| ==> !EndsParam(tgt[k])
  }

  lemma NamesAreNames()
    ensures NameBytes(BOUNDARY) && NameBytes(CHARSET)
  {
  }

  /** Another parameter differs from the name before or at the byte that ends it. */
  lemma OtherFails(s: HdrState, ok: MhdrSt, fail: MhdrSt, tgt: seq<byte>, p: seq<byte>, sep: byte, rest: seq<byte>)
    requires s.pos == 0 && NameBytes(tgt) && EndsParam(sep)
    requires !(|p| >= |tgt| && EqFold(p[..|tgt|], tgt))
    ensures Match(tgt, 0, p + ([sep] + rest)) == Failed
    ensures MatchStep(s, ok, fail, tgt, p + ([sep] + rest)) == Step(s.(st := fail), p + ([sep] + rest), false, [])
  {
    var bp := p + ([sep] + rest);
    var n := CompareLen(tgt, 0, bp);
    if |p| >= |tgt| {
      assert bp[..n] == p[..|tgt|] && tgt[0..0 + n] == tgt;
      EqFoldFlips(p[..|tgt|], tgt);
    } else {
      assert n >= |p| + 1 && bp[..n][|p|] == sep && tgt[0..0 + n][|p|] == tgt[|p|];
      LowerKeepsEnd(sep, tgt[|p|]);
    }
  }

  lemma EqFoldFlips(a: seq<byte>, b: seq<byte>)
    ensures EqFold(a, b) <==> EqFold(b, a)
  {
  }

  lemma LowerKeepsEnd(sep: byte, c: byte)
    requires EndsParam(sep) && !EndsParam(c)
    ensures ToLower(sep) != ToLower(c)
  {
  }

  /** The three kinds of step of a search. */
  lemma SearchSteps(f: Search, s: HdrState, bp: seq<byte>, inHdrs: bool)
    requires IsSearch(f) && Ready(s, inHdrs) && bp != []
    ensures s.st == f.skip ==> HdrStep(s, bp, inHdrs) == SkipParamStep(s, bp, f.span)
    ensures s.st == f.span ==> HdrStep(s, bp, inHdrs) == SpanWSStep(s, bp, f.find)
    ensures s.st == f.find && s.pos == 0 && Match(f.tgt, 0, bp) == Failed ==>
      HdrStep(s, bp, inHdrs) == Step(s.(st := f.skip), bp, false, [])
  {
    hide HdrInv, AsciiBytes;
  }

  lemma SearchIsReady(f: Search, s: HdrState, inHdrs: bool)
    requires IsSearch(f) && Ready(s, inHdrs) && (s.st == f.skip || s.st == f.span || s.st == f.find)
    ensures !s.st.MhBndValue? && !s.st.MhIdle? && HeaderSlot(s, inHdrs) && NameBytes(f.tgt)
    ensures Ready(s.(st := f.skip), inHdrs) && Ready(s.(st := f.span), inHdrs) && Ready(s.(st := f.find), inHdrs)
  {
    hide AsciiBytes;
    NamesAreNames();
  }

  /** White space before a parameter changes nothing. */
  lemma {:induction false} SpaceIsPassed(f: Search, s: HdrState, c: byte, rest: seq<byte>, inHdrs: bool)
    requires IsSearch(f) && Ready(s, inHdrs) && s.st == f.span && IsWS(c)
    ensures HeaderSlot(s, inHdrs) && HdrRun(s, [c] + rest, inHdrs) == HdrRun(s, rest, inHdrs)
  {
    hide HdrInv, AsciiBytes, HdrRun, HdrStep, IsSearch;
    SearchIsReady(f, s, inHdrs);
    var bp := [c] + rest;
    assert bp[1..] == rest && SpanWS(bp) == SpanWS(rest);
    var r := SpanWS(rest);
    SearchSteps(f, s, bp, inHdrs);
    var s1 := if r != [] then s.(st := f.find) else s;
    StepLeads(s, bp, s1, r, inHdrs);
    if rest != [] {
      SearchSteps(f, s, rest, inHdrs);
      StepLeads(s, rest, s1, r, inHdrs);
    }
  }

  /** A parameter is passed over, and the next one is looked at. */
  lemma ParamIsSkipped(f: Search, s: HdrState, p: seq<byte>, sep: byte, rest: seq<byte>, inHdrs: bool)
    requires IsSearch(f) && Ready(s, inHdrs) && s.st == f.skip && IsParam(p) && EndsParam(sep)
    ensures Ready(s.(st := f.span), inHdrs) && HeaderSlot(s, inHdrs) && HeaderSlot(s.(st := f.span), inHdrs)
    ensures HdrRun(s, p + ([sep] + rest), inHdrs) == HdrRun(s.(st := f.span), rest, inHdrs)
  {
    hide HdrInv, AsciiBytes, HdrRun, HdrStep, IsSearch;
    SearchIsReady(f, s, inHdrs);
    var s1 := s.(st := f.span);
    SearchIsReady(f, s1, inHdrs);
    var bp := p + ([sep] + rest);
    SkipsParam(p, sep, rest);
    SearchSteps(f, s, bp, inHdrs);
    StepLeads(s, bp, s1, if sep == SEMI then rest else [sep] + rest, inHdrs);
    if sep != SEMI {
      SpaceIsPassed(f, s1, sep, rest, inHdrs);
    }
  }

  /** A parameter that is not the one looked for. */
  lemma OtherIsPassed(f: Search, s: HdrState, p: Param, rest: seq<byte>, inHdrs: bool)
    requires IsSearch(f) && Ready(s, inHdrs) && s.st == f.span && s.pos == 0 && p.Other(f.tgt)
    ensures HeaderSlot(s, inHdrs) && HdrRun(s, p.Bytes() + rest, inHdrs) == HdrRun(s, rest, inHdrs)
  {
    hide HdrInv, AsciiBytes, HdrRun, HdrStep, IsSearch;
    SearchIsReady(f, s, inHdrs);
    var tail := p.text + ([p.sep] + rest);
    assert p.Bytes() + rest == p.ws + tail;
    SpacesArePassed(f, s, p.ws, tail, inHdrs);
    if tail[0] == p.sep && IsWS(p.sep) && p.text == [] {
      assert tail == [p.sep] + rest;
      SpaceIsPassed(f, s, p.sep, rest, inHdrs);
    } else {
      var s1, s2 := s.(st := f.find), s.(st := f.skip);
      assert SpanWS(tail) == tail;
      SearchSteps(f, s, tail, inHdrs);
      StepLeads(s, tail, s1, tail, inHdrs);
      SearchIsReady(f, s1, inHdrs);
      OtherFails(s1, f.skip, f.skip, f.tgt, p.text, p.sep, rest);
      SearchSteps(f, s1, tail, inHdrs);
      StepLeads(s1, tail, s2, tail, inHdrs);
      ParamIsSkipped(f, s2, p.text, p.sep, rest, inHdrs);
    }
  }

  lemma {:induction false} SpacesArePassed(f: Search, s: HdrState, ws: seq<byte>, rest: seq<byte>, inHdrs: bool)
    requires IsSearch(f) && Ready(s, inHdrs) && s.st == f.span && AllWS(ws)
    ensures HeaderSlot(s, inHdrs) && HdrRun(s, ws + rest, inHdrs) == HdrRun(s, rest, inHdrs)
    decreases |ws|
  {
    hide HdrInv, HdrRun, IsSearch;
    SearchIsReady(f, s, inHdrs);
    if ws == [] {
      assert ws + rest == rest;
    } else {
      assert ws + rest == [ws[0]] + (ws[1..] + rest);
      SpaceIsPassed(f, s, ws[0], ws[1..] + rest, inHdrs);
      SpacesArePassed(f, s, ws[1..], rest, inHdrs);
    }
  }

  /** Any parameters in front of the one looked for. */
  lemma {:induction false} OthersArePassed(f: Search, s: HdrState, ps: seq<Param>, rest: seq<byte>, inHdrs: bool)
    requires IsSearch(f) && Ready(s, inHdrs) && s.st == f.span && s.pos == 0 && AllOther(ps, f.tgt)
    ensures HeaderSlot(s, inHdrs) && HdrRun(s, ParamBytes(ps) + rest, inHdrs) == HdrRun(s, rest, inHdrs)
    decreases |ps|
  {
    hide HdrInv, HdrRun, IsSearch, Param.Bytes, Param.Other;
    SearchIsReady(f, s, inHdrs);
    if ps == [] {
      assert ParamBytes(ps) + rest == rest;
    } else {
      Assoc(ps[0].Bytes(), ParamBytes(ps[1..]), rest);
      OtherIsPassed(f, s, ps[0], ParamBytes(ps[1..]) + rest, inHdrs);
      OthersArePassed(f, s, ps[1..], rest, inHdrs);
    }
  }
}
