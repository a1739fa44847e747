/** The header parser as the program runs it, over fields and an array of boundary slots. */
module HeaderParser {
  import opened Bytes
  import opened Entities
  import opened MimeHeader

  class HdrParser {
    var mhdrSt: MhdrSt
    var mhdrPos: nat
    var mimeNest: nat
    var mimeBndMatches: int
    var bol: bool
    var quoted: bool
    const mimeBnd: array<Slot>
    const ent: Entity

    ghost function View(): HdrState
      reads this, mimeBnd
    {
      HdrState(mhdrSt, mhdrPos, mimeNest, mimeBndMatches, bol, quoted, mimeBnd[..])
    }

    constructor (ent: Entity)
      ensures this.ent == ent && fresh(mimeBnd)
      ensures HdrInv(View()) && mimeNest == 0 && mhdrSt == MhIdle && mimeBndMatches == 0 && bol
    {
      mhdrSt, mhdrPos, mimeNest, mimeBndMatches, bol, quoted := MhIdle, 0, 0, 0, true, false;
      mimeBnd := new Slot[BND_NUM](_ => Slot(0, 0, seq(BND_DIM, i => 0)));
      this.ent := ent;
    }

    method EqualFold(tgt: seq<byte>, at: nat, bp: seq<byte>, n: nat) returns (same: bool)
      requires at + n <= |tgt| && n <= |bp|
      ensures same <==> EqFold(tgt[at..at + n], bp[..n])
    {
      for i := 0 to n
        invariant forall k :: 0 <= k < i ==> ToLower(tgt[at + k]) == ToLower(bp[k])
      {
        if ToLower(tgt[at + i]) != ToLower(bp[i]) {
          assert tgt[at..at + n][i] == tgt[at + i] && bp[..n][i] == bp[i];
          return false;
        }
      }
      return true;
    }

    method MhMatch(ok: MhdrSt, fail: MhdrSt, tgt: seq<byte>, bp: seq<byte>) returns (matched: bool, rest: seq<byte>)
      modifies this`mhdrSt, this`mhdrPos
      ensures var r := MatchStep(old(View()), ok, fail, tgt, bp); View() == r.s && rest == r.bp
      ensures matched <==> Match(tgt, old(mhdrPos), bp) == Matched
    {
      hide EqFold;
      var left: int := |tgt| - mhdrPos;
      var n: nat := if left < 0 then 0 else left;
      if n > |bp| {
        n := |bp|;
      }
      if n > 0 {
        var same := EqualFold(tgt, mhdrPos, bp, n);
        if !same {
          mhdrSt := fail;
          return false, bp;
        }
      }
      rest := bp[n..];
      mhdrPos := mhdrPos + n;
      matched := mhdrPos >= |tgt|;
      if matched {
        mhdrSt := ok;
        mhdrPos := 0;
      }
    }

    method SpanSpace(bp: seq<byte>) returns (found: bool, rest: seq<byte>)
      ensures rest == SpanWS(bp) && (found <==> rest != [])
    {
      rest := bp;
      while rest != []
        invariant SpanWS(rest) == SpanWS(bp)
        decreases |rest|
      {
        if !IsWS(rest[0]) {
          return true, rest;
        }
        rest := rest[1..];
      }
      found := false;
    }

    method SkipParameter(bp: seq<byte>) returns (found: bool, rest: seq<byte>)
      ensures (rest, found) == SkipParam(bp)
    {
      rest := bp;
      while rest != []
        invariant SkipParam(rest) == SkipParam(bp)
        decreases |rest|
      {
        var c := rest[0];
        if IsWS(c) {
          return true, rest;
        }
        rest := rest[1..];
        if c == SEMI {
          return true, rest;
        }
      }
      found := false;
    }

    /** The state after "Content-T" is overwritten by the next letter, if there is one yet. */
    method CeCtTurn(bp: seq<byte>) returns (rest: seq<byte>, stop: bool)
      modifies this`mhdrSt, this`mhdrPos
      ensures CeCtStep(old(View()), bp) == Step(View(), rest, stop, [])
    {
      hide MatchStep, AsciiBytes;
      MatchIsQuiet(View(), MhCtWS, MhIdle, CONTENT_T, bp);
      var matched;
      matched, rest := MhMatch(MhCtWS, MhIdle, CONTENT_T, bp);
      stop := false;
      if matched {
        if rest == [] {
          return rest, true;
        }
        if Is(rest[0], 'r') {
          mhdrSt := MhCe;
        } else if Is(rest[0], 'y') {
          mhdrSt := MhCt;
        } else {
          mhdrSt := MhIdle;
          stop := true;
        }
      }
    }

    method CeWSTurn(bp: seq<byte>) returns (rest: seq<byte>, stop: bool)
      modifies this`mhdrSt
      ensures CeWSStep(old(View()), bp) == Step(View(), rest, stop, [])
    {
      var found;
      found, rest := SpanSpace(bp);
      stop := !found;
      if !found {
        return;
      }
      if Is(rest[0], 'b') {
        mhdrSt := MhB64;
      } else if Is(rest[0], 'q') {
        mhdrSt := MhQp;
      } else {
        mhdrSt := MhIdle;
        stop := true;
      }
    }

    method CtWSTurn(bp: seq<byte>, inHdrs: bool) returns (rest: seq<byte>, stop: bool, ghost effs: seq<Effect>)
      modifies this`mhdrSt, ent`mimeCt
      ensures CtWSStep(old(View()), bp, inHdrs) == Step(View(), rest, stop, effs)
      ensures ent.View() == ApplyAll(old(ent.View()), effs)
    {
      effs := [];
      var found;
      found, rest := SpanSpace(bp);
      stop := !found;
      if !found {
        return;
      }
      if Is(rest[0], 't') {
        mhdrSt := MhText;
      } else if Is(rest[0], 'm') {
        mhdrSt := if inHdrs || mimeNest < BND_NUM then MhMultipart else MhIdle;
      } else {
        ent.mimeCt := Binary;
        effs := [SetCt(Binary)];
        mhdrSt := MhIdle;
        stop := true;
      }
    }

    method Iso8859Turn(bp: seq<byte>) returns (rest: seq<byte>)
      requires bp != []
      modifies this`mhdrSt, this`mhdrPos
      ensures Iso8859Step(old(View()), bp) == Step(View(), rest, false, [])
    {
      hide MatchStep, AsciiBytes;
      rest := bp;
      if mhdrPos == 0 && bp[0] == DQUOTE {
        rest := bp[1..];
      }
      MatchIsQuiet(View(), MhCsetIsoX, MhIdle, ISO_8859, rest);
      var _, r := MhMatch(MhCsetIsoX, MhIdle, ISO_8859, rest);
      rest := r;
    }

    /** The digits of a character set's number. */
    method IsoXTurn(bp: seq<byte>) returns (rest: seq<byte>, ghost effs: seq<Effect>)
      modifies this`mhdrSt, this`mhdrPos, ent`mimeCset
      ensures IsoXStep(old(View()), bp) == Step(View(), rest, true, effs)
      ensures ent.View() == ApplyAll(old(ent.View()), effs)
    {
      rest, effs := bp, [];
      while rest != []
        invariant mhdrSt == old(mhdrSt) && effs == [] && ent.View() == old(ent.View())
        invariant IsoXStep(View(), rest) == IsoXStep(old(View()), bp)
        decreases |rest|
      {
        var ch := rest[0];
        rest := rest[1..];
        if !IsDigit(ch) {
          var cset := if (ch == DQUOTE || IsWS(ch) || ch == SEMI) && mhdrPos == 2 then Latin2 else Latin1;
          ent.mimeCset := cset;
          effs := [SetCset(cset)];
          mhdrSt := MhIdle;
          return;
        }
        mhdrPos := mhdrPos * 10 + (ch - 0x30);
        if mhdrPos > 99 {
          mhdrSt := MhIdle;
          return;
        }
      }
    }

    /** "boundary=" opens the slot of the current nesting. */
    method BndTurn(bp: seq<byte>, inHdrs: bool) returns (rest: seq<byte>)
      requires SlotsOk(View()) && (inHdrs || mimeNest < BND_NUM)
      modifies this, mimeBnd
      ensures BndStep(old(View()), bp, inHdrs) == Step(View(), rest, false, [])
    {
      hide MatchStep, AsciiBytes;
      MatchIsQuiet(View(), MhBndValue, MhBndSkipParam, BOUNDARY, bp);
      var matched;
      matched, rest := MhMatch(MhBndValue, MhBndSkipParam, BOUNDARY, bp);
      if matched {
        if inHdrs {
          mimeNest := 0;
          mimeBndMatches := 1;
        }
        quoted := false;
        mimeBnd[mimeNest] := PutByte(mimeBnd[mimeNest], 0, DASH);
        mimeBnd[mimeNest] := PutByte(mimeBnd[mimeNest], 1, DASH);
        mhdrPos := 2;
      }
    }

    /** The bytes of a boundary. */
    method BndValueTurn(bp: seq<byte>) returns (rest: seq<byte>, stop: bool)
      requires SlotsOk(View()) && mimeNest < BND_NUM && mhdrPos < BND_MAX
      modifies this, mimeBnd
      ensures BndValueStep(old(View()), bp) == Step(View(), rest, stop, [])
    {
      rest := bp;
      while true
        invariant SlotsOk(View()) && mimeNest < BND_NUM && mhdrPos < BND_MAX
        invariant BndValueStep(View(), rest) == BndValueStep(old(View()), bp)
        decreases |rest|
      {
        if rest == [] {
          return rest, true;
        }
        var ch := rest[0];
        rest := rest[1..];
        if ch == LF {
          break;
        }
        if ch == CR {
          continue;
        }
        if (ch == SP || ch == TAB || ch == SEMI) && !quoted {
          break;
        }
        if ch == DQUOTE {
          quoted := !quoted;
          continue;
        }
        mimeBnd[mimeNest] := PutByte(mimeBnd[mimeNest], mhdrPos, ch);
        mhdrPos := mhdrPos + 1;
        if mhdrPos >= BND_MAX {
          mhdrSt := MhIdle;
          return rest, true;
        }
      }
      mimeBnd[mimeNest] := mimeBnd[mimeNest].(bndLen := mhdrPos, cmpLen := 0);
      mimeNest := mimeNest + 1;
      mhdrSt := MhIdle;
      stop := false;
    }

    /** A word that sets something when it is complete. */
    method SetTurn(ok: MhdrSt, fail: MhdrSt, tgt: seq<byte>, bp: seq<byte>, eff: Effect)
      returns (rest: seq<byte>, ghost effs: seq<Effect>)
      modifies this`mhdrSt, this`mhdrPos, ent
      ensures MatchSets(old(View()), ok, fail, tgt, bp, eff) == Step(View(), rest, false, effs)
      ensures ent.View() == ApplyAll(old(ent.View()), effs)
    {
      hide MatchStep, MatchSets, Match, Apply, ApplyAll, Moves;
      MatchIsQuiet(View(), ok, fail, tgt, bp);
      SetsOrNot(View(), ok, fail, tgt, bp, eff);
      ApplyFew(ent.View(), eff);
      var matched;
      matched, rest := MhMatch(ok, fail, tgt, bp);
      effs := if matched then [eff] else [];
      if matched {
        Set(eff);
      }
    }

    method Set(eff: Effect)
      modifies ent
      ensures ent.View() == Apply(old(ent.View()), eff)
    {
      match eff {
        case SetCt(ct) => ent.mimeCt := ct;
        case SetCe(ce) => ent.mimeCe := ce;
        case SetCset(cset) => ent.mimeCset := cset;
      }
    }

    method WordTurn(ok: MhdrSt, fail: MhdrSt, tgt: seq<byte>, bp: seq<byte>) returns (rest: seq<byte>)
      modifies this`mhdrSt, this`mhdrPos
      ensures MatchStep(old(View()), ok, fail, tgt, bp) == Step(View(), rest, false, [])
    {
      MatchIsQuiet(View(), ok, fail, tgt, bp);
      var _, r := MhMatch(ok, fail, tgt, bp);
      rest := r;
    }

    method SkipTurn(bp: seq<byte>, next: MhdrSt) returns (rest: seq<byte>)
      modifies this`mhdrSt
      ensures SkipParamStep(old(View()), bp, next) == Step(View(), rest, false, [])
    {
      var found, r := SkipParameter(bp);
      rest := r;
      if found {
        mhdrSt := next;
      }
    }

    method SpanTurn(bp: seq<byte>, next: MhdrSt) returns (rest: seq<byte>)
      modifies this`mhdrSt
      ensures SpanWSStep(old(View()), bp, next) == Step(View(), rest, false, [])
    {
      var found, r := SpanSpace(bp);
      rest := r;
      if found {
        mhdrSt := next;
      }
    }

    method MultipartTurn(bp: seq<byte>) returns (rest: seq<byte>)
      modifies this`mhdrSt, this`mhdrPos
      ensures MultipartStep(old(View()), bp) == Step(View(), rest, false, [])
    {
      mhdrSt := MhText;
      rest := WordTurn(MhBndSkipParam, MhIdle, MULTIPART, bp);
    }

    /** The states that match one word. */
    static predicate AtWord(st: MhdrSt) {
      st.MhCe? || st.MhQp? || st.MhB64? || st.MhCt? || st.MhText? || st.MhHtml? || st.MhCset? || st.MhMultipart?
    }

    method TurnAtWord(bp: seq<byte>, inHdrs: bool) returns (rest: seq<byte>, ghost effs: seq<Effect>)
      requires Ready(View(), inHdrs) && bp != [] && AtWord(mhdrSt)
      modifies this`mhdrSt, this`mhdrPos, ent
      ensures HdrStep(old(View()), bp, inHdrs) == Step(View(), rest, false, effs)
      ensures ent.View() == ApplyAll(old(ent.View()), effs)
    {
      hide HdrInv, MatchStep, MatchSets, MultipartStep, AsciiBytes, ApplyAll, SlotsOk;
      ApplyFew(ent.View(), SetCt(Text));
      effs := [];
      match mhdrSt {
        case MhCe => rest := WordTurn(MhCeWS, MhIdle, RANSFER_ENCODING, bp);
        case MhQp => rest, effs := SetTurn(MhIdle, MhIdle, QUOTED_PRINTABLE, bp, SetCe(QuotedPrintable));
        case MhB64 => rest, effs := SetTurn(MhIdle, MhIdle, BASE64, bp, SetCe(Base64));
        case MhCt => rest := WordTurn(MhCtWS, MhIdle, YPE, bp);
        case MhText => rest, effs := SetTurn(MhHtml, MhIdle, TEXT, bp, SetCt(Text));
        case MhHtml => rest, effs := SetTurn(MhCsetSkipParam, MhCsetSkipParam, SLASH_HTML, bp, SetCt(Html));
        case MhCset => rest := WordTurn(MhCsetIso8859, MhCsetSkipParam, CHARSET, bp);
        case MhMultipart => rest := MultipartTurn(bp);
      }
    }

    method TurnElsewhere(bp: seq<byte>, inHdrs: bool) returns (rest: seq<byte>, stop: bool, ghost effs: seq<Effect>)
      requires Ready(View(), inHdrs) && bp != [] && !AtWord(mhdrSt) && !mhdrSt.MhIdle?
      modifies this, mimeBnd, ent
      ensures HdrStep(old(View()), bp, inHdrs) == Step(View(), rest, stop, effs)
      ensures ent.View() == ApplyAll(old(ent.View()), effs)
    {
      hide HdrInv, CeCtStep, CeWSStep, CtWSStep, SkipParamStep, SpanWSStep, Iso8859Step, IsoXStep, BndStep, BndValueStep,
        ApplyAll;
      ReadySlots(View(), inHdrs);
      ApplyFew(ent.View(), SetCt(Text));
      stop, effs := false, [];
      match mhdrSt {
        case MhCeCt => rest, stop := CeCtTurn(bp);
        case MhCeWS => rest, stop := CeWSTurn(bp);
        case MhCtWS => rest, stop, effs := CtWSTurn(bp, inHdrs);
        case MhCsetSkipParam => rest := SkipTurn(bp, MhCsetSpanWS);
        case MhCsetSpanWS => rest := SpanTurn(bp, MhCset);
        case MhCsetIso8859 => rest := Iso8859Turn(bp);
        case MhCsetIsoX =>
          rest, effs := IsoXTurn(bp);
          stop := true;
        case MhBndSkipParam => rest := SkipTurn(bp, MhBndSpanWS);
        case MhBndSpanWS => rest := SpanTurn(bp, MhBnd);
        case MhBnd => rest := BndTurn(bp, inHdrs);
        case MhBndValue => rest, stop := BndValueTurn(bp);
      }
    }

    /** One turn of the loop. */
    method Turn(bp: seq<byte>, inHdrs: bool) returns (rest: seq<byte>, stop: bool, ghost effs: seq<Effect>)
      requires Ready(View(), inHdrs) && bp != [] && !mhdrSt.MhIdle?
      modifies this, mimeBnd, ent
      ensures HdrStep(old(View()), bp, inHdrs) == Step(View(), rest, stop, effs)
      ensures ent.View() == ApplyAll(old(ent.View()), effs)
    {
      hide HdrInv, HdrStep, ApplyAll;
      if AtWord(mhdrSt) {
        rest, effs := TurnAtWord(bp, inHdrs);
        stop := false;
      } else {
        rest, stop, effs := TurnElsewhere(bp, inHdrs);
      }
    }

    /** The loop over one piece of a header. */
    method RunHdr(bp0: seq<byte>, inHdrs: bool) returns (ghost effs: seq<Effect>)
      requires Ready(View(), inHdrs) && HeaderSlot(View(), inHdrs)
      modifies this, mimeBnd, ent
      ensures (View(), effs) == HdrRun(old(View()), bp0, inHdrs)
      ensures ent.View() == ApplyAll(old(ent.View()), effs)
    {
      hide HdrStep, HdrRun, HdrInv, HeaderSlot, After, ApplyAll, Rank;
      var bp := bp0;
      effs := [];
      ghost var ent0 := ent.View();
      StartRun(View(), bp, inHdrs, ent0);
      while bp != []
        invariant Ready(View(), inHdrs) && HeaderSlot(View(), inHdrs)
        invariant ent.View() == ApplyAll(ent0, effs)
        invariant HdrRun(old(View()), bp0, inHdrs) == After(effs, HdrRun(View(), bp, inHdrs))
        decreases |bp|, Rank(mhdrSt, bp)
      {
        if mhdrSt.MhIdle? {
          StopRun(View(), bp, inHdrs, effs);
          return;
        }
        RunTurn(View(), bp, inHdrs, effs, ent0);
        var stop;
        ghost var more;
        bp, stop, more := Turn(bp, inHdrs);
        effs := effs + more;
        if stop {
          return;
        }
      }
      StopRun(View(), bp, inHdrs, effs);
    }

    /** A piece of a header; it says when it is the blank line that ends the headers. */
    method ParseMimeHdr(bp0: seq<byte>, inHdrs: bool) returns (blank: bool, ghost effs: seq<Effect>)
      requires Ready(View(), inHdrs) && HeaderSlot(View(), inHdrs)
      modifies this, mimeBnd, ent
      ensures (View(), effs, blank) == ParseHdr(old(View()), bp0, inHdrs)
      ensures ent.View() == ApplyAll(old(ent.View()), effs)
    {
      hide HdrInv, HdrRun;
      var bp := bp0;
      effs := [];
      if bol && !inHdrs {
        if bp == [] {
          return false, [];
        }
        var ch := bp[0];
        if ch == CR {
          bp := bp[1..];
          if bp == [] {
            return false, [];
          }
          ch := bp[0];
        }
        if ch == LF {
          return true, [];
        }
        StartKeeps(View(), inHdrs);
        if ch != SP && ch != TAB {
          mhdrSt := MhCeCt;
          mhdrPos := 0;
        }
        bol := false;
      }
      effs := RunHdr(bp, inHdrs);
      blank := false;
    }

    /** A header field of the message, unfolded. */
    method ParseField(field: seq<byte>) returns (ghost effs: seq<Effect>)
      requires Ready(View(), true)
      modifies this, mimeBnd, ent
      ensures (View(), effs) == FieldRun(old(View()), field)
      ensures ent.View() == ApplyAll(old(ent.View()), effs)
    {
      hide HdrInv, HdrRun, ApplyAll;
      ghost var d := ent.View();
      FieldStarts(View());
      mhdrSt := MhCeCt;
      mhdrPos := 0;
      var _, e1 := ParseMimeHdr(field, true);
      ghost var e2: seq<Effect> := [];
      if mhdrSt != MhIdle {
        var _, e := ParseMimeHdr([LF], true);
        e2 := e;
      }
      ApplySplits(d, e1, e2);
      ApplyNothing(ApplyAll(d, e1));
      effs := e1 + e2;
      bol := true;
    }
  }

  /** Effects in front of a run's result. */
  function After(effs: seq<Effect>, r: (HdrState, seq<Effect>)): (HdrState, seq<Effect>) {
    (r.0, effs + r.1)
  }

  lemma StartRun(s: HdrState, bp: seq<byte>, inHdrs: bool, ent: Described)
    requires Ready(s, inHdrs) && HeaderSlot(s, inHdrs)
    ensures HdrRun(s, bp, inHdrs) == After([], HdrRun(s, bp, inHdrs)) && ApplyAll(ent, []) == ent
  {
    hide HdrRun;
    assert [] + HdrRun(s, bp, inHdrs).1 == HdrRun(s, bp, inHdrs).1;
  }

  lemma StopRun(s: HdrState, bp: seq<byte>, inHdrs: bool, effs: seq<Effect>)
    requires Ready(s, inHdrs) && HeaderSlot(s, inHdrs) && (bp == [] || s.st.MhIdle?)
    ensures After(effs, HdrRun(s, bp, inHdrs)) == (s, effs)
  {
    assert effs + [] == effs;
  }

  lemma RunTurn(s: HdrState, bp: seq<byte>, inHdrs: bool, effs: seq<Effect>, ent: Described)
    requires Ready(s, inHdrs) && HeaderSlot(s, inHdrs) && bp != [] && !s.st.MhIdle?
    ensures var r := HdrStep(s, bp, inHdrs);
      && Ready(r.s, inHdrs) && HeaderSlot(r.s, inHdrs)
      && ApplyAll(ApplyAll(ent, effs), r.effs) == ApplyAll(ent, effs + r.effs)
      && (if r.stop then After(effs, HdrRun(s, bp, inHdrs)) == (r.s, effs + r.effs)
          else After(effs, HdrRun(s, bp, inHdrs)) == After(effs + r.effs, HdrRun(r.s, r.bp, inHdrs)))
      && (r.stop || |r.bp| < |bp| || (r.bp == bp && Rank(r.s.st, bp) < Rank(s.st, bp)))
  {
    hide HdrStep, HdrInv, HeaderSlot, ApplyAll, Rank;
    StepKeeps(s, bp, inHdrs);
    var r := HdrStep(s, bp, inHdrs);
    ApplySplits(ent, effs, r.effs);
    if !r.stop {
      var more := HdrRun(r.s, r.bp, inHdrs).1;
      assert effs + (r.effs + more) == effs + r.effs + more;
    }
  }

  lemma SetsOrNot(s: HdrState, ok: MhdrSt, fail: MhdrSt, tgt: seq<byte>, bp: seq<byte>, eff: Effect)
    ensures var r := MatchStep(s, ok, fail, tgt, bp);
      MatchSets(s, ok, fail, tgt, bp, eff)
      == Step(r.s, r.bp, false, if Match(tgt, s.pos, bp) == Matched then [eff] else [])
  {
  }

  lemma ApplyNothing(d: Described)
    ensures ApplyAll(d, []) == d
  {
  }

  lemma MatchIsQuiet(s: HdrState, ok: MhdrSt, fail: MhdrSt, tgt: seq<byte>, bp: seq<byte>)
    ensures var r := MatchStep(s, ok, fail, tgt, bp); !r.stop && r.effs == []
  {
  }
}
