/** One message as the program reads it: header fields, then the body, into the checksums. */
module MimeMessage {
  import opened Bytes
  import opened Entities
  import opened MimeHeader
  import opened HeaderParser
  import opened BodyFilter
  import opened Boundaries
  import opened Cref
  import opened Fuz2Machine
  import opened Fuz2
  import opened HostNames
  import opened Pipeline
  import opened DecodeSum
  import opened Multipart
  import QP = QuotedPrintable
  import B64 = Base64

  class Cks {
    const hdr: HdrParser
    const dec: Decoders
    const ent: Entity

    ghost predicate Valid()
      reads hdr, hdr.mimeBnd, dec.Parts()
    {
      hdr.ent == ent && dec.ent == ent && dec.Valid() && HdrInv(hdr.View())
    }

    ghost function WalkView(): Walk
      reads hdr, hdr.mimeBnd, dec
    {
      Walk(hdr.View(), dec.mpSt)
    }

    constructor ()
      ensures Valid() && fresh(hdr) && fresh(hdr.mimeBnd) && fresh(dec) && fresh(dec.Parts())
      ensures dec.mpSt == InText && MessageReady(hdr.View()) && dec.View().body == [] && dec.View().ent == PLAIN
      ensures dec.View().qp.st == QP.QpIdle && dec.View().b64.cnt == 0
    {
      var e := new Entity();
      ent := e;
      hdr := new HdrParser(e);
      dec := new Decoders(e);
      new;
      hide Accounted, ValidFuz, PipeOk, HdrInv, BodyState.Valid;
    }

    /** The decoders, the entity and the parser's line state at the start of an entity. */
    method DecodersInit(ghost t: Tables)
      requires t.Good() && Valid()
      modifies hdr`mimeBndMatches, hdr`bol, ent, dec.qp, dec.b64
      ensures Valid() && dec.View() == Play(t, old(dec.View()), Reset)
      ensures hdr.View() == old(hdr.View()).(matches := 0, bol := true)
    {
      hide PipeOk, HdrInv, Play, Fuz2State.View, Fuz2State.Shape, BodyState.Valid, QP.QpDecoder.View, B64.B64Decoder.View;
      InitKeeps(hdr.View());
      hdr.mimeBndMatches := 0;
      hdr.bol := true;
      dec.Restart(t);
    }

    // ---- One line against one boundary --------------------------------------------------

    /** The white space and the line end behind a boundary. */
    method MatchTrailer(t: seq<byte>, at: nat, ghost cmp: nat) returns (found: bool, waits: bool, len: nat)
      requires at < |t|
      ensures Trailer(t, at, cmp) == if found then Found(len, cmp) else if waits then Open(cmp) else Missed
    {
      var cp, length := at, |t| - at;
      while length > 0 && IsBlank(t[cp])
        invariant at <= cp <= |t| && length == |t| - cp
        invariant Trailer(t, cp, cmp) == Trailer(t, at, cmp)
        decreases length
      {
        cp := cp + 1;
        length := length - 1;
      }
      if length <= 0 {
        return false, true, 0;
      }
      found := t[cp] == LF;
      waits, len := false, if found then cp + 1 else 0;
    }

    /** The text of a boundary from where it stood, and the dashes of a closing delimiter. */
    method MatchText(t: seq<byte>, slot: Slot) returns (v: Verdict)
      requires t != [] && slot.bndLen <= |slot.bnd|
      ensures v == MatchFrom(t, TextOf(slot), slot.cmpLen)
    {
      ghost var bnd := TextOf(slot);
      var cmpLen, cp: nat := slot.cmpLen, 0;
      var j: int := slot.bndLen - cmpLen;
      if j > |t| {
        j := |t|;
      }
      if j > 0 {
        assert bnd[cmpLen..cmpLen + j] == slot.bnd[cmpLen..cmpLen + j];
        if t[..j] != slot.bnd[cmpLen..cmpLen + j] {
          return Missed;
        }
        cmpLen := cmpLen + j;
        cp := j;
        if cp >= |t| {
          return Open(cmpLen);
        }
        j := 0;
      }
      assert j == 0 ==> MatchFrom(t, bnd, slot.cmpLen) == Dashes(t, cp, cmpLen);
      if j == 0 && t[cp] == DASH {
        cmpLen := cmpLen + 1;
        cp := cp + 1;
        if cp >= |t| {
          return Open(cmpLen);
        }
        j := -1;
      }
      if j == -1 {
        assert MatchFrom(t, bnd, slot.cmpLen) == SecondDash(t, cp, cmpLen);
        if t[cp] != DASH {
          return Missed;
        }
        cmpLen := cmpLen + 1;
        cp := cp + 1;
        if cp >= |t| {
          return Open(cmpLen);
        }
      }
      var found, waits, len := MatchTrailer(t, cp, cmpLen);
      v := if found then Found(len, cmpLen) else if waits then Open(cmpLen) else Missed;
    }

    /** Every active boundary against the text, the outermost first, up to the first delimiter. */
    method TryBoundaries(t: seq<byte>) returns (hit: Hit)
      requires HdrInv(hdr.View()) && t != []
      modifies hdr`mimeBndMatches, hdr.mimeBnd
      ensures HdrInv(old(hdr.View())) && (hdr.View(), hit) == Scan(old(hdr.View()), t, 0, false)
    {
      hide HdrInv, MatchFrom;
      var open := false;
      ghost var whole := Scan(hdr.View(), t, 0, false);
      var bi := 0;
      while bi < hdr.mimeNest
        invariant 0 <= bi <= hdr.mimeNest && HdrInv(hdr.View())
        invariant Scan(hdr.View(), t, bi, open) == whole
      {
        SlotsThere(hdr.View());
        ActiveFits(hdr.View(), bi);
        if hdr.mimeBnd[bi].cmpLen != BND_MISS {
          var slot := hdr.mimeBnd[bi];
          var v := MatchText(t, slot);
          TriedKeeps(hdr.View(), bi, v);
          hdr.mimeBnd[bi] := Progressed(slot, v);
          if v.Missed? {
            hdr.mimeBndMatches := hdr.mimeBndMatches - 1;
          }
          open := open || v.Open?;
          if v.Found? {
            return Hit(bi, v.len, v.cmp != slot.bndLen);
          }
        }
        bi := bi + 1;
      }
      hit := NoHit(open);
    }

    // ---- The lines of a body ------------------------------------------------------------

    method ClearProgress()
      requires hdr.mimeBnd.Length == BND_NUM
      modifies hdr.mimeBnd
      ensures hdr.mimeBnd[..] == Cleared(old(hdr.mimeBnd[..]))
    {
      ghost var was := hdr.mimeBnd[..];
      for k := 0 to BND_NUM
        invariant forall j :: 0 <= j < k ==> hdr.mimeBnd[j] == was[j].(cmpLen := 0)
        invariant forall j :: k <= j < BND_NUM ==> hdr.mimeBnd[j] == was[j]
      {
        hdr.mimeBnd[k] := hdr.mimeBnd[k].(cmpLen := 0);
      }
      assert hdr.mimeBnd[..] == Cleared(was);
    }

    /** A header line: what it sets in the entity reaches the decoders. */
    method ParseLine(t: Tables, line: seq<byte>) returns (blank: bool, ghost effs: seq<Effect>)
      requires t.Good() && Valid()
      modifies hdr, hdr.mimeBnd, ent
      ensures HdrInv(old(hdr.View()))
      ensures Valid() && (hdr.View(), effs, blank) == ParseHdr(old(hdr.View()), line, false)
      ensures dec.View() == Play(t, old(dec.View()), Note(effs))
    {
      hide Accounted, ValidFuz, BodyRun, HdrInv, ParseHdr, ApplyAll;
      ghost var p := dec.View();
      blank, effs := hdr.ParseMimeHdr(line, false);
      PlayKeeps(t, p, Note(effs));
      assert dec.View() == p.(ent := ent.View(), fuz := p.fuz.(ct := ent.mimeCt));
    }

    /** A header line; behind the blank one everything since the delimiter is summed. */
    method TakeHeaderLine(t: Tables, sum: seq<byte>, line: seq<byte>) returns (blank: bool, ghost effs: seq<Effect>)
      requires t.Good() && Valid() && line != [] && dec.mpSt == InHeaders
      modifies hdr, hdr.mimeBnd, dec`mpSt, dec.Parts()
      ensures HdrInv(old(hdr.View()))
      ensures Valid() && (hdr.View(), effs, blank) == ParseHdr(old(hdr.View()), line, false)
      ensures dec.mpSt == if blank then InText else InHeaders
      ensures dec.View() == PlayPieces(t, old(dec.View()), Head(InHeaders, sum + line, effs, blank))
    {
      hide Accounted, ValidFuz, BodyRun, HdrInv, ParseHdr, Play, PlayPieces, PipeOk, Fuz2State.View, Fuz2State.Shape,
          BodyState.Valid, QP.QpDecoder.View, B64.B64Decoder.View;
      ghost var p := dec.View();
      blank, effs := ParseLine(t, line);
      HeadPlays(t, p, sum + line, effs, blank);
      if blank {
        dec.DecodeSum(t, sum + line);
        dec.mpSt := InText;
      }
    }

    /** Behind a line end every boundary is tried again. */
    method EndLine(line: seq<byte>)
      requires HdrInv(hdr.View()) && line != []
      modifies hdr`bol, hdr`mimeBndMatches, hdr.mimeBnd
      ensures HdrInv(old(hdr.View())) && HdrInv(hdr.View()) && hdr.View() == AfterLine(old(hdr.View()), line)
    {
      hide HdrInv, Cleared;
      AfterLineKeeps(hdr.View(), line);
      SlotsThere(hdr.View());
      if line[|line| - 1] == LF {
        hdr.bol := true;
        hdr.mimeBndMatches := hdr.mimeNest;
        ClearProgress();
      }
    }

    /** A line that is no delimiter; sum is the text before it that is not summed yet. */
    method TakeBodyLine(t: Tables, sum: seq<byte>, line: seq<byte>) returns (blank: bool, ghost effs: seq<Effect>)
      requires t.Good() && Valid() && line != []
      modifies hdr, hdr.mimeBnd, dec`mpSt, dec.Parts()
      ensures HdrInv(old(hdr.View()))
      ensures Valid() && (WalkView(), effs, blank) == TakeLine(old(WalkView()), line)
      ensures dec.View() == PlayPieces(t, old(dec.View()), Head(old(dec.mpSt), sum + line, effs, blank))
    {
      hide Accounted, ValidFuz, BodyRun, HdrInv, ParseHdr, Play, PlayPieces, PipeOk, AfterLine, Head;
      blank, effs := false, [];
      if dec.mpSt == InHeaders {
        blank, effs := TakeHeaderLine(t, sum, line);
      } else {
        NoHead(t, dec.View(), dec.mpSt, sum + line);
      }
      EndLine(line);
    }

    /** A delimiter line: the text before it is summed, then the boundary itself. */
    method PassDelimiter(t: Tables, text: seq<byte>, hit: Hit, ghost ws: seq<byte>)
      requires t.Good() && Valid() && hit.Hit? && hit.level < hdr.mimeNest
      modifies hdr, dec`mpSt, dec.Parts()
      ensures HdrInv(old(hdr.View()))
      ensures Valid() && WalkView() == AtDelimiter(old(hdr.View()), hit.level, hit.final)
      ensures dec.View()
        == PlayPieces(t, old(dec.View()), Flush(old(dec.mpSt), text) + [Line(Level(old(hdr.View()), hit.level), hit.final, ws)])
    {
      hide Accounted, ValidFuz, BodyRun, HdrInv, Play, PlayPieces, PipeOk, Level, Fuz2State.View, Fuz2State.Shape,
          BodyState.Valid, QP.QpDecoder.View, B64.B64Decoder.View;
      ghost var bnd := Level(hdr.View(), hit.level);
      DelimiterPlays(t, dec.View(), dec.mpSt, text, bnd, hit.final, ws);
      if text != [] {
        dec.DecodeSum(t, text);
      }
      SumBoundary(t, hit);
      StartEntity(t, hit);
    }

    /** The levels within the delimiter's are closed. */
    method StartEntity(t: Tables, hit: Hit)
      requires t.Good() && Valid() && hit.Hit? && hit.level < hdr.mimeNest
      modifies hdr, ent, dec.qp, dec.b64
      ensures Valid() && dec.View() == Play(t, old(dec.View()), Reset)
      ensures hdr.View() == AtDelimiter(old(hdr.View()), hit.level, hit.final).hdr
    {
      hide Accounted, ValidFuz, BodyRun, HdrInv, Play, PipeOk, Fuz2State.View, Fuz2State.Shape, BodyState.Valid;
      NestKeeps(hdr.View(), if hit.final then hit.level else hit.level + 1);
      hdr.mimeNest := if hit.final then hit.level else hit.level + 1;
      DecodersInit(t);
    }

    /** The next line is taken without being tried. */
    method LineTurn(t: Tables, bp: seq<byte>, sum0: nat, cmp0: nat) returns (sum: nat, cmp: nat)
      requires t.Good() && Valid() && WalkInv(WalkView()) && sum0 <= cmp0 < |bp|
      requires hdr.mimeNest != 0 && hdr.mimeBndMatches == 0
      modifies hdr, hdr.mimeBnd, dec`mpSt, dec.Parts()
      ensures Valid() && WalkInv(WalkView()) && WalkInv(old(WalkView())) && sum <= cmp <= |bp| && cmp0 < cmp
      ensures cmp < |bp| ==> hdr.mimeBndMatches == hdr.mimeNest != 0
      ensures Ends(t, dec.View(), WalkView(), bp[sum..cmp], bp[cmp..])
        == Ends(t, old(dec.View()), old(WalkView()), bp[sum0..cmp0], bp[cmp0..])
    {
      hide Accounted, ValidFuz, BodyRun, HdrInv, PlayPieces, PipeOk, TakeLine, Head, Ends, WalkInv, FirstLine, Fuz2State.View,
        Fuz2State.Shape, BodyState.Valid;
      ghost var p, w, text, rest := dec.View(), WalkView(), bp[sum0..cmp0], bp[cmp0..];
      EndsLine(t, p, w, text, rest);
      var line := FirstLine(bp[cmp0..]);
      var blank, _ := TakeBodyLine(t, bp[sum0..cmp0], line);
      cmp := cmp0 + |line|;
      sum := if blank then cmp else sum0;
      LineCut(bp, sum0, cmp0, line);
      assert bp[cmp..cmp] == [];
    }

    /** The next line is tried against every boundary. */
    method TestTurn(t: Tables, bp: seq<byte>, sum0: nat, cmp0: nat) returns (sum: nat, cmp: nat, waits: bool)
      requires t.Good() && Valid() && WalkInv(WalkView()) && sum0 <= cmp0 < |bp|
      requires hdr.mimeNest != 0 && hdr.mimeBndMatches != 0
      modifies hdr, hdr.mimeBnd, dec`mpSt, dec.Parts()
      ensures Valid() && WalkInv(old(WalkView())) && sum <= cmp <= |bp|
      ensures waits ==>
        (PlayPieces(t, dec.View(), Flush(dec.mpSt, bp[sum..cmp])), WalkView())
        == Ends(t, old(dec.View()), old(WalkView()), bp[sum0..cmp0], bp[cmp0..])
      ensures !waits ==> WalkInv(WalkView()) && (cmp0 < cmp || (cmp == cmp0 && hdr.mimeBndMatches == 0))
      ensures !waits ==>
        Ends(t, dec.View(), WalkView(), bp[sum..cmp], bp[cmp..])
        == Ends(t, old(dec.View()), old(WalkView()), bp[sum0..cmp0], bp[cmp0..])
    {
      hide Accounted, ValidFuz, BodyRun, HdrInv, PlayPieces, PipeOk, Ends, WalkInv, FirstLine, Fuz2State.View, Fuz2State.Shape,
        BodyState.Valid, Scan, AtDelimiter, Level, Flush, Marked;
      ghost var p, w, text, rest := dec.View(), WalkView(), bp[sum0..cmp0], bp[cmp0..];
      EndsTest(t, p, w, text, rest);
      sum, cmp, waits := sum0, cmp0, false;
      var hit := TryBoundaries(bp[cmp0..]);
      match hit {
        case NoHit(open) =>
          waits := open;
        case Hit(level, len, final) =>
          ScanLevel(w, hdr.View(), rest, hit);
          PassDelimiter(t, bp[sum0..cmp0], hit, LineOf(Level(w.hdr, level), hit, rest).ws);
          cmp := cmp0 + len;
          sum := cmp;
          assert bp[cmp..cmp] == [] && rest[len..] == bp[cmp..];
      }
    }

    /** One turn of the walk. */
    method WalkTurn(t: Tables, bp: seq<byte>, sum0: nat, cmp0: nat) returns (sum: nat, cmp: nat, waits: bool)
      requires t.Good() && Valid() && WalkInv(WalkView()) && sum0 <= cmp0 < |bp| && hdr.mimeNest != 0
      modifies hdr, hdr.mimeBnd, dec`mpSt, dec.Parts()
      ensures Valid() && WalkInv(old(WalkView())) && sum <= cmp <= |bp|
      ensures waits ==>
        (PlayPieces(t, dec.View(), Flush(dec.mpSt, bp[sum..cmp])), WalkView())
        == Ends(t, old(dec.View()), old(WalkView()), bp[sum0..cmp0], bp[cmp0..])
      ensures !waits ==>
        WalkInv(WalkView()) && (cmp0 < cmp || (cmp == cmp0 && old(hdr.mimeBndMatches) != 0 && hdr.mimeBndMatches == 0))
      ensures !waits ==>
        Ends(t, dec.View(), WalkView(), bp[sum..cmp], bp[cmp..])
        == Ends(t, old(dec.View()), old(WalkView()), bp[sum0..cmp0], bp[cmp0..])
    {
      hide Accounted, ValidFuz, BodyRun, HdrInv, PlayPieces, PipeOk, Ends, WalkInv, Fuz2State.View, Fuz2State.Shape,
        BodyState.Valid, Flush;
      sum, cmp, waits := sum0, cmp0, false;
      if hdr.mimeBndMatches == 0 {
        sum, cmp := LineTurn(t, bp, sum, cmp);
        if cmp == |bp| {
          return;
        }
      }
      sum, cmp, waits := TestTurn(t, bp, sum, cmp);
    }

    /** The text that is left is summed. */
    method FlushText(t: Tables, text: seq<byte>)
      requires t.Good() && Valid()
      modifies dec.Parts()
      ensures Valid() && dec.View() == PlayPieces(t, old(dec.View()), Flush(dec.mpSt, text))
    {
      hide Accounted, ValidFuz, BodyRun, HdrInv, PlayPieces, Play, PipeOk, Fuz2State.View, Fuz2State.Shape,
          BodyState.Valid, Flush;
      FlushPlays(t, dec.View(), dec.mpSt, text);
      if text != [] {
        dec.DecodeSum(t, text);
      }
    }

    /** The walk over a body with an open boundary. */
    method CkBodyMultipart(t: Tables, bp: seq<byte>)
      requires t.Good() && Valid() && WalkInv(WalkView())
      modifies hdr, hdr.mimeBnd, dec`mpSt, dec.Parts()
      ensures Valid() && WalkInv(old(WalkView()))
      ensures (dec.View(), WalkView()) == Ends(t, old(dec.View()), old(WalkView()), [], bp)
    {
      hide Accounted, ValidFuz, BodyRun, HdrInv, PlayPieces, Play, PipeOk, Ends, WalkInv, Fuz2State.View, Fuz2State.Shape,
        BodyState.Valid, Flush, QP.QpDecoder.View, B64.B64Decoder.View;
      ghost var whole := Ends(t, dec.View(), WalkView(), [], bp);
      var sum: nat, cmp: nat, bpLen: nat, waits := 0, 0, |bp|, false;
      assert bp[0..0] == [] && bp[0..] == bp;
      while bpLen != 0
        invariant sum <= cmp <= |bp| && Valid()
        invariant bpLen == if waits then 0 else |bp| - cmp
        invariant !waits ==> WalkInv(WalkView()) && Ends(t, dec.View(), WalkView(), bp[sum..cmp], bp[cmp..]) == whole
        invariant waits ==> (PlayPieces(t, dec.View(), Flush(dec.mpSt, bp[sum..cmp])), WalkView()) == whole
        decreases bpLen, hdr.mimeBndMatches != 0
      {
        if hdr.mimeNest == 0 {
          FlatRest(t, dec.View(), WalkView(), bp, sum, cmp);
          dec.DecodeSum(t, bp[sum..]);
          return;
        }
        sum, cmp, waits := WalkTurn(t, bp, sum, cmp);
        bpLen := if waits then 0 else |bp| - cmp;
      }
      if !waits {
        assert bp[cmp..] == [];
        EndsFlat(t, dec.View(), WalkView(), bp[sum..cmp], bp[cmp..]);
      }
      FlushText(t, bp[sum..cmp]);
    }

    /** The body of the message. */
    method CkBody(t: Tables, bp: seq<byte>)
      requires t.Good() && Valid() && WalkInv(WalkView())
      modifies hdr, hdr.mimeBnd, dec`mpSt, dec.Parts()
      ensures Valid() && WalkInv(old(WalkView()))
      ensures (dec.View(), WalkView()) == Ends(t, old(dec.View()), old(WalkView()), [], bp)
    {
      hide Accounted, ValidFuz, BodyRun, HdrInv, PlayPieces, Play, PipeOk, Ends, WalkInv, Fuz2State.View, Fuz2State.Shape,
        BodyState.Valid, Flush;
      if hdr.mimeNest == 0 {
        FlatBody(t, dec.View(), WalkView(), bp);
        dec.DecodeSum(t, bp);
      } else {
        CkBodyMultipart(t, bp);
      }
    }

    /** One header field of the message, unfolded. */
    method CkMimeHdr(t: Tables, field: seq<byte>)
      requires t.Good() && Valid() && MessageReady(hdr.View())
      modifies hdr, hdr.mimeBnd, dec`mpSt, ent
      ensures Valid() && MessageReady(hdr.View())
      ensures PipeOk(old(dec.View())) && Ready(old(hdr.View()), true)
      ensures (dec.View(), WalkView()) == TakeField(t, old(dec.View()), old(WalkView()), field)
    {
      hide Accounted, ValidFuz, BodyRun, HdrInv, Play, ApplyAll, FieldRun, BoundaryReady, PipeOk, BodyState.Valid;
      ghost var p := dec.View();
      FieldIsReady(hdr.View(), field);
      ghost var effs := hdr.ParseField(field);
      NoteIs(t, p, effs);
      if hdr.mimeNest != 0 {
        dec.mpSt := InPreamble;
      }
    }

    /** All header fields, in order. */
    method ReadFields(t: Tables, fields: seq<seq<byte>>)
      requires t.Good() && Valid() && MessageReady(hdr.View())
      modifies hdr, hdr.mimeBnd, dec`mpSt, ent
      ensures Valid() && MessageReady(hdr.View()) && WalkInv(WalkView())
      ensures PipeOk(old(dec.View())) && MessageReady(old(hdr.View()))
      ensures (dec.View(), WalkView()) == TakeFields(t, old(dec.View()), old(WalkView()), fields)
    {
      hide Accounted, ValidFuz, BodyRun, HdrInv, TakeField, PipeOk, BodyState.Valid, Fuz2State.View, MessageReady;
      ghost var whole := TakeFields(t, dec.View(), WalkView(), fields);
      assert fields[0..] == fields;
      for i := 0 to |fields|
        invariant Valid() && MessageReady(hdr.View())
        invariant TakeFields(t, dec.View(), WalkView(), fields[i..]) == whole
      {
        FieldsStep(t, dec.View(), WalkView(), fields, i);
        CkMimeHdr(t, fields[i]);
      }
      ReadyWalks(hdr.View(), dec.mpSt);
      assert fields[|fields|..] == [];
    }

    /**
      The body, the line end that closes the last word, and the sums. The host names that may
      stand in for words are those the first fuzzy checksum has left in its queue.
      */
    method ComputeBody(t: Tables, bp: seq<byte>, url: CkUrl)
      returns (bodySum: seq<byte>, bodyOk: bool, fuzSum: seq<byte>, fuzOk: bool, best: nat)
      requires t.Good() && Valid() && WalkInv(WalkView())
      requires url.Valid() && {url, url.domsBuf, url.cref, url.cref.w} !! {hdr, hdr.mimeBnd, dec} + dec.Parts()
      modifies hdr, hdr.mimeBnd, dec`mpSt, dec.Parts()
      ensures PipeOk(old(dec.View())) && WalkInv(old(WalkView())) && dec.body.flen <= 5
      ensures var p := Ends(t, old(dec.View()), old(WalkView()), [], bp).0;
        && bodySum + Held(dec.body.flen) == BodyText(p.body) && (bodyOk <==> |bodySum| >= 30)
        && FuzOk(t, p.fuz)
        && FuzSumIs(FuzRun(t, p.ent.cset, p.fuz, [LF]), HostWords(url), HostBytes(url), fuzSum, fuzOk, best)
    {
      hide Accounted, ValidFuz, HdrInv, Play, Ends, WalkInv, PipeOk, FuzRun, BodyText, EnoughText, CkUrl.Valid, FuzSumIs,
        HostBytes, HostWords, Fuz2State.View, Fuz2State.Shape, BodyState.Valid, QP.QpDecoder.View, B64.B64Decoder.View;
      CkBody(t, bp);
      bodySum, bodyOk, fuzSum, fuzOk, best := Finish(t, url);
    }

    /** The line end that closes the last word, and the sums of what was fed. */
    method Finish(t: Tables, url: CkUrl)
      returns (bodySum: seq<byte>, bodyOk: bool, fuzSum: seq<byte>, fuzOk: bool, best: nat)
      requires t.Good() && Valid() && url.Valid() && {url, url.domsBuf, url.cref, url.cref.w} !! {dec} + dec.Parts()
      modifies dec.Parts()
      ensures dec.body.flen <= 5
      ensures var p := old(dec.View());
        && bodySum + Held(dec.body.flen) == BodyText(p.body) && (bodyOk <==> |bodySum| >= 30)
        && FuzOk(t, p.fuz)
        && FuzSumIs(FuzRun(t, p.ent.cset, p.fuz, [LF]), HostWords(url), HostBytes(url), fuzSum, fuzOk, best)
    {
      hide Accounted, ValidFuz, BodyRun, HdrInv, PlayPieces, Play, FuzRun, BodyText, EnoughText, CkUrl.Valid,
        HostBytes, HostWords, QP.QpDecoder.View, B64.B64Decoder.View;
      KeepsRequires(dec.View().fuz);
      dec.fz2.Fuz2(t, [LF]);
      bodySum, bodyOk := dec.body.Final();
      fuzSum, fuzOk, best := dec.fz2.Final(url);
    }

    /** The boundary is summed, and the part behind it begins. */
    method SumBoundary(t: Tables, hit: Hit)
      requires t.Good() && Valid() && hit.Hit? && hit.level < hdr.mimeNest
      modifies dec`mpSt, dec.Parts()
      ensures Valid() && dec.mpSt == if hit.final then InEpilogue else InHeaders
      ensures HdrInv(hdr.View())
      ensures var p1 := Play(t, old(dec.View()), Sum(InBoundary, Level(hdr.View(), hit.level)));
        dec.View() == if hit.final then Play(t, p1, Sum(InBoundary, CLOSING)) else p1
    {
      hide Accounted, ValidFuz, BodyRun, HdrInv, Play, PipeOk, Fuz2State.View, Fuz2State.Shape, BodyState.Valid,
          QP.QpDecoder.View, B64.B64Decoder.View;
      ActiveFits(hdr.View(), hit.level);
      dec.mpSt := InBoundary;
      var slot := hdr.mimeBnd[hit.level];
      dec.DecodeSum(t, slot.bnd[..slot.bndLen]);
      if hit.final {
        dec.DecodeSum(t, CLOSING);
        dec.mpSt := InEpilogue;
      } else {
        dec.mpSt := InHeaders;
      }
    }
  }

  /** The second fuzzy checksum: the first language with the most words, if they are enough. */
  ghost predicate FuzSumIs(s: FuzState, hostWords: nat, hostBytes: seq<byte>, sum: seq<byte>, ok: bool, best: nat) {
    && best < |s.lang|
    && (forall i :: 0 <= i < |s.lang| ==> s.lang[i].wtotal <= s.lang[best].wtotal)
    && (forall i :: 0 <= i < best ==> s.lang[i].wtotal < s.lang[best].wtotal)
    && var l := s.lang[best];
       && (ok <==> EnoughText(l, s.xsummed, s.btotal)
                   && (l.wtotal >= MIN_WORDS || l.wtotal + hostWords >= MIN_WORDS))
       && (ok ==> sum == l.md5 + if l.wtotal >= MIN_WORDS then [] else hostBytes)
  }

  lemma FieldsStep(t: Tables, p: PipeState, w: Walk, fields: seq<seq<byte>>, i: nat)
    requires t.Good() && PipeOk(p) && MessageReady(w.hdr) && i < |fields|
    ensures Ready(w.hdr, true)
    ensures var (p1, w1) := TakeField(t, p, w, fields[i]);
      MessageReady(w1.hdr) && TakeFields(t, p, w, fields[i..]) == TakeFields(t, p1, w1, fields[i + 1..])
  {
    hide HdrInv, PipeOk, FieldRun, Play, BoundaryReady;
    FieldIsReady(w.hdr, fields[i]);
    assert fields[i..][1..] == fields[i + 1..];
  }

  lemma HeadPlays(t: Tables, p: PipeState, sum: seq<byte>, effs: seq<Effect>, blank: bool)
    requires t.Good() && PipeOk(p)
    ensures var p1 := Play(t, p, Note(effs));
      PlayPieces(t, p, Head(InHeaders, sum, effs, blank)) == if blank then Play(t, p1, Sum(InHeaders, sum)) else p1
  {
    hide Play, PlayPieces, PipeOk;
    PlayFields(t, p, effs);
    PiecesSplit(t, p, [Fields(effs)], if blank then [Slice(InHeaders, sum)] else []);
    PlaySlice(t, Play(t, p, Note(effs)), InHeaders, sum);
  }

  /** The text before a delimiter, the boundary, and a fresh start. */
  lemma DelimiterPlays(t: Tables, p: PipeState, mp: MpSt, text: seq<byte>, bnd: seq<byte>, final: bool, ws: seq<byte>)
    requires t.Good() && PipeOk(p)
    ensures var p0 := if text != [] then Play(t, p, Sum(mp, text)) else p;
      var p1 := Play(t, p0, Sum(InBoundary, bnd));
      PlayPieces(t, p, Flush(mp, text) + [Line(bnd, final, ws)])
      == Play(t, if final then Play(t, p1, Sum(InBoundary, CLOSING)) else p1, Reset)
  {
    hide Play, PlayPieces, PipeOk;
    PiecesSplit(t, p, Flush(mp, text), [Line(bnd, final, ws)]);
    PlaySlice(t, p, mp, text);
    PlayLine(t, if text != [] then Play(t, p, Sum(mp, text)) else p, bnd, final, ws);
  }

  lemma LineCut(bp: seq<byte>, sum: nat, cmp: nat, line: seq<byte>)
    requires sum <= cmp <= |bp| && line <= bp[cmp..]
    ensures bp[sum..cmp] + line == bp[sum..cmp + |line|] && bp[cmp..][|line|..] == bp[cmp + |line|..]
  {
  }

  /** With no boundary open the rest is one slice. */
  lemma FlatRest(t: Tables, p: PipeState, w: Walk, bp: seq<byte>, sum: nat, cmp: nat)
    requires t.Good() && PipeOk(p) && WalkInv(w) && sum <= cmp < |bp| && w.hdr.nest == 0
    ensures Ends(t, p, w, bp[sum..cmp], bp[cmp..]) == (Play(t, p, Sum(w.mp, bp[sum..])), w)
  {
    hide PlayPieces, PipeOk, Ends, WalkInv, Play;
    assert bp[sum..cmp] + bp[cmp..] == bp[sum..];
    EndsFlat(t, p, w, bp[sum..cmp], bp[cmp..]);
    PlaySlice(t, p, w.mp, bp[sum..]);
  }

  lemma FlatBody(t: Tables, p: PipeState, w: Walk, bp: seq<byte>)
    requires t.Good() && PipeOk(p) && WalkInv(w) && w.hdr.nest == 0
    ensures Ends(t, p, w, [], bp) == (Play(t, p, Sum(w.mp, bp)), w)
  {
    hide PlayPieces, PipeOk, Ends, WalkInv, Inside;
    EndsFlat(t, p, w, [], bp);
    assert [] + bp == bp;
    PlaySlice(t, p, w.mp, bp);
    if bp == [] {
      InsideNothing(t, p);
    }
  }

  lemma NoteIs(t: Tables, p: PipeState, effs: seq<Effect>)
    requires t.Good() && PipeOk(p)
    ensures PipeOk(Play(t, p, Note(effs)))
    ensures var ent := ApplyAll(p.ent, effs);
      Play(t, p, Note(effs)) == p.(ent := ent, fuz := p.fuz.(ct := ent.ct))
  {
    hide PipeOk;
  }

  lemma ScanLevel(w: Walk, h: HdrState, t: seq<byte>, hit: Hit)
    requires WalkInv(w) && HdrInv(w.hdr) && t != [] && (h, hit) == Scan(w.hdr, t, 0, false) && hit.Hit?
    requires w.hdr.nest != 0 && w.hdr.matches != 0
    ensures HdrInv(h) && hit.level < h.nest && Level(h, hit.level) == Level(w.hdr, hit.level)
  {
    hide HdrInv, Scan, Level, Live, Answers, Tallied;
    var hdr := w.hdr;
    SlotsThere(hdr);
    AllLive(hdr.slots, hdr.nest);
    ScanKeeps(hdr, t, 0, false);
  }

  lemma FlushPlays(t: Tables, p: PipeState, mp: MpSt, text: seq<byte>)
    requires t.Good() && PipeOk(p)
    ensures PlayPieces(t, p, Flush(mp, text)) == if text == [] then p else Play(t, p, Sum(mp, text))
  {
    hide Play, PlayPieces, PipeOk;
    PlaySlice(t, p, mp, text);
  }

  lemma NoHead(t: Tables, p: PipeState, mp: MpSt, sum: seq<byte>)
    requires t.Good() && PipeOk(p) && mp != InHeaders
    ensures PlayPieces(t, p, Head(mp, sum, [], false)) == p
  {
    hide Play, PlayPieces, PipeOk;
    PlaySlice(t, p, mp, sum);
    assert Head(mp, sum, [], false) == [];
  }

  lemma NestKeeps(hdr: HdrState, nest: nat)
    requires HdrInv(hdr) && nest <= hdr.nest
    ensures HdrInv(hdr.(nest := nest))
  {
  }

  lemma InitKeeps(hdr: HdrState)
    requires HdrInv(hdr)
    ensures HdrInv(hdr.(matches := 0, bol := true))
  {
  }

  lemma ActiveFits(hdr: HdrState, k: nat)
    requires HdrInv(hdr) && k < hdr.nest
    ensures k < |hdr.slots| && hdr.slots[k].bndLen <= |hdr.slots[k].bnd| && TextOf(hdr.slots[k]) == Level(hdr, k)
    ensures |Level(hdr, k)| == hdr.slots[k].bndLen
  {
  }
}
