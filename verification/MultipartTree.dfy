/** Whole bodies through the walk: entities within entities, as deep as boundaries can be open. */
module MultipartTree {
  import opened Bytes
  import opened Entities
  import opened MimeHeader
  import opened MimeSteps
  import opened MimeFields
  import opened Boundaries
  import opened Pipeline
  import opened Multipart
  import opened HeaderLines
  import opened MultipartParts

  /** An entity: header lines, a blank line and a body; or header lines alone. */
  datatype Part = Part(hdrs: seq<seq<byte>>, blank: seq<byte>, body: Body) | Bare(hdrs: seq<seq<byte>>)

  /**
    A body: lines of text, or a multipart body with its preamble, the white space of its first
    delimiter, its parts and its epilogue. The content is what the text is an encoding of.
    */
  datatype Body =
    | Leaf(lines: seq<seq<byte>>, content: seq<byte>)
    | Mixed(bnd: seq<byte>, pre: seq<seq<byte>>, content: seq<byte>, ws: seq<byte>, parts: Parts, epilogue: seq<seq<byte>>)

  /**
    Entities, each with the delimiter behind it. The last one is closed, or is cut off where an
    outer boundary or the text ends it.
    */
  datatype Parts =
    | Closing(part: Part, ws: seq<byte>)
    | CutOff(part: Part)
    | Another(part: Part, ws: seq<byte>, rest: Parts)

  predicate Closes(ps: Parts) {
    match ps
    case Closing(_, _) => true
    case CutOff(_) => false
    case Another(_, _, rest) => Closes(rest)
  }

  function PartBytes(p: Part): seq<byte>
    decreases p
  {
    match p
    case Part(hdrs, blank, body) => Concat(hdrs) + (blank + BodyBytes(body))
    case Bare(hdrs) => Concat(hdrs)
  }

  function BodyBytes(b: Body): seq<byte>
    decreases b
  {
    match b
    case Leaf(lines, _) => Concat(lines)
    case Mixed(bnd, pre, _, ws, parts, epilogue) =>
      Concat(pre) + (Delimiter(bnd, false, ws) + (PartsBytes(bnd, parts) + Concat(epilogue)))
  }

  function PartsBytes(bnd: seq<byte>, ps: Parts): seq<byte>
    decreases ps
  {
    match ps
    case Closing(p, ws) => PartBytes(p) + Delimiter(bnd, true, ws)
    case CutOff(p) => PartBytes(p)
    case Another(p, ws, rest) => PartBytes(p) + (Delimiter(bnd, false, ws) + PartsBytes(bnd, rest))
  }

  /** The head of an entity, as it stands. */
  function HeadOf(p: Part): seq<byte> { Concat(p.hdrs) + if p.Part? then p.blank else [] }

  /** What an entity's header lines say, with this many boundaries open. */
  function Says(nest: nat, p: Part): seq<seq<Effect>> {
    if nest <= BND_NUM then Effects(Start(nest), p.hdrs) else []
  }

  function PartPieces(nest: nat, p: Part): seq<Piece>
    decreases p
  {
    HeadPieces(Says(nest, p))
    + match p
      case Part(_, _, body) => [Fields([]), Slice(InHeaders, HeadOf(p))] + BodyPieces(nest, body)
      case Bare(hdrs) => Flush(InHeaders, Concat(hdrs))
  }

  function BodyPieces(nest: nat, b: Body): seq<Piece>
    decreases b
  {
    match b
    case Leaf(lines, _) => Flush(InText, Concat(lines))
    case Mixed(bnd, pre, _, ws, parts, epilogue) =>
      Flush(InText, Concat(pre))
      + ([Line(bnd, false, ws)] + (PartsPieces(nest + 1, bnd, parts) + Flush(InEpilogue, Concat(epilogue))))
  }

  function PartsPieces(nest: nat, bnd: seq<byte>, ps: Parts): seq<Piece>
    decreases ps
  {
    match ps
    case Closing(p, ws) => PartPieces(nest, p) + [Line(bnd, true, ws)]
    case CutOff(p) => PartPieces(nest, p)
    case Another(p, ws, rest) => PartPieces(nest, p) + ([Line(bnd, false, ws)] + PartsPieces(nest, bnd, rest))
  }

  ghost predicate PlainLines(bnds: seq<seq<byte>>, ls: seq<seq<byte>>) {
    forall k :: 0 <= k < |ls| ==> IsLine(ls[k]) && NoneOf(bnds, ls[k])
  }

  /**
    An entity with these boundaries open: its header does not start with a continuation. One
    without a line is not ended by what follows it, and so is the last thing in the text.
    */
  ghost predicate GoodPart(bnds: seq<seq<byte>>, p: Part, last: bool)
    decreases p
  {
    && |bnds| <= BND_NUM
    && (p.hdrs != [] ==> !Continues(p.hdrs[0])) && GoodLines(bnds, Start(|bnds|), p.hdrs)
    && match p
       case Part(hdrs, blank, body) =>
         IsBlankLine(blank) && GoodBody(bnds, OpenBehind(bnds, Behind(Start(|bnds|), hdrs)), body, last)
       case Bare(hdrs) => hdrs != [] || last
  }

  /**
    No line of text is a delimiter of an open boundary. A multipart body uses the outermost boundary
    that its header opened. When it is closed it has an epilogue, of which the first line is not
    looked at, or it is the last thing in the text.
    */
  ghost predicate GoodBody(bnds: seq<seq<byte>>, open: seq<seq<byte>>, b: Body, last: bool)
    decreases b
  {
    match b
    case Leaf(lines, _) => bnds <= open && PlainLines(open, lines)
    case Mixed(bnd, pre, _, ws, parts, epilogue) =>
      && bnds + [bnd] <= open && PlainLines(open, pre)
      && AllBlank(ws) && NoneOf(bnds, Delimiter(bnd, false, ws))
      && GoodParts(bnds + [bnd], parts, last)
      && (if Closes(parts) && epilogue != [] then IsLine(epilogue[0]) && PlainLines(bnds, epilogue[1..])
          else epilogue == [] && (Closes(parts) ==> last))
  }

  /** No delimiter of theirs is one of an outer boundary. */
  ghost predicate GoodParts(bnds: seq<seq<byte>>, ps: Parts, last: bool)
    decreases ps
  {
    && bnds != [] && GoodPart(bnds, ps.part, last && ps.CutOff?)
    && (!ps.CutOff? ==>
          && AllBlank(ps.ws)
          && NoneOf(bnds[..|bnds| - 1], Delimiter(bnds[|bnds| - 1], ps.Closing?, ps.ws)))
    && (ps.Another? ==> GoodParts(bnds, ps.rest, last))
  }

  /** Right behind a delimiter of the innermost boundary. */
  ghost predicate AtPart(w: Walk, bnds: seq<seq<byte>>) {
    WalkInv(w) && w.hdr.matches == 0 && w.hdr.bol && w.mp == InHeaders && bnds != [] && Stack(w.hdr) == bnds
  }

  /** Right behind a closing delimiter: these boundaries are still open. */
  ghost predicate AtEpilogue(w: Walk, bnds: seq<seq<byte>>) {
    WalkInv(w) && w.hdr.matches == 0 && w.hdr.bol && w.mp == InEpilogue && Stack(w.hdr) == bnds
  }

  /** Lines are tried, and these boundaries are open. */
  ghost predicate Reading(w: Walk, mp: MpSt, bnds: seq<seq<byte>>) {
    Testing(w) && HdrInv(w.hdr) && w.mp == mp && Stack(w.hdr) == bnds
  }

  /** The header of an entity, up to and with its blank line. */
  lemma HeadIsRead(w: Walk, bnds: seq<seq<byte>>, p: Part, last: bool, rest: seq<byte>) returns (w1: Walk)
    requires AtPart(w, bnds) && GoodPart(bnds, p, last) && p.Part?
    ensures Reading(w1, InText, OpenBehind(bnds, Behind(Start(|bnds|), p.hdrs)))
    ensures Run(w, [], Concat(p.hdrs) + (p.blank + rest))
      == Then(HeadPieces(Says(|bnds|, p)), Then([Fields([]), Slice(InHeaders, HeadOf(p))], Run(w1, [], rest)))
  {
    hide HdrInv, Run, IsPlain, Level, IsDelimiter, Effects, IsHeaderLine, NoneOf, GoodBody, ReadAlike, Start, Stack;
    Invariant(w);
    StartReads(w.hdr, bnds, p.hdrs);
    var wa := HeaderTurns(w, bnds, Start(|bnds|), [], p.hdrs, p.blank + rest);
    Invariant(wa);
    assert [] + Concat(p.hdrs) == Concat(p.hdrs);
    BlankTurn(wa, Concat(p.hdrs), p.blank, rest);
    SettledKeeps(wa);
    w1 := Walk(Settled(wa.hdr), InText);
    SettledInv(w1);
    SettledStack(wa.hdr);
  }

  /** Header lines with no blank line behind them. */
  lemma BareIsRead(w: Walk, bnds: seq<seq<byte>>, p: Part, last: bool, rest: seq<byte>)
      returns (w1: Walk, open: seq<seq<byte>>)
    requires AtPart(w, bnds) && GoodPart(bnds, p, last) && p.Bare?
    ensures w1.mp == InHeaders && WalkInv(w1) && bnds <= open && (!last ==> Reading(w1, InHeaders, open))
    ensures Run(w, [], Concat(p.hdrs) + rest) == Then(HeadPieces(Says(|bnds|, p)), Run(w1, Concat(p.hdrs), rest))
  {
    hide HdrInv, Run, Level, Effects, IsHeaderLine, NoneOf, ReadAlike, Start, Stack, WalkInv;
    AtInv(w, bnds);
    Invariant(w);
    StartReads(w.hdr, bnds, p.hdrs);
    w1 := HeaderTurns(w, bnds, Start(|bnds|), [], p.hdrs, rest);
    Invariant(w1);
    assert [] + Concat(p.hdrs) == Concat(p.hdrs);
    open := OpenBehind(bnds, Behind(Start(|bnds|), p.hdrs));
  }

  lemma SettledStack(hdr: HdrState)
    requires HdrInv(hdr)
    ensures HdrInv(Settled(hdr)) && Stack(Settled(hdr)) == Stack(hdr)
  {
    hide Level;
    ClearedText(hdr);
  }

  lemma StartReads(hdr: HdrState, bnds: seq<seq<byte>>, ls: seq<seq<byte>>)
    requires HdrInv(hdr) && hdr.bol && Stack(hdr) == bnds && (ls != [] ==> !Continues(ls[0]))
    ensures |bnds| <= BND_NUM && (ls != [] ==> ReadAlike(hdr, Start(|bnds|), |bnds|, ls[0]))
    ensures OpenBehind(bnds, Start(|bnds|)) == bnds
  {
    hide Level;
    assert Stack(Start(|bnds|))[|bnds|..] == [];
  }

  /** Lines of text, tried one after another. */
  lemma LinesAreRead(w: Walk, mp: MpSt, bnds: seq<seq<byte>>, sum: seq<byte>, ls: seq<seq<byte>>, rest: seq<byte>)
      returns (w1: Walk)
    requires Reading(w, mp, bnds) && mp != InHeaders && PlainLines(bnds, ls)
    ensures Reading(w1, mp, bnds)
    ensures Run(w, sum, Concat(ls) + rest) == Run(w1, sum + Concat(ls), rest)
  {
    hide HdrInv, Run, Testing, Level, NoneOf, Stack;
    forall k | 0 <= k < |ls| ensures IsPlain(w.hdr, ls[k]) {
      OpenedPlain(w.hdr, bnds, ls[k]);
    }
    TextLines(w, sum, ls, rest);
    w1 := if ls == [] then w else w.(hdr := Settled(w.hdr));
    SettledStack(w.hdr);
  }

  /** A delimiter of one of the open boundaries: those inside it are given up. */
  lemma LineIsRead(w: Walk, mp: MpSt, open: seq<seq<byte>>, bnds: seq<seq<byte>>, sum: seq<byte>, final: bool, ws: seq<byte>,
      rest: seq<byte>) returns (w1: Walk)
    requires Reading(w, mp, open) && bnds <= open && bnds != [] && AllBlank(ws)
    requires NoneOf(bnds[..|bnds| - 1], Delimiter(bnds[|bnds| - 1], final, ws))
    ensures if final then AtEpilogue(w1, bnds[..|bnds| - 1]) else AtPart(w1, bnds)
    ensures var bnd := bnds[|bnds| - 1];
      Run(w, sum, Delimiter(bnd, final, ws) + rest) == Then(Flush(mp, sum) + [Line(bnd, final, ws)], Run(w1, [], rest))
  {
    hide HdrInv, Run, Level, IsDelimiter, Delimiter, Scan, WalkInv, Flush;
    var i := |bnds| - 1;
    assert bnds[i] == Stack(w.hdr)[i] == Level(w.hdr, i);
    var line := Delimiter(bnds[i], final, ws);
    forall j, f | 0 <= j < i ensures !IsDelimiter(line, Level(w.hdr, j), f) {
      assert bnds[..i][j] == Stack(w.hdr)[j] == Level(w.hdr, j);
    }
    DelimiterTurn(w, sum, i, final, ws, rest);
    LineThere(bnds[i], final, ws, rest);
    w1 := AtDelimiter(Scan(w.hdr, line + rest, 0, false).0, i, final);
    StackBelow(w.hdr, w1.hdr, if final then i else i + 1);
    assert open[..i] == bnds[..i] && open[..i + 1] == bnds;
  }

  lemma StackBelow(a: HdrState, b: HdrState, n: nat)
    requires HdrInv(a) && HdrInv(b) && n == b.nest <= a.nest && forall j :: 0 <= j < n ==> Level(b, j) == Level(a, j)
    ensures Stack(b) == Stack(a)[..n]
  {
    hide HdrInv, Level;
  }

  /**
    Behind a closing delimiter the next line joins the epilogue, whatever it is: a delimiter of an
    outer boundary that follows at once is missed.
    */
  lemma ClosingHidesNext(w: Walk, bnds: seq<seq<byte>>, l: seq<byte>, rest: seq<byte>) returns (w1: Walk)
    requires AtEpilogue(w, bnds) && bnds != [] && IsLine(l)
    ensures Reading(w1, InEpilogue, bnds) && Run(w, [], l + rest) == Run(w1, l, rest)
  {
    hide HdrInv, Run, Level, FirstLine;
    Invariant(w);
    LineComes(l, rest);
    RunLine(w, [], l + rest);
    SettledKeeps(w);
    w1 := w.(hdr := Settled(w.hdr));
    SettledInv(w1);
    SettledStack(w.hdr);
    Invariant(w1);
    assert [] + l == l;
    NothingFirst(Run(w1, l, rest));
  }

  lemma LineThere(bnd: seq<byte>, final: bool, ws: seq<byte>, rest: seq<byte>)
    ensures Delimiter(bnd, final, ws) + rest != []
  {
  }

  /** What is left to sum is text of a kind that these boundaries end, unless the text ends it. */
  ghost predicate Ending(w: Walk, bnds: seq<seq<byte>>, open: seq<seq<byte>>, last: bool) {
    WalkInv(w) && bnds <= open && (!last ==> Reading(w, w.mp, open))
  }

  /** A whole body behind its head: what is still to be summed when its end is reached. */
  lemma {:induction false} BodyIsReadOn(w: Walk, bnds: seq<seq<byte>>, open: seq<seq<byte>>, b: Body, last: bool, rest: seq<byte>)
      returns (w1: Walk, inner: seq<seq<byte>>, front: seq<Piece>, sum: seq<byte>)
    requires Reading(w, InText, open) && bnds != [] && GoodBody(bnds, open, b, last)
    ensures Ending(w1, bnds, inner, last)
    ensures Run(w, [], BodyBytes(b) + rest) == Then(front, Run(w1, sum, rest))
    ensures front + Flush(w1.mp, sum) == BodyPieces(|bnds|, b)
    decreases b
  {
    hide HdrInv, Run, WalkInv, Reading, Delimiter, Flush, NoneOf, GoodPart, PartBytes, PartPieces, AtEpilogue, AtPart,
      PartsBytes, PartsPieces, GoodParts;
    match b {
      case Leaf(lines, _) =>
        w1 := LinesAreRead(w, InText, open, [], lines, rest);
        ReadingMode(w1, InText, open);
        inner, front, sum := open, [], Concat(lines);
        assert [] + sum == sum && front + Flush(InText, sum) == Flush(InText, sum);
        NothingFirst(Run(w1, sum, rest));
      case Mixed(bnd, pre, _, ws, parts, epilogue) =>
        var tail, all := Concat(epilogue) + rest, bnds + [bnd];
        MixedBytes(b, rest);
        var w2 := LinesAreRead(w, InText, open, [], pre, Delimiter(bnd, false, ws) + (PartsBytes(bnd, parts) + tail));
        assert [] + Concat(pre) == Concat(pre) && all[..|all| - 1] == bnds && all[|all| - 1] == bnd;
        var w3 := LineIsRead(w2, InText, open, all, Concat(pre), false, ws, PartsBytes(bnd, parts) + tail);
        AtInv(w3, all);
        var opening := Flush(InText, Concat(pre)) + [Line(bnd, false, ws)];
        var w4, in4, front4, sum4 := PartsAreRead(w3, all, parts, last, tail);
        TwoThen(opening, front4, Run(w4, sum4, tail));
        front := opening + front4;
        if epilogue == [] {
          assert Concat(epilogue) == [] && [] + rest == rest;
          w1, inner, sum := w4, if Closes(parts) then bnds else in4, sum4;
          EndingBelow(w4, bnds, bnd, in4, parts, last);
          CutPieces(Flush(InText, Concat(pre)), [Line(bnd, false, ws)], front4, Flush(w4.mp, sum4));
          NothingLeft(InEpilogue);
        } else {
          w1 := EpilogueIsReadOn(w4, bnds, epilogue, rest);
          ReadingMode(w1, InEpilogue, bnds);
          inner, sum := bnds, Concat(epilogue);
          NothingLeft(w4.mp);
          assert front4 + [] == front4;
          MixedPieces(Flush(InText, Concat(pre)), [Line(bnd, false, ws)], front4, Flush(InEpilogue, sum));
        }
    }
  }

  lemma EndingBelow(w: Walk, bnds: seq<seq<byte>>, bnd: seq<byte>, inner: seq<seq<byte>>, ps: Parts, last: bool)
    requires Closes(ps) ==> last
    requires if Closes(ps) then AtEpilogue(w, bnds) else Ending(w, bnds + [bnd], inner, last)
    ensures Ending(w, bnds, if Closes(ps) then bnds else inner, last)
  {
    hide WalkInv, Reading;
    if Closes(ps) {
      AtInv(w, bnds);
    } else {
      assert bnds <= bnds + [bnd];
    }
  }

  lemma CutPieces(a: seq<Piece>, b: seq<Piece>, c: seq<Piece>, d: seq<Piece>)
    ensures a + b + c + d == a + (b + (c + d + []))
  {
    assert c + d + [] == c + d;
  }

  lemma NothingLeft(mp: MpSt)
    ensures Flush(mp, []) == []
  {
  }

  /** The epilogue of a nested body. */
  lemma EpilogueIsReadOn(w: Walk, bnds: seq<seq<byte>>, epilogue: seq<seq<byte>>, rest: seq<byte>) returns (w1: Walk)
    requires AtEpilogue(w, bnds) && bnds != []
    requires epilogue != [] && IsLine(epilogue[0]) && PlainLines(bnds, epilogue[1..])
    ensures Reading(w1, InEpilogue, bnds) && WalkInv(w) && Run(w, [], Concat(epilogue) + rest) == Run(w1, Concat(epilogue), rest)
  {
    hide HdrInv, Run, WalkInv, Reading, NoneOf, AtEpilogue, PlainLines;
    AtInv(w, bnds);
    assert Concat(epilogue) + rest == epilogue[0] + (Concat(epilogue[1..]) + rest);
    var w5 := ClosingHidesNext(w, bnds, epilogue[0], Concat(epilogue[1..]) + rest);
    w1 := LinesAreRead(w5, InEpilogue, bnds, epilogue[0], epilogue[1..], rest);
  }

  lemma ReadingMode(w: Walk, mp: MpSt, bnds: seq<seq<byte>>)
    requires Reading(w, mp, bnds)
    ensures w.mp == mp && WalkInv(w)
  {
  }

  lemma MixedPieces(a: seq<Piece>, b: seq<Piece>, c: seq<Piece>, d: seq<Piece>)
    ensures a + b + c + d == a + (b + (c + d))
  {
  }

  lemma MixedBytes(b: Body, rest: seq<byte>)
    requires b.Mixed?
    ensures BodyBytes(b) + rest
      == Concat(b.pre) + (Delimiter(b.bnd, false, b.ws) + (PartsBytes(b.bnd, b.parts) + (Concat(b.epilogue) + rest)))
  {
    hide Delimiter, Concat, PartsBytes;
    var x, y, z, e := Concat(b.pre), Delimiter(b.bnd, false, b.ws), PartsBytes(b.bnd, b.parts), Concat(b.epilogue);
    assert x + (y + (z + e)) + rest == x + (y + (z + (e + rest)));
  }

  /** An entity: what is still to be summed when its end is reached. */
  lemma {:induction false} PartIsReadOn(w: Walk, bnds: seq<seq<byte>>, p: Part, last: bool, rest: seq<byte>)
      returns (w1: Walk, inner: seq<seq<byte>>, front: seq<Piece>, sum: seq<byte>)
    requires AtPart(w, bnds) && GoodPart(bnds, p, last)
    ensures WalkInv(w) && Ending(w1, bnds, inner, last)
    ensures Run(w, [], PartBytes(p) + rest) == Then(front, Run(w1, sum, rest))
    ensures front + Flush(w1.mp, sum) == PartPieces(|bnds|, p)
    decreases p, 0
  {
    hide HdrInv, Run, WalkInv, Reading, Flush, NoneOf, GoodBody, BodyBytes, BodyPieces, GoodLines, AtPart;
    AtInv(w, bnds);
    PartsThere(w, bnds);
    var heads := HeadPieces(Says(|bnds|, p));
    match p {
      case Part(hdrs, blank, body) =>
        var line := [Fields([]), Slice(InHeaders, HeadOf(p))];
        assert PartBytes(p) + rest == Concat(hdrs) + (blank + (BodyBytes(body) + rest));
        var wa := HeadIsRead(w, bnds, p, last, BodyBytes(body) + rest);
        var open := OpenBehind(bnds, Behind(Start(|bnds|), hdrs));
        ReadingMode(wa, InText, open);
        var on: seq<Piece>;
        w1, inner, on, sum := BodyIsReadOn(wa, bnds, open, body, last, rest);
        front := heads + line + on;
        TwoThen(line, on, Run(w1, sum, rest));
        TwoThen(heads, line + on, Run(w1, sum, rest));
        PartPiecesAre(heads, line, on, Flush(w1.mp, sum));
      case Bare(hdrs) =>
        w1, inner := BareIsRead(w, bnds, p, last, rest);
        front, sum := heads, Concat(hdrs);
    }
  }

  /** An entity and the delimiter behind it. */
  lemma PartIsRead(w: Walk, bnds: seq<seq<byte>>, p: Part, final: bool, ws: seq<byte>, rest: seq<byte>)
      returns (w1: Walk)
    requires AtPart(w, bnds) && GoodPart(bnds, p, false) && AllBlank(ws)
    requires NoneOf(bnds[..|bnds| - 1], Delimiter(bnds[|bnds| - 1], final, ws))
    ensures if final then AtEpilogue(w1, bnds[..|bnds| - 1]) else AtPart(w1, bnds)
    ensures var bnd := bnds[|bnds| - 1];
      Run(w, [], PartBytes(p) + (Delimiter(bnd, final, ws) + rest))
      == Then(PartPieces(|bnds|, p) + [Line(bnd, final, ws)], Run(w1, [], rest))
    decreases p, 1
  {
    hide HdrInv, Run, WalkInv, Reading, Delimiter, Flush, NoneOf, GoodPart, PartBytes, PartPieces, AtEpilogue, AtPart;
    PartsThere(w, bnds);
    var bnd := bnds[|bnds| - 1];
    var line: seq<Piece>, tail := [Line(bnd, final, ws)], Delimiter(bnd, final, ws) + rest;
    var wb, open, front, sum := PartIsReadOn(w, bnds, p, false, tail);
    w1 := LineIsRead(wb, wb.mp, open, bnds, sum, final, ws, rest);
    AtInv(w1, if final then bnds[..|bnds| - 1] else bnds);
    TwoThen(front, Flush(wb.mp, sum) + line, Run(w1, [], rest));
    Assoc(front, Flush(wb.mp, sum), line);
  }

  lemma AtInv(w: Walk, bnds: seq<seq<byte>>)
    requires AtPart(w, bnds) || AtEpilogue(w, bnds)
    ensures WalkInv(w)
  {
  }

  lemma PartsThere(w: Walk, bnds: seq<seq<byte>>)
    requires AtPart(w, bnds)
    ensures bnds != []
  {
  }

  lemma PartPiecesAre(a: seq<Piece>, b: seq<Piece>, c: seq<Piece>, d: seq<Piece>)
    ensures a + (b + (c + d)) == a + b + c + d && a + (b + c) == a + b + c
  {
  }

  lemma {:induction false} PartsAreRead(w: Walk, bnds: seq<seq<byte>>, ps: Parts, last: bool, rest: seq<byte>)
      returns (w1: Walk, inner: seq<seq<byte>>, front: seq<Piece>, sum: seq<byte>)
    requires AtPart(w, bnds) && GoodParts(bnds, ps, last)
    ensures WalkInv(w) && WalkInv(w1)
    ensures if Closes(ps) then AtEpilogue(w1, bnds[..|bnds| - 1]) && sum == [] else Ending(w1, bnds, inner, last)
    ensures Run(w, [], PartsBytes(bnds[|bnds| - 1], ps) + rest) == Then(front, Run(w1, sum, rest))
    ensures front + Flush(w1.mp, sum) == PartsPieces(|bnds|, bnds[|bnds| - 1], ps)
    decreases ps
  {
    hide HdrInv, Run, WalkInv, Delimiter, NoneOf, GoodPart, PartBytes, PartPieces, AtEpilogue, AtPart, Reading, Flush;
    AtInv(w, bnds);
    var bnd := bnds[|bnds| - 1];
    match ps {
      case Closing(p, ws) =>
        Assoc(PartBytes(p), Delimiter(bnd, true, ws), rest);
        w1 := PartIsRead(w, bnds, p, true, ws, rest);
        AtInv(w1, bnds[..|bnds| - 1]);
        inner, front, sum := bnds, PartsPieces(|bnds|, bnd, ps), [];
        NothingLeft(w1.mp);
        assert front + [] == front;
      case CutOff(p) =>
        w1, inner, front, sum := PartIsReadOn(w, bnds, p, last, rest);
      case Another(p, ws, more) =>
        var tail := PartsBytes(bnd, more) + rest;
        assert PartsBytes(bnd, ps) + rest == PartBytes(p) + (Delimiter(bnd, false, ws) + tail);
        var wa := PartIsRead(w, bnds, p, false, ws, tail);
        var on: seq<Piece>;
        w1, inner, on, sum := PartsAreRead(wa, bnds, more, last, rest);
        var first := PartPieces(|bnds|, p) + [Line(bnd, false, ws)];
        front := first + on;
        TwoThen(first, on, Run(w1, sum, rest));
        Assoc(first, on, Flush(w1.mp, sum));
        Assoc(PartPieces(|bnds|, p), [Line(bnd, false, ws)], PartsPieces(|bnds|, bnd, more));
    }
  }

  lemma EpilogueIsRead(w: Walk, epilogue: seq<byte>)
    requires AtEpilogue(w, [])
    ensures Run(w, [], epilogue) == Outcome(Flush(InEpilogue, epilogue), w, [])
  {
    assert [] + epilogue == epilogue;
  }

  /** A body that the text cuts off. */
  lemma TextEnds(w: Walk, sum: seq<byte>)
    requires WalkInv(w)
    ensures Run(w, sum, []) == Outcome(Flush(w.mp, sum), w, [])
  {
  }

  /**
    A multipart body from its preamble to its epilogue, multipart entities inside it included,
    closed or cut off: every part is read with what its own header lines say, and nothing is left over.
    */
  lemma BodyIsRead(w: Walk, bnd: seq<byte>, pre: seq<seq<byte>>, ws: seq<byte>, ps: Parts, epilogue: seq<byte>)
    requires Reading(w, InPreamble, [bnd]) && PlainLines([bnd], pre) && AllBlank(ws) && GoodParts([bnd], ps, true)
    requires Closes(ps) || epilogue == []
    ensures var o := Run(w, [], Concat(pre) + (Delimiter(bnd, false, ws) + (PartsBytes(bnd, ps) + epilogue)));
      && o.pieces == Flush(InPreamble, Concat(pre)) + [Line(bnd, false, ws)] + (PartsPieces(1, bnd, ps) + Flush(InEpilogue, epilogue))
      && o.tail == []
  {
    hide HdrInv, WalkInv, GoodPart, Level, Run, Delimiter, Flush, Reading, AtPart, AtEpilogue, PartBytes, PartPieces, NoneOf;
    var bnds := [bnd];
    var rest := PartsBytes(bnd, ps) + epilogue;
    var w1 := LinesAreRead(w, InPreamble, bnds, [], pre, Delimiter(bnd, false, ws) + rest);
    assert [] + Concat(pre) == Concat(pre) && bnds[..0] == [];
    NoneOfNone(Delimiter(bnd, false, ws));
    var w2 := LineIsRead(w1, InPreamble, bnds, bnds, Concat(pre), false, ws, rest);
    var w3, inner, front, sum := PartsAreRead(w2, bnds, ps, true, epilogue);
    NothingLeft(InEpilogue);
    if Closes(ps) {
      EpilogueIsRead(w3, epilogue);
      NothingLeft(w3.mp);
      assert front + [] == front;
    } else {
      TextEnds(w3, sum);
      assert PartsPieces(1, bnd, ps) + [] == PartsPieces(1, bnd, ps);
    }
  }

  lemma NoneOfNone(l: seq<byte>)
    ensures NoneOf([], l)
  {
  }

  // ---- A header that opens a boundary ---------------------------------------------------

  /**
    A multipart field as a line of a header opens its boundary inside those already open, as long
    as fewer than three are.
    */
  lemma FieldLineOpens(bnds: seq<seq<byte>>, w: MultipartWords, ws: seq<byte>, word: seq<byte>, v: seq<byte>, end: byte,
      rest: seq<byte>)
    requires |bnds| < BND_NUM && GoodWords(w) && AllWS(ws) && Spells(word, BOUNDARY)
    requires IsValue(v, false) && EndsValue(end, EndQuote(v, false)) && 2 + |Unquoted(v)| < BND_MAX
    requires IsLine(w.Field(ws + (word + (v + ([end] + rest)))))
    ensures var l := w.Field(ws + (word + (v + ([end] + rest))));
      && IsHeaderLine(l) && !Continues(l) && Effects(Start(|bnds|), [l]) == [[]]
      && OpenBehind(bnds, Behind(Start(|bnds|), [l])) == bnds + [[DASH, DASH] + Unquoted(v)]
  {
    hide HdrInv, HdrRun, AsciiBytes, EqFold, Start, AllOther, Unquoted;
    var hdr, l := Start(|bnds|), w.Field(ws + (word + (v + ([end] + rest))));
    StartsWithC(w.ct, l[|w.ct|..]);
    assert l == w.ct + l[|w.ct|..];
    LineStartsAt(hdr, l);
    var s := hdr.(st := MhCeCt, pos := 0, bol := false);
    StartKeeps(hdr, false);
    MultipartField(s, w, ws, word, v, end, rest, false);
    var s' := NextLine(hdr, l).0;
    TopLevel(s', |bnds|, v);
    var ls: seq<seq<byte>> := [l];
    assert |ls[1..]| == 0;
    assert Behind(hdr, ls) == s';
  }

  lemma TopLevel(s: HdrState, k: nat, v: seq<byte>)
    requires HdrInv(s) && HasLevel(s, k, v)
    ensures Stack(s)[k..] == [[DASH, DASH] + Unquoted(v)]
  {
  }

  /**
    The same field in two lines: the second begins with a space or a tab and has the boundary. The
    lines open it as one line does.
    */
  lemma FoldedFieldOpens(bnds: seq<seq<byte>>, w: MultipartWords, ws: seq<byte>, word: seq<byte>, v: seq<byte>, end: byte,
      rest: seq<byte>)
    requires |bnds| < BND_NUM && GoodWords(w) && Spells(word, BOUNDARY)
    requires AllWS(ws) && ws != [] && (ws[0] == 0x20 || ws[0] == 0x09)
    requires IsValue(v, false) && EndsValue(end, EndQuote(v, false)) && 2 + |Unquoted(v)| < BND_MAX
    requires IsLine(w.Field([0x0A])) && IsLine(ws + (word + (v + ([end] + rest))))
    ensures var l, m := w.Field([0x0A]), ws + (word + (v + ([end] + rest)));
      && IsHeaderLine(l) && !Continues(l) && IsHeaderLine(m) && Effects(Start(|bnds|), [l, m]) == [[], []]
      && OpenBehind(bnds, Behind(Start(|bnds|), [l, m])) == bnds + [[DASH, DASH] + Unquoted(v)]
  {
    hide HdrInv, HdrRun, AsciiBytes, EqFold, Start, AllOther, Unquoted, Spells, IsValue, EndQuote, IsLine, MultipartWords.Field,
      AllWS;
    var hdr, l, m := Start(|bnds|), w.Field([LF]), ws + (word + (v + ([end] + rest)));
    FieldLineStarts(w);
    LineStartsAt(hdr, l);
    var s := hdr.(st := MhCeCt, pos := 0, bol := false);
    StartKeeps(hdr, false);
    ReachesParam(s, w, [LF], false);
    WaitsForParam(s.(st := MhBndSpanWS));
    var s1 := NextLine(hdr, l).0;
    assert s1 == s.(st := MhBndSpanWS, bol := true);
    assert m[0] == ws[0];
    BlankFirst(m);
    LineStartsAt(s1, m);
    BoundaryParam(s1.(bol := false), ws, word, v, end, rest, false);
    var s2 := NextLine(s1, m).0;
    TopLevel(s2, |bnds|, v);
    TwoLines(hdr, l, m);
  }

  lemma FieldLineStarts(w: MultipartWords)
    requires GoodWords(w) && IsLine(w.Field([LF]))
    ensures IsHeaderLine(w.Field([LF])) && !Continues(w.Field([LF])) && w.Field([LF])[0] != CR
  {
    hide AsciiBytes, EqFold, IsLine;
    var l := w.Field([LF]);
    StartsWithC(w.ct, l[|w.ct|..]);
    assert l == w.ct + l[|w.ct|..];
  }

  lemma BlankFirst(m: seq<byte>)
    requires IsLine(m) && (m[0] == SP || m[0] == TAB)
    ensures IsHeaderLine(m) && Continues(m)
  {
  }

  /** At the end of a line the machine still looks for the next parameter. */
  lemma WaitsForParam(s: HdrState)
    requires Ready(s, false) && s.st.MhBndSpanWS?
    ensures HeaderSlot(s, false) && HdrRun(s, [LF], false) == (s, [])
  {
    hide HdrInv;
    var lf: seq<byte> := [LF];
    assert |lf[1..]| == 0;
    var none: seq<byte> := [];
    assert HdrStep(s, lf, false) == Step(s, none, false, []);
    assert HdrRun(s, none, false) == (s, []);
    StepLeads(s, lf, s, none, false);
    assert HdrRun(s, lf, false) == (s, []);
  }

  lemma TwoLines(hdr: HdrState, l: seq<byte>, m: seq<byte>)
    requires HdrInv(hdr)
    ensures var (s1, e1) := NextLine(hdr, l);
      var (s2, e2) := NextLine(s1, m);
      Effects(hdr, [l, m]) == [e1, e2] && Behind(hdr, [l, m]) == s2
  {
    hide HdrInv, NextLine;
    var ls: seq<seq<byte>> := [l, m];
    var ms: seq<seq<byte>> := [m];
    var s1, e1 := NextLine(hdr, l).0, NextLine(hdr, l).1;
    assert ls[1..] == ms && |ms[1..]| == 0;
    assert Effects(s1, ms) == [NextLine(s1, m).1];
    assert Behind(s1, ms) == NextLine(s1, m).0;
  }
}
