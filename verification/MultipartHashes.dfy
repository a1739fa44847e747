/**
  What a whole multipart body gives the second fuzzy checksum: the words of each entity's decoded
  text, and nothing of heads, boundaries, preambles, epilogues and binary entities.
  */
module MultipartHashes {
  import opened Bytes
  import opened Entities
  import opened MimeHeader
  import opened HeaderLines
  import opened Boundaries
  import opened Fuz2Machine
  import opened Fuz2Texts
  import opened Pipeline
  import opened Multipart
  import opened MultipartParts
  import opened MultipartTree
  import opened MultipartText
  import W = Fuz2Words

  /** What the pipeline owes language i. */
  ghost predicate OwesNow(t: Tables, p: PipeState, i: nat, l: Lang) {
    PipeOk(p) && Owes(t, p.ent.cset, p.fuz, i, l)
  }

  ghost predicate QuietNow(p: PipeState, i: nat, l: Lang) {
    PipeOk(p) && Quiet(p.fuz) && i < LANG_NUM && p.fuz.lang[i] == l
  }

  lemma QuietOwes(t: Tables, p: PipeState, i: nat, l: Lang)
    requires Folds(t) && QuietNow(p, i, l)
    ensures OwesNow(t, p, i, l)
  {
    hide FuzRun, W.AllPlaced;
    QuietStays(t, p.ent.cset, p.fuz);
  }

  /**
    Outside of a text the checksum gets a line end, whatever the bytes are: every language gains
    the word that was open and no more.
    */
  lemma OutsideWords(t: Tables, p: PipeState, mp: MpSt, bytes: seq<byte>, i: nat, l: Lang)
    requires t.Good() && OwesNow(t, p, i, l) && mp != InText && bytes != []
    ensures PipeOk(p) && QuietNow(Play(t, p, Sum(mp, bytes)), i, l)
    ensures Play(t, p, Sum(mp, bytes)).fuz == FuzRun(t, p.ent.cset, p.fuz, [LF])
  {
    hide FuzRun, ValidFuz, Accounted;
  }

  /** So it does not matter what the bytes are. */
  lemma OutsideBytesDoNotShow(t: Tables, p: PipeState, mp: MpSt, a: seq<byte>, b: seq<byte>)
    requires t.Good() && PipeOk(p) && mp != InText && a != [] && b != []
    ensures Play(t, p, Sum(mp, a)).fuz == Play(t, p, Sum(mp, b)).fuz == FuzRun(t, p.ent.cset, p.fuz, [0x0A])
  {
    hide FuzRun, ValidFuz, Accounted;
    KeepsRequires(p.fuz);
  }

  lemma InsideWords(t: Tables, h: Reader, p: PipeState, bytes: seq<byte>, b: seq<byte>, i: nat, l: Lang)
    requires Folds(t) && Rested(p) && QuietNow(p, i, l) && Encodes(p.ent.ce, bytes, b) && Readable(t, h, p.ent, b)
    ensures OwesNow(t, Play(t, p, Sum(InText, bytes)), i, W.Credited(l, SpokenOf(t, h, i, p.ent, b)))
  {
    hide FuzRun, ValidFuz, Accounted, Encodes, Feed, Inside, Quiet, Owes, SpokenOf, W.Credited, W.AllPlaced;
    DecodesTo(p, bytes, b);
    KeepsRequires(p.fuz);
    InsideIsDecoded(t, p, bytes);
    var (out, qp, b64) := Decoded(p, bytes);
    FeedWords(t, h, p, b, i, l);
    FeedLeaves(t, p, b, qp, b64);
  }

  /** A decoded text. */
  lemma FeedWords(t: Tables, h: Reader, p: PipeState, b: seq<byte>, i: nat, l: Lang)
    requires Folds(t) && QuietNow(p, i, l) && Readable(t, h, p.ent, b)
    ensures FuzOk(t, p.fuz)
    ensures var q := Feed(t, p, b); q.ent == p.ent && Owes(t, p.ent.cset, q.fuz, i, W.Credited(l, SpokenOf(t, h, i, p.ent, b)))
  {
    hide FuzRun, ValidFuz, Accounted, Quiet, Owes, SpokenOf, W.Credited, W.AllPlaced;
    KeepsRequires(p.fuz);
    if p.ent.ct == Binary {
      NothingSpoken(t, h, p.ent, b, i, l);
      QuietOwes(t, p, i, l);
    } else {
      EntitySettles(t, h, p.ent, p.fuz, b, i);
    }
  }

  // ---- A whole body ---------------------------------------------------------------------

  /** The words that language i hashes of an entity: those of its text, or those of the entities in it. */
  ghost function PartSpoken(t: Tables, h: Reader, i: nat, nest: nat, part: Part): seq<seq<byte>>
    requires t.Good() && i < LANG_NUM
    decreases part
  {
    match part
    case Part(_, _, body) => BodySpoken(t, h, i, nest, SaidBy(Says(nest, part), PLAIN), body)
    case Bare(_) => []
  }

  ghost function BodySpoken(t: Tables, h: Reader, i: nat, nest: nat, d: Described, b: Body): seq<seq<byte>>
    requires t.Good() && i < LANG_NUM
    decreases b
  {
    match b
    case Leaf(_, content) => SpokenOf(t, h, i, d, content)
    case Mixed(_, _, content, _, parts, _) => SpokenOf(t, h, i, d, content) + PartsSpoken(t, h, i, nest + 1, parts)
  }

  ghost function PartsSpoken(t: Tables, h: Reader, i: nat, nest: nat, ps: Parts): seq<seq<byte>>
    requires t.Good() && i < LANG_NUM
    decreases ps
  {
    PartSpoken(t, h, i, nest, ps.part) + if ps.Another? then PartsSpoken(t, h, i, nest, ps.rest) else []
  }

  /** Every text can be read as its entity is described. */
  ghost predicate ReadablePart(t: Tables, h: Reader, nest: nat, part: Part)
    requires t.Good()
    decreases part
  {
    part.Part? ==> ReadableBody(t, h, nest, SaidBy(Says(nest, part), PLAIN), part.body)
  }

  ghost predicate ReadableBody(t: Tables, h: Reader, nest: nat, d: Described, b: Body)
    requires t.Good()
    decreases b
  {
    match b
    case Leaf(_, content) => Readable(t, h, d, content)
    case Mixed(bnd, _, content, _, parts, _) =>
      bnd != [] && Readable(t, h, d, content) && ReadableParts(t, h, nest + 1, parts)
  }

  ghost predicate ReadableParts(t: Tables, h: Reader, nest: nat, ps: Parts)
    requires t.Good()
    decreases ps
  {
    ReadablePart(t, h, nest, ps.part) && (ps.Another? ==> ReadableParts(t, h, nest, ps.rest))
  }

  lemma OutsideQuiet(t: Tables, p: PipeState, mp: MpSt, bytes: seq<byte>, i: nat, l: Lang)
    requires Folds(t) && QuietNow(p, i, l) && mp != InText
    ensures QuietNow(Play(t, p, Sum(mp, bytes)), i, l)
  {
    hide FuzRun, ValidFuz, Accounted, W.AllPlaced, Quiet;
    if bytes != [] {
      QuietOwes(t, p, i, l);
      OutsideWords(t, p, mp, bytes, i, l);
    }
  }

  lemma FlushOutside(t: Tables, p: PipeState, mp: MpSt, sum: seq<byte>, i: nat, l: Lang)
    requires Folds(t) && QuietNow(p, i, l) && mp != InText
    ensures QuietNow(PlayPieces(t, p, Flush(mp, sum)), i, l)
  {
    hide Play, PipeOk, PlayPieces, W.AllPlaced, Quiet;
    PlaySlice(t, p, mp, sum);
    OutsideQuiet(t, p, mp, sum, i, l);
  }

  lemma FlushInside(t: Tables, h: Reader, p: PipeState, sum: seq<byte>, b: seq<byte>, i: nat, l: Lang)
    requires Folds(t) && Rested(p) && QuietNow(p, i, l) && Encodes(p.ent.ce, sum, b) && Readable(t, h, p.ent, b)
    ensures OwesNow(t, PlayPieces(t, p, Flush(InText, sum)), i, W.Credited(l, SpokenOf(t, h, i, p.ent, b)))
  {
    hide Play, PlayPieces, Encodes, W.AllPlaced, Quiet, PipeOk, Readable, SpokenOf, W.Credited, OwesNow;
    PlaySlice(t, p, InText, sum);
    InsideWords(t, h, p, sum, b, i, l);
    if sum == [] {
      NothingInside(t, p);
    }
  }

  /** A delimiter closes the word that was open. */
  lemma LineQuiets(t: Tables, p: PipeState, bnd: seq<byte>, final: bool, ws: seq<byte>, i: nat, l: Lang)
    requires Folds(t) && OwesNow(t, p, i, l) && bnd != []
    ensures PipeOk(p)
    ensures var q := PlayPieces(t, p, [Line(bnd, final, ws)]); Rested(q) && q.ent == PLAIN && QuietNow(q, i, l)
  {
    hide Play, PlayPieces, W.AllPlaced, Quiet, Owes, PipeOk;
    PlayLine(t, p, bnd, final, ws);
    LineBody(t, p, bnd, final, ws);
    OutsideWords(t, p, InBoundary, bnd, i, l);
    var p1 := Play(t, p, Sum(InBoundary, bnd));
    var p2 := p1;
    if final {
      QuietOwes(t, p1, i, l);
      OutsideWords(t, p1, InBoundary, CLOSING, i, l);
      p2 := Play(t, p1, Sum(InBoundary, CLOSING));
    }
    ResetQuiet(t, p2, i, l);
  }

  lemma ResetQuiet(t: Tables, p: PipeState, i: nat, l: Lang)
    requires t.Good() && QuietNow(p, i, l)
    ensures QuietNow(Play(t, p, Reset), i, l)
  {
    hide ValidFuz, Accounted;
  }

  lemma NoteQuiet(t: Tables, p: PipeState, effs: seq<Effect>, i: nat, l: Lang)
    requires t.Good() && QuietNow(p, i, l)
    ensures QuietNow(Play(t, p, Note(effs)), i, l)
  {
    hide ValidFuz, Accounted, ApplyAll;
  }

  lemma {:induction false} HeadQuiet(t: Tables, p: PipeState, effs: seq<seq<Effect>>, i: nat, l: Lang)
    requires t.Good() && QuietNow(p, i, l)
    ensures QuietNow(PlayPieces(t, p, HeadPieces(effs)), i, l)
    decreases |effs|
  {
    hide PlayPieces, Play, Quiet;
    if effs == [] {
      PlayNone(t, p);
    } else {
      PiecesSplit(t, p, [Fields(effs[0])], HeadPieces(effs[1..]));
      PlayFields(t, p, effs[0]);
      NoteQuiet(t, p, effs[0], i, l);
      HeadQuiet(t, Play(t, p, Note(effs[0])), effs[1..], i, l);
    }
  }

  lemma BlankQuiet(t: Tables, p: PipeState, head: seq<byte>, i: nat, l: Lang)
    requires Folds(t) && QuietNow(p, i, l)
    ensures PipeOk(p) && QuietNow(PlayPieces(t, p, [Fields([]), Slice(InHeaders, head)]), i, l)
    ensures PlayPieces(t, p, [Fields([]), Slice(InHeaders, head)]).ent == p.ent
  {
    hide PlayPieces, Play, PipeOk, W.AllPlaced, OwesNow, Quiet;
    var a, b := [Fields([])], [Slice(InHeaders, head)];
    assert a + b == [Fields([]), Slice(InHeaders, head)];
    PiecesSplit(t, p, a, b);
    PlayFields(t, p, []);
    NoteNothing(t, p);
    PlaySlice(t, p, InHeaders, head);
    OutsideQuiet(t, p, InHeaders, head, i, l);
    OutsideEntity(t, p, InHeaders, head, i, l);
  }

  lemma OutsideEntity(t: Tables, p: PipeState, mp: MpSt, bytes: seq<byte>, i: nat, l: Lang)
    requires Folds(t) && QuietNow(p, i, l) && mp != InText
    ensures Play(t, p, Sum(mp, bytes)).ent == p.ent
  {
    hide FuzRun, ValidFuz, Accounted, W.AllPlaced;
    QuietStays(t, p.ent.cset, p.fuz);
  }

  /** An entity: what its text owes is known behind the line end that comes with the next boundary. */
  lemma {:induction false} PartHashes(t: Tables, h: Reader, p: PipeState, nest: nat, part: Part, i: nat, l: Lang)
    requires Folds(t) && Rested(p) && p.ent == PLAIN && QuietNow(p, i, l)
    requires CodedPart(nest, part) && ReadablePart(t, h, nest, part)
    ensures PipeOk(p)
    ensures OwesNow(t, PlayPieces(t, p, PartPieces(nest, part)), i, W.Credited(l, PartSpoken(t, h, i, nest, part)))
    decreases part
  {
    hide PlayPieces, PipeOk, Encodes, Play, Flush, HeadPieces, SaidBy, Effects, CodedBody, BodyPieces, W.AllPlaced, Quiet, Owes,
      ReadableBody, BodySpoken, W.Credited;
    RestedOk(p);
    var fields := HeadPieces(Says(nest, part));
    HeadNoted(t, p, Says(nest, part));
    HeadQuiet(t, p, Says(nest, part), i, l);
    var p1 := PlayPieces(t, p, fields);
    RestedOk(p1);
    match part {
      case Part(_, _, b) =>
        var head, body := [Fields([]), Slice(InHeaders, HeadOf(part))], BodyPieces(nest, b);
        PiecesSplit(t, p, fields, head + body);
        PiecesSplit(t, p1, head, body);
        HeadSummed(t, p1, HeadOf(part));
        BlankQuiet(t, p1, HeadOf(part), i, l);
        BodyHashes(t, h, PlayPieces(t, p1, head), nest, b, i, l);
      case Bare(hdrs) =>
        PiecesSplit(t, p, fields, Flush(InHeaders, Concat(hdrs)));
        FlushOutside(t, p1, InHeaders, Concat(hdrs), i, l);
        W.CreditNothing(l);
        QuietOwes(t, PlayPieces(t, p1, Flush(InHeaders, Concat(hdrs))), i, l);
    }
  }

  lemma {:induction false} BodyHashes(t: Tables, h: Reader, p: PipeState, nest: nat, b: Body, i: nat, l: Lang)
    requires Folds(t) && Rested(p) && QuietNow(p, i, l) && CodedBody(nest, p.ent.ce, b) && ReadableBody(t, h, nest, p.ent, b)
    ensures PipeOk(p)
    ensures OwesNow(t, PlayPieces(t, p, BodyPieces(nest, b)), i, W.Credited(l, BodySpoken(t, h, i, nest, p.ent, b)))
    decreases b
  {
    hide PlayPieces, PipeOk, Encodes, Play, Flush, CodedParts, PartsPieces, W.AllPlaced, Quiet, Owes, ReadableParts, Readable,
      PartsSpoken, SpokenOf, W.Credited, Rested;
    RestedOk(p);
    match b {
      case Leaf(lines, content) =>
        FlushInside(t, h, p, Concat(lines), content, i, l);
      case Mixed(bnd, pre, content, ws, parts, epilogue) =>
        var text, more := SpokenOf(t, h, i, p.ent, content), PartsSpoken(t, h, i, nest + 1, parts);
        var l1, l2 := W.Credited(l, text), W.Credited(W.Credited(l, text), more);
        FlushInside(t, h, p, Concat(pre), content, i, l);
        var p1 := PlayPieces(t, p, Flush(InText, Concat(pre)));
        LineQuiets(t, p1, bnd, false, ws, i, l1);
        var p2 := PlayPieces(t, p1, [Line(bnd, false, ws)]);
        PartsHash(t, h, p2, nest + 1, bnd, parts, i, l1);
        var p3 := PlayPieces(t, p2, PartsPieces(nest + 1, bnd, parts));
        MixedPlays(t, p, Flush(InText, Concat(pre)), [Line(bnd, false, ws)], PartsPieces(nest + 1, bnd, parts),
                   Flush(InEpilogue, Concat(epilogue)));
        EpilogueOwes(t, p3, Concat(epilogue), i, l2);
        W.CreditTwice(l, text, more);
    }
  }

  /** The epilogue adds nothing to what is owed. */
  lemma EpilogueOwes(t: Tables, p: PipeState, epilogue: seq<byte>, i: nat, l: Lang)
    requires Folds(t) && OwesNow(t, p, i, l)
    ensures OwesNow(t, PlayPieces(t, p, Flush(InEpilogue, epilogue)), i, l)
  {
    hide Play, PipeOk, PlayPieces, W.AllPlaced, Owes, Quiet;
    PlaySlice(t, p, InEpilogue, epilogue);
    if epilogue != [] {
      OutsideWords(t, p, InEpilogue, epilogue, i, l);
      QuietOwes(t, Play(t, p, Sum(InEpilogue, epilogue)), i, l);
    }
  }

  lemma {:induction false} PartsHash(t: Tables, h: Reader, p: PipeState, nest: nat, bnd: seq<byte>, ps: Parts, i: nat, l: Lang)
    requires Folds(t) && Rested(p) && p.ent == PLAIN && QuietNow(p, i, l) && bnd != []
    requires CodedParts(nest, ps) && ReadableParts(t, h, nest, ps)
    ensures PipeOk(p)
    ensures var q := PlayPieces(t, p, PartsPieces(nest, bnd, ps));
      var l' := W.Credited(l, PartsSpoken(t, h, i, nest, ps));
      OwesNow(t, q, i, l') && (Closes(ps) ==> QuietNow(q, i, l'))
    decreases ps
  {
    hide PlayPieces, PipeOk, Play, CodedPart, PartPieces, Rested, W.AllPlaced, Quiet, Owes, ReadablePart, PartSpoken, W.Credited;
    RestedOk(p);
    var first := PartSpoken(t, h, i, nest, ps.part);
    var l1 := W.Credited(l, first);
    PartHashes(t, h, p, nest, ps.part, i, l);
    var p1 := PlayPieces(t, p, PartPieces(nest, ps.part));
    assert first + [] == first;
    if !ps.CutOff? {
      var line := [Line(bnd, ps.Closing?, ps.ws)];
      LineQuiets(t, p1, bnd, ps.Closing?, ps.ws, i, l1);
      var p2 := PlayPieces(t, p1, line);
      RestedOk(p2);
      match ps {
        case Closing(part, ws) =>
          PiecesSplit(t, p, PartPieces(nest, part), line);
          QuietOwes(t, p2, i, l1);
        case Another(part, ws, rest) =>
          PartsHash(t, h, p2, nest, bnd, rest, i, l1);
          PiecesSplit(t, p, PartPieces(nest, part), line + PartsPieces(nest, bnd, rest));
          PiecesSplit(t, p1, line, PartsPieces(nest, bnd, rest));
          W.CreditTwice(l, first, PartsSpoken(t, h, i, nest, rest));
      }
    }
  }

  /**
    A multipart body: with the line end that closes a message, every language has hashed its words
    of each entity's decoded text, in order, and nothing else.
    */
  lemma MessageHashes(t: Tables, h: Reader, p: PipeState, w: Walk, bnd: seq<byte>, pre: seq<seq<byte>>, ws: seq<byte>,
      ps: Parts, epilogue: seq<byte>, i: nat)
    requires Folds(t) && Rested(p) && Quiet(p.fuz) && i < LANG_NUM && CodedParts(1, ps) && ReadableParts(t, h, 1, ps)
    requires Reading(w, InPreamble, [bnd]) && bnd != [] && PlainLines([bnd], pre) && AllBlank(ws) && GoodParts([bnd], ps, true)
    requires Closes(ps) || epilogue == []
    ensures WalkInv(w) && PipeOk(p)
    ensures var body := Concat(pre) + (Delimiter(bnd, false, ws) + (PartsBytes(bnd, ps) + epilogue));
      var q := Ends(t, p, w, [], body).0;
      FuzOk(t, q.fuz)
      && FuzRun(t, q.ent.cset, q.fuz, [LF]).lang[i] == W.Credited(p.fuz.lang[i], PartsSpoken(t, h, i, 1, ps))
  {
    hide PlayPieces, PipeOk, Run, Level, PlainLines, Reading, HdrInv, Flush, Delimiter, GoodParts, PartsPieces, PartsBytes,
      WalkInv, CodedParts, ReadableParts, Quiet, W.AllPlaced, W.Credited, PartsSpoken, FuzRun;
    RestedOk(p);
    ReadingMode(w, InPreamble, [bnd]);
    BodyIsRead(w, bnd, pre, ws, ps, epilogue);
    PiecesHash(t, h, p, bnd, pre, ws, ps, epilogue, i);
  }

  lemma PiecesHash(t: Tables, h: Reader, p: PipeState, bnd: seq<byte>, pre: seq<seq<byte>>, ws: seq<byte>, parts: Parts,
      epilogue: seq<byte>, i: nat)
    requires Folds(t) && Rested(p) && Quiet(p.fuz) && i < LANG_NUM && CodedParts(1, parts) && ReadableParts(t, h, 1, parts)
    requires bnd != []
    ensures PipeOk(p)
    ensures var ps := Flush(InPreamble, Concat(pre)) + [Line(bnd, false, ws)]
        + (PartsPieces(1, bnd, parts) + Flush(InEpilogue, epilogue));
      OwesNow(t, PlayPieces(t, p, ps), i, W.Credited(p.fuz.lang[i], PartsSpoken(t, h, i, 1, parts)))
  {
    hide PlayPieces, PipeOk, Flush, PartsPieces, CodedParts, ReadableParts, W.AllPlaced, W.Credited, PartsSpoken, Owes, Play;
    RestedOk(p);
    var l := p.fuz.lang[i];
    var a, b: seq<Piece> := Flush(InPreamble, Concat(pre)), [Line(bnd, false, ws)];
    var c, d := PartsPieces(1, bnd, parts), Flush(InEpilogue, epilogue);
    PiecesSplit(t, p, a + b, c + d);
    PiecesSplit(t, p, a, b);
    FlushOutside(t, p, InPreamble, Concat(pre), i, l);
    var p1 := PlayPieces(t, p, a);
    QuietOwes(t, p1, i, l);
    LineQuiets(t, p1, bnd, false, ws, i, l);
    var p2 := PlayPieces(t, p1, b);
    PiecesSplit(t, p2, c, d);
    PartsHash(t, h, p2, 1, bnd, parts, i, l);
    EpilogueOwes(t, PlayPieces(t, p2, c), epilogue, i, W.Credited(l, PartsSpoken(t, h, i, 1, parts)));
  }

  /** Header fields hash nothing. */
  lemma {:induction false} FieldsQuiet(t: Tables, p: PipeState, w: Walk, fields: seq<seq<byte>>, i: nat, l: Lang)
    requires t.Good() && Rested(p) && MessageReady(w.hdr) && QuietNow(p, i, l)
    ensures PipeOk(p)
    ensures QuietNow(TakeFields(t, p, w, fields).0, i, l)
    decreases |fields|
  {
    hide PipeOk, MessageReady, Quiet, FieldRun, Play, Rested;
    RestedOk(p);
    if fields != [] {
      FieldRests(t, p, w, fields[0]);
      NoteQuiet(t, p, FieldRun(w.hdr, fields[0]).1, i, l);
      var (p1, w1) := TakeField(t, p, w, fields[0]);
      FieldsQuiet(t, p1, w1, fields[1..], i, l);
    }
  }

  /** The same from the first header field of the message on. */
  lemma MultipartMessageHashes(t: Tables, h: Reader, p: PipeState, w: Walk, before: seq<seq<byte>>, o: Opening,
      later: seq<seq<byte>>, pre: seq<seq<byte>>, ws: seq<byte>, ps: Parts, epilogue: seq<byte>, i: nat)
    requires Folds(t) && Rested(p) && Quiet(p.fuz) && i < LANG_NUM && MessageReady(w.hdr) && o.Good()
    requires CodedParts(1, ps) && ReadableParts(t, h, 1, ps)
    requires forall k :: 0 <= k < |later| ==> OpensNone(later[k])
    requires PlainLines([o.Boundary()], pre) && AllBlank(ws)
    requires GoodParts([o.Boundary()], ps, true) && (Closes(ps) || epilogue == [])
    ensures PipeOk(p)
    ensures var bnd := o.Boundary();
      var (p1, w1) := TakeFields(t, p, w, before + ([o.Field()] + later));
      var body := Concat(pre) + (Delimiter(bnd, false, ws) + (PartsBytes(bnd, ps) + epilogue));
      && WalkInv(w1)
      && var q := Ends(t, p1, w1, [], body).0;
      && FuzOk(t, q.fuz)
      && FuzRun(t, q.ent.cset, q.fuz, [LF]).lang[i] == W.Credited(p.fuz.lang[i], PartsSpoken(t, h, i, 1, ps))
  {
    hide *;
    FoldsGood(t);
    RestedOk(p);
    HeaderOpens(t, p, w, before, o, later);
    var fields := before + ([o.Field()] + later);
    StartsQuiet(p, i);
    FieldsQuiet(t, p, w, fields, i, p.fuz.lang[i]);
    var (p1, w1) := TakeFields(t, p, w, fields);
    QuietIs(p1, i, p.fuz.lang[i]);
    BoundaryThere(o);
    MessageHashes(t, h, p1, w1, o.Boundary(), pre, ws, ps, epilogue, i);
  }

  lemma FoldsGood(t: Tables)
    requires Folds(t)
    ensures t.Good()
  {
  }

  lemma StartsQuiet(p: PipeState, i: nat)
    requires Rested(p) && Quiet(p.fuz) && i < LANG_NUM
    ensures i < |p.fuz.lang| && QuietNow(p, i, p.fuz.lang[i])
  {
    hide PipeOk;
    RestedOk(p);
  }

  lemma QuietIs(p: PipeState, i: nat, l: Lang)
    requires QuietNow(p, i, l)
    ensures Quiet(p.fuz) && i < |p.fuz.lang| && p.fuz.lang[i] == l
  {
  }

  lemma BoundaryThere(o: Opening)
    ensures o.Boundary() != []
  {
  }

  // ---- A message of one part ------------------------------------------------------------

  /** Without a boundary the whole body is one text: both checksums get it decoded. */
  lemma SinglePart(t: Tables, h: Reader, p: PipeState, w: Walk, body: seq<byte>, b: seq<byte>, i: nat)
    requires Folds(t) && Rested(p) && Quiet(p.fuz) && i < LANG_NUM && WalkInv(w) && w.hdr.nest == 0 && w.mp == InText
    requires Encodes(p.ent.ce, body, b) && Readable(t, h, p.ent, b)
    ensures PipeOk(p)
    ensures var q := Ends(t, p, w, [], body).0;
      && q.body == p.body + b
      && FuzOk(t, q.fuz)
      && FuzRun(t, q.ent.cset, q.fuz, [LF]).lang[i] == W.Credited(p.fuz.lang[i], SpokenOf(t, h, i, p.ent, b))
  {
    hide PlayPieces, PipeOk, Run, HdrInv, Encodes, Readable, W.AllPlaced, W.Credited, SpokenOf, FuzRun;
    RestedOk(p);
    EndsFlat(t, p, w, [], body);
    assert [] + body == body;
    FlushInside(t, h, p, body, b, i, p.fuz.lang[i]);
    FlushText(t, p, body, b);
  }
}
