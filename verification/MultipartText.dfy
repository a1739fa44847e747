/** What a well-formed multipart body, however deep, gives the body checksum: every entity's text decoded. */
module MultipartText {
  import opened Bytes
  import opened Entities
  import opened MimeHeader
  import opened MimeSteps
  import opened MimeFields
  import opened MimeTypes
  import opened HeaderLines
  import opened Boundaries
  import opened Fuz2Machine
  import opened Pipeline
  import opened Multipart
  import opened MultipartParts
  import opened MultipartTree
  import QP = QuotedPrintable
  import B64 = Base64
  import Settling = Base64Settles

  /** A text that is an encoding of b. */
  ghost predicate Encodes(ce: TransferEncoding, text: seq<byte>, b: seq<byte>) {
    match ce
    case Ascii => text == b
    case QuotedPrintable =>
      exists ts: seq<QP.QpToken> :: AllGood(ts) && text == QP.Encoding(ts) && b == QP.Value(ts)
    case Base64 => B64.Relevant(text) == B64.Encode(b)
  }

  predicate AllGood(ts: seq<QP.QpToken>) {
    forall k :: 0 <= k < |ts| ==> QP.GoodToken(ts[k])
  }

  /** The decoders hold nothing back. */
  ghost predicate Rested(p: PipeState) {
    PipeOk(p) && p.qp.st.QpIdle? && p.b64.cnt == 0
  }

  lemma DecodesTo(p: PipeState, text: seq<byte>, b: seq<byte>)
    requires Rested(p) && Encodes(p.ent.ce, text, b)
    ensures Decoded(p, text).0 == b
  {
    hide Accounted, ValidFuz, QP.QpRun, QP.Encoding, QP.Value, B64.Relevant, B64.Encode, B64.DecodeAll;
    match p.ent.ce {
      case Ascii =>
      case QuotedPrintable =>
        var ts: seq<QP.QpToken> :| AllGood(ts) && text == QP.Encoding(ts) && b == QP.Value(ts);
        QP.QpRoundTrip(p.qp, ts);
      case Base64 =>
        Settling.B64RoundTrip(p.b64, b, text, TBUF_LEN - 3);
    }
  }

  /** Outside of a text the bytes go through as they are, and the decoders rest. */
  lemma OutsideBody(t: Tables, p: PipeState, mp: MpSt, bytes: seq<byte>)
    requires t.Good() && PipeOk(p) && mp != InText
    ensures var q := Play(t, p, Sum(mp, bytes));
      PipeOk(q) && q.body == p.body + bytes && q.qp == p.qp && q.b64 == p.b64 && q.ent.ce == p.ent.ce
  {
    hide Accounted, ValidFuz, FuzRun;
    assert p.body + [] == p.body;
  }

  lemma InsideBody(t: Tables, p: PipeState, bytes: seq<byte>, b: seq<byte>)
    requires t.Good() && Rested(p) && Encodes(p.ent.ce, bytes, b)
    ensures var q := Play(t, p, Sum(InText, bytes)); PipeOk(q) && q.body == p.body + b
  {
    hide Accounted, ValidFuz, FuzRun, Feed, Inside, Encodes;
    KeepsRequires(p.fuz);
    DecodesTo(p, bytes, b);
    InsideIsDecoded(t, p, bytes);
    var (out, qp, b64) := Decoded(p, bytes);
    FeedLeaves(t, p, out, qp, b64);
  }

  lemma FlushBody(t: Tables, p: PipeState, mp: MpSt, sum: seq<byte>)
    requires t.Good() && PipeOk(p) && mp != InText
    ensures var q := PlayPieces(t, p, Flush(mp, sum));
      PipeOk(q) && q.body == p.body + sum && q.qp == p.qp && q.b64 == p.b64 && q.ent.ce == p.ent.ce
  {
    hide Play, PipeOk, PlayPieces;
    PlaySlice(t, p, mp, sum);
    OutsideBody(t, p, mp, sum);
    assert p.body + [] == p.body;
  }

  lemma FlushText(t: Tables, p: PipeState, sum: seq<byte>, b: seq<byte>)
    requires t.Good() && Rested(p) && Encodes(p.ent.ce, sum, b)
    ensures var q := PlayPieces(t, p, Flush(InText, sum)); PipeOk(q) && q.body == p.body + b
  {
    hide Play, PlayPieces, Encodes, ValidFuz, Accounted;
    PlaySlice(t, p, InText, sum);
    InsideBody(t, p, sum, b);
    if sum == [] {
      KeepsRequires(p.fuz);
      NothingInside(t, p);
    }
  }

  lemma NothingInside(t: Tables, p: PipeState)
    requires t.Good() && PipeOk(p)
    ensures Play(t, p, Sum(InText, [])) == p
  {
    hide Inside, PipeOk;
    InsideNothing(t, p);
  }

  /** A delimiter: its boundary is summed, and the decoders start afresh. */
  lemma LineBody(t: Tables, p: PipeState, bnd: seq<byte>, final: bool, ws: seq<byte>)
    requires t.Good() && PipeOk(p)
    ensures var q := PlayPieces(t, p, [Line(bnd, final, ws)]);
      Rested(q) && q.ent == PLAIN && q.body == p.body + Marked(bnd, final)
  {
    hide Play, PipeOk, PlayPieces;
    PlayLine(t, p, bnd, final, ws);
    OutsideBody(t, p, InBoundary, bnd);
    var p1 := Play(t, p, Sum(InBoundary, bnd));
    OutsideBody(t, p1, InBoundary, CLOSING);
    var p2 := if final then Play(t, p1, Sum(InBoundary, CLOSING)) else p1;
    ResetRests(t, p2);
    assert bnd + [] == bnd;
    assert p.body + bnd + CLOSING == p.body + (bnd + CLOSING);
  }

  lemma ResetRests(t: Tables, p: PipeState)
    requires t.Good() && PipeOk(p)
    ensures var q := Play(t, p, Reset); Rested(q) && q.ent == PLAIN && q.body == p.body
  {
    hide ValidFuz, Accounted;
  }

  /** Header lines, one after another. */
  function SaidBy(effs: seq<seq<Effect>>, d: Described): Described {
    if effs == [] then d else SaidBy(effs[1..], ApplyAll(d, effs[0]))
  }

  lemma {:induction false} HeadNoted(t: Tables, p: PipeState, effs: seq<seq<Effect>>)
    requires t.Good() && Rested(p)
    ensures var q := PlayPieces(t, p, HeadPieces(effs));
      Rested(q) && q.ent == SaidBy(effs, p.ent) && q.body == p.body
    decreases |effs|
  {
    hide PlayPieces, ApplyAll;
    if effs == [] {
      PlayNone(t, p);
    } else {
      var first, more := [Fields(effs[0])], HeadPieces(effs[1..]);
      PiecesSplit(t, p, first, more);
      PlayFields(t, p, effs[0]);
      LineNoted(t, p, effs[0]);
      HeadNoted(t, Play(t, p, Note(effs[0])), effs[1..]);
    }
  }

  lemma PlayNone(t: Tables, p: PipeState)
    requires t.Good() && PipeOk(p)
    ensures PlayPieces(t, p, []) == p
  {
  }

  lemma LineNoted(t: Tables, p: PipeState, effs: seq<Effect>)
    requires t.Good() && Rested(p)
    ensures var q := Play(t, p, Note(effs)); Rested(q) && q.ent == ApplyAll(p.ent, effs) && q.body == p.body
  {
    hide ValidFuz, Accounted, ApplyAll;
  }

  /** The blank line says nothing, and the head is summed as it stands. */
  lemma HeadSummed(t: Tables, p: PipeState, head: seq<byte>)
    requires t.Good() && Rested(p)
    ensures var q := PlayPieces(t, p, [Fields([]), Slice(InHeaders, head)]);
      Rested(q) && q.ent.ce == p.ent.ce && q.body == p.body + head
  {
    hide PlayPieces, Play, PipeOk;
    var a, b := [Fields([])], [Slice(InHeaders, head)];
    assert a + b == [Fields([]), Slice(InHeaders, head)];
    PiecesSplit(t, p, a, b);
    PlayFields(t, p, []);
    NoteNothing(t, p);
    PlaySlice(t, p, InHeaders, head);
    OutsideBody(t, p, InHeaders, head);
  }

  /** The transfer encoding that an entity's header lines leave, plain text when they name none. */
  function Coding(nest: nat, part: Part): TransferEncoding {
    SaidBy(Says(nest, part), PLAIN).ce
  }

  /** Every text in the entity encodes its content, in the transfer encoding of the header it stands behind. */
  ghost predicate CodedPart(nest: nat, part: Part)
    decreases part
  {
    part.Part? ==> CodedBody(nest, Coding(nest, part), part.body)
  }

  ghost predicate CodedBody(nest: nat, ce: TransferEncoding, b: Body)
    decreases b
  {
    match b
    case Leaf(lines, content) => Encodes(ce, Concat(lines), content)
    case Mixed(_, pre, content, _, parts, _) => Encodes(ce, Concat(pre), content) && CodedParts(nest + 1, parts)
  }

  ghost predicate CodedParts(nest: nat, ps: Parts)
    decreases ps
  {
    CodedPart(nest, ps.part) && (ps.Another? ==> CodedParts(nest, ps.rest))
  }

  /** What an entity adds: its head as it stands, and its body decoded. */
  function PartContent(part: Part): seq<byte>
    decreases part
  {
    match part
    case Part(_, _, body) => HeadOf(part) + BodyContent(body)
    case Bare(_) => HeadOf(part)
  }

  /** A multipart body adds its preamble decoded, its first boundary, its parts, and its epilogue as it stands. */
  function BodyContent(b: Body): seq<byte>
    decreases b
  {
    match b
    case Leaf(_, content) => content
    case Mixed(bnd, _, content, _, parts, epilogue) => content + (bnd + (PartsContent(bnd, parts) + Concat(epilogue)))
  }

  /** Behind every part but one that is cut off comes its boundary, with two dashes when it is closed. */
  function PartsContent(bnd: seq<byte>, ps: Parts): seq<byte>
    decreases ps
  {
    match ps
    case Closing(part, _) => PartContent(part) + Marked(bnd, true)
    case CutOff(part) => PartContent(part)
    case Another(part, _, rest) => PartContent(part) + (Marked(bnd, false) + PartsContent(bnd, rest))
  }

  lemma {:induction false} PartDecodes(t: Tables, p: PipeState, nest: nat, part: Part)
    requires t.Good() && Rested(p) && p.ent == PLAIN && CodedPart(nest, part)
    ensures var q := PlayPieces(t, p, PartPieces(nest, part)); PipeOk(q) && q.body == p.body + PartContent(part)
    decreases part
  {
    hide PlayPieces, PipeOk, Encodes, Play, Marked, Flush, HeadPieces, SaidBy, Effects, CodedBody, BodyPieces, BodyContent;
    var fields := HeadPieces(Says(nest, part));
    HeadNoted(t, p, Says(nest, part));
    var p1 := PlayPieces(t, p, fields);
    RestedOk(p);
    RestedOk(p1);
    match part {
      case Part(_, _, b) =>
        var head, body := [Fields([]), Slice(InHeaders, HeadOf(part))], BodyPieces(nest, b);
        PiecesSplit(t, p, fields, head + body);
        PiecesSplit(t, p1, head, body);
        HeadSummed(t, p1, HeadOf(part));
        BodyDecodes(t, PlayPieces(t, p1, head), nest, b);
        Assoc(p.body, HeadOf(part), BodyContent(b));
      case Bare(hdrs) =>
        PiecesSplit(t, p, fields, Flush(InHeaders, Concat(hdrs)));
        FlushBody(t, p1, InHeaders, Concat(hdrs));
        assert HeadOf(part) == Concat(hdrs);
    }
  }

  lemma {:induction false} BodyDecodes(t: Tables, p: PipeState, nest: nat, b: Body)
    requires t.Good() && Rested(p) && CodedBody(nest, p.ent.ce, b)
    ensures var q := PlayPieces(t, p, BodyPieces(nest, b)); PipeOk(q) && q.body == p.body + BodyContent(b)
    decreases b
  {
    hide PlayPieces, PipeOk, Encodes, Play, Flush, CodedParts, PartsPieces, PartsContent, Rested;
    match b {
      case Leaf(lines, content) =>
        FlushText(t, p, Concat(lines), content);
      case Mixed(bnd, pre, content, ws, parts, epilogue) =>
        MixedDecodes(t, p, b);
        var p2 := PlayPieces(t, PlayPieces(t, p, Flush(InText, Concat(pre))), [Line(bnd, false, ws)]);
        PartsDecode(t, p2, nest + 1, bnd, parts);
        var p3 := PlayPieces(t, p2, PartsPieces(nest + 1, bnd, parts));
        FlushBody(t, p3, InEpilogue, Concat(epilogue));
        MixedPlays(t, p, Flush(InText, Concat(pre)), [Line(bnd, false, ws)], PartsPieces(nest + 1, bnd, parts),
                   Flush(InEpilogue, Concat(epilogue)));
        MixedContent(p.body, content, bnd, PartsContent(bnd, parts), Concat(epilogue));
    }
  }

  /** The preamble of a multipart entity and its first delimiter. */
  lemma MixedDecodes(t: Tables, p: PipeState, b: Body)
    requires t.Good() && Rested(p) && b.Mixed? && Encodes(p.ent.ce, Concat(b.pre), b.content)
    ensures PipeOk(p)
    ensures var p1 := PlayPieces(t, p, Flush(InText, Concat(b.pre)));
      PipeOk(p1)
    ensures var p2 := PlayPieces(t, PlayPieces(t, p, Flush(InText, Concat(b.pre))), [Line(b.bnd, false, b.ws)]);
      Rested(p2) && p2.ent == PLAIN && p2.body == p.body + b.content + b.bnd
  {
    hide PlayPieces, PipeOk, Encodes, Play, Flush;
    FlushText(t, p, Concat(b.pre), b.content);
    LineBody(t, PlayPieces(t, p, Flush(InText, Concat(b.pre))), b.bnd, false, b.ws);
    assert b.bnd + [] == b.bnd;
  }

  lemma RestedOk(p: PipeState)
    requires Rested(p)
    ensures PipeOk(p)
  {
  }

  lemma MixedPlays(t: Tables, p: PipeState, a: seq<Piece>, b: seq<Piece>, c: seq<Piece>, d: seq<Piece>)
    requires t.Good() && PipeOk(p)
    ensures PlayPieces(t, p, a + (b + (c + d)))
      == PlayPieces(t, PlayPieces(t, PlayPieces(t, PlayPieces(t, p, a), b), c), d)
  {
    hide PlayPieces, PipeOk;
    PiecesSplit(t, p, a, b + (c + d));
    var p1 := PlayPieces(t, p, a);
    PiecesSplit(t, p1, b, c + d);
    PiecesSplit(t, PlayPieces(t, p1, b), c, d);
  }

  lemma MixedContent(body: seq<byte>, a: seq<byte>, b: seq<byte>, c: seq<byte>, d: seq<byte>)
    ensures body + a + b + c + d == body + (a + (b + (c + d)))
  {
  }

  lemma {:induction false} PartsDecode(t: Tables, p: PipeState, nest: nat, bnd: seq<byte>, ps: Parts)
    requires t.Good() && Rested(p) && p.ent == PLAIN && CodedParts(nest, ps)
    ensures var q := PlayPieces(t, p, PartsPieces(nest, bnd, ps));
      PipeOk(q) && q.body == p.body + PartsContent(bnd, ps) && (Closes(ps) ==> Rested(q) && q.ent == PLAIN)
    decreases ps
  {
    hide PlayPieces, PipeOk, Play, Marked, CodedPart, PartPieces, PartContent, Rested;
    RestedOk(p);
    PartDecodes(t, p, nest, ps.part);
    var p1 := PlayPieces(t, p, PartPieces(nest, ps.part));
    if !ps.CutOff? {
      var line := [Line(bnd, ps.Closing?, ps.ws)];
      LineBody(t, p1, bnd, ps.Closing?, ps.ws);
      RestedOk(PlayPieces(t, p1, line));
      Assoc(p.body, PartContent(ps.part), Marked(bnd, ps.Closing?));
      match ps {
        case Closing(part, ws) =>
          PiecesSplit(t, p, PartPieces(nest, part), line);
        case Another(part, ws, rest) =>
          PartsDecode(t, PlayPieces(t, p1, line), nest, bnd, rest);
          PiecesSplit(t, p, PartPieces(nest, part), line + PartsPieces(nest, bnd, rest));
          PiecesSplit(t, p1, line, PartsPieces(nest, bnd, rest));
          assert p.body + PartContent(part) + Marked(bnd, false) + PartsContent(bnd, rest) == p.body + PartsContent(bnd, ps);
      }
    }
  }

  /**
    A multipart message whose parts are plain, in base64 or in quoted-printable, each as its own
    header lines say, or multipart themselves: the body checksum is fed the preamble, each
    boundary, each part's head, each text as it was before it was encoded, and the epilogues.
    */
  lemma MessageDecodes(t: Tables, p: PipeState, w: Walk, bnd: seq<byte>, pre: seq<seq<byte>>, ws: seq<byte>, ps: Parts,
      epilogue: seq<byte>)
    requires t.Good() && Rested(p) && CodedParts(1, ps)
    requires Reading(w, InPreamble, [bnd]) && PlainLines([bnd], pre) && AllBlank(ws) && GoodParts([bnd], ps, true)
    requires Closes(ps) || epilogue == []
    ensures WalkInv(w) && PipeOk(p)
    ensures var body := Concat(pre) + (Delimiter(bnd, false, ws) + (PartsBytes(bnd, ps) + epilogue));
      Ends(t, p, w, [], body).0.body == p.body + Concat(pre) + bnd + PartsContent(bnd, ps) + epilogue
  {
    hide PlayPieces, PipeOk, Run, Level, PlainLines, Reading, HdrInv, Flush, Delimiter, PartsContent, GoodParts,
      PartsPieces, PartsBytes, WalkInv, CodedParts;
    RestedOk(p);
    ReadingMode(w, InPreamble, [bnd]);
    BodyIsRead(w, bnd, pre, ws, ps, epilogue);
    PiecesDecode(t, p, bnd, pre, ws, ps, epilogue);
  }

  lemma PiecesDecode(t: Tables, p: PipeState, bnd: seq<byte>, pre: seq<seq<byte>>, ws: seq<byte>, parts: Parts,
      epilogue: seq<byte>)
    requires t.Good() && Rested(p) && CodedParts(1, parts)
    ensures PipeOk(p)
    ensures var ps := Flush(InPreamble, Concat(pre)) + [Line(bnd, false, ws)]
        + (PartsPieces(1, bnd, parts) + Flush(InEpilogue, epilogue));
      PlayPieces(t, p, ps).body == p.body + Concat(pre) + bnd + PartsContent(bnd, parts) + epilogue
  {
    hide PlayPieces, PipeOk, Flush, PartsContent, PartsPieces, CodedParts;
    var a, b: seq<Piece> := Flush(InPreamble, Concat(pre)), [Line(bnd, false, ws)];
    var c, d := PartsPieces(1, bnd, parts), Flush(InEpilogue, epilogue);
    PiecesSplit(t, p, a + b, c + d);
    PiecesSplit(t, p, a, b);
    FlushBody(t, p, InPreamble, Concat(pre));
    var p1 := PlayPieces(t, p, a);
    LineBody(t, p1, bnd, false, ws);
    var p2 := PlayPieces(t, p1, b);
    PiecesSplit(t, p2, c, d);
    PartsDecode(t, p2, 1, bnd, parts);
    FlushBody(t, PlayPieces(t, p2, c), InEpilogue, epilogue);
    assert bnd + [] == bnd;
  }

  // ---- From the header field to the checksum --------------------------------------------

  /** The header field that makes a message multipart, as its parser reads it. */
  datatype Opening = Opening(words: MultipartWords, ws: seq<byte>, word: seq<byte>, value: seq<byte>, tail: seq<byte>) {
    function Field(): seq<byte> { words.Field(ws + (word + (value + tail))) }

    function Boundary(): seq<byte> { [DASH, DASH] + Unquoted(value) }

    ghost predicate Good() {
      && GoodWords(words) && AllWS(ws) && Spells(word, BOUNDARY)
      && IsValue(value, false) && EndsField(value, tail) && 2 + |Unquoted(value)| < BND_MAX
    }
  }

  lemma FieldOpens(t: Tables, p: PipeState, w: Walk, o: Opening)
    requires t.Good() && Rested(p) && MessageReady(w.hdr) && o.Good()
    ensures PipeOk(p) && Ready(w.hdr, true)
    ensures var (p1, w1) := TakeField(t, p, w, o.Field());
      Rested(p1) && p1.body == p.body && Reading(w1, InPreamble, [o.Boundary()])
  {
    hide HdrInv, FieldRun, AsciiBytes, Unquoted, BoundaryReady, PipeOk, EqFold;
    FieldIsReady(w.hdr, o.Field());
    MessageField(w.hdr, o.words, o.ws, o.word, o.value, o.tail);
    var hdr := FieldRun(w.hdr, o.Field()).0;
    NoteNothing(t, p);
    OneOpen(hdr);
    ReadyWalks(hdr, InPreamble);
  }

  lemma NoteNothing(t: Tables, p: PipeState)
    requires t.Good() && PipeOk(p)
    ensures Play(t, p, Note([])) == p
  {
    hide ValidFuz, Accounted;
  }

  lemma OneOpen(hdr: HdrState)
    requires MessageReady(hdr) && hdr.nest == 1 && SlotsOk(hdr) && hdr.slots[0].bndLen <= BND_DIM
    ensures hdr.matches == 1 && HdrInv(hdr) && Stack(hdr) == [hdr.slots[0].bnd[..hdr.slots[0].bndLen]]
  {
  }

  /** Any header field says something about the entity at most. */
  lemma FieldRests(t: Tables, p: PipeState, w: Walk, field: seq<byte>)
    requires t.Good() && Rested(p) && MessageReady(w.hdr)
    ensures PipeOk(p) && Ready(w.hdr, true)
    ensures var (p1, w1) := TakeField(t, p, w, field); Rested(p1) && p1.body == p.body && MessageReady(w1.hdr)
  {
    hide PipeOk, HdrInv, FieldRun, Play, BoundaryReady;
    FieldIsReady(w.hdr, field);
    RestedOk(p);
    LineNoted(t, p, FieldRun(w.hdr, field).1);
  }

  lemma {:induction false} FieldsRest(t: Tables, p: PipeState, w: Walk, fields: seq<seq<byte>>)
    requires t.Good() && Rested(p) && MessageReady(w.hdr)
    ensures PipeOk(p)
    ensures var (p1, w1) := TakeFields(t, p, w, fields); Rested(p1) && p1.body == p.body && MessageReady(w1.hdr)
    decreases |fields|
  {
    hide Rested, MessageReady, TakeField;
    RestedOk(p);
    if fields != [] {
      FieldRests(t, p, w, fields[0]);
      var (p1, w1) := TakeField(t, p, w, fields[0]);
      FieldsRest(t, p1, w1, fields[1..]);
    }
  }

  /** A field that is no Content-Type, or one of a type that does not begin with m. */
  ghost predicate OpensNone(field: seq<byte>) {
    NoContentType(field) || IsOtherType(field)
  }

  /** Such a field leaves the boundary of the message alone. */
  lemma OtherFieldTaken(t: Tables, p: PipeState, w: Walk, bnd: seq<byte>, field: seq<byte>)
    requires t.Good() && Rested(p) && MessageReady(w.hdr) && Reading(w, InPreamble, [bnd]) && OpensNone(field)
    ensures PipeOk(p) && Ready(w.hdr, true)
    ensures Reading(TakeField(t, p, w, field).1, InPreamble, [bnd])
  {
    hide PipeOk, HdrInv, FieldRun, Play, NoContentType, IsOtherType;
    RestedOk(p);
    FieldIsReady(w.hdr, field);
    if NoContentType(field) {
      OtherFieldOpensNone(w.hdr, field);
    } else {
      OtherTypeOpensNone(w.hdr, field);
    }
    var hdr := FieldRun(w.hdr, field).0;
    ReadyWalks(hdr, InPreamble);
    SlotsSame(w.hdr, hdr);
  }

  lemma SlotsSame(a: HdrState, b: HdrState)
    requires HdrInv(a) && HdrInv(b) && OnlyMoved(a, b)
    ensures Stack(b) == Stack(a)
  {
  }

  lemma {:induction false} OtherFieldsTaken(t: Tables, p: PipeState, w: Walk, bnd: seq<byte>, fields: seq<seq<byte>>)
    requires t.Good() && Rested(p) && MessageReady(w.hdr) && Reading(w, InPreamble, [bnd])
    requires forall k :: 0 <= k < |fields| ==> OpensNone(fields[k])
    ensures PipeOk(p)
    ensures Reading(TakeFields(t, p, w, fields).1, InPreamble, [bnd])
    decreases |fields|
  {
    hide Rested, MessageReady, TakeField, Reading, OpensNone;
    RestedOk(p);
    if fields != [] {
      FieldRests(t, p, w, fields[0]);
      OtherFieldTaken(t, p, w, bnd, fields[0]);
      var (p1, w1) := TakeField(t, p, w, fields[0]);
      OtherFieldsTaken(t, p1, w1, bnd, fields[1..]);
    }
  }

  lemma {:induction false} FieldsSplit(t: Tables, p: PipeState, w: Walk, a: seq<seq<byte>>, b: seq<seq<byte>>)
    requires t.Good() && PipeOk(p) && MessageReady(w.hdr)
    ensures var (p1, w1) := TakeFields(t, p, w, a); TakeFields(t, p, w, a + b) == TakeFields(t, p1, w1, b)
    decreases |a|
  {
    hide PipeOk, MessageReady, TakeField;
    if a == [] {
      assert a + b == b;
    } else {
      assert (a + b)[1..] == a[1..] + b;
      NextReady(t, p, w, a[0]);
      var (p1, w1) := TakeField(t, p, w, a[0]);
      FieldsSplit(t, p1, w1, a[1..], b);
    }
  }

  lemma NextReady(t: Tables, p: PipeState, w: Walk, field: seq<byte>)
    requires t.Good() && PipeOk(p) && MessageReady(w.hdr)
    ensures Ready(w.hdr, true) && MessageReady(TakeField(t, p, w, field).1.hdr)
  {
    hide PipeOk, HdrInv, FieldRun, Play, BoundaryReady;
    FieldIsReady(w.hdr, field);
  }

  /** The header of a multipart message: any fields, the one that names the boundary, and fields that open none. */
  lemma HeaderOpens(t: Tables, p: PipeState, w: Walk, before: seq<seq<byte>>, o: Opening, later: seq<seq<byte>>)
    requires t.Good() && Rested(p) && MessageReady(w.hdr) && o.Good()
    requires forall k :: 0 <= k < |later| ==> OpensNone(later[k])
    ensures PipeOk(p)
    ensures var (p1, w1) := TakeFields(t, p, w, before + ([o.Field()] + later));
      Rested(p1) && p1.body == p.body && Reading(w1, InPreamble, [o.Boundary()])
  {
    hide Rested, MessageReady, TakeField, Reading, OpensNone, Opening.Field, Opening.Good;
    RestedOk(p);
    FieldsRest(t, p, w, before);
    FieldsSplit(t, p, w, before, [o.Field()] + later);
    var (p1, w1) := TakeFields(t, p, w, before);
    FieldOpens(t, p1, w1, o);
    FieldRests(t, p1, w1, o.Field());
    var (p2, w2) := TakeField(t, p1, w1, o.Field());
    var rest := [o.Field()] + later;
    assert rest[0] == o.Field() && rest[1..] == later;
    OtherFieldsTaken(t, p2, w2, o.Boundary(), later);
    FieldsRest(t, p2, w2, later);
  }

  /** The same from the first header field of the message on, for every boundary value and every message. */
  lemma MultipartMessage(t: Tables, p: PipeState, w: Walk, before: seq<seq<byte>>, o: Opening, later: seq<seq<byte>>,
      pre: seq<seq<byte>>, ws: seq<byte>, ps: Parts, epilogue: seq<byte>)
    requires t.Good() && Rested(p) && MessageReady(w.hdr) && o.Good() && CodedParts(1, ps)
    requires forall k :: 0 <= k < |later| ==> OpensNone(later[k])
    requires PlainLines([o.Boundary()], pre) && AllBlank(ws)
    requires GoodParts([o.Boundary()], ps, true) && (Closes(ps) || epilogue == [])
    ensures PipeOk(p)
    ensures var bnd := o.Boundary();
      var (p1, w1) := TakeFields(t, p, w, before + ([o.Field()] + later));
      var body := Concat(pre) + (Delimiter(bnd, false, ws) + (PartsBytes(bnd, ps) + epilogue));
      && WalkInv(w1)
      && Ends(t, p1, w1, [], body).0.body == p.body + Concat(pre) + bnd + PartsContent(bnd, ps) + epilogue
  {
    hide *;
    RestedOk(p);
    HeaderOpens(t, p, w, before, o, later);
    var (p1, w1) := TakeFields(t, p, w, before + ([o.Field()] + later));
    MessageDecodes(t, p1, w1, o.Boundary(), pre, ws, ps, epilogue);
  }
}
