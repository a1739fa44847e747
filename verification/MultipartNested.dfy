/** Outer delimiters behind the closing delimiter of a nested body: when the walk finds them, and an input on which it does not. */
module MultipartNested {
  import opened Bytes
  import opened MimeHeader
  import opened MimeFields
  import opened HeaderLines
  import opened Boundaries
  import opened Pipeline
  import opened Multipart
  import opened MultipartParts
  import opened MultipartTree

  /** Text that waits to be summed outside of headers comes first, and what follows may join it. */
  lemma {:induction false} TextComesFirst(w: Walk, sum: seq<byte>, t: seq<byte>)
    requires WalkInv(w) && w.mp != InHeaders && sum != []
    ensures var ps := Run(w, sum, t).pieces; ps != [] && ps[0].Slice? && ps[0].mp == w.mp && sum <= ps[0].bytes
    decreases |t|, w.hdr.matches != 0
  {
    hide HdrInv, Scan, AtDelimiter, Level, FirstLine, WalkInv, LineOf;
    Invariant(w);
    if t != [] && w.hdr.nest != 0 && w.hdr.matches == 0 {
      RunLine(w, sum, t);
      TextComesFirst(TakeLine(w, FirstLine(t)).0, sum + FirstLine(t), t[|FirstLine(t)|..]);
    } else if t != [] && w.hdr.nest != 0 {
      RunTest(w, sum, t);
      var (hdr, hit) := Scan(w.hdr, t, 0, false);
      if hit == NoHit(false) {
        TextComesFirst(w.(hdr := hdr), sum, t);
      }
    }
  }

  /** The epilogue of a body, as far as it goes, and then the outer delimiter. */
  ghost predicate Reports(ps: seq<Piece>, epilogue: seq<byte>, bnd: seq<byte>, final: bool, ws: seq<byte>) {
    Flush(InEpilogue, epilogue) + [Line(bnd, final, ws)] <= ps
  }

  /**
    Behind a closing delimiter a delimiter of the boundary around it is found exactly when a line
    stands in between. Without one it is the beginning of the text of the epilogue.
    */
  lemma OuterIsFound(w: Walk, bnds: seq<seq<byte>>, epi: seq<seq<byte>>, final: bool, ws: seq<byte>, rest: seq<byte>)
    requires AtEpilogue(w, bnds) && bnds != [] && AllBlank(ws)
    requires NoneOf(bnds[..|bnds| - 1], Delimiter(bnds[|bnds| - 1], final, ws))
    requires epi != [] ==> IsLine(epi[0]) && PlainLines(bnds, epi[1..])
    ensures WalkInv(w)
    ensures var bnd := bnds[|bnds| - 1];
      var ps := Run(w, [], Concat(epi) + (Delimiter(bnd, final, ws) + rest)).pieces;
      && (Reports(ps, Concat(epi), bnd, final, ws) <==> epi != [])
      && (epi == [] ==> ps != [] && ps[0].Slice? && ps[0].mp == InEpilogue && Delimiter(bnd, final, ws) <= ps[0].bytes)
  {
    hide HdrInv, Run, WalkInv, Reading, NoneOf, AtEpilogue, PlainLines, Delimiter;
    AtInv(w, bnds);
    var bnd := bnds[|bnds| - 1];
    var d := Delimiter(bnd, final, ws);
    if epi == [] {
      OuterIsLine(w, bnds, final, ws);
      assert Concat(epi) + (d + rest) == d + rest;
      var w1 := ClosingHidesNext(w, bnds, d, rest);
      ReadingMode(w1, InEpilogue, bnds);
      TextComesFirst(w1, d, rest);
    } else {
      var w1 := EpilogueIsReadOn(w, bnds, epi, d + rest);
      ReadingMode(w1, InEpilogue, bnds);
      var w2 := LineIsRead(w1, InEpilogue, bnds, bnds, Concat(epi), final, ws, rest);
    }
  }

  lemma OuterIsLine(w: Walk, bnds: seq<seq<byte>>, final: bool, ws: seq<byte>)
    requires AtEpilogue(w, bnds) && bnds != [] && AllBlank(ws)
    ensures IsLine(Delimiter(bnds[|bnds| - 1], final, ws))
  {
    hide HdrInv, Level;
    var i := |bnds| - 1;
    assert bnds[i] == Stack(w.hdr)[i] == Level(w.hdr, i);
    var d := Delimiter(bnds[i], final, ws);
    assert d[..|d| - 1] == Marked(bnds[i], final) + ws;
  }

  // ---- One nested body ------------------------------------------------------------------

  const A: seq<byte> := [DASH, DASH, 0x61]
  const B: seq<byte> := [DASH, DASH, 0x62]
  const EMPTY: seq<byte> := [LF]
  const TEXT_LINE: seq<byte> := [0x79, LF]

  const WORDS := MultipartWords(CONTENT_T, YPE, [SP], MULTIPART, [SLASH, 0x78], SEMI, [])

  /** "Content-Type: multipart/x;boundary=b" and its line end. */
  const FIELD: seq<byte> := WORDS.Field([] + (BOUNDARY + ([0x62] + ([LF] + []))))

  /** A part that is multipart with one empty part, and behind it a text of one line. */
  function Nested(gap: seq<byte>): seq<byte> {
    Delimiter(A, false, []) + FIELD + EMPTY + Delimiter(B, false, []) + EMPTY + Delimiter(B, true, []) + gap
    + Delimiter(A, false, []) + EMPTY + TEXT_LINE + Delimiter(A, true, [])
  }

  const EMPTY_PART := Part([], EMPTY, Leaf([], []))

  function Inner(epilogue: seq<seq<byte>>): Part {
    Part([FIELD], EMPTY, Mixed(B, [], [], [], Closing(EMPTY_PART, []), epilogue))
  }

  lemma FieldIsRead()
    ensures IsHeaderLine(FIELD) && !Continues(FIELD) && Effects(Start(1), [FIELD]) == [[]]
    ensures OpenBehind([A], Behind(Start(1), [FIELD])) == [A, B]
  {
    hide HdrInv, AsciiBytes, Start, Stack, Behind, Effects;
    assert Unquoted([0x62]) == [0x62] by { assert [0x62][1..] == []; }
    FieldLineOpens([A], WORDS, [], BOUNDARY, [0x62], LF, []);
    assert [DASH, DASH] + [0x62] == B && [A] + [B] == [A, B];
  }

  lemma NoDelimiter(l: seq<byte>, bnd: seq<byte>)
    requires l != [] && bnd != [] && (l[0] != bnd[0] || (|l| > 2 && |bnd| > 2 && l[2] != bnd[2]))
    ensures NoneOf([bnd], l)
  {
    forall f, ws | AllBlank(ws) ensures l != Delimiter(bnd, f, ws) {
      assert Delimiter(bnd, f, ws)[0] == bnd[0];
    }
  }

  lemma PlainBelow(bnds: seq<seq<byte>>, l: seq<byte>, f: bool)
    requires bnds == [A] && (l == EMPTY || l == TEXT_LINE || l == Delimiter(B, f, []))
    ensures NoneOf(bnds, l)
  {
    if l == Delimiter(B, f, []) {
      assert l[2] == 0x62;
    }
    NoDelimiter(l, A);
  }

  lemma InnerIsGood(epilogue: seq<seq<byte>>)
    requires epilogue != [] && IsLine(epilogue[0]) && PlainLines([A], epilogue[1..])
    ensures GoodPart([A], Inner(epilogue), false)
  {
    hide HdrInv, Stack, Level, IsDelimiter, FIELD, NextLine, OpenBehind, Behind, GoodPart, IsHeaderLine;
    FieldIsRead();
    EmptyIsGood();
    PlainBelow([A], Delimiter(B, false, []), false);
    PlainBelow([A], Delimiter(B, true, []), true);
    assert [A] + [B] == [A, B] && [A, B][..1] == [A] && [A, B][1] == B;
    var parts := Closing(EMPTY_PART, []);
    assert GoodParts([A, B], parts, false);
    assert GoodBody([A], [A, B], Mixed(B, [], [], [], parts, epilogue), false);
    OneGoodLine(FIELD);
    InnerPart(epilogue);
  }

  lemma OneGoodLine(l: seq<byte>)
    requires IsHeaderLine(l)
    ensures GoodLines([A], Start(1), [l])
  {
    assert |[l][1..]| == 0;
  }

  lemma InnerPart(epilogue: seq<seq<byte>>)
    requires !Continues(FIELD) && GoodLines([A], Start(1), [FIELD])
    requires GoodBody([A], OpenBehind([A], Behind(Start(1), [FIELD])), Inner(epilogue).body, false)
    ensures GoodPart([A], Inner(epilogue), false)
  {
    hide FIELD, GoodBody, GoodLines, OpenBehind, Behind, HdrInv;
  }

  lemma InnerIs(epilogue: seq<seq<byte>>)
    ensures PartPieces(1, Inner(epilogue)) == [Fields([]), Fields([]), Slice(InHeaders, FIELD + EMPTY), Line(B, false, []),
        Fields([]), Slice(InHeaders, EMPTY), Line(B, true, [])] + Flush(InEpilogue, Concat(epilogue))
  {
    hide HdrInv, Stack, Level, FIELD, Delimiter, Effects, Concat, Behind, OpenBehind, GoodPart, IsHeaderLine, Continues;
    FieldIsRead();
    EmptyIsGood();
    OneLine(FIELD);
    NoLines();
    var parts := Closing(EMPTY_PART, []);
    var body := Mixed(B, [], [], [], parts, epilogue);
    assert PartsPieces(2, B, parts) == [Fields([]), Slice(InHeaders, EMPTY), Line(B, true, [])];
    assert BodyPieces(1, body) == [Line(B, false, []), Fields([]), Slice(InHeaders, EMPTY), Line(B, true, [])]
        + Flush(InEpilogue, Concat(epilogue));
    assert HeadPieces(Says(1, Inner(epilogue))) == [Fields([])];
  }

  lemma InnerBytes(epilogue: seq<seq<byte>>)
    ensures PartBytes(Inner(epilogue)) == FIELD + EMPTY + Delimiter(B, false, []) + EMPTY + Delimiter(B, true, []) + Concat(epilogue)
  {
    hide FIELD, Delimiter, Concat, GoodPart, PartPieces;
    OneLine(FIELD);
    NoLines();
    EmptyIsGood();
    var body := Inner(epilogue).body;
    assert BodyBytes(body) == Delimiter(B, false, []) + EMPTY + Delimiter(B, true, []) + Concat(epilogue);
  }

  lemma OneLine(l: seq<byte>)
    ensures Concat([l]) == l
  {
    assert [l][1..] == [] && l + [] == l;
  }

  lemma NoLines()
    ensures Concat<byte>([]) == []
  {
  }

  lemma EmptyIsGood()
    ensures GoodPart([A, B], EMPTY_PART, false)
    ensures PartPieces(2, EMPTY_PART) == [Fields([]), Slice(InHeaders, EMPTY)]
    ensures PartBytes(EMPTY_PART) == EMPTY
  {
    hide HdrInv, Level;
    assert Stack(Start(2))[2..] == [];
    assert HeadOf(EMPTY_PART) == EMPTY;
  }

  lemma TextIsGood()
    ensures GoodPart([A], Part([], EMPTY, Leaf([TEXT_LINE], TEXT_LINE)), false)
    ensures PartPieces(1, Part([], EMPTY, Leaf([TEXT_LINE], TEXT_LINE))) == [Fields([]), Slice(InHeaders, EMPTY), Slice(InText, TEXT_LINE)]
    ensures PartBytes(Part([], EMPTY, Leaf([TEXT_LINE], TEXT_LINE))) == EMPTY + TEXT_LINE
  {
    hide HdrInv, Level;
    assert Stack(Start(1))[1..] == [];
    PlainBelow([A], TEXT_LINE, false);
    assert Concat([TEXT_LINE]) == TEXT_LINE;
    assert HeadOf(Part([], EMPTY, Leaf([TEXT_LINE], TEXT_LINE))) == EMPTY;
  }

  /** With an empty line in between the delimiter of A is found, and the text behind it is a part of its own. */
  lemma ApartIsFound(w: Walk)
    requires Reading(w, InPreamble, [A])
    ensures WalkInv(w)
    ensures Run(w, [], Nested([LF])).pieces == [Line(A, false, []),
        Fields([]), Fields([]), Slice(InHeaders, FIELD + EMPTY), Line(B, false, []),
        Fields([]), Slice(InHeaders, EMPTY), Line(B, true, []), Slice(InEpilogue, EMPTY),
        Line(A, false, []), Fields([]), Slice(InHeaders, EMPTY), Slice(InText, TEXT_LINE), Line(A, true, [])]
  {
    hide HdrInv, Run, Level, FIELD, GoodPart, PartPieces, PartBytes, Delimiter, WalkInv, Inner;
    ReadingMode(w, InPreamble, [A]);
    var epilogue := [EMPTY];
    assert Concat(epilogue) == EMPTY && epilogue[1..] == [];
    InnerIsGood(epilogue);
    InnerIs(epilogue);
    InnerBytes(epilogue);
    TextIsGood();
    var text := Part([], EMPTY, Leaf([TEXT_LINE], TEXT_LINE));
    var ps := Another(Inner(epilogue), [], Closing(text, []));
    NoneOfNone(Delimiter(A, false, []));
    NoneOfNone(Delimiter(A, true, []));
    assert [A][..0] == [];
    BodyIsRead(w, A, [], [], ps, []);
    assert Concat<byte>([]) + (Delimiter(A, false, []) + (PartsBytes(A, ps) + [])) == Nested([LF]);
  }

  /** With nothing in between it is missed: the text behind it joins the epilogue, and is no part. */
  lemma AdjacentIsMissed(w: Walk)
    requires Reading(w, InPreamble, [A])
    ensures WalkInv(w)
    ensures Run(w, [], Nested([])).pieces == [Line(A, false, []),
        Fields([]), Fields([]), Slice(InHeaders, FIELD + EMPTY), Line(B, false, []),
        Fields([]), Slice(InHeaders, EMPTY), Line(B, true, []),
        Slice(InEpilogue, Delimiter(A, false, []) + EMPTY + TEXT_LINE), Line(A, true, [])]
  {
    hide HdrInv, Run, Level, FIELD, GoodPart, PartPieces, PartBytes, Delimiter, WalkInv, Inner;
    ReadingMode(w, InPreamble, [A]);
    var epilogue := [Delimiter(A, false, []), EMPTY, TEXT_LINE];
    assert epilogue[1..] == [EMPTY, TEXT_LINE] && epilogue[1..][1..] == [TEXT_LINE] && [TEXT_LINE][1..] == [];
    ThreeLines(Delimiter(A, false, []), EMPTY, TEXT_LINE);
    DelimiterOfA();
    PlainBelow([A], EMPTY, false);
    PlainBelow([A], TEXT_LINE, false);
    InnerIsGood(epilogue);
    InnerIs(epilogue);
    InnerBytes(epilogue);
    var ps := Closing(Inner(epilogue), []);
    NoneOfNone(Delimiter(A, false, []));
    NoneOfNone(Delimiter(A, true, []));
    assert [A][..0] == [];
    BodyIsRead(w, A, [], [], ps, []);
    assert Concat<byte>([]) + (Delimiter(A, false, []) + (PartsBytes(A, ps) + [])) == Nested([]);
  }

  lemma ThreeLines(a: seq<byte>, b: seq<byte>, c: seq<byte>)
    ensures Concat([a, b, c]) == a + b + c
  {
    assert [a, b, c][1..] == [b, c] && [b, c][1..] == [c];
    OneLine(c);
    assert Concat([b, c]) == b + c;
  }

  lemma DelimiterOfA()
    ensures IsLine(Delimiter(A, false, []))
  {
  }
}
