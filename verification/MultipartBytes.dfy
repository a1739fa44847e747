/** A multipart body byte by byte, with CR LF line ends and a header in mixed case. */
module MultipartBytes {
  import opened Bytes
  import opened Entities
  import opened MimeHeader
  import opened MimeSteps
  import opened MimeFields
  import opened HeaderLines
  import opened Boundaries
  import opened Fuz2Machine
  import opened FieldTexts
  import opened Pipeline
  import opened Multipart
  import opened MultipartParts
  import opened MultipartTree
  import opened MultipartText
  import B64 = Base64
  import Bits = Base64Bits

  const HEAD := "content-Transfer-ENCODING: base64\r\n"
  const TEXT_LINE := "QUI=\r\n"

  /** One part in base64 between CR LF delimiters. */
  const BODY := "--b\r\n" + (HEAD + ("\r\n" + (TEXT_LINE + "--b--\r\n")))

  const HEAD_BYTES := AsciiBytes(HEAD)
  const TEXT_BYTES := AsciiBytes(TEXT_LINE)
  const BODY_BYTES := AsciiBytes(BODY)

  const BND: seq<byte> := [0x2D, 0x2D, 0x62]
  const BLANK: seq<byte> := [0x0D, 0x0A]

  function OnePart(): Part {
    Part([HEAD_BYTES], BLANK, Leaf([TEXT_BYTES], [0x41, 0x42]))
  }

  lemma Joined(a: string, b: string)
    requires IsAscii(a) && IsAscii(b)
    ensures IsAscii(a + b) && AsciiBytes(a + b) == AsciiBytes(a) + AsciiBytes(b)
  {
  }

  lemma Texts()
    ensures IsAscii(HEAD) && IsAscii(TEXT_LINE) && IsAscii("--b\r\n") && IsAscii("\r\n") && IsAscii("--b--\r\n")
  {
  }

  /** The header line says base64 and opens nothing. */
  lemma HeadSaysBase64()
    ensures IsHeaderLine(HEAD_BYTES) && !Continues(HEAD_BYTES)
    ensures Effects(Start(1), [HEAD_BYTES]) == [[SetCe(Base64)]] && Behind(Start(1), [HEAD_BYTES]).nest == 1
  {
    hide HdrInv, Start, Effects, Behind, IsHeaderLine, Continues;
    var c := CodingLine(AsciiBytes("content-T"), AsciiBytes("ransfer-ENCODING:"), [0x20], CodingName(AsciiBytes("base64"), Base64),
                        [0x0D, 0x0A]);
    HeadBytes(c);
    CodingIsRead(c, 1);
  }

  lemma HeadBytes(c: CodingLine)
    requires c == CodingLine(AsciiBytes("content-T"), AsciiBytes("ransfer-ENCODING:"), [0x20],
                             CodingName(AsciiBytes("base64"), Base64), [0x0D, 0x0A])
    ensures c.Good() && c.Bytes() == HEAD_BYTES
  {
    hide AsciiBytes, EqFold, Spells, IsLine;
    HeadJoined();
    Words();
    HeadIsLine();
  }

  /** The words of the line in the case that the standard writes them in. */
  lemma Words()
    ensures Spells(AsciiBytes("content-T"), CONTENT_T) && Spells(AsciiBytes("ransfer-ENCODING:"), RANSFER_ENCODING)
    ensures Spells(AsciiBytes("base64"), BASE64)
  {
    hide AsciiBytes, EqFold;
    FieldNames();
    TwoWords();
    SpellsText(AsciiBytes("content-T"), "Content-T");
    SpellsText(AsciiBytes("ransfer-ENCODING:"), "ransfer-Encoding:");
    SpellsText(AsciiBytes("base64"), "base64");
  }

  lemma TwoWords()
    ensures IsAscii("base64") && ReadsAs(AsciiBytes("base64"), "base64")
    ensures ReadsAs(AsciiBytes("content-T"), "Content-T") && ReadsAs(AsciiBytes("ransfer-ENCODING:"), "ransfer-Encoding:")
  {
    hide AsciiBytes;
  }

  lemma HeadJoined()
    ensures HEAD_BYTES
      == AsciiBytes("content-T") + (AsciiBytes("ransfer-ENCODING:") + ([0x20] + (AsciiBytes("base64") + [0x0D, 0x0A])))
  {
    hide AsciiBytes;
    HeadInParts();
    Joined("base64", "\r\n");
    Joined(" ", "base64" + "\r\n");
    Joined("ransfer-ENCODING:", " " + ("base64" + "\r\n"));
    Joined("content-T", "ransfer-ENCODING:" + (" " + ("base64" + "\r\n")));
    assert AsciiBytes("\r\n") == [0x0D, 0x0A] && AsciiBytes(" ") == [0x20];
  }

  lemma HeadInParts()
    ensures HEAD == "content-T" + ("ransfer-ENCODING:" + (" " + ("base64" + "\r\n")))
  {
  }

  lemma HeadIsLine()
    ensures IsLine(HEAD_BYTES)
  {
    hide AsciiBytes;
    var n := |HEAD| - 1;
    assert HEAD[n] == '\n' && forall k :: 0 <= k < n ==> HEAD[k] != '\n';
    assert forall k :: 0 <= k < n ==> HEAD_BYTES[..n][k] == HEAD[k] as int;
  }

  // ---- The part -------------------------------------------------------------------------

  lemma TextIsPlain()
    ensures TEXT_BYTES == [0x51, 0x55, 0x49, 0x3D, 0x0D, 0x0A] && Concat([TEXT_BYTES]) == TEXT_BYTES
    ensures PlainLines([BND], [TEXT_BYTES])
  {
    hide AsciiBytes;
    var l := TEXT_BYTES;
    assert l == [0x51, 0x55, 0x49, 0x3D, 0x0D, 0x0A];
    OneLine(l);
    assert IsLine(l);
    forall f, ws | AllBlank(ws) ensures l != Delimiter(BND, f, ws) {
      assert Delimiter(BND, f, ws)[0] == 0x2D;
    }
  }

  /** "QUI=" is the encoding of "AB". */
  lemma TextIsCoded()
    ensures Encodes(Base64, TEXT_BYTES, [0x41, 0x42])
  {
    hide AsciiBytes;
    TextIsPlain();
    hide B64.Relevant, B64.Encode, TEXT_BYTES;
    Passed();
    Coded();
  }

  lemma Passed()
    ensures B64.Relevant([0x51, 0x55, 0x49, 0x3D, 0x0D, 0x0A]) == [0x51, 0x55, 0x49, 0x3D]
  {
    hide B64.Relevant;
    var a, b, c, d: seq<byte>, e: seq<byte> := [0x0A], [0x0D, 0x0A], [0x3D, 0x0D, 0x0A], [0x49, 0x3D, 0x0D, 0x0A],
        [0x55, 0x49, 0x3D, 0x0D, 0x0A];
    NothingPassed();
    NextPassed(0x0A, []);
    NextPassed(0x0D, a);
    NextPassed(0x3D, b);
    NextPassed(0x49, c);
    NextPassed(0x55, d);
    NextPassed(0x51, e);
    assert [0x0A] + [] == a && [0x0D] + a == b && [0x3D] + b == c && [0x49] + c == d && [0x55] + d == e;
    assert [0x51] + e == [0x51, 0x55, 0x49, 0x3D, 0x0D, 0x0A];
    assert B64.Relevant(b) == [] && B64.Relevant(c) == [0x3D] && B64.Relevant(d) == [0x49, 0x3D];
  }

  lemma NothingPassed()
    ensures B64.Relevant([]) == []
  {
  }

  lemma NextPassed(c: byte, bs: seq<byte>)
    ensures B64.Relevant([c] + bs) == (if B64.Code(c) == Bits.BAD then [] else [c]) + B64.Relevant(bs)
  {
    assert ([c] + bs)[1..] == bs;
  }

  lemma Coded()
    ensures B64.Encode([0x41, 0x42]) == [0x51, 0x55, 0x49, 0x3D]
  {
  }

  lemma PartIsGood()
    ensures GoodPart([BND], OnePart(), false) && CodedPart(1, OnePart())
    ensures PartPieces(1, OnePart())
      == [Fields([SetCe(Base64)]), Fields([]), Slice(InHeaders, HEAD_BYTES + BLANK), Slice(InText, TEXT_BYTES)]
  {
    hide HdrInv, Stack, Start, Level, Effects, Behind, HEAD_BYTES, TEXT_BYTES, Encodes, NoneOf, IsHeaderLine, Continues, PlainLines;
    HeadSaysBase64();
    TextIsPlain();
    TextIsCoded();
    OneLine(HEAD_BYTES);
    BoundaryStays(Behind(Start(1), [HEAD_BYTES]));
    SaidBase64();
    var effs := [[SetCe(Base64)]];
    assert effs[1..] == [];
    assert HeadPieces(effs) == [Fields([SetCe(Base64)])];
    assert HeadOf(OnePart()) == HEAD_BYTES + BLANK;
  }

  lemma OneLine(l: seq<byte>)
    ensures Concat([l]) == l
    ensures IsHeaderLine(l) ==> GoodLines([BND], Start(1), [l])
  {
    assert |[l][1..]| == 0 && l + [] == l;
  }

  lemma BoundaryStays(s: HdrState)
    requires HdrInv(s) && s.nest == 1
    ensures OpenBehind([BND], s) == [BND]
  {
    hide HdrInv, Level;
    assert Stack(s)[1..] == [];
  }

  lemma SaidBase64()
    ensures SaidBy([[SetCe(Base64)]], PLAIN).ce == Base64
  {
    var effs := [[SetCe(Base64)]];
    assert effs[1..] == [] && effs[0][1..] == [];
    assert ApplyAll(PLAIN, effs[0]) == ApplyAll(Apply(PLAIN, SetCe(Base64)), []);
  }

  // ---- The body -------------------------------------------------------------------------

  lemma BodyJoined()
    ensures BODY_BYTES
      == Concat<byte>([]) + (Delimiter(BND, false, [0x0D]) + (PartsBytes(BND, Closing(OnePart(), [0x0D])) + []))
  {
    hide AsciiBytes;
    Texts();
    Joined(TEXT_LINE, "--b--\r\n");
    Joined("\r\n", TEXT_LINE + "--b--\r\n");
    Joined(HEAD, "\r\n" + (TEXT_LINE + "--b--\r\n"));
    Joined("--b\r\n", HEAD + ("\r\n" + (TEXT_LINE + "--b--\r\n")));
    OneLine(HEAD_BYTES);
    OneLine(TEXT_BYTES);
    Delimiters();
    var h, x, e := HEAD_BYTES, TEXT_BYTES, AsciiBytes("--b--\r\n");
    PartsAre(h, x);
    assert h + (BLANK + (x + e)) == h + (BLANK + x) + e;
  }

  lemma PartsAre(h: seq<byte>, x: seq<byte>)
    requires h == HEAD_BYTES && x == TEXT_BYTES
    ensures PartsBytes(BND, Closing(OnePart(), [0x0D])) == h + (BLANK + x) + Delimiter(BND, true, [0x0D])
  {
    hide HEAD_BYTES, TEXT_BYTES, Delimiter;
    OneLine(h);
    OneLine(x);
    assert BodyBytes(OnePart().body) == x;
    assert PartBytes(OnePart()) == h + (BLANK + x);
  }

  lemma Delimiters()
    ensures AsciiBytes("--b\r\n") == Delimiter(BND, false, [0x0D]) && AsciiBytes("--b--\r\n") == Delimiter(BND, true, [0x0D])
    ensures AsciiBytes("\r\n") == BLANK
  {
    hide AsciiBytes;
    assert Delimiter(BND, false, [0x0D]) == [0x2D, 0x2D, 0x62, 0x0D, 0x0A];
    assert Delimiter(BND, true, [0x0D]) == [0x2D, 0x2D, 0x62, 0x2D, 0x2D, 0x0D, 0x0A];
  }

  lemma PartsAreGood()
    ensures GoodParts([BND], Closing(OnePart(), [0x0D]), true) && CodedParts(1, Closing(OnePart(), [0x0D]))
  {
    hide GoodPart, CodedPart, Delimiter, OnePart;
    PartIsGood();
    assert [BND][..0] == [];
    NoneOfNone(Delimiter(BND, true, [0x0D]));
  }

  /** The walk finds both delimiters, the header and the text. */
  lemma BodyIsWalked(w: Walk)
    requires Reading(w, InPreamble, [BND])
    ensures WalkInv(w)
    ensures Run(w, [], BODY_BYTES).pieces == [Line(BND, false, [0x0D]),
        Fields([SetCe(Base64)]), Fields([]), Slice(InHeaders, HEAD_BYTES + BLANK), Slice(InText, TEXT_BYTES),
        Line(BND, true, [0x0D])]
  {
    hide HdrInv, Run, HEAD_BYTES, TEXT_BYTES, BODY_BYTES, Delimiter, WalkInv, GoodParts, PartsBytes, PartPieces, PartsPieces,
      PlainLines, Reading, Flush, OnePart, Concat;
    ReadingMode(w, InPreamble, [BND]);
    var ps := Closing(OnePart(), [0x0D]);
    PartsAreGood();
    BodyJoined();
    PartIsGood();
    NoLines();
    BodyIsRead(w, BND, [], [0x0D], ps, []);
    PiecesAre(PartPieces(1, OnePart()));
  }

  lemma PiecesAre(part: seq<Piece>)
    requires part == PartPieces(1, OnePart())
    ensures Flush(InPreamble, []) + [Line(BND, false, [0x0D])]
        + (PartsPieces(1, BND, Closing(OnePart(), [0x0D])) + Flush(InEpilogue, []))
      == [Line(BND, false, [0x0D])] + part + [Line(BND, true, [0x0D])]
  {
    hide PartPieces, OnePart;
  }

  lemma NoLines()
    ensures PlainLines([BND], []) && Concat<byte>([]) == []
  {
  }

  /** The body checksum gets the boundaries, the header as it stands, and the two bytes that were encoded. */
  lemma BodyIsDecoded(t: Tables, p: PipeState, w: Walk)
    requires t.Good() && Rested(p) && Reading(w, InPreamble, [BND])
    ensures WalkInv(w) && PipeOk(p)
    ensures Ends(t, p, w, [], BODY_BYTES).0.body
      == p.body + BND + (HEAD_BYTES + BLANK + [0x41, 0x42] + (BND + [0x2D, 0x2D]))
  {
    hide HdrInv, Run, HEAD_BYTES, TEXT_BYTES, BODY_BYTES, Delimiter, WalkInv, GoodParts, CodedParts, PartsBytes, PlainLines, Reading, PipeOk, Rested, Ends;
    var ps := Closing(OnePart(), [0x0D]);
    PartsAreGood();
    BodyJoined();
    NoLines();
    MessageDecodes(t, p, w, BND, [], [0x0D], ps, []);
    OneLine(HEAD_BYTES);
    assert HeadOf(OnePart()) == HEAD_BYTES + BLANK;
    assert PartsContent(BND, ps) == HEAD_BYTES + BLANK + [0x41, 0x42] + (BND + [0x2D, 0x2D]);
    assert p.body + [] == p.body;
  }
}
