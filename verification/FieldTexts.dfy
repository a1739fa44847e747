/** Header fields as they are written: what the header machine reads from literal text in any letter case. */
module FieldTexts {
  import opened Bytes
  import opened Entities
  import opened MimeHeader
  import opened MimeSteps
  import opened MimeFields
  import opened MimeTypes

  predicate IsAscii(text: string) {
    forall k :: 0 <= k < |text| ==> text[k] < 128 as char
  }

  /** The byte is the character, or the other case of the letter it is. */
  predicate ReadsOne(b: byte, c: char) {
    || b == c as int
    || (0x41 <= c as int <= 0x5A && b == c as int + 0x20)
    || (0x61 <= c as int <= 0x7A && b == c as int - 0x20)
  }

  /** The text, with the case of any of its letters changed. */
  predicate ReadsAs(word: seq<byte>, text: string) {
    |word| == |text| && forall k :: 0 <= k < |word| ==> ReadsOne(word[k], text[k])
  }

  /** Two bytes match exactly when they are equal, or one letter in its two cases. */
  lemma FoldsAlike(a: byte, b: byte)
    ensures Match([a], 0, [b]) == Matched
      <==> a == b || (0x41 <= a <= 0x5A && b == a + 0x20) || (0x41 <= b <= 0x5A && a == b + 0x20)
  {
    assert [a][0..1] == [a] && [b][..1] == [b];
    assert EqFold([a], [b]) <==> ToLower([a][0]) == ToLower([b][0]);
  }

  lemma ReadsIsFold(word: seq<byte>, text: string)
    requires IsAscii(text)
    ensures ReadsAs(word, text) <==> EqFold(word, AsciiBytes(text))
  {
    var bs := AsciiBytes(text);
    if |word| == |text| {
      forall k | 0 <= k < |word| ensures ReadsOne(word[k], text[k]) <==> ToLower(word[k]) == ToLower(bs[k]) {
      }
    }
  }

  lemma ReadsParts(word: seq<byte>, a: string, b: string)
    requires ReadsAs(word, a + b)
    ensures |a| <= |word| && ReadsAs(word[..|a|], a) && ReadsAs(word[|a|..], b) && word == word[..|a|] + word[|a|..]
  {
    assert forall k :: 0 <= k < |a| ==> (a + b)[k] == a[k];
    assert forall k :: 0 <= k < |b| ==> (a + b)[|a| + k] == b[k];
  }

  /** Space, tab, line feed and carriage return. */
  predicate Blanks(ws: seq<byte>) {
    forall k :: 0 <= k < |ws| ==> ws[k] == 0x20 || ws[k] == 0x09 || ws[k] == 0x0A || ws[k] == 0x0D
  }

  lemma BlanksAreWS(ws: seq<byte>)
    requires Blanks(ws)
    ensures AllWS(ws)
  {
  }

  lemma SpellsText(word: seq<byte>, text: string)
    requires IsAscii(text) && ReadsAs(word, text) && text != []
    ensures Spells(word, AsciiBytes(text))
  {
    ReadsIsFold(word, text);
  }

  lemma FieldNames()
    ensures IsAscii("Content-T") && IsAscii("ransfer-Encoding:") && IsAscii("ype:")
    ensures "Content-Transfer-Encoding:" == "Content-T" + "ransfer-Encoding:" && "Content-Type:" == "Content-T" + "ype:"
  {
  }

  /** A transfer encoding field in any case sets base64 or quoted-printable, whatever stands behind the name. */
  lemma CodingInBytes(s: HdrState, word: seq<byte>, ws: seq<byte>, coding: seq<byte>, base64: bool, rest: seq<byte>,
      inHdrs: bool)
    requires Ready(s, inHdrs) && s.st.MhCeCt? && s.pos == 0
    requires ReadsAs(word, "Content-Transfer-Encoding:") && Blanks(ws)
    requires ReadsAs(coding, if base64 then "base64" else "quoted-printable")
    ensures HdrRun(s, word + (ws + (coding + rest)), inHdrs)
      == (s.(st := MhIdle, pos := 0), [SetCe(if base64 then Base64 else QuotedPrintable)])
  {
    hide HdrInv, HdrRun, AsciiBytes, EqFold, ReadsAs;
    FieldNames();
    ReadsParts(word, "Content-T", "ransfer-Encoding:");
    var ct, te := word[..9], word[9..];
    SpellsText(ct, "Content-T");
    SpellsText(te, "ransfer-Encoding:");
    SpellsText(coding, if base64 then "base64" else "quoted-printable");
    EncodingField(s, ct, te, ws, CodingName(coding, if base64 then Base64 else QuotedPrintable), rest, inHdrs);
    Assoc(ct, te, ws + (coding + rest));
  }

  // ---- Content-Type ---------------------------------------------------------------------

  lemma TypeWords(word: seq<byte>) returns (ct: seq<byte>, ype: seq<byte>)
    requires ReadsAs(word, "Content-Type:")
    ensures Spells(ct, CONTENT_T) && Spells(ype, YPE) && word == ct + ype
  {
    hide AsciiBytes, EqFold, ReadsAs;
    FieldNames();
    ReadsParts(word, "Content-T", "ype:");
    ct, ype := word[..9], word[9..];
    SpellsText(ct, "Content-T");
    SpellsText(ype, "ype:");
  }

  lemma TypeNames()
    ensures IsAscii("text") && IsAscii("/html") && IsAscii("charset=") && IsAscii("iso-8859-")
    ensures IsAscii("multipart") && IsAscii("boundary=")
  {
  }

  lemma SemicolonIsNoHtml(rest: seq<byte>)
    ensures Match(SLASH_HTML, 0, [0x3B] + rest) == Failed
  {
    var bp := [0x3B] + rest;
    var n := CompareLen(SLASH_HTML, 0, bp);
    assert n > 0 && SLASH_HTML[0..n][0] == 0x2F && bp[..n][0] == 0x3B;
  }

  /**
    A text field in any case: "text" or "text/html", a semicolon, blanks, and the number of an 8859
    character set. Only the number 2 with a quote, a blank or a semicolon behind it picks 8859-2.
    */
  lemma TextInBytes(s: HdrState, word: seq<byte>, ws: seq<byte>, text: seq<byte>, html: bool, ws2: seq<byte>,
      charset: seq<byte>, digit: byte, stop: byte, more: seq<byte>, inHdrs: bool)
    requires Ready(s, inHdrs) && s.st.MhCeCt? && s.pos == 0
    requires ReadsAs(word, "Content-Type:") && Blanks(ws) && ReadsAs(text, if html then "text/html" else "text") && Blanks(ws2)
    requires ReadsAs(charset, "charset=iso-8859-") && 0x30 <= digit <= 0x39 && !(0x30 <= stop <= 0x39)
    ensures HdrRun(s, word + (ws + (text + ([0x3B] + (ws2 + (charset + ([digit] + ([stop] + more))))))), inHdrs).1
      == [SetCt(Text)] + (if html then [SetCt(Html)] else []) + [SetCset(
            if digit == 0x32 && stop in [0x22, 0x20, 0x09, 0x0A, 0x0D, 0x3B] then Latin2 else Latin1)]
  {
    hide HdrInv, HdrRun, AsciiBytes, EqFold, ReadsAs, Match, Number, Spells, AllDigits, TextWords.Field, TextWords.Params,
      CharsetWords.Bytes;
    TypeNames();
    var ct, ype := TypeWords(word);
    var name, slash := SplitHtml(text, html);
    CharsetWord();
    ReadsParts(charset, "charset=", "iso-8859-");
    var cset, iso := charset[..8], charset[8..];
    SpellsText(cset, "charset=");
    SpellsText(iso, "iso-8859-");
    var w := TextWords(ct, ype, ws, name, slash, [], 0x3B, []);
    var c := Numbered(ws2, cset, false, iso, [digit], stop, more);
    OneDigit(digit);
    TextIsWritten(w, c, charset, digit);
    var s' := TextField(s, w, c, inHdrs);
  }

  lemma TextIsWritten(w: TextWords, c: CharsetWords, charset: seq<byte>, digit: byte)
    requires w.param == [] && w.sep == 0x3B && w.others == []
    requires c.Numbered? && !c.quote && charset == c.charset + c.iso && c.ds == [digit]
    ensures c.Bytes() == c.ws + (charset + ([digit] + ([c.stop] + c.more)))
    ensures w.Field(c.Bytes()) == w.ct + w.ype + (w.ws + (w.text + w.html + ([0x3B] + c.Bytes()))) && w.NotHtml(c.Bytes())
  {
    hide Match;
    var rest := c.Bytes();
    assert w.Params(rest) == [0x3B] + rest;
    SemicolonIsNoHtml(rest);
    Assoc(w.ct, w.ype, w.ws + (w.text + (w.html + ([0x3B] + rest))));
    Assoc(w.text, w.html, [0x3B] + rest);
  }

  lemma CharsetWord()
    ensures "charset=iso-8859-" == "charset=" + "iso-8859-"
  {
  }

  lemma SplitHtml(text: seq<byte>, html: bool) returns (name: seq<byte>, slash: seq<byte>)
    requires ReadsAs(text, if html then "text/html" else "text")
    ensures Spells(name, TEXT) && (if html then Spells(slash, SLASH_HTML) && slash != [] else slash == []) && text == name + slash
  {
    hide AsciiBytes, EqFold, ReadsAs;
    TypeNames();
    if html {
      assert "text/html" == "text" + "/html";
      ReadsParts(text, "text", "/html");
      name, slash := text[..4], text[4..];
      SpellsText(slash, "/html");
    } else {
      name, slash := text, [];
    }
    SpellsText(name, "text");
  }

  lemma OneDigit(digit: byte)
    requires 0x30 <= digit <= 0x39
    ensures AllDigits([digit]) && Number(0, [digit]) == digit as int - 0x30
  {
    assert [digit][1..] == [];
  }

  /** A boundary value as it is written: quoted, or without blanks, semicolons and quotes. */
  predicate Value(v: seq<byte>, quoted: bool) {
    && (forall k :: 0 <= k < |v| ==> v[k] != 0x22 && v[k] != 0x0A && v[k] != 0x0D)
    && (!quoted ==> forall k :: 0 <= k < |v| ==> v[k] != 0x20 && v[k] != 0x09 && v[k] != 0x3B)
  }

  lemma {:induction false} ValueReads(v: seq<byte>, open: bool)
    requires Value(v, open)
    ensures IsValue(v, open) && Unquoted(v) == v && EndQuote(v, open) == open
  {
    if v != [] {
      ValueReads(v[1..], open);
      assert v == [v[0]] + v[1..];
    }
  }

  lemma {:induction false} ClosedValue(v: seq<byte>)
    requires Value(v, true)
    ensures IsValue(v + [0x22], true) && Unquoted(v + [0x22]) == v && !EndQuote(v + [0x22], true)
  {
    var all := v + [0x22];
    if v == [] {
      assert all[1..] == [];
    } else {
      assert all[1..] == v[1..] + [0x22];
      ClosedValue(v[1..]);
      assert v == [v[0]] + v[1..];
    }
  }

  /** The value with its quotes. */
  function Written(v: seq<byte>, quoted: bool): seq<byte> {
    if quoted then [0x22] + (v + [0x22]) else v
  }

  lemma WrittenReads(v: seq<byte>, quoted: bool)
    requires Value(v, quoted)
    ensures var w := Written(v, quoted); IsValue(w, false) && Unquoted(w) == v && !EndQuote(w, false)
  {
    if quoted {
      ClosedValue(v);
      assert Written(v, true)[1..] == v + [0x22];
    } else {
      ValueReads(v, false);
    }
  }

  /** No blank and no semicolon. */
  predicate NoBlanks(sub: seq<byte>) {
    forall k :: 0 <= k < |sub| ==>
      sub[k] != 0x20 && sub[k] != 0x09 && sub[k] != 0x0A && sub[k] != 0x0D && sub[k] != 0x3B
  }

  /** A line feed, a space, a tab or a semicolon. */
  predicate Separates(c: byte) { c == 0x0A || c == 0x20 || c == 0x09 || c == 0x3B }

  /** A multipart field in any case, its boundary quoted or not: one more level, with two dashes in front of the value. */
  lemma MultipartInBytes(s: HdrState, word: seq<byte>, ws: seq<byte>, multi: seq<byte>, sub: seq<byte>, ws2: seq<byte>,
      boundary: seq<byte>, v: seq<byte>, quoted: bool, end: byte, rest: seq<byte>, inHdrs: bool)
    requires Ready(s, inHdrs) && s.st.MhCeCt? && s.pos == 0 && (inHdrs || s.nest < 3)
    requires ReadsAs(word, "Content-Type:") && Blanks(ws) && ReadsAs(multi, "multipart") && Blanks(ws2)
    requires NoBlanks(sub) && ReadsAs(boundary, "boundary=") && Value(v, quoted) && |v| < 92 && Separates(end)
    ensures var (s', effs) :=
        HdrRun(s, word + (ws + (multi + (sub + ([0x3B] + (ws2 + (boundary + (Written(v, quoted) + ([end] + rest)))))))), inHdrs);
      var k := if inHdrs then 0 else s.nest;
      && effs == [] && s'.nest == k + 1 && SlotsOk(s') && s'.slots[k].bndLen == 2 + |v|
      && s'.slots[k].bnd[..2 + |v|] == [0x2D, 0x2D] + v
  {
    hide HdrInv, HdrRun, AsciiBytes, EqFold, ReadsAs, Spells, Unquoted, IsValue, EndQuote, Written, MultipartWords.Field,
      GoodWords, Blanks, NoBlanks, Value;
    TypeNames();
    var ct, ype := TypeWords(word);
    SpellsText(multi, "multipart");
    SpellsText(boundary, "boundary=");
    WrittenReads(v, quoted);
    var w := MultipartWords(ct, ype, ws, multi, sub, 0x3B, []);
    GoodMultipart(w);
    BlanksAreWS(ws2);
    var tail := ws2 + (boundary + (Written(v, quoted) + ([end] + rest)));
    MultipartField(s, w, ws2, boundary, Written(v, quoted), end, rest, inHdrs);
    MultipartIsWritten(w, tail);
  }

  lemma GoodMultipart(w: MultipartWords)
    requires Spells(w.ct, CONTENT_T) && Spells(w.ype, YPE) && Spells(w.multi, MULTIPART)
    requires Blanks(w.ws) && NoBlanks(w.sub) && w.sep == 0x3B && w.others == []
    ensures GoodWords(w)
  {
    hide AsciiBytes, EqFold;
  }

  lemma MultipartIsWritten(w: MultipartWords, tail: seq<byte>)
    requires w.sep == 0x3B && w.others == []
    ensures w.Field(tail) == w.ct + w.ype + (w.ws + (w.multi + (w.sub + ([0x3B] + tail))))
  {
    assert ParamBytes([]) + tail == tail;
    Assoc(w.ct, w.ype, w.ws + (w.multi + (w.sub + ([0x3B] + tail))));
  }

  /** A type that begins with neither t nor m, in either case, is binary. */
  lemma BinaryInBytes(s: HdrState, word: seq<byte>, ws: seq<byte>, name: seq<byte>, inHdrs: bool)
    requires Ready(s, inHdrs) && s.st.MhCeCt? && s.pos == 0
    requires ReadsAs(word, "Content-Type:") && Blanks(ws) && name != []
    requires var c := name[0];
      && c != 0x20 && c != 0x09 && c != 0x0A && c != 0x0D && c != 0x54 && c != 0x74 && c != 0x4D && c != 0x6D
    ensures HdrRun(s, word + (ws + name), inHdrs) == (s.(st := MhIdle), [SetCt(Binary)])
  {
    hide HdrInv, HdrRun, AsciiBytes, EqFold, ReadsAs;
    var ct, ype := TypeWords(word);
    OtherField(s, ct, ype, ws, name, inHdrs);
    Assoc(ct, ype, ws + name);
  }
}
