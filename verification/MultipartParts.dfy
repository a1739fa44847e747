/**
  Well-formed bodies through the walk: stretches of text, delimiter lines, and entities with any
  header lines.
  */
module MultipartParts {
  import opened Bytes
  import opened Entities
  import opened MimeHeader
  import opened MimeSteps
  import opened MimeFields
  import opened Boundaries
  import opened Pipeline
  import opened Multipart
  import opened HeaderLines

  /** A line that is no delimiter of any level. */
  ghost predicate IsPlain(hdr: HdrState, l: seq<byte>)
    requires HdrInv(hdr)
  {
    IsLine(l) && forall j, f :: 0 <= j < hdr.nest ==> !IsDelimiter(l, Level(hdr, j), f)
  }

  /** The next line will be tried against every open boundary. */
  ghost predicate Testing(w: Walk) {
    WalkInv(w) && w.hdr.nest != 0 && w.hdr.matches != 0
  }

  /** Behind a line that was no delimiter. */
  function Settled(hdr: HdrState): HdrState {
    hdr.(bol := true, matches := hdr.nest, slots := Cleared(hdr.slots))
  }

  lemma SettledKeeps(w: Walk)
    requires HdrInv(w.hdr) && w.hdr.nest != 0
    ensures Testing(w.(hdr := Settled(w.hdr))) && Settled(Settled(w.hdr)) == Settled(w.hdr)
    ensures forall j :: 0 <= j < w.hdr.nest ==> Level(Settled(w.hdr), j) == Level(w.hdr, j)
  {
    assert Cleared(Cleared(w.hdr.slots)) == Cleared(w.hdr.slots);
  }

  lemma LineComes(l: seq<byte>, rest: seq<byte>)
    requires IsLine(l)
    ensures FirstLine(l + rest) == l && LF in l + rest && (l + rest)[|l|..] == rest
  {
    FirstLineIs(l, rest);
    assert (l + rest)[|l| - 1] == LF;
  }

  /** What trying a plain line does: nothing but the progress of the matches. */
  lemma PlainIsMissed(w: Walk, l: seq<byte>, rest: seq<byte>)
    requires Testing(w) && HdrInv(w.hdr) && IsPlain(w.hdr, l)
    ensures var (h, hit) := Scan(w.hdr, l + rest, 0, false);
      && hit == NoHit(false) && WalkInv(w.(hdr := h)) && h.matches == 0 && Cleared(h.slots) == Cleared(w.hdr.slots)
      && h == w.hdr.(slots := h.slots, matches := 0)
  {
    hide HdrInv, Scan, Level, Live, IsDelimiter, FirstLine, Tallied;
    LineComes(l, rest);
    SlotsThere(w.hdr);
    AllLive(w.hdr.slots, w.hdr.nest);
    ScanFinds(w.hdr, l + rest);
    TestKeeps(w, l + rest);
  }

  /** A plain line outside of headers joins the text. */
  lemma TextLine(w: Walk, sum: seq<byte>, l: seq<byte>, rest: seq<byte>)
    requires Testing(w) && HdrInv(w.hdr) && w.mp != InHeaders && IsPlain(w.hdr, l)
    ensures Testing(w.(hdr := Settled(w.hdr)))
    ensures Run(w, sum, l + rest) == Run(w.(hdr := Settled(w.hdr)), sum + l, rest)
  {
    hide HdrInv, Scan, Run, Level, IsDelimiter, FirstLine;
    SettledKeeps(w);
    LineComes(l, rest);
    PlainIsMissed(w, l, rest);
    RunTest(w, sum, l + rest);
    var h := Scan(w.hdr, l + rest, 0, false).0;
    RunLine(w.(hdr := h), sum, l + rest);
    NothingFirst(Run(w.(hdr := Settled(w.hdr)), sum + l, rest));
  }

  lemma NothingFirst(o: Outcome)
    ensures Then([], o) == o
  {
    assert [] + o.pieces == o.pieces;
  }

  /** Any number of plain lines. */
  lemma {:induction false} TextLines(w: Walk, sum: seq<byte>, ls: seq<seq<byte>>, rest: seq<byte>)
    requires Testing(w) && HdrInv(w.hdr) && w.mp != InHeaders
    requires forall k :: 0 <= k < |ls| ==> IsPlain(w.hdr, ls[k])
    ensures var w1 := if ls == [] then w else w.(hdr := Settled(w.hdr));
      && Testing(w1) && HdrInv(w1.hdr) && (forall j :: 0 <= j < w.hdr.nest ==> Level(w1.hdr, j) == Level(w.hdr, j))
      && Run(w, sum, Concat(ls) + rest) == Run(w1, sum + Concat(ls), rest)
    decreases |ls|
  {
    hide HdrInv, Run, IsPlain, Settled, Testing;
    if ls == [] {
      assert [] + rest == rest && sum + [] == sum;
    } else {
      TextLine(w, sum, ls[0], Concat(ls[1..]) + rest);
      SettledInv(w);
      SettledKeeps(w);
      var w1 := w.(hdr := Settled(w.hdr));
      NestOf(w.hdr);
      SettledInv(w1);
      forall k | 0 <= k < |ls[1..]| ensures IsPlain(w1.hdr, ls[1..][k]) {
        SamePlain(w.hdr, w1.hdr, ls[k + 1]);
      }
      TextLines(w1, sum + ls[0], ls[1..], rest);
      assert Concat(ls) + rest == ls[0] + (Concat(ls[1..]) + rest);
      assert sum + Concat(ls) == sum + ls[0] + Concat(ls[1..]);
    }
  }

  lemma NestOf(hdr: HdrState)
    ensures Settled(hdr).nest == hdr.nest
  {
  }

  lemma SettledInv(w: Walk)
    requires Testing(w)
    ensures HdrInv(w.hdr) && w.hdr.nest != 0
  {
  }

  lemma SamePlain(a: HdrState, b: HdrState, l: seq<byte>)
    requires HdrInv(a) && HdrInv(b) && b.nest <= a.nest && forall j :: 0 <= j < b.nest ==> Level(b, j) == Level(a, j)
    requires IsPlain(a, l)
    ensures IsPlain(b, l)
  {
    hide HdrInv, Level;
  }

  /** A delimiter of level i that no outer boundary takes: the text is flushed, and level i or i + 1 is innermost. */
  lemma DelimiterTurn(w: Walk, sum: seq<byte>, i: nat, final: bool, ws: seq<byte>, rest: seq<byte>)
    requires Testing(w) && HdrInv(w.hdr) && i < w.hdr.nest && AllBlank(ws)
    requires forall j, f :: 0 <= j < i ==> !IsDelimiter(Delimiter(Level(w.hdr, i), final, ws), Level(w.hdr, j), f)
    ensures var bnd := Level(w.hdr, i);
      var t := Delimiter(bnd, final, ws) + rest;
      var w1 := AtDelimiter(Scan(w.hdr, t, 0, false).0, i, final);
      && WalkInv(w1) && HdrInv(w1.hdr) && w1.hdr.nest <= w.hdr.nest
      && (forall j :: 0 <= j < w1.hdr.nest ==> Level(w1.hdr, j) == Level(w.hdr, j))
      && Run(w, sum, t) == Then(Flush(w.mp, sum) + [Line(bnd, final, ws)], Run(w1, [], rest))
  {
    hide HdrInv, Scan, Run, Level, FirstLine, IsDelimiter, Flush, Live, Tallied;
    var bnd := Level(w.hdr, i);
    var line := Delimiter(bnd, final, ws);
    var t := line + rest;
    DelimiterIsLine(bnd, final, ws, rest);
    SlotsThere(w.hdr);
    AllLive(w.hdr.slots, w.hdr.nest);
    ScanFinds(w.hdr, t);
    var (h, hit) := Scan(w.hdr, t, 0, false);
    IsThis(line, bnd, final, ws);
    assert hit.Hit? && hit.level == i;
    OneKind(bnd, final, hit.final, ws);
    RunTest(w, sum, t);
    assert LineOf(bnd, hit, t) == Line(bnd, final, ws);
    assert t[hit.len..] == rest;
    LevelsBelow(h, i, final);
    Invariant(AtDelimiter(h, i, final));
  }

  lemma IsThis(line: seq<byte>, bnd: seq<byte>, final: bool, ws: seq<byte>)
    requires AllBlank(ws) && line == Delimiter(bnd, final, ws)
    ensures IsDelimiter(line, bnd, final)
  {
  }

  /** No line is both a closing delimiter and another one of the same boundary. */
  lemma OneKind(bnd: seq<byte>, final: bool, f: bool, ws: seq<byte>)
    requires AllBlank(ws) && IsDelimiter(Delimiter(bnd, final, ws), bnd, f)
    ensures f == final
  {
    var line := Delimiter(bnd, final, ws);
    var ws' :| AllBlank(ws') && line == Delimiter(bnd, f, ws');
    assert line[|bnd|] == if final then DASH else if ws == [] then LF else ws[0];
    assert line[|bnd|] == if f then DASH else if ws' == [] then LF else ws'[0];
  }

  lemma LevelsBelow(h: HdrState, i: nat, final: bool)
    requires HdrInv(h) && i < h.nest
    ensures var w := AtDelimiter(h, i, final);
      HdrInv(w.hdr) && w.hdr.nest <= h.nest && forall j :: 0 <= j < w.hdr.nest ==> Level(w.hdr, j) == Level(h, j)
  {
  }

  // ---- The head of an entity ------------------------------------------------------------

  lemma BlankIsPlain(hdr: HdrState, l: seq<byte>)
    requires HdrInv(hdr) && IsBlankLine(l)
    ensures IsPlain(hdr, l)
  {
    hide HdrInv, Level;
    forall j, f | 0 <= j < hdr.nest ensures !IsDelimiter(l, Level(hdr, j), f) {
      BlankIsNone(l, Level(hdr, j), f);
    }
    assert LF !in l[..|l| - 1];
  }

  lemma BlankIsNone(l: seq<byte>, bnd: seq<byte>, f: bool)
    requires IsBlankLine(l) && bnd != [] && CR !in bnd && LF !in bnd
    ensures !IsDelimiter(l, bnd, f)
  {
    forall ws | AllBlank(ws) ensures l != Delimiter(bnd, f, ws) {
      assert Delimiter(bnd, f, ws)[0] == bnd[0];
    }
  }

  /** A blank line among headers: everything since the delimiter is summed, and the text begins. */
  lemma BlankTurn(w: Walk, sum: seq<byte>, l: seq<byte>, rest: seq<byte>)
    requires WalkInv(w) && HdrInv(w.hdr) && w.hdr.nest != 0 && w.hdr.bol && w.mp == InHeaders && IsBlankLine(l)
    ensures Testing(Walk(Settled(w.hdr), InText))
    ensures Run(w, sum, l + rest)
      == Then([Fields([]), Slice(InHeaders, sum + l)], Run(Walk(Settled(w.hdr), InText), [], rest))
  {
    hide HdrInv, Scan, Run, FirstLine, IsPlain, WalkInv, HdrRun;
    SettledKeeps(w);
    BlankIsPlain(w.hdr, l);
    IsPlainLine(w.hdr, l);
    LineComes(l, rest);
    var h := w.hdr;
    if w.hdr.matches != 0 {
      PlainIsMissed(w, l, rest);
      RunTest(w, sum, l + rest);
      h := Scan(w.hdr, l + rest, 0, false).0;
    }
    Invariant(w.(hdr := h));
    RunLine(w.(hdr := h), sum, l + rest);
    BlankParses(h, l);
    assert Settled(h) == Settled(w.hdr);
    assert Head(InHeaders, sum + l, [], true) == [Fields([]), Slice(InHeaders, sum + l)];
  }

  lemma IsPlainLine(hdr: HdrState, l: seq<byte>)
    requires HdrInv(hdr) && IsPlain(hdr, l)
    ensures IsLine(l)
  {
  }

  lemma BlankParses(hdr: HdrState, l: seq<byte>)
    requires HdrInv(hdr) && hdr.bol && IsBlankLine(l)
    ensures ParseHdr(hdr, l, false) == (hdr, [], true)
  {
    hide HdrInv, HdrRun;
  }

  /** A transfer encoding field as a line, its white space and what follows the coding's name included. */
  datatype CodingLine = CodingLine(ct: seq<byte>, te: seq<byte>, ws: seq<byte>, coding: CodingName, more: seq<byte>) {
    function Bytes(): seq<byte> {
      ct + (te + (ws + (coding.name + more)))
    }

    ghost predicate Good() {
      && Spells(ct, CONTENT_T) && Spells(te, RANSFER_ENCODING) && IsCoding(coding)
      && (forall k :: 0 <= k < |ws| ==> IsWS(ws[k])) && IsLine(Bytes())
    }
  }

  /** As a header line it sets its encoding, whatever is open. */
  lemma CodingIsRead(c: CodingLine, nest: nat)
    requires c.Good() && nest <= BND_NUM
    ensures IsHeaderLine(c.Bytes()) && !Continues(c.Bytes())
    ensures Effects(Start(nest), [c.Bytes()]) == [[SetCe(c.coding.ce)]] && Behind(Start(nest), [c.Bytes()]).nest == nest
  {
    hide HdrInv, HdrRun, AsciiBytes, EqFold, Start;
    var hdr, l := Start(nest), c.Bytes();
    StartsWithC(c.ct, c.te + (c.ws + (c.coding.name + c.more)));
    LineStartsAt(hdr, l);
    var s := hdr.(st := MhCeCt, pos := 0, bol := false);
    StartKeeps(hdr, false);
    EncodingField(s, c.ct, c.te, c.ws, c.coding, c.more, false);
    var ls: seq<seq<byte>> := [l];
    assert |ls[1..]| == 0;
  }

  /** A line of a field that does not begin with "Content-T" says nothing. */
  lemma OtherLineIsRead(l: seq<byte>, nest: nat)
    requires IsHeaderLine(l) && !Continues(l) && nest <= BND_NUM
    requires Match(CONTENT_T, 0, if l[0] == CR then l[1..] else l) == Failed
    ensures Effects(Start(nest), [l]) == [[]] && Behind(Start(nest), [l]).nest == nest
  {
    hide HdrInv, HdrRun, AsciiBytes, Match, Start;
    var hdr := Start(nest);
    LineStartsAt(hdr, l);
    var rest := if l[0] == CR then l[1..] else l;
    var s := hdr.(st := MhCeCt, pos := 0, bol := false);
    StartKeeps(hdr, false);
    NoField(s, rest);
    var ls: seq<seq<byte>> := [l];
    assert |ls[1..]| == 0;
  }

  lemma NoField(s: HdrState, bp: seq<byte>)
    requires HdrInv(s) && s.st.MhCeCt? && s.pos == 0 && bp != [] && Match(CONTENT_T, 0, bp) == Failed
    ensures HdrRun(s, bp, false).0.nest == s.nest && HdrRun(s, bp, false).1 == []
  {
    hide HdrInv, AsciiBytes, Match, HdrRun, HdrStep;
    FailedContent(s, bp);
    AwayFromSlots(s, false);
    StepLeads(s, bp, s.(st := MhIdle), bp, false);
    RunIdle(s.(st := MhIdle), bp, false);
  }

  lemma FailedContent(s: HdrState, bp: seq<byte>)
    requires HdrInv(s) && s.st.MhCeCt? && s.pos == 0 && bp != [] && Match(CONTENT_T, 0, bp) == Failed
    ensures HdrStep(s, bp, false) == Step(s.(st := MhIdle), bp, false, [])
  {
    hide HdrInv, AsciiBytes, Match;
  }

  lemma StartsWithC(ct: seq<byte>, rest: seq<byte>)
    requires Spells(ct, CONTENT_T)
    ensures ct + rest != [] && (ct + rest)[0] == ct[0]
    ensures ct[0] != CR && ct[0] != LF && ct[0] != SP && ct[0] != TAB
  {
    assert CONTENT_T[0] == 'C' as int;
    FirstOf(ct, CONTENT_T, rest);
  }

  // ---- Header lines ---------------------------------------------------------------------

  /** All open boundaries, the outermost first. */
  function Stack(hdr: HdrState): (bnds: seq<seq<byte>>)
    requires HdrInv(hdr)
    ensures |bnds| == hdr.nest && forall j :: 0 <= j < hdr.nest ==> bnds[j] == Level(hdr, j)
  {
    seq(hdr.nest, j requires 0 <= j < hdr.nest => Level(hdr, j))
  }

  /** The line is no delimiter of any of the boundaries. */
  ghost predicate NoneOf(bnds: seq<seq<byte>>, l: seq<byte>) {
    forall j, f :: 0 <= j < |bnds| ==> !IsDelimiter(l, bnds[j], f)
  }

  /** The boundaries that are open behind header lines: those there were, and those the lines opened. */
  function OpenBehind(bnds: seq<seq<byte>>, s: HdrState): seq<seq<byte>>
    requires HdrInv(s)
  {
    bnds + if |bnds| <= s.nest then Stack(s)[|bnds|..] else []
  }

  /** In a header, with these boundaries and those that its lines have opened so far. */
  ghost predicate InHead(w: Walk, bnds: seq<seq<byte>>, s: HdrState) {
    && WalkInv(w) && HdrInv(s) && w.mp == InHeaders && w.hdr.bol && w.hdr.nest != 0 && |bnds| <= s.nest
    && Stack(w.hdr) == OpenBehind(bnds, s)
  }

  lemma OpenedPlain(hdr: HdrState, bnds: seq<seq<byte>>, l: seq<byte>)
    requires HdrInv(hdr) && Stack(hdr) == bnds && IsLine(l) && NoneOf(bnds, l)
    ensures IsPlain(hdr, l)
  {
    hide HdrInv, Level, IsDelimiter;
  }

  lemma AlikeStacks(a: HdrState, b: HdrState, bnds: seq<seq<byte>>)
    requires Alike(a, b, |bnds|) && forall j :: 0 <= j < |bnds| ==> Level(a, j) == bnds[j]
    ensures Stack(a) == OpenBehind(bnds, b)
  {
    hide HdrInv, Level;
    forall j | 0 <= j < a.nest ensures Stack(a)[j] == OpenBehind(bnds, b)[j] {
    }
  }

  /** A header line that is taken without being tried. */
  lemma UntriedLine(w: Walk, bnds: seq<seq<byte>>, s: HdrState, sum: seq<byte>, l: seq<byte>, rest: seq<byte>)
    requires InHead(w, bnds, s) && w.hdr.matches == 0 && IsHeaderLine(l) && ReadAlike(w.hdr, s, |bnds|, l)
    ensures HdrInv(w.hdr)
    ensures var w1 := w.(hdr := Settled(ParseHdr(w.hdr, l, false).0));
      && InHead(w1, bnds, NextLine(s, l).0) && Testing(w1) && Alike(w1.hdr, NextLine(s, l).0, |bnds|)
      && Run(w, sum, l + rest) == Then([Fields(NextLine(s, l).1)], Run(w1, sum + l, rest))
  {
    hide HdrInv, Run, FirstLine, HdrRun, ParseHdr, Level;
    Invariant(w);
    LineComes(l, rest);
    LineAlike(w.hdr, s, |bnds|, l);
    var h := ParseHdr(w.hdr, l, false).0;
    KeepsLevels(w.hdr, l);
    AlikeNest(NextLine(w.hdr, l).0, NextLine(s, l).0, |bnds|);
    SettledKeeps(w.(hdr := h));
    SettledAlike(h, NextLine(s, l).0, |bnds|);
    RunLine(w, sum, l + rest);
    Invariant(w.(hdr := Settled(h)));
    forall j | 0 <= j < |bnds| ensures Level(Settled(h), j) == bnds[j] {
      assert Stack(w.hdr)[j] == bnds[j];
    }
    AlikeStacks(Settled(h), NextLine(s, l).0, bnds);
    assert Head(InHeaders, sum + l, NextLine(s, l).1, false) == [Fields(NextLine(s, l).1)];
  }

  lemma AlikeNest(a: HdrState, b: HdrState, n: nat)
    requires Alike(a, b, n)
    ensures a.nest == b.nest >= n
  {
  }

  lemma SettledAlike(h: HdrState, b: HdrState, n: nat)
    requires HdrInv(h) && b.bol && Alike(h.(bol := true), b, n)
    ensures Alike(Settled(h), b, n)
  {
    hide Level, Cleared;
    ClearedText(h);
    SameSlots(h, h.(bol := true));
  }

  lemma ClearedText(h: HdrState)
    requires HdrInv(h)
    ensures HdrInv(Settled(h)) && Prefix(Settled(h)) == Prefix(h.(bol := true))
    ensures forall j :: 0 <= j < h.nest ==> Level(Settled(h), j) == Level(h, j)
  {
  }

  lemma KeepsLevels(hdr: HdrState, l: seq<byte>)
    requires HdrInv(hdr)
    ensures var h := ParseHdr(hdr, l, false).0;
      HdrInv(h) && hdr.nest <= h.nest && forall j :: 0 <= j < hdr.nest ==> Level(h, j) == Level(hdr, j)
  {
    hide HdrInv, HdrRun;
    var start := StartLine(hdr, l, false);
    StartKeeps(hdr, false);
    NestInRange(hdr);
    if start.At? {
      RunLeavesSlots(start.s, start.bp);
    }
  }

  /** Progress of the matches makes no difference to a header line. */
  lemma TriedAlike(a: HdrState, h: HdrState, s: HdrState, n: nat, l: seq<byte>)
    requires ReadAlike(a, s, n, l) && HdrInv(h) && h == a.(slots := h.slots, matches := h.matches)
    requires Cleared(h.slots) == Cleared(a.slots)
    ensures ReadAlike(h, s, n, l) && Stack(h) == Stack(a)
  {
    hide Level;
    SameTexts(a, h);
  }

  lemma SameTexts(a: HdrState, h: HdrState)
    requires HdrInv(a) && HdrInv(h) && h == a.(slots := h.slots, matches := h.matches) && Cleared(h.slots) == Cleared(a.slots)
    ensures Prefix(h) == Prefix(a) && forall j :: 0 <= j < a.nest ==> Level(h, j) == Level(a, j)
  {
    forall j | 0 <= j < BND_NUM ensures h.slots[j].bnd == a.slots[j].bnd && h.slots[j].bndLen == a.slots[j].bndLen {
      assert Cleared(h.slots)[j] == Cleared(a.slots)[j];
    }
  }

  /** A header line, tried as a delimiter unless it is the first. */
  lemma HeaderTurn(w: Walk, bnds: seq<seq<byte>>, s: HdrState, sum: seq<byte>, l: seq<byte>, rest: seq<byte>) returns (w1: Walk)
    requires InHead(w, bnds, s) && IsHeaderLine(l) && ReadAlike(w.hdr, s, |bnds|, l)
    requires w.hdr.matches != 0 ==> NoneOf(OpenBehind(bnds, s), l)
    ensures InHead(w1, bnds, NextLine(s, l).0) && Testing(w1) && Alike(w1.hdr, NextLine(s, l).0, |bnds|)
    ensures Run(w, sum, l + rest) == Then([Fields(NextLine(s, l).1)], Run(w1, sum + l, rest))
  {
    hide HdrInv, Run, FirstLine, Scan, HdrRun, ParseHdr, Level, IsDelimiter, ReadAlike, Alike, NoneOf, Stack, OpenBehind;
    if w.hdr.matches == 0 {
      UntriedLine(w, bnds, s, sum, l, rest);
      w1 := w.(hdr := Settled(ParseHdr(w.hdr, l, false).0));
    } else {
      Invariant(w);
      LineComes(l, rest);
      OpenedPlain(w.hdr, OpenBehind(bnds, s), l);
      PlainIsMissed(w, l, rest);
      RunTest(w, sum, l + rest);
      var h := Scan(w.hdr, l + rest, 0, false).0;
      Invariant(w.(hdr := h));
      TriedAlike(w.hdr, h, s, |bnds|, l);
      UntriedLine(w.(hdr := h), bnds, s, sum, l, rest);
      w1 := w.(hdr := Settled(ParseHdr(h, l, false).0));
    }
  }

  /** What header lines leave in the walk: the effects of each of them. */
  function HeadPieces(effs: seq<seq<Effect>>): (ps: seq<Piece>)
    ensures |ps| == |effs|
  {
    if effs == [] then [] else [Fields(effs[0])] + HeadPieces(effs[1..])
  }

  /** Header lines none of which, but perhaps the first, is a delimiter of a boundary open at it. */
  ghost predicate GoodLines(bnds: seq<seq<byte>>, s: HdrState, ls: seq<seq<byte>>)
    requires HdrInv(s)
    decreases |ls|
  {
    ls == [] ||
    var s1 := NextLine(s, ls[0]).0;
    IsHeaderLine(ls[0]) && (|ls| > 1 ==> NoneOf(OpenBehind(bnds, s1), ls[1])) && GoodLines(bnds, s1, ls[1..])
  }

  /** Any number of header lines behind a delimiter. */
  lemma {:induction false} HeaderTurns(w: Walk, bnds: seq<seq<byte>>, s: HdrState, sum: seq<byte>, ls: seq<seq<byte>>,
      rest: seq<byte>) returns (w1: Walk)
    requires InHead(w, bnds, s) && GoodLines(bnds, s, ls) && (ls != [] ==> ReadAlike(w.hdr, s, |bnds|, ls[0]))
    requires ls != [] && w.hdr.matches != 0 ==> NoneOf(OpenBehind(bnds, s), ls[0])
    ensures InHead(w1, bnds, Behind(s, ls)) && if ls == [] then w1 == w else Testing(w1)
    ensures Run(w, sum, Concat(ls) + rest) == Then(HeadPieces(Effects(s, ls)), Run(w1, sum + Concat(ls), rest))
    decreases |ls|
  {
    hide HdrInv, Run, IsHeaderLine, WalkInv, Level, NextLine, ReadAlike, Alike, NoneOf, Stack, OpenBehind, Testing;
    if ls == [] {
      assert [] + rest == rest && sum + [] == sum;
      NothingFirst(Run(w, sum, rest));
      w1 := w;
    } else {
      var more := Concat(ls[1..]) + rest;
      assert Concat(ls) + rest == ls[0] + more && sum + Concat(ls) == sum + ls[0] + Concat(ls[1..]);
      var wa := HeaderTurn(w, bnds, s, sum, ls[0], more);
      var s1 := NextLine(s, ls[0]).0;
      if |ls| > 1 {
        ReadsOn(wa.hdr, s1, |bnds|, ls[1]);
      }
      w1 := HeaderTurns(wa, bnds, s1, sum + ls[0], ls[1..], rest);
      var effs := Effects(s1, ls[1..]);
      assert Effects(s, ls)[1..] == effs;
      TwoThen([Fields(NextLine(s, ls[0]).1)], HeadPieces(effs), Run(w1, sum + Concat(ls), rest));
    }
  }

  lemma ReadsOn(a: HdrState, b: HdrState, n: nat, l: seq<byte>)
    requires Alike(a, b, n) && a.bol && b.bol
    ensures ReadAlike(a, b, n, l)
  {
  }

  lemma TwoThen(a: seq<Piece>, b: seq<Piece>, o: Outcome)
    ensures Then(a, Then(b, o)) == Then(a + b, o)
  {
    Assoc(a, b, o.pieces);
  }
}
