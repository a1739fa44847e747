/**
  Header lines of an entity one after another: what they say depends on the lines alone, not on
  what the slots hold.
  */
module HeaderLines {
  import opened Bytes
  import opened Entities
  import opened MimeHeader
  import opened Multipart

  /** What is set of the boundary that is being read. */
  function Prefix(s: HdrState): seq<byte> {
    if SlotsOk(s) && s.nest < BND_NUM && s.pos <= BND_DIM then s.slots[s.nest].bnd[..s.pos] else []
  }

  /**
    Two states that differ at most in their n outermost boundaries, in what slots hold that are
    not in use, and in a quote that no longer matters.
    */
  ghost predicate Alike(a: HdrState, b: HdrState, n: nat) {
    && HdrInv(a) && HdrInv(b) && n <= a.nest
    && a.st == b.st && a.pos == b.pos && a.nest == b.nest && a.bol == b.bol
    && (a.st.MhBndValue? ==> a.quoted == b.quoted && Prefix(a) == Prefix(b))
    && forall j :: n <= j < a.nest ==> Level(a, j) == Level(b, j)
  }

  ghost predicate AlikeSteps(ra: Step, rb: Step, n: nat) {
    Alike(ra.s, rb.s, n) && ra.bp == rb.bp && ra.stop == rb.stop && ra.effs == rb.effs
  }

  /** The same step as seen from outside. */
  predicate SameStep(ra: Step, rb: Step) {
    ra.s.st == rb.s.st && ra.s.pos == rb.s.pos && ra.bp == rb.bp && ra.stop == rb.stop && ra.effs == rb.effs
  }

  lemma MadeAlike(a: HdrState, b: HdrState, bp: seq<byte>, stop: bool, effs: seq<Effect>)
    requires a.st == b.st && a.pos == b.pos
    ensures SameStep(Step(a, bp, stop, effs), Step(b, bp, stop, effs))
  {
  }

  lemma MatchAlike(a: HdrState, b: HdrState, ok: MhdrSt, fail: MhdrSt, tgt: seq<byte>, bp: seq<byte>)
    requires a.st == b.st && a.pos == b.pos
    ensures SameStep(MatchStep(a, ok, fail, tgt, bp), MatchStep(b, ok, fail, tgt, bp))
  {
    hide Match, CompareLen, SameStep;
    match Match(tgt, a.pos, bp) {
      case Failed => MadeAlike(a.(st := fail), b.(st := fail), bp, false, []);
      case Partial =>
        var pos := a.pos + CompareLen(tgt, a.pos, bp);
        MadeAlike(a.(pos := pos), b.(pos := pos), [], false, []);
      case Matched => MadeAlike(a.(st := ok, pos := 0), b.(st := ok, pos := 0), bp[CompareLen(tgt, a.pos, bp)..], false, []);
    }
  }

  lemma SetsAlike(a: HdrState, b: HdrState, ok: MhdrSt, fail: MhdrSt, tgt: seq<byte>, bp: seq<byte>, eff: Effect)
    requires a.st == b.st && a.pos == b.pos
    ensures SameStep(MatchSets(a, ok, fail, tgt, bp, eff), MatchSets(b, ok, fail, tgt, bp, eff))
  {
    hide MatchStep;
    MatchAlike(a, b, ok, fail, tgt, bp);
  }

  lemma {:induction false} IsoXAlike(a: HdrState, b: HdrState, bp: seq<byte>)
    requires a.st == b.st && a.pos == b.pos
    ensures SameStep(IsoXStep(a, bp), IsoXStep(b, bp))
    decreases |bp|
  {
    hide SameStep;
    if bp == [] {
      MadeAlike(a, b, [], true, []);
    } else if !IsDigit(bp[0]) {
      var effs := IsoXStep(a, bp).effs;
      MadeAlike(a.(st := MhIdle), b.(st := MhIdle), bp[1..], true, effs);
    } else {
      var pos := a.pos * 10 + (bp[0] as int - 0x30);
      if pos <= 99 {
        IsoXAlike(a.(pos := pos), b.(pos := pos), bp[1..]);
      } else {
        MadeAlike(a.(pos := pos, st := MhIdle), b.(pos := pos, st := MhIdle), bp[1..], true, []);
      }
    }
  }

  lemma PlainAlike(a: HdrState, b: HdrState, bp: seq<byte>)
    requires Ready(a, false) && Ready(b, false) && bp != []
    requires a.st == b.st && a.pos == b.pos && a.nest == b.nest
    requires !a.st.MhIdle? && !a.st.MhBnd? && !a.st.MhBndValue?
    ensures SameStep(HdrStep(a, bp, false), HdrStep(b, bp, false))
  {
    hide HdrInv, AsciiBytes, MatchStep, IsoXStep, MatchSets, SameStep, CeCtStep, CeWSStep, CtWSStep, Iso8859Step, MultipartStep,
      SkipParamStep, SpanWSStep, TowardBoundary;
    ReadySlots(a, false);
    match a.st {
      case MhCeCt => CeCtAlike(a, b, bp);
      case MhCe => MatchAlike(a, b, MhCeWS, MhIdle, RANSFER_ENCODING, bp);
      case MhQp => SetsAlike(a, b, MhIdle, MhIdle, QUOTED_PRINTABLE, bp, SetCe(QuotedPrintable));
      case MhB64 => SetsAlike(a, b, MhIdle, MhIdle, BASE64, bp, SetCe(Base64));
      case MhCt => MatchAlike(a, b, MhCtWS, MhIdle, YPE, bp);
      case MhText => SetsAlike(a, b, MhHtml, MhIdle, TEXT, bp, SetCt(Text));
      case MhHtml => SetsAlike(a, b, MhCsetSkipParam, MhCsetSkipParam, SLASH_HTML, bp, SetCt(Html));
      case MhCset => MatchAlike(a, b, MhCsetIso8859, MhCsetSkipParam, CHARSET, bp);
      case MhCsetIso8859 => Iso8859Alike(a, b, bp);
      case MhCsetIsoX => IsoXAlike(a, b, bp);
      case MhMultipart => MultipartAlike(a, b, bp);
      case MhCsetSkipParam => SkipAlike(a, b, bp, MhCsetSpanWS);
      case MhBndSkipParam => SkipAlike(a, b, bp, MhBndSpanWS);
      case MhCsetSpanWS => SpanAlike(a, b, bp, MhCset);
      case MhBndSpanWS => SpanAlike(a, b, bp, MhBnd);
      case _ => WSAlike(a, b, bp);
    }
  }

  lemma CeCtAlike(a: HdrState, b: HdrState, bp: seq<byte>)
    requires a.st == b.st && a.pos == b.pos
    ensures SameStep(CeCtStep(a, bp), CeCtStep(b, bp))
  {
    hide Match, MatchStep, AsciiBytes;
    MatchAlike(a, b, MhCtWS, MhIdle, CONTENT_T, bp);
  }

  lemma Iso8859Alike(a: HdrState, b: HdrState, bp: seq<byte>)
    requires a.st == b.st && a.pos == b.pos && bp != []
    ensures SameStep(Iso8859Step(a, bp), Iso8859Step(b, bp))
  {
    hide MatchStep, AsciiBytes;
    MatchAlike(a, b, MhCsetIsoX, MhIdle, ISO_8859, if a.pos == 0 && bp[0] == DQUOTE then bp[1..] else bp);
  }

  lemma MultipartAlike(a: HdrState, b: HdrState, bp: seq<byte>)
    requires a.st == b.st && a.pos == b.pos
    ensures SameStep(MultipartStep(a, bp), MultipartStep(b, bp))
  {
    hide MatchStep, AsciiBytes;
    MatchAlike(a.(st := MhText), b.(st := MhText), MhBndSkipParam, MhIdle, MULTIPART, bp);
  }

  lemma SkipAlike(a: HdrState, b: HdrState, bp: seq<byte>, next: MhdrSt)
    requires a.st == b.st && a.pos == b.pos
    ensures SameStep(SkipParamStep(a, bp, next), SkipParamStep(b, bp, next))
  {
    hide SkipParam, SameStep;
    var (r, found) := SkipParam(bp);
    MadeAlike(if found then a.(st := next) else a, if found then b.(st := next) else b, r, false, []);
  }

  lemma SpanAlike(a: HdrState, b: HdrState, bp: seq<byte>, next: MhdrSt)
    requires a.st == b.st && a.pos == b.pos
    ensures SameStep(SpanWSStep(a, bp, next), SpanWSStep(b, bp, next))
  {
    hide SpanWS, SameStep;
    var r := SpanWS(bp);
    MadeAlike(if r != [] then a.(st := next) else a, if r != [] then b.(st := next) else b, r, false, []);
  }

  lemma WSAlike(a: HdrState, b: HdrState, bp: seq<byte>)
    requires a.st == b.st && a.pos == b.pos && a.nest == b.nest
    ensures SameStep(CeWSStep(a, bp), CeWSStep(b, bp)) && SameStep(CtWSStep(a, bp, false), CtWSStep(b, bp, false))
  {
    hide SpanWS;
  }

  /** A boundary is opened and read alike. */
  lemma BndAlike(a: HdrState, b: HdrState, bp: seq<byte>)
    requires SlotsOk(a) && SlotsOk(b) && a.nest == b.nest < BND_NUM && a.st.MhBnd? && b.st.MhBnd? && a.pos == b.pos
    ensures var ra, rb := BndStep(a, bp, false), BndStep(b, bp, false);
      && SameStep(ra, rb) && ra.s.nest == rb.s.nest == a.nest && ra.s.bol == a.bol && rb.s.bol == b.bol
      && (ra.s.st.MhBndValue? ==> ra.s.quoted == rb.s.quoted && Prefix(ra.s) == Prefix(rb.s))
  {
    hide Match, CompareLen, AsciiBytes;
    MatchAlike(a, b, MhBndValue, MhBndSkipParam, BOUNDARY, bp);
    var ra, rb := BndStep(a, bp, false), BndStep(b, bp, false);
    if ra.s.st.MhBndValue? {
      assert Prefix(ra.s) == [DASH, DASH] && Prefix(rb.s) == [DASH, DASH];
    }
  }

  /** What reading on leaves alike: the rest of the boundary, or the boundary as a whole. */
  ghost predicate ValuesAlike(a: HdrState, ra: Step, rb: Step) {
    && SameStep(ra, rb) && ra.s.nest == rb.s.nest && ra.s.bol == rb.s.bol && ra.s.quoted == rb.s.quoted
    && SlotsOk(ra.s) && SlotsOk(rb.s) && a.nest <= ra.s.nest <= a.nest + 1 && a.nest < BND_NUM
    && (ra.s.nest == a.nest && ra.s.st.MhBndValue? ==> Prefix(ra.s) == Prefix(rb.s))
    && (ra.s.nest > a.nest ==>
          var x, y := ra.s.slots[a.nest], rb.s.slots[a.nest];
          !ra.s.st.MhBndValue? && x.bndLen == y.bndLen <= BND_DIM && x.bnd[..x.bndLen] == y.bnd[..y.bndLen])
  }

  lemma {:induction false} ValueAlike(a: HdrState, b: HdrState, bp: seq<byte>)
    requires SlotsOk(a) && SlotsOk(b) && a.nest == b.nest < BND_NUM && a.pos == b.pos < BND_MAX
    requires a.st == b.st && a.quoted == b.quoted && a.bol == b.bol && Prefix(a) == Prefix(b) && a.st.MhBndValue?
    ensures ValuesAlike(a, BndValueStep(a, bp), BndValueStep(b, bp))
    decreases |bp|
  {
    if bp == [] || bp[0] == LF || ((bp[0] == SP || bp[0] == TAB || bp[0] == SEMI) && !a.quoted) {
      ValueEndsAlike(a, b, bp);
    } else if bp[0] == CR {
      ValueAlike(a, b, bp[1..]);
    } else if bp[0] == DQUOTE {
      ValueAlike(a.(quoted := !a.quoted), b.(quoted := !b.quoted), bp[1..]);
    } else {
      var a1 := a.(slots := a.slots[a.nest := PutByte(a.slots[a.nest], a.pos, bp[0])], pos := a.pos + 1);
      var b1 := b.(slots := b.slots[b.nest := PutByte(b.slots[b.nest], b.pos, bp[0])], pos := b.pos + 1);
      StoresAlike(a, bp[0]);
      StoresAlike(b, bp[0]);
      if a1.pos < BND_MAX {
        ValueAlike(a1, b1, bp[1..]);
      }
    }
  }

  lemma ValueEndsAlike(a: HdrState, b: HdrState, bp: seq<byte>)
    requires SlotsOk(a) && SlotsOk(b) && a.nest == b.nest < BND_NUM && a.pos == b.pos < BND_MAX
    requires a.st == b.st && a.quoted == b.quoted && a.bol == b.bol && Prefix(a) == Prefix(b) && a.st.MhBndValue?
    requires bp == [] || bp[0] == LF || ((bp[0] == SP || bp[0] == TAB || bp[0] == SEMI) && !a.quoted)
    ensures ValuesAlike(a, BndValueStep(a, bp), BndValueStep(b, bp))
  {
  }

  lemma StoresAlike(a: HdrState, c: byte)
    requires SlotsOk(a) && a.nest < BND_NUM && a.pos < BND_MAX
    ensures var a1 := a.(slots := a.slots[a.nest := PutByte(a.slots[a.nest], a.pos, c)], pos := a.pos + 1);
      SlotsOk(a1) && Prefix(a1) == Prefix(a) + [c]
  {
  }

  lemma StepAlike(a: HdrState, b: HdrState, bp: seq<byte>, n: nat)
    requires Alike(a, b, n) && bp != [] && !a.st.MhIdle?
    ensures AlikeSteps(HdrStep(a, bp, false), HdrStep(b, bp, false), n)
  {
    hide HdrInv, HdrStep, BndStep, BndValueStep, Progresses, Level, Prefix;
    StepKeeps(a, bp, false);
    StepKeeps(b, bp, false);
    ReadySlots(a, false);
    ReadySlots(b, false);
    StepAtBoundary(a, bp, false);
    StepAtBoundary(b, bp, false);
    StepLeavesSlots(a, bp);
    StepLeavesSlots(b, bp);
    StepKeepsMatches(a, bp);
    var ra, rb := HdrStep(a, bp, false), HdrStep(b, bp, false);
    if a.st.MhBnd? {
      BndAlike(a, b, bp);
    } else if a.st.MhBndValue? {
      ValueAlike(a, b, bp);
      if ra.s.nest > a.nest {
        SlotIsLevel(ra.s, rb.s, a.nest);
      }
    } else {
      PlainAlike(a, b, bp);
      PlainStepMoves(a, bp, false);
      PlainStepMoves(b, bp, false);
    }
    forall j | n <= j < a.nest ensures Level(ra.s, j) == Level(rb.s, j) {
      SlotKept(a, ra.s, j);
      SlotKept(b, rb.s, j);
    }
  }

  lemma SlotIsLevel(a: HdrState, b: HdrState, k: nat)
    requires HdrInv(a) && HdrInv(b) && k < a.nest == b.nest
    requires var x, y := a.slots[k], b.slots[k];
      x.bndLen == y.bndLen <= BND_DIM && x.bnd[..x.bndLen] == y.bnd[..y.bndLen]
    ensures Level(a, k) == Level(b, k)
  {
  }

  lemma SlotKept(a: HdrState, a1: HdrState, j: nat)
    requires HdrInv(a) && HdrInv(a1) && SlotsBelow(a, a1, a.nest) && j < a.nest <= a1.nest
    ensures Level(a, j) == Level(a1, j)
  {
  }

  lemma {:induction false} RunAlike(a: HdrState, b: HdrState, bp: seq<byte>, n: nat)
    requires Alike(a, b, n)
    ensures var (a', ea) := HdrRun(a, bp, false);
      var (b', eb) := HdrRun(b, bp, false);
      Alike(a', b', n) && ea == eb
    decreases |bp|, Rank(a.st, bp)
  {
    hide HdrInv, HdrStep, Rank, Level;
    if bp != [] && !a.st.MhIdle? {
      StepAlike(a, b, bp, n);
      StepKeeps(a, bp, false);
      var r := HdrStep(a, bp, false);
      if !r.stop {
        RunAlike(r.s, HdrStep(b, bp, false).s, r.bp, n);
      }
    }
  }

  // ---- Lines ----------------------------------------------------------------------------

  predicate IsLine(l: seq<byte>) {
    l != [] && l[|l| - 1] == LF && LF !in l[..|l| - 1]
  }

  predicate IsBlankLine(l: seq<byte>) { l == [LF] || l == [CR, LF] }

  /** A header line that continues the field of the line before it. */
  predicate Continues(l: seq<byte>) {
    || (l != [] && (l[0] == SP || l[0] == TAB))
    || (|l| > 1 && l[0] == CR && (l[1] == SP || l[1] == TAB))
  }

  predicate IsHeaderLine(l: seq<byte>) {
    IsLine(l) && !IsBlankLine(l)
  }

  /** A header line: the state at the start of the next one, and the line's effects. */
  function NextLine(s: HdrState, l: seq<byte>): (r: (HdrState, seq<Effect>))
    requires HdrInv(s)
    ensures HdrInv(r.0) && r.0.bol
  {
    BolKeeps(ParseHdr(s, l, false).0);
    (ParseHdr(s, l, false).0.(bol := true), ParseHdr(s, l, false).1)
  }

  lemma BolKeeps(s: HdrState)
    requires HdrInv(s)
    ensures HdrInv(s.(bol := true))
  {
  }

  /** Where the text of a header line starts. */
  lemma LineStartsAt(s: HdrState, l: seq<byte>)
    requires s.bol && IsHeaderLine(l)
    ensures var rest := if l[0] == CR then l[1..] else l;
      StartLine(s, l, false)
      == At(if Continues(l) then s.(bol := false) else s.(st := MhCeCt, pos := 0, bol := false), rest)
  {
    EarlyEnd(l);
  }

  /** A line that ends at once is blank. */
  lemma EarlyEnd(l: seq<byte>)
    requires IsLine(l)
    ensures l[0] == LF ==> l == [LF]
    ensures l[0] == CR ==> |l| > 1 && (l[1] == LF ==> l == [CR, LF])
  {
    assert forall k :: 0 <= k < |l| - 1 ==> l[..|l| - 1][k] == l[k];
  }

  /** A line reads alike from states that are alike; a line that starts a field also from others of the same nesting. */
  ghost predicate ReadAlike(a: HdrState, b: HdrState, n: nat, l: seq<byte>) {
    && HdrInv(a) && HdrInv(b) && a.bol && b.bol
    && (Alike(a, b, n) || (a.nest == b.nest == n && !Continues(l)))
  }

  lemma LineAlike(a: HdrState, b: HdrState, n: nat, l: seq<byte>)
    requires ReadAlike(a, b, n, l) && IsHeaderLine(l)
    ensures !ParseHdr(a, l, false).2 && ParseHdr(a, l, false).1 == NextLine(b, l).1
    ensures Alike(NextLine(a, l).0, NextLine(b, l).0, n)
  {
    hide HdrInv, HdrRun, Level;
    LineStartsAt(a, l);
    LineStartsAt(b, l);
    StartKeeps(a, false);
    StartKeeps(b, false);
    var sa, sb := StartLine(a, l, false), StartLine(b, l, false);
    StartsAlike(a, b, n, l);
    RunAlike(sa.s, sb.s, sa.bp, n);
    var a1, b1 := ParseHdr(a, l, false).0, ParseHdr(b, l, false).0;
    BolAlike(a1, b1, n);
  }

  /** The boundaries are those of the slots, whatever the state. */
  lemma SameSlots(a: HdrState, a1: HdrState)
    requires HdrInv(a) && a1 == a.(st := a1.st, pos := a1.pos, bol := a1.bol)
    requires (a1.st == a.st && a1.pos == a.pos) || a1.st.MhCeCt?
    ensures HdrInv(a1) && forall j :: 0 <= j < a.nest ==> Level(a1, j) == Level(a, j)
  {
  }

  lemma BolAlike(a: HdrState, b: HdrState, n: nat)
    requires Alike(a, b, n)
    ensures Alike(a.(bol := true), b.(bol := true), n)
  {
    hide HdrInv, Level;
    SameSlots(a, a.(bol := true));
    SameSlots(b, b.(bol := true));
  }

  lemma StartsAlike(a: HdrState, b: HdrState, n: nat, l: seq<byte>)
    requires ReadAlike(a, b, n, l)
    ensures Continues(l) ==> Alike(a.(bol := false), b.(bol := false), n)
    ensures Alike(a.(st := MhCeCt, pos := 0, bol := false), b.(st := MhCeCt, pos := 0, bol := false), n)
  {
    hide HdrInv, Level, Continues;
    SameSlots(a, a.(bol := false));
    SameSlots(b, b.(bol := false));
    SameSlots(a, a.(st := MhCeCt, pos := 0, bol := false));
    SameSlots(b, b.(st := MhCeCt, pos := 0, bol := false));
  }

  /** The effects of header lines, line by line. */
  function Effects(s: HdrState, ls: seq<seq<byte>>): seq<seq<Effect>>
    requires HdrInv(s)
    decreases |ls|
  {
    if ls == [] then [] else [NextLine(s, ls[0]).1] + Effects(NextLine(s, ls[0]).0, ls[1..])
  }

  /** The state behind header lines. */
  function Behind(s: HdrState, ls: seq<seq<byte>>): (s': HdrState)
    requires HdrInv(s)
    ensures HdrInv(s')
    decreases |ls|
  {
    if ls == [] then s else Behind(NextLine(s, ls[0]).0, ls[1..])
  }

  /** An entity's header starts from here: only how many boundaries are open matters. */
  function Start(nest: nat): (s: HdrState)
    requires nest <= BND_NUM
    ensures HdrInv(s) && s.bol && s.nest == nest
  {
    var slot := Slot(2, 0, seq(BND_DIM, i => DASH));
    HdrState(MhIdle, 0, nest, 0, true, false, [slot, slot, slot])
  }

  // ---- The levels -----------------------------------------------------------------------

  /** Header lines leave the slots of the open boundaries alone. */
  ghost predicate SlotsBelow(a: HdrState, b: HdrState, n: nat) {
    SlotsOk(a) && SlotsOk(b) && n <= BND_NUM && forall j :: 0 <= j < n ==> a.slots[j] == b.slots[j]
  }

  lemma {:induction false} ValueLeavesSlots(s: HdrState, bp: seq<byte>)
    requires SlotsOk(s) && s.nest < BND_NUM && s.pos < BND_MAX
    ensures SlotsBelow(s, BndValueStep(s, bp).s, s.nest)
    decreases |bp|
  {
    if bp != [] && bp[0] != LF && !((bp[0] == SP || bp[0] == TAB || bp[0] == SEMI) && !s.quoted) {
      if bp[0] == CR {
        ValueLeavesSlots(s, bp[1..]);
      } else if bp[0] == DQUOTE {
        ValueLeavesSlots(s.(quoted := !s.quoted), bp[1..]);
      } else {
        var s1 := s.(slots := s.slots[s.nest := PutByte(s.slots[s.nest], s.pos, bp[0])], pos := s.pos + 1);
        if s1.pos < BND_MAX {
          ValueLeavesSlots(s1, bp[1..]);
        }
      }
    }
  }

  lemma BndLeavesSlots(s: HdrState, bp: seq<byte>)
    requires SlotsOk(s) && s.nest < BND_NUM
    ensures SlotsBelow(s, BndStep(s, bp, false).s, s.nest)
  {
    hide Match, CompareLen, AsciiBytes;
  }

  lemma StepLeavesSlots(s: HdrState, bp: seq<byte>)
    requires HdrInv(s) && bp != [] && !s.st.MhIdle?
    ensures SlotsBelow(s, HdrStep(s, bp, false).s, s.nest)
  {
    hide HdrInv, HdrStep, BndStep, BndValueStep, Progresses;
    ReadySlots(s, false);
    StepAtBoundary(s, bp, false);
    NestInRange(s);
    if s.st.MhBnd? {
      BndLeavesSlots(s, bp);
    } else if s.st.MhBndValue? {
      ValueLeavesSlots(s, bp);
    } else {
      PlainStepMoves(s, bp, false);
    }
  }

  lemma NestInRange(s: HdrState)
    requires HdrInv(s)
    ensures s.nest <= BND_NUM && SlotsOk(s)
  {
  }

  lemma {:induction false} RunLeavesSlots(s: HdrState, bp: seq<byte>)
    requires HdrInv(s)
    ensures SlotsBelow(s, HdrRun(s, bp, false).0, s.nest) && s.nest <= HdrRun(s, bp, false).0.nest
    decreases |bp|, Rank(s.st, bp)
  {
    hide HdrInv, HdrStep, Rank;
    NestInRange(s);
    if bp != [] && !s.st.MhIdle? {
      StepLeavesSlots(s, bp);
      StepKeeps(s, bp, false);
      StepKeepsMatches(s, bp);
      var r := HdrStep(s, bp, false);
      if !r.stop {
        RunLeavesSlots(r.s, r.bp);
      }
    }
  }
}
