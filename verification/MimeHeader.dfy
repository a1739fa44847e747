/**
  The MIME header machine: twenty states that persist from one line to the next, an incremental
  case-blind matcher, and the multipart boundary being collected byte by byte.
  */
module MimeHeader {
  import opened Bytes
  import opened Entities

  const BND_MAX := 94
  const BND_DIM := BND_MAX + 2
  const BND_MISS := BND_DIM + 1
  const BND_NUM := 3

  datatype MhdrSt =
    | MhIdle | MhCeCt | MhCe | MhCeWS | MhCt | MhCtWS | MhQp | MhB64 | MhText | MhHtml
    | MhCsetSkipParam | MhCsetSpanWS | MhCset | MhCsetIso8859 | MhCsetIsoX
    | MhMultipart | MhBndSkipParam | MhBndSpanWS | MhBnd | MhBndValue

  /** A boundary slot: the text with its leading dashes, how much of it is set, and the match progress. */
  datatype Slot = Slot(bndLen: nat, cmpLen: nat, bnd: seq<byte>)

  /** The parser's fields. */
  datatype HdrState = HdrState(
    st: MhdrSt, pos: nat, nest: nat, matches: int, bol: bool, quoted: bool, slots: seq<Slot>)

  // ---- Matching -------------------------------------------------------------------------

  function AsciiBytes(s: string): (bs: seq<byte>)
    requires forall k :: 0 <= k < |s| ==> s[k] < 128 as char
    ensures |bs| == |s| && forall k :: 0 <= k < |s| ==> bs[k] == s[k] as int
  {
    seq(|s|, k requires 0 <= k < |s| => s[k] as int)
  }

  predicate EqFold(a: seq<byte>, b: seq<byte>) {
    |a| == |b| && forall k :: 0 <= k < |a| ==> ToLower(a[k]) == ToLower(b[k])
  }

  /** How many bytes of the target a match at pos compares with bp; none once pos is past its end. */
  function CompareLen(tgt: seq<byte>, pos: nat, bp: seq<byte>): (n: nat)
    ensures n <= |bp| && (n > 0 ==> pos + n <= |tgt|)
    ensures n < |bp| ==> pos + n >= |tgt|
  {
    var left := if |tgt| < pos then 0 else |tgt| - pos;
    Min(left, |bp|)
  }

  /** A match either fails in place, runs out of input, or reaches the end of its target. */
  datatype MatchResult = Failed | Partial | Matched

  function Match(tgt: seq<byte>, pos: nat, bp: seq<byte>): (r: MatchResult)
    ensures r == Partial ==> CompareLen(tgt, pos, bp) == |bp|
  {
    var n := CompareLen(tgt, pos, bp);
    if n > 0 && !EqFold(tgt[pos..pos + n], bp[..n]) then Failed
    else if pos + n >= |tgt| then Matched
    else Partial
  }

  /** Only the state and the position change. */
  predicate Moves(s: HdrState, r: Step) {
    r.s == s.(st := r.s.st, pos := r.s.pos)
  }

  /** One step of the machine: the fields, the unread rest, whether the call ends, and the effect. */
  datatype Step = Step(s: HdrState, bp: seq<byte>, stop: bool, effs: seq<Effect>)

  function MatchStep(s: HdrState, ok: MhdrSt, fail: MhdrSt, tgt: seq<byte>, bp: seq<byte>): (r: Step)
    ensures Moves(s, r) && (r.s.st == s.st || r.s.st == ok || r.s.st == fail)
    ensures r.s.st == s.st || r.bp == bp || |r.bp| < |bp|
  {
    match Match(tgt, s.pos, bp)
    case Failed => Step(s.(st := fail), bp, false, [])
    case Partial => Step(s.(pos := s.pos + CompareLen(tgt, s.pos, bp)), [], false, [])
    case Matched => Step(s.(st := ok, pos := 0), bp[CompareLen(tgt, s.pos, bp)..], false, [])
  }

  /** The same, with an effect when the match is complete. */
  function MatchSets(s: HdrState, ok: MhdrSt, fail: MhdrSt, tgt: seq<byte>, bp: seq<byte>, eff: Effect): Step {
    var r := MatchStep(s, ok, fail, tgt, bp);
    if Match(tgt, s.pos, bp) == Matched then r.(effs := [eff]) else r
  }

  /** The input behind its leading white space. */
  function SpanWS(bp: seq<byte>): (r: seq<byte>)
    ensures |r| <= |bp| && (r != [] ==> !IsWS(r[0]))
    ensures bp != [] && IsWS(bp[0]) ==> |r| < |bp|
    ensures bp == [] || !IsWS(bp[0]) ==> r == bp
  {
    if bp == [] || !IsWS(bp[0]) then bp else SpanWS(bp[1..])
  }

  /** The input from the first white space on, or behind the first semicolon, with a flag that it was found. */
  function SkipParam(bp: seq<byte>): (r: (seq<byte>, bool))
    ensures |r.0| <= |bp| && (!r.1 ==> r.0 == [])
    ensures bp != [] && !IsWS(bp[0]) ==> |r.0| < |bp|
    ensures bp != [] && IsWS(bp[0]) ==> r == (bp, true)
  {
    if bp == [] then (bp, false)
    else if IsWS(bp[0]) then (bp, true)
    else if bp[0] == SEMI then (bp[1..], true)
    else SkipParam(bp[1..])
  }

  // ---- The states -----------------------------------------------------------------------

  const CONTENT_T := AsciiBytes("Content-T")
  const RANSFER_ENCODING := AsciiBytes("ransfer-Encoding:")
  const QUOTED_PRINTABLE := AsciiBytes("quoted-printable")
  const BASE64 := AsciiBytes("base64")
  const YPE := AsciiBytes("ype:")
  const TEXT := AsciiBytes("text")
  const SLASH_HTML := AsciiBytes("/html")
  const CHARSET := AsciiBytes("charset=")
  const ISO_8859 := AsciiBytes("iso-8859-")
  const MULTIPART := AsciiBytes("multipart")
  const BOUNDARY := AsciiBytes("boundary=")

  predicate Is(c: byte, lower: char)
    requires lower < 128 as char
  {
    ToLower(c) == lower as int
  }

  /** After "Content-T": the next letter decides between the two headers. */
  function CeCtStep(s: HdrState, bp: seq<byte>): Step {
    var r := MatchStep(s, MhCtWS, MhIdle, CONTENT_T, bp);
    if Match(CONTENT_T, s.pos, bp) != Matched then r
    else if r.bp == [] then r.(stop := true)
    else if Is(r.bp[0], 'r') then r.(s := r.s.(st := MhCe))
    else if Is(r.bp[0], 'y') then r.(s := r.s.(st := MhCt))
    else r.(s := r.s.(st := MhIdle), stop := true)
  }

  function CeWSStep(s: HdrState, bp: seq<byte>): Step {
    var r := SpanWS(bp);
    if r == [] then Step(s, r, true, [])
    else if Is(r[0], 'b') then Step(s.(st := MhB64), r, false, [])
    else if Is(r[0], 'q') then Step(s.(st := MhQp), r, false, [])
    else Step(s.(st := MhIdle), r, true, [])
  }

  function CtWSStep(s: HdrState, bp: seq<byte>, inHdrs: bool): Step {
    var r := SpanWS(bp);
    if r == [] then Step(s, r, true, [])
    else if Is(r[0], 't') then Step(s.(st := MhText), r, false, [])
    else if Is(r[0], 'm') then
      Step(s.(st := if inHdrs || s.nest < BND_NUM then MhMultipart else MhIdle), r, false, [])
    else Step(s.(st := MhIdle), r, true, [SetCt(Binary)])
  }

  function SkipParamStep(s: HdrState, bp: seq<byte>, next: MhdrSt): Step {
    var (r, found) := SkipParam(bp);
    Step(if found then s.(st := next) else s, r, false, [])
  }

  function SpanWSStep(s: HdrState, bp: seq<byte>, next: MhdrSt): Step {
    var r := SpanWS(bp);
    Step(if r != [] then s.(st := next) else s, r, false, [])
  }

  /** An opening quote is dropped before the first byte of the character set's name. */
  function Iso8859Step(s: HdrState, bp: seq<byte>): Step
    requires bp != []
  {
    MatchStep(s, MhCsetIsoX, MhIdle, ISO_8859, if s.pos == 0 && bp[0] == DQUOTE then bp[1..] else bp)
  }

  /** The digits of the character set's number, which pos collects. */
  function IsoXStep(s: HdrState, bp: seq<byte>): (r: Step)
    ensures Moves(s, r) && r.stop && (r.s.st == s.st || r.s.st == MhIdle)
    decreases |bp|
  {
    if bp == [] then Step(s, [], true, [])
    else
      var ch: int := bp[0];
      if !IsDigit(ch) then
        var known := (ch == DQUOTE || IsWS(ch) || ch == SEMI) && s.pos == 2;
        Step(s.(st := MhIdle), bp[1..], true, [SetCset(if known then Latin2 else Latin1)])
      else
        var pos := s.pos * 10 + (ch - 0x30);
        if pos > 99 then Step(s.(pos := pos, st := MhIdle), bp[1..], true, [])
        else IsoXStep(s.(pos := pos), bp[1..])
  }

  /** A partial match leaves the machine waiting for "text", as the source does. */
  function MultipartStep(s: HdrState, bp: seq<byte>): Step {
    MatchStep(s.(st := MhText), MhBndSkipParam, MhIdle, MULTIPART, bp)
  }

  function PutByte(slot: Slot, at: nat, c: byte): Slot
    requires at < |slot.bnd|
  {
    slot.(bnd := slot.bnd[at := c])
  }

  /** "boundary=" opens the slot of the current nesting, the first one in message headers. */
  function BndStep(s: HdrState, bp: seq<byte>, inHdrs: bool): Step
    requires SlotsOk(s) && (inHdrs || s.nest < BND_NUM)
  {
    var r := MatchStep(s, MhBndValue, MhBndSkipParam, BOUNDARY, bp);
    if Match(BOUNDARY, s.pos, bp) != Matched then r
    else
      var s1 := if inHdrs then r.s.(nest := 0, matches := 1) else r.s;
      var slot := PutByte(PutByte(s1.slots[s1.nest], 0, DASH), 1, DASH);
      r.(s := s1.(quoted := false, pos := 2, slots := s1.slots[s1.nest := slot]))
  }

  /** The bytes of a boundary, up to its end; a boundary that is too long is given up. */
  function BndValueStep(s: HdrState, bp: seq<byte>): Step
    requires SlotsOk(s) && s.nest < BND_NUM && s.pos < BND_MAX
    decreases |bp|
  {
    if bp == [] then Step(s, [], true, [])
    else if bp[0] == LF || ((bp[0] == SP || bp[0] == TAB || bp[0] == SEMI) && !s.quoted) then
      Step(Closed(s), bp[1..], false, [])
    else if bp[0] == CR then BndValueStep(s, bp[1..])
    else if bp[0] == DQUOTE then BndValueStep(s.(quoted := !s.quoted), bp[1..])
    else
      var s1 := s.(slots := s.slots[s.nest := PutByte(s.slots[s.nest], s.pos, bp[0])], pos := s.pos + 1);
      if s1.pos >= BND_MAX then Step(s1.(st := MhIdle), bp[1..], true, []) else BndValueStep(s1, bp[1..])
  }

  /** A finished boundary: its slot becomes active. */
  function Closed(s: HdrState): HdrState
    requires SlotsOk(s) && s.nest < BND_NUM
  {
    s.(slots := s.slots[s.nest := s.slots[s.nest].(bndLen := s.pos, cmpLen := 0)], nest := s.nest + 1, st := MhIdle)
  }

  // ---- What every step keeps ------------------------------------------------------------

  predicate SlotsOk(s: HdrState) {
    |s.slots| == BND_NUM && forall k :: 0 <= k < BND_NUM ==> |s.slots[k].bnd| == BND_DIM
  }

  /** The states on the way to a boundary. */
  predicate TowardBoundary(st: MhdrSt) {
    st.MhMultipart? || st.MhBndSkipParam? || st.MhBndSpanWS? || st.MhBnd? || st.MhBndValue?
  }

  /** No line end ever gets into a slot. */
  predicate NoLineEnd(slot: Slot) {
    forall k :: 0 <= k < |slot.bnd| ==> slot.bnd[k] != LF && slot.bnd[k] != CR
  }

  /** An active slot holds a boundary that is neither too short nor too long. */
  predicate Active(slot: Slot) {
    2 <= slot.bndLen < BND_MAX
  }

  predicate HdrInv(s: HdrState) {
    && SlotsOk(s)
    && s.nest <= BND_NUM
    && (TowardBoundary(s.st) ==> s.nest < BND_NUM)
    && (s.st.MhBndValue? ==> 2 <= s.pos < BND_MAX)
    && (forall k :: 0 <= k < BND_NUM ==> NoLineEnd(s.slots[k]))
    && (forall k :: 0 <= k < s.nest ==> Active(s.slots[k]))
  }

  /** In message headers at most the first slot is used. */
  predicate Ready(s: HdrState, inHdrs: bool) {
    HdrInv(s) && (inHdrs ==> s.nest <= 1)
  }

  /**
    A step that uses no input must bring the machine nearer to its end. The loops through
    parameters do so in an order that depends on whether the next byte is white space.
    */
  function Rank(st: MhdrSt, bp: seq<byte>): nat {
    var ws := bp != [] && IsWS(bp[0]);
    match st
    case MhIdle => 0
    case MhBndValue => 1
    case MhCsetIsoX => 1
    case MhQp => 1
    case MhB64 => 1
    case MhCsetIso8859 => 2
    case MhCeWS => 2
    case MhCe => 3
    case MhCsetSkipParam => if ws then 5 else 4
    case MhBndSkipParam => if ws then 5 else 4
    case MhCsetSpanWS => if ws then 4 else 6
    case MhBndSpanWS => if ws then 4 else 6
    case MhCset => if ws then 6 else 5
    case MhBnd => if ws then 6 else 5
    case MhHtml => 7
    case MhText => 8
    case MhMultipart => 9
    case MhCtWS => 10
    case MhCt => 11
    case MhCeCt => 12
  }

  /** A step ends the call, uses input, or goes down in rank. */
  predicate Progresses(s: HdrState, bp: seq<byte>, r: Step) {
    r.stop || |r.bp| < |bp| || (r.bp == bp && Rank(r.s.st, bp) < Rank(s.st, bp))
  }

  /** A move to a state that needs no open slot, or that finds one free, keeps everything. */
  lemma MoveKeeps(s: HdrState, st: MhdrSt, pos: nat, inHdrs: bool)
    requires Ready(s, inHdrs) && !st.MhBndValue? && (TowardBoundary(st) ==> s.nest < BND_NUM)
    ensures Ready(s.(st := st, pos := pos), inHdrs)
  {
  }

  lemma ReadySlots(s: HdrState, inHdrs: bool)
    requires Ready(s, inHdrs)
    ensures SlotsOk(s) && (TowardBoundary(s.st) ==> s.nest < BND_NUM) && (inHdrs ==> s.nest <= 1)
    ensures s.st.MhBndValue? ==> s.pos < BND_MAX
  {
  }

  lemma MatchStepMoves(s: HdrState, ok: MhdrSt, fail: MhdrSt, tgt: seq<byte>, bp: seq<byte>)
    requires bp != [] && Rank(fail, bp) < Rank(s.st, bp) && Rank(ok, bp) < Rank(s.st, bp)
    ensures Progresses(s, bp, MatchStep(s, ok, fail, tgt, bp))
  {
    if CompareLen(tgt, s.pos, bp) == 0 {
      assert bp[0..] == bp;
    }
  }

  /** One step, by state. */
  function HdrStep(s: HdrState, bp: seq<byte>, inHdrs: bool): Step
    requires Ready(s, inHdrs) && bp != [] && !s.st.MhIdle?
  {
    match s.st
    case MhCeCt => CeCtStep(s, bp)
    case MhCe => MatchStep(s, MhCeWS, MhIdle, RANSFER_ENCODING, bp)
    case MhCeWS => CeWSStep(s, bp)
    case MhQp => MatchSets(s, MhIdle, MhIdle, QUOTED_PRINTABLE, bp, SetCe(QuotedPrintable))
    case MhB64 => MatchSets(s, MhIdle, MhIdle, BASE64, bp, SetCe(Base64))
    case MhCt => MatchStep(s, MhCtWS, MhIdle, YPE, bp)
    case MhCtWS => CtWSStep(s, bp, inHdrs)
    case MhText => MatchSets(s, MhHtml, MhIdle, TEXT, bp, SetCt(Text))
    case MhHtml => MatchSets(s, MhCsetSkipParam, MhCsetSkipParam, SLASH_HTML, bp, SetCt(Html))
    case MhCsetSkipParam => SkipParamStep(s, bp, MhCsetSpanWS)
    case MhCsetSpanWS => SpanWSStep(s, bp, MhCset)
    case MhCset => MatchStep(s, MhCsetIso8859, MhCsetSkipParam, CHARSET, bp)
    case MhCsetIso8859 => Iso8859Step(s, bp)
    case MhCsetIsoX => IsoXStep(s, bp)
    case MhMultipart => MultipartStep(s, bp)
    case MhBndSkipParam => SkipParamStep(s, bp, MhBndSpanWS)
    case MhBndSpanWS => SpanWSStep(s, bp, MhBnd)
    case MhBnd => BndStep(s, bp, inHdrs)
    case MhBndValue => BndValueStep(s, bp)
    case MhIdle => Step(s, bp, true, [])
  }

  /** Boundary bytes go to positions 2 to 93 of a slot below the third, and never past the slot. */
  lemma {:induction false} BndValueKeeps(s: HdrState, bp: seq<byte>, inHdrs: bool)
    requires Ready(s, inHdrs) && s.st.MhBndValue? && (inHdrs ==> s.nest == 0)
    ensures var r := BndValueStep(s, bp);
      && Ready(r.s, inHdrs)
      && s.nest <= r.s.nest <= s.nest + 1
      && (r.s.st.MhBndValue? ==> r.s.nest == s.nest)
      && (r.stop || |r.bp| < |bp|)
      && Progresses(s, bp, r)
    decreases |bp|
  {
    if bp != [] && bp[0] != LF && !((bp[0] == SP || bp[0] == TAB || bp[0] == SEMI) && !s.quoted) {
      if bp[0] == CR {
        BndValueKeeps(s, bp[1..], inHdrs);
      } else if bp[0] == DQUOTE {
        BndValueKeeps(s.(quoted := !s.quoted), bp[1..], inHdrs);
      } else {
        var s1 := s.(slots := s.slots[s.nest := PutByte(s.slots[s.nest], s.pos, bp[0])], pos := s.pos + 1);
        if s1.pos < BND_MAX {
          BndValueKeeps(s1, bp[1..], inHdrs);
        }
      }
    }
  }

  lemma BndKeeps(s: HdrState, bp: seq<byte>, inHdrs: bool)
    requires Ready(s, inHdrs) && s.st.MhBnd? && bp != []
    ensures var r := BndStep(s, bp, inHdrs);
      && Ready(r.s, inHdrs) && r.s.nest <= s.nest && Progresses(s, bp, r)
  {
    MatchStepMoves(s, MhBndValue, MhBndSkipParam, BOUNDARY, bp);
  }

  /** In headers the slot being filled is the first: the nesting was put back to 0 when it was opened. */
  predicate HeaderSlot(s: HdrState, inHdrs: bool) {
    inHdrs && s.st.MhBndValue? ==> s.nest == 0
  }

  /** Whatever the state and the input: the nesting, the slots and the positions stay in bounds, and the step progresses. */
  lemma StepKeeps(s: HdrState, bp: seq<byte>, inHdrs: bool)
    requires Ready(s, inHdrs) && HeaderSlot(s, inHdrs) && bp != [] && !s.st.MhIdle?
    ensures var r := HdrStep(s, bp, inHdrs);
      && Ready(r.s, inHdrs) && HeaderSlot(r.s, inHdrs)
      && r.s.nest <= s.nest + 1
      && Progresses(s, bp, r)
  {
    hide HdrInv, BndStep, BndValueStep, HdrStep, Progresses;
    ReadySlots(s, inHdrs);
    StepAtBoundary(s, bp, inHdrs);
    if s.st.MhBnd? {
      BndKeeps(s, bp, inHdrs);
      BndOpens(s, bp, inHdrs);
    } else if s.st.MhBndValue? {
      BndValueKeeps(s, bp, inHdrs);
    } else {
      PlainStepKeeps(s, bp, inHdrs);
    }
  }

  lemma StepAtBoundary(s: HdrState, bp: seq<byte>, inHdrs: bool)
    requires Ready(s, inHdrs) && bp != []
    ensures s.st.MhBnd? ==> HdrStep(s, bp, inHdrs) == BndStep(s, bp, inHdrs)
    ensures s.st.MhBndValue? ==> HdrStep(s, bp, inHdrs) == BndValueStep(s, bp)
  {
    hide HdrInv, BndStep, BndValueStep, CeCtStep, CeWSStep, CtWSStep, SkipParamStep, SpanWSStep, MatchStep, MatchSets,
      Iso8859Step, IsoXStep, MultipartStep;
    ReadySlots(s, inHdrs);
  }

  lemma BndOpens(s: HdrState, bp: seq<byte>, inHdrs: bool)
    requires SlotsOk(s) && (inHdrs || s.nest < BND_NUM) && s.st.MhBnd?
    ensures HeaderSlot(BndStep(s, bp, inHdrs).s, inHdrs)
  {
  }

  lemma PlainStepKeeps(s: HdrState, bp: seq<byte>, inHdrs: bool)
    requires Ready(s, inHdrs) && bp != []
    requires !s.st.MhIdle? && !s.st.MhBnd? && !s.st.MhBndValue?
    ensures var r := HdrStep(s, bp, inHdrs);
      && Ready(r.s, inHdrs) && !r.s.st.MhBndValue? && r.s.nest == s.nest
      && Progresses(s, bp, r)
  {
    hide HdrInv, HdrStep;
    PlainStepMoves(s, bp, inHdrs);
    var r := HdrStep(s, bp, inHdrs);
    MoveKeeps(s, r.s.st, r.s.pos, inHdrs);
  }

  /** What a step away from the boundary slots does at most. */
  ghost predicate PlainMove(s: HdrState, bp: seq<byte>, r: Step) {
    && Moves(s, r) && !r.s.st.MhBndValue?
    && (TowardBoundary(r.s.st) ==> s.nest < BND_NUM)
    && Progresses(s, bp, r)
  }

  /** Away from the boundary states a step only moves, toward a boundary only while a slot is free. */
  lemma PlainStepMoves(s: HdrState, bp: seq<byte>, inHdrs: bool)
    requires Ready(s, inHdrs) && bp != []
    requires !s.st.MhIdle? && !s.st.MhBnd? && !s.st.MhBndValue?
    ensures PlainMove(s, bp, HdrStep(s, bp, inHdrs))
  {
    hide HdrInv, MatchStep, PlainMove;
    ReadySlots(s, inHdrs);
    match s.st {
      case MhCe =>
        MatchMoves(s, MhCeWS, MhIdle, RANSFER_ENCODING, bp);
      case MhQp =>
        SetsMoves(s, MhIdle, MhIdle, QUOTED_PRINTABLE, bp, SetCe(QuotedPrintable));
      case MhB64 =>
        SetsMoves(s, MhIdle, MhIdle, BASE64, bp, SetCe(Base64));
      case MhCt =>
        MatchMoves(s, MhCtWS, MhIdle, YPE, bp);
      case MhText =>
        SetsMoves(s, MhHtml, MhIdle, TEXT, bp, SetCt(Text));
      case MhHtml =>
        SetsMoves(s, MhCsetSkipParam, MhCsetSkipParam, SLASH_HTML, bp, SetCt(Html));
      case MhCset =>
        MatchMoves(s, MhCsetIso8859, MhCsetSkipParam, CHARSET, bp);
      case MhCsetIso8859 =>
        Iso8859Moves(s, bp);
      case MhMultipart =>
        MultipartMoves(s, bp);
      case _ =>
        ScanMoves(s, bp, inHdrs);
    }
  }

  lemma MatchMoves(s: HdrState, ok: MhdrSt, fail: MhdrSt, tgt: seq<byte>, bp: seq<byte>)
    requires bp != [] && Rank(fail, bp) < Rank(s.st, bp) && Rank(ok, bp) < Rank(s.st, bp)
    requires !TowardBoundary(s.st) && !TowardBoundary(ok) && !TowardBoundary(fail)
    ensures PlainMove(s, bp, MatchStep(s, ok, fail, tgt, bp))
  {
    MatchStepMoves(s, ok, fail, tgt, bp);
  }

  lemma SetsMoves(s: HdrState, ok: MhdrSt, fail: MhdrSt, tgt: seq<byte>, bp: seq<byte>, eff: Effect)
    requires bp != [] && Rank(fail, bp) < Rank(s.st, bp) && Rank(ok, bp) < Rank(s.st, bp)
    requires !TowardBoundary(s.st) && !TowardBoundary(ok) && !TowardBoundary(fail)
    ensures PlainMove(s, bp, MatchSets(s, ok, fail, tgt, bp, eff))
  {
    hide MatchStep;
    MatchMoves(s, ok, fail, tgt, bp);
  }

  lemma CeCtMoves(s: HdrState, bp: seq<byte>)
    requires bp != [] && s.st.MhCeCt?
    ensures PlainMove(s, bp, CeCtStep(s, bp))
  {
    hide MatchStep;
    MatchMoves(s, MhCtWS, MhIdle, CONTENT_T, bp);
  }

  lemma SkipMoves(s: HdrState, bp: seq<byte>, next: MhdrSt)
    requires bp != [] && (TowardBoundary(s.st) ==> s.nest < BND_NUM) && !next.MhBndValue? && !s.st.MhBndValue?
    requires TowardBoundary(next) ==> TowardBoundary(s.st)
    requires IsWS(bp[0]) ==> Rank(next, bp) < Rank(s.st, bp)
    ensures PlainMove(s, bp, SkipParamStep(s, bp, next))
  {
  }

  lemma SpanMoves(s: HdrState, bp: seq<byte>, next: MhdrSt)
    requires bp != [] && (TowardBoundary(s.st) ==> s.nest < BND_NUM) && !next.MhBndValue? && !s.st.MhBndValue?
    requires TowardBoundary(next) ==> TowardBoundary(s.st)
    requires !IsWS(bp[0]) ==> Rank(next, bp) < Rank(s.st, bp)
    ensures PlainMove(s, bp, SpanWSStep(s, bp, next))
  {
  }

  lemma WSMoves(s: HdrState, bp: seq<byte>, inHdrs: bool)
    requires bp != [] && (inHdrs ==> s.nest < BND_NUM)
    ensures s.st.MhCeWS? ==> PlainMove(s, bp, CeWSStep(s, bp))
    ensures s.st.MhCtWS? ==> PlainMove(s, bp, CtWSStep(s, bp, inHdrs))
  {
  }

  lemma IsoXMoves(s: HdrState, bp: seq<byte>)
    requires bp != [] && s.st.MhCsetIsoX?
    ensures PlainMove(s, bp, IsoXStep(s, bp))
  {
    hide IsoXStep;
  }

  lemma Ranks()
    ensures forall bp :: bp != [] && IsWS(bp[0]) ==>
      Rank(MhCsetSpanWS, bp) < Rank(MhCsetSkipParam, bp) && Rank(MhBndSpanWS, bp) < Rank(MhBndSkipParam, bp)
    ensures forall bp :: bp != [] && !IsWS(bp[0]) ==>
      Rank(MhCset, bp) < Rank(MhCsetSpanWS, bp) && Rank(MhBnd, bp) < Rank(MhBndSpanWS, bp)
  {
  }

  /** The states that scan for white space or the end of a parameter, and the first. */
  lemma ScanMoves(s: HdrState, bp: seq<byte>, inHdrs: bool)
    requires Ready(s, inHdrs) && bp != []
    requires s.st.MhCeCt? || s.st.MhCeWS? || s.st.MhCtWS? || s.st.MhCsetSkipParam? || s.st.MhCsetSpanWS?
      || s.st.MhCsetIsoX? || s.st.MhBndSkipParam? || s.st.MhBndSpanWS?
    ensures PlainMove(s, bp, HdrStep(s, bp, inHdrs))
  {
    hide HdrInv, CeCtStep, CeWSStep, CtWSStep, SkipParamStep, SpanWSStep, IsoXStep, PlainMove, Rank;
    Ranks();
    ReadySlots(s, inHdrs);
    match s.st {
      case MhCeCt => CeCtMoves(s, bp);
      case MhCsetSkipParam => SkipMoves(s, bp, MhCsetSpanWS);
      case MhCsetSpanWS => SpanMoves(s, bp, MhCset);
      case MhBndSkipParam => SkipMoves(s, bp, MhBndSpanWS);
      case MhBndSpanWS => SpanMoves(s, bp, MhBnd);
      case MhCsetIsoX => IsoXMoves(s, bp);
      case _ => WSMoves(s, bp, inHdrs);
    }
  }

  lemma Iso8859Moves(s: HdrState, bp: seq<byte>)
    requires bp != [] && s.st.MhCsetIso8859?
    ensures PlainMove(s, bp, Iso8859Step(s, bp))
  {
    var rest := if s.pos == 0 && bp[0] == DQUOTE then bp[1..] else bp;
    if rest == bp {
      MatchStepMoves(s, MhCsetIsoX, MhIdle, ISO_8859, bp);
    }
  }

  lemma MultipartMoves(s: HdrState, bp: seq<byte>)
    requires bp != [] && s.st.MhMultipart? && s.nest < BND_NUM
    ensures PlainMove(s, bp, MultipartStep(s, bp))
  {
    var s1 := s.(st := MhText);
    var n := CompareLen(MULTIPART, s.pos, bp);
    if n == 0 {
      assert bp[0..] == bp;
    }
  }

  /** The whole loop over one piece of input. */
  function HdrRun(s: HdrState, bp: seq<byte>, inHdrs: bool): (r: (HdrState, seq<Effect>))
    requires Ready(s, inHdrs) && HeaderSlot(s, inHdrs)
    ensures Ready(r.0, inHdrs) && HeaderSlot(r.0, inHdrs)
    decreases |bp|, Rank(s.st, bp)
  {
    if bp == [] || s.st.MhIdle? then (s, [])
    else
      StepKeeps(s, bp, inHdrs);
      var r := HdrStep(s, bp, inHdrs);
      if r.stop then (r.s, r.effs)
      else
        var (s', effs) := HdrRun(r.s, r.bp, inHdrs);
        (s', r.effs + effs)
  }

  /** The test at the start of a body line: where the header text starts, or that the line is blank. */
  datatype LineStart = Wait | Blank | At(s: HdrState, bp: seq<byte>)

  function StartLine(s: HdrState, bp: seq<byte>, inHdrs: bool): LineStart {
    if !s.bol || inHdrs then At(s, bp)
    else if bp == [] || bp == [CR] then Wait
    else
      var rest := if bp[0] == CR then bp[1..] else bp;
      if rest[0] == LF then Blank
      else if rest[0] == SP || rest[0] == TAB then At(s.(bol := false), rest)
      else At(s.(st := MhCeCt, pos := 0, bol := false), rest)
  }

  lemma StartKeeps(s: HdrState, inHdrs: bool)
    requires Ready(s, inHdrs) && HeaderSlot(s, inHdrs)
    ensures Ready(s.(bol := false), inHdrs) && HeaderSlot(s.(bol := false), inHdrs)
    ensures Ready(s.(st := MhCeCt, pos := 0, bol := false), inHdrs)
      && HeaderSlot(s.(st := MhCeCt, pos := 0, bol := false), inHdrs)
  {
  }

  /** A piece of a header: the fields after it, its effects, and whether it was a blank line. */
  function ParseHdr(s: HdrState, bp: seq<byte>, inHdrs: bool): (r: (HdrState, seq<Effect>, bool))
    requires Ready(s, inHdrs) && HeaderSlot(s, inHdrs)
    ensures Ready(r.0, inHdrs) && HeaderSlot(r.0, inHdrs)
  {
    match StartLine(s, bp, inHdrs)
    case Wait => (s, [], false)
    case Blank => (s, [], true)
    case At(s1, rest) =>
      var (s', effs) := HdrRun(s1, rest, inHdrs);
      (s', effs, false)
  }

  lemma FieldStarts(s: HdrState)
    requires Ready(s, true)
    ensures Ready(s.(st := MhCeCt, pos := 0), true) && HeaderSlot(s.(st := MhCeCt, pos := 0), true)
  {
  }

  lemma LineStarts(s: HdrState)
    requires Ready(s, true)
    ensures Ready(s.(bol := true), true)
  {
  }

  /** A header field of the message: the machine starts afresh, and is given a line end if it still waits. */
  function FieldRun(s: HdrState, field: seq<byte>): (r: (HdrState, seq<Effect>))
    requires Ready(s, true)
    ensures Ready(r.0, true)
  {
    FieldStarts(s);
    var (s1, e1) := HdrRun(s.(st := MhCeCt, pos := 0), field, true);
    var (s2, e2) := if s1.st.MhIdle? then (s1, []) else HdrRun(s1, [LF], true);
    LineStarts(s2);
    (s2.(bol := true), e1 + e2)
  }
}
