/**
  The walk over a multipart body, line by line: which lines are delimiters of which level, what
  is summed between them, and the headers of each entity.
  */
module Multipart {
  import opened Bytes
  import opened Entities
  import opened MimeHeader
  import opened Boundaries
  import opened Pipeline
  import opened Fuz2Machine

  // ---- One line against every active boundary -------------------------------------------

  function TextOf(slot: Slot): seq<byte>
    requires slot.bndLen <= |slot.bnd|
  {
    slot.bnd[..slot.bndLen]
  }

  /** The boundary text of an active level. */
  function Level(hdr: HdrState, i: nat): (bnd: seq<byte>)
    requires HdrInv(hdr) && i < hdr.nest
    ensures bnd != [] && |bnd| < BND_MAX && LF !in bnd && CR !in bnd
  {
    TextOf(hdr.slots[i])
  }

  /** The progress of a match, with a mark that real progress never reaches. */
  function Progressed(slot: Slot, v: Verdict): Slot {
    match v
    case Missed => slot.(cmpLen := BND_MISS)
    case Open(cmp) => slot.(cmpLen := cmp)
    case Found(_, cmp) => slot.(cmpLen := cmp)
  }

  /** No delimiter, with or without a match that waits for more; or one, with its level and length. */
  datatype Hit = NoHit(open: bool) | Hit(level: nat, len: nat, final: bool)

  function Tried(hdr: HdrState, k: nat, v: Verdict): HdrState
    requires k < |hdr.slots|
  {
    hdr.(slots := hdr.slots[k := Progressed(hdr.slots[k], v)],
         matches := if v.Missed? then hdr.matches - 1 else hdr.matches)
  }

  /** Progress changes nothing that the header machine cares about. */
  lemma TriedKeeps(hdr: HdrState, k: nat, v: Verdict)
    requires HdrInv(hdr) && k < BND_NUM
    ensures HdrInv(Tried(hdr, k, v))
    ensures forall j :: 0 <= j < hdr.nest ==> Level(Tried(hdr, k, v), j) == Level(hdr, j)
  {
  }

  /** From level k on, the outermost first. */
  function Scan(hdr: HdrState, t: seq<byte>, k: nat, open: bool): (r: (HdrState, Hit))
    requires HdrInv(hdr) && k <= hdr.nest && t != []
    ensures HdrInv(r.0) && r.0.nest == hdr.nest && (r.1.Hit? ==> r.1.level < hdr.nest)
    decreases hdr.nest - k
  {
    if k == hdr.nest then (hdr, NoHit(open))
    else if hdr.slots[k].cmpLen == BND_MISS then Scan(hdr, t, k + 1, open)
    else
      TriedKeeps(hdr, k, MatchFrom(t, Level(hdr, k), hdr.slots[k].cmpLen));
      var v := MatchFrom(t, Level(hdr, k), hdr.slots[k].cmpLen);
      var hdr1 := Tried(hdr, k, v);
      match v
      case Missed => Scan(hdr1, t, k + 1, open)
      case Open(_) => Scan(hdr1, t, k + 1, true)
      case Found(len, cmp) => (hdr1, Hit(k, len, cmp != |Level(hdr, k)|))
  }

  /** How many of the first n boundaries are not marked missed. */
  function Live(slots: seq<Slot>, n: nat): nat
    requires n <= |slots|
  {
    if n == 0 then 0 else Live(slots, n - 1) + if slots[n - 1].cmpLen == BND_MISS then 0 else 1
  }

  lemma {:induction false} LiveTried(slots: seq<Slot>, n: nat, k: nat, v: Verdict)
    requires k < n <= |slots| && slots[k].cmpLen != BND_MISS
    requires Progressed(slots[k], v).cmpLen == BND_MISS <==> v.Missed?
    ensures Live(slots[k := Progressed(slots[k], v)], n) == Live(slots, n) - if v.Missed? then 1 else 0
  {
    if k < n - 1 {
      LiveTried(slots, n - 1, k, v);
    } else {
      LiveSame(slots, slots[k := Progressed(slots[k], v)], n - 1);
    }
  }

  lemma {:induction false} LiveSame(a: seq<Slot>, b: seq<Slot>, n: nat)
    requires n <= |a| && n <= |b| && forall j :: 0 <= j < n ==> a[j] == b[j]
    ensures Live(a, n) == Live(b, n)
  {
    if n > 0 {
      LiveSame(a, b, n - 1);
    }
  }

  function Cleared(slots: seq<Slot>): seq<Slot> {
    seq(|slots|, k requires 0 <= k < |slots| => slots[k].(cmpLen := 0))
  }

  /** What a scan leaves alone. */
  ghost predicate SameTexts(hdr: HdrState, h: HdrState, k: nat)
    requires HdrInv(hdr) && HdrInv(h) && h.nest == hdr.nest && k <= hdr.nest
  {
    && h == hdr.(slots := h.slots, matches := h.matches)
    && (forall j :: 0 <= j < hdr.nest ==> Level(h, j) == Level(hdr, j))
    && (forall j :: 0 <= j < k ==> h.slots[j] == hdr.slots[j])
    && Cleared(h.slots) == Cleared(hdr.slots)
  }

  /** The count of matches is the number of boundaries not missed, and their progress is real. */
  ghost predicate Tallied(h: HdrState, k: nat)
    requires HdrInv(h)
  {
    && h.matches == Live(h.slots, h.nest)
    && (forall j :: k <= j < h.nest ==> h.slots[j].cmpLen == BND_MISS || h.slots[j].cmpLen <= |Level(h, j)| + 2)
  }

  ghost predicate Fresh(hdr: HdrState, k: nat)
    requires HdrInv(hdr)
  {
    forall j :: k <= j < hdr.nest ==> hdr.slots[j].cmpLen == 0
  }

  /** The scan's answer from level k on, in terms of the matcher. */
  ghost predicate Answers(hdr: HdrState, t: seq<byte>, k: nat, open: bool, h: HdrState, hit: Hit)
    requires HdrInv(hdr) && HdrInv(h) && h.nest == hdr.nest && t != []
  {
    match hit
    case NoHit(o) =>
      && (o <==> open || exists j :: k <= j < hdr.nest && MatchFrom(t, Level(hdr, j), 0).Open?)
      && (forall j :: k <= j < hdr.nest ==> !MatchFrom(t, Level(hdr, j), 0).Found?)
      && (!o ==> forall j :: k <= j < hdr.nest ==> h.slots[j].cmpLen == BND_MISS)
    case Hit(i, len, final) =>
      && k <= i < hdr.nest
      && MatchFrom(t, Level(hdr, i), 0) == Found(len, |Marked(Level(hdr, i), final)|)
      && (forall j :: k <= j < i ==> !MatchFrom(t, Level(hdr, j), 0).Found?)
  }

  lemma {:induction false} ScanKeeps(hdr: HdrState, t: seq<byte>, k: nat, open: bool)
    requires HdrInv(hdr) && k <= hdr.nest && t != [] && Fresh(hdr, k) && hdr.matches == Live(hdr.slots, hdr.nest)
    ensures var (h, hit) := Scan(hdr, t, k, open);
      SameTexts(hdr, h, k) && Tallied(h, k) && Answers(hdr, t, k, open, h, hit)
    decreases hdr.nest - k
  {
    hide HdrInv, MatchFrom, Live;
    if k < hdr.nest {
      ScanStep(hdr, t, k, open);
      var v := MatchFrom(t, Level(hdr, k), 0);
      SlotsThere(hdr);
      var hdr1 := Tried(hdr, k, v);
      if !v.Found? {
        ScanKeeps(hdr1, t, k + 1, open || v.Open?);
        ScanOnward(hdr, hdr1, t, k, open);
      }
    }
  }

  lemma SlotsThere(hdr: HdrState)
    requires HdrInv(hdr)
    ensures |hdr.slots| == BND_NUM && hdr.nest <= BND_NUM
  {
  }

  /** The state after level k was tried. */
  lemma ScanStep(hdr: HdrState, t: seq<byte>, k: nat, open: bool)
    requires HdrInv(hdr) && k < hdr.nest && t != [] && Fresh(hdr, k) && hdr.matches == Live(hdr.slots, hdr.nest)
    ensures var v := MatchFrom(t, Level(hdr, k), 0);
      var hdr1 := Tried(hdr, k, v);
      && HdrInv(hdr1) && hdr1.nest == hdr.nest && hdr1.matches == Live(hdr1.slots, hdr1.nest) && Fresh(hdr1, k + 1)
      && SameTexts(hdr, hdr1, k)
      && (if v.Missed? then hdr1.slots[k].cmpLen == BND_MISS else hdr1.slots[k].cmpLen <= |Level(hdr, k)| + 2)
      && (v.Found? ==> Scan(hdr, t, k, open) == (hdr1, Hit(k, v.len, v.cmp != |Level(hdr, k)|)))
      && (v.Found? ==> v.cmp == |Marked(Level(hdr, k), v.cmp != |Level(hdr, k)|)|)
      && (!v.Found? ==> Scan(hdr, t, k, open) == Scan(hdr1, t, k + 1, open || v.Open?))
  {
    hide MatchFrom, Live;
    var v := MatchFrom(t, Level(hdr, k), 0);
    TriedKeeps(hdr, k, v);
    MatchInBounds(t, Level(hdr, k), 0);
    LiveTried(hdr.slots, hdr.nest, k, v);
  }

  lemma ScanOnward(hdr: HdrState, hdr1: HdrState, t: seq<byte>, k: nat, open: bool)
    requires HdrInv(hdr) && HdrInv(hdr1) && k < hdr.nest == hdr1.nest && t != [] && SameTexts(hdr, hdr1, k)
    requires var v := MatchFrom(t, Level(hdr, k), 0);
      !v.Found? && (if v.Missed? then hdr1.slots[k].cmpLen == BND_MISS else hdr1.slots[k].cmpLen <= |Level(hdr, k)| + 2)
    requires var (h, hit) := Scan(hdr1, t, k + 1, open || MatchFrom(t, Level(hdr, k), 0).Open?);
      && SameTexts(hdr1, h, k + 1) && Tallied(h, k + 1)
      && Answers(hdr1, t, k + 1, open || MatchFrom(t, Level(hdr, k), 0).Open?, h, hit)
    ensures var (h, hit) := Scan(hdr1, t, k + 1, open || MatchFrom(t, Level(hdr, k), 0).Open?);
      SameTexts(hdr, h, k) && Tallied(h, k) && Answers(hdr, t, k, open, h, hit)
  {
    hide HdrInv, MatchFrom, Live, Scan, Level, Marked, Answers;
    var (h, hit) := Scan(hdr1, t, k + 1, open || MatchFrom(t, Level(hdr, k), 0).Open?);
    AnswerOnward(hdr, hdr1, t, k, open, h, hit);
  }

  lemma AnswerOnward(hdr: HdrState, hdr1: HdrState, t: seq<byte>, k: nat, open: bool, h: HdrState, hit: Hit)
    requires HdrInv(hdr) && HdrInv(hdr1) && HdrInv(h) && k < hdr.nest == hdr1.nest == h.nest && t != []
    requires forall j :: 0 <= j < hdr.nest ==> Level(hdr1, j) == Level(hdr, j)
    requires !MatchFrom(t, Level(hdr, k), 0).Found?
    requires MatchFrom(t, Level(hdr, k), 0).Missed? ==> h.slots[k].cmpLen == BND_MISS
    requires Answers(hdr1, t, k + 1, open || MatchFrom(t, Level(hdr, k), 0).Open?, h, hit)
    ensures Answers(hdr, t, k, open, h, hit)
  {
    hide HdrInv, MatchFrom, Level, Marked;
    assert forall j :: k <= j < hdr.nest ==> MatchFrom(t, Level(hdr1, j), 0) == MatchFrom(t, Level(hdr, j), 0);
  }

  /** The scan's answer in terms of delimiter lines. */
  ghost predicate Finds(hdr: HdrState, t: seq<byte>, h: HdrState, hit: Hit)
    requires HdrInv(hdr) && t != []
  {
    match hit
    case Hit(i, len, final) =>
      && i < hdr.nest && len == |FirstLine(t)| && IsDelimiter(FirstLine(t), Level(hdr, i), final)
      && (forall j, f :: 0 <= j < i ==> !IsDelimiter(FirstLine(t), Level(hdr, j), f))
    case NoHit(open) =>
      && (forall j, f :: 0 <= j < hdr.nest ==> !IsDelimiter(FirstLine(t), Level(hdr, j), f))
      && (open <==> exists j :: 0 <= j < hdr.nest && IsUnfinished(t, Level(hdr, j)))
      && (!open ==> h.matches == 0)
  }

  /** A tested line, by the definition of delimiter lines: the outermost match wins. */
  lemma ScanFinds(hdr: HdrState, t: seq<byte>)
    requires HdrInv(hdr) && t != [] && Fresh(hdr, 0) && hdr.matches == Live(hdr.slots, hdr.nest)
    ensures var (h, hit) := Scan(hdr, t, 0, false);
      SameTexts(hdr, h, 0) && Tallied(h, 0) && Finds(hdr, t, h, hit)
  {
    hide HdrInv, MatchFrom, Live, Scan, Level, Marked, IsDelimiter, IsUnfinished, FirstLine;
    ScanKeeps(hdr, t, 0, false);
    var (h, hit) := Scan(hdr, t, 0, false);
    forall j, f | 0 <= j < hdr.nest
      ensures IsDelimiter(FirstLine(t), Level(hdr, j), f) ==> MatchFrom(t, Level(hdr, j), 0).Found?
    {
      DelimiterLines(t, Level(hdr, j), f);
    }
    forall j | 0 <= j < hdr.nest
      ensures IsUnfinished(t, Level(hdr, j)) <==> MatchFrom(t, Level(hdr, j), 0).Open?
    {
      DelimiterLines(t, Level(hdr, j), false);
    }
    match hit {
      case Hit(i, len, final) =>
        HitIsDelimiter(t, Level(hdr, i), len, final);
      case NoHit(open) =>
        if !open {
          SlotsThere(h);
          NoneLive(h.slots, h.nest);
        }
    }
  }

  lemma HitIsDelimiter(t: seq<byte>, bnd: seq<byte>, len: nat, final: bool)
    requires t != [] && bnd != [] && LF !in bnd && MatchFrom(t, bnd, 0) == Found(len, |Marked(bnd, final)|)
    ensures len == |FirstLine(t)| && IsDelimiter(FirstLine(t), bnd, final)
  {
    hide MatchFrom, IsDelimiter, FirstLine;
    FoundIsDelimiter(t, bnd, len, |Marked(bnd, final)|);
  }

  lemma {:induction false} NoneLive(slots: seq<Slot>, n: nat)
    requires n <= |slots| && forall j :: 0 <= j < n ==> slots[j].cmpLen == BND_MISS
    ensures Live(slots, n) == 0
  {
    if n > 0 {
      NoneLive(slots, n - 1);
    }
  }

  lemma {:induction false} AllLive(slots: seq<Slot>, n: nat)
    requires n <= |slots| && forall j :: 0 <= j < n ==> slots[j].cmpLen == 0
    ensures Live(slots, n) == n
  {
    if n > 0 {
      AllLive(slots, n - 1);
    }
  }

  // ---- The walk -------------------------------------------------------------------------

  datatype Walk = Walk(hdr: HdrState, mp: MpSt)

  /** At the start of a line either every active boundary is tried afresh, or none is. */
  ghost predicate WalkInv(w: Walk) {
    && HdrInv(w.hdr)
    && (w.hdr.nest == 0 || w.hdr.matches == 0 || (w.hdr.matches == w.hdr.nest && Fresh(w.hdr, 0)))
  }

  /** Behind a line end every boundary is tried again. */
  function AfterLine(hdr: HdrState, line: seq<byte>): HdrState
    requires line != []
  {
    if line[|line| - 1] == LF then hdr.(bol := true, matches := hdr.nest, slots := Cleared(hdr.slots)) else hdr
  }

  /** A line that is no delimiter: a header line may be parsed, and a blank one starts the text. */
  function TakeLine(w: Walk, line: seq<byte>): (r: (Walk, seq<Effect>, bool))
    requires HdrInv(w.hdr) && line != []
    ensures r.2 ==> w.mp.InHeaders?
  {
    if w.mp.InHeaders? then
      var (hdr, effs, blank) := ParseHdr(w.hdr, line, false);
      (Walk(AfterLine(hdr, line), if blank then InText else w.mp), effs, blank)
    else (w.(hdr := AfterLine(w.hdr, line)), [], false)
  }

  /** Behind a delimiter: the next line is taken without being tried. */
  function AtDelimiter(hdr: HdrState, level: nat, final: bool): Walk {
    Walk(hdr.(nest := if final then level else level + 1, matches := 0, bol := true),
         if final then InEpilogue else InHeaders)
  }

  /** A stretch of the body: text to sum, the effects of a header line, or a delimiter line. */
  datatype Piece = Slice(mp: MpSt, bytes: seq<byte>) | Fields(effs: seq<Effect>) | Line(bnd: seq<byte>, final: bool,
      ws: seq<byte>)

  /** What a walk finds, the state it leaves, and the start of a delimiter that the body ends in. */
  datatype Outcome = Outcome(pieces: seq<Piece>, w: Walk, tail: seq<byte>)

  function Then(pieces: seq<Piece>, o: Outcome): Outcome {
    o.(pieces := pieces + o.pieces)
  }

  function Flush(mp: MpSt, sum: seq<byte>): seq<Piece> {
    if sum == [] then [] else [Slice(mp, sum)]
  }

  /** In the body a header line does not touch the count of matches, and closes no level. */
  lemma StepKeepsMatches(s: HdrState, bp: seq<byte>)
    requires HdrInv(s) && bp != [] && !s.st.MhIdle?
    ensures HdrStep(s, bp, false).s.matches == s.matches && HdrStep(s, bp, false).s.nest >= s.nest
  {
    hide HdrInv, HdrStep, BndStep, BndValueStep, Progresses;
    ReadySlots(s, false);
    StepAtBoundary(s, bp, false);
    if s.st.MhBnd? {
      BndKeepsMatches(s, bp);
    } else if s.st.MhBndValue? {
      ValueKeepsMatches(s, bp);
    } else {
      PlainStepMoves(s, bp, false);
    }
  }

  lemma BndKeepsMatches(s: HdrState, bp: seq<byte>)
    requires SlotsOk(s) && s.nest < BND_NUM
    ensures BndStep(s, bp, false).s.matches == s.matches && BndStep(s, bp, false).s.nest == s.nest
  {
  }

  lemma {:induction false} ValueKeepsMatches(s: HdrState, bp: seq<byte>)
    requires SlotsOk(s) && s.nest < BND_NUM && s.pos < BND_MAX
    ensures BndValueStep(s, bp).s.matches == s.matches && BndValueStep(s, bp).s.nest >= s.nest
    decreases |bp|
  {
    if bp != [] && bp[0] != LF && !((bp[0] == SP || bp[0] == TAB || bp[0] == SEMI) && !s.quoted) {
      if bp[0] == CR {
        ValueKeepsMatches(s, bp[1..]);
      } else if bp[0] == DQUOTE {
        ValueKeepsMatches(s.(quoted := !s.quoted), bp[1..]);
      } else if s.pos + 1 < BND_MAX {
        ValueKeepsMatches(s.(slots := s.slots[s.nest := PutByte(s.slots[s.nest], s.pos, bp[0])], pos := s.pos + 1), bp[1..]);
      }
    }
  }

  lemma {:induction false} RunKeepsMatches(s: HdrState, bp: seq<byte>)
    requires HdrInv(s)
    ensures HdrRun(s, bp, false).0.matches == s.matches && HdrRun(s, bp, false).0.nest >= s.nest
    decreases |bp|, Rank(s.st, bp)
  {
    hide HdrInv, HdrStep, Rank;
    if bp != [] && !s.st.MhIdle? {
      StepKeepsMatches(s, bp);
      StepKeeps(s, bp, false);
      var r := HdrStep(s, bp, false);
      if !r.stop {
        RunKeepsMatches(r.s, r.bp);
      }
    }
  }

  /** What a line adds when it is taken: its header's effects, and a flush when it is blank. */
  function Head(mp: MpSt, sum: seq<byte>, effs: seq<Effect>, blank: bool): seq<Piece> {
    (if mp.InHeaders? then [Fields(effs)] else []) + if blank then [Slice(mp, sum)] else []
  }

  lemma TakeLineKeeps(w: Walk, line: seq<byte>)
    requires HdrInv(w.hdr) && line != [] && w.hdr.matches == 0
    ensures var w1 := TakeLine(w, line).0;
      WalkInv(w1) && w1.hdr.nest >= w.hdr.nest && (line[|line| - 1] == LF ==> w1.hdr.matches == w1.hdr.nest)
  {
    hide HdrRun, HdrInv, Cleared;
    AfterLineKeeps(w.hdr, line);
    if w.mp.InHeaders? {
      var hdr := ParseHdr(w.hdr, line, false).0;
      var start := StartLine(w.hdr, line, false);
      StartKeeps(w.hdr, false);
      if start.At? {
        RunKeepsMatches(start.s, start.bp);
      }
      AfterLineKeeps(hdr, line);
    }
  }

  lemma AfterLineKeeps(hdr: HdrState, line: seq<byte>)
    requires HdrInv(hdr) && line != []
    ensures var h := AfterLine(hdr, line);
      && HdrInv(h) && h.nest == hdr.nest
      && (line[|line| - 1] == LF ==> h.matches == h.nest && Fresh(h, 0))
      && (line[|line| - 1] != LF ==> h == hdr)
      && (forall j :: 0 <= j < h.nest ==> Level(h, j) == Level(hdr, j))
  {
  }

  lemma DelimiterKeeps(hdr: HdrState, level: nat, final: bool)
    requires HdrInv(hdr) && level < hdr.nest
    ensures WalkInv(AtDelimiter(hdr, level, final))
  {
  }

  lemma TestKeeps(w: Walk, t: seq<byte>)
    requires WalkInv(w) && t != [] && w.hdr.nest != 0 && w.hdr.matches != 0
    ensures var (hdr, hit) := Scan(w.hdr, t, 0, false);
      match hit
      case NoHit(open) => !open ==> hdr.matches == 0 && WalkInv(w.(hdr := hdr))
      case Hit(i, len, final) => WalkInv(AtDelimiter(hdr, i, final)) && |Marked(Level(w.hdr, i), final)| < len <= |t|
  {
    hide HdrInv, Scan, Level, Marked, Live;
    SlotsThere(w.hdr);
    AllLive(w.hdr.slots, w.hdr.nest);
    ScanFinds(w.hdr, t);
    var (hdr, hit) := Scan(w.hdr, t, 0, false);
    if hit.Hit? {
      DelimiterKeeps(hdr, hit.level, hit.final);
      var ws :| AllBlank(ws) && FirstLine(t) == Delimiter(Level(w.hdr, hit.level), hit.final, ws);
    }
  }

  /** The delimiter line that a scan hit. */
  function LineOf(bnd: seq<byte>, hit: Hit, t: seq<byte>): Piece
    requires hit.Hit? && |Marked(bnd, hit.final)| < hit.len <= |t|
  {
    Line(bnd, hit.final, t[|Marked(bnd, hit.final)|..hit.len - 1])
  }

  /** From the text to sum so far and the text left. */
  function Run(w: Walk, sum: seq<byte>, t: seq<byte>): Outcome
    requires WalkInv(w)
    decreases |t|, w.hdr.matches != 0
  {
    if t == [] then Outcome(Flush(w.mp, sum), w, [])
    else if w.hdr.nest == 0 then Outcome([Slice(w.mp, sum + t)], w, [])
    else if w.hdr.matches == 0 then
      TakeLineKeeps(w, FirstLine(t));
      var line := FirstLine(t);
      var (w1, effs, blank) := TakeLine(w, line);
      Then(Head(w.mp, sum + line, effs, blank), Run(w1, if blank then [] else sum + line, t[|line|..]))
    else
      TestKeeps(w, t);
      var (hdr, hit) := Scan(w.hdr, t, 0, false);
      match hit
      case NoHit(open) =>
        if open then Outcome(Flush(w.mp, sum), w.(hdr := hdr), t) else Run(w.(hdr := hdr), sum, t)
      case Hit(i, len, final) =>
        var bnd := Level(w.hdr, i);
        Then(Flush(w.mp, sum) + [LineOf(bnd, hit, t)],
             Run(AtDelimiter(hdr, i, final), [], t[len..]))
  }

  // ---- The header fields of the message -------------------------------------------------

  /** The header fields open at most one boundary, and it is not tried before the body. */
  ghost predicate BoundaryReady(hdr: HdrState)
    requires SlotsOk(hdr)
  {
    && (hdr.nest == 1 || hdr.st.MhBndValue? ==> hdr.matches == 1)
    && (hdr.nest == 1 ==> hdr.slots[0].cmpLen == 0)
  }

  ghost predicate MessageReady(hdr: HdrState) {
    Ready(hdr, true) && BoundaryReady(hdr)
  }

  lemma {:induction false} ValueIsReady(s: HdrState, bp: seq<byte>)
    requires SlotsOk(s) && s.nest == 0 && s.st.MhBndValue? && s.pos < BND_MAX && BoundaryReady(s)
    ensures SlotsOk(BndValueStep(s, bp).s) && BoundaryReady(BndValueStep(s, bp).s)
    decreases |bp|
  {
    if bp != [] && bp[0] != LF && !((bp[0] == SP || bp[0] == TAB || bp[0] == SEMI) && !s.quoted) {
      if bp[0] == CR {
        ValueIsReady(s, bp[1..]);
      } else if bp[0] == DQUOTE {
        ValueIsReady(s.(quoted := !s.quoted), bp[1..]);
      } else if s.pos + 1 < BND_MAX {
        ValueIsReady(s.(slots := s.slots[s.nest := PutByte(s.slots[s.nest], s.pos, bp[0])], pos := s.pos + 1), bp[1..]);
      }
    }
  }

  lemma OpeningIsReady(s: HdrState, bp: seq<byte>)
    requires SlotsOk(s) && s.st.MhBnd? && BoundaryReady(s)
    ensures SlotsOk(BndStep(s, bp, true).s) && BoundaryReady(BndStep(s, bp, true).s)
  {
  }

  lemma StepIsReady(s: HdrState, bp: seq<byte>)
    requires MessageReady(s) && HeaderSlot(s, true) && bp != [] && !s.st.MhIdle?
    ensures MessageReady(HdrStep(s, bp, true).s)
  {
    hide HdrInv, HdrStep, BndStep, BndValueStep, Progresses;
    ReadySlots(s, true);
    StepAtBoundary(s, bp, true);
    StepKeeps(s, bp, true);
    if s.st.MhBnd? {
      OpeningIsReady(s, bp);
    } else if s.st.MhBndValue? {
      ValueIsReady(s, bp);
    } else {
      PlainStepMoves(s, bp, true);
    }
  }

  lemma {:induction false} RunIsReady(s: HdrState, bp: seq<byte>)
    requires MessageReady(s) && HeaderSlot(s, true)
    ensures MessageReady(HdrRun(s, bp, true).0)
    decreases |bp|, Rank(s.st, bp)
  {
    hide HdrInv, HdrStep, Rank, BoundaryReady, HeaderSlot;
    if bp != [] && !s.st.MhIdle? {
      StepIsReady(s, bp);
      StepKeeps(s, bp, true);
      var r := HdrStep(s, bp, true);
      if !r.stop {
        RunIsReady(r.s, r.bp);
      }
    }
  }

  lemma FieldStartsReady(hdr: HdrState)
    requires Ready(hdr, true)
    ensures BoundaryReady(hdr) ==> MessageReady(hdr.(st := MhCeCt, pos := 0))
  {
  }

  lemma LineStartsReady(hdr: HdrState)
    requires Ready(hdr, true)
    ensures BoundaryReady(hdr) ==> MessageReady(hdr.(bol := true))
  {
  }

  /** Behind any header fields the body starts with at most one boundary, fresh. */
  lemma FieldIsReady(hdr: HdrState, field: seq<byte>)
    requires MessageReady(hdr)
    ensures MessageReady(FieldRun(hdr, field).0)
  {
    hide HdrInv, HdrRun, BoundaryReady;
    FieldStarts(hdr);
    FieldStartsReady(hdr);
    RunIsReady(hdr.(st := MhCeCt, pos := 0), field);
    var h1 := HdrRun(hdr.(st := MhCeCt, pos := 0), field, true).0;
    if !h1.st.MhIdle? {
      RunIsReady(h1, [LF]);
      LineStartsReady(HdrRun(h1, [LF], true).0);
    }
    LineStartsReady(h1);
  }

  lemma ReadyWalks(hdr: HdrState, mp: MpSt)
    requires MessageReady(hdr)
    ensures WalkInv(Walk(hdr, mp))
  {
  }

  /** The parser's and the decoders' state after one header field. */
  ghost function TakeField(t: Tables, p: PipeState, w: Walk, field: seq<byte>): (r: (PipeState, Walk))
    requires t.Good() && PipeOk(p) && Ready(w.hdr, true)
    ensures PipeOk(r.0) && Ready(r.1.hdr, true)
  {
    var (hdr, effs) := FieldRun(w.hdr, field);
    (Play(t, p, Note(effs)), Walk(hdr, if hdr.nest != 0 then InPreamble else w.mp))
  }

  ghost function TakeFields(t: Tables, p: PipeState, w: Walk, fields: seq<seq<byte>>): (r: (PipeState, Walk))
    requires t.Good() && PipeOk(p) && MessageReady(w.hdr)
    ensures PipeOk(r.0) && MessageReady(r.1.hdr)
    decreases |fields|
  {
    if fields == [] then (p, w)
    else
      FieldIsReady(w.hdr, fields[0]);
      var (p1, w1) := TakeField(t, p, w, fields[0]);
      TakeFields(t, p1, w1, fields[1..])
  }

  // ---- Tiling ---------------------------------------------------------------------------

  function PieceBytes(p: Piece): seq<byte> {
    match p
    case Slice(_, bytes) => bytes
    case Fields(_) => []
    case Line(bnd, final, ws) => Delimiter(bnd, final, ws)
  }

  function Tiles(ps: seq<Piece>): seq<byte> {
    if ps == [] then [] else PieceBytes(ps[0]) + Tiles(ps[1..])
  }

  lemma {:induction false} TilesAppend(a: seq<Piece>, b: seq<Piece>)
    ensures Tiles(a + b) == Tiles(a) + Tiles(b)
  {
    if a == [] {
      assert a + b == b;
    } else {
      assert (a + b)[1..] == a[1..] + b;
      TilesAppend(a[1..], b);
    }
  }

  lemma TileOne(p: Piece)
    ensures Tiles([p]) == PieceBytes(p) && Tiles([]) == []
  {
    assert [p][1..] == [];
  }

  lemma FlushTiles(mp: MpSt, sum: seq<byte>)
    ensures Tiles(Flush(mp, sum)) == sum
  {
    TileOne(Slice(mp, sum));
  }

  /** Nothing, or a text that some active boundary still waits for. */
  ghost predicate IsTail(w: Walk, tail: seq<byte>)
    requires HdrInv(w.hdr)
  {
    tail == [] || exists j :: 0 <= j < w.hdr.nest && IsUnfinished(tail, Level(w.hdr, j))
  }

  /**
    Slices, delimiter lines and at most one unfinished delimiter at the end make up the body, in
    order and without a gap.
    */
  lemma {:induction false} Tiling(w: Walk, sum: seq<byte>, t: seq<byte>)
    requires WalkInv(w)
    ensures var o := Run(w, sum, t);
      Tiles(o.pieces) + o.tail == sum + t && HdrInv(o.w.hdr) && IsTail(o.w, o.tail)
    decreases |t|, w.hdr.matches != 0
  {
    hide HdrInv, Scan, TakeLine, IsUnfinished, Tiles, AtDelimiter, Level, FirstLine, WalkInv;
    Invariant(w);
    FlushTiles(w.mp, sum);
    if t == [] {
    } else if w.hdr.nest == 0 {
      TileOne(Slice(w.mp, sum + t));
    } else if w.hdr.matches == 0 {
      LineTiles(w, sum, t);
    } else {
      TestTiles(w, sum, t);
    }
  }

  lemma Invariant(w: Walk)
    requires WalkInv(w)
    ensures HdrInv(w.hdr)
  {
  }

  lemma {:induction false} LineTiles(w: Walk, sum: seq<byte>, t: seq<byte>)
    requires WalkInv(w) && t != [] && w.hdr.nest != 0 && w.hdr.matches == 0
    ensures var o := Run(w, sum, t);
      Tiles(o.pieces) + o.tail == sum + t && HdrInv(o.w.hdr) && IsTail(o.w, o.tail)
    decreases |t|, w.hdr.matches != 0, 0
  {
    hide HdrInv, TakeLine, Tiles, Level, WalkInv, IsTail, Run, Head, FirstLine;
    Invariant(w);
    TakeLineKeeps(w, FirstLine(t));
    var line := FirstLine(t);
    var (w1, effs, blank) := TakeLine(w, line);
    var sum1 := if blank then [] else sum + line;
    Tiling(w1, sum1, t[|line|..]);
    var o := Run(w1, sum1, t[|line|..]);
    assert t == line + t[|line|..];
    HeadTiles(w.mp, sum, line, effs, blank, o);
    RunLine(w, sum, t);
  }

  /** One line taken, seen from the walk. */
  lemma RunLine(w: Walk, sum: seq<byte>, t: seq<byte>)
    requires WalkInv(w) && t != [] && w.hdr.nest != 0 && w.hdr.matches == 0
    ensures var line := FirstLine(t);
      var (w1, effs, blank) := TakeLine(w, line);
      WalkInv(w1)
      && Run(w, sum, t)
         == Then(Head(w.mp, sum + line, effs, blank), Run(w1, if blank then [] else sum + line, t[|line|..]))
  {
    hide HdrInv, TakeLine, FirstLine, WalkInv;
    Invariant(w);
    TakeLineKeeps(w, FirstLine(t));
  }

  lemma HeadTiles(mp: MpSt, sum: seq<byte>, line: seq<byte>, effs: seq<Effect>, blank: bool, o: Outcome)
    ensures var head := Head(mp, sum + line, effs, blank);
      Tiles(head + o.pieces) + o.tail
      == (if blank then sum + line else []) + (Tiles(o.pieces) + o.tail)
  {
    hide Tiles;
    var a: seq<Piece> := if mp.InHeaders? then [Fields(effs)] else [];
    var b: seq<Piece> := if blank then [Slice(mp, sum + line)] else [];
    TileOne(Fields(effs));
    TileOne(Slice(mp, sum + line));
    TilesAppend(a, b);
    TilesAppend(a + b, o.pieces);
    assert Tiles(a) == [] && Tiles(a + b) == Tiles(b);
    assert Tiles(b) + Tiles(o.pieces) + o.tail == Tiles(b) + (Tiles(o.pieces) + o.tail);
  }

  lemma {:induction false} TestTiles(w: Walk, sum: seq<byte>, t: seq<byte>)
    requires WalkInv(w) && t != [] && w.hdr.nest != 0 && w.hdr.matches != 0
    ensures var o := Run(w, sum, t);
      Tiles(o.pieces) + o.tail == sum + t && HdrInv(o.w.hdr) && IsTail(o.w, o.tail)
    decreases |t|, w.hdr.matches != 0, 0
  {
    hide HdrInv, Scan, TakeLine, IsUnfinished, Tiles, AtDelimiter, Level, Live, FirstLine;
    TestKeeps(w, t);
    SlotsThere(w.hdr);
    AllLive(w.hdr.slots, w.hdr.nest);
    ScanFinds(w.hdr, t);
    FlushTiles(w.mp, sum);
    var (hdr, hit) := Scan(w.hdr, t, 0, false);
    match hit {
      case NoHit(open) =>
        if !open {
          Tiling(w.(hdr := hdr), sum, t);
        }
      case Hit(i, len, final) =>
        Tiling(AtDelimiter(hdr, i, final), [], t[len..]);
        HitTiles(w, sum, t, hit, Level(w.hdr, i), Run(AtDelimiter(hdr, i, final), [], t[len..]));
    }
  }

  lemma HitTiles(w: Walk, sum: seq<byte>, t: seq<byte>, hit: Hit, bnd: seq<byte>, o: Outcome)
    requires t != [] && hit.Hit? && hit.len == |FirstLine(t)| && IsDelimiter(FirstLine(t), bnd, hit.final)
    requires |Marked(bnd, hit.final)| < hit.len <= |t| && Tiles(o.pieces) + o.tail == t[hit.len..]
    ensures var ps := Flush(w.mp, sum) + [LineOf(bnd, hit, t)];
      Tiles(ps + o.pieces) + o.tail == sum + t
  {
    hide Tiles, FirstLine, Flush;
    var ws :| AllBlank(ws) && FirstLine(t) == Delimiter(bnd, hit.final, ws);
    var line := LineOf(bnd, hit, t);
    assert t == FirstLine(t) + t[hit.len..];
    assert line.ws == ws;
    FlushTiles(w.mp, sum);
    TileOne(line);
    TilesAppend(Flush(w.mp, sum), [line]);
    TilesAppend(Flush(w.mp, sum) + [line], o.pieces);
    assert sum + Delimiter(bnd, hit.final, ws) + Tiles(o.pieces) + o.tail == sum + (Delimiter(bnd, hit.final,
        ws) + (Tiles(o.pieces) + o.tail));
  }

  // ---- What the pieces do to the checksums ----------------------------------------------

  const CLOSING: seq<byte> := [DASH, DASH]

  /** The boundary itself is summed, without the white space and the line end behind it. */
  function PieceEvents(p: Piece): seq<Event> {
    match p
    case Slice(mp, bytes) => [Sum(mp, bytes)]
    case Fields(effs) => [Note(effs)]
    case Line(bnd, final, _) => [Sum(InBoundary, bnd)] + (if final then [Sum(InBoundary, CLOSING)] else []) + [Reset]
  }

  function Events(ps: seq<Piece>): seq<Event> {
    if ps == [] then [] else PieceEvents(ps[0]) + Events(ps[1..])
  }

  lemma {:induction false} EventsAppend(a: seq<Piece>, b: seq<Piece>)
    ensures Events(a + b) == Events(a) + Events(b)
  {
    if a == [] {
      assert a + b == b;
    } else {
      assert (a + b)[1..] == a[1..] + b;
      EventsAppend(a[1..], b);
    }
  }

  ghost function PlayPieces(t: Tables, p: PipeState, ps: seq<Piece>): (p': PipeState)
    requires t.Good() && PipeOk(p)
    ensures PipeOk(p')
  {
    PlayAll(t, p, Events(ps))
  }

  lemma PiecesSplit(t: Tables, p: PipeState, a: seq<Piece>, b: seq<Piece>)
    requires t.Good() && PipeOk(p)
    ensures PlayPieces(t, p, a + b) == PlayPieces(t, PlayPieces(t, p, a), b)
  {
    hide PipeOk, PlayAll;
    EventsAppend(a, b);
    PlaySplits(t, p, Events(a), Events(b));
  }

  /** The checksums and the walk when the rest of the body has been walked. */
  ghost function Ends(t: Tables, p: PipeState, w: Walk, sum: seq<byte>, rest: seq<byte>): (PipeState, Walk)
    requires t.Good() && PipeOk(p) && WalkInv(w)
  {
    var o := Run(w, sum, rest);
    (PlayPieces(t, p, o.pieces), o.w)
  }

  lemma EndsThen(t: Tables, p: PipeState, head: seq<Piece>, w: Walk, sum: seq<byte>, rest: seq<byte>, w0: Walk,
      sum0: seq<byte>, rest0: seq<byte>)
    requires t.Good() && PipeOk(p) && WalkInv(w) && WalkInv(w0)
    requires Run(w0, sum0, rest0) == Then(head, Run(w, sum, rest))
    ensures Ends(t, p, w0, sum0, rest0) == Ends(t, PlayPieces(t, p, head), w, sum, rest)
  {
    hide PipeOk, WalkInv, Run, PlayPieces;
    PiecesSplit(t, p, head, Run(w, sum, rest).pieces);
  }

  lemma EndsLine(t: Tables, p: PipeState, w: Walk, sum: seq<byte>, rest: seq<byte>)
    requires t.Good() && PipeOk(p) && WalkInv(w) && rest != [] && w.hdr.nest != 0 && w.hdr.matches == 0
    ensures HdrInv(w.hdr)
    ensures var line := FirstLine(rest);
      var (w1, effs, blank) := TakeLine(w, line);
      && WalkInv(w1) && (|line| < |rest| ==> w1.hdr.matches == w1.hdr.nest >= w.hdr.nest)
      && Ends(t, p, w, sum, rest)
         == Ends(t, PlayPieces(t, p, Head(w.mp, sum + line, effs, blank)), w1, if blank then [] else sum + line, rest[|line|..])
  {
    hide PipeOk, WalkInv, Run, PlayPieces, TakeLine, FirstLine, Head, HdrInv;
    Invariant(w);
    RunLine(w, sum, rest);
    TakeLineKeeps(w, FirstLine(rest));
    LineBreaks(rest);
    var line := FirstLine(rest);
    var (w1, effs, blank) := TakeLine(w, line);
    EndsThen(t, p, Head(w.mp, sum + line, effs, blank), w1, if blank then [] else sum + line, rest[|line|..], w, sum, rest);
  }

  lemma LineBreaks(t: seq<byte>)
    requires t != []
    ensures |FirstLine(t)| < |t| ==> FirstLine(t)[|FirstLine(t)| - 1] == LF
  {
  }

  /** The tried line: none found, one that waits for more, or a delimiter. */
  lemma EndsTest(t: Tables, p: PipeState, w: Walk, sum: seq<byte>, rest: seq<byte>)
    requires t.Good() && PipeOk(p) && WalkInv(w) && rest != [] && w.hdr.nest != 0 && w.hdr.matches != 0
    ensures HdrInv(w.hdr)
    ensures var (hdr, hit) := Scan(w.hdr, rest, 0, false);
      && (hit == NoHit(true) ==> Ends(t, p, w, sum, rest) == (PlayPieces(t, p, Flush(w.mp, sum)), w.(hdr := hdr)))
      && (hit == NoHit(false) ==>
            hdr.matches == 0 && WalkInv(w.(hdr := hdr)) && Ends(t, p, w, sum, rest) == Ends(t, p, w.(hdr := hdr), sum, rest))
      && (hit.Hit? ==>
            var bnd, w1 := Level(w.hdr, hit.level), AtDelimiter(hdr, hit.level, hit.final);
            && WalkInv(w1) && |Marked(bnd, hit.final)| < hit.len <= |rest|
            && Ends(t, p, w, sum, rest)
               == Ends(t, PlayPieces(t, p, Flush(w.mp, sum) + [LineOf(bnd, hit, rest)]), w1, [], rest[hit.len..]))
  {
    hide PipeOk, WalkInv, PlayPieces, HdrInv, Scan, Level, Marked, AtDelimiter, Run, Flush, LineOf;
    Invariant(w);
    RunTest(w, sum, rest);
    var (hdr, hit) := Scan(w.hdr, rest, 0, false);
    if hit.Hit? {
      var bnd := Level(w.hdr, hit.level);
      EndsThen(t, p, Flush(w.mp, sum) + [LineOf(bnd, hit, rest)],
               AtDelimiter(hdr, hit.level, hit.final), [], rest[hit.len..], w, sum, rest);
    }
  }

  /** One line tried, seen from the walk. */
  lemma RunTest(w: Walk, sum: seq<byte>, t: seq<byte>)
    requires WalkInv(w) && t != [] && w.hdr.nest != 0 && w.hdr.matches != 0
    ensures var (hdr, hit) := Scan(w.hdr, t, 0, false);
      && (hit == NoHit(true) ==> Run(w, sum, t) == Outcome(Flush(w.mp, sum), w.(hdr := hdr), t))
      && (hit == NoHit(false) ==>
            hdr.matches == 0 && WalkInv(w.(hdr := hdr)) && Run(w, sum, t) == Run(w.(hdr := hdr), sum, t))
      && (hit.Hit? ==>
            var bnd, w1 := Level(w.hdr, hit.level), AtDelimiter(hdr, hit.level, hit.final);
            && WalkInv(w1) && |Marked(bnd, hit.final)| < hit.len <= |t|
            && Run(w, sum, t) == Then(Flush(w.mp, sum) + [LineOf(bnd, hit, t)], Run(w1, [], t[hit.len..])))
  {
    hide WalkInv, HdrInv, Scan, Level, Marked, AtDelimiter, Flush, LineOf;
    Invariant(w);
    TestKeeps(w, t);
  }

  lemma EndsFlat(t: Tables, p: PipeState, w: Walk, sum: seq<byte>, rest: seq<byte>)
    requires t.Good() && PipeOk(p) && WalkInv(w)
    ensures rest == [] ==> Ends(t, p, w, sum, rest) == (PlayPieces(t, p, Flush(w.mp, sum)), w)
    ensures rest != [] && w.hdr.nest == 0 ==> Ends(t, p, w, sum, rest) == (PlayPieces(t, p, [Slice(w.mp, sum + rest)]), w)
  {
    hide PipeOk, PlayPieces, HdrInv;
  }

  lemma PlayOne(t: Tables, p: PipeState, e: Event)
    requires t.Good() && PipeOk(p)
    ensures PlayAll(t, p, [e]) == Play(t, p, e) && PlayAll(t, p, []) == p
  {
    hide Play, PipeOk;
    assert [e][1..] == [];
  }

  lemma PlaySlice(t: Tables, p: PipeState, mp: MpSt, bytes: seq<byte>)
    requires t.Good() && PipeOk(p)
    ensures PlayPieces(t, p, [Slice(mp, bytes)]) == Play(t, p, Sum(mp, bytes)) && PlayPieces(t, p, []) == p
  {
    hide Play, PipeOk, PlayAll;
    assert [Slice(mp, bytes)][1..] == [] && Events([]) == [];
    assert Events([Slice(mp, bytes)]) == [Sum(mp, bytes)];
    PlayOne(t, p, Sum(mp, bytes));
  }

  lemma PlayFields(t: Tables, p: PipeState, effs: seq<Effect>)
    requires t.Good() && PipeOk(p)
    ensures PlayPieces(t, p, [Fields(effs)]) == Play(t, p, Note(effs))
  {
    hide Play, PipeOk, PlayAll;
    assert [Fields(effs)][1..] == [] && Events([]) == [];
    assert Events([Fields(effs)]) == [Note(effs)];
    PlayOne(t, p, Note(effs));
  }

  lemma PlayLine(t: Tables, p: PipeState, bnd: seq<byte>, final: bool, ws: seq<byte>)
    requires t.Good() && PipeOk(p)
    ensures var p1 := Play(t, p, Sum(InBoundary, bnd));
      PlayPieces(t, p, [Line(bnd, final, ws)])
      == Play(t, if final then Play(t, p1, Sum(InBoundary, CLOSING)) else p1, Reset)
  {
    hide Play, PipeOk, PlayAll;
    assert [Line(bnd, final, ws)][1..] == [] && Events([]) == [];
    var a, b := [Sum(InBoundary, bnd)], if final then [Sum(InBoundary, CLOSING)] else [];
    assert Events([Line(bnd, final, ws)]) == a + b + [Reset];
    PlaySplits(t, p, a + b, [Reset]);
    PlaySplits(t, p, a, b);
    PlayOne(t, p, Sum(InBoundary, bnd));
    var p1 := Play(t, p, Sum(InBoundary, bnd));
    PlayOne(t, p1, Sum(InBoundary, CLOSING));
    PlayOne(t, PlayAll(t, p1, b), Reset);
  }
}
