/**
  Delimiter lines (RFC 2046, section 5.1.1): a boundary text, for a closing delimiter two more
  dashes, then white space and LF. The matcher looks at the text from where it stood before.
  */
module Boundaries {
  import opened Bytes
  import opened MimeHeader
  import opened BodyFilter

  predicate IsBlank(c: byte) { c == SP || c == TAB || c == CR }

  predicate AllBlank(ws: seq<byte>) {
    forall k :: 0 <= k < |ws| ==> IsBlank(ws[k])
  }

  /** A boundary with what makes a delimiter closing. */
  function Marked(bnd: seq<byte>, final: bool): seq<byte> {
    bnd + if final then [DASH, DASH] else []
  }

  /** The delimiter line of a boundary. */
  function Delimiter(bnd: seq<byte>, final: bool, ws: seq<byte>): seq<byte> {
    Marked(bnd, final) + ws + [LF]
  }

  ghost predicate IsDelimiter(line: seq<byte>, bnd: seq<byte>, final: bool) {
    exists ws :: AllBlank(ws) && line == Delimiter(bnd, final, ws)
  }

  /** A text without a line end that may still become a delimiter line. */
  ghost predicate IsUnfinished(text: seq<byte>, bnd: seq<byte>) {
    LF !in text && exists more, final :: IsDelimiter(text + more, bnd, final)
  }

  /** The text up to and with its first LF. */
  function FirstLine(t: seq<byte>): (line: seq<byte>)
    ensures line <= t && (t != [] ==> line != [])
  {
    var n := LineEnd(t);
    if n < |t| then t[..n + 1] else t
  }

  // ---- The matcher ----------------------------------------------------------------------

  /** No match, a match so far with its progress, or a delimiter with its length and progress. */
  datatype Verdict = Missed | Open(cmp: nat) | Found(len: nat, cmp: nat)

  /** White space and the line end, from position at. */
  function Trailer(t: seq<byte>, at: nat, cmp: nat): (v: Verdict)
    requires at <= |t|
    ensures (v.Open? || v.Found? ==> v.cmp == cmp) && (v.Found? ==> at < v.len <= |t|)
    decreases |t| - at
  {
    if at == |t| then Open(cmp)
    else if IsBlank(t[at]) then Trailer(t, at + 1, cmp)
    else if t[at] == LF then Found(at + 1, cmp)
    else Missed
  }

  /** The second dash of a closing delimiter. */
  function SecondDash(t: seq<byte>, at: nat, cmp: nat): Verdict
    requires at < |t|
  {
    if t[at] != DASH then Missed
    else if at + 1 == |t| then Open(cmp + 1)
    else Trailer(t, at + 1, cmp + 1)
  }

  /** Behind the boundary's text. */
  function Dashes(t: seq<byte>, at: nat, cmp: nat): Verdict
    requires at < |t|
  {
    if t[at] != DASH then Trailer(t, at, cmp)
    else if at + 1 == |t| then Open(cmp + 1)
    else SecondDash(t, at + 1, cmp + 1)
  }

  /** A text against a boundary of which cmp bytes, dashes included, were matched before. */
  function MatchFrom(t: seq<byte>, bnd: seq<byte>, cmp: nat): Verdict
    requires t != []
  {
    if cmp < |bnd| then
      var n := Min(|bnd| - cmp, |t|);
      if t[..n] != bnd[cmp..cmp + n] then Missed
      else if n == |t| then Open(cmp + n)
      else Dashes(t, n, cmp + n)
    else if cmp == |bnd| then Dashes(t, 0, cmp)
    else if cmp == |bnd| + 1 then SecondDash(t, 0, cmp)
    else Trailer(t, 0, cmp)
  }

  /** Real progress never reaches the mark of a missed boundary. */
  lemma MatchInBounds(t: seq<byte>, bnd: seq<byte>, cmp: nat)
    requires t != [] && |bnd| < BND_MAX && cmp <= |bnd| + 2
    ensures var v := MatchFrom(t, bnd, cmp);
      && (v.Open? ==> v.cmp <= |bnd| + 2 < BND_MISS)
      && (v.Found? ==> (v.cmp == |bnd| || v.cmp == |bnd| + 2) && 0 < v.len <= |t|)
  {
  }

  // ---- What it finds --------------------------------------------------------------------

  lemma LineEndIs(t: seq<byte>, n: nat)
    requires n <= |t| && LF !in t[..n] && (n < |t| ==> t[n] == LF)
    ensures LineEnd(t) == n
  {
    assert forall k :: 0 <= k < n ==> t[k] == t[..n][k];
    var m := LineEnd(t);
    assert forall k :: 0 <= k < m ==> t[k] == t[..m][k];
  }

  lemma FirstLineIs(line: seq<byte>, rest: seq<byte>)
    requires line != [] && line[|line| - 1] == LF && LF !in line[..|line| - 1]
    ensures FirstLine(line + rest) == line
  {
    var t, n := line + rest, |line| - 1;
    assert t[..n] == line[..n];
    LineEndIs(t, n);
  }

  lemma {:induction false} TrailerFinds(t: seq<byte>, at: nat, k: nat, cmp: nat)
    requires at <= k < |t| && t[k] == LF && forall i :: at <= i < k ==> IsBlank(t[i])
    ensures Trailer(t, at, cmp) == Found(k + 1, cmp)
    decreases k - at
  {
    if at < k {
      TrailerFinds(t, at + 1, k, cmp);
    }
  }

  lemma {:induction false} TrailerWaits(t: seq<byte>, at: nat, cmp: nat)
    requires at <= |t| && forall i :: at <= i < |t| ==> IsBlank(t[i])
    ensures Trailer(t, at, cmp) == Open(cmp)
    decreases |t| - at
  {
    if at < |t| {
      TrailerWaits(t, at + 1, cmp);
    }
  }

  /** What the trailer matched is white space, and the line end if it found one. */
  lemma {:induction false} TrailerIs(t: seq<byte>, at: nat, cmp: nat)
    requires at <= |t|
    ensures match Trailer(t, at, cmp)
      case Open(_) => AllBlank(t[at..])
      case Found(len, _) => AllBlank(t[at..len - 1]) && t[len - 1] == LF
      case Missed => true
    decreases |t| - at
  {
    if at < |t| && IsBlank(t[at]) {
      TrailerIs(t, at + 1, cmp);
      match Trailer(t, at, cmp) {
        case Open(_) => assert t[at..] == [t[at]] + t[at + 1..];
        case Found(len, _) => assert t[at..len - 1] == [t[at]] + t[at + 1..len - 1];
        case Missed =>
      }
    }
  }

  lemma FindsDelimiter(bnd: seq<byte>, final: bool, ws: seq<byte>, rest: seq<byte>)
    requires bnd != [] && AllBlank(ws)
    ensures var line := Delimiter(bnd, final, ws);
      MatchFrom(line + rest, bnd, 0) == Found(|line|, |Marked(bnd, final)|)
  {
    var line := Delimiter(bnd, final, ws);
    var t, at, k := line + rest, |Marked(bnd, final)|, |line| - 1;
    assert t[..|bnd|] == bnd && t[k] == LF;
    assert forall i :: at <= i < k ==> t[i] == ws[i - at];
    TrailerFinds(t, at, k, at);
    if final {
      assert t[|bnd|] == DASH && t[|bnd| + 1] == DASH;
    }
  }

  /** A text that is the start of a boundary with its dashes and white space waits for more. */
  lemma WaitsForMore(t: seq<byte>, bnd: seq<byte>, final: bool, ws: seq<byte>)
    requires t != [] && AllBlank(ws) && t <= Marked(bnd, final) + ws
    ensures MatchFrom(t, bnd, 0).Open?
  {
    var all, at := Marked(bnd, final) + ws, |Marked(bnd, final)|;
    var n := Min(|bnd|, |t|);
    assert t[..n] == all[..n] == bnd[..n];
    if |t| > |bnd| {
      assert forall i :: at <= i < |t| ==> t[i] == ws[i - at];
      if |t| >= at {
        TrailerWaits(t, at, at);
      }
      if final {
        assert t[|bnd|] == DASH;
      }
    }
  }

  lemma FoundIsDelimiter(t: seq<byte>, bnd: seq<byte>, len: nat, cmp: nat)
    requires t != [] && bnd != [] && LF !in bnd && MatchFrom(t, bnd, 0) == Found(len, cmp)
    ensures exists final :: IsDelimiter(FirstLine(t), bnd, final) && len == |FirstLine(t)| && cmp == |Marked(bnd, final)|
  {
    var final := t[|bnd|] == DASH;
    FoundLine(t, bnd, len, cmp, final);
  }

  lemma FoundLine(t: seq<byte>, bnd: seq<byte>, len: nat, cmp: nat, final: bool)
    requires t != [] && bnd != [] && LF !in bnd && MatchFrom(t, bnd, 0) == Found(len, cmp)
    requires |bnd| < |t| && (final <==> t[|bnd|] == DASH)
    ensures IsDelimiter(FirstLine(t), bnd, final) && len == |FirstLine(t)| && cmp == |Marked(bnd, final)|
  {
    hide FirstLine;
    var at := |Marked(bnd, final)|;
    TrailerIs(t, at, at);
    var ws := t[at..len - 1];
    assert t[..at] == Marked(bnd, final);
    assert t[..len] == t[..at] + ws + [LF];
    DelimiterIsLine(bnd, final, ws, t[len..]);
    assert t == t[..len] + t[len..];
  }

  lemma DelimiterIsLine(bnd: seq<byte>, final: bool, ws: seq<byte>, rest: seq<byte>)
    requires LF !in bnd && AllBlank(ws)
    ensures FirstLine(Delimiter(bnd, final, ws) + rest) == Delimiter(bnd, final, ws)
  {
    var line := Delimiter(bnd, final, ws);
    assert line[..|line| - 1] == Marked(bnd, final) + ws;
    FirstLineIs(line, rest);
  }

  lemma OpenIsUnfinished(t: seq<byte>, bnd: seq<byte>)
    requires t != [] && bnd != [] && LF !in bnd && MatchFrom(t, bnd, 0).Open?
    ensures IsUnfinished(t, bnd)
  {
    if |t| <= |bnd| {
      assert t == bnd[..|t|];
      StartIsUnfinished(t, bnd, false, []);
    } else {
      var final := t[|bnd|] == DASH;
      var at := |Marked(bnd, final)|;
      if |t| >= at {
        TrailerIs(t, at, at);
        assert t == Marked(bnd, final) + t[at..];
        StartIsUnfinished(t, bnd, final, t[at..]);
      } else {
        assert t == Marked(bnd, final)[..|t|];
        StartIsUnfinished(t, bnd, final, []);
      }
    }
  }

  lemma StartIsUnfinished(t: seq<byte>, bnd: seq<byte>, final: bool, ws: seq<byte>)
    requires LF !in bnd && AllBlank(ws) && t <= Marked(bnd, final) + ws
    ensures IsUnfinished(t, bnd)
  {
    var all := Marked(bnd, final) + ws;
    var more := all[|t|..] + [LF];
    assert t + more == Delimiter(bnd, final, ws);
    assert IsDelimiter(t + more, bnd, final);
    assert LF !in all;
    assert forall k :: 0 <= k < |t| ==> t[k] == all[k];
  }

  lemma UnfinishedIsOpen(t: seq<byte>, bnd: seq<byte>)
    requires t != [] && IsUnfinished(t, bnd)
    ensures MatchFrom(t, bnd, 0).Open?
  {
    var more, final :| IsDelimiter(t + more, bnd, final);
    var ws :| AllBlank(ws) && t + more == Delimiter(bnd, final, ws);
    var all := Marked(bnd, final) + ws;
    assert forall k :: 0 <= k < |t| ==> t[k] == (t + more)[k] && t[k] != LF;
    assert (t + more)[|all|] == LF;
    assert |t| <= |all|;
    assert forall k :: 0 <= k < |t| ==> (t + more)[k] == all[k];
    assert t == all[..|t|];
    WaitsForMore(t, bnd, final, ws);
  }

  /**
    The matcher against the definition: a line is a delimiter exactly when the matcher finds it,
    and a text is the start of one exactly when the matcher waits for more.
    */
  lemma DelimiterLines(t: seq<byte>, bnd: seq<byte>, final: bool)
    requires t != [] && bnd != [] && LF !in bnd
    ensures IsDelimiter(FirstLine(t), bnd, final)
      <==> MatchFrom(t, bnd, 0) == Found(|FirstLine(t)|, |Marked(bnd, final)|)
    ensures (exists f :: IsDelimiter(FirstLine(t), bnd, f)) <==> MatchFrom(t, bnd, 0).Found?
    ensures IsUnfinished(t, bnd) <==> MatchFrom(t, bnd, 0).Open?
  {
    hide *;
    var v := MatchFrom(t, bnd, 0);
    if v.Found? {
      FoundIsDelimiter(t, bnd, v.len, v.cmp);
    }
    if IsUnfinished(t, bnd) {
      UnfinishedIsOpen(t, bnd);
    }
    if v.Open? {
      OpenIsUnfinished(t, bnd);
    }
    forall f | IsDelimiter(FirstLine(t), bnd, f) ensures v == Found(|FirstLine(t)|, |Marked(bnd, f)|) {
      DelimiterIsFound(t, bnd, f);
    }
    MarkedDiffer(bnd);
  }

  lemma MarkedDiffer(bnd: seq<byte>)
    ensures |Marked(bnd, false)| != |Marked(bnd, true)|
  {
  }

  lemma DelimiterIsFound(t: seq<byte>, bnd: seq<byte>, final: bool)
    requires t != [] && bnd != [] && IsDelimiter(FirstLine(t), bnd, final)
    ensures MatchFrom(t, bnd, 0) == Found(|FirstLine(t)|, |Marked(bnd, final)|)
  {
    hide MatchFrom;
    var line := FirstLine(t);
    var ws :| AllBlank(ws) && line == Delimiter(bnd, final, ws);
    FindsDelimiter(bnd, final, ws, t[|line|..]);
    assert t == line + t[|line|..];
  }

  // ---- In byte values -------------------------------------------------------------------

  /** Space, tab and carriage return, and no other byte, may stand behind a boundary. */
  predicate Trails(ws: seq<byte>) {
    forall k :: 0 <= k < |ws| ==> ws[k] == 0x20 || ws[k] == 0x09 || ws[k] == 0x0D
  }

  /** Two dashes behind the boundary close it. */
  function ClosingDashes(final: bool): seq<byte> {
    if final then [0x2D, 0x2D] else []
  }

  /** A boundary, two dashes when it is closed, white space and a line feed are a delimiter. */
  lemma DelimiterInBytes(bnd: seq<byte>, final: bool, ws: seq<byte>, rest: seq<byte>)
    requires bnd != [] && Trails(ws)
    ensures MatchFrom(bnd + (ClosingDashes(final) + (ws + ([0x0A] + rest))), bnd, 0)
      == Found(|bnd| + |ClosingDashes(final)| + |ws| + 1, |bnd| + |ClosingDashes(final)|)
  {
    hide MatchFrom;
    FindsDelimiter(bnd, final, ws, rest);
    assert bnd + (ClosingDashes(final) + (ws + ([0x0A] + rest))) == Delimiter(bnd, final, ws) + rest;
  }

  /** Any other byte behind the white space is none, and neither is a single dash. */
  lemma NoDelimiterInBytes(bnd: seq<byte>, final: bool, ws: seq<byte>, c: byte, rest: seq<byte>)
    requires bnd != [] && Trails(ws) && c != 0x20 && c != 0x09 && c != 0x0D && c != 0x0A
    requires !final && ws == [] && c == 0x2D ==> rest != [] && rest[0] != 0x2D
    ensures MatchFrom(bnd + (ClosingDashes(final) + (ws + ([c] + rest))), bnd, 0) == Missed
  {
    hide Trailer;
    var t := bnd + (ClosingDashes(final) + (ws + ([c] + rest)));
    var at := |bnd| + |ClosingDashes(final)|;
    assert t[..|bnd|] == bnd && t[at + |ws|] == c;
    assert forall i :: at <= i < at + |ws| ==> t[i] == ws[i - at];
    TrailerMisses(t, at, at + |ws|, at);
    if final {
      assert t[|bnd|] == 0x2D && t[|bnd| + 1] == 0x2D;
    } else if ws == [] {
      if c == 0x2D {
        assert t[|bnd| + 1] == rest[0];
      }
    } else {
      assert t[|bnd|] == ws[0];
    }
  }

  lemma {:induction false} TrailerMisses(t: seq<byte>, at: nat, k: nat, cmp: nat)
    requires at <= k < |t| && t[k] != LF && !IsBlank(t[k]) && forall i :: at <= i < k ==> IsBlank(t[i])
    ensures Trailer(t, at, cmp) == Missed
    decreases k - at
  {
    if at < k {
      TrailerMisses(t, at + 1, k, cmp);
    }
  }
}
