/**
  What one part of a message does to the checksums: the transfer encoding is undone, and the
  result goes to the body checksum and, unless it is binary, to the second fuzzy checksum.
  */
module Pipeline {
  import opened Bytes
  import opened Entities
  import opened WordTables
  import opened Cref
  import opened Fuz2Machine
  import QP = QuotedPrintable
  import B64 = Base64
  import Settling = Base64Settles

  datatype MpSt = InPreamble | InBoundary | InHeaders | InText | InEpilogue

  /** What happens to the decoders: a part is summed, a header takes effect, or a new entity starts. */
  datatype Event = Sum(mp: MpSt, bytes: seq<byte>) | Note(effs: seq<Effect>) | Reset

  /** Two decoders, the entity, all bytes fed to the body checksum, and the second fuzzy checksum. */
  datatype PipeState = PipeState(qp: QP.QpState, b64: B64.B64State, ent: Described, body: seq<byte>, fuz: FuzState)

  const TBUF_LEN := 1024

  ghost predicate PipeOk(p: PipeState) {
    && p.qp.n < 16 && p.b64.Valid()
    && ValidFuz(p.fuz) && Accounted(p.fuz) && p.fuz.ct == p.ent.ct
  }

  /** The entity's content type is one variable, which the fuzzy checksum can set too. */
  function Shared(p: PipeState, fuz: FuzState): PipeState {
    p.(fuz := fuz, ent := p.ent.(ct := fuz.ct))
  }

  ghost predicate FuzOk(t: Tables, s: FuzState) {
    t.Good() && |s.lang| == LANG_NUM && (s.st.StartTag? ==> s.tagLen <= WORD_LEN)
  }

  /** A decoded chunk. */
  ghost function Feed(t: Tables, p: PipeState, chunk: seq<byte>): (p': PipeState)
    requires FuzOk(t, p.fuz)
    ensures FuzOk(t, p'.fuz)
  {
    var p1 := p.(body := p.body + chunk);
    if p.ent.ct == Binary then p1 else Shared(p1, FuzRun(t, p.ent.cset, p.fuz, chunk))
  }

  /** The bytes of a part outside the text of an entity are summed as they are, closed by an LF. */
  ghost function Outside(t: Tables, p: PipeState, bytes: seq<byte>): PipeState
    requires FuzOk(t, p.fuz)
  {
    if bytes == [] then p
    else
      var p1 := p.(body := p.body + bytes);
      Shared(p1, FuzRun(t, p.ent.cset, p.fuz, [LF]))
  }

  ghost function Inside(t: Tables, p: PipeState, bytes: seq<byte>): PipeState
    requires FuzOk(t, p.fuz) && p.qp.n < 16
  {
    match p.ent.ce
    case Ascii => Feed(t, p, bytes)
    case QuotedPrintable =>
      var (out, qp) := QP.QpRun(p.qp, bytes);
      Feed(t, p.(qp := qp), out)
    case Base64 =>
      var (out, b64) := B64.DecodeAll(p.b64, bytes, TBUF_LEN - 3);
      Feed(t, p.(b64 := b64), out)
  }

  ghost function Play(t: Tables, p: PipeState, e: Event): (p': PipeState)
    requires t.Good() && PipeOk(p)
    ensures PipeOk(p')
  {
    PlayKeeps(t, p, e);
    Played(t, p, e)
  }

  ghost function Played(t: Tables, p: PipeState, e: Event): PipeState
    requires t.Good() && PipeOk(p)
  {
    match e
    case Sum(mp, bytes) => if mp.InText? then Inside(t, p, bytes) else Outside(t, p, bytes)
    case Note(effs) =>
      var ent := ApplyAll(p.ent, effs);
      p.(ent := ent, fuz := p.fuz.(ct := ent.ct))
    case Reset =>
      p.(ent := PLAIN, fuz := p.fuz.(ct := Text), qp := p.qp.(st := QP.QpIdle), b64 := p.b64.(cnt := 0))
  }

  lemma FeedKeeps(t: Tables, p: PipeState, chunk: seq<byte>)
    requires t.Good() && PipeOk(p)
    ensures FuzOk(t, p.fuz) && PipeOk(Feed(t, p, chunk))
  {
    hide FuzRun, Accounted;
    RunKeeps(t, p.ent.cset, p.fuz, chunk);
  }

  lemma PlayKeeps(t: Tables, p: PipeState, e: Event)
    requires t.Good() && PipeOk(p)
    ensures PipeOk(Played(t, p, e))
  {
    hide FuzRun, Accounted, Feed, B64.DecodeAll, QP.QpRun;
    match e {
      case Sum(mp, bytes) =>
        RunKeeps(t, p.ent.cset, p.fuz, [LF]);
        var (out, qp) := QP.QpRun(p.qp, bytes);
        var (out', b64) := B64.DecodeAll(p.b64, bytes, TBUF_LEN - 3);
        FeedKeeps(t, p, bytes);
        FeedKeeps(t, p.(qp := qp), out);
        FeedKeeps(t, p.(b64 := b64), out');
      case Note(effs) =>
        CtIsFree(p.fuz, ApplyAll(p.ent, effs).ct);
      case Reset =>
        CtIsFree(p.fuz, Text);
    }
  }

  lemma CtIsFree(s: FuzState, ct: ContentType)
    requires ValidFuz(s) && Accounted(s)
    ensures ValidFuz(s.(ct := ct)) && Accounted(s.(ct := ct))
  {
  }

  ghost function PlayAll(t: Tables, p: PipeState, es: seq<Event>): (p': PipeState)
    requires t.Good() && PipeOk(p)
    ensures PipeOk(p')
    decreases |es|
  {
    if es == [] then p else PlayAll(t, Play(t, p, es[0]), es[1..])
  }

  lemma {:induction false} PlaySplits(t: Tables, p: PipeState, a: seq<Event>, b: seq<Event>)
    requires t.Good() && PipeOk(p)
    ensures PlayAll(t, p, a + b) == PlayAll(t, PlayAll(t, p, a), b)
    decreases |a|
  {
    hide Play;
    if a == [] {
      assert a + b == b;
    } else {
      assert (a + b)[1..] == a[1..] + b;
      PlaySplits(t, Play(t, p, a[0]), a[1..], b);
    }
  }

  // ---- Chunks ---------------------------------------------------------------------------

  lemma {:induction false} ByteStaysText(t: Tables, cs: Charset, s: FuzState, c: byte)
    requires FuzOk(t, s) && s.ct != Binary
    ensures FuzByte(t, cs, s, c).ct != Binary
    decreases LookRank(s)
  {
    hide CrefStep, WordByte, FillerByte;
    var (s1, used) := Look(t, cs, s, c);
    if !used {
      ByteStaysText(t, cs, s1, c);
    }
  }

  /** The second fuzzy checksum may find out that a text is HTML, never that it is binary. */
  lemma {:induction false} RunStaysText(t: Tables, cs: Charset, s: FuzState, bs: seq<byte>)
    requires FuzOk(t, s) && s.ct != Binary
    ensures FuzRun(t, cs, s, bs).ct != Binary
    decreases |bs|
  {
    hide FuzByte;
    if bs != [] {
      ByteStaysText(t, cs, s, bs[0]);
      RunStaysText(t, cs, FuzByte(t, cs, s, bs[0]), bs[1..]);
    }
  }

  /** Chunks may be cut anywhere. */
  lemma FeedSplits(t: Tables, p: PipeState, a: seq<byte>, b: seq<byte>)
    requires FuzOk(t, p.fuz) && p.fuz.ct == p.ent.ct
    ensures Feed(t, p, a + b) == Feed(t, Feed(t, p, a), b)
  {
    hide FuzRun;
    assert p.body + (a + b) == p.body + a + b;
    if p.ent.ct != Binary {
      RunStaysText(t, p.ent.cset, p.fuz, a);
      FuzRunSplits(t, p.ent.cset, p.fuz, a, b);
    }
  }

  lemma FeedNothing(t: Tables, p: PipeState)
    requires FuzOk(t, p.fuz) && p.fuz.ct == p.ent.ct
    ensures Feed(t, p, []) == p
  {
    assert p.body + [] == p.body;
  }

  /** A chunk leaves the decoders and the entity's encoding and character set alone. */
  lemma FeedLeaves(t: Tables, p: PipeState, chunk: seq<byte>, qp: QP.QpState, b64: B64.B64State)
    requires FuzOk(t, p.fuz)
    ensures var p' := Feed(t, p, chunk);
      && p'.qp == p.qp && p'.b64 == p.b64 && p'.ent.ce == p.ent.ce && p'.ent.cset == p.ent.cset
      && p'.body == p.body + chunk
      && Feed(t, p.(qp := qp, b64 := b64), chunk) == p'.(qp := qp, b64 := b64)
  {
  }

  /** One call of the quoted-printable decoder and its chunk, then the rest. */
  lemma QpChunk(t: Tables, p: PipeState, bs: seq<byte>, used: nat, out: seq<byte>, qp1: QP.QpState)
    requires t.Good() && PipeOk(p) && used <= |bs| && qp1.n < 16
    requires var (rest, qp') := QP.QpRun(qp1, bs[used..]); QP.QpRun(p.qp, bs) == (out + rest, qp')
    requires p.ent.ce == QuotedPrintable
    ensures FuzOk(t, p.fuz)
    ensures var p1 := Feed(t, p.(qp := qp1), out); p1.qp.n < 16 && Inside(t, p, bs) == Inside(t, p1, bs[used..])
  {
    hide FuzRun, Feed, QP.QpRun, ValidFuz, Accounted;
    KeepsRequires(p.fuz);
    var (rest, qp') := QP.QpRun(qp1, bs[used..]);
    FeedLeaves(t, p.(qp := qp1), out, qp', p.b64);
    FeedSplits(t, p.(qp := qp'), out, rest);
  }

  lemma B64Chunk(t: Tables, p: PipeState, bs: seq<byte>)
    requires t.Good() && PipeOk(p) && bs != [] && p.ent.ce == Base64
    ensures FuzOk(t, p.fuz)
    ensures var (out, b64, used) := B64.Fill(p.b64, bs, 0, TBUF_LEN - 3);
      var p1 := Feed(t, p.(b64 := b64), out); p1.qp.n < 16 && Inside(t, p, bs) == Inside(t, p1, bs[used..])
  {
    hide FuzRun, Feed, B64.Fill, ValidFuz, Accounted;
    KeepsRequires(p.fuz);
    var (out, b64, used) := B64.Fill(p.b64, bs, 0, TBUF_LEN - 3);
    var (rest, b64') := B64.DecodeAll(b64, bs[used..], TBUF_LEN - 3);
    FeedLeaves(t, p.(b64 := b64), out, p.qp, b64');
    FeedSplits(t, p.(b64 := b64'), out, rest);
  }

  lemma InsideNothing(t: Tables, p: PipeState)
    requires t.Good() && PipeOk(p)
    ensures FuzOk(t, p.fuz) && Inside(t, p, []) == p
  {
    hide Feed, ValidFuz, Accounted;
    KeepsRequires(p.fuz);
    FeedNothing(t, p);
  }

  // ---- What the body checksum gets ------------------------------------------------------

  /** What an input decodes to under the entity's transfer encoding, and the decoders after it. */
  ghost function Decoded(p: PipeState, bytes: seq<byte>): (r: (seq<byte>, QP.QpState, B64.B64State))
    requires p.qp.n < 16
  {
    match p.ent.ce
    case Ascii => (bytes, p.qp, p.b64)
    case QuotedPrintable => (QP.QpRun(p.qp, bytes).0, QP.QpRun(p.qp, bytes).1, p.b64)
    case Base64 =>
      var (out, b64) := B64.DecodeAll(p.b64, bytes, TBUF_LEN - 3);
      (out, p.qp, b64)
  }

  lemma InsideIsDecoded(t: Tables, p: PipeState, bytes: seq<byte>)
    requires FuzOk(t, p.fuz) && p.qp.n < 16
    ensures var (out, qp, b64) := Decoded(p, bytes);
      Inside(t, p, bytes) == Feed(t, p, out).(qp := qp, b64 := b64)
  {
    hide FuzRun, Feed, B64.DecodeAll, QP.QpRun;
    var (out, qp, b64) := Decoded(p, bytes);
    FeedLeaves(t, p, out, qp, b64);
    assert p == p.(qp := p.qp, b64 := p.b64);
    assert p.(qp := qp) == p.(qp := qp, b64 := p.b64) && p.(b64 := b64) == p.(qp := p.qp, b64 := b64);
  }

  /** Decoding in two parts yields what decoding at once yields; with base64, text that settles or is short. */
  lemma DecodedSplits(p: PipeState, a: seq<byte>, b: seq<byte>)
    requires p.qp.n < 16 && p.b64.Valid() && (p.ent.ce == Base64 ==> Settling.Joins(a + b, TBUF_LEN - 3))
    ensures var (out, qp, b64) := Decoded(p, a);
      var (out2, qp2, b642) := Decoded(p.(qp := qp, b64 := b64), b);
      var all := Decoded(p, a + b);
      && all.0 == out + out2 && all.1 == qp2 && (p.ent.ce != Base64 ==> all.2 == b642)
  {
    hide B64.DecodeAll, QP.QpRun, Settling.Joins;
    match p.ent.ce {
      case Ascii =>
      case QuotedPrintable => QP.QpRunSplits(p.qp, a, b);
      case Base64 => Settling.TextSplits(p.b64, a, b, TBUF_LEN - 3);
    }
  }

  /** The text of an entity may be summed in parts: both checksums and the entity come out the same. */
  lemma PartsJoin(t: Tables, p: PipeState, a: seq<byte>, b: seq<byte>)
    requires t.Good() && PipeOk(p) && (p.ent.ce == Base64 ==> Settling.Joins(a + b, TBUF_LEN - 3))
    ensures var p2 := Play(t, Play(t, p, Sum(InText, a)), Sum(InText, b));
      var q := Play(t, p, Sum(InText, a + b));
      p2 == q.(b64 := p2.b64) && (p.ent.ce != Base64 ==> p2 == q)
  {
    hide FuzRun, Feed, Inside, Decoded, ValidFuz, Accounted, Settling.Joins;
    KeepsRequires(p.fuz);
    DecodedSplits(p, a, b);
    var (out, qp, b64) := Decoded(p, a);
    var p1 := Feed(t, p, out);
    var p1' := p1.(qp := qp, b64 := b64);
    InsideIsDecoded(t, p, a);
    InsideIsDecoded(t, p, a + b);
    PlayKeeps(t, p, Sum(InText, a));
    KeepsRequires(p1'.fuz);
    InsideIsDecoded(t, p1', b);
    FeedLeaves(t, p, out, qp, b64);
    SameDecoded(p.(qp := qp, b64 := b64), p1', b);
    var (out2, qp2, b642) := Decoded(p1', b);
    FeedLeaves(t, p1, out2, qp, b64);
    FeedSplits(t, p, out, out2);
    assert Feed(t, p1', out2) == Feed(t, p, out + out2).(qp := qp, b64 := b64);
  }

  lemma SameDecoded(p: PipeState, q: PipeState, bytes: seq<byte>)
    requires p.qp == q.qp && p.b64 == q.b64 && p.ent.ce == q.ent.ce && p.qp.n < 16
    ensures Decoded(p, bytes) == Decoded(q, bytes)
  {
    hide B64.DecodeAll, QP.QpRun;
  }

  /** An entity that its header says is in base64: the body checksum gets exactly the bytes encoded. */
  lemma Base64Entity(t: Tables, p: PipeState, cset: Charset, ct: ContentType, bs: seq<byte>, b: seq<byte>)
    requires t.Good() && PipeOk(p) && B64.Relevant(bs) == B64.Encode(b)
    ensures var es := [Reset, Note([SetCt(ct), SetCset(cset), SetCe(Base64)]), Sum(InText, bs)];
      PlayAll(t, p, es).body == p.body + b
  {
    hide FuzRun, Feed, Accounted, ValidFuz, B64.DecodeAll, QP.QpRun, B64.Relevant, B64.Encode, Settling.Settles;
    var note := Note([SetCt(ct), SetCset(cset), SetCe(Base64)]);
    PlayThree(t, p, Reset, note, Sum(InText, bs));
    var p2 := Play(t, Play(t, p, Reset), note);
    Noted(PLAIN, SetCt(ct), SetCset(cset), SetCe(Base64));
    KeepsRequires(p2.fuz);
    Settling.B64RoundTrip(p2.b64, b, bs, TBUF_LEN - 3);
    FeedLeaves(t, p2.(b64 := B64.DecodeAll(p2.b64, bs, TBUF_LEN - 3).1), b, p2.qp, p2.b64);
  }

  /** The same for quoted-printable. */
  lemma QpEntity(t: Tables, p: PipeState, cset: Charset, ct: ContentType, ts: seq<QP.QpToken>)
    requires t.Good() && PipeOk(p) && forall k :: 0 <= k < |ts| ==> QP.GoodToken(ts[k])
    ensures var es := [Reset, Note([SetCt(ct), SetCset(cset), SetCe(QuotedPrintable)]), Sum(InText, QP.Encoding(ts))];
      PlayAll(t, p, es).body == p.body + QP.Value(ts)
  {
    hide FuzRun, Feed, Accounted, ValidFuz, B64.DecodeAll, QP.QpRun, QP.Encoding, QP.Value;
    var note := Note([SetCt(ct), SetCset(cset), SetCe(QuotedPrintable)]);
    PlayThree(t, p, Reset, note, Sum(InText, QP.Encoding(ts)));
    var p2 := Play(t, Play(t, p, Reset), note);
    Noted(PLAIN, SetCt(ct), SetCset(cset), SetCe(QuotedPrintable));
    KeepsRequires(p2.fuz);
    QP.QpRoundTrip(p2.qp, ts);
    var (out, qp) := QP.QpRun(p2.qp, QP.Encoding(ts));
    FeedLeaves(t, p2.(qp := qp), out, qp, p2.b64);
  }

  lemma PlayThree(t: Tables, p: PipeState, a: Event, b: Event, c: Event)
    requires t.Good() && PipeOk(p)
    ensures PlayAll(t, p, [a, b, c]) == Play(t, Play(t, Play(t, p, a), b), c)
  {
    hide Play;
    assert [a, b, c][1..] == [b, c] && [b, c][1..] == [c] && [c][1..] == [];
    var p1 := Play(t, p, a);
    var p2 := Play(t, p1, b);
    assert PlayAll(t, p2, [c]) == Play(t, p2, c);
    assert PlayAll(t, p1, [b, c]) == PlayAll(t, p2, [c]);
  }

  lemma Noted(d: Described, a: Effect, b: Effect, c: Effect)
    ensures ApplyAll(d, [a, b, c]) == Apply(Apply(Apply(d, a), b), c)
  {
    assert [a, b, c][1..] == [b, c] && [b, c][1..] == [c] && [c][1..] == [];
    var d2 := Apply(Apply(d, a), b);
    assert ApplyAll(d2, [c]) == Apply(d2, c);
    assert ApplyAll(Apply(d, a), [b, c]) == ApplyAll(d2, [c]);
  }
}
