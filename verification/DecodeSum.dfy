/** The decoders and checksums of one message, and the loop that drives them over a part of it. */
module DecodeSum {
  import opened Bytes
  import opened Entities
  import opened BodyFilter
  import opened Cref
  import opened Fuz2Machine
  import opened Fuz2
  import opened Pipeline
  import QP = QuotedPrintable
  import B64 = Base64

  class Decoders {
    const body: BodyState
    const fz2: Fuz2State
    const qp: QP.QpDecoder
    const b64: B64.B64Decoder
    const ent: Entity
    var mpSt: MpSt

    ghost predicate Shape()
    {
      fz2.Shape() && fz2.ent == ent
    }

    /** All that summing changes. */
    ghost function Parts(): set<object>
    {
      {qp, b64, body, ent, fz2, fz2.w, fz2.tag, fz2.lang, fz2.cref, fz2.cref.w}
    }

    ghost function View(): PipeState
      requires Shape()
      reads Parts()
    {
      PipeState(qp.View(), b64.View(), ent.View(), body.input, fz2.View())
    }

    ghost predicate Valid()
      reads Parts()
    {
      Shape() && body.Valid() && PipeOk(View())
    }

    constructor (ent: Entity)
      ensures Valid() && this.ent == ent && mpSt == InText
      ensures fresh(body) && fresh(fz2) && fresh(qp) && fresh(b64)
      ensures fresh(fz2.w) && fresh(fz2.tag) && fresh(fz2.lang) && fresh(fz2.cref) && fresh(fz2.cref.w)
      ensures View().body == [] && View().ent == ent.View() && View().qp.st == QP.QpIdle && View().b64.cnt == 0
    {
      body := new BodyState();
      fz2 := new Fuz2State(ent);
      qp := new QP.QpDecoder();
      b64 := new B64.B64Decoder();
      this.ent := ent;
      mpSt := InText;
    }

    /** A new entity: plain text until a header says otherwise, and nothing left in the decoders. */
    method Restart(ghost t: Tables)
      requires t.Good() && Valid()
      modifies ent, qp, b64
      ensures Valid() && View() == Play(t, old(View()), Reset)
    {
      hide Accounted, ValidFuz, BodyRun, Play, Played, PipeOk;
      ResetIs(t, View());
      ent.mimeCt, ent.mimeCset, ent.mimeCe := ContentType.Text, Latin1, Ascii;
      qp.st := QP.QpIdle;
      b64.quantumCnt := 0;
    }

    /** A decoded chunk goes to the checksums. */
    method FeedChunk(t: Tables, chunk: seq<byte>)
      requires t.Good() && Valid()
      modifies body, ent, fz2, fz2.w, fz2.tag, fz2.lang, fz2.cref, fz2.cref.w
      ensures Valid() && FuzOk(t, old(View()).fuz) && View() == Feed(t, old(View()), chunk)
    {
      hide FuzRun, ValidFuz, Accounted;
      FeedKeeps(t, View(), chunk);
      body.Body0(chunk);
      if ent.mimeCt != Binary {
        fz2.Fuz2(t, chunk);
      }
    }

    /** A decoder's chunk; an empty one is not passed on. */
    method PassOn(t: Tables, chunk: seq<byte>)
      requires t.Good() && Valid()
      modifies body, ent, fz2, fz2.w, fz2.tag, fz2.lang, fz2.cref, fz2.cref.w
      ensures Valid() && FuzOk(t, old(View()).fuz) && View() == Feed(t, old(View()), chunk)
    {
      hide FuzRun, ValidFuz, Accounted, Feed;
      FeedKeeps(t, View(), chunk);
      if chunk != [] {
        FeedChunk(t, chunk);
      } else {
        FeedNothing(t, View());
      }
    }

    /** One call of the quoted-printable decoder: it uses input, or what it pushed back gets less. */
    method QpTurn(t: Tables, bs: seq<byte>, tbuf: array<byte>) returns (consumed: nat)
      requires t.Good() && Valid() && tbuf.Length == TBUF_LEN && bs != [] && ent.mimeCe == QuotedPrintable
      requires tbuf != fz2.w && tbuf != fz2.tag && tbuf != fz2.cref.w
      modifies qp, tbuf, body, ent, fz2, fz2.w, fz2.tag, fz2.lang, fz2.cref, fz2.cref.w
      ensures Valid() && consumed <= |bs| && FuzOk(t, View().fuz) && FuzOk(t, old(View()).fuz)
      ensures Inside(t, View(), bs[consumed..]) == Inside(t, old(View()), bs)
      ensures consumed > 0 || QP.PushbackRank(qp.View()) < QP.PushbackRank(old(qp.View()))
      ensures ent.mimeCe == QuotedPrintable
    {
      hide FuzRun, ValidFuz, Accounted, Feed, Inside, QP.QpRun, BodyRun;
      ghost var p := View();
      var outLen;
      outLen, consumed := qp.QpDecode(bs, tbuf);
      var chunk := tbuf[..outLen];
      assert View() == p.(qp := qp.View());
      QpChunk(t, p, bs, consumed, chunk, qp.View());
      FeedLeaves(t, View(), chunk, qp.View(), b64.View());
      PassOn(t, chunk);
      KeepsRequires(View().fuz);
    }

    method B64Turn(t: Tables, bs: seq<byte>, tbuf: array<byte>) returns (consumed: nat)
      requires t.Good() && Valid() && tbuf.Length == TBUF_LEN && bs != [] && ent.mimeCe == Base64
      requires tbuf != fz2.w && tbuf != fz2.tag && tbuf != fz2.cref.w
      modifies b64, tbuf, body, ent, fz2, fz2.w, fz2.tag, fz2.lang, fz2.cref, fz2.cref.w
      ensures Valid() && 0 < consumed <= |bs| && FuzOk(t, View().fuz) && FuzOk(t, old(View()).fuz)
      ensures Inside(t, View(), bs[consumed..]) == Inside(t, old(View()), bs)
      ensures ent.mimeCe == Base64
    {
      hide FuzRun, ValidFuz, Accounted, Feed, Inside, B64.Fill, BodyRun;
      ghost var p := View();
      var outLen;
      outLen, consumed := b64.B64Decode(bs, tbuf);
      var chunk := tbuf[..outLen];
      assert View() == p.(b64 := b64.View());
      B64Chunk(t, p, bs);
      FeedLeaves(t, View(), chunk, qp.View(), b64.View());
      PassOn(t, chunk);
      KeepsRequires(View().fuz);
    }

    /** One chunk, by the transfer encoding as it is now. */
    method ChunkTurn(t: Tables, bs: seq<byte>, tbuf: array<byte>) returns (consumed: nat)
      requires t.Good() && Valid() && tbuf.Length == TBUF_LEN && bs != []
      requires tbuf != fz2.w && tbuf != fz2.tag && tbuf != fz2.cref.w
      modifies Parts(), tbuf
      ensures Valid() && consumed <= |bs| && FuzOk(t, View().fuz) && FuzOk(t, old(View()).fuz)
      ensures Inside(t, View(), bs[consumed..]) == Inside(t, old(View()), bs)
      ensures consumed > 0 || QP.PushbackRank(qp.View()) < QP.PushbackRank(old(qp.View()))
    {
      hide FuzRun, ValidFuz, Accounted, Feed, Inside, BodyRun, QP.PushbackRank, Fuz2State.View, BodyState.Valid;
      KeepsRequires(View().fuz);
      match ent.mimeCe {
        case QuotedPrintable =>
          consumed := QpTurn(t, bs, tbuf);
        case Base64 =>
          consumed := B64Turn(t, bs, tbuf);
        case Ascii =>
          AsciiIs(t, View(), bs);
          PassOn(t, bs);
          consumed := |bs|;
          assert bs[consumed..] == [];
          InsideNothing(t, View());
          KeepsRequires(View().fuz);
      }
    }

    /** The text of an entity, through a buffer of 1024 bytes at a time. */
    method DecodeText(t: Tables, bp: seq<byte>)
      requires t.Good() && Valid()
      modifies Parts()
      ensures FuzOk(t, old(View()).fuz) && Valid() && View() == Inside(t, old(View()), bp)
    {
      hide FuzRun, ValidFuz, Accounted, Feed, Inside, BodyRun, QP.PushbackRank, Fuz2State.View, BodyState.Valid;
      KeepsRequires(View().fuz);
      var tbuf := new byte[TBUF_LEN](_ => 0);
      ghost var whole := Inside(t, View(), bp);
      var pos: nat := 0;
      assert bp[0..] == bp;
      while pos < |bp|
        invariant pos <= |bp| && Valid() && FuzOk(t, View().fuz)
        invariant Inside(t, View(), bp[pos..]) == whole
        decreases |bp| - pos, QP.PushbackRank(qp.View())
      {
        var consumed := ChunkTurn(t, bp[pos..], tbuf);
        assert bp[pos..][consumed..] == bp[pos + consumed..];
        pos := pos + consumed;
      }
      assert bp[pos..] == [];
      InsideNothing(t, View());
    }

    /** A part outside the text of an entity is summed as it is; inside, its transfer encoding is undone. */
    method DecodeSum(t: Tables, bp: seq<byte>)
      requires t.Good() && Valid()
      modifies Parts()
      ensures Valid() && View() == Play(t, old(View()), Sum(mpSt, bp))
    {
      hide FuzRun, ValidFuz, Accounted, Inside, BodyRun;
      KeepsRequires(View().fuz);
      PlayKeeps(t, View(), Sum(mpSt, bp));
      if mpSt == InText {
        DecodeText(t, bp);
      } else if bp != [] {
        body.Body0(bp);
        fz2.Fuz2(t, [LF]);
      }
    }
  }

  lemma AsciiIs(t: Tables, p: PipeState, bs: seq<byte>)
    requires FuzOk(t, p.fuz) && p.qp.n < 16 && p.ent.ce == Ascii
    ensures Inside(t, p, bs) == Feed(t, p, bs)
  {
  }

  lemma ResetIs(t: Tables, p: PipeState)
    requires t.Good() && PipeOk(p)
    ensures Play(t, p, Reset)
      == p.(ent := PLAIN, fuz := p.fuz.(ct := ContentType.Text), qp := p.qp.(st := QP.QpIdle), b64 := p.b64.(cnt := 0))
  {
    hide PipeOk;
  }
}
