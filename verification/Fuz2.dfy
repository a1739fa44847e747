/** The second fuzzy checksum as the program runs it: nested loops over one text, fields updated in place. */
module Fuz2 {
  import opened Bytes
  import opened WordTables
  import opened Cref
  import opened Entities
  import opened Fuz2Machine
  import opened HostLabels
  import opened HostNames

  class Fuz2State {
    var wlen: nat
    const w: array<byte>
    var st: FuzSt
    const cref: CkCref
    var btotal: nat
    var xsummed: nat
    var tagLen: nat
    const tag: array<byte>
    const lang: array<Lang>
    const ent: Entity

    ghost predicate Shape()
    {
      w.Length == WORD_LEN && tag.Length == WORD_LEN && lang.Length == LANG_NUM
      && w != tag && w != cref.w && tag != cref.w && cref.w.Length == WORD_LEN
    }

    ghost function View(): FuzState
      requires Shape()
      reads this, w, tag, lang, cref, cref.w, ent
    {
      FuzState(wlen, w[..], st, cref.View(), btotal, xsummed, tagLen, tag[..], lang[..], ent.mimeCt)
    }

    ghost predicate Valid()
      reads this, w, tag, lang, cref, cref.w, ent
    {
      Shape() && ValidFuz(View()) && Accounted(View())
    }

    constructor (ent: Entity)
      ensures Valid() && this.ent == ent && fresh(w) && fresh(tag) && fresh(lang) && fresh(cref) && fresh(cref.w)
      ensures View() == FuzState(0, NO_WORD, InWord, CrefState(CrefIdle, NO_WORD, 0, 0), 0, 0, 0, NO_WORD,
                                 seq(LANG_NUM, i => Lang(0, 0, [])), ent.mimeCt)
    {
      wlen, st, btotal, xsummed, tagLen := 0, InWord, 0, 0, 0;
      w := new byte[WORD_LEN](_ => 0);
      tag := new byte[WORD_LEN](_ => 0);
      lang := new Lang[LANG_NUM](_ => Lang(0, 0, []));
      cref := new CkCref();
      this.ent := ent;
      new;
      assert w[..] == NO_WORD && tag[..] == NO_WORD;
      assert lang[..] == seq(LANG_NUM, i => Lang(0, 0, []));
    }

    /** The word in the buffer is credited to one language: its character set must fit, its dictionary hold it. */
    method CreditOne(d: Dict, tbl: nat)
      requires Shape() && tbl < LANG_NUM && wlen <= WORD_LEN && WellFormedTable(d.words, 0)
      modifies lang
      ensures lang[..] == old(lang[..])[tbl := Credit(d, ent.mimeCset, w[..], wlen, old(lang[tbl]))]
    {
      assert w[..][..wlen] == w[..wlen];
      if d.cset.Some? && d.cset.value != ent.mimeCset {
        return;
      }
      var found := LookupWord(w, wlen, d.words);
      if found {
        var l := lang[tbl];
        lang[tbl] := Lang(l.wsummed + wlen, l.wtotal + 1, l.md5 + w[..wlen]);
      }
    }

    /** The word in the buffer is credited to every language whose dictionary holds it. */
    method AddWord(t: Tables)
      requires t.Good() && Shape() && wlen <= WORD_LEN
      modifies lang
      ensures View() == Fuz2Machine.AddWord(t, ent.mimeCset, old(View()))
    {
      hide Credit;
      ghost var before, cs, word := lang[..], ent.mimeCset, w[..];
      for tbl := 0 to LANG_NUM
        invariant forall i :: tbl <= i < LANG_NUM ==> lang[..][i] == before[i]
        invariant forall i :: 0 <= i < tbl ==> lang[..][i] == Credit(t.dicts[i], cs, word, wlen, before[i])
        invariant w[..] == word
      {
        CreditOne(t.dicts[tbl], tbl);
      }
      assert lang[..] == Fuz2Machine.AddWord(t, cs, old(View())).lang;
    }

    method ClearWord(word: array<byte>)
      requires word.Length == WORD_LEN
      modifies word
      ensures word[..] == NO_WORD
    {
      for k := 0 to WORD_LEN
        invariant forall j :: 0 <= j < k ==> word[j] == 0
      {
        word[k] := 0;
      }
    }

    method Junk()
      requires Shape()
      modifies this
      ensures View() == old(View()).(wlen := SKIP_WLEN, st := InWord)
    {
      wlen := SKIP_WLEN;
      st := InWord;
    }

    /** The part of the word loop after character references. */
    method TakeWordByte(t: Tables, c0: byte)
      requires t.Good() && Shape() && st == InWord
      modifies this, w, tag, lang
      ensures View() == WordByte(t, ent.mimeCset, old(View()), c0)
    {
      var c := t.Fold(ent.mimeCset, c0);
      if c >= FC_A {
        btotal := btotal + 1;
        if wlen < WORD_LEN {
          w[wlen] := c;
          wlen := wlen + 1;
        } else {
          wlen := SKIP_WLEN;
        }
      } else if c == FC_SP {
        if MIN_WLEN <= wlen <= WORD_LEN {
          AddWord(t);
        }
        wlen := 0;
        ClearWord(w);
      } else {
        btotal := btotal + 1;
        if c == FC_LT {
          tagLen := 0;
          ClearWord(tag);
          st := StartTag;
        } else {
          Junk();
        }
      }
    }

    /** One turn of the word loop. */
    method WordTurn(t: Tables, c: byte) returns (used: bool)
      requires t.Good() && Valid() && st == InWord
      modifies this, w, tag, lang, cref, cref.w
      ensures Valid() && (View(), used) == Look(t, ent.mimeCset, old(View()), c)
    {
      LookKeeps(t, ent.mimeCset, View(), c);
      hide WordByte, CrefStep, ValidFuz, Accounted;
      used := true;
      if cref.st != CrefIdle || (c == AMP && ent.mimeCt == Html) {
        var i := Resolve(t, c);
        if i < 0 {
          return;
        }
        used := i == 0;
        TakeWordByte(t, cref.result);
      } else {
        TakeWordByte(t, c);
      }
    }

    method Resolve(t: Tables, c: byte) returns (i: int)
      requires t.Good() && Valid()
      modifies cref, cref.w
      ensures Shape()
      ensures var r := CrefStep(old(cref.View()), c, t.crefs);
        View() == old(View()).(cref := r.0) && i == r.1 && cref.result == r.0.result
    {
      i := cref.Step(c, t.crefs);
    }

    /** One turn at the start of a tag. */
    method TagTurn(t: Tables, c0: byte) returns (used: bool)
      requires t.Good() && Valid() && st == StartTag
      modifies this, tag, ent`mimeCt
      ensures Valid() && (View(), used) == Look(t, ent.mimeCset, old(View()), c0)
    {
      LookKeeps(t, ent.mimeCset, View(), c0);
      KeepsRequires(View());
      hide ValidFuz, Accounted, ToLower, WordByte, CrefStep, FillerByte;
      var c := ToLower(c0);
      if TagByte(tagLen, c) {
        tag[tagLen] := c;
        tagLen := tagLen + 1;
        btotal := btotal + 1;
        return true;
      }
      if tagLen == 4 && ent.mimeCt != Html && tag[..4] == HTML {
        ent.mimeCt := Html;
      }
      assert tag[..][..4] == tag[..4] && tag[..][..3] == tag[..3];
      if ent.mimeCt == Html && tagLen > 0 {
        xsummed := xsummed + tagLen + 1;
        if c == GT {
          xsummed := xsummed + 1;
          btotal := btotal + 1;
          st := InWord;
          return true;
        }
        if tagLen >= 3 && tag[..3] == COMMENT {
          st := SkipComment;
        } else {
          st := SkipTag;
        }
      } else {
        Junk();
      }
      used := false;
    }

    method TakeFiller(t: Tables, c: byte)
      requires t.Good() && Shape()
      modifies this
      ensures View() == FillerByte(t, ent.mimeCset, old(View()), c)
    {
      if c == GT {
        xsummed := xsummed + 1;
        btotal := btotal + 1;
        st := InWord;
      } else if t.Fold(ent.mimeCset, c) != FC_SP {
        xsummed := xsummed + 1;
        btotal := btotal + 1;
        tagLen := tagLen + 1;
        if tagLen > FAILSAFE {
          Junk();
        }
      }
    }

    /** One turn of the loop that skips a tag. */
    method SkipTurn(t: Tables, c: byte) returns (used: bool)
      requires t.Good() && Valid() && st == SkipTag
      modifies this, cref, cref.w
      ensures Valid() && (View(), used) == Look(t, ent.mimeCset, old(View()), c)
    {
      LookKeeps(t, ent.mimeCset, View(), c);
      hide CrefStep, ValidFuz, Accounted, FillerByte;
      used := true;
      if cref.st != CrefIdle || c == AMP {
        var i := Resolve(t, c);
        btotal := btotal + 1;
        if i < 0 {
          return;
        }
        used := i == 0;
        TakeFiller(t, cref.result);
      } else {
        btotal := btotal + 1;
        TakeFiller(t, c);
      }
    }

    /** One turn of the loop that skips a comment. */
    method CommentTurn(t: Tables, c: byte)
      requires t.Good() && Valid() && st == SkipComment
      modifies this
      ensures Valid() && (View(), true) == Look(t, ent.mimeCset, old(View()), c)
    {
      LookKeeps(t, ent.mimeCset, View(), c);
      hide ValidFuz, Accounted, FillerByte;
      TakeFiller(t, c);
    }

    /** The loop over words: it ends with the text or at a '<'. */
    method WordLoop(t: Tables, bp: seq<byte>, pos0: nat) returns (pos: nat)
      requires t.Good() && Valid() && st == InWord && pos0 < |bp|
      modifies this, w, tag, lang, cref, cref.w
      ensures Valid() && pos0 <= pos <= |bp|
      ensures FuzRun(t, ent.mimeCset, View(), bp[pos..]) == FuzRun(t, ent.mimeCset, old(View()), bp[pos0..])
      ensures pos > pos0 || LookRank(View()) < LookRank(old(View()))
    {
      hide Look, Accounted, ValidCref;
      ghost var cs, whole, rank := ent.mimeCset, FuzRun(t, ent.mimeCset, View(), bp[pos0..]), LookRank(View());
      pos := pos0;
      while pos < |bp| && st == InWord
        invariant pos0 <= pos <= |bp| && Valid() && cs == ent.mimeCset
        invariant FuzRun(t, cs, View(), bp[pos..]) == whole
        invariant pos > pos0 || LookRank(View()) < rank || (pos == pos0 && st == InWord && LookRank(View()) == rank)
        decreases |bp| - pos, LookRank(View())
      {
        TurnPays(t, cs, View(), bp, pos);
        var used := WordTurn(t, bp[pos]);
        if used {
          pos := pos + 1;
        }
      }
    }

    /** The loop that skips a tag. */
    method SkipLoop(t: Tables, bp: seq<byte>, pos0: nat) returns (pos: nat)
      requires t.Good() && Valid() && st == SkipTag && pos0 < |bp|
      modifies this, cref, cref.w
      ensures Valid() && pos0 <= pos <= |bp|
      ensures FuzRun(t, ent.mimeCset, View(), bp[pos..]) == FuzRun(t, ent.mimeCset, old(View()), bp[pos0..])
      ensures pos > pos0 || LookRank(View()) < LookRank(old(View()))
    {
      hide Look, Accounted, ValidCref;
      ghost var cs, whole, rank := ent.mimeCset, FuzRun(t, ent.mimeCset, View(), bp[pos0..]), LookRank(View());
      pos := pos0;
      while pos < |bp| && st == SkipTag
        invariant pos0 <= pos <= |bp| && Valid() && cs == ent.mimeCset
        invariant FuzRun(t, cs, View(), bp[pos..]) == whole
        invariant pos > pos0 || LookRank(View()) < rank || (pos == pos0 && st == SkipTag && LookRank(View()) == rank)
        decreases |bp| - pos, LookRank(View())
      {
        TurnPays(t, cs, View(), bp, pos);
        var used := SkipTurn(t, bp[pos]);
        if used {
          pos := pos + 1;
        }
      }
    }

    /** The loop that skips a comment. */
    method CommentLoop(t: Tables, bp: seq<byte>, pos0: nat) returns (pos: nat)
      requires t.Good() && Valid() && st == SkipComment && pos0 < |bp|
      modifies this
      ensures Valid() && pos0 <= pos <= |bp|
      ensures FuzRun(t, ent.mimeCset, View(), bp[pos..]) == FuzRun(t, ent.mimeCset, old(View()), bp[pos0..])
      ensures pos > pos0 || LookRank(View()) < LookRank(old(View()))
    {
      hide Look, Accounted, ValidCref;
      ghost var cs, whole, rank := ent.mimeCset, FuzRun(t, ent.mimeCset, View(), bp[pos0..]), LookRank(View());
      pos := pos0;
      while pos < |bp| && st == SkipComment
        invariant pos0 <= pos <= |bp| && Valid() && cs == ent.mimeCset
        invariant FuzRun(t, cs, View(), bp[pos..]) == whole
        invariant pos > pos0 || LookRank(View()) < rank || (pos == pos0 && st == SkipComment && LookRank(View()) == rank)
        decreases |bp| - pos, LookRank(View())
      {
        TurnPays(t, cs, View(), bp, pos);
        CommentTurn(t, bp[pos]);
        pos := pos + 1;
      }
    }

    /** A whole text: every loop hands over to the next where its state ends. */
    method Fuz2(t: Tables, bp: seq<byte>)
      requires t.Good() && Valid()
      modifies this, w, tag, lang, cref, cref.w, ent`mimeCt
      ensures Valid()
      ensures View() == FuzRun(t, ent.mimeCset, old(View()), bp)
    {
      hide Look, Accounted, ValidCref;
      ghost var cs, whole := ent.mimeCset, FuzRun(t, ent.mimeCset, View(), bp);
      var pos: nat := 0;
      assert bp[0..] == bp;
      while pos < |bp|
        invariant pos <= |bp| && Valid() && cs == ent.mimeCset
        invariant FuzRun(t, cs, View(), bp[pos..]) == whole
        decreases |bp| - pos, LookRank(View())
      {
        match st {
          case InWord =>
            pos := WordLoop(t, bp, pos);
          case StartTag =>
            TurnPays(t, cs, View(), bp, pos);
            var used := TagTurn(t, bp[pos]);
            if used {
              pos := pos + 1;
            }
          case SkipTag =>
            pos := SkipLoop(t, bp, pos);
          case SkipComment =>
            pos := CommentLoop(t, bp, pos);
        }
      }
      assert bp[pos..] == [];
    }

    /**
      Picks the first language with the most words. The sum is given when enough of the text was
      accounted for and there are enough words, host names standing in for four words each.
      */
    method Final(url: CkUrl?) returns (sum: seq<byte>, ok: bool, best: nat)
      requires Valid() && (url != null ==> url.Valid())
      modifies lang
      ensures best < LANG_NUM
      ensures forall i :: 0 <= i < LANG_NUM ==> old(lang[i]).wtotal <= old(lang[best]).wtotal
      ensures forall i :: 0 <= i < best ==> old(lang[i]).wtotal < old(lang[best]).wtotal
      ensures var l := old(lang[best]);
        && (ok <==> EnoughText(l, xsummed, btotal) && (l.wtotal >= MIN_WORDS || l.wtotal + HostWords(url) >= MIN_WORDS))
        && (ok ==> sum == l.md5 + if l.wtotal >= MIN_WORDS then [] else HostBytes(url))
        && lang[..] == if ok && l.wtotal < MIN_WORDS then old(lang[..])[best := l.(md5 := l.md5 + HostBytes(url))] else old(lang[..])
    {
      best := 0;
      for i := 1 to LANG_NUM
        invariant best < i
        invariant forall j :: 0 <= j < i ==> lang[j].wtotal <= lang[best].wtotal
        invariant forall j :: 0 <= j < best ==> lang[j].wtotal < lang[best].wtotal
      {
        if lang[best].wtotal < lang[i].wtotal {
          best := i;
        }
      }
      var l := lang[best];
      if l.wtotal < FEW_WORDS && (l.wsummed + xsummed) * 10 < btotal {
        return [], false, best;
      }
      assert l.md5 + [] == l.md5;
      if l.wtotal < MIN_WORDS {
        if url != null && l.wtotal + url.doms * (MIN_WORDS / 2) >= MIN_WORDS {
          QueuedBytes(url);
          var n := url.domStart - 1;
          if n > 0 {
            lang[best] := Lang(l.wsummed, l.wtotal, l.md5 + url.domsBuf[..n]);
          }
        } else {
          return [], false, best;
        }
      }
      sum := lang[best].md5;
      ok := true;
    }
  }

  /** How many words the host names count for. */
  ghost function HostWords(url: CkUrl?): nat
    reads url
  {
    if url == null then 0 else url.doms * (MIN_WORDS / 2)
  }

  /** The host names still in the queue, with a NUL between them. */
  ghost function HostBytes(url: CkUrl?): seq<byte>
    reads url
  {
    if url == null then [] else Joined(url.names)
  }

  /** They stand at the front of the scanner's buffer, and one more NUL behind them. */
  lemma QueuedBytes(url: CkUrl)
    requires url.Valid()
    ensures url.domStart <= url.domsBuf.Length
    ensures HostBytes(url) == if url.domStart > 1 then url.domsBuf[..url.domStart - 1] else []
  {
    if url.names != [] {
      PackedJoined(url.names);
      assert GoodName(url.names[0]);
      assert url.domsBuf[..url.domStart][..url.domStart - 1] == url.domsBuf[..url.domStart - 1];
    }
  }

  const FEW_WORDS := 100

  /** A tenth of the counted bytes is words or filler, unless there are very many words. */
  predicate EnoughText(l: Lang, xsummed: nat, btotal: nat) {
    l.wtotal >= FEW_WORDS || (l.wsummed + xsummed) * 10 >= btotal
  }

  /** One look, seen from the run: it either uses the byte or leaves the run where it was. */
  lemma TurnPays(t: Tables, cs: Charset, s: FuzState, bp: seq<byte>, pos: nat)
    requires t.Good() && ValidFuz(s) && pos < |bp|
    ensures |s.lang| == LANG_NUM && (s.st.StartTag? ==> s.tagLen <= WORD_LEN)
    ensures var (s', used) := Look(t, cs, s, bp[pos]);
      FuzRun(t, cs, s, bp[pos..]) == FuzRun(t, cs, s', bp[if used then pos + 1 else pos..])
  {
    hide Look;
    KeepsRequires(s);
    assert bp[pos..][1..] == bp[pos + 1..];
  }
}
