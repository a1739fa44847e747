/** Plain text in which '<' stands: no name behind it makes it HTML, so it only spoils the run it stands in. */
module Fuz2Plain {
  import opened Bytes
  import opened WordTables
  import opened Cref
  import opened Entities
  import opened Fuz2Machine
  import opened Fuz2Words
  import opened Fuz2Tags

  /**
    Behind every '<' comes a name that is not html, without a byte that folds to a space. The name
    is the one that stands open at the beginning, if one does.
    */
  predicate Tagless(t: Tables, cs: Charset, name: Option<seq<byte>>, bs: seq<byte>)
    decreases |bs|, if name.Some? then 1 else 0
  {
    match name
    case None =>
      bs == [] || Tagless(t, cs, if t.Fold(cs, bs[0]) == FC_LT then Some([]) else None, bs[1..])
    case Some(nm) =>
      if bs != [] && TagByte(|nm|, ToLower(bs[0])) then
        t.Fold(cs, bs[0]) != FC_SP && Tagless(t, cs, Some(nm + [bs[0]]), bs[1..])
      else Lower(nm) != HTML && Tagless(t, cs, None, bs)
  }

  /** Text without any '<' is of this kind. */
  lemma {:induction false} NoLtIsTagless(t: Tables, cs: Charset, bs: seq<byte>)
    requires FC_LT !in Folded(t, cs, bs)
    ensures Tagless(t, cs, None, bs)
    decreases |bs|
  {
    hide Folded;
    if bs != [] {
      FoldedCons(t, cs, bs);
      NoLtIsTagless(t, cs, bs[1..]);
    }
  }

  lemma {:induction false} TaglessSnoc(t: Tables, cs: Charset, name: Option<seq<byte>>, bs: seq<byte>)
    requires Tagless(t, cs, name, bs) && t.Fold(cs, LF) == FC_SP
    ensures Tagless(t, cs, name, bs + [LF])
    decreases |bs|, if name.Some? then 1 else 0
  {
    if bs == [] {
      assert bs + [LF] == [LF] && [LF][1..] == [];
    } else {
      assert (bs + [LF])[0] == bs[0] && (bs + [LF])[1..] == bs[1..] + [LF];
    }
    match name {
      case None =>
        if bs != [] {
          TaglessSnoc(t, cs, if t.Fold(cs, bs[0]) == FC_LT then Some([]) else None, bs[1..]);
        }
      case Some(nm) =>
        if bs != [] && TagByte(|nm|, ToLower(bs[0])) {
          TaglessSnoc(t, cs, Some(nm + [bs[0]]), bs[1..]);
        } else {
          TaglessSnoc(t, cs, None, bs);
        }
    }
  }

  /** In a run of plain text, or in a name behind a '<' in it. */
  ghost predicate At(s: FuzState, run: seq<byte>, name: Option<seq<byte>>) {
    && SpaceFree(run) && s.cref.st == CrefIdle && s.ct != Html && |s.lang| == LANG_NUM
    && match name
       case None => s.st == InWord && Holds(s, run)
       case Some(nm) =>
         s.st == StartTag && s.tagLen == |nm| <= WORD_LEN && s.tag[..s.tagLen] == Lower(nm) && !AllLetters(run)
  }

  lemma {:induction false} LowerSnoc(nm: seq<byte>, c: byte)
    ensures Lower(nm + [c]) == Lower(nm) + [ToLower(c)]
  {
    if nm == [] {
      assert nm + [c] == [c] && [c][1..] == [];
    } else {
      assert (nm + [c])[1..] == nm[1..] + [c];
      LowerSnoc(nm[1..], c);
    }
  }

  /** A byte of a name that goes on. */
  lemma NameGoesOn(t: Tables, cs: Charset, s: FuzState, run: seq<byte>, nm: seq<byte>, c: byte)
    requires t.Good() && At(s, run, Some(nm)) && TagByte(|nm|, ToLower(c)) && t.Fold(cs, c) != FC_SP
    ensures var s' := FuzByte(t, cs, s, c);
      At(s', run + [t.Fold(cs, c)], Some(nm + [c])) && s'.lang == s.lang && s'.ct == s.ct
  {
    hide CrefStep, WordByte, FillerByte, Lower;
    var s' := TagStep(s, ToLower(c)).0;
    assert FuzByte(t, cs, s, c) == s';
    LowerSnoc(nm, c);
    assert s'.tag[..s'.tagLen] == s.tag[..s.tagLen] + [ToLower(c)];
    Spoiled(run, t.Fold(cs, c));
  }

  lemma Spoiled(run: seq<byte>, c: byte)
    ensures !AllLetters(run) ==> !AllLetters(run + [c])
    ensures c < FC_A ==> !AllLetters(run + [c])
    ensures SpaceFree(run) && c != FC_SP ==> SpaceFree(run + [c])
  {
    assert forall k :: 0 <= k < |run| ==> (run + [c])[k] == run[k];
    assert (run + [c])[|run|] == c;
  }

  /** A name that ends: the byte is looked at again, in a run that is no word any more. */
  lemma NameGivenUp(t: Tables, cs: Charset, s: FuzState, run: seq<byte>, nm: seq<byte>, c: byte)
    requires t.Good() && At(s, run, Some(nm)) && !TagByte(|nm|, ToLower(c)) && Lower(nm) != HTML
    ensures var s1 := s.(wlen := SKIP_WLEN, st := InWord); At(s1, run, None) && FuzByte(t, cs, s, c) == FuzByte(t, cs, s1, c)
  {
    hide CrefStep, WordByte, FillerByte, Lower;
    var (s1, used) := Look(t, cs, s, c);
    assert s.tag[..s.tagLen] == Lower(nm);
    if s.tagLen == 4 {
      assert s.tag[..4] == Lower(nm);
    }
    assert !used && s1 == s.(wlen := SKIP_WLEN, st := InWord);
  }

  lemma LtComes(t: Tables, cs: Charset, s: FuzState, run: seq<byte>, c: byte)
    requires t.Good() && At(s, run, None) && t.Fold(cs, c) == FC_LT
    ensures var s' := FuzByte(t, cs, s, c);
      At(s', run + [FC_LT], Some([])) && s'.lang == s.lang && s'.ct == s.ct
  {
    hide AddWord, Holds;
    PlainByte(t, cs, s, c);
    Spoiled(run, FC_LT);
  }

  /** One byte in a run: where it leads, and the words it completes. */
  lemma RunOn(t: Tables, cs: Charset, s: FuzState, run: seq<byte>, c: byte, i: nat)
      returns (run': seq<byte>, done: seq<seq<byte>>)
    requires t.Good() && AllPlaced(t) && At(s, run, None) && t.Fold(cs, c) != FC_LT && i < LANG_NUM
    ensures var s' := FuzByte(t, cs, s, c);
      At(s', run', None) && s'.ct == s.ct && s'.lang[i] == Credited(s.lang[i], Spoken(t.dicts[i], cs, done))
    ensures if t.Fold(cs, c) == FC_SP then run' == [] && done == OneIf(run) else run' == run + [t.Fold(cs, c)] && done == []
  {
    hide WordByte, FuzByte, Holds, AllPlaced, IsWord, Spoken, Credited;
    PlainByte(t, cs, s, c);
    if t.Fold(cs, c) == FC_SP {
      SpaceByte(t, cs, s, run, c);
      run', done := [], OneIf(run);
      if IsWord(run) {
        AddWordCredits(t, cs, s, run, i);
      } else {
        NothingSaid(t.dicts[i], cs, s.lang[i]);
      }
    } else {
      RunByte(t, cs, s, run, c);
      Spoiled(run, t.Fold(cs, c));
      run', done := run + [t.Fold(cs, c)], [];
      NothingSaid(t.dicts[i], cs, s.lang[i]);
    }
  }

  lemma NothingSaid(d: Dict, cs: Charset, l: Lang)
    requires WellFormedTable(d.words, 0)
    ensures Credited(l, Spoken(d, cs, [])) == l
  {
    CreditNothing(l);
  }

  /** Plain text from inside a run or a name: every language is credited with exactly its words, in order. */
  lemma {:induction false} TextFromLt(t: Tables, cs: Charset, s: FuzState, run: seq<byte>, name: Option<seq<byte>>, bs: seq<byte>,
      i: nat) returns (run': seq<byte>, name': Option<seq<byte>>)
    requires t.Good() && AllPlaced(t) && At(s, run, name) && Tagless(t, cs, name, bs) && i < LANG_NUM
    ensures FuzRuns(t, s)
    ensures var s' := FuzRun(t, cs, s, bs);
      && At(s', run', name') && s'.ct == s.ct
      && s'.lang[i] == Credited(s.lang[i], Spoken(t.dicts[i], cs, WordsIn(run + Folded(t, cs, bs))))
    ensures bs == [] ==> run' == run && (name.None? ==> name'.None?)
    ensures bs != [] && bs[|bs| - 1] == LF && t.Fold(cs, LF) == FC_SP ==> run' == [] && name'.None?
    decreases |bs|, if name.Some? then 1 else 0
  {
    hide FuzByte, Holds, AllPlaced, Folded, WordsIn, Spoken, Credited, Lower, OneIf;
    if bs == [] {
      NothingLeft(t, cs, s, run, i);
      run', name' := run, name;
      if name.Some? {
        assert Tagless(t, cs, None, bs);
      }
    } else {
      var c, f := t.Fold(cs, bs[0]), Folded(t, cs, bs[1..]);
      FoldedIs(t, cs, bs);
      assert |bs| > 1 ==> bs[1..][|bs[1..]| - 1] == bs[|bs| - 1];
      if name.Some? && !TagByte(|name.value|, ToLower(bs[0])) {
        NameGivenUp(t, cs, s, run, name.value, bs[0]);
        run', name' := TextFromLt(t, cs, s.(wlen := SKIP_WLEN, st := InWord), run, None, bs, i);
      } else if name.Some? || c == FC_LT {
        if name.Some? {
          NameGoesOn(t, cs, s, run, name.value, bs[0]);
        } else {
          LtComes(t, cs, s, run, bs[0]);
        }
        LfIsNoName(bs[0]);
        run', name' := TextFromLt(t, cs, FuzByte(t, cs, s, bs[0]), run + [c],
                                  Some(if name.Some? then name.value + [bs[0]] else []), bs[1..], i);
        Assoc(run, [c], f);
      } else {
        var next, done := RunOn(t, cs, s, run, bs[0], i);
        run', name' := TextFromLt(t, cs, FuzByte(t, cs, s, bs[0]), next, None, bs[1..], i);
        WordsOn(t.dicts[i], cs, run, c, f, next, done, s.lang[i]);
      }
    }
  }

  ghost predicate FuzRuns(t: Tables, s: FuzState) {
    t.Good() && |s.lang| == LANG_NUM && (s.st.StartTag? ==> s.tagLen <= WORD_LEN)
  }

  lemma LfIsNoName(c: byte)
    ensures c == LF ==> forall at: nat :: !TagByte(at, ToLower(c))
  {
  }

  lemma FoldedIs(t: Tables, cs: Charset, bs: seq<byte>)
    requires bs != []
    ensures Folded(t, cs, bs) == [t.Fold(cs, bs[0])] + Folded(t, cs, bs[1..])
  {
  }

  lemma NothingLeft(t: Tables, cs: Charset, s: FuzState, run: seq<byte>, i: nat)
    requires t.Good() && |s.lang| == LANG_NUM && (s.st.StartTag? ==> s.tagLen <= WORD_LEN) && SpaceFree(run) && i < LANG_NUM
    ensures FuzRun(t, cs, s, []) == s
    ensures s.lang[i] == Credited(s.lang[i], Spoken(t.dicts[i], cs, WordsIn(run + Folded(t, cs, []))))
  {
    assert run + Folded(t, cs, []) == run;
    RunEndAll(run);
    NothingSaid(t.dicts[i], cs, s.lang[i]);
  }

  /** The words of a run that goes on behind a byte. */
  lemma WordsOn(d: Dict, cs: Charset, run: seq<byte>, c: byte, f: seq<byte>, next: seq<byte>, done: seq<seq<byte>>, l: Lang)
    requires WellFormedTable(d.words, 0) && SpaceFree(run)
    requires if c == FC_SP then next == [] && done == OneIf(run) else next == run + [c] && done == []
    ensures Credited(Credited(l, Spoken(d, cs, done)), Spoken(d, cs, WordsIn(next + f)))
      == Credited(l, Spoken(d, cs, WordsIn(run + ([c] + f))))
  {
    hide WordsIn, Spoken, Credited, OneIf;
    Assoc(run, [c], f);
    if c == FC_SP {
      assert [] + f == f;
      WordsInStep(run, FC_SP, f);
      SpokenAppend(d, cs, OneIf(run), WordsIn(f));
      CreditTwice(l, Spoken(d, cs, OneIf(run)), Spoken(d, cs, WordsIn(f)));
    } else {
      NothingSaid(d, cs, l);
    }
  }

  /**
    Plain text and the closing newline, from a fresh start, with '<' in it wherever it may be:
    exactly the words among its runs, of which those with a '<' in them are none.
    */
  lemma TaglessTextWords(t: Tables, cs: Charset, s: FuzState, bs: seq<byte>, i: nat)
    requires t.Good() && AllPlaced(t) && InText(s) && s.wlen == 0 && s.w == NO_WORD && i < LANG_NUM
    requires t.Fold(cs, LF) == FC_SP && Tagless(t, cs, None, bs)
    ensures FuzRuns(t, FuzRun(t, cs, s, bs))
    ensures var s' := FuzRun(t, cs, FuzRun(t, cs, s, bs), [LF]);
      && InText(s') && s'.wlen == 0 && s'.w == NO_WORD && s'.ct == s.ct == FuzRun(t, cs, s, bs).ct
      && s'.lang[i] == Credited(s.lang[i], Spoken(t.dicts[i], cs, WordsIn(Folded(t, cs, bs) + [FC_SP])))
  {
    hide FuzRun, FuzByte, AllPlaced, Folded, WordsIn, Spoken, Credited, Holds, Tagless;
    HoldsNothing(s);
    var r, n := TextFromLt(t, cs, s, [], None, bs, i);
    FuzRunSplits(t, cs, s, bs, [LF]);
    FoldedSnoc(t, cs, bs, LF);
    TaglessSnoc(t, cs, None, bs);
    var r', n' := TextFromLt(t, cs, s, [], None, bs + [LF], i);
    HoldsNothing(FuzRun(t, cs, s, bs + [LF]));
    assert [] + Folded(t, cs, bs + [LF]) == Folded(t, cs, bs) + [FC_SP];
  }
}
