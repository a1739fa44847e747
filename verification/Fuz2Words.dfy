/**
  What the second fuzzy checksum hashes of plain text: the dictionary words among the maximal
  runs of folded letters between folded spaces, in order, and nothing else.
  */
module Fuz2Words {
  import opened Bytes
  import opened WordTables
  import opened Cref
  import opened Entities
  import opened Fuz2Machine

  // ---- The definition by runs -----------------------------------------------------------

  function Folded(t: Tables, cs: Charset, bs: seq<byte>): (f: seq<byte>)
    ensures |f| == |bs|
  {
    if bs == [] then [] else [t.Fold(cs, bs[0])] + Folded(t, cs, bs[1..])
  }

  predicate SpaceFree(run: seq<byte>) {
    forall k :: 0 <= k < |run| ==> run[k] != FC_SP
  }

  /** The index of the first folded space, or the length. */
  function RunEnd(f: seq<byte>): (n: nat)
    ensures n <= |f| && SpaceFree(f[..n])
    ensures n < |f| ==> f[n] == FC_SP
  {
    if f == [] || f[0] == FC_SP then 0
    else
      var n := RunEnd(f[1..]);
      assert f[..n + 1] == [f[0]] + f[1..][..n];
      n + 1
  }

  predicate AllLetters(run: seq<byte>) {
    forall k :: 0 <= k < |run| ==> run[k] >= FC_A
  }

  predicate IsWord(run: seq<byte>) {
    MIN_WLEN <= |run| <= WORD_LEN && AllLetters(run)
  }

  function OneIf(run: seq<byte>): seq<seq<byte>> {
    if IsWord(run) then [run] else []
  }

  /** The words among the runs that a folded space has closed. */
  function WordsIn(f: seq<byte>): seq<seq<byte>>
    decreases |f|
  {
    var n := RunEnd(f);
    if n == |f| then [] else OneIf(f[..n]) + WordsIn(f[n + 1..])
  }

  /** A word of the language: the character set fits and the dictionary holds it. */
  ghost predicate Speaks(d: Dict, cs: Charset, word: seq<byte>)
    requires WellFormedTable(d.words, 0)
  {
    (d.cset.None? || d.cset.value == cs) && InDictionary(word, d.words)
  }

  ghost function Spoken(d: Dict, cs: Charset, words: seq<seq<byte>>): seq<seq<byte>>
    requires WellFormedTable(d.words, 0)
  {
    if words == [] then []
    else (if Speaks(d, cs, words[0]) then [words[0]] else []) + Spoken(d, cs, words[1..])
  }

  /** A language after the words are credited to it. */
  ghost function Credited(l: Lang, words: seq<seq<byte>>): Lang {
    Lang(l.wsummed + |Concat(words)|, l.wtotal + |words|, l.md5 + Concat(words))
  }

  // ---- The machine over plain text ------------------------------------------------------

  /** Between tags, with no reference pending and no HTML. */
  ghost predicate InText(s: FuzState) {
    s.st == InWord && s.cref.st == CrefIdle && s.ct != Html && |s.lang| == LANG_NUM
  }

  /** The word buffer after the run so far: its letters, or the mark of a run that is no word. */
  ghost predicate Holds(s: FuzState, run: seq<byte>) {
    if AllLetters(run) && |run| <= WORD_LEN then s.wlen == |run| && s.w == Padded(run)
    else s.wlen == SKIP_WLEN
  }

  lemma PlainByte(t: Tables, cs: Charset, s: FuzState, c: byte)
    requires t.Good() && InText(s)
    ensures FuzByte(t, cs, s, c) == WordByte(t, cs, s, c)
  {
    hide WordByte;
  }

  lemma RunByte(t: Tables, cs: Charset, s: FuzState, run: seq<byte>, c: byte)
    requires t.Good() && InText(s) && Holds(s, run) && t.Fold(cs, c) != FC_SP && t.Fold(cs, c) != FC_LT
    ensures var s' := WordByte(t, cs, s, c);
      InText(s') && Holds(s', run + [t.Fold(cs, c)]) && s'.lang == s.lang
  {
    var f := t.Fold(cs, c);
    assert AllLetters(run + [f]) <==> AllLetters(run) && f >= FC_A by {
      assert (run + [f])[|run|] == f;
      assert forall k :: 0 <= k < |run| ==> (run + [f])[k] == run[k];
    }
    if AllLetters(run) && |run| < WORD_LEN {
      assert Padded(run)[|run| := f] == Padded(run + [f]);
    }
  }

  lemma HoldsNothing(s: FuzState)
    ensures Holds(s, []) <==> s.wlen == 0 && s.w == NO_WORD
  {
  }

  lemma SpaceByte(t: Tables, cs: Charset, s: FuzState, run: seq<byte>, c: byte)
    requires t.Good() && InText(s) && Holds(s, run) && t.Fold(cs, c) == FC_SP
    ensures var s' := WordByte(t, cs, s, c);
      && InText(s') && Holds(s', [])
      && s'.lang == if IsWord(run) then AddWord(t, cs, s).lang else s.lang
  {
  }

  ghost predicate AllPlaced(t: Tables)
    requires t.Good()
  {
    forall i :: 0 <= i < LANG_NUM ==> WordsPlaced(t.dicts[i].words)
  }

  lemma AddWordCredits(t: Tables, cs: Charset, s: FuzState, run: seq<byte>, i: nat)
    requires t.Good() && AllPlaced(t) && InText(s) && Holds(s, run) && IsWord(run) && i < LANG_NUM
    ensures AddWord(t, cs, s).lang[i] == Credited(s.lang[i], Spoken(t.dicts[i], cs, [run]))
  {
    hide Credit, Credited, Spoken, WordsPlaced, AllLetters;
    CreditsOne(t.dicts[i], cs, s.w, run, s.lang[i]);
  }

  lemma CreditsOne(d: Dict, cs: Charset, w: Word, run: seq<byte>, l: Lang)
    requires WellFormedTable(d.words, 0) && WordsPlaced(d.words) && 1 <= |run| <= WORD_LEN && w == Padded(run)
    ensures Credit(d, cs, w, |run|, l) == Credited(l, Spoken(d, cs, [run]))
  {
    hide Records, BucketOf, WellFormedTable, WordsPlaced, InDictionary;
    assert w[..|run|] == run;
    LookupIsMembership(w, run, d.words);
    var runs: seq<seq<byte>> := [run];
    assert |runs[1..]| == 0;
    assert Concat(runs) == run;
  }

  lemma CreditNothing(l: Lang)
    ensures Credited(l, []) == l
  {
  }

  lemma CreditTwice(l: Lang, a: seq<seq<byte>>, b: seq<seq<byte>>)
    ensures Credited(Credited(l, a), b) == Credited(l, a + b)
  {
    ConcatAppend(a, b);
    assert l.md5 + Concat(a) + Concat(b) == l.md5 + (Concat(a) + Concat(b));
  }

  lemma {:induction false} SpokenAppend(d: Dict, cs: Charset, a: seq<seq<byte>>, b: seq<seq<byte>>)
    requires WellFormedTable(d.words, 0)
    ensures Spoken(d, cs, a + b) == Spoken(d, cs, a) + Spoken(d, cs, b)
  {
    hide Speaks;
    if a == [] {
      assert a + b == b;
    } else {
      assert (a + b)[1..] == a[1..] + b;
      SpokenAppend(d, cs, a[1..], b);
    }
  }

  lemma WordsInStep(run: seq<byte>, c: byte, f: seq<byte>)
    requires SpaceFree(run)
    ensures c == FC_SP ==> WordsIn(run + [c] + f) == OneIf(run) + WordsIn(f)
  {
    if c == FC_SP {
      var all := run + [c] + f;
      RunEndOf(run, f);
      assert all[..|run|] == run && all[|run| + 1..] == f;
    }
  }

  lemma {:induction false} RunEndOf(run: seq<byte>, f: seq<byte>)
    requires SpaceFree(run)
    ensures RunEnd(run + [FC_SP] + f) == |run|
  {
    if run != [] {
      assert (run + [FC_SP] + f)[1..] == run[1..] + [FC_SP] + f;
      RunEndOf(run[1..], f);
    }
  }

  lemma {:induction false} RunEndAll(run: seq<byte>)
    requires SpaceFree(run)
    ensures WordsIn(run) == []
  {
    assert RunEnd(run) == |run|;
  }

  /** Plain text from inside a run: every language is credited with exactly its words, in order. */
  lemma {:induction false} TextFrom(t: Tables, cs: Charset, s: FuzState, run: seq<byte>, bs: seq<byte>, i: nat)
    requires t.Good() && AllPlaced(t) && InText(s) && Holds(s, run) && SpaceFree(run) && i < LANG_NUM
    requires FC_LT !in Folded(t, cs, bs)
    ensures FuzRun(t, cs, s, bs).lang[i]
      == Credited(s.lang[i], Spoken(t.dicts[i], cs, WordsIn(run + Folded(t, cs, bs))))
    decreases |bs|, 1
  {
    hide FuzByte, AllPlaced;
    if bs == [] {
      assert run + [] == run;
      RunEndAll(run);
      CreditNothing(s.lang[i]);
    } else {
      if t.Fold(cs, bs[0]) == FC_SP {
        TextAtSpace(t, cs, s, run, bs, i);
      } else {
        TextInRun(t, cs, s, run, bs, i);
      }
    }
  }

  lemma FoldedCons(t: Tables, cs: Charset, bs: seq<byte>)
    requires bs != []
    ensures var c, f := t.Fold(cs, bs[0]), Folded(t, cs, bs[1..]);
      && Folded(t, cs, bs) == [c] + f
      && (FC_LT !in Folded(t, cs, bs) ==> c != FC_LT && FC_LT !in f)
  {
    var c, f := t.Fold(cs, bs[0]), Folded(t, cs, bs[1..]);
    assert c in [c] + f && forall x :: x in f ==> x in [c] + f;
  }

  lemma {:induction false} TextInRun(t: Tables, cs: Charset, s: FuzState, run: seq<byte>, bs: seq<byte>, i: nat)
    requires t.Good() && AllPlaced(t) && InText(s) && Holds(s, run) && SpaceFree(run) && i < LANG_NUM
    requires bs != [] && t.Fold(cs, bs[0]) != FC_SP && FC_LT !in Folded(t, cs, bs)
    ensures FuzRun(t, cs, s, bs).lang[i]
      == Credited(s.lang[i], Spoken(t.dicts[i], cs, WordsIn(run + Folded(t, cs, bs))))
    decreases |bs|, 0
  {
    hide FuzByte, WordByte, AllPlaced, Credited, Spoken, WordsIn, Holds, Folded;
    var c, f := t.Fold(cs, bs[0]), Folded(t, cs, bs[1..]);
    FoldedCons(t, cs, bs);
    PlainByte(t, cs, s, bs[0]);
    RunByte(t, cs, s, run, bs[0]);
    TextFrom(t, cs, WordByte(t, cs, s, bs[0]), run + [c], bs[1..], i);
    assert run + [c] + f == run + ([c] + f);
  }

  lemma {:induction false} TextAtSpace(t: Tables, cs: Charset, s: FuzState, run: seq<byte>, bs: seq<byte>, i: nat)
    requires t.Good() && AllPlaced(t) && InText(s) && Holds(s, run) && SpaceFree(run) && i < LANG_NUM
    requires bs != [] && t.Fold(cs, bs[0]) == FC_SP && FC_LT !in Folded(t, cs, bs)
    ensures FuzRun(t, cs, s, bs).lang[i]
      == Credited(s.lang[i], Spoken(t.dicts[i], cs, WordsIn(run + Folded(t, cs, bs))))
    decreases |bs|, 0
  {
    hide FuzByte, WordByte, AllPlaced, Holds, Folded;
    var d, f := t.dicts[i], Folded(t, cs, bs[1..]);
    var s' := WordByte(t, cs, s, bs[0]);
    FoldedCons(t, cs, bs);
    HoldsNothing(s');
    assert run + ([FC_SP] + f) == run + [FC_SP] + f && [] + f == f;
    PlainByte(t, cs, s, bs[0]);
    SpaceByte(t, cs, s, run, bs[0]);
    TextFrom(t, cs, s', [], bs[1..], i);
    WordsInStep(run, FC_SP, f);
    SpokenAppend(d, cs, OneIf(run), WordsIn(f));
    assert s'.lang[i] == Credited(s.lang[i], Spoken(d, cs, OneIf(run))) by {
      if IsWord(run) {
        AddWordCredits(t, cs, s, run, i);
      } else {
        CreditNothing(s.lang[i]);
      }
    }
    CreditTwice(s.lang[i], Spoken(d, cs, OneIf(run)), Spoken(d, cs, WordsIn(f)));
  }

  /**
    Plain text and the closing newline, from a fresh start: each language's hash input is the
    concatenation of its words among the maximal runs of the text, and its counts are theirs.
    */
  lemma PlainTextWords(t: Tables, cs: Charset, s: FuzState, bs: seq<byte>, i: nat)
    requires t.Good() && AllPlaced(t) && InText(s) && s.wlen == 0 && s.w == NO_WORD && i < LANG_NUM
    requires t.Fold(cs, LF) == FC_SP && FC_LT !in Folded(t, cs, bs)
    ensures FuzRun(t, cs, FuzRun(t, cs, s, bs), [LF]).lang[i]
      == Credited(s.lang[i], Spoken(t.dicts[i], cs, WordsIn(Folded(t, cs, bs) + [FC_SP])))
  {
    FuzRunSplits(t, cs, s, bs, [LF]);
    FoldedSnoc(t, cs, bs, LF);
    TextFrom(t, cs, s, [], bs + [LF], i);
    assert [] + Folded(t, cs, bs + [LF]) == Folded(t, cs, bs) + [FC_SP];
  }

  lemma {:induction false} FoldedSnoc(t: Tables, cs: Charset, bs: seq<byte>, c: byte)
    ensures Folded(t, cs, bs + [c]) == Folded(t, cs, bs) + [t.Fold(cs, c)]
  {
    if bs == [] {
      assert bs + [c] == [c] && [c][1..] == [];
    } else {
      assert (bs + [c])[1..] == bs[1..] + [c];
      FoldedSnoc(t, cs, bs[1..], c);
    }
  }

  /** Every maximal run that is a word is found. */
  lemma {:induction false} WordsAreFound(f: seq<byte>, k: nat, m: nat)
    requires k <= m <= |f| && SpaceFree(f[k..m]) && IsWord(f[k..m])
    requires (k == 0 || f[k - 1] == FC_SP) && (m == |f| || f[m] == FC_SP)
    ensures f[k..m] in WordsIn(f + [FC_SP])
    decreases |f|
  {
    hide WordsIn, IsWord;
    var n := RunEnd(f);
    RunEndIs(f, n, k, m);
    FirstRun(f, n);
    if k <= n {
      assert f[k..m] == f[..n];
    } else {
      var rest, k', m' := f[n + 1..], k - (n + 1), m - (n + 1);
      assert rest[k'..m'] == f[k..m];
      assert k' > 0 ==> rest[k' - 1] == f[k - 1];
      assert m < |f| ==> rest[m'] == f[m];
      WordsAreFound(rest, k', m');
    }
  }

  lemma FirstRun(f: seq<byte>, n: nat)
    requires n == RunEnd(f)
    ensures WordsIn(f + [FC_SP]) == OneIf(f[..n]) + if n == |f| then WordsIn([]) else WordsIn(f[n + 1..] + [FC_SP])
  {
    hide WordsIn, OneIf, SpaceFree, RunEnd;
    var run := f[..n];
    if n == |f| {
      assert f + [FC_SP] == run + [FC_SP] + [];
      WordsInStep(run, FC_SP, []);
    } else {
      var rest := f[n + 1..];
      assert f == run + [FC_SP] + rest;
      assert f + [FC_SP] == run + [FC_SP] + (rest + [FC_SP]);
      WordsInStep(run, FC_SP, rest + [FC_SP]);
    }
  }

  lemma RunEndIs(f: seq<byte>, n: nat, k: nat, m: nat)
    requires n == RunEnd(f) && k <= m <= |f| && SpaceFree(f[k..m])
    requires (k == 0 || f[k - 1] == FC_SP) && (m == |f| || f[m] == FC_SP)
    ensures k <= n ==> k == 0 && m == n
    ensures k > n ==> n < |f|
  {
    assert forall j :: 0 <= j < n ==> f[..n][j] == f[j];
    assert forall j :: k <= j < m ==> f[k..m][j - k] == f[j];
  }

  /** A word is 3 to 16 bytes of which each folds to 0x61 or more. */
  lemma WordInBytes(run: seq<byte>)
    ensures IsWord(run) <==> 3 <= |run| <= 16 && forall k :: 0 <= k < |run| ==> run[k] >= 0x61
    ensures SpaceFree(run) <==> forall k :: 0 <= k < |run| ==> run[k] != 0x20
  {
  }
}
