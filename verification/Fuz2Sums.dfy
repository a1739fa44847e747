/** Which HTML texts get a second fuzzy checksum: what is counted of them, and what of it is accounted for. */
module Fuz2Sums {
  import opened Bytes
  import opened Entities
  import opened WordTables
  import opened Cref
  import opened Fuz2Machine
  import opened Fuz2Words
  import opened Fuz2Tags
  import opened Fuz2Html
  import opened HostNames
  import opened Fuz2

  /** Letters and filler count alike: fewer than 100 words need a tenth of the bytes counted, more need nothing. */
  lemma TenthOrManyWords(l: Lang, xsummed: nat, m: Lang, ysummed: nat, btotal: nat)
    ensures l.wtotal >= 100 ==> EnoughText(l, xsummed, btotal)
    ensures l.wtotal < 100 ==> (EnoughText(l, xsummed, btotal) <==> btotal <= 10 * (l.wsummed + xsummed))
    ensures l.wtotal < 100 && m.wtotal < 100 && l.wsummed + xsummed == m.wsummed + ysummed ==>
      (EnoughText(l, xsummed, btotal) <==> EnoughText(m, ysummed, btotal))
  {
  }

  /** Eight words are enough for a sum, and every host name stands in for four. */
  lemma HostsStandIn(url: CkUrl)
    ensures MIN_WORDS == 8 && HostWords(url) == 4 * url.doms
  {
  }

  // ---- What is counted ------------------------------------------------------------------

  /** One byte of HTML text counts what the bytes it stands for count, spaces left out. */
  lemma {:induction false} TextByteCounts(t: Tables, cs: Charset, s: FuzState, c: byte)
    requires t.Good() && s.st == InWord && s.ct == Html && |s.lang| == LANG_NUM
    requires NoTag(t, cs, Resolve(t.crefs, s.cref, c).0)
    ensures var s' := FuzByte(t, cs, s, c);
      && s'.xsummed == s.xsummed && s'.btotal == s.btotal + Marks(t, cs, Resolve(t.crefs, s.cref, c).0)
      && s'.st == InWord && s'.ct == Html && s'.cref == Resolve(t.crefs, s.cref, c).1
    decreases if s.cref.st == CrefIdle then 0 else 1
  {
    hide CrefStep, WordByte, Resolve, FuzByte, Marks;
    TextLook(t, cs, s, c);
    NoMarks(t, cs);
    if s.cref.st == CrefIdle && c != AMP {
      NoTagTail(t, cs, c, []);
      WordByteCounts(t, cs, s, c);
    } else {
      var (cref', i) := CrefStep(s.cref, c, t.crefs);
      if i >= 0 {
        var s1, r := s.(cref := cref'), cref'.result;
        var more := if i == 0 then [] else Resolve(t.crefs, cref', c).0;
        assert Resolve(t.crefs, s.cref, c).0 == [r] + more;
        NoTagTail(t, cs, r, more);
        WordByteCounts(t, cs, s1, r);
        MarksSplit(t, cs, [r], more);
        if i > 0 {
          TextByteCounts(t, cs, WordByte(t, cs, s1, r), c);
        }
      }
    }
  }

  lemma WordByteCounts(t: Tables, cs: Charset, s: FuzState, c: byte)
    requires t.Good() && s.st == InWord && |s.lang| == LANG_NUM && t.Fold(cs, c) != FC_LT
    ensures var s' := WordByte(t, cs, s, c);
      s'.xsummed == s.xsummed && s'.btotal == s.btotal + Marks(t, cs, [c]) && s'.st == InWord
  {
    assert [c][1..] == [];
  }

  lemma {:induction false} TextCounts(t: Tables, cs: Charset, s: FuzState, bs: seq<byte>)
    requires t.Good() && s.st == InWord && s.ct == Html && |s.lang| == LANG_NUM
    requires NoTag(t, cs, Resolved(t.crefs, s.cref, bs).0)
    ensures var s' := FuzRun(t, cs, s, bs);
      s'.xsummed == s.xsummed && s'.btotal == s.btotal + Marks(t, cs, Resolved(t.crefs, s.cref, bs).0)
    decreases |bs|
  {
    hide FuzByte, Resolve, NoTag, Marks;
    if bs == [] {
      NoMarks(t, cs);
    } else {
      var (out, cref, n) := Resolve(t.crefs, s.cref, bs[0]);
      var more := Resolved(t.crefs, cref, bs[1..]).0;
      NoTagSplit(t, cs, out, more);
      MarksSplit(t, cs, out, more);
      TextByteCounts(t, cs, s, bs[0]);
      TextCounts(t, cs, FuzByte(t, cs, s, bs[0]), bs[1..]);
    }
  }

  /** The filler of tags and comments: their brackets, their names, and their marks. */
  function Filler(t: Tables, cs: Charset, items: seq<Item>): nat
    requires t.Good() && GoodItems(t, cs, items)
  {
    if items == [] then 0
    else
      GoodTail(t, cs, items);
      (match items[0]
       case Words(_) => 0
       case Tag(name, filler, last) => |name| + Marks(t, cs, TagText(t.crefs, IDLE, filler, last)) + 2
       case Comment(name, filler) => |name| + Marks(t, cs, filler) + 2)
      + Filler(t, cs, items[1..])
  }

  /** How often bytes of tags are looked at behind their names. */
  function Looks(t: Tables, items: seq<Item>): nat
    requires t.Good()
  {
    if items == [] then 0
    else
      (if items[0].Tag? then TagLooks(t.crefs, IDLE, items[0].filler, items[0].last) else 0) + Looks(t, items[1..])
  }

  /**
    The bytes counted of an HTML text: those of its words, the filler of its tags and comments,
    and once more every look at a byte of a tag behind its name.
    */
  lemma {:induction false} HtmlCounts(t: Tables, cs: Charset, s: FuzState, items: seq<Item>)
    requires t.Good() && t.Fold(cs, LT) == FC_LT && InHtml(s) && GoodItems(t, cs, items)
    ensures var s' := FuzRun(t, cs, s, HtmlBytes(items));
      && s'.xsummed == s.xsummed + Filler(t, cs, items)
      && s'.btotal == s.btotal + Marks(t, cs, PlainBytes(t, items)) + Filler(t, cs, items) + Looks(t, items)
    decreases |items|
  {
    hide FuzRun, FuzByte, Resolved, Resolve, GoodItems, Marks, TagLooks, TagText, EndsTag, SameWords;
    if items == [] {
      FuzRunNothing(t, cs, s);
      NoMarks(t, cs);
    } else {
      GoodTail(t, cs, items);
      var more := items[1..];
      HtmlStates(s);
      match items[0] {
        case Words(bs) =>
          var out := Resolved(t.crefs, IDLE, bs).0;
          FuzRunSplits(t, cs, s, bs, HtmlBytes(more));
          MarksSplit(t, cs, out, PlainBytes(t, more));
          WordsStay(t, cs, s, bs);
          HtmlCounts(t, cs, FuzRun(t, cs, s, bs), more);
        case Tag(name, filler, last) =>
          SameRefIdle(s);
          EndsAlike(t.crefs, IDLE, s.cref, filler, last);
          var s' := TagIsTransparent(t, cs, s, name, filler, last, HtmlBytes(more));
          HtmlCounts(t, cs, s', more);
          assert [] + PlainBytes(t, more) == PlainBytes(t, more);
        case Comment(name, filler) =>
          var s' := CommentIsTransparent(t, cs, s, name, filler, HtmlBytes(more));
          HtmlCounts(t, cs, s', more);
          assert [] + PlainBytes(t, more) == PlainBytes(t, more);
      }
    }
  }

  lemma FuzRunNothing(t: Tables, cs: Charset, s: FuzState)
    requires t.Good() && InHtml(s)
    ensures FuzRun(t, cs, s, []) == s
  {
  }

  lemma HtmlStates(s: FuzState)
    requires InHtml(s)
    ensures s.st == InWord && s.ct == Html && |s.lang| == LANG_NUM
  {
  }

  /** Words leave the checksum in HTML text. */
  lemma WordsStay(t: Tables, cs: Charset, s: FuzState, bs: seq<byte>)
    requires t.Good() && InHtml(s) && GoodItem(t, cs, Words(bs))
    ensures var s' := FuzRun(t, cs, s, bs);
      InHtml(s') && s'.xsummed == s.xsummed && s'.btotal == s.btotal + Marks(t, cs, Resolved(t.crefs, IDLE, bs).0)
  {
    hide FuzRun, Resolved, NoTag, Marks;
    SameRefIdle(s);
    ResolvedAlike(t.crefs, IDLE, s.cref, bs);
    TextCounts(t, cs, s, bs);
    var p := s.(ct := Text);
    WordsItem(t, cs, s, p, bs);
  }

  // ---- Text of nothing but words --------------------------------------------------------

  /** How many bytes are not spaces. */
  function Ink(f: seq<byte>): nat {
    if f == [] then 0 else (if f[0] == FC_SP then 0 else 1) + Ink(f[1..])
  }

  lemma {:induction false} MarksAreInk(t: Tables, cs: Charset, bs: seq<byte>)
    ensures Marks(t, cs, bs) == Ink(Folded(t, cs, bs))
  {
    if bs != [] {
      MarksAreInk(t, cs, bs[1..]);
    }
  }

  /** Every run between spaces is a word of the language. */
  ghost predicate OnlyWords(d: Dict, cs: Charset, f: seq<byte>)
    requires WellFormedTable(d.words, 0)
    decreases |f|
  {
    var n := RunEnd(f);
    && (n == 0 || (IsWord(f[..n]) && Speaks(d, cs, f[..n])))
    && (n == |f| || OnlyWords(d, cs, f[n + 1..]))
  }

  lemma {:induction false} InkOfRun(f: seq<byte>, n: nat)
    requires n <= |f| && SpaceFree(f[..n])
    ensures Ink(f) == n + Ink(f[n..])
  {
    if n > 0 {
      assert f[..n][0] == f[0];
      assert f[1..][..n - 1] == f[..n][1..];
      InkOfRun(f[1..], n - 1);
      assert f[1..][n - 1..] == f[n..];
    }
  }

  lemma InkBehind(f: seq<byte>, n: nat)
    requires n <= |f| && (n < |f| ==> f[n] == FC_SP)
    ensures Ink(f[n..]) == if n == |f| then 0 else Ink(f[n + 1..])
  {
    if n < |f| {
      assert f[n..][0] == FC_SP && f[n..][1..] == f[n + 1..];
    }
  }

  /** All of it is credited. */
  lemma {:induction false} AllSpoken(d: Dict, cs: Charset, f: seq<byte>)
    requires WellFormedTable(d.words, 0) && OnlyWords(d, cs, f)
    ensures var words := WordsIn(f + [FC_SP]); Spoken(d, cs, words) == words && |Concat(words)| == Ink(f)
    decreases |f|
  {
    hide Speaks, WordsIn, Spoken, IsWord, Concat, OneIf;
    var n := RunEnd(f);
    var run, rest := f[..n], if n == |f| then [] else f[n + 1..];
    var tail := if n == |f| then [] else rest + [FC_SP];
    assert f + [FC_SP] == run + [FC_SP] + tail;
    WordsInStep(run, FC_SP, tail);
    InkOfRun(f, n);
    InkBehind(f, n);
    if n == |f| {
      NoWordsIn(d, cs);
    } else {
      AllSpoken(d, cs, rest);
    }
    OneSpoken(d, cs, run);
    SpokenAppend(d, cs, OneIf(run), WordsIn(tail));
    ConcatAppend(OneIf(run), WordsIn(tail));
  }

  lemma NoWordsIn(d: Dict, cs: Charset)
    requires WellFormedTable(d.words, 0)
    ensures WordsIn([]) == [] && Concat<byte>([]) == [] && Spoken(d, cs, []) == [] && Ink([]) == 0
  {
  }

  lemma OneSpoken(d: Dict, cs: Charset, run: seq<byte>)
    requires WellFormedTable(d.words, 0) && (run == [] || (IsWord(run) && Speaks(d, cs, run)))
    ensures Spoken(d, cs, OneIf(run)) == OneIf(run) && |Concat(OneIf(run))| == |run|
  {
    hide Speaks;
    if run != [] {
      assert [run][1..] == [] && run + Concat<byte>([]) == run;
    }
  }

  /** A language that is credited with as many words as there are is credited with all of them. */
  lemma {:induction false} SpokenByAll(d: Dict, cs: Charset, words: seq<seq<byte>>)
    requires WellFormedTable(d.words, 0)
    ensures |Spoken(d, cs, words)| <= |words|
    ensures |Spoken(d, cs, words)| == |words| ==> Spoken(d, cs, words) == words
  {
    hide Speaks;
    if words != [] {
      SpokenByAll(d, cs, words[1..]);
      assert words == [words[0]] + words[1..];
    }
  }

  /** Nothing has been counted yet. */
  ghost predicate Unwritten(s: FuzState) {
    && InHtml(s) && s.wlen == 0 && s.w == NO_WORD && s.btotal == 0 && s.xsummed == 0
    && forall j :: 0 <= j < LANG_NUM ==> s.lang[j] == Lang(0, 0, [])
  }

  /** No language has more words. */
  predicate IsBest(lang: seq<Lang>, best: nat) {
    best < |lang| && forall j :: 0 <= j < |lang| ==> lang[j].wtotal <= lang[best].wtotal
  }

  /**
    An HTML text of words of one language, tags and comments, and the closing newline: the best
    language has hashed all its words. There is enough text for a sum exactly when there are 100
    words, or bytes of tags were looked at no more than nine times as often as there are letters
    and filler.
    */
  lemma WordsGetTheirSum(t: Tables, cs: Charset, s: FuzState, items: seq<Item>, i: nat, best: nat)
    requires t.Good() && AllPlaced(t) && Unwritten(s) && i < LANG_NUM && GoodItems(t, cs, items)
    requires t.Fold(cs, LF) == FC_SP && t.Fold(cs, LT) == FC_LT
    requires OnlyWords(t.dicts[i], cs, Folded(t, cs, PlainBytes(t, items)))
    requires IsBest(FuzRun(t, cs, FuzRun(t, cs, s, HtmlBytes(items)), [LF]).lang, best)
    ensures var s' := FuzRun(t, cs, FuzRun(t, cs, s, HtmlBytes(items)), [LF]);
      var words := WordsIn(Folded(t, cs, PlainBytes(t, items)) + [FC_SP]);
      && best < |s'.lang|
      && s'.lang[best] == Lang(|Concat(words)|, |words|, Concat(words))
      && (EnoughText(s'.lang[best], s'.xsummed, s'.btotal)
          <==> |words| >= 100 || Looks(t, items) <= 9 * (|Concat(words)| + Filler(t, cs, items)))
  {
    hide FuzRun, AllPlaced, GoodItems, WordsIn, Folded, PlainBytes, Marks, OnlyWords, Speaks, HtmlBytes, Concat;
    var f := Folded(t, cs, PlainBytes(t, items));
    var words := WordsIn(f + [FC_SP]);
    HtmlTextWords(t, cs, s, items, i);
    HtmlTextWords(t, cs, s, items, best);
    AllSpoken(t.dicts[i], cs, f);
    SpokenByAll(t.dicts[best], cs, words);
    HtmlCounts(t, cs, s, items);
    MarksAreInk(t, cs, PlainBytes(t, items));
    var s1 := FuzRun(t, cs, s, HtmlBytes(items));
    StaysHtml(t, cs, s, items);
    NewlineCounts(t, cs, s1);
  }

  lemma StaysHtml(t: Tables, cs: Charset, s: FuzState, items: seq<Item>)
    requires t.Good() && t.Fold(cs, LT) == FC_LT && InHtml(s) && GoodItems(t, cs, items)
    ensures InHtml(FuzRun(t, cs, s, HtmlBytes(items)))
  {
    hide FuzRun, GoodItems, HtmlBytes, PlainBytes;
    TagsDoNotShow(t, cs, s, s.(ct := Text, cref := IDLE), items);
  }

  lemma NewlineCounts(t: Tables, cs: Charset, s: FuzState)
    requires t.Good() && InHtml(s) && t.Fold(cs, LF) == FC_SP
    ensures var s' := FuzRun(t, cs, s, [LF]); s'.btotal == s.btotal && s'.xsummed == s.xsummed && |s'.lang| == LANG_NUM
  {
    hide CrefStep, FillerByte, TagStep, Credit;
    assert [LF][1..] == [];
  }

  /** No tag has attributes. */
  predicate Bare(items: seq<Item>) {
    forall k :: 0 <= k < |items| ==> items[k].Tag? ==> items[k].filler == [] && items[k].last == GT
  }

  /** Then there is always enough text. */
  lemma {:induction false} BareTagsAreNotLookedAt(t: Tables, items: seq<Item>)
    requires t.Good() && Bare(items)
    ensures Looks(t, items) == 0
  {
    if items != [] {
      assert Bare([items[0]]) && Bare(items[1..]);
      BareTagsAreNotLookedAt(t, items[1..]);
    }
  }

  predicate AllSpaces(bs: seq<byte>) {
    forall k :: 0 <= k < |bs| ==> bs[k] == 0x20
  }

  /** "<b", spaces and '>' behind some words. */
  function SpacedTag(bs: seq<byte>, spaces: seq<byte>): seq<Item> {
    [Words(bs), Tag([0x62], spaces, 0x3E)]
  }

  lemma SpacesInTag(t: Tables, cs: Charset, bs: seq<byte>, spaces: seq<byte>)
    requires t.Good() && t.Fold(cs, 0x20) == FC_SP && AllSpaces(spaces) && spaces != [] && GoodItem(t, cs, Words(bs))
    ensures var items := SpacedTag(bs, spaces);
      GoodItems(t, cs, items) && Filler(t, cs, items) == 3 && Looks(t, items) == |spaces| + 1
      && PlainBytes(t, items) == Resolved(t.crefs, IDLE, bs).0
  {
    hide Resolve, Resolved, EndsTag, TagText;
    var items, tag := SpacedTag(bs, spaces), Tag([0x62], spaces, 0x3E);
    PlainEnds(t.crefs, IDLE, spaces);
    PlainResolved(t.crefs, IDLE, spaces);
    GtStandsAlone(t.crefs);
    NoMarksInSpaces(t, cs, spaces);
    NameInBytes(0, 0x62);
    NameInBytes(1, 0x20);
    assert (spaces + [0x3E])[0] == 0x20;
    assert GoodItem(t, cs, tag) by { NotComment([0x62]); }
    assert items[1..] == [tag] && [tag][1..] == [];
    assert Filler(t, cs, [tag]) == 3 && Looks(t, [tag]) == |spaces| + 1 && PlainBytes(t, [tag]) == [];
  }

  lemma GtStandsAlone(tbl: Table)
    requires WellFormedTable(tbl, 1)
    ensures Resolve(tbl, IDLE, GT) == ([GT], IDLE, 0)
  {
  }

  lemma {:induction false} NoMarksInSpaces(t: Tables, cs: Charset, spaces: seq<byte>)
    requires t.Fold(cs, 0x20) == FC_SP && AllSpaces(spaces)
    ensures Marks(t, cs, spaces) == 0
  {
    if spaces != [] {
      NoMarksInSpaces(t, cs, spaces[1..]);
    }
  }

  /**
    Words and tags alone do not always get a sum: every space in a tag is counted and accounts for
    nothing. With fewer than 100 words, one tag withholds it exactly from nine spaces for every
    letter and 27 more on.
    */
  lemma SpacesWithholdTheSum(t: Tables, cs: Charset, s: FuzState, bs: seq<byte>, spaces: seq<byte>, i: nat, best: nat)
    requires t.Good() && AllPlaced(t) && Unwritten(s) && i < LANG_NUM && GoodItem(t, cs, Words(bs))
    requires t.Fold(cs, LF) == FC_SP && t.Fold(cs, LT) == FC_LT && t.Fold(cs, 0x20) == FC_SP
    requires AllSpaces(spaces) && spaces != [] && OnlyWords(t.dicts[i], cs, Folded(t, cs, Resolved(t.crefs, IDLE, bs).0))
    requires IsBest(FuzRun(t, cs, FuzRun(t, cs, s, HtmlBytes(SpacedTag(bs, spaces))), [LF]).lang, best)
    ensures var s' := FuzRun(t, cs, FuzRun(t, cs, s, HtmlBytes(SpacedTag(bs, spaces))), [LF]);
      var words := WordsIn(Folded(t, cs, Resolved(t.crefs, IDLE, bs).0) + [FC_SP]);
      && best < |s'.lang|
      && (EnoughText(s'.lang[best], s'.xsummed, s'.btotal) <==> |words| >= 100 || |spaces| + 1 <= 9 * |Concat(words)| + 27)
  {
    hide FuzRun, AllPlaced, GoodItems, GoodItem, WordsIn, Folded, PlainBytes, Marks, OnlyWords, HtmlBytes, Concat, Filler, Looks,
      Resolved;
    SpacesInTag(t, cs, bs, spaces);
    WordsGetTheirSum(t, cs, s, SpacedTag(bs, spaces), i, best);
  }
}
