/** Whole HTML texts: every language hashes the words of the text without its tags and comments, and with its references resolved. */
module Fuz2Html {
  import opened Bytes
  import opened WordTables
  import opened Cref
  import opened Entities
  import opened Fuz2Machine
  import opened Fuz2Words
  import opened Fuz2Tags

  // ---- An idle reference decoder forgets ------------------------------------------------

  const IDLE := CrefState(CrefIdle, NO_WORD, 0, 0)

  /** Decoders that do the same from here on: what an old reference left does not count. */
  ghost predicate SameRef(a: CrefState, b: CrefState) {
    && a.st == b.st
    && (a.st == CrefDec || a.st == CrefHex ==> a.result == b.result)
    && (a.st == CrefName ==> a.w == b.w && a.length == b.length)
  }

  lemma StepAlike(a: CrefState, b: CrefState, c: byte, tbl: Table)
    requires WellFormedTable(tbl, 1) && SameRef(a, b)
    ensures var (a', i) := CrefStep(a, c, tbl);
      var (b', k) := CrefStep(b, c, tbl);
      i == k && SameRef(a', b') && (i >= 0 ==> a'.result == b'.result)
  {
  }

  lemma {:induction false} ResolveAlike(tbl: Table, a: CrefState, b: CrefState, c: byte)
    requires WellFormedTable(tbl, 1) && SameRef(a, b)
    ensures Resolve(tbl, a, c).0 == Resolve(tbl, b, c).0 && SameRef(Resolve(tbl, a, c).1, Resolve(tbl, b, c).1)
    ensures Resolve(tbl, a, c).2 == Resolve(tbl, b, c).2
    decreases if a.st == CrefIdle then 0 else 1
  {
    hide CrefStep;
    StepAlike(a, b, c, tbl);
    if (a.st != CrefIdle || c == AMP) && CrefStep(a, c, tbl).1 > 0 {
      ResolveAlike(tbl, CrefStep(a, c, tbl).0, CrefStep(b, c, tbl).0, c);
    }
  }

  lemma {:induction false} ResolvedAlike(tbl: Table, a: CrefState, b: CrefState, bs: seq<byte>)
    requires WellFormedTable(tbl, 1) && SameRef(a, b)
    ensures Resolved(tbl, a, bs).0 == Resolved(tbl, b, bs).0 && SameRef(Resolved(tbl, a, bs).1, Resolved(tbl, b, bs).1)
    ensures Resolved(tbl, a, bs).2 == Resolved(tbl, b, bs).2
    decreases |bs|
  {
    hide Resolve, SameRef;
    if bs != [] {
      ResolveAlike(tbl, a, b, bs[0]);
      ResolvedAlike(tbl, Resolve(tbl, a, bs[0]).1, Resolve(tbl, b, bs[0]).1, bs[1..]);
    }
  }

  lemma EndsAlike(tbl: Table, a: CrefState, b: CrefState, filler: seq<byte>, last: byte)
    requires WellFormedTable(tbl, 1) && SameRef(a, b) && EndsTag(tbl, a, filler, last)
    ensures EndsTag(tbl, b, filler, last) && TagText(tbl, b, filler, last) == TagText(tbl, a, filler, last)
    ensures TagLooks(tbl, b, filler, last) == TagLooks(tbl, a, filler, last)
  {
    hide Resolve, Resolved;
    ResolvedAlike(tbl, a, b, filler);
    ResolveAlike(tbl, Resolved(tbl, a, filler).1, Resolved(tbl, b, filler).1, last);
  }

  // ---- Text with references -------------------------------------------------------------

  /** One checksum in HTML text and one in plain text that have hashed the same and stand in the same word. */
  ghost predicate SameWords(s: FuzState, p: FuzState) {
    && s.st == InWord && s.ct == Html && |s.lang| == LANG_NUM && InText(p)
    && s.lang == p.lang && s.wlen == p.wlen && s.w == p.w
  }

  /** No byte begins a tag. */
  predicate NoTag(t: Tables, cs: Charset, bs: seq<byte>) {
    forall k :: 0 <= k < |bs| ==> t.Fold(cs, bs[k]) != FC_LT
  }

  lemma WordAlike(t: Tables, cs: Charset, s: FuzState, p: FuzState, c: byte)
    requires t.Good() && SameWords(s, p) && t.Fold(cs, c) != FC_LT
    ensures SameWords(WordByte(t, cs, s, c), WordByte(t, cs, p, c)) && FuzByte(t, cs, p, c) == WordByte(t, cs, p, c)
    ensures FuzRun(t, cs, p, [c]) == WordByte(t, cs, p, c)
  {
    hide FuzByte;
    PlainByte(t, cs, p, c);
    assert [c][1..] == [];
  }

  lemma NoTagTail(t: Tables, cs: Charset, r: byte, out: seq<byte>)
    requires NoTag(t, cs, [r] + out)
    ensures t.Fold(cs, r) != FC_LT && NoTag(t, cs, out)
  {
    var all := [r] + out;
    assert all[0] == r && forall k :: 0 <= k < |out| ==> all[k + 1] == out[k];
  }

  lemma NoTagSplit(t: Tables, cs: Charset, a: seq<byte>, b: seq<byte>)
    requires NoTag(t, cs, a + b)
    ensures NoTag(t, cs, a) && NoTag(t, cs, b)
  {
    assert forall k :: 0 <= k < |a| ==> (a + b)[k] == a[k];
    assert forall k :: 0 <= k < |b| ==> (a + b)[|a| + k] == b[k];
  }

  /** One byte of HTML text does what the bytes that it stands for do in plain text. */
  lemma {:induction false} TextByte(t: Tables, cs: Charset, s: FuzState, p: FuzState, c: byte)
    requires t.Good() && SameWords(s, p) && NoTag(t, cs, Resolve(t.crefs, s.cref, c).0)
    ensures var (out, cref, n) := Resolve(t.crefs, s.cref, c);
      var s' := FuzByte(t, cs, s, c);
      SameWords(s', FuzRun(t, cs, p, out)) && s'.cref == cref
    decreases if s.cref.st == CrefIdle then 0 else 1
  {
    hide CrefStep, WordByte, SameWords, FuzRun, Resolve;
    SameNeeds(s, p);
    TextLook(t, cs, s, c);
    if s.cref.st == CrefIdle && c != AMP {
      assert Resolve(t.crefs, s.cref, c).0[0] == c;
      WordAlike(t, cs, s, p, c);
    } else {
      var (cref', i) := CrefStep(s.cref, c, t.crefs);
      var s1, r := s.(cref := cref'), cref'.result;
      SameCref(s, p, cref');
      if i < 0 {
        RunNothing(t, cs, p);
      } else {
        var more := if i == 0 then [] else Resolve(t.crefs, cref', c).0;
        assert Resolve(t.crefs, s.cref, c).0 == [r] + more;
        NoTagTail(t, cs, r, more);
        WordAlike(t, cs, s1, p, r);
        if i > 0 {
          SameNeeds(WordByte(t, cs, s1, r), WordByte(t, cs, p, r));
          TextByte(t, cs, WordByte(t, cs, s1, r), WordByte(t, cs, p, r), c);
          FuzRunSplits(t, cs, p, [r], more);
        } else {
          assert [r] + [] == [r];
        }
      }
    }
  }

  lemma SameNeeds(s: FuzState, p: FuzState)
    requires SameWords(s, p)
    ensures |s.lang| == LANG_NUM && s.st == InWord && s.ct == Html && |p.lang| == LANG_NUM && p.st == InWord
  {
  }

  lemma SameCref(s: FuzState, p: FuzState, cref: CrefState)
    requires SameWords(s, p)
    ensures SameWords(s.(cref := cref), p)
  {
  }

  lemma RunNothing(t: Tables, cs: Charset, s: FuzState)
    requires t.Good() && |s.lang| == LANG_NUM && s.st == InWord
    ensures FuzRun(t, cs, s, []) == s
  {
  }

  /** A look at a byte of HTML text. */
  lemma TextLook(t: Tables, cs: Charset, s: FuzState, c: byte)
    requires t.Good() && s.st == InWord && s.ct == Html && |s.lang| == LANG_NUM
    ensures s.cref.st == CrefIdle && c != AMP ==>
      FuzByte(t, cs, s, c) == WordByte(t, cs, s, c) && Resolve(t.crefs, s.cref, c) == ([c], s.cref, 0)
    ensures s.cref.st != CrefIdle || c == AMP ==>
      var (cref', i) := CrefStep(s.cref, c, t.crefs);
      var s1, r := s.(cref := cref'), cref'.result;
      && (i < 0 ==> FuzByte(t, cs, s, c) == s1 && Resolve(t.crefs, s.cref, c) == ([], cref', 0))
      && (i == 0 ==> FuzByte(t, cs, s, c) == WordByte(t, cs, s1, r) && Resolve(t.crefs, s.cref, c) == ([r], cref', 0))
      && (i > 0 ==>
            && cref'.st == CrefIdle && s.cref.st != CrefIdle
            && (WordByte(t, cs, s1, r).st == InWord ==> FuzByte(t, cs, s, c) == FuzByte(t, cs, WordByte(t, cs, s1, r), c))
            && Resolve(t.crefs, s.cref, c)
               == ([r] + Resolve(t.crefs, cref', c).0, Resolve(t.crefs, cref', c).1, 1 + Resolve(t.crefs, cref', c).2))
  {
    hide CrefStep, WordByte, TagStep, FillerByte;
  }

  lemma {:induction false} TextRuns(t: Tables, cs: Charset, s: FuzState, p: FuzState, bs: seq<byte>)
    requires t.Good() && SameWords(s, p) && NoTag(t, cs, Resolved(t.crefs, s.cref, bs).0)
    ensures var (out, cref, n) := Resolved(t.crefs, s.cref, bs);
      var s' := FuzRun(t, cs, s, bs);
      SameWords(s', FuzRun(t, cs, p, out)) && s'.cref == cref
    decreases |bs|
  {
    hide FuzByte, SameWords, Resolve, NoTag;
    SameNeeds(s, p);
    if bs != [] {
      var (out, cref, n) := Resolve(t.crefs, s.cref, bs[0]);
      var more := Resolved(t.crefs, cref, bs[1..]).0;
      NoTagSplit(t, cs, out, more);
      TextByte(t, cs, s, p, bs[0]);
      TextRuns(t, cs, FuzByte(t, cs, s, bs[0]), FuzRun(t, cs, p, out), bs[1..]);
      FuzRunSplits(t, cs, p, out, more);
    }
  }

  // ---- Text, tags and comments ----------------------------------------------------------

  datatype Item =
    | Words(bytes: seq<byte>)
    | Tag(name: seq<byte>, filler: seq<byte>, last: byte)
    | Comment(name: seq<byte>, filler: seq<byte>)

  function HtmlBytes(items: seq<Item>): seq<byte> {
    if items == [] then [] else
      match items[0]
      case Words(bs) => bs + HtmlBytes(items[1..])
      case Tag(name, filler, last) => [LT] + (name + (filler + ([last] + HtmlBytes(items[1..]))))
      case Comment(name, filler) => [LT] + (name + (filler + ([GT] + HtmlBytes(items[1..]))))
  }

  /** Without the tags and comments, and with the references resolved. */
  function PlainBytes(t: Tables, items: seq<Item>): seq<byte>
    requires t.Good()
  {
    if items == [] then []
    else (if items[0].Words? then Resolved(t.crefs, IDLE, items[0].bytes).0 else []) + PlainBytes(t, items[1..])
  }

  /** Text that begins no tag and ends in no reference; a whole tag; or a whole comment. */
  predicate GoodItem(t: Tables, cs: Charset, it: Item)
    requires t.Good()
  {
    match it
    case Words(bs) =>
      NoTag(t, cs, Resolved(t.crefs, IDLE, bs).0) && Resolved(t.crefs, IDLE, bs).1.st == CrefIdle
    case Tag(name, filler, last) =>
      && name != [] && !IsComment(name) && IsName(0, name) && !TagByte(|name|, ToLower((filler + [last])[0]))
      && EndsTag(t.crefs, IDLE, filler, last) && |name| + Marks(t, cs, TagText(t.crefs, IDLE, filler, last)) <= FAILSAFE
    case Comment(name, filler) =>
      && IsComment(name) && IsName(0, name) && !TagByte(|name|, ToLower((filler + [GT])[0]))
      && GT !in filler && |name| + Marks(t, cs, filler) <= FAILSAFE
  }

  predicate GoodItems(t: Tables, cs: Charset, items: seq<Item>)
    requires t.Good()
  {
    forall k :: 0 <= k < |items| ==> GoodItem(t, cs, items[k])
  }

  lemma GoodTail(t: Tables, cs: Charset, items: seq<Item>)
    requires t.Good() && GoodItems(t, cs, items) && items != []
    ensures GoodItem(t, cs, items[0]) && GoodItems(t, cs, items[1..])
  {
    hide GoodItem;
  }

  /** HTML text hashes what its words hash in plain text, whatever tags and comments stand in it. */
  lemma {:induction false} TagsDoNotShow(t: Tables, cs: Charset, s: FuzState, p: FuzState, items: seq<Item>)
    requires t.Good() && t.Fold(cs, LT) == FC_LT && SameWords(s, p) && InHtml(s) && GoodItems(t, cs, items)
    ensures var s' := FuzRun(t, cs, s, HtmlBytes(items));
      SameWords(s', FuzRun(t, cs, p, PlainBytes(t, items))) && InHtml(s')
    decreases |items|
  {
    hide FuzRun, FuzByte, Resolved, GoodItems, SameWords, Marks;
    SameNeeds(s, p);
    if items == [] {
      RunNothing(t, cs, s);
      RunNothing(t, cs, p);
    } else {
      GoodTail(t, cs, items);
      var more := items[1..];
      match items[0] {
        case Words(bs) =>
          WordsItem(t, cs, s, p, bs);
          var out := Resolved(t.crefs, IDLE, bs).0;
          FuzRunSplits(t, cs, s, bs, HtmlBytes(more));
          FuzRunSplits(t, cs, p, out, PlainBytes(t, more));
          TagsDoNotShow(t, cs, FuzRun(t, cs, s, bs), FuzRun(t, cs, p, out), more);
        case Tag(name, filler, last) =>
          SameRefIdle(s);
          EndsAlike(t.crefs, IDLE, s.cref, filler, last);
          var s' := TagIsTransparent(t, cs, s, name, filler, last, HtmlBytes(more));
          SameBehind(s, s', p);
          TagsDoNotShow(t, cs, s', p, more);
          assert [] + PlainBytes(t, more) == PlainBytes(t, more);
        case Comment(name, filler) =>
          var s' := CommentIsTransparent(t, cs, s, name, filler, HtmlBytes(more));
          SameBehind(s, s', p);
          TagsDoNotShow(t, cs, s', p, more);
          assert [] + PlainBytes(t, more) == PlainBytes(t, more);
      }
    }
  }

  lemma SameRefIdle(s: FuzState)
    requires InHtml(s)
    ensures SameRef(IDLE, s.cref)
  {
  }

  lemma SameBehind(s: FuzState, s': FuzState, p: FuzState)
    requires SameWords(s, p) && Transparent(s, s')
    ensures SameWords(s', p)
  {
  }

  lemma WordsItem(t: Tables, cs: Charset, s: FuzState, p: FuzState, bs: seq<byte>)
    requires t.Good() && SameWords(s, p) && InHtml(s) && GoodItem(t, cs, Words(bs))
    ensures var s' := FuzRun(t, cs, s, bs);
      SameWords(s', FuzRun(t, cs, p, Resolved(t.crefs, IDLE, bs).0)) && InHtml(s')
  {
    hide FuzRun, Resolved, NoTag;
    SameRefIdle(s);
    ResolvedAlike(t.crefs, IDLE, s.cref, bs);
    TextRuns(t, cs, s, p, bs);
  }

  /**
    HTML text and the closing newline, from a fresh start: each language is credited with exactly
    its words among the maximal runs of the text without tags and comments, references resolved.
    */
  lemma HtmlTextWords(t: Tables, cs: Charset, s: FuzState, items: seq<Item>, i: nat)
    requires t.Good() && AllPlaced(t) && InHtml(s) && s.wlen == 0 && s.w == NO_WORD && i < LANG_NUM
    requires t.Fold(cs, LF) == FC_SP && t.Fold(cs, LT) == FC_LT && GoodItems(t, cs, items)
    ensures FuzRun(t, cs, FuzRun(t, cs, s, HtmlBytes(items)), [LF]).lang[i]
      == Credited(s.lang[i], Spoken(t.dicts[i], cs, WordsIn(Folded(t, cs, PlainBytes(t, items)) + [FC_SP])))
  {
    hide FuzRun, AllPlaced, Resolved, GoodItem, Credited, Spoken, WordsIn;
    var p := s.(ct := Text);
    TagsDoNotShow(t, cs, s, p, items);
    NoTagItems(t, cs, items);
    PlainTextWords(t, cs, p, PlainBytes(t, items), i);
    var s', p' := FuzRun(t, cs, s, HtmlBytes(items)), FuzRun(t, cs, p, PlainBytes(t, items));
    LastNewline(t, cs, s', p');
  }

  lemma LastNewline(t: Tables, cs: Charset, s: FuzState, p: FuzState)
    requires t.Good() && SameWords(s, p) && InHtml(s) && t.Fold(cs, LF) == FC_SP
    ensures FuzRun(t, cs, s, [LF]).lang == FuzRun(t, cs, p, [LF]).lang
  {
    hide WordByte, FuzByte;
    TextLook(t, cs, s, LF);
    WordAlike(t, cs, s, p, LF);
    assert [LF][1..] == [];
  }

  lemma {:induction false} NoTagItems(t: Tables, cs: Charset, items: seq<Item>)
    requires t.Good() && GoodItems(t, cs, items)
    ensures FC_LT !in Folded(t, cs, PlainBytes(t, items))
    decreases |items|
  {
    hide Resolved, Folded, GoodItems, EndsTag;
    if items == [] {
      NoTagFolds(t, cs, [], []);
    } else {
      GoodTail(t, cs, items);
      NoTagItems(t, cs, items[1..]);
      NoTagFolds(t, cs, if items[0].Words? then Resolved(t.crefs, IDLE, items[0].bytes).0 else [], PlainBytes(t, items[1..]));
    }
  }

  lemma {:induction false} NoTagFolds(t: Tables, cs: Charset, a: seq<byte>, b: seq<byte>)
    requires NoTag(t, cs, a) && FC_LT !in Folded(t, cs, b)
    ensures FC_LT !in Folded(t, cs, a + b)
    decreases |a|
  {
    if a == [] {
      assert a + b == b;
    } else {
      assert [a[0]] + a[1..] == a && (a + b)[1..] == a[1..] + b;
      NoTagTail(t, cs, a[0], a[1..]);
      NoTagFolds(t, cs, a[1..], b);
    }
  }
}
