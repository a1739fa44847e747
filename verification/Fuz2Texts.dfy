/** Whole texts between two line ends: what they leave in the second fuzzy checksum, whatever kind of text they are. */
module Fuz2Texts {
  import opened Bytes
  import opened Entities
  import opened WordTables
  import opened Cref
  import opened Fuz2Machine
  import opened Fuz2Words
  import opened Fuz2Tags
  import opened Fuz2Html
  import opened Fuz2Plain

  // ---- One text -------------------------------------------------------------------------

  /** In both tables LF folds to a space, and '<' to itself. */
  ghost predicate Folds(t: Tables) {
    t.Good() && AllPlaced(t) && forall cs :: t.Fold(cs, LF) == FC_SP && t.Fold(cs, LT) == FC_LT
  }

  /** Between words: no tag, no reference and no word is open. */
  ghost predicate Quiet(s: FuzState) {
    s.st == InWord && s.cref.st == CrefIdle && |s.lang| == LANG_NUM && s.wlen == 0 && s.w == NO_WORD
  }

  /** Behind one LF the checksum is quiet, and language i has come to l. */
  ghost predicate Owes(t: Tables, cs: Charset, s: FuzState, i: nat, l: Lang) {
    && t.Good() && |s.lang| == LANG_NUM && (s.st.StartTag? ==> s.tagLen <= WORD_LEN)
    && var s' := FuzRun(t, cs, s, [LF]); Quiet(s') && s'.ct == s.ct && i < LANG_NUM && s'.lang[i] == l
  }

  lemma QuietStays(t: Tables, cs: Charset, s: FuzState)
    requires Folds(t) && Quiet(s)
    ensures FuzRun(t, cs, s, [LF]) == s
  {
    hide CrefStep, FillerByte, TagStep, AddWord, AllPlaced;
    assert [LF][1..] == [];
    assert t.Fold(cs, LF) == FC_SP;
  }

  lemma TextSettles(t: Tables, cs: Charset, s: FuzState, bs: seq<byte>, i: nat)
    requires Folds(t) && Quiet(s) && s.ct != Html && Tagless(t, cs, None, bs) && i < LANG_NUM
    ensures Owes(t, cs, FuzRun(t, cs, s, bs), i,
                 Credited(s.lang[i], Spoken(t.dicts[i], cs, WordsIn(Folded(t, cs, bs) + [FC_SP]))))
    ensures FuzRun(t, cs, s, bs).ct == s.ct
  {
    hide FuzRun, Folded, WordsIn, Spoken, Credited, AllPlaced, Tagless;
    assert t.Fold(cs, LF) == FC_SP;
    TaglessTextWords(t, cs, s, bs, i);
  }

  lemma HtmlSettles(t: Tables, cs: Charset, s: FuzState, items: seq<Item>, i: nat)
    requires Folds(t) && Quiet(s) && s.ct == Html && GoodItems(t, cs, items) && i < LANG_NUM
    ensures Owes(t, cs, FuzRun(t, cs, s, HtmlBytes(items)), i,
                 Credited(s.lang[i], Spoken(t.dicts[i], cs, WordsIn(Folded(t, cs, PlainBytes(t, items)) + [FC_SP]))))
    ensures FuzRun(t, cs, s, HtmlBytes(items)).ct == Html
  {
    hide FuzRun, Folded, WordsIn, Spoken, Credited, AllPlaced, GoodItems, HtmlBytes, PlainBytes, WordByte, Tagless;
    assert t.Fold(cs, LF) == FC_SP && t.Fold(cs, LT) == FC_LT;
    var p := s.(ct := Text);
    TagsDoNotShow(t, cs, s, p, items);
    NoTagItems(t, cs, items);
    NoLtIsTagless(t, cs, PlainBytes(t, items));
    TaglessTextWords(t, cs, p, PlainBytes(t, items), i);
    var s', p' := FuzRun(t, cs, s, HtmlBytes(items)), FuzRun(t, cs, p, PlainBytes(t, items));
    WordAlike(t, cs, s', p', LF);
    NewlineInHtml(t, cs, s');
    HtmlTextWords(t, cs, s, items, i);
  }

  lemma NewlineInHtml(t: Tables, cs: Charset, s: FuzState)
    requires t.Good() && InHtml(s)
    ensures FuzRun(t, cs, s, [LF]) == WordByte(t, cs, s, LF)
  {
    hide WordByte, FuzByte;
    TextLook(t, cs, s, LF);
    assert [LF][1..] == [];
  }

  // ---- The words of an entity -----------------------------------------------------------

  /** How a reader takes an HTML text apart: into words, tags and comments. */
  type Reader = seq<byte> -> seq<Item>

  /** The words of a text as its entity is described. */
  ghost function WordsOf(t: Tables, h: Reader, d: Described, b: seq<byte>): seq<seq<byte>>
    requires t.Good()
  {
    match d.ct
    case Text => WordsIn(Folded(t, d.cset, b) + [FC_SP])
    case Html => WordsIn(Folded(t, d.cset, PlainBytes(t, h(b))) + [FC_SP])
    case Binary => []
  }

  /** Plain text has no html tag; HTML text is made of words, tags and comments; binary data may be anything. */
  ghost predicate Readable(t: Tables, h: Reader, d: Described, b: seq<byte>)
    requires t.Good()
  {
    match d.ct
    case Text => Tagless(t, d.cset, None, b)
    case Html => HtmlBytes(h(b)) == b && GoodItems(t, d.cset, h(b))
    case Binary => true
  }

  ghost function SpokenOf(t: Tables, h: Reader, i: nat, d: Described, b: seq<byte>): seq<seq<byte>>
    requires t.Good() && i < LANG_NUM
  {
    Spoken(t.dicts[i], d.cset, WordsOf(t, h, d, b))
  }

  /** A decoded text of the kind that its entity says. */
  lemma EntitySettles(t: Tables, h: Reader, d: Described, s: FuzState, b: seq<byte>, i: nat)
    requires Folds(t) && Quiet(s) && s.ct == d.ct != Binary && Readable(t, h, d, b) && i < LANG_NUM
    ensures Owes(t, d.cset, FuzRun(t, d.cset, s, b), i, Credited(s.lang[i], SpokenOf(t, h, i, d, b)))
    ensures FuzRun(t, d.cset, s, b).ct == s.ct
  {
    hide FuzRun, AllPlaced, Quiet, Owes, WordsIn, Folded, GoodItems, PlainBytes, HtmlBytes, Credited, Spoken;
    if d.ct == Text {
      TextSettles(t, d.cset, s, b, i);
    } else {
      HtmlSettles(t, d.cset, s, h(b), i);
    }
  }

  lemma NothingSpoken(t: Tables, h: Reader, d: Described, b: seq<byte>, i: nat, l: Lang)
    requires t.Good() && i < LANG_NUM && d.ct == Binary
    ensures SpokenOf(t, h, i, d, b) == [] && Credited(l, []) == l
  {
    CreditNothing(l);
  }
}
