/**
  Tags and comments in HTML text: they leave no trace in a word, so a word that a tag stands in
  is counted as if the tag were not there; their bytes are counted as filler.
  */
module Fuz2Tags {
  import opened Bytes
  import opened WordTables
  import opened Cref
  import opened Entities
  import opened Fuz2Machine

  /** In HTML text, with no reference pending. */
  ghost predicate InHtml(s: FuzState) {
    s.st == InWord && s.cref.st == CrefIdle && s.ct == Html && |s.lang| == LANG_NUM
  }

  /** A tag name from position at on: every byte may stand where it stands. */
  predicate IsName(at: nat, name: seq<byte>) {
    forall k :: 0 <= k < |name| ==> TagByte(at + k, ToLower(name[k]))
  }

  function Lower(name: seq<byte>): (low: seq<byte>)
    ensures |low| == |name|
  {
    if name == [] then [] else [ToLower(name[0])] + Lower(name[1..])
  }

  /** The bytes of a tag that do not fold to a space. */
  function Marks(t: Tables, cs: Charset, bs: seq<byte>): nat {
    if bs == [] then 0 else (if t.Fold(cs, bs[0]) != FC_SP then 1 else 0) + Marks(t, cs, bs[1..])
  }

  predicate IsComment(name: seq<byte>) {
    |name| >= 3 && Lower(name)[..3] == COMMENT
  }

  lemma NameFits(at: nat, name: seq<byte>)
    requires IsName(at, name) && at <= WORD_LEN
    ensures name != [] ==> at < WORD_LEN
    ensures name != [] ==> IsName(at + 1, name[1..])
  {
    if name != [] {
      assert TagByte(at + 0, ToLower(name[0]));
      forall k | 0 <= k < |name[1..]| ensures TagByte(at + 1 + k, ToLower(name[1..][k])) {
        assert name[1..][k] == name[k + 1];
      }
    }
  }

  /** The name is collected in lower case. */
  lemma {:induction false} NameRuns(t: Tables, cs: Charset, s: FuzState, name: seq<byte>, rest: seq<byte>) returns (s': FuzState)
    requires t.Good() && s.st == StartTag && s.tagLen <= WORD_LEN && |s.lang| == LANG_NUM && IsName(s.tagLen, name)
    ensures s'.tagLen == s.tagLen + |name| <= WORD_LEN
    ensures s' == s.(tag := s'.tag, tagLen := s'.tagLen, btotal := s.btotal + |name|)
    ensures s'.tag[..s'.tagLen] == s.tag[..s.tagLen] + Lower(name)
    ensures FuzRun(t, cs, s, name + rest) == FuzRun(t, cs, s', rest)
    decreases |name|
  {
    if name == [] {
      s' := s;
      assert name + rest == rest;
    } else {
      NameFits(s.tagLen, name);
      assert TagByte(s.tagLen + 0, ToLower(name[0]));
      var s1 := TagStep(s, ToLower(name[0])).0;
      assert FuzByte(t, cs, s, name[0]) == s1;
      assert (name + rest)[1..] == name[1..] + rest;
      s' := NameRuns(t, cs, s1, name[1..], rest);
      assert s1.tag[..s1.tagLen] == s.tag[..s.tagLen] + [ToLower(name[0])];
      Assoc(s.tag[..s.tagLen], [ToLower(name[0])], Lower(name[1..]));
    }
  }

  /** Filler passed: m of its bytes counted as marks, b bytes in all. */
  function Past(s: FuzState, m: nat, b: nat): FuzState {
    s.(tagLen := s.tagLen + m, xsummed := s.xsummed + m, btotal := s.btotal + b)
  }

  /** The '>' behind it. */
  function Shut(s: FuzState, b: nat): FuzState {
    s.(st := InWord, xsummed := s.xsummed + 1, btotal := s.btotal + b)
  }

  lemma PastTwice(s: FuzState, m: nat, b: nat, m': nat, b': nat)
    ensures Past(Past(s, m, b), m', b') == Past(s, m + m', b + b') && Past(s, 0, 0) == s
  {
  }

  /** One byte inside a comment. */
  lemma CommentStep(t: Tables, cs: Charset, s: FuzState, c: byte)
    requires t.Good() && |s.lang| == LANG_NUM && s.st == SkipComment
    requires c != GT ==> s.tagLen + Marks(t, cs, [c]) <= FAILSAFE
    ensures var m := Marks(t, cs, [c]); FuzByte(t, cs, s, c) == if c == GT then Shut(s, 1) else Past(s, m, m)
  {
    hide CrefStep, WordByte, TagStep;
    assert [c][1..] == [];
  }

  lemma RunTakes(t: Tables, cs: Charset, s: FuzState, c: byte, rest: seq<byte>)
    requires t.Good() && |s.lang| == LANG_NUM && (s.st.StartTag? ==> s.tagLen <= WORD_LEN)
    ensures FuzRun(t, cs, s, [c] + rest) == FuzRun(t, cs, FuzByte(t, cs, s, c), rest)
  {
    hide FuzByte;
    assert ([c] + rest)[1..] == rest;
  }

  lemma MarksCons(t: Tables, cs: Charset, bs: seq<byte>)
    requires bs != []
    ensures Marks(t, cs, bs) == Marks(t, cs, [bs[0]]) + Marks(t, cs, bs[1..])
  {
    assert [bs[0]][1..] == [];
  }

  /** Inside a comment, up to and with its '>'. */
  lemma {:induction false} CommentRuns(t: Tables, cs: Charset, s: FuzState, filler: seq<byte>, rest: seq<byte>)
    requires t.Good() && |s.lang| == LANG_NUM && GT !in filler && s.st == SkipComment
    requires s.tagLen + Marks(t, cs, filler) <= FAILSAFE
    ensures var m := Marks(t, cs, filler);
      FuzRun(t, cs, s, filler + ([GT] + rest)) == FuzRun(t, cs, Shut(Past(s, m, m), 1), rest)
    decreases |filler|
  {
    hide FuzByte, FuzRun, Marks;
    if filler == [] {
      assert filler + ([GT] + rest) == [GT] + rest;
      NoMarks(t, cs);
      CommentStep(t, cs, s, GT);
      RunTakes(t, cs, s, GT, rest);
      PastTwice(s, 0, 0, 0, 0);
    } else {
      var c, more := filler[0], filler[1..];
      assert filler + ([GT] + rest) == [c] + (more + ([GT] + rest));
      assert c in filler && forall x :: x in more ==> x in filler;
      MarksCons(t, cs, filler);
      CommentStep(t, cs, s, c);
      RunTakes(t, cs, s, c, more + ([GT] + rest));
      var m, m' := Marks(t, cs, [c]), Marks(t, cs, more);
      CommentRuns(t, cs, Past(s, m, m), more, rest);
      PastTwice(s, m, m, m', m');
    }
  }

  // ---- Character references inside a tag ------------------------------------------------

  /** The bytes that one byte of a tag stands for, the reference decoder behind it, and how often it is looked at again. */
  function Resolve(tbl: Table, cref: CrefState, c: byte): (seq<byte>, CrefState, nat)
    requires WellFormedTable(tbl, 1)
    decreases if cref.st == CrefIdle then 0 else 1
  {
    if cref.st != CrefIdle || c == AMP then
      var (cref', i) := CrefStep(cref, c, tbl);
      if i < 0 then ([], cref', 0)
      else if i == 0 then ([cref'.result], cref', 0)
      else
        var (out, cref'', n) := Resolve(tbl, cref', c);
        ([cref'.result] + out, cref'', 1 + n)
    else ([c], cref, 0)
  }

  /** The same for a run of bytes, with the number of looks at them. */
  function Resolved(tbl: Table, cref: CrefState, bs: seq<byte>): (seq<byte>, CrefState, nat)
    requires WellFormedTable(tbl, 1)
    decreases |bs|
  {
    if bs == [] then ([], cref, 0)
    else
      var (out, cref', n) := Resolve(tbl, cref, bs[0]);
      var (more, cref'', n') := Resolved(tbl, cref', bs[1..]);
      (out + more, cref'', n + 1 + n')
  }

  /** The last of the bytes is '>', and no other. */
  predicate ClosesWith(out: seq<byte>) {
    out != [] && out[|out| - 1] == GT && GT !in out[..|out| - 1]
  }

  /** The byte last, behind the filler, is where the tag ends. */
  predicate EndsTag(tbl: Table, cref: CrefState, filler: seq<byte>, last: byte)
    requires WellFormedTable(tbl, 1)
  {
    var (out, cref', n) := Resolved(tbl, cref, filler);
    GT !in out && ClosesWith(Resolve(tbl, cref', last).0) && Resolve(tbl, cref', last).1.st == CrefIdle
  }

  /**
    A '>' ends its tag exactly when it is not right behind an '&', and a reference that it
    interrupts does not itself stand for '>'.
    */
  lemma GtEndsTag(tbl: Table, cref: CrefState, filler: seq<byte>)
    requires WellFormedTable(tbl, 1) && GT !in Resolved(tbl, cref, filler).0
    ensures var pending := Resolved(tbl, cref, filler).1;
      && (EndsTag(tbl, cref, filler, GT)
          <==> pending.st != CrefStart && (pending.st != CrefIdle ==> CrefStep(pending, GT, tbl).0.result != GT))
      && (pending.st == CrefStart ==> Resolve(tbl, pending, GT).0 == [])
  {
    var pending := Resolved(tbl, cref, filler).1;
    if pending.st != CrefIdle && pending.st != CrefStart {
      var (cref', i) := CrefStep(pending, GT, tbl);
      Interrupted(pending, tbl);
      assert Resolve(tbl, pending, GT).0 == [cref'.result, GT];
      assert [cref'.result, GT][..1] == [cref'.result];
    }
  }

  lemma Interrupted(cref: CrefState, tbl: Table)
    requires WellFormedTable(tbl, 1) && cref.st != CrefIdle && cref.st != CrefStart
    ensures CrefStep(cref, GT, tbl).1 == 1
  {
  }

  /** One look at a byte in a tag, when it comes to the filler. */
  function Filled(t: Tables, cs: Charset, s: FuzState, c: byte): (s': FuzState)
    requires t.Good()
    ensures s'.lang == s.lang && s'.cref == s.cref
  {
    FillerByte(t, cs, s.(btotal := s.btotal + 1), c)
  }

  lemma FilledIs(t: Tables, cs: Charset, s: FuzState, c: byte)
    requires t.Good() && s.st == SkipTag && |s.lang| == LANG_NUM
    ensures c == GT ==> Filled(t, cs, s, c) == Shut(s, 2)
    ensures var m := Marks(t, cs, [c]);
      c != GT && s.tagLen + m <= FAILSAFE ==> Filled(t, cs, s, c) == Past(s, m, m + 1)
  {
    assert [c][1..] == [];
  }

  /** A byte in a tag with no reference to it. */
  lemma PlainLook(t: Tables, cs: Charset, s: FuzState, c: byte)
    requires t.Good() && |s.lang| == LANG_NUM && s.st == SkipTag && s.cref.st == CrefIdle && c != AMP
    ensures FuzByte(t, cs, s, c) == Filled(t, cs, s, c) && Resolve(t.crefs, s.cref, c) == ([c], s.cref, 0)
  {
  }

  /** A byte that the reference decoder takes: it may deliver, and then the byte may be looked at again. */
  lemma CrefLook(t: Tables, cs: Charset, s: FuzState, c: byte)
    requires t.Good() && |s.lang| == LANG_NUM && s.st == SkipTag && (s.cref.st != CrefIdle || c == AMP)
    ensures var (cref', i) := CrefStep(s.cref, c, t.crefs);
      var s1, r := s.(cref := cref'), cref'.result;
      && (i < 0 ==> FuzByte(t, cs, s, c) == s1.(btotal := s.btotal + 1) && Resolve(t.crefs, s.cref, c) == ([], cref', 0))
      && (i == 0 ==> FuzByte(t, cs, s, c) == Filled(t, cs, s1, r) && Resolve(t.crefs, s.cref, c) == ([r], cref', 0))
      && (i > 0 ==>
            && cref'.st == CrefIdle
            && (Filled(t, cs, s1, r).st == SkipTag ==> FuzByte(t, cs, s, c) == FuzByte(t, cs, Filled(t, cs, s1, r), c))
            && Resolve(t.crefs, s.cref, c)
               == ([r] + Resolve(t.crefs, cref', c).0, Resolve(t.crefs, cref', c).1, 1 + Resolve(t.crefs, cref', c).2))
  {
    hide CrefStep, WordByte, TagStep, FillerByte;
  }

  lemma MarksSplit(t: Tables, cs: Charset, a: seq<byte>, b: seq<byte>)
    ensures Marks(t, cs, a + b) == Marks(t, cs, a) + Marks(t, cs, b)
  {
    if a == [] {
      assert a + b == b;
    } else {
      assert (a + b)[1..] == a[1..] + b;
      MarksSplit(t, cs, a[1..], b);
    }
  }

  /** A byte that only adds to the filler. */
  lemma {:induction false} TagStays(t: Tables, cs: Charset, s: FuzState, c: byte)
    requires t.Good() && |s.lang| == LANG_NUM && s.st == SkipTag
    requires var out := Resolve(t.crefs, s.cref, c).0; GT !in out && s.tagLen + Marks(t, cs, out) <= FAILSAFE
    ensures var (out, cref, n) := Resolve(t.crefs, s.cref, c);
      var m := Marks(t, cs, out);
      FuzByte(t, cs, s, c) == Past(s.(cref := cref), m, m + n + 1)
    decreases if s.cref.st == CrefIdle then 0 else 1, 0
  {
    hide CrefStep, FuzByte, Resolve, Marks, Filled;
    NoMarks(t, cs);
    if s.cref.st == CrefIdle && c != AMP {
      PlainLook(t, cs, s, c);
      FilledIs(t, cs, s, c);
    } else {
      CrefLook(t, cs, s, c);
      var (cref', i) := CrefStep(s.cref, c, t.crefs);
      if i >= 0 {
        var s1, r := s.(cref := cref'), cref'.result;
        FilledIs(t, cs, s1, r);
        if i != 0 {
          StaysAgain(t, cs, s, s1, r, c);
        }
      }
    }
  }

  lemma StaysAgain(t: Tables, cs: Charset, s: FuzState, s1: FuzState, r: byte, c: byte)
    requires t.Good() && |s1.lang| == LANG_NUM && s1.st == SkipTag && s1.cref.st == CrefIdle && s1.tagLen == s.tagLen
    requires var out := [r] + Resolve(t.crefs, s1.cref, c).0; GT !in out && s.tagLen + Marks(t, cs, out) <= FAILSAFE
    ensures var (out, cref, n) := Resolve(t.crefs, s1.cref, c);
      var first, m := Marks(t, cs, [r]), Marks(t, cs, [r] + out);
      r != GT && s1.tagLen + first <= FAILSAFE
      && FuzByte(t, cs, Past(s1, first, first + 1), c) == Past(s1.(cref := cref), m, m + n + 2)
    decreases 0, 1
  {
    hide CrefStep, FuzByte, Resolve, Marks, Filled;
    var (out, cref, n) := Resolve(t.crefs, s1.cref, c);
    MarksSplit(t, cs, [r], out);
    assert ([r] + out)[0] == r && forall x :: x in out ==> x in [r] + out;
    var m, m' := Marks(t, cs, [r]), Marks(t, cs, out);
    TagStays(t, cs, Past(s1, m, m + 1), c);
    PastTwice(s1.(cref := cref), m, m + 1, m', m' + n + 1);
  }

  /** A byte that no reference takes is there as it stands. */
  lemma LooksAgain(tbl: Table, cref: CrefState, c: byte)
    requires WellFormedTable(tbl, 1) && cref.st == CrefIdle
    ensures Resolve(tbl, cref, c).1.st == CrefIdle ==> Resolve(tbl, cref, c).0 != []
  {
  }

  /** The byte that ends the tag. */
  lemma TagCloses(t: Tables, cs: Charset, s: FuzState, c: byte)
    requires t.Good() && |s.lang| == LANG_NUM && s.st == SkipTag
    requires var out := Resolve(t.crefs, s.cref, c).0;
      ClosesWith(out) && s.tagLen + Marks(t, cs, out[..|out| - 1]) <= FAILSAFE
    requires Resolve(t.crefs, s.cref, c).1.st == CrefIdle
    ensures var (out, cref, n) := Resolve(t.crefs, s.cref, c);
      var m := Marks(t, cs, out[..|out| - 1]);
      FuzByte(t, cs, s, c) == Shut(Past(s.(cref := cref), m, m + n), 2)
    decreases if s.cref.st == CrefIdle then 0 else 1, 0
  {
    hide CrefStep, FuzByte, Resolve, Marks, Filled;
    NoMarks(t, cs);
    PastTwice(s, 0, 0, 0, 0);
    if s.cref.st == CrefIdle && c != AMP {
      PlainLook(t, cs, s, c);
      FilledIs(t, cs, s, c);
    } else {
      CrefLook(t, cs, s, c);
      var (cref', i) := CrefStep(s.cref, c, t.crefs);
      if i >= 0 {
        var s1, r := s.(cref := cref'), cref'.result;
        FilledIs(t, cs, s1, r);
        if i != 0 {
          ClosesAgain(t, cs, s, s1, r, c);
        } else {
          assert [r][..0] == [];
        }
      }
    }
  }

  lemma ClosesAgain(t: Tables, cs: Charset, s: FuzState, s1: FuzState, r: byte, c: byte)
    requires t.Good() && |s1.lang| == LANG_NUM && s1.st == SkipTag && s1.cref.st == CrefIdle && s1.tagLen == s.tagLen
    requires Resolve(t.crefs, s1.cref, c).1.st == CrefIdle
    requires var all := [r] + Resolve(t.crefs, s1.cref, c).0;
      ClosesWith(all) && s.tagLen + Marks(t, cs, all[..|all| - 1]) <= FAILSAFE
    ensures var (out, cref, n) := Resolve(t.crefs, s1.cref, c);
      var all := [r] + out;
      var first, m := Marks(t, cs, [r]), Marks(t, cs, all[..|all| - 1]);
      r != GT && s1.tagLen + first <= FAILSAFE
      && FuzByte(t, cs, Past(s1, first, first + 1), c) == Shut(Past(s1.(cref := cref), m, m + n + 1), 2)
    decreases 0, 1
  {
    hide CrefStep, FuzByte, Resolve, Marks, Filled;
    var (out, cref, n) := Resolve(t.crefs, s1.cref, c);
    LooksAgain(t.crefs, s1.cref, c);
    var all, front := [r] + out, out[..|out| - 1];
    assert all[|all| - 1] == out[|out| - 1] && all[..|all| - 1] == [r] + front;
    assert r == all[..|all| - 1][0] && forall x :: x in front ==> x in all[..|all| - 1];
    MarksSplit(t, cs, [r], front);
    var m, m' := Marks(t, cs, [r]), Marks(t, cs, front);
    TagCloses(t, cs, Past(s1, m, m + 1), c);
    PastTwice(s1.(cref := cref), m, m + 1, m', m' + n);
  }

  lemma NoMarks(t: Tables, cs: Charset)
    ensures Marks(t, cs, []) == 0
  {
  }

  /** The byte that ends a tag's name: the tag is over, or the rest of it is to be skipped. */
  lemma NameEnds(t: Tables, cs: Charset, s: FuzState, c: byte, rest: seq<byte>)
    requires t.Good() && s.st == StartTag && s.ct == Html && 0 < s.tagLen <= WORD_LEN && |s.lang| == LANG_NUM
    requires !TagByte(s.tagLen, ToLower(c))
    ensures var s1 := s.(xsummed := s.xsummed + s.tagLen + 1);
      && (c == GT ==> FuzRun(t, cs, s, [c] + rest)
                      == FuzRun(t, cs, s1.(xsummed := s1.xsummed + 1, btotal := s1.btotal + 1, st := InWord), rest))
      && (c != GT ==> FuzRun(t, cs, s, [c] + rest)
                      == FuzRun(t, cs, s1.(st := if s.tagLen >= 3
                          && s.tag[..3] == COMMENT then SkipComment else SkipTag), [c] + rest))
  {
    hide CrefStep, WordByte, FillerByte;
    assert ([c] + rest)[1..] == rest;
    var (s2, used) := Look(t, cs, s, c);
    if c != GT {
      assert FuzByte(t, cs, s, c) == FuzByte(t, cs, s2, c);
    }
  }

  /** What a whole tag or comment does: only the counters, the tag buffer and the idle reference decoder change. */
  ghost predicate Transparent(s: FuzState, s': FuzState) {
    s' == s.(btotal := s'.btotal, xsummed := s'.xsummed, tag := s'.tag, tagLen := s'.tagLen, cref := s'.cref)
  }

  /** Bytes inside a tag that do not end it. */
  lemma {:induction false} TagRuns(t: Tables, cs: Charset, s: FuzState, filler: seq<byte>, rest: seq<byte>)
    requires t.Good() && |s.lang| == LANG_NUM && s.st == SkipTag
    requires var out := Resolved(t.crefs, s.cref, filler).0; GT !in out && s.tagLen + Marks(t, cs, out) <= FAILSAFE
    ensures var (out, cref, n) := Resolved(t.crefs, s.cref, filler);
      var m := Marks(t, cs, out);
      FuzRun(t, cs, s, filler + rest) == FuzRun(t, cs, Past(s.(cref := cref), m, m + n), rest)
    decreases |filler|
  {
    hide FuzByte, FuzRun, Marks, Resolve;
    NoMarks(t, cs);
    if filler == [] {
      assert filler + rest == rest;
      PastTwice(s, 0, 0, 0, 0);
    } else {
      var c, more := filler[0], filler[1..];
      assert filler + rest == [c] + (more + rest);
      var (out, cref, n) := Resolve(t.crefs, s.cref, c);
      var (out', cref', n') := Resolved(t.crefs, cref, more);
      assert (forall x :: x in out ==> x in out + out') && forall x :: x in out' ==> x in out + out';
      MarksSplit(t, cs, out, out');
      TagStays(t, cs, s, c);
      RunTakes(t, cs, s, c, more + rest);
      var m, m' := Marks(t, cs, out), Marks(t, cs, out');
      TagRuns(t, cs, Past(s.(cref := cref), m, m + n + 1), more, rest);
      PastTwice(s.(cref := cref'), m, m + n + 1, m', m' + n');
    }
  }

  /** All that a tag's text resolves to, the '>' that ends it left out. */
  function TagText(tbl: Table, cref: CrefState, filler: seq<byte>, last: byte): seq<byte>
    requires WellFormedTable(tbl, 1) && EndsTag(tbl, cref, filler, last)
  {
    var (out, cref', n) := Resolved(tbl, cref, filler);
    var closing := Resolve(tbl, cref', last).0;
    out + closing[..|closing| - 1]
  }

  /** How often the bytes of a tag behind its name are looked at. */
  function TagLooks(tbl: Table, cref: CrefState, filler: seq<byte>, last: byte): nat
    requires WellFormedTable(tbl, 1)
  {
    var (out, cref', n) := Resolved(tbl, cref, filler);
    if filler == [] && last == GT then 0 else n + Resolve(tbl, cref', last).2 + 1
  }

  lemma TagEnds(t: Tables, cs: Charset, s: FuzState, filler: seq<byte>, last: byte, rest: seq<byte>) returns (s': FuzState)
    requires t.Good() && |s.lang| == LANG_NUM && s.st == SkipTag && s.ct == Html && EndsTag(t.crefs, s.cref, filler, last)
    requires s.tagLen + Marks(t, cs, TagText(t.crefs, s.cref, filler, last)) <= FAILSAFE
    ensures Transparent(s.(st := InWord), s') && InHtml(s')
    ensures var m := Marks(t, cs, TagText(t.crefs, s.cref, filler, last));
      && s'.xsummed == s.xsummed + m + 1
      && s'.btotal == s.btotal + m + Resolved(t.crefs, s.cref, filler).2
           + Resolve(t.crefs, Resolved(t.crefs, s.cref, filler).1, last).2 + 2
    ensures FuzRun(t, cs, s, filler + ([last] + rest)) == FuzRun(t, cs, s', rest)
  {
    hide FuzByte, FuzRun, Marks, Resolve, Resolved;
    var (out, cref, n) := Resolved(t.crefs, s.cref, filler);
    var (closing, cref', n') := Resolve(t.crefs, cref, last);
    var front := closing[..|closing| - 1];
    MarksSplit(t, cs, out, front);
    var m, m' := Marks(t, cs, out), Marks(t, cs, front);
    TagRuns(t, cs, s, filler, [last] + rest);
    var s1 := Past(s.(cref := cref), m, m + n);
    TagCloses(t, cs, s1, last);
    RunTakes(t, cs, s1, last, rest);
    s' := Shut(Past(s1.(cref := cref'), m', m' + n'), 2);
  }

  /**
    A whole tag in HTML text, character references in it included: the word it stands in goes on
    behind it, no language gains or loses anything, and the filler grows by its name, the marks
    it resolves to and its two brackets.
    */
  lemma TagIsTransparent(t: Tables, cs: Charset, s: FuzState, name: seq<byte>, filler: seq<byte>, last: byte,
      rest: seq<byte>) returns (s': FuzState)
    requires t.Good() && InHtml(s) && t.Fold(cs, LT) == FC_LT
    requires name != [] && !IsComment(name) && IsName(0, name) && !TagByte(|name|, ToLower((filler + [last])[0]))
    requires EndsTag(t.crefs, s.cref, filler, last)
    requires |name| + Marks(t, cs, TagText(t.crefs, s.cref, filler, last)) <= FAILSAFE
    ensures Transparent(s, s') && InHtml(s')
    ensures s'.xsummed == s.xsummed + |name| + Marks(t, cs, TagText(t.crefs, s.cref, filler, last)) + 2
    ensures s'.btotal - s.btotal == s'.xsummed - s.xsummed + TagLooks(t.crefs, s.cref, filler, last)
    ensures FuzRun(t, cs, s, [LT] + (name + (filler + ([last] + rest)))) == FuzRun(t, cs, s', rest)
  {
    hide FuzRun, Lower, Resolve, Resolved;
    var tail := filler + ([last] + rest);
    var s2 := NameComes(t, cs, s, name, tail);
    var c := (filler + [last])[0];
    assert tail == [c] + tail[1..];
    NameEnds(t, cs, s2, c, tail[1..]);
    if c == GT {
      GtFirst(t.crefs, s.cref, filler, last);
      assert tail[1..] == rest;
      NoMarks(t, cs);
      s' := s2.(xsummed := s2.xsummed + s2.tagLen + 2, btotal := s2.btotal + 1, st := InWord);
    } else {
      CommentSeen(s2, name);
      s' := TagEnds(t, cs, s2.(xsummed := s2.xsummed + s2.tagLen + 1, st := SkipTag), filler, last, rest);
    }
  }

  /** The '<' and the name. */
  lemma NameComes(t: Tables, cs: Charset, s: FuzState, name: seq<byte>, tail: seq<byte>) returns (s': FuzState)
    requires t.Good() && InHtml(s) && t.Fold(cs, LT) == FC_LT && name != [] && IsName(0, name)
    ensures s'.tagLen == |name| <= WORD_LEN && s'.tag[..s'.tagLen] == Lower(name)
    ensures s' == s.(st := StartTag, tag := s'.tag, tagLen := |name|, btotal := s.btotal + 1 + |name|)
    ensures FuzRun(t, cs, s, [LT] + (name + tail)) == FuzRun(t, cs, s', tail)
  {
    hide FuzRun, Lower;
    var s1 := s.(btotal := s.btotal + 1, tagLen := 0, tag := NO_WORD, st := StartTag);
    OpensTag(t, cs, s, name + tail);
    s' := NameRuns(t, cs, s1, name, tail);
    assert s'.tag[..s'.tagLen] == Lower(name);
  }

  /** A '>' first ends the tag at once. */
  lemma GtFirst(tbl: Table, cref: CrefState, filler: seq<byte>, last: byte)
    requires WellFormedTable(tbl, 1) && cref.st == CrefIdle && EndsTag(tbl, cref, filler, last) && (filler + [last])[0] == GT
    ensures filler == [] && last == GT && TagText(tbl, cref, filler, last) == []
  {
    if filler != [] {
      GtStands(tbl, cref, filler);
    }
  }

  lemma GtStands(tbl: Table, cref: CrefState, filler: seq<byte>)
    requires WellFormedTable(tbl, 1) && cref.st == CrefIdle && filler != [] && filler[0] == GT
    ensures GT in Resolved(tbl, cref, filler).0
  {
    assert Resolved(tbl, cref, filler).0[0] == GT;
  }

  /** A comment, which holds no references: it ends at its first '>'. */
  lemma CommentIsTransparent(t: Tables, cs: Charset, s: FuzState, name: seq<byte>, filler: seq<byte>,
      rest: seq<byte>) returns (s': FuzState)
    requires t.Good() && InHtml(s) && t.Fold(cs, LT) == FC_LT
    requires IsComment(name) && IsName(0, name) && !TagByte(|name|, ToLower((filler + [GT])[0]))
    requires GT !in filler && |name| + Marks(t, cs, filler) <= FAILSAFE
    ensures Transparent(s, s') && InHtml(s')
    ensures s'.xsummed == s.xsummed + |name| + Marks(t, cs, filler) + 2
    ensures s'.btotal - s.btotal == s'.xsummed - s.xsummed
    ensures FuzRun(t, cs, s, [LT] + (name + (filler + ([GT] + rest)))) == FuzRun(t, cs, s', rest)
  {
    hide FuzRun, Lower;
    var tail := filler + ([GT] + rest);
    var s2 := NameComes(t, cs, s, name, tail);
    var c := (filler + [GT])[0];
    assert tail == [c] + tail[1..];
    NameEnds(t, cs, s2, c, tail[1..]);
    if filler == [] {
      assert tail[1..] == rest;
      s' := s2.(xsummed := s2.xsummed + s2.tagLen + 2, btotal := s2.btotal + 1, st := InWord);
    } else {
      assert c == filler[0] && c != GT;
      var s3 := s2.(xsummed := s2.xsummed + s2.tagLen + 1, st := SkipComment);
      CommentSeen(s2, name);
      var m := Marks(t, cs, filler);
      CommentRuns(t, cs, s3, filler, rest);
      s' := Shut(Past(s3, m, m), 1);
    }
  }

  lemma CommentSeen(s: FuzState, name: seq<byte>)
    requires s.tagLen == |name| <= WORD_LEN && s.tag[..s.tagLen] == Lower(name)
    ensures s.tagLen >= 3 && s.tag[..3] == COMMENT <==> IsComment(name)
  {
    hide Lower;
    if s.tagLen >= 3 {
      assert s.tag[..3] == s.tag[..s.tagLen][..3];
    }
  }

  lemma OpensTag(t: Tables, cs: Charset, s: FuzState, rest: seq<byte>)
    requires t.Good() && s.st == InWord && s.cref.st == CrefIdle && |s.lang| == LANG_NUM && t.Fold(cs, LT) == FC_LT
    ensures FuzRun(t, cs, s, [LT] + rest)
      == FuzRun(t, cs, s.(btotal := s.btotal + 1, tagLen := 0, tag := NO_WORD, st := StartTag), rest)
  {
    hide FuzByte, FuzRun;
    LtByte(t, cs, s);
    RunTakes(t, cs, s, LT, rest);
  }

  lemma LtByte(t: Tables, cs: Charset, s: FuzState)
    requires t.Good() && s.st == InWord && s.cref.st == CrefIdle && |s.lang| == LANG_NUM && t.Fold(cs, LT) == FC_LT
    ensures FuzByte(t, cs, s, LT) == s.(btotal := s.btotal + 1, tagLen := 0, tag := NO_WORD, st := StartTag)
  {
    hide CrefStep, FillerByte, TagStep, AddWord;
  }

  // ---- Text that is not HTML yet --------------------------------------------------------

  /** The byte that ends a name in text that is not HTML: the name html makes it so, any other one is no tag. */
  lemma NameEndsInText(t: Tables, cs: Charset, s: FuzState, c: byte, rest: seq<byte>)
    requires t.Good() && s.st == StartTag && s.ct != Html && s.tagLen <= WORD_LEN && |s.lang| == LANG_NUM
    requires !TagByte(s.tagLen, ToLower(c))
    ensures var html := s.tagLen == 4 && s.tag[..4] == HTML;
      && (html ==> FuzRun(t, cs, s, [c] + rest) == FuzRun(t, cs, s.(ct := Html), [c] + rest))
      && (!html ==> FuzRun(t, cs, s, [c] + rest) == FuzRun(t, cs, s.(wlen := SKIP_WLEN, st := InWord), [c] + rest))
  {
    hide CrefStep, WordByte, FillerByte;
    assert ([c] + rest)[1..] == rest;
    var (s2, used) := Look(t, cs, s, c);
    if s.tagLen == 4 && s.tag[..4] == HTML {
      assert Look(t, cs, s.(ct := Html), c) == (s2, used);
    } else {
      assert FuzByte(t, cs, s, c) == FuzByte(t, cs, s2, c);
    }
  }

  /** What the name of a tag does in text that is not HTML: it makes it HTML, or spoils the word. */
  ghost predicate TagTaken(s: FuzState, name: seq<byte>, s': FuzState) {
    && s'.lang == s.lang && s'.cref == s.cref && s'.btotal == s.btotal + 1 + |name| && s'.xsummed == s.xsummed
    && s'.tagLen == |name| <= WORD_LEN
    && if Lower(name) == HTML then s'.ct == Html && s'.st == StartTag && s'.wlen == s.wlen && s'.w == s.w
       else s'.ct == s.ct && s'.st == InWord && s'.wlen == SKIP_WLEN
  }

  /** A tag in text that is not HTML: "html" turns it into HTML, any other name spoils the word it stands in. */
  lemma TagInText(t: Tables, cs: Charset, s: FuzState, name: seq<byte>, c: byte, rest: seq<byte>) returns (s': FuzState)
    requires t.Good() && s.st == InWord && s.cref.st == CrefIdle && |s.lang| == LANG_NUM && s.ct != Html
    requires t.Fold(cs, LT) == FC_LT && IsName(0, name) && !TagByte(|name|, ToLower(c))
    ensures TagTaken(s, name, s')
    ensures FuzRun(t, cs, s, [LT] + (name + ([c] + rest))) == FuzRun(t, cs, s', [c] + rest)
  {
    hide FuzRun, Lower;
    var s1 := s.(btotal := s.btotal + 1, tagLen := 0, tag := NO_WORD, st := StartTag);
    OpensTag(t, cs, s, name + ([c] + rest));
    var s2 := NameRuns(t, cs, s1, name, [c] + rest);
    assert s2.tag[..s2.tagLen] == Lower(name);
    NameEndsInText(t, cs, s2, c, rest);
    s' := if Lower(name) == HTML then s2.(ct := Html) else s2.(wlen := SKIP_WLEN, st := InWord);
  }

  // ---- In byte values -------------------------------------------------------------------

  /** Letters and digits up to 16 bytes, a slash or '!' in front, and dashes in second and third place. */
  lemma NameInBytes(at: nat, c: byte)
    ensures TagByte(at, ToLower(c)) <==>
      || ((0x41 <= c <= 0x5A || 0x61 <= c <= 0x7A || 0x30 <= c <= 0x39) && at < 16)
      || ((c == 0x2F || c == 0x21) && at == 0)
      || (c == 0x2D && (at == 1 || at == 2))
  {
  }

  /** The name html, in any case, and no other. */
  lemma HtmlInBytes(name: seq<byte>)
    ensures Lower(name) == HTML <==>
      && |name| == 4 && (name[0] == 0x48 || name[0] == 0x68) && (name[1] == 0x54 || name[1] == 0x74)
      && (name[2] == 0x4D || name[2] == 0x6D) && (name[3] == 0x4C || name[3] == 0x6C)
  {
    if |name| == 4 {
      FourLower(name);
    }
  }

  lemma FourLower(name: seq<byte>)
    requires |name| == 4
    ensures Lower(name) == [ToLower(name[0]), ToLower(name[1]), ToLower(name[2]), ToLower(name[3])]
  {
    var a := name[1..];
    var b := a[1..];
    var c := b[1..];
    assert Lower(c) == [ToLower(name[3])] + Lower(c[1..]) && c[1..] == [];
    assert Lower(b) == [ToLower(name[2])] + Lower(c);
    assert Lower(a) == [ToLower(name[1])] + Lower(b);
  }

  /** "<html" in any case and a byte that does not go on with the name: text turns into HTML. */
  lemma HtmlTagInBytes(t: Tables, cs: Charset, s: FuzState, name: seq<byte>, c: byte, rest: seq<byte>) returns (s': FuzState)
    requires t.Good() && s.st == InWord && s.cref.st == CrefIdle && |s.lang| == LANG_NUM && s.ct != Html
    requires t.Fold(cs, 0x3C) == 0x3C && |name| == 4
    requires (name[0] == 0x48 || name[0] == 0x68) && (name[1] == 0x54 || name[1] == 0x74)
    requires (name[2] == 0x4D || name[2] == 0x6D) && (name[3] == 0x4C || name[3] == 0x6C)
    requires !(0x41 <= c <= 0x5A) && !(0x61 <= c <= 0x7A) && !(0x30 <= c <= 0x39)
    ensures s'.ct == Html && s'.lang == s.lang && s'.wlen == s.wlen && s'.w == s.w && s'.tagLen == 4
    ensures FuzRun(t, cs, s, [0x3C] + (name + ([c] + rest))) == FuzRun(t, cs, s', [c] + rest)
  {
    hide FuzRun, Lower, TagByte;
    HtmlInBytes(name);
    forall k | 0 <= k < |name| ensures TagByte(0 + k, ToLower(name[k])) {
      NameInBytes(k, name[k]);
    }
    NameInBytes(4, c);
    s' := TagInText(t, cs, s, name, c, rest);
  }

  /** "<!-- " up to the next '>' is a comment, of whatever bytes: it leaves word and languages as they were. */
  lemma CommentInBytes(t: Tables, cs: Charset, s: FuzState, text: seq<byte>, rest: seq<byte>) returns (s': FuzState)
    requires t.Good() && InHtml(s) && t.Fold(cs, 0x3C) == 0x3C && 0x3E !in text && |text| < 1900
    ensures InHtml(s') && s'.lang == s.lang && s'.wlen == s.wlen && s'.w == s.w
    ensures FuzRun(t, cs, s, [0x3C, 0x21, 0x2D, 0x2D, 0x20] + (text + ([0x3E] + rest))) == FuzRun(t, cs, s', rest)
  {
    hide FuzRun, TagByte, Marks;
    var name, filler := [0x21, 0x2D, 0x2D], [0x20] + text;
    CommentName();
    NameInBytes(3, 0x20);
    MarksAtMost(t, cs, filler);
    s' := CommentIsTransparent(t, cs, s, name, filler, rest);
    assert [0x3C] + (name + (filler + ([GT] + rest))) == [0x3C, 0x21, 0x2D, 0x2D, 0x20] + (text + ([0x3E] + rest));
  }

  lemma CommentName()
    ensures IsName(0, [0x21, 0x2D, 0x2D]) && IsComment([0x21, 0x2D, 0x2D])
  {
    var name: seq<byte> := [0x21, 0x2D, 0x2D];
    assert name[1..] == [0x2D, 0x2D] && name[1..][1..] == [0x2D] && name[1..][1..][1..] == [];
    assert Lower([0x2D]) == [0x2D] && Lower([0x2D, 0x2D]) == [0x2D, 0x2D];
    assert Lower(name) == name;
  }

  lemma {:induction false} MarksAtMost(t: Tables, cs: Charset, bs: seq<byte>)
    ensures Marks(t, cs, bs) <= |bs|
  {
    if bs != [] {
      MarksAtMost(t, cs, bs[1..]);
    }
  }

  /** Without '&' the bytes of a tag stand for themselves. */
  lemma {:induction false} PlainResolved(tbl: Table, cref: CrefState, bs: seq<byte>)
    requires WellFormedTable(tbl, 1) && cref.st == CrefIdle && AMP !in bs
    ensures Resolved(tbl, cref, bs) == (bs, cref, |bs|)
    decreases |bs|
  {
    if bs != [] {
      assert bs == [bs[0]] + bs[1..] && bs[0] in bs && forall x :: x in bs[1..] ==> x in bs;
      PlainResolved(tbl, cref, bs[1..]);
    }
  }

  lemma PlainEnds(tbl: Table, cref: CrefState, filler: seq<byte>)
    requires WellFormedTable(tbl, 1) && cref.st == CrefIdle && AMP !in filler && GT !in filler
    ensures EndsTag(tbl, cref, filler, GT) && TagText(tbl, cref, filler, GT) == filler
  {
    PlainResolved(tbl, cref, filler);
    assert Resolve(tbl, cref, GT) == ([GT], cref, 0) && [GT][..0] == [] && filler + [] == filler;
  }

  /** Letters and digits, a slash in front of them or not. */
  predicate TagWord(name: seq<byte>) {
    && 1 <= |name| <= 16
    && forall k :: 0 <= k < |name| ==>
      0x41 <= name[k] <= 0x5A || 0x61 <= name[k] <= 0x7A || 0x30 <= name[k] <= 0x39 || (k == 0 && name[k] == 0x2F)
  }

  /** A tag as it is written, such as "<b>", "</p>" or "<a href=x>": it leaves word and languages as they were. */
  lemma TagInBytes(t: Tables, cs: Charset, s: FuzState, name: seq<byte>, filler: seq<byte>, rest: seq<byte>)
      returns (s': FuzState)
    requires t.Good() && InHtml(s) && t.Fold(cs, 0x3C) == 0x3C && TagWord(name) && |filler| < 1900
    requires 0x3E !in filler && 0x26 !in filler && (filler != [] ==> filler[0] == 0x20)
    ensures InHtml(s') && s'.lang == s.lang && s'.wlen == s.wlen && s'.w == s.w
    ensures FuzRun(t, cs, s, [0x3C] + (name + (filler + ([0x3E] + rest)))) == FuzRun(t, cs, s', rest)
  {
    hide FuzRun, TagByte, Marks, EndsTag, TagText, Lower;
    forall k | 0 <= k < |name| ensures TagByte(0 + k, ToLower(name[k])) {
      NameInBytes(k, name[k]);
    }
    NameInBytes(|name|, (filler + [0x3E])[0]);
    PlainEnds(t.crefs, s.cref, filler);
    MarksAtMost(t, cs, filler);
    NotComment(name);
    s' := TagIsTransparent(t, cs, s, name, filler, GT, rest);
  }

  lemma NotComment(name: seq<byte>)
    requires TagWord(name)
    ensures !IsComment(name)
  {
    assert Lower(name)[0] == ToLower(name[0]);
    if |name| >= 3 {
      assert Lower(name)[..3][0] == Lower(name)[0];
    }
  }

  /** The 2001st mark of a tag or comment ends it and spoils the word; no earlier one does. */
  lemma FailsafeInNumbers(t: Tables, cs: Charset, s: FuzState, c: byte)
    requires t.Good() && c != 0x3E && t.Fold(cs, c) != 0x20 && (s.st == SkipTag || s.st == SkipComment)
    ensures var s' := FillerByte(t, cs, s, c);
      && s'.tagLen == s.tagLen + 1 && s'.lang == s.lang
      && (if s.tagLen >= 2000 then s'.st == InWord && s'.wlen == 17 else s'.st == s.st && s'.wlen == s.wlen)
  {
  }
}
