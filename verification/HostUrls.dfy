/**
  Whole URLs through the scanner: in quotes or bare, with or without a user name, with what may
  stand behind the host name, and which byte ends it. All bytes are given by their values.
  */
module HostUrls {
  import opened Bytes
  import opened HostLabels
  import opened UrlStates
  import opened HostNames

  // ---- Bytes ----------------------------------------------------------------------------

  /** a to z, 0 to 9, dash and underscore. */
  predicate HostValue(c: byte) {
    0x61 <= c <= 0x7A || 0x30 <= c <= 0x39 || c == 0x2D || c == 0x5F
  }

  /** ; ? & = $ + ! * ( ) and comma. */
  predicate SeparatorValue(c: byte) {
    || c == 0x3B || c == 0x3F || c == 0x26 || c == 0x3D || c == 0x24 || c == 0x2B
    || c == 0x21 || c == 0x2A || c == 0x28 || c == 0x29 || c == 0x2C
  }

  /** A label of host bytes and bytes from 0xC0 on, which only the first label may begin with. */
  predicate HostText(l: seq<byte>, first: bool) {
    l != [] && (forall k :: 0 <= k < |l| ==> HostValue(l[k]) || l[k] >= 0xC0) && (first || HostValue(l[0]))
  }

  /** A colon cuts a host name off, and a separator does unless a user name stood before it. */
  predicate CutsOff(username: bool, c: byte) {
    c == 0x3A || (SeparatorValue(c) && !username)
  }

  /** Behind the cut: host bytes and more bytes that cut off, but no dot. */
  predicate BehindCut(username: bool, bs: seq<byte>) {
    forall k :: 0 <= k < |bs| ==> HostValue(bs[k]) || CutsOff(username, bs[k])
  }

  /** A byte that ends a host name; with a user name an at sign and the separators do, behind a cut a dot does. */
  predicate Ends(username: bool, cut: bool, c: byte) {
    && !HostValue(c) && c != 0x3A
    && (c == 0x2E ==> cut)
    && (c == 0x40 || SeparatorValue(c) ==> username)
    && (c >= 0xC0 ==> cut)
  }

  /** The rest of a URL is skipped behind a slash, and behind any other end while a quote is still open. */
  predicate GoesOn(sQuoted: bool, dQuoted: bool, c: byte) {
    || c == 0x2F || c == 0x5C
    || (c == 0x22 && sQuoted) || (c == 0x27 && dQuoted)
    || (c != 0x22 && c != 0x27 && (sQuoted || dQuoted))
  }

  /** What a byte does to a host name, in byte values. */
  lemma ByteMeans(fl: Flags, punct: nat, c: byte)
    ensures IsHostByte(c) <==> HostValue(c)
    ensures !HostValue(c) ==>
      && (CutsOff(fl.username, c) ==> Classify(fl, punct, c) == Cutting)
      && (c == 0x2E && punct == 0 ==> Classify(fl, punct, c) == Dotting)
      && (c >= 0xC0 && punct == 0 ==> Classify(fl, punct, c) == Marking)
      && (c == 0x40 && !fl.username ==> Classify(fl, punct, c) == UserName)
      && (Ends(fl.username, punct != 0, c) ==> Classify(fl, punct, c) == Ending(GoesOn(fl.sQuoted, fl.dQuoted, c)))
  {
  }

  lemma NoLabels()
    ensures Dotted([]) == []
  {
  }

  /** The first labels of a name are not longer than the name. */
  lemma {:induction false} DottedPart(ls: seq<seq<byte>>, i: nat)
    requires i < |ls|
    ensures |Dotted(ls[..i])| + |ls[i]| + 1 == |Dotted(ls[..i + 1])| <= |Dotted(ls)|
    decreases |ls|
  {
    assert ls[..i + 1][..i] == ls[..i];
    if i + 1 < |ls| {
      DottedPart(ls[..|ls| - 1], i);
      assert ls[..|ls| - 1][..i] == ls[..i] && ls[..|ls| - 1][..i + 1] == ls[..i + 1];
    } else {
      assert ls[..i + 1] == ls;
    }
  }

  // ---- Pieces of a URL ------------------------------------------------------------------

  /** In a host name that nothing has cut off, with these flags when it began. */
  ghost predicate Collecting(u: CkUrl, fl: Flags, ls: seq<seq<byte>>, cur: seq<byte>, dot: bool, total: nat)
    reads u, u.domsBuf, u.cref, u.cref.w
  {
    && u.Valid() && u.st.Slash3? && u.punct == 0 && u.flags == fl.(idn := HasWide(cur), dot := dot) && TrailFree(cur)
    && u.labels == ls && u.current == cur && u.urlTotal == total
  }

  /** Behind the byte that cut it off. */
  ghost predicate Beyond(u: CkUrl, fl: Flags, ls: seq<seq<byte>>, cur: seq<byte>, total: nat)
    reads u, u.domsBuf, u.cref, u.cref.w
  {
    && u.Valid() && u.st.Slash3? && u.punct != 0 && u.flags == fl.(idn := HasWide(cur), dot := false) && TrailFree(cur)
    && u.labels == ls && u.current == cur && u.urlTotal == total
  }

  /** Behind the slashes or the at sign. */
  ghost predicate Beginning(u: CkUrl, fl: Flags)
    reads u, u.domsBuf, u.cref, u.cref.w
  {
    u.Valid() && u.st.Slash3Start? && u.flags.(idn := false, dot := false) == fl.(idn := false, dot := false)
  }

  lemma AllThere(u: CkUrl)
    requires u.Valid() && u.st.Slash3?
    ensures u.HostOk()
  {
  }

  /** The label being collected is never rewritten: a multi-byte character does not come this far. */
  lemma NeverRewritten(u: CkUrl)
    requires u.Valid() && u.st.Slash3? && TrailFree(u.current) && HasWide(u.current)
    ensures u.HostOk() && u.Ended(true) == u.current
  {
    hide Rewritten, HostLabels.Packed, HostLabels.Dotted, HostLabels.Plain, HostLabels.AllPlain, HasWide, TrailFree;
    assert u.domsBuf[..u.domEnd] == Packed(u.names) + Dotted(u.labels) + u.current;
    assert u.domsBuf[..][u.labelStart..u.domEnd] == u.domsBuf[..u.domEnd][u.labelStart..] == u.current;
    WideThere(u.current);
    WideIsNotRewritten(u.domsBuf[..], u.labelStart, u.domEnd);
  }

  lemma WideThere(l: seq<byte>)
    requires HasWide(l)
    ensures l != []
  {
  }

  lemma WideSnoc(l: seq<byte>, c: byte)
    ensures HasWide(l + [c]) <==> HasWide(l) || c >= 0xC0
    ensures TrailFree(l) && !(0x80 <= c < 0xC0) ==> TrailFree(l + [c])
  {
    if HasWide(l) {
      var k :| 0 <= k < |l| && l[k] >= 0xC0;
      assert (l + [c])[k] >= 0xC0;
    }
    assert (l + [c])[|l|] == c;
  }

  lemma EmptyIsNarrow()
    ensures !HasWide([]) && TrailFree([])
  {
  }

  /** What the label being collected would be rewritten to: only an ASCII label is, and only when it fits. */
  lemma RewrittenWhen(u: CkUrl)
    requires u.Valid() && u.st.Slash3? && TrailFree(u.current) && u.current != []
    ensures u.HostOk()
    ensures u.Ended(true)
      == if !HasWide(u.current) && |u.current| <= 58 && u.labelStart + |u.current| + 5 <= 256
         then [0x78, 0x6E, 0x2D, 0x2D] + u.current + [0x2D] else u.current
  {
    hide Rewritten, HostLabels.Packed, HostLabels.Dotted, HostLabels.Plain, HostLabels.AllPlain, HasWide, TrailFree;
    if HasWide(u.current) {
      NeverRewritten(u);
    } else {
      assert u.domsBuf[..u.domEnd] == Packed(u.names) + Dotted(u.labels) + u.current;
      assert u.domsBuf[..][u.labelStart..u.domEnd] == u.domsBuf[..u.domEnd][u.labelStart..] == u.current;
      NarrowIsAscii(u.current);
      assert forall k :: u.labelStart <= k < u.domEnd ==>
        u.domsBuf[..][k] == u.domsBuf[..][u.labelStart..u.domEnd][k - u.labelStart];
      AsciiIsRewritten(u.domsBuf[..], u.labelStart, u.domEnd);
    }
  }

  lemma NarrowIsAscii(l: seq<byte>)
    requires TrailFree(l) && !HasWide(l)
    ensures forall k :: 0 <= k < |l| ==> l[k] < 0x80
  {
  }

  /** http:// or https:// byte by byte, from a state in which it is found. */
  method ScanScheme(u: CkUrl, secure: bool, wordCount: nat)
    requires u.Valid() && Free(u.st)
    modifies u, u.domsBuf
    ensures Beginning(u, if old(u.st).Idle? then NO_FLAGS else old(u.flags)) && u.captured == old(u.captured)
  {
    hide CkUrl.Valid, CkUrl.After, Http, Opening, Reading, PrefixStep, IsSuffix;
    var bs := Http(secure);
    SchemeStarts(u.st, u.flags, secure);
    for i := 0 to |bs|
      invariant u.Valid() && u.captured == old(u.captured)
      invariant i == 0 ==> u.st == old(u.st) && u.flags == old(u.flags)
      invariant 0 < i < |bs| ==> Opening(bs[..i]) && u.st == Reading(bs[..i]) && BeforeHost(u.st) && !u.st.Idle?
      invariant i > 0 ==> u.flags == if old(u.st).Idle? then NO_FLAGS else old(u.flags)
      invariant i == |bs| > 0 ==> u.st.Slash3Start?
    {
      SchemeGoesOn(u.st, u.flags, secure, i);
      var res := u.Scan(bs[i], wordCount);
      if i + 1 < |bs| {
        ReadingIsBusy(bs[..i + 1]);
      }
    }
  }

  /** The first byte of a label, behind the slashes or a dot. */
  method ScanFirst(u: CkUrl, c: byte, ghost fl: Flags, ghost ls: seq<seq<byte>>, ghost total: nat, wordCount: nat)
    requires (HostValue(c) || (ls == [] && c >= 0xC0)) && |Dotted(ls)| < HOST_MAX && total < URL_FAILSAFE
    requires if ls == [] then Beginning(u, fl) && total == 0 else Collecting(u, fl, ls[..|ls| - 1], ls[|ls| - 1], true, total)
    modifies u, u.domsBuf
    ensures Collecting(u, fl, ls, [c], false, total + 1) && u.captured == old(u.captured)
  {
    hide CkUrl.Valid, HostLabels.Dotted, HostLabels.Rewritten, IsHostByte, HostValue, Classify, HasWide, TrailFree;
    NoLabels();
    FirstMeans(u.flags, c);
    if ls != [] {
      DottedPush(ls[..|ls| - 1], ls[|ls| - 1]);
      assert ls[..|ls| - 1] + [ls[|ls| - 1]] == ls;
      AllThere(u);
      if u.flags.idn {
        NeverRewritten(u);
      }
    }
    var res := u.Scan(c, wordCount);
    assert [] + [c] == [c];
    EmptyIsNarrow();
    WideSnoc([], c);
  }

  lemma FirstMeans(fl: Flags, c: byte)
    requires HostValue(c) || c >= 0xC0
    ensures IsHostByte(c) <==> HostValue(c)
    ensures !HostValue(c) ==> forall f: Flags :: Classify(f, 0, c) == Marking
    ensures HostValue(c) <==> c < 0xC0
    ensures !(0x80 <= c < 0xC0)
  {
  }

  method ScanNext(u: CkUrl, c: byte, ghost fl: Flags, ghost ls: seq<seq<byte>>, ghost cur: seq<byte>, ghost total: nat,
      wordCount: nat)
    requires Collecting(u, fl, ls, cur, false, total) && (HostValue(c) || c >= 0xC0) && |Dotted(ls)| + |cur| < HOST_MAX && total < URL_FAILSAFE
    modifies u, u.domsBuf
    ensures Collecting(u, fl, ls, cur + [c], false, total + 1) && u.captured == old(u.captured)
  {
    hide CkUrl.Valid, HostLabels.Dotted, HostLabels.Rewritten, IsHostByte, HostValue, Classify, HasWide, TrailFree;
    FirstMeans(u.flags, c);
    AllThere(u);
    WideSnoc(cur, c);
    var res := u.Scan(c, wordCount);
  }

  /** A byte from 0xC0 on behind a dot: it is the label in front of the dot that is rewritten, if it is ASCII and fits. */
  method ScanWide(u: CkUrl, c: byte, ghost fl: Flags, ghost ls: seq<seq<byte>>, ghost cur: seq<byte>, ghost total: nat,
      wordCount: nat) returns (ghost kept: seq<byte>)
    requires Collecting(u, fl, ls, cur, true, total) && cur != [] && c >= 0xC0 && total < URL_FAILSAFE
    modifies u, u.domsBuf
    ensures kept == if !HasWide(cur) && |cur| <= 58 && old(u.labelStart) + |cur| + 5 <= 256
                    then [0x78, 0x6E, 0x2D, 0x2D] + cur + [0x2D] else cur
    ensures u.Valid() && u.captured == old(u.captured)
    ensures if |Dotted(ls)| + |kept| + 1 >= 256 then u.st.Idle?
            else u.st.Slash3? && u.labels == ls + [kept] && u.current == [c] && !u.flags.idn
  {
    hide CkUrl.Valid, HostLabels.Dotted, HostLabels.Rewritten, IsHostByte, HostValue, Classify, HasWide, TrailFree;
    FirstMeans(u.flags, c);
    AllThere(u);
    RewrittenWhen(u);
    kept := u.Ended(true);
    var res := u.Scan(c, wordCount);
  }

  /** Bytes of one label, the first of which may stand behind a dot. */
  method ScanLabel(u: CkUrl, l: seq<byte>, ghost fl: Flags, ghost ls: seq<seq<byte>>, ghost total: nat, wordCount: nat)
    requires HostText(l, ls == []) && |Dotted(ls)| + |l| <= HOST_MAX && total + |l| <= URL_FAILSAFE
    requires if ls == [] then Beginning(u, fl) && total == 0 else Collecting(u, fl, ls[..|ls| - 1], ls[|ls| - 1], true, total)
    modifies u, u.domsBuf
    ensures Collecting(u, fl, ls, l, false, total + |l|) && u.captured == old(u.captured)
  {
    hide Collecting, Beginning, HostValue, HostLabels.Dotted;
    ScanFirst(u, l[0], fl, ls, total, wordCount);
    assert l[..1] == [l[0]];
    for i := 1 to |l|
      invariant Collecting(u, fl, ls, l[..i], false, total + i) && u.captured == old(u.captured)
    {
      ScanNext(u, l[i], fl, ls, l[..i], total + i, wordCount);
      assert l[..i + 1] == l[..i] + [l[i]];
    }
    assert l[..|l|] == l;
  }

  /** The dot between two labels. */
  method ScanDot(u: CkUrl, ghost fl: Flags, ghost ls: seq<seq<byte>>, ghost l: seq<byte>, ghost total: nat, wordCount: nat)
    requires Collecting(u, fl, ls, l, false, total) && total < URL_FAILSAFE
    modifies u, u.domsBuf
    ensures Collecting(u, fl, ls, l, true, total + 1) && u.captured == old(u.captured)
  {
    hide CkUrl.Valid, HostLabels.Dotted, HostLabels.Kept, HostLabels.Rewritten, Classify, HasWide, TrailFree;
    ByteMeans(u.flags, 0, 0x2E);
    AllThere(u);
    var res := u.Scan(0x2E, wordCount);
  }

  /** All labels of a host name, with dots between them. */
  method ScanLabels(u: CkUrl, ghost fl: Flags, ls: seq<seq<byte>>, last: seq<byte>, wordCount: nat)
    requires Beginning(u, fl) && HostText(last, ls == []) && (forall k :: 0 <= k < |ls| ==> HostText(ls[k], k == 0))
    requires |Dotted(ls) + last| <= HOST_MAX
    modifies u, u.domsBuf
    ensures Collecting(u, fl, ls, last, false, |Dotted(ls)| + |last|) && u.captured == old(u.captured)
  {
    hide CkUrl.Valid, HostLabels.Dotted, HostText, Collecting, Beginning;
    NoLabels();
    for i := 0 to |ls|
      invariant i == 0 ==> Beginning(u, fl)
      invariant i > 0 ==> Collecting(u, fl, ls[..i][..i - 1], ls[..i][i - 1], true, |Dotted(ls[..i])|)
      invariant u.captured == old(u.captured)
    {
      DottedPart(ls, i);
      ScanLabel(u, ls[i], fl, ls[..i], |Dotted(ls[..i])|, wordCount);
      ScanDot(u, fl, ls[..i], ls[i], |Dotted(ls[..i])| + |ls[i]|, wordCount);
      assert ls[..i + 1][..i] == ls[..i];
    }
    assert ls[..|ls|] == ls;
    ScanLabel(u, last, fl, ls, |Dotted(ls)|, wordCount);
  }

  /** The byte that cuts a name off. */
  method ScanCut(u: CkUrl, c: byte, ghost fl: Flags, ghost ls: seq<seq<byte>>, ghost l: seq<byte>, ghost total: nat,
      wordCount: nat)
    requires Collecting(u, fl, ls, l, false, total) && l != [] && CutsOff(fl.username, c) && total < URL_FAILSAFE
    modifies u, u.domsBuf
    ensures Beyond(u, fl, ls, l, total + 1) && u.captured == old(u.captured)
  {
    hide CkUrl.Valid, HostLabels.Dotted, HostLabels.Kept, HostLabels.Rewritten, Classify, IsHostByte, HasWide, TrailFree;
    ByteMeans(u.flags, 0, c);
    AllThere(u);
    var res := u.Scan(c, wordCount);
  }

  /** A byte behind the cut. */
  method ScanBeyond(u: CkUrl, c: byte, ghost fl: Flags, ghost ls: seq<seq<byte>>, ghost l: seq<byte>, ghost total: nat,
      wordCount: nat)
    requires Beyond(u, fl, ls, l, total) && (HostValue(c) || CutsOff(fl.username, c)) && total < URL_FAILSAFE
    modifies u, u.domsBuf
    ensures Beyond(u, fl, ls, l, total + 1) && u.captured == old(u.captured)
  {
    hide CkUrl.Valid, HostLabels.Dotted, HostLabels.Kept, HostLabels.Rewritten, Classify, IsHostByte, HasWide, TrailFree;
    ByteMeans(u.flags, u.punct, c);
    AllThere(u);
    var res := u.Scan(c, wordCount);
  }

  /** A name cut off, or as it stands. */
  ghost predicate Standing(u: CkUrl, fl: Flags, ls: seq<seq<byte>>, l: seq<byte>, cut: bool, total: nat)
    reads u, u.domsBuf, u.cref, u.cref.w
  {
    if cut then Beyond(u, fl, ls, l, total) else Collecting(u, fl, ls, l, false, total)
  }

  /** What stands behind a name before it ends: nothing, or a byte that cuts it off and more bytes. */
  method ScanTail(u: CkUrl, tail: seq<byte>, ghost fl: Flags, ghost ls: seq<seq<byte>>, ghost l: seq<byte>, ghost total: nat,
      wordCount: nat)
    requires Collecting(u, fl, ls, l, false, total) && l != [] && total + |tail| <= URL_FAILSAFE
    requires tail != [] ==> CutsOff(fl.username, tail[0]) && BehindCut(fl.username, tail)
    modifies u, u.domsBuf
    ensures Standing(u, fl, ls, l, tail != [], total + |tail|) && u.captured == old(u.captured)
  {
    hide Collecting, Beyond, HostValue, CutsOff;
    if tail != [] {
      ScanCut(u, tail[0], fl, ls, l, total, wordCount);
      for i := 1 to |tail|
        invariant Beyond(u, fl, ls, l, total + i) && u.captured == old(u.captured)
      {
        ScanBeyond(u, tail[i], fl, ls, l, total + i, wordCount);
      }
    }
  }

  /** The at sign behind a user name. */
  method ScanAt(u: CkUrl, ghost fl: Flags, ghost ls: seq<seq<byte>>, ghost l: seq<byte>, ghost cut: bool, ghost total: nat,
      wordCount: nat)
    requires Standing(u, fl, ls, l, cut, total) && !fl.username && total < URL_FAILSAFE
    modifies u, u.domsBuf
    ensures Beginning(u, fl.(username := true)) && u.captured == old(u.captured)
  {
    hide CkUrl.Valid, HostLabels.Dotted, HostLabels.Kept, HostLabels.Rewritten, Classify, IsHostByte, HasWide, TrailFree;
    ByteMeans(u.flags, u.punct, 0x40);
    AllThere(u);
    var res := u.Scan(0x40, wordCount);
  }

  /** The byte that ends a host name: exactly this name is captured. */
  method ScanEnd(u: CkUrl, c: byte, ghost fl: Flags, ghost ls: seq<seq<byte>>, ghost l: seq<byte>, ghost cut: bool,
      ghost total: nat, wordCount: nat)
    requires Standing(u, fl, ls, l, cut, total) && l != [] && Ends(fl.username, cut, c) && total < URL_FAILSAFE
    modifies u, u.domsBuf
    ensures u.Valid() && u.captured == old(u.captured) + [Kept(ls, l, wordCount < 8)]
    ensures u.st == if GoesOn(fl.sQuoted, fl.dQuoted, c) then Skipping else UrlSt.Idle
    ensures u.flags == fl.(idn := false, dot := false) && u.urlTotal == total + 1
  {
    hide CkUrl.Valid, HostLabels.Dotted, HostLabels.Kept, HostLabels.Rewritten, Classify, IsHostByte, HostValue, Ends, GoesOn, HasWide, TrailFree;
    ByteMeans(u.flags, u.punct, c);
    EndsNoHost(fl.username, cut, c);
    AllThere(u);
    if u.flags.idn {
      NeverRewritten(u);
    }
    var res := u.Scan(c, wordCount);
  }

  lemma EndsNoHost(username: bool, cut: bool, c: byte)
    requires Ends(username, cut, c)
    ensures !HostValue(c)
  {
  }

  // ---- The rest of a URL ----------------------------------------------------------------

  /** A blank ends the rest of a URL, and so does a quote or '>' unless it stands inside other quotes. */
  predicate EndsRest(sQuoted: bool, dQuoted: bool, c: byte) {
    || c == 0x20 || c == 0x09 || c == 0x0A || c == 0x0D || c == 0xA0
    || (c == 0x22 && !sQuoted) || (c == 0x27 && !dQuoted) || (c == 0x3E && !sQuoted && !dQuoted)
  }

  /** The bytes of the rest are passed over, up to one that ends it. */
  method ScanRest(u: CkUrl, path: seq<byte>, c: byte, ghost fl: Flags, ghost total: nat, wordCount: nat)
    requires u.Valid() && u.st.Skipping? && u.flags == fl.(idn := false, dot := false) && u.urlTotal == total
    requires total + |path| < URL_FAILSAFE && EndsRest(fl.sQuoted, fl.dQuoted, c)
    requires forall k :: 0 <= k < |path| ==> !EndsRest(fl.sQuoted, fl.dQuoted, path[k])
    modifies u, u.domsBuf
    ensures u.Valid() && u.st.Idle? && u.captured == old(u.captured)
  {
    hide CkUrl.Valid, HostLabels.Dotted;
    for i := 0 to |path|
      invariant u.Valid() && u.st.Skipping? && u.flags == fl.(idn := false, dot := false) && u.urlTotal == total + i
      invariant u.captured == old(u.captured)
    {
      var res := u.Scan(path[i], wordCount);
    }
    var res := u.Scan(c, wordCount);
  }

  // ---- Whole URLs -----------------------------------------------------------------------

  /** What may stand in front of a URL: nothing, an equals sign, or an equals sign and a quote. */
  datatype Quotation = Bare | Unquoted | Single | Double

  function QuoteFlags(q: Quotation): Flags {
    NO_FLAGS.(sQuoted := q.Single?, dQuoted := q.Double?)
  }

  method ScanQuote(u: CkUrl, q: Quotation, wordCount: nat)
    requires u.Valid() && u.st.Idle?
    modifies u, u.domsBuf
    ensures u.Valid() && Free(u.st) && u.captured == old(u.captured)
    ensures (if u.st.Idle? then NO_FLAGS else u.flags) == QuoteFlags(q)
  {
    hide CkUrl.Valid, HostLabels.Dotted;
    if !q.Bare? {
      var res := u.Scan(0x3D, wordCount);
      if q.Single? {
        res := u.Scan(0x27, wordCount);
      } else if q.Double? {
        res := u.Scan(0x22, wordCount);
      }
    }
  }

  /** A host or user name: labels, and what stands behind them. */
  datatype Name = Name(labels: seq<seq<byte>>, last: seq<byte>, tail: seq<byte>) {
    function Size(): nat { |Dotted(labels)| + |last| + |tail| }

    predicate Good(username: bool) {
      && HostText(last, labels == []) && (forall k :: 0 <= k < |labels| ==> HostText(labels[k], k == 0)) && |Dotted(labels) + last| <= 256
      && (tail != [] ==> CutsOff(username, tail[0]) && BehindCut(username, tail)) && Size() < 2000
    }
  }

  method ScanName(u: CkUrl, n: Name, ghost fl: Flags, wordCount: nat)
    requires Beginning(u, fl) && n.Good(fl.username)
    modifies u, u.domsBuf
    ensures Standing(u, fl, n.labels, n.last, n.tail != [], n.Size())
    ensures u.captured == old(u.captured)
  {
    hide Collecting, Beginning, HostValue, CutsOff, BehindCut, HostLabels.Dotted;
    ScanLabels(u, fl, n.labels, n.last, wordCount);
    ScanTail(u, n.tail, fl, n.labels, n.last, |Dotted(n.labels)| + |n.last|, wordCount);
  }

  /**
    End to end: a quote or none, http:// or https://, a user name or none, a host name with
    whatever cuts it off, and the byte that ends it. Exactly the labels of the host are captured,
    the last two of them while host names matter, and the rest is skipped when the byte asks for it.
    */
  method ScanUrl(u: CkUrl, q: Quotation, secure: bool, user: Option<Name>, host: Name, end: byte, wordCount: nat)
    requires u.Valid() && u.st.Idle? && (user.Some? ==> user.value.Good(false))
    requires host.Good(user.Some?) && Ends(user.Some?, host.tail != [], end)
    modifies u, u.domsBuf
    ensures u.Valid() && u.captured == old(u.captured) + [Kept(host.labels, host.last, wordCount < 8)]
    ensures u.st == if GoesOn(q.Single?, q.Double?, end) then Skipping else UrlSt.Idle
    ensures u.flags == QuoteFlags(q).(username := user.Some?) && u.urlTotal == host.Size() + 1
  {
    hide CkUrl.Valid, HostLabels.Dotted, HostLabels.Kept, Beginning, Standing, Ends, GoesOn, CutsOff, BehindCut, HostValue;
    ScanQuote(u, q, wordCount);
    ScanScheme(u, secure, wordCount);
    ghost var fl := QuoteFlags(q);
    match user {
      case None =>
      case Some(n) =>
        ScanName(u, n, fl, wordCount);
        ScanAt(u, fl, n.labels, n.last, n.tail != [], n.Size(), wordCount);
        fl := fl.(username := true);
    }
    ScanName(u, host, fl, wordCount);
    ScanEnd(u, end, fl, host.labels, host.last, host.tail != [], host.Size(), wordCount);
  }

  /** And a URL with a path, up to the byte that ends it: the scanner is idle again, with the one name captured. */
  method ScanUrlAndRest(u: CkUrl, q: Quotation, secure: bool, user: Option<Name>, host: Name, path: seq<byte>, end: byte,
      wordCount: nat)
    requires u.Valid() && u.st.Idle? && (user.Some? ==> user.value.Good(false)) && host.Good(user.Some?)
    requires host.Size() + |path| < 1999 && EndsRest(q.Single?, q.Double?, end)
    requires forall k :: 0 <= k < |path| ==> !EndsRest(q.Single?, q.Double?, path[k])
    modifies u, u.domsBuf
    ensures u.Valid() && u.st.Idle? && u.captured == old(u.captured) + [Kept(host.labels, host.last, wordCount < 8)]
  {
    hide CkUrl.Valid, HostLabels.Dotted, HostLabels.Kept, EndsRest, CutsOff, BehindCut, HostText;
    ScanUrl(u, q, secure, user, host, 0x2F, wordCount);
    ScanRest(u, path, end, QuoteFlags(q).(username := user.Some?), u.urlTotal, wordCount);
  }

  /** The limits in numbers: of a name, a URL, the buffer, a label, and the words that make names irrelevant. */
  lemma Limits()
    ensures HOST_MAX == 256 && URL_FAILSAFE == 2000 && DOMS_BUF_SIZE == 514 && MIN_WORDS == 8
  {
  }

  /** Of "a.b.c" the last two labels are kept while names matter, and all of them when there are no more. */
  lemma KeptInBytes(a: seq<byte>, b: seq<byte>, c: seq<byte>)
    ensures Kept([a, b], c, true) == b + [0x2E] + c && Kept([a, b], c, false) == a + [0x2E] + b + [0x2E] + c
    ensures Kept([a], c, true) == a + [0x2E] + c && Kept([], c, true) == c
  {
    assert [a, b][..1] == [a] && [a][..0] == [];
    assert Dotted([]) == [] && Dotted([a]) == [] + a + [0x2E];
    assert [] + a == a && [] + c == c;
  }

  // ---- Dots at the end ------------------------------------------------------------------

  /** A dot behind the last label is dropped, and a second dot cuts the name off: the labels alone are captured. */
  method ScanDots(u: CkUrl, two: bool, c: byte, ghost fl: Flags, ghost ls: seq<seq<byte>>, ghost l: seq<byte>, ghost total: nat,
      wordCount: nat)
    requires Collecting(u, fl, ls, l, false, total) && l != [] && Ends(fl.username, two, c) && total + 2 < URL_FAILSAFE
    modifies u, u.domsBuf
    ensures u.Valid() && u.captured == old(u.captured) + [Kept(ls, l, wordCount < 8)]
    ensures u.st == if GoesOn(fl.sQuoted, fl.dQuoted, c) then Skipping else UrlSt.Idle
  {
    hide CkUrl.Valid, HostLabels.Dotted, HostLabels.Kept, HostLabels.Rewritten, Classify, IsHostByte, HostValue, Ends, GoesOn,
      HasWide, TrailFree;
    DotIsNoHost();
    ScanDot(u, fl, ls, l, total, wordCount);
    if two {
      ByteMeans(u.flags, 0, 0x2E);
      AllThere(u);
      var r := u.Scan(0x2E, wordCount);
    }
    ByteMeans(u.flags, u.punct, c);
    EndsNoHost(fl.username, two, c);
    AllThere(u);
    if u.flags.idn {
      NeverRewritten(u);
    }
    var res := u.Scan(c, wordCount);
  }

  lemma DotIsNoHost()
    ensures !HostValue(0x2E)
  {
  }
}
