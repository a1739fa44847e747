/**
  The states of the URL scanner: the recogniser in front of a host name, and which bytes belong
  to a host name, mark it, cut it off or end it.
  */
module UrlStates {
  import opened Bytes

  datatype UrlSt =
    Idle | Quote | QH | T1 | T2 | P | S | Colon | Slash1 | Slash2 | Slash3Start | Slash3 | Skipping

  datatype Flags = Flags(tooLong: bool, sQuoted: bool, dQuoted: bool, idn: bool, dot: bool, username: bool) {
    predicate Quoted() { sQuoted || dQuoted }
  }

  const NO_FLAGS := Flags(false, false, false, false, false, false)

  /** What becomes of the byte: passed on, passed on after making room, or swallowed. */
  datatype UrlRes = Fwd | CkSpace | Skip

  predicate IsHostByte(c: byte) { IsLower(c) || IsDigit(c) || c == DASH || c == UNDERSCORE }

  /** ; ? & = $ + ! * ( ) and comma, which end a host name unless a user name came before it. */
  predicate IsSeparator(c: byte) {
    c == SEMI || c == 0x3F || c == AMP || c == EQ || c == 0x24 || c == 0x2B || c == BANG || c == 0x2A
    || c == 0x28 || c == 0x29 || c == 0x2C
  }

  /** What a byte other than a host byte does to a host name; an ending may leave URL bytes to skip. */
  datatype Punctuation = Dotting | Ending(rest: bool) | UserName | Cutting | Marking

  function Classify(flags: Flags, punct: nat, uc: byte): Punctuation {
    if uc == DOT && punct == 0 then Dotting
    else if uc == SLASH || uc == BACKSLASH then Ending(true)
    else if uc == DQUOTE then Ending(flags.sQuoted)
    else if uc == SQUOTE then Ending(flags.dQuoted)
    else if uc == LT || uc == GT || uc <= SP || (uc == 0xA0 && !flags.idn) then Ending(flags.Quoted())
    else if uc == AT && !flags.username then UserName
    else if uc == COLON || (IsSeparator(uc) && !flags.username) then Cutting
    else if uc >= 0xC0 && punct == 0 then Marking
    else Ending(flags.Quoted())
  }

  predicate EndsHost(flags: Flags, punct: nat, uc: byte) {
    !IsHostByte(uc) && Classify(flags, punct, uc).Ending?
  }

  /** No byte up to the space and no slash, quote or angle bracket ever becomes part of a host name. */
  lemma AlwaysEnds(flags: Flags, punct: nat, uc: byte)
    requires uc <= SP || uc == SLASH || uc == BACKSLASH || uc == DQUOTE || uc == SQUOTE || uc == LT || uc == GT
    ensures EndsHost(flags, punct, uc)
  {
  }

  predicate BeforeHost(st: UrlSt) {
    !st.Slash3Start? && !st.Slash3? && !st.Skipping?
  }

  /** The recogniser of http:// and https://, bare or after an equals sign and a quote. */
  function PrefixStep(st: UrlSt, flags: Flags, uc: byte): (UrlSt, Flags)
    requires BeforeHost(st)
  {
    var h, t, p, s := 0x68, 0x74, 0x70, 0x73;
    match st
    case Idle => if uc == h then (T1, NO_FLAGS) else if uc == EQ then (Quote, NO_FLAGS) else (UrlSt.Idle, flags)
    case Quote =>
      if uc == h then (T1, flags)
      else if uc == DQUOTE then (QH, flags.(dQuoted := true))
      else if uc == SQUOTE then (QH, NO_FLAGS.(sQuoted := true))
      else (UrlSt.Idle, flags)
    case QH => (if uc == h then T1 else UrlSt.Idle, flags)
    case T1 => (if uc == t then T2 else UrlSt.Idle, flags)
    case T2 => (if uc == t then P else UrlSt.Idle, flags)
    case P => (if uc == p then S else UrlSt.Idle, flags)
    case S => (if uc == s then Colon else if uc == COLON then Slash1 else UrlSt.Idle, flags)
    case Colon => (if uc == COLON then Slash1 else UrlSt.Idle, flags)
    case Slash1 => (if uc == SLASH then Slash2 else UrlSt.Idle, flags)
    case Slash2 => (if uc == SLASH then Slash3Start else UrlSt.Idle, flags)
  }

  /** The recogniser over a run of bytes, up to and including the second slash. */
  function PrefixRun(st: UrlSt, flags: Flags, bs: seq<byte>): (UrlSt, Flags)
    requires BeforeHost(st)
    decreases |bs|
  {
    if bs == [] then (st, flags)
    else
      var (st', flags') := PrefixStep(st, flags, bs[0]);
      if BeforeHost(st') then PrefixRun(st', flags', bs[1..]) else (st', flags')
  }

  const HTTP: seq<byte> := [0x68, 0x74, 0x74, 0x70]  // "http"
  const SLASHES: seq<byte> := [COLON, SLASH, SLASH]

  lemma Onward(st: UrlSt, flags: Flags, c: byte, rest: seq<byte>)
    requires BeforeHost(st)
    ensures var (st', flags') := PrefixStep(st, flags, c);
      PrefixRun(st, flags, [c] + rest) == if BeforeHost(st') then PrefixRun(st', flags', rest) else (st', flags')
  {
    assert ([c] + rest)[1..] == rest;
  }

  function Http(secure: bool): (bs: seq<byte>)
    ensures bs == (if secure then HTTPS_URL else HTTP_URL)
  {
    HTTP + (if secure then [0x73] else []) + SLASHES
  }

  const HTTP_URL: seq<byte> := [0x68, 0x74, 0x74, 0x70, COLON, SLASH, SLASH]
  const HTTPS_URL: seq<byte> := [0x68, 0x74, 0x74, 0x70, 0x73, COLON, SLASH, SLASH]

  /** The states from which an h begins a URL. */
  predicate Free(st: UrlSt) { st.Idle? || st.Quote? || st.QH? }

  lemma HttpFrom(st: UrlSt, flags: Flags, secure: bool)
    requires Free(st)
    ensures PrefixRun(st, flags, Http(secure)) == (Slash3Start, if st.Idle? then NO_FLAGS else flags)
  {
    hide PrefixRun;
    var flags' := if st.Idle? then NO_FLAGS else flags;
    var tail := (if secure then [0x73] else []) + SLASHES;
    assert Http(secure) == [0x68] + ([0x74] + ([0x74] + ([0x70] + tail)));
    Onward(st, flags, 0x68, [0x74] + ([0x74] + ([0x70] + tail)));
    Onward(T1, flags', 0x74, [0x74] + ([0x70] + tail));
    Onward(T2, flags', 0x74, [0x70] + tail);
    Onward(P, flags', 0x70, tail);
    if secure {
      Onward(S, flags', 0x73, SLASHES);
    } else {
      assert tail == SLASHES;
    }
    assert SLASHES == [COLON] + ([SLASH] + ([SLASH] + []));
    Onward(if secure then Colon else S, flags', COLON, [SLASH] + ([SLASH] + []));
    Onward(Slash1, flags', SLASH, [SLASH] + []);
    Onward(Slash2, flags', SLASH, []);
  }

  /** Bytes none of which is h or an equals sign leave an idle scanner idle. */
  lemma {:induction false} StaysIdle(flags: Flags, bs: seq<byte>)
    requires forall k :: 0 <= k < |bs| ==> bs[k] != 0x68 && bs[k] != EQ
    ensures PrefixRun(UrlSt.Idle, flags, bs) == (UrlSt.Idle, flags)
    decreases |bs|
  {
    if bs != [] {
      StaysIdle(flags, bs[1..]);
    }
  }

  /** http:// or https:// is recognised from exactly the states in which no other one has begun. */
  lemma HttpIsFound(st: UrlSt, flags: Flags, secure: bool)
    requires BeforeHost(st)
    ensures PrefixRun(st, flags, Http(secure)).0 == Slash3Start <==> Free(st)
    ensures Free(st) ==> PrefixRun(st, flags, Http(secure)).1 == if st.Idle? then NO_FLAGS else flags
  {
    hide PrefixRun;
    if Free(st) {
      HttpFrom(st, flags, secure);
    } else {
      var rest := Http(secure)[1..];
      assert Http(secure) == [0x68] + rest;
      Onward(st, flags, 0x68, rest);
      StaysIdle(flags, rest);
    }
  }

  // ---- Which text hides a URL -----------------------------------------------------------

  /** A beginning of http:// or https://, neither empty nor the whole of it. */
  predicate Opening(o: seq<byte>) {
    0 < |o| && ((|o| < |HTTP_URL| && o <= HTTP_URL) || (|o| < |HTTPS_URL| && o <= HTTPS_URL))
  }

  /**
    Text that ends in such a beginning, behind text that does not itself hide one: the scanner
    is in the middle of a URL and does not back up.
    */
  predicate Hides(bs: seq<byte>)
    decreases |bs|
  {
    exists k :: 0 <= k < |bs| && Opening(bs[k..]) && !Hides(bs[..k])
  }

  /** The state that has read a beginning. */
  function Reading(o: seq<byte>): UrlSt
    requires Opening(o)
  {
    match |o|
    case 1 => T1
    case 2 => T2
    case 3 => P
    case 4 => S
    case 5 => if o[4] == COLON then Slash1 else Colon
    case 6 => if o[4] == COLON then Slash2 else Slash1
    case _ => Slash2
  }

  lemma LongerPrefix(o: seq<byte>, c: byte, full: seq<byte>)
    requires |o| < |full|
    ensures o + [c] <= full <==> o <= full && c == full[|o|]
  {
    if o <= full && c == full[|o|] {
      assert forall i :: 0 <= i < |o| ==> (o + [c])[i] == full[i];
    }
    if o + [c] <= full {
      assert forall i :: 0 <= i < |o| ==> o[i] == (o + [c])[i] == full[i];
    }
  }

  /** Another byte behind a beginning: a longer one, a whole one, or none. */
  lemma ReadingOn(o: seq<byte>, flags: Flags, c: byte)
    requires Opening(o)
    ensures BeforeHost(Reading(o)) && !Free(Reading(o))
    ensures var st := PrefixStep(Reading(o), flags, c).0;
      if Opening(o + [c]) then st == Reading(o + [c]) else st == Slash3Start || st == UrlSt.Idle
  {
    LongerPrefix(o, c, HTTPS_URL);
    if |o| < |HTTP_URL| {
      LongerPrefix(o, c, HTTP_URL);
    }
  }

  /** In the middle of one the scanner is not idle. */
  lemma ReadingIsBusy(o: seq<byte>)
    requires Opening(o)
    ensures !Reading(o).Idle? && BeforeHost(Reading(o))
  {
  }

  /** The first byte of http:// or https:// from a state in which it is found. */
  lemma SchemeStarts(st: UrlSt, flags: Flags, secure: bool)
    requires Free(st)
    ensures Opening(Http(secure)[..1]) && PrefixStep(st, flags, Http(secure)[0]).0 == Reading(Http(secure)[..1])
    ensures PrefixStep(st, flags, Http(secure)[0]).1 == if st.Idle? then NO_FLAGS else flags
  {
    assert Http(secure)[..1] == [0x68] == HTTP_URL[..1];
  }

  /** The next byte of it: the state has read one byte more, or all. */
  lemma SchemeGoesOn(st: UrlSt, flags: Flags, secure: bool, i: nat)
    requires i < |Http(secure)|
    requires if i == 0 then Free(st) else Opening(Http(secure)[..i]) && st == Reading(Http(secure)[..i])
    ensures BeforeHost(st)
    ensures var st' := PrefixStep(st, flags, Http(secure)[i]).0;
      if i + 1 == |Http(secure)| then st' == Slash3Start
      else Opening(Http(secure)[..i + 1]) && st' == Reading(Http(secure)[..i + 1]) && BeforeHost(st')
    ensures PrefixStep(st, flags, Http(secure)[i]).1 == if st.Idle? then NO_FLAGS else flags
  {
    var bs := Http(secure);
    if i == 0 {
      SchemeStarts(st, flags, secure);
    } else {
      assert bs[..i + 1] == bs[..i] + [bs[i]];
      ReadingOn(bs[..i], flags, bs[i]);
    }
  }

  /** Only an h begins one, and what is in front of a beginning's last byte is one too. */
  lemma OpeningFront(o: seq<byte>)
    requires Opening(o)
    ensures o[0] == 0x68 && forall i :: 0 < i < |o| ==> Opening(o[..i])
  {
    forall i | 0 < i < |o| ensures Opening(o[..i]) {
      if o <= HTTP_URL {
        assert o[..i] <= HTTP_URL;
      } else {
        assert o[..i] <= HTTPS_URL;
      }
    }
  }

  /** A text hides a URL in one way only. */
  lemma HidesOnce(bs: seq<byte>, i: nat, k: nat)
    requires i < |bs| && k < |bs| && Opening(bs[i..]) && Opening(bs[k..]) && !Hides(bs[..i]) && !Hides(bs[..k])
    ensures i == k
  {
    if i < k {
      HidesInFront(bs, i, k);
    } else if k < i {
      HidesInFront(bs, k, i);
    }
  }

  lemma HidesInFront(bs: seq<byte>, i: nat, k: nat)
    requires i < k < |bs| && Opening(bs[i..]) && !Hides(bs[..i])
    ensures Hides(bs[..k])
  {
    OpeningFront(bs[i..]);
    assert bs[..k][i..] == bs[i..][..k - i] && bs[..k][..i] == bs[..i];
  }

  /** The recogniser byte by byte from the end. */
  lemma {:induction false} RunSnoc(st: UrlSt, flags: Flags, a: seq<byte>, c: byte)
    requires BeforeHost(st)
    ensures var (st', flags') := PrefixRun(st, flags, a);
      PrefixRun(st, flags, a + [c]) == if BeforeHost(st') then PrefixStep(st', flags', c) else (st', flags')
    decreases |a|
  {
    hide PrefixStep;
    if a == [] {
      assert [] + [c] == [c] && [c][1..] == [];
    } else {
      assert (a + [c])[1..] == a[1..] + [c];
      var (st1, flags1) := PrefixStep(st, flags, a[0]);
      if BeforeHost(st1) {
        RunSnoc(st1, flags1, a[1..], c);
      }
    }
  }

  /** What the state says of the text read so far. */
  ghost predicate Tells(st: UrlSt, bs: seq<byte>) {
    if Free(st) then !Hides(bs)
    else exists k :: 0 <= k < |bs| && Opening(bs[k..]) && !Hides(bs[..k]) && st == Reading(bs[k..])
  }

  lemma {:induction false} StateTells(flags: Flags, bs: seq<byte>)
    requires BeforeHost(PrefixRun(UrlSt.Idle, flags, bs).0)
    ensures Tells(PrefixRun(UrlSt.Idle, flags, bs).0, bs)
    decreases |bs|
  {
    hide PrefixRun, PrefixStep, Tells;
    if bs == [] {
      NothingTells(flags);
    } else {
      var a, c := bs[..|bs| - 1], bs[|bs| - 1];
      assert bs == a + [c];
      RunSnoc(UrlSt.Idle, flags, a, c);
      StateTells(flags, a);
      var (st, flags') := PrefixRun(UrlSt.Idle, flags, a);
      ByteTells(st, flags', a, c);
    }
  }

  lemma NothingTells(flags: Flags)
    ensures PrefixRun(UrlSt.Idle, flags, []).0 == UrlSt.Idle && Tells(UrlSt.Idle, [])
  {
  }

  lemma ByteTells(st: UrlSt, flags: Flags, a: seq<byte>, c: byte)
    requires BeforeHost(st) && Tells(st, a) && BeforeHost(PrefixStep(st, flags, c).0)
    ensures Tells(PrefixStep(st, flags, c).0, a + [c])
  {
    hide Hides, Opening, Reading;
    if Free(st) {
      if c == 0x68 {
        Begins(a);
      } else {
        FreeStays(a, c);
      }
    } else {
      var k :| 0 <= k < |a| && Opening(a[k..]) && !Hides(a[..k]) && st == Reading(a[k..]);
      ReadingOn(a[k..], flags, c);
      assert (a + [c])[k..] == a[k..] + [c] && (a + [c])[..k] == a[..k];
      if Opening(a[k..] + [c]) {
        ThisTells(a + [c], k);
      } else {
        BreaksOff(a, c, k);
      }
    }
  }

  lemma ThisTells(bs: seq<byte>, k: nat)
    requires k < |bs| && Opening(bs[k..]) && !Hides(bs[..k])
    ensures Tells(Reading(bs[k..]), bs)
  {
    hide Hides;
    assert !Free(Reading(bs[k..]));
  }

  lemma Begins(a: seq<byte>)
    requires !Hides(a)
    ensures Tells(T1, a + [0x68])
  {
    var bs: seq<byte> := a + [0x68];
    assert bs[|a|..] == [0x68] && bs[..|a|] == a;
    assert [0x68] <= HTTP_URL;
  }

  lemma FreeStays(a: seq<byte>, c: byte)
    requires !Hides(a) && c != 0x68
    ensures !Hides(a + [c])
  {
    var bs := a + [c];
    forall k | 0 <= k < |bs| && Opening(bs[k..]) ensures Hides(bs[..k]) {
      OpeningFront(bs[k..]);
      assert bs[..|a|] == a && k < |a|;
      if !Hides(bs[..k]) {
        HidesInFront(bs, k, |a|);
      }
    }
  }

  lemma BreaksOff(a: seq<byte>, c: byte, i: nat)
    requires i < |a| && Opening(a[i..]) && !Hides(a[..i]) && !Opening(a[i..] + [c])
    ensures !Hides(a + [c])
  {
    hide Opening;
    var bs := a + [c];
    forall k | 0 <= k < |bs| && Opening(bs[k..]) ensures Hides(bs[..k]) {
      assert bs[..|a|] == a;
      if k == |a| {
        ThisHides(a, i);
      } else if !Hides(bs[..k]) {
        OpeningFront(bs[k..]);
        assert a[k..] == bs[k..][..|a| - k] && a[..k] == bs[..k];
        assert bs[k..] == a[k..] + [c];
        HidesOnce(a, i, k);
      }
    }
  }

  lemma {:induction false} RunSplits(st: UrlSt, flags: Flags, a: seq<byte>, b: seq<byte>)
    requires BeforeHost(st) && BeforeHost(PrefixRun(st, flags, a).0)
    ensures PrefixRun(st, flags, a + b) == PrefixRun(PrefixRun(st, flags, a).0, PrefixRun(st, flags, a).1, b)
    decreases |a|
  {
    hide PrefixStep;
    if a == [] {
      assert [] + b == b;
    } else {
      assert (a + b)[1..] == a[1..] + b;
      var (st1, flags1) := PrefixStep(st, flags, a[0]);
      RunSplits(st1, flags1, a[1..], b);
    }
  }

  /** Behind text without a URL, the next http:// or https:// is found exactly when the text does not hide it. */
  lemma UrlBehindText(flags: Flags, text: seq<byte>, secure: bool)
    requires BeforeHost(PrefixRun(UrlSt.Idle, flags, text).0)
    ensures PrefixRun(UrlSt.Idle, flags, text + Http(secure)).0 == Slash3Start <==> !Hides(text)
  {
    hide PrefixRun, Hides, Opening, Reading;
    var (st, flags') := PrefixRun(UrlSt.Idle, flags, text);
    StateTells(flags, text);
    RunSplits(UrlSt.Idle, flags, text, Http(secure));
    HttpIsFound(st, flags', secure);
    if !Free(st) {
      var k :| 0 <= k < |text| && Opening(text[k..]) && !Hides(text[..k]) && st == Reading(text[k..]);
      ThisHides(text, k);
    }
  }

  lemma ThisHides(text: seq<byte>, k: nat)
    requires k < |text| && Opening(text[k..]) && !Hides(text[..k])
    ensures Hides(text)
  {
  }
}
