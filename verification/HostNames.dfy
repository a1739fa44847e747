/**
  The host-name side of the URL scanner: the byte-driven state machine that recognises a URL,
  collects its host name in domsBuf, rewrites international labels, trims third-level labels
  and keeps the names as a queue of NUL-terminated strings. The line buffer of the first fuzzy
  checksum, and the positions start, sld and tld inside it, are not part of this model.
  */
module HostNames {
  import opened Bytes
  import opened Utf8
  import opened LabelEncoder
  import opened HostLabels
  import opened WordTables
  import opened Cref
  import opened UrlStates
  import opened HostBuffer

  const HOST_MAX_SAVE := 1 + HOST_MAX
  const DOMS_BUF_SIZE := HOST_MAX_SAVE * 2
  const URL_FAILSAFE := 2000
  const MIN_WORDS := 8  // the dictionary word count from which host names no longer matter

  /** The names are the last of those captured. */
  ghost predicate IsSuffix(names: seq<seq<byte>>, captured: seq<seq<byte>>) {
    |names| <= |captured| && captured[|captured| - |names|..] == names
  }

  ghost predicate GoodName(name: seq<byte>) {
    NulFree(name) && 1 <= |name| <= HOST_MAX
  }

  ghost predicate GoodNames(names: seq<seq<byte>>) {
    forall k :: 0 <= k < |names| ==> GoodName(names[k])
  }

  /** A host name in progress, what its last label would be rewritten to, and the names before it. */
  datatype Progress = Progress(labels: seq<seq<byte>>, current: seq<byte>, rewritten: seq<byte>, flags: Flags,
    punct: nat, end: nat, total: nat, names: seq<seq<byte>>, captured: seq<seq<byte>>, doms: nat)
  {
    function Length(): nat { |Dotted(labels)| + |current| }

    function Label(idn: bool): seq<byte> { if idn then rewritten else current }
  }

  class CkUrl {
    const cref: CkCref
    const domsBuf: array<byte>
    var st: UrlSt
    var flags: Flags
    var urlTotal: nat
    var domStart: nat
    var domEnd: nat
    var dot2: nat
    var dot1: nat
    var labelStart: nat
    var punct: nat
    var doms: nat

    /** The names in domsBuf, and all names captured so far. */
    ghost var names: seq<seq<byte>>
    ghost var captured: seq<seq<byte>>

    /** The host name in progress: its finished labels, and the label being collected. */
    ghost var labels: seq<seq<byte>>
    ghost var current: seq<byte>

    /** The queue of finished names: good names, the last of all that were captured. */
    ghost predicate NamesOk()
      reads this`names, this`captured, this`doms
    {
      GoodNames(names) && IsSuffix(names, captured) && doms == |captured|
    }

    /** The queue stands at the front of the buffer. */
    ghost predicate BufOk()
      reads this`domStart, this`names, domsBuf
    {
      && domsBuf.Length == DOMS_BUF_SIZE
      && domStart == |Packed(names)| <= DOMS_BUF_SIZE
      && domsBuf[..domStart] == Packed(names)
    }

    /** The name in progress stands behind the queue: labels with their dots, then the current label. */
    ghost predicate HostShape()
      reads this, domsBuf
    {
      && domsBuf.Length == DOMS_BUF_SIZE
      && domStart == |Packed(names)| <= DOMS_BUF_SIZE - HOST_MAX_SAVE
      && !flags.tooLong
      && labelStart == domStart + |Dotted(labels)|
      && labelStart + |current| == domEnd <= domStart + HOST_MAX
      && domsBuf[..domEnd] == Packed(names) + Dotted(labels) + current
      && AllPlain(labels) && Plain(current)
      && dot1 == (if labels == [] then 0 else labelStart)
      && dot2 == (if |labels| < 2 then 0 else domStart + |Dotted(labels[..|labels| - 1])|)
    }

    /** After a dot there is at least one byte of the next label. */
    ghost predicate HostOk()
      reads this, domsBuf
    {
      HostShape() && (labels == [] || current != [])
    }

    ghost predicate Valid()
      reads this, domsBuf, cref, cref.w
    {
      && cref.w != domsBuf && cref.Valid()
      && NamesOk() && BufOk()
      && (st.Slash3Start? ==> domStart <= DOMS_BUF_SIZE - HOST_MAX_SAVE)
      && (!st.Idle? && !st.Skipping? ==> !flags.tooLong)
      && (st.Slash3? ==> HostOk() && (punct == 0 || punct == domEnd))
    }

    constructor ()
      ensures Valid() && fresh(domsBuf) && fresh(cref) && fresh(cref.w)
      ensures st == Idle && names == [] && captured == [] && doms == 0
    {
      cref := new CkCref();
      domsBuf := new byte[DOMS_BUF_SIZE](_ => 0);
      st, flags, urlTotal := Idle, NO_FLAGS, 0;
      domStart, domEnd, dot2, dot1, labelStart, punct, doms := 0, 0, 0, 0, 0, 0, 0;
      names, captured, labels, current := [], [], [], [];
    }

    /** The label in progress is replaced by its Punycode form, or everything stays as it is. */
    method Punyencode() returns (ghost code: seq<byte>)
      requires domsBuf.Length == DOMS_BUF_SIZE && labelStart <= domEnd <= DOMS_BUF_SIZE
      requires labelStart < domEnd || labelStart + (LABEL_MAX + 1) <= DOMS_BUF_SIZE
      modifies this`flags, this`domEnd, domsBuf
      ensures flags == old(flags).(idn := false)
      ensures code == Rewritten(old(domsBuf[..]), labelStart, old(domEnd))
      ensures domEnd == labelStart + |code| <= DOMS_BUF_SIZE
      ensures domEnd == old(domEnd) || domEnd <= HOST_MAX
      ensures domsBuf[..domEnd] == old(domsBuf[..labelStart]) + code
      ensures domsBuf[domEnd..] == old(domsBuf[..])[domEnd..]
      ensures Plain(old(domsBuf[..])[labelStart..old(domEnd)]) ==>
        Plain(code) && (code == [] <==> labelStart == old(domEnd))
    {
      hide Rewritten, LabelCode, Plain;
      flags := flags.(idn := false);
      code := Rewritten(domsBuf[..], labelStart, domEnd);
      ghost var s := domsBuf[..];
      RewrittenIs(s, labelStart, domEnd);
      if Plain(s[labelStart..domEnd]) {
        RewrittenIsPlain(s, labelStart, domEnd);
      }
      var ok, puny, punyLen := RewriteLabel(domsBuf[..], labelStart, domEnd);
      if ok && labelStart + punyLen <= HOST_MAX {
        assert code == puny[..punyLen];
        domEnd := labelStart + punyLen;
        Overwrite(domsBuf, labelStart, puny, punyLen);
      } else {
        assert s[..domEnd] == s[..labelStart] + s[labelStart..domEnd];
      }
    }

    /** The label in progress as it will be kept: rewritten when it is marked international. */
    ghost function Finished(): (l: seq<byte>)
      requires HostOk()
      reads this, domsBuf
    {
      if flags.idn then Rewritten(domsBuf[..], labelStart, domEnd) else current
    }

    method ResetDomsBuf()
      modifies this`domEnd, this`labelStart, this`punct, this`dot1, this`dot2, this`urlTotal, this`flags,
          this`labels, this`current
      ensures domEnd == labelStart == domStart && punct == dot1 == dot2 == urlTotal == 0 && labels == [] && current == []
      ensures flags == old(flags).(idn := false, dot := false)
    {
      domEnd := domStart;
      labelStart := domEnd;
      punct, dot1, dot2, urlTotal := 0, 0, 0, 0;
      flags := flags.(idn := false, dot := false);
      labels, current := [], [];
    }

    /** One byte of a host name; a name that is already HOST_MAX long is given up. */
    method UrlHostSave(uc: byte)
      requires domsBuf.Length == DOMS_BUF_SIZE && domStart <= DOMS_BUF_SIZE - HOST_MAX_SAVE
      requires domStart <= domEnd <= domStart + HOST_MAX
      modifies this`domEnd, this`labelStart, this`punct, this`dot1, this`dot2, this`urlTotal, this`flags,
          this`labels, this`current, this`st, domsBuf
      ensures old(domEnd) - domStart >= HOST_MAX ==>
        st.Idle? && flags.tooLong && domEnd == domStart && domsBuf[..] == old(domsBuf[..])
      ensures old(domEnd) - domStart < HOST_MAX ==>
        && flags == old(flags) && st == old(st) && labels == old(labels) && labelStart == old(labelStart)
        && punct == old(punct) && dot1 == old(dot1) && dot2 == old(dot2) && urlTotal == old(urlTotal)
      ensures old(domEnd) - domStart < HOST_MAX && flags.tooLong ==>
        domEnd == old(domEnd) && domsBuf[..] == old(domsBuf[..]) && current == old(current)
      ensures old(domEnd) - domStart < HOST_MAX && !flags.tooLong ==>
        && domEnd == old(domEnd) + 1 && current == old(current) + [uc]
        && domsBuf[..domEnd] == old(domsBuf[..domEnd]) + [uc]
    {
      if domEnd - domStart >= HOST_MAX {
        ResetDomsBuf();
        flags := flags.(tooLong := true);
        st := UrlSt.Idle;
      }
      if flags.tooLong {
        return;
      }
      domsBuf[domEnd] := uc;
      domEnd := domEnd + 1;
      current := current + [uc];
    }

    /** Punyencode in the middle of a host name. */
    method RewriteCurrent()
      requires HostOk()
      modifies this`flags, this`domEnd, this`current, domsBuf
      ensures HostOk()
      ensures flags == old(flags).(idn := false)
      ensures current == Rewritten(old(domsBuf[..]), labelStart, old(domEnd))
      ensures old(domEnd) > domStart ==> domEnd > domStart
    {
      Behind(domsBuf[..], Packed(names) + Dotted(labels), current);
      current := Punyencode();
    }

    /** The pending dot: the label before it is finished, and rewritten when it is marked. */
    method FinishLabel()
      requires HostOk()
      modifies this`flags, this`domEnd, this`current, domsBuf
      ensures HostOk()
      ensures flags == old(flags).(idn := false, dot := false)
      ensures current == old(Finished())
    {
      flags := flags.(dot := false);
      if flags.idn {
        RewriteCurrent();
      }
    }

    /** The dot itself, which starts a new label. */
    method SaveDot()
      requires HostShape()
      modifies this`domEnd, this`labelStart, this`punct, this`dot1, this`dot2, this`urlTotal, this`flags,
          this`labels, this`current, this`st, domsBuf
      ensures st == old(st) || st.Idle?
      ensures !old(st.Idle?) ==> (st.Idle? <==> old(domEnd) - domStart >= HOST_MAX)
      ensures st.Idle? && !old(st.Idle?) ==> flags.tooLong && domEnd == domStart && BufOk()
      ensures !st.Idle? ==> HostShape() && punct == old(punct) && flags == old(flags) && urlTotal == old(urlTotal)
      ensures !st.Idle? ==> labels == old(labels) + [old(current)] && current == []
    {
      hide HostLabels.Packed, HostLabels.Dotted, HostLabels.AllPlain;
      DottedBehind(Packed(names), labels, current);
      ghost var pushed := labels + [current];
      Assoc(Packed(names), Dotted(labels), current);
      Behind(domsBuf[..], Packed(names), Dotted(labels) + current);
      assert domsBuf[..][..domStart] == domsBuf[..domStart];
      UrlHostSave(DOT);
      assert domsBuf[..][..domStart] == domsBuf[..domStart];
      dot2 := dot1;
      dot1 := domEnd;
      labelStart := domEnd;
      if !st.Idle? {
        labels, current := pushed, [];
      }
    }

    /** A plain byte after the bytes of the label in progress. */
    method SavePlain(uc: byte)
      requires HostShape() && IsPlain(uc)
      modifies this`domEnd, this`labelStart, this`punct, this`dot1, this`dot2, this`urlTotal, this`flags,
          this`labels, this`current, this`st, domsBuf
      ensures st == old(st) || st.Idle?
      ensures !old(st.Idle?) ==> (st.Idle? <==> old(domEnd) - domStart >= HOST_MAX)
      ensures st.Idle? && !old(st.Idle?) ==> flags.tooLong && BufOk()
      ensures !st.Idle? ==> HostOk() && punct == old(punct) && flags == old(flags) && urlTotal == old(urlTotal)
      ensures !st.Idle? ==> labels == old(labels) && current == old(current) + [uc]
    {
      ghost var last := current;
      Assoc(Packed(names), Dotted(labels), current);
      Behind(domsBuf[..], Packed(names), Dotted(labels) + current);
      assert domsBuf[..][..domStart] == domsBuf[..domStart];
      UrlHostSave(uc);
      assert domsBuf[..][..domStart] == domsBuf[..domStart];
      assert Packed(names) + Dotted(labels) + (last + [uc]) == Packed(names) + Dotted(labels) + last + [uc];
    }

    /** The pending dot is saved behind the label it ends. */
    method SavePendingDot()
      requires HostOk() && st.Slash3? && flags.dot
      modifies this`domEnd, this`labelStart, this`punct, this`dot1, this`dot2, this`urlTotal, this`flags,
          this`labels, this`current, this`st, domsBuf
      ensures st.Slash3? || (st.Idle? && flags.tooLong && BufOk() && domEnd == domStart)
      ensures st.Slash3? <==> |Dotted(old(labels))| + |old(Finished())| < HOST_MAX
      ensures st.Slash3? ==> HostShape() && punct == old(punct) && urlTotal == old(urlTotal)
      ensures st.Slash3? ==> flags == old(flags).(idn := false, dot := false)
      ensures st.Slash3? ==> labels == old(labels) + [old(Finished())] && current == []
    {
      FinishLabel();
      SaveDot();
    }

    /** A byte of the host name, after the dot that may be pending before it. */
    method SaveHostByte(uc: byte)
      requires HostOk() && st.Slash3? && punct == 0 && IsPlain(uc)
      modifies this`domEnd, this`labelStart, this`punct, this`dot1, this`dot2, this`urlTotal, this`flags,
          this`labels, this`current, this`st, domsBuf
      ensures st.Slash3? || (st.Idle? && flags.tooLong && BufOk())
      ensures st.Slash3? <==>
        (if old(flags.dot) then |Dotted(old(labels))| + |old(Finished())| + 1 else |Dotted(old(labels))| + |old(current)|) < HOST_MAX
      ensures st.Slash3? ==> HostOk() && punct == 0 && urlTotal == old(urlTotal)
      ensures st.Slash3? ==> flags == if old(flags.dot) then old(flags).(idn := false, dot := false) else old(flags)
      ensures st.Slash3? && old(flags.dot) ==> labels == old(labels) + [old(Finished())] && current == [uc]
      ensures st.Slash3? && !old(flags.dot) ==> labels == old(labels) && current == old(current) + [uc]
    {
      if flags.dot {
        SavePendingDot();
        if st.Idle? {
          UrlHostSave(uc);
          assert domsBuf[..][..domStart] == domsBuf[..domStart];
          return;
        }
      }
      SavePlain(uc);
    }

    /** The NUL that ends a name. */
    method CloseName()
      requires HostOk()
      modifies this`domEnd, domsBuf
      ensures domEnd == domStart + |Dotted(labels) + current| + 1 <= DOMS_BUF_SIZE
      ensures domsBuf[..domEnd] == Packed(names) + (Dotted(labels) + current) + [NUL]
    {
      assert Packed(names) + (Dotted(labels) + current) == Packed(names) + Dotted(labels) + current;
      domsBuf[domEnd] := NUL;
      domEnd := domEnd + 1;
    }

    /** The labels before the last two, and their dots, are dropped from a closed name. */
    method TrimName()
      requires domsBuf.Length == DOMS_BUF_SIZE && domStart == |Packed(names)|
      requires |labels| >= 2 && AllPlain(labels) && Plain(current)
      requires dot2 == domStart + |Dotted(labels[..|labels| - 1])|
      requires domEnd == domStart + |Dotted(labels) + current| + 1 <= DOMS_BUF_SIZE
      requires domsBuf[..domEnd] == Packed(names) + (Dotted(labels) + current) + [NUL]
      modifies this`domEnd, domsBuf
      ensures domEnd <= old(domEnd)
      ensures domsBuf[..domEnd] == Packed(names) + Kept(labels, current, true) + [NUL]
    {
      hide HostLabels.Packed, HostLabels.Dotted, HostLabels.Plain;
      KeptIsSuffix(labels, current, true);
      ghost var q, name, closed := Packed(names), Dotted(labels) + current, domsBuf[..domEnd];
      var length := domEnd - dot2;
      assert domsBuf[dot2..dot2 + length] == closed[dot2..] == name[dot2 - domStart..] + [NUL];
      assert domsBuf[..domStart] == closed[..domStart] == q;
      CopyWithin(domsBuf, domStart, dot2, length);
      domEnd := domStart + length;
      assert domsBuf[..domEnd] == domsBuf[..domStart] + domsBuf[domStart..domEnd];
    }

    /** A closed name behind the queue becomes part of it. */
    method Enqueue(ghost name: seq<byte>)
      requires NamesOk() && GoodName(name) && domStart == |Packed(names)|
      requires domsBuf.Length == DOMS_BUF_SIZE && domEnd <= DOMS_BUF_SIZE
      requires domsBuf[..domEnd] == Packed(names) + name + [NUL]
      modifies this`domStart, this`doms, this`names, this`captured
      ensures NamesOk() && BufOk()
      ensures names == old(names) + [name] && captured == old(captured) + [name] && doms == old(doms) + 1
    {
      PackedAppend(names, name);
      domStart := domEnd;
      doms := doms + 1;
      ghost var all := captured + [name];
      assert all[|all| - |names| - 1..] == captured[|captured| - |names|..] + [name];
      names, captured := names + [name], all;
    }

    /** A whole name is closed, trimmed and put in the queue. */
    method KeepName(wordCount: nat)
      requires NamesOk() && HostOk() && domEnd > domStart
      modifies this`domEnd, this`domStart, this`doms, this`names, this`captured, domsBuf
      ensures NamesOk() && BufOk()
      ensures var name := Kept(labels, current, wordCount < MIN_WORDS);
        names == old(names) + [name] && captured == old(captured) + [name] && doms == old(doms) + 1
    {
      KeptIsSuffix(labels, current, wordCount < MIN_WORDS);
      ghost var name := Kept(labels, current, wordCount < MIN_WORDS);
      CloseName();
      if dot2 != 0 {
        if wordCount < MIN_WORDS {
          TrimName();
        }
      }
      Enqueue(name);
    }

    /** The end of a host name: it is rewritten, closed with a NUL, trimmed, and joins the queue. */
    method UrlHostEnd(wordCount: nat)
      requires NamesOk() && BufOk() && HostOk() && (punct == 0 || punct == domEnd)
      modifies this`flags, this`domEnd, this`current, this`domStart, this`doms, this`names, this`captured, domsBuf
      ensures NamesOk() && BufOk() && !flags.tooLong
      ensures old(domEnd) == old(domStart) ==>
        names == old(names) && captured == old(captured) && doms == old(doms) && flags == old(flags)
      ensures old(domEnd) > old(domStart) ==>
        var name := Kept(labels, old(Finished()), wordCount < MIN_WORDS);
        names == old(names) + [name] && captured == old(captured) + [name] && doms == old(doms) + 1
        && flags == old(flags).(idn := false)
    {
      hide HostLabels.Rewritten, HostLabels.Kept, HostLabels.Packed, HostLabels.Dotted, HostLabels.Plain, HostLabels.AllPlain,
        GoodNames, IsSuffix;
      if punct != 0 {
        domEnd := punct;
      }
      if domEnd <= domStart || flags.tooLong {
        return;
      }
      if flags.idn {
        RewriteCurrent();
      }
      KeepName(wordCount);
    }

    /** Whole oldest names are dropped until a longest possible name fits behind the rest. */
    method MakeRoom()
      requires NamesOk() && BufOk()
      modifies this`domStart, this`names, domsBuf
      ensures NamesOk() && BufOk() && domStart <= DOMS_BUF_SIZE - HOST_MAX_SAVE
      ensures IsSuffix(names, old(names))
      ensures old(domStart) <= DOMS_BUF_SIZE - HOST_MAX_SAVE ==> names == old(names)
    {
      while domStart > DOMS_BUF_SIZE - HOST_MAX_SAVE
        invariant NamesOk() && BufOk()
        invariant IsSuffix(names, old(names))
        invariant old(domStart) <= DOMS_BUF_SIZE - HOST_MAX_SAVE ==> names == old(names)
        decreases domStart
      {
        DropOldest();
      }
    }

    /** The first name and its NUL are removed from the front of the buffer. */
    method DropOldest()
      requires NamesOk() && BufOk() && domStart > 0
      modifies this`domStart, this`names, domsBuf
      ensures NamesOk() && BufOk() && domStart < old(domStart)
      ensures old(names) != [] && names == old(names)[1..]
    {
      assert names == [names[0]] + names[1..] && GoodName(names[0]);
      hide Packed, GoodNames, NulFree, Concat, Searched, HostLabels.Rewritten, HostLabels.Kept, HostLabels.Dotted, HostShape;
      FirstNul(names[0], names[1..]);
      ghost var front := domsBuf[..domStart];
      var p := IndexByteFrom(domsBuf, NUL, domStart);
      FirstIs(domsBuf[..], front, NUL, |names[0]|, p);
      assert p == |names[0]|;  // the source's panic "bad url.domsBuf" is never reached
      p := p + 1;
      assert domsBuf[p..domStart] == front[p..];
      domStart := domStart - p;
      CopyWithin(domsBuf, 0, p, domStart);
      ghost var rest := names[1..];
      assert captured[|captured| - |rest|..] == captured[|captured| - |names|..][1..];
      names := rest;
    }

    /** The label in progress, rewritten or not. */
    ghost function Ended(rewrite: bool): seq<byte>
      requires HostOk()
      reads this, domsBuf
    {
      if rewrite then Rewritten(domsBuf[..], labelStart, domEnd) else current
    }

    ghost function InProgress(total: nat): Progress
      requires HostOk()
      reads this, domsBuf
    {
      Progress(labels, current, Ended(true), flags, punct, domEnd, total, names, captured, doms)
    }

    ghost predicate SameNames(p: Progress)
      reads this
    {
      names == p.names && captured == p.captured && doms == p.doms
    }

    ghost predicate SameHost(p: Progress)
      reads this
    {
      labels == p.labels && current == p.current && urlTotal == p.total + 1
    }

    /** The byte takes its place in the name, after the dot that may be pending, if there is room for it. */
    ghost predicate Placed(p: Progress, fl: Flags, uc: byte)
      reads this
    {
      var l := p.Label(fl.idn);
      if (if fl.dot then |Dotted(p.labels)| + |l| + 1 else p.Length()) >= HOST_MAX then st.Idle?
      else
        && st.Slash3? && punct == 0 && urlTotal == p.total + 1
        && (if fl.dot then
              labels == p.labels + [l] && current == [uc] && flags == fl.(idn := false, dot := false)
            else
              labels == p.labels && current == p.current + [uc] && flags == fl)
    }

    /** The name in progress, unless it is empty, joins the names. */
    ghost predicate NameTaken(p: Progress, wordCount: nat)
      reads this
    {
      if p.Length() == 0 then SameNames(p)
      else
        var name := Kept(p.labels, p.Label(p.flags.idn), wordCount < MIN_WORDS);
        names == p.names + [name] && captured == p.captured + [name] && doms == p.doms + 1
    }

    /** What a byte does to a host name in progress. */
    ghost predicate After(p: Progress, uc: byte, wordCount: nat)
      reads this
    {
      if p.total >= URL_FAILSAFE then st.Idle? && SameNames(p)
      else if IsHostByte(uc) then
        SameNames(p)
        && if p.punct != 0 then st.Slash3? && SameHost(p) && flags == p.flags && punct == p.punct else Placed(p, p.flags, uc)
      else AfterPunctuation(p, uc, wordCount)
    }

    ghost predicate AfterPunctuation(p: Progress, uc: byte, wordCount: nat)
      requires !IsHostByte(uc)
      reads this
    {
      match Classify(p.flags, p.punct, uc)
      case Ending(rest) =>
        st == (if rest then Skipping else UrlSt.Idle) && NameTaken(p, wordCount)
        && urlTotal == p.total + 1 && flags == if p.Length() == 0 then p.flags else p.flags.(idn := false)
      case UserName =>
        st.Slash3Start? && flags == p.flags.(username := true) && SameNames(p)
      case Dotting =>
        st.Slash3? && SameHost(p) && SameNames(p) && flags == p.flags.(dot := true) && punct == if p.flags.dot then p.end else p.punct
      case Cutting =>
        SameNames(p)
        && if p.punct != 0 || p.end != 0 then
             st.Slash3? && SameHost(p) && flags == p.flags && punct == if p.punct != 0 then p.punct else p.end
           else Placed(p, p.flags, uc)
      case Marking =>
        SameNames(p) && Placed(p, p.flags.(idn := true), uc)
    }

    /** The host name ends and the scanner moves on. */
    method EndHost(next: UrlSt, wordCount: nat, ghost total: nat)
      requires Valid() && st.Slash3? && (next.Idle? || next.Skipping?)
      modifies this, domsBuf
      ensures Valid() && st == next && NameTaken(old(InProgress(total)), wordCount)
      ensures urlTotal == old(urlTotal)
      ensures flags == if old(InProgress(total)).Length() == 0 then old(flags) else old(flags).(idn := false)
    {
      hide HostLabels.Rewritten, HostLabels.Packed, HostLabels.Plain, HostLabels.AllPlain, HostLabels.Kept, HostLabels.Dotted,
        GoodNames, IsSuffix, Cref.ValidCref;
      UrlHostEnd(wordCount);
      st := next;
    }

    /** A byte other than a host byte: it ends the name, changes the flags or cuts the name off. */
    method PunctByte(uc: byte, wordCount: nat) returns (done: bool)
      requires Valid() && st.Slash3? && !IsHostByte(uc) && urlTotal > 0
      modifies this, domsBuf
      ensures Valid()
      ensures var act := Classify(old(flags), old(punct), uc);
        && (done <==> !act.Cutting? && !act.Marking?)
        && (done ==> AfterPunctuation(old(InProgress(urlTotal - 1)), uc, wordCount))
        && (!done ==> st.Slash3? && flags == if act.Marking? then old(flags).(idn := true) else old(flags))
        && (!done ==> punct == if act.Cutting? && old(punct) == 0 then domEnd else old(punct))
      ensures !done ==>
        && labels == old(labels) && current == old(current) && labelStart == old(labelStart) && domEnd == old(domEnd)
        && domsBuf[..] == old(domsBuf[..]) && urlTotal == old(urlTotal)
        && names == old(names) && captured == old(captured) && doms == old(doms)
    {
      hide HostLabels.Rewritten, HostLabels.Kept, HostLabels.Dotted, HostLabels.Packed, HostLabels.Plain, HostLabels.AllPlain,
        GoodNames, IsSuffix, Cref.ValidCref, Classify, NameTaken, NamesOk, BufOk;
      done := true;
      match Classify(flags, punct, uc) {
        case Dotting =>
          if flags.dot {
            punct := domEnd;
          } else {
            flags := flags.(dot := true);
          }
        case Ending(rest) =>
          EndHost(if rest then Skipping else UrlSt.Idle, wordCount, urlTotal - 1);
        case UserName =>
          flags := flags.(username := true);
          st := Slash3Start;
        case Cutting =>
          if punct == 0 {
            punct := domEnd;
          }
          done := false;
        case Marking =>
          flags := flags.(idn := true);
          done := false;
      }
    }

    /** A byte that takes its place in the host name. */
    method KeepByte(uc: byte)
      requires Valid() && st.Slash3? && punct == 0 && IsPlain(uc) && urlTotal > 0
      modifies this, domsBuf
      ensures Valid() && names == old(names) && captured == old(captured) && doms == old(doms)
      ensures urlTotal == old(urlTotal) || st.Idle?
      ensures Placed(old(InProgress(urlTotal - 1)), old(flags), uc)
    {
      hide HostLabels.Rewritten, HostLabels.Dotted, HostLabels.Packed, HostLabels.Plain, HostLabels.AllPlain,
        GoodNames, IsSuffix, Cref.ValidCref;
      SaveHostByte(uc);
    }

    /** One byte while a host name is being collected. */
    method HostByte(uc: byte, wordCount: nat)
      requires Valid() && st.Slash3?
      modifies this, domsBuf
      ensures Valid() && After(old(InProgress(urlTotal)), uc, wordCount)
    {
      hide HostLabels.Rewritten, HostLabels.Kept, HostLabels.Dotted, HostLabels.Packed, HostLabels.Plain, HostLabels.AllPlain,
        GoodNames, IsSuffix, Cref.ValidCref, NameTaken, NamesOk, BufOk;
      urlTotal := urlTotal + 1;
      if urlTotal > URL_FAILSAFE {
        st := UrlSt.Idle;
        return;
      }
      if !IsHostByte(uc) {
        var done := PunctByte(uc, wordCount);
        if done {
          return;
        }
      }
      if punct == 0 {
        KeepByte(uc);
      }
    }

    /** The second slash: the queue makes room, or is emptied once names no longer matter. */
    method StartUrl(wordCount: nat)
      requires NamesOk() && BufOk()
      modifies this`domStart, this`names, domsBuf
      ensures NamesOk() && BufOk() && domStart <= DOMS_BUF_SIZE - HOST_MAX_SAVE
      ensures if wordCount >= MIN_WORDS then names == [] else IsSuffix(names, old(names))
    {
      if wordCount >= MIN_WORDS {
        domStart := 0;
        names := [];
      } else {
        MakeRoom();
      }
    }

    method StartHost()
      requires Valid() && st.Slash3Start?
      modifies this
      ensures Valid() && st.Slash3? && labels == [] && current == [] && urlTotal == 0 && punct == 0
      ensures domEnd == domStart == old(domStart) && flags == old(flags).(idn := false, dot := false)
      ensures names == old(names) && captured == old(captured) && doms == old(doms)
    {
      ResetDomsBuf();
      st := Slash3;
    }

    /** Does this byte end the rest of a URL? */
    predicate EndsUrl(fl: Flags, uc: byte) {
      (uc == DQUOTE && !fl.sQuoted) || (uc == SQUOTE && !fl.dQuoted) || (uc == GT && !fl.Quoted())
      || IsWS(uc) || (uc == 0xA0 && !fl.idn)
    }

    /** What one byte of text does, after character references are resolved. */
    twostate predicate Scanned(uc: byte, wordCount: nat, res: UrlRes)
      requires old(Valid())
      reads this, domsBuf, cref, cref.w
    {
      && (res == Skip <==> old(st).Skipping?)
      && (res == CkSpace <==> BeforeHost(old(st)) && st.Slash3Start?)
      && (BeforeHost(old(st)) ==> (st, flags) == PrefixStep(old(st), old(flags), uc))
      && (BeforeHost(old(st)) || old(st).Skipping? ==> captured == old(captured) && doms == old(doms))
      && (res == CkSpace ==> if wordCount >= MIN_WORDS then names == [] else IsSuffix(names, old(names)))
      && ((BeforeHost(old(st)) && res != CkSpace) || old(st).Skipping? ==> names == old(names))
      && (old(st).Slash3Start? ==> After(old(Starting()), uc, wordCount))
      && (old(st).Slash3? ==> After(old(InProgress(urlTotal)), uc, wordCount))
      && (old(st).Skipping? ==>
            && flags == old(flags) && urlTotal == old(urlTotal) + 1
            && st == if EndsUrl(flags, uc) || urlTotal > URL_FAILSAFE then UrlSt.Idle else Skipping)
    }

    ghost function Starting(): Progress
      reads this
    {
      Progress([], [], [], flags.(idn := false, dot := false), 0, domStart, 0, names, captured, doms)
    }

    /** The first byte of a host name. */
    method FirstByte(uc: byte, wordCount: nat)
      requires Valid() && st.Slash3Start?
      modifies this, domsBuf
      ensures Valid() && After(old(Starting()), uc, wordCount)
    {
      hide HostLabels.Rewritten, HostLabels.Kept, HostLabels.Packed, HostLabels.Plain, HostLabels.AllPlain,
        GoodNames, IsSuffix, Cref.ValidCref, Classify;
      ghost var start := Starting();
      StartHost();
      ghost var p := InProgress(urlTotal);
      HostByte(uc, wordCount);
      NoRewriteYet(p, start.rewritten, uc, wordCount);
    }

    /** At the start of a host name there is nothing to rewrite. */
    lemma NoRewriteYet(p: Progress, rewritten: seq<byte>, uc: byte, wordCount: nat)
      requires !p.flags.idn && !p.flags.dot && After(p, uc, wordCount)
      ensures After(p.(rewritten := rewritten), uc, wordCount)
    {
      hide HostLabels.Kept, HostLabels.Dotted;
    }

    method Scan(uc: byte, wordCount: nat) returns (res: UrlRes)
      requires Valid()
      modifies this, domsBuf
      ensures Valid() && Scanned(uc, wordCount, res)
    {
      hide HostLabels.Rewritten, HostLabels.Kept, HostLabels.Dotted, HostLabels.Plain, HostLabels.AllPlain,
        GoodNames, IsSuffix, Cref.ValidCref, Classify, After;
      res := Fwd;
      if st.Slash2? && uc == SLASH {
        StartUrl(wordCount);
        st := Slash3Start;
        res := CkSpace;
      } else if BeforeHost(st) {
        var next := PrefixStep(st, flags, uc);
        st, flags := next.0, next.1;
      } else if st.Skipping? {
        urlTotal := urlTotal + 1;
        if EndsUrl(flags, uc) || urlTotal > URL_FAILSAFE {
          st := UrlSt.Idle;
        }
        res := Skip;
      } else if st.Slash3Start? {
        FirstByte(uc, wordCount);
      } else {
        HostByte(uc, wordCount);
      }
    }

    /** The scanner as it was before the byte. */
    twostate predicate Untouched()
      reads this, domsBuf
    {
      && st == old(st) && flags == old(flags) && urlTotal == old(urlTotal) && domStart == old(domStart)
      && domEnd == old(domEnd) && dot1 == old(dot1) && dot2 == old(dot2) && labelStart == old(labelStart)
      && punct == old(punct) && doms == old(doms) && domsBuf[..] == old(domsBuf[..])
      && names == old(names) && captured == old(captured) && labels == old(labels) && current == old(current)
    }

    /**
      One input byte. It may begin, continue or complete a character reference: then the byte it
      stands for is scanned, and the input byte itself may be left to be read again.
      */
    method Step(uc: byte, wordCount: nat, tbl: Table) returns (res: UrlRes, back: nat)
      requires Valid() && WellFormedTable(tbl, 1)
      modifies this, domsBuf, cref, cref.w
      ensures Valid()
      ensures uc != AMP && old(cref.st) == CrefIdle ==>
        back == 0 && Scanned(uc, wordCount, res) && cref.View() == old(cref.View())
      ensures uc == AMP || old(cref.st) != CrefIdle ==>
        var (s', i) := CrefStep(old(cref.View()), uc, tbl);
        && cref.View() == s'
        && (if i < 0 then back == 0 && res == Fwd && Untouched() else back == i && Scanned(s'.result, wordCount, res))
    {
      hide HostLabels.Rewritten, HostLabels.Kept, HostLabels.Dotted, HostLabels.Packed, HostLabels.Plain, HostLabels.AllPlain,
        GoodNames, IsSuffix, Classify, After, CrefStep, ValidCref;
      back := 0;
      var c := uc;
      if uc == AMP || cref.st != CrefIdle {
        var i := cref.Step(uc, tbl);
        if i < 0 {
          return Fwd, 0;
        }
        back := i;
        c := cref.result;
      }
      res := Scan(c, wordCount);
    }

    /** The line scanner may give up on a URL at any time: the names already captured stay. */
    method Abandon()
      requires Valid()
      modifies this`st
      ensures Valid() && st.Idle? && names == old(names) && captured == old(captured)
    {
      st := UrlSt.Idle;
    }
  }
}
