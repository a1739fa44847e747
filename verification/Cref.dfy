/** The HTML character-reference decoder, one byte at a time with at most one byte pushed back. */
module Cref {
  import opened Bytes
  import opened WordTables

  datatype CrefSt = CrefIdle | CrefStart | CrefNum | CrefDec | CrefHex | CrefName

  /** The decoder's fields as a value. */
  datatype CrefState = CrefState(st: CrefSt, w: Word, length: nat, result: byte)

  ghost predicate ValidCref(s: CrefState) {
    && s.length <= WORD_LEN
    && (s.st.CrefName? ==> 1 <= s.length && s.w == Padded(s.w[..s.length]))
  }

  function Saturate(n: nat): byte {
    if n > 255 then 255 else n
  }

  predicate IsLetter(c: byte) { IsLower(c) || IsUpper(c) }

  predicate IsHexLetter(c: byte) { 0x61 <= c <= 0x66 || 0x41 <= c <= 0x46 }

  /** -1 asks for more input; 0 and 1 deliver result, having used the byte or not. */
  function Deliver(uc: byte): int {
    if uc != SEMI then 1 else 0
  }

  /** One byte through the decoder: the state after it and the verdict. */
  function CrefStep(s: CrefState, uc: byte, tbl: Table): (r: (CrefState, int))
    requires WellFormedTable(tbl, 1)
    ensures r.1 >= 0 ==> r.0.st == CrefIdle && s.st != CrefIdle
    ensures -1 <= r.1 <= 1
  {
    match s.st
    case CrefIdle => (s.(st := CrefStart), -1)
    case CrefStart =>
      if uc == HASH then (s.(st := CrefNum), -1)
      else if IsLetter(uc) then (CrefState(CrefName, Padded([uc]), 1, s.result), -1)
      else (s.(st := CrefIdle), -1)
    case CrefNum =>
      if uc == 0x78 || uc == 0x58 then (s.(result := 0, st := CrefHex), -1)
      else if IsDigit(uc) then (s.(result := uc - 0x30, st := CrefDec), -1)
      else (s.(result := HASH, st := CrefIdle), 1)
    case CrefDec =>
      if IsDigit(uc) then (s.(result := Saturate(s.result * 10 + (uc - 0x30))), -1)
      else (s.(st := CrefIdle), Deliver(uc))
    case CrefHex =>
      if IsHexLetter(uc) then (s.(result := Saturate(s.result * 16 + uc % 16 + 9)), -1)
      else if IsDigit(uc) then (s.(result := Saturate(s.result * 16 + (uc - 0x30))), -1)
      else (s.(st := CrefIdle), Deliver(uc))
    case CrefName =>
      if IsLetter(uc) || IsDigit(uc) then
        (if s.length < WORD_LEN then s.(w := s.w[s.length := uc], length := s.length + 1) else s, -1)
      else (s.(result := CrefValue(s.w, s.length, tbl), st := CrefIdle), Deliver(uc))
  }

  lemma StepKeepsValid(s: CrefState, uc: byte, tbl: Table)
    requires WellFormedTable(tbl, 1) && ValidCref(s)
    ensures ValidCref(CrefStep(s, uc, tbl).0)
  {
    var r := CrefStep(s, uc, tbl).0;
    if s.st.CrefName? && r.st.CrefName? && s.length < WORD_LEN {
      assert r.w[..r.length] == s.w[..s.length] + [uc];
    }
  }

  class CkCref {
    var st: CrefSt
    const w: array<byte>
    var length: nat
    var result: byte

    ghost predicate Valid()
      reads this, w
    {
      w.Length == WORD_LEN && ValidCref(View())
    }

    ghost function View(): CrefState
      requires w.Length == WORD_LEN
      reads this, w
    {
      CrefState(st, w[..], length, result)
    }

    constructor ()
      ensures fresh(w) && Valid() && View() == CrefState(CrefIdle, Padded([]), 0, 0)
    {
      st, length, result := CrefIdle, 0, 0;
      w := new byte[WORD_LEN](_ => 0);
      new;
      assert w[..] == Padded([]);
    }

    method Step(uc: byte, tbl: Table) returns (i: int)
      requires Valid() && WellFormedTable(tbl, 1)
      modifies this, w
      ensures Valid()
      ensures (View(), i) == CrefStep(old(View()), uc, tbl)
    {
      ghost var before := View();
      StepKeepsValid(before, uc, tbl);
      match st {
        case CrefIdle =>
          st := CrefStart;
          i := -1;
        case CrefStart =>
          if uc == HASH {
            st := CrefNum;
          } else if IsLetter(uc) {
            for k := 0 to WORD_LEN
              invariant forall j :: 0 <= j < k ==> w[j] == 0
              invariant st == before.st && length == before.length && result == before.result
            {
              w[k] := 0;
            }
            w[0] := uc;
            length := 1;
            st := CrefName;
            assert w[..] == Padded([uc]);
          } else {
            st := CrefIdle;
          }
          i := -1;
        case CrefNum =>
          if uc == 0x78 || uc == 0x58 {
            result := 0;
            st := CrefHex;
            i := -1;
          } else if IsDigit(uc) {
            result := uc - 0x30;
            st := CrefDec;
            i := -1;
          } else {
            result := HASH;
            st := CrefIdle;
            i := 1;
          }
        case CrefDec =>
          if IsDigit(uc) {
            result := Saturate(result as int * 10 + (uc - 0x30));
            i := -1;
          } else {
            st := CrefIdle;
            i := Deliver(uc);
          }
        case CrefHex =>
          if IsHexLetter(uc) {
            result := Saturate(result as int * 16 + uc % 16 + 9);
            i := -1;
          } else if IsDigit(uc) {
            result := Saturate(result as int * 16 + (uc - 0x30));
            i := -1;
          } else {
            st := CrefIdle;
            i := Deliver(uc);
          }
        case CrefName =>
          if IsLetter(uc) || IsDigit(uc) {
            if length < WORD_LEN {
              w[length] := uc;
              length := length + 1;
            }
            i := -1;
          } else {
            result := LookupCref(w, length, tbl);
            st := CrefIdle;
            i := Deliver(uc);
          }
      }
    }
  }

  // ---- What a reference decodes to ------------------------------------------------------

  /** The state after a run of bytes none of which delivers. */
  function CrefRun(s: CrefState, bs: seq<byte>, tbl: Table): CrefState
    requires WellFormedTable(tbl, 1)
    decreases |bs|
  {
    if bs == [] then s else CrefRun(CrefStep(s, bs[0], tbl).0, bs[1..], tbl)
  }

  function DecimalValue(ds: seq<byte>): nat
    requires forall k :: 0 <= k < |ds| ==> IsDigit(ds[k])
  {
    if ds == [] then 0
    else
      var last: int := ds[|ds| - 1];
      assert IsDigit(ds[|ds| - 1]);
      DecimalValue(ds[..|ds| - 1]) * 10 + (last - 0x30)
  }

  lemma {:induction false} CrefRunAppend(s: CrefState, a: seq<byte>, b: seq<byte>, tbl: Table)
    requires WellFormedTable(tbl, 1)
    ensures CrefRun(s, a + b, tbl) == CrefRun(CrefRun(s, a, tbl), b, tbl)
    decreases |a|
  {
    if a == [] {
      assert a + b == b;
    } else {
      assert (a + b)[1..] == a[1..] + b;
      CrefRunAppend(CrefStep(s, a[0], tbl).0, a[1..], b, tbl);
    }
  }

  /** "&#" and digits hold the number in progress, cut off at 255. */
  lemma {:induction false} DecimalRun(s: CrefState, ds: seq<byte>, tbl: Table)
    requires WellFormedTable(tbl, 1) && s.st == CrefNum && ds != []
    requires forall k :: 0 <= k < |ds| ==> IsDigit(ds[k])
    ensures CrefRun(s, ds, tbl) == s.(st := CrefDec, result := Saturate(DecimalValue(ds)))
    decreases |ds|
  {
    var init, last := ds[..|ds| - 1], ds[|ds| - 1];
    assert ds == init + [last];
    CrefRunAppend(s, init, [last], tbl);
    assert [last][1..] == [];
    if init == [] {
      assert CrefRun(s, init, tbl) == s;
    } else {
      DecimalRun(s, init, tbl);
    }
  }

  /** A decimal reference delivers its number, or 255 when it is larger; only ';' is used up by it. */
  lemma DecimalReference(s: CrefState, ds: seq<byte>, stop: byte, tbl: Table)
    requires WellFormedTable(tbl, 1) && s.st == CrefIdle && ds != [] && !IsDigit(stop)
    requires forall k :: 0 <= k < |ds| ==> IsDigit(ds[k])
    ensures var (s', i) := CrefStep(CrefRun(s, [AMP, HASH] + ds, tbl), stop, tbl);
      s'.result == Saturate(DecimalValue(ds)) && s'.st == CrefIdle && (i == 0 <==> stop == SEMI) && i >= 0
  {
    hide *;
    DecimalStarts(s, ds, tbl);
    DecimalRun(s.(st := CrefNum), ds, tbl);
    DecimalEnds(s.(st := CrefDec, result := Saturate(DecimalValue(ds))), stop, tbl);
  }

  lemma DecimalStarts(s: CrefState, ds: seq<byte>, tbl: Table)
    requires WellFormedTable(tbl, 1) && s.st == CrefIdle
    ensures CrefRun(s, [AMP, HASH] + ds, tbl) == CrefRun(s.(st := CrefNum), ds, tbl)
  {
    hide *;
    assert [AMP, HASH] + ds == [AMP] + ([HASH] + ds);
    RunTakes(s, AMP, [HASH] + ds, tbl);
    RunTakes(s.(st := CrefStart), HASH, ds, tbl);
    NumberOpens(s, 0x78, tbl);
  }

  lemma DecimalEnds(s: CrefState, stop: byte, tbl: Table)
    requires WellFormedTable(tbl, 1) && s.st == CrefDec && !IsDigit(stop)
    ensures var (s', i) := CrefStep(s, stop, tbl);
      s'.result == s.result && s'.st == CrefIdle && (i == 0 <==> stop == SEMI) && i >= 0
  {
  }

  predicate IsHex(c: byte) { IsDigit(c) || IsHexLetter(c) }

  function HexValue(ds: seq<byte>): nat
    requires forall k :: 0 <= k < |ds| ==> IsHex(ds[k])
  {
    if ds == [] then 0
    else
      assert IsHex(ds[|ds| - 1]);
      HexValue(ds[..|ds| - 1]) * 16 + HexDigitValue(ds[|ds| - 1])
  }

  function HexDigitValue(c: byte): (v: nat)
    requires IsHex(c)
    ensures v < 16
  {
    var u: int := c;
    if IsDigit(c) then u - 0x30 else if u >= 0x61 then u - 0x61 + 10 else u - 0x41 + 10
  }

  /** Behind "&#x", in either case, the digits hold the number in progress, cut off at 255. */
  lemma {:induction false} HexRun(s: CrefState, ds: seq<byte>, tbl: Table)
    requires WellFormedTable(tbl, 1) && s.st == CrefHex && s.result == 0
    requires forall k :: 0 <= k < |ds| ==> IsHex(ds[k])
    ensures CrefRun(s, ds, tbl) == s.(result := Saturate(HexValue(ds)))
    decreases |ds|
  {
    hide CrefStep;
    if ds != [] {
      var init, last := ds[..|ds| - 1], ds[|ds| - 1];
      assert ds == init + [last] && IsHex(last);
      CrefRunAppend(s, init, [last], tbl);
      assert [last][1..] == [];
      HexRun(s, init, tbl);
      HexStep(s, HexValue(init), last, tbl);
    }
  }

  lemma HexStep(s: CrefState, n: nat, c: byte, tbl: Table)
    requires WellFormedTable(tbl, 1) && s.st == CrefHex && IsHex(c)
    ensures CrefStep(s.(result := Saturate(n)), c, tbl).0
      == s.(result := Saturate(n * 16 + if IsDigit(c) then c - 0x30 else c % 16 + 9))
  {
  }

  lemma HexReference(s: CrefState, x: byte, ds: seq<byte>, stop: byte, tbl: Table)
    requires WellFormedTable(tbl, 1) && s.st == CrefIdle && (x == 0x78 || x == 0x58) && !IsHex(stop)
    requires forall k :: 0 <= k < |ds| ==> IsHex(ds[k])
    ensures var (s', i) := CrefStep(CrefRun(s, [AMP, HASH, x] + ds, tbl), stop, tbl);
      s'.result == Saturate(HexValue(ds)) && s'.st == CrefIdle && (i == 0 <==> stop == SEMI) && i >= 0
  {
    hide *;
    HexStarts(s, x, ds, tbl);
    HexRun(s.(st := CrefHex, result := 0), ds, tbl);
    HexEnds(s.(st := CrefHex, result := Saturate(HexValue(ds))), stop, tbl);
  }

  lemma HexStarts(s: CrefState, x: byte, ds: seq<byte>, tbl: Table)
    requires WellFormedTable(tbl, 1) && s.st == CrefIdle && (x == 0x78 || x == 0x58)
    ensures CrefRun(s, [AMP, HASH, x] + ds, tbl) == CrefRun(s.(st := CrefHex, result := 0), ds, tbl)
  {
    hide *;
    assert [AMP, HASH, x] + ds == [AMP] + ([HASH, x] + ds);
    RunTakes(s, AMP, [HASH, x] + ds, tbl);
    assert [HASH, x] + ds == [HASH] + ([x] + ds);
    RunTakes(s.(st := CrefStart), HASH, [x] + ds, tbl);
    RunTakes(s.(st := CrefNum), x, ds, tbl);
    NumberOpens(s, x, tbl);
  }

  lemma RunTakes(s: CrefState, c: byte, rest: seq<byte>, tbl: Table)
    requires WellFormedTable(tbl, 1)
    ensures CrefRun(s, [c] + rest, tbl) == CrefRun(CrefStep(s, c, tbl).0, rest, tbl)
  {
    hide CrefStep;
    assert ([c] + rest)[1..] == rest;
  }

  lemma NumberOpens(s: CrefState, x: byte, tbl: Table)
    requires WellFormedTable(tbl, 1) && s.st == CrefIdle && (x == 0x78 || x == 0x58)
    ensures CrefStep(s, AMP, tbl).0 == s.(st := CrefStart)
    ensures CrefStep(s.(st := CrefStart), HASH, tbl).0 == s.(st := CrefNum)
    ensures CrefStep(s.(st := CrefNum), x, tbl).0 == s.(st := CrefHex, result := 0)
  {
  }

  lemma HexEnds(s: CrefState, stop: byte, tbl: Table)
    requires WellFormedTable(tbl, 1) && s.st == CrefHex && !IsHex(stop)
    ensures var (s', i) := CrefStep(s, stop, tbl);
      s'.result == s.result && s'.st == CrefIdle && (i == 0 <==> stop == SEMI) && i >= 0
  {
  }

  /** A named reference delivers what the table says about its name. */
  lemma {:induction false} NameRun(s: CrefState, name: seq<byte>, more: seq<byte>, tbl: Table)
    requires WellFormedTable(tbl, 1) && ValidCref(s) && s.st == CrefName && s.w[..s.length] == name
    requires |name| + |more| <= WORD_LEN
    requires forall k :: 0 <= k < |more| ==> IsLetter(more[k]) || IsDigit(more[k])
    ensures CrefRun(s, more, tbl) == CrefState(CrefName, Padded(name + more), |name| + |more|, s.result)
    decreases |more|
  {
    if more == [] {
      assert name + more == name;
    } else {
      var s' := CrefStep(s, more[0], tbl).0;
      StepKeepsValid(s, more[0], tbl);
      assert s'.w[..s'.length] == name + [more[0]];
      NameRun(s', name + [more[0]], more[1..], tbl);
      assert name + [more[0]] + more[1..] == name + more;
    }
  }

  /** Behind 16 bytes the rest of a long name changes nothing. */
  lemma {:induction false} LongNameRun(s: CrefState, more: seq<byte>, tbl: Table)
    requires WellFormedTable(tbl, 1) && s.st == CrefName && s.length == WORD_LEN
    requires forall k :: 0 <= k < |more| ==> IsLetter(more[k]) || IsDigit(more[k])
    ensures CrefRun(s, more, tbl) == s
    decreases |more|
  {
    if more != [] {
      LongNameRun(s, more[1..], tbl);
    }
  }

  /** The part of a name that is looked up. */
  function CutName(name: seq<byte>): (cut: seq<byte>)
    ensures |cut| <= WORD_LEN && cut <= name && (|name| <= WORD_LEN ==> cut == name)
  {
    if |name| <= WORD_LEN then name else name[..WORD_LEN]
  }

  /** A name of any length: its first 16 bytes are looked up, and only ';' is used up behind it. */
  lemma NamedReference(s: CrefState, name: seq<byte>, stop: byte, tbl: Table)
    requires WellFormedTable(tbl, 1) && s.st == CrefIdle && name != [] && IsLetter(name[0])
    requires forall k :: 0 <= k < |name| ==> IsLetter(name[k]) || IsDigit(name[k])
    requires !IsLetter(stop) && !IsDigit(stop)
    ensures var (s', i) := CrefStep(CrefRun(s, [AMP] + name, tbl), stop, tbl);
      var cut := CutName(name);
      s'.result == CrefValue(Padded(cut), |cut|, tbl) && s'.st == CrefIdle && (i == 0 <==> stop == SEMI) && i >= 0
  {
    hide CrefValue;
    var cut := CutName(name);
    var bs := [AMP] + name;
    assert bs[1..] == name;
    var s1 := CrefState(CrefName, Padded([name[0]]), 1, s.result);
    assert s1.w[..1] == [name[0]];
    NameRun(s1, [name[0]], cut[1..], tbl);
    assert [name[0]] + cut[1..] == cut;
    assert name[1..] == cut[1..] + name[|cut|..];
    CrefRunAppend(s1, cut[1..], name[|cut|..], tbl);
    LongName(s.result, cut, name[|cut|..], tbl);
  }

  lemma LongName(result: byte, cut: seq<byte>, more: seq<byte>, tbl: Table)
    requires WellFormedTable(tbl, 1) && |cut| <= WORD_LEN && (more == [] || |cut| == WORD_LEN)
    requires forall k :: 0 <= k < |more| ==> IsLetter(more[k]) || IsDigit(more[k])
    ensures var s := CrefState(CrefName, Padded(cut), |cut|, result); CrefRun(s, more, tbl) == s
  {
    if more != [] {
      LongNameRun(CrefState(CrefName, Padded(cut), |cut|, result), more, tbl);
    }
  }

  /** Letters, and the letters that are hexadecimal digits, by their values. */
  lemma InByteValues(c: byte)
    ensures IsLetter(c) <==> 0x41 <= c <= 0x5A || 0x61 <= c <= 0x7A
    ensures IsHex(c) <==> 0x30 <= c <= 0x39 || 0x41 <= c <= 0x46 || 0x61 <= c <= 0x66
  {
  }

  /** "&#233;" and "&#xE9;" are one byte, and so is everything they name. */
  lemma NumberInBytes(s: CrefState, tbl: Table)
    requires WellFormedTable(tbl, 1) && s.st == CrefIdle
    ensures var (s', i) := CrefStep(CrefRun(s, [0x26, 0x23, 0x32, 0x33, 0x33], tbl), 0x3B, tbl); s'.result == 0xE9 && i == 0
    ensures var (s', i) := CrefStep(CrefRun(s, [0x26, 0x23, 0x78, 0x45, 0x39], tbl), 0x3B, tbl); s'.result == 0xE9 && i == 0
  {
    hide CrefRun, CrefStep;
    var ds: seq<byte>, hs: seq<byte> := [0x32, 0x33, 0x33], [0x45, 0x39];
    DecimalReference(s, ds, 0x3B, tbl);
    HexReference(s, 0x78, hs, 0x3B, tbl);
    assert [AMP, HASH] + ds == [0x26, 0x23, 0x32, 0x33, 0x33] && [AMP, HASH, 0x78] + hs == [0x26, 0x23, 0x78, 0x45, 0x39];
    assert ds[..2] == [0x32, 0x33] && ds[..2][..1] == [0x32] && ds[..2][..1][..0] == [];
    assert DecimalValue([0x32]) == 2 && DecimalValue([0x32, 0x33]) == 23;
    assert hs[..1] == [0x45] && hs[..1][..0] == [];
    assert HexValue([0x45]) == 14;
  }

  /** Behind '&' a byte that is no letter and no '#' is used up and nothing comes of it; "&#" and no digit or x is a '#'. */
  lemma NoReferenceInBytes(s: CrefState, c: byte, tbl: Table)
    requires WellFormedTable(tbl, 1) && s.st == CrefIdle
    ensures !(0x41 <= c <= 0x5A) && !(0x61 <= c <= 0x7A) && c != 0x23 ==>
      CrefStep(CrefRun(s, [0x26], tbl), c, tbl) == (s, -1)
    ensures !(0x30 <= c <= 0x39) && c != 0x78 && c != 0x58 ==>
      CrefStep(CrefRun(s, [0x26, 0x23], tbl), c, tbl) == (s.(result := 0x23), 1)
  {
    var a: seq<byte>, b: seq<byte> := [0x26], [0x26, 0x23];
    assert a[1..] == [] && b[1..] == [0x23] && b[1..][1..] == [];
    assert CrefRun(s, a, tbl) == s.(st := CrefStart);
    assert CrefRun(s.(st := CrefStart), [0x23], tbl) == s.(st := CrefNum);
    assert CrefRun(s, b, tbl) == s.(st := CrefNum);
  }
}
