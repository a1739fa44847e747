/** Bytes, the character constants the scanners test for, and small sequence facts. */
module Bytes {
  type byte = b: int | 0 <= b < 256

  datatype Option<+T> = None | Some(value: T)

  const NUL: byte := 0x00
  const TAB: byte := 0x09
  const LF: byte := 0x0A
  const CR: byte := 0x0D
  const SP: byte := 0x20
  const BANG: byte := 0x21
  const DQUOTE: byte := 0x22
  const HASH: byte := 0x23
  const AMP: byte := 0x26
  const SQUOTE: byte := 0x27
  const DASH: byte := 0x2D
  const DOT: byte := 0x2E
  const SLASH: byte := 0x2F
  const COLON: byte := 0x3A
  const SEMI: byte := 0x3B
  const LT: byte := 0x3C
  const EQ: byte := 0x3D
  const GT: byte := 0x3E
  const AT: byte := 0x40
  const BACKSLASH: byte := 0x5C
  const UNDERSCORE: byte := 0x5F

  predicate IsLower(c: byte) { 0x61 <= c <= 0x7A }

  predicate IsUpper(c: byte) { 0x41 <= c <= 0x5A }

  predicate IsDigit(c: byte) { 0x30 <= c <= 0x39 }

  function ToLower(c: byte): byte {
    if IsUpper(c) then c + 0x20 else c
  }

  /** Space, tab, CR or LF. */
  predicate IsWS(c: byte) { c == SP || c == TAB || c == CR || c == LF }

  function Min(a: int, b: int): int {
    if a < b then a else b
  }

  /** The concatenation of a sequence of strings. */
  function Concat<T>(ss: seq<seq<T>>): seq<T> {
    if ss == [] then [] else ss[0] + Concat(ss[1..])
  }

  lemma Assoc<T>(a: seq<T>, b: seq<T>, c: seq<T>)
    ensures a + (b + c) == a + b + c
  {
  }

  lemma {:induction false} ConcatAppend<T>(a: seq<seq<T>>, b: seq<seq<T>>)
    ensures Concat(a + b) == Concat(a) + Concat(b)
  {
    if a == [] {
      assert a + b == b;
    } else {
      ConcatAppend(a[1..], b);
      assert (a + b)[0] == a[0] && (a + b)[1..] == a[1..] + b;
      Assoc(a[0], Concat(a[1..]), Concat(b));
    }
  }

  /** The classes of bytes, by their values. */
  lemma InByteValues(c: byte)
    ensures IsLower(c) <==> 'a' as int <= c <= 'z' as int
    ensures IsUpper(c) <==> 'A' as int <= c <= 'Z' as int
    ensures IsDigit(c) <==> '0' as int <= c <= '9' as int
    ensures IsWS(c) <==> c == ' ' as int || c == '\t' as int || c == '\r' as int || c == '\n' as int
    ensures ToLower(c) == if 'A' as int <= c <= 'Z' as int then c + ('a' as int - 'A' as int) else c
  {
  }
}
