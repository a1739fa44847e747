/** Searching, moving and overwriting bytes in the host-name buffer. */
module HostBuffer {
  import opened Bytes

  /** A text behind another one, in the front of a buffer. */
  lemma Behind(buf: seq<byte>, front: seq<byte>, last: seq<byte>)
    requires |front| + |last| <= |buf| && buf[..|front| + |last|] == front + last
    ensures buf[..|front|] == front && buf[|front|..|front| + |last|] == last
  {
    assert buf[..|front| + |last|][..|front|] == buf[..|front|];
    assert buf[..|front| + |last|][|front|..] == buf[|front|..|front| + |last|];
  }

  /** The bytes of a buffer that a search up to limit looks at. */
  function Searched(limit: int, length: nat): (n: nat)
    ensures n <= length
  {
    if limit < 0 then 0 else if limit < length then limit else length
  }

  method IndexByteFrom(b: array<byte>, target: byte, limit: int) returns (at: int)
    ensures at == -1 || 0 <= at < Searched(limit, b.Length)
    ensures at == -1 ==> target !in b[..Searched(limit, b.Length)]
    ensures at >= 0 ==> b[at] == target && target !in b[..at]
  {
    var i: nat := 0;
    while i < limit && i < b.Length
      invariant i <= Searched(limit, b.Length) && target !in b[..i]
      decreases b.Length - i
    {
      if b[i] == target {
        return i;
      }
      assert b[..i + 1] == b[..i] + [b[i]];
      i := i + 1;
    }
    return -1;
  }

  /** A search that succeeds where the target first stands. */
  lemma FirstIs(buf: seq<byte>, front: seq<byte>, target: byte, n: nat, at: int)
    requires n < |front| <= |buf| && buf[..|front|] == front
    requires front[n] == target && forall k :: 0 <= k < n ==> front[k] != target
    requires at == -1 || 0 <= at < Searched(|front|, |buf|)
    requires at == -1 ==> target !in buf[..Searched(|front|, |buf|)]
    requires at >= 0 ==> buf[at] == target && target !in buf[..at]
    ensures at == n
  {
    assert buf[n] == buf[..|front|][n];
  }

  /** Copies buf[src..src + len] to dst on, as the source's overlapping copy does. */
  method CopyWithin(buf: array<byte>, dst: nat, src: nat, len: nat)
    requires dst <= src && src + len <= buf.Length
    modifies buf
    ensures buf[dst..dst + len] == old(buf[src..src + len])
    ensures buf[..dst] == old(buf[..dst])
  {
    forall k | 0 <= k < len {
      buf[dst + k] := buf[src + k];
    }
  }

  method Overwrite(buf: array<byte>, at: nat, src: array<byte>, len: nat)
    requires at + len <= buf.Length && len <= src.Length && src != buf
    modifies buf
    ensures buf[..] == old(buf[..at]) + src[..len] + old(buf[at + len..])
  {
    forall k | 0 <= k < len {
      buf[at + k] := src[k];
    }
  }
}
