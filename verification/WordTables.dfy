/**
  The packed hash tables: a bucket is a run of records, each a length byte, that many bytes of
  word and a fixed number of extra bytes (none in a dictionary, one in the character-reference
  table). A zero length byte ends a bucket early.
  */
module WordTables {
  import opened Bytes

  const WORD_LEN := 16

  type Word = w: seq<byte> | |w| == WORD_LEN witness seq(WORD_LEN, i => 0)
  type Table = t: seq<seq<byte>> | |t| > 0 witness [[]]

  function BigEndian(b0: int, b1: int, b2: int, b3: int): bv32
    requires 0 <= b0 < 256 && 0 <= b1 < 256 && 0 <= b2 < 256 && 0 <= b3 < 256
  {
    (b0 * 0x100_0000 + b1 * 0x1_0000 + b2 * 0x100 + b3) as bv32
  }

  function Be32(w: Word, i: nat): (h: bv32)
    requires i <= 12
  {
    BigEndian(w[i], w[i + 1], w[i + 2], w[i + 3])
  }

  /** The exclusive or of the four big-endian groups of the word buffer. */
  function WordHash(w: Word): bv32 {
    Be32(w, 0) ^ Be32(w, 4) ^ Be32(w, 8) ^ Be32(w, 12)
  }

  function BucketOf(w: Word, tbl: Table): (i: nat)
    ensures i < |tbl|
  {
    (WordHash(w) as int) % |tbl|
  }

  /** The word buffer that holds key and zeros after it. */
  function Padded(key: seq<byte>): (w: Word)
    requires |key| <= WORD_LEN
  {
    key + seq(WORD_LEN - |key|, i => 0)
  }

  /** A walk over the bucket from p on stays inside it. */
  predicate WellFormed(bucket: seq<byte>, p: nat, extra: nat)
    requires p <= |bucket|
    decreases |bucket| - p
  {
    p == |bucket| || bucket[p] == 0
    || (p + 1 + bucket[p] + extra <= |bucket| && WellFormed(bucket, p + 1 + bucket[p] + extra, extra))
  }

  /** The records of a bucket from p on, word and extra bytes together. */
  function Records(bucket: seq<byte>, p: nat, extra: nat): seq<seq<byte>>
    requires p <= |bucket| && WellFormed(bucket, p, extra)
    decreases |bucket| - p
  {
    if p == |bucket| || bucket[p] == 0 then []
    else
      var next := p + 1 + bucket[p] + extra;
      [bucket[p + 1..next]] + Records(bucket, next, extra)
  }

  predicate WellFormedTable(tbl: Table, extra: nat) {
    forall b :: 0 <= b < |tbl| ==> WellFormed(tbl[b], 0, extra)
  }

  // ---- Dictionaries ---------------------------------------------------------------------

  /** Scans one bucket for exactly the first wlen bytes of w. */
  method LookupWord(w: array<byte>, wlen: nat, buckets: Table) returns (found: bool)
    requires w.Length == WORD_LEN && wlen <= WORD_LEN
    requires WellFormedTable(buckets, 0)
    ensures found <==> 1 <= wlen && w[..wlen] in Records(buckets[BucketOf(w[..], buckets)], 0, 0)
  {
    var bucket := buckets[BucketOf(w[..], buckets)];
    var p: nat := 0;
    ghost var all := Records(bucket, 0, 0);
    RecordsFit(bucket, 0, 0);
    while true
      invariant p <= |bucket| && WellFormed(bucket, p, 0)
      invariant w[..wlen] in all <==> w[..wlen] in Records(bucket, p, 0)
      decreases |bucket| - p
    {
      if p >= |bucket| {
        return false;
      }
      var n := bucket[p];
      if n == 0 {
        return false;
      }
      if n == wlen && bucket[p + 1..p + 1 + n] == w[..n] {
        return true;
      }
      assert bucket[p + 1..p + 1 + n] != w[..wlen];
      p := p + 1 + n;
    }
  }

  lemma {:induction false} RecordsFit(bucket: seq<byte>, p: nat, extra: nat)
    requires p <= |bucket| && WellFormed(bucket, p, extra)
    ensures forall r :: r in Records(bucket, p, extra) ==> |r| > extra
    decreases |bucket| - p
  {
    if p < |bucket| && bucket[p] != 0 {
      RecordsFit(bucket, p + 1 + bucket[p] + extra, extra);
    }
  }

  /** Every word that fits the buffer sits in the bucket its hash picks. */
  ghost predicate WordsPlaced(tbl: Table)
    requires WellFormedTable(tbl, 0)
  {
    forall b, key :: 0 <= b < |tbl| && key in Records(tbl[b], 0, 0) && |key| <= WORD_LEN ==>
      b == BucketOf(Padded(key), tbl)
  }

  /** The words of a dictionary. */
  ghost predicate InDictionary(key: seq<byte>, tbl: Table)
    requires WellFormedTable(tbl, 0)
  {
    exists b :: 0 <= b < |tbl| && key in Records(tbl[b], 0, 0)
  }

  /** Hash lookup of a zero-padded word is membership in the whole dictionary. */
  lemma LookupIsMembership(w: Word, key: seq<byte>, tbl: Table)
    requires WellFormedTable(tbl, 0) && WordsPlaced(tbl)
    requires |key| <= WORD_LEN && w == Padded(key)
    ensures key in Records(tbl[BucketOf(w, tbl)], 0, 0) <==> InDictionary(key, tbl)
  {
  }

  // ---- The character-reference table ----------------------------------------------------

  /** The value of the first record for key, or 0. */
  function ValueIn(records: seq<seq<byte>>, key: seq<byte>): byte {
    if records == [] then 0
    else if |records[0]| == |key| + 1 && records[0][..|key|] == key then records[0][|key|]
    else ValueIn(records[1..], key)
  }

  /** What a look-up of the first clen bytes of w yields. */
  function CrefValue(w: Word, clen: nat, tbl: Table): byte
    requires WellFormedTable(tbl, 1)
  {
    if clen > WORD_LEN || clen == 0 then 0
    else ValueIn(Records(tbl[BucketOf(w, tbl)], 0, 1), w[..clen])
  }

  method LookupCref(w: array<byte>, clen: nat, tbl: Table) returns (value: byte)
    requires w.Length == WORD_LEN && WellFormedTable(tbl, 1)
    ensures value == CrefValue(w[..], clen, tbl)
  {
    if clen > w.Length || clen == 0 {
      return 0;
    }
    var bucket := tbl[BucketOf(w[..], tbl)];
    var p: nat := 0;
    ghost var key, goal := w[..clen], CrefValue(w[..], clen, tbl);
    assert w[..][..clen] == key;
    assert ValueIn(Records(bucket, 0, 1), key) == goal;
    hide *;
    while true
      invariant p <= |bucket| && WellFormed(bucket, p, 1)
      invariant ValueIn(Records(bucket, p, 1), key) == goal
      decreases |bucket| - p
    {
      RecordStep(bucket, p, key);
      if p >= |bucket| {
        return 0;
      }
      var n: nat := bucket[p];
      if n == 0 {
        return 0;
      }
      if n == clen && bucket[p + 1..p + 1 + n] == w[..n] {
        return bucket[p + 1 + clen];
      }
      p := p + 1 + n + 1;
    }
  }

  /** One record of a bucket: the end, the record for the key, or another one. */
  lemma RecordStep(bucket: seq<byte>, p: nat, key: seq<byte>)
    requires p <= |bucket| && WellFormed(bucket, p, 1) && key != []
    ensures p == |bucket| || bucket[p] == 0 ==> ValueIn(Records(bucket, p, 1), key) == 0
    ensures p < |bucket| && bucket[p] != 0 ==>
      var n := bucket[p];
      && p + 1 + n + 1 <= |bucket| && WellFormed(bucket, p + 1 + n + 1, 1)
      && ValueIn(Records(bucket, p, 1), key)
         == if n == |key| && bucket[p + 1..p + 1 + n] == key then bucket[p + 1 + n]
            else ValueIn(Records(bucket, p + 1 + n + 1, 1), key)
  {
    if p < |bucket| && bucket[p] != 0 {
      var n: nat := bucket[p];
      var r := bucket[p + 1..p + 1 + n + 1];
      assert r[..n] == bucket[p + 1..p + 1 + n] && |r| == n + 1;
      assert Records(bucket, p, 1)[0] == r;
      assert Records(bucket, p, 1)[1..] == Records(bucket, p + 1 + n + 1, 1);
    }
  }

  /** The bucket holds a record that gives this name this value. */
  ghost predicate Names(bucket: seq<byte>, name: seq<byte>, value: byte)
    requires WellFormed(bucket, 0, 1)
  {
    name + [value] in Records(bucket, 0, 1)
  }

  /** Every name that fits the buffer sits in the bucket its hash picks. */
  ghost predicate NamesPlaced(tbl: Table)
    requires WellFormedTable(tbl, 1)
  {
    forall b, name: seq<byte>, v: byte ::
      (0 <= b < |tbl| && |name| <= WORD_LEN && Names(tbl[b], name, v)) ==> b == BucketOf(Padded(name), tbl)
  }

  /** No bucket gives one name two values. */
  ghost predicate NamesDistinct(tbl: Table)
    requires WellFormedTable(tbl, 1)
  {
    forall b, name: seq<byte>, v: byte, v': byte ::
      (0 <= b < |tbl| && Names(tbl[b], name, v) && Names(tbl[b], name, v')) ==> v == v'
  }

  ghost predicate HasName(name: seq<byte>, value: byte, tbl: Table)
    requires WellFormedTable(tbl, 1)
  {
    exists b :: 0 <= b < |tbl| && Names(tbl[b], name, value)
  }

  lemma {:induction false} ValueInFinds(records: seq<seq<byte>>, key: seq<byte>)
    ensures key + [ValueIn(records, key)] in records
      || (ValueIn(records, key) == 0 && forall v: byte :: key + [v] !in records)
  {
    if records != [] {
      ValueInFinds(records[1..], key);
      if |records[0]| == |key| + 1 && records[0][..|key|] == key {
        assert records[0] == key + [ValueIn(records, key)];
      } else {
        forall v: byte ensures key + [v] != records[0] {
          assert (key + [v])[..|key|] == key;
        }
      }
    }
  }

  /** Look-up of a zero-padded name is the table read as a map: its value, or 0 for an unknown name. */
  lemma CrefIsMap(name: seq<byte>, tbl: Table, value: byte)
    requires WellFormedTable(tbl, 1) && NamesPlaced(tbl) && NamesDistinct(tbl)
    requires 1 <= |name| <= WORD_LEN
    ensures HasName(name, value, tbl) ==> CrefValue(Padded(name), |name|, tbl) == value
    ensures (forall v: byte :: !HasName(name, v, tbl)) ==> CrefValue(Padded(name), |name|, tbl) == 0
  {
    var b := BucketOf(Padded(name), tbl);
    var bucket := tbl[b];
    var found := ValueIn(Records(bucket, 0, 1), name);
    assert Padded(name)[..|name|] == name;
    assert CrefValue(Padded(name), |name|, tbl) == found;
    ValueInFinds(Records(bucket, 0, 1), name);
    if HasName(name, value, tbl) {
      assert Names(bucket, name, value);
      assert Names(bucket, name, found);
    }
    if found != 0 {
      assert Names(tbl[b], name, found);
      assert HasName(name, found, tbl);
    }
  }

  // ---- In byte values -------------------------------------------------------------------

  /** The hash of "the" is its bytes on top of a zero; each group of four counts, whichever it is in. */
  lemma HashInBytes(w: Word, i: nat)
    requires i < 4 && w[4 * i] == 0x74 && w[4 * i + 1] == 0x68 && w[4 * i + 2] == 0x65 && w[4 * i + 3] == 0
    requires forall k :: 0 <= k < 16 && (k < 4 * i || 4 * i + 4 <= k) ==> w[k] == 0
    ensures WordHash(w) == 0x7468_6500
  {
    hide Be32;
    TheGroup(w, 4 * i);
    if i != 0 {
      NoGroup(w, 0);
    }
    if i != 1 {
      NoGroup(w, 4);
    }
    if i != 2 {
      NoGroup(w, 8);
    }
    if i != 3 {
      NoGroup(w, 12);
    }
  }

  /** The bucket of "the" among any number of them. */
  lemma BucketInNumbers(tbl: Table)
    ensures BucketOf(Padded([0x74, 0x68, 0x65]), tbl) == 0x7468_6500 % |tbl|
  {
    hide WordHash;
    HashInBytes(Padded([0x74, 0x68, 0x65]), 0);
    AsNumber();
  }

  lemma AsNumber()
    ensures (0x7468_6500 as bv32) as int == 0x7468_6500
  {
  }

  /** A bucket's records: a length, the word, and for a reference its value; a zero length is the end. */
  lemma RecordsInBytes(a: byte, b: byte, c: byte, u: byte, v: byte)
    ensures var bucket := [2, a, b, 1, c, 0, 7];
      WellFormed(bucket, 0, 0) && Records(bucket, 0, 0) == [[a, b], [c]]
    ensures var bucket := [2, a, b, u, 1, c, v];
      WellFormed(bucket, 0, 1) && Records(bucket, 0, 1) == [[a, b, u], [c, v]]
  {
    var words, names := [2, a, b, 1, c, 0, 7], [2, a, b, u, 1, c, v];
    assert WellFormed(words, 5, 0) && WellFormed(words, 3, 0);
    assert WellFormed(names, 7, 1) && WellFormed(names, 4, 1);
    assert words[1..3] == [a, b] && words[4..5] == [c];
    assert names[1..4] == [a, b, u] && names[5..7] == [c, v];
    assert Records(words, 5, 0) == [] && Records(names, 7, 1) == [];
    assert Records(words, 3, 0) == [[c]];
    assert Records(names, 4, 1) == [[c, v]];
  }

  lemma TheGroup(w: Word, at: nat)
    requires at <= 12 && w[at] == 0x74 && w[at + 1] == 0x68 && w[at + 2] == 0x65 && w[at + 3] == 0
    ensures Be32(w, at) == 0x7468_6500
  {
    var n: int := 0x7468_6500;
    assert Be32(w, at) == n as bv32;
  }

  lemma NoGroup(w: Word, at: nat)
    requires at <= 12 && w[at] == 0 && w[at + 1] == 0 && w[at + 2] == 0 && w[at + 3] == 0
    ensures Be32(w, at) == 0
  {
  }

  /** Equal groups cancel each other. */
  lemma EqualGroupsCancel(w: Word)
    requires w[..4] == w[4..8] && w[8..12] == w[12..]
    ensures WordHash(w) == 0
  {
    hide Be32;
    SameGroup(w, 0, 4);
    SameGroup(w, 8, 12);
  }

  lemma SameGroup(w: Word, i: nat, j: nat)
    requires i <= 12 && j <= 12 && w[i..i + 4] == w[j..j + 4]
    ensures Be32(w, i) == Be32(w, j)
  {
    hide BigEndian;
    var a, b := w[i..i + 4], w[j..j + 4];
    assert a[0] == w[i] && a[1] == w[i + 1] && a[2] == w[i + 2] && a[3] == w[i + 3];
    assert b[0] == w[j] && b[1] == w[j + 1] && b[2] == w[j + 2] && b[3] == w[j + 3];
  }
}
