/** The content type, character set and transfer encoding of the MIME entity being read. */
module Entities {
  datatype Charset = Latin1 | Latin2
  datatype ContentType = Text | Html | Binary
  datatype TransferEncoding = Ascii | QuotedPrintable | Base64

  /** An entity as a value. */
  datatype Described = Described(ct: ContentType, cset: Charset, ce: TransferEncoding)

  const PLAIN := Described(Text, Latin1, Ascii)

  /** Plain text in the first character set, not encoded. */
  lemma Defaults()
    ensures PLAIN.ct == Text && PLAIN.cset == Latin1 && PLAIN.ce == Ascii
  {
  }

  /** What a header sets in the entity it describes. */
  datatype Effect = SetCt(ct: ContentType) | SetCe(ce: TransferEncoding) | SetCset(cset: Charset)

  function Apply(d: Described, e: Effect): Described {
    match e
    case SetCt(ct) => d.(ct := ct)
    case SetCe(ce) => d.(ce := ce)
    case SetCset(cset) => d.(cset := cset)
  }

  function ApplyAll(d: Described, es: seq<Effect>): Described
    decreases |es|
  {
    if es == [] then d else ApplyAll(Apply(d, es[0]), es[1..])
  }

  lemma {:induction false} ApplySplits(d: Described, a: seq<Effect>, b: seq<Effect>)
    ensures ApplyAll(d, a + b) == ApplyAll(ApplyAll(d, a), b)
    decreases |a|
  {
    if a == [] {
      assert a + b == b;
    } else {
      assert (a + b)[1..] == a[1..] + b;
      ApplySplits(Apply(d, a[0]), a[1..], b);
    }
  }

  /** Each effect sets its own, whatever the others set before it or after it. */
  lemma EachSetsItsOwn(d: Described, ct: ContentType, cset: Charset, ce: TransferEncoding)
    ensures ApplyAll(d, [SetCt(ct), SetCset(cset), SetCe(ce)]) == Described(ct, cset, ce)
    ensures ApplyAll(d, [SetCe(ce), SetCset(cset), SetCt(ct)]) == Described(ct, cset, ce)
  {
    ApplySplits(d, [SetCt(ct), SetCset(cset)], [SetCe(ce)]);
    ApplySplits(d, [SetCt(ct)], [SetCset(cset)]);
    ApplySplits(d, [SetCe(ce), SetCset(cset)], [SetCt(ct)]);
    ApplySplits(d, [SetCe(ce)], [SetCset(cset)]);
    ApplyFew(d, SetCt(ct));
    ApplyFew(d, SetCe(ce));
    ApplyFew(Apply(d, SetCt(ct)), SetCset(cset));
    ApplyFew(Apply(d, SetCe(ce)), SetCset(cset));
    ApplyFew(Apply(Apply(d, SetCt(ct)), SetCset(cset)), SetCe(ce));
    ApplyFew(Apply(Apply(d, SetCe(ce)), SetCset(cset)), SetCt(ct));
  }

  lemma ApplyFew(d: Described, e: Effect)
    ensures ApplyAll(d, []) == d && ApplyAll(d, [e]) == Apply(d, e)
  {
    var es: seq<Effect> := [e];
    assert |es[1..]| == 0;
  }

  /** What the header parser sets, and the decoders and the second fuzzy checksum share. */
  class Entity {
    var mimeCt: ContentType
    var mimeCset: Charset
    var mimeCe: TransferEncoding

    constructor ()
      ensures View() == PLAIN
    {
      mimeCt, mimeCset, mimeCe := Text, Latin1, Ascii;
    }

    ghost function View(): Described
      reads this
    {
      Described(mimeCt, mimeCset, mimeCe)
    }
  }
}
