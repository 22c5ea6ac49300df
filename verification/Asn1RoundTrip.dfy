/** Printing a forest of TLVs in X.690 definite-length form and parsing it back. */
module Asn1RoundTrip {
  import opened Octets
  import opened Asn1Header
  import opened Asn1Walk
  import opened Asn1Probe

  /** `Wrapped` is a primitive BIT STRING whose content after the unused-bits octet is itself DER. */
  datatype Tlv =
    | Prim(tagClass: nat, tagNumber: nat, content: bytes)
    | Wrapped(unusedBits: byte, inner: Forest)
    | Constr(tagClass: nat, tagNumber: nat, children: Forest)
  {
    function Class(): nat { if Wrapped? then 0 else tagClass }
    function Number(): nat { if Wrapped? then 3 else tagNumber }
  }
  datatype Forest = Nil | Cons(head: Tlv, tail: Forest)

  const MAX_TAG_NUMBER: nat := 0x1_FFFF_FFFF_FFFF
  const TWO_TO_THE_56: nat := 0x100_0000_0000_0000

  /** Tag numbers fit seven octets, lengths fit `size_t`, the octets behind the first of a plain BIT
      STRING begin no container, and a wrapped one starts with a universal SEQUENCE (16), SET (17)
      or OCTET STRING (4). */
  ghost predicate WfTlv(t: Tlv)
    decreases t, 0
  {
    && t.Class() < 4 && t.Number() <= MAX_TAG_NUMBER
    && match t
       case Prim(c, n, content) =>
         |content| <= SIZE_MAX
         && (c == 0 && n == 3 && |content| > 1 ==> !BeginsContainer(content[1..]))
       case Wrapped(_, inner) =>
         && Wf(inner) && 1 + |EncodeForest(inner)| <= SIZE_MAX
         && inner.Cons? && inner.head.Class() == 0
         && inner.head.Number() in {4, 16, 17}
         && |Body(inner.head)| < TWO_TO_THE_56
       case Constr(_, _, children) => Wf(children) && |EncodeForest(children)| <= SIZE_MAX
  }

  ghost predicate Wf(f: Forest)
    decreases f, 0
  {
    match f
    case Nil => true
    case Cons(t, rest) => WfTlv(t) && Wf(rest)
  }

  function Body(t: Tlv): bytes
    requires WfTlv(t)
    decreases t, 1
  {
    match t
    case Prim(_, _, content) => content
    case Wrapped(unusedBits, inner) => [unusedBits] + EncodeForest(inner)
    case Constr(_, _, children) => EncodeForest(children)
  }

  function HeaderOf(t: Tlv): bytes
    requires WfTlv(t)
    decreases t, 2
  {
    EncodeHeader(t.Class(), t.Constr?, t.Number(), |Body(t)|)
  }

  function EncodeForest(f: Forest): bytes
    requires Wf(f)
    decreases f, 1
  {
    match f
    case Nil => []
    case Cons(t, rest) => HeaderOf(t) + Body(t) + EncodeForest(rest)
  }

  /** Nodes with something below them sit at depth 127 or less. */
  predicate Shallow(f: Forest, d: nat) {
    match f
    case Nil => true
    case Cons(t, rest) => ShallowTlv(t, d) && Shallow(rest, d)
  }

  predicate ShallowTlv(t: Tlv, d: nat) {
    match t
    case Prim(_, _, _) => true
    case Wrapped(_, inner) => d <= 127 && Shallow(inner, d + 1)
    case Constr(_, _, children) => d <= 127 && Shallow(children, d + 1)
  }

  /** The expected listing: every TLV before what is below it, and that before its siblings. */
  function Preorder(f: Forest, p: nat, d: nat): seq<NodeInfo>
    requires Wf(f)
    decreases f, 1
  {
    match f
    case Nil => []
    case Cons(t, rest) =>
      var hl, cl := |HeaderOf(t)|, |Body(t)|;
      [NodeInfo(p, d, hl, cl, t.Class(), t.Constr?, t.Number())]
      + PreorderBelow(t, p + hl, d) + Preorder(rest, p + hl + cl, d)
  }

  function PreorderBelow(t: Tlv, contentOff: nat, d: nat): seq<NodeInfo>
    requires WfTlv(t)
    decreases t, 0
  {
    match t
    case Prim(_, _, _) => []
    case Wrapped(_, inner) => Preorder(inner, contentOff + 1, d + 1)
    case Constr(_, _, children) => Preorder(children, contentOff, d + 1)
  }

  /** `h` is the header of `t`. */
  predicate Matches(h: Header, t: Tlv)
    requires WfTlv(t)
  {
    && h.headerLen == |HeaderOf(t)| && h.contentLen == |Body(t)|
    && h.tag.tagClass == t.Class() && h.tag.constructed == t.Constr? && h.tag.tagNumber == t.Number()
  }

  lemma {:induction false} WalkEncoded(buf: Buffer, p: nat, end: nat, f: Forest, d: nat)
    requires p <= end <= |buf| && Wf(f) && Shallow(f, d)
    requires buf[p..end] == EncodeForest(f)
    ensures WalkFrom(buf, p, end, d) == Outcome(Success, Preorder(f, p, d))
    decreases f, 0
  {
    hide HeaderAt, WalkContent, HeaderOf, Body, PreorderBelow, WfTlv;
    match f
    case Nil =>
    case Cons(t, rest) =>
      var hl, cl := |HeaderOf(t)|, |Body(t)|;
      SliceParts(buf, p, end, HeaderOf(t), Body(t), EncodeForest(rest));
      HeaderOfReads(buf, p, t);
      BodyWalks(buf, p + hl, end, HeaderAt(buf, p).value, t, d);
      WalkEncoded(buf, p + hl + cl, end, rest, d);
  }

  lemma HeaderOfReads(buf: Buffer, p: nat, t: Tlv)
    requires WfTlv(t) && p + |HeaderOf(t)| + |Body(t)| <= |buf|
    requires buf[p..p + |HeaderOf(t)|] == HeaderOf(t)
    ensures HeaderAt(buf, p).Ok? && Matches(HeaderAt(buf, p).value, t)
    ensures HeaderAt(buf, p).value.headerLen == HeaderAt(buf, p).value.tag.tagBytes + |EncodeLength(|Body(t)|)|
  {
    hide HeaderAt, Body, EncodeTag;
    HeaderRoundTrip(buf, p, t.Class(), t.Constr?, t.Number(), |Body(t)|);
  }

  /** Nothing is walked below a primitive node that wraps nothing. */
  lemma PrimWalks(buf: Buffer, contentOff: nat, end: nat, h: Header, t: Tlv, d: nat)
    requires t.Prim? && WfTlv(t) && contentOff + |Body(t)| <= end <= |buf|
    requires buf[contentOff..contentOff + |Body(t)|] == Body(t)
    requires Matches(h, t)
    ensures WalkContent(buf, contentOff, h, end, d) == Outcome(Success, [])
  {
    hide WalkRegion, LooksLikeDer, HeaderOf, BeginsContainer;
    var n, content := |t.content|, t.content;
    if IsWrapper(h) {
      SubSlice(buf, contentOff, content, 0, n, 1, n - 1);
      assert content[1..1 + (n - 1)] == content[1..];
      ProbeIff(buf, contentOff + 1, n - 1, end);
    }
  }

  lemma {:induction false} BodyWalks(buf: Buffer, contentOff: nat, end: nat, h: Header, t: Tlv, d: nat)
    requires WfTlv(t) && contentOff + |Body(t)| <= end <= |buf| && ShallowTlv(t, d)
    requires buf[contentOff..contentOff + |Body(t)|] == Body(t)
    requires Matches(h, t)
    ensures WalkContent(buf, contentOff, h, end, d) == Outcome(Success, PreorderBelow(t, contentOff, d))
    decreases t
  {
    hide WalkRegion, LooksLikeDer, HeaderOf, Preorder, BeginsContainer, EncodeForest;
    var n := |Body(t)|;
    match t
    case Prim(_, _, _) =>
      PrimWalks(buf, contentOff, end, h, t, d);
    case Wrapped(unusedBits, inner) =>
      SliceParts(buf, contentOff, contentOff + n, [unusedBits], EncodeForest(inner), []);
      WrappedProbe(buf, contentOff + 1, end, inner);
      RegionEncoded(buf, contentOff + 1, n - 1, inner, d + 1);
    case Constr(_, _, children) =>
      RegionEncoded(buf, contentOff, n, children, d + 1);
  }

  lemma {:induction false} RegionEncoded(buf: Buffer, base: nat, avail: nat, f: Forest, d: nat)
    requires base + avail <= |buf| && Wf(f) && Shallow(f, d) && d <= MAX_PARSE_DEPTH
    requires buf[base..base + avail] == EncodeForest(f)
    ensures WalkRegion(buf, base, avail, d) == Outcome(Success, Preorder(f, base, d))
    decreases f, 1
  {
    hide WalkFrom;
    WalkEncoded(buf, base, base + avail, f, d);
    if f.Cons? {
      NonEmptyEncoding(f);
    }
  }

  /** Wrapped DER is recognised by the probe. */
  lemma WrappedProbe(buf: Buffer, innerOff: nat, end: nat, inner: Forest)
    requires Wf(inner) && inner.Cons? && innerOff + |EncodeForest(inner)| <= end <= |buf|
    requires buf[innerOff..innerOff + |EncodeForest(inner)|] == EncodeForest(inner)
    requires inner.head.Class() == 0 && inner.head.Number() in {4, 16, 17}
    requires |Body(inner.head)| < TWO_TO_THE_56
    ensures |EncodeForest(inner)| >= 2 && LooksLikeDer(buf, innerOff, |EncodeForest(inner)|, end)
  {
    hide TagAt, LengthAt, HeaderOf, Body, WfTlv;
    var t := inner.head;
    SliceParts(buf, innerOff, innerOff + |EncodeForest(inner)|, HeaderOf(t), Body(t), EncodeForest(inner.tail));
    HeaderOfReads(buf, innerOff, t);
    ShortLength(|Body(t)|);
  }

  lemma ShortLength(n: nat)
    requires n < TWO_TO_THE_56
    ensures |EncodeLength(n)| <= MAX_LEN_BYTES
  {
    assert Pow(256, 7) == TWO_TO_THE_56;
    BeBytesSize(n, 7);
  }

  lemma NonEmptyEncoding(f: Forest)
    requires Wf(f) && f.Cons?
    ensures EncodeForest(f) != []
  {
    hide Body, WfTlv;
    assert |HeaderOf(f.head)| >= 1;
  }

  /** Parsing the encoding of a non-empty forest succeeds and visits exactly its preorder, with
      the right offset, depth, class, constructed bit, tag number, header and content length. */
  lemma ParseEncoded(f: Forest)
    requires f.Cons? && Wf(f) && Shallow(f, 0) && |EncodeForest(f)| <= SIZE_MAX
    ensures Parse(EncodeForest(f)) == Outcome(Success, Preorder(f, 0, 0))
  {
    hide WalkRegion, Preorder;
    var buf := EncodeForest(f);
    NonEmptyEncoding(f);
    assert buf[0..|buf|] == buf;
    RegionEncoded(buf, 0, |buf|, f, 0);
  }

  // ---- known buffers ----

  /** A BIT STRING of four octets whose content begins no container stands alone. */
  lemma PlainBitString()
    ensures Parse([0x03, 0x05, 0x00, 0x01, 0x00, 0x80, 0x90]) == Outcome(Success, [NodeInfo(0, 0, 2, 5, 0, false, 3)])
  {
    var content: bytes := [0x00, 0x01, 0x00, 0x80, 0x90];
    var t := Prim(0, 3, content);
    assert content[1..] == [0x01, 0x00, 0x80, 0x90];
    assert WfTlv(t);
    var f := Cons(t, Nil);
    assert EncodeForest(f) == [0x03, 0x05, 0x00, 0x01, 0x00, 0x80, 0x90];
    ParseEncoded(f);
    assert Preorder(f, 0, 0) == [NodeInfo(0, 0, 2, 5, 0, false, 3)] + [] + [];
  }

  const NULL_NODE: Forest := Cons(Prim(0, 5, []), Nil)
  const SEQUENCE_NODE: Forest := Cons(Constr(0, 16, NULL_NODE), Nil)

  lemma SequenceOctets()
    ensures Wf(SEQUENCE_NODE) && EncodeForest(SEQUENCE_NODE) == [0x30, 0x02, 0x05, 0x00]
    ensures Preorder(SEQUENCE_NODE, 3, 1) == [NodeInfo(3, 1, 2, 2, 0, true, 16), NodeInfo(5, 2, 2, 0, 0, false, 5)]
  {
    assert EncodeForest(NULL_NODE) == [0x05, 0x00];
    assert Preorder(NULL_NODE, 5, 2) == [NodeInfo(5, 2, 2, 0, 0, false, 5)] + [] + [];
    assert Preorder(SEQUENCE_NODE, 3, 1) == [NodeInfo(3, 1, 2, 2, 0, true, 16)] + Preorder(NULL_NODE, 5, 2) + [];
  }

  /** A BIT STRING that wraps a SEQUENCE holding a NULL. */
  lemma WrappedSequence()
    ensures Parse([0x03, 0x05, 0x00, 0x30, 0x02, 0x05, 0x00]) == Outcome(Success,
      [NodeInfo(0, 0, 2, 5, 0, false, 3), NodeInfo(3, 1, 2, 2, 0, true, 16), NodeInfo(5, 2, 2, 0, 0, false, 5)])
  {
    SequenceOctets();
    var t := Wrapped(0, SEQUENCE_NODE);
    assert WfTlv(t);
    var f := Cons(t, Nil);
    assert EncodeForest(f) == [0x03, 0x05, 0x00, 0x30, 0x02, 0x05, 0x00];
    ParseEncoded(f);
    assert Preorder(f, 0, 0) == [NodeInfo(0, 0, 2, 5, 0, false, 3)] + Preorder(SEQUENCE_NODE, 3, 1) + [];
  }
}
