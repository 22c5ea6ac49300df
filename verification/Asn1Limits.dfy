/** When the `size_t` sum position + header + content can exceed its width. */
module Asn1Limits {
  import opened Octets
  import opened Asn1Header
  import opened Asn1Walk

  const TWO_TO_THE_63: nat := TWO_TO_THE_64 / 2

  /** The length octet announcing eight more octets. */
  const EIGHT_OCTETS: byte := 0x88

  lemma SumFits(buf: Buffer, p: nat)
    requires |buf| < TWO_TO_THE_63 && EIGHT_OCTETS !in buf
    requires HeaderAt(buf, p).Ok?
    ensures p + HeaderAt(buf, p).value.headerLen + HeaderAt(buf, p).value.contentLen <= SIZE_MAX
  {
    hide TagAt;
    var off := p + TagAt(buf, p).value.tagBytes;
    if buf[off] >= 128 {
      var n := buf[off] - 128;
      assert buf[off] in buf;
      assert n <= 7;
      BeValueBound(buf, off + 1, n);
      PowMonotone(256, n, 7);
      assert Pow(256, 7) == 0x100_0000_0000_0000;
    }
  }

  lemma {:induction false} RegionNeverWraps(buf: Buffer, base: nat, avail: nat, depth: nat)
    requires |buf| < TWO_TO_THE_63 && EIGHT_OCTETS !in buf
    ensures WalkRegion(buf, base, avail, depth).status != SumWraps
    decreases avail, 1
  {
    if base + avail <= |buf| {
      LoopNeverWraps(buf, base, base + avail, depth);
    }
  }

  lemma {:induction false} LoopNeverWraps(buf: Buffer, p: nat, end: nat, depth: nat)
    requires |buf| < TWO_TO_THE_63 && EIGHT_OCTETS !in buf
    requires p <= end <= |buf|
    ensures WalkFrom(buf, p, end, depth).status != SumWraps
    decreases end - p, 0
  {
    hide HeaderAt, LooksLikeDer, WalkRegion;
    if p < end && HeaderAt(buf, p).Ok? {
      var h := HeaderAt(buf, p).value;
      SumFits(buf, p);
      if p + h.headerLen + h.contentLen <= end {
        RegionNeverWraps(buf, p + h.headerLen, h.contentLen, depth + 1);
        if h.contentLen > 1 {
          RegionNeverWraps(buf, p + h.headerLen + 1, h.contentLen - 1, depth + 1);
        }
        LoopNeverWraps(buf, p + h.headerLen + h.contentLen, end, depth);
      }
    }
  }

  /** A buffer under 2^63 bytes with no octet 0x88 is parsed without wrapping: only an
      eight-octet length can claim that much content. */
  lemma ParseNeverWraps(buf: Buffer)
    requires |buf| < TWO_TO_THE_63 && EIGHT_OCTETS !in buf
    ensures Parse(buf).status != SumWraps
  {
    RegionNeverWraps(buf, 0, |buf|, 0);
  }

  const WRAPPING: bytes := [4, 0, 4, 0x88, 255, 255, 255, 255, 255, 255, 255, 244]

  /** The sum does wrap for some buffers: here the node at 2 ends at 2^64, which `size_t`
      reads as 0, so the source accepts it and returns to the first node. */
  lemma WrappingBuffer()
    ensures Parse(WRAPPING) == Outcome(SumWraps, [NodeInfo(0, 0, 2, 0, 0, false, TAG_OCTET_STRING)])
    ensures HeaderAt(WRAPPING, 2).Ok?
    ensures var h := HeaderAt(WRAPPING, 2).value;
      && BoundsAccepted(2, h.headerLen, h.contentLen, |WRAPPING|, |WRAPPING|)
      && (2 + h.headerLen + h.contentLen) % TWO_TO_THE_64 == 0
  {
    var buf := WRAPPING;
    WrappingHeaders();
    hide HeaderAt;
    assert WalkFrom(buf, 2, |buf|, 0) == Outcome(SumWraps, []);
    var first := NodeInfo(0, 0, 2, 0, 0, false, TAG_OCTET_STRING);
    assert WalkFrom(buf, 0, |buf|, 0) == Outcome(SumWraps, [first] + [] + []);
    assert [first] + [] + [] == [first];
  }

  lemma WrappingHeaders()
    ensures HeaderAt(WRAPPING, 0) == Ok(Header(Tag(0, false, 4, 1), 2, 0))
    ensures HeaderAt(WRAPPING, 2) == Ok(Header(Tag(0, false, 4, 1), 10, TWO_TO_THE_64 - 12))
  {
    var buf := WRAPPING;
    assert HeaderAt(buf, 0) == Ok(Header(Tag(0, false, 4, 1), 2, 0));
    assert TagAt(buf, 2) == Ok(Tag(0, false, 4, 1));
    WrappingLength();
  }

  lemma WrappingLength()
    ensures LengthAt(WRAPPING, 3) == Ok(Length(9, TWO_TO_THE_64 - 12))
  {
    var buf := WRAPPING;
    assert BeValue(buf, 4, 2) == 0xFFFF;
    assert BeValue(buf, 4, 4) == 0xFFFF_FFFF;
    assert BeValue(buf, 4, 6) == 0xFFFF_FFFF_FFFF;
    assert BeValue(buf, 4, 8) == TWO_TO_THE_64 - 12;
  }

  /** The cursor of the loop of ParseRecursive over a whole buffer after `n` rounds, on `size_t`
      arithmetic, as long as every round finds and accepts a node with nothing below it. */
  function CursorAfter(buf: Buffer, n: nat): Option<nat> {
    if n == 0 then Some(0)
    else match CursorAfter(buf, n - 1)
      case None => None
      case Some(p) =>
        if p >= |buf| || !HeaderAt(buf, p).Ok? then None
        else
          var h := HeaderAt(buf, p).value;
          if h.tag.constructed || IsWrapper(h) || !BoundsAccepted(p, h.headerLen, h.contentLen, |buf|, |buf|) then None
          else Some((p + h.headerLen + h.contentLen) % TWO_TO_THE_64)
  }

  /** On that buffer the loop never ends: however many rounds it makes, it is at the first or the
      second node. */
  lemma {:induction false} WrappingLoops(n: nat)
    ensures CursorAfter(WRAPPING, n) == Some(if n % 2 == 0 then 0 else 2)
  {
    hide HeaderAt;
    if n > 0 {
      WrappingLoops(n - 1);
      WrappingHeaders();
    }
  }
}
