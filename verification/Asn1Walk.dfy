/** The depth-limited walk over a BER/DER buffer: ValidateNodeBounds, ProcessParsedNode,
    ParseEmbeddedDer, ParseRecursive, AppAsn1ParseBuffer and AppAsn1GetNodeBytes of app_asn1parse.c.

    The lines PrintNodeLine writes are the visible result, so an outcome carries them. */
module Asn1Walk {
  import opened Octets
  import opened Asn1Header

  const MAX_PARSE_DEPTH: nat := 128
  const MIN_BER_HEADER_SIZE: nat := 2
  const TAG_BIT_STRING: nat := 3
  const TAG_OCTET_STRING: nat := 4
  const TAG_SEQUENCE: nat := 16
  const TAG_SET: nat := 17

  datatype NodeInfo = NodeInfo(offset: int, depth: int, headerLen: nat, contentLen: nat,
                               tagClass: nat, constructed: bool, tagNumber: nat) {
    function ContentStart(): int { offset + headerLen }
    function End(): int { offset + headerLen + contentLen }
  }

  /** `SumWraps`: the unsigned sum position + header + content exceeds `size_t`; the walk is
      modelled up to that point and not beyond it. */
  datatype Status = Success | DecodeFailed | InvalidArgument | SumWraps

  datatype Outcome = Outcome(status: Status, lines: seq<NodeInfo>) {
    function After(before: seq<NodeInfo>): Outcome { Outcome(status, before + lines) }
  }

  function Line(p: nat, depth: int, h: Header): NodeInfo {
    NodeInfo(p, depth, h.headerLen, h.contentLen, h.tag.tagClass, h.tag.constructed, h.tag.tagNumber)
  }

  // ---- bounds ----

  /** ValidateNodeBounds, on `size_t` arithmetic. */
  predicate BoundsAccepted(p: nat, headerLen: nat, contentLen: nat, bufLen: nat, end: nat) {
    var sum := (p + headerLen + contentLen) % TWO_TO_THE_64;
    sum <= bufLen && sum <= end
  }

  /** For a header that passed ParseSingleNode, an accepted node moves the cursor forward
      if and only if position + header + content does not wrap; when it wraps, the node is
      always accepted and the cursor moves back. */
  lemma ProgressIffNoWrap(p: nat, headerLen: nat, contentLen: nat, bufLen: nat, end: nat)
    requires p < end <= bufLen <= SIZE_MAX
    requires 2 <= headerLen && headerLen + contentLen <= SIZE_MAX
    ensures BoundsAccepted(p, headerLen, contentLen, bufLen, end) ==>
              ((p + headerLen + contentLen) % TWO_TO_THE_64 > p <==> p + headerLen + contentLen <= SIZE_MAX)
    ensures p + headerLen + contentLen > SIZE_MAX ==>
              BoundsAccepted(p, headerLen, contentLen, bufLen, end)
              && (p + headerLen + contentLen) % TWO_TO_THE_64 < p
  {
    var sum := p + headerLen + contentLen;
    if sum > SIZE_MAX {
      assert sum - TWO_TO_THE_64 < p;
      assert sum % TWO_TO_THE_64 == sum - TWO_TO_THE_64;
    }
  }

  // ---- the walk as functions ----

  /** The probe of ParseEmbeddedDer: does the BIT STRING content look like wrapped DER? */
  predicate LooksLikeDer(buf: Buffer, innerOff: nat, innerLen: nat, end: nat) {
    && innerOff + MIN_BER_HEADER_SIZE <= end
    && innerLen >= MIN_BER_HEADER_SIZE
    && var tag := TagAt(buf, innerOff);
    && tag.Ok?
    && var len := LengthAt(buf, innerOff + tag.value.tagBytes);
    && len.Ok?
    && (tag.value.tagBytes + len.value.lenLen + len.value.contentLen) % TWO_TO_THE_64 <= innerLen
    && tag.value.tagClass == 0
    && tag.value.tagNumber in {TAG_SEQUENCE, TAG_SET, TAG_OCTET_STRING}
    && tag.value.tagBytes <= MAX_TAG_BYTES && len.value.lenLen <= MAX_LEN_BYTES
  }

  predicate IsWrapper(h: Header) {
    !h.tag.constructed && h.tag.tagClass == 0 && h.tag.tagNumber == TAG_BIT_STRING && h.contentLen > 1
  }

  /** ParseRecursive: guards, then the loop. */
  function WalkRegion(buf: Buffer, base: nat, avail: nat, depth: nat): Outcome
    decreases avail, 1
  {
    if depth > MAX_PARSE_DEPTH then Outcome(InvalidArgument, [])
    else if base >= |buf| || avail == 0 || base + avail > |buf| then Outcome(Success, [])
    else WalkFrom(buf, base, base + avail, depth)
  }

  /** The loop of ParseRecursive from cursor `p`. It terminates on the bytes left,
      whatever the depth cap. */
  function WalkFrom(buf: Buffer, p: nat, end: nat, depth: nat): Outcome
    requires p <= end <= |buf|
    decreases end - p, 0
  {
    if p == end then Outcome(Success, [])
    else
      match HeaderAt(buf, p)
      case Fail(_) => Outcome(DecodeFailed, [])
      case Ok(h) =>
        var next := p + h.headerLen + h.contentLen;
        if next > SIZE_MAX then Outcome(SumWraps, [])
        else if next > end then Outcome(DecodeFailed, [])
        else
          var inner := WalkContent(buf, p + h.headerLen, h, end, depth);
          var here := [Line(p, depth, h)] + inner.lines;
          if inner.status != Success then Outcome(inner.status, here)
          else WalkFrom(buf, next, end, depth).After(here)
  }

  /** ProcessParsedNode after the line is printed, with ParseEmbeddedDer folded in. */
  function WalkContent(buf: Buffer, contentOff: nat, h: Header, end: nat, depth: nat): Outcome
    requires contentOff + h.contentLen <= end <= |buf|
    decreases h.contentLen, 2
  {
    if h.tag.constructed then WalkRegion(buf, contentOff, h.contentLen, depth + 1)
    else if IsWrapper(h) && LooksLikeDer(buf, contentOff + 1, h.contentLen - 1, end) then
      WalkRegion(buf, contentOff + 1, h.contentLen - 1, depth + 1)
    else Outcome(Success, [])
  }

  /** AppAsn1ParseBuffer. */
  function Parse(buf: Buffer): Outcome {
    if |buf| == 0 then Outcome(InvalidArgument, []) else WalkRegion(buf, 0, |buf|, 0)
  }

  datatype Extract = Extracted(node: bytes) | NotDecoded | ExtractSumWraps

  /** AppAsn1GetNodeBytes. */
  function NodeBytes(buf: Buffer, offset: nat): Extract {
    match TagAt(buf, offset)
    case Fail(_) => NotDecoded
    case Ok(tag) =>
      match LengthAt(buf, offset + tag.tagBytes)
      case Fail(_) => NotDecoded
      case Ok(len) =>
        var total := tag.tagBytes + len.lenLen + len.contentLen;
        if offset + total > SIZE_MAX then ExtractSumWraps
        else if offset + total > |buf| then NotDecoded
        else Extracted(buf[offset..offset + total])
  }

  // ---- one round of the loop ----

  /** A round that prints a node and what is below it. */
  lemma WalkOn(buf: Buffer, p: nat, end: nat, depth: nat, h: Header, lines: seq<NodeInfo>)
    requires p < end <= |buf| && HeaderAt(buf, p) == Ok(h) && p + h.headerLen + h.contentLen <= end
    ensures var inner := WalkContent(buf, p + h.headerLen, h, end, depth);
      var shown := lines + [Line(p, depth, h)] + inner.lines;
      WalkFrom(buf, p, end, depth).After(lines) ==
        if inner.status != Success then Outcome(inner.status, shown)
        else WalkFrom(buf, p + h.headerLen + h.contentLen, end, depth).After(shown)
  {
    hide HeaderAt, WalkContent;
    var inner := WalkContent(buf, p + h.headerLen, h, end, depth).lines;
    var rest := WalkFrom(buf, p + h.headerLen + h.contentLen, end, depth).lines;
    assert lines + ([Line(p, depth, h)] + inner) == lines + [Line(p, depth, h)] + inner;
    assert lines + ([Line(p, depth, h)] + inner + rest) == lines + [Line(p, depth, h)] + inner + rest;
  }

  /** A round that ends the walk. */
  lemma WalkStops(buf: Buffer, p: nat, end: nat, depth: nat, lines: seq<NodeInfo>)
    requires p <= end <= |buf|
    ensures p == end ==> WalkFrom(buf, p, end, depth).After(lines) == Outcome(Success, lines)
    ensures p < end && HeaderAt(buf, p).Fail? ==> WalkFrom(buf, p, end, depth).After(lines) == Outcome(DecodeFailed, lines)
    ensures p < end && HeaderAt(buf, p).Ok? ==>
      var next := p + HeaderAt(buf, p).value.headerLen + HeaderAt(buf, p).value.contentLen;
      && (next > SIZE_MAX ==> WalkFrom(buf, p, end, depth).After(lines) == Outcome(SumWraps, lines))
      && (end < next <= SIZE_MAX ==> WalkFrom(buf, p, end, depth).After(lines) == Outcome(DecodeFailed, lines))
  {
    hide HeaderAt, WalkContent;
    assert lines + [] == lines;
  }

  /** What a successful walk says of its first node. */
  lemma WalkSucceeds(buf: Buffer, p: nat, end: nat, depth: nat)
    requires p < end <= |buf| && WalkFrom(buf, p, end, depth).status == Success
    ensures HeaderAt(buf, p).Ok?
    ensures var h := HeaderAt(buf, p).value;
      var next := p + h.headerLen + h.contentLen;
      && next <= end
      && WalkContent(buf, p + h.headerLen, h, end, depth).status == Success
      && WalkFrom(buf, next, end, depth).status == Success
      && WalkFrom(buf, p, end, depth).lines ==
         [Line(p, depth, h)] + WalkContent(buf, p + h.headerLen, h, end, depth).lines + WalkFrom(buf, next, end, depth).lines
  {
    hide HeaderAt, WalkContent;
  }

  lemma WalkJoins(buf: Buffer, p: nat, end: nat, depth: nat, h: Header)
    requires p < end <= |buf| && HeaderAt(buf, p) == Ok(h) && p + h.headerLen + h.contentLen <= end
    requires WalkContent(buf, p + h.headerLen, h, end, depth).status == Success
    requires WalkFrom(buf, p + h.headerLen + h.contentLen, end, depth).status == Success
    ensures WalkFrom(buf, p, end, depth) == Outcome(Success,
      [Line(p, depth, h)] + WalkContent(buf, p + h.headerLen, h, end, depth).lines
      + WalkFrom(buf, p + h.headerLen + h.contentLen, end, depth).lines)
  {
    hide HeaderAt, WalkContent;
  }

  // ---- the walk as the source runs it ----

  method AppAsn1ParseBuffer(buf: Buffer) returns (status: Status, lines: seq<NodeInfo>)
    ensures Outcome(status, lines) == Parse(buf)
  {
    if |buf| == 0 {
      return InvalidArgument, [];
    }
    status, lines := ParseRecursive(buf, 0, |buf|, 0);
  }

  method ParseRecursive(buf: Buffer, base: nat, avail: nat, depth: nat)
    returns (status: Status, lines: seq<NodeInfo>)
    ensures Outcome(status, lines) == WalkRegion(buf, base, avail, depth)
    decreases avail, 1
  {
    hide HeaderAt, WalkContent, WalkFrom;
    lines := [];
    if depth > MAX_PARSE_DEPTH {
      return InvalidArgument, lines;
    }
    var p := base;
    var end := base + avail;
    if base >= |buf| || avail == 0 || end > |buf| {
      return Success, lines;
    }
    assert WalkFrom(buf, base, end, depth).After([]) == WalkFrom(buf, base, end, depth);
    while p < end
      invariant base <= p <= end
      invariant WalkFrom(buf, p, end, depth).After(lines) == WalkFrom(buf, base, end, depth)
      decreases end - p
    {
      WalkStops(buf, p, end, depth, lines);
      var result := ParseSingleNode(buf, p);
      if result.Fail? {
        return DecodeFailed, lines;
      }
      var h := result.value;
      if p + h.headerLen + h.contentLen > SIZE_MAX {
        return SumWraps, lines;
      }
      if !BoundsAccepted(p, h.headerLen, h.contentLen, |buf|, end) {
        return DecodeFailed, lines;
      }
      WalkOn(buf, p, end, depth, h, lines);
      lines := lines + [Line(p, depth, h)];
      var rc, printed := ProcessParsedNode(buf, p, h, end, depth);
      lines := lines + printed;
      if rc != Success {
        return rc, lines;
      }
      p := p + h.headerLen + h.contentLen;
    }
    WalkStops(buf, p, end, depth, lines);
    return Success, lines;
  }

  method ProcessParsedNode(buf: Buffer, p: nat, h: Header, end: nat, depth: nat)
    returns (status: Status, lines: seq<NodeInfo>)
    requires p + h.headerLen + h.contentLen <= end <= |buf|
    ensures Outcome(status, lines) == WalkContent(buf, p + h.headerLen, h, end, depth)
    decreases h.contentLen, 3
  {
    var contentOff := p + h.headerLen;
    if h.tag.constructed {
      status, lines := ParseRecursive(buf, contentOff, h.contentLen, depth + 1);
    } else if h.tag.tagClass == 0 && h.tag.tagNumber == TAG_BIT_STRING && h.contentLen > 1 {
      status, lines := ParseEmbeddedDer(buf, contentOff, h.contentLen, end, depth);
    } else {
      status, lines := Success, [];
    }
  }

  method ParseEmbeddedDer(buf: Buffer, contentOff: nat, contentLen: nat, end: nat, depth: nat)
    returns (status: Status, lines: seq<NodeInfo>)
    requires 1 < contentLen && contentOff + contentLen <= end <= |buf|
    ensures Outcome(status, lines) ==
            if LooksLikeDer(buf, contentOff + 1, contentLen - 1, end)
            then WalkRegion(buf, contentOff + 1, contentLen - 1, depth + 1)
            else Outcome(Success, [])
    decreases contentLen, 2
  {
    hide TagAt, LengthAt, WalkRegion;
    status, lines := Success, [];
    var innerOff := contentOff + 1;
    var innerLen := contentLen - 1;
    if innerOff + MIN_BER_HEADER_SIZE > end || innerLen < MIN_BER_HEADER_SIZE {
      return;
    }
    var tag := ReadTag(buf, innerOff);
    if tag.Fail? {
      return;
    }
    var len := ReadLength(buf, innerOff + tag.value.tagBytes);
    if len.Fail? {
      return;
    }
    var sizeMatches :=
      (tag.value.tagBytes + len.value.lenLen + len.value.contentLen) % TWO_TO_THE_64 <= innerLen;
    var isUniversalClass := tag.value.tagClass == 0;
    var isCommonContainer := tag.value.tagNumber == TAG_SEQUENCE || tag.value.tagNumber == TAG_SET
                             || tag.value.tagNumber == TAG_OCTET_STRING;
    var hasValidLengths := tag.value.tagBytes <= MAX_TAG_BYTES && len.value.lenLen <= MAX_LEN_BYTES;
    if sizeMatches && isUniversalClass && isCommonContainer && hasValidLengths {
      status, lines := ParseRecursive(buf, innerOff, innerLen, depth + 1);
    }
  }

  method AppAsn1GetNodeBytes(buf: Buffer, offset: nat) returns (r: Extract)
    ensures r == NodeBytes(buf, offset)
  {
    var tag := ReadTag(buf, offset);
    if tag.Fail? {
      return NotDecoded;
    }
    var len := ReadLength(buf, offset + tag.value.tagBytes);
    if len.Fail? {
      return NotDecoded;
    }
    var total := tag.value.tagBytes + len.value.lenLen + len.value.contentLen;
    if offset + total > SIZE_MAX {
      return ExtractSumWraps;
    }
    if offset + total > |buf| {
      return NotDecoded;
    }
    return Extracted(buf[offset..offset + total]);
  }
}
