/** Object identifiers: ParseOidArc, ParseOidFirstArc, ParseOidNodes and OidBytesToDottedAlloc of
    app_asn1parse.c, against the encoding of X.690 section 8.19. */
module Oid {
  import opened Octets
  import opened Strings
  import opened Asn1Header

  const MAX_OID_NODES: nat := 64
  const MAX_BYTES_PER_ARC: nat := 9
  const ARC_SIZE: nat := 40
  const TMP_SIZE: nat := 512
  const TMP_MARGIN: nat := 32
  const TWO_TO_THE_63: nat := 0x8000_0000_0000_0000

  // ---- one arc ----

  /** The loop of ParseOidArc with `n` octets of the arc consumed: value and next position. */
  function ArcFrom(buf: bytes, end: nat, i: nat, n: nat, val: nat): (r: Option<(nat, nat)>)
    requires end <= |buf|
    ensures r.Some? ==> i < r.value.1 <= end
    decreases MAX_BYTES_PER_ARC - n
  {
    if i >= end || n >= MAX_BYTES_PER_ARC then None
    else
      var v := Shift7(val, buf[i]);
      if buf[i] < 128 then Some((v, i + 1)) else ArcFrom(buf, end, i + 1, n + 1, v)
  }

  /** Nine septets never reach the 64-bit edge. */
  lemma {:induction false} ArcBound(buf: bytes, end: nat, i: nat, n: nat, val: nat)
    requires end <= |buf| && n <= MAX_BYTES_PER_ARC && val < Pow(128, n)
    requires ArcFrom(buf, end, i, n, val).Some?
    ensures ArcFrom(buf, end, i, n, val).value.0 < TWO_TO_THE_63
    decreases MAX_BYTES_PER_ARC - n
  {
    var v := Shift7(val, buf[i]);
    PowMonotone(128, n, 8);
    PowMonotone(128, n + 1, 9);
    assert Pow(128, 8) == 0x100_0000_0000_0000 && Pow(128, 9) == TWO_TO_THE_63;
    assert v == val * 128 + buf[i] % 128 < Pow(128, n + 1);
    if buf[i] >= 128 {
      ArcBound(buf, end, i + 1, n + 1, v);
    }
  }

  method ParseOidArc(buf: bytes, end: nat, pos: nat) returns (r: Option<(nat, nat)>)
    requires end <= |buf|
    ensures r == ArcFrom(buf, end, pos, 0, 0)
    ensures r.Some? ==> r.value.0 < TWO_TO_THE_63
  {
    var val: nat, count: nat, i: nat := 0, 0, pos;
    while i < end && count < MAX_BYTES_PER_ARC
      invariant count <= MAX_BYTES_PER_ARC
      invariant ArcFrom(buf, end, i, count, val) == ArcFrom(buf, end, pos, 0, 0)
      decreases MAX_BYTES_PER_ARC - count
    {
      var b := buf[i];
      i := i + 1;
      val := Shift7(val, b);
      count := count + 1;
      if b < 128 {
        ArcBound(buf, end, pos, 0, 0);
        return Some((val, i));
      }
    }
    return None;
  }

  // ---- all arcs ----

  function SplitFirst(first: nat): seq<nat> {
    if first < 2 * ARC_SIZE then [first / ARC_SIZE, first % ARC_SIZE] else [2, first - 2 * ARC_SIZE]
  }

  /** The loop of ParseOidNodes, with room for `room` more arcs. */
  function MoreArcs(buf: bytes, end: nat, i: nat, room: nat): (r: seq<nat>)
    requires end <= |buf|
    ensures |r| <= room
    decreases room
  {
    if i >= end || room == 0 then []
    else match ArcFrom(buf, end, i, 0, 0)
      case None => []
      case Some((v, next)) => [v] + MoreArcs(buf, end, next, room - 1)
  }

  function OidNodes(buf: bytes, off: nat, len: nat): (r: seq<nat>)
    ensures |r| <= MAX_OID_NODES
  {
    if len == 0 || off >= |buf| || off + len > |buf| then []
    else match ArcFrom(buf, off + len, off, 0, 0)
      case None => []
      case Some((first, next)) => SplitFirst(first) + MoreArcs(buf, off + len, next, MAX_OID_NODES - 2)
  }

  method ParseOidFirstArc(buf: bytes, end: nat, pos: nat, nodes: array<nat>) returns (r: Option<nat>)
    requires end <= |buf| && nodes.Length == 64
    modifies nodes
    ensures r.None? <==> ArcFrom(buf, end, pos, 0, 0).None?
    ensures r.Some? ==> r.value == ArcFrom(buf, end, pos, 0, 0).value.1
    ensures r.Some? ==> nodes[..2] == SplitFirst(ArcFrom(buf, end, pos, 0, 0).value.0)
    ensures r.Some? ==> nodes[0] < TWO_TO_THE_63 && nodes[1] < TWO_TO_THE_63
  {
    hide ArcFrom;
    var arc := ParseOidArc(buf, end, pos);
    if arc.None? {
      return None;
    }
    var first := arc.value.0;
    if first < 2 * ARC_SIZE {
      nodes[0], nodes[1] := first / ARC_SIZE, first % ARC_SIZE;
    } else {
      nodes[0], nodes[1] := 2, first - 2 * ARC_SIZE;
    }
    return Some(arc.value.1);
  }

  /** Fills the caller's array; its 64 slots are never overrun. */
  method ParseOidNodes(buf: bytes, off: nat, len: nat, nodes: array<nat>) returns (nn: nat)
    requires nodes.Length == 64
    modifies nodes
    ensures nn <= nodes.Length && nodes[..nn] == OidNodes(buf, off, len)
    ensures forall k | 0 <= k < nn :: nodes[k] < TWO_TO_THE_63
  {
    hide ArcFrom, SplitFirst, MoreArcs;
    if len == 0 || off >= |buf| || off + len > |buf| {
      return 0;
    }
    var end := off + len;
    var first := ParseOidFirstArc(buf, end, off, nodes);
    if first.None? {
      return 0;
    }
    var i: nat := first.value;
    nn := 2;
    ghost var got := nodes[..2];
    while i < end && nn < MAX_OID_NODES
      invariant 2 <= nn <= MAX_OID_NODES && nodes[..nn] == got
      invariant got + MoreArcs(buf, end, i, MAX_OID_NODES - nn) == OidNodes(buf, off, len)
      invariant forall k | 0 <= k < |got| :: got[k] < TWO_TO_THE_63
      decreases MAX_OID_NODES - nn
    {
      MoreArcsStep(buf, end, i, MAX_OID_NODES - nn, got);
      var arc := ParseOidArc(buf, end, i);
      if arc.None? {
        return;
      }
      nodes[nn] := arc.value.0;
      nn := nn + 1;
      i := arc.value.1;
      got := got + [arc.value.0];
    }
    MoreArcsEnd(buf, end, i, MAX_OID_NODES - nn, got);
  }

  lemma MoreArcsStep(buf: bytes, end: nat, i: nat, room: nat, got: seq<nat>)
    requires end <= |buf| && i < end && room > 0
    ensures got + MoreArcs(buf, end, i, room) ==
      match ArcFrom(buf, end, i, 0, 0)
      case None => got
      case Some((v, next)) => got + [v] + MoreArcs(buf, end, next, room - 1)
  {
    hide ArcFrom;
  }

  lemma MoreArcsEnd(buf: bytes, end: nat, i: nat, room: nat, got: seq<nat>)
    requires end <= |buf| && (i >= end || room == 0)
    ensures got + MoreArcs(buf, end, i, room) == got
  {
  }

  // ---- decode(encode(oid)) ----

  /** An object identifier: two arcs or more, the first two as X.660 allows them, every encoded
      subidentifier below 2^63. */
  predicate IsOid(arcs: seq<nat>) {
    && 2 <= |arcs|
    && ((arcs[0] < 2 && arcs[1] < 40) || arcs[0] == 2)
    && arcs[0] * 40 + arcs[1] < TWO_TO_THE_63
    && forall k | 2 <= k < |arcs| :: arcs[k] < TWO_TO_THE_63
  }

  function EncodeArcs(arcs: seq<nat>): bytes {
    if arcs == [] then [] else Base128(arcs[0]) + EncodeArcs(arcs[1..])
  }

  /** X.690 section 8.19: the first two arcs share a subidentifier. */
  function EncodeOid(arcs: seq<nat>): bytes
    requires |arcs| >= 2
  {
    Base128(arcs[0] * 40 + arcs[1]) + EncodeArcs(arcs[2..])
  }

  lemma ArcStep(buf: bytes, end: nat, i: nat, n: nat, val: nat)
    requires i < end <= |buf| && n < MAX_BYTES_PER_ARC
    ensures ArcFrom(buf, end, i, n, val) ==
      var v := Shift7(val, buf[i]);
      if buf[i] < 128 then Some((v, i + 1)) else ArcFrom(buf, end, i + 1, n + 1, v)
  {
  }

  lemma {:induction false} ArcPrefix(buf: bytes, end: nat, i: nat, n: nat)
    requires n < TWO_TO_THE_64 && end <= |buf|
    requires var m := |Base128More(n)|; m < MAX_BYTES_PER_ARC && i + m <= end && buf[i..i + m] == Base128More(n)
    ensures ArcFrom(buf, end, i, 0, 0) == ArcFrom(buf, end, i + |Base128More(n)|, |Base128More(n)|, n)
  {
    hide ArcFrom, Base128More, Shift7;
    var m := |Base128More(n)|;
    LastOfMore(buf, i, n);
    Shift7Exact(n, buf[i + m - 1]);
    ArcStep(buf, end, i + m - 1, m - 1, n / 128);
    if n >= 128 {
      ArcPrefix(buf, end, i, n / 128);
    }
  }

  lemma ArcRoundTrip(buf: bytes, end: nat, i: nat, n: nat)
    requires n < TWO_TO_THE_63 && i + |Base128(n)| <= end <= |buf|
    requires buf[i..i + |Base128(n)|] == Base128(n)
    ensures ArcFrom(buf, end, i, 0, 0) == Some((n, i + |Base128(n)|))
  {
    hide ArcFrom, Base128More, Base128, Shift7;
    var m := |Base128(n)|;
    assert Pow(128, 9) == TWO_TO_THE_63;
    Base128Size(n, 9);
    LastOfBase128(buf, i, n);
    Shift7Exact(n, buf[i + m - 1]);
    ArcStep(buf, end, i + m - 1, m - 1, n / 128);
    if n >= 128 {
      ArcPrefix(buf, end, i, n / 128);
    }
  }

  function Taken(arcs: seq<nat>, n: nat): seq<nat> { if |arcs| <= n then arcs else arcs[..n] }

  lemma {:induction false} ArcsRoundTrip(buf: bytes, end: nat, i: nat, arcs: seq<nat>, room: nat)
    requires i <= end <= |buf| && buf[i..end] == EncodeArcs(arcs)
    requires forall k | 0 <= k < |arcs| :: arcs[k] < TWO_TO_THE_63
    ensures MoreArcs(buf, end, i, room) == Taken(arcs, room)
    decreases |arcs|
  {
    hide ArcFrom, Base128;
    if arcs != [] && room > 0 {
      SliceParts(buf, i, end, Base128(arcs[0]), EncodeArcs(arcs[1..]), []);
      ArcRoundTrip(buf, end, i, arcs[0]);
      ArcsRoundTrip(buf, end, i + |Base128(arcs[0])|, arcs[1..], room - 1);
      assert [arcs[0]] + Taken(arcs[1..], room - 1) == Taken(arcs, room);
    }
  }

  lemma FirstTwo(arcs: seq<nat>)
    requires IsOid(arcs)
    ensures SplitFirst(arcs[0] * 40 + arcs[1]) == arcs[..2]
  {
    var first := arcs[0] * 40 + arcs[1];
    if arcs[0] < 2 {
      assert first / 40 == arcs[0] && first % 40 == arcs[1];
    }
    assert arcs[..2] == [arcs[0], arcs[1]];
  }

  /** Decoding the encoding of an object identifier returns its first 64 arcs, wherever it lies. */
  lemma OidRoundTrip(buf: bytes, off: nat, arcs: seq<nat>)
    requires IsOid(arcs)
    requires off + |EncodeOid(arcs)| <= |buf| && buf[off..off + |EncodeOid(arcs)|] == EncodeOid(arcs)
    ensures OidNodes(buf, off, |EncodeOid(arcs)|) == Taken(arcs, 64)
  {
    hide ArcFrom, Base128, EncodeArcs, MoreArcs, SplitFirst;
    var end := off + |EncodeOid(arcs)|;
    var first := arcs[0] * 40 + arcs[1];
    assert EncodeOid(arcs) == Base128(first) + EncodeArcs(arcs[2..]) + [];
    SliceParts(buf, off, end, Base128(first), EncodeArcs(arcs[2..]), []);
    ArcRoundTrip(buf, end, off, first);
    assert forall k | 0 <= k < |arcs| - 2 :: arcs[2..][k] == arcs[k + 2];
    ArcsRoundTrip(buf, end, off + |Base128(first)|, arcs[2..], MAX_OID_NODES - 2);
    FirstTwo(arcs);
    assert Taken(arcs, 64) == arcs[..2] + Taken(arcs[2..], 62);
  }

  /** 1.2.840.113549, the arc of RSA Security, as X.690 section 8.19 encodes it. */
  lemma KnownOid()
    ensures EncodeOid([1, 2, 840, 113549]) == [0x2A, 0x86, 0x48, 0x86, 0xF7, 0x0D]
  {
    assert Base128(42) == [0x2A];
    assert Base128More(6) == [0x86] && Base128(840) == [0x86, 0x48];
    assert Base128More(887) == [0x86, 0xF7] && Base128(113549) == [0x86, 0xF7, 0x0D];
    var arcs := [1, 2, 840, 113549];
    assert arcs[2..] == [840, 113549] && [840, 113549][1..] == [113549] && [113549][1..] == [];
  }

  // ---- dotted text ----

  lemma {:induction false} DecimalSize(n: nat, k: nat)
    requires k >= 1 && n < Pow(10, k)
    ensures |Decimal(n)| <= k
  {
    if n >= 10 {
      assert k > 1;
      assert n / 10 < Pow(10, k - 1);
      DecimalSize(n / 10, k - 1);
    }
  }

  lemma ArcDigits(n: nat)
    requires n < TWO_TO_THE_63
    ensures |Decimal(n)| <= 19
  {
    assert Pow(10, 5) == 100_000;
    assert Pow(10, 10) == 10_000_000_000;
    assert Pow(10, 15) == 1_000_000_000_000_000;
    assert Pow(10, 19) == 10_000_000_000_000_000_000;
    DecimalSize(n, 19);
  }

  function Dotted(nodes: seq<nat>): string {
    if nodes == [] then ""
    else if |nodes| == 1 then Decimal(nodes[0])
    else Dotted(nodes[..|nodes| - 1]) + "." + Decimal(nodes[|nodes| - 1])
  }

  lemma NothingDotted()
    ensures Dotted([]) == ""
  {
  }

  lemma DottedSnoc(nodes: seq<nat>, n: nat)
    ensures Dotted(nodes + [n]) == Dotted(nodes) + (if nodes == [] then "" else ".") + Decimal(n)
  {
    hide Decimal;
    assert (nodes + [n])[..|nodes|] == nodes;
  }

  /** The dotted text of as many leading arcs as the 512-byte scratch admits: at most 499
      characters, and all arcs unless the text reached 480. Every write fits what is left of
      the scratch, so none is cut short. */
  method OidBytesToDotted(buf: bytes, off: nat, len: nat) returns (r: Option<string>)
    ensures r.None? <==> OidNodes(buf, off, len) == []
    ensures r.Some? ==>
      exists k :: && 1 <= k <= |OidNodes(buf, off, len)|
                  && r.value == Dotted(OidNodes(buf, off, len)[..k])
                  && (k < |OidNodes(buf, off, len)| ==> |r.value| >= 480)
    ensures r.Some? ==> |r.value| <= 499
  {
    hide OidNodes, Dotted, Decimal;
    var nodes := new nat[MAX_OID_NODES];
    var nn := ParseOidNodes(buf, off, len, nodes);
    if nn == 0 {
      assert nodes[..0] == [];
      return None;
    }
    var text := "";
    var i := 0;
    NothingDotted();
    assert nodes[..0] == [];
    while i < nn
      invariant i <= nn <= nodes.Length
      invariant nodes[..nn] == OidNodes(buf, off, len)
      invariant forall k | 0 <= k < nn :: nodes[k] < TWO_TO_THE_63
      invariant text == Dotted(nodes[..i])
      invariant |text| < TMP_SIZE - TMP_MARGIN
    {
      ArcDigits(nodes[i]);
      var written := (if i == 0 then "" else ".") + Decimal(nodes[i]);
      assert |text| + |written| < TMP_SIZE;
      DottedSnoc(nodes[..i], nodes[i]);
      assert nodes[..i] + [nodes[i]] == nodes[..i + 1];
      text := text + written;
      i := i + 1;
      if |text| + TMP_MARGIN >= TMP_SIZE {
        break;
      }
    }
    assert nodes[..nn][..i] == nodes[..i];
    return Some(text);
  }

  lemma KnownText()
    ensures Dotted([2, 5, 4]) == "2.5.4"
  {
    var a, b: seq<nat> := [2, 5, 4], [2, 5];
    assert a[..2] == b && b[..1] == [2];
    assert Dotted([2]) == "2" && Dotted(b) == "2.5";
  }
}
