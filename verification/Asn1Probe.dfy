/** When the content of a BIT STRING is walked: the probe of ParseEmbeddedDer in app_asn1parse.c, in
    terms of octets. */
module Asn1Probe {
  import opened Octets
  import opened Asn1Header
  import opened Asn1Walk

  // ---- the octets ----

  /** The first `t` octets are identifier octets of a universal OCTET STRING, SEQUENCE or SET, in one
      octet or in long form with any leading zeros, at most eight in all. */
  predicate ContainerTag(s: bytes, t: nat) {
    && 1 <= t <= 8 && t <= |s|
    && if t == 1 then s[0] in {0x04, 0x24, 0x10, 0x30, 0x11, 0x31}
       else s[0] in {0x1F, 0x3F} && (forall i | 1 <= i < t - 1 :: s[i] == 0x80) && s[t - 1] in {0x04, 0x10, 0x11}
  }

  function BigEndian(s: bytes): nat {
    if s == [] then 0 else BigEndian(s[..|s| - 1]) * 256 + s[|s| - 1]
  }

  /** From `t` on there are length octets, at most eight, and as much content as they say. */
  predicate LengthFits(s: bytes, t: nat) {
    && t < |s|
    && if s[t] < 0x80 then t + 1 + s[t] <= |s|
       else
         var n := s[t] - 0x80;
         && 1 <= n <= 7 && t + 1 + n <= |s|
         && t + 1 + n + BigEndian(s[t + 1..t + 1 + n]) <= |s|
  }

  ghost predicate BeginsContainer(s: bytes) {
    exists t: nat :: ContainerTag(s, t) && LengthFits(s, t)
  }

  // ---- long-form tags with a small number ----

  lemma ShiftSmall(acc: nat, j: nat, b: byte)
    requires 1 <= j < MAX_TAG_BYTES && acc < Pow(128, j - 1)
    ensures Shift7(acc, b) == acc * 128 + b % 128 < Pow(128, j)
  {
    PowMonotone(128, j, 7);
    assert Pow(128, 7) == 0x2_0000_0000_0000;
    assert Pow(128, j) == 128 * Pow(128, j - 1);
    assert acc * 128 < TWO_TO_THE_64;
  }

  /** A number below 128 has only zero digits before its last. */
  lemma {:induction false} SmallLongTag(buf: bytes, off: nat, j: nat, acc: nat)
    requires 1 <= j < MAX_TAG_BYTES && acc < Pow(128, j - 1) && LongTag(buf, off, j, acc).Some?
    ensures var (number, k) := LongTag(buf, off, j, acc).value;
      && number >= acc * 128
      && (acc == 0 && number < 128 ==>
            (forall i | off + j <= i < off + k - 1 :: buf[i] == 0x80) && buf[off + k - 1] == number)
    decreases MAX_TAG_BYTES - j
  {
    hide Shift7;
    var b := buf[off + j];
    ShiftSmall(acc, j, b);
    if b >= 128 {
      SmallLongTag(buf, off, j + 1, Shift7(acc, b));
    }
  }

  lemma {:induction false} ZerosThenLast(buf: bytes, off: nat, j: nat, t: nat)
    requires 1 <= j < t <= MAX_TAG_BYTES && off + t <= |buf|
    requires (forall i | off + j <= i < off + t - 1 :: buf[i] == 0x80) && buf[off + t - 1] < 128
    ensures LongTag(buf, off, j, 0) == Some((buf[off + t - 1] as nat, t))
    decreases t - j
  {
    if j < t - 1 {
      assert buf[off + j] == 0x80;
      ZerosThenLast(buf, off, j + 1, t);
    }
  }

  // ---- one part at a time ----

  /** `s` is the part of `buf` at `off`. */
  predicate At(buf: bytes, off: nat, s: bytes) {
    off + |s| <= |buf| && buf[off..off + |s|] == s
  }

  lemma OctetAt(buf: bytes, off: nat, s: bytes, i: nat)
    requires At(buf, off, s) && i < |s|
    ensures buf[off + i] == s[i]
  {
    assert buf[off..off + |s|][i] == s[i];
  }

  predicate ReadsContainer(buf: bytes, off: nat, t: nat) {
    && TagAt(buf, off).Ok? && TagAt(buf, off).value.tagBytes == t
    && TagAt(buf, off).value.tagClass == 0 && TagAt(buf, off).value.tagNumber in {4, 16, 17}
  }

  lemma ShortTagIff(buf: bytes, off: nat, s: bytes)
    requires At(buf, off, s) && s != [] && s[0] % 32 != 31
    ensures TagAt(buf, off).Ok? && TagAt(buf, off).value.tagBytes == 1
    ensures ReadsContainer(buf, off, 1) <==> ContainerTag(s, 1)
  {
    OctetAt(buf, off, s, 0);
  }

  lemma LongTagReads(buf: bytes, off: nat, s: bytes, t: nat)
    requires At(buf, off, s) && 2 <= t <= |s| && ReadsContainer(buf, off, t)
    ensures ContainerTag(s, t)
  {
    OctetAt(buf, off, s, 0);
    assert Pow(128, 0) == 1;
    SmallLongTag(buf, off, 1, 0);
    forall i | 1 <= i < t - 1 ensures s[i] == 0x80 {
      OctetAt(buf, off, s, i);
      assert buf[off + i] == 0x80;
    }
    OctetAt(buf, off, s, t - 1);
  }

  lemma LongTagIsRead(buf: bytes, off: nat, s: bytes, t: nat)
    requires At(buf, off, s) && t >= 2 && ContainerTag(s, t)
    ensures ReadsContainer(buf, off, t)
  {
    OctetAt(buf, off, s, 0);
    forall i | off + 1 <= i < off + t - 1 ensures buf[i] == 0x80 {
      OctetAt(buf, off, s, i - off);
    }
    OctetAt(buf, off, s, t - 1);
    ZerosThenLast(buf, off, 1, t);
  }

  lemma TagIff(buf: bytes, off: nat, s: bytes, t: nat)
    requires At(buf, off, s) && 1 <= t <= |s|
    ensures ReadsContainer(buf, off, t) <==> ContainerTag(s, t)
  {
    hide TagAt;
    if s[0] % 32 != 31 {
      ShortTagIff(buf, off, s);
    } else {
      LongForm(buf, off, s);
      if t >= 2 {
        if ReadsContainer(buf, off, t) {
          LongTagReads(buf, off, s, t);
        }
        if ContainerTag(s, t) {
          LongTagIsRead(buf, off, s, t);
        }
      }
    }
  }

  lemma LongForm(buf: bytes, off: nat, s: bytes)
    requires At(buf, off, s) && s != [] && s[0] % 32 == 31
    ensures TagAt(buf, off).Ok? ==> TagAt(buf, off).value.tagBytes >= 2
  {
    OctetAt(buf, off, s, 0);
  }

  lemma {:induction false} BeValueIs(buf: bytes, off: nat, s: bytes)
    requires At(buf, off, s)
    ensures BeValue(buf, off, |s|) == BigEndian(s)
    decreases |s|
  {
    if s != [] {
      SliceSnoc(buf, off, s[..|s| - 1], s[|s| - 1]);
      assert s == s[..|s| - 1] + [s[|s| - 1]];
      BeValueIs(buf, off, s[..|s| - 1]);
    }
  }

  /** The length is read, in at most eight octets, and header and content fit `n` octets. */
  predicate ReadsLength(buf: bytes, off: nat, t: nat, n: nat) {
    && LengthAt(buf, off + t).Ok?
    && var len := LengthAt(buf, off + t).value;
    len.lenLen <= 8 && t + len.lenLen + len.contentLen <= n
  }

  lemma LengthIff(buf: bytes, off: nat, s: bytes, t: nat)
    requires At(buf, off, s) && t <= |s|
    ensures ReadsLength(buf, off, t, |s|) <==> LengthFits(s, t)
  {
    hide BigEndian, BeValue;
    if t < |s| {
      OctetAt(buf, off, s, t);
      var n: int := (s[t] as int) - 0x80;
      if 1 <= n <= 7 && t + 1 + n <= |s| {
        assert At(buf, off + t + 1, s[t + 1..t + 1 + n]) by {
          SubSlice(buf, off, s, 0, |s|, t + 1, n);
        }
        BeValueIs(buf, off + t + 1, s[t + 1..t + 1 + n]);
      }
    }
  }

  /** Fewer than nine length octets hold less than 2^56, so the probe's own sum cannot wrap. */
  lemma ShortLengthBound(buf: bytes, off: nat)
    requires LengthAt(buf, off).Ok? && LengthAt(buf, off).value.lenLen <= MAX_LEN_BYTES
    ensures LengthAt(buf, off).value.contentLen < 0x100_0000_0000_0000
  {
    if buf[off] >= 128 {
      var n := buf[off] - 128;
      BeValueBound(buf, off + 1, n);
      PowMonotone(256, n, 7);
      assert Pow(256, 7) == 0x100_0000_0000_0000;
    }
  }

  lemma ProbeParts(buf: Buffer, off: nat, n: nat, end: nat)
    requires off + n <= end <= |buf|
    ensures LooksLikeDer(buf, off, n, end) <==>
      TagAt(buf, off).Ok? && var t := TagAt(buf, off).value.tagBytes; ReadsContainer(buf, off, t) && ReadsLength(buf, off, t, n)
  {
    hide TagAt, LengthAt;
    if TagAt(buf, off).Ok? {
      var p := off + TagAt(buf, off).value.tagBytes;
      if LengthAt(buf, p).Ok? && LengthAt(buf, p).value.lenLen <= MAX_LEN_BYTES {
        ShortLengthBound(buf, p);
      }
    }
  }

  /** The probe says yes exactly when the octets begin a universal OCTET STRING, SEQUENCE or SET that fits. */
  lemma ProbeIff(buf: Buffer, off: nat, n: nat, end: nat)
    requires off + n <= end <= |buf|
    ensures LooksLikeDer(buf, off, n, end) <==> BeginsContainer(buf[off..off + n])
  {
    hide TagAt, LengthAt, LooksLikeDer, ReadsContainer, ReadsLength, ContainerTag, LengthFits;
    var s := buf[off..off + n];
    ProbeParts(buf, off, n, end);
    if LooksLikeDer(buf, off, n, end) {
      var t := TagAt(buf, off).value.tagBytes;
      FitsTag(buf, off, t, n);
      TagIff(buf, off, s, t);
      LengthIff(buf, off, s, t);
    }
    if BeginsContainer(s) {
      var t: nat :| ContainerTag(s, t) && LengthFits(s, t);
      ContainerSize(s, t);
      TagIff(buf, off, s, t);
      LengthIff(buf, off, s, t);
      TagSize(buf, off, t);
    }
  }

  lemma FitsTag(buf: bytes, off: nat, t: nat, n: nat)
    requires ReadsContainer(buf, off, t) && ReadsLength(buf, off, t, n)
    ensures 1 <= t <= n
  {
    hide TagAt, LengthAt;
  }

  lemma ContainerSize(s: bytes, t: nat)
    requires ContainerTag(s, t)
    ensures 1 <= t <= |s|
  {
  }

  lemma TagSize(buf: bytes, off: nat, t: nat)
    requires ReadsContainer(buf, off, t)
    ensures TagAt(buf, off).Ok? && TagAt(buf, off).value.tagBytes == t
  {
    hide TagAt;
  }

  // ---- what is printed below a BIT STRING ----

  /** A region that begins with a node that fits prints at least that node. */
  lemma FirstIsPrinted(buf: Buffer, base: nat, avail: nat, depth: nat, t: nat)
    requires base + avail <= |buf| && depth <= 128
    requires ReadsContainer(buf, base, t) && ReadsLength(buf, base, t, avail)
    ensures WalkRegion(buf, base, avail, depth).lines != []
  {
    hide TagAt, LengthAt;
    ShortLengthBound(buf, base + t);
    assert HeaderAt(buf, base).Ok?;
    hide HeaderAt;
  }

  /** Nodes appear below a primitive BIT STRING of two or more octets exactly when the octets behind
      its first begin a universal OCTET STRING, SEQUENCE or SET that fits; otherwise it stands alone. */
  lemma BitStringBelow(buf: Buffer, contentOff: nat, h: Header, end: nat, depth: nat)
    requires contentOff + h.contentLen <= end <= |buf| && depth <= 127
    requires !h.tag.constructed && h.tag.tagClass == 0 && h.tag.tagNumber == 3 && h.contentLen >= 2
    ensures var inner := buf[contentOff + 1..contentOff + h.contentLen];
      && (WalkContent(buf, contentOff, h, end, depth).lines != [] <==> BeginsContainer(inner))
      && (!BeginsContainer(inner) ==> WalkContent(buf, contentOff, h, end, depth) == Outcome(Success, []))
  {
    hide LooksLikeDer, WalkRegion, BeginsContainer, ReadsContainer, ReadsLength;
    var base, n := contentOff + 1, h.contentLen - 1;
    ProbeIff(buf, base, n, end);
    ProbeParts(buf, base, n, end);
    if LooksLikeDer(buf, base, n, end) {
      FirstIsPrinted(buf, base, n, depth + 1, TagAt(buf, base).value.tagBytes);
    }
  }

  /** Of all other primitive nodes nothing is below. */
  lemma NothingBelow(buf: Buffer, contentOff: nat, h: Header, end: nat, depth: nat)
    requires contentOff + h.contentLen <= end <= |buf|
    requires !h.tag.constructed && (h.tag.tagClass != 0 || h.tag.tagNumber != 3 || h.contentLen < 2)
    ensures WalkContent(buf, contentOff, h, end, depth) == Outcome(Success, [])
  {
  }
}
