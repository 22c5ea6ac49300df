/** Identifier and length octets: ReadTag, ReadLength and ParseSingleNode of app_asn1parse.c,
    with the X.690 encodings (sections 8.1.2 and 8.1.3, definite form) they invert. */
module Asn1Header {
  import opened Octets

  const MAX_TAG_BYTES: nat := 8
  const MAX_LEN_BYTES: nat := 8
  const LONG_FORM: nat := 31

  datatype Error = InvalidArg | DecodeFail
  datatype Result<+T> = Ok(value: T) | Fail(error: Error)

  datatype Tag = Tag(tagClass: nat, constructed: bool, tagNumber: nat, tagBytes: nat)
  datatype Length = Length(lenLen: nat, contentLen: nat)

  /** Result of ParseSingleNode: a tag, a length, and the sum of their sizes. */
  datatype Header = Header(tag: Tag, headerLen: nat, contentLen: nat)

  // ---- tag ----

  /** The long-form loop, entered with `k` octets consumed and the number `acc` so far. */
  function LongTag(buf: bytes, off: nat, k: nat, acc: nat): (r: Option<(nat, nat)>)
    requires 1 <= k
    ensures r.Some? ==> k < r.value.1 <= MAX_TAG_BYTES && off + r.value.1 <= |buf|
    decreases MAX_TAG_BYTES - k
  {
    if k >= MAX_TAG_BYTES || off + k >= |buf| then None
    else
      var b := buf[off + k];
      var acc' := Shift7(acc, b);
      if b < 128 then Some((acc', k + 1)) else LongTag(buf, off, k + 1, acc')
  }

  function TagAt(buf: bytes, off: nat): (r: Result<Tag>)
    ensures r.Ok? ==> 1 <= r.value.tagBytes <= MAX_TAG_BYTES && off + r.value.tagBytes <= |buf|
    ensures r.Ok? ==> r.value.tagClass < 4
  {
    if off >= |buf| then Fail(InvalidArg)
    else
      var b := buf[off];
      var t := b % 32;
      if t != LONG_FORM then Ok(Tag(b / 64, b / 32 % 2 == 1, t, 1))
      else match LongTag(buf, off, 1, 0)
        case None => Fail(DecodeFail)
        case Some((number, k)) => Ok(Tag(b / 64, b / 32 % 2 == 1, number, k))
  }

  method ReadTag(buf: bytes, off: nat) returns (r: Result<Tag>)
    ensures r == TagAt(buf, off)
  {
    if off >= |buf| {
      return Fail(InvalidArg);
    }
    var b := buf[off];
    var t := b % 32;
    var tagBytes := 1;
    if t != LONG_FORM {
      return Ok(Tag(b / 64, b / 32 % 2 == 1, t, 1));
    }
    var tagNumber: nat := 0;
    while tagBytes < MAX_TAG_BYTES && off + tagBytes < |buf|
      invariant 1 <= tagBytes <= MAX_TAG_BYTES
      invariant LongTag(buf, off, tagBytes, tagNumber) == LongTag(buf, off, 1, 0)
    {
      var octet := buf[off + tagBytes];
      tagBytes := tagBytes + 1;
      tagNumber := Shift7(tagNumber, octet);
      if octet < 128 {
        return Ok(Tag(b / 64, b / 32 % 2 == 1, tagNumber, tagBytes));
      }
    }
    return Fail(DecodeFail);
  }

  // ---- length ----

  /** Big-endian value of `n` octets of `buf` from `off`. */
  function BeValue(buf: bytes, off: nat, n: nat): nat
    requires off + n <= |buf|
  {
    if n == 0 then 0 else BeValue(buf, off, n - 1) * 256 + buf[off + n - 1]
  }

  lemma {:induction false} BeValueBound(buf: bytes, off: nat, n: nat)
    requires off + n <= |buf|
    ensures BeValue(buf, off, n) < Pow(256, n)
  {
    if n > 0 {
      BeValueBound(buf, off, n - 1);
    }
  }

  function LengthAt(buf: bytes, off: nat): (r: Result<Length>)
    ensures r.Ok? ==> 1 <= r.value.lenLen <= 1 + MAX_LEN_BYTES && off + r.value.lenLen <= |buf|
  {
    if off >= |buf| then Fail(InvalidArg)
    else
      var b := buf[off];
      if b < 128 then Ok(Length(1, b))
      else
        var n := b - 128;
        if n == 0 || n > MAX_LEN_BYTES || off + 1 + n > |buf| then Fail(DecodeFail)
        else Ok(Length(1 + n, BeValue(buf, off + 1, n)))
  }

  /** The overflow test inside the loop never fires: LengthAt has no such branch. */
  method ReadLength(buf: bytes, off: nat) returns (r: Result<Length>)
    ensures r == LengthAt(buf, off)
    ensures r.Ok? ==> r.value.contentLen <= SIZE_MAX
  {
    if off >= |buf| {
      return Fail(InvalidArg);
    }
    var b := buf[off];
    if b < 128 {
      return Ok(Length(1, b));
    }
    var n := b - 128;
    if n == 0 || n > MAX_LEN_BYTES {
      return Fail(DecodeFail);
    }
    if off + 1 + n > |buf| {
      return Fail(DecodeFail);
    }
    var v := 0;
    for i := 0 to n
      invariant v == BeValue(buf, off + 1, i)
    {
      var octet := buf[off + 1 + i];
      BeValueBound(buf, off + 1, i);
      PowMonotone(256, i, 7);
      assert Pow(256, 7) == SIZE_MAX / 256 + 1;
      if v > SIZE_MAX / 256 {
        return Fail(DecodeFail);
      }
      v := v * 256 + octet;
    }
    BeValueBound(buf, off + 1, n);
    PowMonotone(256, n, 8);
    assert Pow(256, 8) == TWO_TO_THE_64;
    return Ok(Length(1 + n, v));
  }

  lemma {:induction false} PowMonotone(base: nat, m: nat, n: nat)
    requires base >= 1 && m <= n
    ensures 1 <= Pow(base, m) <= Pow(base, n)
    decreases n
  {
    if m < n {
      PowMonotone(base, m, n - 1);
      assert Pow(base, n) == base * Pow(base, n - 1);
      assert base * Pow(base, n - 1) >= Pow(base, n - 1);
    } else if n > 0 {
      PowMonotone(base, n - 1, n - 1);
      assert base * Pow(base, n - 1) >= Pow(base, n - 1);
    }
  }

  // ---- header ----

  /** ParseSingleNode. */
  function HeaderAt(buf: bytes, p: nat): (r: Result<Header>)
    ensures r.Ok? ==> 2 <= r.value.headerLen <= 17 && p + r.value.headerLen <= |buf|
  {
    match TagAt(buf, p)
    case Fail(_) => Fail(DecodeFail)
    case Ok(tag) =>
      match LengthAt(buf, p + tag.tagBytes)
      case Fail(_) => Fail(DecodeFail)
      case Ok(len) =>
        var headerLen := tag.tagBytes + len.lenLen;
        if headerLen > SIZE_MAX - len.contentLen then Fail(DecodeFail)
        else Ok(Header(tag, headerLen, len.contentLen))
  }

  method ParseSingleNode(buf: bytes, p: nat) returns (r: Result<Header>)
    ensures r == HeaderAt(buf, p)
  {
    var tag := ReadTag(buf, p);
    if tag.Fail? {
      return Fail(DecodeFail);
    }
    var len := ReadLength(buf, p + tag.value.tagBytes);
    if len.Fail? {
      return Fail(DecodeFail);
    }
    var headerLen := tag.value.tagBytes + len.value.lenLen;
    if headerLen > SIZE_MAX - len.value.contentLen {
      return Fail(DecodeFail);
    }
    return Ok(Header(tag.value, headerLen, len.value.contentLen));
  }

  // ---- a header depends on its own octets only ----

  lemma {:induction false} LongTagLocal(a: bytes, i: nat, b: bytes, j: nat, k: nat, acc: nat)
    requires 1 <= k
    requires LongTag(a, i, k, acc).Some?
    requires var n := LongTag(a, i, k, acc).value.1; j + n <= |b| && a[i..i + n] == b[j..j + n]
    ensures LongTag(b, j, k, acc) == LongTag(a, i, k, acc)
    decreases MAX_TAG_BYTES - k
  {
    var n := LongTag(a, i, k, acc).value.1;
    assert a[i + k] == a[i..i + n][k] == b[j..j + n][k] == b[j + k];
    if a[i + k] >= 128 {
      LongTagLocal(a, i, b, j, k + 1, Shift7(acc, a[i + k]));
    }
  }

  lemma TagLocal(a: bytes, i: nat, b: bytes, j: nat)
    requires TagAt(a, i).Ok?
    requires var n := TagAt(a, i).value.tagBytes; j + n <= |b| && a[i..i + n] == b[j..j + n]
    ensures TagAt(b, j) == TagAt(a, i)
  {
    var n := TagAt(a, i).value.tagBytes;
    assert a[i] == a[i..i + n][0] == b[j..j + n][0] == b[j];
    if a[i] % 32 == LONG_FORM {
      LongTagLocal(a, i, b, j, 1, 0);
    }
  }

  lemma {:induction false} BeValueLocal(a: bytes, i: nat, b: bytes, j: nat, n: nat)
    requires i + n <= |a| && j + n <= |b| && a[i..i + n] == b[j..j + n]
    ensures BeValue(a, i, n) == BeValue(b, j, n)
  {
    if n > 0 {
      SubSlice(a, i, b, j, n, 0, n - 1);
      assert a[i..i + n][n - 1] == b[j..j + n][n - 1];
      BeValueLocal(a, i, b, j, n - 1);
    }
  }

  lemma LengthLocal(a: bytes, i: nat, b: bytes, j: nat)
    requires LengthAt(a, i).Ok?
    requires var n := LengthAt(a, i).value.lenLen; j + n <= |b| && a[i..i + n] == b[j..j + n]
    ensures LengthAt(b, j) == LengthAt(a, i)
  {
    var n := LengthAt(a, i).value.lenLen;
    assert a[i] == a[i..i + n][0] == b[j..j + n][0] == b[j];
    if a[i] >= 128 {
      SubSlice(a, i, b, j, n, 1, n - 1);
      BeValueLocal(a, i + 1, b, j + 1, n - 1);
    }
  }

  lemma HeaderLocal(a: bytes, i: nat, b: bytes, j: nat)
    requires HeaderAt(a, i).Ok?
    requires var n := HeaderAt(a, i).value.headerLen; j + n <= |b| && a[i..i + n] == b[j..j + n]
    ensures HeaderAt(b, j) == HeaderAt(a, i)
  {
    hide TagAt, LengthAt;
    var h := HeaderAt(a, i).value;
    var t := h.tag.tagBytes;
    SubSlice(a, i, b, j, h.headerLen, 0, t);
    TagLocal(a, i, b, j);
    SubSlice(a, i, b, j, h.headerLen, t, h.headerLen - t);
    LengthLocal(a, i + t, b, j + t);
  }

  // ---- encoding ----

  /** Base-128 digits, every octet with its continuation bit set. */
  function Base128More(n: nat): (b: bytes)
    ensures |b| >= 1
  {
    if n < 128 then [128 + n] else Base128More(n / 128) + [128 + n % 128]
  }

  /** Minimal base-128 encoding: continuation bit on every octet but the last. */
  function Base128(n: nat): (b: bytes)
    ensures |b| >= 1
  {
    if n < 128 then [n] else Base128More(n / 128) + [n % 128]
  }

  lemma {:induction false} Base128MoreSize(n: nat, k: nat)
    requires k >= 1 && n < Pow(128, k)
    ensures |Base128More(n)| <= k
  {
    if n >= 128 {
      assert k > 1;
      assert n / 128 < Pow(128, k - 1);
      Base128MoreSize(n / 128, k - 1);
    }
  }

  lemma Base128Size(n: nat, k: nat)
    requires k >= 1 && n < Pow(128, k)
    ensures |Base128(n)| <= k
  {
    if n >= 128 {
      assert k > 1;
      Base128MoreSize(n / 128, k - 1);
    }
  }

  function EncodeTag(tagClass: nat, constructed: bool, tagNumber: nat): (b: bytes)
    requires tagClass < 4
    ensures |b| >= 1
  {
    var lead := tagClass * 64 + (if constructed then 32 else 0);
    if tagNumber < LONG_FORM then [lead + tagNumber] else [lead + LONG_FORM] + Base128(tagNumber)
  }

  /** The last of the octets `Base128More(n)` at `i`, and those before it. */
  lemma LastOfMore(buf: bytes, i: nat, n: nat)
    requires var m := |Base128More(n)|; i + m <= |buf| && buf[i..i + m] == Base128More(n)
    ensures var m := |Base128More(n)|;
      && buf[i + m - 1] == 128 + n % 128
      && (n < 128 ==> m == 1)
      && (n >= 128 ==> |Base128More(n / 128)| == m - 1 && buf[i..i + m - 1] == Base128More(n / 128))
  {
    if n >= 128 {
      SliceSnoc(buf, i, Base128More(n / 128), 128 + n % 128);
    } else {
      assert [] + [128 + n] == [128 + n];
      SliceSnoc(buf, i, [], 128 + n);
    }
  }

  /** The last of the octets `Base128(n)` at `i`, and those before it. */
  lemma LastOfBase128(buf: bytes, i: nat, n: nat)
    requires var m := |Base128(n)|; i + m <= |buf| && buf[i..i + m] == Base128(n)
    ensures var m := |Base128(n)|;
      && buf[i + m - 1] == n % 128
      && (n < 128 ==> m == 1)
      && (n >= 128 ==> |Base128More(n / 128)| == m - 1 && buf[i..i + m - 1] == Base128More(n / 128))
  {
    hide Base128More;
    if n >= 128 {
      SliceSnoc(buf, i, Base128More(n / 128), n % 128);
    } else {
      assert [] + [n] == [n];
      SliceSnoc(buf, i, [], n);
    }
  }

  lemma LongTagStep(buf: bytes, off: nat, k: nat, acc: nat)
    requires 1 <= k < MAX_TAG_BYTES && off + k < |buf|
    ensures LongTag(buf, off, k, acc) ==
      var acc' := Shift7(acc, buf[off + k]);
      if buf[off + k] < 128 then Some((acc', k + 1)) else LongTag(buf, off, k + 1, acc')
  {
  }

  /** Reading continuation octets `Base128More(n)` brings the loop from 0 to `n`. */
  lemma {:induction false} LongTagPrefix(buf: bytes, off: nat, n: nat)
    requires n < TWO_TO_THE_64
    requires var m := |Base128More(n)|;
      1 + m <= MAX_TAG_BYTES && off + 1 + m <= |buf| && buf[off + 1..off + 1 + m] == Base128More(n)
    ensures LongTag(buf, off, 1, 0) == LongTag(buf, off, 1 + |Base128More(n)|, n)
  {
    hide LongTag, Base128More, Shift7;
    var m := |Base128More(n)|;
    LastOfMore(buf, off + 1, n);
    Shift7Exact(n, buf[off + m]);
    LongTagStep(buf, off, m, n / 128);
    if n >= 128 {
      LongTagPrefix(buf, off, n / 128);
    }
  }

  /** The long-form loop reads back `Base128(n)`. */
  lemma LongTagRoundTrip(buf: bytes, off: nat, n: nat)
    requires n < TWO_TO_THE_64
    requires var m := |Base128(n)|;
      1 + m <= MAX_TAG_BYTES && off + 1 + m <= |buf| && buf[off + 1..off + 1 + m] == Base128(n)
    ensures LongTag(buf, off, 1, 0) == Some((n, 1 + |Base128(n)|))
  {
    hide LongTag, Base128More, Base128, Shift7;
    var m := |Base128(n)|;
    LastOfBase128(buf, off + 1, n);
    Shift7Exact(n, buf[off + m]);
    LongTagStep(buf, off, m, n / 128);
    if n >= 128 {
      LongTagPrefix(buf, off, n / 128);
    }
  }

  /** X.690 section 8.1.2: the identifier octets of any tag number below 2^49 read back exactly. */
  lemma TagRoundTrip(buf: bytes, off: nat, tagClass: nat, constructed: bool, tagNumber: nat)
    requires tagClass < 4 && tagNumber < 0x2_0000_0000_0000
    requires var e := EncodeTag(tagClass, constructed, tagNumber);
      off + |e| <= |buf| && buf[off..off + |e|] == e
    ensures TagAt(buf, off) ==
            Ok(Tag(tagClass, constructed, tagNumber, |EncodeTag(tagClass, constructed, tagNumber)|))
  {
    hide LongTag, Base128;
    var e := EncodeTag(tagClass, constructed, tagNumber);
    assert buf[off] == buf[off..off + |e|][0];
    if tagNumber >= LONG_FORM {
      assert Pow(128, 7) == 0x2_0000_0000_0000;
      Base128Size(tagNumber, 7);
      assert buf[off + 1..off + |e|] == buf[off..off + |e|][1..] == Base128(tagNumber);
      LongTagRoundTrip(buf, off, tagNumber);
    }
  }

  /** Minimal big-endian digits. */
  function BeBytes(n: nat): (b: bytes)
    ensures |b| >= 1
  {
    if n < 256 then [n] else BeBytes(n / 256) + [n % 256]
  }

  lemma {:induction false} BeBytesSize(n: nat, k: nat)
    requires k >= 1 && n < Pow(256, k)
    ensures |BeBytes(n)| <= k
  {
    if n >= 256 {
      assert k > 1;
      assert n / 256 < Pow(256, k - 1);
      BeBytesSize(n / 256, k - 1);
    }
  }

  lemma {:induction false} BeBytesValue(buf: bytes, off: nat, n: nat)
    requires off + |BeBytes(n)| <= |buf| && buf[off..off + |BeBytes(n)|] == BeBytes(n)
    ensures BeValue(buf, off, |BeBytes(n)|) == n
  {
    var m := |BeBytes(n)|;
    assert buf[off + m - 1] == buf[off..off + m][m - 1];
    if n >= 256 {
      assert buf[off..off + m - 1] == buf[off..off + m][..m - 1] == BeBytes(n / 256);
      BeBytesValue(buf, off, n / 256);
    } else {
      assert BeValue(buf, off, 0) == 0;
    }
  }

  function EncodeLength(n: uint64): (b: bytes)
    ensures 1 <= |b| <= 9
  {
    if n < 128 then [n]
    else
      assert Pow(256, 8) == TWO_TO_THE_64;
      BeBytesSize(n, 8);
      [128 + |BeBytes(n)|] + BeBytes(n)
  }

  /** X.690 section 8.1.3, definite form: every length below 2^64 reads back exactly. */
  lemma LengthRoundTrip(buf: bytes, off: nat, n: uint64)
    requires off + |EncodeLength(n)| <= |buf| && buf[off..off + |EncodeLength(n)|] == EncodeLength(n)
    ensures LengthAt(buf, off) == Ok(Length(|EncodeLength(n)|, n))
  {
    var e := EncodeLength(n);
    assert buf[off] == buf[off..off + |e|][0];
    if n >= 128 {
      assert Pow(256, 8) == TWO_TO_THE_64;
      BeBytesSize(n, 8);
      assert buf[off + 1..off + |e|] == buf[off..off + |e|][1..] == BeBytes(n);
      BeBytesValue(buf, off + 1, n);
    }
  }

  function EncodeHeader(tagClass: nat, constructed: bool, tagNumber: nat, contentLen: uint64): bytes
    requires tagClass < 4
  {
    EncodeTag(tagClass, constructed, tagNumber) + EncodeLength(contentLen)
  }

  lemma HeaderRoundTrip(buf: bytes, p: nat, tagClass: nat, constructed: bool, tagNumber: nat, contentLen: uint64)
    requires tagClass < 4 && tagNumber < 0x2_0000_0000_0000
    requires var e := EncodeHeader(tagClass, constructed, tagNumber, contentLen);
      p + |e| <= |buf| && buf[p..p + |e|] == e && |e| + contentLen <= SIZE_MAX
    ensures var e := EncodeHeader(tagClass, constructed, tagNumber, contentLen);
      HeaderAt(buf, p) ==
        Ok(Header(Tag(tagClass, constructed, tagNumber, |EncodeTag(tagClass, constructed, tagNumber)|), |e|, contentLen))
  {
    hide TagAt, LengthAt, EncodeTag, EncodeLength;
    var t := EncodeTag(tagClass, constructed, tagNumber);
    var l := EncodeLength(contentLen);
    var e := EncodeHeader(tagClass, constructed, tagNumber, contentLen);
    assert buf[p..p + |t|] == buf[p..p + |e|][..|t|] == t;
    TagRoundTrip(buf, p, tagClass, constructed, tagNumber);
    assert buf[p + |t|..p + |t| + |l|] == buf[p..p + |e|][|t|..] == l;
    LengthRoundTrip(buf, p + |t|, contentLen);
  }

  // ---- the encodings by example, and what is refused ----

  /** Numbers up to 30 share an octet with class (bits 7 and 8) and form (bit 6); from 31 on they follow
      in base 128, continuation bit on all octets but the last. */
  lemma KnownTags()
    ensures EncodeTag(0, true, 16) == [0x30] && EncodeTag(1, false, 30) == [0x5E] && EncodeTag(2, false, 0) == [0x80]
    ensures EncodeTag(0, false, 31) == [0x1F, 0x1F] && EncodeTag(3, true, 127) == [0xFF, 0x7F]
    ensures EncodeTag(2, false, 200) == [0x9F, 0x81, 0x48] && EncodeTag(0, false, 16384) == [0x1F, 0x81, 0x80, 0x00]
  {
    assert Base128More(1) == [0x81];
    assert Base128More(128) == [0x81, 0x80];
  }

  /** Lengths up to 127 take one octet; longer ones follow an octet that says how many they take. */
  lemma KnownLengths()
    ensures EncodeLength(0) == [0] && EncodeLength(127) == [0x7F] && EncodeLength(128) == [0x81, 0x80]
    ensures EncodeLength(255) == [0x81, 0xFF] && EncodeLength(4660) == [0x82, 0x12, 0x34]
  {
    assert BeBytes(18) == [0x12];
    assert BeBytes(4660) == [0x12, 0x34];
  }

  /** A long-form tag whose first seven number octets all continue is refused. */
  lemma LongTagRefused(buf: bytes, off: nat)
    requires off + 7 < |buf| && buf[off] % 32 == 31 && forall i | off + 1 <= i <= off + 7 :: buf[i] >= 128
    ensures TagAt(buf, off) == Fail(DecodeFail)
  {
    hide LongTag;
    LongTagContinues(buf, off, 1, 0);
  }

  lemma {:induction false} LongTagContinues(buf: bytes, off: nat, k: nat, acc: nat)
    requires 1 <= k <= 8 && off + 7 < |buf| && forall i | off + k <= i <= off + 7 :: buf[i] >= 128
    ensures LongTag(buf, off, k, acc) == None
    decreases 8 - k
  {
    if k < 8 {
      assert buf[off + k] >= 128;
      LongTagContinues(buf, off, k + 1, Shift7(acc, buf[off + k]));
    }
  }

  /** The indefinite form and more than eight length octets are refused. */
  lemma LengthRefused(buf: bytes, off: nat)
    requires off < |buf| && (buf[off] == 0x80 || buf[off] > 0x88)
    ensures LengthAt(buf, off) == Fail(DecodeFail)
  {
  }
}
