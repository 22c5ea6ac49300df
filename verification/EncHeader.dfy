/** The header of an encrypted file: WriteEncFileHeader, CheckDecHeaderMinLen, ParseHeaderPrefix,
    ParseHeaderIterAndIv and HandleDecFileHeader of app_enc.c (binary format). */
module EncHeader {
  import opened Octets

  const SALT_LEN: nat := 8
  const U32_SIZE: nat := 4
  const HEADER_U32_FIELDS: nat := 4
  /** The longest content HITLS_APP_OptReadUio reads: UINT32_MAX - 1. */
  const MAX_READ: nat := TWO_TO_THE_32 - 2

  datatype Error =
    | InvalidLength | TooShort | VersionMismatch | CipherMismatch | SaltLenMismatch | IvLenMismatch
    | SaltBounds | IterBounds | IvLenBounds | IvBounds | EndBounds | CopyArgs

  datatype Status = Success | Failed(error: Error)

  /** What a header records besides version, cipher and IV length. */
  datatype Fields = Fields(salt: bytes, iter: uint32, iv: bytes)

  /** The command's own settings, against which a header is checked. */
  datatype Settings = Settings(version: uint32, cipherId: int32, ivLen: uint32)

  /** `minLen` and every later offset stay inside 32 bits. The source's IVs have at most 16 bytes. */
  predicate SaneIvLen(ivLen: nat) { 28 + ivLen < TWO_TO_THE_32 }

  /** [version][cipher][salt length][salt][iterations], then [IV length][IV] unless the IV is empty. */
  function Print(s: Settings, f: Fields): bytes
    requires |f.salt| == SALT_LEN && |f.iv| == s.ivLen
  {
    U32Bytes(s.version) + U32Bytes(Bits32(s.cipherId)) + U32Bytes(SALT_LEN) + f.salt + U32Bytes(f.iter)
    + (if s.ivLen > 0 then U32Bytes(s.ivLen) + f.iv else [])
  }

  function HeaderLen(ivLen: nat): nat { 24 + (if ivLen > 0 then 4 + ivLen else 0) }

  datatype Parsed = Parsed(fields: Fields, cipherText: bytes) | Rejected(error: Error)

  function U32At(b: bytes, i: nat): uint32
    requires i + 4 <= |b|
  {
    U32Value(b[i..i + 4])
  }

  /** What the four parsing steps compute; `b` is the buffer up to its recorded length. */
  function Parse(s: Settings, b: bytes): Parsed {
    if |b| < HeaderLen(s.ivLen) then Rejected(TooShort)
    else if U32At(b, 0) != s.version then Rejected(VersionMismatch)
    else if Signed32(U32At(b, 4)) != s.cipherId then Rejected(CipherMismatch)
    else if U32At(b, 8) != SALT_LEN then Rejected(SaltLenMismatch)
    else if s.ivLen == 0 then Parsed(Fields(b[12..20], U32At(b, 20), []), b[24..])
    else if U32At(b, 24) != s.ivLen then Rejected(IvLenMismatch)
    else Parsed(Fields(b[12..20], U32At(b, 20), b[28..28 + s.ivLen]), b[28 + s.ivLen..])
  }

  /** Parsing accepts exactly the printed header of the parsed fields followed by the ciphertext. */
  lemma ParseIffPrinted(s: Settings, b: bytes, f: Fields, cipherText: bytes)
    ensures Parse(s, b) == Parsed(f, cipherText) <==>
            |f.salt| == SALT_LEN && |f.iv| == s.ivLen && b == Print(s, f) + cipherText
  {
    if Parse(s, b) == Parsed(f, cipherText) {
      AcceptedIsPrinted(s, b);
    }
    if |f.salt| == SALT_LEN && |f.iv| == s.ivLen && b == Print(s, f) + cipherText {
      PrintedIsAccepted(s, f, cipherText);
    }
  }

  /** Of several faults the first in the order of the fields is reported. */
  lemma FirstFault(s: Settings, b: bytes)
    requires |b| >= (if s.ivLen == 0 then 24 else 28 + s.ivLen)
    ensures Big(b, 0) != s.version ==> Parse(s, b) == Rejected(VersionMismatch)
    ensures Big(b, 0) == s.version && Signed32(Big(b, 4)) != s.cipherId ==> Parse(s, b) == Rejected(CipherMismatch)
    ensures Big(b, 0) == s.version && Signed32(Big(b, 4)) == s.cipherId && Big(b, 8) != 8 ==>
      Parse(s, b) == Rejected(SaltLenMismatch)
    ensures Parse(s, b) == Rejected(IvLenMismatch) ==> s.ivLen > 0 && Big(b, 24) != s.ivLen
    ensures Parse(s, b) != Rejected(TooShort)
  {
    hide U32Value;
    BigIsValue(b, 0);
    BigIsValue(b, 4);
    BigIsValue(b, 8);
    if s.ivLen > 0 {
      BigIsValue(b, 24);
    }
  }

  lemma BigIsValue(b: bytes, i: nat)
    requires i + 4 <= |b|
    ensures Big(b, i) == U32At(b, i)
  {
  }

  lemma PrintedIsAccepted(s: Settings, f: Fields, cipherText: bytes)
    requires |f.salt| == SALT_LEN && |f.iv| == s.ivLen
    ensures Parse(s, Print(s, f) + cipherText) == Parsed(f, cipherText)
  {
    hide U32Value, U32Bytes;
    var b := Print(s, f) + cipherText;
    U32RoundTrip(s.version);
    U32RoundTrip(Bits32(s.cipherId));
    U32RoundTrip(SALT_LEN);
    U32RoundTrip(f.iter);
    U32RoundTrip(s.ivLen);
    assert b[0..4] == U32Bytes(s.version);
    assert b[4..8] == U32Bytes(Bits32(s.cipherId));
    assert b[8..12] == U32Bytes(SALT_LEN);
    assert b[12..20] == f.salt;
    assert b[20..24] == U32Bytes(f.iter);
    if s.ivLen > 0 {
      assert b[24..28] == U32Bytes(s.ivLen);
      assert b[28..28 + s.ivLen] == f.iv;
      assert b[28 + s.ivLen..] == cipherText;
    } else {
      assert b[24..] == cipherText;
    }
  }

  lemma AcceptedIsPrinted(s: Settings, b: bytes)
    requires Parse(s, b).Parsed?
    ensures var p := Parse(s, b);
      |p.fields.salt| == SALT_LEN && |p.fields.iv| == s.ivLen && b == Print(s, p.fields) + p.cipherText
  {
    hide U32Value, U32Bytes;
    var p := Parse(s, b);
    U32Unique(b[0..4]);
    U32Unique(b[4..8]);
    U32Unique(b[8..12]);
    U32Unique(b[20..24]);
    assert Bits32(Signed32(U32At(b, 4))) == U32At(b, 4);
    var front := b[0..4] + b[4..8] + b[8..12] + b[12..20] + b[20..24];
    assert front == b[..24];
    if s.ivLen > 0 {
      U32Unique(b[24..28]);
      assert b[24..] == b[24..28] + b[28..28 + s.ivLen] + b[28 + s.ivLen..];
    }
  }

  /** The numbers, most significant octet first, and the rest, by position. */
  lemma HeaderOctets(s: Settings, f: Fields)
    requires |f.salt| == 8 && |f.iv| == s.ivLen
    ensures var b := Print(s, f);
      && |b| == (if s.ivLen == 0 then 24 else 28 + s.ivLen)
      && Big(b, 0) == s.version && Big(b, 4) == (if s.cipherId < 0 then s.cipherId + 4294967296 else s.cipherId)
      && Big(b, 8) == 8 && b[12..20] == f.salt && Big(b, 20) == f.iter
      && (s.ivLen > 0 ==> Big(b, 24) == s.ivLen && b[28..] == f.iv)
  {
    hide U32Bytes;
    var b := Print(s, f);
    assert b[0..4] == U32Bytes(s.version);
    assert b[4..8] == U32Bytes(Bits32(s.cipherId));
    assert b[8..12] == U32Bytes(8);
    assert b[12..20] == f.salt;
    assert b[20..24] == U32Bytes(f.iter);
    BigOf(b, 0, s.version);
    BigOf(b, 4, Bits32(s.cipherId));
    BigOf(b, 8, 8);
    BigOf(b, 20, f.iter);
    if s.ivLen > 0 {
      assert b[24..28] == U32Bytes(s.ivLen);
      assert b[28..] == f.iv;
      BigOf(b, 24, s.ivLen);
    }
  }

  function Big(b: bytes, i: nat): int
    requires i + 4 <= |b|
  {
    (b[i] as int) * 16777216 + (b[i + 1] as int) * 65536 + (b[i + 2] as int) * 256 + (b[i + 3] as int)
  }

  lemma BigOf(b: bytes, i: nat, n: uint32)
    requires i + 4 <= |b| && b[i..i + 4] == U32Bytes(n)
    ensures Big(b, i) == n
  {
    hide U32Bytes;
    U32Order(n);
    var w := b[i..i + 4];
    assert w[0] == b[i] && w[1] == b[i + 1] && w[2] == b[i + 2] && w[3] == b[i + 3];
  }

  /** What comes of a whole file: the read refuses an empty one and one above MAX_READ octets. */
  function DecodeFile(s: Settings, file: bytes): Parsed {
    if 1 <= |file| <= MAX_READ then Parse(s, file) else Rejected(InvalidLength)
  }

  /** A file is accepted with given fields and ciphertext exactly when it is their printed form and
      at most 2^32 - 2 octets long. */
  lemma FileIffPrinted(s: Settings, file: bytes, f: Fields, cipherText: bytes)
    ensures DecodeFile(s, file) == Parsed(f, cipherText) <==>
            && |f.salt| == SALT_LEN && |f.iv| == s.ivLen && file == Print(s, f) + cipherText
            && |file| <= 4294967294
  {
    ParseIffPrinted(s, file, f, cipherText);
  }

  /** The longest printed file that comes back, and the next longer one, which is refused. */
  lemma LongestFile(s: Settings, f: Fields, cipherText: bytes, octet: byte)
    requires |f.salt| == SALT_LEN && |f.iv| == s.ivLen && |Print(s, f) + cipherText| == 4294967294
    ensures DecodeFile(s, Print(s, f) + cipherText) == Parsed(f, cipherText)
    ensures DecodeFile(s, Print(s, f) + (cipherText + [octet])) == Rejected(InvalidLength)
  {
    FileIffPrinted(s, Print(s, f) + cipherText, f, cipherText);
  }

  // ---- the source's steps, on the option record they fill in ----

  class EncCmdOpt {
    const settings: Settings
    var iter: uint32
    var saltLen: uint32
    var salt: array<byte>
    var iv: array<byte>
    var decBuf: bytes
    var decBufLen: uint32
    var cipherBuf: bytes

    /** The buffers of ApplyForSpace, with room for the salt and the IV. */
    ghost predicate Valid()
      reads this
    {
      && SaneIvLen(settings.ivLen)
      && salt != iv && SALT_LEN <= salt.Length && settings.ivLen <= iv.Length
      && decBufLen <= |decBuf|
    }

    ghost function View(): bytes
      requires Valid()
      reads this
    {
      decBuf[..decBufLen]
    }

    constructor (settings: Settings, iter: uint32)
      requires SaneIvLen(settings.ivLen)
      ensures Valid() && this.settings == settings && this.iter == iter && saltLen == SALT_LEN
      ensures fresh(salt) && fresh(iv)
    {
      this.settings := settings;
      this.iter := iter;
      saltLen := SALT_LEN;
      salt := new byte[SALT_LEN + 1](_ => 0);
      iv := new byte[settings.ivLen + 1](_ => 0);
      decBuf, decBufLen, cipherBuf := [], 0, [];
    }

    /** Fills a zeroed header buffer field by field; the copies always fit. */
    method WriteEncFileHeader() returns (ret: Status, written: bytes)
      requires Valid() && saltLen == SALT_LEN
      ensures ret == Success
      ensures written == Print(settings, Fields(salt[..SALT_LEN], iter, iv[..settings.ivLen]))
    {
      hide U32Bytes;
      written := [];
      var ivLen := settings.ivLen;
      var headerLen := HEADER_U32_FIELDS * U32_SIZE + saltLen + ivLen;
      if ivLen > 0 {
        headerLen := headerLen + U32_SIZE;
      }
      var header := new byte[headerLen](_ => 0);
      WriteUint32Be(header, 0, settings.version);
      WriteUint32Be(header, 4, Bits32(settings.cipherId));
      WriteUint32Be(header, 8, saltLen);
      ret := AppCopyData(header, 12, headerLen - 12, salt[..saltLen]);
      if ret != Success {
        return;
      }
      WriteUint32Be(header, 20, iter);
      ghost var front := header[..24];
      assert [] + U32Bytes(settings.version) == U32Bytes(settings.version);
      if ivLen > 0 {
        WriteUint32Be(header, 24, ivLen);
        ret := AppCopyData(header, 28, headerLen - 28, iv[..ivLen]);
        if ret != Success {
          return;
        }
        assert front + U32Bytes(ivLen) + iv[..ivLen] == front + (U32Bytes(ivLen) + iv[..ivLen]);
      } else {
        assert front + [] == front;
      }
      written := header[..];
      assert written == header[..headerLen];
    }

    method CheckDecHeaderMinLen() returns (ret: Status)
      requires Valid()
      ensures ret == if decBufLen < HeaderLen(settings.ivLen) then Failed(TooShort) else Success
    {
      var minLen := HEADER_U32_FIELDS * U32_SIZE + SALT_LEN;
      if settings.ivLen > 0 {
        minLen := minLen + U32_SIZE + settings.ivLen;
      }
      if decBufLen < minLen {
        return Failed(TooShort);
      }
      return Success;
    }

    /** Version, cipher, salt. After the length check neither bounds check can fail. */
    method ParseHeaderPrefix(offset: nat) returns (ret: Status, offset': nat)
      requires Valid() && offset == 0 && HeaderLen(settings.ivLen) <= decBufLen
      modifies this`saltLen, salt
      ensures Valid()
      ensures ret ==
        if U32At(View(), 0) != settings.version then Failed(VersionMismatch)
        else if Signed32(U32At(View(), 4)) != settings.cipherId then Failed(CipherMismatch)
        else if U32At(View(), 8) != SALT_LEN then Failed(SaltLenMismatch) else Success
      ensures ret.Success? ==> offset' == 20 && saltLen == SALT_LEN && salt[..SALT_LEN] == View()[12..20]
    {
      hide U32Value;
      offset' := offset;
      var b := decBuf[..decBufLen];
      var rVersion := U32Value(b[offset'..offset' + U32_SIZE]);
      offset' := offset' + U32_SIZE;
      if rVersion != settings.version {
        return Failed(VersionMismatch), offset';
      }
      var rCipherId := Signed32(U32Value(b[offset'..offset' + U32_SIZE]));
      offset' := offset' + U32_SIZE;
      if settings.cipherId != rCipherId {
        return Failed(CipherMismatch), offset';
      }
      saltLen := U32Value(b[offset'..offset' + U32_SIZE]);
      offset' := offset' + U32_SIZE;
      if saltLen != SALT_LEN {
        return Failed(SaltLenMismatch), offset';
      }
      if offset' + saltLen > decBufLen {
        return Failed(SaltBounds), offset';
      }
      ret := AppCopyData(salt, 0, saltLen, b[offset'..offset' + saltLen]);
      if ret != Success {
        return;
      }
      offset' := offset' + saltLen;
      if offset' + U32_SIZE > decBufLen {
        return Failed(IterBounds), offset';
      }
      return Success, offset';
    }

    /** Iterations and IV. After the length check none of the three bounds checks can fail. */
    method ParseHeaderIterAndIv(offset: nat) returns (ret: Status, offset': nat)
      requires Valid() && offset == 20 && HeaderLen(settings.ivLen) <= decBufLen
      modifies this`iter, iv
      ensures Valid()
      ensures ret ==
        if settings.ivLen > 0 && U32At(View(), 24) != settings.ivLen then Failed(IvLenMismatch) else Success
      ensures ret.Success? ==>
        && offset' == HeaderLen(settings.ivLen) && iter == U32At(View(), 20)
        && (settings.ivLen > 0 ==> iv[..settings.ivLen] == View()[28..28 + settings.ivLen])
    {
      hide U32Value;
      offset' := offset;
      var b := decBuf[..decBufLen];
      iter := U32Value(b[offset'..offset' + U32_SIZE]);
      offset' := offset' + U32_SIZE;
      if settings.ivLen > 0 {
        if offset' + U32_SIZE > decBufLen {
          return Failed(IvLenBounds), offset';
        }
        var tmpIvLen := U32Value(b[offset'..offset' + U32_SIZE]);
        offset' := offset' + U32_SIZE;
        if tmpIvLen != settings.ivLen {
          return Failed(IvLenMismatch), offset';
        }
        if offset' + settings.ivLen > decBufLen {
          return Failed(IvBounds), offset';
        }
        ret := AppCopyData(iv, 0, settings.ivLen, b[offset'..offset' + settings.ivLen]);
        if ret != Success {
          return;
        }
        offset' := offset' + settings.ivLen;
      }
      if offset' > decBufLen {
        return Failed(EndBounds), offset';
      }
      return Success, offset';
    }

    /** Reads a whole binary file. The guard of the read makes the 32-bit length exact. */
    method DecodeInputForDec(file: bytes) returns (ret: Status)
      requires Valid()
      modifies this`decBuf, this`decBufLen
      ensures Valid()
      ensures ret == if 1 <= |file| <= 4294967294 then Success else Failed(InvalidLength)
      ensures ret == Success ==> decBuf == file && decBufLen == |file|
      ensures ret != Success ==> decBuf == old(decBuf) && decBufLen == old(decBufLen)
    {
      var readLen := |file|;
      if readLen == 0 || readLen > MAX_READ {
        return Failed(InvalidLength);
      }
      decBuf := file;
      decBufLen := readLen % TWO_TO_THE_32;
      return Success;
    }

    /** Reads a whole binary file and parses its header. */
    method HandleDecFileHeader(file: bytes) returns (ret: Status)
      requires Valid()
      modifies this`decBuf, this`decBufLen, this`saltLen, this`iter, this`cipherBuf, salt, iv
      ensures Valid()
      ensures match DecodeFile(settings, file)
        case Rejected(e) => ret == Failed(e)
        case Parsed(f, cipherText) =>
          && ret == Success && saltLen == SALT_LEN && salt[..SALT_LEN] == f.salt && iter == f.iter
          && iv[..settings.ivLen] == f.iv && cipherBuf == cipherText
    {
      hide U32Value;
      ret := DecodeInputForDec(file);
      if ret != Success {
        return;
      }
      assert decBuf[..decBufLen] == file;
      ret := CheckDecHeaderMinLen();
      if ret != Success {
        return;
      }
      var offset := 0;
      ret, offset := ParseHeaderPrefix(offset);
      if ret != Success {
        return;
      }
      ret, offset := ParseHeaderIterAndIv(offset);
      if ret != Success {
        return;
      }
      cipherBuf := decBuf[offset..decBufLen];
    }
  }

  method WriteUint32Be(buf: array<byte>, at: nat, value: uint32)
    requires at + 4 <= buf.Length
    modifies buf
    ensures buf[..at + 4] == old(buf[..at]) + U32Bytes(value)
    ensures buf[at + 4..] == old(buf[at + 4..])
  {
    hide U32Bytes;
    var b := U32Bytes(value);
    buf[at], buf[at + 1], buf[at + 2], buf[at + 3] := b[0], b[1], b[2], b[3];
  }

  /** Copies `src` to `dest[at..]`, where `destLen` octets may be written. */
  method AppCopyData(dest: array<byte>, at: nat, destLen: nat, src: bytes) returns (ret: Status)
    requires at + destLen <= dest.Length
    modifies dest
    ensures ret == if |src| > destLen then Failed(CopyArgs) else Success
    ensures ret != Success ==> dest[..] == old(dest[..])
    ensures ret == Success ==> dest[..at + |src|] == old(dest[..at]) + src
    ensures ret == Success ==> dest[at + |src|..] == old(dest[at + |src|..])
  {
    if |src| > destLen {
      return Failed(CopyArgs);
    }
    for i := 0 to |src|
      invariant dest[..at + i] == old(dest[..at]) + src[..i]
      invariant dest[at + i..] == old(dest[at + i..])
    {
      dest[at + i] := src[i];
    }
    return Success;
  }
}
