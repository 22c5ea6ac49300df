/** Key synchronisation: the record layout, HITLS_APP_SendKey and HITLS_APP_ReceiveKey of
    app_keymgmt.c. PKCS#12 files are modelled by what they hold, and the pair check of the
    SM2 library by a predicate. */
module KeySync {
  import opened Octets
  import opened Strings
  import opened KeyUuid
  import opened KeyStore

  const UUID_LEN: nat := 32
  const MAX_STORED_KEY: nat := 64
  const MAX_SYNC_KEY: nat := 128
  const MAX_KEY_COUNT: nat := 1024
  const SYNC_VERSION: nat := 1
  const PKEY_SM2: int32 := 296
  const ATTR_SIZE: nat := 56
  const KEY_AT: nat := 60
  /** sizeof(HITLS_SyncKeyInfo): attributes, key length, key area and four octets of padding. */
  const RECORD_SIZE: nat := 192
  const ITER_MIN: int := 1024
  const SALT_MIN: int := 8

  type UuidBytes = b: bytes | |b| == UUID_LEN witness seq(UUID_LEN, _ => 0)

  datatype KeyAttr = KeyAttr(version: int32, uuid: UuidBytes, algId: int32, createTime: int64, expireTime: int64)

  datatype Material = Secret(key: bytes) | Sm2Pair(pub: bytes, prv: bytes)

  datatype StoredKey = StoredKey(attr: KeyAttr, material: Material)

  datatype Code = Ok | BadArgument | BadOption | ReadFailed | CryptoFailed | ReceiveFailed | WriteFailed

  datatype Result<+T> = Value(value: T) | Error(code: Code)

  // ---- attributes, converted to and from network order ----

  function AttrBytes(a: KeyAttr): (b: bytes)
    ensures |b| == ATTR_SIZE
  {
    U32Bytes(Bits32(a.version)) + a.uuid + U32Bytes(Bits32(a.algId))
    + U64Bytes(Bits64(a.createTime)) + U64Bytes(Bits64(a.expireTime))
  }

  function AttrValue(b: bytes): KeyAttr
    requires |b| == ATTR_SIZE
  {
    KeyAttr(Signed32(U32Value(b[0..4])), b[4..36], Signed32(U32Value(b[36..40])),
            Signed64(U64Value(b[40..48])), Signed64(U64Value(b[48..56])))
  }

  lemma AttrRoundTrip(a: KeyAttr)
    ensures AttrValue(AttrBytes(a)) == a
  {
    hide U32Bytes, U32Value, U64Bytes, U64Value;
    var b := AttrBytes(a);
    assert b[0..4] == U32Bytes(Bits32(a.version));
    assert b[4..36] == a.uuid;
    assert b[36..40] == U32Bytes(Bits32(a.algId));
    assert b[40..48] == U64Bytes(Bits64(a.createTime));
    assert b[48..56] == U64Bytes(Bits64(a.expireTime));
    U32RoundTrip(Bits32(a.version));
    U32RoundTrip(Bits32(a.algId));
    U64RoundTrip(Bits64(a.createTime));
    U64RoundTrip(Bits64(a.expireTime));
  }

  // ---- SM2 payload ----

  function Payload(pub: bytes, prv: bytes): bytes
    requires |pub| < TWO_TO_THE_32 && |prv| < TWO_TO_THE_32
  {
    U32Bytes(|pub|) + pub + U32Bytes(|prv|) + prv
  }

  /** CreateAsymKeyFromSyncInfo up to the key construction. */
  function ParsePayload(key: bytes): Option<(bytes, bytes)> {
    if |key| < 4 then None
    else
      var pubLen := U32Value(key[..4]);
      if pubLen > |key| - 4 then None
      else
        var pos := 4 + pubLen;
        if |key| - pos < 4 then None
        else
          var prvLen := U32Value(key[pos..pos + 4]);
          if prvLen != |key| - pos - 4 then None
          else Some((key[4..pos], key[pos + 4..]))
  }

  /** A payload reaches key construction exactly when it is length, public key, length, private key. */
  lemma PayloadIff(key: bytes, pub: bytes, prv: bytes)
    requires |key| < TWO_TO_THE_32
    ensures ParsePayload(key) == Some((pub, prv)) <==>
            |pub| < TWO_TO_THE_32 && |prv| < TWO_TO_THE_32 && key == Payload(pub, prv)
  {
    hide U32Bytes, U32Value;
    if ParsePayload(key) == Some((pub, prv)) {
      var pos := 4 + |pub|;
      U32Unique(key[..4]);
      U32Unique(key[pos..pos + 4]);
      assert key == key[..4] + key[4..pos] + key[pos..pos + 4] + key[pos + 4..];
    }
    if |pub| < TWO_TO_THE_32 && |prv| < TWO_TO_THE_32 && key == Payload(pub, prv) {
      U32RoundTrip(|pub|);
      U32RoundTrip(|prv|);
      var pos := 4 + |pub|;
      assert key[..4] == U32Bytes(|pub|);
      assert key[4..pos] == pub;
      assert key[pos..pos + 4] == U32Bytes(|prv|);
      assert key[pos + 4..] == prv;
    }
  }

  // ---- records ----

  function RecordBytes(attr: KeyAttr, key: bytes): (b: bytes)
    requires |key| <= MAX_SYNC_KEY
    ensures |b| == RECORD_SIZE
  {
    AttrBytes(attr) + U32Bytes(|key|) + key + Zeros(RECORD_SIZE - KEY_AT - |key|)
  }

  /** The public half comes first, each half behind its length. */
  lemma PayloadLayout(pub: bytes, prv: bytes)
    requires |pub| < 4294967296 && |prv| < 4294967296
    ensures var b := Payload(pub, prv);
      && |b| == |pub| + |prv| + 8
      && U32Value(b[..4]) == |pub| && b[4..4 + |pub|] == pub
      && U32Value(b[4 + |pub|..8 + |pub|]) == |prv| && b[8 + |pub|..] == prv
  {
    hide U32Bytes, U32Value;
    var b := Payload(pub, prv);
    assert b[..4] == U32Bytes(|pub|);
    assert b[4 + |pub|..8 + |pub|] == U32Bytes(|prv|);
    U32RoundTrip(|pub|);
    U32RoundTrip(|prv|);
  }

  /** What FillSyncKeyInfoFromSm2 and FillSyncKeyInfoFromCipher put in a zeroed record. */
  function RecordOf(k: StoredKey): (r: Result<bytes>)
    ensures r.Value? ==> |r.value| == RECORD_SIZE
  {
    match k.material
    case Secret(key) =>
      if |key| > MAX_STORED_KEY then Error(ReadFailed)
      else if k.attr.algId == PKEY_SM2 then Error(CryptoFailed)
      else Value(RecordBytes(k.attr, key))
    case Sm2Pair(pub, prv) =>
      if k.attr.algId != PKEY_SM2 then Value(RecordBytes(k.attr, []))
      else if |pub| > MAX_SYNC_KEY || |prv| > MAX_SYNC_KEY then Error(CryptoFailed)
      else if |pub| + |prv| + 8 > MAX_SYNC_KEY then Error(BadArgument)
      else Value(RecordBytes(k.attr, Payload(pub, prv)))
  }

  /** What ParseAndWriteKeyFile makes of a record before writing it. */
  function KeyOf(rec: bytes, pairCheck: (bytes, bytes) -> bool): Result<StoredKey>
    requires |rec| == RECORD_SIZE
  {
    var keyLen := U32Value(rec[ATTR_SIZE..KEY_AT]);
    if keyLen > MAX_SYNC_KEY then Error(BadArgument)
    else
      var attr := AttrValue(rec[..ATTR_SIZE]);
      var key := rec[KEY_AT..KEY_AT + keyLen];
      if attr.algId == PKEY_SM2 then
        match ParsePayload(key)
        case None => Error(BadArgument)
        case Some((pub, prv)) =>
          if pairCheck(pub, prv) then Value(StoredKey(attr, Sm2Pair(pub, prv))) else Error(CryptoFailed)
      else if keyLen > MAX_STORED_KEY then Error(BadArgument)
      else Value(StoredKey(attr, Secret(key)))
  }

  /** The algorithm agrees with the kind of key, and the key fits where it is stored. */
  predicate WellFormed(k: StoredKey, pairCheck: (bytes, bytes) -> bool) {
    match k.material
    case Secret(key) => k.attr.algId != 296 && |key| <= 64
    case Sm2Pair(pub, prv) => k.attr.algId == 296 && |pub| + |prv| + 8 <= 128 && pairCheck(pub, prv)
  }

  lemma RecordFields(attr: KeyAttr, key: bytes)
    requires |key| <= MAX_SYNC_KEY
    ensures var rec := RecordBytes(attr, key);
      && rec[..ATTR_SIZE] == AttrBytes(attr) && AttrValue(rec[..ATTR_SIZE]) == attr
      && U32Value(rec[ATTR_SIZE..KEY_AT]) == |key| && rec[KEY_AT..KEY_AT + |key|] == key
  {
    hide U32Bytes, U32Value, AttrBytes, AttrValue;
    var rec := RecordBytes(attr, key);
    assert rec[..ATTR_SIZE] == AttrBytes(attr);
    AttrRoundTrip(attr);
    assert rec[ATTR_SIZE..KEY_AT] == U32Bytes(|key|);
    U32RoundTrip(|key|);
    assert rec[KEY_AT..KEY_AT + |key|] == key;
  }

  /** A stored key survives the record format exactly when it is well formed. */
  lemma RecordRoundTrip(k: StoredKey, pairCheck: (bytes, bytes) -> bool)
    ensures RecordOf(k).Value? && KeyOf(RecordOf(k).value, pairCheck) == Value(k) <==> WellFormed(k, pairCheck)
  {
    hide RecordBytes, AttrValue, U32Value, ParsePayload, Payload;
    match k.material
    case Secret(key) =>
      if |key| <= MAX_STORED_KEY {
        RecordFields(k.attr, key);
      }
    case Sm2Pair(pub, prv) =>
      RecordFields(k.attr, []);
      if |pub| + |prv| + 8 <= MAX_SYNC_KEY {
        PayloadSize(pub, prv);
        RecordFields(k.attr, Payload(pub, prv));
        PayloadIff(Payload(pub, prv), pub, prv);
      }
  }

  /** The octets of a record: version, identifier, algorithm, the two times, key length and key, all numbers
      in network order and two's complement, and zeros up to 192. */
  lemma RecordLayout(attr: KeyAttr, key: bytes)
    requires |key| <= 128
    ensures var b := RecordBytes(attr, key);
      && |b| == 192
      && (U32Value(b[0..4]) - attr.version) % 4294967296 == 0
      && b[4..36] == attr.uuid
      && (U32Value(b[36..40]) - attr.algId) % 4294967296 == 0
      && (U64Value(b[40..48]) - attr.createTime) % 18446744073709551616 == 0
      && (U64Value(b[48..56]) - attr.expireTime) % 18446744073709551616 == 0
      && U32Value(b[56..60]) == |key|
      && b[60..60 + |key|] == key
      && forall i | 60 + |key| <= i < 192 :: b[i] == 0
  {
    hide U32Bytes, U32Value, U64Bytes, U64Value, AttrBytes, AttrValue, RecordBytes;
    RecordFields(attr, key);
    AttrLayout(attr);
    var b, attrs := RecordBytes(attr, key), AttrBytes(attr);
    assert attrs[..56] == attrs;
    SameSlice(b, attrs, 56, 0, 4);
    SameSlice(b, attrs, 56, 4, 36);
    SameSlice(b, attrs, 56, 36, 40);
    SameSlice(b, attrs, 56, 40, 48);
    SameSlice(b, attrs, 56, 48, 56);
    RecordPadding(attr, key);
  }

  lemma AttrLayout(a: KeyAttr)
    ensures var b := AttrBytes(a);
      && (U32Value(b[0..4]) - a.version) % 4294967296 == 0
      && b[4..36] == a.uuid
      && (U32Value(b[36..40]) - a.algId) % 4294967296 == 0
      && (U64Value(b[40..48]) - a.createTime) % 18446744073709551616 == 0
      && (U64Value(b[48..56]) - a.expireTime) % 18446744073709551616 == 0
  {
    hide U32Bytes, U32Value, U64Bytes, U64Value;
    var b := AttrBytes(a);
    assert b[0..4] == U32Bytes(Bits32(a.version));
    assert b[4..36] == a.uuid;
    assert b[36..40] == U32Bytes(Bits32(a.algId));
    assert b[40..48] == U64Bytes(Bits64(a.createTime));
    assert b[48..56] == U64Bytes(Bits64(a.expireTime));
    U32RoundTrip(Bits32(a.version));
    U32RoundTrip(Bits32(a.algId));
    U64RoundTrip(Bits64(a.createTime));
    U64RoundTrip(Bits64(a.expireTime));
  }

  lemma RecordPadding(attr: KeyAttr, key: bytes)
    requires |key| <= 128
    ensures forall i | 60 + |key| <= i < 192 :: RecordBytes(attr, key)[i] == 0
  {
    hide U32Bytes, AttrBytes;
  }

  // ---- which records are accepted ----

  /** What the key area of a record for `k` holds. */
  function KeyArea(k: StoredKey): bytes
    requires k.material.Sm2Pair? ==> |k.material.pub| < TWO_TO_THE_32 && |k.material.prv| < TWO_TO_THE_32
  {
    match k.material
    case Secret(key) => key
    case Sm2Pair(pub, prv) => Payload(pub, prv)
  }

  lemma AttrUnique(b: bytes)
    requires |b| == 56
    ensures AttrBytes(AttrValue(b)) == b
  {
    hide U32Bytes, U32Value, U64Bytes, U64Value;
    U32Unique(b[0..4]);
    U32Unique(b[36..40]);
    U64Unique(b[40..48]);
    U64Unique(b[48..56]);
    assert b == b[0..4] + b[4..36] + b[36..40] + b[40..48] + b[48..56];
  }

  /** A record is taken for key `k` exactly when `k` is well formed and the record begins as the one
      made for `k` does; what follows the key is not looked at. */
  lemma KeyOfIff(rec: bytes, k: StoredKey, pairCheck: (bytes, bytes) -> bool)
    requires |rec| == 192
    ensures KeyOf(rec, pairCheck) == Value(k) <==>
      && WellFormed(k, pairCheck)
      && |KeyArea(k)| <= 128
      && rec[..60 + |KeyArea(k)|] == RecordBytes(k.attr, KeyArea(k))[..60 + |KeyArea(k)|]
  {
    hide U32Value, AttrValue, RecordBytes, AttrBytes, ParsePayload, Payload;
    if KeyOf(rec, pairCheck) == Value(k) {
      AcceptedRecord(rec, k, pairCheck);
    }
    if WellFormed(k, pairCheck) && |KeyArea(k)| <= 128
       && rec[..60 + |KeyArea(k)|] == RecordBytes(k.attr, KeyArea(k))[..60 + |KeyArea(k)|] {
      var key := KeyArea(k);
      var b := RecordBytes(k.attr, key);
      RecordFields(k.attr, key);
      SameSlice(rec, b, 60 + |key|, 0, 56);
      SameSlice(rec, b, 60 + |key|, 56, 60);
      SameSlice(rec, b, 60 + |key|, 60, 60 + |key|);
      if k.material.Sm2Pair? {
        PayloadIff(key, k.material.pub, k.material.prv);
      }
    }
  }

  /** A record that is no key is a bad argument, unless only the pair check of its two halves fails. */
  lemma WhyNoKey(rec: bytes, pairCheck: (bytes, bytes) -> bool)
    requires |rec| == 192 && KeyOf(rec, pairCheck).Error?
    ensures var n := U32Value(rec[56..60]);
      KeyOf(rec, pairCheck).code ==
        if n <= 128 && AttrValue(rec[..56]).algId == 296 && ParsePayload(rec[60..60 + n]).Some?
        then CryptoFailed else BadArgument
  {
    hide U32Value, AttrValue, ParsePayload;
  }

  /** A stored key without a record: a secret key of more than 64 octets, an algorithm that does not go with
      the key, and halves of more than 128 octets, or of more than 120 together. */
  lemma WhyNoRecord(k: StoredKey)
    ensures RecordOf(k).Error? <==>
      match k.material
      case Secret(key) => |key| > 64 || k.attr.algId == 296
      case Sm2Pair(pub, prv) => k.attr.algId == 296 && |pub| + |prv| > 120
    ensures RecordOf(k).Error? ==>
      match k.material
      case Secret(key) => RecordOf(k).code == if |key| > 64 then ReadFailed else CryptoFailed
      case Sm2Pair(pub, prv) => RecordOf(k).code == if |pub| > 128 || |prv| > 128 then CryptoFailed else BadArgument
  {
    hide RecordBytes, Payload;
  }

  lemma SameSlice(a: bytes, b: bytes, n: nat, i: nat, j: nat)
    requires i <= j <= n <= |a| && n <= |b| && a[..n] == b[..n]
    ensures a[i..j] == b[i..j]
  {
    assert a[i..j] == a[..n][i..j] && b[i..j] == b[..n][i..j];
  }

  lemma AcceptedRecord(rec: bytes, k: StoredKey, pairCheck: (bytes, bytes) -> bool)
    requires |rec| == 192 && KeyOf(rec, pairCheck) == Value(k)
    ensures WellFormed(k, pairCheck) && |KeyArea(k)| <= 128
    ensures rec[..60 + |KeyArea(k)|] == RecordBytes(k.attr, KeyArea(k))[..60 + |KeyArea(k)|]
  {
    hide U32Value, U32Bytes, AttrValue, AttrBytes, ParsePayload, Payload;
    var n := U32Value(rec[56..60]);
    var key := rec[60..60 + n];
    AttrUnique(rec[..56]);
    U32Unique(rec[56..60]);
    if k.material.Sm2Pair? {
      PayloadIff(key, k.material.pub, k.material.prv);
      PayloadSize(k.material.pub, k.material.prv);
    }
    assert KeyArea(k) == key;
    assert rec[..60 + n] == rec[..56] + rec[56..60] + key;
  }

  lemma PayloadSize(pub: bytes, prv: bytes)
    requires |pub| < TWO_TO_THE_32 && |prv| < TWO_TO_THE_32
    ensures |Payload(pub, prv)| == |pub| + |prv| + 8
  {
  }

  // ---- sending ----

  /** The record of the key filed under `uuid`. */
  function RecordFor(files: Files<StoredKey>, uuid: string): (r: Result<bytes>)
    ensures r.Value? ==> |r.value| == RECORD_SIZE
  {
    var name := FileName(uuid);
    if name !in files || files[name].NotRegular? then Error(ReadFailed)
    else RecordOf(files[name].content)
  }

  function Records(files: Files<StoredKey>, us: seq<string>): (r: Result<bytes>)
    ensures r.Value? ==> |r.value| == |us| * RECORD_SIZE
  {
    if us == [] then Value([])
    else match Records(files, us[..|us| - 1])
      case Error(e) => Error(e)
      case Value(front) =>
        match RecordFor(files, us[|us| - 1])
        case Error(e) => Error(e)
        case Value(last) => Value(front + last)
  }

  function Message(files: Files<StoredKey>, list: string): Result<bytes> {
    if !IsUuidList(list) || |Split(list, ',')| > MAX_KEY_COUNT then Error(BadArgument)
    else match Records(files, Split(list, ','))
      case Error(e) => Error(e)
      case Value(records) => Value(U32Bytes(SYNC_VERSION) + U32Bytes(|Split(list, ',')|) + records)
  }

  /** The record `b` holds `attr` and, so far, `key` in an otherwise zero key area. */
  ghost predicate Partial(b: bytes, attr: KeyAttr, key: bytes) {
    && |b| == RECORD_SIZE && |key| <= MAX_SYNC_KEY
    && b[..ATTR_SIZE] == AttrBytes(attr)
    && b[KEY_AT..] == key + Zeros(RECORD_SIZE - KEY_AT - |key|)
  }

  method PutAttr(attr: KeyAttr, info: array<byte>)
    requires info.Length == RECORD_SIZE && info[..] == Zeros(RECORD_SIZE)
    modifies info
    ensures Partial(info[..], attr, [])
  {
    hide AttrBytes;
    MemCpy(info, 0, AttrBytes(attr));
    assert info[KEY_AT..] == info[ATTR_SIZE..][4..] == Zeros(RECORD_SIZE - KEY_AT);
  }

  /** Copies `part` behind the `used` octets of the key area. */
  method PutKeyPart(info: array<byte>, used: nat, part: bytes, ghost attr: KeyAttr, ghost key: bytes) returns (used': nat)
    requires info.Length == RECORD_SIZE && Partial(info[..], attr, key)
    requires used == |key| && used + |part| <= MAX_SYNC_KEY
    modifies info
    ensures used' == used + |part| && Partial(info[..], attr, key + part)
  {
    hide AttrBytes;
    ghost var b := info[..];
    MemCpy(info, KEY_AT + used, part);
    used' := used + |part|;
    assert info[..ATTR_SIZE] == info[..KEY_AT + used][..ATTR_SIZE] == b[..ATTR_SIZE];
    forall k | KEY_AT <= k < RECORD_SIZE
      ensures info[k] == (key + part + Zeros(RECORD_SIZE - KEY_AT - used'))[k - KEY_AT]
    {
      if k < KEY_AT + used {
        assert info[k] == info[..KEY_AT + used][k] == b[KEY_AT..][k - KEY_AT];
      } else if k >= KEY_AT + used' {
        assert info[k] == info[KEY_AT + used'..][k - KEY_AT - used'] == b[KEY_AT..][k - KEY_AT];
      } else {
        assert info[k] == info[KEY_AT + used..KEY_AT + used'][k - KEY_AT - used];
      }
    }
  }

  method PutKeyLen(info: array<byte>, used: nat, ghost attr: KeyAttr, ghost key: bytes)
    requires info.Length == RECORD_SIZE && Partial(info[..], attr, key) && used == |key|
    modifies info
    ensures info[..] == RecordBytes(attr, key)
  {
    hide AttrBytes, U32Bytes;
    MemCpy(info, ATTR_SIZE, U32Bytes(used));
    assert info[..] == info[..ATTR_SIZE] + info[ATTR_SIZE..KEY_AT] + info[KEY_AT..];
  }

  /** Fills a zeroed record with a cipher key. */
  method FillSyncKeyInfoFromCipher(attr: KeyAttr, key: bytes, info: array<byte>)
    requires info.Length == RECORD_SIZE && info[..] == Zeros(RECORD_SIZE)
    requires |key| <= MAX_SYNC_KEY
    modifies info
    ensures info[..] == RecordBytes(attr, key)
  {
    hide Partial;
    PutAttr(attr, info);
    var used := PutKeyPart(info, 0, key, attr, []);
    assert [] + key == key;
    PutKeyLen(info, used, attr, key);
  }

  /** Fills a zeroed record with an SM2 pair, the key area piece by piece. A key that is no pair, a
      half that does not fit where it is exported to and a pair that does not fit the record fail. */
  method FillSyncKeyInfoFromSm2(attr: KeyAttr, material: Material, info: array<byte>) returns (ret: Code)
    requires info.Length == RECORD_SIZE && info[..] == Zeros(RECORD_SIZE)
    requires attr.algId == PKEY_SM2 && (material.Secret? ==> |material.key| <= MAX_STORED_KEY)
    modifies info
    ensures match RecordOf(StoredKey(attr, material))
      case Error(e) => ret == e && ret != Ok
      case Value(rec) => ret == Ok && info[..] == rec
  {
    if material.Secret? {
      return CryptoFailed;
    }
    var pub, prv := material.pub, material.prv;
    if |pub| > MAX_SYNC_KEY || |prv| > MAX_SYNC_KEY {
      return CryptoFailed;
    }
    if |pub| + |prv| + 4 + 4 > MAX_SYNC_KEY {
      return BadArgument;
    }
    PutPair(attr, pub, prv, info);
    return Ok;
  }

  method PutPair(attr: KeyAttr, pub: bytes, prv: bytes, info: array<byte>)
    requires info.Length == RECORD_SIZE && info[..] == Zeros(RECORD_SIZE)
    requires |pub| + |prv| + 8 <= MAX_SYNC_KEY
    modifies info
    ensures |Payload(pub, prv)| <= MAX_SYNC_KEY
    ensures info[..] == RecordBytes(attr, Payload(pub, prv))
  {
    hide Partial, U32Bytes, RecordBytes;
    PutAttr(attr, info);
    var used := PutKeyPart(info, 0, U32Bytes(|pub|), attr, []);
    assert [] + U32Bytes(|pub|) == U32Bytes(|pub|);
    used := PutKeyPart(info, used, pub, attr, U32Bytes(|pub|));
    used := PutKeyPart(info, used, U32Bytes(|prv|), attr, U32Bytes(|pub|) + pub);
    used := PutKeyPart(info, used, prv, attr, U32Bytes(|pub|) + pub + U32Bytes(|prv|));
    PutKeyLen(info, used, attr, Payload(pub, prv));
  }

  // ---- receiving ----

  const HEX_CHARS: string := "0123456789abcdef"

  /** HITLS_APP_BytesToHex. */
  function Hex(b: bytes): (s: string)
    ensures |s| == 2 * |b|
    ensures forall i | 0 <= i < |s| :: IsHexChar(s[i])
  {
    if b == [] then "" else [HEX_CHARS[b[0] / 16], HEX_CHARS[b[0] % 16]] + Hex(b[1..])
  }

  lemma {:induction false} HexInjective(a: bytes, b: bytes)
    requires Hex(a) == Hex(b)
    ensures a == b
  {
    hide Hex;
    assert |a| == |b|;
    if a != [] {
      HexUnfold(a);
      HexUnfold(b);
      HexDigits(a[0] / 16, b[0] / 16);
      HexDigits(a[0] % 16, b[0] % 16);
      HexInjective(a[1..], b[1..]);
      assert a == [a[0]] + a[1..] && b == [b[0]] + b[1..];
    }
  }

  lemma HexUnfold(b: bytes)
    requires b != []
    ensures Hex(b)[0] == HEX_CHARS[b[0] / 16] && Hex(b)[1] == HEX_CHARS[b[0] % 16] && Hex(b)[2..] == Hex(b[1..])
  {
  }

  /** Characters 2i and 2i + 1 are the digits of octet i, by their codes, in lower case. */
  lemma {:induction false} HexValue(b: bytes, i: nat)
    requires i < |b|
    ensures var high, low := Hex(b)[2 * i] as int, Hex(b)[2 * i + 1] as int;
      && DigitValue(high).Some? && DigitValue(low).Some?
      && !(65 <= high <= 70) && !(65 <= low <= 70)
      && DigitValue(high).value * 16 + DigitValue(low).value == b[i]
    decreases |b|
  {
    hide Hex;
    HexUnfold(b);
    if i == 0 {
      HexDigit(b[0] / 16);
      HexDigit(b[0] % 16);
    } else {
      HexValue(b[1..], i - 1);
      assert Hex(b)[2 * i] == Hex(b)[2..][2 * (i - 1)] && Hex(b)[2 * i + 1] == Hex(b)[2..][2 * (i - 1) + 1];
    }
  }

  lemma HexDigit(d: nat)
    requires d < 16
    ensures DigitValue(HEX_CHARS[d] as int) == Some(d) && !(65 <= HEX_CHARS[d] as int <= 70)
  {
    assert HEX_CHARS == ['0', '1', '2', '3', '4', '5', '6', '7', '8', '9', 'a', 'b', 'c', 'd', 'e', 'f'];
  }

  lemma HexDigits(i: nat, j: nat)
    requires i < 16 && j < 16 && HEX_CHARS[i] == HEX_CHARS[j]
    ensures i == j
  {
    HexDigit(i);
    HexDigit(j);
  }

  /** Received keys are filed under the hex of their own UUID. */
  function KeyName(k: StoredKey): string { FileName(Hex(k.attr.uuid)) }

  predicate Writable(files: Files<StoredKey>, k: StoredKey) {
    KeyName(k) in files ==> files[KeyName(k)].File?
  }

  function Stored(files: Files<StoredKey>, k: StoredKey, fileSize: StoredKey -> nat): Files<StoredKey> {
    files[KeyName(k) := File(fileSize(k), k)]
  }

  /** The store overwritten by `ks`, in order. */
  function StoreAll(files: Files<StoredKey>, ks: seq<StoredKey>, fileSize: StoredKey -> nat): Files<StoredKey>
    decreases |ks|
  {
    if ks == [] then files else StoreAll(Stored(files, ks[0], fileSize), ks[1..], fileSize)
  }

  /** A name that is none of the keys' is not touched. */
  lemma {:induction false} StoreOther(files: Files<StoredKey>, ks: seq<StoredKey>, fileSize: StoredKey -> nat, name: string)
    requires forall i | 0 <= i < |ks| :: KeyName(ks[i]) != name
    ensures name in StoreAll(files, ks, fileSize) <==> name in files
    ensures name in files ==> StoreAll(files, ks, fileSize)[name] == files[name]
    decreases |ks|
  {
    hide KeyName;
    if ks != [] {
      var rest := ks[1..];
      assert forall i | 0 <= i < |rest| :: rest[i] == ks[i + 1];
      StoreOther(Stored(files, ks[0], fileSize), rest, fileSize, name);
    }
  }

  /** A key whose identifier no later one has stays. */
  lemma {:induction false} StoreKept(files: Files<StoredKey>, ks: seq<StoredKey>, fileSize: StoredKey -> nat, i: nat)
    requires i < |ks| && forall j | i < j < |ks| :: ks[j].attr.uuid != ks[i].attr.uuid
    ensures KeyName(ks[i]) in StoreAll(files, ks, fileSize)
    ensures StoreAll(files, ks, fileSize)[KeyName(ks[i])] == File(fileSize(ks[i]), ks[i])
    decreases |ks|
  {
    hide KeyName;
    var stored, rest := Stored(files, ks[0], fileSize), ks[1..];
    if i == 0 {
      forall j | 0 <= j < |rest| ensures KeyName(rest[j]) != KeyName(ks[0]) {
        assert rest[j] == ks[j + 1];
        KeyNamesDiffer(rest[j], ks[0]);
      }
      StoreOther(stored, rest, fileSize, KeyName(ks[0]));
    } else {
      assert forall j | 0 <= j < |rest| :: rest[j] == ks[j + 1];
      StoreKept(stored, rest, fileSize, i - 1);
    }
  }

  /** Overwriting touches the names of the keys only, and of two keys with one UUID the later stays. */
  lemma StoreAllLookup(files: Files<StoredKey>, ks: seq<StoredKey>, fileSize: StoredKey -> nat)
    ensures forall name | forall i | 0 <= i < |ks| :: KeyName(ks[i]) != name ::
      name in StoreAll(files, ks, fileSize) <==> name in files
    ensures forall name | name in files && forall i | 0 <= i < |ks| :: KeyName(ks[i]) != name ::
      name in StoreAll(files, ks, fileSize) && StoreAll(files, ks, fileSize)[name] == files[name]
    ensures forall i | 0 <= i < |ks| && (forall j | i < j < |ks| :: ks[j].attr.uuid != ks[i].attr.uuid) ::
      KeyName(ks[i]) in StoreAll(files, ks, fileSize)
      && StoreAll(files, ks, fileSize)[KeyName(ks[i])] == File(fileSize(ks[i]), ks[i])
  {
    hide KeyName, StoreAll;
    var all := StoreAll(files, ks, fileSize);
    forall name | forall i | 0 <= i < |ks| :: KeyName(ks[i]) != name
      ensures (name in all <==> name in files) && (name in files ==> all[name] == files[name])
    {
      StoreOther(files, ks, fileSize, name);
    }
    forall i | 0 <= i < |ks| && (forall j | i < j < |ks| :: ks[j].attr.uuid != ks[i].attr.uuid)
      ensures KeyName(ks[i]) in all && all[KeyName(ks[i])] == File(fileSize(ks[i]), ks[i])
    {
      StoreKept(files, ks, fileSize, i);
    }
  }

  lemma KeyNamesDiffer(a: StoredKey, b: StoredKey)
    requires a.attr.uuid != b.attr.uuid
    ensures KeyName(a) != KeyName(b)
  {
    if KeyName(a) == KeyName(b) {
      FileNameInjective(Hex(a.attr.uuid), Hex(b.attr.uuid));
      HexInjective(a.attr.uuid, b.attr.uuid);
    }
  }

  datatype Outcome = Outcome(code: Code, files: Files<StoredKey>)

  function ReceiveLoop(files: Files<StoredKey>, stream: bytes, n: nat,
                       pairCheck: (bytes, bytes) -> bool, fileSize: StoredKey -> nat): Outcome
    decreases n
  {
    if n == 0 then Outcome(Ok, files)
    else if |stream| < RECORD_SIZE then Outcome(ReceiveFailed, files)
    else match KeyOf(stream[..RECORD_SIZE], pairCheck)
      case Error(e) => Outcome(e, files)
      case Value(k) =>
        if !Writable(files, k) then Outcome(WriteFailed, files)
        else ReceiveLoop(Stored(files, k, fileSize), stream[RECORD_SIZE..], n - 1, pairCheck, fileSize)
  }

  function Receive(files: Files<StoredKey>, stream: bytes,
                   pairCheck: (bytes, bytes) -> bool, fileSize: StoredKey -> nat): Outcome {
    if |stream| < 4 then Outcome(ReceiveFailed, files)
    else if U32Value(stream[..4]) != SYNC_VERSION then Outcome(BadArgument, files)
    else if |stream| < 8 then Outcome(ReceiveFailed, files)
    else
      var n := U32Value(stream[4..8]);
      if n == 0 || n > MAX_KEY_COUNT then Outcome(BadArgument, files)
      else ReceiveLoop(files, stream[8..], n, pairCheck, fileSize)
  }

  /** The keys of the records before the first bad one: missing, malformed or not writable. */
  function GoodKeys(files: Files<StoredKey>, stream: bytes, n: nat, pairCheck: (bytes, bytes) -> bool): (ks: seq<StoredKey>)
    ensures |ks| <= n
    decreases n
  {
    if n == 0 || |stream| < RECORD_SIZE then []
    else match KeyOf(stream[..RECORD_SIZE], pairCheck)
      case Error(_) => []
      case Value(k) =>
        if Writable(files, k) then [k] + GoodKeys(files, stream[RECORD_SIZE..], n - 1, pairCheck) else []
  }

  /** What is wrong with bad record `i`: it is missing, it is no key, or its file cannot be written. */
  function WhyBad(stream: bytes, i: nat, pairCheck: (bytes, bytes) -> bool): Code {
    if |stream| < 192 * i + 192 then ReceiveFailed
    else match KeyOf(stream[192 * i..192 * i + 192], pairCheck)
      case Error(e) => e
      case Value(_) => WriteFailed
  }

  lemma WhyBadBehind(stream: bytes, i: nat, pairCheck: (bytes, bytes) -> bool)
    requires |stream| >= 192
    ensures WhyBad(stream, i + 1, pairCheck) == WhyBad(stream[192..], i, pairCheck)
  {
    hide KeyOf;
    if |stream| >= 192 * i + 384 {
      assert stream[192..][192 * i..192 * i + 192] == stream[192 * i + 192..192 * i + 384];
    }
  }

  /** A bad record i leaves exactly the first i records stored; without one, all are. */
  lemma {:induction false} LoopStoresGoodKeys(files: Files<StoredKey>, stream: bytes, n: nat,
                                              pairCheck: (bytes, bytes) -> bool, fileSize: StoredKey -> nat)
    ensures var ks := GoodKeys(files, stream, n, pairCheck); var r := ReceiveLoop(files, stream, n, pairCheck, fileSize);
      && r.files == StoreAll(files, ks, fileSize) && (r.code == Ok <==> |ks| == n)
      && (|ks| < n ==> r.code == WhyBad(stream, |ks|, pairCheck))
    decreases n
  {
    hide KeyOf, KeyName;
    if n > 0 && |stream| >= RECORD_SIZE && KeyOf(stream[..RECORD_SIZE], pairCheck).Value? {
      var k := KeyOf(stream[..RECORD_SIZE], pairCheck).value;
      if Writable(files, k) {
        LoopStoresGoodKeys(Stored(files, k, fileSize), stream[RECORD_SIZE..], n - 1, pairCheck, fileSize);
        SameWritable(files, k, fileSize, stream[RECORD_SIZE..], n - 1, pairCheck);
        var rest := GoodKeys(files, stream[RECORD_SIZE..], n - 1, pairCheck);
        assert ([k] + rest)[1..] == rest;
        WhyBadBehind(stream, |rest|, pairCheck);
      }
    } else if n > 0 && |stream| >= RECORD_SIZE {
      KeyErrors(stream[..RECORD_SIZE], pairCheck);
    }
  }

  /** Storing a key changes no later verdict on what is writable. */
  lemma {:induction false} SameWritable(files: Files<StoredKey>, k: StoredKey, fileSize: StoredKey -> nat,
                                        stream: bytes, n: nat, pairCheck: (bytes, bytes) -> bool)
    requires Writable(files, k)
    ensures GoodKeys(Stored(files, k, fileSize), stream, n, pairCheck) == GoodKeys(files, stream, n, pairCheck)
    decreases n
  {
    hide KeyOf, KeyName;
    if n > 0 && |stream| >= RECORD_SIZE {
      SameWritable(files, k, fileSize, stream[RECORD_SIZE..], n - 1, pairCheck);
    }
  }

  // ---- send, then receive ----

  /** Every listed key is present and well formed for the receiver, whose directory can take it. */
  predicate Sendable(files: Files<StoredKey>, us: seq<string>, files': Files<StoredKey>, pairCheck: (bytes, bytes) -> bool) {
    forall i | 0 <= i < |us| ::
      && FileName(us[i]) in files && files[FileName(us[i])].File?
      && WellFormed(files[FileName(us[i])].content, pairCheck)
      && Writable(files', files[FileName(us[i])].content)
  }

  function KeysAt(files: Files<StoredKey>, us: seq<string>): seq<StoredKey>
    requires forall i | 0 <= i < |us| :: FileName(us[i]) in files && files[FileName(us[i])].File?
  {
    seq(|us|, i requires 0 <= i < |us| => files[FileName(us[i])].content)
  }

  lemma {:induction false} AppendGoodKey(files: Files<StoredKey>, front: bytes, last: bytes, n: nat, pairCheck: (bytes, bytes) -> bool)
    requires |front| == n * RECORD_SIZE && |last| == RECORD_SIZE
    requires |GoodKeys(files, front, n, pairCheck)| == n
    requires KeyOf(last, pairCheck).Value? && Writable(files, KeyOf(last, pairCheck).value)
    ensures GoodKeys(files, front + last, n + 1, pairCheck) ==
            GoodKeys(files, front, n, pairCheck) + [KeyOf(last, pairCheck).value]
    decreases n
  {
    hide KeyOf, Writable;
    var all := front + last;
    if n == 0 {
      assert all[..RECORD_SIZE] == last;
      assert GoodKeys(files, all[RECORD_SIZE..], 0, pairCheck) == [];
    } else {
      assert all[..RECORD_SIZE] == front[..RECORD_SIZE];
      assert all[RECORD_SIZE..] == front[RECORD_SIZE..] + last;
      AppendGoodKey(files, front[RECORD_SIZE..], last, n - 1, pairCheck);
    }
  }

  lemma {:induction false} RecordsReceived(files: Files<StoredKey>, us: seq<string>, files': Files<StoredKey>,
                                           pairCheck: (bytes, bytes) -> bool)
    requires Sendable(files, us, files', pairCheck)
    ensures Records(files, us).Value?
    ensures GoodKeys(files', Records(files, us).value, |us|, pairCheck) == KeysAt(files, us)
    decreases |us|
  {
    hide KeyOf, Writable, WellFormed, RecordOf, FileName;
    if us != [] {
      var front, u := us[..|us| - 1], us[|us| - 1];
      RecordsReceived(files, front, files', pairCheck);
      var k := files[FileName(u)].content;
      RecordRoundTrip(k, pairCheck);
      AppendGoodKey(files', Records(files, front).value, RecordFor(files, u).value, |front|, pairCheck);
      assert KeysAt(files, us) == KeysAt(files, front) + [k];
    }
  }

  /** Sending any valid list of up to 1024 such keys and receiving the bytes leaves the
      receiver's store overwritten by exactly those keys, with their attributes and material. */
  lemma SendThenReceive(files: Files<StoredKey>, list: string, files': Files<StoredKey>,
                        pairCheck: (bytes, bytes) -> bool, fileSize: StoredKey -> nat)
    requires IsUuidList(list) && |Split(list, ',')| <= 1024
    requires Sendable(files, Split(list, ','), files', pairCheck)
    ensures Message(files, list).Value?
    ensures Receive(files', Message(files, list).value, pairCheck, fileSize) ==
            Outcome(Ok, StoreAll(files', KeysAt(files, Split(list, ',')), fileSize))
  {
    hide Records, ReceiveLoop, StoreAll, GoodKeys, U32Bytes, U32Value, IsUuidList, Split;
    var us := Split(list, ',');
    RecordsReceived(files, us, files', pairCheck);
    var m := Message(files, list).value;
    assert m[..4] == U32Bytes(SYNC_VERSION);
    assert m[4..8] == U32Bytes(|us|);
    assert m[8..] == Records(files, us).value;
    U32RoundTrip(SYNC_VERSION);
    U32RoundTrip(|us|);
    LoopStoresGoodKeys(files', m[8..], |us|, pairCheck, fileSize);
  }

  // ---- the octets around the records ----

  lemma SmallNumber(n: nat)
    requires n <= 1024
    ensures U32Bytes(n) == [0, 0, n / 256, n % 256]
  {
  }

  /** A message is version 1, the number of keys and 192 octets for each, and there is none for a list
      that is no identifier list or has more than 1024 entries. */
  lemma MessageLayout(files: Files<StoredKey>, list: string)
    ensures var n := |Split(list, ',')|;
      match Message(files, list)
      case Error(e) => e == BadArgument <== !IsUuidList(list) || n > 1024
      case Value(m) => IsUuidList(list) && n <= 1024 && |m| == 8 + 192 * n && m[..8] == [0, 0, 0, 1, 0, 0, n / 256, n % 256]
  {
    hide IsUuidList, Split, U32Bytes;
    var n := |Split(list, ',')|;
    if Message(files, list).Value? {
      SmallNumber(1);
      SmallNumber(n);
    }
  }

  /** Record `i` of a message is the record of the `i`-th listed key. */
  lemma MessageRecord(files: Files<StoredKey>, list: string, i: nat)
    requires Message(files, list).Value? && i < |Split(list, ',')|
    ensures |Message(files, list).value| >= 8 + 192 * i + 192
    ensures RecordFor(files, Split(list, ',')[i]) == Value(Message(files, list).value[8 + 192 * i..8 + 192 * i + 192])
  {
    hide IsUuidList, Split, U32Bytes, RecordFor, Records;
    var us, m := Split(list, ','), Message(files, list).value;
    RecordsAt(files, us, i);
    var records := Records(files, us).value;
    assert m == U32Bytes(SYNC_VERSION) + U32Bytes(|us|) + records;
    assert m[8 + 192 * i..8 + 192 * i + 192] == records[192 * i..192 * i + 192];
  }

  lemma {:induction false} RecordsAt(files: Files<StoredKey>, us: seq<string>, i: nat)
    requires Records(files, us).Value? && i < |us|
    ensures |Records(files, us).value| >= 192 * i + 192
    ensures RecordFor(files, us[i]) == Value(Records(files, us).value[192 * i..192 * i + 192])
    decreases |us|
  {
    hide RecordFor;
    var front := us[..|us| - 1];
    if i < |front| {
      RecordsAt(files, front, i);
      assert Records(files, us).value[192 * i..192 * i + 192] == Records(files, front).value[192 * i..192 * i + 192];
    } else {
      var last := RecordFor(files, us[i]).value;
      assert Records(files, us).value == Records(files, front).value + last;
      assert (Records(files, front).value + last)[192 * i..192 * i + 192] == last;
    }
  }

  /** A stream is refused, and nothing stored, when it ends within version or count, when its version is
      not 1, and when its count is 0 or above 1024. */
  lemma ReceiveRefused(files: Files<StoredKey>, stream: bytes, pairCheck: (bytes, bytes) -> bool, fileSize: StoredKey -> nat)
    ensures var r := Receive(files, stream, pairCheck, fileSize);
      && (|stream| < 4 ==> r == Outcome(ReceiveFailed, files))
      && (|stream| >= 4 && stream[..4] != [0, 0, 0, 1] ==> r == Outcome(BadArgument, files))
      && (4 <= |stream| < 8 && stream[..4] == [0, 0, 0, 1] ==> r == Outcome(ReceiveFailed, files))
      && (|stream| >= 8 && stream[..4] == [0, 0, 0, 1] ==>
            var n := (stream[4] as int) * 16777216 + (stream[5] as int) * 65536 + (stream[6] as int) * 256 + (stream[7] as int);
            if n == 0 || n > 1024 then r == Outcome(BadArgument, files)
            else r == ReceiveLoop(files, stream[8..], n, pairCheck, fileSize))
  {
    hide ReceiveLoop, U32Bytes;
    if |stream| >= 4 {
      U32Unique(stream[..4]);
      SmallNumber(1);
      U32RoundTrip(1);
    }
  }

  // ---- what becomes of a received key ----

  lemma TextOfUuid(k: StoredKey)
    ensures var u := Hex(k.attr.uuid); IsUuid(u) && FileName(u) == KeyName(k) && IsUuidList(u) && Split(u, ',') == [u]
  {
    hide Hex;
    var u := Hex(k.attr.uuid);
    UuidHasNoComma(u);
    SplitWhole(u, ',');
  }

  /** A key in the store is listed under the hexadecimal text of its identifier. */
  lemma KeyIsListed(files: Files<StoredKey>, k: StoredKey, listing: seq<string>)
    requires KeyName(k) in files && files[KeyName(k)].File? && Lists(files, listing)
    ensures Hex(k.attr.uuid) in KeyUuids(files, listing)
  {
    hide Hex, IsUuid;
    var u := Hex(k.attr.uuid);
    TextOfUuid(k);
    KeyFileNameIff(KeyName(k));
    ListedKeys(files, listing);
    assert KeyName(k) in NamesOf(KeyUuids(files, listing));
    var us := KeyUuids(files, listing);
    var i :| 0 <= i < |us| && FileName(us[i]) == KeyName(k);
    FileNameInjective(us[i], u);
  }

  /** Deleting the text of its identifier removes exactly that key, if its file can be erased at all. */
  lemma KeyIsDeleted(files: Files<StoredKey>, k: StoredKey)
    requires KeyName(k) in files && files[KeyName(k)].File?
    ensures var u := Hex(k.attr.uuid);
      && IsUuidList(u) && Split(u, ',') == [u]
      && (RemovableCount(files, [u], 0) == 1 <==> 1 <= files[KeyName(k)].size <= 262144)
      && files - NamesOf([u]) == files - {KeyName(k)}
  {
    hide Hex, IsUuid;
    var u := Hex(k.attr.uuid);
    TextOfUuid(k);
    AllRemovableIff(files, [u]);
    assert AllUuids([u]);
    assert NamesOf([u]) == {KeyName(k)} by {
      assert [u][0] == u;
    }
  }

  /** After keys were received, each whose identifier no later one has is listed under that
      identifier's text and deleted by it. */
  lemma ReceivedIsListed(files: Files<StoredKey>, ks: seq<StoredKey>, i: nat, fileSize: StoredKey -> nat, listing: seq<string>)
    requires i < |ks| && forall j | i < j < |ks| :: ks[j].attr.uuid != ks[i].attr.uuid
    requires Lists(StoreAll(files, ks, fileSize), listing)
    ensures var stored, u := StoreAll(files, ks, fileSize), Hex(ks[i].attr.uuid);
      && u in KeyUuids(stored, listing)
      && (RemovableCount(stored, Split(u, ','), 0) == 1 <==> 1 <= fileSize(ks[i]) <= 262144)
  {
    hide Hex, StoreAll, KeyUuids, RemovableCount, Lists, Split, KeyName;
    StoreKept(files, ks, fileSize, i);
    KeyIsListed(StoreAll(files, ks, fileSize), ks[i], listing);
    KeyIsDeleted(StoreAll(files, ks, fileSize), ks[i]);
  }

  /** One side of a synchronisation: its key directory, the SM2 pair check, and how large the
      file for a key comes out. */
  class Peer {
    var files: Files<StoredKey>
    const pairCheck: (bytes, bytes) -> bool
    const fileSize: StoredKey -> nat

    constructor (files: Files<StoredKey>, pairCheck: (bytes, bytes) -> bool, fileSize: StoredKey -> nat)
      ensures this.files == files && this.pairCheck == pairCheck && this.fileSize == fileSize
    {
      this.files, this.pairCheck, this.fileSize := files, pairCheck, fileSize;
    }

    /** Appends the record of one key at `index`. */
    method PrepareOneKey(uuid: string, buf: array<byte>, index: nat) returns (ret: Code, index': nat)
      requires index + RECORD_SIZE <= buf.Length
      modifies buf
      ensures match RecordFor(files, uuid)
        case Error(e) => ret == e && ret != Ok
        case Value(rec) => ret == Ok && index' == index + RECORD_SIZE && buf[index..index'] == rec
      ensures buf[..index] == old(buf[..index])
    {
      hide RecordBytes, Payload;
      index' := index;
      var name := FileName(uuid);
      if name !in files || files[name].NotRegular? {
        return ReadFailed, index';
      }
      var k := files[name].content;
      if k.material.Secret? && |k.material.key| > MAX_STORED_KEY {
        return ReadFailed, index';
      }
      var info := new byte[RECORD_SIZE](_ => 0);
      assert info[..] == Zeros(RECORD_SIZE);
      if k.attr.algId == PKEY_SM2 {
        ret := FillSyncKeyInfoFromSm2(k.attr, k.material, info);
        if ret != Ok {
          return ret, index';
        }
      } else {
        FillSyncKeyInfoFromCipher(k.attr, if k.material.Secret? then k.material.key else [], info);
      }
      MemCpy(buf, index, info[..]);
      index' := index + RECORD_SIZE;
      return Ok, index';
    }

    /** Builds version, count and one record per listed key, and sends them as one message. */
    method SendKey(list: CString) returns (ret: Code, sent: bytes)
      ensures match Message(files, list)
        case Error(e) => ret == e && sent == []
        case Value(message) => ret == Ok && sent == message
    {
      hide RecordFor, Records, U32Bytes, IsUuidList, Split;
      var split := SplitUuidString(list);
      if split.None? {
        return BadArgument, [];
      }
      var us := split.value;
      var n := |us|;
      if n == 0 || n > MAX_KEY_COUNT {
        return BadArgument, [];
      }
      var buf := new byte[8 + n * RECORD_SIZE](_ => 0);
      MemCpy(buf, 0, U32Bytes(SYNC_VERSION));
      MemCpy(buf, 4, U32Bytes(n));
      ghost var head := U32Bytes(SYNC_VERSION) + U32Bytes(n);
      assert buf[..8] == head;
      var index: nat := 8;
      NoRecords(files);
      assert us[..0] == [] && head + [] == head;
      for k := 0 to n
        invariant index == 8 + k * RECORD_SIZE
        invariant Records(files, us[..k]).Value? && buf[..index] == head + Records(files, us[..k]).value
      {
        RecordsStep(files, us, k);
        ret, index := PrepareOneKey(us[k], buf, index);
        if ret != Ok {
          RecordsFail(files, us, k + 1);
          return ret, [];
        }
        PrefixGrows(buf[..], index - RECORD_SIZE, head, Records(files, us[..k]).value, RecordFor(files, us[k]).value);
      }
      assert us[..n] == us;
      return Ok, buf[..index];
    }

    /** Parses one received record and files the key, overwriting a key file of that name. */
    method ParseAndWriteKeyFile(rec: bytes) returns (ret: Code)
      requires |rec| == RECORD_SIZE
      modifies this
      ensures match KeyOf(rec, pairCheck)
        case Error(e) => ret == e && files == old(files)
        case Value(k) =>
          if Writable(old(files), k) then ret == Ok && files == Stored(old(files), k, fileSize)
          else ret == WriteFailed && files == old(files)
    {
      hide U32Value, AttrValue;
      var keyLen := U32Value(rec[ATTR_SIZE..KEY_AT]);
      if keyLen > MAX_SYNC_KEY {
        return BadArgument;
      }
      var attr := AttrValue(rec[..ATTR_SIZE]);
      var key := rec[KEY_AT..KEY_AT + keyLen];
      var material: Material;
      if attr.algId == PKEY_SM2 {
        var pair := SplitPayload(key);
        if pair.None? {
          return BadArgument;
        }
        if !pairCheck(pair.value.0, pair.value.1) {
          return CryptoFailed;
        }
        material := Sm2Pair(pair.value.0, pair.value.1);
      } else {
        if keyLen > MAX_STORED_KEY {
          return BadArgument;
        }
        material := Secret(key);
      }
      var k := StoredKey(attr, material);
      if KeyName(k) in files && files[KeyName(k)].NotRegular? {
        return WriteFailed;
      }
      files := files[KeyName(k) := File(fileSize(k), k)];
      return Ok;
    }

    /** Receives version, count and records from `stream`, storing each key as it arrives. */
    method ReceiveKey(iter: int32, saltLen: int32, stream: bytes) returns (ret: Code)
      modifies this
      ensures (iter != -1 && iter < 1024) || (saltLen != -1 && saltLen < 8) ==>
                ret == BadOption && files == old(files)
      ensures !((iter != -1 && iter < 1024) || (saltLen != -1 && saltLen < 8)) ==>
                Outcome(ret, files) == Receive(old(files), stream, pairCheck, fileSize)
    {
      hide U32Value, KeyOf, KeyName;
      if (iter != -1 && iter < ITER_MIN) || (saltLen != -1 && saltLen < SALT_MIN) {
        return BadOption;
      }
      if |stream| < 4 {
        return ReceiveFailed;
      }
      var version := U32Value(stream[..4]);
      if version != SYNC_VERSION {
        return BadArgument;
      }
      if |stream| < 8 {
        return ReceiveFailed;
      }
      var n := U32Value(stream[4..8]);
      if n == 0 || n > MAX_KEY_COUNT {
        return BadArgument;
      }
      var pos: nat := 8;
      for i := 0 to n
        invariant pos <= |stream|
        invariant ReceiveLoop(files, stream[pos..], n - i, pairCheck, fileSize) == Receive(old(files), stream, pairCheck, fileSize)
      {
        if |stream| - pos < RECORD_SIZE {
          return ReceiveFailed;
        }
        assert stream[pos..][..RECORD_SIZE] == stream[pos..pos + RECORD_SIZE];
        assert stream[pos..][RECORD_SIZE..] == stream[pos + RECORD_SIZE..];
        KeyErrors(stream[pos..pos + RECORD_SIZE], pairCheck);
        ret := ParseAndWriteKeyFile(stream[pos..pos + RECORD_SIZE]);
        pos := pos + RECORD_SIZE;
        if ret != Ok {
          return;
        }
      }
      return Ok;
    }
  }

  lemma KeyErrors(rec: bytes, pairCheck: (bytes, bytes) -> bool)
    requires |rec| == RECORD_SIZE
    ensures KeyOf(rec, pairCheck).Error? ==> KeyOf(rec, pairCheck).code != Ok
  {
    hide U32Value, AttrValue, ParsePayload;
  }

  /** CreateAsymKeyFromSyncInfo: cuts the payload at a moving position. */
  method SplitPayload(key: bytes) returns (r: Option<(bytes, bytes)>)
    ensures r == ParsePayload(key)
  {
    if |key| < 4 {
      return None;
    }
    var pubLen := U32Value(key[..4]);
    var pos := 4;
    if pubLen > |key| - pos {
      return None;
    }
    var pub := key[pos..pos + pubLen];
    pos := pos + pubLen;
    if |key| - pos < 4 {
      return None;
    }
    var prvLen := U32Value(key[pos..pos + 4]);
    pos := pos + 4;
    if prvLen != |key| - pos {
      return None;
    }
    return Some((pub, key[pos..]));
  }

  lemma PrefixGrows(b: bytes, i: nat, head: bytes, front: bytes, last: bytes)
    requires i + |last| <= |b| && b[..i] == head + front && b[i..i + |last|] == last
    ensures b[..i + |last|] == head + (front + last)
  {
    assert b[..i + |last|] == b[..i] + b[i..i + |last|];
    assert head + front + last == head + (front + last);
  }

  lemma NoRecords(files: Files<StoredKey>)
    ensures Records(files, []) == Value([])
  {
  }

  lemma RecordsStep(files: Files<StoredKey>, us: seq<string>, k: nat)
    requires k < |us| && Records(files, us[..k]).Value?
    ensures Records(files, us[..k + 1]) ==
      match RecordFor(files, us[k])
      case Error(e) => Error(e)
      case Value(last) => Value(Records(files, us[..k]).value + last)
  {
    hide RecordFor;
    assert us[..k + 1][..k] == us[..k];
  }

  /** A failing prefix fails the whole list the same way. */
  lemma {:induction false} RecordsFail(files: Files<StoredKey>, us: seq<string>, k: nat)
    requires k <= |us| && Records(files, us[..k]).Error?
    ensures Records(files, us) == Records(files, us[..k])
    decreases |us|
  {
    if k == |us| {
      assert us[..k] == us;
    } else {
      var front := us[..|us| - 1];
      assert front[..k] == us[..k];
      RecordsFail(files, front, k);
    }
  }
}
