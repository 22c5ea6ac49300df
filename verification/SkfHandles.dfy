/** Vendor handles of helper_main.cpp: what is opened and released on every run of sign,
    certificate and probe, whatever the vendor library answers. */
module SkfHandles {
  import opened Octets

  /** A non-null SKF_HANDLE. A successful open yields one, a failing open leaves the field null. */
  newtype Handle = h: int | h >= 1 witness 1

  type Name = bytes

  const SAR_OK: uint32 := 0
  const PUBLIC_BLOB: nat := 132
  const SIGNATURE_BLOB: nat := 128
  const MEBIBYTE: nat := 1024 * 1024

  datatype Call =
    | EnumDev
    | ConnectDev(name: Name)
    | DisconnectDev(device: Handle)
    | EnumApplication(device: Handle)
    | OpenApplication(device: Handle, name: Name)
    | CloseApplication(application: Handle)
    | VerifyPin(application: Handle, pin: bytes)
    | ClearSecureState(application: Handle)
    | EnumContainer(application: Handle)
    | OpenContainer(application: Handle, name: Name)
    | CloseContainer(container: Handle)
    | ExportPublicKey(container: Handle)
    | ExportCertificate(container: Handle, signing: bool)
    | DigestInit(device: Handle, key: bytes, id: bytes)
    | DigestUpdate(digest: Handle, data: bytes)
    | DigestFinal(digest: Handle)
    | CloseHandle(digest: Handle)
    | EccSignData(container: Handle, hash: bytes)

  /** What a call may give back: a status, a handle, a length and octets for the caller's buffer. */
  datatype Reply = Reply(status: uint32, handle: Handle, size: uint32, data: bytes)

  datatype Entry = Entry(call: Call, reply: Reply)

  /** The call, or the test of its answer, whose name the error text begins with. */
  datatype Stage =
    | EnumSize | EnumEmpty | EnumData
    | SkfConnectDev | SkfOpenApplication | SkfVerifyPin | SkfOpenContainer
    | SkfExportPublicKey | PublicKeyShort
    | SkfDigestInit | SkfDigestUpdate | SkfDigestFinal | DigestLength
    | SkfEccSignData
    | SkfExportCertificateSize | CertificateLength | SkfExportCertificate

  datatype Outcome<T> = Done(value: T) | Failed(stage: Stage)

  datatype TargetNames = TargetNames(device: Name, application: Name, container: Name)

  // ---- what a device sees ----

  datatype Hashing = Hashing(handle: Handle, key: bytes, id: bytes, fed: bytes)

  datatype Hash = Hash(key: bytes, id: bytes, message: bytes, value: bytes)

  datatype Signed = Signed(pin: bytes, hash: Hash, blob: bytes)

  /** The open handles, the PIN under which the session is authenticated, and what happened. */
  datatype Token = Token(
    device: Option<Handle>, application: Option<Handle>, container: Option<Handle>,
    digest: Option<Hashing>, pin: Option<bytes>,
    names: TargetNames, hash: Option<Hash>, signatures: seq<Signed>)

  const NO_NAMES: TargetNames := TargetNames([], [], [])
  const IDLE: Token := Token(None, None, None, None, None, NO_NAMES, None, [])

  predicate Closed(t: Token) {
    t.device == None && t.application == None && t.container == None && t.digest == None && t.pin == None
  }

  predicate HoldsDigest(t: Token, h: Handle) { t.digest.Some? && t.digest.value.handle == h }

  /** Only open handles are used, nothing is opened twice, an application closes after its
      container, digest and PIN, a device after its application, and only an authenticated session
      signs, and only the last hash. */
  predicate Legal(t: Token, c: Call) {
    match c
    case EnumDev => true
    case ConnectDev(_) => t.device == None
    case DisconnectDev(h) => t.device == Some(h) && t.application == None && t.digest == None
    case EnumApplication(h) => t.device == Some(h)
    case OpenApplication(h, _) => t.device == Some(h) && t.application == None
    case CloseApplication(h) => t.application == Some(h) && t.container == None && t.digest == None && t.pin == None
    case VerifyPin(h, _) => t.application == Some(h) && t.pin == None
    case ClearSecureState(h) => t.application == Some(h) && t.pin.Some?
    case EnumContainer(h) => t.application == Some(h)
    case OpenContainer(h, _) => t.application == Some(h) && t.container == None
    case CloseContainer(h) => t.container == Some(h)
    case ExportPublicKey(h) => t.container == Some(h)
    case ExportCertificate(h, _) => t.container == Some(h)
    case DigestInit(h, _, _) => t.device == Some(h) && t.application.Some? && t.digest == None
    case DigestUpdate(h, _) => HoldsDigest(t, h)
    case DigestFinal(h) => HoldsDigest(t, h)
    case CloseHandle(h) => HoldsDigest(t, h)
    case EccSignData(h, data) => t.container == Some(h) && t.pin.Some? && t.hash.Some? && data == t.hash.value.value
  }

  function After(t: Token, e: Entry): Token
    requires Legal(t, e.call)
  {
    var ok := e.reply.status == SAR_OK;
    match e.call
    case ConnectDev(name) => if ok then t.(device := Some(e.reply.handle), names := t.names.(device := name)) else t
    case DisconnectDev(_) => t.(device := None)
    case OpenApplication(_, name) =>
      if ok then t.(application := Some(e.reply.handle), names := t.names.(application := name)) else t
    case CloseApplication(_) => t.(application := None)
    case VerifyPin(_, pin) => if ok then t.(pin := Some(pin)) else t
    case ClearSecureState(_) => t.(pin := None)
    case OpenContainer(_, name) =>
      if ok then t.(container := Some(e.reply.handle), names := t.names.(container := name)) else t
    case CloseContainer(_) => t.(container := None)
    case DigestInit(_, key, id) => if ok then t.(digest := Some(Hashing(e.reply.handle, key, id, []))) else t
    case DigestUpdate(_, data) =>
      if ok then t.(digest := Some(t.digest.value.(fed := t.digest.value.fed + data))) else t
    case DigestFinal(_) =>
      if ok then
        var d := t.digest.value;
        t.(hash := Some(Hash(d.key, d.id, d.fed, Filled(64, e.reply.data)[..Min(64, e.reply.size as nat)])))
      else t
    case CloseHandle(_) => t.(digest := None)
    case EccSignData(_, _) =>
      if ok then t.(signatures := t.signatures + [Signed(t.pin.value, t.hash.value, Filled(SIGNATURE_BLOB, e.reply.data))])
      else t
    case _ => t
  }

  /** The device after a run, if every call was legal. */
  function Run(log: seq<Entry>): Option<Token> {
    if log == [] then Some(IDLE)
    else
      var n := |log| - 1;
      match Run(log[..n])
      case None => None
      case Some(t) => if Legal(t, log[n].call) then Some(After(t, log[n])) else None
  }

  lemma RunAppend(log: seq<Entry>, e: Entry)
    requires Run(log).Some? && Legal(Run(log).value, e.call)
    ensures Run(log + [e]) == Some(After(Run(log).value, e))
  {
    hide Legal, After;
    assert (log + [e])[..|log|] == log;
  }

  // ---- buffers ----

  function Min(a: nat, b: nat): nat { if a < b then a else b }

  /** A buffer after the vendor wrote `data` at its start; what does not fit is not written. */
  function Written(buffer: bytes, data: bytes): (r: bytes)
    ensures |r| == |buffer|
  {
    if |data| >= |buffer| then data[..|buffer|] else data + buffer[|data|..]
  }

  function Filled(n: nat, data: bytes): (r: bytes)
    ensures |r| == n
  {
    Written(Zeros(n), data)
  }

  /** std::vector::resize. */
  function Resized(buffer: bytes, n: nat): (r: bytes)
    ensures |r| == n
  {
    if n <= |buffer| then buffer[..n] else buffer + Zeros(n - |buffer|)
  }

  // ---- balance, by counting ----

  datatype Kind = Device | Application | Container | Digest | Pin

  predicate Opens(k: Kind, e: Entry) {
    e.reply.status == 0 &&
    match k
    case Device => e.call.ConnectDev?
    case Application => e.call.OpenApplication?
    case Container => e.call.OpenContainer?
    case Digest => e.call.DigestInit?
    case Pin => e.call.VerifyPin?
  }

  predicate Closes(k: Kind, e: Entry) {
    match k
    case Device => e.call.DisconnectDev?
    case Application => e.call.CloseApplication?
    case Container => e.call.CloseContainer?
    case Digest => e.call.CloseHandle?
    case Pin => e.call.ClearSecureState?
  }

  /** Opened minus closed. */
  function Balance(k: Kind, log: seq<Entry>): int {
    if log == [] then 0
    else
      var e := log[|log| - 1];
      Balance(k, log[..|log| - 1]) + (if Opens(k, e) then 1 else 0) - (if Closes(k, e) then 1 else 0)
  }

  function Held(k: Kind, t: Token): int {
    match k
    case Device => if t.device.Some? then 1 else 0
    case Application => if t.application.Some? then 1 else 0
    case Container => if t.container.Some? then 1 else 0
    case Digest => if t.digest.Some? then 1 else 0
    case Pin => if t.pin.Some? then 1 else 0
  }

  /** At every moment at most one of a kind is open, and nothing outlives what it belongs to. */
  predicate NestedAt(log: seq<Entry>, n: nat)
    requires n <= |log|
  {
    var p := log[..n];
    && 0 <= Balance(Container, p) <= Balance(Application, p) <= Balance(Device, p) <= 1
    && 0 <= Balance(Digest, p) <= Balance(Application, p)
    && 0 <= Balance(Pin, p) <= Balance(Application, p)
  }

  predicate Balanced(log: seq<Entry>) {
    && (forall n | 0 <= n <= |log| :: NestedAt(log, n))
    && forall k: Kind :: Balance(k, log) == 0
  }

  lemma HeldAfter(k: Kind, t: Token, e: Entry)
    requires Legal(t, e.call)
    ensures Held(k, After(t, e)) == Held(k, t) + (if Opens(k, e) then 1 else 0) - (if Closes(k, e) then 1 else 0)
  {
    hide Filled, Min;
    if e.call.ConnectDev? || e.call.OpenApplication? || e.call.OpenContainer? {
    } else if e.call.DigestInit? || e.call.VerifyPin? {
    } else if IsRelease(e.call) {
    } else {
    }
  }

  lemma {:induction false} BalanceIsHeld(k: Kind, log: seq<Entry>)
    requires Run(log).Some?
    ensures Balance(k, log) == Held(k, Run(log).value)
    decreases |log|
  {
    if log != [] {
      hide Legal, After, Held, Opens, Closes;
      var n := |log| - 1;
      BalanceIsHeld(k, log[..n]);
      HeldAfter(k, Run(log[..n]).value, log[n]);
    } else {
      hide Legal, After, Opens, Closes;
    }
  }

  predicate Nested(t: Token) {
    && (t.container.Some? ==> t.application.Some?)
    && (t.digest.Some? ==> t.application.Some?)
    && (t.pin.Some? ==> t.application.Some?)
    && (t.application.Some? ==> t.device.Some?)
  }

  lemma {:induction false} RunIsNested(log: seq<Entry>)
    requires Run(log).Some?
    ensures Nested(Run(log).value)
    decreases |log|
  {
    if log != [] {
      RunIsNested(log[..|log| - 1]);
    }
  }

  lemma {:induction false} RunOfPrefix(log: seq<Entry>, n: nat)
    requires Run(log).Some? && n <= |log|
    ensures Run(log[..n]).Some?
    decreases |log|
  {
    if n == |log| {
      assert log[..n] == log;
    } else {
      var front := log[..|log| - 1];
      assert front[..n] == log[..n];
      RunOfPrefix(front, n);
    }
  }

  /** A legal run that ends with nothing held is balanced: each handle opened is closed exactly
      once, inside the lifetime of its owner. */
  lemma ClosedIsBalanced(log: seq<Entry>)
    requires Run(log).Some? && Closed(Run(log).value)
    ensures Balanced(log)
  {
    hide Run, Balance;
    forall n | 0 <= n <= |log| ensures NestedAt(log, n) {
      var p := log[..n];
      RunOfPrefix(log, n);
      RunIsNested(p);
      BalanceIsHeld(Device, p);
      BalanceIsHeld(Application, p);
      BalanceIsHeld(Container, p);
      BalanceIsHeld(Digest, p);
      BalanceIsHeld(Pin, p);
    }
    forall k: Kind ensures Balance(k, log) == 0 {
      BalanceIsHeld(k, log);
    }
  }

  // ---- failures ----

  predicate IsEnum(c: Call) { c.EnumDev? || c.EnumApplication? || c.EnumContainer? }

  predicate IsRelease(c: Call) {
    c.DisconnectDev? || c.CloseApplication? || c.CloseContainer? || c.CloseHandle? || c.ClearSecureState?
  }

  /** The vendor's answer is one that ends the run at `stage`. */
  predicate Rejects(stage: Stage, e: Entry) {
    var r := e.reply;
    var refused := r.status != 0;
    match e.call
    case ConnectDev(_) => stage == SkfConnectDev && refused
    case OpenApplication(_, _) => stage == SkfOpenApplication && refused
    case VerifyPin(_, _) => stage == SkfVerifyPin && refused
    case OpenContainer(_, _) => stage == SkfOpenContainer && refused
    case ExportPublicKey(_) =>
      (stage == SkfExportPublicKey && refused) || (stage == PublicKeyShort && !refused && r.size as nat < 132)
    case DigestInit(_, _, _) => stage == SkfDigestInit && refused
    case DigestUpdate(_, _) => stage == SkfDigestUpdate && refused
    case DigestFinal(_) => (stage == SkfDigestFinal && refused) || (stage == DigestLength && !refused && r.size != 32)
    case EccSignData(_, _) => stage == SkfEccSignData && refused
    case ExportCertificate(_, _) =>
      || (stage == SkfExportCertificateSize && refused && r.size == 0)
      || (stage == CertificateLength && ((!refused && r.size == 0) || r.size as nat > 1048576))
      || (stage == SkfExportCertificate && refused)
    case _ =>
      IsEnum(e.call) &&
      ((stage == EnumSize && refused)
       || (stage == EnumEmpty && !refused && (r.size == 0 || r.size as nat > 1048576 || r.data == [] || r.data[0] == 0))
       || (stage == EnumData && refused))
  }

  predicate OnlyReleasesFrom(log: seq<Entry>, i: nat) {
    forall j | i <= j < |log| :: IsRelease(log[j].call)
  }

  /** Some answer ended the run at `stage`, and from there on handles were only released. */
  ghost predicate StoppedBy(stage: Stage, log: seq<Entry>) {
    exists k | 0 <= k < |log| :: Rejects(stage, log[k]) && OnlyReleasesFrom(log, k + 1)
  }

  lemma StoppedByLast(stage: Stage, log: seq<Entry>)
    requires log != [] && Rejects(stage, log[|log| - 1])
    ensures StoppedBy(stage, log)
  {
    assert OnlyReleasesFrom(log, |log| - 1 + 1);
  }

  lemma StoppedThenReleased(stage: Stage, log: seq<Entry>, longer: seq<Entry>)
    requires StoppedBy(stage, log) && log <= longer && OnlyReleasesFrom(longer, |log|)
    ensures StoppedBy(stage, longer)
  {
    hide Rejects;
    var k :| 0 <= k < |log| && Rejects(stage, log[k]) && OnlyReleasesFrom(log, k + 1);
    assert longer[k] == log[k];
    assert OnlyReleasesFrom(longer, k + 1);
  }

  /** Call `k` is the second of two successive exports, the first announced 1 to 1048576 octets, and `der` is
      what the second wrote and announced. */
  predicate ExportedAt(log: seq<Entry>, k: nat, signing: bool, der: bytes) {
    && 1 <= k < |log|
    && log[k - 1].call.ExportCertificate? && log[k].call == log[k - 1].call && log[k].call.signing == signing
    && log[k].reply.status == 0 && 1 <= log[k - 1].reply.size as nat <= 1048576
    && der == Resized(Filled(log[k - 1].reply.size as nat, log[k].reply.data), log[k].reply.size as nat)
  }

  ghost predicate Exported(log: seq<Entry>, signing: bool, der: bytes) {
    exists k: nat :: ExportedAt(log, k, signing, der)
  }

  lemma ExportedStays(log: seq<Entry>, longer: seq<Entry>, signing: bool, der: bytes)
    requires Exported(log, signing, der) && log <= longer
    ensures Exported(longer, signing, der)
  {
    var k: nat :| ExportedAt(log, k, signing, der);
    assert longer[k] == log[k] && longer[k - 1] == log[k - 1];
    assert ExportedAt(longer, k, signing, der);
  }

  /** From call `n` on the certificate is exported: a second time exactly if the first announces 1 to
      1048576 octets. */
  predicate ExportsCertificate(log: seq<Entry>, n: nat, signing: bool)
    requires n < |log|
  {
    && |log| == n + (if 1 <= log[n].reply.size as nat <= 1048576 then 2 else 1)
    && forall i | n <= i < |log| :: log[i].call.ExportCertificate? && log[i].call.signing == signing
  }

  lemma CertificateRejected(e: Entry)
    requires e.call.ExportCertificate?
    ensures e.reply.status != 0 && e.reply.size == 0 ==> Rejects(SkfExportCertificateSize, e)
    ensures (e.reply.status == 0 && e.reply.size == 0) || e.reply.size as nat > 1048576 ==> Rejects(CertificateLength, e)
    ensures e.reply.status != 0 ==> Rejects(SkfExportCertificate, e)
  {
  }

  lemma OneExport(before: seq<Entry>, e: Entry)
    requires e.call.ExportCertificate? && !(1 <= e.reply.size as nat <= 1048576)
    ensures ExportsCertificate(before + [e], |before|, e.call.signing)
  {
  }

  lemma TwoExports(before: seq<Entry>, e: Entry, f: Entry)
    requires e.call.ExportCertificate? && f.call == e.call && 1 <= e.reply.size as nat <= 1048576
    ensures ExportsCertificate(before + [e] + [f], |before|, e.call.signing)
    ensures f.reply.status == 0 ==>
      ExportedAt(before + [e] + [f], |before| + 1, e.call.signing,
                 Resized(Filled(e.reply.size as nat, f.reply.data), f.reply.size as nat))
  {
    var log := before + [e] + [f];
    assert log[|before|] == e && log[|before| + 1] == f;
  }

  /** The buffer for the public key as export `k` finds it: zeros, or after a first export what that
      wrote, resized to what it asked for. */
  function KeyBuffer(log: seq<Entry>, k: nat): bytes
    requires k < |log|
  {
    if k > 0 && log[k - 1].call.ExportPublicKey?
    then Resized(Filled(PUBLIC_BLOB, log[k - 1].reply.data), log[k - 1].reply.size as nat)
    else Zeros(PUBLIC_BLOB)
  }

  predicate IsKeyOf(log: seq<Entry>, k: nat, key: bytes)
    requires k < |log|
  {
    var blob := Written(KeyBuffer(log, k), log[k].reply.data);
    && log[k].call.ExportPublicKey? && log[k].reply.status == 0 && log[k].reply.size >= 132
    && |blob| >= 132 && key == blob[..132]
  }

  /** From call `n` on the key is exported: again only if refused with a size of 133 to 4096. */
  predicate ExportsOnceOrTwice(log: seq<Entry>, n: nat)
    requires n < |log|
  {
    var r := log[n].reply;
    && |log| == n + (if r.status != 0 && 133 <= r.size <= 4096 then 2 else 1)
    && forall i | n <= i < |log| :: log[i].call.ExportPublicKey?
  }

  /** The key is the start of the buffer after a successful export. */
  ghost predicate KeyExported(log: seq<Entry>, key: bytes) {
    exists k | 0 <= k < |log| :: IsKeyOf(log, k, key)
  }

  lemma KeyExportedStays(log: seq<Entry>, longer: seq<Entry>, key: bytes)
    requires KeyExported(log, key) && log <= longer
    ensures KeyExported(longer, key)
  {
    var k :| 0 <= k < |log| && IsKeyOf(log, k, key);
    assert longer[k] == log[k] && (k > 0 ==> longer[k - 1] == log[k - 1]);
    assert IsKeyOf(longer, k, key);
  }

  // ---- names ----

  predicate IsOpenOf(k: Kind, c: Call, name: Name) {
    match k
    case Device => c.ConnectDev? && c.name == name
    case Application => c.OpenApplication? && c.name == name
    case Container => c.OpenContainer? && c.name == name
    case _ => false
  }

  predicate IsEnumOf(k: Kind, c: Call) {
    match k
    case Device => c.EnumDev?
    case Application => c.EnumApplication?
    case Container => c.EnumContainer?
    case _ => false
  }

  /** The two calls before `i` are one successful enumeration, asked for its size and then for its
      names, and `name` is the first of these. */
  predicate EnumeratedAt(log: seq<Entry>, i: nat, name: Name) {
    && 2 <= i <= |log| && name != []
    && IsEnum(log[i - 1].call) && log[i - 2].call == log[i - 1].call
    && log[i - 2].reply.status == 0 && log[i - 1].reply.status == 0
    && 1 <= log[i - 2].reply.size as nat <= 1048576
    && IsFirstName(name, Filled(log[i - 2].reply.size as nat + 2, log[i - 1].reply.data))
  }

  /** From call `n` on names are enumerated: a second time exactly if the first announces 1 to 1048576
      octets. */
  predicate Enumerates(log: seq<Entry>, n: nat, c: Call)
    requires n < |log|
  {
    var r := log[n].reply;
    && |log| == n + (if r.status == 0 && 1 <= r.size as nat <= 1048576 then 2 else 1)
    && forall i | n <= i < |log| :: log[i].call == c
  }

  lemma EnumRejected(e: Entry)
    requires IsEnum(e.call)
    ensures e.reply.status != 0 ==> Rejects(EnumSize, e) && Rejects(EnumData, e)
    ensures e.reply.status == 0 ==>
      (e.reply.size == 0 || e.reply.size as nat > 1048576 || e.reply.data == [] || e.reply.data[0] == 0
       ==> Rejects(EnumEmpty, e))
  {
  }

  lemma OneEnumeration(before: seq<Entry>, e: Entry)
    requires !(e.reply.status == 0 && 1 <= e.reply.size as nat <= 1048576)
    ensures Enumerates(before + [e], |before|, e.call)
  {
  }

  lemma TwoEnumerations(before: seq<Entry>, e: Entry, f: Entry, name: Name)
    requires IsEnum(e.call) && f.call == e.call && e.reply.status == 0 && 1 <= e.reply.size as nat <= 1048576
    ensures Enumerates(before + [e] + [f], |before|, e.call)
    ensures f.reply.status == 0 && name != [] && IsFirstName(name, Filled(e.reply.size as nat + 2, f.reply.data)) ==>
            EnumeratedAt(before + [e] + [f], |before| + 2, name)
  {
    hide IsFirstName, Filled;
    var log := before + [e] + [f];
    assert log[|before|] == e && log[|before| + 1] == f;
  }

  /** Call `i` opened `name`, which was configured or else enumerated just before. */
  predicate OpenedAt(log: seq<Entry>, i: nat, k: Kind, name: Name, configured: Name) {
    && i < |log| && log[i].reply.status == 0 && IsOpenOf(k, log[i].call, name)
    && if configured != [] then name == configured
       else i >= 2 && IsEnumOf(k, log[i - 1].call) && EnumeratedAt(log, i, name)
  }

  ghost predicate OpenedAs(log: seq<Entry>, k: Kind, name: Name, configured: Name) {
    exists i: nat :: OpenedAt(log, i, k, name, configured)
  }

  ghost predicate OpenedAll(log: seq<Entry>, names: TargetNames, device: Name, application: Name, container: Name) {
    && OpenedAs(log, Device, names.device, device)
    && OpenedAs(log, Application, names.application, application)
    && OpenedAs(log, Container, names.container, container)
  }

  lemma OpenedStays(log: seq<Entry>, longer: seq<Entry>, k: Kind, name: Name, configured: Name)
    requires OpenedAs(log, k, name, configured) && log <= longer
    ensures OpenedAs(longer, k, name, configured)
  {
    hide IsFirstName, Filled, IsOpenOf, IsEnumOf;
    var i: nat :| OpenedAt(log, i, k, name, configured);
    assert longer[i] == log[i] && (i >= 2 ==> longer[i - 1] == log[i - 1] && longer[i - 2] == log[i - 2]);
    assert OpenedAt(longer, i, k, name, configured);
  }

  lemma OpenedAllStays(log: seq<Entry>, longer: seq<Entry>, names: TargetNames, device: Name, application: Name, container: Name)
    requires OpenedAll(log, names, device, application, container) && log <= longer
    ensures OpenedAll(longer, names, device, application, container)
  {
    hide OpenedAs;
    OpenedStays(log, longer, Device, names.device, device);
    OpenedStays(log, longer, Application, names.application, application);
    OpenedStays(log, longer, Container, names.container, container);
  }

  /** `longer` is `log` and a call that opens `name`, successful or not. */
  predicate Opened(log: seq<Entry>, longer: seq<Entry>, k: Kind, name: Name, ok: bool) {
    && |longer| == |log| + 1 && log <= longer
    && IsOpenOf(k, longer[|log|].call, name) && (ok <==> longer[|log|].reply.status == 0)
  }

  lemma OpenedNow(log: seq<Entry>, longer: seq<Entry>, k: Kind, name: Name, configured: Name)
    requires Opened(log, longer, k, name, true)
    requires configured != [] ==> name == configured
    requires configured == [] ==> |log| >= 2 && IsEnumOf(k, log[|log| - 1].call) && EnumeratedAt(log, |log|, name)
    ensures OpenedAs(longer, k, name, configured)
  {
    hide IsFirstName, Filled;
    assert OpenedAt(longer, |log|, k, name, configured);
  }

  // ---- the calls the program makes ----

  datatype SignOutput = SignOutput(
    signature: bytes, digest: bytes, certificate: bytes, x: bytes, y: bytes, names: TargetNames)

  /** Api and Handles of one run. `replies(n)` is what the vendor library answers to call `n`. */
  class Session {
    const replies: nat -> Reply
    var device: Option<Handle>
    var application: Option<Handle>
    var container: Option<Handle>
    var digest: Option<Handle>
    var authenticated: bool
    var log: seq<Entry>
    ghost var token: Token

    ghost predicate Logged()
      reads this
    {
      && Run(log) == Some(token)
      && forall i | 0 <= i < |log| :: log[i].reply == replies(i)
    }

    /** The fields are what the device holds. */
    ghost predicate Valid()
      reads this
    {
      && Logged()
      && device == token.device && application == token.application && container == token.container
      && authenticated == token.pin.Some?
      && digest == (if token.digest.Some? then Some(token.digest.value.handle) else None)
    }

    constructor (replies: nat -> Reply)
      ensures Valid() && token == IDLE && log == [] && this.replies == replies
    {
      this.replies := replies;
      device, application, container, digest, authenticated := None, None, None, None, false;
      log := [];
      token := IDLE;
    }

    method Ask(c: Call) returns (r: Reply)
      requires Logged() && Legal(token, c)
      modifies this`log, this`token
      ensures Logged() && r == replies(old(|log|))
      ensures log == old(log) + [Entry(c, r)] && token == After(old(token), Entry(c, r))
    {
      hide Run, Legal, After;
      r := replies(|log|);
      RunAppend(log, Entry(c, r));
      log := log + [Entry(c, r)];
      token := After(token, Entry(c, r));
    }

    /** A call that opens and closes nothing. */
    method Query(c: Call) returns (r: Reply)
      requires Valid() && Legal(token, c) && (IsEnum(c) || c.ExportPublicKey? || c.ExportCertificate?)
      modifies this`log, this`token
      ensures Valid() && token == old(token) && log == old(log) + [Entry(c, r)]
    {
      hide Run;
      r := Ask(c);
    }

    /** The first of the names an enumeration reports. */
    method EnumerateFirst(c: Call) returns (r: Outcome<Name>)
      requires Valid() && IsEnum(c) && Legal(token, c)
      modifies this`log, this`token
      ensures Valid() && token == old(token) && old(log) <= log
      ensures |log| > |old(log)| && Enumerates(log, |old(log)|, c)
      ensures r.Done? ==> |log| == |old(log)| + 2 && EnumeratedAt(log, |log|, r.value)
      ensures r.Failed? ==> StoppedBy(r.stage, log) && (r.stage == EnumData ==> |log| == |old(log)| + 2)
      ensures r.Failed? ==> (r.stage == EnumSize ==> |log| == |old(log)| + 1)
    {
      hide Run, Filled, After, Legal, IsFirstName, Rejects, Enumerates, EnumeratedAt, StoppedBy;
      ghost var before := log;
      var reply := Query(c);
      ghost var first := Entry(c, reply);
      EnumRejected(first);
      if !(reply.status == SAR_OK && 1 <= reply.size as nat <= MEBIBYTE) {
        OneEnumeration(before, first);
      }
      if reply.status != SAR_OK {
        StoppedByLast(EnumSize, log);
        return Failed(EnumSize);
      }
      if reply.size == 0 || reply.size as nat > MEBIBYTE {
        StoppedByLast(EnumEmpty, log);
        return Failed(EnumEmpty);
      }
      var size := reply.size as nat;
      reply := Query(c);
      EnumRejected(Entry(c, reply));
      if reply.status != SAR_OK {
        TwoEnumerations(before, first, Entry(c, reply), []);
        StoppedByLast(EnumData, log);
        return Failed(EnumData);
      }
      var value := FirstName(Filled(size + 2, reply.data));
      TwoEnumerations(before, first, Entry(c, reply), value);
      if value == [] {
        FirstOfFilled(size + 2, reply.data);
        NoFirstName(Filled(size + 2, reply.data));
        StoppedByLast(EnumEmpty, log);
        return Failed(EnumEmpty);
      }
      return Done(value);
    }

    /** A configured name, or the first that is enumerated. */
    method ChooseName(c: Call, configured: Name) returns (r: Outcome<Name>)
      requires Valid() && IsEnum(c) && Legal(token, c)
      modifies this`log, this`token
      ensures Valid() && token == old(token) && old(log) <= log
      ensures r.Done? && configured != [] ==> r.value == configured
      ensures r.Done? && configured == [] ==>
        |log| >= 2 && log[|log| - 1].call == c && EnumeratedAt(log, |log|, r.value)
      ensures r.Failed? ==> StoppedBy(r.stage, log)
    {
      hide Run, StoppedBy, EnumeratedAt, Legal;
      if configured == [] {
        r := EnumerateFirst(c);
      } else {
        r := Done(configured);
      }
    }

    method Connect(name: Name) returns (ok: bool)
      requires Valid() && device == None
      modifies this`device, this`log, this`token
      ensures Valid() && Opened(old(log), log, Device, name, ok)
      ensures ok ==> device.Some? && token == old(token).(device := device, names := old(token).names.(device := name))
      ensures !ok ==> token == old(token) && StoppedBy(SkfConnectDev, log)
    {
      hide Run;
      var reply := Ask(ConnectDev(name));
      ok := reply.status == SAR_OK;
      if ok {
        device := Some(reply.handle);
      } else {
        StoppedByLast(SkfConnectDev, log);
      }
    }

    method OpenApp(name: Name) returns (ok: bool)
      requires Valid() && device.Some? && application == None
      modifies this`application, this`log, this`token
      ensures Valid() && Opened(old(log), log, Application, name, ok)
      ensures ok ==> application.Some?
      ensures ok ==> token == old(token).(application := application, names := old(token).names.(application := name))
      ensures !ok ==> token == old(token) && StoppedBy(SkfOpenApplication, log)
    {
      hide Run;
      var reply := Ask(OpenApplication(device.value, name));
      ok := reply.status == SAR_OK;
      if ok {
        application := Some(reply.handle);
      } else {
        StoppedByLast(SkfOpenApplication, log);
      }
    }

    method Verify(pin: bytes) returns (ok: bool)
      requires Valid() && application.Some? && !authenticated
      modifies this`authenticated, this`log, this`token
      ensures Valid() && old(log) <= log
      ensures ok ==> token == old(token).(pin := Some(pin))
      ensures !ok ==> token == old(token) && StoppedBy(SkfVerifyPin, log)
    {
      hide Run;
      var reply := Ask(VerifyPin(application.value, pin));
      ok := reply.status == SAR_OK;
      if ok {
        authenticated := true;
      } else {
        StoppedByLast(SkfVerifyPin, log);
      }
    }

    method OpenCont(name: Name) returns (ok: bool)
      requires Valid() && application.Some? && container == None
      modifies this`container, this`log, this`token
      ensures Valid() && Opened(old(log), log, Container, name, ok)
      ensures ok ==> container.Some? && log != [] && log[|log| - 1].call.OpenContainer?
      ensures ok ==> token == old(token).(container := container, names := old(token).names.(container := name))
      ensures !ok ==> token == old(token) && StoppedBy(SkfOpenContainer, log)
    {
      hide Run;
      var reply := Ask(Call.OpenContainer(application.value, name));
      ok := reply.status == SAR_OK;
      if ok {
        container := Some(reply.handle);
      } else {
        StoppedByLast(SkfOpenContainer, log);
      }
    }

    method OpenDeviceAndApplication(configuredDevice: Name, configuredApplication: Name)
      returns (r: Outcome<TargetNames>)
      requires Valid() && token == IDLE && log == []
      modifies this`device, this`application, this`log, this`token
      ensures Valid()
      ensures r.Done? ==> device.Some? && application.Some?
      ensures r.Done? ==> token == IDLE.(device := device, application := application, names := r.value)
      ensures r.Done? ==> OpenedAs(log, Device, r.value.device, configuredDevice)
      ensures r.Done? ==> OpenedAs(log, Application, r.value.application, configuredApplication)
      ensures r.Failed? ==> token.signatures == [] && StoppedBy(r.stage, log)
    {
      hide Run, StoppedBy, EnumeratedAt, OpenedAs, After;
      var choice := ChooseName(EnumDev, configuredDevice);
      if choice.Failed? {
        return Failed(choice.stage);
      }
      var names := NO_NAMES.(device := choice.value);
      ghost var before := log;
      var ok := Connect(names.device);
      if !ok {
        return Failed(SkfConnectDev);
      }
      OpenedNow(before, log, Device, names.device, configuredDevice);
      ghost var connected := log;
      choice := ChooseName(EnumApplication(device.value), configuredApplication);
      if choice.Failed? {
        return Failed(choice.stage);
      }
      names := names.(application := choice.value);
      before := log;
      ok := OpenApp(names.application);
      if !ok {
        return Failed(SkfOpenApplication);
      }
      OpenedNow(before, log, Application, names.application, configuredApplication);
      OpenedStays(connected, log, Device, names.device, configuredDevice);
      return Done(names);
    }

    method OpenContainer(names: TargetNames, configuredContainer: Name) returns (r: Outcome<TargetNames>)
      requires Valid() && application.Some? && container == None && token.names == names
      modifies this`container, this`log, this`token
      ensures Valid() && old(log) <= log
      ensures r.Done? ==> container.Some? && token == old(token).(container := container, names := r.value)
      ensures r.Done? ==> log != [] && log[|log| - 1].call.OpenContainer?
      ensures r.Done? ==> OpenedAs(log, Container, r.value.container, configuredContainer)
      ensures r.Done? ==> r.value == names.(container := r.value.container)
      ensures r.Failed? ==> token.signatures == old(token).signatures && StoppedBy(r.stage, log)
    {
      hide Run, StoppedBy, EnumeratedAt, OpenedAs, After;
      var choice := ChooseName(EnumContainer(application.value), configuredContainer);
      if choice.Failed? {
        return Failed(choice.stage);
      }
      ghost var before := log;
      var ok := OpenCont(choice.value);
      if !ok {
        return Failed(SkfOpenContainer);
      }
      OpenedNow(before, log, Container, choice.value, configuredContainer);
      return Done(names.(container := choice.value));
    }

    /** Exports the key, a second time into a larger buffer if the first says how large. */
    method ReadKeyBlob() returns (reply: Reply, blob: bytes)
      requires Valid() && container.Some? && (log != [] ==> !log[|log| - 1].call.ExportPublicKey?)
      modifies this`log, this`token
      ensures Valid() && token == old(token) && old(log) <= log && |log| > |old(log)|
      ensures ExportsOnceOrTwice(log, |old(log)|)
      ensures log[|log| - 1].call.ExportPublicKey? && log[|log| - 1].reply == reply
      ensures |blob| >= PUBLIC_BLOB && blob == Written(KeyBuffer(log, |log| - 1), reply.data)
    {
      hide Run, After, Rejects;
      var c := ExportPublicKey(container.value);
      blob := Zeros(PUBLIC_BLOB);
      reply := Query(c);
      blob := Written(blob, reply.data);
      if reply.status != SAR_OK && reply.size as nat > |blob| && reply.size <= 4096 {
        blob := Resized(blob, reply.size as nat);
        reply := Query(c);
        blob := Written(blob, reply.data);
      }
    }

    method ExportKey() returns (r: Outcome<bytes>)
      requires Valid() && container.Some? && (log != [] ==> !log[|log| - 1].call.ExportPublicKey?)
      modifies this`log, this`token
      ensures Valid() && token == old(token) && old(log) <= log
      ensures |log| > |old(log)| && ExportsOnceOrTwice(log, |old(log)|)
      ensures r.Done? ==> |r.value| == 132 && KeyExported(log, r.value)
      ensures r.Failed? ==> StoppedBy(r.stage, log)
    {
      hide Run, After, Written, KeyBuffer;
      var reply, blob := ReadKeyBlob();
      if reply.status != SAR_OK {
        StoppedByLast(SkfExportPublicKey, log);
        return Failed(SkfExportPublicKey);
      }
      if reply.size as nat < PUBLIC_BLOB {
        StoppedByLast(PublicKeyShort, log);
        return Failed(PublicKeyShort);
      }
      assert IsKeyOf(log, |log| - 1, blob[..PUBLIC_BLOB]);
      return Done(blob[..PUBLIC_BLOB]);
    }

    method ExportCert(signing: bool) returns (r: Outcome<bytes>)
      requires Valid() && container.Some?
      modifies this`log, this`token
      ensures Valid() && token == old(token) && old(log) <= log
      ensures |log| > |old(log)| && ExportsCertificate(log, |old(log)|, signing)
      ensures r.Done? ==> |log| == |old(log)| + 2 && Exported(log, signing, r.value)
      ensures r.Failed? ==> StoppedBy(r.stage, log) && (r.stage == SkfExportCertificate <==> |log| == |old(log)| + 2)
    {
      hide Run, After, Filled, Resized, Rejects, ExportedAt, ExportsCertificate, StoppedBy;
      ghost var before := log;
      var c := ExportCertificate(container.value, signing);
      var reply := Query(c);
      ghost var first := Entry(c, reply);
      CertificateRejected(first);
      if !(1 <= reply.size as nat <= MEBIBYTE) {
        OneExport(before, first);
      }
      if reply.status != SAR_OK && reply.size == 0 {
        StoppedByLast(SkfExportCertificateSize, log);
        return Failed(SkfExportCertificateSize);
      }
      if reply.size == 0 || reply.size as nat > MEBIBYTE {
        StoppedByLast(CertificateLength, log);
        return Failed(CertificateLength);
      }
      var size := reply.size as nat;
      reply := Query(c);
      CertificateRejected(Entry(c, reply));
      TwoExports(before, first, Entry(c, reply));
      if reply.status != SAR_OK {
        StoppedByLast(SkfExportCertificate, log);
        return Failed(SkfExportCertificate);
      }
      return Done(Resized(Filled(size, reply.data), reply.size as nat));
    }

    method InitDigest(key: bytes, id: bytes) returns (ok: bool)
      requires Valid() && device.Some? && application.Some? && digest == None
      modifies this`digest, this`log, this`token
      ensures Valid() && old(log) <= log
      ensures ok ==> digest.Some? && token == old(token).(digest := Some(Hashing(digest.value, key, id, [])))
      ensures !ok ==> token == old(token) && StoppedBy(SkfDigestInit, log)
    {
      hide Run;
      var reply := Ask(DigestInit(device.value, key, id));
      ok := reply.status == SAR_OK;
      if ok {
        digest := Some(reply.handle);
      } else {
        StoppedByLast(SkfDigestInit, log);
      }
    }

    method UpdateDigest(data: bytes) returns (ok: bool)
      requires Valid() && digest.Some?
      modifies this`log, this`token
      ensures Valid() && old(log) <= log
      ensures var d := old(token).digest.value;
        ok ==> token == old(token).(digest := Some(d.(fed := d.fed + data)))
      ensures !ok ==> token == old(token) && StoppedBy(SkfDigestUpdate, log)
    {
      hide Run;
      var reply := Ask(DigestUpdate(digest.value, data));
      ok := reply.status == SAR_OK;
      if !ok {
        StoppedByLast(SkfDigestUpdate, log);
      }
    }

    method CloseDigest()
      requires Valid() && digest.Some?
      modifies this`digest, this`log, this`token
      ensures Valid() && token == old(token).(digest := None)
      ensures old(log) <= log && OnlyReleasesFrom(log, |old(log)|)
    {
      hide Run;
      var _ := Ask(CloseHandle(digest.value));
      digest := None;
    }

    /** Finishes the hash and releases its handle. */
    method FinishDigest() returns (r: Outcome<bytes>)
      requires Valid() && digest.Some?
      modifies this`digest, this`log, this`token
      ensures Valid() && old(log) <= log
      ensures var d := old(token).digest.value;
        r.Done? ==> token == old(token).(digest := None, hash := Some(Hash(d.key, d.id, d.fed, r.value)))
      ensures r.Done? ==> |r.value| == 32
      ensures r.Failed? ==> token.signatures == old(token).signatures && StoppedBy(r.stage, log)
    {
      hide Run, StoppedBy, Filled;
      var reply := Ask(DigestFinal(digest.value));
      if reply.status != SAR_OK {
        StoppedByLast(SkfDigestFinal, log);
        return Failed(SkfDigestFinal);
      }
      ghost var before := log;
      CloseDigest();
      if reply.size != 32 {
        StoppedByLast(DigestLength, before);
        StoppedThenReleased(DigestLength, before, log);
        return Failed(DigestLength);
      }
      return Done(Filled(64, reply.data)[..32]);
    }

    method SignHash(hash: bytes) returns (r: Outcome<bytes>)
      requires Valid() && container.Some? && authenticated
      requires token.hash.Some? && token.hash.value.value == hash
      modifies this`log, this`token
      ensures Valid() && old(log) <= log
      ensures r.Done? ==> |r.value| == SIGNATURE_BLOB
      ensures var t := old(token);
        r.Done? ==> token == t.(signatures := t.signatures + [Signed(t.pin.value, t.hash.value, r.value)])
      ensures r.Failed? ==> token == old(token) && StoppedBy(r.stage, log)
    {
      hide Run;
      var reply := Ask(EccSignData(container.value, hash));
      if reply.status != SAR_OK {
        StoppedByLast(SkfEccSignData, log);
        return Failed(SkfEccSignData);
      }
      return Done(Filled(SIGNATURE_BLOB, reply.data));
    }

    /** Hashes the challenge under the exported key and signs the hash. */
    method HashAndSign(challenge: bytes, userId: bytes, key: bytes) returns (r: Outcome<(bytes, bytes)>)
      requires Valid() && device.Some? && application.Some? && container.Some? && digest == None && authenticated
      modifies this`digest, this`log, this`token
      ensures Valid() && old(log) <= log && container == token.container
      ensures r.Done? ==> |r.value.0| == 32 && |r.value.1| == SIGNATURE_BLOB && token.container == old(token).container
      ensures r.Done? ==> token.names == old(token).names
      ensures var t := old(token); r.Done? ==>
        token.signatures == t.signatures + [Signed(t.pin.value, Hash(key, userId, challenge, r.value.0), r.value.1)]
      ensures r.Failed? ==> token.signatures == old(token).signatures && StoppedBy(r.stage, log)
    {
      hide Run, StoppedBy, Nested;
      var ok := InitDigest(key, userId);
      if !ok {
        return Failed(SkfDigestInit);
      }
      ok := UpdateDigest(challenge);
      if !ok {
        return Failed(SkfDigestUpdate);
      }
      assert [] + challenge == challenge;
      var hash := FinishDigest();
      if hash.Failed? {
        return Failed(hash.stage);
      }
      var blob := SignHash(hash.value);
      if blob.Failed? {
        return Failed(blob.stage);
      }
      return Done((hash.value, blob.value));
    }

    /** Opens device and application, verifies the PIN and opens the container. */
    method OpenToSign(pin: bytes, configuredDevice: Name, configuredApplication: Name, configuredContainer: Name)
      returns (r: Outcome<TargetNames>)
      requires Valid() && token == IDLE && log == []
      modifies this`device, this`application, this`container, this`authenticated, this`log, this`token
      ensures Valid() && token.signatures == []
      ensures r.Done? ==> device.Some? && application.Some? && container.Some? && digest == None && authenticated
      ensures r.Done? ==> token.pin == Some(pin) && token.names == r.value
      ensures r.Done? ==> log != [] && log[|log| - 1].call.OpenContainer?
      ensures r.Done? ==> OpenedAll(log, r.value, configuredDevice, configuredApplication, configuredContainer)
      ensures r.Failed? ==> StoppedBy(r.stage, log)
    {
      hide Run, StoppedBy, OpenedAs, Legal, After, Nested;
      r := OpenDeviceAndApplication(configuredDevice, configuredApplication);
      if r.Failed? {
        return;
      }
      ghost var found, at := r.value, log;
      var ok := Verify(pin);
      if !ok {
        return Failed(SkfVerifyPin);
      }
      r := OpenContainer(r.value, configuredContainer);
      if r.Done? {
        OpenedStays(at, log, Device, found.device, configuredDevice);
        OpenedStays(at, log, Application, found.application, configuredApplication);
      }
    }

    method SignBody(challenge: bytes, pin: bytes, userId: bytes,
                    configuredDevice: Name, configuredApplication: Name, configuredContainer: Name)
      returns (r: Outcome<SignOutput>)
      requires Valid() && token == IDLE && log == []
      modifies this
      ensures Valid()
      ensures r.Done? ==> SignedAs(token, log, challenge, pin, userId, r.value)
      ensures r.Done? ==> OpenedAll(log, r.value.names, configuredDevice, configuredApplication, configuredContainer)
      ensures r.Failed? ==> |token.signatures| <= 1 && StoppedBy(r.stage, log)
    {
      hide Run, StoppedBy, Exported, KeyExported, OpenedAll, Legal, After, Nested;
      var targets := OpenToSign(pin, configuredDevice, configuredApplication, configuredContainer);
      if targets.Failed? {
        return Failed(targets.stage);
      }
      ghost var names, ready := targets.value, log;
      var key := ExportKey();
      if key.Failed? {
        return Failed(key.stage);
      }
      ghost var exported := log;
      var signed := HashAndSign(challenge, userId, key.value);
      if signed.Failed? {
        return Failed(signed.stage);
      }
      var der := ExportCert(true);
      if der.Failed? {
        return Failed(der.stage);
      }
      KeyExportedStays(exported, log, key.value);
      OpenedAllStays(ready, log, names, configuredDevice, configuredApplication, configuredContainer);
      var hash, blob := signed.value.0, signed.value.1;
      return Done(SignOutput(blob[32..64] + blob[96..128], hash, der.value,
                             key.value[36..68], key.value[100..132], targets.value));
    }

    method CertificateBody(configuredDevice: Name, configuredApplication: Name, configuredContainer: Name, signing: bool)
      returns (r: Outcome<(bytes, TargetNames)>)
      requires Valid() && token == IDLE && log == []
      modifies this
      ensures Valid()
      ensures r.Done? ==> Exported(log, signing, r.value.0) && token.names == r.value.1
      ensures r.Done? ==> OpenedAll(log, r.value.1, configuredDevice, configuredApplication, configuredContainer)
      ensures token.signatures == []
      ensures r.Failed? ==> StoppedBy(r.stage, log)
    {
      hide Run, StoppedBy, Exported, OpenedAll;
      var targets := ProbeBody(configuredDevice, configuredApplication, configuredContainer);
      if targets.Failed? {
        return Failed(targets.stage);
      }
      ghost var before := log;
      var der := ExportCert(signing);
      if der.Failed? {
        return Failed(der.stage);
      }
      OpenedAllStays(before, log, targets.value, configuredDevice, configuredApplication, configuredContainer);
      return Done((der.value, targets.value));
    }

    method ProbeBody(configuredDevice: Name, configuredApplication: Name, configuredContainer: Name)
      returns (r: Outcome<TargetNames>)
      requires Valid() && token == IDLE && log == []
      modifies this
      ensures Valid()
      ensures r.Done? ==> container.Some? && token.names == r.value
      ensures r.Done? ==> OpenedAll(log, r.value, configuredDevice, configuredApplication, configuredContainer)
      ensures token.signatures == []
      ensures r.Failed? ==> StoppedBy(r.stage, log)
    {
      hide Run, StoppedBy, OpenedAs;
      r := OpenDeviceAndApplication(configuredDevice, configuredApplication);
      if r.Failed? {
        return;
      }
      ghost var found, at := r.value, log;
      r := OpenContainer(r.value, configuredContainer);
      if r.Done? {
        OpenedStays(at, log, Device, found.device, configuredDevice);
        OpenedStays(at, log, Application, found.application, configuredApplication);
      }
    }

    /** The destructor of Handles. */
    method Release()
      requires Valid()
      modifies this`log, this`token
      ensures Logged() && Closed(token)
      ensures token.names == old(token).names && token.signatures == old(token).signatures
      ensures old(log) <= log && OnlyReleasesFrom(log, |old(log)|)
    {
      hide Run;
      RunIsNested(log);
      ReleaseInner();
      if application.Some? {
        var _ := Ask(CloseApplication(application.value));
      }
      if device.Some? {
        var _ := Ask(DisconnectDev(device.value));
      }
    }

    /** Its first half: what belongs to the application. */
    method ReleaseInner()
      requires Valid() && Nested(token)
      modifies this`log, this`token
      ensures Logged() && token == old(token).(digest := None, pin := None, container := None)
      ensures old(log) <= log && OnlyReleasesFrom(log, |old(log)|)
    {
      hide Run, Legal, After;
      if digest.Some? {
        CloseHandleStep(token, digest.value, replies(|log|));
        var _ := Ask(CloseHandle(digest.value));
      }
      if authenticated && application.Some? {
        ClearStep(token, application.value, replies(|log|));
        var _ := Ask(ClearSecureState(application.value));
      }
      if container.Some? {
        CloseContainerStep(token, container.value, replies(|log|));
        var _ := Ask(CloseContainer(container.value));
      }
    }
  }

  lemma CloseHandleStep(t: Token, h: Handle, r: Reply)
    requires HoldsDigest(t, h)
    ensures Legal(t, CloseHandle(h)) && After(t, Entry(CloseHandle(h), r)) == t.(digest := None)
  {
  }

  lemma ClearStep(t: Token, h: Handle, r: Reply)
    requires t.application == Some(h) && t.pin.Some?
    ensures Legal(t, ClearSecureState(h)) && After(t, Entry(ClearSecureState(h), r)) == t.(pin := None)
  {
  }

  lemma CloseContainerStep(t: Token, h: Handle, r: Reply)
    requires t.container == Some(h)
    ensures Legal(t, CloseContainer(h)) && After(t, Entry(CloseContainer(h), r)) == t.(container := None)
  {
  }

  /** The one signature made on the device is over the hash of the challenge under the exported key
      and the user id, under the given PIN, and the output reports that key, hash and signature. */
  ghost predicate SignedAs(t: Token, log: seq<Entry>, challenge: bytes, pin: bytes, userId: bytes, out: SignOutput) {
    && |t.signatures| == 1
    && var s := t.signatures[0];
    && s.pin == pin && s.hash.id == userId && s.hash.message == challenge && s.hash.value == out.digest
    && |s.hash.key| == 132 && KeyExported(log, s.hash.key)
    && out.x == s.hash.key[36..68] && out.y == s.hash.key[100..132]
    && |s.blob| == 128 && out.signature == s.blob[32..64] + s.blob[96..128]
    && Exported(log, true, out.certificate)
    && out.names == t.names
  }

  lemma SignedAsStays(t: Token, t': Token, log: seq<Entry>, longer: seq<Entry>,
                      challenge: bytes, pin: bytes, userId: bytes, out: SignOutput)
    requires SignedAs(t, log, challenge, pin, userId, out) && log <= longer
    requires t'.names == t.names && t'.signatures == t.signatures
    ensures SignedAs(t', longer, challenge, pin, userId, out)
  {
    hide KeyExported, Exported;
    KeyExportedStays(log, longer, t.signatures[0].hash.key);
    ExportedStays(log, longer, true, out.certificate);
  }

  /** The log holds the vendor's answers in order. */
  predicate Answered(log: seq<Entry>, replies: nat -> Reply) {
    forall i | 0 <= i < |log| :: log[i].reply == replies(i)
  }

  method Sign(replies: nat -> Reply, challenge: bytes, pin: bytes, userId: bytes,
              configuredDevice: Name, configuredApplication: Name, configuredContainer: Name)
    returns (r: Outcome<SignOutput>, log: seq<Entry>)
    ensures Answered(log, replies) && Run(log).Some? && Balanced(log)
    ensures r.Done? ==> SignedAs(Run(log).value, log, challenge, pin, userId, r.value)
    ensures r.Done? ==> OpenedAll(log, r.value.names, configuredDevice, configuredApplication, configuredContainer)
    ensures r.Failed? ==> |Run(log).value.signatures| <= 1 && StoppedBy(r.stage, log)
  {
    hide Run, Balanced, StoppedBy, SignedAs, OnlyReleasesFrom, OpenedAll;
    var handles := new Session(replies);
    r := handles.SignBody(challenge, pin, userId, configuredDevice, configuredApplication, configuredContainer);
    ghost var before, t := handles.log, handles.token;
    handles.Release();
    log := handles.log;
    ClosedIsBalanced(log);
    if r.Done? {
      SignedAsStays(t, handles.token, before, log, challenge, pin, userId, r.value);
      OpenedAllStays(before, log, r.value.names, configuredDevice, configuredApplication, configuredContainer);
    } else {
      StoppedThenReleased(r.stage, before, log);
    }
  }

  method Certificate(replies: nat -> Reply, configuredDevice: Name, configuredApplication: Name,
                     configuredContainer: Name, signing: bool)
    returns (r: Outcome<(bytes, TargetNames)>, log: seq<Entry>)
    ensures Answered(log, replies) && Run(log).Some? && Balanced(log)
    ensures Run(log).value.signatures == []
    ensures r.Done? ==> Exported(log, signing, r.value.0) && Run(log).value.names == r.value.1
    ensures r.Done? ==> OpenedAll(log, r.value.1, configuredDevice, configuredApplication, configuredContainer)
    ensures r.Failed? ==> StoppedBy(r.stage, log)
  {
    hide Run, Balanced, StoppedBy, Exported, OnlyReleasesFrom, OpenedAll;
    var handles := new Session(replies);
    r := handles.CertificateBody(configuredDevice, configuredApplication, configuredContainer, signing);
    ghost var before := handles.log;
    handles.Release();
    log := handles.log;
    ClosedIsBalanced(log);
    if r.Done? {
      ExportedStays(before, log, signing, r.value.0);
      OpenedAllStays(before, log, r.value.1, configuredDevice, configuredApplication, configuredContainer);
    } else {
      StoppedThenReleased(r.stage, before, log);
    }
  }

  method Probe(replies: nat -> Reply, configuredDevice: Name, configuredApplication: Name, configuredContainer: Name)
    returns (r: Outcome<TargetNames>, log: seq<Entry>)
    ensures Answered(log, replies) && Run(log).Some? && Balanced(log)
    ensures Run(log).value.signatures == []
    ensures r.Done? ==> Run(log).value.names == r.value
    ensures r.Done? ==> OpenedAll(log, r.value, configuredDevice, configuredApplication, configuredContainer)
    ensures r.Failed? ==> StoppedBy(r.stage, log)
  {
    hide Run, Balanced, StoppedBy, OnlyReleasesFrom, OpenedAll;
    var handles := new Session(replies);
    r := handles.ProbeBody(configuredDevice, configuredApplication, configuredContainer);
    ghost var before := handles.log;
    handles.Release();
    log := handles.log;
    ClosedIsBalanced(log);
    if r.Failed? {
      StoppedThenReleased(r.stage, before, log);
    } else {
      OpenedAllStays(before, log, r.value, configuredDevice, configuredApplication, configuredContainer);
    }
  }

  lemma FirstOfFilled(n: nat, data: bytes)
    requires n > 0
    ensures Filled(n, data)[0] == if data == [] then 0 else data[0]
  {
  }

  /** The octets before the first zero. */
  predicate IsFirstName(name: Name, buffer: bytes) {
    name <= buffer && 0 !in name && (|name| < |buffer| ==> buffer[|name|] == 0)
  }

  lemma NoFirstName(buffer: bytes)
    requires buffer != [] && IsFirstName([], buffer)
    ensures buffer[0] == 0
  {
  }

  method FirstName(buffer: bytes) returns (name: Name)
    ensures IsFirstName(name, buffer)
  {
    if buffer == [] || buffer[0] == 0 {
      return [];
    }
    var length: nat := 0;
    while length < |buffer| && buffer[length] != 0
      invariant length <= |buffer| && forall i | 0 <= i < length :: buffer[i] != 0
    {
      length := length + 1;
    }
    return buffer[..length];
  }
}
