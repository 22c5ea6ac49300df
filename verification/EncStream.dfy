/** Feeding data to a cipher: StreamCipherUpdate, XTSCipherUpdate, UpdateEncStdin, UpdateEncStdinEnd
    and UpdateEncFile of app_enc.c, over an abstract cipher context. */
module EncStream {
  import opened Octets

  const MAX_BUFSIZE: nat := 4096
  const BLOCK_SIZE: nat := 16
  const XTS_MIN_DATALEN: nat := 16
  const SAFE_BLOCK: nat := 16
  const READABLE_BLOCK: nat := 32

  datatype Status = Success | CryptoFail | UioFail | StdinFail | CopyArgsFailed

  // ---- cipher context ----

  datatype Mode = BlockMode | StreamMode

  /** Octets a context has given out once `n` went in: whole blocks, or everything. */
  function Emitted(mode: Mode, n: nat): nat {
    if mode == BlockMode then n - n % BLOCK_SIZE else n
  }

  lemma WholeBlocksEmitted(n: nat)
    ensures Emitted(BlockMode, n) == 16 * (n / 16) && Emitted(StreamMode, n) == n
  {
  }

  /** `running` is the output so far as a function of the input so far: it has the emitted
      length and only grows. */
  ghost predicate IsCipher(mode: Mode, running: bytes -> bytes) {
    && (forall s :: |running(s)| == Emitted(mode, |s|))
    && (forall s, t :: running(s) <= running(s + t))
  }

  /** The octets `input` brings out of a context already fed `fed`. */
  function Released(running: bytes -> bytes, fed: bytes, input: bytes): bytes {
    var before, after := |running(fed)|, running(fed + input);
    if before <= |after| then after[before..] else []
  }

  lemma ReleasedSplits(mode: Mode, running: bytes -> bytes, fed: bytes, a: bytes, b: bytes)
    requires IsCipher(mode, running)
    ensures Released(running, fed, a + b) == Released(running, fed, a) + Released(running, fed + a, b)
  {
    hide Emitted;
    assert fed + (a + b) == fed + a + b;
    assert running(fed) <= running(fed + a) <= running(fed + a + b);
  }

  /** A whole block releases exactly one block, whatever is cached; a shorter tail at most one. */
  lemma ReleasedSize(mode: Mode, running: bytes -> bytes, fed: bytes, input: bytes)
    requires IsCipher(mode, running)
    ensures |Released(running, fed, input)| == Emitted(mode, |fed| + |input|) - Emitted(mode, |fed|)
    ensures |input| == BLOCK_SIZE ==> |Released(running, fed, input)| == BLOCK_SIZE
    ensures |input| < BLOCK_SIZE ==> |Released(running, fed, input)| <= BLOCK_SIZE
  {
    hide Emitted;
    assert running(fed) <= running(fed + input);
    assert |running(fed + input)| == Emitted(mode, |fed + input|) && |fed + input| == |fed| + |input|;
    EmittedStep(mode, |fed|, |input|);
  }

  lemma EmittedStep(mode: Mode, n: nat, k: nat)
    ensures k == BLOCK_SIZE ==> Emitted(mode, n + k) - Emitted(mode, n) == BLOCK_SIZE
    ensures k < BLOCK_SIZE ==> Emitted(mode, n + k) - Emitted(mode, n) <= BLOCK_SIZE
  {
  }

  /** CRYPT_EAL_CipherUpdate as its callers see it. */
  class CipherCtx {
    const mode: Mode
    const running: bytes -> bytes
    var fed: bytes

    constructor (mode: Mode, running: bytes -> bytes)
      ensures this.mode == mode && this.running == running && fed == []
    {
      this.mode, this.running, fed := mode, running, [];
    }

    /** Writes what `input` releases to `res[off..]`, if it fits the capacity `cap`. The caller
        may not promise more room than the buffer has. */
    method Update(input: bytes, res: array<byte>, off: nat, cap: nat) returns (ok: bool, n: nat)
      requires IsCipher(mode, running)
      requires off + cap <= res.Length
      modifies this, res
      ensures ok == (|Released(running, old(fed), input)| <= cap)
      ensures !ok ==> fed == old(fed) && res[..] == old(res[..])
      ensures ok ==> fed == old(fed) + input && n == |Released(running, old(fed), input)|
      ensures ok ==> res[..off] == old(res[..off])
      ensures ok ==> res[off..off + n] == Released(running, old(fed), input)
    {
      hide Released, IsCipher;
      var released := Released(running, fed, input);
      n := |released|;
      ok := n <= cap;
      if ok {
        MemCpy(res, off, released);
        fed := fed + input;
      }
    }
  }

  lemma JoinRight<T>(a: seq<T>, b: seq<T>, c: seq<T>)
    ensures a + b + c == a + (b + c)
  {
  }

  lemma FlattenOne(chunks: seq<bytes>, chunk: bytes)
    ensures Flatten(chunks + [chunk]) == Flatten(chunks) + chunk
  {
    FlattenAppend(chunks, [chunk]);
    assert Flatten([chunk]) == chunk;
  }

  /** The cache as the part to hand on and the part to keep. */
  lemma HeldBack(area: bytes, c: bytes, n: nat)
    requires |c| <= |area| && area[..|c|] == c && n <= |c|
    ensures area[..n] == c[..n] && area[n..|c|] == c[n..]
  {
    assert area[..|c|][..n] == area[..n] && area[..|c|][n..] == area[n..|c|];
  }

  // ---- XTS context ----

  /** `crypt(before, chunk)` is what a context that was given `before` makes of `chunk`: as many octets. */
  ghost predicate IsXtsCipher(crypt: (seq<bytes>, bytes) -> bytes) {
    forall before, chunk :: |crypt(before, chunk)| == |chunk|
  }

  /** What a context that was given `before` makes of the chunks, one after the other. */
  function XtsOutput(crypt: (seq<bytes>, bytes) -> bytes, before: seq<bytes>, chunks: seq<bytes>): bytes {
    if chunks == [] then []
    else
      var front := chunks[..|chunks| - 1];
      XtsOutput(crypt, before, front) + crypt(before + front, chunks[|chunks| - 1])
  }

  /** As many octets come out of XTS as went in. */
  lemma {:induction false} XtsOutputSize(crypt: (seq<bytes>, bytes) -> bytes, before: seq<bytes>, chunks: seq<bytes>)
    requires IsXtsCipher(crypt)
    ensures |XtsOutput(crypt, before, chunks)| == |Flatten(chunks)|
    decreases |chunks|
  {
    if chunks != [] {
      var front, last := chunks[..|chunks| - 1], chunks[|chunks| - 1];
      XtsOutputSize(crypt, before, front);
      assert chunks == front + [last];
      FlattenAppend(front, [last]);
      assert Flatten([last]) == last;
    }
  }

  lemma XtsOutputStep(crypt: (seq<bytes>, bytes) -> bytes, before: seq<bytes>, chunks: seq<bytes>, chunk: bytes)
    ensures XtsOutput(crypt, before, chunks + [chunk]) == XtsOutput(crypt, before, chunks) + crypt(before + chunks, chunk)
  {
    assert (chunks + [chunk])[..|chunks|] == chunks;
  }

  /** CRYPT_EAL_CipherUpdate of an XTS context: less than a block, or too little room, is refused. */
  class XtsCtx {
    const crypt: (seq<bytes>, bytes) -> bytes
    var calls: seq<bytes>

    constructor (crypt: (seq<bytes>, bytes) -> bytes)
      ensures this.crypt == crypt && calls == []
    {
      this.crypt, calls := crypt, [];
    }

    method Update(input: bytes, res: array<byte>, cap: nat) returns (ok: bool, n: nat)
      requires IsXtsCipher(crypt) && cap <= res.Length
      modifies this, res
      ensures ok <==> 16 <= |input| <= cap
      ensures !ok ==> calls == old(calls)
      ensures ok ==> n == |input| && calls == old(calls) + [input] && res[..n] == crypt(old(calls), input)
    {
      n := |input|;
      ok := XTS_MIN_DATALEN <= n <= cap;
      if ok {
        MemCpy(res, 0, crypt(calls, input));
        calls := calls + [input];
      }
    }
  }

  // ---- the two update routines ----

  class Encryptor {
    const isXts: bool
    const ctx: CipherCtx
    const xts: XtsCtx
    /** What EncWriteEncoded has written. */
    var out: bytes

    constructor (isXts: bool, ctx: CipherCtx, xts: XtsCtx)
      ensures this.isXts == isXts && this.ctx == ctx && this.xts == xts && out == []
    {
      this.isXts, this.ctx, this.xts, out := isXts, ctx, xts, [];
    }

    ghost predicate Valid() { IsCipher(ctx.mode, ctx.running) && IsXtsCipher(xts.crypt) }

    /** Since the state `start`, the first `n` octets went in and what they release is in `resBuf[..w]`. */
    ghost predicate FedTo(start: bytes, readBuf: bytes, n: nat, resBuf: array<byte>, w: nat)
      reads ctx, resBuf
    {
      && n <= |readBuf| && w <= resBuf.Length
      && ctx.fed == start + readBuf[..n] && resBuf[..w] == Released(ctx.running, start, readBuf[..n])
    }

    lemma NothingFed(readBuf: bytes, resBuf: array<byte>)
      requires Valid()
      ensures FedTo(ctx.fed, readBuf, 0, resBuf, 0)
    {
      StartsEmpty(ctx.mode, ctx.running, ctx.fed);
      assert readBuf[..0] == [] && resBuf[..0] == [] && ctx.fed + [] == ctx.fed;
    }

    /** One call of the library with the next `len` octets, `cap` being at least a block. */
    method UpdatePiece(readBuf: bytes, from: nat, len: nat, resBuf: array<byte>, off: nat, cap: nat, ghost start: bytes)
      returns (ok: bool, n: nat)
      requires Valid() && FedTo(start, readBuf, from, resBuf, off)
      requires from + len <= |readBuf| && off + cap <= resBuf.Length && len <= BLOCK_SIZE <= cap
      modifies ctx, resBuf
      ensures ok && n <= BLOCK_SIZE && (len == BLOCK_SIZE ==> n == BLOCK_SIZE)
      ensures FedTo(start, readBuf, from + len, resBuf, off + n)
    {
      hide Released, IsCipher, IsXtsCipher;
      var piece := readBuf[from..from + len];
      ghost var before := readBuf[..from];
      ReleasedSize(ctx.mode, ctx.running, ctx.fed, piece);
      ReleasedSplits(ctx.mode, ctx.running, start, before, piece);
      ok, n := ctx.Update(piece, resBuf, off, cap);
      assert resBuf[..off + n] == resBuf[..off] + resBuf[off..off + n];
      assert before + piece == readBuf[..from + len];
      assert start + before + piece == start + (before + piece);
    }

    /** Feeds `readBuf` block by block, each octet once and in order. Every offset plus the
        capacity announced with it is `|readBuf|` plus one block, which the buffer must hold. */
    method StreamCipherUpdate(readBuf: bytes, resBuf: array<byte>, resLen: nat) returns (ret: Status)
      requires Valid()
      requires |readBuf| + BLOCK_SIZE <= resLen <= resBuf.Length
      modifies this`out, ctx, resBuf
      ensures ret == Success
      ensures ctx.fed == old(ctx.fed) + readBuf
      ensures out == old(out) + Released(ctx.running, old(ctx.fed), readBuf)
    {
      hide Released, IsCipher, IsXtsCipher, FedTo;
      var readLen := |readBuf|;
      var updateLen: nat := 0;
      var hBuffLen: nat := readLen + BLOCK_SIZE;
      var blockNum := readLen / BLOCK_SIZE;
      var remainLen := readLen % BLOCK_SIZE;
      ghost var start := ctx.fed;
      NothingFed(readBuf, resBuf);
      var ok: bool;
      for i := 0 to blockNum
        invariant updateLen == i * BLOCK_SIZE && out == old(out)
        invariant FedTo(start, readBuf, updateLen, resBuf, updateLen)
      {
        hBuffLen := readLen + BLOCK_SIZE - i * BLOCK_SIZE;
        ok, hBuffLen := UpdatePiece(readBuf, i * BLOCK_SIZE, BLOCK_SIZE, resBuf, i * BLOCK_SIZE, hBuffLen, start);
        if !ok {
          return CryptoFail;
        }
        updateLen := updateLen + hBuffLen;
      }
      if remainLen > 0 {
        hBuffLen := readLen + BLOCK_SIZE - updateLen;
        ok, hBuffLen := UpdatePiece(readBuf, updateLen, remainLen, resBuf, updateLen, hBuffLen, start);
        if !ok {
          return CryptoFail;
        }
        updateLen := updateLen + hBuffLen;
      }
      AllFed(start, readBuf, resBuf, updateLen);
      if updateLen > resLen {
        return CryptoFail;
      }
      if updateLen != 0 {
        out := out + resBuf[..updateLen];
      } else {
        assert out + resBuf[..0] == out;
      }
      return Success;
    }

    lemma AllFed(start: bytes, readBuf: bytes, resBuf: array<byte>, w: nat)
      requires FedTo(start, readBuf, |readBuf|, resBuf, w)
      ensures ctx.fed == start + readBuf && w <= resBuf.Length && resBuf[..w] == Released(ctx.running, start, readBuf)
    {
      assert readBuf[..|readBuf|] == readBuf;
    }

    /** Hands one chunk to the XTS context and writes what it gives back. */
    method XTSCipherUpdate(buf: bytes, res: array<byte>, resLen: nat) returns (ret: Status)
      requires Valid() && |buf| <= res.Length
      modifies this`out, xts, res
      ensures ret == if 16 <= |buf| <= resLen then Success else CryptoFail
      ensures xts.calls == if |buf| < 16 then old(xts.calls) else old(xts.calls) + [buf]
      ensures out == if ret == Success then old(out) + xts.crypt(old(xts.calls), buf) else old(out)
    {
      var ok, updateLen := xts.Update(buf, res, |buf|);
      if !ok {
        return CryptoFail;
      }
      if updateLen > resLen {
        return CryptoFail;
      }
      if updateLen != 0 {
        out := out + res[..updateLen];
      }
      return Success;
    }

    /** Since the state `fed`, `written`, `calls`, exactly `chunks` were handed on and their output
        was written: to the XTS context one by one, or to the stream context as one sequence. */
    ghost predicate HandedOn(fed: bytes, written: bytes, calls: seq<bytes>, chunks: seq<bytes>)
      reads this, ctx, xts
    {
      if isXts then
        && ctx.fed == fed && xts.calls == calls + chunks
        && out == written + XtsOutput(xts.crypt, calls, chunks)
      else
        && xts.calls == calls && ctx.fed == fed + Flatten(chunks)
        && out == written + Released(ctx.running, fed, Flatten(chunks))
    }

    lemma NothingYet()
      requires Valid()
      ensures HandedOn(ctx.fed, out, xts.calls, [])
    {
      StartsEmpty(ctx.mode, ctx.running, ctx.fed);
    }

    /** One more chunk, by the routine for the cipher. */
    method HandOn(chunk: bytes, resBuf: array<byte>, resLen: nat,
                  ghost fed: bytes, ghost written: bytes, ghost calls: seq<bytes>, ghost chunks: seq<bytes>)
      returns (ret: Status)
      requires Valid() && HandedOn(fed, written, calls, chunks)
      requires if isXts then XTS_MIN_DATALEN <= |chunk| <= resLen else |chunk| + BLOCK_SIZE <= resLen
      requires resLen <= resBuf.Length
      modifies this`out, ctx, xts, resBuf
      ensures ret == Success && HandedOn(fed, written, calls, chunks + [chunk])
    {
      hide Released, IsCipher, IsXtsCipher, XtsOutput, Flatten;
      if isXts {
        XtsOutputStep(xts.crypt, calls, chunks, chunk);
        JoinRight(calls, chunks, [chunk]);
        JoinRight(written, XtsOutput(xts.crypt, calls, chunks), xts.crypt(calls + chunks, chunk));
        ret := XTSCipherUpdate(chunk, resBuf, resLen);
      } else {
        FlattenOne(chunks, chunk);
        ReleasedSplits(ctx.mode, ctx.running, fed, Flatten(chunks), chunk);
        JoinRight(fed, Flatten(chunks), chunk);
        JoinRight(written, Released(ctx.running, fed, Flatten(chunks)), Released(ctx.running, fed + Flatten(chunks), chunk));
        ret := StreamCipherUpdate(chunk, resBuf, resLen);
      }
    }

    // ---- standard input ----

    method UpdateEncStdinEnd(cache: bytes, resBuf: array<byte>, resLen: nat,
                             ghost fed: bytes, ghost written: bytes, ghost calls: seq<bytes>, ghost chunks: seq<bytes>)
      returns (ret: Status)
      requires Valid() && HandedOn(fed, written, calls, chunks)
      requires |cache| + BLOCK_SIZE <= resLen <= resBuf.Length
      modifies this`out, ctx, xts, resBuf
      ensures ret == StdinRun(isXts, cache, []).status
      ensures HandedOn(fed, written, calls, chunks + StdinRun(isXts, cache, []).chunks)
    {
      hide HandedOn, IsCipher, IsXtsCipher;
      if isXts && |cache| < XTS_MIN_DATALEN {
        assert chunks + [] == chunks;
        return CryptoFail;
      }
      ret := HandOn(cache, resBuf, resLen, fed, written, calls, chunks);
    }

    /** Hands on all but the last 16 octets of the cache and moves those to its front. */
    method FlushCache(cacheArea: array<byte>, cacheLen: nat, resBuf: array<byte>, size: nat,
                      ghost fed: bytes, ghost written: bytes, ghost calls: seq<bytes>, ghost chunks: seq<bytes>)
      returns (ret: Status)
      requires Valid() && HandedOn(fed, written, calls, chunks)
      requires READABLE_BLOCK <= cacheLen <= size <= cacheArea.Length && size <= resBuf.Length && cacheArea != resBuf
      modifies this`out, ctx, xts, resBuf, cacheArea
      ensures ret == Success
      ensures HandedOn(fed, written, calls, chunks + [old(cacheArea[..cacheLen - SAFE_BLOCK])])
      ensures cacheArea[..SAFE_BLOCK] == old(cacheArea[cacheLen - SAFE_BLOCK..cacheLen])
    {
      hide HandedOn, IsCipher, IsXtsCipher;
      var readableLen := cacheLen - SAFE_BLOCK;
      ret := HandOn(cacheArea[..readableLen], resBuf, size, fed, written, calls, chunks);
      if ret != Success {
        return;
      }
      if readableLen + SAFE_BLOCK > size {
        return CopyArgsFailed;
      }
      MemCpy(cacheArea, 0, cacheArea[readableLen..readableLen + SAFE_BLOCK]);
    }

    /** Reads standard input through the 4128-octet cache. `inputs` lists what the reads deliver
        until end of file. At the loop head the cache holds at most 31 octets, so the overflow
        check never fires. */
    method UpdateEncStdin(inputs: seq<StdinRead>) returns (ret: Status)
      requires Valid()
      modifies this`out, ctx, xts
      ensures ret == StdinRun(isXts, [], inputs).status
      ensures HandedOn(old(ctx.fed), old(out), old(xts.calls), StdinRun(isXts, [], inputs).chunks)
    {
      hide HandedOn, IsCipher, IsXtsCipher, StdinRun, Run.After;
      var size := MAX_BUFSIZE + READABLE_BLOCK;
      var cacheArea := new byte[size](_ => 0);
      var resBuf := new byte[size](_ => 0);
      var cacheLen: nat := 0;
      ghost var fed, written, calls := ctx.fed, out, xts.calls;
      ghost var done: seq<bytes> := [];
      NothingYet();
      ghost var cache, whole := [], StdinRun(isXts, [], inputs);
      var next := 0;
      assert inputs[0..] == inputs;
      AfterNothing(whole);
      while true
        invariant next <= |inputs| && cacheLen < READABLE_BLOCK && cacheArea[..cacheLen] == cache
        invariant StdinRun(isXts, cache, inputs[next..]).After(done) == whole
        invariant HandedOn(fed, written, calls, done)
        decreases |inputs| - next
      {
        StdinStep(isXts, cache, inputs, next, done);
        if next == |inputs| {
          ret := UpdateEncStdinEnd(cacheArea[..cacheLen], resBuf, size, fed, written, calls, done);
          return;
        }
        var r := inputs[next];
        next := next + 1;
        if r.ReadError? {
          return UioFail;
        }
        var readLen := |r.octets|;
        if readLen == 0 {
          return StdinFail;
        }
        if cacheLen > size || readLen > TWO_TO_THE_32 - 1 - cacheLen || readLen > size - cacheLen {
          return CopyArgsFailed;
        }
        MemCpy(cacheArea, cacheLen, r.octets);
        cacheLen := cacheLen + readLen;
        cache := cache + r.octets;
        if cacheLen < READABLE_BLOCK {
          continue;
        }
        HeldBack(cacheArea[..], cache, cacheLen - SAFE_BLOCK);
        ret := FlushCache(cacheArea, cacheLen, resBuf, size, fed, written, calls, done);
        if ret != Success {
          return;
        }
        done, cache := done + [cache[..cacheLen - SAFE_BLOCK]], cache[cacheLen - SAFE_BLOCK..];
        cacheLen := SAFE_BLOCK;
      }
    }

    // ---- file ----

    /** Encrypts a file of known length; its first `goodReads` reads deliver what they ask for. */
    method UpdateEncFile(file: bytes, goodReads: nat) returns (ret: Status)
      requires Valid()
      modifies this`out, ctx, xts
      ensures ret == FileRun(isXts, file, goodReads).status
      ensures HandedOn(old(ctx.fed), old(out), old(xts.calls), FileRun(isXts, file, goodReads).chunks)
    {
      hide HandedOn, IsCipher, IsXtsCipher, FileLoop;
      NothingYet();
      assert file[0..] == file;
      assert FileLoop(isXts, file, goodReads).After([]) == FileLoop(isXts, file, goodReads);
      var readFileLen: nat := |file|;
      if readFileLen < XTS_MIN_DATALEN && isXts {
        return CryptoFail;
      }
      var size := MAX_BUFSIZE * 2;
      var resBuf := new byte[size](_ => 0);
      var bufLen, readLen := size, size;
      ghost var fed, written, calls := ctx.fed, out, xts.calls;
      ghost var done: seq<bytes> := [];
      var next: nat, count: nat := 0, 0;
      while readFileLen > 0
        invariant next + readFileLen == |file| && count <= goodReads
        invariant isXts ==> readFileLen == 0 || readFileLen >= XTS_MIN_DATALEN
        invariant FileRun(isXts, file, goodReads) == FileLoop(isXts, file[next..], goodReads - count).After(done)
        invariant HandedOn(fed, written, calls, done)
        decreases readFileLen
      {
        if readFileLen < MAX_BUFSIZE * 2 {
          bufLen := readFileLen;
          readLen := readFileLen;
        }
        if readFileLen >= MAX_BUFSIZE * 2 {
          bufLen := MAX_BUFSIZE;
          readLen := MAX_BUFSIZE;
        }
        if !isXts {
          bufLen := if readFileLen > MAX_BUFSIZE then MAX_BUFSIZE else readFileLen;
          readLen := bufLen;
        }
        FileStep(isXts, file, next, goodReads - count, done);
        if count == goodReads {
          return UioFail;
        }
        count := count + 1;
        var readBuf := file[next..next + bufLen];
        readFileLen := readFileLen - readLen;
        next := next + readLen;
        ret := HandOn(readBuf, resBuf, size, fed, written, calls, done);
        if ret != Success {
          return;
        }
        done := done + [readBuf];
      }
      FileEnds(isXts, file, goodReads - count, done);
      return Success;
    }
  }

  lemma AfterNothing(run: Run)
    ensures run.After([]) == run
  {
  }

  /** Moving a handed-on chunk from the run to what is already done. */
  lemma RunStep(rest: Run, chunk: bytes, done: seq<bytes>)
    ensures rest.After([chunk]).After(done) == rest.After(done + [chunk])
  {
    assert done + ([chunk] + rest.chunks) == done + [chunk] + rest.chunks;
  }

  lemma StartsEmpty(mode: Mode, running: bytes -> bytes, fed: bytes)
    requires IsCipher(mode, running)
    ensures Released(running, fed, []) == []
  {
    assert fed + [] == fed;
  }

  datatype Read = Data(octets: bytes) | ReadError

  /** No read asks for more than 4096 octets. */
  type StdinRead = r: Read | r.Data? ==> |r.octets| <= MAX_BUFSIZE witness ReadError

  datatype Run = Run(status: Status, chunks: seq<bytes>) {
    function After(before: seq<bytes>): Run { Run(status, before + chunks) }
  }

  /** Chunks handed on from a cache and the reads still to come, and the final status. */
  function StdinRun(isXts: bool, cache: bytes, inputs: seq<Read>): Run
    decreases |inputs|
  {
    if inputs == [] then
      if isXts && |cache| < XTS_MIN_DATALEN then Run(CryptoFail, []) else Run(Success, [cache])
    else match inputs[0]
      case ReadError => Run(UioFail, [])
      case Data(octets) =>
        if octets == [] then Run(StdinFail, [])
        else
          var c := cache + octets;
          if |c| < READABLE_BLOCK then StdinRun(isXts, c, inputs[1..])
          else StdinRun(isXts, c[|c| - SAFE_BLOCK..], inputs[1..]).After([c[..|c| - SAFE_BLOCK]])
  }

  /** The next read. */
  lemma StdinStep(isXts: bool, cache: bytes, inputs: seq<Read>, next: nat, done: seq<bytes>)
    requires next <= |inputs|
    ensures StdinRun(isXts, cache, inputs[next..]).After(done) ==
      if next == |inputs| then Run(StdinRun(isXts, cache, []).status, done + StdinRun(isXts, cache, []).chunks)
      else match inputs[next]
        case ReadError => Run(UioFail, done)
        case Data(octets) =>
          var c := cache + octets;
          if octets == [] then Run(StdinFail, done)
          else if |c| < READABLE_BLOCK then StdinRun(isXts, c, inputs[next + 1..]).After(done)
          else StdinRun(isXts, c[|c| - SAFE_BLOCK..], inputs[next + 1..]).After(done + [c[..|c| - SAFE_BLOCK]])
  {
    assert done + [] == done;
    if next < |inputs| {
      assert inputs[next..][1..] == inputs[next + 1..];
      if inputs[next].Data? {
        var c := cache + inputs[next].octets;
        if |c| >= READABLE_BLOCK {
          RunStep(StdinRun(isXts, c[|c| - SAFE_BLOCK..], inputs[next + 1..]), c[..|c| - SAFE_BLOCK], done);
        }
      }
    }
  }

  /** Octets the next read of a file asks for, with `left` still to come. */
  function ReadSize(isXts: bool, left: nat): nat {
    if isXts then (if left < MAX_BUFSIZE * 2 then left else MAX_BUFSIZE)
    else if left > MAX_BUFSIZE then MAX_BUFSIZE else left
  }

  function FileLoop(isXts: bool, file: bytes, goodReads: nat): Run
    decreases |file|
  {
    if file == [] then Run(Success, [])
    else if goodReads == 0 then Run(UioFail, [])
    else
      var n := ReadSize(isXts, |file|);
      FileLoop(isXts, file[n..], goodReads - 1).After([file[..n]])
  }

  /** The next read, of what is left from `next` on. */
  lemma FileStep(isXts: bool, file: bytes, next: nat, goodReads: nat, done: seq<bytes>)
    requires next < |file|
    ensures var n := ReadSize(isXts, |file| - next);
      FileLoop(isXts, file[next..], goodReads).After(done) ==
        if goodReads == 0 then Run(UioFail, done)
        else FileLoop(isXts, file[next + n..], goodReads - 1).After(done + [file[next..next + n]])
  {
    var n, rest := ReadSize(isXts, |file| - next), file[next..];
    assert rest[..n] == file[next..next + n] && rest[n..] == file[next + n..];
    if goodReads == 0 {
      assert done + [] == done;
    } else {
      RunStep(FileLoop(isXts, file[next + n..], goodReads - 1), file[next..next + n], done);
    }
  }

  lemma FileEnds(isXts: bool, file: bytes, goodReads: nat, done: seq<bytes>)
    ensures FileLoop(isXts, file[|file|..], goodReads).After(done) == Run(Success, done)
  {
    assert done + [] == done;
  }

  function FileRun(isXts: bool, file: bytes, goodReads: nat): Run {
    if isXts && |file| < XTS_MIN_DATALEN then Run(CryptoFail, []) else FileLoop(isXts, file, goodReads)
  }

  // ---- what the runs hand on ----

  /** Every read delivers something. */
  predicate Delivers(inputs: seq<Read>) {
    forall i | 0 <= i < |inputs| :: inputs[i].Data? && 1 <= |inputs[i].octets| <= 4096
  }

  function Delivered(inputs: seq<Read>): bytes
    requires Delivers(inputs)
  {
    if inputs == [] then [] else inputs[0].octets + Delivered(inputs[1..])
  }

  /** Chunks the XTS path hands on: at least a block, never more than the buffers hold. */
  predicate ChunkSizes(chunks: seq<bytes>) {
    forall i | 0 <= i < |chunks| :: 16 <= |chunks[i]| <= 4111
  }

  lemma {:induction false} RunFromCache(isXts: bool, cache: bytes, inputs: seq<Read>)
    requires Delivers(inputs) && |cache| < READABLE_BLOCK
    ensures var run := StdinRun(isXts, cache, inputs);
      var all := cache + Delivered(inputs);
      if isXts && |all| < XTS_MIN_DATALEN then run == Run(CryptoFail, [])
      else run.status == Success && Flatten(run.chunks) == all && (isXts ==> ChunkSizes(run.chunks))
    decreases |inputs|
  {
    if inputs == [] {
      assert cache + [] == cache;
      assert Flatten([cache]) == cache;
    } else {
      var c := cache + inputs[0].octets;
      assert c + Delivered(inputs[1..]) == cache + Delivered(inputs);
      if |c| < READABLE_BLOCK {
        RunFromCache(isXts, c, inputs[1..]);
      } else {
        var chunk, kept := c[..|c| - SAFE_BLOCK], c[|c| - SAFE_BLOCK..];
        RunFromCache(isXts, kept, inputs[1..]);
        assert c == chunk + kept;
        assert chunk + (kept + Delivered(inputs[1..])) == cache + Delivered(inputs);
        var rest := StdinRun(isXts, kept, inputs[1..]).chunks;
        assert ([chunk] + rest)[1..] == rest;
      }
    }
  }

  /** For every sequence of non-empty reads: the chunks handed on concatenate to the input, XTS
      chunks hold 16 to 4111 octets, and the only failure is XTS input shorter than 16 octets. */
  lemma StdinTheorem(isXts: bool, inputs: seq<Read>)
    requires Delivers(inputs)
    ensures var run := StdinRun(isXts, [], inputs);
      var all := Delivered(inputs);
      && (run.status != Success <==> isXts && |all| < 16)
      && (run.status != Success ==> run == Run(CryptoFail, []))
      && (run.status == Success ==> Flatten(run.chunks) == all)
      && (run.status == Success && isXts ==> ChunkSizes(run.chunks))
  {
    assert [] + Delivered(inputs) == Delivered(inputs);
    RunFromCache(isXts, [], inputs);
  }

  /** Every chunk but the last is a whole number of blocks. */
  predicate WholeBlocks(chunks: seq<bytes>) {
    forall i | 0 <= i < |chunks| - 1 :: |chunks[i]| % BLOCK_SIZE == 0
  }

  /** Whenever a read makes the cache reach 32 octets, the cache holds whole blocks;
      `n` octets are cached at the start. */
  predicate FlushesAligned(n: nat, inputs: seq<Read>)
    requires Delivers(inputs)
    decreases |inputs|
  {
    inputs != [] ==>
      var m := n + |inputs[0].octets|;
      if m < READABLE_BLOCK then FlushesAligned(m, inputs[1..])
      else m % BLOCK_SIZE == 0 && FlushesAligned(SAFE_BLOCK, inputs[1..])
  }

  /** The 16 octets held back do not by themselves keep the chunks whole: before the last chunk
      an XTS context sees only whole blocks exactly when the reads line up. */
  lemma {:induction false} WholeBlocksIff(cache: bytes, inputs: seq<Read>)
    requires Delivers(inputs) && |cache| < READABLE_BLOCK
    requires |cache| + |Delivered(inputs)| >= XTS_MIN_DATALEN
    ensures WholeBlocks(StdinRun(true, cache, inputs).chunks) <==> FlushesAligned(|cache|, inputs)
    ensures StdinRun(true, cache, inputs).chunks != []
    decreases |inputs|
  {
    hide WholeBlocks;
    if inputs == [] {
      OneChunkIsWhole(cache);
    } else {
      var c := cache + inputs[0].octets;
      if |c| < READABLE_BLOCK {
        WholeBlocksIff(c, inputs[1..]);
      } else {
        var chunk, kept := c[..|c| - SAFE_BLOCK], c[|c| - SAFE_BLOCK..];
        WholeBlocksIff(kept, inputs[1..]);
        var rest := StdinRun(true, kept, inputs[1..]).chunks;
        PrependWhole(chunk, rest);
      }
    }
  }

  lemma OneChunkIsWhole(chunk: bytes)
    ensures WholeBlocks([chunk])
  {
  }

  lemma PrependWhole(chunk: bytes, rest: seq<bytes>)
    requires rest != []
    ensures WholeBlocks([chunk] + rest) <==> |chunk| % BLOCK_SIZE == 0 && WholeBlocks(rest)
  {
    var all := [chunk] + rest;
    assert all[0] == chunk;
    assert forall i | 0 <= i < |rest| :: all[i + 1] == rest[i];
    if WholeBlocks(all) {
      forall i | 0 <= i < |rest| - 1 ensures |rest[i]| % BLOCK_SIZE == 0 { assert all[i + 1] == rest[i]; }
    }
  }

  predicate BlockReads(inputs: seq<Read>)
    requires Delivers(inputs)
  {
    forall i | 0 <= i < |inputs| :: |inputs[i].octets| % BLOCK_SIZE == 0
  }

  predicate LargeReads(inputs: seq<Read>)
    requires Delivers(inputs)
  {
    forall i | 0 <= i < |inputs| :: |inputs[i].octets| >= READABLE_BLOCK
  }

  lemma ReadsUnfold(inputs: seq<Read>)
    requires Delivers(inputs) && inputs != []
    ensures BlockReads(inputs) <==> |inputs[0].octets| % BLOCK_SIZE == 0 && BlockReads(inputs[1..])
    ensures LargeReads(inputs) <==> |inputs[0].octets| >= READABLE_BLOCK && LargeReads(inputs[1..])
  {
    assert inputs == [inputs[0]] + inputs[1..];
  }

  lemma Multiples(a: nat, b: nat)
    requires a % BLOCK_SIZE == 0 && b % BLOCK_SIZE == 0
    ensures (a + b) % BLOCK_SIZE == 0
  {
  }

  lemma {:induction false} BlockReadsAlign(n: nat, inputs: seq<Read>)
    requires Delivers(inputs) && n % BLOCK_SIZE == 0 && BlockReads(inputs)
    ensures FlushesAligned(n, inputs)
    decreases |inputs|
  {
    hide BlockReads, LargeReads;
    if inputs != [] {
      ReadsUnfold(inputs);
      var m := n + |inputs[0].octets|;
      Multiples(n, |inputs[0].octets|);
      BlockReadsAlign(if m < READABLE_BLOCK then m else SAFE_BLOCK, inputs[1..]);
    }
  }

  lemma {:induction false} AlignedLargeReads(n: nat, inputs: seq<Read>)
    requires Delivers(inputs) && n % BLOCK_SIZE == 0 && LargeReads(inputs) && FlushesAligned(n, inputs)
    ensures BlockReads(inputs)
    decreases |inputs|
  {
    if inputs != [] {
      hide BlockReads, LargeReads;
      ReadsUnfold(inputs);
      AlignedLargeReads(SAFE_BLOCK, inputs[1..]);
    }
  }

  /** Reads of whole blocks give whole-block chunks; where every read delivers 32 octets or more,
      only they do. */
  lemma WholeBlocksOfReads(inputs: seq<Read>)
    requires Delivers(inputs) && |Delivered(inputs)| >= XTS_MIN_DATALEN
    ensures BlockReads(inputs) ==> WholeBlocks(StdinRun(true, [], inputs).chunks)
    ensures LargeReads(inputs) ==> (WholeBlocks(StdinRun(true, [], inputs).chunks) <==> BlockReads(inputs))
  {
    hide FlushesAligned, StdinRun, WholeBlocks;
    WholeBlocksIff([], inputs);
    if BlockReads(inputs) {
      BlockReadsAlign(0, inputs);
    }
    if LargeReads(inputs) && FlushesAligned(0, inputs) {
      AlignedLargeReads(0, inputs);
    }
  }

  /** One read of 40 octets reaches the XTS context as 24 octets and then 16. */
  lemma SplitBlockExample(octets: bytes)
    requires |octets| == 40
    ensures StdinRun(true, [], [Data(octets)]) == Run(Success, [octets[..24], octets[24..]])
    ensures !WholeBlocks(StdinRun(true, [], [Data(octets)]).chunks)
  {
    var inputs := [Data(octets)];
    assert [] + octets == octets;
    assert inputs[1..] == [];
    assert StdinRun(true, octets[24..], inputs[1..]) == Run(Success, [octets[24..]]);
    assert |StdinRun(true, [], inputs).chunks[0]| == 24;
  }

  lemma {:induction false} FileLoopSchedule(isXts: bool, file: bytes, goodReads: nat)
    requires goodReads >= |file|
    requires isXts ==> file == [] || |file| >= XTS_MIN_DATALEN
    ensures var run := FileLoop(isXts, file, goodReads);
      && run.status == Success && Flatten(run.chunks) == file
      && (file == [] <==> run.chunks == [])
      && (if isXts then ScheduledXts(run.chunks) else ScheduledStream(run.chunks))
    decreases |file|
  {
    if file != [] {
      var n := ReadSize(isXts, |file|);
      FileLoopSchedule(isXts, file[n..], goodReads - 1);
      var rest := FileLoop(isXts, file[n..], goodReads - 1).chunks;
      assert ([file[..n]] + rest)[1..] == rest;
      assert file == file[..n] + file[n..];
    }
  }

  /** XTS file chunks: 4096 octets each, the last one 16 to 8191. */
  predicate ScheduledXts(chunks: seq<bytes>) {
    chunks != [] ==>
      if |chunks| == 1 then 16 <= |chunks[0]| <= 8191
      else |chunks[0]| == 4096 && ScheduledXts(chunks[1..])
  }

  /** Other file chunks: 4096 octets each, the last one 1 to 4096. */
  predicate ScheduledStream(chunks: seq<bytes>) {
    chunks != [] ==>
      if |chunks| == 1 then 1 <= |chunks[0]| <= 4096
      else |chunks[0]| == 4096 && ScheduledStream(chunks[1..])
  }

  /** A file whose reads all succeed is handed on whole, on the stated schedule. */
  lemma FileTheorem(isXts: bool, file: bytes, goodReads: nat)
    requires goodReads >= |file|
    ensures var run := FileRun(isXts, file, goodReads);
      && (run.status != Success <==> isXts && |file| < 16)
      && (run.status != Success ==> run == Run(CryptoFail, []))
      && (run.status == Success ==> Flatten(run.chunks) == file)
      && (run.status == Success ==> if isXts then ScheduledXts(run.chunks) else ScheduledStream(run.chunks))
  {
    if !isXts || |file| >= XTS_MIN_DATALEN {
      FileLoopSchedule(isXts, file, goodReads);
    }
  }

  /** XTS writes as many octets as were read, from standard input and from a file. */
  lemma XtsWritesWhatItReads(crypt: (seq<bytes>, bytes) -> bytes, before: seq<bytes>, inputs: seq<Read>, file: bytes, goodReads: nat)
    requires IsXtsCipher(crypt) && Delivers(inputs) && goodReads >= |file|
    ensures |Delivered(inputs)| >= XTS_MIN_DATALEN ==>
      |XtsOutput(crypt, before, StdinRun(true, [], inputs).chunks)| == |Delivered(inputs)|
    ensures |file| >= XTS_MIN_DATALEN ==>
      |XtsOutput(crypt, before, FileRun(true, file, goodReads).chunks)| == |file|
  {
    hide StdinRun, FileRun, XtsOutput;
    StdinTheorem(true, inputs);
    FileTheorem(true, file, goodReads);
    XtsOutputSize(crypt, before, StdinRun(true, [], inputs).chunks);
    XtsOutputSize(crypt, before, FileRun(true, file, goodReads).chunks);
  }

  // ---- single reads and bad reads ----

  /** What one read comes to: under 32 octets it is handed on whole at the end of the input, from 32
      on its last 16 octets are kept for a chunk of their own. */
  lemma OneRead(isXts: bool, octets: bytes)
    requires 16 <= |octets| <= 4096
    ensures StdinRun(isXts, [], [Data(octets)]) == Run(Success,
      if |octets| < 32 then [octets] else [octets[..|octets| - 16], octets[|octets| - 16..]])
  {
    var inputs := [Data(octets)];
    assert [] + octets == octets;
    assert inputs[1..] == [];
    var kept := octets[|octets| - 16..];
    assert StdinRun(isXts, kept, []) == Run(Success, [kept]);
    assert [octets[..|octets| - 16]] + [kept] == [octets[..|octets| - 16], kept];
  }

  /** The first read that delivers nothing decides: an error of the read, or nothing read. */
  lemma {:induction false} BadRead(isXts: bool, cache: bytes, good: seq<Read>, bad: Read, rest: seq<Read>)
    requires Delivers(good) && (bad.ReadError? || bad.octets == [])
    ensures StdinRun(isXts, cache, good + [bad] + rest).status == if bad.ReadError? then UioFail else StdinFail
    decreases |good|
  {
    var all := good + [bad] + rest;
    if good == [] {
      assert all[0] == bad;
    } else {
      assert all[0] == good[0];
      assert all[1..] == good[1..] + [bad] + rest;
      var c := cache + good[0].octets;
      BadRead(isXts, c, good[1..], bad, rest);
      if |c| >= READABLE_BLOCK {
        BadRead(isXts, c[|c| - SAFE_BLOCK..], good[1..], bad, rest);
      }
    }
  }

  /** Where read `goodReads` of a file fails, exactly the chunks before it were handed on. */
  lemma {:induction false} FailingRead(isXts: bool, file: bytes, goodReads: nat, all: nat)
    requires all >= |file| && goodReads < |FileLoop(isXts, file, all).chunks|
    ensures FileLoop(isXts, file, goodReads) == Run(UioFail, FileLoop(isXts, file, all).chunks[..goodReads])
    decreases |file|
  {
    if file != [] {
      var n := ReadSize(isXts, |file|);
      var chunk, rest := file[..n], file[n..];
      var whole := FileLoop(isXts, file, all).chunks;
      assert whole == [chunk] + FileLoop(isXts, rest, all - 1).chunks;
      if goodReads > 0 {
        FailingRead(isXts, rest, goodReads - 1, all - 1);
        assert [chunk] + FileLoop(isXts, rest, all - 1).chunks[..goodReads - 1] == whole[..goodReads];
      }
    }
  }
}
