/** Octets, big-endian integers and the integer widths the C and C++ sources rely on. */
module Octets {

  type byte = b: int | 0 <= b < 256
  type bytes = seq<byte>

  const TWO_TO_THE_32: nat := 0x1_0000_0000
  const TWO_TO_THE_64: nat := 0x1_0000_0000_0000_0000
  const SIZE_MAX: nat := TWO_TO_THE_64 - 1

  type uint32 = n: int | 0 <= n < TWO_TO_THE_32
  type uint64 = n: int | 0 <= n < TWO_TO_THE_64

  type int32 = n: int | -0x8000_0000 <= n < 0x8000_0000
  type int64 = n: int | -0x8000_0000_0000_0000 <= n < 0x8000_0000_0000_0000

  /** Conversions between signed and unsigned words of the same width. */
  function Bits32(n: int32): uint32 { if n < 0 then n + TWO_TO_THE_32 else n }
  function Signed32(n: uint32): int32 { if n < 0x8000_0000 then n else n - TWO_TO_THE_32 }
  function Bits64(n: int64): uint64 { if n < 0 then n + TWO_TO_THE_64 else n }
  function Signed64(n: uint64): int64 { if n < 0x8000_0000_0000_0000 then n else n - TWO_TO_THE_64 }

  /** A C buffer: its length is a `size_t`. */
  type Buffer = b: bytes | |b| <= SIZE_MAX

  datatype Option<+T> = None | Some(value: T)

  function Pow(base: nat, n: nat): nat {
    if n == 0 then 1 else base * Pow(base, n - 1)
  }

  /** BSL_Uint32ToByte. */
  function U32Bytes(n: uint32): (b: bytes)
    ensures |b| == 4
  {
    [n / 256 / 256 / 256, n / 256 / 256 % 256, n / 256 % 256, n % 256]
  }

  /** BSL_ByteToUint32. */
  function U32Value(b: bytes): uint32
    requires |b| == 4
  {
    256 * (256 * (256 * (b[0] as int) + b[1]) + b[2]) + b[3]
  }

  lemma U32RoundTrip(n: uint32)
    ensures U32Value(U32Bytes(n)) == n
  {
  }

  lemma U32Unique(b: bytes)
    requires |b| == 4
    ensures U32Bytes(U32Value(b)) == b
  {
    var hi := 256 * (256 * (b[0] as int) + b[1]) + b[2];
    assert U32Value(b) / 256 == hi;
    assert hi / 256 == 256 * (b[0] as int) + b[1];
  }

  /** The most significant octet comes first. */
  lemma U32Order(n: uint32)
    ensures var b := U32Bytes(n);
      n == (b[0] as int) * 16777216 + (b[1] as int) * 65536 + (b[2] as int) * 256 + (b[3] as int)
  {
  }

  /** BSL_Uint64ToByte. */
  function U64Bytes(n: uint64): (b: bytes)
    ensures |b| == 8
  {
    U32Bytes(n / TWO_TO_THE_32) + U32Bytes(n % TWO_TO_THE_32)
  }

  /** BSL_ByteToUint64. */
  function U64Value(b: bytes): uint64
    requires |b| == 8
  {
    U32Value(b[..4]) * TWO_TO_THE_32 + U32Value(b[4..])
  }

  lemma U64RoundTrip(n: uint64)
    ensures U64Value(U64Bytes(n)) == n
  {
    U32RoundTrip(n / TWO_TO_THE_32);
    U32RoundTrip(n % TWO_TO_THE_32);
    assert U64Bytes(n)[..4] == U32Bytes(n / TWO_TO_THE_32);
    assert U64Bytes(n)[4..] == U32Bytes(n % TWO_TO_THE_32);
  }

  lemma U64Unique(b: bytes)
    requires |b| == 8
    ensures U64Bytes(U64Value(b)) == b
  {
    hide U32Bytes, U32Value;
    U32Unique(b[..4]);
    U32Unique(b[4..]);
    var high, low := U32Value(b[..4]), U32Value(b[4..]);
    assert (high * TWO_TO_THE_32 + low) / TWO_TO_THE_32 == high;
    assert (high * TWO_TO_THE_32 + low) % TWO_TO_THE_32 == low;
    assert b == b[..4] + b[4..];
  }

  lemma U64Order(n: uint64)
    ensures U64Bytes(n)[..4] == U32Bytes(n / 4294967296) && U64Bytes(n)[4..] == U32Bytes(n % 4294967296)
  {
  }

  /** `(acc << 7) | (b & 0x7F)` on a 64-bit accumulator. */
  function Shift7(acc: nat, b: byte): nat {
    acc * 128 % TWO_TO_THE_64 + b % 128
  }

  lemma Shift7Exact(n: nat, b: byte)
    requires n < TWO_TO_THE_64 && b % 128 == n % 128
    ensures Shift7(n / 128, b) == n
  {
    assert n / 128 * 128 < TWO_TO_THE_64;
  }

  function Zeros(n: nat): (b: bytes)
    ensures |b| == n
  {
    seq(n, _ => 0)
  }

  /** The pieces one after the other. */
  function Flatten<T>(pieces: seq<seq<T>>): seq<T> {
    if pieces == [] then [] else pieces[0] + Flatten(pieces[1..])
  }

  lemma {:induction false} FlattenAppend<T>(a: seq<seq<T>>, b: seq<seq<T>>)
    ensures Flatten(a + b) == Flatten(a) + Flatten(b)
    decreases |a|
  {
    if a == [] {
      assert a + b == b;
    } else {
      assert (a + b)[1..] == a[1..] + b;
      FlattenAppend(a[1..], b);
    }
  }

  /** Equal slices have equal sub-slices. */
  lemma SubSlice<T>(a: seq<T>, i: nat, b: seq<T>, j: nat, n: nat, k: nat, m: nat)
    requires i + n <= |a| && j + n <= |b| && a[i..i + n] == b[j..j + n]
    requires k + m <= n
    ensures a[i + k..i + k + m] == b[j + k..j + k + m]
  {
    var u, v := a[i + k..i + k + m], b[j + k..j + k + m];
    forall x | 0 <= x < m
      ensures u[x] == v[x]
    {
      assert a[i..i + n][k + x] == b[j..j + n][k + x];
    }
  }

  /** A slice that is a concatenation, cut at the joints. */
  lemma SliceParts<T>(s: seq<T>, p: nat, end: nat, x: seq<T>, y: seq<T>, z: seq<T>)
    requires p <= end <= |s| && s[p..end] == x + y + z
    ensures end == p + |x| + |y| + |z|
    ensures s[p..p + |x|] == x
    ensures s[p + |x|..p + |x| + |y|] == y
    ensures s[p + |x| + |y|..end] == z
  {
    var w := s[p..end];
    assert |w| == |x| + |y| + |z|;
    SubSlice(s, p, w, 0, |w|, 0, |x|);
    SubSlice(s, p, w, 0, |w|, |x|, |y|);
    SubSlice(s, p, w, 0, |w|, |x| + |y|, |z|);
    assert w[|x|..|x| + |y|] == y;
    assert w[|x| + |y|..|w|] == z;
  }

  /** A slice that ends in one more element. */
  lemma SliceSnoc<T>(s: seq<T>, i: nat, x: seq<T>, y: T)
    requires i + |x| + 1 <= |s| && s[i..i + |x| + 1] == x + [y]
    ensures s[i..i + |x|] == x && s[i + |x|] == y
  {
    var w := s[i..i + |x| + 1];
    SubSlice(s, i, w, 0, |w|, 0, |x|);
    assert w[0..|x|] == x;
    assert s[i + |x|] == w[|x|];
  }

  method MemCpy(dest: array<byte>, at: nat, src: bytes)
    requires at + |src| <= dest.Length
    modifies dest
    ensures dest[..at] == old(dest[..at]) && dest[at..at + |src|] == src
    ensures dest[..at + |src|] == old(dest[..at]) + src
    ensures dest[at + |src|..] == old(dest[at + |src|..])
  {
    forall k | 0 <= k < |src| {
      dest[at + k] := src[k];
    }
  }
}
