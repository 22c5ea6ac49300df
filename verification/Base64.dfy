/** base64url_encode, base64_encode and base64url_decode of codec.hpp (RFC 4648 sections 4 and 5). */
module Base64 {
  import opened Octets
  import opened Strings

  type sextet = d: int | 0 <= d < 64

  /** Position `i` of the URL-safe alphabet: A-Z, a-z, 0-9, '-', '_'. */
  function UrlChar(i: sextet): char {
    if i < 26 then 'A' + i as char
    else if i < 52 then 'a' + (i - 26) as char
    else if i < 62 then '0' + (i - 52) as char
    else if i == 62 then '-' else '_'
  }

  /** The standard alphabet differs in its last two characters. */
  function StandardChar(c: char): char {
    if c == '-' then '+' else if c == '_' then '/' else c
  }

  /** The decoder's reverse table: both alphabets, -1 elsewhere. */
  function DigitOf(c: char): (d: int)
    ensures -1 <= d < 64
  {
    if 'A' <= c <= 'Z' then c as int - 'A' as int
    else if 'a' <= c <= 'z' then c as int - 'a' as int + 26
    else if '0' <= c <= '9' then c as int - '0' as int + 52
    else if c == '-' || c == '+' then 62
    else if c == '_' || c == '/' then 63 else -1
  }

  /** A character reads as the digit it stands for, and is neither blank nor padding. */
  lemma CharRoundTrip(i: sextet)
    ensures var c := UrlChar(i);
      && DigitOf(c) == i && DigitOf(StandardChar(c)) == i
      && !IsSpace(c) && !IsSpace(StandardChar(c)) && c != '=' && StandardChar(c) != '='
      && c != '\n' && c != '\r' && StandardChar(c) != '\n' && StandardChar(c) != '\r'
  {
  }

  // ---- digits ----

  /** Six-bit digits of the data, three octets at a time. */
  function DigitsOf(d: bytes): (r: seq<sextet>)
    ensures |r| == (4 * |d| + 2) / 3
  {
    if d == [] then []
    else if |d| == 1 then [d[0] / 4, d[0] % 4 * 16]
    else if |d| == 2 then [d[0] / 4, d[0] % 4 * 16 + d[1] / 16, d[1] % 16 * 4]
    else [d[0] / 4, d[0] % 4 * 16 + d[1] / 16, d[1] % 16 * 4 + d[2] / 64, d[2] % 64] + DigitsOf(d[3..])
  }

  /** Bits carried over between digits: none, two, four or six. */
  predicate IsPending(p: int) { p == 0 || p == 2 || p == 4 || p == 6 }

  function Two(p: nat): nat
    requires IsPending(p)
  {
    if p == 0 then 1 else if p == 2 then 4 else if p == 4 then 16 else 64
  }

  /** Octets completed by the digits `ds` after `p` bits of value `v`. */
  function Octets8(p: nat, v: nat, ds: seq<sextet>): bytes
    requires IsPending(p) && v < Two(p)
    decreases |ds|
  {
    if ds == [] then []
    else
      var w := v * 64 + ds[0];
      if p == 0 then Octets8(6, w, ds[1..])
      else [w / Two(p - 2)] + Octets8(p - 2, w % Two(p - 2), ds[1..])
  }

  lemma {:induction false} OctetCount(p: nat, v: nat, ds: seq<sextet>)
    requires IsPending(p) && v < Two(p)
    ensures |Octets8(p, v, ds)| == (p + 6 * |ds|) / 8
    decreases |ds|
  {
    if ds != [] {
      var w := v * 64 + ds[0];
      if p == 0 {
        OctetCount(6, w, ds[1..]);
      } else {
        OctetCount(p - 2, w % Two(p - 2), ds[1..]);
      }
    }
  }

  lemma OctetsCons(p: nat, v: nat, x: sextet, t: seq<sextet>)
    requires IsPending(p) && v < Two(p)
    ensures var w := v * 64 + x;
      Octets8(p, v, [x] + t) ==
      if p == 0 then Octets8(6, w, t) else [w / Two(p - 2)] + Octets8(p - 2, w % Two(p - 2), t)
  {
    assert ([x] + t)[1..] == t;
  }

  lemma OctetsNil(p: nat, v: nat)
    requires IsPending(p) && v < Two(p)
    ensures Octets8(p, v, []) == []
  {
  }

  lemma FirstOctet(a: byte, lo: nat, t: seq<sextet>)
    requires lo < 16
    ensures Octets8(0, 0, [a / 4, a % 4 * 16 + lo] + t) == [a] + Octets8(4, lo, t)
  {
    hide Octets8;
    var x, y := a / 4, a % 4 * 16 + lo;
    assert [x, y] + t == [x] + ([y] + t);
    OctetsCons(0, 0, x, [y] + t);
    OctetsCons(6, x, y, t);
    assert x * 64 + y == (a as int) * 16 + lo;
  }

  lemma SecondOctet(b: byte, lo: nat, t: seq<sextet>)
    requires lo < 4
    ensures Octets8(4, b / 16, [b % 16 * 4 + lo] + t) == [b] + Octets8(2, lo, t)
  {
    hide Octets8;
    OctetsCons(4, b / 16, b % 16 * 4 + lo, t);
    assert b / 16 * 64 + (b % 16 * 4 + lo) == (b as int) * 4 + lo;
  }

  lemma ThirdOctet(c: byte, t: seq<sextet>)
    ensures Octets8(2, c / 64, [c % 64] + t) == [c] + Octets8(0, 0, t)
  {
    hide Octets8;
    OctetsCons(2, c / 64, c % 64, t);
  }

  lemma OneOctet(a: byte)
    ensures Octets8(0, 0, [a / 4, a % 4 * 16]) == [a]
  {
    hide Octets8;
    FirstOctet(a, 0, []);
    OctetsNil(4, 0);
    assert [a / 4, a % 4 * 16] + [] == [a / 4, a % 4 * 16];
  }

  lemma TwoOctets(a: byte, b: byte)
    ensures Octets8(0, 0, [a / 4, a % 4 * 16 + b / 16, b % 16 * 4]) == [a, b]
  {
    hide Octets8;
    var x := b % 16 * 4;
    FirstOctet(a, b / 16, [x]);
    assert [x] == [x] + [];
    SecondOctet(b, 0, []);
    OctetsNil(2, 0);
    assert [a / 4, a % 4 * 16 + b / 16, x] == [a / 4, a % 4 * 16 + b / 16] + [x];
  }

  lemma ThreeOctets(a: byte, b: byte, c: byte, t: seq<sextet>)
    ensures Octets8(0, 0, [a / 4, a % 4 * 16 + b / 16, b % 16 * 4 + c / 64, c % 64] + t) == [a, b, c] + Octets8(0, 0, t)
  {
    hide Octets8;
    var x, y := b % 16 * 4 + c / 64, c % 64;
    FirstOctet(a, b / 16, [x] + ([y] + t));
    SecondOctet(b, c / 64, [y] + t);
    ThirdOctet(c, t);
    assert [a / 4, a % 4 * 16 + b / 16, x, y] + t == [a / 4, a % 4 * 16 + b / 16] + ([x] + ([y] + t));
  }

  /** Decoding the digits gives back the data. */
  lemma {:induction false} DigitsRoundTrip(d: bytes)
    ensures Octets8(0, 0, DigitsOf(d)) == d
    decreases |d|
  {
    hide Octets8;
    if d == [] {
      OctetsNil(0, 0);
    } else if |d| == 1 {
      OneOctet(d[0]);
    } else if |d| == 2 {
      TwoOctets(d[0], d[1]);
    } else {
      DigitsRoundTrip(d[3..]);
      ThreeOctets(d[0], d[1], d[2], DigitsOf(d[3..]));
      assert d == [d[0], d[1], d[2]] + d[3..];
    }
  }

  // ---- encoding ----

  function Text(ds: seq<sextet>): (s: string)
    ensures |s| == |ds|
  {
    seq(|ds|, i requires 0 <= i < |ds| => UrlChar(ds[i]))
  }

  function UrlEncoded(d: bytes): (s: string)
    ensures |s| == (4 * |d| + 2) / 3
  {
    Text(DigitsOf(d))
  }

  /** The four six-bit fields of the 24-bit value of three octets. */
  method Fields(a: byte, b: byte, c: byte) returns (d0: sextet, d1: sextet, d2: sextet, d3: sextet)
    ensures d0 == a / 4 && d1 == a % 4 * 16 + b / 16 && d2 == b % 16 * 4 + c / 64 && d3 == c % 64
  {
    var value := 65536 * (a as int) + 256 * (b as int) + c;
    FieldsOf(a, b, c);
    d0, d1, d2, d3 := value / 262144 % 64, value / 4096 % 64, value / 64 % 64, value % 64;
  }

  lemma FieldsOf(a: nat, b: nat, c: nat)
    requires a < 256 && b < 256 && c < 256
    ensures var value := 65536 * a + 256 * b + c;
      && value / 262144 % 64 == a / 4 && value / 4096 % 64 == a % 4 * 16 + b / 16
      && value / 64 % 64 == b % 16 * 4 + c / 64 && value % 64 == c % 64
  {
    var value := 65536 * a + 256 * b + c;
    Digit(value, 64, 1024 * a + 4 * b + c / 64, c % 64);
    Digit(value, 4096, 16 * a + b / 16, b % 16 * 256 + c);
    Digit(value, 262144, a / 4, a % 4 * 65536 + b * 256 + c);
    Digit(1024 * a + 4 * b + c / 64, 64, 16 * a + b / 16, b % 16 * 4 + c / 64);
    Digit(16 * a + b / 16, 64, a / 4, a % 4 * 16 + b / 16);
    Digit(a / 4, 64, 0, a / 4);
  }

  lemma Digit(value: nat, base: nat, high: nat, low: nat)
    requires base > 0 && low < base && value == high * base + low
    ensures value / base == high && value % base == low
  {
    var k := value / base - high;
    assert k * base == low - value % base;
    Multiple(k, base);
  }

  lemma Multiple(k: int, base: int)
    requires base > 0
    ensures k >= 1 ==> k * base >= base
    ensures k <= -1 ==> k * base <= -base
  {
  }

  method Base64UrlEncode(data: bytes) returns (out: string)
    ensures out == UrlEncoded(data)
  {
    hide UrlChar, UrlEncoded;
    out := "";
    var size := |data|;
    var i: nat := 0;
    NoText();
    assert data[0..] == data && "" + UrlEncoded(data) == UrlEncoded(data);
    while i < size
      invariant i <= size ==> out + UrlEncoded(data[i..]) == UrlEncoded(data)
      invariant i > size ==> out == UrlEncoded(data)
      decreases size - i
    {
      GroupText(data[i..]);
      var d0, d1, d2, d3 := Fields(data[i], if i + 1 < size then data[i + 1] else 0, if i + 2 < size then data[i + 2] else 0);
      ghost var before, rest := out, if i + 3 <= size then UrlEncoded(data[i + 3..]) else "";
      out := out + [UrlChar(d0)];
      out := out + [UrlChar(d1)];
      if i + 1 < size {
        out := out + [UrlChar(d2)];
      }
      if i + 2 < size {
        out := out + [UrlChar(d3)];
        assert data[i..][3..] == data[i + 3..];
        Appended(before, UrlChar(d0), UrlChar(d1), UrlChar(d2), UrlChar(d3), rest);
      }
      i := i + 3;
    }
    assert i == size ==> data[i..] == [] && out + "" == out;
  }

  lemma Appended(before: string, c0: char, c1: char, c2: char, c3: char, rest: string)
    ensures before + [c0] + [c1] + [c2] + [c3] + rest == before + ([c0, c1, c2, c3] + rest)
  {
  }

  lemma NoText()
    ensures UrlEncoded([]) == ""
  {
  }

  lemma GroupText(d: bytes)
    requires d != []
    ensures var t := UrlEncoded(d);
      if |d| == 1 then t == [UrlChar(d[0] / 4), UrlChar(d[0] % 4 * 16)]
      else if |d| == 2 then t == [UrlChar(d[0] / 4), UrlChar(d[0] % 4 * 16 + d[1] / 16), UrlChar(d[1] % 16 * 4)]
      else t == [UrlChar(d[0] / 4), UrlChar(d[0] % 4 * 16 + d[1] / 16),
                 UrlChar(d[1] % 16 * 4 + d[2] / 64), UrlChar(d[2] % 64)] + UrlEncoded(d[3..])
  {
    hide UrlChar;
  }

  function Equals(n: nat): string { seq(n, _ => '=') }

  function Padding(n: nat): nat { (4 - n % 4) % 4 }

  /** Same digits in the standard alphabet, filled up with '=' to whole groups of four. */
  function StandardEncoded(d: bytes): (s: string)
    ensures |s| == 4 * ((|d| + 2) / 3)
  {
    PaddedLength(|d|);
    Standard(UrlEncoded(d)) + Equals(Padding(|UrlEncoded(d)|))
  }

  function Standard(t: string): (s: string)
    ensures |s| == |t|
  {
    seq(|t|, i requires 0 <= i < |t| => StandardChar(t[i]))
  }

  lemma PaddedLength(n: nat)
    ensures (4 * n + 2) / 3 + Padding((4 * n + 2) / 3) == 4 * ((n + 2) / 3)
  {
    var q, r := n / 3, n % 3;
    assert n == 3 * q + r;
    if r == 0 {
      Digit(4 * n + 2, 3, 4 * q, 2);
      Digit(n + 2, 3, q, 2);
      Digit(4 * q, 4, q, 0);
    } else if r == 1 {
      Digit(4 * n + 2, 3, 4 * q + 2, 0);
      Digit(n + 2, 3, q + 1, 0);
      Digit(4 * q + 2, 4, q, 2);
    } else {
      Digit(4 * n + 2, 3, 4 * q + 3, 1);
      Digit(n + 2, 3, q + 1, 1);
      Digit(4 * q + 3, 4, q, 3);
    }
  }

  lemma EqualsStep(n: nat)
    ensures Equals(n) + ['='] == Equals(n + 1) && |Equals(n)| == n
  {
  }

  lemma PaddingStops(m: nat, n: nat)
    requires n <= Padding(m)
    ensures (m + n) % 4 == 0 <==> n == Padding(m)
  {
  }

  /** Rewrites the URL-safe text in place. */
  method ToStandard(t: string) returns (out: string)
    ensures out == Standard(t)
  {
    out := t;
    for i := 0 to |out|
      invariant |out| == |t|
      invariant forall k | 0 <= k < i :: out[k] == StandardChar(t[k])
      invariant forall k | i <= k < |t| :: out[k] == t[k]
    {
      if out[i] == '-' {
        out := out[i := '+'];
      } else if out[i] == '_' {
        out := out[i := '/'];
      }
    }
  }

  /** Rewrites the URL-safe text and pads it. */
  method Base64Encode(data: bytes) returns (out: string)
    ensures out == StandardEncoded(data)
  {
    hide UrlEncoded, Standard, Padding, Equals;
    var t := Base64UrlEncode(data);
    out := ToStandard(t);
    ghost var body := out;
    EqualsStep(0);
    assert body + Equals(0) == body;
    ghost var n: nat := 0;
    while |out| % 4 != 0
      invariant out == body + Equals(n) && n <= Padding(|t|)
      decreases Padding(|t|) - n
    {
      PaddingStops(|t|, n);
      EqualsStep(n);
      assert body + Equals(n) + ['='] == body + Equals(n + 1);
      out := out + ['='];
      n := n + 1;
    }
    EqualsStep(n);
    PaddingStops(|t|, n);
  }

  // ---- decoding ----

  /** The digits before the first '=' or the end, blanks skipped; none if a character is foreign. */
  function Digits(text: string): Option<seq<sextet>>
  {
    if text == "" || text[0] == '=' then Some([])
    else if IsSpace(text[0]) then Digits(text[1..])
    else if DigitOf(text[0]) < 0 then None
    else match Digits(text[1..])
      case None => None
      case Some(ds) => Some([DigitOf(text[0])] + ds)
  }

  /** What the decoder returns, or nothing where it throws. */
  function Decoded(text: string): Option<bytes> {
    match Digits(text)
    case None => None
    case Some(ds) => Some(Octets8(0, 0, ds))
  }

  /** The rest of a decoding from the middle. */
  function Finish(out: bytes, p: nat, v: nat, rest: string): Option<bytes>
    requires IsPending(p) && v < Two(p)
  {
    match Digits(rest)
    case None => None
    case Some(ds) => Some(out + Octets8(p, v, ds))
  }

  /** The 32-bit accumulator wraps, but its low bits carry what is still pending. */
  lemma AccumulatorStep(value: uint32, p: nat, d: sextet)
    requires IsPending(p)
    ensures var w := value % Two(p) * 64 + d; var value' := (value * 64 + d) % TWO_TO_THE_32;
      if p == 0 then value' % 64 == w
      else value' / Two(p - 2) % 256 == w / Two(p - 2) && value' % Two(p - 2) == w % Two(p - 2)
  {
    if p == 2 {
      AccumulatorStep2(value, d);
    } else if p == 4 {
      AccumulatorStep4(value, d);
    } else if p == 6 {
      AccumulatorStep6(value, d);
    }
  }

  /** Shifting left by six drops the top six bits. */
  lemma Wrapped(value: uint32, d: sextet)
    ensures (value * 64 + d) % TWO_TO_THE_32 == value % 0x400_0000 * 64 + d
  {
    var hi, lo := value / 0x400_0000, value % 0x400_0000;
    var u: int := value * 64 + d;
    assert u == hi * TWO_TO_THE_32 + (lo * 64 + d);
    assert u / TWO_TO_THE_32 == hi;
  }

  lemma AccumulatorStep2(value: uint32, d: sextet)
    ensures (value * 64 + d) % TWO_TO_THE_32 % 256 == value % 4 * 64 + d
  {
    Wrapped(value, d);
    var lo := value % 0x400_0000;
    assert lo % 4 == value % 4;
    assert lo == 4 * (lo / 4) + lo % 4;
  }

  lemma LowPart(q: nat, w: nat)
    requires w < 1024
    ensures (1024 * q + w) / 4 % 256 == w / 4 && (1024 * q + w) % 4 == w % 4
  {
    Digit(1024 * q + w, 4, 256 * q + w / 4, w % 4);
    Digit(256 * q + w / 4, 256, q, w / 4);
  }

  lemma AccumulatorStep4(value: uint32, d: sextet)
    ensures var value' := (value * 64 + d) % TWO_TO_THE_32; var w := value % 16 * 64 + d;
      value' / 4 % 256 == w / 4 && value' % 4 == w % 4
  {
    Wrapped(value, d);
    var lo := value % 0x400_0000;
    assert lo % 16 == value % 16;
    var q := lo / 16;
    var w := lo % 16 * 64 + d;
    assert lo * 64 + d == 1024 * q + w;
    LowPart(q, w);
  }

  lemma HighPart(q: nat, w: nat)
    requires w < 4096
    ensures (4096 * q + w) / 16 % 256 == w / 16 && (4096 * q + w) % 16 == w % 16
  {
    Digit(4096 * q + w, 16, 256 * q + w / 16, w % 16);
    Digit(256 * q + w / 16, 256, q, w / 16);
  }

  lemma AccumulatorStep6(value: uint32, d: sextet)
    ensures var value' := (value * 64 + d) % TWO_TO_THE_32; var w := value % 64 * 64 + d;
      value' / 16 % 256 == w / 16 && value' % 16 == w % 16
  {
    Wrapped(value, d);
    var lo := value % 0x400_0000;
    assert lo % 64 == value % 64;
    var q, w := lo / 64, lo % 64 * 64 + d;
    assert lo * 64 + d == 4096 * q + w;
    HighPart(q, w);
  }

  method Base64UrlDecode(text: string) returns (r: Option<bytes>)
    ensures r == Decoded(text)
  {
    hide Octets8, DigitOf, IsSpace;
    var out: bytes := [];
    var value: uint32 := 0;
    var bits := -8;
    assert text[0..] == text;
    EmptyPrefix(text);
    for i := 0 to |text|
      invariant IsPending(bits + 8)
      invariant Finish(out, bits + 8, value % Two(bits + 8), text[i..]) == Decoded(text)
    {
      var ch := text[i];
      assert text[i..][1..] == text[i + 1..];
      if ch == '=' {
        FinishNow(out, bits + 8, value % Two(bits + 8), text[i..]);
        return Some(out);
      }
      if IsSpace(ch) {
        continue;
      }
      var digit := DigitOf(ch);
      if digit < 0 {
        return None;
      }
      FinishStep(out, bits + 8, value % Two(bits + 8), text[i..]);
      AccumulatorStep(value, bits + 8, digit);
      value := (value * 64 + digit) % TWO_TO_THE_32;
      bits := bits + 6;
      if bits >= 0 {
        out := out + [value / Two(bits) % 256];
        bits := bits - 8;
      }
    }
    FinishNow(out, bits + 8, value % Two(bits + 8), "");
    assert text[|text|..] == "";
    return Some(out);
  }

  lemma EmptyPrefix(text: string)
    ensures Finish([], 0, 0, text) == Decoded(text)
  {
    hide Octets8;
    if Digits(text).Some? {
      assert [] + Octets8(0, 0, Digits(text).value) == Octets8(0, 0, Digits(text).value);
    }
  }

  lemma FinishNow(out: bytes, p: nat, v: nat, rest: string)
    requires IsPending(p) && v < Two(p) && (rest == "" || rest[0] == '=')
    ensures Finish(out, p, v, rest) == Some(out)
  {
    OctetsNil(p, v);
    assert out + [] == out;
  }

  lemma FinishStep(out: bytes, p: nat, v: nat, rest: string)
    requires IsPending(p) && v < Two(p)
    requires rest != "" && rest[0] != '=' && !IsSpace(rest[0]) && DigitOf(rest[0]) >= 0
    ensures var w := v * 64 + DigitOf(rest[0]);
      Finish(out, p, v, rest) ==
      if p == 0 then Finish(out, 6, w, rest[1..])
      else Finish(out + [w / Two(p - 2)], p - 2, w % Two(p - 2), rest[1..])
  {
    hide Octets8, DigitOf, IsSpace;
    if Digits(rest[1..]).Some? {
      var ds, d := Digits(rest[1..]).value, DigitOf(rest[0]);
      OctetsCons(p, v, d, ds);
      if p != 0 {
        var w := v * 64 + d;
        var more := Octets8(p - 2, w % Two(p - 2), ds);
        assert out + ([w / Two(p - 2)] + more) == out + [w / Two(p - 2)] + more;
      }
    }
  }

  // ---- inversion ----

  lemma {:induction false} DigitsOfText(ds: seq<sextet>, tail: string)
    requires tail == "" || tail[0] == '='
    ensures Digits(Text(ds) + tail) == Some(ds)
    decreases |ds|
  {
    hide UrlChar, DigitOf, IsSpace;
    var s := Text(ds) + tail;
    if ds != [] {
      CharRoundTrip(ds[0]);
      DigitsOfText(ds[1..], tail);
      assert s[1..] == Text(ds[1..]) + tail;
      assert [ds[0]] + ds[1..] == ds;
    } else {
      assert s == tail;
    }
  }

  lemma {:induction false} DigitsOfStandard(ds: seq<sextet>, tail: string)
    requires tail == "" || tail[0] == '='
    ensures Digits(Standard(Text(ds)) + tail) == Some(ds)
    decreases |ds|
  {
    hide UrlChar, StandardChar, DigitOf, IsSpace;
    var s := Standard(Text(ds)) + tail;
    if ds != [] {
      CharRoundTrip(ds[0]);
      DigitsOfStandard(ds[1..], tail);
      assert s[1..] == Standard(Text(ds[1..])) + tail;
      assert [ds[0]] + ds[1..] == ds;
    } else {
      assert s == tail;
    }
  }

  /** Decoding inverts both encodings, for every byte string. */
  lemma DecodeEncoded(d: bytes)
    ensures Decoded(UrlEncoded(d)) == Some(d)
    ensures Decoded(StandardEncoded(d)) == Some(d)
  {
    hide Octets8, Digits, DigitsOf, Standard;
    var ds := DigitsOf(d);
    DigitsRoundTrip(d);
    DigitsOfText(ds, "");
    assert Text(ds) + "" == UrlEncoded(d);
    DigitsOfStandard(ds, Equals(Padding(|ds|)));
  }

  /** Inserting a blank anywhere changes nothing. */
  lemma {:induction false} BlanksIgnored(a: string, blank: char, b: string)
    requires IsBlankCode(blank as int)
    ensures Digits(a + [blank] + b) == Digits(a + b)
    ensures Decoded(a + [blank] + b) == Decoded(a + b)
    decreases |a|
  {
    hide DigitOf, Octets8;
    SpaceCodes(blank);
    var s, t := a + [blank] + b, a + b;
    if a == "" {
      assert s[1..] == b == t;
    } else {
      assert s[1..] == a[1..] + [blank] + b && t[1..] == a[1..] + b;
      BlanksIgnored(a[1..], blank, b);
    }
  }

  /** `k` digits decode to 6k/8 octets, rounded down. */
  lemma DecodedSize(text: string)
    requires Digits(text).Some?
    ensures Decoded(text).Some? && |Decoded(text).value| == 6 * |Digits(text).value| / 8
  {
    OctetCount(0, 0, Digits(text).value);
  }

  /** No line break occurs in an encoding. */
  lemma OneLine(d: bytes)
    ensures '\n' !in UrlEncoded(d) && '\r' !in UrlEncoded(d)
  {
    hide UrlChar, DigitOf, DigitsOf;
    var t, ds := UrlEncoded(d), DigitsOf(d);
    forall i | 0 <= i < |t| ensures t[i] != '\n' && t[i] != '\r' {
      CharRoundTrip(ds[i]);
    }
  }

  // ---- the alphabets ----

  /** Whether the character with this code stands for sextet `i` in the alphabet whose last two characters
      have the codes `plus` and `slash`: A-Z, a-z and 0-9 come first. */
  ghost predicate StandsFor(code: int, i: sextet, plus: int, slash: int) {
    if i < 26 then code == 65 + i
    else if i < 52 then code == 71 + i
    else if i < 62 then code == i - 4
    else code == if i == 62 then plus else slash
  }

  /** The digits are those of sections 4 and 5 of RFC 4648 by character code: 43 and 47 in the standard
      alphabet, 45 and 95 in the one for URLs. */
  lemma Alphabets(i: sextet)
    ensures StandsFor(UrlChar(i) as int, i, 45, 95)
    ensures StandsFor(StandardChar(UrlChar(i)) as int, i, 43, 47)
  {
  }

  /** A-Z, a-z, 0-9, '+', '-', '/' and '_', by code. */
  ghost predicate IsDigitCode(code: int) {
    65 <= code <= 90 || 97 <= code <= 122 || 48 <= code <= 57 || code == 43 || code == 45 || code == 47 || code == 95
  }

  /** Both alphabets are read, and no other character is. */
  lemma DigitCodes(c: char, i: sextet)
    ensures DigitOf(c) == i <==> StandsFor(c as int, i, 45, 95) || StandsFor(c as int, i, 43, 47)
    ensures DigitOf(c) >= 0 <==> IsDigitCode(c as int)
  {
  }

  /** Any other character before the first '=' makes the whole text invalid. */
  lemma {:induction false} ForeignRefused(a: string, c: char, b: string)
    requires '=' !in a && c as int != 61 && !IsBlankCode(c as int) && !IsDigitCode(c as int)
    ensures Decoded(a + [c] + b) == None
  {
    hide DigitOf, Octets8;
    DigitCodes(c, 0);
    SpaceCodes(c);
    NoDigits(a, c, b);
  }

  lemma {:induction false} NoDigits(a: string, c: char, b: string)
    requires '=' !in a && c != '=' && !IsSpace(c) && DigitOf(c) < 0
    ensures Digits(a + [c] + b) == None
    decreases |a|
  {
    hide DigitOf;
    var s := a + [c] + b;
    if a == "" {
      assert s[0] == c;
    } else {
      assert s[1..] == a[1..] + [c] + b;
      NoDigits(a[1..], c, b);
    }
  }

  /** Nothing after the first '=' is read. */
  lemma {:induction false} PaddingEnds(a: string, b: string)
    ensures Decoded(a + "=" + b) == Decoded(a + "=")
    ensures Digits(a + "=" + b) == Digits(a + "=")
    decreases |a|
  {
    hide DigitOf, Octets8;
    var s, t := a + "=" + b, a + "=";
    if a == "" {
      assert s[0] == '=' && t[0] == '=';
    } else {
      assert s[1..] == a[1..] + "=" + b && t[1..] == a[1..] + "=";
      PaddingEnds(a[1..], b);
    }
  }

  /** Test vectors of RFC 4648 section 10. */
  lemma KnownTexts()
    ensures StandardEncoded([0x66]) == "Zg==" && UrlEncoded([0x66]) == "Zg"
    ensures StandardEncoded([0x66, 0x6F]) == "Zm8="
  {
    hide UrlEncoded;
    GroupText([0x66]);
    GroupText([0x66, 0x6F]);
    assert Equals(2) == "==" && Equals(1) == "=";
  }

  lemma KnownGroup()
    ensures StandardEncoded([0x66, 0x6F, 0x6F]) == "Zm9v"
  {
    hide UrlEncoded;
    var d: bytes := [0x66, 0x6F, 0x6F];
    GroupText(d);
    NoText();
    assert d[3..] == [];
    assert Equals(0) == "";
  }
}
