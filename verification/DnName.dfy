/** Distinguished names: GetDnTypeAndValue, SetDnTypeAndValue and HITLS_APP_CFG_ProcDnName of app_conf.c. */
module DnName {
  import opened Octets
  import opened Strings

  datatype Status = Success | InvalidArg | InvalidDnValue | AddFailed

  /** One type and value. */
  datatype Ava = Ava(kind: string, value: string)

  type Rdn = seq<Ava>

  /** What the parser returned and the lists it handed to the callback. */
  datatype Outcome = Outcome(status: Status, calls: seq<Rdn>)

  // ---- one type and value ----

  function TypeEnd(str: string, p: nat): (e: nat)
    requires p <= |str|
    ensures p <= e <= |str| && (forall k | p <= k < e :: str[k] != '=') && (e < |str| ==> str[e] == '=')
    decreases |str| - p
  {
    if p == |str| || str[p] == '=' then p else TypeEnd(str, p + 1)
  }

  predicate EndsValue(str: string, p: nat)
    requires p <= |str|
  {
    p == |str| || str[p] == '/' || str[p] == '+'
  }

  /** A value without its escapes, where it ends, and how many escapes it had. */
  datatype Scan = BadEscape | Scan(value: string, next: nat, escapes: nat)

  function ScanValue(str: string, p: nat): (r: Scan)
    requires p <= |str|
    ensures r.Scan? ==> p <= r.next <= |str| && EndsValue(str, r.next)
    ensures r.Scan? ==> r.next - p == |r.value| + r.escapes && r.escapes <= |r.value|
    decreases |str| - p
  {
    if EndsValue(str, p) then Scan("", p, 0)
    else if str[p] == '\\' then
      if p + 1 == |str| then BadEscape
      else match ScanValue(str, p + 2)
        case BadEscape => BadEscape
        case Scan(value, next, escapes) => Scan([str[p + 1]] + value, next, escapes + 1)
    else match ScanValue(str, p + 1)
      case BadEscape => BadEscape
      case Scan(value, next, escapes) => Scan([str[p]] + value, next, escapes)
  }

  datatype Piece = BadPiece | Piece(kind: string, value: string, next: nat, plus: bool)

  /** The piece at `p`. A value that ends the text is not terminated anew in the copy it was written
      to, so it goes on with as many of the text's last characters as it had escapes. */
  function PieceAt(str: string, p: nat): (r: Piece)
    requires p <= |str|
    ensures r.Piece? ==> p < r.next <= |str| && EndsValue(str, r.next)
    ensures r.Piece? ==> (r.plus <==> r.next < |str| && str[r.next] == '+')
  {
    var e := TypeEnd(str, p);
    if e == |str| then BadPiece
    else match ScanValue(str, e + 1)
      case BadEscape => BadPiece
      case Scan(value, next, escapes) =>
        var leftover := if next < |str| then "" else str[|str| - escapes..];
        Piece(str[p..e], value + leftover, next, next < |str| && str[next] == '+')
  }

  /** The C string at `start`. */
  function TextAt(buffer: seq<char>, start: nat): string
    requires start <= |buffer|
    decreases |buffer| - start
  {
    if start == |buffer| || buffer[start] == '\0' then "" else [buffer[start]] + TextAt(buffer, start + 1)
  }

  lemma {:induction false} TextIs(buffer: seq<char>, start: nat, text: string)
    requires start + |text| < |buffer| && buffer[start..start + |text|] == text && '\0' !in text
    requires buffer[start + |text|] == '\0'
    ensures TextAt(buffer, start) == text
    decreases |text|
  {
    if text != "" {
      assert buffer[start] == text[0];
      assert buffer[start + 1..start + 1 + |text[1..]|] == buffer[start..start + |text|][1..] == text[1..];
      TextIs(buffer, start + 1, text[1..]);
      assert text == [text[0]] + text[1..];
    }
  }

  function Prefixed(value: string, escapes: nat, rest: Scan): Scan {
    match rest
    case BadEscape => BadEscape
    case Scan(v, next, k) => Scan(value + v, next, escapes + k)
  }

  /** One character more of the value. */
  lemma PrefixedStep(str: string, p: nat, value: string, escapes: nat)
    requires p < |str| && !EndsValue(str, p)
    ensures var q := if str[p] == '\\' then p + 1 else p;
      Prefixed(value, escapes, ScanValue(str, p)) ==
        if q == |str| then BadEscape
        else Prefixed(value + [str[q]], escapes + (q - p), ScanValue(str, q + 1))
  {
    var q := if str[p] == '\\' then p + 1 else p;
    if q < |str| && ScanValue(str, q + 1).Scan? {
      var v := ScanValue(str, q + 1).value;
      assert value + ([str[q]] + v) == value + [str[q]] + v;
    }
  }

  /** From `t` on, `tmp` is the text from `start` on, with its NUL. */
  ghost predicate CopiedFrom(tmp: array<char>, str: CString, start: nat, t: nat)
    requires start <= |str|
    reads tmp
  {
    tmp.Length == |str| - start + 1 && forall j | t <= j < tmp.Length :: tmp[j] == At(str, start + j)
  }

  /** Writes the value that begins at `first` over the copy it is read from. */
  method Unescape(str: CString, start: nat, tmp: array<char>, first: nat) returns (ok: bool, next: nat, t: nat)
    requires start + first <= |str| && CopiedFrom(tmp, str, start, first)
    modifies tmp
    ensures CopiedFrom(tmp, str, start, t)
    ensures match ScanValue(str, start + first)
      case BadEscape => !ok
      case Scan(value, end, escapes) =>
        ok && next == end && t == first + |value| < tmp.Length && tmp[first..t] == value
  {
    hide ScanValue, Prefixed;
    var p: nat := start + first;
    t := first;
    ghost var value, escapes: nat := "", 0;
    NothingPrefixed(ScanValue(str, p));
    while p < |str| && str[p] != '/' && str[p] != '+'
      invariant t == first + |value| == p - start - escapes && p <= |str|
      invariant CopiedFrom(tmp, str, start, t) && forall j | 0 <= j < |value| :: tmp[first + j] == value[j]
      invariant Prefixed(value, escapes, ScanValue(str, p)) == ScanValue(str, start + first)
      decreases |str| - p
    {
      PrefixedStep(str, p, value, escapes);
      if str[p] == '\\' {
        p := p + 1;
        if p == |str| {
          return false, p, t;
        }
        escapes := escapes + 1;
      }
      tmp[t] := str[p];
      value := value + [str[p]];
      t, p := t + 1, p + 1;
    }
    assert tmp[first..t] == value;
    ScanEnds(str, p, value, escapes);
    return true, p, t;
  }

  lemma ScanEnds(str: string, p: nat, value: string, escapes: nat)
    requires p <= |str| && EndsValue(str, p)
    ensures Prefixed(value, escapes, ScanValue(str, p)) == Scan(value, p, escapes)
  {
    assert value + "" == value;
  }

  lemma NothingPrefixed(s: Scan)
    ensures Prefixed("", 0, s) == s
  {
    assert s.Scan? ==> "" + s.value == s.value;
  }

  /** BSL_SAL_Dump of the rest of the text with its NUL. */
  method Dump(str: CString, p: nat) returns (copy: array<char>)
    requires p <= |str|
    ensures fresh(copy) && CopiedFrom(copy, str, p, 0)
  {
    copy := new char[|str| - p + 1](i requires 0 <= i <= |str| - p => At(str, p + i));
  }

  /** Copies the type, which changes nothing, and ends it. */
  method CopyType(str: CString, start: nat) returns (tmp: array<char>, p: nat)
    requires start < |str|
    ensures fresh(tmp) && start <= p == TypeEnd(str, start) && CopiedFrom(tmp, str, start, p - start + 1)
    ensures tmp[..p - start] == str[start..p] && tmp[p - start] == '\0'
  {
    tmp := Dump(str, start);
    p := start;
    var t: nat := 0;
    while p < |str| && str[p] != '='
      invariant start <= p <= |str| && t == p - start && CopiedFrom(tmp, str, start, 0)
      invariant forall k | start <= k < p :: str[k] != '='
    {
      tmp[t] := str[p];
      t, p := t + 1, p + 1;
    }
    TypeEndIs(str, start, p);
    assert tmp[..t] == str[start..p];
    tmp[t] := '\0';
    assert tmp[..t] == str[start..p];
  }

  lemma {:induction false} TypeEndIs(str: string, p: nat, e: nat)
    requires p <= e <= |str| && (forall k | p <= k < e :: str[k] != '=') && (e == |str| || str[e] == '=')
    ensures TypeEnd(str, p) == e
    decreases e - p
  {
    if p < e {
      TypeEndIs(str, p + 1, e);
    }
  }

  method GetDnTypeAndValue(str: CString, start: nat) returns (r: Piece)
    requires start < |str|
    ensures r == PieceAt(str, start)
  {
    hide ScanValue, TextAt;
    var tmp, p := CopyType(str, start);
    if p == |str| {
      return BadPiece;
    }
    var valueStart := p - start + 1;
    var kind := tmp[..p - start];
    var ok, next, t := Unescape(str, start, tmp, valueStart);
    if !ok {
      return BadPiece;
    }
    if next < |str| {
      tmp[t] := '\0';
    }
    ValueInCopy(str, p + 1, tmp[..], valueStart, t);
    return Piece(kind, TextAt(tmp[..], valueStart), next, next < |str| && str[next] == '+');
  }

  lemma {:induction false} ScanHasNoNul(str: CString, p: nat)
    requires p <= |str|
    ensures ScanValue(str, p).Scan? ==> '\0' !in ScanValue(str, p).value
    decreases |str| - p
  {
    if !EndsValue(str, p) {
      var q := if str[p] == '\\' then p + 1 else p;
      if q < |str| {
        ScanHasNoNul(str, q + 1);
      }
    }
  }

  /** The C string that the value and what follows it in the copy make up. */
  lemma ValueInCopy(str: CString, p: nat, buffer: seq<char>, valueStart: nat, t: nat)
    requires valueStart <= p <= |str| && ScanValue(str, p).Scan?
    requires |buffer| == |str| - (p - valueStart) + 1
    requires var s := ScanValue(str, p);
      && t == valueStart + |s.value| < |buffer| && buffer[valueStart..t] == s.value
      && (if s.next < |str| then buffer[t] == '\0'
          else forall j | t <= j < |buffer| :: buffer[j] == At(str, p - valueStart + j))
    ensures var s := ScanValue(str, p);
      TextAt(buffer, valueStart) == s.value + (if s.next < |str| then "" else str[|str| - s.escapes..])
  {
    hide TextAt;
    var s := ScanValue(str, p);
    ScanHasNoNul(str, p);
    if s.next < |str| {
      TextIs(buffer, valueStart, s.value);
      assert s.value + "" == s.value;
    } else {
      var leftover := str[|str| - s.escapes..];
      assert p - valueStart + t == |str| - s.escapes;
      assert buffer[valueStart..|buffer| - 1] == s.value + leftover;
      TextIs(buffer, valueStart, s.value + leftover);
    }
  }

  // ---- a whole name ----

  /** One list at the end of a name, if it holds anything. */
  function Flush(accepts: nat -> bool, list: Option<Rdn>, calls: seq<Rdn>): Outcome {
    if list.None? || list.value == [] then Outcome(Success, calls)
    else Outcome(if accepts(|calls|) then Success else AddFailed, calls + [list.value])
  }

  /** The name from `p` on. `known` are the types with a short name; `accepts(n)` is what the callback
      answers to call `n`. */
  function ProcFrom(str: string, known: string -> bool, accepts: nat -> bool,
                    p: nat, list: Option<Rdn>, isMultiVal: bool, calls: seq<Rdn>): Outcome
    requires p <= |str| && (isMultiVal ==> list.Some?)
    decreases |str| - p
  {
    if p == |str| then Flush(accepts, list, calls)
    else
      var pending := if isMultiVal then list.value else [];
      if p + 1 == |str| then ProcFrom(str, known, accepts, p + 1, Some(pending), isMultiVal, calls)
      else match PieceAt(str, p + 1)
        case BadPiece => Outcome(InvalidDnValue, calls)
        case Piece(kind, value, next, plus) =>
          if !known(kind) || value == "" then
            ProcFrom(str, known, accepts, next, Some(pending), isMultiVal || plus, calls)
          else
            var rdn := pending + [Ava(kind, value)];
            if plus then ProcFrom(str, known, accepts, next, Some(rdn), true, calls)
            else if !accepts(|calls|) then Outcome(AddFailed, calls + [rdn])
            else ProcFrom(str, known, accepts, next, None, false, calls + [rdn])
  }

  function Proc(str: string, known: string -> bool, accepts: nat -> bool): Outcome {
    if |str| <= 1 || str[0] != '/' then Outcome(InvalidArg, [])
    else ProcFrom(str, known, accepts, 0, None, false, [])
  }

  /** The name to store, or nothing if the type is unknown or the value empty. */
  method SetDnTypeAndValue(known: string -> bool, kind: string, value: string) returns (name: Option<Ava>)
    ensures name.Some? <==> IsKept(Ava(kind, value), known)
    ensures name.Some? ==> name.value == Ava(kind, value)
  {
    if !known(kind) {
      return None;
    }
    if |value| == 0 {
      return None;
    }
    return Some(Ava(kind, value));
  }

  method ProcDnName(nameStr: CString, known: string -> bool, accepts: nat -> bool)
    returns (status: Status, calls: seq<Rdn>)
    ensures Outcome(status, calls) == Proc(nameStr, known, accepts)
  {
    hide PieceAt;
    calls := [];
    if |nameStr| <= 1 || nameStr[0] != '/' {
      return InvalidArg, calls;
    }
    var dnNameList: Option<Rdn> := None;
    var p: nat := 0;
    var isMultiVal := false;
    while p < |nameStr|
      invariant p <= |nameStr| && (isMultiVal ==> dnNameList.Some?)
      invariant ProcFrom(nameStr, known, accepts, p, dnNameList, isMultiVal, calls) == Proc(nameStr, known, accepts)
      decreases |nameStr| - p
    {
      p := p + 1;
      if !isMultiVal {
        dnNameList := Some([]);
      }
      if p == |nameStr| {
        continue;
      }
      var piece := GetDnTypeAndValue(nameStr, p);
      if piece.BadPiece? {
        return InvalidDnValue, calls;
      }
      p := piece.next;
      isMultiVal := isMultiVal || piece.plus;
      var name := SetDnTypeAndValue(known, piece.kind, piece.value);
      if name.None? {
        continue;
      }
      dnNameList := Some(dnNameList.value + [name.value]);
      if p == |nameStr| || nameStr[p] == '/' {
        var ok := accepts(|calls|);
        calls := calls + [dnNameList.value];
        dnNameList := None;
        if !ok {
          return AddFailed, calls;
        }
        isMultiVal := false;
      }
    }
    if dnNameList.Some? && dnNameList.value != [] {
      var ok := accepts(|calls|);
      calls := calls + [dnNameList.value];
      return if ok then Success else AddFailed, calls;
    }
    return Success, calls;
  }

  // ---- names that are refused ----

  lemma {:induction false} NeverInvalidArg(str: string, known: string -> bool, accepts: nat -> bool,
                                           p: nat, list: Option<Rdn>, isMultiVal: bool, calls: seq<Rdn>)
    requires p <= |str| && (isMultiVal ==> list.Some?)
    ensures ProcFrom(str, known, accepts, p, list, isMultiVal, calls).status != InvalidArg
    decreases |str| - p
  {
    hide PieceAt;
    if p < |str| {
      var pending := if isMultiVal then list.value else [];
      if p + 1 == |str| {
        NeverInvalidArg(str, known, accepts, p + 1, Some(pending), isMultiVal, calls);
      } else if PieceAt(str, p + 1).Piece? {
        var piece := PieceAt(str, p + 1);
        var rdn := pending + [Ava(piece.kind, piece.value)];
        NeverInvalidArg(str, known, accepts, piece.next, Some(pending), isMultiVal || piece.plus, calls);
        NeverInvalidArg(str, known, accepts, piece.next, Some(rdn), true, calls);
        NeverInvalidArg(str, known, accepts, piece.next, None, false, calls + [rdn]);
      }
    }
  }

  /** A name is an invalid argument exactly when it has fewer than two characters or does not begin with
      the character of code 47; the callback then sees nothing. */
  lemma RefusedIff(str: string, known: string -> bool, accepts: nat -> bool)
    ensures Proc(str, known, accepts).status == InvalidArg <==> |str| < 2 || str[0] as int != 47
    ensures |str| < 2 || str[0] as int != 47 ==> Proc(str, known, accepts).calls == []
  {
    hide ProcFrom;
    NeverInvalidArg(str, known, accepts, 0, None, false, []);
  }

  /** The first part of a name without an equals sign, code 61, is an invalid value. */
  lemma NoEqualsSign(text: string, known: string -> bool, accepts: nat -> bool)
    requires text != "" && forall i | 0 <= i < |text| :: text[i] as int != 61
    ensures Proc("/" + text, known, accepts) == Outcome(InvalidDnValue, [])
  {
    var str := "/" + text;
    TypeEndIs(str, 1, |str|);
    assert PieceAt(str, 1) == BadPiece;
  }

  /** So is a value that ends in the middle of an escape. */
  lemma OpenEscape(kind: string, value: string, known: string -> bool, accepts: nat -> bool)
    requires '=' !in kind
    ensures Proc("/" + kind + "=" + Escape(value) + "\\", known, accepts) == Outcome(InvalidDnValue, [])
  {
    hide ScanValue, Escape;
    var str := "/" + kind + "=" + Escape(value) + "\\";
    var e := 1 + |kind|;
    forall k | 1 <= k < e ensures str[k] != '=' {
      assert str[k] == kind[k - 1];
    }
    TypeEndIs(str, 1, e);
    assert str[e + 1..e + 1 + |Escape(value)|] == Escape(value);
    ScanOpenEscape(str, e + 1, value);
    assert PieceAt(str, 1) == BadPiece;
  }

  lemma {:induction false} ScanOpenEscape(str: string, p: nat, value: string)
    requires Has(str, p, Escape(value)) && p + |Escape(value)| + 1 == |str| && str[|str| - 1] == '\\'
    ensures ScanValue(str, p) == BadEscape
    decreases |value|
  {
    hide ScanValue, Escape, Has, EscapeChar;
    EscapeUnfold(value);
    if value == "" {
      ScanBare(str, p);
    } else {
      var n := |EscapeChar(value[0])|;
      EscapeParts(str, p, value);
      ScanOpenEscape(str, p + n, value[1..]);
      ScanEscapedBad(str, p, value[0]);
    }
  }

  lemma ScanBare(str: string, p: nat)
    requires p + 1 == |str| && str[p] == '\\'
    ensures ScanValue(str, p) == BadEscape
  {
  }

  lemma ScanEscapedBad(str: string, p: nat, c: char)
    requires Has(str, p, EscapeChar(c)) && ScanValue(str, p + |EscapeChar(c)|) == BadEscape
    ensures ScanValue(str, p) == BadEscape
  {
    hide Has;
    var head := EscapeChar(c);
    HasChar(str, p, head, 0);
    HasChar(str, p, head, |head| - 1);
  }

  // ---- printing ----

  predicate NeedsEscape(c: char) { c == '/' || c == '+' || c == '\\' }

  function Escape(value: string): string {
    if value == "" then ""
    else EscapeChar(value[0]) + Escape(value[1..])
  }

  function EscapeChar(c: char): string { if NeedsEscape(c) then ['\\', c] else [c] }

  function Escapes(value: string): nat {
    if value == "" then 0 else (if NeedsEscape(value[0]) then 1 else 0) + Escapes(value[1..])
  }

  predicate IsPlain(value: string) { forall i | 0 <= i < |value| :: !NeedsEscape(value[i]) }

  lemma {:induction false} EscapeSize(value: string)
    ensures |Escape(value)| == |value| + Escapes(value) && Escapes(value) <= |value|
    ensures Escapes(value) == 0 <==> IsPlain(value)
  {
    if value != "" {
      EscapeSize(value[1..]);
      assert value == [value[0]] + value[1..];
    }
  }

  function PrintAva(a: Ava): string { a.kind + "=" + Escape(a.value) }

  function PrintRdn(rdn: Rdn): string
    requires rdn != []
  {
    if |rdn| == 1 then PrintAva(rdn[0]) else PrintAva(rdn[0]) + "+" + PrintRdn(rdn[1..])
  }

  /** /T=V+T=V/T=V... */
  function Print(name: seq<Rdn>): string
    requires AreRdns(name)
  {
    if name == [] then "" else "/" + PrintRdn(name[0]) + Print(name[1..])
  }

  predicate AreRdns(name: seq<Rdn>) { forall i | 0 <= i < |name| :: name[i] != [] }

  predicate IsAva(a: Ava, known: string -> bool) {
    known(a.kind) && '=' !in a.kind && a.value != ""
  }

  predicate IsRdn(rdn: Rdn, known: string -> bool) {
    rdn != [] && forall i | 0 <= i < |rdn| :: IsAva(rdn[i], known)
  }

  predicate IsName(name: seq<Rdn>, known: string -> bool) {
    forall i | 0 <= i < |name| :: IsRdn(name[i], known)
  }

  // ---- a printed type and value is read back ----

  /** `x` stands in the text at `p`. */
  predicate Has(str: string, p: nat, x: string) { p + |x| <= |str| && str[p..p + |x|] == x }

  lemma HasParts(str: string, p: nat, x: string, y: string)
    requires Has(str, p, x + y)
    ensures Has(str, p, x) && Has(str, p + |x|, y)
  {
    SliceParts(str, p, p + |x + y|, x, y, []);
  }

  lemma HasChar(str: string, p: nat, x: string, k: nat)
    requires Has(str, p, x) && k < |x|
    ensures p + k < |str| && str[p + k] == x[k]
  {
    assert str[p..p + |x|][k] == x[k];
  }

  lemma ScanNone(str: string, p: nat)
    requires p <= |str| && EndsValue(str, p)
    ensures ScanValue(str, p) == Scan("", p, 0)
  {
  }

  lemma ScanOne(str: string, p: nat)
    requires p < |str| && !EndsValue(str, p) && (str[p] == '\\' ==> p + 1 < |str|)
    ensures var q := if str[p] == '\\' then p + 1 else p;
      ScanValue(str, q + 1).Scan? ==>
        var s := ScanValue(str, q + 1);
        ScanValue(str, p) == Scan([str[q]] + s.value, s.next, s.escapes + (q - p))
  {
  }

  lemma ScanEscapedChar(str: string, p: nat, c: char)
    requires Has(str, p, EscapeChar(c))
    ensures var n := |EscapeChar(c)|;
      1 <= n && (ScanValue(str, p + n).Scan? ==>
        var s := ScanValue(str, p + n);
        ScanValue(str, p) == Scan([c] + s.value, s.next, s.escapes + n - 1))
  {
    hide ScanValue, Has;
    var head := EscapeChar(c);
    HasChar(str, p, head, 0);
    HasChar(str, p, head, |head| - 1);
    ScanOne(str, p);
  }

  lemma EscapeUnfold(value: string)
    ensures Escape(value) == if value == "" then "" else EscapeChar(value[0]) + Escape(value[1..])
    ensures Escapes(value) == if value == "" then 0 else |EscapeChar(value[0])| - 1 + Escapes(value[1..])
  {
  }

  /** One character, given the rest. */
  lemma ScanEscapedStep(str: string, p: nat, value: string, e: nat)
    requires value != "" && Has(str, p, EscapeChar(value[0]))
    requires ScanValue(str, p + |EscapeChar(value[0])|) == Scan(value[1..], e, Escapes(value[1..]))
    ensures ScanValue(str, p) == Scan(value, e, Escapes(value))
  {
    hide ScanValue, Escape, Escapes, Has, EscapeChar;
    EscapeUnfold(value);
    ScanEscapedChar(str, p, value[0]);
    assert value == [value[0]] + value[1..];
  }

  lemma EscapeParts(str: string, p: nat, value: string)
    requires value != "" && Has(str, p, Escape(value))
    ensures var n := |EscapeChar(value[0])|;
      && Has(str, p, EscapeChar(value[0])) && Has(str, p + n, Escape(value[1..]))
      && n + |Escape(value[1..])| == |Escape(value)|
  {
    hide Escape, Escapes, Has, EscapeChar;
    EscapeUnfold(value);
    HasParts(str, p, EscapeChar(value[0]), Escape(value[1..]));
  }

  lemma {:induction false} ScanEscaped(str: string, p: nat, value: string, e: nat)
    requires e == p + |Escape(value)| <= |str| && Has(str, p, Escape(value)) && EndsValue(str, e)
    ensures ScanValue(str, p) == Scan(value, e, Escapes(value))
    decreases |value|
  {
    hide ScanValue, Has, EscapeChar, Escape, Escapes, EndsValue;
    if value == "" {
      EscapeUnfold(value);
      ScanNone(str, p);
    } else {
      EscapeParts(str, p, value);
      var rest := value[1..];
      ScanEscaped(str, p + |EscapeChar(value[0])|, rest, e);
      ScanEscapedStep(str, p, value, e);
    }
  }

  lemma TypeEndOf(str: string, p: nat, kind: string)
    requires Has(str, p, kind) && Has(str, p + |kind|, "=") && '=' !in kind
    ensures TypeEnd(str, p) == p + |kind|
  {
    HasChar(str, p + |kind|, "=", 0);
    forall k | p <= k < p + |kind| ensures str[k] != '=' {
      HasChar(str, p, kind, k - p);
    }
  }

  /** The last characters a value ending the text drags along. */
  function Leftover(value: string): string {
    EscapeSize(value);
    Escape(value)[|Escape(value)| - Escapes(value)..]
  }

  lemma LastOf(str: string, p: nat, x: string, k: nat)
    requires Has(str, p, x) && p + |x| == |str| && k <= |x|
    ensures str[|str| - k..] == x[|x| - k..]
  {
    assert str[p..p + |x|][|x| - k..] == str[|str| - k..];
  }

  function ReadBack(a: Ava, last: bool): Ava { if last then a.(value := a.value + Leftover(a.value)) else a }

  lemma PieceOfPrinted(str: string, p: nat, a: Ava)
    requires Has(str, p, PrintAva(a)) && EndsValue(str, p + |PrintAva(a)|) && '=' !in a.kind
    ensures var next := p + |PrintAva(a)|;
      var b := ReadBack(a, next == |str|);
      PieceAt(str, p) == Piece(b.kind, b.value, next, next < |str| && str[next] == '+')
  {
    hide ScanValue, TypeEnd, Escape, Escapes, EndsValue, Has;
    var escaped, e := Escape(a.value), p + |a.kind|;
    HasParts(str, p, a.kind + "=", escaped);
    HasParts(str, p, a.kind, "=");
    TypeEndOf(str, p, a.kind);
    ScanEscaped(str, e + 1, a.value, e + 1 + |escaped|);
    EscapeSize(a.value);
    if e + 1 + |escaped| == |str| {
      LastOf(str, e + 1, escaped, Escapes(a.value));
    } else {
      assert a.value + "" == a.value;
    }
  }

  // ---- a printed name is read back ----

  /** What the callback sees: the lists in order, up to the first it rejects. */
  function Delivered(name: seq<Rdn>, accepts: nat -> bool, calls: seq<Rdn>): Outcome
    decreases |name|
  {
    if name == [] then Outcome(Success, calls)
    else if !accepts(|calls|) then Outcome(AddFailed, calls + [name[0]])
    else Delivered(name[1..], accepts, calls + [name[0]])
  }

  /** A relative name as it is read back: with what a last value drags along. */
  function RdnReadBack(rdn: Rdn, last: bool): Rdn
    requires rdn != []
  {
    rdn[..|rdn| - 1] + [ReadBack(rdn[|rdn| - 1], last)]
  }

  function NameReadBack(name: seq<Rdn>): seq<Rdn>
    requires AreRdns(name)
  {
    if name == [] then [] else [RdnReadBack(name[0], |name| == 1)] + NameReadBack(name[1..])
  }

  // ---- skipped types and values ----

  predicate IsKept(a: Ava, known: string -> bool) { known(a.kind) && a.value != "" }

  function Kept(rdn: Rdn, known: string -> bool): Rdn {
    if rdn == [] then [] else (if IsKept(rdn[0], known) then [rdn[0]] else []) + Kept(rdn[1..], known)
  }

  predicate EndsKept(rdn: Rdn, known: string -> bool) { rdn != [] && IsKept(rdn[|rdn| - 1], known) }

  /** The lists that reach the callback, `pending` not yet handed on: a list is handed on where a
      relative name ends with something kept, and otherwise stays for the next. */
  function Grouped(pending: Rdn, name: seq<Rdn>, known: string -> bool): seq<Rdn>
    decreases |name|
  {
    if name == [] then (if pending == [] then [] else [pending])
    else
      var rdn := pending + Kept(name[0], known);
      if EndsKept(name[0], known) then [rdn] + Grouped([], name[1..], known) else Grouped(rdn, name[1..], known)
  }

  /** The run at `p` with `pending` in the list. */
  function Going(str: string, known: string -> bool, accepts: nat -> bool, p: nat, pending: Rdn, calls: seq<Rdn>): Outcome
    requires p <= |str|
  {
    ProcFrom(str, known, accepts, p, Some(pending), pending != [], calls)
  }

  /** With an empty list the flag makes no difference. */
  lemma {:induction false} FlagOnEmptyList(str: string, known: string -> bool, accepts: nat -> bool, p: nat, calls: seq<Rdn>)
    requires p <= |str|
    ensures ProcFrom(str, known, accepts, p, Some([]), true, calls) == ProcFrom(str, known, accepts, p, Some([]), false, calls)
    decreases |str| - p
  {
    hide PieceAt;
    if p + 1 == |str| {
      FlagOnEmptyList(str, known, accepts, p + 1, calls);
    } else if p < |str| && PieceAt(str, p + 1).Piece? {
      FlagOnEmptyList(str, known, accepts, PieceAt(str, p + 1).next, calls);
    }
  }

  /** Nor does a list that was freed. */
  lemma FreshList(str: string, known: string -> bool, accepts: nat -> bool, p: nat, calls: seq<Rdn>)
    requires p <= |str|
    ensures ProcFrom(str, known, accepts, p, None, false, calls) == Going(str, known, accepts, p, [], calls)
  {
    hide PieceAt;
  }

  /** One more type and value of a relative name. */
  lemma ParseAva(str: string, known: string -> bool, accepts: nat -> bool,
                 p: nat, pending: Rdn, a: Ava, calls: seq<Rdn>)
    requires '=' !in a.kind && Has(str, p + 1, PrintAva(a)) && EndsValue(str, p + 1 + |PrintAva(a)|)
    ensures var next := p + 1 + |PrintAva(a)|;
      var b := ReadBack(a, next == |str|);
      Going(str, known, accepts, p, pending, calls) ==
        if !IsKept(b, known) then Going(str, known, accepts, next, pending, calls)
        else if next < |str| && str[next] == '+' then Going(str, known, accepts, next, pending + [b], calls)
        else if !accepts(|calls|) then Outcome(AddFailed, calls + [pending + [b]])
        else Going(str, known, accepts, next, [], calls + [pending + [b]])
  {
    hide PieceAt, PrintAva, ReadBack, Has;
    PrintAvaSize(a);
    HasChar(str, p + 1, PrintAva(a), 0);
    PieceOfPrinted(str, p + 1, a);
    var next := p + 1 + |PrintAva(a)|;
    FlagOnEmptyList(str, known, accepts, next, calls);
    var b := ReadBack(a, next == |str|);
    FreshList(str, known, accepts, next, calls + [pending + [b]]);
  }

  lemma PrintAvaSize(a: Ava)
    ensures |PrintAva(a)| >= 1
  {
  }

  lemma NotLast(a: Ava)
    ensures ReadBack(a, false) == a
  {
  }

  predicate AreKinds(rdn: Rdn) { forall i | 0 <= i < |rdn| :: '=' !in rdn[i].kind }

  lemma ReadBackUnfold(avas: Rdn, last: bool, known: string -> bool)
    requires |avas| > 1
    ensures var rdn, rest := RdnReadBack(avas, last), RdnReadBack(avas[1..], last);
      && Kept(rdn, known) == (if IsKept(avas[0], known) then [avas[0]] else []) + Kept(rest, known)
      && (EndsKept(rdn, known) <==> EndsKept(rest, known))
  {
    hide ReadBack, IsKept;
    var rdn, rest := RdnReadBack(avas, last), RdnReadBack(avas[1..], last);
    assert rdn == [avas[0]] + rest;
  }

  lemma ReadBackSingle(a: Ava, last: bool, known: string -> bool)
    ensures var rdn, b := RdnReadBack([a], last), ReadBack(a, last);
      && Kept(rdn, known) == (if IsKept(b, known) then [b] else [])
      && (EndsKept(rdn, known) <==> IsKept(b, known))
  {
    hide ReadBack, IsKept;
    assert RdnReadBack([a], last) == [ReadBack(a, last)];
    assert Kept([], known) == [];
  }

  /** The rest `avas` of a relative name whose first part left `pending`. */
  lemma {:induction false} ParseRdn(str: string, known: string -> bool, accepts: nat -> bool,
                                    p: nat, pending: Rdn, avas: Rdn, calls: seq<Rdn>)
    requires avas != [] && AreKinds(avas) && Has(str, p + 1, PrintRdn(avas))
    requires var end := p + 1 + |PrintRdn(avas)|; end == |str| || str[end] == '/'
    ensures var end := p + 1 + |PrintRdn(avas)|;
      var rdn := RdnReadBack(avas, end == |str|);
      var list := pending + Kept(rdn, known);
      Going(str, known, accepts, p, pending, calls) ==
        if !EndsKept(rdn, known) then Going(str, known, accepts, end, list, calls)
        else if !accepts(|calls|) then Outcome(AddFailed, calls + [list])
        else Going(str, known, accepts, end, [], calls + [list])
    decreases |avas|
  {
    hide Going, PrintAva, ReadBack, Has, IsKept, RdnReadBack, Kept, EndsKept;
    var a := avas[0];
    var end := p + 1 + |PrintRdn(avas)|;
    var last := end == |str|;
    if |avas| == 1 {
      assert avas == [a];
      ParseAva(str, known, accepts, p, pending, a, calls);
      ReadBackSingle(a, last, known);
      assert pending + [] == pending;
    } else {
      var rest := avas[1..];
      HasParts(str, p + 1, PrintAva(a) + "+", PrintRdn(rest));
      HasParts(str, p + 1, PrintAva(a), "+");
      var next := p + 1 + |PrintAva(a)|;
      HasChar(str, next, "+", 0);
      ParseAva(str, known, accepts, p, pending, a, calls);
      NotLast(a);
      ReadBackUnfold(avas, last, known);
      var kept := Kept(RdnReadBack(rest, last), known);
      assert AreKinds(rest);
      if IsKept(a, known) {
        ParseRdn(str, known, accepts, next, pending + [a], rest, calls);
        assert pending + [a] + kept == pending + ([a] + kept);
      } else {
        ParseRdn(str, known, accepts, next, pending, rest, calls);
        assert [] + kept == kept;
      }
    }
  }

  lemma PrintStarts(name: seq<Rdn>)
    requires AreRdns(name)
    ensures Print(name) == "" <==> name == []
    ensures name != [] ==> Print(name)[0] == '/'
  {
  }

  predicate HasKinds(name: seq<Rdn>) { forall i | 0 <= i < |name| :: AreKinds(name[i]) }

  lemma DeliveredUnfold(rdn: Rdn, rest: seq<Rdn>, accepts: nat -> bool, calls: seq<Rdn>)
    ensures Delivered([rdn] + rest, accepts, calls) ==
      if !accepts(|calls|) then Outcome(AddFailed, calls + [rdn]) else Delivered(rest, accepts, calls + [rdn])
  {
    assert ([rdn] + rest)[1..] == rest;
  }

  lemma GroupedUnfold(pending: Rdn, rdn: Rdn, rest: seq<Rdn>, known: string -> bool)
    ensures var list := pending + Kept(rdn, known);
      Grouped(pending, [rdn] + rest, known) ==
        if EndsKept(rdn, known) then [list] + Grouped([], rest, known) else Grouped(list, rest, known)
  {
    assert ([rdn] + rest)[1..] == rest;
  }

  lemma FlushIsDelivered(accepts: nat -> bool, pending: Rdn, known: string -> bool, calls: seq<Rdn>)
    ensures Flush(accepts, Some(pending), calls) == Delivered(Grouped(pending, [], known), accepts, calls)
  {
    if pending != [] {
      DeliveredUnfold(pending, [], accepts, calls);
      assert [pending] + [] == [pending];
    }
  }

  /** The first relative name of a printed name, and where the rest of it stands. */
  lemma PrintParts(str: string, p: nat, name: seq<Rdn>)
    requires name != [] && AreRdns(name) && Has(str, p, Print(name)) && p + |Print(name)| == |str|
    ensures var end := p + 1 + |PrintRdn(name[0])|;
      && Has(str, p + 1, PrintRdn(name[0])) && Has(str, end, Print(name[1..]))
      && end + |Print(name[1..])| == |str|
      && (end == |str| <==> |name| == 1) && (end < |str| ==> str[end] == '/')
  {
    hide Has, PrintRdn, Print;
    var rdn, rest := name[0], name[1..];
    PrintUnfold(name);
    HasParts(str, p, "/" + PrintRdn(rdn), Print(rest));
    HasParts(str, p, "/", PrintRdn(rdn));
    PrintStarts(rest);
    if rest != [] {
      HasChar(str, p + 1 + |PrintRdn(rdn)|, Print(rest), 0);
    }
  }

  lemma PrintUnfold(name: seq<Rdn>)
    requires name != [] && AreRdns(name)
    ensures Print(name) == "/" + PrintRdn(name[0]) + Print(name[1..])
  {
  }

  lemma ParseNothing(str: string, known: string -> bool, accepts: nat -> bool, pending: Rdn, calls: seq<Rdn>)
    ensures Going(str, known, accepts, |str|, pending, calls) ==
            Delivered(Grouped(pending, [], known), accepts, calls)
  {
    hide Grouped, Delivered, Flush;
    FlushIsDelivered(accepts, pending, known, calls);
  }

  lemma ReadBackName(name: seq<Rdn>)
    requires AreRdns(name)
    ensures NameReadBack(name) ==
      if name == [] then [] else [RdnReadBack(name[0], |name| == 1)] + NameReadBack(name[1..])
  {
  }

  lemma {:induction false} ParsePrinted(str: string, known: string -> bool, accepts: nat -> bool,
                                        p: nat, pending: Rdn, name: seq<Rdn>, calls: seq<Rdn>)
    requires HasKinds(name) && AreRdns(name) && Has(str, p, Print(name)) && p + |Print(name)| == |str|
    ensures Going(str, known, accepts, p, pending, calls) ==
            Delivered(Grouped(pending, NameReadBack(name), known), accepts, calls)
    decreases |name|
  {
    hide Going, Has, PrintRdn, Print, RdnReadBack, NameReadBack, Kept, EndsKept, Grouped, Delivered, AreKinds;
    ReadBackName(name);
    if name == [] {
      PrintStarts(name);
      ParseNothing(str, known, accepts, pending, calls);
    } else {
      PrintParts(str, p, name);
      ParseRdn(str, known, accepts, p, pending, name[0], calls);
      var end, rest := p + 1 + |PrintRdn(name[0])|, name[1..];
      var read := RdnReadBack(name[0], |name| == 1);
      var list := pending + Kept(read, known);
      GroupedUnfold(pending, read, NameReadBack(rest), known);
      DeliveredUnfold(list, Grouped([], NameReadBack(rest), known), accepts, calls);
      if EndsKept(read, known) {
        ParsePrinted(str, known, accepts, end, [], rest, calls + [list]);
      } else {
        ParsePrinted(str, known, accepts, end, list, rest, calls);
      }
    }
  }

  /** Every printed name reaches the callback list by list, up to the first list it rejects: its types
      and values as printed but for the very last value, unknown types and empty values skipped. */
  lemma PrintedIsParsed(name: seq<Rdn>, known: string -> bool, accepts: nat -> bool)
    requires name != [] && HasKinds(name) && AreRdns(name)
    ensures Proc(Print(name), known, accepts) == Delivered(Grouped([], NameReadBack(name), known), accepts, [])
  {
    hide ProcFrom, Grouped, Delivered;
    var str := Print(name);
    PrintStarts(name);
    PrintSize(name);
    assert str[0..|str|] == str;
    FreshList(str, known, accepts, 0, []);
    ParsePrinted(str, known, accepts, 0, [], name, []);
  }

  lemma PrintSize(name: seq<Rdn>)
    requires name != [] && AreRdns(name)
    ensures |Print(name)| > 1
  {
  }

  // ---- when skipping joins relative names ----

  /** Each relative name without what is skipped, the empty ones left out. */
  function KeptNames(name: seq<Rdn>, known: string -> bool): seq<Rdn> {
    if name == [] then []
    else
      var kept := Kept(name[0], known);
      (if kept == [] then [] else [kept]) + KeptNames(name[1..], known)
  }

  /** A relative name keeps something but not its last value, and a later one keeps something. */
  predicate Joins(name: seq<Rdn>, known: string -> bool) {
    exists i, j | 0 <= i < j < |name| ::
      Kept(name[i], known) != [] && !EndsKept(name[i], known) && Kept(name[j], known) != []
  }

  predicate KeepsNothing(name: seq<Rdn>, known: string -> bool) {
    forall i | 0 <= i < |name| :: Kept(name[i], known) == []
  }

  lemma {:induction false} EndsKeptIsKept(rdn: Rdn, known: string -> bool)
    requires EndsKept(rdn, known)
    ensures Kept(rdn, known) != []
    decreases |rdn|
  {
    if |rdn| > 1 {
      EndsKeptIsKept(rdn[1..], known);
    }
  }

  lemma {:induction false} NothingToJoin(name: seq<Rdn>, known: string -> bool)
    ensures KeptNames(name, known) == [] <==> KeepsNothing(name, known)
    decreases |name|
  {
    if name != [] {
      NothingToJoin(name[1..], known);
      assert forall i | 1 <= i < |name| :: name[i] == name[1..][i - 1];
    }
  }

  /** A pending list is the first to be handed on, longer if anything after it is kept. */
  lemma {:induction false} PendingFirst(pending: Rdn, name: seq<Rdn>, known: string -> bool)
    requires pending != []
    ensures var g := Grouped(pending, name, known);
      if KeptNames(name, known) == [] then g == [pending] else g != [] && |g[0]| > |pending|
    decreases |name|
  {
    hide EndsKept, Kept;
    if name != [] {
      var kept := Kept(name[0], known);
      if EndsKept(name[0], known) {
        EndsKeptIsKept(name[0], known);
      } else {
        PendingFirst(pending + kept, name[1..], known);
        assert kept == [] ==> pending + kept == pending;
      }
    }
  }

  lemma JoinsUnfold(name: seq<Rdn>, known: string -> bool)
    requires name != []
    ensures Joins(name, known) <==>
      || Joins(name[1..], known)
      || (Kept(name[0], known) != [] && !EndsKept(name[0], known) && !KeepsNothing(name[1..], known))
  {
    hide Kept, EndsKept;
    var rest := name[1..];
    assert forall i | 0 <= i < |rest| :: rest[i] == name[i + 1];
    if Joins(rest, known) {
      var i, j :| 0 <= i < j < |rest|
        && Kept(rest[i], known) != [] && !EndsKept(rest[i], known) && Kept(rest[j], known) != [];
      assert Kept(name[i + 1], known) != [] && Kept(name[j + 1], known) != [];
    }
    if !KeepsNothing(rest, known) {
      var j :| 0 <= j < |rest| && Kept(rest[j], known) != [];
      assert Kept(name[j + 1], known) != [];
    }
    if Joins(name, known) {
      var i, j :| 0 <= i < j < |name|
        && Kept(name[i], known) != [] && !EndsKept(name[i], known) && Kept(name[j], known) != [];
      assert name[j] == rest[j - 1];
      if i > 0 {
        assert name[i] == rest[i - 1];
      }
    }
  }

  /** Skipping keeps relative names apart exactly when none that lost its last value is followed by
      one that kept something. */
  lemma {:induction false} SkippingJoinsIff(name: seq<Rdn>, known: string -> bool)
    ensures Grouped([], name, known) == KeptNames(name, known) <==> !Joins(name, known)
    decreases |name|
  {
    hide Kept, EndsKept, Joins, KeepsNothing;
    if name != [] {
      var kept, rest := Kept(name[0], known), name[1..];
      SkippingJoinsIff(rest, known);
      JoinsUnfold(name, known);
      NothingToJoin(rest, known);
      assert [] + kept == kept;
      if EndsKept(name[0], known) {
        EndsKeptIsKept(name[0], known);
        assert KeptNames(name, known) == [kept] + KeptNames(rest, known);
        assert Grouped([], name, known)[1..] == Grouped([], rest, known);
        assert KeptNames(name, known)[1..] == KeptNames(rest, known);
      } else if kept == [] {
        assert [] + KeptNames(rest, known) == KeptNames(rest, known);
      } else {
        PendingFirst(kept, rest, known);
        assert KeptNames(name, known)[0] == kept;
        NoJoinsInNothing(rest, known);
      }
    } else {
      NothingToJoin(name, known);
      NoJoinsInNothing(name, known);
    }
  }

  lemma NoJoinsInNothing(name: seq<Rdn>, known: string -> bool)
    ensures KeepsNothing(name, known) ==> !Joins(name, known)
  {
  }

  function LastValue(name: seq<Rdn>): string
    requires name != [] && AreRdns(name)
  {
    var rdn := name[|name| - 1];
    rdn[|rdn| - 1].value
  }

  lemma {:induction false} ReadBackIff(name: seq<Rdn>)
    requires name != [] && AreRdns(name)
    ensures NameReadBack(name) == name <==> IsPlain(LastValue(name))
    decreases |name|
  {
    var rdn, rest := name[0], name[1..];
    assert name == [rdn] + rest;
    var last := rdn[|rdn| - 1];
    assert rdn == rdn[..|rdn| - 1] + [last];
    if |name| == 1 {
      EscapeSize(last.value);
      assert |Leftover(last.value)| == Escapes(last.value);
      var back := RdnReadBack(rdn, true);
      assert back[|rdn| - 1].value == last.value + Leftover(last.value);
      assert NameReadBack(name) == [back] + [];
      if Escapes(last.value) == 0 {
        assert last.value + Leftover(last.value) == last.value;
        assert back == rdn;
      } else {
        assert back[|rdn| - 1] != rdn[|rdn| - 1];
        assert NameReadBack(name)[0] != name[0];
      }
    } else {
      ReadBackIff(rest);
      assert RdnReadBack(rdn, false) == rdn;
      assert NameReadBack(name)[1..] == NameReadBack(rest);
    }
  }

  lemma {:induction false} DeliveredAll(name: seq<Rdn>, accepts: nat -> bool, calls: seq<Rdn>)
    requires forall n: nat :: accepts(n)
    ensures Delivered(name, accepts, calls) == Outcome(Success, calls + name)
    decreases |name|
  {
    if name != [] {
      DeliveredAll(name[1..], accepts, calls + [name[0]]);
      assert calls + [name[0]] + name[1..] == calls + name;
    }
  }

  lemma {:induction false} AllKept(rdn: Rdn, known: string -> bool)
    requires forall i | 0 <= i < |rdn| :: IsKept(rdn[i], known)
    ensures Kept(rdn, known) == rdn
    decreases |rdn|
  {
    if rdn != [] {
      AllKept(rdn[1..], known);
      assert rdn == [rdn[0]] + rdn[1..];
    }
  }

  lemma {:induction false} NothingSkipped(name: seq<Rdn>, known: string -> bool)
    requires AreRdns(name) && IsName(name, known)
    ensures Grouped([], NameReadBack(name), known) == NameReadBack(name)
    decreases |name|
  {
    if name != [] {
      var rest := name[1..];
      NothingSkipped(rest, known);
      var read := RdnReadBack(name[0], |name| == 1);
      ReadBackKept(name[0], |name| == 1, known);
      GroupedUnfold([], read, NameReadBack(rest), known);
      assert [] + read == read;
    }
  }

  lemma ReadBackKept(rdn: Rdn, last: bool, known: string -> bool)
    requires IsRdn(rdn, known)
    ensures var read := RdnReadBack(rdn, last); Kept(read, known) == read && EndsKept(read, known)
  {
    hide Leftover, Kept;
    var read := RdnReadBack(rdn, last);
    forall i | 0 <= i < |read| ensures IsKept(read[i], known) {
      assert IsAva(rdn[i], known);
    }
    AllKept(read, known);
  }

  /** With a callback that accepts, a name of known types survives printing and parsing exactly when
      its very last value needs no escape. */
  lemma NameRoundTrip(name: seq<Rdn>, known: string -> bool, accepts: nat -> bool)
    requires name != [] && IsName(name, known) && AreRdns(name) && forall n: nat :: accepts(n)
    ensures Proc(Print(name), known, accepts) == Outcome(Success, name) <==> IsPlain(LastValue(name))
  {
    hide Proc, IsPlain, NameReadBack, Print, Grouped;
    NameHasKinds(name, known);
    PrintedIsParsed(name, known, accepts);
    NothingSkipped(name, known);
    DeliveredAll(NameReadBack(name), accepts, []);
    assert [] + NameReadBack(name) == NameReadBack(name);
    ReadBackIff(name);
  }

  lemma NameHasKinds(name: seq<Rdn>, known: string -> bool)
    requires IsName(name, known)
    ensures HasKinds(name)
  {
    forall i | 0 <= i < |name| ensures AreKinds(name[i]) {
      assert IsRdn(name[i], known);
    }
  }

  const FIRST: Rdn := [Ava("CN", "a"), Ava("X", "x")]
  const SECOND: Rdn := [Ava("CN", "c")]

  lemma JoinedPrinted()
    ensures AreRdns([FIRST, SECOND]) && Print([FIRST, SECOND]) == "/CN=a+X=x/CN=c"
  {
    hide Escape, Print;
    EscapeOne('a');
    EscapeOne('x');
    EscapeOne('c');
    var name := [FIRST, SECOND];
    PrintUnfold(name);
    PrintUnfold([SECOND]);
    PrintNothing();
    assert name[1..] == [SECOND] && [SECOND][1..] == [] && FIRST[1..] == [Ava("X", "x")];
    assert PrintRdn(FIRST) == "CN=a+X=x" && PrintRdn(SECOND) == "CN=c";
  }

  lemma PrintNothing()
    ensures Print([]) == ""
  {
  }

  lemma EscapeOne(c: char)
    requires !NeedsEscape(c)
    ensures Escape([c]) == [c]
  {
    EscapeUnfold([c]);
    EscapeUnfold("");
    assert [c][1..] == "";
  }

  lemma JoinedReadBack()
    ensures AreRdns([FIRST, SECOND]) && NameReadBack([FIRST, SECOND]) == [FIRST, SECOND]
  {
    ReadBackIff([FIRST, SECOND]);
    assert IsPlain("c");
  }

  lemma JoinedGroups(known: string -> bool)
    requires known("CN") && !known("X")
    ensures Grouped([], [FIRST, SECOND], known) == [[Ava("CN", "a"), Ava("CN", "c")]]
  {
    var a, x, c := Ava("CN", "a"), Ava("X", "x"), Ava("CN", "c");
    assert FIRST[1..] == [x] && [x][1..] == [] && SECOND[1..] == [];
    assert Kept([x], known) == [];
    assert Kept(FIRST, known) == [a] && Kept(SECOND, known) == [c];
    hide Kept, Grouped;
    GroupedUnfold([], FIRST, [SECOND], known);
    GroupedUnfold([a], SECOND, [], known);
    GroupedNothing(known);
    assert [FIRST] + [SECOND] == [FIRST, SECOND] && [SECOND] + [] == [SECOND];
    assert [] + [a] == [a] && [a] + [c] == [a, c] && [[a, c]] + [] == [[a, c]];
  }

  lemma GroupedNothing(known: string -> bool)
    ensures Grouped([], [], known) == []
  {
  }

  /** A skipped last type joins the relative names around it: of /CN=a+X=x/CN=c the callback sees
      a and c as one relative name. */
  lemma JoinedExample(known: string -> bool, accepts: nat -> bool)
    requires known("CN") && !known("X") && forall n: nat :: accepts(n)
    ensures Proc("/CN=a+X=x/CN=c", known, accepts) == Outcome(Success, [[Ava("CN", "a"), Ava("CN", "c")]])
  {
    hide Proc, Print, NameReadBack, Grouped;
    JoinedPrinted();
    JoinedReadBack();
    JoinedGroups(known);
    assert AreKinds(FIRST) && AreKinds(SECOND);
    PrintedIsParsed([FIRST, SECOND], known, accepts);
    DeliveredAll([[Ava("CN", "a"), Ava("CN", "c")]], accepts, []);
  }

  const SLASHED: seq<Rdn> := [[Ava("CN", "a/b")]]

  lemma SlashedPrinted()
    ensures Escape("a/b") == "a\\/b" && Escapes("a/b") == 1
    ensures AreRdns(SLASHED) && Print(SLASHED) == "/CN=a\\/b"
  {
    var v := "a/b";
    EscapeUnfold(v);
    assert v[1..] == "/b";
    EscapeUnfold("/b");
    assert "/b"[1..] == "b";
    EscapeUnfold("b");
    assert "b"[1..] == "";
    EscapeUnfold("");
    assert Print(SLASHED[1..]) == "";
  }

  /** A last value with an escape comes back longer: /CN=a\/b is read as a/bb. */
  lemma SlashedReadBack(known: string -> bool, accepts: nat -> bool)
    requires known("CN") && forall n: nat :: accepts(n)
    ensures Proc("/CN=a\\/b", known, accepts) == Outcome(Success, [[Ava("CN", "a/bb")]])
  {
    hide Proc, Print, Escape, Escapes;
    SlashedPrinted();
    PrintedIsParsed(SLASHED, known, accepts);
    var read := NameReadBack(SLASHED);
    assert IsName(SLASHED, known);
    NothingSkipped(SLASHED, known);
    assert Leftover("a/b") == "b";
    assert "a/b" + "b" == "a/bb";
    var rdn := SLASHED[0];
    assert rdn[..0] == [] && ReadBack(rdn[0], true) == Ava("CN", "a/bb");
    assert RdnReadBack(rdn, true) == [Ava("CN", "a/bb")];
    assert read == [RdnReadBack(rdn, true)] + NameReadBack(SLASHED[1..]);
    assert SLASHED[1..] == [];
    DeliveredAll(read, accepts, []);
  }
}
