/** UUID lists: IsValidKeyUuid, IsValidKeyUuidList and SplitUuidString of app_keymgmt.c. */
module KeyUuid {
  import opened Octets
  import opened Strings

  const UUID_CHARS: nat := 64

  predicate IsHexChar(c: char) {
    ('0' <= c <= '9') || ('a' <= c <= 'f') || ('A' <= c <= 'F')
  }

  /** The value of a hexadecimal digit by its character code: 48 to 57, 65 to 70 and 97 to 102. */
  function DigitValue(code: int): Option<nat> {
    if 48 <= code <= 57 then Some(code - 48)
    else if 65 <= code <= 70 then Some(code - 55)
    else if 97 <= code <= 102 then Some(code - 87)
    else None
  }

  lemma HexCharCodes(c: char)
    ensures IsHexChar(c) <==> DigitValue(c as int).Some?
  {
  }

  predicate IsUuid(s: string) {
    |s| == UUID_CHARS && forall i | 0 <= i < |s| :: IsHexChar(s[i])
  }

  method IsValidKeyUuid(uuid: CString) returns (ok: bool)
    ensures ok <==> IsUuid(uuid)
    ensures ok <==> |uuid| == 64 && forall i | 0 <= i < 64 :: DigitValue(uuid[i] as int).Some?
  {
    for i := 0 to UUID_CHARS
      invariant i <= |uuid| && forall k | 0 <= k < i :: IsHexChar(uuid[k])
    {
      if !IsHexChar(At(uuid, i)) {
        return false;
      }
    }
    return At(uuid, UUID_CHARS) == '\0';
  }

  // ---- comma-separated lists ----

  predicate AllUuids(us: seq<string>) {
    forall i | 0 <= i < |us| :: IsUuid(us[i])
  }

  /** The strings the list syntax admits. */
  predicate IsUuidList(s: string) { AllUuids(Split(s, ',')) }

  lemma UuidHasNoComma(u: string)
    requires IsUuid(u)
    ensures ',' !in u
  {
  }

  /** A list is the comma-join of one or more 64-digit strings, and of those only. */
  lemma ListIffJoin(s: string, us: seq<string>)
    requires us != [] && AllUuids(us)
    ensures s == Join(us, ',') <==> IsUuidList(s) && Split(s, ',') == us
  {
    JoinSplit(s, ',');
    forall i | 0 <= i < |us| ensures ',' !in us[i] { UuidHasNoComma(us[i]); }
    if s == Join(us, ',') {
      SplitJoin(us, ',');
    }
  }

  lemma PrependUuids(x: string, rest: seq<string>)
    ensures AllUuids([x] + rest) <==> IsUuid(x) && AllUuids(rest)
  {
    var all := [x] + rest;
    assert all[0] == x && all[1..] == rest;
    if AllUuids(all) {
      forall i | 0 <= i < |rest| ensures IsUuid(rest[i]) { assert all[i + 1] == rest[i]; }
    }
  }

  /** The automaton accepts exactly the lists. */
  method IsValidKeyUuidList(list: CString) returns (ok: bool)
    ensures ok <==> IsUuidList(list)
  {
    hide IsUuid, Split;
    if list == "" {
      EmptyIsNoList();
      return false;
    }
    var uuidLen: nat := 0;
    var cur: nat := 0;
    ghost var start: nat := 0;
    assert list[0..] == list;
    while true
      invariant cur <= |list| && start + uuidLen == cur && uuidLen <= UUID_CHARS
      invariant forall k | start <= k < cur :: IsHexChar(list[k])
      invariant IsUuidList(list) <==> IsUuidList(list[start..])
      decreases |list| - cur
    {
      var c := At(list, cur);
      ghost var piece := list[start..cur];
      HexPiece(list, start, cur);
      if c == ',' || c == '\0' {
        if c == ',' {
          assert list[start..] == piece + "," + list[cur + 1..];
          SplitAtSeparator(piece, list[cur + 1..], ',');
          PrependUuids(piece, Split(list[cur + 1..], ','));
        } else {
          assert list[start..] == piece;
          SplitWhole(piece, ',');
          PrependUuids(piece, []);
        }
        if uuidLen != UUID_CHARS {
          return false;
        }
        if c == '\0' {
          return true;
        }
        uuidLen := 0;
        cur := cur + 1;
        start := cur;
        continue;
      }
      if !IsHexChar(c) || uuidLen >= UUID_CHARS {
        BadPiece(list, start, cur);
        return false;
      }
      uuidLen := uuidLen + 1;
      cur := cur + 1;
    }
  }

  lemma EmptyIsNoList()
    ensures !IsUuidList("")
  {
    assert Split("", ',')[0] == "";
  }

  lemma HexPiece(s: string, start: nat, cur: nat)
    requires start <= cur <= |s| && forall k | start <= k < cur :: IsHexChar(s[k])
    ensures ',' !in s[start..cur]
    ensures IsUuid(s[start..cur]) <==> cur - start == UUID_CHARS
  {
  }

  /** A wrong character or a sixty-fifth digit spoils the piece it is in. */
  lemma BadPiece(s: string, start: nat, cur: nat)
    requires start <= cur < |s| && s[cur] != ','
    requires forall k | start <= k < cur :: IsHexChar(s[k])
    requires !IsHexChar(s[cur]) || cur - start >= UUID_CHARS
    ensures !IsUuidList(s[start..])
  {
    var x := s[start..cur + 1];
    var first := Split(s[start..], ',')[0];
    assert s[start..] == x + s[cur + 1..];
    SplitFirst(x, s[cur + 1..], ',');
    assert first[cur - start] == x[cur - start] == s[cur];
  }

  // ---- strtok_r on commas ----

  function SkipCommas(s: string, pos: nat): (r: nat)
    requires pos <= |s|
    ensures pos <= r <= |s|
    decreases |s| - pos
  {
    if pos < |s| && s[pos] == ',' then SkipCommas(s, pos + 1) else pos
  }

  function RunEnd(s: string, pos: nat): (r: nat)
    requires pos <= |s|
    ensures pos <= r <= |s|
    ensures forall k | pos <= k < r :: s[k] != ','
    ensures r < |s| ==> s[r] == ','
    decreases |s| - pos
  {
    if pos < |s| && s[pos] != ',' then RunEnd(s, pos + 1) else pos
  }

  /** The next token from `pos`, if any, and where the search goes on. */
  method StrtokR(s: CString, pos: nat) returns (token: Option<string>, next: nat)
    requires pos <= |s|
    ensures var b := SkipCommas(s, pos); var e := RunEnd(s, b);
      if b == |s| then token == None && next == |s|
      else token == Some(s[b..e]) && next == if e < |s| then e + 1 else e
  {
    var b := pos;
    while b < |s| && s[b] == ','
      invariant pos <= b <= |s| && SkipCommas(s, b) == SkipCommas(s, pos)
    {
      b := b + 1;
    }
    if b == |s| {
      return None, b;
    }
    var e := b;
    while e < |s| && s[e] != ','
      invariant b <= e <= |s| && RunEnd(s, e) == RunEnd(s, b)
    {
      e := e + 1;
    }
    return Some(s[b..e]), if e < |s| then e + 1 else e;
  }

  /** In a list, the next token is the first piece left. */
  lemma NextPiece(s: string, pos: nat)
    requires pos < |s| && IsUuidList(s[pos..])
    ensures SkipCommas(s, pos) == pos
    ensures var e := RunEnd(s, pos);
      if e < |s| then
        Split(s[pos..], ',') == [s[pos..e]] + Split(s[e + 1..], ',') && IsUuidList(s[e + 1..]) && e + 1 < |s|
      else Split(s[pos..], ',') == [s[pos..]]
  {
    hide IsUuid, Split;
    var tail, e := s[pos..], RunEnd(s, pos);
    NoEmptyPiece(tail);
    var token := s[pos..e];
    if e < |s| {
      assert tail == token + "," + s[e + 1..];
      SplitAtSeparator(token, s[e + 1..], ',');
      PrependUuids(token, Split(s[e + 1..], ','));
      EmptyIsNoList();
      assert s[e + 1..] != "";
    } else {
      assert tail == token;
      SplitWhole(token, ',');
    }
  }

  lemma NoEmptyPiece(s: string)
    requires s != "" && IsUuidList(s)
    ensures s[0] != ','
  {
    assert s[0] == ',' ==> !IsUuid(Split(s, ',')[0]);
  }

  /** Checks the list, then copies its pieces out with strtok_r. */
  method SplitUuidString(list: CString) returns (r: Option<seq<string>>)
    ensures r == if IsUuidList(list) then Some(Split(list, ',')) else None
  {
    hide IsUuid, Split, SkipCommas;
    var ok := IsValidKeyUuidList(list);
    if !ok {
      return None;
    }
    EmptyIsNoList();
    assert list[0..] == list;
    NextPiece(list, 0);
    var us: seq<string> := [];
    var tmp, next := StrtokR(list, 0);
    ghost var pos: nat := 0;
    while tmp.Some?
      invariant pos <= next <= |list|
      invariant pos < |list| ==>
                  && tmp == Some(list[pos..RunEnd(list, pos)])
                  && next == if RunEnd(list, pos) < |list| then RunEnd(list, pos) + 1 else |list|
      invariant pos < |list| ==> IsUuidList(list[pos..]) && us + Split(list[pos..], ',') == Split(list, ',')
      invariant pos == |list| ==> tmp.None? && us == Split(list, ',')
      decreases |list| - pos
    {
      NextPiece(list, pos);
      ghost var rest := if next < |list| then Split(list[next..], ',') else [];
      assert RunEnd(list, pos) == |list| ==> list[pos..RunEnd(list, pos)] == list[pos..];
      assert Split(list[pos..], ',') == [tmp.value] + rest;
      assert us + ([tmp.value] + rest) == us + [tmp.value] + rest;
      assert next == |list| ==> us + [tmp.value] + rest == us + [tmp.value];
      us := us + [tmp.value];
      pos := next;
      if pos < |list| {
        NextPiece(list, pos);
      } else {
        SkipAtEnd(list);
      }
      tmp, next := StrtokR(list, next);
    }
    return Some(us);
  }

  lemma SkipAtEnd(s: string)
    ensures SkipCommas(s, |s|) == |s|
  {
  }
}
