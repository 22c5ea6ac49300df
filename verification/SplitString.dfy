/** HITLS_APP_SplitString of app_conf.c: a tokenizer that cuts its own copy of the text in place. */
module SplitString {
  import opened Strings

  datatype Status = Success | InvalidArg | ConfFail

  // ---- what it computes: split, trim each piece, drop a blank last piece ----

  predicate Blank(s: string) { forall i | 0 <= i < |s| :: IsSpace(s[i]) }

  function Kept(pieces: seq<string>): seq<string>
    requires pieces != []
  {
    if Blank(pieces[|pieces| - 1]) then pieces[..|pieces| - 1] else pieces
  }

  function Trimmed(pieces: seq<string>): (r: seq<string>)
    ensures |r| == |pieces|
  {
    seq(|pieces|, i requires 0 <= i < |pieces| => Trim(pieces[i]))
  }

  function Tokens(pieces: seq<string>): seq<string>
    requires pieces != []
  {
    Trimmed(Kept(pieces))
  }

  /** Some piece other than the last is blank. */
  predicate BlankInside(pieces: seq<string>) {
    exists i | 0 <= i < |pieces| - 1 :: Blank(pieces[i])
  }

  predicate Fails(str: string, separator: char, allowEmpty: bool, slots: nat) {
    var pieces := Split(str, separator);
    |Tokens(pieces)| > slots || (!allowEmpty && BlankInside(pieces))
  }

  lemma TokensUnfold(first: string, rest: seq<string>)
    requires rest != []
    ensures Tokens([first] + rest) == [Trim(first)] + Tokens(rest)
  {
    hide Blank, Trim;
    var pieces := [first] + rest;
    assert pieces[|pieces| - 1] == rest[|rest| - 1];
    assert Kept(pieces) == [first] + Kept(rest);
  }

  lemma BlankInsideUnfold(first: string, rest: seq<string>)
    requires rest != []
    ensures BlankInside([first] + rest) <==> Blank(first) || BlankInside(rest)
  {
    hide Blank;
    var pieces := [first] + rest;
    assert forall i | 0 <= i < |rest| :: pieces[i + 1] == rest[i];
    if BlankInside(rest) {
      var i :| 0 <= i < |rest| - 1 && Blank(rest[i]);
      assert Blank(pieces[i + 1]);
    }
    if Blank(first) {
      assert Blank(pieces[0]);
    }
  }

  /** Leading blanks change neither the tokens nor the failures. */
  lemma {:induction false} StripKeepsTokens(str: string, separator: char)
    requires !IsSpace(separator)
    ensures Tokens(Split(TrimLeft(str), separator)) == Tokens(Split(str, separator))
    ensures BlankInside(Split(TrimLeft(str), separator)) <==> BlankInside(Split(str, separator))
  {
    if str != "" && IsSpace(str[0]) {
      StripKeepsTokens(str[1..], separator);
      var pieces := Split(str[1..], separator);
      var first, rest := pieces[0], pieces[1..];
      assert pieces == [first] + rest;
      LeadingBlank(str[0], first);
      if rest == [] {
        assert Tokens([[str[0]] + first]) == Tokens([first]);
      } else {
        TokensUnfold(first, rest);
        TokensUnfold([str[0]] + first, rest);
        BlankInsideUnfold(first, rest);
        BlankInsideUnfold([str[0]] + first, rest);
      }
    }
  }

  lemma LeadingBlank(c: char, s: string)
    requires IsSpace(c)
    ensures Blank([c] + s) <==> Blank(s)
    ensures Trim([c] + s) == Trim(s)
  {
    var t := [c] + s;
    assert t[1..] == s;
    assert forall i | 0 <= i < |s| :: t[i + 1] == s[i];
  }

  // ---- trimming ----

  lemma {:induction false} TrimLeftOf(blank: string, core: string)
    requires Blank(blank) && (core == "" || !IsSpace(core[0]))
    ensures TrimLeft(blank + core) == core
    decreases |blank|
  {
    if blank == "" {
      assert blank + core == core;
    } else {
      assert (blank + core)[1..] == blank[1..] + core;
      TrimLeftOf(blank[1..], core);
    }
  }

  lemma {:induction false} TrimRightOf(core: string, blank: string)
    requires Blank(blank) && (core == "" || !IsSpace(core[|core| - 1]))
    ensures TrimRight(core + blank) == core
    decreases |blank|
  {
    if blank == "" {
      assert core + blank == core;
    } else {
      var n := |blank| - 1;
      assert (core + blank)[..|core| + n] == core + blank[..n];
      TrimRightOf(core, blank[..n]);
    }
  }

  /** Blanks around a text that neither begins nor ends with one are what is trimmed. */
  lemma TrimOf(before: string, core: string, after: string)
    requires Blank(before) && Blank(after)
    requires core == "" || (!IsSpace(core[0]) && !IsSpace(core[|core| - 1]))
    ensures Trim(before + core + after) == core
  {
    if core == "" {
      assert before + core + after == (before + after) + "";
      TrimLeftOf(before + after, "");
    } else {
      assert before + core + after == before + (core + after);
      TrimLeftOf(before, core + after);
      TrimRightOf(core, after);
    }
  }

  lemma TrimSlice(s: string, p: nat, begin: nat, end: nat, q: nat)
    requires p <= begin <= end <= q <= |s| && Blank(s[p..begin]) && Blank(s[end..q])
    requires begin < end ==> !IsSpace(s[begin]) && !IsSpace(s[end - 1])
    ensures Trim(s[p..q]) == s[begin..end]
  {
    assert s[p..q] == s[p..begin] + s[begin..end] + s[end..q];
    TrimOf(s[p..begin], s[begin..end], s[end..q]);
  }

  // ---- the tokenizer ----

  predicate Skips(c: char, separator: char) { IsSpace(c) || c == separator }

  /** `end` is behind the last character from `begin` to `i` that is neither blank nor separator,
      `begin` itself counting unless it is the separator; -1 if there is none and there has to be. */
  predicate EndsAt(s: string, separator: char, begin: nat, i: nat, allowEmpty: bool, end: int)
    requires begin <= i < |s|
  {
    var bare := forall j | begin < j <= i :: Skips(s[j], separator);
    && (bare ==> end == if s[begin] != separator then begin + 1 else if allowEmpty then begin else -1)
    && (!bare ==>
          && begin + 1 < end <= i + 1 && !Skips(s[end - 1], separator)
          && forall j | end <= j <= i :: Skips(s[j], separator))
  }

  lemma EndsAtAgrees(s: string, t: string, separator: char, begin: nat, i: nat, allowEmpty: bool, end: int)
    requires begin <= i < |s| && i < |t| && forall j | begin <= j <= i :: s[j] == t[j]
    ensures EndsAt(s, separator, begin, i, allowEmpty, end) <==> EndsAt(t, separator, begin, i, allowEmpty, end)
  {
    assert (forall j | begin < j <= i :: Skips(s[j], separator)) <==> (forall j | begin < j <= i :: Skips(t[j], separator));
  }

  method FindEndIdx(str: array<char>, separator: char, beginIdx: nat, currIdx: nat, allowEmpty: bool)
    returns (end: int)
    requires beginIdx <= currIdx < str.Length
    ensures EndsAt(str[..], separator, beginIdx, currIdx, allowEmpty, end)
  {
    var curr: int := currIdx;
    while curr >= 0 && (IsSpace(str[curr]) || str[curr] == separator)
      invariant -1 <= curr <= currIdx
      invariant forall j | curr < j <= currIdx :: Skips(str[j], separator)
    {
      curr := curr - 1;
    }
    if beginIdx < curr {
      return curr + 1;
    } else if str[beginIdx] != separator {
      return beginIdx + 1;
    } else if allowEmpty {
      return beginIdx;
    } else {
      return -1;
    }
  }

  /** `res` holds `token` at `start` as a C string. */
  predicate Holds(res: seq<char>, start: nat, token: string) {
    start + |token| < |res| && res[start..start + |token|] == token && res[start + |token|] == '\0'
  }

  /** The tokens lie one after the other, each ended by its NUL, the first at the start. */
  predicate Laid(res: seq<char>, starts: seq<nat>, tokens: seq<string>) {
    && |starts| == |tokens|
    && (forall k | 0 <= k < |tokens| :: Holds(res, starts[k], tokens[k]))
    && (forall k | 0 < k < |tokens| :: starts[k - 1] + |tokens[k - 1]| < starts[k])
    && (tokens != [] ==> starts[0] == 0)
  }

  /** Nothing laid reaches past `p`, and `p` itself is reached only at the end of the text. */
  predicate Before(starts: seq<nat>, tokens: seq<string>, p: nat, n: nat)
    requires |starts| == |tokens|
  {
    forall k | 0 <= k < |tokens| ::
      starts[k] + |tokens[k]| <= p && (starts[k] + |tokens[k]| == p ==> p == n)
  }

  /** A NUL written behind the laid tokens ends the next one and touches none of them. */
  lemma LayNext(res: seq<char>, starts: seq<nat>, tokens: seq<string>, p: nat, n: nat, begin: nat, end: nat)
    requires Laid(res, starts, tokens) && Before(starts, tokens, p, n)
    requires p < n && p <= begin <= end < |res| && (tokens == [] ==> begin == 0)
    ensures Laid(res[end := '\0'], starts + [begin], tokens + [res[begin..end]])
  {
    var res' := res[end := '\0'];
    forall k | 0 <= k < |tokens| ensures Holds(res', starts[k], tokens[k]) {
      assert Holds(res, starts[k], tokens[k]);
      assert res'[starts[k]..starts[k] + |tokens[k]|] == res[starts[k]..starts[k] + |tokens[k]|];
    }
    assert Holds(res', begin, res[begin..end]) by {
      assert res'[begin..end] == res[begin..end];
    }
  }

  // ---- one piece ----

  lemma InnerPiece(s: string, separator: char, p: nat, i: nat)
    requires p <= i < |s| && s[i] == separator && forall j | p <= j < i :: s[j] != separator
    ensures Split(s[p..], separator) == [s[p..i]] + Split(s[i + 1..], separator)
  {
    SplitAtSeparator(s[p..i], s[i + 1..], separator);
    assert s[p..] == s[p..i] + [separator] + s[i + 1..];
  }

  lemma LastPiece(s: string, separator: char, p: nat)
    requires p <= |s| && forall j | p <= j < |s| :: s[j] != separator
    ensures Split(s[p..], separator) == [s[p..]] && !BlankInside(Split(s[p..], separator))
    ensures Tokens(Split(s[p..], separator)) == if Blank(s[p..]) then [] else [Trim(s[p..])]
  {
    SplitWhole(s[p..], separator);
  }

  /** A piece in which a character is not blank is not blank. */
  lemma NotBlank(s: string, p: nat, j: nat, q: nat)
    requires p <= j < q <= |s| && !IsSpace(s[j])
    ensures !Blank(s[p..q])
  {
    assert s[p..q][j - p] == s[j];
  }

  lemma BlankSlice(s: string, a: nat, b: nat)
    requires a <= b <= |s| && forall j | a <= j < b :: IsSpace(s[j])
    ensures Blank(s[a..b])
  {
  }

  lemma TokenOfPiece(s: string, separator: char, p: nat, begin: nat, i: nat, allowEmpty: bool, end: int)
    requires p <= begin <= i < |s| && !IsSpace(separator) && EndsAt(s, separator, begin, i, allowEmpty, end)
    requires Blank(s[p..begin]) && !IsSpace(s[begin]) && forall j | p <= j < i :: s[j] != separator
    ensures var q := if s[i] == separator then i else i + 1;
      && (end == -1 <==> !allowEmpty && s[begin] == separator)
      && (end != -1 ==> begin <= end <= q && Trim(s[p..q]) == s[begin..end])
      && (s[begin] == separator <==> Blank(s[p..q]))
  {
    hide Trim;
    var q := if s[i] == separator then i else i + 1;
    if s[begin] == separator {
      assert begin == i == q;
    } else {
      NotBlank(s, p, begin, q);
    }
    if end != -1 {
      forall j | end <= j < q ensures IsSpace(s[j]) {
        assert begin < j <= i ==> Skips(s[j], separator);
      }
      BlankSlice(s, end, q);
      assert begin < end ==> !IsSpace(s[end - 1]);
      TrimSlice(s, p, begin, end, q);
    }
  }

  /** The tokens from `p` on are that of the piece that ends at `i` and those behind it. */
  lemma TokensOfPiece(s: string, separator: char, p: nat, begin: nat, i: nat)
    requires p <= begin <= i < |s| && !IsSpace(s[begin]) && !IsSpace(separator)
    requires (i + 1 == |s| || s[i] == separator) && forall j | p <= j < i :: s[j] != separator
    ensures var q := if s[i] == separator then i else i + 1;
      && Tokens(Split(s[p..], separator)) == [Trim(s[p..q])] + Tokens(Split(s[i + 1..], separator))
      && (!Blank(s[p..q]) ==> (BlankInside(Split(s[p..], separator)) <==> BlankInside(Split(s[i + 1..], separator))))
      && (s[i] == separator && Blank(s[p..q]) ==> BlankInside(Split(s[p..], separator)))
  {
    hide Trim, Tokens, Blank;
    if s[i] == separator {
      InnerPiece(s, separator, p, i);
      TokensUnfold(s[p..i], Split(s[i + 1..], separator));
      BlankInsideUnfold(s[p..i], Split(s[i + 1..], separator));
    } else {
      LastPiece(s, separator, p);
      LastPiece(s, separator, |s|);
      NotBlank(s, p, begin, |s|);
      assert s[p..] == s[p..|s|];
      BlankNothing(s, |s|);
      assert s[|s|..|s|] == s[|s|..];
    }
  }

  lemma BlankNothing(s: string, i: nat)
    requires i <= |s|
    ensures Blank(s[i..i]) && s[|s|..] == ""
  {
  }

  lemma SomeToken(s: string, separator: char, p: nat, i: nat)
    requires p <= i < |s| && !IsSpace(s[i]) && !IsSpace(separator) && forall j | p <= j < i :: s[j] != separator
    ensures Tokens(Split(s[p..], separator)) != []
  {
    hide Trim, Blank;
    var pieces := Split(s[p..], separator);
    if |pieces| == 1 {
      JoinSplit(s[p..], separator);
      NotBlank(s, p, i, |s|);
      assert s[p..|s|] == s[p..] == pieces[0];
    }
  }

  /** The tokenizer's own copy of the text, with its NUL. */
  method Copy(s: CString) returns (res: array<char>)
    ensures fresh(res) && res.Length == |s| + 1 && forall j | 0 <= j <= |s| :: res[j] == At(s, j)
  {
    res := new char[|s| + 1](i requires 0 <= i <= |s| => At(s, i));
  }

  // ---- the scan ----

  /** Up to `i`: the pieces before `p` are laid out as `done`, and `p..i` is the current one. */
  predicate Scanned(s: CString, separator: char, allowEmpty: bool,
                    res: seq<char>, starts: seq<nat>, done: seq<string>, p: nat, i: nat) {
    && p <= i <= |s| && |res| == |s| + 1
    && (forall j | p <= j < i :: s[j] != separator)
    && (forall j | p <= j <= |s| :: res[j] == At(s, j))
    && (done == [] ==> p == 0)
    && Tokens(Split(s, separator)) == done + Tokens(Split(s[p..], separator))
    && (!allowEmpty ==> (BlankInside(Split(s, separator)) <==> BlankInside(Split(s[p..], separator))))
    && Laid(res, starts, done) && Before(starts, done, p, |s|)
  }

  lemma ScanStarts(s: CString, separator: char, allowEmpty: bool, res: seq<char>)
    requires |res| == |s| + 1 && forall j | 0 <= j <= |s| :: res[j] == At(s, j)
    ensures Scanned(s, separator, allowEmpty, res, [], [], 0, 0) && Blank(s[0..0])
  {
    hide Tokens, BlankInside, Split;
    assert s[0..] == s;
    assert [] + Tokens(Split(s, separator)) == Tokens(Split(s, separator));
  }

  /** What the tokenizer still reads is the text, and a scan goes on until the separator. */
  lemma ReadAhead(s: CString, separator: char, allowEmpty: bool,
                  res: seq<char>, starts: seq<nat>, done: seq<string>, p: nat, i: nat)
    requires Scanned(s, separator, allowEmpty, res, starts, done, p, i) && i < |s|
    ensures |res| == |s| + 1 && forall j | p <= j < |s| :: res[j] == s[j]
    ensures s[i] != separator ==> Scanned(s, separator, allowEmpty, res, starts, done, p, i + 1)
  {
    hide Tokens, BlankInside, Split, Laid, Before;
  }

  lemma BlankGrows(s: string, p: nat, i: nat)
    requires p <= i < |s| && Blank(s[p..i]) && IsSpace(s[i])
    ensures Blank(s[p..i + 1])
  {
    assert forall j | p <= j < i :: s[p..i][j - p] == s[j];
  }

  lemma FirstAtStart(s: string, i: nat)
    requires i < |s| && !IsSpace(s[0])
    ensures Blank(s[0..i]) <==> i == 0
  {
    if i > 0 {
      NotBlank(s, 0, 0, i);
    }
  }

  lemma TooManyTokens(s: CString, separator: char, allowEmpty: bool,
                      res: seq<char>, starts: seq<nat>, done: seq<string>, p: nat, i: nat)
    requires Scanned(s, separator, allowEmpty, res, starts, done, p, i)
    requires i < |s| && !IsSpace(s[i]) && !IsSpace(separator)
    ensures |Tokens(Split(s, separator))| > |done|
  {
    hide Tokens, BlankInside, Split, Laid, Before;
    SomeToken(s, separator, p, i);
  }

  /** The current piece, its first other character than a blank at `begin`, ends at `i`. */
  lemma PieceEnds(s: CString, separator: char, allowEmpty: bool,
                  res: seq<char>, starts: seq<nat>, done: seq<string>, p: nat, i: nat, begin: nat, end: int)
    requires Scanned(s, separator, allowEmpty, res, starts, done, p, i)
    requires p <= begin <= i < |s| && Blank(s[p..begin]) && !IsSpace(s[begin]) && !IsSpace(separator)
    requires i + 1 == |s| || s[i] == separator
    requires EndsAt(s, separator, begin, i, allowEmpty, end) && (done == [] ==> begin == 0)
    ensures end == -1 ==> !allowEmpty && BlankInside(Split(s, separator))
    ensures end != -1 ==> begin <= end <= |s|
    ensures end != -1 ==>
      Scanned(s, separator, allowEmpty, res[end := '\0'], starts + [begin], done + [s[begin..end]], i + 1, i + 1)
  {
    hide Tokens, BlankInside, Split, Blank, Trim, EndsAt, Laid;
    TokenOfPiece(s, separator, p, begin, i, allowEmpty, end);
    TokensOfPiece(s, separator, p, begin, i);
    if end != -1 {
      assert res[begin..end] == s[begin..end];
      LayNext(res, starts, done, p, |s|, begin, end);
      assert done + ([s[begin..end]] + Tokens(Split(s[i + 1..], separator)))
          == done + [s[begin..end]] + Tokens(Split(s[i + 1..], separator));
    }
  }

  lemma ScanEnds(s: CString, separator: char, allowEmpty: bool,
                 res: seq<char>, starts: seq<nat>, done: seq<string>, p: nat)
    requires Scanned(s, separator, allowEmpty, res, starts, done, p, |s|) && Blank(s[p..|s|])
    ensures Tokens(Split(s, separator)) == done && (!allowEmpty ==> !BlankInside(Split(s, separator)))
    ensures Laid(res, starts, done)
  {
    hide Laid, Before;
    LastPiece(s, separator, p);
    assert s[p..|s|] == s[p..];
  }

  /** Ends the current piece with a NUL in the copy; fails on a blank piece that may not be. */
  method EndPiece(ghost s: CString, separator: char, allowEmpty: bool, res: array<char>, begin: nat, i: nat,
                  ghost starts: seq<nat>, ghost done: seq<string>, ghost p: nat)
    returns (ok: bool, ghost token: string)
    requires Scanned(s, separator, allowEmpty, res[..], starts, done, p, i)
    requires p <= begin <= i < |s| && Blank(s[p..begin]) && !IsSpace(s[begin]) && !IsSpace(separator)
    requires (i + 1 == |s| || s[i] == separator) && (done == [] ==> begin == 0)
    modifies res
    ensures !ok ==> !allowEmpty && BlankInside(Split(s, separator))
    ensures ok ==> Scanned(s, separator, allowEmpty, res[..], starts + [begin], done + [token], i + 1, i + 1)
  {
    hide BlankInside, Blank, Split, Scanned, EndsAt;
    ReadAhead(s, separator, allowEmpty, res[..], starts, done, p, i);
    var end := FindEndIdx(res, separator, begin, i, allowEmpty);
    EndsAtAgrees(s, res[..], separator, begin, i, allowEmpty, end);
    PieceEnds(s, separator, allowEmpty, res[..], starts, done, p, i, begin, end);
    token := "";
    if end == -1 {
      return false, token;
    }
    token := s[begin..end];
    ghost var whole := res[..];
    res[end] := '\0';
    assert res[..] == whole[end := '\0'];
    return true, token;
  }

  /** `strArr` receives the positions of the tokens in the returned copy. */
  method SplitString(str: CString, separator: char, allowEmpty: bool, strArr: array<nat>)
    returns (status: Status, res: array<char>, realCnt: nat)
    modifies strArr
    ensures status == InvalidArg <==> str == "" || IsSpace(separator) || strArr.Length == 0
    ensures status != InvalidArg ==> fresh(res)
    ensures status == ConfFail ==> realCnt == 0 && strArr[0] == 0
    ensures status != InvalidArg ==> (status == ConfFail <==> Fails(str, separator, allowEmpty, strArr.Length))
    ensures var tokens := Tokens(Split(str, separator));
      status == Success ==> realCnt == |tokens| <= strArr.Length && Laid(res[..], strArr[..realCnt], tokens)
  {
    hide Tokens, BlankInside, Blank, Laid, Split, Trim, TrimLeft, Scanned, EndsAt;
    if str == "" || IsSpace(separator) || strArr.Length == 0 {
      res := new char[0];
      return InvalidArg, res, 0;
    }
    var s := Stripped(str);
    StripKeepsTokens(str, separator);
    res := Copy(s);
    var begin: nat, hasBegin := 0, false;
    realCnt := 0;
    ghost var p: nat, done: seq<string> := 0, [];
    ScanStarts(s, separator, allowEmpty, res[..]);
    for i := 0 to |s|
      invariant fresh(res) && realCnt <= strArr.Length && realCnt == |done| + (if hasBegin then 1 else 0)
      invariant Scanned(s, separator, allowEmpty, res[..], strArr[..|done|], done, p, i)
      invariant hasBegin ==> p <= begin < i < |s| && Blank(s[p..begin]) && !IsSpace(s[begin]) && strArr[|done|] == begin
      invariant !hasBegin ==> p <= i && Blank(s[p..i])
      invariant done == [] ==> p == 0 && (hasBegin ==> begin == 0)
      invariant realCnt > 0 ==> strArr[0] == 0
    {
      ReadAhead(s, separator, allowEmpty, res[..], strArr[..|done|], done, p, i);
      if !hasBegin {
        if IsSpace(res[i]) {
          BlankGrows(s, p, i);
          continue;
        }
        if realCnt == strArr.Length {
          TooManyTokens(s, separator, allowEmpty, res[..], strArr[..|done|], done, p, i);
          return ConfFail, res, 0;
        }
        if done == [] {
          FirstAtStart(s, i);
        }
        begin := i;
        ghost var before := strArr[..|done|];
        strArr[realCnt] := begin;
        assert strArr[..|done|] == before;
        realCnt := realCnt + 1;
        hasBegin := true;
      }
      if i + 1 != |s| && res[i] != separator {
        continue;
      }
      ghost var token;
      var ok;
      ok, token := EndPiece(s, separator, allowEmpty, res, begin, i, strArr[..|done|], done, p);
      if !ok {
        return ConfFail, res, 0;
      }
      hasBegin := false;
      assert strArr[..|done| + 1] == strArr[..|done|] + [begin];
      BlankNothing(s, i + 1);
      p, done := i + 1, done + [token];
    }
    ScanEnds(s, separator, allowEmpty, res[..], strArr[..|done|], done, p);
    return Success, res, realCnt;
  }

  /** What strspn leaves. */
  function Stripped(str: CString): (s: CString)
    ensures s == TrimLeft(str) && (s == "" || !IsSpace(s[0]))
  {
    StrippedIsSuffix(str);
    TrimLeft(str)
  }

  lemma {:induction false} StrippedIsSuffix(str: string)
    ensures forall c | c in TrimLeft(str) :: c in str
    ensures TrimLeft(str) == "" || !IsSpace(TrimLeft(str)[0])
  {
    if str != "" && IsSpace(str[0]) {
      StrippedIsSuffix(str[1..]);
    }
  }

  // ---- tokens by character code ----

  predicate BlankCodes(s: string) { forall i | 0 <= i < |s| :: IsBlankCode(s[i] as int) }

  lemma BlankIsByCode(s: string)
    ensures Blank(s) <==> BlankCodes(s)
  {
    forall i | 0 <= i < |s| ensures IsSpace(s[i]) <==> IsBlankCode(s[i] as int) { SpaceCodes(s[i]); }
  }

  lemma {:induction false} TrimLeftShape(s: string) returns (a: string)
    ensures s == a + TrimLeft(s) && Blank(a) && (TrimLeft(s) == "" || !IsSpace(TrimLeft(s)[0]))
  {
    a := "";
    if s != "" && IsSpace(s[0]) {
      var rest := TrimLeftShape(s[1..]);
      a := [s[0]] + rest;
      assert s == [s[0]] + s[1..];
    }
  }

  lemma {:induction false} TrimRightShape(s: string) returns (b: string)
    ensures s == TrimRight(s) + b && Blank(b) && (TrimRight(s) == "" || !IsSpace(TrimRight(s)[|TrimRight(s)| - 1]))
    decreases |s|
  {
    b := "";
    if s != "" && IsSpace(s[|s| - 1]) {
      var n := |s| - 1;
      var rest := TrimRightShape(s[..n]);
      b := rest + [s[n]];
      assert s == s[..n] + [s[n]];
    }
  }

  /** `piece` is `token` with blanks around it, and `token` neither begins nor ends with one. */
  predicate Surrounds(piece: string, a: string, token: string, b: string) {
    && piece == a + token + b && BlankCodes(a) && BlankCodes(b)
    && (token == "" || (!IsBlankCode(token[0] as int) && !IsBlankCode(token[|token| - 1] as int)))
  }

  lemma TrimShape(s: string) returns (a: string, b: string)
    ensures Surrounds(s, a, Trim(s), b)
  {
    hide Blank, BlankCodes;
    a := TrimLeftShape(s);
    var t := TrimLeft(s);
    b := TrimRightShape(t);
    var token := TrimRight(t);
    assert t == token + b;
    assert a + token + b == a + (token + b);
    BlankIsByCode(a);
    BlankIsByCode(b);
    if token != "" {
      assert t[0] == token[0];
      SpaceCodes(token[0]);
      SpaceCodes(token[|token| - 1]);
    }
  }

  ghost predicate IsTokenOf(piece: string, token: string) {
    exists a, b :: Surrounds(piece, a, token, b)
  }

  ghost predicate BlankPieceBeforeLast(pieces: seq<string>) {
    exists i | 0 <= i < |pieces| - 1 :: BlankCodes(pieces[i])
  }

  lemma BlankInsideByCode(pieces: seq<string>)
    ensures BlankInside(pieces) <==> BlankPieceBeforeLast(pieces)
  {
    hide Blank, BlankCodes;
    if BlankInside(pieces) {
      var i :| 0 <= i < |pieces| - 1 && Blank(pieces[i]);
      BlankIsByCode(pieces[i]);
      assert BlankCodes(pieces[i]);
    }
    if BlankPieceBeforeLast(pieces) {
      var i :| 0 <= i < |pieces| - 1 && BlankCodes(pieces[i]);
      BlankIsByCode(pieces[i]);
      assert Blank(pieces[i]);
    }
  }

  lemma TokenOfEach(pieces: seq<string>)
    requires pieces != []
    ensures |Tokens(pieces)| == if BlankCodes(pieces[|pieces| - 1]) then |pieces| - 1 else |pieces|
    ensures forall k | 0 <= k < |Tokens(pieces)| :: IsTokenOf(pieces[k], Tokens(pieces)[k])
  {
    hide Surrounds, Blank, BlankCodes, Trim;
    BlankIsByCode(pieces[|pieces| - 1]);
    forall k | 0 <= k < |Tokens(pieces)| ensures IsTokenOf(pieces[k], Tokens(pieces)[k]) {
      var a, b := TrimShape(pieces[k]);
    }
  }

  /** The pieces are what the separators part, each token is its piece without the blanks around it,
      only a last piece of nothing but blanks has no token, and a piece counts as blank by code. */
  lemma TokensByCode(str: string, separator: char)
    ensures var pieces := Split(str, separator);
      && Join(pieces, separator) == str && (forall i | 0 <= i < |pieces| :: separator !in pieces[i])
      && |Tokens(pieces)| == (if BlankCodes(pieces[|pieces| - 1]) then |pieces| - 1 else |pieces|)
      && (forall k | 0 <= k < |Tokens(pieces)| :: IsTokenOf(pieces[k], Tokens(pieces)[k]))
      && (BlankInside(pieces) <==> BlankPieceBeforeLast(pieces))
  {
    hide Split, BlankCodes, Tokens, IsTokenOf, BlankInside, BlankPieceBeforeLast;
    JoinSplit(str, separator);
    PiecesHaveNoSeparator(str, separator);
    TokenOfEach(Split(str, separator));
    BlankInsideByCode(Split(str, separator));
  }

  /** A text fails exactly when it has more tokens than there are slots or, if that is not allowed, a blank
      piece in front of another one. */
  lemma FailsByCode(str: string, separator: char, allowEmpty: bool, slots: nat)
    ensures var pieces := Split(str, separator);
      var tokens := if BlankCodes(pieces[|pieces| - 1]) then |pieces| - 1 else |pieces|;
      Fails(str, separator, allowEmpty, slots) <==> tokens > slots || (!allowEmpty && BlankPieceBeforeLast(pieces))
  {
    hide Split, BlankCodes, Tokens, BlankInside, BlankPieceBeforeLast;
    TokenOfEach(Split(str, separator));
    BlankInsideByCode(Split(str, separator));
  }
}
