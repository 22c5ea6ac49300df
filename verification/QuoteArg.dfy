/** quote_arg of agent_main.cpp and the command line built from it, against the argument rules
    documented by Microsoft for the C runtime. */
module QuoteArg {
  import opened Octets
  import Base64

  function Backslashes(n: nat): (s: string)
    ensures |s| == n && forall i | 0 <= i < n :: s[i] == '\\'
  {
    seq(n, _ => '\\')
  }

  // ---- quoting ----

  /** The quoted form of `s`, with `n` backslashes seen but not yet written. */
  function QuotedRest(s: string, n: nat): string
    decreases |s|
  {
    if s == "" then Backslashes(n * 2) + "\""
    else if s[0] == '\\' then QuotedRest(s[1..], n + 1)
    else if s[0] == '\"' then Backslashes(n * 2 + 1) + "\"" + QuotedRest(s[1..], 0)
    else Backslashes(n) + [s[0]] + QuotedRest(s[1..], 0)
  }

  function Quoted(s: string): string { "\"" + QuotedRest(s, 0) }

  method Quote(arg: string) returns (out: string)
    ensures out == Quoted(arg)
  {
    hide QuotedRest;
    out := "\"";
    var backslashes: nat := 0;
    assert arg[0..] == arg;
    for i := 0 to |arg|
      invariant out + QuotedRest(arg[i..], backslashes) == Quoted(arg)
    {
      var ch := arg[i];
      assert arg[i..][1..] == arg[i + 1..];
      QuotedStep(out, arg[i..], backslashes);
      if ch == '\\' {
        backslashes := backslashes + 1;
      } else if ch == '\"' {
        out := out + Backslashes(backslashes * 2 + 1);
        out := out + ['\"'];
        backslashes := 0;
      } else {
        out := out + Backslashes(backslashes);
        backslashes := 0;
        out := out + [ch];
      }
    }
    QuotedEnd(out, backslashes);
    assert arg[|arg|..] == "";
    out := out + Backslashes(backslashes * 2);
    out := out + ['\"'];
  }

  lemma QuotedStep(out: string, s: string, n: nat)
    requires s != ""
    ensures out + QuotedRest(s, n) ==
      if s[0] == '\\' then out + QuotedRest(s[1..], n + 1)
      else if s[0] == '\"' then out + Backslashes(n * 2 + 1) + ['\"'] + QuotedRest(s[1..], 0)
      else out + Backslashes(n) + [s[0]] + QuotedRest(s[1..], 0)
  {
    hide Backslashes;
    if s[0] == '\"' {
      assert out + (Backslashes(n * 2 + 1) + "\"" + QuotedRest(s[1..], 0))
          == out + Backslashes(n * 2 + 1) + "\"" + QuotedRest(s[1..], 0);
    } else if s[0] != '\\' {
      assert out + (Backslashes(n) + [s[0]] + QuotedRest(s[1..], 0))
          == out + Backslashes(n) + [s[0]] + QuotedRest(s[1..], 0);
    }
  }

  lemma QuotedEnd(out: string, n: nat)
    ensures out + QuotedRest("", n) == out + Backslashes(n * 2) + ['\"']
  {
    assert out + (Backslashes(n * 2) + "\"") == out + Backslashes(n * 2) + "\"";
  }

  // ---- the documented rules ----

  predicate IsBlank(c: char) { c == ' ' || c == '\t' }

  function LeadingBackslashes(s: string): (n: nat)
    ensures n <= |s| && forall i | 0 <= i < n :: s[i] == '\\'
    ensures n < |s| ==> s[n] != '\\'
  {
    if s != "" && s[0] == '\\' then 1 + LeadingBackslashes(s[1..]) else 0
  }

  /** One argument from the front of `s` and what follows it; `quoted` tells whether the position
      is inside double quotes. Backslashes count only before a double quote: 2n of them stand for
      n and leave the quote to open or close, 2n + 1 stand for n and a literal quote. Inside
      quotes, two quotes in a row stand for one. */
  function Arg(s: string, quoted: bool): (r: (string, string))
    ensures |r.1| <= |s|
    ensures s != "" && (quoted || !IsBlank(s[0])) ==> |r.1| < |s|
    decreases |s|
  {
    if s == "" || (!quoted && IsBlank(s[0])) then ("", s)
    else
      var n := LeadingBackslashes(s);
      if n > 0 then
        if n == |s| then (s, "")
        else if s[n] != '\"' then
          var (a, rest) := Arg(s[n..], quoted);
          (Backslashes(n) + a, rest)
        else if n % 2 == 1 then
          var (a, rest) := Arg(s[n + 1..], quoted);
          (Backslashes(n / 2) + "\"" + a, rest)
        else
          var (a, rest) := Arg(s[n..], quoted);
          (Backslashes(n / 2) + a, rest)
      else if s[0] == '\"' then
        if quoted && |s| > 1 && s[1] == '\"' then
          var (a, rest) := Arg(s[2..], quoted);
          ("\"" + a, rest)
        else Arg(s[1..], !quoted)
      else
        var (a, rest) := Arg(s[1..], quoted);
        ([s[0]] + a, rest)
  }

  function Args(s: string): seq<string>
    decreases |s|
  {
    if s == "" then []
    else if IsBlank(s[0]) then Args(s[1..])
    else
      var (a, rest) := Arg(s, false);
      [a] + Args(rest)
  }

  /** The program name: quotes group, and no backslash escapes anything. */
  function ProgramName(s: string, quoted: bool): (r: (string, string))
    ensures |r.1| <= |s|
    decreases |s|
  {
    if s == "" || (!quoted && IsBlank(s[0])) then ("", s)
    else if s[0] == '\"' then ProgramName(s[1..], !quoted)
    else
      var (a, rest) := ProgramName(s[1..], quoted);
      ([s[0]] + a, rest)
  }

  /** argv of a process started with command line `s`. */
  function Argv(s: string): seq<string> {
    var (program, rest) := ProgramName(s, false);
    [program] + Args(rest)
  }

  // ---- quoting is inverted ----

  lemma {:induction false} LeadingCount(n: nat, t: string)
    requires t == "" || t[0] != '\\'
    ensures LeadingBackslashes(Backslashes(n) + t) == n
  {
    var s := Backslashes(n) + t;
    if n == 0 {
      assert s == t;
    } else {
      assert s[1..] == Backslashes(n - 1) + t;
      LeadingCount(n - 1, t);
    }
  }

  predicate Stops(rest: string) { rest == "" || IsBlank(rest[0]) }

  function Prefixed(front: string, r: (string, string)): (string, string) { (front + r.0, r.1) }

  /** A run of backslashes, inside quotes, before a character that is not one. */
  lemma ArgRun(n: nat, u: string)
    requires n > 0 && u != "" && u[0] != '\\'
    ensures Arg(Backslashes(n) + u, true) ==
      if u[0] != '\"' then Prefixed(Backslashes(n), Arg(u, true))
      else if n % 2 == 1 then Prefixed(Backslashes(n / 2) + "\"", Arg(u[1..], true))
      else Prefixed(Backslashes(n / 2), Arg(u, true))
  {
    hide Backslashes, LeadingBackslashes;
    var s := Backslashes(n) + u;
    LeadingCount(n, u);
    assert s[n..] == u && s[n] == u[0] && s[n + 1..] == u[1..];
  }

  lemma ArgChar(c: char, t: string)
    requires c != '\\' && c != '\"'
    ensures Arg([c] + t, true) == Prefixed([c], Arg(t, true))
  {
    hide Backslashes;
    assert ([c] + t)[1..] == t;
  }

  lemma ArgOpen(t: string)
    ensures Arg("\"" + t, false) == Arg(t, true)
  {
    hide Backslashes;
    assert ("\"" + t)[1..] == t;
  }

  lemma ArgClose(rest: string)
    requires Stops(rest)
    ensures Arg("\"" + rest, true) == ("", rest)
  {
    hide Backslashes;
    assert ("\"" + rest)[1..] == rest;
  }

  lemma {:induction false} ArgInverts(s: string, n: nat, rest: string)
    requires Stops(rest)
    ensures Arg(QuotedRest(s, n) + rest, true) == (Backslashes(n) + s, rest)
    decreases |s|
  {
    hide Arg, Stops;
    if s == "" {
      var u := "\"" + rest;
      ArgClose(rest);
      assert QuotedRest(s, n) + rest == Backslashes(n * 2) + u;
      if n > 0 {
        ArgRun(n * 2, u);
      } else {
        assert Backslashes(0) + u == u;
      }
      assert Backslashes(n) + s == Backslashes(n);
    } else {
      var t := s[1..];
      assert s == [s[0]] + t;
      if s[0] == '\\' {
        ArgInverts(t, n + 1, rest);
        assert Backslashes(n + 1) + t == Backslashes(n) + s;
      } else {
        ArgInverts(t, 0, rest);
        assert Backslashes(0) + t == t;
        ArgInvertsChar(s, n, QuotedRest(t, 0) + rest, rest);
        assert s[0] == '\"' ==>
          QuotedRest(s, n) + rest == Backslashes(n * 2 + 1) + ("\"" + (QuotedRest(t, 0) + rest));
        assert s[0] != '\"' ==>
          QuotedRest(s, n) + rest == Backslashes(n) + ([s[0]] + (QuotedRest(t, 0) + rest));
      }
    }
  }

  lemma ArgInvertsChar(s: string, n: nat, q: string, rest: string)
    requires s != "" && s[0] != '\\' && Arg(q, true) == (s[1..], rest)
    ensures s[0] == '\"' ==> Arg(Backslashes(n * 2 + 1) + ("\"" + q), true) == (Backslashes(n) + s, rest)
    ensures s[0] != '\"' ==> Arg(Backslashes(n) + ([s[0]] + q), true) == (Backslashes(n) + s, rest)
  {
    hide Arg;
    assert s == [s[0]] + s[1..];
    if s[0] == '\"' {
      ArgRun(n * 2 + 1, "\"" + q);
      assert ("\"" + q)[1..] == q;
      assert Backslashes(n) + "\"" + s[1..] == Backslashes(n) + s;
    } else {
      ArgChar(s[0], q);
      if n > 0 {
        ArgRun(n, [s[0]] + q);
      } else {
        assert Backslashes(0) + ([s[0]] + q) == [s[0]] + q;
        assert Backslashes(0) + s == s;
      }
    }
  }

  /** Every string, empty or full of quotes and backslashes, comes back as the one argument. */
  lemma QuoteRoundTrip(a: string, rest: string)
    requires Stops(rest)
    ensures Arg(Quoted(a) + rest, false) == (a, rest)
    ensures Args(Quoted(a)) == [a]
  {
    QuotedArg(a, rest);
    QuotedArg(a, "");
    assert Quoted(a) + "" == Quoted(a);
    assert Args("") == [];
  }

  lemma QuotedArg(a: string, rest: string)
    requires Stops(rest)
    ensures Arg(Quoted(a) + rest, false) == (a, rest)
  {
    hide QuotedRest, Arg;
    ArgInverts(a, 0, rest);
    ArgOpen(QuotedRest(a, 0) + rest);
    assert Quoted(a) + rest == "\"" + (QuotedRest(a, 0) + rest);
    assert Backslashes(0) + a == a;
  }

  // ---- the helper's command line ----

  const OPTION: string := "--dll-base64url"

  function CommandLine(helperPath: string, dll: bytes): string {
    Quoted(helperPath) + " " + OPTION + " " + Base64.UrlEncoded(dll)
  }

  /** How many backslashes the closing quote makes the quoted form repeat. */
  function Doubled(s: string, n: nat): nat
    decreases |s|
  {
    if s == "" then n else Doubled(s[1..], if s[0] == '\\' then n + 1 else 0)
  }

  lemma {:induction false} DoubledIff(s: string, n: nat)
    ensures Doubled(s, n) == 0 <==> (if s == "" then n == 0 else s[|s| - 1] != '\\')
    decreases |s|
  {
    if s != "" {
      DoubledIff(s[1..], if s[0] == '\\' then n + 1 else 0);
    }
  }

  /** Characters that mean nothing to the argument rules. */
  predicate IsPlain(w: string) {
    forall i | 0 <= i < |w| :: w[i] != '\\' && w[i] != '\"' && !IsBlank(w[i])
  }

  lemma {:induction false} PlainArg(w: string, rest: string)
    requires IsPlain(w) && Stops(rest)
    ensures Arg(w + rest, false) == (w, rest)
    decreases |w|
  {
    var s := w + rest;
    if w == "" {
      assert s == rest;
    } else {
      assert s[1..] == w[1..] + rest;
      PlainArg(w[1..], rest);
      assert w == [w[0]] + w[1..];
    }
  }

  lemma EncodingIsPlain(d: bytes)
    ensures IsPlain(Base64.UrlEncoded(d))
  {
    hide Base64.DigitsOf;
    var t, ds := Base64.UrlEncoded(d), Base64.DigitsOf(d);
    forall i | 0 <= i < |t| ensures t[i] != '\\' && t[i] != '\"' && !IsBlank(t[i]) {
      assert t[i] == Base64.UrlChar(ds[i]);
    }
  }

  /** Inside its quotes, a name without quotes is read up to the closing quote. */
  lemma {:induction false} NameInQuotes(w: string, rest: string)
    requires '\"' !in w && Stops(rest)
    ensures ProgramName(w + "\"" + rest, true) == (w, rest)
    decreases |w|
  {
    var s := w + "\"" + rest;
    if w == "" {
      assert s[1..] == rest;
    } else {
      assert s[1..] == w[1..] + "\"" + rest;
      NameInQuotes(w[1..], rest);
      assert w == [w[0]] + w[1..];
    }
  }

  /** Quoting a string without quotes doubles its trailing backslashes and changes nothing else. */
  lemma {:induction false} QuotedPath(s: string, n: nat)
    requires '\"' !in s
    ensures QuotedRest(s, n) == Backslashes(n) + s + Backslashes(Doubled(s, n)) + "\""
    decreases |s|
  {
    if s == "" {
      assert Backslashes(n * 2) + "\"" == Backslashes(n) + s + Backslashes(n) + "\"";
    } else {
      var t := s[1..];
      assert s == [s[0]] + t;
      if s[0] == '\\' {
        QuotedPath(t, n + 1);
        assert Backslashes(n + 1) + t == Backslashes(n) + s;
      } else {
        QuotedPath(t, 0);
        var k := Doubled(t, 0);
        assert Backslashes(0) + t == t;
        assert Backslashes(n) + [s[0]] + (t + Backslashes(k) + "\"") == Backslashes(n) + s + Backslashes(k) + "\"";
      }
    }
  }

  lemma ProgramNameOfQuoted(path: string, rest: string)
    requires '\"' !in path && Stops(rest)
    ensures ProgramName(Quoted(path) + rest, false) == (path + Backslashes(Doubled(path, 0)), rest)
  {
    hide QuotedRest;
    QuotedPath(path, 0);
    var w := path + Backslashes(Doubled(path, 0));
    var s := Quoted(path) + rest;
    assert Backslashes(0) + path == path;
    assert s[1..] == w + "\"" + rest;
    NameInQuotes(w, rest);
  }

  lemma OptionAndEncoding(enc: string)
    requires IsPlain(enc)
    ensures Args(" " + OPTION + " " + enc) == if enc == "" then [OPTION] else [OPTION, enc]
  {
    hide Arg;
    var tail := " " + enc;
    assert IsPlain(OPTION);
    PlainArg(OPTION, tail);
    PlainArg(enc, "");
    assert enc + "" == enc;
    var all := " " + OPTION + tail;
    assert all == " " + OPTION + " " + enc && all[1..] == OPTION + tail;
    assert tail[1..] == enc;
    assert Args("") == [];
    assert Args(tail) == Args(enc);
    assert Args(all) == Args(OPTION + tail) == [OPTION] + Args(tail);
  }

  /** For a helper path without quotes, the process sees the option and the encoded library path
      as its second and third arguments, three in all exactly when the library path is not empty;
      its own name arrives unchanged exactly when it does not end in a backslash. */
  lemma CommandLineArguments(helperPath: string, dll: bytes)
    requires '\"' !in helperPath
    ensures var argv := Argv(CommandLine(helperPath, dll));
      && (|argv| == 3 <==> dll != [])
      && (dll != [] ==> argv[1] == "--dll-base64url" && argv[2] == Base64.UrlEncoded(dll)
                        && Base64.Decoded(argv[2]) == Some(dll))
      && (argv[0] == helperPath <==> helperPath == "" || helperPath[|helperPath| - 1] != '\\')
  {
    hide Quoted, ProgramName, Args, Base64.UrlEncoded, Base64.Decoded;
    var enc := Base64.UrlEncoded(dll);
    var rest := " " + OPTION + " " + enc;
    assert CommandLine(helperPath, dll) == Quoted(helperPath) + rest;
    ProgramNameOfQuoted(helperPath, rest);
    DoubledIff(helperPath, 0);
    EncodingIsPlain(dll);
    OptionAndEncoding(enc);
    Base64.DecodeEncoded(dll);
  }
}
