/** recv_request of agent_main.cpp over a byte stream delivered in pieces
    (RFC 9112 sections 2.1 and 6.2). */
module HttpRecv {
  import opened Octets
  import opened HelperFrame
  import opened Strings

  const MAX_HEADER: nat := 16 * 1024
  const MAX_BODY: nat := 64 * 1024
  const BLANK_LINE: string := "\r\n\r\n"
  const ULONG_MAX: nat := 0xFFFF_FFFF

  datatype HttpRequest = HttpRequest(verb: string, path: string, headers: map<string, string>, body: string)

  /** `Threw`: std::stoul raised an exception. */
  datatype Outcome = Rejected | Threw | Complete(request: HttpRequest)

  // ---- head ----

  predicate EndsHeadAt(data: string, k: nat) {
    k + 4 <= |data| && data[k..k + 4] == BLANK_LINE
  }

  /** First position from `i` of the blank line that ends the head. */
  function HeadEndFrom(data: string, i: nat): (r: Option<nat>)
    requires i <= |data|
    ensures r.Some? ==> i <= r.value && EndsHeadAt(data, r.value)
    ensures forall k | i <= k && EndsHeadAt(data, k) :: r.Some? && r.value <= k
    decreases |data| - i
  {
    if i + 4 > |data| then None
    else if EndsHeadAt(data, i) then Some(i)
    else HeadEndFrom(data, i + 1)
  }

  function HeadEnd(data: string): Option<nat> { HeadEndFrom(data, 0) }

  function LowerChar(c: char): char { if 'A' <= c <= 'Z' then c + 32 as char else c }

  function Lower(s: string): string { seq(|s|, i requires 0 <= i < |s| => LowerChar(s[i])) }

  function FirstColon(s: string): (i: nat)
    ensures i <= |s| && (i < |s| ==> s[i] == ':')
  {
    if s == "" || s[0] == ':' then 0 else 1 + FirstColon(s[1..])
  }

  /** The next word of a stream extraction, and the rest. */
  function Word(s: string): string {
    if s == "" || IsSpace(s[0]) then "" else [s[0]] + Word(s[1..])
  }

  lemma {:induction false} WordIsPrefix(s: string)
    ensures |Word(s)| <= |s|
  {
    if s != "" && !IsSpace(s[0]) {
      WordIsPrefix(s[1..]);
    }
  }

  function FirstWord(s: string): string { Word(TrimLeft(s)) }

  function SecondWord(s: string): string {
    WordIsPrefix(TrimLeft(s));
    FirstWord(TrimLeft(s)[|FirstWord(s)|..])
  }

  function WithHeader(headers: map<string, string>, line: string): map<string, string> {
    var i := FirstColon(line);
    if i == |line| then headers else headers[Lower(Trim(line[..i])) := Trim(line[i + 1..])]
  }

  function HeadersFrom(head: string, pos: nat, headers: map<string, string>): map<string, string>
    requires pos <= |head|
    decreases |head| - pos
  {
    match LineAt(head, pos)
    case None => headers
    case Some((line, next)) => HeadersFrom(head, next, WithHeader(headers, line))
  }

  function Digits(s: string): (r: string)
    ensures forall i | 0 <= i < |r| :: '0' <= r[i] <= '9'
  {
    if s != "" && '0' <= s[0] <= '9' then [s[0]] + Digits(s[1..]) else ""
  }

  function Number(s: string): nat
    requires forall i | 0 <= i < |s| :: '0' <= s[i] <= '9'
  {
    if s == "" then 0 else Number(s[..|s| - 1]) * 10 + (s[|s| - 1] as int - '0' as int)
  }

  /** std::stoul on a 32-bit unsigned long: blanks, a sign, digits; nothing if it throws. */
  function Stoul(s: string): Option<nat> {
    var t := TrimLeft(s);
    var negative := t != "" && t[0] == '-';
    var digits := Digits(if t != "" && (t[0] == '-' || t[0] == '+') then t[1..] else t);
    if digits == "" || Number(digits) > ULONG_MAX then None
    else if negative then Some((TWO_TO_THE_32 - Number(digits)) % TWO_TO_THE_32)
    else Some(Number(digits))
  }

  datatype Head = BadHead | HeadThrew | Head(verb: string, path: string, headers: map<string, string>, contentLength: nat)

  /** What the text before the blank line says. */
  function ParseHead(head: string): Head {
    match LineAt(head, 0)
    case None => BadHead
    case Some((line, next)) =>
      var verb, path := FirstWord(line), SecondWord(line);
      if verb == "" || path == "" then BadHead
      else
        var headers := HeadersFrom(head, next, map[]);
        if "content-length" !in headers then Head(verb, path, headers, 0)
        else match Stoul(headers["content-length"])
          case None => HeadThrew
          case Some(n) => if n > MAX_BODY then BadHead else Head(verb, path, headers, n)
  }

  method ReadHead(head: string) returns (r: Head)
    ensures r == ParseHead(head)
  {
    hide LineAt, WithHeader, FirstWord, SecondWord, Stoul;
    var lines := new Stdin(head);
    var line := lines.ReadLineRequired();
    if line.None? {
      return BadHead;
    }
    var verb, path := FirstWord(line.value), SecondWord(line.value);
    if verb == "" || path == "" {
      return BadHead;
    }
    var headers: map<string, string> := map[];
    ghost var start := lines.pos;
    line := lines.ReadLineRequired();
    ghost var pos := start;
    while line.Some?
      invariant fresh(lines) && lines.Valid() && lines.data == head && pos <= |head|
      invariant HeadersFrom(head, pos, headers) == HeadersFrom(head, start, map[])
      invariant match LineAt(head, pos)
        case None => line == None && lines.pos == pos
        case Some((text, next)) => line == Some(text) && lines.pos == next
      decreases |head| - pos
    {
      LineAdvances(head, pos);
      headers := WithHeader(headers, line.value);
      pos := lines.pos;
      line := lines.ReadLineRequired();
    }
    if "content-length" !in headers {
      return Head(verb, path, headers, 0);
    }
    var n := Stoul(headers["content-length"]);
    if n.None? {
      return HeadThrew;
    }
    if n.value > MAX_BODY {
      return BadHead;
    }
    return Head(verb, path, headers, n.value);
  }

  lemma LineAdvances(data: string, pos: nat)
    requires pos <= |data| && LineAt(data, pos).Some?
    ensures pos < LineAt(data, pos).value.1 <= |data|
  {
  }

  // ---- receiving ----

  /** Receives body pieces until `contentLength` octets are there. */
  function BodyFrom(body: string, chunks: seq<string>, contentLength: nat): Option<string>
    decreases |chunks|
  {
    if |body| >= contentLength then Some(body[..contentLength])
    else if chunks == [] then None
    else
      var b := body + chunks[0];
      if |b| > MAX_BODY then None else BodyFrom(b, chunks[1..], contentLength)
  }

  /** Receives from `data` on; `chunks` is what the socket still delivers before it closes. */
  function ReceiveFrom(data: string, chunks: seq<string>): Outcome
    decreases |chunks|
  {
    match HeadEnd(data)
    case None =>
      if chunks == [] then Rejected
      else
        var d := data + chunks[0];
        if |d| > MAX_HEADER then Rejected else ReceiveFrom(d, chunks[1..])
    case Some(h) =>
      match ParseHead(data[..h])
      case BadHead => Rejected
      case HeadThrew => Threw
      case Head(verb, path, headers, contentLength) =>
        match BodyFrom(data[h + 4..], chunks, contentLength)
        case None => Rejected
        case Some(body) => Complete(HttpRequest(verb, path, headers, body))
  }

  method RecvRequest(chunks: seq<string>) returns (r: Outcome)
    ensures r == ReceiveFrom("", chunks)
  {
    hide ParseHead;
    var data := "";
    var next: nat := 0;
    var headerEnd := HeadEnd(data);
    assert chunks[0..] == chunks;
    while headerEnd == None
      invariant next <= |chunks| && headerEnd == HeadEnd(data)
      invariant ReceiveFrom(data, chunks[next..]) == ReceiveFrom("", chunks)
      decreases |chunks| - next
    {
      if next == |chunks| {
        return Rejected;
      }
      assert chunks[next..][1..] == chunks[next + 1..];
      data := data + chunks[next];
      next := next + 1;
      if |data| > MAX_HEADER {
        return Rejected;
      }
      headerEnd := HeadEnd(data);
    }
    var head := ReadHead(data[..headerEnd.value]);
    if head.BadHead? {
      return Rejected;
    }
    if head.HeadThrew? {
      return Threw;
    }
    var body := data[headerEnd.value + 4..];
    ghost var whole := BodyFrom(body, chunks[next..], head.contentLength);
    while |body| < head.contentLength
      invariant next <= |chunks| && BodyFrom(body, chunks[next..], head.contentLength) == whole
      decreases |chunks| - next
    {
      if next == |chunks| {
        return Rejected;
      }
      assert chunks[next..][1..] == chunks[next + 1..];
      body := body + chunks[next];
      next := next + 1;
      if |body| > MAX_BODY {
        return Rejected;
      }
    }
    return Complete(HttpRequest(head.verb, head.path, head.headers, body[..head.contentLength]));
  }

  // ---- segmentation does not matter ----

  predicate Segments(chunks: seq<string>) {
    forall i | 0 <= i < |chunks| :: 1 <= |chunks[i]| <= 4096
  }

  lemma {:induction false} NoEarlierEnd(s: string, h: nat, i: nat, n: nat)
    requires HeadEnd(s) == Some(h) && i <= h && i <= n <= |s|
    ensures HeadEndFrom(s[..n], i) == if n >= h + 4 then Some(h) else None
    decreases h - i
  {
    var p := s[..n];
    if i + 4 <= n {
      assert p[i..i + 4] == s[i..i + 4];
      assert EndsHeadAt(p, i) <==> EndsHeadAt(s, i);
      if i < h {
        NoEarlierEnd(s, h, i + 1, n);
      }
    }
  }

  lemma {:induction false} BodyWhole(body: string, chunks: seq<string>, contentLength: nat)
    requires |body| + |Flatten(chunks)| == contentLength <= MAX_BODY && Segments(chunks)
    ensures BodyFrom(body, chunks, contentLength) == Some(body + Flatten(chunks))
    decreases |chunks|
  {
    if chunks == [] {
      assert body + "" == body;
    } else {
      assert |chunks[0]| >= 1;
      BodyWhole(body + chunks[0], chunks[1..], contentLength);
      assert body + chunks[0] + Flatten(chunks[1..]) == body + Flatten(chunks);
    }
  }

  /** A good head, and a body of exactly the announced length. */
  predicate WellFormed(stream: string) {
    && HeadEnd(stream).Some?
    && var h := HeadEnd(stream).value;
    && ParseHead(stream[..h]).Head?
    && |stream| == h + 4 + ParseHead(stream[..h]).contentLength
  }

  /** The head with its blank line has at most 12289 octets, or the whole stream at most 16384. */
  predicate FitsEveryCut(stream: string)
    requires WellFormed(stream)
  {
    HeadEnd(stream).value + 4 <= 12289 || |stream| <= 16384
  }

  function RequestIn(stream: string): HttpRequest
    requires WellFormed(stream)
  {
    var h := HeadEnd(stream).value;
    var head := ParseHead(stream[..h]);
    HttpRequest(head.verb, head.path, head.headers, stream[h + 4..])
  }

  lemma {:induction false} ReceiveWhole(stream: string, n: nat, chunks: seq<string>)
    requires WellFormed(stream) && FitsEveryCut(stream) && Segments(chunks)
    requires n <= |stream| && stream[..n] + Flatten(chunks) == stream
    ensures ReceiveFrom(stream[..n], chunks) == Complete(RequestIn(stream))
    decreases |chunks|
  {
    hide ParseHead, HeadEndFrom, BodyFrom;
    var h := HeadEnd(stream).value;
    NoEarlierEnd(stream, h, 0, n);
    var data := stream[..n];
    if n >= h + 4 {
      assert data[..h] == stream[..h];
      var contentLength := ParseHead(stream[..h]).contentLength;
      HeadBound(stream[..h]);
      BodyWhole(data[h + 4..], chunks, contentLength);
      assert data[h + 4..] + Flatten(chunks) == stream[h + 4..];
    } else {
      assert chunks != [];
      var m := n + |chunks[0]|;
      assert data + chunks[0] + Flatten(chunks[1..]) == stream;
      assert stream[..m] == data + chunks[0];
      ReceiveWhole(stream, m, chunks[1..]);
    }
  }

  lemma HeadBound(head: string)
    requires ParseHead(head).Head?
    ensures ParseHead(head).contentLength <= MAX_BODY
  {
  }

  /** However the stream is cut into receives of 1 to 4096 octets, the same method, path, headers
      and body come out. */
  lemma SegmentationIndependent(stream: string, chunks: seq<string>)
    requires WellFormed(stream) && FitsEveryCut(stream) && Segments(chunks) && Flatten(chunks) == stream
    ensures ReceiveFrom("", chunks) == Complete(RequestIn(stream))
  {
    hide ParseHead;
    assert stream[..0] == "" && "" + Flatten(chunks) == stream;
    ReceiveWhole(stream, 0, chunks);
  }

  /** One octet at a time. */
  function Octetwise(s: string): (r: seq<string>)
    ensures |r| == |s| && Segments(r)
  {
    seq(|s|, i requires 0 <= i < |s| => [s[i]])
  }

  lemma {:induction false} FlattenOctetwise(s: string)
    ensures Flatten(Octetwise(s)) == s
  {
    if s != "" {
      FlattenOctetwise(s[1..]);
      assert Octetwise(s)[1..] == Octetwise(s[1..]);
      assert s == [s[0]] + s[1..];
    }
  }

  /** Short of the end of the head, octets are only collected. */
  lemma {:induction false} Collects(stream: string, i: nat, n: nat, rest: seq<string>)
    requires HeadEnd(stream).Some? && i <= n < HeadEnd(stream).value + 4 && n <= |stream| && n <= MAX_HEADER
    ensures ReceiveFrom(stream[..i], Octetwise(stream[i..n]) + rest) == ReceiveFrom(stream[..n], rest)
    decreases n - i
  {
    hide ParseHead, HeadEndFrom, BodyFrom;
    var chunks := Octetwise(stream[i..n]) + rest;
    if i == n {
      assert chunks == rest;
    } else {
      NoEarlierEnd(stream, HeadEnd(stream).value, 0, i);
      assert stream[i..n][1..] == stream[i + 1..n];
      assert chunks[1..] == Octetwise(stream[i + 1..n]) + rest;
      assert chunks[0] == [stream[i]] && stream[..i] + [stream[i]] == stream[..i + 1];
      Collects(stream, i + 1, n, rest);
    }
  }

  /** A cut that is refused: up to the last octet before the head is complete, then enough to pass
      16384 octets at once. */
  lemma RefusedCut(stream: string) returns (chunks: seq<string>)
    requires WellFormed(stream) && !FitsEveryCut(stream)
    ensures Segments(chunks) && Flatten(chunks) == stream && ReceiveFrom("", chunks) == Rejected
  {
    hide ParseHead, HeadEndFrom, BodyFrom;
    var h := HeadEnd(stream).value;
    var n := if h + 3 <= MAX_HEADER then h + 3 else MAX_HEADER;
    var m := MAX_HEADER + 1;
    var a, b, c := Octetwise(stream[..n]), stream[n..m], Octetwise(stream[m..]);
    chunks := a + ([b] + c);
    FlattenOctetwise(stream[..n]);
    FlattenOctetwise(stream[m..]);
    FlattenAppend(a, [b] + c);
    assert ([b] + c)[1..] == c;
    assert stream == stream[..n] + (b + stream[m..]);
    assert stream[..0] == "" && stream[0..n] == stream[..n];
    Collects(stream, 0, n, [b] + c);
    NoEarlierEnd(stream, h, 0, n);
  }

  /** A well-formed request is received the same however it is cut exactly when its head has at most
      12289 octets or it has at most 16384 in all. */
  lemma SegmentationIff(stream: string)
    requires WellFormed(stream)
    ensures (forall chunks | Segments(chunks) && Flatten(chunks) == stream ::
               ReceiveFrom("", chunks) == Complete(RequestIn(stream)))
            <==> FitsEveryCut(stream)
  {
    hide ReceiveFrom, WellFormed, RequestIn;
    if FitsEveryCut(stream) {
      forall chunks | Segments(chunks) && Flatten(chunks) == stream
        ensures ReceiveFrom("", chunks) == Complete(RequestIn(stream))
      {
        SegmentationIndependent(stream, chunks);
      }
    } else {
      var chunks := RefusedCut(stream);
      assert ReceiveFrom("", chunks) != Complete(RequestIn(stream));
    }
  }

  // ---- a printed request is received ----

  function JoinCrlf(lines: seq<string>): string
    requires lines != []
  {
    if |lines| == 1 then lines[0] else lines[0] + "\r\n" + JoinCrlf(lines[1..])
  }

  /** Neither empty nor broken by a line ending. */
  predicate IsLine(s: string) { s != "" && '\n' !in s && s[|s| - 1] != '\r' }

  predicate AreLines(lines: seq<string>) { forall i | 0 <= i < |lines| :: IsLine(lines[i]) }

  function Folded(headers: map<string, string>, lines: seq<string>): map<string, string>
    decreases |lines|
  {
    if lines == [] then headers else Folded(WithHeader(headers, lines[0]), lines[1..])
  }

  lemma InnerLine(front: string, line: string, rest: string)
    requires IsLine(line)
    ensures LineAt(front + line + "\r\n" + rest, |front|) == Some((line, |front + line + "\r\n"|))
  {
    FirstLine(front, line + "\r", rest);
    assert front + (line + "\r") + "\n" + rest == front + line + "\r\n" + rest;
    assert (line + "\r")[..|line|] == line;
  }

  lemma LastLine(front: string, line: string)
    requires IsLine(line)
    ensures LineAt(front + line, |front|) == Some((line, |front + line|))
  {
    var data := front + line;
    forall k | |front| <= k < |data| ensures data[k] != '\n' {
      assert data[k] == line[k - |front|];
    }
    assert data[|front|..LineEnd(data, |front|)] == line;
  }

  lemma {:induction false} HeadersOfLines(front: string, lines: seq<string>, headers: map<string, string>)
    requires lines != [] && AreLines(lines)
    ensures HeadersFrom(front + JoinCrlf(lines), |front|, headers) == Folded(headers, lines)
    decreases |lines|
  {
    hide LineAt, WithHeader;
    var line, data := lines[0], front + JoinCrlf(lines);
    if |lines| == 1 {
      LastLine(front, line);
      NoMoreLines(data);
    } else {
      var rest := lines[1..];
      InnerLine(front, line, JoinCrlf(rest));
      var front' := front + line + "\r\n";
      assert data == front' + JoinCrlf(rest);
      HeadersOfLines(front', rest, WithHeader(headers, line));
    }
  }

  lemma NoMoreLines(data: string)
    ensures LineAt(data, |data|) == None
  {
  }

  predicate IsWord(s: string) { s != "" && forall i | 0 <= i < |s| :: !IsSpace(s[i]) }

  /** Text that trimming leaves alone. */
  predicate IsTrimmed(s: string) { s == "" || (!IsSpace(s[0]) && !IsSpace(s[|s| - 1])) }

  lemma {:induction false} WordAhead(w: string, rest: string)
    requires (forall i | 0 <= i < |w| :: !IsSpace(w[i])) && (rest == "" || IsSpace(rest[0]))
    ensures Word(w + rest) == w
    decreases |w|
  {
    var s := w + rest;
    if w == "" {
      assert s == rest;
    } else {
      assert s[1..] == w[1..] + rest;
      WordAhead(w[1..], rest);
      assert w == [w[0]] + w[1..];
    }
  }

  lemma RequestLine(verb: string, path: string, version: string)
    requires IsWord(verb) && IsWord(path)
    ensures var line := verb + " " + path + " " + version;
      FirstWord(line) == verb && SecondWord(line) == path
  {
    var line := verb + " " + path + " " + version;
    var after := " " + path + " " + version;
    assert line == verb + after;
    WordAhead(verb, after);
    assert TrimLeft(line) == line;
    assert line[|verb|..] == after;
    var tail := path + " " + version;
    assert after[1..] == tail;
    assert TrimLeft(after) == TrimLeft(tail) == tail;
    assert tail == path + (" " + version);
    WordAhead(path, " " + version);
  }

  lemma {:induction false} ColonAfter(name: string, rest: string)
    requires ':' !in name
    ensures FirstColon(name + ":" + rest) == |name|
    decreases |name|
  {
    if name != "" {
      assert (name + ":" + rest)[1..] == name[1..] + ":" + rest;
      ColonAfter(name[1..], rest);
    }
  }

  lemma TrimSelf(s: string)
    requires IsTrimmed(s)
    ensures TrimLeft(s) == s && Trim(s) == s && Trim(" " + s) == s
  {
    assert (" " + s)[1..] == s;
  }

  lemma LineParts(name: string, value: string)
    ensures var line := name + ": " + value;
      line == name + ":" + (" " + value) && line[..|name|] == name && line[|name| + 1..] == " " + value
  {
  }

  /** A field line sets the lower-case name to the value. */
  lemma FieldLine(headers: map<string, string>, name: string, value: string)
    requires ':' !in name && IsTrimmed(name) && IsTrimmed(value)
    ensures WithHeader(headers, name + ": " + value) == headers[Lower(name) := value]
  {
    hide Lower, Trim, TrimLeft, TrimRight, FirstColon;
    LineParts(name, value);
    ColonAfter(name, " " + value);
    TrimSelf(name);
    TrimSelf(value);
  }

  datatype Field = Field(name: string, value: string)

  predicate IsField(f: Field) {
    && ':' !in f.name && '\n' !in f.name && IsTrimmed(f.name)
    && '\n' !in f.value && IsTrimmed(f.value) && f.value != ""
  }

  predicate AreFields(fields: seq<Field>) { forall i | 0 <= i < |fields| :: IsField(fields[i]) }

  function FieldLines(fields: seq<Field>): (r: seq<string>)
    ensures |r| == |fields|
  {
    seq(|fields|, i requires 0 <= i < |fields| => fields[i].name + ": " + fields[i].value)
  }

  /** Fields by lower-case name, the last one of a name winning. */
  function FieldMap(fields: seq<Field>): map<string, string> {
    if fields == [] then map[]
    else FieldMap(fields[..|fields| - 1])[Lower(fields[|fields| - 1].name) := fields[|fields| - 1].value]
  }

  // ---- names by character code ----

  /** `key` is `name` with the capital letters, codes 65 to 90, made small. */
  predicate LowersTo(name: string, key: string) {
    && |name| == |key|
    && forall i | 0 <= i < |name| ::
         key[i] as int == if 65 <= name[i] as int <= 90 then name[i] as int + 32 else name[i] as int
  }

  lemma LowerIff(name: string, key: string)
    ensures Lower(name) == key <==> LowersTo(name, key)
  {
  }

  /** Field `i` is the last whose name is `key` but for case. */
  predicate LastNamed(fields: seq<Field>, i: nat, key: string) {
    && i < |fields| && LowersTo(fields[i].name, key)
    && forall j | i < j < |fields| :: !LowersTo(fields[j].name, key)
  }

  /** Every name in lower case has the value of the last field so called, and there is nothing else. */
  ghost predicate HoldsFields(headers: map<string, string>, fields: seq<Field>) {
    && (forall key | key in headers :: exists i: nat :: LastNamed(fields, i, key))
    && (forall i: nat, key | LastNamed(fields, i, key) :: key in headers && headers[key] == fields[i].value)
  }

  lemma LastNamedSnoc(front: seq<Field>, last: Field, i: nat, key: string)
    ensures LastNamed(front + [last], i, key) <==>
      if LowersTo(last.name, key) then i == |front| else LastNamed(front, i, key)
  {
    hide LowersTo;
    var all := front + [last];
    assert all[|front|] == last;
    assert forall j | 0 <= j < |front| :: all[j] == front[j];
    if LowersTo(last.name, key) && i < |front| {
      assert LowersTo(all[|front|].name, key);
    }
  }

  lemma {:induction false} FieldMapHolds(fields: seq<Field>)
    ensures HoldsFields(FieldMap(fields), fields)
    decreases |fields|
  {
    if fields != [] {
      hide LowersTo, Lower, LastNamed;
      var front, last := fields[..|fields| - 1], fields[|fields| - 1];
      FieldMapHolds(front);
      var m, m' := FieldMap(front), FieldMap(fields);
      assert fields == front + [last];
      var low := Lower(last.name);
      assert m' == m[low := last.value];
      forall key | key in m' ensures exists i: nat :: LastNamed(fields, i, key) {
        LowerIff(last.name, key);
        if key == low {
          LastNamedSnoc(front, last, |front|, key);
        } else {
          var i: nat :| LastNamed(front, i, key);
          LastNamedSnoc(front, last, i, key);
        }
      }
      forall i: nat, key | LastNamed(fields, i, key) ensures key in m' && i < |fields| && m'[key] == fields[i].value {
        LowerIff(last.name, key);
        LastNamedSnoc(front, last, i, key);
        LastNamedIndex(fields, i, key);
        if key != low {
          LastNamedIndex(front, i, key);
        }
      }
      LastNamedIndexAll(fields);
    }
  }

  lemma LastNamedIndex(fields: seq<Field>, i: nat, key: string)
    requires LastNamed(fields, i, key)
    ensures i < |fields|
  {
  }

  lemma LastNamedIndexAll(fields: seq<Field>)
    ensures forall i: nat, key | LastNamed(fields, i, key) :: i < |fields|
  {
  }

  lemma {:induction false} FoldedSnoc(headers: map<string, string>, lines: seq<string>, line: string)
    ensures Folded(headers, lines + [line]) == WithHeader(Folded(headers, lines), line)
    decreases |lines|
  {
    hide WithHeader;
    if lines == [] {
      assert [] + [line] == [line];
    } else {
      assert (lines + [line])[1..] == lines[1..] + [line];
      FoldedSnoc(WithHeader(headers, lines[0]), lines[1..], line);
    }
  }

  lemma {:induction false} FoldedFields(fields: seq<Field>)
    requires AreFields(fields)
    ensures Folded(map[], FieldLines(fields)) == FieldMap(fields)
    decreases |fields|
  {
    hide WithHeader, Lower;
    if fields != [] {
      var front, last := fields[..|fields| - 1], fields[|fields| - 1];
      FoldedFields(front);
      FoldedSnoc(map[], FieldLines(front), last.name + ": " + last.value);
      assert FieldLines(fields) == FieldLines(front) + [last.name + ": " + last.value];
      FieldLine(FieldMap(front), last.name, last.value);
    }
  }

  lemma FieldLinesAreLines(fields: seq<Field>)
    requires AreFields(fields)
    ensures AreLines(FieldLines(fields))
  {
    forall i | 0 <= i < |fields| ensures IsLine(FieldLines(fields)[i]) {
      var f := fields[i];
      var line := f.name + ": " + f.value;
      assert line[|line| - 1] == f.value[|f.value| - 1];
    }
  }

  // ---- content length ----

  lemma {:induction false} DecimalDigits(n: nat)
    ensures forall i | 0 <= i < |Decimal(n)| :: '0' <= Decimal(n)[i] <= '9'
    ensures Number(Decimal(n)) == n
  {
    if n >= 10 {
      DecimalDigits(n / 10);
      assert Decimal(n)[..|Decimal(n)| - 1] == Decimal(n / 10);
    } else {
      assert Number("") == 0;
      assert Decimal(n)[..0] == "";
    }
  }

  lemma {:induction false} AllDigits(s: string)
    requires forall i | 0 <= i < |s| :: '0' <= s[i] <= '9'
    ensures Digits(s) == s
  {
    if s != "" {
      AllDigits(s[1..]);
      assert s == [s[0]] + s[1..];
    }
  }

  lemma StoulOfDecimal(n: nat)
    requires n <= ULONG_MAX
    ensures Stoul(Decimal(n)) == Some(n) && IsTrimmed(Decimal(n)) && '\n' !in Decimal(n)
  {
    hide Decimal, Digits, Number, TrimLeft;
    DecimalDigits(n);
    var s := Decimal(n);
    AllDigits(s);
    assert '0' <= s[0] <= '9' && '0' <= s[|s| - 1] <= '9';
    TrimSelf(s);
  }

  // ---- the whole request ----

  /** Request line, fields, blank line, body. */
  function Printed(verb: string, path: string, version: string, fields: seq<Field>, body: string): string
    requires fields != []
  {
    JoinCrlf([verb + " " + path + " " + version] + FieldLines(fields)) + BLANK_LINE + body
  }

  lemma {:induction false} NoBlankLine(lines: seq<string>, rest: string, k: nat)
    requires lines != [] && AreLines(lines) && k < |JoinCrlf(lines)|
    ensures !EndsHeadAt(JoinCrlf(lines) + BLANK_LINE + rest, k)
    decreases |lines|
  {
    var data, line := JoinCrlf(lines) + BLANK_LINE + rest, lines[0];
    var n := |line|;
    if |lines| == 1 {
      assert data == line + "\r\n" + ("\r\n" + rest);
      NoBlankInLine(line, "\r\n" + rest, k);
    } else {
      hide EndsHeadAt, IsLine;
      var next := lines[1..];
      var tail := JoinCrlf(next) + BLANK_LINE + rest;
      assert data == line + "\r\n" + tail;
      if k >= n + 2 {
        NoBlankLine(next, rest, k - n - 2);
        EndsHeadBehind(line + "\r\n", tail, k - n - 2);
      } else {
        NextLineStarts(next, rest);
        NoBlankInLine(line, tail, k);
      }
    }
  }

  lemma EndsHeadBehind(front: string, tail: string, k: nat)
    ensures EndsHeadAt(front + tail, |front| + k) <==> EndsHeadAt(tail, k)
  {
    var data, p := front + tail, |front| + k;
    if k + 4 <= |tail| {
      assert data[p..p + 4] == tail[k..k + 4];
    }
  }

  lemma EndsHeadChars(data: string, k: nat)
    ensures EndsHeadAt(data, k) ==>
      k + 4 <= |data| && data[k] == '\r' && data[k + 1] == '\n' && data[k + 2] == '\r' && data[k + 3] == '\n'
  {
    if k + 4 <= |data| {
      var four := data[k..k + 4];
      assert data[k] == four[0] && data[k + 1] == four[1] && data[k + 2] == four[2] && data[k + 3] == four[3];
    }
  }

  /** No head ends within a line or right behind one that another line follows. */
  lemma NoBlankInLine(line: string, tail: string, k: nat)
    requires IsLine(line) && k < |line| + 2 && (k == |line| ==> |tail| >= 2 && !(tail[0] == '\r' && tail[1] == '\n'))
    ensures !EndsHeadAt(line + "\r\n" + tail, k)
  {
    var data, n := line + "\r\n" + tail, |line|;
    assert k + 1 < n ==> data[k + 1] == line[k + 1];
    assert data[n] == '\r' && data[n + 1] == '\n';
    assert k == n ==> data[k + 2] == tail[0] && data[k + 3] == tail[1];
    EndsHeadChars(data, k);
  }

  lemma NextLineStarts(lines: seq<string>, rest: string)
    requires lines != [] && AreLines(lines)
    ensures var tail := JoinCrlf(lines) + BLANK_LINE + rest;
      |tail| >= 2 && !(tail[0] == '\r' && tail[1] == '\n')
  {
    var tail, line := JoinCrlf(lines) + BLANK_LINE + rest, lines[0];
    assert IsLine(line);
    assert tail[0] == line[0];
    if |line| > 1 {
      assert tail[1] == line[1];
    }
  }

  lemma HeadOfPrinted(lines: seq<string>, body: string)
    requires lines != [] && AreLines(lines)
    ensures HeadEnd(JoinCrlf(lines) + BLANK_LINE + body) == Some(|JoinCrlf(lines)|)
  {
    var data, h := JoinCrlf(lines) + BLANK_LINE + body, |JoinCrlf(lines)|;
    assert data[h..h + 4] == BLANK_LINE;
    assert EndsHeadAt(data, h);
    var r := HeadEnd(data).value;
    if r < h {
      NoBlankLine(lines, body, r);
    }
  }

  /** A printed request whose last field called Content-Length, in any mixture of cases, gives the
      length of the body is received as printed, however it is cut: each field under its name in
      lower case, the last of a name winning. */
  lemma PrintedIsReceived(verb: string, path: string, version: string, fields: seq<Field>, n: nat, body: string, chunks: seq<string>)
    requires IsWord(verb) && IsWord(path) && IsLine(version) && fields != [] && AreFields(fields)
    requires |body| <= 65536 && LastNamed(fields, n, "content-length") && fields[n].value == Decimal(|body|)
    requires var all := Printed(verb, path, version, fields, body);
      |all| - |body| <= 12289 || |all| <= 16384
    requires Segments(chunks) && Flatten(chunks) == Printed(verb, path, version, fields, body)
    ensures ReceiveFrom("", chunks) == Complete(HttpRequest(verb, path, FieldMap(fields), body))
    ensures HoldsFields(FieldMap(fields), fields)
  {
    FieldMapHolds(fields);
    assert "content-length" in FieldMap(fields) && FieldMap(fields)["content-length"] == Decimal(|body|);
    hide HoldsFields, LastNamed;
    hide ReceiveFrom, HeadEndFrom, JoinCrlf, FieldMap, Decimal, Flatten, Stoul, LineAt, FirstWord, SecondWord;
    var first, rest := verb + " " + path + " " + version, FieldLines(fields);
    var lines, stream := [first] + rest, Printed(verb, path, version, fields, body);
    var head := JoinCrlf(lines);
    FieldLinesAreLines(fields);
    FirstIsLine(verb, path, version);
    assert AreLines(lines);
    HeadOfPrinted(lines, body);
    assert stream[..|head|] == head && stream[|head| + 4..] == body;
    ParseHeadOfPrinted(verb, path, version, fields);
    StoulOfDecimal(|body|);
    SegmentationIndependent(stream, chunks);
  }

  lemma FirstIsLine(verb: string, path: string, version: string)
    requires IsWord(verb) && IsWord(path) && IsLine(version)
    ensures IsLine(verb + " " + path + " " + version)
  {
    var line := verb + " " + path + " " + version;
    assert line[|line| - 1] == version[|version| - 1];
    assert '\n' !in verb && '\n' !in path;
  }

  lemma ParseHeadOfPrinted(verb: string, path: string, version: string, fields: seq<Field>)
    requires IsWord(verb) && IsWord(path) && IsLine(version) && fields != [] && AreFields(fields)
    ensures var head := JoinCrlf([verb + " " + path + " " + version] + FieldLines(fields));
      var headers := FieldMap(fields);
      ParseHead(head) ==
        if "content-length" !in headers then Head(verb, path, headers, 0)
        else match Stoul(headers["content-length"])
          case None => HeadThrew
          case Some(n) => if n > MAX_BODY then BadHead else Head(verb, path, headers, n)
  {
    hide LineAt, HeadersFrom, Folded, FieldMap, Stoul, FirstWord, SecondWord;
    var first, rest := verb + " " + path + " " + version, FieldLines(fields);
    FirstIsLine(verb, path, version);
    FieldLinesAreLines(fields);
    assert ([first] + rest)[1..] == rest;
    var head, front := JoinCrlf([first] + rest), first + "\r\n";
    assert head == front + JoinCrlf(rest) == "" + first + "\r\n" + JoinCrlf(rest);
    InnerLine("", first, JoinCrlf(rest));
    assert "" + first + "\r\n" == front;
    HeadersOfLines(front, rest, map[]);
    FoldedFields(fields);
    RequestLine(verb, path, version);
  }

  // ---- lengths that are refused ----

  lemma {:induction false} DigitsAhead(s: string, rest: string)
    requires (forall i | 0 <= i < |s| :: '0' <= s[i] <= '9') && (rest == "" || !('0' <= rest[0] <= '9'))
    ensures Digits(s + rest) == s
    decreases |s|
  {
    var all := s + rest;
    if s == "" {
      assert all == rest;
    } else {
      assert all[0] == s[0] && all[1..] == s[1..] + rest;
      DigitsAhead(s[1..], rest);
      assert s == [s[0]] + s[1..];
    }
  }

  /** A number is read with or without a sign and whatever follows it; from 4294967296 on it throws,
      and a negative one wraps. */
  lemma StoulText(n: nat, rest: string)
    requires rest == "" || !(48 <= rest[0] as int <= 57)
    ensures Stoul(Decimal(n) + rest) == if n < 4294967296 then Some(n) else None
    ensures Stoul("+" + Decimal(n) + rest) == if n < 4294967296 then Some(n) else None
    ensures Stoul("-" + Decimal(n) + rest) ==
            if n >= 4294967296 then None else if n == 0 then Some(0) else Some(4294967296 - n)
  {
    hide Decimal, Digits, Number;
    var s := Decimal(n);
    DecimalDigits(n);
    DigitsAhead(s, rest);
    assert '0' <= (s + rest)[0] <= '9';
    assert ("+" + s + rest)[1..] == s + rest && ("-" + s + rest)[1..] == s + rest;
  }

  /** Text that does not begin with a blank, a sign or a digit throws. */
  lemma StoulForeign(s: string)
    requires s == "" || (var c := s[0] as int; !IsBlankCode(c) && c != 43 && c != 45 && !(48 <= c <= 57))
    ensures Stoul(s) == None
  {
    if s != "" {
      SpaceCodes(s[0]);
    }
  }

  /** A printed head whose last Content-Length, in any mixture of cases, is a number is refused exactly
      above 65536 and throws exactly from 4294967296 on; without one the body is empty. */
  lemma LengthRefused(verb: string, path: string, version: string, fields: seq<Field>, i: nat, n: nat)
    requires IsWord(verb) && IsWord(path) && IsLine(version) && fields != [] && AreFields(fields)
    requires LastNamed(fields, i, "content-length") && fields[i].value == Decimal(n)
    ensures var head := ParseHead(JoinCrlf([verb + " " + path + " " + version] + FieldLines(fields)));
      if n >= 4294967296 then head == HeadThrew
      else if n > 65536 then head == BadHead
      else head == Head(verb, path, FieldMap(fields), n)
  {
    FieldMapHolds(fields);
    assert "content-length" in FieldMap(fields) && FieldMap(fields)["content-length"] == Decimal(n);
    hide HoldsFields, LastNamed, ParseHead, JoinCrlf, FieldMap, Stoul, Decimal;
    ParseHeadOfPrinted(verb, path, version, fields);
    StoulText(n, "");
    assert Decimal(n) + "" == Decimal(n);
  }

  lemma NoLength(verb: string, path: string, version: string, fields: seq<Field>)
    requires IsWord(verb) && IsWord(path) && IsLine(version) && fields != [] && AreFields(fields)
    requires forall i | 0 <= i < |fields| :: !LowersTo(fields[i].name, "content-length")
    ensures ParseHead(JoinCrlf([verb + " " + path + " " + version] + FieldLines(fields)))
            == Head(verb, path, FieldMap(fields), 0)
  {
    FieldMapHolds(fields);
    hide ParseHead, JoinCrlf, FieldMap, Stoul;
    ParseHeadOfPrinted(verb, path, version, fields);
  }

  /** A request line without a second word is refused. */
  lemma NoPath(verb: string)
    requires IsLine(verb) && forall i | 0 <= i < |verb| :: !IsBlankCode(verb[i] as int)
    ensures ParseHead(verb) == BadHead
  {
    hide LineAt, HeadersFrom, Stoul;
    LastLine("", verb);
    assert "" + verb == verb;
    forall i | 0 <= i < |verb| ensures !IsSpace(verb[i]) {
      SpaceCodes(verb[i]);
    }
    WordAhead(verb, "");
    assert verb + "" == verb;
    assert TrimLeft(verb) == verb && verb[|verb|..] == "";
  }
}
