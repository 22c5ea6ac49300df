/** The nine-line message from agent to helper: common_helper_input of agent_main.cpp, and
    read_line_required with the frame decoding of helper_main.cpp. */
module HelperFrame {
  import opened Octets
  import opened Strings
  import opened Base64

  const LINES: nat := 9
  const MAX_CHALLENGE: nat := 4096
  const MAX_PIN: nat := 64
  const MAX_USER_ID: nat := 8192

  // ---- lines ----

  /** The lines, each with its line feed. */
  function Joined(lines: seq<string>): string {
    if lines == [] then "" else lines[0] + "\n" + Joined(lines[1..])
  }

  /** Index of the first line feed from `pos`, or the end. */
  function LineEnd(data: string, pos: nat): (e: nat)
    requires pos <= |data|
    ensures pos <= e <= |data|
    ensures forall k | pos <= k < e :: data[k] != '\n'
    ensures e < |data| ==> data[e] == '\n'
    decreases |data| - pos
  {
    if pos == |data| || data[pos] == '\n' then pos else LineEnd(data, pos + 1)
  }

  function DropCr(s: string): string {
    if s != "" && s[|s| - 1] == '\r' then s[..|s| - 1] else s
  }

  /** What std::getline followed by the removal of a carriage return yields at `pos`. */
  function LineAt(data: string, pos: nat): Option<(string, nat)>
    requires pos <= |data|
  {
    if pos == |data| then None
    else
      var e := LineEnd(data, pos);
      Some((DropCr(data[pos..e]), if e < |data| then e + 1 else e))
  }

  /** `n` lines read one after the other, if there are that many. */
  function LinesAt(data: string, pos: nat, n: nat): (r: Option<seq<string>>)
    requires pos <= |data|
    ensures r.Some? ==> |r.value| == n
    decreases n
  {
    if n == 0 then Some([])
    else match LineAt(data, pos)
      case None => None
      case Some((line, next)) =>
        match LinesAt(data, next, n - 1)
        case None => None
        case Some(rest) => Some([line] + rest)
  }

  /** A line the channel carries unchanged. */
  predicate Carried(s: string) {
    '\n' !in s && DropCr(s) == s
  }

  lemma {:induction false} LineEndAt(data: string, pos: nat, e: nat)
    requires pos <= e < |data| && data[e] == '\n' && forall k | pos <= k < e :: data[k] != '\n'
    ensures LineEnd(data, pos) == e
    decreases e - pos
  {
    if pos < e {
      LineEndAt(data, pos + 1, e);
    }
  }

  lemma FirstLine(front: string, line: string, rest: string)
    requires '\n' !in line
    ensures var data := front + line + "\n" + rest;
      LineAt(data, |front|) == Some((DropCr(line), |front + line + "\n"|))
  {
    hide DropCr, LineEnd;
    var data := front + line + "\n" + rest;
    var e := |front| + |line|;
    assert data[|front|..e] == line;
    assert forall k | |front| <= k < e :: data[k] == line[k - |front|];
    LineEndAt(data, |front|, e);
  }

  function Stripped(lines: seq<string>): (r: seq<string>)
    ensures |r| == |lines|
  {
    seq(|lines|, i requires 0 <= i < |lines| => DropCr(lines[i]))
  }

  /** A line that was read has no line feed. */
  lemma {:induction false} ReadLinesHaveNoFeed(data: string, pos: nat, n: nat)
    requires pos <= |data| && LinesAt(data, pos, n).Some?
    ensures forall i | 0 <= i < n :: '\n' !in LinesAt(data, pos, n).value[i]
    decreases n
  {
    hide LineAt;
    if n > 0 {
      var (line, next) := LineAt(data, pos).value;
      LineHasNoFeed(data, pos);
      ReadLinesHaveNoFeed(data, next, n - 1);
      assert LinesAt(data, pos, n).value == [line] + LinesAt(data, next, n - 1).value;
    }
  }

  lemma LineHasNoFeed(data: string, pos: nat)
    requires pos <= |data| && LineAt(data, pos).Some?
    ensures '\n' !in LineAt(data, pos).value.0 && LineAt(data, pos).value.1 <= |data|
  {
  }

  /** Where no line has a feed, the first lines come back with final carriage returns removed. */
  lemma {:induction false} FeedlessLines(front: string, lines: seq<string>, n: nat)
    requires n <= |lines| && forall i | 0 <= i < |lines| :: '\n' !in lines[i]
    ensures LinesAt(front + Joined(lines), |front|, n) == Some(Stripped(lines)[..n])
    decreases n
  {
    hide LineAt, DropCr;
    if n > 0 {
      var line, rest := lines[0], lines[1..];
      var front' := front + line + "\n";
      FirstLine(front, line, Joined(rest));
      FeedlessLines(front', rest, n - 1);
      assert front + Joined(lines) == front' + Joined(rest);
      assert Stripped(lines) == [DropCr(line)] + Stripped(rest);
      assert Stripped(lines)[..n] == [DropCr(line)] + Stripped(rest)[..n - 1];
    }
  }

  /** The channel returns the lines exactly when each has no line feed and no final carriage return. */
  lemma LinesIffCarried(lines: seq<string>)
    ensures LinesAt(Joined(lines), 0, |lines|) == Some(lines) <==> forall i | 0 <= i < |lines| :: Carried(lines[i])
  {
    hide LinesAt, Joined, DropCr;
    assert "" + Joined(lines) == Joined(lines);
    if forall i | 0 <= i < |lines| :: Carried(lines[i]) {
      FeedlessLines("", lines, |lines|);
      assert Stripped(lines)[..|lines|] == lines;
    }
    if LinesAt(Joined(lines), 0, |lines|) == Some(lines) {
      ReadLinesHaveNoFeed(Joined(lines), 0, |lines|);
      FeedlessLines("", lines, |lines|);
      forall i | 0 <= i < |lines| ensures Carried(lines[i]) {
        assert Stripped(lines)[..|lines|][i] == DropCr(lines[i]);
      }
    }
  }

  // ---- the agent's side ----

  function Ended(line: string): string { line + "\n" }

  /** common_helper_input; byte strings are UTF-8 already. */
  function CommonHelperInput(operation: string, challenge: string, pin: bytes, userId: string, requestId: bytes,
                             device: bytes, application: bytes, container: bytes, certificateType: string): string {
    Ended(operation) + Ended(challenge) + Ended(UrlEncoded(pin)) + Ended(userId) + Ended(UrlEncoded(requestId)) +
    Ended(UrlEncoded(device)) + Ended(UrlEncoded(application)) + Ended(UrlEncoded(container)) + Ended(certificateType)
  }

  // ---- the helper's side ----

  datatype Request = Request(operation: string, challenge: bytes, pin: bytes, userId: bytes, requestId: bytes,
                             device: bytes, application: bytes, container: bytes, certificateType: string)

  datatype Error = MissingLine | InvalidBase64 | ChallengeLength | PinLength | UserIdLength

  datatype Result = Accepted(request: Request) | Thrown(error: Error)

  /** The request made of nine lines. */
  function RequestOf(l: seq<string>): Result
    requires |l| == LINES
  {
    var challenge, pin, userId := Decoded(l[1]), Decoded(l[2]), Decoded(l[3]);
    var requestId, device, application, container := Decoded(l[4]), Decoded(l[5]), Decoded(l[6]), Decoded(l[7]);
    if challenge.None? || pin.None? || userId.None? || requestId.None? || device.None? || application.None? || container.None?
    then Thrown(InvalidBase64)
    else if |challenge.value| > MAX_CHALLENGE then Thrown(ChallengeLength)
    else if |pin.value| > MAX_PIN then Thrown(PinLength)
    else if |userId.value| > MAX_USER_ID then Thrown(UserIdLength)
    else Accepted(Request(l[0], challenge.value, pin.value, userId.value, requestId.value,
                          device.value, application.value, container.value, l[8]))
  }

  function Received(data: string): Result {
    match LinesAt(data, 0, LINES)
    case None => Thrown(MissingLine)
    case Some(lines) => RequestOf(lines)
  }

  class Stdin {
    const data: string
    var pos: nat

    ghost predicate Valid() reads this { pos <= |data| }

    constructor (data: string)
      ensures Valid() && this.data == data && pos == 0
    {
      this.data, pos := data, 0;
    }

    method ReadLineRequired() returns (line: Option<string>)
      requires Valid()
      modifies this
      ensures Valid()
      ensures match LineAt(data, old(pos))
        case None => line == None && pos == old(pos)
        case Some((text, next)) => line == Some(text) && pos == next
    {
      if pos == |data| {
        return None;
      }
      var e := pos;
      while e < |data| && data[e] != '\n'
        invariant pos == old(pos) <= e <= |data| && LineEnd(data, e) == LineEnd(data, pos)
      {
        e := e + 1;
      }
      var value := data[pos..e];
      pos := if e < |data| then e + 1 else e;
      if value != "" && value[|value| - 1] == '\r' {
        value := value[..|value| - 1];
      }
      return Some(value);
    }

    /** `n` reads in a row; the first missing line ends them. */
    method ReadLines(n: nat) returns (r: Option<seq<string>>)
      requires Valid()
      modifies this
      ensures Valid() && r == LinesAt(data, old(pos), n)
    {
      hide LineAt;
      if n == 0 {
        return Some([]);
      }
      var line := ReadLineRequired();
      if line.None? {
        return None;
      }
      r := ReadLines(n - 1);
      if r.Some? {
        r := Some([line.value] + r.value);
      }
    }

    /** The nine reads and the decoding that follow each other in the helper's main. */
    method ReadRequest() returns (r: Result)
      requires Valid() && pos == 0
      modifies this
      ensures r == Received(data)
    {
      hide Decoded;
      var read := ReadLines(LINES);
      if read.None? {
        return Thrown(MissingLine);
      }
      var lines := read.value;
      var challenge := Base64UrlDecode(lines[1]);
      var pin := Base64UrlDecode(lines[2]);
      var userId := Base64UrlDecode(lines[3]);
      var requestId := Base64UrlDecode(lines[4]);
      var device := Base64UrlDecode(lines[5]);
      var application := Base64UrlDecode(lines[6]);
      var container := Base64UrlDecode(lines[7]);
      if challenge.None? || pin.None? || userId.None? || requestId.None? || device.None? || application.None? || container.None? {
        return Thrown(InvalidBase64);
      }
      if |challenge.value| > MAX_CHALLENGE {
        return Thrown(ChallengeLength);
      }
      if |pin.value| > MAX_PIN {
        return Thrown(PinLength);
      }
      if |userId.value| > MAX_USER_ID {
        return Thrown(UserIdLength);
      }
      return Accepted(Request(lines[0], challenge.value, pin.value, userId.value, requestId.value,
                              device.value, application.value, container.value, lines[8]));
    }
  }

  // ---- what the helper reads ----

  lemma JoinedCons(line: string, rest: seq<string>)
    ensures Joined([line] + rest) == line + "\n" + Joined(rest)
  {
    assert ([line] + rest)[1..] == rest;
  }

  lemma NothingJoined()
    ensures Joined([]) == ""
  {
  }

  lemma {:induction false} JoinedAppend(a: seq<string>, b: seq<string>)
    ensures Joined(a + b) == Joined(a) + Joined(b)
    decreases |a|
  {
    hide Joined;
    if a == [] {
      NothingJoined();
      assert a + b == b;
    } else {
      JoinedAppend(a[1..], b);
      JoinedCons(a[0], a[1..]);
      JoinedCons(a[0], a[1..] + b);
      assert a == [a[0]] + a[1..];
      assert a + b == [a[0]] + (a[1..] + b);
    }
  }

  /** A text that is sent as it is arrives as its pieces between line feeds. */
  lemma {:induction false} JoinedPieces(us: seq<string>)
    requires us != []
    ensures Joined(us) == Join(us, '\n') + "\n"
    decreases |us|
  {
    assert us == [us[0]] + us[1..];
    JoinedCons(us[0], us[1..]);
    if |us| > 1 {
      JoinedPieces(us[1..]);
    } else {
      assert us[1..] == [];
    }
  }

  /** The lines of a message: challenge and user id each as many as they have pieces. */
  function MessageLines(operation: string, challenge: string, pin: bytes, userId: string, requestId: bytes,
                        device: bytes, application: bytes, container: bytes, certificateType: string): seq<string> {
    [operation] + Split(challenge, '\n') + ([UrlEncoded(pin)] + Split(userId, '\n') +
    [UrlEncoded(requestId), UrlEncoded(device), UrlEncoded(application), UrlEncoded(container), certificateType])
  }

  lemma JoinedTail(requestId: string, device: string, application: string, container: string, certificateType: string)
    ensures Joined([requestId, device, application, container, certificateType])
            == Ended(requestId) + Ended(device) + Ended(application) + Ended(container) + Ended(certificateType)
  {
    hide Joined, Ended;
    JoinedLine(requestId);
    JoinedLine(device);
    JoinedLine(application);
    JoinedLine(container);
    JoinedLine(certificateType);
    JoinedAppend([requestId], [device]);
    JoinedAppend([requestId, device], [application]);
    JoinedAppend([requestId, device, application], [container]);
    JoinedAppend([requestId, device, application, container], [certificateType]);
    assert [requestId] + [device] == [requestId, device];
    assert [requestId, device] + [application] == [requestId, device, application];
    assert [requestId, device, application] + [container] == [requestId, device, application, container];
    assert [requestId, device, application, container] + [certificateType]
        == [requestId, device, application, container, certificateType];
  }

  lemma JoinedText(text: string)
    ensures Joined(Split(text, '\n')) == Ended(text)
  {
    JoinedPieces(Split(text, '\n'));
    JoinSplit(text, '\n');
  }

  lemma JoinedLine(line: string)
    ensures Joined([line]) == Ended(line)
  {
    NothingJoined();
    JoinedCons(line, []);
    assert [line] + [] == [line];
  }

  /** The message is its lines. */
  lemma MessageIsJoined(operation: string, challenge: string, pin: bytes, userId: string, requestId: bytes,
                        device: bytes, application: bytes, container: bytes, certificateType: string)
    ensures CommonHelperInput(operation, challenge, pin, userId, requestId, device, application, container, certificateType)
            == Joined(MessageLines(operation, challenge, pin, userId, requestId, device, application, container, certificateType))
  {
    hide Joined, UrlEncoded, Split, Ended;
    var r, d, a, c := UrlEncoded(requestId), UrlEncoded(device), UrlEncoded(application), UrlEncoded(container);
    var tail := [r, d, a, c, certificateType];
    var cs, us := Split(challenge, '\n'), Split(userId, '\n');
    JoinedTail(r, d, a, c, certificateType);
    JoinedLine(operation);
    JoinedText(challenge);
    JoinedLine(UrlEncoded(pin));
    JoinedText(userId);
    JoinedAppend([operation], cs);
    JoinedAppend([UrlEncoded(pin)], us);
    JoinedAppend([UrlEncoded(pin)] + us, tail);
    JoinedAppend([operation] + cs, [UrlEncoded(pin)] + us + tail);
    Regroup(Ended(operation), Ended(challenge), Ended(UrlEncoded(pin)), Ended(userId),
            Ended(r), Ended(d), Ended(a), Ended(c), Ended(certificateType));
  }

  lemma Regroup(l0: string, l1: string, l2: string, l3: string, l4: string, l5: string, l6: string, l7: string, l8: string)
    ensures l0 + l1 + l2 + l3 + l4 + l5 + l6 + l7 + l8 == l0 + l1 + (l2 + l3 + (l4 + l5 + l6 + l7 + l8))
  {
    var tail := l4 + l5 + l6 + l7 + l8;
    assert l0 + l1 + l2 + l3 + tail == l0 + l1 + (l2 + l3 + tail);
    var front := l0 + l1 + l2 + l3;
    assert front + l4 + l5 + l6 + l7 + l8 == front + tail;
  }

  lemma MessageLinesFeedless(operation: string, challenge: string, pin: bytes, userId: string, requestId: bytes,
                             device: bytes, application: bytes, container: bytes, certificateType: string)
    requires '\n' !in operation && '\n' !in certificateType
    ensures var lines := MessageLines(operation, challenge, pin, userId, requestId, device, application, container, certificateType);
      |lines| >= LINES && forall i | 0 <= i < |lines| :: '\n' !in lines[i]
  {
    hide UrlEncoded, Split;
    PiecesHaveNoSeparator(challenge, '\n');
    PiecesHaveNoSeparator(userId, '\n');
    OneLine(pin);
    OneLine(requestId);
    OneLine(device);
    OneLine(application);
    OneLine(container);
  }

  /** For every challenge and user id text, the helper makes its request of the first nine lines of
      the message, final carriage returns removed. */
  lemma HelperReads(operation: string, challenge: string, pin: bytes, userId: string, requestId: bytes,
                    device: bytes, application: bytes, container: bytes, certificateType: string)
    requires '\n' !in operation && '\n' !in certificateType
    ensures var lines := MessageLines(operation, challenge, pin, userId, requestId, device, application, container, certificateType);
      && |lines| >= 9
      && Received(CommonHelperInput(operation, challenge, pin, userId, requestId, device, application, container, certificateType))
         == RequestOf(Stripped(lines)[..9])
  {
    hide MessageLines, CommonHelperInput, Joined, LinesAt, RequestOf, Stripped;
    var lines := MessageLines(operation, challenge, pin, userId, requestId, device, application, container, certificateType);
    MessageIsJoined(operation, challenge, pin, userId, requestId, device, application, container, certificateType);
    MessageLinesFeedless(operation, challenge, pin, userId, requestId, device, application, container, certificateType);
    FeedlessLines("", lines, LINES);
    assert "" + Joined(lines) == Joined(lines);
  }

  // ---- round trip ----

  lemma DropCrDecodes(text: string)
    ensures Decoded(DropCr(text)) == Decoded(text)
  {
    hide Decoded;
    if text != "" && text[|text| - 1] == '\r' {
      var front := text[..|text| - 1];
      BlanksIgnored(front, '\r', "");
      assert text == front + ['\r'] + "" && front + "" == front;
    }
  }

  lemma FieldDecodes(field: bytes)
    ensures Decoded(DropCr(UrlEncoded(field))) == Some(field)
  {
    hide UrlEncoded, Decoded, DropCr;
    DropCrDecodes(UrlEncoded(field));
    DecodeEncoded(field);
  }

  /** Every field comes back, whatever bytes it holds and however short, unless challenge, PIN or user
      id is too long; challenge and user id may be any texts that decode, padded or spaced, as long as
      they have no line feed. */
  lemma FrameRoundTrip(operation: string, challengeText: string, challenge: bytes, pin: bytes,
                       userIdText: string, userId: bytes, requestId: bytes,
                       device: bytes, application: bytes, container: bytes, certificateType: string)
    requires Carried(operation) && Carried(certificateType)
    requires Decoded(challengeText) == Some(challenge) && Decoded(userIdText) == Some(userId)
    requires '\n' !in challengeText && '\n' !in userIdText
    ensures Received(CommonHelperInput(operation, challengeText, pin, userIdText, requestId,
                                       device, application, container, certificateType)) ==
      if |challenge| > 4096 then Thrown(ChallengeLength)
      else if |pin| > 64 then Thrown(PinLength)
      else if |userId| > 8192 then Thrown(UserIdLength)
      else Accepted(Request(operation, challenge, pin, userId, requestId, device, application, container, certificateType))
  {
    hide UrlEncoded, Decoded, Split, Received, CommonHelperInput, DropCr;
    HelperReads(operation, challengeText, pin, userIdText, requestId, device, application, container, certificateType);
    SplitWhole(challengeText, '\n');
    SplitWhole(userIdText, '\n');
    DropCrDecodes(challengeText);
    DropCrDecodes(userIdText);
    FieldDecodes(pin);
    FieldDecodes(requestId);
    FieldDecodes(device);
    FieldDecodes(application);
    FieldDecodes(container);
  }

  // ---- a line feed in the challenge ----

  /** One line feed in the challenge text moves every later field up by one: the helper takes what
      follows the feed as the PIN, the PIN as the user id, and so on. */
  lemma FeedShiftsFields(operation: string, before: string, after: string, pin: bytes,
                         userIdText: string, requestId: bytes,
                         device: bytes, application: bytes, container: bytes, certificateType: string)
    requires Carried(operation) && Carried(certificateType)
    requires '\n' !in before && '\n' !in after && '\n' !in userIdText
    ensures var x, y, z := Decoded(before), Decoded(after), Decoded(userIdText);
      Received(CommonHelperInput(operation, before + "\n" + after, pin, userIdText, requestId,
                                 device, application, container, certificateType)) ==
        if x.None? || y.None? || z.None? then Thrown(InvalidBase64)
        else if |x.value| > 4096 then Thrown(ChallengeLength)
        else if |y.value| > 64 then Thrown(PinLength)
        else if |pin| > 8192 then Thrown(UserIdLength)
        else Accepted(Request(operation, x.value, y.value, pin, z.value, requestId, device, application,
                              UrlEncoded(container)))
  {
    hide UrlEncoded, Decoded, Split, Received, CommonHelperInput, DropCr;
    var challenge := before + "\n" + after;
    HelperReads(operation, challenge, pin, userIdText, requestId, device, application, container, certificateType);
    SplitAtSeparator(before, after, '\n');
    SplitWhole(after, '\n');
    assert "\n" == ['\n'];
    SplitWhole(userIdText, '\n');
    DropCrDecodes(before);
    DropCrDecodes(after);
    DropCrDecodes(userIdText);
    FieldDecodes(pin);
    FieldDecodes(requestId);
    FieldDecodes(device);
    FieldDecodes(application);
    EncodingIsCarried(container);
  }

  lemma EncodingIsCarried(field: bytes)
    ensures DropCr(UrlEncoded(field)) == UrlEncoded(field)
  {
    OneLine(field);
  }

  /** A signing message with a PIN and at most one line feed in the challenge text is understood
      exactly when there is none. */
  lemma SignFrameIff(challengeText: string, challenge: bytes, pin: bytes, userIdText: string, userId: bytes,
                     requestId: bytes, device: bytes, application: bytes, container: bytes)
    requires Decoded(challengeText) == Some(challenge) && Decoded(userIdText) == Some(userId)
    requires |Split(challengeText, '\n')| <= 2 && '\n' !in userIdText
    requires |challenge| <= 4096 && 1 <= |pin| <= 64 && |userId| <= 8192
    ensures Received(CommonHelperInput("sign", challengeText, pin, userIdText, requestId, device, application, container, ""))
            == Accepted(Request("sign", challenge, pin, userId, requestId, device, application, container, ""))
            <==> '\n' !in challengeText
  {
    hide UrlEncoded, Decoded, Received, CommonHelperInput;
    var pieces := Split(challengeText, '\n');
    JoinSplit(challengeText, '\n');
    PiecesHaveNoSeparator(challengeText, '\n');
    if |pieces| == 1 {
      FrameRoundTrip("sign", challengeText, challenge, pin, userIdText, userId, requestId, device, application, container, "");
    } else {
      assert Join(pieces[1..], '\n') == pieces[1];
      assert challengeText == pieces[0] + "\n" + pieces[1];
      assert challengeText[|pieces[0]|] == '\n';
      FeedShiftsFields("sign", pieces[0], pieces[1], pin, userIdText, requestId, device, application, container, "");
      assert |UrlEncoded(container)| == (4 * |container| + 2) / 3;
    }
  }

  /** The challenge text YQ, line feed, Yg decodes to three octets, but the helper sees the challenge
      a, the PIN b, and the PIN that was sent as the user id. */
  lemma FeedExample(pin: bytes, userIdText: string, userId: bytes, requestId: bytes,
                    device: bytes, application: bytes, container: bytes)
    requires 1 <= |pin| <= 64 && Decoded(userIdText) == Some(userId) && '\n' !in userIdText
    ensures Decoded("YQ\nYg") == Some([0x61, 0x06, 0x20])
    ensures Received(CommonHelperInput("sign", "YQ\nYg", pin, userIdText, requestId, device, application, container, ""))
            == Accepted(Request("sign", [0x61], [0x62], pin, userId, requestId, device, application, UrlEncoded(container)))
  {
    hide Decoded, Received, CommonHelperInput, DigitsOf;
    ExampleEncodings();
    DecodeEncoded([0x61]);
    DecodeEncoded([0x62]);
    DecodeEncoded([0x61, 0x06, 0x20]);
    BlanksIgnored("YQ", '\n', "Yg");
    assert "YQ" + ['\n'] + "Yg" == "YQ\nYg" == "YQ" + "\n" + "Yg" && "YQ" + "Yg" == "YQYg";
    FeedShiftsFields("sign", "YQ", "Yg", pin, userIdText, requestId, device, application, container, "");
  }

  /** The nine lines in their order, where none of the texts has a line feed. */
  lemma NineLines(operation: string, challenge: string, pin: bytes, userId: string, requestId: bytes,
                  device: bytes, application: bytes, container: bytes, certificateType: string)
    requires '\n' !in challenge && '\n' !in userId
    ensures CommonHelperInput(operation, challenge, pin, userId, requestId, device, application, container, certificateType)
            == Joined([operation, challenge, UrlEncoded(pin), userId, UrlEncoded(requestId), UrlEncoded(device),
                       UrlEncoded(application), UrlEncoded(container), certificateType])
  {
    hide UrlEncoded, Joined, CommonHelperInput, Split;
    MessageIsJoined(operation, challenge, pin, userId, requestId, device, application, container, certificateType);
    SplitWhole(challenge, '\n');
    SplitWhole(userId, '\n');
    assert MessageLines(operation, challenge, pin, userId, requestId, device, application, container, certificateType)
        == [operation, challenge, UrlEncoded(pin), userId, UrlEncoded(requestId), UrlEncoded(device),
            UrlEncoded(application), UrlEncoded(container), certificateType];
  }

  lemma ExampleEncodings()
    ensures UrlEncoded([0x61]) == "YQ" && UrlEncoded([0x62]) == "Yg" && UrlEncoded([0x61, 0x06, 0x20]) == "YQYg"
  {
    hide UrlEncoded;
    GroupText([0x61]);
    GroupText([0x62]);
    var d: bytes := [0x61, 0x06, 0x20];
    GroupText(d);
    NoText();
    assert d[3..] == [];
  }

  /** With fewer than nine lines the helper gives up. */
  lemma {:induction false} TooFewLines(lines: seq<string>)
    requires |lines| < 9 && forall i | 0 <= i < |lines| :: '\n' !in lines[i]
    ensures Received(Joined(lines)) == Thrown(MissingLine)
  {
    NotEnough("", lines, 9);
    assert "" + Joined(lines) == Joined(lines);
  }

  lemma {:induction false} NotEnough(front: string, lines: seq<string>, n: nat)
    requires n > |lines| && forall i | 0 <= i < |lines| :: '\n' !in lines[i]
    ensures LinesAt(front + Joined(lines), |front|, n) == None
    decreases n
  {
    hide LineAt;
    if lines == [] {
      assert front + Joined(lines) == front;
      EndOfInput(front);
    } else {
      var line, rest := lines[0], lines[1..];
      var front' := front + line + "\n";
      FirstLine(front, line, Joined(rest));
      NotEnough(front', rest, n - 1);
      assert front + Joined(lines) == front' + Joined(rest);
    }
  }

  lemma EndOfInput(data: string)
    ensures LineAt(data, |data|) == None
  {
  }
}
