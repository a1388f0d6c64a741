/**
 * The HTTP/1.1 request writers: `build` in src/http/request.rs and its older
 * twin `build_http_request` in src/http.rs, which writes the same request
 * without the User-Agent and Authorization fields.
 *
 * A request is a block of lines, each ended by CRLF (the request line, then
 * the header fields), a blank line, and the body.
 */
module Request {
  import opened Wrappers
  import opened Bytes
  import opened Text
  import opened Url
  import Cli
  import Base64
  import Headers

  const SP: byte := 32
  const CONNECTION_FIELD: seq<byte> := Ascii("Connection: close")
  const USER_AGENT: seq<byte> := Ascii("User-Agent: ")
  const AUTHORIZATION: seq<byte> := Ascii("Authorization: Basic ")
  const CONTENT_LENGTH: seq<byte> := Ascii("Content-Length: ")

  /** Each line followed by CRLF, in order. */
  function Block(lines: seq<seq<byte>>): (r: seq<byte>)
  {
    if lines == [] then [] else Block(lines[..|lines| - 1]) + lines[|lines| - 1] + CRLF
  }

  lemma BlockAppend(lines: seq<seq<byte>>, line: seq<byte>)
    ensures Block(lines + [line]) == Block(lines) + line + CRLF
  {
    assert (lines + [line])[..|lines|] == lines;
  }

  function StartLine(verb: seq<byte>, path: seq<byte>): seq<byte>
  {
    verb + [SP] + path + Ascii(" HTTP/1.1")
  }

  function HostField(host: seq<byte>): seq<byte>
  {
    Ascii("Host: ") + host
  }

  function AgentFields(userAgent: Option<seq<byte>>): (r: seq<seq<byte>>)
    ensures |r| <= 1
  {
    match userAgent
    case None => []
    case Some(v) => [USER_AGENT + v]
  }

  /** Basic credentials, Base64-encoded as they are given. */
  function AuthFields(user: Option<seq<byte>>): (r: seq<seq<byte>>)
    ensures |r| <= 1
  {
    match user
    case None => []
    case Some(v) => [AUTHORIZATION + Base64.Encode(v)]
  }

  function LengthField(n: nat): seq<byte>
  {
    CONTENT_LENGTH + Decimal(n)
  }

  function LengthFields(data: Option<seq<byte>>): (r: seq<seq<byte>>)
    ensures |r| <= 1
  {
    match data
    case None => []
    case Some(d) => [LengthField(|d|)]
  }

  function Body(data: Option<seq<byte>>): seq<byte>
  {
    match data
    case None => []
    case Some(d) => d
  }

  /**
   * The lines of the head: the request line, Host (the host without its
   * port), `Connection: close`, then, when `identity` is set, User-Agent and
   * Authorization if given, every `-H` header as given, and Content-Length
   * when there is a body.
   */
  function Lines(a: Cli.Args, u: ParsedUrl, identity: bool): (r: seq<seq<byte>>)
  {
    [StartLine(a.httpMethod, u.path), HostField(u.host), CONNECTION_FIELD]
    + (if identity then AgentFields(a.userAgent) + AuthFields(a.user) else [])
    + a.headers
    + LengthFields(a.data)
  }

  /** The bytes of the request: the head, a blank line, the body. */
  function Message(a: Cli.Args, u: ParsedUrl, identity: bool): seq<byte>
  {
    Block(Lines(a, u, identity)) + CRLF + Body(a.data)
  }

  /** What the writers return: the URL's error, or the message. */
  function Built(a: Cli.Args, identity: bool): Result<seq<byte>, string>
  {
    match Parse(a.url)
    case Err(e) => Err(e)
    case Ok(u) => Ok(Message(a, u, identity))
  }

  /** The `for header in &args.headers` loop: one line per header, in order. */
  method PushHeaders(request0: seq<byte>, ghost lines0: seq<seq<byte>>, headers: seq<seq<byte>>)
    returns (request: seq<byte>)
    requires request0 == Block(lines0)
    ensures request == Block(lines0 + headers)
  {
    request := request0;
    var k := 0;
    assert lines0 + headers[..0] == lines0;
    while k < |headers|
      invariant k <= |headers|
      invariant request == Block(lines0 + headers[..k])
    {
      BlockAppend(lines0 + headers[..k], headers[k]);
      assert lines0 + headers[..k + 1] == (lines0 + headers[..k]) + [headers[k]];
      request := request + headers[k] + CRLF;
      k := k + 1;
    }
    assert headers[..k] == headers;
  }

  /** The request line and the two fixed fields. */
  method Preamble(verb: seq<byte>, u: ParsedUrl) returns (request: seq<byte>)
    ensures request == Block([StartLine(verb, u.path), HostField(u.host), CONNECTION_FIELD])
  {
    request := StartLine(verb, u.path) + CRLF + HostField(u.host) + CRLF + CONNECTION_FIELD + CRLF;
    BlockAppend([], StartLine(verb, u.path));
    BlockAppend([StartLine(verb, u.path)], HostField(u.host));
    BlockAppend([StartLine(verb, u.path), HostField(u.host)], CONNECTION_FIELD);
    assert [] + [StartLine(verb, u.path)] == [StartLine(verb, u.path)];
    assert [StartLine(verb, u.path)] + [HostField(u.host)] == [StartLine(verb, u.path), HostField(u.host)];
    assert [StartLine(verb, u.path), HostField(u.host)] + [CONNECTION_FIELD]
        == [StartLine(verb, u.path), HostField(u.host), CONNECTION_FIELD];
  }

  /** The Content-Length line, the blank line and the body. */
  method Finish(request0: seq<byte>, ghost lines0: seq<seq<byte>>, data: Option<seq<byte>>)
    returns (request: seq<byte>)
    requires request0 == Block(lines0)
    ensures request == Block(lines0 + LengthFields(data)) + CRLF + Body(data)
  {
    request := request0;
    if data.Some? {
      BlockAppend(lines0, LengthField(|data.value|));
      request := request + CONTENT_LENGTH + Decimal(|data.value|) + CRLF;
    } else {
      assert lines0 + [] == lines0;
    }
    request := request + CRLF;
    if data.Some? {
      request := request + data.value;
    }
  }

  /** The User-Agent line, when one is given. */
  method PushAgent(request0: seq<byte>, ghost lines0: seq<seq<byte>>, userAgent: Option<seq<byte>>)
    returns (request: seq<byte>)
    requires request0 == Block(lines0)
    ensures request == Block(lines0 + AgentFields(userAgent))
  {
    request := request0;
    if userAgent.Some? {
      BlockAppend(lines0, USER_AGENT + userAgent.value);
      request := request + USER_AGENT + userAgent.value + CRLF;
    } else {
      assert lines0 + [] == lines0;
    }
  }

  /** The Authorization line, when credentials are given. */
  method PushAuth(request0: seq<byte>, ghost lines0: seq<seq<byte>>, user: Option<seq<byte>>)
    returns (request: seq<byte>)
    requires request0 == Block(lines0)
    ensures request == Block(lines0 + AuthFields(user))
  {
    request := request0;
    if user.Some? {
      var encoded := Base64.Base64Encode(user.value);
      BlockAppend(lines0, AUTHORIZATION + encoded);
      request := request + AUTHORIZATION + encoded + CRLF;
    } else {
      assert lines0 + [] == lines0;
    }
  }

  /** `request::build`. */
  method Build(a: Cli.Args) returns (r: Result<seq<byte>, string>)
    ensures r == Built(a, true)
  {
    var parsed := Parse(a.url);
    if parsed.Err? {
      return Err(parsed.error);
    }
    var u := parsed.value;
    var request := Preamble(a.httpMethod, u);
    ghost var lead := [StartLine(a.httpMethod, u.path), HostField(u.host), CONNECTION_FIELD];
    request := PushAgent(request, lead, a.userAgent);
    request := PushAuth(request, lead + AgentFields(a.userAgent), a.user);
    ghost var lines := lead + (AgentFields(a.userAgent) + AuthFields(a.user));
    assert lead + AgentFields(a.userAgent) + AuthFields(a.user) == lines;
    request := PushHeaders(request, lines, a.headers);
    request := Finish(request, lines + a.headers, a.data);
    assert lines + a.headers + LengthFields(a.data) == Lines(a, u, true);
    return Ok(request);
  }

  /** `http::build_http_request`. */
  method BuildHttpRequest(a: Cli.Args) returns (r: Result<seq<byte>, string>)
    ensures r == Built(a, false)
  {
    var parsed := Parse(a.url);
    if parsed.Err? {
      return Err(parsed.error);
    }
    var u := parsed.value;
    var request := Preamble(a.httpMethod, u);
    ghost var lines := [StartLine(a.httpMethod, u.path), HostField(u.host), CONNECTION_FIELD];
    request := PushHeaders(request, lines, a.headers);
    request := Finish(request, lines + a.headers, a.data);
    assert lines + [] == lines;
    assert lines + a.headers + LengthFields(a.data) == Lines(a, u, false);
    return Ok(request);
  }

  // ----------------------------------------------------------- properties

  /** The older writer is the newer one without User-Agent and credentials. */
  lemma LegacyIsAnonymous(a: Cli.Args)
    ensures Built(a, false) == Built(a.(userAgent := None, user := None), true)
  {
    var b := a.(userAgent := None, user := None);
    if Parse(a.url).Ok? {
      var u := Parse(a.url).value;
      var lead := [StartLine(a.httpMethod, u.path), HostField(u.host), CONNECTION_FIELD];
      assert lead + (AgentFields(b.userAgent) + AuthFields(b.user)) == lead + [];
      assert Lines(a, u, false) == Lines(b, u, true);
    }
  }

  /** Only the URL can make the writers fail, and they report its error. */
  lemma OnlyUrlErrors(a: Cli.Args, identity: bool)
    ensures Built(a, identity).Err? <==> Parse(a.url).Err?
    ensures Built(a, identity).Err? ==> Built(a, identity).error in {SCHEME_ERROR, PORT_ERROR, HOST_ERROR}
  {
    if Parse(a.url).Ok? {
      assert Built(a, identity).Ok?;
    } else if StartsWith(a.url, HTTPS) {
      assert Parse(a.url) == SplitRest(true, TrimPrefixes(a.url, HTTPS));
    } else if StartsWith(a.url, HTTP) {
      assert Parse(a.url) == SplitRest(false, TrimPrefixes(a.url, HTTP));
    }
  }

  /** A line the head can hold: not empty, no CR and no LF. */
  predicate FieldText(s: seq<byte>)
  {
    s != [] && CR !in s && LF !in s
  }

  predicate AllText(lines: seq<seq<byte>>)
  {
    forall i :: 0 <= i < |lines| ==> FieldText(lines[i])
  }

  lemma AllTextConcat(xs: seq<seq<byte>>, ys: seq<seq<byte>>)
    requires AllText(xs) && AllText(ys)
    ensures AllText(xs + ys)
  {
    forall i | 0 <= i < |xs + ys| ensures FieldText((xs + ys)[i]) {
      if i >= |xs| { assert (xs + ys)[i] == ys[i - |xs|]; }
    }
  }

  lemma QuadIff(s: seq<byte>, j: nat)
    ensures OccursAt(s, CRLFCRLF, j) <==>
      j + 4 <= |s| && s[j] == CR && s[j + 1] == LF && s[j + 2] == CR && s[j + 3] == LF
  {
    if j + 4 <= |s| {
      assert s[j..j + 4] == [s[j], s[j + 1], s[j + 2], s[j + 3]];
    }
  }

  lemma OccursInPrefix(s: seq<byte>, t: seq<byte>, j: nat)
    requires j + 4 <= |s|
    ensures OccursAt(s + t, CRLFCRLF, j) == OccursAt(s, CRLFCRLF, j)
  {
    assert (s + t)[j..j + 4] == s[j..j + 4];
  }

  /** A block of non-empty, single lines has no blank line inside it and ends in CRLF. */
  lemma {:induction false} BlockHasNoBlankLine(lines: seq<seq<byte>>)
    requires AllText(lines)
    ensures forall j :: 0 <= j ==> !OccursAt(Block(lines), CRLFCRLF, j)
    ensures lines != [] ==> |Block(lines)| >= 3 && Block(lines)[|Block(lines)| - 2..] == CRLF
    ensures lines != [] ==> Block(lines)[|Block(lines)| - 3] != CR
  {
    if lines != [] {
      var init, f := lines[..|lines| - 1], lines[|lines| - 1];
      assert AllText(init) by {
        forall i | 0 <= i < |init| ensures FieldText(init[i]) { assert init[i] == lines[i]; }
      }
      BlockHasNoBlankLine(init);
      var h := Block(init);
      var m := h + (f + CRLF);
      assert Block(lines) == m;
      assert m[|m| - 3] == f[|f| - 1];
      assert f[|f| - 1] in f;
      forall j | 0 <= j ensures !OccursAt(m, CRLFCRLF, j) {
        QuadIff(m, j);
        if j + 4 <= |h| {
          OccursInPrefix(h, f + CRLF, j);
        } else if j + 4 <= |m| {
          var p := if j < |h| then |h| else j;
          assert m[p] == f[p - |h|];
          assert f[p - |h|] in f;
        }
      }
    }
  }

  /**
   * When every line of the head is non-empty and has no CR or LF, the
   * first blank line in the request is the one after the head, and what
   * follows it is exactly the body.
   */
  lemma BlankLineEndsHead(lines: seq<seq<byte>>, body: seq<byte>)
    requires lines != [] && AllText(lines)
    ensures Find(Block(lines) + CRLF + body, CRLFCRLF) == Some(|Block(lines)| - 2)
    ensures (Block(lines) + CRLF + body)[|Block(lines)| + 2..] == body
  {
    var h := Block(lines);
    var m := h + (CRLF + body);
    assert Block(lines) + CRLF + body == m;
    BlockHasNoBlankLine(lines);
    assert m[|h| - 2..|h| + 2] == CRLFCRLF by {
      assert m[|h| - 2..|h|] == h[|h| - 2..];
    }
    forall j | 0 <= j < |h| - 2 ensures !OccursAt(m, CRLFCRLF, j) {
      QuadIff(m, j);
      if j + 4 <= |h| {
        OccursInPrefix(h, CRLF + body, j);
      } else {
        assert m[j + 1] == h[|h| - 2];
      }
    }
    FindIs(m, CRLFCRLF, |h| - 2);
  }

  lemma NoBreakAppend(name: seq<byte>, v: seq<byte>)
    requires name != [] && CR !in name && LF !in name
    requires CR !in v && LF !in v
    ensures FieldText(name + v)
  {
    assert forall b :: b in name + v ==> b in name || b in v;
  }

  lemma EncodedHasNoBreak(v: seq<byte>)
    ensures CR !in Base64.Encode(v) && LF !in Base64.Encode(v)
  {
    Base64.EncodeChars(v);
    var e := Base64.Encode(v);
    forall k | 0 <= k < |e| ensures e[k] != CR && e[k] != LF {
      if k < |e| - Base64.Padding(|v|) {
        assert Base64.InAlphabet(e[k]);
      }
    }
  }

  lemma DecimalHasNoBreak(n: nat)
    ensures CR !in Decimal(n) && LF !in Decimal(n)
  {
    var d := Decimal(n);
    forall k | 0 <= k < |d| ensures d[k] != CR && d[k] != LF { }
  }

  lemma LeadIsText(a: Cli.Args, u: ParsedUrl)
    requires FieldText(StartLine(a.httpMethod, u.path)) && FieldText(u.host)
    ensures AllText([StartLine(a.httpMethod, u.path), HostField(u.host), CONNECTION_FIELD])
  {
    NoBreakAppend(Ascii("Host: "), u.host);
  }

  lemma AgentIsText(userAgent: Option<seq<byte>>)
    requires userAgent.Some? ==> CR !in userAgent.value && LF !in userAgent.value
    ensures AllText(AgentFields(userAgent))
  {
    if userAgent.Some? {
      NoBreakAppend(USER_AGENT, userAgent.value);
    }
  }

  lemma AuthIsText(user: Option<seq<byte>>)
    ensures AllText(AuthFields(user))
  {
    if user.Some? {
      EncodedHasNoBreak(user.value);
      NoBreakAppend(AUTHORIZATION, Base64.Encode(user.value));
    }
  }

  lemma LengthIsText(data: Option<seq<byte>>)
    ensures AllText(LengthFields(data))
  {
    if data.Some? {
      DecimalHasNoBreak(|data.value|);
      NoBreakAppend(CONTENT_LENGTH, Decimal(|data.value|));
    }
  }

  /**
   * When the method, the path, the host, the User-Agent and every `-H`
   * header are free of line breaks and no header is empty, the first blank
   * line of the request is the one that ends the head, and the bytes after
   * it are exactly the body.
   */
  lemma MessageBlankLine(a: Cli.Args, u: ParsedUrl, identity: bool)
    requires FieldText(StartLine(a.httpMethod, u.path)) && FieldText(u.host)
    requires identity && a.userAgent.Some? ==> CR !in a.userAgent.value && LF !in a.userAgent.value
    requires AllText(a.headers)
    ensures Find(Message(a, u, identity), CRLFCRLF) == Some(|Block(Lines(a, u, identity))| - 2)
    ensures Message(a, u, identity)[|Block(Lines(a, u, identity))| + 2..] == Body(a.data)
  {
    var lead := [StartLine(a.httpMethod, u.path), HostField(u.host), CONNECTION_FIELD];
    var id := if identity then AgentFields(a.userAgent) + AuthFields(a.user) else [];
    LeadIsText(a, u);
    if identity {
      AgentIsText(a.userAgent);
      AuthIsText(a.user);
      AllTextConcat(AgentFields(a.userAgent), AuthFields(a.user));
    }
    LengthIsText(a.data);
    AllTextConcat(lead, id);
    AllTextConcat(lead + id, a.headers);
    AllTextConcat(lead + id + a.headers, LengthFields(a.data));
    BlankLineEndsHead(Lines(a, u, identity), Body(a.data));
  }

  /** A `-H ""` argument ends the head early: its empty line is taken for the blank line. */
  lemma EmptyHeaderEndsHeadEarly(a: Cli.Args, u: ParsedUrl)
    requires a.headers == [[]]
    requires FieldText(StartLine(a.httpMethod, u.path)) && FieldText(u.host)
    ensures var lead := Block([StartLine(a.httpMethod, u.path), HostField(u.host), CONNECTION_FIELD]);
      Find(Message(a, u, false), CRLFCRLF) == Some(|lead| - 2)
      && |lead| - 2 < |Block(Lines(a, u, false))| - 2
  {
    var lead := [StartLine(a.httpMethod, u.path), HostField(u.host), CONNECTION_FIELD];
    LeadIsText(a, u);
    var tail := if a.data.Some? then LengthField(|a.data.value|) + CRLF else [];
    BlockAppend(lead, []);
    assert Block(lead + [[]]) == Block(lead) + CRLF;
    if a.data.Some? {
      BlockAppend(lead + [[]], LengthField(|a.data.value|));
      assert Lines(a, u, false) == (lead + [[]]) + [LengthField(|a.data.value|)];
    } else {
      assert Lines(a, u, false) == lead + [[]];
    }
    assert Block(Lines(a, u, false)) == Block(lead) + CRLF + tail;
    assert Message(a, u, false) == Block(lead) + CRLF + (tail + CRLF + Body(a.data));
    BlankLineEndsHead(lead, tail + CRLF + Body(a.data));
  }

  lemma LengthLineSplits(n: nat)
    ensures SplitOnce(LengthField(n), Headers.COLON) == Some((Ascii("Content-Length"), [SP] + Decimal(n)))
  {
    var name := Ascii("Content-Length");
    assert CONTENT_LENGTH == name + [Headers.COLON, SP];
    assert LengthField(n) == name + [Headers.COLON] + ([SP] + Decimal(n));
    assert Headers.COLON !in name;
    SplitOnceAt(name, Headers.COLON, [SP] + Decimal(n));
  }

  lemma SpacedDigits(n: nat)
    ensures FirstSegment([SP] + Decimal(n), Headers.COLON) == [SP] + Decimal(n)
    ensures Trim([SP] + Decimal(n)) == Decimal(n)
  {
    var d := Decimal(n);
    var t := [SP] + d;
    assert Headers.COLON !in t;
    assert SkipSpaces(t, 1) == 1;
    assert SkipSpaces(t, 0) == 1;
    assert BackSpaces(t, |t|) == |t|;
    assert t[1..|t|] == d;
  }

  lemma LengthKey(n: nat)
    ensures StartsWith(Headers.Key(LengthField(n), Headers.Untrimmed), Headers.CONTENT_LENGTH)
  {
    var line := LengthField(n);
    var key := Headers.Key(line, Headers.Untrimmed);
    assert line[..15] == CONTENT_LENGTH[..15];
    assert key[..15] == Lower(line[..15]);
    assert Lower(CONTENT_LENGTH[..15]) == Headers.CONTENT_LENGTH;
  }

  /**
   * The Content-Length line is there exactly when there is a body, and the
   * client's own Content-Length reader reads the body's length back from it.
   */
  lemma LengthFieldReadsBack(data: Option<seq<byte>>)
    requires data.Some? ==> |data.value| <= USIZE_MAX
    ensures |LengthFields(data)| == 1 <==> data.Some?
    ensures data.Some? ==>
      StartsWith(Headers.Key(LengthFields(data)[0], Headers.Untrimmed), Headers.CONTENT_LENGTH)
      && Headers.LengthValue(LengthFields(data)[0]) == Some(|data.value|)
  {
    if data.Some? {
      var n := |data.value|;
      LengthLineSplits(n);
      SpacedDigits(n);
      ParseDigits(n, 10, USIZE_MAX);
      LengthKey(n);
    }
  }

  /** Lowercased, the Content-Length line still reads back the same length. */
  lemma LoweredLengthReadsBack(n: nat)
    requires n <= USIZE_MAX
    ensures Headers.LengthValue(Lower(LengthField(n))) == Some(n)
  {
    var name := Ascii("content-length");
    LowerLengthField(n);
    assert Headers.COLON !in name;
    SplitOnceAt(name, Headers.COLON, [SP] + Decimal(n));
    SpacedDigits(n);
    ParseDigits(n, 10, USIZE_MAX);
  }

  lemma LowerLengthField(n: nat)
    ensures Lower(LengthField(n)) == Ascii("content-length") + [Headers.COLON] + ([SP] + Decimal(n))
  {
    var d := Decimal(n);
    assert Lower(CONTENT_LENGTH) == Ascii("content-length") + [Headers.COLON, SP];
    assert Lower(d) == d;
    assert Lower(LengthField(n)) == Lower(CONTENT_LENGTH) + Lower(d);
  }

  /** A Content-Length line is one ASCII line that ends in a digit. */
  lemma LengthFieldShape(n: nat)
    ensures IsAscii(LengthField(n)) && LF !in LengthField(n)
    ensures !IsSpace(LengthField(n)[|LengthField(n)| - 1])
  {
    DecimalHasNoBreak(n);
    NoBreakAppend(CONTENT_LENGTH, Decimal(n));
  }

  /** The last bytes of the request are the body, unchanged. */
  lemma BodyLast(a: Cli.Args, u: ParsedUrl, identity: bool)
    ensures |Message(a, u, identity)| >= |Body(a.data)| + 2
    ensures Message(a, u, identity)[|Message(a, u, identity)| - |Body(a.data)|..] == Body(a.data)
  {
  }

  lemma BlockOfThree(x: seq<byte>, y: seq<byte>, z: seq<byte>)
    ensures Block([x, y, z]) == x + CRLF + (y + CRLF) + (z + CRLF)
  {
    BlockAppend([], x);
    BlockAppend([x], y);
    BlockAppend([x, y], z);
    assert [] + [x] == [x];
    assert [x] + [y] == [x, y];
    assert [x, y] + [z] == [x, y, z];
  }

  lemma PlainUrl()
    ensures Parse(Ascii("http://h/p")) == Ok(ParsedUrl(Ascii("h"), 80, [SLASH] + Ascii("p"), false))
  {
    var host, path := Ascii("h"), Ascii("p");
    assert host == [104] && path == [112];
    ParseComposed(false, host, None, Some(path));
    PlainUrlText();
  }

  lemma PlainUrlText()
    ensures Scheme(false) + Ascii("h") + PortSuffix(None) + PathSuffix(Some(Ascii("p"))) == Ascii("http://h/p")
  {
    assert Scheme(false) == [104, 116, 116, 112, 58, 47, 47];
    assert Ascii("h") == [104] && Ascii("p") == [112];
    assert Ascii("http://h/p") == [104, 116, 116, 112, 58, 47, 47, 104, 47, 112];
  }

  /** `rurl http://h/p`: a GET for /p on host h with no other fields and no body. */
  lemma PlainGetExample()
    ensures Built(Cli.DEFAULTS.(url := Ascii("http://h/p")), true)
         == Ok(Ascii("GET /p HTTP/1.1\r\n") + Ascii("Host: h\r\n") + Ascii("Connection: close\r\n") + Ascii("\r\n"))
  {
    PlainUrl();
    var a := Cli.DEFAULTS.(url := Ascii("http://h/p"));
    var u := ParsedUrl(Ascii("h"), 80, [SLASH] + Ascii("p"), false);
    PlainGetMessage(a, u);
  }

  lemma PlainGetMessage(a: Cli.Args, u: ParsedUrl)
    requires a == Cli.DEFAULTS.(url := a.url)
    requires u == ParsedUrl(Ascii("h"), 80, [SLASH] + Ascii("p"), false)
    ensures Message(a, u, true)
         == Ascii("GET /p HTTP/1.1\r\n") + Ascii("Host: h\r\n") + Ascii("Connection: close\r\n") + Ascii("\r\n")
  {
    Cli.Defaults();
    var lead := [StartLine(Cli.GET, u.path), HostField(u.host), CONNECTION_FIELD];
    assert Lines(a, u, true) == lead;
    BlockOfThree(StartLine(Cli.GET, u.path), HostField(u.host), CONNECTION_FIELD);
    PlainGetText();
  }

  lemma PlainGetText()
    ensures StartLine(Cli.GET, [SLASH] + Ascii("p")) + CRLF == Ascii("GET /p HTTP/1.1\r\n")
    ensures HostField(Ascii("h")) + CRLF == Ascii("Host: h\r\n")
    ensures CONNECTION_FIELD + CRLF == Ascii("Connection: close\r\n")
    ensures CRLF == Ascii("\r\n")
  {
  }

  /** `-u user:pass` sends `Authorization: Basic dXNlcjpwYXNz`. */
  lemma CredentialsExample()
    ensures AuthFields(Some(Ascii("user:pass"))) == [AUTHORIZATION + Ascii("dXNlcjpwYXNz")]
  {
    Base64.UserPassExample();
  }
}
