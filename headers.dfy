/**
 * Response-header inspection: `get_content_length`, `is_chunked_transfer`,
 * `parse_status_line` and `get_location` in src/http/response.rs (the first
 * three also in src/utils.rs, with identical text), and the inline
 * Content-Length and chunked look-ups of the library read loop in
 * src/client.rs. All of them scan the lines of at most the first 2048 bytes,
 * and only when those bytes are valid UTF-8.
 */
module Headers {
  import opened Wrappers
  import opened Bytes
  import opened Text

  const HEADER_WINDOW: nat := 2048

  const SP: byte := 32
  const COLON: byte := 58

  const CONTENT_LENGTH: seq<byte> := Ascii("content-length:")
  const TRANSFER_ENCODING: seq<byte> := Ascii("transfer-encoding:")
  const CHUNKED: seq<byte> := Ascii("chunked")
  const LOCATION: seq<byte> := Ascii("location:")

  const INVALID_FORMAT := "Invalid response format"
  const INVALID_UTF8 := "Invalid UTF-8 in status line"
  const MISSING_STATUS := "Missing status code"
  const INVALID_STATUS := "Invalid status code"

  /** `&response[..min(response.len(), 2048)]`. */
  function Window(response: seq<byte>): (r: seq<byte>)
    ensures |r| <= HEADER_WINDOW && StartsWith(response, r)
    ensures |response| <= HEADER_WINDOW ==> r == response
    ensures |response| > HEADER_WINDOW ==> |r| == HEADER_WINDOW
  {
    if |response| <= HEADER_WINDOW then response else response[..HEADER_WINDOW]
  }

  /** The lines of the window, or None when `from_utf8` rejects it. */
  function HeaderLines(response: seq<byte>): (r: Option<seq<seq<byte>>>)
    ensures r.Some? <==> ValidUtf8(Window(response))
  {
    var w := Window(response);
    if ValidUtf8(w) then Some(Lines(w)) else None
  }

  /**
   * How a line is normalised before its prefix is tested: the helpers of
   * src/http/response.rs trim and lowercase it, `get_location` and the
   * library read loop only lowercase it.
   */
  datatype LineForm = Trimmed | Untrimmed

  function Key(line: seq<byte>, form: LineForm): seq<byte>
  {
    match form
    case Trimmed => Lower(Trim(line))
    case Untrimmed => Lower(line)
  }

  /** The normalised form of every line. */
  function Keys(lines: seq<seq<byte>>, form: LineForm): (r: seq<seq<byte>>)
    ensures |r| == |lines|
  {
    seq(|lines|, i requires 0 <= i < |lines| => Key(lines[i], form))
  }

  /** The index of the first line, from `k` on, that starts with `key`. */
  function FirstPrefixed(lines: seq<seq<byte>>, key: seq<byte>, k: nat): (r: Option<nat>)
    decreases |lines| - k
    ensures r.Some? ==> k <= r.value < |lines| && StartsWith(lines[r.value], key)
    ensures r.Some? ==> forall j :: k <= j < r.value ==> !StartsWith(lines[j], key)
    ensures r.None? ==> forall j :: k <= j < |lines| ==> !StartsWith(lines[j], key)
  {
    if k >= |lines| then None
    else if StartsWith(lines[k], key) then Some(k)
    else FirstPrefixed(lines, key, k + 1)
  }

  /** The value of a Content-Length line: the text between its first and second `:`, trimmed, as a usize. */
  function LengthValue(line: seq<byte>): (r: Option<nat>)
    ensures r.Some? ==> r.value <= USIZE_MAX && COLON in line
  {
    match SecondSegment(line, COLON)
    case None => None
    case Some(v) => ParseUnsigned(Trim(v), 10, USIZE_MAX)
  }

  /** The Content-Length of a list of lines as `form` reads it: the first Content-Length line decides. */
  function LengthOfLines(lines: seq<seq<byte>>, form: LineForm): (r: Option<nat>)
    ensures r.Some? ==> r.value <= USIZE_MAX
    ensures (forall j :: 0 <= j < |lines| ==> !StartsWith(Keys(lines, form)[j], CONTENT_LENGTH)) ==> r.None?
  {
    match FirstPrefixed(Keys(lines, form), CONTENT_LENGTH, 0)
    case None => None
    case Some(i) =>
      // src/http/response.rs splits the normalised line, src/client.rs the line as read
      LengthValue(if form == Trimmed then Key(lines[i], form) else lines[i])
  }

  /**
   * The first line whose `form` key starts with `content-length:` decides,
   * whether or not its value parses: the trimmed, lowercased line for the
   * helpers, the line as read for the library loop.
   */
  lemma LengthOfLinesFirstLine(lines: seq<seq<byte>>, form: LineForm, i: nat)
    requires i < |lines| && StartsWith(Keys(lines, form)[i], CONTENT_LENGTH)
    requires forall j :: 0 <= j < i ==> !StartsWith(Keys(lines, form)[j], CONTENT_LENGTH)
    ensures LengthOfLines(lines, form) == LengthValue(if form == Trimmed then Key(lines[i], form) else lines[i])
  {
    var first := FirstPrefixed(Keys(lines, form), CONTENT_LENGTH, 0);
    assert first.Some? && first.value == i;
  }

  /** `get_content_length` (src/http/response.rs and src/utils.rs). */
  function ContentLength(response: seq<byte>): (r: Option<nat>)
    ensures !ValidUtf8(Window(response)) ==> r.None?
    ensures r.Some? ==> r.value <= USIZE_MAX
  {
    match HeaderLines(response)
    case None => None
    case Some(lines) => LengthOfLines(lines, Trimmed)
  }

  /**
   * The first trimmed, lowercased line starting with `content-length:`
   * decides, even when its value does not parse: later lines are not tried.
   */
  lemma ContentLengthFirstLine(response: seq<byte>, i: nat)
    requires ValidUtf8(Window(response))
    requires i < |Lines(Window(response))|
    requires StartsWith(Keys(Lines(Window(response)), Trimmed)[i], CONTENT_LENGTH)
    requires forall j :: 0 <= j < i ==> !StartsWith(Keys(Lines(Window(response)), Trimmed)[j], CONTENT_LENGTH)
    ensures ContentLength(response) == LengthValue(Key(Lines(Window(response))[i], Trimmed))
  {
  }

  /** A line that reads `chunked` transfer coding under `form`. */
  predicate ChunkedLine(line: seq<byte>, form: LineForm)
  {
    StartsWith(Key(line, form), TRANSFER_ENCODING) && Contains(Key(line, form), CHUNKED)
  }

  function AnyChunkedLine(lines: seq<seq<byte>>, form: LineForm): (r: bool)
    ensures r <==> exists i :: 0 <= i < |lines| && ChunkedLine(lines[i], form)
  {
    if lines == [] then false
    else if ChunkedLine(lines[0], form) then true
    else
      var r := AnyChunkedLine(lines[1..], form);
      assert r <==> exists i :: 1 <= i < |lines| && ChunkedLine(lines[i], form) by {
        if r {
          var i :| 0 <= i < |lines[1..]| && ChunkedLine(lines[1..][i], form);
          assert lines[i + 1] == lines[1..][i];
        }
        if exists i :: 1 <= i < |lines| && ChunkedLine(lines[i], form) {
          var i :| 1 <= i < |lines| && ChunkedLine(lines[i], form);
          assert lines[1..][i - 1] == lines[i];
        }
      }
      r
  }

  /** `is_chunked_transfer` (src/http/response.rs and src/utils.rs). */
  function IsChunked(response: seq<byte>): (r: bool)
    ensures r <==> ValidUtf8(Window(response))
                   && exists i :: 0 <= i < |Lines(Window(response))| && ChunkedLine(Lines(Window(response))[i], Trimmed)
  {
    match HeaderLines(response)
    case None => false
    case Some(lines) => AnyChunkedLine(lines, Trimmed)
  }

  // ------------------------------------------------------------ status line

  /** `split(|&b| b == b'\r')`: all the pieces between CRs; there is always a first one. */
  function SplitAll(s: seq<byte>, b: byte): (r: seq<seq<byte>>)
    decreases |s|
    ensures |r| >= 1 && r[0] == FirstSegment(s, b)
  {
    match SplitOnce(s, b)
    case None => [s]
    case Some((x, rest)) => [x] + SplitAll(rest, b)
  }

  /** `parse_status_line`: the second whitespace token before the first CR, as a u16. */
  function ParseStatusLine(response: seq<byte>): (r: Result<nat, string>)
    ensures r.Ok? ==> r.value <= U16_MAX
    ensures r.Err? ==> r.error in {INVALID_UTF8, MISSING_STATUS, INVALID_STATUS}
  {
    var pieces := SplitAll(response, CR);
    if |pieces| == 0 then Err(INVALID_FORMAT)
    else
      var line := pieces[0];
      if !ValidUtf8(line) then Err(INVALID_UTF8)
      else
        var tokens := Tokens(line);
        if |tokens| < 2 then Err(MISSING_STATUS)
        else
          match ParseUnsigned(tokens[1], 10, U16_MAX)
          case None => Err(INVALID_STATUS)
          case Some(code) => Ok(code)
  }

  /** Bytes appended after the first CR do not change the status line. */
  lemma StatusLineExtend(s: seq<byte>, t: seq<byte>)
    requires CR in s
    ensures ParseStatusLine(s + t) == ParseStatusLine(s)
  {
    FirstSegmentExtend(s, t, CR);
    assert SplitAll(s + t, CR)[0] == SplitAll(s, CR)[0];
  }

  lemma TokensSkipSpace(rest: seq<byte>)
    ensures Tokens([SP] + rest) == Tokens(rest)
  {
    assert ([SP] + rest)[1..] == rest;
    assert TrimStart([SP] + rest) == TrimStart(rest);
  }

  lemma {:induction false} FirstSpaceOf(a: seq<byte>, rest: seq<byte>)
    requires forall i :: 0 <= i < |a| ==> !IsSpace(a[i])
    requires rest == [] || IsSpace(rest[0])
    ensures FirstSpace(a + rest) == |a|
  {
    if a != [] {
      assert (a + rest)[1..] == a[1..] + rest;
      FirstSpaceOf(a[1..], rest);
    }
  }

  /** A word followed by whitespace or nothing is the first token. */
  lemma TokensLead(a: seq<byte>, rest: seq<byte>)
    requires a != [] && forall i :: 0 <= i < |a| ==> !IsSpace(a[i])
    requires rest == [] || IsSpace(rest[0])
    ensures Tokens(a + rest) == [a] + Tokens(rest)
  {
    var s := a + rest;
    assert TrimStart(s) == s;
    FirstSpaceOf(a, rest);
    assert s[..|a|] == a && s[|a|..] == rest;
  }

  lemma StatusTokens(version: seq<byte>, d: seq<byte>, reason: seq<byte>)
    requires version != [] && forall i :: 0 <= i < |version| ==> !IsSpace(version[i])
    requires d != [] && forall i :: 0 <= i < |d| ==> !IsSpace(d[i])
    ensures |Tokens(version + [SP] + d + [SP] + reason)| >= 2
    ensures Tokens(version + [SP] + d + [SP] + reason)[1] == d
  {
    var tail := [SP] + reason;
    var s2 := d + tail;
    var s1 := [SP] + s2;
    assert version + [SP] + d + [SP] + reason == version + s1;
    TokensLead(version, s1);
    TokensSkipSpace(s2);
    TokensLead(d, tail);
  }

  lemma AsciiStatusLine(version: seq<byte>, d: seq<byte>, reason: seq<byte>)
    requires IsAscii(version) && IsAscii(d) && IsAscii(reason)
    ensures IsAscii(version + [SP] + d + [SP] + reason)
  {
  }

  /**
   * A status line `<version> <code> <reason>` followed by CR yields the code:
   * the round trip of a well-formed status line of RFC 9112, section 4.
   */
  lemma StatusLineRoundTrip(version: seq<byte>, code: nat, reason: seq<byte>, rest: seq<byte>)
    requires version != [] && IsAscii(version) && forall i :: 0 <= i < |version| ==> !IsSpace(version[i])
    requires IsAscii(reason) && CR !in reason
    requires code <= U16_MAX
    ensures ParseStatusLine(version + [SP] + Decimal(code) + [SP] + reason + [CR] + rest) == Ok(code)
  {
    var d := Decimal(code);
    var line := version + [SP] + d + [SP] + reason;
    assert CR !in line by {
      assert forall i :: 0 <= i < |d| ==> d[i] != CR;
      assert forall i :: 0 <= i < |version| ==> version[i] != CR;
    }
    SplitOnceAt(line, CR, rest);
    AsciiStatusLine(version, d, reason);
    AsciiIsUtf8(line);
    StatusTokens(version, d, reason);
    ParseDigits(code, 10, U16_MAX);
  }

  /** A first line with fewer than two words reports "Missing status code". */
  lemma StatusLineMissingCode(version: seq<byte>, rest: seq<byte>)
    requires IsAscii(version) && forall i :: 0 <= i < |version| ==> !IsSpace(version[i])
    ensures ParseStatusLine(version + [CR] + rest) == Err(MISSING_STATUS)
  {
    assert CR !in version by {
      assert forall i :: 0 <= i < |version| ==> version[i] != CR;
    }
    SplitOnceAt(version, CR, rest);
    AsciiIsUtf8(version);
    if version != [] {
      TokensLead(version, []);
      assert version + [] == version;
    }
  }

  // ------------------------------------------------------------- location

  lemma LowerKeepsColon(line: seq<byte>, k: nat)
    requires k < |line| && Lower(line)[k] == COLON
    ensures line[k] == COLON
  {
  }

  /** Everything after the first `:` of a `location:` line, trimmed. */
  function LocationValue(line: seq<byte>): (r: seq<byte>)
    requires StartsWith(Lower(line), LOCATION)
    ensures r != [] ==> !IsSpace(r[0]) && !IsSpace(r[|r| - 1])
  {
    assert Lower(line)[8] == COLON;
    LowerKeepsColon(line, 8);
    assert COLON in line;
    match SplitOnce(line, COLON)
    case Some((_, v)) => Trim(v)
  }

  /** `get_location`: the first line whose lowercased form starts with `location:`. */
  function Location(response: seq<byte>): (r: Option<seq<byte>>)
    ensures !ValidUtf8(Window(response)) ==> r.None?
    ensures ValidUtf8(Window(response)) ==>
      (r.None? <==> forall j :: 0 <= j < |Lines(Window(response))| ==> !StartsWith(Keys(Lines(Window(response)), Untrimmed)[j], LOCATION))
  {
    match HeaderLines(response)
    case None => None
    case Some(lines) =>
      match FirstPrefixed(Keys(lines, Untrimmed), LOCATION, 0)
      case None => None
      case Some(i) => Some(LocationValue(lines[i]))
  }

  /**
   * The first line whose lowercased form starts with `location:` decides:
   * the URL is what follows its first `:`, trimmed.
   */
  lemma LocationFirstLine(response: seq<byte>, i: nat)
    requires ValidUtf8(Window(response))
    requires i < |Lines(Window(response))|
    requires StartsWith(Keys(Lines(Window(response)), Untrimmed)[i], LOCATION)
    requires forall j :: 0 <= j < i ==> !StartsWith(Keys(Lines(Window(response)), Untrimmed)[j], LOCATION)
    ensures StartsWith(Lower(Lines(Window(response))[i]), LOCATION)
    ensures Location(response) == Some(LocationValue(Lines(Window(response))[i]))
  {
    var keys := Keys(Lines(Window(response)), Untrimmed);
    var first := FirstPrefixed(keys, LOCATION, 0);
    assert first.Some? && first.value == i;
  }

  /**
   * `Location: <url>` gives back the URL verbatim, colons and all, when it
   * has no surrounding whitespace.
   */
  lemma LocationLineValue(name: seq<byte>, url: seq<byte>)
    requires |name| == 8 && Lower(name) == Lower(Ascii("location")) && COLON !in name
    requires url != [] ==> !IsSpace(url[0]) && !IsSpace(url[|url| - 1])
    ensures StartsWith(Lower(name + [COLON, SP] + url), LOCATION)
    ensures LocationValue(name + [COLON, SP] + url) == url
  {
    var line := name + [COLON, SP] + url;
    assert Lower(line)[..9] == Lower(name) + [COLON] by {
      assert forall i :: 0 <= i < 8 ==> Lower(line)[i] == Lower(name)[i];
    }
    assert Lower(name) + [COLON] == LOCATION;
    assert line == name + [COLON] + ([SP] + url);
    SplitOnceAt(name, COLON, [SP] + url);
    assert ([SP] + url)[1..] == url;
    assert TrimStart([SP] + url) == url;
  }

  /**
   * A head whose first header is `Location: <url>` redirects to that URL,
   * whatever follows it, a second Location line included.
   */
  lemma EarlierLocationWins(status: seq<byte>, name: seq<byte>, url: seq<byte>, rest: seq<byte>)
    requires IsAscii(status) && IsAscii(name) && IsAscii(url) && IsAscii(rest)
    requires LF !in status && LF !in url
    requires !StartsWith(Lower(status), LOCATION)
    requires |name| == 8 && Lower(name) == Lower(Ascii("location")) && COLON !in name
    requires url != [] ==> !IsSpace(url[0]) && !IsSpace(url[|url| - 1])
    requires |status| + |url| + |rest| + 14 <= HEADER_WINDOW
    ensures Location(status + CRLF + (name + [COLON, SP] + url) + CRLF + rest) == Some(url)
  {
    var line := name + [COLON, SP] + url;
    var response := status + CRLF + line + CRLF + rest;
    LocationLineValue(name, url);
    LocationNameNoLf(name);
    AsciiLines(status, line, rest);
    AsciiIsUtf8(response);
    TwoLines(status, line, rest);
    LocationSecondLine(response, status, line);
  }

  /** A head whose second line is the first `location:` line redirects to that line's URL. */
  lemma LocationSecondLine(response: seq<byte>, status: seq<byte>, line: seq<byte>)
    requires |response| <= HEADER_WINDOW && ValidUtf8(response)
    requires |Lines(response)| >= 2 && Lines(response)[0] == status && Lines(response)[1] == line
    requires !StartsWith(Lower(status), LOCATION) && StartsWith(Lower(line), LOCATION)
    ensures Location(response) == Some(LocationValue(line))
  {
    var keys := Keys(Lines(response), Untrimmed);
    assert keys[0] == Lower(status) && keys[1] == Lower(line);
    LocationFirstLine(response, 1);
  }

  lemma TwoLines(a: seq<byte>, b: seq<byte>, rest: seq<byte>)
    requires LF !in a && LF !in b
    ensures |Lines(a + CRLF + b + CRLF + rest)| >= 2
    ensures Lines(a + CRLF + b + CRLF + rest)[0] == a && Lines(a + CRLF + b + CRLF + rest)[1] == b
  {
    assert a + CRLF + b + CRLF + rest == a + CRLF + (b + CRLF + rest);
    LinesCrlf(a, b + CRLF + rest);
    LinesCrlf(b, rest);
  }

  lemma LocationNameNoLf(name: seq<byte>)
    requires |name| == 8 && Lower(name) == Lower(Ascii("location"))
    ensures LF !in name
  {
    forall k | 0 <= k < 8 ensures name[k] != LF {
      assert Lower(name)[k] == Lower(Ascii("location"))[k];
    }
  }

  lemma AsciiLines(a: seq<byte>, b: seq<byte>, c: seq<byte>)
    requires IsAscii(a) && IsAscii(b) && IsAscii(c)
    ensures IsAscii(a + CRLF + b + CRLF + c)
  {
    AsciiConcat(a, CRLF);
    AsciiConcat(a + CRLF, b);
    AsciiConcat(a + CRLF + b, CRLF);
    AsciiConcat(a + CRLF + b + CRLF, c);
  }
}
