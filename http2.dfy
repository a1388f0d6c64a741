/**
 * The HTTP/2 path of src/http2.rs: the frame writers, the request writer and
 * the simplified response reader, which keeps the payloads of DATA frames.
 * Frames follow section 4.1 of RFC 7540: a 24-bit length, a type, flags, a
 * reserved bit and a 31-bit stream identifier, then the payload. The header
 * block is plain text, not HPACK.
 */
module Http2 {
  import opened Wrappers
  import opened Bytes
  import opened Url
  import Cli
  import Request

  /** The client connection preface, section 3.5 of RFC 7540. */
  const PREFACE: seq<byte> := Ascii("PRI * HTTP/2.0\r\n\r\nSM\r\n\r\n")
  const FRAME_HEADER_SIZE: nat := 9
  const MAX_LENGTH: nat := 0x100_0000

  const DATA: byte := 0x0
  const HEADERS: byte := 0x1
  const SETTINGS: byte := 0x4

  const END_STREAM: byte := 0x1
  const END_HEADERS: byte := 0x4

  const SP: byte := 32

  datatype FrameHeader = FrameHeader(length: nat, kind: byte, flags: byte, stream: nat)

  /** The low eight bits of `n`: `as u8`, or `& 0xFF`. */
  function Low8(n: nat): byte
  {
    n % 256
  }

  /**
   * The nine header bytes. A shift right by 8 is a division by 256; the
   * length keeps its low 24 bits, as the writers' `& 0xFF` and `as u8` do.
   */
  function WriteHeader(h: FrameHeader): (r: seq<byte>)
    ensures |r| == FRAME_HEADER_SIZE
  {
    [Low8(h.length / 256 / 256), Low8(h.length / 256), Low8(h.length), h.kind, h.flags,
     Low8(h.stream / 256 / 256 / 256), Low8(h.stream / 256 / 256), Low8(h.stream / 256), Low8(h.stream)]
  }

  /** The header at `i` as the response reader decodes it; the reserved bit is masked off. */
  function ReadHeader(s: seq<byte>, i: nat): (h: FrameHeader)
    requires i + FRAME_HEADER_SIZE <= |s|
    ensures h.length < MAX_LENGTH && h.stream < 0x8000_0000
  {
    FrameHeader((s[i] as int) * 0x1_0000 + (s[i + 1] as int) * 0x100 + s[i + 2], s[i + 3], s[i + 4],
                ((s[i + 5] as int) % 128) * 0x100_0000 + (s[i + 6] as int) * 0x1_0000
                + (s[i + 7] as int) * 0x100 + s[i + 8])
  }

  /** A frame as the writers produce it. */
  function Frame(kind: byte, flags: byte, stream: nat, payload: seq<byte>): seq<byte>
  {
    WriteHeader(FrameHeader(|payload|, kind, flags, stream)) + payload
  }

  lemma Split24(n: nat)
    requires n < MAX_LENGTH
    ensures Low8(n / 256 / 256) * 0x1_0000 + Low8(n / 256) * 0x100 + Low8(n) == n
  {
    var q1 := n / 256;
    var q2 := q1 / 256;
    assert n == q1 * 256 + n % 256;
    assert q1 == q2 * 256 + q1 % 256;
    assert q2 < 256;
  }

  lemma Split31(n: nat)
    requires n < 0x8000_0000
    ensures (Low8(n / 256 / 256 / 256) % 128) * 0x100_0000 + Low8(n / 256 / 256) * 0x1_0000
            + Low8(n / 256) * 0x100 + Low8(n) == n
  {
    var q1 := n / 256;
    var q2 := q1 / 256;
    var q3 := q2 / 256;
    assert n == q1 * 256 + n % 256;
    assert q1 == q2 * 256 + q1 % 256;
    assert q2 == q3 * 256 + q2 % 256;
    assert q3 < 128;
  }

  /** Decoding a written header gives it back when its length fits 24 bits and its stream 31. */
  lemma ReadWriteHeader(h: FrameHeader, rest: seq<byte>)
    requires h.length < MAX_LENGTH && h.stream < 0x8000_0000
    ensures ReadHeader(WriteHeader(h) + rest, 0) == h
  {
    Split24(h.length);
    Split31(h.stream);
  }

  // ------------------------------------------------------------ writers

  /** SETTINGS_MAX_CONCURRENT_STREAMS (0x3) set to 100. */
  const SETTINGS_PAYLOAD: seq<byte> := [0, 3, 0, 0, 0, 100]

  /** `create_http2_settings_frame`. */
  method CreateSettingsFrame() returns (frame: seq<byte>)
    ensures frame == Frame(SETTINGS, 0, 0, SETTINGS_PAYLOAD)
  {
    frame := [];
    frame := frame + [0, 0, 6];
    frame := frame + [SETTINGS];
    frame := frame + [0];
    frame := frame + [0, 0, 0, 0];
    frame := frame + [0, 3, 0, 0, 0, 100];
  }

  /** `headers.join("\r\n")`. */
  function Join(headers: seq<seq<byte>>): seq<byte>
  {
    if headers == [] then []
    else if |headers| == 1 then headers[0]
    else Join(headers[..|headers| - 1]) + CRLF + headers[|headers| - 1]
  }

  /** The plain-text header block: the request line, Host, the headers joined, a final CRLF. */
  function HeadersPayload(verb: seq<byte>, path: seq<byte>, host: seq<byte>, headers: seq<seq<byte>>): seq<byte>
  {
    verb + [SP] + path + Ascii(" HTTP/2.0\r\nHost: ") + host + CRLF + Join(headers) + CRLF
  }

  /** END_HEADERS, and END_STREAM when no DATA frame follows; the two bits are distinct, so `|` adds. */
  function HeadersFlags(hasBody: bool): byte
  {
    END_HEADERS + if hasBody then 0 else END_STREAM
  }

  function HeadersFrame(verb: seq<byte>, path: seq<byte>, host: seq<byte>,
                        headers: seq<seq<byte>>, hasBody: bool): seq<byte>
  {
    Frame(HEADERS, HeadersFlags(hasBody), 1, HeadersPayload(verb, path, host, headers))
  }

  /** `create_http2_headers_frame`: a zero length first, patched once the payload is in. */
  method CreateHeadersFrame(verb: seq<byte>, path: seq<byte>, host: seq<byte>,
                            headers: seq<seq<byte>>, hasBody: bool)
    returns (frame: seq<byte>)
    ensures frame == HeadersFrame(verb, path, host, headers, hasBody)
  {
    frame := [0, 0, 0];
    frame := frame + [HEADERS];
    var flags := HeadersFlags(hasBody);
    frame := frame + [flags];
    frame := frame + [0, 0, 0, 1];
    var payload := verb + [SP] + path + Ascii(" HTTP/2.0\r\nHost: ") + host + CRLF;
    var headersText := Join(headers);
    frame := frame + payload;
    frame := frame + headersText;
    frame := frame + CRLF;
    ghost var p := HeadersPayload(verb, path, host, headers);
    assert frame == [0, 0, 0, HEADERS, flags, 0, 0, 0, 1] + p;
    var payloadLen := |frame| - 9;
    frame := frame[0 := Low8(payloadLen / 256 / 256)];
    frame := frame[1 := Low8(payloadLen / 256)];
    frame := frame[2 := Low8(payloadLen)];
    assert frame[..9] == WriteHeader(FrameHeader(|p|, HEADERS, flags, 1));
    assert frame == frame[..9] + frame[9..];
  }

  function DataFrame(data: seq<byte>): seq<byte>
  {
    Frame(DATA, END_STREAM, 1, data)
  }

  /** `create_http2_data_frame`. */
  method CreateDataFrame(data: seq<byte>) returns (frame: seq<byte>)
    ensures frame == DataFrame(data)
  {
    frame := [];
    var len := |data|;
    frame := frame + [Low8(len / 256 / 256), Low8(len / 256), Low8(len)];
    frame := frame + [DATA];
    frame := frame + [END_STREAM];
    frame := frame + [0, 0, 0, 1];
    frame := frame + data;
  }

  /** The request: preface, SETTINGS, HEADERS, and a DATA frame when there is a body. */
  function Http2Message(a: Cli.Args, u: ParsedUrl): seq<byte>
  {
    PREFACE + Frame(SETTINGS, 0, 0, SETTINGS_PAYLOAD)
    + HeadersFrame(a.httpMethod, u.path, u.host, a.headers, a.data.Some?)
    + (match a.data case None => [] case Some(d) => DataFrame(d))
  }

  function Http2Built(a: Cli.Args): Result<seq<byte>, string>
  {
    match Parse(a.url)
    case Err(e) => Err(e)
    case Ok(u) => Ok(Http2Message(a, u))
  }

  /** `build_http2_request`. */
  method BuildHttp2Request(a: Cli.Args) returns (r: Result<seq<byte>, string>)
    ensures r == Http2Built(a)
  {
    var parsed := Parse(a.url);
    if parsed.Err? {
      return Err(parsed.error);
    }
    var u := parsed.value;
    var request := PREFACE;
    var settings := CreateSettingsFrame();
    request := request + settings;
    var hasBody := a.data.Some?;
    var headersFrame := CreateHeadersFrame(a.httpMethod, u.path, u.host, a.headers, hasBody);
    request := request + headersFrame;
    if a.data.Some? {
      var dataFrame := CreateDataFrame(a.data.value);
      request := request + dataFrame;
    } else {
      assert request + [] == request;
    }
    return Ok(request);
  }

  // ------------------------------------------------------------- reader

  /**
   * The DATA payloads of the frames from index `i` of `s` on: reading
   * stops when fewer than nine bytes are left or a frame is longer than
   * what is left; frames of other types are skipped.
   */
  function DataFrames(s: seq<byte>, i: nat): (r: seq<byte>)
    requires i <= |s|
    decreases |s| - i
    ensures |r| <= |s| - i
    ensures |s| - i < FRAME_HEADER_SIZE ==> r == []
  {
    if i + FRAME_HEADER_SIZE > |s| then []
    else
      var h := ReadHeader(s, i);
      if i + FRAME_HEADER_SIZE + h.length > |s| then []
      else
        (if h.kind == DATA then s[i + FRAME_HEADER_SIZE..i + FRAME_HEADER_SIZE + h.length] else [])
        + DataFrames(s, i + FRAME_HEADER_SIZE + h.length)
  }

  /** Where frames start: after a preface, if the response is longer than one and begins with it. */
  function FramesStart(response: seq<byte>): nat
  {
    if |response| > 24 && response[..24] == PREFACE then 24 else 0
  }

  /** What `parse_http2_response` returns. */
  function Http2Body(response: seq<byte>): (r: seq<byte>)
    ensures |r| <= |response|
    ensures |response| < FRAME_HEADER_SIZE ==> r == []
  {
    DataFrames(response, FramesStart(response))
  }

  /** The frame at `i` ends at `next`: the reader keeps `kept` of it, its payload iff it is a DATA frame, and goes on at `next`. */
  lemma FrameTurn(s: seq<byte>, i: nat, next: nat, kept: seq<byte>)
    requires i + FRAME_HEADER_SIZE <= next <= |s|
    requires next == i + FRAME_HEADER_SIZE + ReadHeader(s, i).length
    requires kept == if s[i + 3] == DATA then s[i + FRAME_HEADER_SIZE..next] else []
    ensures DataFrames(s, i) == kept + DataFrames(s, next)
  {
  }

  /** One turn of the reader, with `body` read so far. */
  lemma ReaderTurn(body: seq<byte>, s: seq<byte>, i: nat, next: nat, kept: seq<byte>)
    requires i + FRAME_HEADER_SIZE <= next <= |s|
    requires next == i + FRAME_HEADER_SIZE + ReadHeader(s, i).length
    requires kept == if s[i + 3] == DATA then s[i + FRAME_HEADER_SIZE..next] else []
    ensures body + DataFrames(s, i) == (body + kept) + DataFrames(s, next)
  {
    FrameTurn(s, i, next, kept);
  }

  /** `parse_http2_response` (its verbose trace is not modelled). */
  method ParseHttp2Response(response: seq<byte>) returns (body: seq<byte>)
    ensures body == Http2Body(response)
  {
    var i := 0;
    if |response| > 24 && response[0..24] == PREFACE {
      i := 24;
    }
    body := [];
    ghost var total := DataFrames(response, i);
    while i + 9 <= |response|
      invariant i <= |response|
      invariant body + DataFrames(response, i) == total
      decreases |response| - i
    {
      var length := (response[i] as int) * 0x1_0000 + (response[i + 1] as int) * 0x100 + response[i + 2];
      var frameType := response[i + 3];
      if i + 9 + length > |response| {
        break;
      }
      var next := i + 9 + length;
      ReaderTurn(body, response, i, next, if frameType == DATA then response[i + 9..next] else []);
      if frameType == DATA {
        body := body + response[i + 9..next];
      } else {
        assert body + [] == body;
      }
      i := next;
    }
    assert body + [] == body;
  }

  // --------------------------------------------------------- properties

  /** A frame header reads the same after anything is put in front of it. */
  lemma HeaderShift(p: seq<byte>, s: seq<byte>, i: nat)
    requires i + FRAME_HEADER_SIZE <= |s|
    ensures ReadHeader(p + s, |p| + i) == ReadHeader(s, i)
    ensures (p + s)[|p| + i + 3] == s[i + 3]
  {
    var t := p + s;
    var j := |p| + i;
    assert t[j] == s[i] && t[j + 1] == s[i + 1] && t[j + 2] == s[i + 2] && t[j + 3] == s[i + 3] && t[j + 4] == s[i + 4];
    assert t[j + 5] == s[i + 5] && t[j + 6] == s[i + 6] && t[j + 7] == s[i + 7] && t[j + 8] == s[i + 8];
  }

  /** The reader does not depend on what lies before where it starts. */
  lemma {:induction false} DataFramesShift(p: seq<byte>, s: seq<byte>, i: nat)
    requires i <= |s|
    ensures DataFrames(p + s, |p| + i) == DataFrames(s, i)
    decreases |s| - i
  {
    if i + FRAME_HEADER_SIZE <= |s| {
      HeaderShift(p, s, i);
      var next := i + FRAME_HEADER_SIZE + ReadHeader(s, i).length;
      if next <= |s| {
        var kept := if s[i + 3] == DATA then s[i + FRAME_HEADER_SIZE..next] else [];
        FrameTurn(s, i, next, kept);
        ShiftedTurn(p, s, i, next, kept);
        DataFramesShift(p, s, next);
      }
    }
  }

  /** One whole frame at `i` of `s` is read alike at `|p| + i` of `p + s`. */
  lemma ShiftedTurn(p: seq<byte>, s: seq<byte>, i: nat, next: nat, kept: seq<byte>)
    requires i + FRAME_HEADER_SIZE <= next <= |s| && next == i + FRAME_HEADER_SIZE + ReadHeader(s, i).length
    requires kept == if s[i + 3] == DATA then s[i + FRAME_HEADER_SIZE..next] else []
    ensures DataFrames(p + s, |p| + i) == kept + DataFrames(p + s, |p| + next)
  {
    HeaderShift(p, s, i);
    assert (p + s)[|p| + i + FRAME_HEADER_SIZE..|p| + next] == s[i + FRAME_HEADER_SIZE..next];
    FrameTurn(p + s, |p| + i, |p| + next, kept);
  }

  /** A written frame is read back as itself, and the reader moves on to what follows it. */
  lemma DataFramesOfFrame(kind: byte, flags: byte, stream: nat, payload: seq<byte>, rest: seq<byte>)
    requires |payload| < MAX_LENGTH && stream < 0x8000_0000
    ensures DataFrames(Frame(kind, flags, stream, payload) + rest, 0)
         == (if kind == DATA then payload else []) + DataFrames(rest, 0)
  {
    var h := FrameHeader(|payload|, kind, flags, stream);
    var f := Frame(kind, flags, stream, payload);
    var s := f + rest;
    assert s == WriteHeader(h) + (payload + rest);
    ReadWriteHeader(h, payload + rest);
    assert s[FRAME_HEADER_SIZE..|f|] == payload;
    FirstFrame(f, rest, if kind == DATA then payload else []);
  }

  /** The text read from `f + rest` starts with one whole frame that fills `f`. */
  lemma FirstFrame(f: seq<byte>, rest: seq<byte>, kept: seq<byte>)
    requires FRAME_HEADER_SIZE <= |f| && |f| == FRAME_HEADER_SIZE + ReadHeader(f + rest, 0).length
    requires kept == if (f + rest)[3] == DATA then (f + rest)[FRAME_HEADER_SIZE..|f|] else []
    ensures DataFrames(f + rest, 0) == kept + DataFrames(rest, 0)
  {
    FrameTurn(f + rest, 0, |f|, kept);
    DataFramesAfter(f, rest);
  }

  lemma DataFramesAfter(p: seq<byte>, s: seq<byte>)
    ensures DataFrames(p + s, |p|) == DataFrames(s, 0)
  {
    DataFramesShift(p, s, 0);
  }

  /** The SETTINGS frame: six payload bytes, type 4, no flags, stream 0, one setting (3, 100). */
  lemma SettingsFrameReads()
    ensures |Frame(SETTINGS, 0, 0, SETTINGS_PAYLOAD)| == 15
    ensures ReadHeader(Frame(SETTINGS, 0, 0, SETTINGS_PAYLOAD), 0) == FrameHeader(6, SETTINGS, 0, 0)
    ensures SETTINGS_PAYLOAD[0] * 256 + SETTINGS_PAYLOAD[1] == 3
    ensures SETTINGS_PAYLOAD[2] * 0x100_0000 + SETTINGS_PAYLOAD[3] * 0x1_0000
          + SETTINGS_PAYLOAD[4] * 0x100 + SETTINGS_PAYLOAD[5] == 100
  {
    ReadWriteHeader(FrameHeader(6, SETTINGS, 0, 0), SETTINGS_PAYLOAD);
  }

  /** END_HEADERS is always set; END_STREAM exactly when there is no body. */
  lemma HeadersFlagBits(hasBody: bool)
    ensures (HeadersFlags(hasBody) / END_HEADERS) % 2 == 1
    ensures HeadersFlags(hasBody) % 2 == 1 <==> !hasBody
    ensures HeadersFlags(hasBody) < 8
  {
  }

  lemma {:induction false} JoinIsBlock(headers: seq<seq<byte>>)
    requires headers != []
    ensures Join(headers) + CRLF == Request.Block(headers)
    decreases |headers|
  {
    if |headers| == 1 {
      assert headers[..0] == [];
    } else {
      var init := headers[..|headers| - 1];
      JoinIsBlock(init);
    }
  }

  /**
   * The custom headers in the HEADERS payload: each on its own CRLF-ended
   * line, in order, or one empty line when there are none.
   */
  lemma HeadersPayloadLines(verb: seq<byte>, path: seq<byte>, host: seq<byte>, headers: seq<seq<byte>>)
    ensures HeadersPayload(verb, path, host, headers)
         == verb + [SP] + path + Ascii(" HTTP/2.0\r\nHost: ") + host + CRLF
            + (if headers == [] then CRLF else Request.Block(headers))
  {
    if headers != [] {
      JoinIsBlock(headers);
    }
  }

  /**
   * Frames read back: the reader, given written frames, keeps the DATA
   * payloads and drops the rest.
   */
  lemma {:induction false} ReadWrittenFrames(kinds: seq<byte>, payloads: seq<seq<byte>>)
    requires |kinds| == |payloads|
    requires forall k :: 0 <= k < |payloads| ==> |payloads[k]| < MAX_LENGTH
    ensures DataFrames(WriteFrames(kinds, payloads), 0) == Concat(DataOnly(kinds, payloads))
    decreases |kinds|
  {
    if kinds != [] {
      var w := WriteFrames(kinds[1..], payloads[1..]);
      DataFramesOfFrame(kinds[0], 0, 1, payloads[0], w);
      ReadWrittenFrames(kinds[1..], payloads[1..]);
      assert DataOnly(kinds, payloads) == [if kinds[0] == DATA then payloads[0] else []] + DataOnly(kinds[1..], payloads[1..]);
      ConcatFront(if kinds[0] == DATA then payloads[0] else [], DataOnly(kinds[1..], payloads[1..]));
    }
  }

  /** Frames of the given kinds and payloads, on stream 1, without flags. */
  function WriteFrames(kinds: seq<byte>, payloads: seq<seq<byte>>): seq<byte>
    requires |kinds| == |payloads|
  {
    if kinds == [] then [] else Frame(kinds[0], 0, 1, payloads[0]) + WriteFrames(kinds[1..], payloads[1..])
  }

  /** Each payload where its kind is DATA, an empty one elsewhere. */
  function DataOnly(kinds: seq<byte>, payloads: seq<seq<byte>>): (r: seq<seq<byte>>)
    requires |kinds| == |payloads|
    ensures |r| == |kinds|
  {
    if kinds == [] then [] else [if kinds[0] == DATA then payloads[0] else []] + DataOnly(kinds[1..], payloads[1..])
  }

  lemma PrefaceBytes()
    ensures |PREFACE| == 24
    ensures PREFACE[..3] == [80, 82, 73]
  {
  }

  /**
   * The reader applied to the client's own request skips the preface,
   * the SETTINGS and the HEADERS frames and returns exactly the body.
   */
  lemma ReadOwnRequest(a: Cli.Args, u: ParsedUrl)
    requires |HeadersPayload(a.httpMethod, u.path, u.host, a.headers)| < MAX_LENGTH
    requires a.data.Some? ==> |a.data.value| < MAX_LENGTH
    ensures Http2Body(Http2Message(a, u)) == Request.Body(a.data)
  {
    var m := Http2Message(a, u);
    var settings := Frame(SETTINGS, 0, 0, SETTINGS_PAYLOAD);
    var hf := HeadersFrame(a.httpMethod, u.path, u.host, a.headers, a.data.Some?);
    var tail := match a.data case None => [] case Some(d) => DataFrame(d);
    PrefaceBytes();
    assert m == PREFACE + (settings + (hf + tail));
    assert |m| > 24 && m[..24] == PREFACE;
    DataFramesAfter(PREFACE, settings + (hf + tail));
    DataFramesOfFrame(SETTINGS, 0, 0, SETTINGS_PAYLOAD, hf + tail);
    DataFramesOfFrame(HEADERS, HeadersFlags(a.data.Some?), 1,
                      HeadersPayload(a.httpMethod, u.path, u.host, a.headers), tail);
    if a.data.Some? {
      DataFramesOfFrame(DATA, END_STREAM, 1, a.data.value, []);
      assert tail + [] == tail;
    }
  }

  /** A frame that claims more bytes than are left ends the reading; nothing of it is kept. */
  lemma IncompleteFrameStops(s: seq<byte>)
    requires |s| >= FRAME_HEADER_SIZE && FRAME_HEADER_SIZE + ReadHeader(s, 0).length > |s|
    ensures DataFrames(s, 0) == []
  {
  }

  /** A response shorter than one frame header has no body. */
  lemma ShortResponseIsEmpty(response: seq<byte>)
    requires |response| < FRAME_HEADER_SIZE
    ensures Http2Body(response) == []
  {
  }
}
