/**
 * What the library does with a response (src/response.rs): HTTP/2 or
 * HTTP/1 dispatch on the connection preface, and the HTTP/1 decisions, as
 * outcome values.
 */
module LibResponse {
  import opened Wrappers
  import opened Bytes
  import opened Text
  import opened HttpResponse
  import Headers
  import Chunked
  import Http2
  import Request
  import Url
  import Cli

  /** The test of `process_response`: longer than the preface and starting with it. */
  predicate IsHttp2(response: seq<byte>)
  {
    |response| > 24 && response[..24] == Http2.PREFACE
  }

  /** `handle_response_body`: to the `-o` file, or printed with a newline. */
  function HandleBody(body: seq<byte>, a: Cli.Args): (r: Outcome)
    ensures !r.Exit? && (r.File? <==> a.output.Some?)
    ensures r.File? ==> r.path == a.output.value && r.contents == body
    ensures r.Stdout? ==> |r.text| == |body| + 1 && r.text[..|body|] == body && r.text[|body|] == LF
  {
    match a.output
    case Some(path) => File(path, body)
    case None => Stdout(body + [LF])
  }

  /** `process_http1_response`. */
  function ProcessHttp1(response: seq<byte>, a: Cli.Args): (r: Outcome)
    ensures r.Exit? <==>
      HeaderEnd(response).None? || Headers.ParseStatusLine(response).Err? || Headers.ParseStatusLine(response).value >= 400
    ensures r.Exit? ==> r.code == 1
    ensures r.File? ==> r.contents == Body(response[..HeaderEnd(response).value], response[HeaderEnd(response).value..])
  {
    match HeaderEnd(response)
    case None => Exit(1)
    case Some(end) =>
      match Headers.ParseStatusLine(response)
      case Err(_) => Exit(1)
      case Ok(status) =>
        if status >= 400 then Exit(1)
        else HandleBody(Body(response[..end], response[end..]), a)
  }

  /** `process_http2_response`: the DATA payloads, wherever the frames put them. */
  function ProcessHttp2(response: seq<byte>, a: Cli.Args): (r: Outcome)
    ensures !r.Exit?
    ensures r.File? ==> |r.contents| <= |response|
  {
    HandleBody(Http2.Http2Body(response), a)
  }

  /** `process_response`. */
  function ProcessResponse(response: seq<byte>, a: Cli.Args): (r: Outcome)
    ensures r.Exit? ==> !IsHttp2(response) && r.code == 1
  {
    if IsHttp2(response) then ProcessHttp2(response, a) else ProcessHttp1(response, a)
  }

  // ------------------------------------------------------------ properties

  /**
   * The library has no `--fail`: an HTTP error always exits 1, as do a
   * missing blank line and an unreadable status line; a successful HTTP/1
   * response never writes the header block.
   */
  lemma ExitsWithOne(response: seq<byte>, a: Cli.Args)
    requires !IsHttp2(response)
    ensures ProcessResponse(response, a).Exit? <==>
      HeaderEnd(response).None? || Headers.ParseStatusLine(response).Err? || Headers.ParseStatusLine(response).value >= 400
    ensures ProcessResponse(response, a).Exit? ==> ProcessResponse(response, a).code == 1
    ensures ProcessResponse(response, a) == ProcessResponse(response, a.(failFast := !a.failFast, includeHeaders := !a.includeHeaders, headOnly := !a.headOnly))
  {
  }

  /** Under `--fail` the two generations disagree on an HTTP error: 22 from the binary, 1 from the library. */
  lemma FailFastOnlyInBinary(response: seq<byte>, a: Cli.Args)
    requires !IsHttp2(response) && HeaderEnd(response).Some?
    requires Headers.ParseStatusLine(response).Ok? && Headers.ParseStatusLine(response).value >= 400
    requires a.failFast
    ensures HttpResponse.Process(response, a) == Exit(FAIL_EXIT)
    ensures ProcessResponse(response, a) == Exit(1)
  {
  }

  /** A chunked HTTP/1 response: the chunk payloads in order reach the file. */
  lemma ChunkedBodySaved(head: seq<byte>, chunks: seq<seq<byte>>, trailer: seq<byte>, a: Cli.Args)
    requires |head| >= 4 && Find(head, CRLFCRLF) == Some(|head| - 4)
    requires !IsHttp2(head + Chunked.Encode(chunks, trailer))
    requires Headers.ParseStatusLine(head).Ok? && Headers.ParseStatusLine(head).value < 400
    requires Headers.IsChunked(head) && a.output.Some?
    requires forall i :: 0 <= i < |chunks| ==> chunks[i] != [] && |chunks[i]| <= USIZE_MAX
    ensures ProcessResponse(head + Chunked.Encode(chunks, trailer), a) == File(a.output.value, Concat(chunks))
  {
    HeadSplit(head, Chunked.Encode(chunks, trailer));
    Chunked.DecodeEncode(chunks, trailer);
  }

  /** An HTTP/2 message starts with the preface and is longer than it. */
  lemma MessageIsHttp2(b: Cli.Args, u: Url.ParsedUrl)
    ensures IsHttp2(Http2.Http2Message(b, u))
  {
    var m := Http2.Http2Message(b, u);
    var rest := m[|Http2.PREFACE|..];
    assert m == Http2.PREFACE + rest;
    assert |rest| >= Http2.FRAME_HEADER_SIZE;
  }

  /**
   * Fed the library's own HTTP/2 request, the HTTP/2 path hands on exactly
   * the request's data: the preface is recognised and only DATA payloads
   * are kept.
   */
  lemma OwnHttp2Message(b: Cli.Args, u: Url.ParsedUrl, a: Cli.Args)
    requires |Http2.HeadersPayload(b.httpMethod, u.path, u.host, b.headers)| < Http2.MAX_LENGTH
    requires b.data.Some? ==> |b.data.value| < Http2.MAX_LENGTH
    ensures ProcessResponse(Http2.Http2Message(b, u), a) == HandleBody(Request.Body(b.data), a)
  {
    MessageIsHttp2(b, u);
    Http2.ReadOwnRequest(b, u);
  }
}
