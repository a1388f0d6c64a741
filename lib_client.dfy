/**
 * The library client (src/client.rs): the builder selection of
 * `send_request` and the `read_response` loop. DNS, the TCP connection,
 * the TLS handshake and the write are not modelled: the connection is the
 * list of read outcomes its socket reports.
 */
module LibClient {
  import opened Wrappers
  import opened Bytes
  import opened Stream
  import Text
  import Headers
  import Url
  import Request
  import Http2
  import Cli

  /** `RequestError`. */
  datatype RequestError =
    | ConnectionError(message: string)
    | TlsError(message: string)
    | WriteError(message: string)
    | ReadError(message: string)
    | NoResponseError

  const READ_ERROR: string := "Read error: "

  /** The errors of `read_response`; the library loop never fails for size. */
  function Reported(outcome: Result<seq<byte>, Failure>): Result<seq<byte>, RequestError>
    requires outcome != Err(TooLarge)
  {
    match outcome
    case Ok(response) => Ok(response)
    case Err(Broken(reason)) => Err(ReadError(READ_ERROR + reason))
    case Err(Silent) => Err(NoResponseError)
  }

  /** `read_response`: the library read loop over the outcomes of successive reads. */
  method ReadResponse(events: seq<ReadEvent>) returns (r: Result<seq<byte>, RequestError>)
    ensures Read(Library, events) != Err(TooLarge)
    ensures r == Reported(Read(Library, events))
  {
    ReadOutcome(Library, events);
    var response: seq<byte> := [];
    var totalRead: nat := 0;
    var attempts: nat := 0;
    var k := 0;
    while attempts < MAX_ATTEMPTS && k < |events|
      invariant k <= |events| && totalRead == |response|
      invariant ReadFrom(Library, events, k, response, attempts) == Read(Library, events)
      decreases |events| - k
    {
      var event := events[k];
      k := k + 1;
      match event
      case Zero =>
        if attempts > 0 || response != [] {
          break;
        }
        attempts := attempts + 1;
      case Data(bytes) =>
        attempts := 0;
        totalRead := totalRead + |bytes|;
        response := response + bytes;
        if Complete(Library, response) {
          break;
        }
        if totalRead > MAX_SIZE {
          break;
        }
      case OtherErr(reason) =>
        if response != [] {
          break;
        }
        return Err(ReadError(READ_ERROR + reason));
      case WouldBlock =>
        if response != [] {
          attempts := attempts + 1;
          if attempts >= IDLE_LIMIT {
            break;
          }
        }
      case TimedOut =>
        if response != [] {
          attempts := attempts + 1;
          if attempts >= IDLE_LIMIT {
            break;
          }
        }
    }
    if attempts >= MAX_ATTEMPTS && response == [] {
      return Err(NoResponseError);
    }
    return Ok(response);
  }

  /**
   * `NoResponseError` is never returned: a peer that closes at once gives
   * an empty response, and the only error is a read error before any data.
   */
  lemma LibraryErrors(events: seq<ReadEvent>)
    ensures Read(Library, events) != Err(TooLarge)
    ensures Reported(Read(Library, events)) != Err(NoResponseError)
    ensures Reported(Read(Library, events)).Ok? ==> DeliversPrefix(events, Reported(Read(Library, events)).value)
    ensures Reported(Read(Library, events)).Err? ==>
      Reported(Read(Library, events)).error.ReadError? && FailsEarly(events, Read(Library, events).error.reason)
    ensures Reported(Read(Library, [Zero, Zero])) == Ok([])
  {
    ReadOutcome(Library, events);
  }

  /** Unlike the binary loop, one zero read after data ends the library loop. */
  lemma ZeroAfterDataEnds(events: seq<ReadEvent>, k: nat, response: seq<byte>, attempts: nat)
    requires k < |events| && events[k] == Zero && response != [] && attempts < MAX_ATTEMPTS
    ensures ReadFrom(Library, events, k, response, attempts) == Ok(response)
  {
  }

  /** Oversize stops the library loop with everything read so far, as a success. */
  lemma OversizeTruncates(events: seq<ReadEvent>, k: nat, response: seq<byte>, attempts: nat)
    requires k < |events| && events[k].Data? && attempts < MAX_ATTEMPTS
    requires |response + events[k].bytes| > MAX_SIZE
    ensures ReadFrom(Library, events, k, response, attempts) == Ok(response + events[k].bytes)
  {
  }

  /** The two generations part ways on a zero read between two pieces of data. */
  lemma GenerationsDiffer()
    ensures Read(Binary, [Data([65]), Zero, Data([66])]) == Ok([65, 66])
    ensures Read(Library, [Data([65]), Zero, Data([66])]) == Ok([65])
  {
    var events := [Data([65]), Zero, Data([66])];
    NoBlankLine([65]);
    NoBlankLine([65, 66]);
    assert [] + [65] == [65] && [65] + [66] == [65, 66];
    assert ReadFrom(Binary, events, 2, [65], 1) == ReadFrom(Binary, events, 3, [65, 66], 0) == Ok([65, 66]);
    assert ReadFrom(Binary, events, 1, [65], 0) == ReadFrom(Binary, events, 2, [65], 1);
    assert ReadFrom(Library, events, 1, [65], 0) == Ok([65]);
  }

  /**
   * The library passes over an indented ` Content-Length: 5` line, which
   * the binary reads, and takes the `Content-Length: 7` after it.
   */
  lemma IndentedLengthSkipped()
    ensures HeadLength(Library, StatusOk() + CRLF + ([32] + Request.LengthField(5)) + CRLF + (Request.LengthField(7) + CRLF + CRLF)) == Some(7)
    ensures HeadLength(Binary, StatusOk() + CRLF + ([32] + Request.LengthField(5)) + CRLF + (Request.LengthField(7) + CRLF + CRLF)) == Some(5)
  {
    var status := StatusOk();
    Request.LengthFieldShape(5);
    Request.LengthFieldShape(7);
    Request.LengthKey(5);
    Request.LengthKey(7);
    StatusOkShape();
    assert |Request.LengthField(5)| == 17 && |Request.LengthField(7)| == 17;
    IndentedLengthLine(status, Request.LengthField(5), Request.LengthField(7), CRLF);
    Request.LengthFieldReadsBack(Some(seq(7, i => 0)));
    Request.LoweredLengthReadsBack(5);
  }

  /** `HTTP/1.1 200 OK`. */
  function StatusOk(): (r: seq<byte>)
    ensures |r| == 15
  {
    Ascii("HTTP/1.1 ") + Ascii("200 OK")
  }

  lemma StatusOkShape()
    ensures Text.IsAscii(StatusOk()) && LF !in StatusOk()
    ensures !StartsWith(Text.Lower(StatusOk()), Headers.CONTENT_LENGTH)
    ensures !StartsWith(Text.Lower(Text.Trim(StatusOk())), Headers.CONTENT_LENGTH)
  {
    var s := StatusOk();
    assert s[0] == 72 && s[14] == 75;
    assert forall i :: 0 <= i < 15 ==> s[i] < 0x80 && s[i] != LF;
    Text.TrimUnchanged(s);
    assert Text.Lower(s)[0] == 104 && Headers.CONTENT_LENGTH[0] == 99;
  }

  lemma NoBlankLine(s: seq<byte>)
    requires |s| < 4
    ensures !Complete(Binary, s) && !Complete(Library, s)
  {
  }

  // ------------------------------------------------------------ send_request

  /**
   * The request bytes `send_request` writes: the HTTP/2 builder iff
   * `http2`, the older HTTP/1.1 builder otherwise. Both fail exactly when
   * the URL does, with its error.
   */
  function Chosen(a: Cli.Args, http2: bool): (r: Result<seq<byte>, string>)
    ensures r.Err? <==> Url.Parse(a.url).Err?
    ensures r.Err? ==> r.error == Url.Parse(a.url).error
  {
    if http2 then Http2.Http2Built(a) else Request.Built(a, false)
  }

  /**
   * `send_request`: build, parse the URL, connect, write, read. Returns the
   * bytes written (None when nothing was sent) and the outcome.
   */
  method SendRequest(a: Cli.Args, http2: bool, events: seq<ReadEvent>)
    returns (written: Option<seq<byte>>, r: Result<seq<byte>, RequestError>)
    ensures Url.Parse(a.url).Err? ==> written.None? && r == Err(ConnectionError(Url.Parse(a.url).error))
    ensures Url.Parse(a.url).Ok? ==> written == Some(Chosen(a, http2).value)
    ensures Url.Parse(a.url).Ok? ==> Read(Library, events) != Err(TooLarge) && r == Reported(Read(Library, events))
  {
    var built;
    if http2 {
      built := Http2.BuildHttp2Request(a);
    } else {
      built := Request.BuildHttpRequest(a);
    }
    if built.Err? {
      return None, Err(ConnectionError(built.error));
    }
    var parsed := Url.Parse(a.url);
    // the builder has parsed the same URL, so this cannot fail
    assert parsed.Ok?;
    written := Some(built.value);
    r := ReadResponse(events);
  }
}
