/**
 * What the binary client does with a response (src/http/response.rs,
 * `process`): its decisions as an outcome value. Exits, standard output
 * and the output file are the three ways `process` ends.
 */
module HttpResponse {
  import opened Wrappers
  import opened Bytes
  import opened Text
  import Headers
  import Chunked
  import Cli

  /** How a response is disposed of. */
  datatype Outcome =
    | Exit(code: nat)                              // `std::process::exit(code)`
    | Stdout(text: seq<byte>)                      // printed, then `process` returns
    | File(path: seq<byte>, contents: seq<byte>)   // written to the `-o` file

  /** `curl`'s exit code for an HTTP error under `--fail`. */
  const FAIL_EXIT: nat := 22

  /** The position just past the first blank line, where the body starts. */
  function HeaderEnd(response: seq<byte>): (r: Option<nat>)
    ensures r.Some? ==> 4 <= r.value <= |response| && OccursAt(response, CRLFCRLF, r.value - 4)
    ensures r.None? <==> !Contains(response, CRLFCRLF)
  {
    match Find(response, CRLFCRLF)
    case None => None
    case Some(p) => Some(p + 4)
  }

  /** The body: the chunked decoding of the tail when the header block says chunked, else the tail as it is. */
  function Body(head: seq<byte>, tail: seq<byte>): (body: seq<byte>)
    ensures Headers.IsChunked(head) ==> body == Chunked.Dechunk(tail)
    ensures !Headers.IsChunked(head) ==> body == tail
    ensures |body| <= |tail|
  {
    if Headers.IsChunked(head) then Chunked.Dechunk(tail) else tail
  }

  /** `print!("{}", headers)` when the header block is valid UTF-8; nothing otherwise. */
  function Shown(head: seq<byte>): seq<byte>
  {
    if ValidUtf8(head) then head else []
  }

  /**
   * `process`. Apart from exiting, the response goes to the `-o` file
   * (unless only the header block is asked for) or to standard output,
   * where a printed body is followed by a newline.
   */
  function Process(response: seq<byte>, a: Cli.Args): (r: Outcome)
    ensures r.File? <==> !r.Exit? && !a.headOnly && a.output.Some?
    ensures r.File? ==> r.path == a.output.value
    ensures r.Stdout? && !a.headOnly ==> r.text != [] && r.text[|r.text| - 1] == LF
  {
    match HeaderEnd(response)
    case None => Exit(1)
    case Some(end) =>
      match Headers.ParseStatusLine(response)
      case Err(_) => Exit(1)
      case Ok(status) =>
        if status >= 400 then Exit(if a.failFast then FAIL_EXIT else 1)
        else
          var head := response[..end];
          var body := Body(head, response[end..]);
          if a.headOnly then Stdout(Shown(head))
          else
            match a.output
            case Some(path) => File(path, (if a.includeHeaders then head else []) + body)
            case None => Stdout((if a.includeHeaders then Shown(head) else []) + body + [LF])
  }

  // ------------------------------------------------------------ properties

  /**
   * `process` exits exactly on a missing blank line, an unreadable status
   * line or a status of 400 and above; the code is 22 only for an HTTP
   * error under `--fail`, and 1 otherwise.
   */
  lemma ExitCodes(response: seq<byte>, a: Cli.Args)
    ensures Process(response, a).Exit? <==>
      HeaderEnd(response).None? || Headers.ParseStatusLine(response).Err? || Headers.ParseStatusLine(response).value >= 400
    ensures Process(response, a) == Exit(FAIL_EXIT) <==>
      HeaderEnd(response).Some? && Headers.ParseStatusLine(response).Ok? && Headers.ParseStatusLine(response).value >= 400 && a.failFast
    ensures Process(response, a).Exit? ==> Process(response, a).code in {1, FAIL_EXIT}
  {
  }

  /** The status check comes before head-only and output handling: for an HTTP error only `--fail` matters. */
  lemma ErrorStatusFirst(response: seq<byte>, a: Cli.Args, b: Cli.Args)
    requires HeaderEnd(response).Some? && Headers.ParseStatusLine(response).Ok?
    requires Headers.ParseStatusLine(response).value >= 400 && a.failFast == b.failFast
    ensures Process(response, a) == Process(response, b)
  {
  }

  /** A header block `head` that ends at its first blank line reads the same with any tail after it. */
  lemma HeadSplit(head: seq<byte>, tail: seq<byte>)
    requires |head| >= 4 && Find(head, CRLFCRLF) == Some(|head| - 4)
    ensures HeaderEnd(head + tail) == Some(|head|)
    ensures (head + tail)[..|head|] == head && (head + tail)[|head|..] == tail
    ensures Headers.ParseStatusLine(head + tail) == Headers.ParseStatusLine(head)
  {
    FindExtend(head, tail, CRLFCRLF);
    assert head[|head| - 4] == CR;
    Headers.StatusLineExtend(head, tail);
  }

  /** `process` on a header block that ends at its first blank line and a status below 400. */
  lemma Delivered(head: seq<byte>, tail: seq<byte>, a: Cli.Args)
    requires |head| >= 4 && Find(head, CRLFCRLF) == Some(|head| - 4)
    requires Headers.ParseStatusLine(head).Ok? && Headers.ParseStatusLine(head).value < 400
    ensures a.headOnly ==> Process(head + tail, a) == Stdout(Shown(head))
    ensures !a.headOnly && a.output.Some? ==>
      Process(head + tail, a) == File(a.output.value, (if a.includeHeaders then head else []) + Body(head, tail))
    ensures !a.headOnly && a.output.None? ==>
      Process(head + tail, a) == Stdout((if a.includeHeaders then Shown(head) else []) + Body(head, tail) + [LF])
  {
    HeadSplit(head, tail);
  }

  /** In head-only mode the body is never looked at: any tail gives the same outcome, the header block at most. */
  lemma HeadOnlyIgnoresBody(head: seq<byte>, tail: seq<byte>, other: seq<byte>, a: Cli.Args)
    requires a.headOnly && |head| >= 4 && Find(head, CRLFCRLF) == Some(|head| - 4)
    ensures Process(head + tail, a) == Process(head + other, a)
    ensures !Process(head + tail, a).Exit? ==> Process(head + tail, a) == Stdout(Shown(head))
  {
    HeadSplit(head, tail);
    HeadSplit(head, other);
  }

  /**
   * A chunked response saved to a file: the file holds the chunk payloads
   * in order, whatever trailer follows the last chunk.
   */
  lemma ChunkedBodySaved(head: seq<byte>, chunks: seq<seq<byte>>, trailer: seq<byte>, a: Cli.Args)
    requires |head| >= 4 && Find(head, CRLFCRLF) == Some(|head| - 4)
    requires Headers.ParseStatusLine(head).Ok? && Headers.ParseStatusLine(head).value < 400
    requires Headers.IsChunked(head)
    requires !a.headOnly && !a.includeHeaders && a.output.Some?
    requires forall i :: 0 <= i < |chunks| ==> chunks[i] != [] && |chunks[i]| <= USIZE_MAX
    ensures Process(head + Chunked.Encode(chunks, trailer), a) == File(a.output.value, Concat(chunks))
  {
    var tail := Chunked.Encode(chunks, trailer);
    Delivered(head, tail, a);
    Chunked.DecodeEncode(chunks, trailer);
    var body := Body(head, tail);
    assert body == Concat(chunks);
    assert [] + body == body;
  }

  /** Without chunked coding, what follows the blank line is printed as it is, after the header block under `-i`. */
  lemma PlainBodyPrinted(head: seq<byte>, tail: seq<byte>, a: Cli.Args)
    requires |head| >= 4 && Find(head, CRLFCRLF) == Some(|head| - 4)
    requires Headers.ParseStatusLine(head).Ok? && Headers.ParseStatusLine(head).value < 400
    requires !Headers.IsChunked(head) && ValidUtf8(head)
    requires !a.headOnly && a.output.None?
    ensures Process(head + tail, a) == Stdout((if a.includeHeaders then head else []) + tail + [LF])
  {
    Delivered(head, tail, a);
  }
}
