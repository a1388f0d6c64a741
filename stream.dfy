/**
 * The incremental response-read loop shared by both generations of the
 * client: `read_http_response` (src/http/client.rs) and `read_response`
 * (src/client.rs). A socket is a finite list of read outcomes; once the
 * list is used up the peer counts as closed (see `ClosedPeer`).
 */
module Stream {
  import opened Wrappers
  import opened Bytes
  import Text
  import Headers

  /** The size of the read buffer: a single read delivers at most this many bytes. */
  const BUFFER_SIZE: nat := 8192
  /** `MAX_SIZE`: 10 MiB. */
  const MAX_SIZE: nat := 10 * 1024 * 1024
  /** `MAX_ATTEMPTS`: the loop guard. */
  const MAX_ATTEMPTS: nat := 50
  /** Idle reads (WouldBlock or TimedOut) after data that end the loop. */
  const IDLE_LIMIT: nat := 5
  /** `b"0\r\n\r\n"`, the last-chunk marker the loop looks for. */
  const CHUNKED_END: seq<byte> := [48, 13, 10, 13, 10]

  /** What one `stream.read(&mut buffer)` reports. */
  datatype ReadEvent =
    | Data(bytes: seq<byte>)      // Ok(n) with n > 0
    | Zero                        // Ok(0)
    | WouldBlock                  // Err with ErrorKind::WouldBlock
    | TimedOut                    // Err with ErrorKind::TimedOut
    | OtherErr(reason: string)    // any other Err

  /** A read outcome the `Read` trait can produce with an 8 KiB buffer. */
  predicate Readable(e: ReadEvent)
  {
    e.Data? ==> 1 <= |e.bytes| <= BUFFER_SIZE
  }

  predicate Idle(e: ReadEvent)
  {
    e.WouldBlock? || e.TimedOut?
  }

  /** The bytes delivered by a list of reads, in order. */
  function Gathered(events: seq<ReadEvent>): seq<byte>
  {
    if events == [] then []
    else
      var last := events[|events| - 1];
      Gathered(events[..|events| - 1]) + (if last.Data? then last.bytes else [])
  }

  lemma GatheredNext(events: seq<ReadEvent>, k: nat)
    requires k < |events|
    ensures Gathered(events[..k + 1])
            == Gathered(events[..k]) + (if events[k].Data? then events[k].bytes else [])
  {
    assert events[..k + 1][..k] == events[..k];
  }

  /** The two generations differ in how the loop reacts to end of stream and to oversize. */
  datatype Generation = Binary | Library

  /** The header lines are normalised by trim and lowercase (binary) or lowercase only (library). */
  function Form(g: Generation): Headers.LineForm
  {
    if g == Binary then Headers.Trimmed else Headers.Untrimmed
  }

  /** The Content-Length of a header block as generation `g` reads it. */
  function HeadLength(g: Generation, head: seq<byte>): (r: Option<nat>)
    ensures g == Binary ==> r == Headers.ContentLength(head)
  {
    match Headers.HeaderLines(head)
    case None => None
    case Some(lines) => Headers.LengthOfLines(lines, Form(g))
  }

  /** Whether generation `g` reads a header block as chunked. */
  function HeadChunked(g: Generation, head: seq<byte>): (r: bool)
    ensures g == Binary ==> r == Headers.IsChunked(head)
  {
    match Headers.HeaderLines(head)
    case None => false
    case Some(lines) => Headers.AnyChunkedLine(lines, Form(g))
  }

  /**
   * The completion test run after each data read: once the header block
   * has ended, a Content-Length decides (and then only the byte count
   * matters), otherwise a chunked header block completes when the
   * last-chunk marker occurs anywhere in what has been read.
   */
  function Complete(g: Generation, response: seq<byte>): (r: bool)
    ensures r ==> Contains(response, CRLFCRLF)
  {
    match Find(response, CRLFCRLF)
    case None => false
    case Some(h) =>
      var head := response[..h + 4];
      match HeadLength(g, head)
      case Some(length) => |response| >= |head| + length
      case None => HeadChunked(g, head) && Contains(response, CHUNKED_END)
  }

  /** With a Content-Length in the header block `head`, completion is the byte count alone. */
  lemma CompleteByLength(g: Generation, response: seq<byte>, head: seq<byte>, length: nat)
    requires Find(response, CRLFCRLF).Some? && head == response[..Find(response, CRLFCRLF).value + 4]
    requires HeadLength(g, head) == Some(length)
    ensures Complete(g, response) <==> |response| >= |head| + length
  {
  }

  /** Without one, completion is a chunked header block and the last-chunk marker somewhere in the response. */
  lemma CompleteByMarker(g: Generation, response: seq<byte>, head: seq<byte>)
    requires Find(response, CRLFCRLF).Some? && head == response[..Find(response, CRLFCRLF).value + 4]
    requires HeadLength(g, head).None?
    ensures Complete(g, response) <==> HeadChunked(g, head) && Contains(response, CHUNKED_END)
  {
  }

  /**
   * Completion is never undone by more bytes: the blank line, the header
   * block before it and the marker all stay where they were.
   */
  lemma CompleteExtend(g: Generation, response: seq<byte>, more: seq<byte>)
    requires Complete(g, response)
    ensures Complete(g, response + more)
  {
    var h := Find(response, CRLFCRLF).value;
    ExtendKeepsHead(response, more, h);
    var head := response[..h + 4];
    match HeadLength(g, head) {
      case Some(length) =>
        CompleteByLength(g, response, head, length);
        LengthExtend(g, response, more, head, length);
      case None =>
        CompleteByMarker(g, response, head);
        MarkerExtend(g, response, more, head);
    }
  }

  /** The Content-Length case of `CompleteExtend`: the count only grows. */
  lemma LengthExtend(g: Generation, response: seq<byte>, more: seq<byte>, head: seq<byte>, length: nat)
    requires Find(response + more, CRLFCRLF).Some? && head == (response + more)[..Find(response + more, CRLFCRLF).value + 4]
    requires HeadLength(g, head) == Some(length) && |response| >= |head| + length
    ensures Complete(g, response + more)
  {
    assert |response + more| >= |head| + length;
  }

  /** The chunked case of `CompleteExtend`: the marker is still there. */
  lemma MarkerExtend(g: Generation, response: seq<byte>, more: seq<byte>, head: seq<byte>)
    requires Find(response + more, CRLFCRLF).Some? && head == (response + more)[..Find(response + more, CRLFCRLF).value + 4]
    requires HeadLength(g, head).None? && HeadChunked(g, head) && Contains(response + more, CHUNKED_END)
    ensures Complete(g, response + more)
  {
  }

  lemma ExtendKeepsHead(response: seq<byte>, more: seq<byte>, h: nat)
    requires Find(response, CRLFCRLF) == Some(h)
    ensures h + 4 <= |response| && Find(response + more, CRLFCRLF) == Some(h)
    ensures (response + more)[..Find(response + more, CRLFCRLF).value + 4] == response[..h + 4]
    ensures Contains(response, CHUNKED_END) ==> Contains(response + more, CHUNKED_END)
  {
    FindExtend(response, more, CRLFCRLF);
    assert (response + more)[..h + 4] == response[..h + 4];
    if Contains(response, CHUNKED_END) {
      FindExtend(response, more, CHUNKED_END);
    }
  }

  /** Why a read loop gives up without a response. */
  datatype Failure =
    | TooLarge                 // more than MAX_SIZE bytes (binary only)
    | Broken(reason: string)   // a read error before any data
    | Silent                   // the loop guard ran out with nothing read

  /** After the loop: the guard check on the attempt counter. */
  function Finish(response: seq<byte>, attempts: nat): Result<seq<byte>, Failure>
  {
    if attempts >= MAX_ATTEMPTS && response == [] then Err(Silent) else Ok(response)
  }

  /**
   * The read loop of generation `g` from the `k`-th read on, with `response`
   * read so far and `attempts` counted so far.
   */
  function ReadFrom(g: Generation, events: seq<ReadEvent>, k: nat, response: seq<byte>, attempts: nat)
    : (r: Result<seq<byte>, Failure>)
    decreases |events| - k
    ensures r.Ok? ==> StartsWith(r.value, response)
    ensures r == Err(TooLarge) ==> g == Binary
    ensures r.Err? && r.error.Broken? ==> response == []
  {
    if attempts >= MAX_ATTEMPTS || k >= |events| then Finish(response, attempts)
    else
      match events[k]
      case Zero =>
        if attempts > 0 || (g == Library && response != []) then Finish(response, attempts)
        else ReadFrom(g, events, k + 1, response, attempts + 1)
      case Data(bytes) =>
        var grown := response + bytes;
        if Complete(g, grown) then Finish(grown, 0)
        else if |grown| > MAX_SIZE then (if g == Binary then Err(TooLarge) else Finish(grown, 0))
        else ReadFrom(g, events, k + 1, grown, 0)
      case OtherErr(reason) =>
        if response != [] then Finish(response, attempts) else Err(Broken(reason))
      case _ =>
        if response == [] then ReadFrom(g, events, k + 1, response, attempts)
        else if attempts + 1 >= IDLE_LIMIT then Finish(response, attempts + 1)
        else ReadFrom(g, events, k + 1, response, attempts + 1)
  }

  /** The whole loop, from an empty buffer. */
  function Read(g: Generation, events: seq<ReadEvent>): (r: Result<seq<byte>, Failure>)
    ensures r == Err(TooLarge) ==> g == Binary
    ensures events == [] ==> r == Ok([])
  {
    ReadFrom(g, events, 0, [], 0)
  }

  // ------------------------------------------------------------ properties

  /** What a finished loop delivers: the bytes of the first `n` reads, for some `n`. */
  predicate DeliversPrefix(events: seq<ReadEvent>, r: seq<byte>)
  {
    exists n :: 0 <= n <= |events| && r == Gathered(events[..n])
  }

  /** An error before any data: the `n`-th read failed and nothing came before it. */
  predicate FailsEarly(events: seq<ReadEvent>, reason: string)
  {
    exists n :: 0 <= n < |events| && events[n] == OtherErr(reason) && Gathered(events[..n]) == []
  }

  /** Oversize: some prefix of the reads delivered more than MAX_SIZE bytes. */
  predicate Overflows(events: seq<ReadEvent>)
  {
    exists n :: 0 <= n <= |events| && |Gathered(events[..n])| > MAX_SIZE
  }

  /** The outcomes `ReadFromOutcome` allows, together. */
  predicate Sound(g: Generation, events: seq<ReadEvent>, r: Result<seq<byte>, Failure>)
  {
    && (r.Ok? ==> DeliversPrefix(events, r.value))
    && (r == Err(TooLarge) ==> g == Binary && Overflows(events))
    && (r.Err? && r.error.Broken? ==> FailsEarly(events, r.error.reason))
    && r != Err(Silent)
  }

  /**
   * Every outcome of the loop from a reachable state: the bytes of some
   * prefix of the reads, in order; an oversize error (binary only); or a
   * read error before any data. The attempt counter never reaches the
   * guard, so `Silent` never happens.
   */
  lemma {:induction false} ReadFromOutcome(g: Generation, events: seq<ReadEvent>, k: nat, response: seq<byte>, attempts: nat)
    requires k <= |events| && attempts < IDLE_LIMIT
    requires response == Gathered(events[..k])
    ensures Sound(g, events, ReadFrom(g, events, k, response, attempts))
    decreases |events| - k
  {
    var r := ReadFrom(g, events, k, response, attempts);
    if k == |events| {
      assert r == Ok(Gathered(events[..k]));
    } else {
      GatheredNext(events, k);
      match events[k]
      case Zero =>
        if !(attempts > 0 || (g == Library && response != [])) {
          ReadFromOutcome(g, events, k + 1, response, attempts + 1);
        } else {
          assert r == Ok(Gathered(events[..k]));
        }
      case Data(bytes) =>
        var grown := response + bytes;
        if Complete(g, grown) || (|grown| > MAX_SIZE && g == Library) {
          assert r == Ok(Gathered(events[..k + 1]));
        } else if |grown| > MAX_SIZE {
          assert |Gathered(events[..k + 1])| > MAX_SIZE;
        } else {
          ReadFromOutcome(g, events, k + 1, grown, 0);
        }
      case OtherErr(reason) =>
        if response != [] {
          assert r == Ok(Gathered(events[..k]));
        } else {
          assert events[k] == OtherErr(reason) && Gathered(events[..k]) == [];
        }
      case WouldBlock =>
        IdleOutcome(g, events, k, response, attempts);
      case TimedOut =>
        IdleOutcome(g, events, k, response, attempts);
    }
  }

  /** The idle case of `ReadFromOutcome`. */
  lemma {:induction false} IdleOutcome(g: Generation, events: seq<ReadEvent>, k: nat, response: seq<byte>, attempts: nat)
    requires k < |events| && attempts < IDLE_LIMIT && Idle(events[k])
    requires response == Gathered(events[..k])
    ensures Sound(g, events, ReadFrom(g, events, k, response, attempts))
    decreases |events| - k, 0
  {
    GatheredNext(events, k);
    var r := ReadFrom(g, events, k, response, attempts);
    if response == [] {
      assert r == ReadFrom(g, events, k + 1, response, attempts);
      ReadFromOutcome(g, events, k + 1, response, attempts);
    } else if attempts + 1 >= IDLE_LIMIT {
      assert r == Ok(Gathered(events[..k]));
    } else {
      assert r == ReadFrom(g, events, k + 1, response, attempts + 1);
      ReadFromOutcome(g, events, k + 1, response, attempts + 1);
    }
  }

  /** The whole loop: a prefix of the reads in order, an oversize error, or a read error before data. */
  lemma ReadOutcome(g: Generation, events: seq<ReadEvent>)
    ensures Read(g, events).Ok? ==> DeliversPrefix(events, Read(g, events).value)
    ensures Read(g, events) == Err(TooLarge) ==> g == Binary && Overflows(events)
    ensures Read(g, events).Err? && Read(g, events).error.Broken? ==> FailsEarly(events, Read(g, events).error.reason)
    ensures Read(g, events) != Err(Silent)
  {
    assert events[..0] == [];
    ReadFromOutcome(g, events, 0, [], 0);
  }

  /**
   * With reads of at most 8 KiB, a response is never longer than 10 MiB
   * plus one buffer: the size test runs after every read.
   */
  lemma {:induction false} ReadFromBounded(g: Generation, events: seq<ReadEvent>, k: nat, response: seq<byte>, attempts: nat)
    requires k <= |events| && |response| <= MAX_SIZE
    requires forall i :: 0 <= i < |events| ==> Readable(events[i])
    ensures ReadFrom(g, events, k, response, attempts).Ok? ==> |ReadFrom(g, events, k, response, attempts).value| <= MAX_SIZE + BUFFER_SIZE
    decreases |events| - k
  {
    if k < |events| && attempts < MAX_ATTEMPTS {
      assert Readable(events[k]);
      match events[k]
      case Zero =>
        if !(attempts > 0 || (g == Library && response != [])) {
          ReadFromBounded(g, events, k + 1, response, attempts + 1);
        }
      case Data(bytes) =>
        if |response + bytes| <= MAX_SIZE {
          ReadFromBounded(g, events, k + 1, response + bytes, 0);
        }
      case OtherErr(_) =>
      case WouldBlock =>
        ReadFromBounded(g, events, k + 1, response, if response == [] then attempts else attempts + 1);
      case TimedOut =>
        ReadFromBounded(g, events, k + 1, response, if response == [] then attempts else attempts + 1);
    }
  }

  lemma ReadBounded(g: Generation, events: seq<ReadEvent>)
    requires forall i :: 0 <= i < |events| ==> Readable(events[i])
    ensures Read(g, events).Ok? ==> |Read(g, events).value| <= MAX_SIZE + BUFFER_SIZE
  {
    ReadFromBounded(g, events, 0, [], 0);
  }

  /**
   * Running out of listed reads is the same as a peer that has closed:
   * two more zero reads change nothing, in either generation.
   */
  lemma {:induction false} ClosedPeer(g: Generation, events: seq<ReadEvent>, k: nat, response: seq<byte>, attempts: nat)
    requires k <= |events| && attempts < IDLE_LIMIT
    ensures ReadFrom(g, events + [Zero, Zero], k, response, attempts) == ReadFrom(g, events, k, response, attempts)
    decreases |events| - k
  {
    var more := events + [Zero, Zero];
    if k == |events| {
      assert more[k] == Zero && more[k + 1] == Zero;
    } else {
      assert more[k] == events[k];
      match events[k]
      case Zero =>
        if !(attempts > 0 || (g == Library && response != [])) {
          ClosedPeer(g, events, k + 1, response, attempts + 1);
        }
      case Data(bytes) =>
        ClosedPeer(g, events, k + 1, response + bytes, 0);
      case OtherErr(_) =>
      case WouldBlock =>
        if response == [] {
          ClosedPeer(g, events, k + 1, response, attempts);
        } else if attempts + 1 < IDLE_LIMIT {
          ClosedPeer(g, events, k + 1, response, attempts + 1);
        }
      case TimedOut =>
        if response == [] {
          ClosedPeer(g, events, k + 1, response, attempts);
        } else if attempts + 1 < IDLE_LIMIT {
          ClosedPeer(g, events, k + 1, response, attempts + 1);
        }
    }
  }

  /**
   * Idle reads after data: a run of them as long as the remaining
   * allowance ends the loop with what was read.
   */
  lemma {:induction false} IdleRunEnds(g: Generation, events: seq<ReadEvent>, k: nat, response: seq<byte>, attempts: nat)
    requires response != [] && attempts < IDLE_LIMIT
    requires k + (IDLE_LIMIT - attempts) <= |events|
    requires forall j :: k <= j < k + (IDLE_LIMIT - attempts) ==> Idle(events[j])
    ensures ReadFrom(g, events, k, response, attempts) == Ok(response)
    decreases IDLE_LIMIT - attempts
  {
    assert Idle(events[k]);
    if attempts + 1 < IDLE_LIMIT {
      IdleRunEnds(g, events, k + 1, response, attempts + 1);
    }
  }

  /** Idle reads before any data count nothing: the loop just reads again. */
  lemma IdleBeforeData(g: Generation, events: seq<ReadEvent>, k: nat, attempts: nat)
    requires k < |events| && Idle(events[k]) && attempts < MAX_ATTEMPTS
    ensures ReadFrom(g, events, k, [], attempts) == ReadFrom(g, events, k + 1, [], attempts)
  {
  }

  /** A chunked header block whose last line ends in `0` completes at once: the marker is matched inside the headers. */
  lemma MarkerInHeaders(g: Generation, response: seq<byte>, h: nat)
    requires Find(response, CRLFCRLF) == Some(h) && h >= 1 && response[h - 1] == 48
    requires HeadLength(g, response[..h + 4]).None? && HeadChunked(g, response[..h + 4])
    ensures Complete(g, response)
  {
    MarkerBeforeBlankLine(response, h);
    CompleteByMarker(g, response, response[..h + 4]);
  }

  /** `0` right before the blank line that ends the header block is a last-chunk marker. */
  lemma MarkerBeforeBlankLine(response: seq<byte>, h: nat)
    requires OccursAt(response, CRLFCRLF, h) && h >= 1 && response[h - 1] == 48
    ensures Contains(response, CHUNKED_END)
  {
    assert response[h - 1..h + 4] == [response[h - 1]] + response[h..h + 4];
    assert response[h..h + 4] == CRLFCRLF;
    assert [48] + CRLFCRLF == CHUNKED_END;
    OccursContains(response, CHUNKED_END, h - 1);
  }

  lemma OccursContains(s: seq<byte>, p: seq<byte>, k: nat)
    requires OccursAt(s, p, k)
    ensures Contains(s, p)
  {
  }

  /**
   * The library tests each line as it was read, so a Content-Length line
   * indented by a blank is passed over and the next one decides; the
   * binary trims the line first and takes the indented one.
   */
  lemma IndentedLengthLine(status: seq<byte>, first: seq<byte>, second: seq<byte>, rest: seq<byte>)
    requires Text.IsAscii(status) && Text.IsAscii(first) && Text.IsAscii(second) && Text.IsAscii(rest)
    requires LF !in status && LF !in first && LF !in second
    requires !StartsWith(Text.Lower(status), Headers.CONTENT_LENGTH)
    requires !StartsWith(Text.Lower(Text.Trim(status)), Headers.CONTENT_LENGTH)
    requires StartsWith(Text.Lower(first), Headers.CONTENT_LENGTH) && !Text.IsSpace(first[|first| - 1])
    requires StartsWith(Text.Lower(second), Headers.CONTENT_LENGTH)
    requires |status| + |first| + |second| + |rest| + 7 <= Headers.HEADER_WINDOW
    ensures HeadLength(Library, status + CRLF + ([32] + first) + CRLF + (second + CRLF + rest)) == Headers.LengthValue(second)
    ensures HeadLength(Binary, status + CRLF + ([32] + first) + CRLF + (second + CRLF + rest)) == Headers.LengthValue(Text.Lower(first))
  {
    var indented := [32] + first;
    var head := status + CRLF + indented + CRLF + (second + CRLF + rest);
    Text.AsciiConcat([32], first);
    IndentedHeadFits(status, indented, second, rest);
    ThreeLines(status, indented, second, rest);
    IndentedHead(head, status, first, second);
  }

  lemma IndentedHead(head: seq<byte>, status: seq<byte>, first: seq<byte>, second: seq<byte>)
    requires Headers.Window(head) == head && Text.ValidUtf8(head)
    requires |Text.Lines(head)| >= 3
    requires Text.Lines(head)[0] == status && Text.Lines(head)[1] == [32] + first && Text.Lines(head)[2] == second
    requires !StartsWith(Text.Lower(status), Headers.CONTENT_LENGTH)
    requires !StartsWith(Text.Lower(Text.Trim(status)), Headers.CONTENT_LENGTH)
    requires StartsWith(Text.Lower(first), Headers.CONTENT_LENGTH) && !Text.IsSpace(first[|first| - 1])
    requires StartsWith(Text.Lower(second), Headers.CONTENT_LENGTH)
    ensures HeadLength(Library, head) == Headers.LengthValue(second)
    ensures HeadLength(Binary, head) == Headers.LengthValue(Text.Lower(first))
  {
    var lines := Text.Lines(head);
    IndentedRawKeys(lines, status, first, second);
    IndentedTrimmedKeys(lines, status, first);
    HeadLengthOfLines(Library, head);
    HeadLengthOfLines(Binary, head);
  }

  /** A header block that is valid UTF-8 is read line by line. */
  lemma HeadLengthOfLines(g: Generation, head: seq<byte>)
    requires Text.ValidUtf8(Headers.Window(head))
    ensures HeadLength(g, head) == Headers.LengthOfLines(Text.Lines(Headers.Window(head)), Form(g))
  {
  }

  lemma IndentedHeadFits(status: seq<byte>, indented: seq<byte>, second: seq<byte>, rest: seq<byte>)
    requires Text.IsAscii(status) && Text.IsAscii(indented) && Text.IsAscii(second) && Text.IsAscii(rest)
    requires |status| + |indented| + |second| + |rest| + 6 <= Headers.HEADER_WINDOW
    ensures Headers.Window(status + CRLF + indented + CRLF + (second + CRLF + rest)) == status + CRLF + indented + CRLF + (second + CRLF + rest)
    ensures Text.ValidUtf8(status + CRLF + indented + CRLF + (second + CRLF + rest))
  {
    Text.AsciiConcat(second, CRLF);
    Text.AsciiConcat(second + CRLF, rest);
    Headers.AsciiLines(status, indented, second + CRLF + rest);
    Text.AsciiIsUtf8(status + CRLF + indented + CRLF + (second + CRLF + rest));
  }

  lemma ThreeLines(a: seq<byte>, b: seq<byte>, c: seq<byte>, rest: seq<byte>)
    requires LF !in a && LF !in b && LF !in c
    ensures |Text.Lines(a + CRLF + b + CRLF + (c + CRLF + rest))| >= 3
    ensures Text.Lines(a + CRLF + b + CRLF + (c + CRLF + rest))[0] == a
    ensures Text.Lines(a + CRLF + b + CRLF + (c + CRLF + rest))[1] == b
    ensures Text.Lines(a + CRLF + b + CRLF + (c + CRLF + rest))[2] == c
  {
    var x := c + CRLF + rest;
    var y := b + CRLF + x;
    assert a + CRLF + b + CRLF + x == a + CRLF + y;
    Text.LinesCrlf(a, y);
    Text.LinesCrlf(b, x);
    Text.LinesCrlf(c, rest);
  }

  /** Read as they stand, the status and the indented line are passed over: `second` decides. */
  lemma IndentedRawKeys(lines: seq<seq<byte>>, status: seq<byte>, first: seq<byte>, second: seq<byte>)
    requires |lines| >= 3 && lines[0] == status && lines[1] == [32] + first && lines[2] == second
    requires !StartsWith(Text.Lower(status), Headers.CONTENT_LENGTH)
    requires StartsWith(Text.Lower(second), Headers.CONTENT_LENGTH)
    ensures Headers.LengthOfLines(lines, Headers.Untrimmed) == Headers.LengthValue(second)
  {
    var keys := Headers.Keys(lines, Headers.Untrimmed);
    assert keys[0] == Text.Lower(status) && keys[2] == Text.Lower(second);
    assert keys[1][0] == 32 && Headers.CONTENT_LENGTH[0] == 99;
    Headers.LengthOfLinesFirstLine(lines, Headers.Untrimmed, 2);
  }

  /** Trimmed, the indented line is the first Content-Length line. */
  lemma IndentedTrimmedKeys(lines: seq<seq<byte>>, status: seq<byte>, first: seq<byte>)
    requires |lines| >= 2 && lines[0] == status && lines[1] == [32] + first
    requires !StartsWith(Text.Lower(Text.Trim(status)), Headers.CONTENT_LENGTH)
    requires StartsWith(Text.Lower(first), Headers.CONTENT_LENGTH) && !Text.IsSpace(first[|first| - 1])
    ensures Headers.LengthOfLines(lines, Headers.Trimmed) == Headers.LengthValue(Text.Lower(first))
  {
    assert Text.Lower(first)[0] == 99;
    Text.TrimPadded([32], first, []);
    assert [32] + first + [] == [32] + first;
    var keys := Headers.Keys(lines, Headers.Trimmed);
    assert keys[0] == Text.Lower(Text.Trim(status)) && keys[1] == Text.Lower(first);
    Headers.LengthOfLinesFirstLine(lines, Headers.Trimmed, 1);
  }
}
