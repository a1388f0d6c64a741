/**
 * `decode_chunked_transfer` (src/http/response.rs, and its identical twin in
 * src/utils.rs): a lenient decoder for the chunked transfer coding of
 * RFC 9112, section 7.1. It walks `size-in-hex CRLF data xx` frames, skips
 * the two bytes after the data without looking at them, and stops quietly,
 * keeping what it has decoded, at the first thing it cannot read.
 */
module Chunked {
  import opened Wrappers
  import opened Bytes
  import opened Text

  /**
   * The size on a size line as the source reads it: the line as UTF-8 text
   * (`unwrap_or("")` when it is not), trimmed, as a hexadecimal usize.
   */
  function SourceChunkSize(line: seq<byte>): Option<nat>
  {
    if ValidUtf8(line) then ParseUnsigned(Trim(line), 16, USIZE_MAX) else ParseUnsigned(Trim([]), 16, USIZE_MAX)
  }

  /** The trimmed line as a hexadecimal usize; SizeIgnoresUtf8 shows this is SourceChunkSize. */
  function ChunkSize(line: seq<byte>): (r: Option<nat>)
    ensures r.Some? ==> r.value <= USIZE_MAX && IsAscii(Trim(line))
  {
    var r := ParseUnsigned(Trim(line), 16, USIZE_MAX);
    assert r.Some? ==> IsAscii(Trim(line)) by {
      if r.Some? {
        var t := Trim(line);
        forall i | 0 <= i < |t| ensures t[i] < 0x80 {
          if t[0] == 43 {
            if i > 0 { assert t[i] == t[1..][i - 1]; }
          }
        }
      }
    }
    r
  }

  /**
   * The UTF-8 check of the size line never matters: a line that is not
   * UTF-8 holds a byte of 0x80 or more, which survives the trim and is no
   * hex digit, so the size is rejected either way.
   */
  lemma SizeIgnoresUtf8(line: seq<byte>)
    ensures SourceChunkSize(line) == ChunkSize(line)
  {
    if !ValidUtf8(line) {
      if IsAscii(line) { AsciiIsUtf8(line); }
      var k :| 0 <= k < |line| && line[k] >= 0x80;
      var a := SkipSpaces(line, 0);
      var b := BackSpaces(line, |line|);
      assert a <= k < b;
      var t := Trim(line);
      assert t == line[a..b];
      assert t[k - a] == line[k];
      assert !IsAscii(t);
      assert ParseUnsigned(Trim([]), 16, USIZE_MAX) == None by {
        assert SkipSpaces([], 0) == 0;
      }
    }
  }

  /** What one pass of the loop finds at the current position: a chunk and where the next one starts, or a reason to stop. */
  datatype ChunkStep = Stop | Chunk(data: seq<byte>, next: nat)

  /** The size line ends at `p`: parse it and take the chunk it announces, if it is all there. */
  function SizedChunk(s: seq<byte>, p: nat): (r: ChunkStep)
    requires p + 2 <= |s|
    ensures r.Chunk? ==> r.data != [] && |r.data| + 4 <= r.next <= |s| + 2
  {
    match ChunkSize(s[..p])
    case None => Stop
    case Some(n) =>
      if n == 0 || p + 2 + n > |s| then Stop
      else Chunk(s[p + 2..p + 2 + n], p + 2 + n + 2)
  }

  /**
   * The search for the CRLF that ends the size line, from index `k` on;
   * an empty size line (CRLF at index 0) is a stop.
   */
  function ScanChunk(s: seq<byte>, k: nat): (r: ChunkStep)
    decreases |s| - k
    ensures r.Chunk? ==> r.data != [] && |r.data| + 4 <= r.next <= |s| + 2
  {
    if k + 2 > |s| then Stop
    else if s[k] == CR && s[k + 1] == LF then (if k == 0 then Stop else SizedChunk(s, k))
    else ScanChunk(s, k + 1)
  }

  /** One pass of the loop on the rest `s` of the body (ReadChunkFind states it with Find). */
  function ReadChunk(s: seq<byte>): (r: ChunkStep)
    ensures r.Chunk? ==> r.data != [] && |r.data| + 4 <= r.next <= |s| + 2
  {
    ScanChunk(s, 0)
  }

  lemma {:induction false} ScanFind(s: seq<byte>, k: nat)
    ensures ScanChunk(s, k) == match FindFrom(s, CRLF, k)
      case None => Stop
      case Some(p) => if p == 0 then Stop else SizedChunk(s, p)
    decreases |s| - k
  {
    if k + 2 <= |s| {
      if s[k] == CR && s[k + 1] == LF {
        assert s[k..k + 2] == CRLF;
      } else {
        assert s[k..k + 2] != CRLF by { assert s[k..k + 2][0] == s[k] && s[k..k + 2][1] == s[k + 1]; }
        ScanFind(s, k + 1);
      }
    }
  }

  /**
   * The pass as the source writes it: the first CRLF ends the size line;
   * none, or an empty size line, stops decoding.
   */
  lemma ReadChunkFind(s: seq<byte>)
    ensures ReadChunk(s) == match Find(s, CRLF)
      case None => Stop
      case Some(p) => if p == 0 then Stop else SizedChunk(s, p)
  {
    ScanFind(s, 0);
  }

  /**
   * The decoded body from index `i` of `body` on: the chunk read there, then
   * the decoding after it; nothing at the end of the body or at a stop.
   */
  function DechunkAt(body: seq<byte>, i: nat): (r: seq<byte>)
    decreases |body| + 2 - i
    ensures i <= |body| ==> |r| + i <= |body|
  {
    if i >= |body| then []
    else
      match ReadChunk(body[i..])
      case Stop => []
      case Chunk(data, next) => data + DechunkAt(body, i + next)
  }

  /** The decoded body of a whole message body. */
  function Dechunk(s: seq<byte>): (r: seq<byte>)
    ensures |r| <= |s|
  {
    DechunkAt(s, 0)
  }

  /** The size line ends at `p` and announces `n` bytes that are all there: a chunk. */
  lemma ReadChunkAt(s: seq<byte>, p: nat, n: nat)
    requires Find(s, CRLF) == Some(p) && p > 0
    requires ChunkSize(s[..p]) == Some(n) && n > 0 && p + 2 + n <= |s|
    ensures ReadChunk(s) == Chunk(s[p + 2..p + 2 + n], p + 2 + n + 2)
  {
    assert SizedChunk(s, p) == Chunk(s[p + 2..p + 2 + n], p + 2 + n + 2);
    ReadChunkFind(s);
  }

  lemma DechunkStep(s: seq<byte>)
    requires ReadChunk(s).Chunk?
    ensures Dechunk(s) == ReadChunk(s).data + DechunkAt(s, ReadChunk(s).next)
  {
    assert s[0..] == s;
  }

  lemma DechunkStop(s: seq<byte>)
    requires ReadChunk(s).Stop?
    ensures Dechunk(s) == []
  {
    assert s[0..] == s;
  }

  /** Without a CRLF, or with an empty size line, nothing is decoded. */
  lemma StopsWithoutSizeLine(s: seq<byte>)
    requires !Contains(s, CRLF) || StartsWith(s, CRLF)
    ensures Dechunk(s) == []
  {
    if s != [] && StartsWith(s, CRLF) {
      assert OccursAt(s, CRLF, 0) by { assert s[0..2] == s[..2]; }
      FindIs(s, CRLF, 0);
    }
    ReadChunkFind(s);
    DechunkStop(s);
  }

  lemma SizeLineEnds(line: seq<byte>, rest: seq<byte>)
    requires CR !in line
    ensures Find(line + CRLF + rest, CRLF) == Some(|line|)
    ensures (line + CRLF + rest)[..|line|] == line
  {
    var s := line + CRLF + rest;
    assert OccursAt(s, CRLF, |line|) by { assert s[|line|..|line| + 2] == CRLF; }
    forall j | 0 <= j < |line| ensures !OccursAt(s, CRLF, j) {
      assert s[j] == line[j] != CR;
    }
    FindIs(s, CRLF, |line|);
    assert s[..|line|] == line;
  }

  /**
   * A size line that is not hex, announces size 0, or announces more bytes
   * than remain ends decoding.
   */
  lemma StopsAtBadSize(line: seq<byte>, rest: seq<byte>)
    requires line != [] && CR !in line
    requires ChunkSize(line).None? || ChunkSize(line).value == 0 || |rest| < ChunkSize(line).value
    ensures Dechunk(line + CRLF + rest) == []
  {
    SizeLineEnds(line, rest);
    ReadChunkFind(line + CRLF + rest);
    DechunkStop(line + CRLF + rest);
  }

  /**
   * One pass of the loop: the chunk read at `i` moves from the rest of the
   * body to the result, and the decoding still adds up to `total`.
   */
  lemma Turn(body: seq<byte>, total: seq<byte>, i: nat, result: seq<byte>, data: seq<byte>, next: nat, i': nat, result': seq<byte>)
    requires i < |body| && ReadChunk(body[i..]) == Chunk(data, next)
    requires result + DechunkAt(body, i) == total
    requires i' == i + next && result' == result + data
    ensures result' + DechunkAt(body, i') == total
  {
    assert DechunkAt(body, i) == data + DechunkAt(body, i');
  }

  /**
   * The loop of `decode_chunked_transfer`: each pass reads one chunk at
   * index `i` (ReadChunk holds the pass's break conditions), appends its data
   * and moves `i` past the two bytes that follow it.
   */
  method DecodeChunked(body: seq<byte>) returns (result: seq<byte>)
    ensures result == Dechunk(body)
  {
    result := [];
    var i: nat := 0;
    ghost var total := Dechunk(body);
    while i < |body|
      invariant result + DechunkAt(body, i) == total
      decreases |body| + 2 - i
    {
      var step := ReadChunk(body[i..]);
      if step.Stop? {
        assert result + [] == result;
        return;
      }
      ghost var i0, r0 := i, result;
      result := result + step.data;
      i := i + step.next;
      Turn(body, total, i0, r0, step.data, step.next, i, result);
    }
    assert result + [] == result;
  }

  /** Moving the body to the end of a longer text does not change its decoding. */
  lemma {:induction false} DechunkShift(p: seq<byte>, s: seq<byte>, i: nat)
    ensures DechunkAt(p + s, |p| + i) == DechunkAt(s, i)
    decreases |s| + 2 - i
  {
    if i < |s| {
      assert (p + s)[|p| + i..] == s[i..];
      match ReadChunk(s[i..])
      case Stop =>
      case Chunk(data, next) =>
        DechunkShift(p, s, i + next);
    }
  }

  // ------------------------------------------------------------ encoding

  /** One chunk as a sender writes it: its size in hex, CRLF, the data, CRLF. */
  function Frame(data: seq<byte>): seq<byte>
  {
    Digits(|data|, 16) + CRLF + data + CRLF
  }

  /** Every chunk framed in order, then the last chunk `0 CRLF` and whatever trailer follows. */
  function Encode(chunks: seq<seq<byte>>, trailer: seq<byte>): seq<byte>
  {
    if chunks == [] then [48] + CRLF + trailer
    else Frame(chunks[0]) + Encode(chunks[1..], trailer)
  }

  lemma HexSizeLine(n: nat, rest: seq<byte>)
    requires n <= USIZE_MAX
    ensures Find(Digits(n, 16) + CRLF + rest, CRLF) == Some(|Digits(n, 16)|)
    ensures ChunkSize(Digits(n, 16)) == Some(n)
  {
    var h := Digits(n, 16);
    var s := h + CRLF + rest;
    assert OccursAt(s, CRLF, |h|) by { assert s[|h|..|h| + 2] == CRLF; }
    forall j | 0 <= j < |h| ensures !OccursAt(s, CRLF, j) {
      assert s[j] == h[j] != CR;
    }
    FindIs(s, CRLF, |h|);
    AsciiIsUtf8(h);
    assert Trim(h) == h by { TrimUnchanged(h); }
    ParseDigits(n, 16, USIZE_MAX);
  }

  /** A size line `h` for `data`, then text that begins with `data`: the chunk is `data`, and the next one starts two bytes after it. */
  lemma FrameRead(h: seq<byte>, data: seq<byte>, t: seq<byte>)
    requires h != [] && Find(h + CRLF + t, CRLF) == Some(|h|) && ChunkSize(h) == Some(|data|)
    requires data != [] && |data| <= |t| && t[..|data|] == data
    ensures ReadChunk(h + CRLF + t) == Chunk(data, |h| + 2 + |data| + 2)
  {
    var s := h + CRLF + t;
    assert s[..|h|] == h && s[|h| + 2..|h| + 2 + |data|] == data by {
      assert s[|h| + 2..|h| + 2 + |data|] == t[..|data|];
    }
    ReadChunkAt(s, |h|, |data|);
  }

  /**
   * Leniency: after a chunk's data the decoder skips two bytes whatever they
   * are, and goes on with the rest.
   */
  lemma SkipsAnyTwoBytes(data: seq<byte>, x: byte, y: byte, rest: seq<byte>)
    requires data != [] && |data| <= USIZE_MAX
    ensures Dechunk(Digits(|data|, 16) + CRLF + data + [x, y] + rest) == data + Dechunk(rest)
  {
    SkippedFrameRead(data, x, y, rest);
    FrameThenRest(Digits(|data|, 16) + CRLF + data + [x, y], rest, data);
  }

  /** A chunk, two more bytes and any text read as that chunk, with the next one after the two bytes. */
  lemma SkippedFrameRead(data: seq<byte>, x: byte, y: byte, rest: seq<byte>)
    requires data != [] && |data| <= USIZE_MAX
    ensures var f := Digits(|data|, 16) + CRLF + data + [x, y];
      ReadChunk(f + rest) == Chunk(data, |f|)
  {
    var h := Digits(|data|, 16);
    var t := data + [x, y] + rest;
    Regroup(h + CRLF, data, [x, y], rest);
    assert t[..|data|] == data;
    HexFrameRead(data, t);
  }

  /** A hex size line for `data`, then text that begins with `data`, reads as the chunk `data`. */
  lemma HexFrameRead(data: seq<byte>, t: seq<byte>)
    requires data != [] && |data| <= USIZE_MAX && |data| <= |t| && t[..|data|] == data
    ensures ReadChunk(Digits(|data|, 16) + CRLF + t) == Chunk(data, |Digits(|data|, 16)| + 2 + |data| + 2)
  {
    HexSizeLine(|data|, t);
    FrameRead(Digits(|data|, 16), data, t);
  }

  /** A text that reads as one chunk filling `f` decodes to that chunk, then the decoding of what follows `f`. */
  lemma FrameThenRest(f: seq<byte>, rest: seq<byte>, data: seq<byte>)
    requires ReadChunk(f + rest) == Chunk(data, |f|)
    ensures Dechunk(f + rest) == data + Dechunk(rest)
  {
    DechunkStep(f + rest);
    DechunkShift(f, rest, 0);
  }

  /** The last chunk ends decoding; the trailer after it is never looked at. */
  lemma LastChunk(trailer: seq<byte>)
    ensures Dechunk([48] + CRLF + trailer) == []
  {
    var s := [48] + CRLF + trailer;
    assert OccursAt(s, CRLF, 1) by { assert s[1..3] == CRLF; }
    assert !OccursAt(s, CRLF, 0) by { assert s[0] != CR; }
    FindIs(s, CRLF, 1);
    ReadChunkFind(s);
    assert s[..1] == [48];
    AsciiIsUtf8([48]);
    assert Trim([48]) == [48] by { TrimUnchanged([48]); }
    assert DigitsValue([48], 16) == 0;
    DechunkStop(s);
  }

  /**
   * Round trip: decoding the chunked coding of non-empty chunks gives back
   * their in-order concatenation, whatever trailer follows the last chunk.
   */
  lemma {:induction false} DecodeEncode(chunks: seq<seq<byte>>, trailer: seq<byte>)
    requires forall i :: 0 <= i < |chunks| ==> chunks[i] != [] && |chunks[i]| <= USIZE_MAX
    ensures Dechunk(Encode(chunks, trailer)) == Concat(chunks)
  {
    if chunks == [] {
      LastChunk(trailer);
    } else {
      var c := chunks[0];
      var rest := Encode(chunks[1..], trailer);
      assert Encode(chunks, trailer) == Digits(|c|, 16) + CRLF + c + [CR, LF] + rest;
      SkipsAnyTwoBytes(c, CR, LF, rest);
      DecodeEncode(chunks[1..], trailer);
      assert chunks == [c] + chunks[1..];
      ConcatFront(c, chunks[1..]);
    }
  }

  /** `5\r\nhello\r\n0\r\n\r\n` decodes to `hello`. */
  lemma HelloExample()
    ensures Dechunk(Ascii("5\r\nhello\r\n0\r\n\r\n")) == Ascii("hello")
  {
    var hello := Ascii("hello");
    assert Digits(5, 16) == [53];
    assert Ascii("5\r\nhello\r\n0\r\n\r\n") == Encode([hello], CRLF);
    DecodeEncode([hello], CRLF);
    assert Concat([hello]) == Concat([]) + hello;
  }
}
