# rurl in Dafny

This project models the core of **rurl**, a small curl-like HTTP client
written in Rust, and proves properties of that model. rurl exists in two
generations that share most of their logic:

- **The binary** covers `src/args/mod.rs` and `src/http/`:
  - URL parsing (`url.rs`);
  - building the HTTP/1.1 request, with Basic authentication (`request.rs`);
  - reading the response off a socket, following redirects and picking the TLS version (`client.rs`);
  - header parsing, chunked decoding and what reaches stdout, a file or the exit code (`response.rs`).
- **The library** covers `src/client.rs`, `src/response.rs`, `src/http.rs`,
  `src/http2.rs` and `src/utils.rs`:
  - the same request and read logic with small differences;
  - a minimal HTTP/2 framing: a preface, SETTINGS, a plain-text HEADERS frame and DATA frames.

All text is modelled as `seq<byte>`, the UTF-8 bytes of a Rust `String`.
`Text.ValidUtf8` implements the well-formedness table of RFC 3629, section 4.
It is applied wherever the source calls `str::from_utf8`.

`src/utils.rs` repeats `src/http/url.rs` and the header helpers of
`src/http/response.rs` line for line, so each is modelled once.

Loops in the source are modelled in two parts:

- a `method` with a `while` loop;
- a recursive specification function over an index.

The method's `ensures` ties its result to the function, and the lemmas state the source's promises about the function.

A socket read is an event in a list (`Stream.ReadEvent`):

| Event | Meaning |
|---|---|
| `Data(bytes)` | a read that returned bytes |
| `Zero` | a read that returned `Ok(0)` |
| `WouldBlock` | a read that would block |
| `TimedOut` | a read that timed out |
| `OtherErr(reason)` | any other read error |

The environment variable and the files named with `-d @file` are parameters as well.

Modules:

| Module | File | Models |
|---|---|---|
| `Wrappers` | `wrappers.dfy` | `Option`, `Result` |
| `Bytes` | `bytes.dfy` | byte strings, first-occurrence search (`windows(n).position`) |
| `Text` | `text.dfy` | UTF-8 validity, ASCII trimming and case, `split`, `lines`, `split_whitespace`, unsigned parsing in radix 10 and 16, and its inverse |
| `Url` | `url.dfy` | `url::parse` / `parse_url` |
| `Headers` | `headers.dfy` | `get_content_length`, `is_chunked_transfer`, `parse_status_line`, `get_location` and the library's inline variants |
| `Chunked` | `chunked.dfy` | `decode_chunked_transfer`, with an encoder as its partner |
| `Base64` | `base64.dfy` | `base64_encode`, with a decoder as its partner |
| `Request` | `request.dfy` | `request::build` and `build_http_request` |
| `Http2` | `http2.dfy` | the HTTP/2 frame builders, `build_http2_request`, `parse_http2_response` |
| `Cli` | `args.dfy` | `Args::parse` |
| `Stream` | `stream.dfy` | the read loop shared by both generations, as one function with a `Generation` switch |
| `HttpClient` | `http_client.dfy` | `read_http_response`, redirects, TLS version choice |
| `LibClient` | `lib_client.dfy` | `send_request`, `read_response` |
| `HttpResponse` | `http_response.dfy` | the binary's `process` |
| `LibResponse` | `lib_response.dfy` | the library's `process_response` |

## Model

| member | source | states |
|---|---|---|
| Bytes.FindFrom | src/http/response.rs:100 | the result is the first position at or after the start where the pattern occurs; None means it occurs nowhere from there on |
| Bytes.Find | src/http/response.rs:178 | the result is the first occurrence of the pattern (the `windows(4).position` search for the blank line); None means it never occurs |
| Bytes.FindExtend | src/http/client.rs:116-118 | appending bytes does not move an occurrence already found, so the blank line found in a prefix of the response stays the blank line |
| Text.AsciiIsUtf8 | src/http/response.rs:70-73 | every ASCII byte string is valid UTF-8, so `from_utf8` cannot fail on it |
| Text.Trim | src/http/response.rs:19 | the result is no longer than the input, and neither begins nor ends with whitespace |
| Text.TrimUnchanged | src/http/response.rs:22 | a string that neither begins nor ends with whitespace is left as it is by `trim` |
| Text.TrimPadded | src/http/client.rs:201 | `trim` removes exactly the whitespace around a word that begins and ends with a non-blank |
| Text.SplitOnce | src/http/url.rs:21-22 | None exactly when the separator does not occur; otherwise the input is the part before, the separator and the part after, and the part before holds no separator |
| Text.SplitOnceAt | src/http/url.rs:21-22 | splitting `a + [b] + c` on `b`, with no `b` in `a`, gives back exactly `a` and `c` |
| Text.FirstSegment | src/http/response.rs:65 | the first piece of a split is the whole input when the separator does not occur, and otherwise the prefix that ends just before its first occurrence |
| Text.SecondSegment | src/http/response.rs:22 | `split(':').nth(1)` is present exactly when the input contains the separator, and is then the text after its first occurrence up to the next one or the end |
| Text.LinesCrlf | src/http/response.rs:18 | `lines()` gives a CRLF-terminated first line without its CR, then the lines of the rest |
| Text.ParseUnsigned | src/http/url.rs:23 | a parsed value never exceeds the type's maximum (`u16`, `usize`), and only a `+` or a digit can start a parsable text |
| Text.ParseDigits | src/http/request.rs:41 | parsing the decimal or hexadecimal text of any value that fits gives back that value |
| Url.TrimPrefixes | src/http/url.rs:13-16 | `trim_start_matches` leaves a suffix of the input that no longer starts with the scheme |
| Url.HostPort | src/http/url.rs:22-26 | a parsed host holds no colon and its port fits in `u16`; the only failure is "Invalid port" |
| Url.SplitRest | src/http/url.rs:21-32 | success gives a non-empty host without `/` or `:`, a port that fits in `u16` and a path starting with `/`; failures are "Invalid port" or "Invalid host" |
| Url.Parse | src/http/url.rs:12-33 | fails with the scheme error exactly when the URL starts with neither `http://` nor `https://`; a success is secure exactly for `https://`, has a non-empty host without `/` or `:`, a port ≤ 65535 and a path starting with `/` |
| Url.ParseAfterScheme | src/utils.rs:13-21 | after one scheme prefix that is not repeated, parsing is the split of the rest |
| Url.ParseComposed | src/http/url.rs:12-33 | round trip: a URL written from a scheme, a host, an optional port and an optional path parses back to them, with port 80/443 and path `/` as defaults |
| Url.ParseBadPort | src/http/url.rs:22-23 | a port text that is not a `u16` gives "Invalid port", checked before the host |
| Url.ParsePortTooLarge | src/http/url.rs:23 | `http://localhost:99999` is rejected with "Invalid port" |
| Url.ParsePortNotNumeric | src/http/url.rs:22-30 | `http://:x` is rejected with "Invalid port" although its host is empty, because the port is checked first |
| Url.ParseEmptyHost | src/http/url.rs:28-30 | `http://` is rejected with "Invalid host" |
| Url.ParseRepeatedScheme | src/http/url.rs:14-16 | `trim_start_matches` removes every repeated scheme prefix: `http://http://h` parses to host `h` |
| Headers.Window | src/http/response.rs:16 | only the first 2048 bytes of a response are examined: a prefix of that length, or the whole response when it is shorter |
| Headers.HeaderLines | src/http/response.rs:16-18 | header lines exist exactly when the 2048-byte window is valid UTF-8 |
| Headers.FirstPrefixed | src/http/response.rs:18-20 | the first line starting with the key, and none before it |
| Headers.LengthValue | src/utils.rs:52 | a Content-Length value is present only when the line holds a colon, and fits in `usize` |
| Headers.LengthOfLines | src/client.rs:254-273 | a value fits in `usize`; there is none when no line begins with `content-length:` |
| Headers.LengthOfLinesFirstLine | src/client.rs:262-268 | under either reading (trimmed and lowercased, or lowercased only) the first line starting with `content-length:` decides, and its value is read from the trimmed line or from the line as read |
| Headers.ContentLength | src/http/response.rs:14-28 | there is no length when the window is not valid UTF-8; a length fits in `usize` |
| Headers.ContentLengthFirstLine | src/http/response.rs:18-24 | the first `content-length:` line decides, even when its value cannot be parsed |
| Headers.AnyChunkedLine | src/client.rs:276-288 | true exactly when some line starts with `transfer-encoding:` and contains `chunked` |
| Headers.IsChunked | src/http/response.rs:39-51 | true exactly when the window is valid UTF-8 and some trimmed, lower-cased line declares chunked transfer coding |
| Headers.SplitAll | src/http/response.rs:65 | a split always has a first piece, which is the text before the first separator |
| Headers.ParseStatusLine | src/http/response.rs:64-83 | a status fits in `u16`; every failure is one of the UTF-8, missing-code or invalid-code errors ("Invalid response format" cannot occur) |
| Headers.StatusLineExtend | src/http/response.rs:65 | only the bytes before the first CR matter: appending bytes after it changes nothing |
| Headers.StatusLineRoundTrip | src/http/response.rs:64-83 | a status line `version SP code SP reason CR …` written with any code up to 65535 parses back to that code |
| Headers.StatusLineMissingCode | src/http/response.rs:75-78 | a status line with only one word fails with "Missing status code" |
| Headers.LocationValue | src/http/response.rs:155-156 | the Location value is trimmed: it neither begins nor ends with whitespace |
| Headers.Location | src/http/response.rs:148-162 | there is none when the window is not valid UTF-8; otherwise there is none exactly when no line starts case-insensitively with `location:` |
| Headers.LocationLineValue | src/http/response.rs:152-157 | a `Location: url` line, in any letter case, yields exactly `url` |
| Headers.LocationFirstLine | src/http/response.rs:148-162 | the first line whose lowercased form starts with `location:` decides, and the URL is its text after the first colon, trimmed |
| Headers.EarlierLocationWins | src/http/response.rs:152-157 | a head whose first header is `Location: url` redirects to `url`, whatever follows, a second Location line included |
| Chunked.ChunkSize | src/http/response.rs:111 | a chunk size fits in `usize` and comes from an ASCII line |
| Chunked.SizeIgnoresUtf8 | src/http/response.rs:110-114 | replacing invalid UTF-8 by the empty line before parsing gives the same size as parsing the raw line, so the UTF-8 check can be dropped |
| Chunked.SizedChunk | src/http/response.rs:111-133 | a chunk that is read has data and ends at least four bytes past it, within two bytes of the end of the body |
| Chunked.ReadChunk | src/http/response.rs:100-133 | one turn of the loop: a chunk is non-empty and the loop index strictly advances |
| Chunked.ReadChunkFind | src/http/response.rs:100-107 | the scan for the size line's CRLF is the first-occurrence search of the source; a CRLF at the start stops the loop |
| Chunked.DechunkAt | src/http/response.rs:98-134 | the decoded bytes from position i onward are no more than the bytes that remain |
| Chunked.Dechunk | src/http/response.rs:94-137 | decoding never produces more bytes than it was given |
| Chunked.Turn | src/utils.rs:160-163 | appending the chunk and moving the index past it keeps the loop invariant: result so far + decoding of the rest = whole decoding |
| Chunked.DecodeChunked | src/http/response.rs:94-137 | the `while` loop returns exactly the decoding of the body |
| Chunked.DechunkShift | src/http/response.rs:98-134 | decoding from an index depends only on the bytes from there on |
| Chunked.StopsWithoutSizeLine | src/http/response.rs:100-107 | a body with no CRLF, or one that starts with CRLF, decodes to nothing |
| Chunked.StopsAtBadSize | src/http/response.rs:111-127 | an unparsable or zero size, or a chunk longer than what remains (for sizes whose chunk end fits in `usize`), ends decoding at once |
| Chunked.SkipsAnyTwoBytes | src/http/response.rs:132-133 | the two bytes after chunk data are skipped unchecked, whatever they are |
| Chunked.LastChunk | src/http/response.rs:116-119 | the zero-size chunk ends the body, whatever trailer follows |
| Chunked.DecodeEncode | src/http/response.rs:94-137 | round trip: decoding a well-formed chunked encoding (hex sizes, CRLFs, `0` chunk, any trailer) gives the concatenated chunks |
| Chunked.HelloExample | src/http/response.rs:94-137 | `5\r\nhello\r\n0\r\n\r\n` decodes to `hello` |
| Base64.Sextet | src/http/request.rs:58 | the alphabet lookup is inverted: a character's value maps back to that character |
| Base64.LetterInAlphabet | src/http/request.rs:58 | every value below 64 names an alphabet character, and decoding it gives the value back |
| Base64.Group | src/http/request.rs:63-80 | each group of up to three input bytes becomes exactly four characters |
| Base64.Base64Encode | src/http/request.rs:57-86 | the loop over 3-byte groups returns exactly the encoding of its input |
| Base64.EncodeLength | src/http/request.rs:62-83 | the encoding of n bytes is 4·⌈n/3⌉ characters long |
| Base64.GroupChars | src/http/request.rs:67-80 | a group is made of alphabet characters followed by the right number of `=` |
| Base64.EncodeChars | src/http/request.rs:57-86 | the output is made of alphabet characters, with exactly (3 − n mod 3) mod 3 `=` at the end |
| Base64.SplitBytes | src/http/request.rs:67-77 | the shifts and masks split three bytes into four sextets without losing a bit |
| Base64.GroupRoundTrip | src/http/request.rs:63-80 | every group decodes back to the bytes it was made from |
| Base64.DecodeEncode | src/http/request.rs:57-86 | round trip: decoding the encoding of any byte string gives that string back |
| Base64.UserPassExample | src/http/request.rs:29-31 | `user:pass` encodes to `dXNlcjpwYXNz` |
| Request.PushAgent | src/http/request.rs:24-26 | the request gains a `User-Agent` line exactly when one is given |
| Request.PushAuth | src/http/request.rs:29-32 | the request gains an `Authorization: Basic` line exactly when credentials are given |
| Request.PushHeaders | src/http/request.rs:35-37 | every `-H` header is appended as its own line, in order |
| Request.Preamble | src/http/request.rs:18-21 | the request starts with the request line, `Host` and `Connection: close` |
| Request.Finish | src/http/request.rs:40-51 | a `Content-Length` line only when there is data, then the blank line, then the data |
| Request.Build | src/http/request.rs:15-54 | the loop-built request equals the specified message with identity lines |
| Request.BuildHttpRequest | src/http.rs:15-43 | the library builds the specified message without identity lines |
| Request.LegacyIsAnonymous | src/http.rs:15-43 | the library's request is the binary's request for the same arguments with no user agent and no credentials |
| Request.OnlyUrlErrors | src/http/request.rs:16 | building fails exactly when the URL does not parse, with the URL error |
| Request.BlankLineEndsHead | src/http/request.rs:44-51 | when no header line is empty or holds CR/LF, the first blank line is the one the builder writes, and the body follows it unchanged |
| Request.AuthIsText | src/http/request.rs:29-31 | the Basic-auth line never holds a CR or LF, whatever the credentials |
| Request.MessageBlankLine | src/http/request.rs:18-51 | a server finds the end of the head exactly where the builder put it, and the body after it is the data |
| Request.EmptyHeaderEndsHeadEarly | src/http/request.rs:35-37 | `-H ""` writes a blank line before the builder's own, so the head ends early |
| Request.LengthFieldReadsBack | src/http/request.rs:40-42 | the `Content-Length` line is present exactly when there is data, and the library's reader reads back the data's length from it |
| Request.LoweredLengthReadsBack | src/http/response.rs:18-24 | the lowercased `Content-Length` line still reads back the length that was written |
| Request.BodyLast | src/http/request.rs:48-51 | the data is the exact tail of the request |
| Request.PlainGetExample | src/http/request.rs:18-21 | `GET http://h/p` becomes `GET /p HTTP/1.1`, `Host: h`, `Connection: close` and a blank line |
| Request.CredentialsExample | src/http/request.rs:29-31 | `-u user:pass` gives `Authorization: Basic dXNlcjpwYXNz` |
| Http2.WriteHeader | src/http2.rs:95-98 | a frame header is nine bytes |
| Http2.ReadHeader | src/http2.rs:196-204 | the read length is below 2^24 and the stream identifier below 2^31 (the reserved bit is masked) |
| Http2.ReadWriteHeader | src/http2.rs:196-204 | round trip: reading a written frame header gives back its length, type, flags and stream |
| Http2.CreateSettingsFrame | src/http2.rs:29-49 | the builder produces a SETTINGS frame on stream 0 with the six-byte payload |
| Http2.SettingsFrameReads | src/http2.rs:29-49 | that frame is 15 bytes and reads back as length 6, type SETTINGS; its single setting is identifier 3 (MAX_CONCURRENT_STREAMS) with value 100 |
| Http2.CreateHeadersFrame | src/http2.rs:52-101 | the builder, which patches the length in afterwards, produces the HEADERS frame with the plain-text header block |
| Http2.HeadersFlagBits | src/http2.rs:72-78 | END_HEADERS is always set; END_STREAM is set exactly when there is no body |
| Http2.HeadersPayloadLines | src/http2.rs:85-92 | the payload is the pseudo request line, `Host`, and the headers joined by CRLF with one trailing CRLF |
| Http2.CreateDataFrame | src/http2.rs:104-124 | the builder produces a DATA frame on stream 1 with END_STREAM set, holding the data |
| Http2.BuildHttp2Request | src/http2.rs:137-162 | the request is the preface, SETTINGS, HEADERS and a DATA frame only when there is data; it fails only on a URL error |
| Http2.ParseHttp2Response | src/http2.rs:176-254 | the frame loop returns exactly the DATA payloads of the complete frames after the preface |
| Http2.DataFrames | src/http2.rs:193-251 | the payloads read from a position are no longer than the bytes left, and nothing is read when less than a frame header is left |
| Http2.Http2Body | src/http2.rs:176-254 | the body is no longer than the response, and empty when the response is shorter than a frame header |
| Http2.DataFramesShift | src/http2.rs:193-251 | the frames read from a position depend only on the bytes from there on |
| Http2.DataFramesOfFrame | src/http2.rs:221-250 | a whole frame contributes its payload when it is a DATA frame, and nothing otherwise |
| Http2.ReadWrittenFrames | src/http2.rs:193-251 | round trip: reading a sequence of written frames gives the concatenated DATA payloads |
| Http2.ReadOwnRequest | src/http2.rs:137-162 | the parser run on the library's own HTTP/2 request returns exactly that request's data |
| Http2.IncompleteFrameStops | src/http2.rs:214-219 | a frame announced longer than what remains ends parsing with no data |
| Http2.ShortResponseIsEmpty | src/http2.rs:193 | fewer than nine bytes yield no body |
| Cli.Lookup | src/args/mod.rs:57-113 | an argument is matched against the option table: a hit names a table entry spelled like the argument, and a miss means no entry matches |
| Cli.ClassifyDash | src/args/mod.rs:114-119 | an argument is a URL exactly when it is empty or does not start with `-`; an unknown option starts with `-` |
| Cli.Seeded | src/args/mod.rs:33-54 | parsing starts from the defaults, with `RURL_TLS_VERSION` as the TLS version when it is set |
| Cli.DataValue | src/args/mod.rs:74-84 | `-d @name` fails exactly when the file cannot be read; any other value is taken as it is |
| Cli.FlagStep | src/args/mod.rs:58-119 | a flag ends parsing exactly when it is `--help` or an unknown option |
| Cli.DataStep | src/args/mod.rs:74-88 | `-d` ends parsing exactly when its file cannot be read |
| Cli.ValueStep | src/args/mod.rs:65-110 | an option with a value ends parsing only for an unreadable `-d @file` |
| Cli.Final | src/args/mod.rs:123-127 | the result is an error exactly when there is no URL and no help request; otherwise it is the parsed arguments |
| Cli.ApplyFlag | src/args/mod.rs:58-119 | the imperative arm for a flag performs exactly one step of the specification |
| Cli.ApplyData | src/args/mod.rs:74-88 | the `-d` arm performs exactly one step of the specification |
| Cli.ApplyValue | src/args/mod.rs:65-110 | the arm for an option with a value performs exactly one step of the specification |
| Cli.Parse | src/args/mod.rs:31-128 | the `while let` loop over the arguments returns exactly the specified parse |
| Cli.NoArguments | src/args/mod.rs:123-125 | no arguments at all gives "Missing URL" |
| Cli.Defaults | src/args/mod.rs:33-49 | the defaults: no URL, GET, no headers, data, output, TLS version, agent or user, every flag off |
| Cli.UrlAlone | src/args/mod.rs:117-119 | a lone URL parses to the defaults with that URL |
| Cli.EnvSeedsTls | src/args/mod.rs:51-54 | `RURL_TLS_VERSION` sets the TLS version when no option does |
| Cli.TlsArg | src/args/mod.rs:89-91 | `--tls-version v` sets the TLS version to `v` |
| Cli.TlsOptionOverridesEnv | src/args/mod.rs:51-91 | the option wins over the environment variable |
| Cli.HelpReturnsAtOnce | src/args/mod.rs:58-61 | `--help` returns at once and ignores every later argument, even a missing URL |
| Cli.MissingOptionValue | src/args/mod.rs:65-110 | an option that needs a value and comes last fails with its own "Missing …" message |
| Cli.UnknownOptionFails | src/args/mod.rs:114-116 | an argument that starts with `-` and is not in the table fails with "Unknown option" |
| Cli.MethodUppercased | src/args/mod.rs:68-70 | `-X m` sets the method to `m` in upper case |
| Cli.HeadSetsMethod | src/args/mod.rs:95-98 | `-I` sets head-only mode and the method HEAD |
| Cli.DataTurnsGetIntoPost | src/args/mod.rs:74-88 | `-d` stores the data and turns GET into POST, leaving any other method alone |
| Cli.DataFromFile | src/args/mod.rs:77-80 | `-d @name` reads the file's contents, or fails with "Failed to read data file" |
| Cli.MethodThenData | src/args/mod.rs:68-88 | `-X GET -d v` ends as POST |
| Cli.DataThenMethod | src/args/mod.rs:68-88 | `-d v -X GET` ends as GET: the order of the options matters |
| Cli.HeaderArg | src/args/mod.rs:71-73 | `-H h` appends `h` to the headers |
| Cli.HeadersInOrder | src/args/mod.rs:71-73 | repeated `-H` options keep their order |
| Cli.UrlArg | src/args/mod.rs:117-119 | a positional argument becomes the URL |
| Cli.LastUrlWins | src/args/mod.rs:117-119 | of two positional arguments the later one is the URL |
| Stream.HeadLength | src/http/client.rs:120 | the binary's read loop uses the response module's `get_content_length` on the head |
| Stream.HeadChunked | src/http/client.rs:138 | the binary's read loop uses the response module's `is_chunked_transfer` on the head |
| Stream.IndentedLengthLine | src/client.rs:262-268 | the library passes over a Content-Length line indented by a blank and takes the next one; the binary trims and takes the indented one |
| Stream.Complete | src/http/client.rs:114-146 | a response is complete only once its header block has ended with a blank line |
| Stream.CompleteByLength | src/http/client.rs:117-135 | once the blank line is found and the header block announces a Content-Length, the response is complete exactly when it holds the header block plus that many bytes |
| Stream.CompleteByMarker | src/http/client.rs:136-144 | without a Content-Length, the response is complete exactly when the header block is chunked and `0\r\n\r\n` occurs anywhere in what was read |
| Stream.CompleteExtend | src/client.rs:254-300 | once complete, a response stays complete whatever bytes follow |
| Stream.ReadFrom | src/http/client.rs:97-186 | the loop only appends: a success extends what was already read; "too large" comes only from the binary; a read error is reported only while nothing has been read |
| Stream.Read | src/client.rs:231-368 | the library never reports "too large"; a connection with no reads gives an empty success |
| Stream.ReadFromOutcome | src/http/client.rs:97-190 | from any point of the loop the outcome is sound: a success is a prefix of what was read, an overflow comes only from the binary, and a read error only while nothing has been read |
| Stream.IdleOutcome | src/http/client.rs:157-175 | the same soundness holds after a read that would block or timed out |
| Stream.ReadOutcome | src/client.rs:231-368 | a success delivers a prefix of the bytes read, in order; "too large" comes only from the binary, after more than 10 MiB; a read error is reported only when nothing has been read; the "no response" error never occurs |
| Stream.ReadBounded | src/client.rs:318-323 | when every read is at most the 8 KiB buffer, a success holds at most 10 MiB + 8 KiB |
| Stream.ClosedPeer | src/http/client.rs:99-110 | two more zero-byte reads after the listed ones change no outcome, so the end of the list is a closed connection |
| Stream.IdleRunEnds | src/http/client.rs:157-170 | five reads in a row that would block, after some data, end the loop with what was read |
| Stream.IdleBeforeData | src/client.rs:325-342 | before any data, a read that would block is retried without counting toward the limit |
| Stream.MarkerInHeaders | src/http/client.rs:138-146 | for a chunked response the end marker `0\r\n\r\n` is also matched at a header line that ends in `0`, so the loop can stop before any body arrives |
| HttpClient.ReadHttpResponse | src/http/client.rs:87-197 | the loop returns exactly the reported outcome of the specified read |
| HttpClient.BinaryErrors | src/http/client.rs:150-190 | "No response received after maximum attempts" never occurs; "too large" means more than 10 MiB arrived; a success is a prefix of the bytes read |
| HttpClient.TwoZeroReadsEnd | src/http/client.rs:99-110 | two zero-byte reads in a row end the binary's loop with what has been read |
| HttpClient.ClosedAtOnce | src/http/client.rs:188-196 | a peer that closes at once gives an empty success rather than the "no response" error |
| HttpClient.OversizeFails | src/http/client.rs:117-155 | a read that takes the total past 10 MiB fails with "too large" unless that same read completes the response |
| HttpClient.RedirectStatuses | src/http/client.rs:45-47 | the redirect statuses are exactly 301, 302, 303, 307 and 308 |
| HttpClient.StatusOrZero | src/http/client.rs:363 | an unparsable status line counts as status 0 |
| HttpClient.RedirectTarget | src/http/client.rs:365-369 | a redirect is followed exactly when `-L` is given, the status is a redirect status and a Location header is present |
| HttpClient.NextHop | src/http/client.rs:50-73 | the 11th redirect fails with "Too many redirects"; otherwise the hop fails exactly when the location does not parse, and it rebuilds the request with only the URL changed |
| HttpClient.HandleRedirect | src/http/client.rs:50-84 | the redirect step returns exactly the specified next hop |
| HttpClient.FollowFrom | src/http/client.rs:338-377 | a chain that finishes ends on a response that is not followed as a redirect |
| HttpClient.Follow | src/http/client.rs:329-336 | a chain from the caller's request ends on a response that is not followed |
| HttpClient.HandleConnection | src/http/client.rs:338-377 | the loop of request, response and redirect returns exactly the specified outcome |
| HttpClient.FollowFromOutcome | src/http/client.rs:250-326 | every finished chain keeps the invariant: the caller's request comes first, there are at most 11 requests, and only the URL changes |
| HttpClient.FollowRedirect | src/http/client.rs:365-368 | a redirect step keeps that invariant |
| HttpClient.FollowOutcome | src/http/client.rs:338-377 | a successful chain sends between 1 and 11 requests, starts with the caller's own, changes no argument but the URL, and ends on a response that is not followed |
| HttpClient.TenthHopIsLast | src/http/client.rs:55-59 | after 10 redirects a further redirect fails with "Too many redirects" |
| HttpClient.RelativeLocationFails | src/http/client.rs:66-67 | a relative Location fails with the URL scheme error |
| HttpClient.NoFollowOneRequest | src/http/client.rs:365-373 | without `-L` exactly one request is sent and its response is processed |
| HttpClient.ProtocolVersion | src/http/client.rs:200-209 | a version is recognised exactly when its trimmed text is `1.0`, `1.1` or `1.2` |
| HttpClient.VersionRoundTrip | src/http/client.rs:200-204 | a version's text, padded with whitespace, gives back that version |
| HttpClient.Tls13FallsBack | src/http/client.rs:205-206 | `1.3` is not recognised and the minimum falls back to TLS 1.2 |
| HttpClient.DefaultProtocol | src/http/client.rs:212-238 | the default minimum is TLS 1.2 on every platform |
| HttpClient.MinimumProtocol | src/http/client.rs:259-270 | a minimum version is always set: the recognised `--tls-version` value, and TLS 1.2 when the option is absent or unrecognised |
| LibClient.ReadResponse | src/client.rs:221-369 | the library's loop never fails with "too large" and returns exactly the reported outcome of the specified read |
| LibClient.LibraryErrors | src/client.rs:344-362 | the only failure is a read error while nothing has been read; a peer that closes at once gives an empty success |
| LibClient.ZeroAfterDataEnds | src/client.rs:233-237 | in the library a single zero-byte read after data ends the loop |
| LibClient.OversizeTruncates | src/client.rs:318-323 | in the library a read that takes the total past 10 MiB stops the loop, which returns everything read so far, that read included, as a success |
| LibClient.GenerationsDiffer | src/client.rs:234 | the same reads give different bodies: a zero-byte read between two pieces of data ends the library's loop but not the binary's |
| LibClient.Chosen | src/client.rs:32-46 | building the request fails exactly on a URL error, with that error, for HTTP/1.1 and HTTP/2 alike |
| LibClient.IndentedLengthSkipped | src/client.rs:262-268 | with ` Content-Length: 5` followed by `Content-Length: 7`, the library reads 7 and the binary 5 |
| LibClient.SendRequest | src/client.rs:30-104 | a URL error writes nothing and becomes a connection error; otherwise the chosen request is written and the response is read with the library's loop |
| HttpResponse.HeaderEnd | src/http/response.rs:178-186 | the head ends just past a CRLFCRLF blank line inside the response, and there is none exactly when no blank line occurs |
| HttpResponse.Body | src/http/response.rs:250-254 | the body is the decoded chunks when the head declares chunked transfer coding, otherwise the raw tail; it is never longer than the tail |
| HttpResponse.Process | src/http/response.rs:256-305 | unless it exits, `process` writes to the `-o` file exactly when one is given and `-I` is not, and a printed body ends with a newline |
| HttpResponse.ExitCodes | src/http/response.rs:176-247 | exit exactly on a missing blank line, a bad status line or a status of 400 and above; the code is 22 only for an HTTP error under `--fail`, otherwise 1 |
| HttpResponse.ErrorStatusFirst | src/http/response.rs:235-247 | for an HTTP error no option matters except `--fail` |
| HttpResponse.Delivered | src/http/response.rs:256-305 | a good response goes to stdout (head-only, or the optional head, the body and a newline) or to the output file (the optional head and the body) |
| HttpResponse.HeadOnlyIgnoresBody | src/http/response.rs:257-262 | `-I` never looks at the body |
| HttpResponse.ChunkedBodySaved | src/http/response.rs:265-287 | a chunked response saved with `-o` holds exactly the concatenated chunks |
| HttpResponse.PlainBodyPrinted | src/http/response.rs:295-305 | a response that is not chunked prints its tail as it is |
| LibResponse.HandleBody | src/response.rs:136-157 | the body goes unchanged to the `-o` file when one is given, otherwise to stdout followed by a newline; it never exits |
| LibResponse.ProcessHttp1 | src/response.rs:40-112 | exit with code 1 exactly on a missing blank line, a bad status line or a status of 400 and above; a saved body is the decoded body |
| LibResponse.ProcessHttp2 | src/response.rs:122-128 | an HTTP/2 response never exits, and a saved body is no longer than the response |
| LibResponse.ProcessResponse | src/response.rs:21-30 | the library only exits on the HTTP/1 path, always with code 1 |
| LibResponse.ExitsWithOne | src/response.rs:40-101 | the library exits with 1 on a missing blank line, a bad status line or an HTTP error; it ignores `--fail`, `-i` and `-I` |
| LibResponse.FailFastOnlyInBinary | src/response.rs:95-101 | under `--fail` the two generations exit differently on an HTTP error: 22 from the binary, 1 from the library |
| LibResponse.ChunkedBodySaved | src/response.rs:103-111 | the library saves the concatenated chunks of a chunked response |
| LibResponse.MessageIsHttp2 | src/response.rs:23 | the library's own HTTP/2 request would be recognised as HTTP/2 by the preface test |
| LibResponse.OwnHttp2Message | src/response.rs:21-30 | the HTTP/2 path, fed the library's own HTTP/2 request, hands on exactly its data |

## Left out

- I/O is not modelled: DNS resolution, connect and timeouts (`setup_tcp_stream`, `send_request` after the request is built), the TLS handshake and certificate checks, socket writes and the 100 ms sleeps. Reads are the listed events.
- Output text is not modelled: everything printed under `--verbose`, the `println!`/`eprintln!` messages and the help text (`print_help`). The outcome of `process` is modelled as an exit code, the bytes sent to stdout, or a file path and the bytes written there.
- File errors are not modelled: `File::create` and `write_all` failures are left out, and a save is the `File` outcome.
- `String::from_utf8_lossy` on printing is not modelled: stdout holds the raw body bytes.
- Stream.ReadFrom: a listed read sequence that runs out counts as a closed peer, which is what two more zero-byte reads give (`Stream.ClosedPeer`). So a peer that never sends anything and never closes, leaving the loop spinning on blocked reads, is not modelled.
- Integer overflow is not modelled: `usize` overflow of `total_read`, of `header_end + 4 + length`, of `i + 9 + length` in the HTTP/2 reader, and of `chunk_start + chunk_size` in the chunked decoder (src/http/response.rs:125-133, src/utils.rs:155-163).
- Chunked.SizedChunk: sums the chunk end on unbounded integers, so a size whose end `chunk_start + chunk_size` exceeds `usize` (for example `ffffffffffffffff\r\nabc`) makes the model stop. The source panics there instead: on the add in a debug build, and in a release build on the slice at src/http/response.rs:130, because the wrapped sum passes the bound test at src/http/response.rs:125.
- Chunked.StopsAtBadSize: its "longer than what remains" case matches the source only for sizes whose chunk end fits in `usize`; above that the source panics where the model stops (see Chunked.SizedChunk).
- Http2.WriteHeader: the truncating `as u8` casts are modelled, but the round-trip lemmas assume lengths below 2^24.
- Text.Trim, Text.Lower, Text.Upper: they handle ASCII whitespace and letters only. Rust's `trim`, `to_lowercase` and `to_uppercase` also act on non-ASCII characters; non-ASCII header text is carried through unchanged.
- HttpClient.DefaultProtocol: the four `cfg(target_os)` branches are merged, since all of them return TLS 1.2.
- ALPN and the library's fixed TLS 1.2 minimum (`src/client.rs:130`) are not modelled, because they belong to the TLS handshake.
- HPACK is not modelled. As in the source, the HEADERS payload is plain text.
- The library reads `args.http2`, but `Args` in `src/args/mod.rs` has no such field, so `LibClient.SendRequest` takes it as a parameter.
- The environment variable `RURL_TLS_VERSION` and the readable files for `-d @file` are parameters of `Cli.Parse`.
- `src/main.rs`, `src/lib.rs` and `src/tests.rs` are not part of this model: they are dispatch and integration tests that run the program.
