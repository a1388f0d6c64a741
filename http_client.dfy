/**
 * The connection logic of the binary client (src/http/client.rs): the
 * `read_http_response` loop, the redirect decision and hop limit, and the
 * choice of the minimum TLS version. Sockets, DNS, the TLS handshake and
 * writes are not modelled; each connection is the list of read outcomes
 * its socket reports.
 */
module HttpClient {
  import opened Wrappers
  import opened Bytes
  import opened Text
  import opened Stream
  import Headers
  import Url
  import Request
  import Cli

  const TOO_LARGE: string := "Response " + "too large, truncating at 10485760 bytes"
  const NO_RESPONSE: string := "No response received after maximum attempts"
  const READ_ERROR: string := "Read error: "

  /** The error strings of `read_http_response`. */
  function Reported(outcome: Result<seq<byte>, Failure>): Result<seq<byte>, string>
  {
    match outcome
    case Ok(response) => Ok(response)
    case Err(TooLarge) => Err(TOO_LARGE)
    case Err(Broken(reason)) => Err(READ_ERROR + reason)
    case Err(Silent) => Err(NO_RESPONSE)
  }

  /** `read_http_response`: the binary read loop over the outcomes of successive reads. */
  method ReadHttpResponse(events: seq<ReadEvent>) returns (r: Result<seq<byte>, string>)
    ensures r == Reported(Read(Binary, events))
  {
    var response: seq<byte> := [];
    var totalRead: nat := 0;
    var attempts: nat := 0;
    var k := 0;
    while attempts < MAX_ATTEMPTS && k < |events|
      invariant k <= |events| && totalRead == |response|
      invariant ReadFrom(Binary, events, k, response, attempts) == Read(Binary, events)
      decreases |events| - k
    {
      var event := events[k];
      k := k + 1;
      match event
      case Zero =>
        if attempts > 0 {
          break;
        }
        attempts := attempts + 1;
      case Data(bytes) =>
        attempts := 0;
        totalRead := totalRead + |bytes|;
        response := response + bytes;
        if Complete(Binary, response) {
          break;
        }
        if totalRead > MAX_SIZE {
          return Err(TOO_LARGE);
        }
      case OtherErr(reason) =>
        if response != [] {
          break;
        }
        return Err(READ_ERROR + reason);
      case WouldBlock =>
        if response != [] {
          attempts := attempts + 1;
          if attempts >= IDLE_LIMIT {
            break;
          }
        }
      case TimedOut =>
        if response != [] {
          attempts := attempts + 1;
          if attempts >= IDLE_LIMIT {
            break;
          }
        }
    }
    if attempts >= MAX_ATTEMPTS && response == [] {
      return Err(NO_RESPONSE);
    }
    return Ok(response);
  }

  /**
   * The binary loop never reports "No response received": its errors are
   * the oversize error, after more than 10 MiB, and a read error before any
   * data.
   */
  lemma BinaryErrors(events: seq<ReadEvent>)
    ensures Reported(Read(Binary, events)) != Err(NO_RESPONSE)
    ensures Reported(Read(Binary, events)) == Err(TOO_LARGE) ==> Overflows(events)
    ensures Reported(Read(Binary, events)).Ok? ==> DeliversPrefix(events, Reported(Read(Binary, events)).value)
  {
    ReadOutcome(Binary, events);
    var outcome := Read(Binary, events);
    if outcome.Err? && outcome.error.Broken? {
      var message := READ_ERROR + outcome.error.reason;
      assert message[0] == 'R' && message[2] == 'a';
      assert NO_RESPONSE[0] == 'N' && TOO_LARGE[2] == 's';
    }
  }

  /** After data, one zero read is retried: it takes a second one to end the loop. */
  lemma TwoZeroReadsEnd(events: seq<ReadEvent>, k: nat, response: seq<byte>)
    requires k + 2 <= |events| && events[k] == Zero && events[k + 1] == Zero
    ensures ReadFrom(Binary, events, k, response, 0) == Ok(response)
  {
  }

  /** A peer that closes at once gives an empty response, not an error. */
  lemma ClosedAtOnce()
    ensures Reported(Read(Binary, [Zero, Zero])) == Ok([])
  {
  }

  /** Oversize is an error, but only when the completion test has not already ended the loop. */
  lemma OversizeFails(events: seq<ReadEvent>, k: nat, response: seq<byte>, attempts: nat)
    requires k < |events| && events[k].Data? && attempts < MAX_ATTEMPTS
    requires |response + events[k].bytes| > MAX_SIZE
    ensures ReadFrom(Binary, events, k, response, attempts)
            == (if Complete(Binary, response + events[k].bytes) then Ok(response + events[k].bytes) else Err(TooLarge))
  {
  }

  // ------------------------------------------------------------ redirects

  const MAX_REDIRECTS: nat := 10
  const TOO_MANY: string := "Too many redirects"

  /** `is_redirect_status`: 301, 302, 303, 307 and 308. */
  predicate IsRedirectStatus(status: nat)
  {
    status == 301 || status == 302 || status == 303 || status == 307 || status == 308
  }

  /** The redirects followed lie among the 3xx codes of section 15.4 of RFC 9110; 300, 304, 305 and 306 are not among them. */
  lemma RedirectStatuses(status: nat)
    ensures IsRedirectStatus(status) ==> 301 <= status <= 308 && status != 304
    ensures IsRedirectStatus(status) <==> status in {301, 302, 303, 307, 308}
  {
  }

  /** `parse_status_line(&response_bytes).unwrap_or(0)`. */
  function StatusOrZero(response: seq<byte>): (status: nat)
    ensures Headers.ParseStatusLine(response).Err? ==> status == 0
    ensures Headers.ParseStatusLine(response).Ok? ==> status == Headers.ParseStatusLine(response).value
  {
    match Headers.ParseStatusLine(response)
    case Ok(status) => status
    case Err(_) => 0
  }

  /** The Location to follow: only with redirects on, a redirect status and a Location header. */
  function RedirectTarget(response: seq<byte>, a: Cli.Args): (r: Option<seq<byte>>)
    ensures r.Some? <==> a.followRedirects && IsRedirectStatus(StatusOrZero(response)) && Headers.Location(response).Some?
    ensures r.Some? ==> r == Headers.Location(response)
  {
    if a.followRedirects && IsRedirectStatus(StatusOrZero(response)) then Headers.Location(response) else None
  }

  /** The reads of the `n`-th connection; a connection with none listed is a peer that closes at once. */
  function Script(hops: seq<seq<ReadEvent>>, n: nat): seq<ReadEvent>
  {
    if n < |hops| then hops[n] else []
  }

  /** A finished chain of connections: the final arguments, every request written, and the last response. */
  datatype Fetched = Fetched(args: Cli.Args, sent: seq<seq<byte>>, response: seq<byte>)

  /**
   * `handle_*_connection_impl` with `redirect_count == count`, after the
   * requests in `sent`: write `request`, read, and either hand the
   * response on for processing or follow its Location through
   * `handle_redirect`.
   */
  function FollowFrom(a: Cli.Args, request: seq<byte>, hops: seq<seq<ReadEvent>>, count: nat, sent: seq<seq<byte>>)
    : (r: Result<Fetched, string>)
    requires count <= MAX_REDIRECTS
    decreases MAX_REDIRECTS - count
    ensures r.Ok? ==> RedirectTarget(r.value.response, r.value.args).None?
  {
    match Reported(Read(Binary, Script(hops, count)))
    case Err(e) => Err(e)
    case Ok(response) =>
      match RedirectTarget(response, a)
      case None => Ok(Fetched(a, sent + [request], response))
      case Some(location) =>
        match NextHop(a, location, count)
        case Err(e) => Err(e)
        case Ok((next, nextRequest)) => FollowFrom(next, nextRequest, hops, count + 1, sent + [request])
  }

  /**
   * `handle_redirect` up to the next connection: the hop limit, the URL
   * check, and the request rebuilt for the new URL.
   */
  function NextHop(a: Cli.Args, location: seq<byte>, count: nat): (r: Result<(Cli.Args, seq<byte>), string>)
    ensures r.Ok? ==> count < MAX_REDIRECTS && r.value.0 == a.(url := location)
    ensures r.Ok? ==> Request.Built(r.value.0, true) == Ok(r.value.1)
    ensures count >= MAX_REDIRECTS ==> r == Err(TOO_MANY)
    ensures count < MAX_REDIRECTS ==> (r.Err? <==> Url.Parse(location).Err?)
  {
    if count >= MAX_REDIRECTS then Err(TOO_MANY)
    else
      match Url.Parse(location)
      case Err(e) => Err(e)
      case Ok(_) =>
        var next := a.(url := location);
        Request.OnlyUrlErrors(next, true);
        match Request.Built(next, true)
        case Err(e) => Err(e)
        case Ok(nextRequest) => Ok((next, nextRequest))
  }

  /** `handle_redirect`, up to the connection it opens. */
  method HandleRedirect(a: Cli.Args, location: seq<byte>, count: nat) returns (r: Result<(Cli.Args, seq<byte>), string>)
    ensures r == NextHop(a, location, count)
  {
    if count >= MAX_REDIRECTS {
      return Err(TOO_MANY);
    }
    var parsed := Url.Parse(location);
    if parsed.Err? {
      return Err(parsed.error);
    }
    var next := a.(url := location);
    var built := Request.Build(next);
    // the URL has just parsed, so `request::build` cannot fail here
    Request.OnlyUrlErrors(next, true);
    assert built.Ok?;
    return Ok((next, built.value));
  }

  /** `handle_http_connection` / `handle_https_connection`: a chain that starts with `request` and no redirects. */
  function Follow(a: Cli.Args, request: seq<byte>, hops: seq<seq<ReadEvent>>): (r: Result<Fetched, string>)
    ensures r.Ok? ==> RedirectTarget(r.value.response, r.value.args).None?
  {
    FollowFrom(a, request, hops, 0, [])
  }

  /** The recursion through `handle_redirect`, as a loop with a hop counter. */
  method HandleConnection(a: Cli.Args, request: seq<byte>, hops: seq<seq<ReadEvent>>) returns (r: Result<Fetched, string>)
    ensures r == Follow(a, request, hops)
  {
    var args := a;
    var current := request;
    var count := 0;
    var sent: seq<seq<byte>> := [];
    while true
      invariant count <= MAX_REDIRECTS
      invariant FollowFrom(args, current, hops, count, sent) == Follow(a, request, hops)
      decreases MAX_REDIRECTS - count
    {
      var read := ReadHttpResponse(Script(hops, count));
      if read.Err? {
        return Err(read.error);
      }
      var response := read.value;
      sent := sent + [current];
      var location := RedirectTarget(response, args);
      if location.None? {
        return Ok(Fetched(args, sent, response));
      }
      var hop := HandleRedirect(args, location.value, count);
      if hop.Err? {
        return Err(hop.error);
      }
      args, current := hop.value.0, hop.value.1;
      count := count + 1;
    }
  }

  /**
   * A finished chain: at most ten redirects were followed (at most eleven
   * requests written, the first being the caller's), only the URL of the
   * arguments changed, and the final response is not one that is followed.
   */
  lemma {:induction false} FollowFromOutcome(a: Cli.Args, request: seq<byte>, hops: seq<seq<ReadEvent>>, count: nat, sent: seq<seq<byte>>)
    requires count <= MAX_REDIRECTS && |sent| == count
    ensures FollowFrom(a, request, hops, count, sent).Ok? ==>
      Finished(a, request, count, sent, FollowFrom(a, request, hops, count, sent).value)
    decreases MAX_REDIRECTS - count, 1
  {
    var r := FollowFrom(a, request, hops, count, sent);
    var answer := Reported(Read(Binary, Script(hops, count)));
    if r.Ok? && answer.Ok? {
      var target := RedirectTarget(answer.value, a);
      if target.None? {
        assert r == Ok(Fetched(a, sent + [request], answer.value));
        assert (sent + [request])[..count + 1] == sent + [request];
      } else {
        FollowRedirect(a, request, hops, count, sent, target.value);
      }
    }
  }

  /** What `FollowFromOutcome` promises of a finished chain. */
  predicate Finished(a: Cli.Args, request: seq<byte>, count: nat, sent: seq<seq<byte>>, f: Fetched)
  {
    count < |f.sent| <= MAX_REDIRECTS + 1 && f.sent[..count + 1] == sent + [request]
    && f.args == a.(url := f.args.url) && RedirectTarget(f.response, f.args).None?
  }

  /** The redirect case of `FollowFromOutcome`. */
  lemma {:induction false} FollowRedirect(a: Cli.Args, request: seq<byte>, hops: seq<seq<ReadEvent>>, count: nat, sent: seq<seq<byte>>, location: seq<byte>)
    requires count <= MAX_REDIRECTS && |sent| == count
    requires Reported(Read(Binary, Script(hops, count))).Ok?
    requires RedirectTarget(Reported(Read(Binary, Script(hops, count))).value, a) == Some(location)
    requires FollowFrom(a, request, hops, count, sent).Ok?
    ensures Finished(a, request, count, sent, FollowFrom(a, request, hops, count, sent).value)
    decreases MAX_REDIRECTS - count, 0
  {
    var next := a.(url := location);
    var nextRequest := Request.Built(next, true).value;
    var r := FollowFrom(a, request, hops, count, sent);
    assert NextHop(a, location, count) == Ok((next, nextRequest));
    assert r == FollowFrom(next, nextRequest, hops, count + 1, sent + [request]);
    FollowFromOutcome(next, nextRequest, hops, count + 1, sent + [request]);
    var f := r.value;
    assert f.sent[..count + 2] == sent + [request] + [nextRequest];
    assert f.sent[..count + 1] == (sent + [request] + [nextRequest])[..count + 1];
  }

  /** The whole chain: the caller's request goes first and at most ten redirects are followed. */
  lemma FollowOutcome(a: Cli.Args, request: seq<byte>, hops: seq<seq<ReadEvent>>)
    ensures Follow(a, request, hops).Ok? ==>
      var f := Follow(a, request, hops).value;
      1 <= |f.sent| <= MAX_REDIRECTS + 1 && f.sent[0] == request
      && f.args == a.(url := f.args.url) && RedirectTarget(f.response, f.args).None?
  {
    FollowFromOutcome(a, request, hops, 0, []);
    if Follow(a, request, hops).Ok? {
      var f := Follow(a, request, hops).value;
      assert f.sent[..1] == [request];
      assert f.sent[0] == f.sent[..1][0];
    }
  }

  /** The eleventh followable redirect in a row fails with "Too many redirects". */
  lemma TenthHopIsLast(a: Cli.Args, request: seq<byte>, hops: seq<seq<ReadEvent>>, sent: seq<seq<byte>>)
    requires Read(Binary, Script(hops, MAX_REDIRECTS)).Ok?
    requires RedirectTarget(Read(Binary, Script(hops, MAX_REDIRECTS)).value, a).Some?
    ensures FollowFrom(a, request, hops, MAX_REDIRECTS, sent) == Err(TOO_MANY)
  {
  }

  /** A Location that is not an absolute http or https URL ends the chain with the URL error. */
  lemma RelativeLocationFails(a: Cli.Args, request: seq<byte>, hops: seq<seq<ReadEvent>>, count: nat, sent: seq<seq<byte>>)
    requires count < MAX_REDIRECTS
    requires Read(Binary, Script(hops, count)).Ok?
    requires RedirectTarget(Read(Binary, Script(hops, count)).value, a).Some?
    requires !StartsWith(RedirectTarget(Read(Binary, Script(hops, count)).value, a).value, Url.HTTP)
    requires !StartsWith(RedirectTarget(Read(Binary, Script(hops, count)).value, a).value, Url.HTTPS)
    ensures FollowFrom(a, request, hops, count, sent) == Err(Url.SCHEME_ERROR)
  {
  }

  /** Without `-L` exactly one request is written, whatever the response says. */
  lemma NoFollowOneRequest(a: Cli.Args, request: seq<byte>, hops: seq<seq<ReadEvent>>)
    requires !a.followRedirects
    ensures Follow(a, request, hops).Ok? ==> Follow(a, request, hops).value.sent == [request]
    ensures Follow(a, request, hops).Ok? ==> Follow(a, request, hops).value.response == Read(Binary, Script(hops, 0)).value
  {
  }

  // ------------------------------------------------------------ TLS

  /** The protocol versions native-tls can be asked for as a minimum. */
  datatype Protocol = Tlsv10 | Tlsv11 | Tlsv12

  /** The text `--tls-version` takes for each version. */
  function VersionText(p: Protocol): seq<byte>
  {
    match p
    case Tlsv10 => [49, 46, 48]   // "1.0"
    case Tlsv11 => [49, 46, 49]   // "1.1"
    case Tlsv12 => [49, 46, 50]   // "1.2"
  }

  /** `get_tls_protocol_version`: the trimmed text "1.0", "1.1" or "1.2"; anything else, "1.3" included, is None. */
  function ProtocolVersion(version: seq<byte>): (r: Option<Protocol>)
    ensures r.Some? ==> Trim(version) == VersionText(r.value)
    ensures r.None? ==> forall p: Protocol :: Trim(version) != VersionText(p)
  {
    var v := Trim(version);
    if v == [49, 46, 48] then Some(Tlsv10)
    else if v == [49, 46, 49] then Some(Tlsv11)
    else if v == [49, 46, 50] then Some(Tlsv12)
    else None
  }

  /** `get_default_tls_protocol`: TLS 1.2 on every platform. */
  function DefaultProtocol(): (r: Option<Protocol>)
    ensures r == Some(Tlsv12)
  {
    Some(Tlsv12)
  }

  /** `args.tls_version.as_deref().and_then(get_tls_protocol_version).or_else(get_default_tls_protocol)`. */
  function MinimumProtocol(tlsVersion: Option<seq<byte>>): (r: Option<Protocol>)
    ensures r.Some?
    ensures tlsVersion.Some? && ProtocolVersion(tlsVersion.value).Some? ==> r == ProtocolVersion(tlsVersion.value)
    ensures tlsVersion.None? || ProtocolVersion(tlsVersion.value).None? ==> r == Some(Tlsv12)
  {
    match tlsVersion
    case Some(v) =>
      (match ProtocolVersion(v) case Some(p) => Some(p) case None => DefaultProtocol())
    case None => DefaultProtocol()
  }

  /** Round trip: each version's text, with blanks around it, selects that version. */
  lemma VersionRoundTrip(p: Protocol, before: seq<byte>, after: seq<byte>)
    requires forall i :: 0 <= i < |before| ==> IsSpace(before[i])
    requires forall i :: 0 <= i < |after| ==> IsSpace(after[i])
    ensures ProtocolVersion(before + VersionText(p) + after) == Some(p)
  {
    TrimPadded(before, VersionText(p), after);
  }

  /** "1.3" is not a recognised minimum: it falls back to TLS 1.2. */
  lemma Tls13FallsBack()
    ensures MinimumProtocol(Some([49, 46, 51])) == Some(Tlsv12)
  {
    TrimUnchanged([49, 46, 51]);
  }
}
