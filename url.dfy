/**
 * URL splitting: `parse` in src/http/url.rs and its textual twin `parse_url`
 * in src/utils.rs. An absolute `http://` or `https://` URL becomes a host,
 * a port, a path and a secure flag.
 */
module Url {
  import opened Wrappers
  import opened Bytes
  import opened Text

  datatype ParsedUrl = ParsedUrl(host: seq<byte>, port: nat, path: seq<byte>, secure: bool)

  const HTTP: seq<byte> := Ascii("http://")
  const HTTPS: seq<byte> := Ascii("https://")
  const SLASH: byte := 47
  const COLON: byte := 58

  const SCHEME_ERROR := "URL must start with http:// or https://"
  const PORT_ERROR := "Invalid port"
  const HOST_ERROR := "Invalid host"

  function DefaultPort(secure: bool): nat
  {
    if secure then 443 else 80
  }

  /** `trim_start_matches(p)`: strips `p` from the front as often as it is there. */
  function TrimPrefixes(s: seq<byte>, p: seq<byte>): (r: seq<byte>)
    requires |p| > 0
    decreases |s|
    ensures !StartsWith(r, p) && |r| <= |s| && r == s[|s| - |r|..]
  {
    if StartsWith(s, p) then TrimPrefixes(s[|p|..], p) else s
  }

  /** The host and the port of the text before the first `/`. */
  function HostPort(secure: bool, hostPort: seq<byte>): (r: Result<(seq<byte>, nat), string>)
    ensures r.Ok? ==> COLON !in r.value.0 && r.value.1 <= U16_MAX
    ensures r.Ok? ==> (SLASH !in hostPort ==> SLASH !in r.value.0)
    ensures r.Err? ==> r.error == PORT_ERROR
  {
    match SplitOnce(hostPort, COLON)
    case Some((host, portText)) =>
      (match ParseUnsigned(portText, 10, U16_MAX)
       case Some(port) => Ok((host, port))
       case None => Err(PORT_ERROR))
    case None => Ok((hostPort, DefaultPort(secure)))
  }

  /** What `parse` does with the text after the scheme. */
  function SplitRest(secure: bool, rest: seq<byte>): (r: Result<ParsedUrl, string>)
    ensures r.Ok? ==> r.value.secure == secure && r.value.port <= U16_MAX
    ensures r.Ok? ==> r.value.host != [] && SLASH !in r.value.host && COLON !in r.value.host
    ensures r.Ok? ==> |r.value.path| >= 1 && r.value.path[0] == SLASH
    ensures r.Err? ==> r.error == PORT_ERROR || r.error == HOST_ERROR
  {
    var (hostPort, path) := match SplitOnce(rest, SLASH) case Some(parts) => parts case None => (rest, []);
    match HostPort(secure, hostPort)
    case Err(e) => Err(e)
    case Ok((host, port)) =>
      if host == [] then Err(HOST_ERROR)
      else Ok(ParsedUrl(host, port, [SLASH] + path, secure))
  }

  /** `url::parse` (and `utils::parse_url`). */
  function Parse(url: seq<byte>): (r: Result<ParsedUrl, string>)
    ensures !StartsWith(url, HTTP) && !StartsWith(url, HTTPS) <==> r == Err(SCHEME_ERROR)
    ensures r.Ok? ==> r.value.secure == StartsWith(url, HTTPS)
    ensures r.Ok? ==> r.value.host != [] && SLASH !in r.value.host && COLON !in r.value.host
    ensures r.Ok? ==> r.value.port <= U16_MAX && |r.value.path| >= 1 && r.value.path[0] == SLASH
  {
    if StartsWith(url, HTTPS) then SplitRest(true, TrimPrefixes(url, HTTPS))
    else if StartsWith(url, HTTP) then SplitRest(false, TrimPrefixes(url, HTTP))
    else Err(SCHEME_ERROR)
  }

  function Scheme(secure: bool): seq<byte>
  {
    if secure then HTTPS else HTTP
  }

  /** The port suffix `:<port>` written in decimal, or nothing. */
  function PortSuffix(port: Option<nat>): seq<byte>
  {
    match port
    case None => []
    case Some(p) => [COLON] + Decimal(p)
  }

  /** The path suffix `/<path>`, or nothing. */
  function PathSuffix(path: Option<seq<byte>>): seq<byte>
  {
    match path
    case None => []
    case Some(p) => [SLASH] + p
  }

  /** The scheme's letters come before `c`, then `:/`. */
  lemma SchemeShape(p: seq<byte>, c: nat)
    requires (p == HTTP && c == 4) || (p == HTTPS && c == 5)
    ensures c + 1 < |p| && p[c] == COLON && p[c + 1] == SLASH
    ensures forall k :: 0 <= k < c ==> p[k] != COLON && p[k] != SLASH
  {
  }

  /** Where `s` and `p` differ below `|p|`, `s` does not start with `p`. */
  lemma Mismatch(s: seq<byte>, p: seq<byte>, k: nat)
    requires k < |p| && (k >= |s| || s[k] != p[k])
    ensures !StartsWith(s, p)
  {
    if |s| >= |p| {
      assert s[..|p|][k] == s[k];
    }
  }

  /** What follows the host in a composed URL: `:` and a digit, or `/`, or nothing. */
  lemma AfterHost(port: Option<nat>, path: Option<seq<byte>>)
    ensures port.Some? ==> |PortSuffix(port) + PathSuffix(path)| > 1
    ensures port.Some? ==> (PortSuffix(port) + PathSuffix(path))[0] == COLON
    ensures port.Some? ==> (PortSuffix(port) + PathSuffix(path))[1] != SLASH
    ensures port.None? && path.Some? ==> PortSuffix(port) + PathSuffix(path) != []
    ensures port.None? && path.Some? ==> (PortSuffix(port) + PathSuffix(path))[0] == SLASH
    ensures port.None? && path.None? ==> PortSuffix(port) + PathSuffix(path) == []
  {
    if port.Some? {
      var d := Decimal(port.value);
      assert (PortSuffix(port) + PathSuffix(path))[1] == d[0];
    }
  }

  /**
   * A host without `:` or `/` followed by a port suffix or a path cannot
   * itself begin with a scheme, so `trim_start_matches` strips one prefix only.
   */
  lemma NoSchemeAfterScheme(host: seq<byte>, port: Option<nat>, path: Option<seq<byte>>, p: seq<byte>)
    requires host != [] && SLASH !in host && COLON !in host
    requires p == HTTP || p == HTTPS
    ensures !StartsWith(host + PortSuffix(port) + PathSuffix(path), p)
  {
    var tail := PortSuffix(port) + PathSuffix(path);
    var rest := host + tail;
    assert host + PortSuffix(port) + PathSuffix(path) == rest;
    var c := if p == HTTP then 4 else 5;
    SchemeShape(p, c);
    AfterHost(port, path);
    if |host| < c {
      Mismatch(rest, p, |host|);
    } else if |host| > c {
      Mismatch(rest, p, c);
    } else if port.Some? {
      Mismatch(rest, p, c + 1);
    } else {
      Mismatch(rest, p, c);
    }
  }

  /** After one scheme prefix that is not repeated, `parse` splits the rest. */
  lemma ParseAfterScheme(secure: bool, rest: seq<byte>)
    requires !StartsWith(rest, Scheme(secure))
    ensures Parse(Scheme(secure) + rest) == SplitRest(secure, rest)
  {
    var s := Scheme(secure);
    var url := s + rest;
    assert StartsWith(url, s) by { assert url[..|s|] == s; }
    assert StartsWith(url, HTTPS) == secure by {
      if !secure { assert url[4] == COLON; assert HTTPS[4] != COLON; }
    }
    assert url[|s|..] == rest;
    assert TrimPrefixes(url, s) == rest;
  }

  lemma HostPortComposed(secure: bool, host: seq<byte>, port: Option<nat>)
    requires COLON !in host
    requires port.Some? ==> port.value <= U16_MAX
    ensures HostPort(secure, host + PortSuffix(port))
         == Ok((host, match port case Some(p) => p case None => DefaultPort(secure)))
  {
    match port {
      case Some(p) =>
        assert host + PortSuffix(port) == host + [COLON] + Decimal(p);
        SplitOnceAt(host, COLON, Decimal(p));
        ParseDigits(p, 10, U16_MAX);
      case None =>
        assert host + PortSuffix(port) == host;
    }
  }

  lemma PortSuffixNoSlash(port: Option<nat>)
    ensures SLASH !in PortSuffix(port)
  {
    if port.Some? {
      var d := Decimal(port.value);
      assert forall i :: 0 <= i < |d| ==> d[i] != SLASH;
      assert PortSuffix(port) == [COLON] + d;
    }
  }

  /** Splitting off the path: a `/` and everything after it, or `/` when there is none. */
  lemma SplitRestPath(secure: bool, hostPort: seq<byte>, path: Option<seq<byte>>, host: seq<byte>, port: nat)
    requires SLASH !in hostPort
    requires HostPort(secure, hostPort) == Ok((host, port)) && host != []
    ensures SplitRest(secure, hostPort + PathSuffix(path))
         == Ok(ParsedUrl(host, port, match path case Some(p) => [SLASH] + p case None => [SLASH], secure))
  {
    match path {
      case Some(p) =>
        assert hostPort + PathSuffix(path) == hostPort + [SLASH] + p;
        SplitOnceAt(hostPort, SLASH, p);
      case None =>
        assert hostPort + PathSuffix(path) == hostPort;
        assert SplitOnce(hostPort, SLASH) == None;
        assert [SLASH] + [] == [SLASH];
    }
  }

  /**
   * Round trip: a URL written from a scheme, a host without `:` or `/`, an
   * optional u16 port and an optional path parses back to those parts, with
   * the port defaulting to 443 or 80 and the path to `/`; query and fragment
   * text stays in the path.
   */
  lemma ParseComposed(secure: bool, host: seq<byte>, port: Option<nat>, path: Option<seq<byte>>)
    requires host != [] && SLASH !in host && COLON !in host
    requires port.Some? ==> port.value <= U16_MAX
    ensures Parse(Scheme(secure) + host + PortSuffix(port) + PathSuffix(path))
         == Ok(ParsedUrl(host,
                         match port case Some(p) => p case None => DefaultPort(secure),
                         match path case Some(p) => [SLASH] + p case None => [SLASH],
                         secure))
  {
    Regroup(Scheme(secure), host, PortSuffix(port), PathSuffix(path));
    ParseComposedRest(secure, host, port, path);
  }

  lemma ParseComposedRest(secure: bool, host: seq<byte>, port: Option<nat>, path: Option<seq<byte>>)
    requires host != [] && SLASH !in host && COLON !in host
    requires port.Some? ==> port.value <= U16_MAX
    ensures Parse(Scheme(secure) + (host + PortSuffix(port) + PathSuffix(path)))
         == Ok(ParsedUrl(host,
                         match port case Some(p) => p case None => DefaultPort(secure),
                         match path case Some(p) => [SLASH] + p case None => [SLASH],
                         secure))
  {
    var hostPort := host + PortSuffix(port);
    NoSchemeAfterScheme(host, port, path, Scheme(secure));
    ParseAfterScheme(secure, hostPort + PathSuffix(path));
    PortSuffixNoSlash(port);
    HostPortComposed(secure, host, port);
    SplitRestPath(secure, hostPort, path, host, match port case Some(p) => p case None => DefaultPort(secure));
  }

  /** The port check comes before the host check, and an out-of-range port is rejected. */
  lemma ParseBadPort(secure: bool, host: seq<byte>, portText: seq<byte>)
    requires SLASH !in host && COLON !in host && SLASH !in portText
    requires !StartsWith(host + [COLON] + portText, Scheme(secure))
    requires ParseUnsigned(portText, 10, U16_MAX).None?
    ensures Parse(Scheme(secure) + host + [COLON] + portText) == Err(PORT_ERROR)
  {
    var rest := host + [COLON] + portText;
    assert Scheme(secure) + host + [COLON] + portText == Scheme(secure) + rest;
    ParseAfterScheme(secure, rest);
    assert SLASH !in rest;
    SplitOnceAt(host, COLON, portText);
  }

  lemma NinesValue()
    ensures ParseUnsigned([57, 57, 57, 57, 57], 10, U16_MAX) == None
  {
    var digits: seq<byte> := [57, 57, 57, 57, 57];
    assert DigitsValue([57], 10) == 9;
    assert DigitsValue([57, 57], 10) == 99 by { assert [57, 57][..1] == [57]; }
    assert DigitsValue([57, 57, 57], 10) == 999 by { assert [57, 57, 57][..2] == [57, 57]; }
    assert DigitsValue([57, 57, 57, 57], 10) == 9999 by { assert [57, 57, 57, 57][..3] == [57, 57, 57]; }
    assert digits[..4] == [57, 57, 57, 57];
    assert DigitsValue(digits, 10) == 99999;
  }

  /** `http://localhost:99999` is rejected with "Invalid port": the port does not fit a u16. */
  lemma ParsePortTooLarge()
    ensures Parse(Ascii("http://localhost:99999")) == Err(PORT_ERROR)
  {
    var localhost := Ascii("localhost");
    var digits: seq<byte> := [57, 57, 57, 57, 57];
    assert Ascii("99999") == digits;
    NinesValue();
    assert "http://localhost:99999" == "http://" + "localhost" + ":" + "99999";
    AsciiAppend("http://" + "localhost" + ":", "99999");
    AsciiAppend("http://" + "localhost", ":");
    AsciiAppend("http://", "localhost");
    assert Ascii(":") == [COLON];
    assert (localhost + [COLON] + digits)[0] != HTTP[0];
    ParseBadPort(false, localhost, digits);
  }

  /** `http://:x` is rejected with "Invalid port" before its empty host is looked at. */
  lemma ParsePortNotNumeric()
    ensures Parse(Ascii("http://:x")) == Err(PORT_ERROR)
  {
    assert "http://:x" == "http://" + ":" + "x";
    AsciiAppend("http://" + ":", "x");
    AsciiAppend("http://", ":");
    assert Ascii("http://:x") == HTTP + [] + [COLON] + Ascii("x");
    ParseBadPort(false, [], Ascii("x"));
  }

  /** `http://` has an empty host and is rejected with "Invalid host". */
  lemma ParseEmptyHost()
    ensures Parse(Ascii("http://")) == Err(HOST_ERROR)
  {
    assert Ascii("http://") == HTTP + [];
    ParseAfterScheme(false, []);
  }

  /** Repeated scheme prefixes are all stripped: `http://http://h` has host `h`. */
  lemma ParseRepeatedScheme()
    ensures Parse(Ascii("http://http://h")) == Ok(ParsedUrl([104], 80, [SLASH], false))
  {
    var url := Ascii("http://http://h");
    var h: seq<byte> := [104];
    assert url == HTTP + (HTTP + h);
    assert !StartsWith(url, HTTPS) by { assert url[4] != HTTPS[4]; }
    assert StartsWith(url, HTTP) by { assert url[..|HTTP|] == HTTP; }
    assert url[|HTTP|..] == HTTP + h;
    assert (HTTP + h)[|HTTP|..] == h;
    assert StartsWith(HTTP + h, HTTP) by { assert (HTTP + h)[..|HTTP|] == HTTP; }
    assert TrimPrefixes(url, HTTP) == h;
    assert Parse(url) == SplitRest(false, h);
    assert SplitOnce(h, SLASH) == None;
    assert SplitOnce(h, COLON) == None;
    assert HostPort(false, h) == Ok((h, 80));
    assert [SLASH] + [] == [SLASH];
  }
}
