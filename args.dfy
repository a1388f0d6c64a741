/**
 * Command-line parsing (`Args::parse`, src/args/mod.rs). The process
 * environment and the file system are parameters: `env` is the value of
 * RURL_TLS_VERSION when it is set, and `files` maps the names `-d @name`
 * may refer to onto their contents (a name that is absent cannot be read).
 */
module Cli {
  import opened Wrappers
  import opened Bytes
  import opened Text

  /** The parsed options. Every text field holds the argument's bytes. */
  datatype Args = Args(
    url: seq<byte>,
    output: Option<seq<byte>>,
    httpMethod: seq<byte>,
    headers: seq<seq<byte>>,
    data: Option<seq<byte>>,
    help: bool,
    verbose: bool,
    tlsVersion: Option<seq<byte>>,
    includeHeaders: bool,
    headOnly: bool,
    followRedirects: bool,
    silent: bool,
    userAgent: Option<seq<byte>>,
    user: Option<seq<byte>>,
    failFast: bool)

  const GET: seq<byte> := Ascii("GET")
  const POST: seq<byte> := Ascii("POST")
  const HEAD: seq<byte> := Ascii("HEAD")
  const DASH: byte := 45
  const AT: byte := 64

  const MISSING_OUTPUT: string := "Missing output file"
  const MISSING_METHOD: string := "Missing HTTP method"
  const MISSING_HEADER: string := "Missing header"
  const MISSING_DATA: string := "Missing data"
  const MISSING_TLS: string := "Missing TLS version"
  const MISSING_AGENT: string := "Missing user agent"
  const MISSING_USER: string := "Missing user credentials"
  const DATA_FILE_ERROR: string := "Failed to read data file"
  const UNKNOWN_OPTION: string := "Unknown option"
  const MISSING_URL: string := "Missing URL"

  /** The arm of the option `match` an argument selects. */
  datatype Opt =
    | Help | Verbose | Output | Method | Header | Data | TlsVersion
    | Include | Head | Location | Silent | UserAgent | User | Fail
    | Unknown | Positional

  /** The options that consume the following argument as their value. */
  predicate TakesValue(o: Opt)
  {
    o.Output? || o.Method? || o.Header? || o.Data? || o.TlsVersion? || o.UserAgent? || o.User?
  }

  /** The error an option reports when no argument follows it. */
  function MissingValue(o: Opt): (e: string)
    requires TakesValue(o)
  {
    match o
    case Output => MISSING_OUTPUT
    case Method => MISSING_METHOD
    case Header => MISSING_HEADER
    case Data => MISSING_DATA
    case TlsVersion => MISSING_TLS
    case UserAgent => MISSING_AGENT
    case User => MISSING_USER
  }

  /** The option names the `match` lists, each with the arm it selects, in the order of the arms. */
  const OPTIONS: seq<(string, Opt)> := [
    ("-h", Help), ("--help", Help),
    ("-v", Verbose), ("--verbose", Verbose),
    ("-o", Output), ("--output", Output),
    ("-m", Method), ("--method", Method),
    ("-X", Method), ("--request", Method),
    ("-H", Header), ("--header", Header),
    ("-d", Data), ("--data", Data),
    ("--tls-version", TlsVersion),
    ("-i", Include), ("--include", Include),
    ("-I", Head), ("--head", Head),
    ("-L", Location), ("--location", Location),
    ("-s", Silent), ("--silent", Silent),
    ("-A", UserAgent), ("--user-agent", UserAgent),
    ("-u", User), ("--user", User),
    ("-f", Fail), ("--fail", Fail)]

  /** The arm of the first entry of `table` from `k` on that names `arg`. */
  function Lookup(arg: seq<byte>, table: seq<(string, Opt)>, k: nat): (r: Option<Opt>)
    decreases |table| - k
    ensures r.Some? ==> exists j :: k <= j < |table| && Ascii(table[j].0) == arg && table[j].1 == r.value
    ensures r.None? ==> forall j :: k <= j < |table| ==> Ascii(table[j].0) != arg
  {
    if k >= |table| then None
    else if Ascii(table[k].0) == arg then Some(table[k].1)
    else Lookup(arg, table, k + 1)
  }

  /** An argument found in a table of dashed names, none of them for the last two arms, starts with a dash. */
  lemma LookupDash(arg: seq<byte>, table: seq<(string, Opt)>, k: nat)
    requires forall j :: k <= j < |table| ==> table[j].0 != [] && table[j].0[0] == '-' && table[j].1 !in {Unknown, Positional}
    ensures Lookup(arg, table, k).Some? ==> arg != [] && arg[0] == DASH && Lookup(arg, table, k).value !in {Unknown, Positional}
  {
    if Lookup(arg, table, k).Some? {
      var j :| k <= j < |table| && Ascii(table[j].0) == arg && table[j].1 == Lookup(arg, table, k).value;
      assert arg[0] == Ascii(table[j].0)[0];
    }
  }

  /** Every listed option is a dash followed by a name, and selects a named arm. */
  lemma OptionsStartWithDash()
    ensures forall j :: 0 <= j < |OPTIONS| ==> OPTIONS[j].0 != [] && OPTIONS[j].0[0] == '-' && OPTIONS[j].1 !in {Unknown, Positional}
  {
  }

  /** Which arm of the `match arg.as_str()` an argument falls into. */
  function Classify(arg: seq<byte>): Opt
  {
    match Lookup(arg, OPTIONS, 0)
    case Some(o) => o
    case None => if arg != [] && arg[0] == DASH then Unknown else Positional
  }

  /** An argument is the URL exactly when it does not start with a dash; a dashed one not listed is unknown. */
  lemma ClassifyDash(arg: seq<byte>)
    ensures Classify(arg) == Positional <==> arg == [] || arg[0] != DASH
    ensures Classify(arg) == Unknown ==> arg != [] && arg[0] == DASH
  {
    OptionsStartWithDash();
    LookupDash(arg, OPTIONS, 0);
  }

  /** The options before any argument is read: method GET, nothing else set. */
  const DEFAULTS: Args := Args([], None, GET, [], None, false, false, None,
                               false, false, false, false, None, None, false)

  /** The defaults with RURL_TLS_VERSION, when it is set, as the TLS version. */
  function Seeded(env: Option<seq<byte>>): (a: Args)
    ensures a.tlsVersion == env && a == DEFAULTS.(tlsVersion := a.tlsVersion)
  {
    if env.Some? then DEFAULTS.(tlsVersion := env) else DEFAULTS
  }

  /** The data of `-d`: `@name` reads the file `name`, anything else is the data itself. */
  function DataValue(arg: seq<byte>, files: map<seq<byte>, seq<byte>>): (r: Result<seq<byte>, string>)
    ensures r.Err? <==> arg != [] && arg[0] == AT && arg[1..] !in files
    ensures r.Err? ==> r.error == DATA_FILE_ERROR
    ensures r.Ok? && (arg == [] || arg[0] != AT) ==> r.value == arg
  {
    if arg != [] && arg[0] == AT then
      if arg[1..] in files then Ok(files[arg[1..]]) else Err(DATA_FILE_ERROR)
    else Ok(arg)
  }

  /** What one arm of the `match` does: go on with new options, or return a result. */
  datatype Turn = Continue(args: Args) | Finish(result: Result<Args, string>)

  /** The arms for options that take no value; `arg` is the argument itself. */
  function FlagStep(p: Args, o: Opt, arg: seq<byte>): (t: Turn)
    requires !TakesValue(o)
    ensures t.Finish? <==> o == Help || o == Unknown
  {
    match o
    case Help => Finish(Ok(p.(help := true)))
    case Verbose => Continue(p.(verbose := true))
    case Include => Continue(p.(includeHeaders := true))
    case Head => Continue(p.(headOnly := true, httpMethod := HEAD))
    case Location => Continue(p.(followRedirects := true))
    case Silent => Continue(p.(silent := true))
    case Fail => Continue(p.(failFast := true))
    case Unknown => Finish(Err(UNKNOWN_OPTION))
    case Positional => Continue(p.(url := arg))
  }

  /** The `-d` arm: the data (a file's contents for `@name`), and POST in place of GET. */
  function DataStep(p: Args, value: seq<byte>, files: map<seq<byte>, seq<byte>>): (t: Turn)
    ensures t.Finish? <==> DataValue(value, files).Err?
  {
    match DataValue(value, files)
    case Err(e) => Finish(Err(e))
    case Ok(d) => Continue(p.(data := Some(d), httpMethod := if p.httpMethod == GET then POST else p.httpMethod))
  }

  /** The arms for options that take the next argument, `value`, as their value. */
  function ValueStep(p: Args, o: Opt, value: seq<byte>, files: map<seq<byte>, seq<byte>>): (t: Turn)
    requires TakesValue(o)
    ensures t.Finish? <==> o == Data && DataValue(value, files).Err?
  {
    match o
    case Output => Continue(p.(output := Some(value)))
    case Method => Continue(p.(httpMethod := Upper(value)))
    case Header => Continue(p.(headers := p.headers + [value]))
    case Data => DataStep(p, value, files)
    case TlsVersion => Continue(p.(tlsVersion := Some(value)))
    case UserAgent => Continue(p.(userAgent := Some(value)))
    case User => Continue(p.(user := Some(value)))
  }

  /** The check after the loop: without a URL (and without help) parsing fails. */
  function Final(p: Args): (r: Result<Args, string>)
    ensures r.Err? <==> p.url == [] && !p.help
    ensures r.Ok? ==> r.value == p
  {
    if p.url == [] && !p.help then Err(MISSING_URL) else Ok(p)
  }

  /** The rest of the loop from options `p` with arguments `rest` still to read, and the check after it. */
  function ParseFrom(p: Args, rest: seq<seq<byte>>, files: map<seq<byte>, seq<byte>>): (r: Result<Args, string>)
    decreases |rest|
  {
    if rest == [] then Final(p)
    else
      var o := Classify(rest[0]);
      if !TakesValue(o) then
        match FlagStep(p, o, rest[0])
        case Finish(r) => r
        case Continue(q) => ParseFrom(q, rest[1..], files)
      else if |rest| == 1 then Err(MissingValue(o))
      else
        match ValueStep(p, o, rest[1], files)
        case Finish(r) => r
        case Continue(q) => ParseFrom(q, rest[2..], files)
  }

  /** The result `Args::parse` gives for the arguments after the program name. */
  function Parsed(argv: seq<seq<byte>>, env: Option<seq<byte>>, files: map<seq<byte>, seq<byte>>): Result<Args, string>
  {
    ParseFrom(Seeded(env), argv, files)
  }

  /** The value-less arms of the `match`, updating `parsed` in place; `done` is set when the arm returns. */
  method ApplyFlag(parsed0: Args, o: Opt, arg: seq<byte>) returns (parsed: Args, done: Option<Result<Args, string>>)
    requires !TakesValue(o)
    ensures FlagStep(parsed0, o, arg) == if done.Some? then Finish(done.value) else Continue(parsed)
  {
    parsed, done := parsed0, None;
    match o {
      case Help =>
        parsed := parsed.(help := true);
        done := Some(Ok(parsed));
      case Verbose =>
        parsed := parsed.(verbose := true);
      case Include =>
        parsed := parsed.(includeHeaders := true);
      case Head =>
        parsed := parsed.(headOnly := true);
        parsed := parsed.(httpMethod := HEAD);
      case Location =>
        parsed := parsed.(followRedirects := true);
      case Silent =>
        parsed := parsed.(silent := true);
      case Fail =>
        parsed := parsed.(failFast := true);
      case Unknown =>
        done := Some(Err(UNKNOWN_OPTION));
      case Positional =>
        parsed := parsed.(url := arg);
    }
  }

  /** The `-d` arm: the data, read from a file for `@name`, and POST in place of GET. */
  method ApplyData(parsed0: Args, value: seq<byte>, files: map<seq<byte>, seq<byte>>)
    returns (parsed: Args, done: Option<Result<Args, string>>)
    ensures DataStep(parsed0, value, files) == if done.Some? then Finish(done.value) else Continue(parsed)
  {
    parsed, done := parsed0, None;
    if value != [] && value[0] == AT {
      if value[1..] !in files {
        return parsed, Some(Err(DATA_FILE_ERROR));
      }
      parsed := parsed.(data := Some(files[value[1..]]));
    } else {
      parsed := parsed.(data := Some(value));
    }
    if parsed.httpMethod == GET {
      parsed := parsed.(httpMethod := POST);
    }
  }

  /** The arms of the `match` that take a value, updating `parsed` in place; `done` is set when the arm returns. */
  method ApplyValue(parsed0: Args, o: Opt, value: seq<byte>, files: map<seq<byte>, seq<byte>>)
    returns (parsed: Args, done: Option<Result<Args, string>>)
    requires TakesValue(o)
    ensures ValueStep(parsed0, o, value, files) == if done.Some? then Finish(done.value) else Continue(parsed)
  {
    parsed, done := parsed0, None;
    match o {
      case Output =>
        parsed := parsed.(output := Some(value));
        return parsed, None;
      case Method =>
        parsed := parsed.(httpMethod := Upper(value));
      case Header =>
        parsed := parsed.(headers := parsed.headers + [value]);
        return parsed, None;
      case Data =>
        parsed, done := ApplyData(parsed, value, files);
      case TlsVersion =>
        parsed := parsed.(tlsVersion := Some(value));
        return parsed, None;
      case UserAgent =>
        parsed := parsed.(userAgent := Some(value));
        return parsed, None;
      case User =>
        parsed := parsed.(user := Some(value));
        return parsed, None;
    }
  }

  /**
   * `Args::parse`: seeds the defaults, runs the while-let loop over the
   * arguments (`args` is what the iterator has still to yield), then checks
   * for a URL.
   */
  method Parse(argv: seq<seq<byte>>, env: Option<seq<byte>>, files: map<seq<byte>, seq<byte>>)
    returns (r: Result<Args, string>)
    ensures r == Parsed(argv, env, files)
  {
    var parsed := DEFAULTS;
    if env.Some? {
      parsed := parsed.(tlsVersion := env);
    }
    var args := argv;
    while args != []
      invariant ParseFrom(parsed, args, files) == Parsed(argv, env, files)
      decreases |args|
    {
      var arg := args[0];
      args := args[1..];
      var o := Classify(arg);
      var done;
      if !TakesValue(o) {
        parsed, done := ApplyFlag(parsed, o, arg);
      } else {
        if args == [] {
          return Err(MissingValue(o));
        }
        var value := args[0];
        args := args[1..];
        parsed, done := ApplyValue(parsed, o, value, files);
      }
      if done.Some? {
        return done.value;
      }
    }
    if parsed.url == [] && !parsed.help {
      return Err(MISSING_URL);
    }
    return Ok(parsed);
  }

  // ------------------------------------------------------------ properties

  /** One value-less option at the front of the arguments. */
  lemma FlagArg(p: Args, a: seq<byte>, rest: seq<seq<byte>>, files: map<seq<byte>, seq<byte>>)
    requires !TakesValue(Classify(a))
    ensures FlagStep(p, Classify(a), a).Finish? ==>
      ParseFrom(p, [a] + rest, files) == FlagStep(p, Classify(a), a).result
    ensures FlagStep(p, Classify(a), a).Continue? ==>
      ParseFrom(p, [a] + rest, files) == ParseFrom(FlagStep(p, Classify(a), a).args, rest, files)
  {
    assert ([a] + rest)[1..] == rest;
  }

  /** One option and its value at the front of the arguments. */
  lemma ValueArg(p: Args, a: seq<byte>, v: seq<byte>, rest: seq<seq<byte>>, files: map<seq<byte>, seq<byte>>)
    requires TakesValue(Classify(a))
    ensures ValueStep(p, Classify(a), v, files).Finish? ==>
      ParseFrom(p, [a, v] + rest, files) == ValueStep(p, Classify(a), v, files).result
    ensures ValueStep(p, Classify(a), v, files).Continue? ==>
      ParseFrom(p, [a, v] + rest, files) == ParseFrom(ValueStep(p, Classify(a), v, files).args, rest, files)
  {
    assert ([a, v] + rest)[2..] == rest;
  }

  /** With no arguments at all, parsing fails for want of a URL. */
  lemma NoArguments(env: Option<seq<byte>>, files: map<seq<byte>, seq<byte>>)
    ensures Parsed([], env, files) == Err(MISSING_URL)
  {
  }

  /** The defaults: method GET, no headers, data or other values, every flag off. */
  lemma Defaults()
    ensures DEFAULTS.url == [] && DEFAULTS.httpMethod == GET && DEFAULTS.headers == []
    ensures DEFAULTS.data.None? && DEFAULTS.output.None? && DEFAULTS.tlsVersion.None?
    ensures DEFAULTS.userAgent.None? && DEFAULTS.user.None?
    ensures !DEFAULTS.help && !DEFAULTS.verbose && !DEFAULTS.includeHeaders && !DEFAULTS.headOnly
    ensures !DEFAULTS.followRedirects && !DEFAULTS.silent && !DEFAULTS.failFast
  {
  }

  /** A URL alone gives the defaults with that URL. */
  lemma UrlAlone(url: seq<byte>, files: map<seq<byte>, seq<byte>>)
    requires url != [] && url[0] != DASH
    ensures Parsed([url], None, files) == Ok(DEFAULTS.(url := url))
  {
    ClassifyDash(url);
    FlagArg(DEFAULTS, url, [], files);
    assert [url] + [] == [url];
  }

  /** RURL_TLS_VERSION, when set, is the TLS version unless an option says otherwise. */
  lemma EnvSeedsTls(url: seq<byte>, v: seq<byte>, files: map<seq<byte>, seq<byte>>)
    requires url != [] && url[0] != DASH
    ensures Parsed([url], Some(v), files) == Ok(DEFAULTS.(tlsVersion := Some(v), url := url))
  {
    ClassifyDash(url);
    FlagArg(Seeded(Some(v)), url, [], files);
    assert [url] + [] == [url];
  }

  /** `--tls-version v` sets the TLS version to `v`, whatever it was. */
  lemma TlsArg(p: Args, flag: seq<byte>, v: seq<byte>, rest: seq<seq<byte>>, files: map<seq<byte>, seq<byte>>)
    requires Classify(flag) == TlsVersion
    ensures ParseFrom(p, [flag, v] + rest, files) == ParseFrom(p.(tlsVersion := Some(v)), rest, files)
  {
    ValueArg(p, flag, v, rest, files);
  }

  /** `--tls-version` overrides RURL_TLS_VERSION. */
  lemma TlsOptionOverridesEnv(flag: seq<byte>, v: seq<byte>, url: seq<byte>, env: Option<seq<byte>>,
                               files: map<seq<byte>, seq<byte>>)
    requires Classify(flag) == TlsVersion && url != [] && url[0] != DASH
    ensures Parsed([flag, v, url], env, files) == Ok(Seeded(env).(tlsVersion := Some(v), url := url))
  {
    var q := Seeded(env).(tlsVersion := Some(v));
    assert [flag, v, url] == [flag, v] + [url];
    assert [url] == [url] + [];
    TlsArg(Seeded(env), flag, v, [url], files);
    UrlArg(q, url, [], files);
  }

  /** Help returns at once: whatever follows is not read, and no URL is needed. */
  lemma HelpReturnsAtOnce(p: Args, flag: seq<byte>, rest: seq<seq<byte>>, files: map<seq<byte>, seq<byte>>)
    requires Classify(flag) == Help
    ensures ParseFrom(p, [flag] + rest, files) == Ok(p.(help := true))
  {
    FlagArg(p, flag, rest, files);
  }

  /** An option that needs a value but comes last reports the value as missing. */
  lemma MissingOptionValue(p: Args, flag: seq<byte>, files: map<seq<byte>, seq<byte>>)
    requires TakesValue(Classify(flag))
    ensures ParseFrom(p, [flag], files) == Err(MissingValue(Classify(flag)))
    ensures MissingValue(Classify(flag)) != MISSING_URL
  {
  }

  /** A dashed argument that names no option stops parsing with "Unknown option". */
  lemma UnknownOptionFails(p: Args, arg: seq<byte>, rest: seq<seq<byte>>, files: map<seq<byte>, seq<byte>>)
    requires arg != [] && arg[0] == DASH && Lookup(arg, OPTIONS, 0).None?
    ensures ParseFrom(p, [arg] + rest, files) == Err(UNKNOWN_OPTION)
  {
    FlagArg(p, arg, rest, files);
  }

  /** `-m`/`-X` upper-cases the method it is given. */
  lemma MethodUppercased(p: Args, flag: seq<byte>, m: seq<byte>, rest: seq<seq<byte>>, files: map<seq<byte>, seq<byte>>)
    requires Classify(flag) == Method
    ensures ParseFrom(p, [flag, m] + rest, files) == ParseFrom(p.(httpMethod := Upper(m)), rest, files)
  {
    ValueArg(p, flag, m, rest, files);
  }

  /** `-I` turns on head-only mode and sets the method to HEAD. */
  lemma HeadSetsMethod(p: Args, flag: seq<byte>, rest: seq<seq<byte>>, files: map<seq<byte>, seq<byte>>)
    requires Classify(flag) == Head
    ensures ParseFrom(p, [flag] + rest, files) == ParseFrom(p.(headOnly := true, httpMethod := HEAD), rest, files)
  {
    FlagArg(p, flag, rest, files);
  }

  /** `-d` sets the data and turns GET, and only GET, into POST. */
  lemma DataTurnsGetIntoPost(p: Args, flag: seq<byte>, d: seq<byte>, rest: seq<seq<byte>>, files: map<seq<byte>, seq<byte>>)
    requires Classify(flag) == Data && (d == [] || d[0] != AT)
    ensures ParseFrom(p, [flag, d] + rest, files)
         == ParseFrom(p.(data := Some(d), httpMethod := if p.httpMethod == GET then POST else p.httpMethod), rest, files)
  {
    ValueArg(p, flag, d, rest, files);
  }

  /** `-d @name` sends the contents of file `name`, and fails when it cannot be read. */
  lemma DataFromFile(p: Args, flag: seq<byte>, name: seq<byte>, rest: seq<seq<byte>>, files: map<seq<byte>, seq<byte>>)
    requires Classify(flag) == Data
    ensures name in files ==>
      ParseFrom(p, [flag, [AT] + name] + rest, files)
      == ParseFrom(p.(data := Some(files[name]), httpMethod := if p.httpMethod == GET then POST else p.httpMethod), rest, files)
    ensures name !in files ==> ParseFrom(p, [flag, [AT] + name] + rest, files) == Err(DATA_FILE_ERROR)
  {
    assert ([AT] + name)[1..] == name;
    ValueArg(p, flag, [AT] + name, rest, files);
  }

  /** A URL argument replaces any earlier one. */
  lemma UrlArg(p: Args, url: seq<byte>, rest: seq<seq<byte>>, files: map<seq<byte>, seq<byte>>)
    requires url != [] && url[0] != DASH
    ensures ParseFrom(p, [url] + rest, files) == ParseFrom(p.(url := url), rest, files)
  {
    ClassifyDash(url);
    FlagArg(p, url, rest, files);
  }

  /** `-X get -d x URL` sends POST: the data arm sees GET and replaces it. */
  lemma MethodThenData(x: seq<byte>, m: seq<byte>, d: seq<byte>, v: seq<byte>, url: seq<byte>,
                       files: map<seq<byte>, seq<byte>>)
    requires Classify(x) == Method && Classify(d) == Data && Upper(m) == GET
    requires (v == [] || v[0] != AT) && url != [] && url[0] != DASH
    ensures Parsed([x, m, d, v, url], None, files) == Ok(DEFAULTS.(data := Some(v), httpMethod := POST, url := url))
  {
    var p1 := DEFAULTS.(httpMethod := GET);
    var p2 := p1.(data := Some(v), httpMethod := POST);
    assert [x, m, d, v, url] == [x, m] + [d, v, url];
    assert [d, v, url] == [d, v] + [url];
    assert [url] == [url] + [];
    MethodUppercased(DEFAULTS, x, m, [d, v, url], files);
    DataTurnsGetIntoPost(p1, d, v, [url], files);
    UrlArg(p2, url, [], files);
  }

  /** `-d x -X get URL` sends GET: the later method option wins over the switch to POST. */
  lemma DataThenMethod(x: seq<byte>, m: seq<byte>, d: seq<byte>, v: seq<byte>, url: seq<byte>,
                       files: map<seq<byte>, seq<byte>>)
    requires Classify(x) == Method && Classify(d) == Data && Upper(m) == GET
    requires (v == [] || v[0] != AT) && url != [] && url[0] != DASH
    ensures Parsed([d, v, x, m, url], None, files) == Ok(DEFAULTS.(data := Some(v), httpMethod := GET, url := url))
  {
    var p1 := DEFAULTS.(data := Some(v), httpMethod := POST);
    var p2 := p1.(httpMethod := GET);
    assert [d, v, x, m, url] == [d, v] + [x, m, url];
    assert [x, m, url] == [x, m] + [url];
    assert [url] == [url] + [];
    DataTurnsGetIntoPost(DEFAULTS, d, v, [x, m, url], files);
    MethodUppercased(p1, x, m, [url], files);
    UrlArg(p2, url, [], files);
  }

  /** One `-H h` appends `h` to the headers given so far. */
  lemma HeaderArg(p: Args, flag: seq<byte>, h: seq<byte>, rest: seq<seq<byte>>, files: map<seq<byte>, seq<byte>>)
    requires Classify(flag) == Header
    ensures ParseFrom(p, [flag, h] + rest, files) == ParseFrom(p.(headers := p.headers + [h]), rest, files)
  {
    ValueArg(p, flag, h, rest, files);
  }

  /** Two `-H` options keep their command-line order. */
  lemma HeadersInOrder(flag: seq<byte>, h1: seq<byte>, h2: seq<byte>, url: seq<byte>, files: map<seq<byte>, seq<byte>>)
    requires Classify(flag) == Header && url != [] && url[0] != DASH
    ensures Parsed([flag, h1, flag, h2, url], None, files) == Ok(DEFAULTS.(headers := [h1, h2], url := url))
  {
    var p1 := DEFAULTS.(headers := [h1]);
    var p2 := p1.(headers := [h1, h2]);
    assert [flag, h1, flag, h2, url] == [flag, h1] + [flag, h2, url];
    assert [flag, h2, url] == [flag, h2] + [url];
    assert [url] == [url] + [];
    assert DEFAULTS.headers + [h1] == [h1] && p1.headers + [h2] == [h1, h2];
    HeaderArg(DEFAULTS, flag, h1, [flag, h2, url], files);
    HeaderArg(p1, flag, h2, [url], files);
    UrlArg(p2, url, [], files);
  }

  /** Of two URLs the later one wins. */
  lemma LastUrlWins(p: Args, u1: seq<byte>, u2: seq<byte>, rest: seq<seq<byte>>, files: map<seq<byte>, seq<byte>>)
    requires u1 != [] && u1[0] != DASH && u2 != [] && u2[0] != DASH
    ensures ParseFrom(p, [u1, u2] + rest, files) == ParseFrom(p.(url := u2), rest, files)
  {
    assert [u1, u2] + rest == [u1] + ([u2] + rest);
    UrlArg(p, u1, [u2] + rest, files);
    UrlArg(p.(url := u1), u2, rest, files);
    assert p.(url := u1).(url := u2) == p.(url := u2);
  }
}
