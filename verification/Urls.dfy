/** Connection URLs (`parse_redis_url` in src/redis_config.cpp). A URL is taken apart at
    its delimiters into parts; the parts are then read into a configuration. */
module Urls {
  import opened Results
  import opened Decimal
  import opened UrlQuery

  datatype Scheme = TCP | UNIX | REDIS

  datatype Config = Config(
    scheme: Scheme, host: string, port: UInt16, username: string, password: string, index: UInt32)

  // ---------- delimiters ----------

  /** `find`, then `substr` on both sides; nothing on the right when `c` does not occur. */
  function SplitAt(s: string, c: char): (string, Option<string>) {
    var i := IndexFrom(s, c, 0);
    if i == |s| then (s, None) else (s[..i], Some(s[i + 1..]))
  }

  function JoinAt(left: string, c: char, right: Option<string>): string {
    match right
    case None => left
    case Some(t) => left + [c] + t
  }

  lemma SplitOfJoin(left: string, c: char, right: Option<string>)
    ensures SplitAt(JoinAt(left, c, right), c) == (left, right) <==> c !in left
  {
    var s := JoinAt(left, c, right);
    if c !in left {
      IndexFromIs(s, c, 0, |left|);
      if right.Some? {
        assert s[|left| + 1..] == right.value && s[..|left|] == left;
      }
    } else {
      var k :| 0 <= k < |left| && left[k] == c;
      assert s[k] == c;
    }
  }

  lemma JoinOfSplit(s: string, c: char)
    ensures JoinAt(SplitAt(s, c).0, c, SplitAt(s, c).1) == s
    ensures c !in SplitAt(s, c).0
  {
  }

  // ---------- parts ----------

  /** `tail` is everything after the closing bracket; it names a port if it starts with ':'. */
  datatype Host = Bracketed(host: string, tail: string) | Plain(host: string, port: Option<string>)

  datatype User = User(name: string, pass: Option<string>)

  datatype Parts =
    | Inet(scheme: Scheme, user: Option<User>, host: Host, query: Option<string>)
    | Local(path: string, query: Option<string>)

  function SchemeText(s: Scheme): string {
    match s
    case TCP => "tcp://"
    case REDIS => "redis://"
    case UNIX => "unix://"
  }

  function SchemeOf(url: string): Option<(Scheme, string)> {
    if "tcp://" <= url then Some((TCP, url[6..]))
    else if "redis://" <= url then Some((REDIS, url[8..]))
    else if "unix://" <= url then Some((UNIX, url[7..]))
    else None
  }

  function SplitHost(text: string): Option<Host> {
    if text == "" then None
    else if text[0] == '[' then
      match SplitAt(text[1..], ']')
      case (_, None) => None
      case (host, Some(tail)) => Some(Bracketed(host, tail))
    else
      var (host, port) := SplitAt(text, ':');
      Some(Plain(host, port))
  }

  function SplitUser(text: string): User {
    var (name, pass) := SplitAt(text, ':');
    User(name, pass)
  }

  /** Credentials and host, from the text before the query. */
  function SplitFront(front: string): (Option<User>, Option<Host>) {
    match SplitAt(front, '@')
    case (host, None) => (None, SplitHost(host))
    case (user, Some(host)) => (Some(SplitUser(user)), SplitHost(host))
  }

  function SplitRest(scheme: Scheme, rest: string): Option<Parts> {
    var (front, query) := SplitAt(rest, '?');
    if scheme == UNIX then
      if front == "" || front[0] != '/' then None else Some(Local(front, query))
    else
      match SplitFront(front)
      case (_, None) => None
      case (user, Some(host)) => Some(Inet(scheme, user, host, query))
  }

  function Split(url: string): Option<Parts> {
    match SchemeOf(url)
    case None => None
    case Some((scheme, rest)) => SplitRest(scheme, rest)
  }

  // ---------- reading parts ----------

  const DEFAULT_PORT: UInt16 := 6379

  /** `config.port = std::stoul(...)`: the conversion to `unsigned short` drops high bits. */
  function PortOf(text: string): Result<UInt16> {
    var n :- Stoul(text);
    Ok(n % 0x1_0000)
  }

  function HostPort(h: Host): Result<UInt16> {
    match h
    case Bracketed(_, tail) => if |tail| > 0 && tail[0] == ':' then PortOf(tail[1..]) else Ok(DEFAULT_PORT)
    case Plain(_, None) => Ok(DEFAULT_PORT)
    case Plain(_, Some(text)) => PortOf(text)
  }

  function InfoOf(query: Option<string>): Result<QueryInfo> {
    match query
    case None => Ok(NO_INFO)
    case Some(q) => QueryOf(q)
  }

  /** Credentials before the '@' take precedence over those in the query. */
  function Assemble(p: Parts): Result<Config> {
    var info :- InfoOf(p.query);
    match p
    case Local(path, _) => Ok(Config(UNIX, path, 0, info.username, info.password, info.index))
    case Inet(scheme, user, host, _) =>
      var port :- HostPort(host);
      var username := if user.Some? then user.value.name else info.username;
      var password := if user.Some? && user.value.pass.Some? then user.value.pass.value else info.password;
      Ok(Config(scheme, host.host, port, username, password, info.index))
  }

  function ParseUrl(url: string): Result<Config> {
    match Split(url)
    case None => Err(InvalidArgument)
    case Some(p) => Assemble(p)
  }

  lemma {:induction false} ApplyErrors(pairs: seq<(string, string)>)
    ensures ApplyAll(pairs).Err? ==> ApplyAll(pairs).error == InvalidArgument
  {
    if pairs != [] {
      ApplyErrors(pairs[..|pairs| - 1]);
    }
  }

  lemma QueryErrors(query: string)
    ensures QueryOf(query).Err? ==> QueryOf(query).error == InvalidArgument
  {
    ApplyErrors(Pairs(query));
  }

  method ParseRedisUrl(url: string) returns (r: Result<Config>)
    ensures r == ParseUrl(url)
  {
    hide ApplyAll, Pairs, IndexFrom, SplitHost, HostPort, SplitUser, SplitAt, QueryOf;
    var config := Config(TCP, "127.0.0.1", DEFAULT_PORT, "", "", 0);
    var remaining := url;
    if "tcp://" <= url {
      config := config.(scheme := TCP);
      remaining := url[6..];
    } else if "redis://" <= url {
      config := config.(scheme := REDIS);
      remaining := url[8..];
    } else if "unix://" <= url {
      config := config.(scheme := UNIX, port := 0);
      remaining := url[7..];
    } else {
      return Err(InvalidArgument);
    }
    assert SchemeOf(url) == Some((config.scheme, remaining));
    r := ReadRest(config, remaining);
  }

  /** Everything after the scheme. */
  method ReadRest(start: Config, rest: string) returns (r: Result<Config>)
    requires start == Config(start.scheme, "127.0.0.1", if start.scheme == UNIX then 0 else DEFAULT_PORT, "", "", 0)
    ensures r == match SplitRest(start.scheme, rest)
                 case None => Err(InvalidArgument)
                 case Some(p) => Assemble(p)
  {
    hide ApplyAll, Pairs, IndexFrom, SplitHost, HostPort, SplitUser, QueryOf;
    var config, remaining := start, rest;
    var queryPos := IndexFrom(remaining, '?', 0);
    if queryPos < |remaining| {
      QueryErrors(rest[queryPos + 1..]);
      var info :- ParseQueryParams(remaining[queryPos + 1..]);
      config := config.(index := info.index);
      if info.username != "" {
        config := config.(username := info.username);
      }
      if info.password != "" {
        config := config.(password := info.password);
      }
      remaining := remaining[..queryPos];
    }

    if config.scheme == UNIX {
      if remaining == "" || remaining[0] != '/' {
        return Err(InvalidArgument);
      }
      return Ok(config.(host := remaining));
    }

    remaining, config := ReadUser(remaining, config);
    r := ReadHost(remaining, config);
  }

  /** User and password, up to the first '@'. */
  method ReadUser(front: string, config: Config) returns (remaining: string, r: Config)
    ensures match SplitAt(front, '@')
            case (host, None) => remaining == host && r == config
            case (user, Some(host)) => remaining == host && r == WithUser(config, SplitUser(user))
  {
    remaining, r := front, config;
    var atPos := IndexFrom(remaining, '@', 0);
    if atPos < |remaining| {
      var userPass := remaining[..atPos];
      remaining := remaining[atPos + 1..];
      var colon := IndexFrom(userPass, ':', 0);
      if colon < |userPass| {
        r := r.(username := userPass[..colon], password := userPass[colon + 1..]);
      } else {
        r := r.(username := userPass);
      }
    }
  }

  function WithUser(config: Config, user: User): Config {
    match user.pass
    case None => config.(username := user.name)
    case Some(pass) => config.(username := user.name, password := pass)
  }

  /** Host and port, in brackets or not. */
  method ReadHost(remaining: string, config: Config) returns (r: Result<Config>)
    requires config.port == DEFAULT_PORT
    ensures match SplitHost(remaining)
            case None => r == Err(InvalidArgument)
            case Some(host) =>
              match HostPort(host)
              case Err(e) => r == Err(e)
              case Ok(port) => r == Ok(config.(host := host.host, port := port))
  {
    hide Stoul, IndexFrom;
    if remaining == "" {
      return Err(InvalidArgument);
    }
    if remaining[0] == '[' {
      var end := IndexFrom(remaining, ']', 0);
      BracketPosition(remaining);
      if end == |remaining| {
        return Err(InvalidArgument);
      }
      r := Ok(config.(host := remaining[1..end]));
      if |remaining| > end + 1 && remaining[end + 1] == ':' {
        assert remaining[end + 1..][1..] == remaining[end + 2..];
        var port :- PortOf(remaining[end + 2..]);
        r := Ok(config.(host := remaining[1..end], port := port));
      }
    } else {
      var colon := IndexFrom(remaining, ':', 0);
      if colon < |remaining| {
        var port :- PortOf(remaining[colon + 1..]);
        r := Ok(config.(host := remaining[..colon], port := port));
      } else {
        r := Ok(config.(host := remaining));
      }
    }
  }

  /** Searching the whole text or the text after the opening bracket finds the same ']'. */
  lemma BracketPosition(text: string)
    requires text != "" && text[0] == '['
    ensures var e := IndexFrom(text, ']', 0);
            match SplitAt(text[1..], ']')
            case (_, None) => e == |text|
            case (host, Some(tail)) => 0 < e < |text| && host == text[1..e] && tail == text[e + 1..]
  {
    var e := IndexFrom(text, ']', 0);
    assert e > 0;
    var inner := text[1..];
    IndexFromIs(inner, ']', 0, e - 1);
  }
}
