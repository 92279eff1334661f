/** What the URL parser of Urls guarantees: URLs and well-formed parts correspond one to
    one, and a configuration survives being written as a URL and read back. */
module UrlRoundTrip {
  import opened Results
  import opened Decimal
  import opened UrlQuery
  import opened Urls

  // ---------- parts as text ----------

  function HostText(h: Host): string {
    match h
    case Bracketed(host, tail) => "[" + JoinAt(host, ']', Some(tail))
    case Plain(host, port) => JoinAt(host, ':', port)
  }

  function UserText(u: User): string {
    JoinAt(u.name, ':', u.pass)
  }

  function FrontText(user: Option<User>, host: Host): string {
    match user
    case None => HostText(host)
    case Some(u) => JoinAt(UserText(u), '@', Some(HostText(host)))
  }

  function UrlText(p: Parts): string {
    match p
    case Local(path, query) => SchemeText(UNIX) + JoinAt(path, '?', query)
    case Inet(scheme, user, host, query) => SchemeText(scheme) + JoinAt(FrontText(user, host), '?', query)
  }

  // ---------- the side conditions on delimiters ----------

  predicate WellFormedHost(h: Host) {
    match h
    case Bracketed(host, _) => ']' !in host
    case Plain(host, _) => ':' !in host && HostText(h) != "" && HostText(h)[0] != '['
  }

  predicate WellFormedFront(user: Option<User>, host: Host) {
    && WellFormedHost(host)
    && match user
       case None => '@' !in HostText(host)
       case Some(u) => '@' !in UserText(u) && ':' !in u.name
  }

  /** A password may contain ':', a bracketed host too, a host may contain '@' when
      credentials precede it, and a query may contain anything. */
  predicate WellFormed(p: Parts) {
    match p
    case Local(path, _) => path != "" && path[0] == '/' && '?' !in path
    case Inet(scheme, user, host, _) =>
      scheme != UNIX && WellFormedFront(user, host) && '?' !in FrontText(user, host)
  }

  // ---------- one-to-one ----------

  lemma SchemeOfText(scheme: Scheme, rest: string)
    ensures SchemeOf(SchemeText(scheme) + rest) == Some((scheme, rest))
  {
    var url := SchemeText(scheme) + rest;
    assert url[0] == SchemeText(scheme)[0];
    assert url[|SchemeText(scheme)|..] == rest;
  }

  lemma TextOfScheme(url: string)
    ensures SchemeOf(url).Some? ==> url == SchemeText(SchemeOf(url).value.0) + SchemeOf(url).value.1
  {
  }

  lemma HostOfText(h: Host)
    ensures SplitHost(HostText(h)) == Some(h) <==> WellFormedHost(h)
  {
    match h {
      case Bracketed(host, tail) =>
        assert HostText(h)[1..] == JoinAt(host, ']', Some(tail));
        SplitOfJoin(host, ']', Some(tail));
      case Plain(host, port) =>
        SplitOfJoin(host, ':', port);
    }
  }

  lemma TextOfHost(text: string)
    ensures SplitHost(text).Some? ==>
              HostText(SplitHost(text).value) == text && WellFormedHost(SplitHost(text).value)
  {
    if text != "" && text[0] == '[' {
      JoinOfSplit(text[1..], ']');
      assert text == "[" + text[1..];
    } else {
      JoinOfSplit(text, ':');
    }
  }

  lemma FrontOfText(user: Option<User>, host: Host)
    requires WellFormedFront(user, host)
    ensures SplitFront(FrontText(user, host)) == (user, Some(host))
  {
    HostOfText(host);
    match user {
      case None =>
        SplitOfJoin(HostText(host), '@', None);
      case Some(u) =>
        SplitOfJoin(UserText(u), '@', Some(HostText(host)));
        SplitOfJoin(u.name, ':', u.pass);
    }
  }

  lemma TextOfFront(front: string)
    ensures var (user, host) := SplitFront(front);
            host.Some? ==> FrontText(user, host.value) == front && WellFormedFront(user, host.value)
  {
    JoinOfSplit(front, '@');
    match SplitAt(front, '@') {
      case (host, None) =>
        TextOfHost(host);
      case (user, Some(host)) =>
        TextOfHost(host);
        JoinOfSplit(user, ':');
    }
  }

  /** Every URL the parser can take apart is the text of exactly the parts it finds, and
      those parts are well formed. */
  lemma TextOfSplit(url: string)
    ensures Split(url).Some? ==> UrlText(Split(url).value) == url && WellFormed(Split(url).value)
  {
    hide SplitHost, SplitAt, JoinAt, WellFormedFront, SplitFront, FrontText;
    TextOfScheme(url);
    if SchemeOf(url).Some? {
      var (scheme, rest) := SchemeOf(url).value;
      JoinOfSplit(rest, '?');
      TextOfFront(SplitAt(rest, '?').0);
    }
  }

  /** The text of parts is taken apart into the same parts if and only if the delimiters
      are where the side conditions want them. */
  lemma SplitOfText(p: Parts)
    ensures Split(UrlText(p)) == Some(p) <==> WellFormed(p)
  {
    hide SplitHost, SplitAt, JoinAt, WellFormedFront, SplitFront, FrontText, SchemeOf;
    TextOfSplit(UrlText(p));
    if WellFormed(p) {
      match p {
        case Local(path, query) =>
          SchemeOfText(UNIX, JoinAt(path, '?', query));
          SplitOfJoin(path, '?', query);
        case Inet(scheme, user, host, query) =>
          SchemeOfText(scheme, JoinAt(FrontText(user, host), '?', query));
          SplitOfJoin(FrontText(user, host), '?', query);
          FrontOfText(user, host);
      }
    }
  }

  // ---------- configurations as URLs ----------

  function CanonicalHost(c: Config): Host {
    if ':' in c.host then Bracketed(c.host, ":" + Print(c.port)) else Plain(c.host, Some(Print(c.port)))
  }

  function CanonicalUser(c: Config): Option<User> {
    if c.username == "" && c.password == "" then None
    else if c.password == "" then Some(User(c.username, None))
    else Some(User(c.username, Some(c.password)))
  }

  function LocalQuery(c: Config): string {
    "username=" + c.username + "&" + ("password=" + c.password + "&" + ("index=" + Print(c.index)))
  }

  /** TCP: credentials, host, port and index in their usual places. Unix: the path is the
      host, and the credentials go into the query. */
  function CanonicalParts(c: Config): Parts {
    if c.scheme == UNIX then Local(c.host, Some(LocalQuery(c)))
    else Inet(c.scheme, CanonicalUser(c), CanonicalHost(c), Some("index=" + Print(c.index)))
  }

  lemma PrintedPort(port: UInt16)
    ensures PortOf(Print(port)) == Ok(port)
  {
    ValueOfPrintNat(port);
    StoulOfDigits(Print(port));
  }

  lemma PrintedIndex(index: UInt32)
    ensures ValidIndex(Print(index)) && Value(Print(index)) == index && '&' !in Print(index)
  {
    ValueOfPrintNat(index);
    var s := PrintNat(index);
    forall i | 0 <= i < |s|
      ensures s[i] != '&'
    {
      assert IsDigit(s[i]);
    }
  }

  /** A single parameter followed by nothing or by further parameters. */
  lemma PairsOfParameter(key: string, value: string, rest: Option<string>)
    requires |key| > 0 && (forall i :: 0 <= i < |key| ==> KeyChar(key[i])) && '&' !in value
    ensures Pairs(JoinAt(key + "=" + value, '&', rest)) ==
            [(key, value)] + if rest.None? then [] else Pairs(rest.value)
  {
    hide Pairs;
    var q := JoinAt(key + "=" + value, '&', rest);
    var j, k := |key|, |key| + 1 + |value|;
    assert forall x :: j + 1 <= x < k ==> q[x] == value[x - j - 1];
    assert Matches(q, 0, j, k);
    PairsTakeMatch(q, j, k);
    assert q[..j] == key && q[j + 1..k] == value;
    if rest.Some? {
      PairsSkipSeparator(q[k..]);
      assert q[k..][1..] == rest.value;
    } else {
      assert q[k..] == "";
      NoPairs();
    }
  }

  lemma IndexQuery(index: UInt32)
    ensures QueryOf("index=" + Print(index)) == Ok(NO_INFO.(index := index))
  {
    PrintedIndex(index);
    var value := Print(index);
    PairsOfParameter("index", value, None);
    assert "index" + "=" + value == "index=" + value;
    var ps := [("index", value)];
    assert ps[..0] == [];
    IndexRead(NO_INFO, value);
    NothingApplied();
  }

  /** A TCP configuration whose text keeps its delimiters in place, with any port the type
      can hold, is read back unchanged from its URL. */
  lemma InetRoundTrip(c: Config)
    requires c.scheme != UNIX && WellFormed(CanonicalParts(c))
    ensures ParseUrl(UrlText(CanonicalParts(c))) == Ok(c)
  {
    hide QueryOf, PortOf, WellFormed, UrlText;
    SplitOfText(CanonicalParts(c));
    IndexQuery(c.index);
    PrintedPort(c.port);
    assert (":" + Print(c.port))[1..] == Print(c.port);
  }

  /** Host text inside a longer text keeps its characters. */
  lemma HostCharsInFront(user: Option<User>, host: Host, x: char)
    requires x !in FrontText(user, host)
    ensures x !in host.host
  {
    var front := FrontText(user, host);
    var shift := match user case None => 0 case Some(u) => |UserText(u)| + 1;
    assert front[shift..] == HostText(host);
    forall i | 0 <= i < |host.host|
      ensures host.host[i] != x
    {
      var at := if host.Bracketed? then i + 1 else i;
      assert HostText(host)[at] == host.host[i] && front[shift + at] == HostText(host)[at];
    }
  }

  lemma PrintedDigits(n: nat, x: char)
    requires !IsDigit(x)
    ensures x !in Print(n)
  {
    var s := PrintNat(n);
    forall i | 0 <= i < |s|
      ensures s[i] != x
    {
      assert IsDigit(s[i]);
    }
  }

  /** A host read from the text of the canonical host is placed where the side conditions
      want it. */
  lemma CanonicalHostExact(c: Config, h: Host)
    requires WellFormedHost(h) && h.host == c.host && HostText(h) == HostText(CanonicalHost(c))
    ensures WellFormedHost(CanonicalHost(c))
  {
    var n := |c.host|;
    var text, canonical := HostText(h), HostText(CanonicalHost(c));
    assert h.Bracketed? ==> text[0] == '[' && (n > 0 ==> text[n] == c.host[n - 1]);
    assert ':' !in c.host ==> canonical[n] == ':';
  }

  /** No canonical host text is a '@' in front of a text with the same host. */
  lemma NoShiftedHost(c: Config, lead: string, h: Host)
    requires lead == "@" || lead == ":@"
    requires WellFormedHost(h) && h.host == c.host
    ensures lead + HostText(h) != HostText(CanonicalHost(c))
  {
    var n := |c.host|;
    var text := HostText(CanonicalHost(c));
    var shifted := lead + HostText(h);
    assert ':' in c.host ==> text[0] == '[';
    assert ':' !in c.host ==> text[..n] == c.host && text[n] == ':' && text[n + 1] == Print(c.port)[0];
    assert lead == ":@" ==> shifted[0] == ':' && shifted[1] == '@';
    assert lead == "@" && h.Plain? && n > 0 ==> shifted[n] == c.host[n - 1];
    assert lead == "@" && h.Bracketed? && n == 1 ==> shifted[1] == '[';
    assert lead == "@" && h.Bracketed? && n > 1 ==> shifted[n] == c.host[n - 2];
    assert n > 0 && ':' !in c.host ==> text[0] == c.host[0] && c.host[0] in c.host;
    assert IsDigit(PrintNat(c.port)[0]);
  }

  lemma SameLead(a: string, x: char, b: string, y: char, left: string, right: string)
    requires |a| == |b| && a + [x] + left == b + [y] + right
    ensures a == b && x == y && left == right
  {
    var s := a + [x] + left;
    assert s[..|a|] == a && s[|a|] == x && s[|a| + 1..] == left;
    var t := b + [y] + right;
    assert t[..|b|] == b && t[|b|] == y && t[|b| + 1..] == right;
  }

  /** Credentials and host that read back as `c` from the canonical text of `c` leave that
      text well formed. */
  lemma CanonicalFrontExact(c: Config, user: Option<User>, host: Host)
    requires WellFormedFront(user, host) && host.host == c.host
    requires c.username == (if user.Some? then user.value.name else "")
    requires c.password == (if user.Some? && user.value.pass.Some? then user.value.pass.value else "")
    requires FrontText(user, host) == FrontText(CanonicalUser(c), CanonicalHost(c))
    ensures WellFormedFront(CanonicalUser(c), CanonicalHost(c))
  {
    hide WellFormedHost, HostText;
    if user.None? {
      CanonicalHostExact(c, host);
    } else {
      var u := user.value;
      var text := HostText(host);
      if c.username == "" && c.password == "" {
        assert FrontText(user, host) == (if u.pass.None? then "@" else ":@") + text;
        NoShiftedHost(c, if u.pass.None? then "@" else ":@", host);
      } else {
        var other := HostText(CanonicalHost(c));
        if u.pass == Some("") {
          assert FrontText(user, host) == u.name + [':'] + ("@" + text);
          assert FrontText(CanonicalUser(c), CanonicalHost(c)) == u.name + ['@'] + other;
          SameLead(u.name, ':', u.name, '@', "@" + text, other);
        } else {
          SameLead(UserText(u), '@', UserText(u), '@', text, other);
          CanonicalHostExact(c, host);
        }
      }
    }
  }

  lemma FrontWithout(c: Config)
    requires '?' !in c.username && '?' !in c.password && '?' !in c.host
    ensures '?' !in FrontText(CanonicalUser(c), CanonicalHost(c))
  {
    PrintedDigits(c.port, '?');
  }

  lemma LocalPairs(c: Config)
    requires '&' !in c.username && '&' !in c.password
    ensures Pairs(LocalQuery(c)) == [("username", c.username), ("password", c.password), ("index", Print(c.index))]
  {
    hide Pairs;
    PrintedIndex(c.index);
    var q3 := "index=" + Print(c.index);
    var q2 := "password=" + c.password + "&" + q3;
    assert q3 == JoinAt("index" + "=" + Print(c.index), '&', None);
    PairsOfParameter("index", Print(c.index), None);
    assert q2 == JoinAt("password" + "=" + c.password, '&', Some(q3));
    PairsOfParameter("password", c.password, Some(q3));
    assert LocalQuery(c) == JoinAt("username" + "=" + c.username, '&', Some(q2));
    PairsOfParameter("username", c.username, Some(q2));
  }

  lemma LocalInfo(c: Config)
    requires '&' !in c.username && '&' !in c.password
    ensures QueryOf(LocalQuery(c)) == Ok(QueryInfo(c.username, c.password, c.index))
  {
    hide Pairs, FromChars, LocalQuery;
    LocalPairs(c);
    PrintedIndex(c.index);
    KeysDiffer();
    var ps := [("username", c.username), ("password", c.password), ("index", Print(c.index))];
    assert ps[..2] == [("username", c.username), ("password", c.password)];
    assert ps[..2][..1] == [("username", c.username)];
    assert ps[..2][..1][..0] == [];
    assert ApplyAll(ps[..2][..1]) == Ok(QueryInfo(c.username, "", 0));
    assert ApplyAll(ps[..2]) == Ok(QueryInfo(c.username, c.password, 0));
    IndexRead(QueryInfo(c.username, c.password, 0), Print(c.index));
  }

  lemma {:induction false} LastValueClean(pairs: seq<(string, string)>, keys: set<string>)
    requires forall i :: 0 <= i < |pairs| ==> '&' !in pairs[i].1
    ensures '&' !in LastValue(pairs, keys, "")
  {
    if pairs != [] && pairs[|pairs| - 1].0 !in keys {
      LastValueClean(pairs[..|pairs| - 1], keys);
    }
  }

  /** Credentials read from a query never contain a separator. */
  lemma InfoClean(query: string)
    requires QueryOf(query).Ok?
    ensures '&' !in QueryOf(query).value.username && '&' !in QueryOf(query).value.password
  {
    ScanIsSplit(query, 0);
    ScanPairsClean(query, 0);
    assert query[0..] == query;
    QueryMeaning(Pairs(query));
    LastValueClean(Pairs(query), {"username"});
    LastValueClean(Pairs(query), {"password", "auth"});
  }

  // ---------- TCP configurations, exactly ----------

  /** How often 'a' occurs. Every name of a credential parameter has one, and no other part
      of a canonical URL after its host does. */
  function Marks(s: string): nat {
    multiset(s)['a']
  }

  lemma MarksOfJoin(s: string, t: string)
    ensures Marks(s + t) == Marks(s) + Marks(t)
  {
  }

  lemma NoMarks(s: string)
    requires 'a' !in s
    ensures Marks(s) == 0
  {
  }

  lemma HostMarks(h: Host)
    ensures Marks(HostText(h)) >= Marks(h.host)
  {
    match h {
      case Bracketed(host, tail) =>
        MarksOfJoin("[", JoinAt(host, ']', Some(tail)));
        MarksOfJoin(host + "]", tail);
        MarksOfJoin(host, "]");
      case Plain(host, Some(port)) =>
        MarksOfJoin(host + ":", port);
        MarksOfJoin(host, ":");
      case Plain(_, None) =>
    }
  }

  /** Text without 'a' around a host adds no marks. */
  lemma MarksInside(left: string, s: string, right: string)
    requires 'a' !in left && 'a' !in right
    ensures Marks(left + s + right) == Marks(s)
  {
    MarksOfJoin(left + s, right);
    MarksOfJoin(left, s);
    NoMarks(left);
    NoMarks(right);
  }

  lemma CanonicalHostMarks(c: Config)
    ensures Marks(HostText(CanonicalHost(c))) == Marks(c.host)
  {
    hide Marks, Print;
    var port := Print(c.port);
    PrintedDigits(c.port, 'a');
    if ':' in c.host {
      assert "[" + (c.host + [']'] + (":" + port)) == "[" + c.host + ("]:" + port);
      MarksInside("[", c.host, "]:" + port);
    } else {
      assert c.host + [':'] + port == "" + c.host + (":" + port);
      MarksInside("", c.host, ":" + port);
    }
  }

  lemma MarkAt(s: string, i: nat)
    requires i < |s| && s[i] == 'a'
    ensures Marks(s) >= 1
  {
  }

  lemma KeyMarks()
    ensures Marks("username") >= 1 && Marks("password") >= 1 && Marks("auth") >= 1
  {
    hide Marks;
    MarkAt("username", 5);
    MarkAt("password", 1);
    MarkAt("auth", 0);
  }

  /** A query of one segment sets one thing. */
  lemma SinglePair(query: string)
    requires '&' !in query && QueryOf(query).Ok?
    ensures var info := QueryOf(query).value;
            info.username != "" || info.password != "" ==>
              && info.index == 0
              && (info.username == "" || info.password == "")
              && Marks(query) >= 1 + Marks(info.username) + Marks(info.password)
  {
    hide Pairs, SegmentPair, ApplyOne, Marks;
    PairsBySegment(query, |query|);
    assert query[..|query|] == query;
    SegmentText(query);
    var pairs := SegmentPair(query);
    assert pairs == Pairs(query);
    NothingApplied();
    NoMarks("");
    if pairs != [] {
      assert pairs == [pairs[0]] && pairs[..0] == [];
      var (key, value) := pairs[0];
      OnePairRead(key, value);
      SegmentMarks(query, key, value);
    }
  }

  lemma OnePairRead(key: string, value: string)
    requires ApplyOne(NO_INFO, key, value).Ok?
    ensures var info := ApplyOne(NO_INFO, key, value).value;
            info.username != "" || info.password != "" ==>
              && Marks(key) >= 1 && info.index == 0
              && (info == NO_INFO.(username := value) || info == NO_INFO.(password := value))
  {
    hide FromChars, Marks;
    KeyMarks();
    KeysDiffer();
  }

  /** A segment that is a pair is leading '=' signs, the key, '=' and the value. */
  lemma SegmentText(segment: string)
    ensures |SegmentPair(segment)| <= 1
    ensures SegmentPair(segment) != [] ==>
              exists lead :: segment == lead + (SegmentPair(segment)[0].0 + "=" + SegmentPair(segment)[0].1)
  {
    hide DropEquals, IndexFrom;
    var t := DropEquals(segment);
    DropEqualsKeepsTail(segment);
    var lead := segment[..|segment| - |t|];
    var e := IndexFrom(t, '=', 0);
    if e < |t| {
      assert t == t[..e] + "=" + t[e + 1..];
      assert segment == lead + t;
    }
  }

  lemma {:induction false} DropEqualsKeepsTail(s: string)
    ensures var t := DropEquals(s); |t| <= |s| && t == s[|s| - |t|..]
  {
    if |s| > 0 && s[0] == '=' {
      DropEqualsKeepsTail(s[1..]);
    }
  }

  lemma SegmentMarks(segment: string, key: string, value: string)
    requires exists lead :: segment == lead + (key + "=" + value)
    ensures Marks(segment) >= Marks(key) + Marks(value)
  {
    var lead :| segment == lead + (key + "=" + value);
    MarksOfJoin(lead, key + "=" + value);
    MarksOfJoin(key + "=", value);
    MarksOfJoin(key, "=");
  }

  /** The first '?' of a text lies where the text before it ends. */
  lemma FirstMarkInside(front: string, rest: string, user: string, more: string)
    requires front + "?" + rest == user + more && '?' !in front && '?' in user
    ensures |front| < |user| && front == user[..|front|]
  {
    var text := front + "?" + rest;
    var k :| 0 <= k < |user| && user[k] == '?';
    assert text[k] == '?';
    forall i | 0 <= i < |front|
      ensures text[i] != '?'
    {
      assert text[i] == front[i];
    }
    assert text[..|front|] == front && text[..|user|] == user;
  }

  lemma JoinLacks(s: string, t: string, x: char)
    requires x !in s && x !in t
    ensures x !in s + t
  {
  }

  lemma SliceLacks(s: string, i: nat, j: nat, x: char)
    requires i <= j <= |s| && x !in s
    ensures x !in s[i..j]
  {
  }

  lemma UserLacks(c: Config, x: char)
    requires CanonicalUser(c).Some? && x !in c.username && x !in c.password && x != ':'
    ensures x !in UserText(CanonicalUser(c).value)
  {
  }

  lemma CanonicalHostLacks(c: Config, x: char)
    requires x !in c.host && x !in "[]:" && !IsDigit(x)
    ensures x !in HostText(CanonicalHost(c))
  {
    hide Print;
    PrintedDigits(c.port, x);
    assert "[]:"[0] == '[' && "[]:"[1] == ']' && "[]:"[2] == ':';
    var tail := ":" + Print(c.port);
    assert x !in tail;
    assert x !in "[" && x !in [']'] && x !in [':'];
  }

  /** If both credentials come from a query that starts inside their own text, nothing after
      the host can separate parameters. */
  lemma QueryHasNoSeparator(c: Config, host: Host, user: string, query: string)
    requires CanonicalUser(c).Some? && user == UserText(CanonicalUser(c).value)
    requires '&' !in c.username && '&' !in c.password && host.host == c.host
    requires |HostText(host)| < |user| && HostText(host) == user[..|HostText(host)|]
    requires HostText(host) + "?" + query == user + "@" + HostText(CanonicalHost(c)) + "?index=" + Print(c.index)
    ensures '&' !in query
  {
    hide HostText, UserText, CanonicalHost, CanonicalUser, Print;
    var front, other, end := HostText(host), HostText(CanonicalHost(c)), "?index=" + Print(c.index);
    UserLacks(c, '&');
    SliceLacks(user, 0, |front|, '&');
    assert user[0..|front|] == front;
    HostCharsInFront(None, host, '&');
    CanonicalHostLacks(c, '&');
    PrintedDigits(c.index, '&');
    assert '&' !in "@" && '&' !in "?index=";
    JoinLacks("?index=", Print(c.index), '&');
    JoinLacks(other, end, '&');
    JoinLacks("@", other + end, '&');
    JoinLacks(user, "@" + (other + end), '&');
    var text := user + ("@" + (other + end));
    assert text == front + "?" + query;
    assert text[|front| + 1..|text|] == query;
    SliceLacks(text, |front| + 1, |text|, '&');
  }

  /** Credentials that a query supplies from inside their own text would have to contain the
      name of their parameter on top of themselves. */
  lemma CredentialsNotFromThemselves(c: Config, host: Host, query: string)
    requires CanonicalUser(c).Some?
    requires '?' in c.username || '?' in c.password
    requires '?' !in HostText(host) && host.host == c.host
    requires QueryOf(query) == Ok(QueryInfo(c.username, c.password, c.index))
    ensures HostText(host) + "?" + query
         != UserText(CanonicalUser(c).value) + "@" + HostText(CanonicalHost(c)) + "?index=" + Print(c.index)
  {
    hide QueryOf, HostText, UserText, CanonicalHost, CanonicalUser, Marks;
    var user, text := UserText(CanonicalUser(c).value), HostText(CanonicalHost(c));
    var end := "?index=" + Print(c.index);
    if HostText(host) + "?" + query == user + "@" + text + end {
      assert user + "@" + text + end == user + ("@" + (text + end));
      UserHolds(c, '?');
      FirstMarkInside(HostText(host), query, user, "@" + (text + end));
      InfoClean(query);
      QueryHasNoSeparator(c, host, user, query);
      SinglePair(query);
      HostMarks(host);
      CanonicalHostMarks(c);
      UserMarks(c);
      EndMarks();
      MarksOfJoin(HostText(host) + "?", query);
      MarksOfJoin(HostText(host), "?");
      MarksOfJoin(user, "@" + (text + end));
      MarksOfJoin("@", text + end);
      MarksOfJoin(text, end);
    }
  }

  lemma EndMarks()
    ensures Marks("?index=" + Print(0)) == 0 && Marks("@") == 0
  {
    hide Marks;
    assert Print(0) == "0";
    assert "?index=" + "0" == "?index=0";
    NoMarks("?index=0");
    NoMarks("@");
  }

  lemma UserHolds(c: Config, x: char)
    requires x in c.username || x in c.password
    ensures CanonicalUser(c).Some? && x in UserText(CanonicalUser(c).value)
  {
    var text := UserText(CanonicalUser(c).value);
    if x in c.username {
      var i :| 0 <= i < |c.username| && c.username[i] == x;
      assert text[i] == x;
    } else {
      var i :| 0 <= i < |c.password| && c.password[i] == x;
      assert text[|c.username| + 1 + i] == x;
    }
  }

  lemma UserMarks(c: Config)
    requires c.username != "" || c.password != ""
    ensures Marks(UserText(CanonicalUser(c).value)) == Marks(c.username) + Marks(c.password)
  {
    MarksOfJoin(c.username + ":", c.password);
    MarksOfJoin(c.username, ":");
  }

  /** A text before the first '?' of credentials that has an '@' cannot give them both. */
  lemma CredentialsCutShort(c: Config, u: User, rest: string)
    requires CanonicalUser(c).Some?
    requires '?' in c.username || '?' in c.password
    requires u.name == c.username && (u.pass.Some? ==> u.pass.value == c.password)
    requires '?' !in u.name && (u.pass.Some? ==> '?' !in u.pass.value)
    ensures !(UserText(u) + "@" + rest <= UserText(CanonicalUser(c).value))
  {
    var front, user := UserText(u) + "@" + rest, UserText(CanonicalUser(c).value);
    assert front[|c.username|] == '@' && user[|c.username|] == ':';
  }

  /** What follows a front without '?' in a text with a '?' is a query. */
  lemma QueryFollows(front: string, query: Option<string>, before: string, after: string)
    requires '?' !in front && JoinAt(front, '?', query) == before + "?" + after
    ensures query.Some? && front + "?" + query.value == before + "?" + after
  {
    assert (before + "?" + after)[|before|] == '?';
  }

  lemma UserCharsInFront(u: User, host: Host, x: char)
    requires x !in FrontText(Some(u), host)
    ensures x !in u.name && (u.pass.Some? ==> x !in u.pass.value)
  {
    var front := FrontText(Some(u), host);
    assert front[..|u.name|] == u.name;
    assert u.pass.Some? ==> front[|u.name| + 1..][..|u.pass.value|] == u.pass.value;
  }

  /** Parts that give back the credentials of `c`, one of them with '?', are not the parts
      of the canonical text of `c`. */
  lemma FrontNotCanonical(c: Config, user: Option<User>, host: Host, query: string)
    requires CanonicalUser(c).Some?
    requires '?' in c.username || '?' in c.password
    requires '?' !in FrontText(user, host) && host.host == c.host && QueryOf(query).Ok?
    requires c.username == (if user.Some? then user.value.name else QueryOf(query).value.username)
    requires c.password == (if user.Some? && user.value.pass.Some? then user.value.pass.value
                            else QueryOf(query).value.password)
    requires c.index == QueryOf(query).value.index
    ensures FrontText(user, host) + "?" + query
         != UserText(CanonicalUser(c).value) + "@" + HostText(CanonicalHost(c)) + "?index=" + Print(c.index)
  {
    hide QueryOf, HostText, UserText, CanonicalHost, CanonicalUser;
    if user.None? {
      CredentialsNotFromThemselves(c, host, query);
    } else {
      var front, text := FrontText(user, host), UserText(CanonicalUser(c).value);
      var more := "@" + (HostText(CanonicalHost(c)) + ("?index=" + Print(c.index)));
      if front + "?" + query == text + more {
        UserHolds(c, '?');
        FirstMarkInside(front, query, text, more);
        UserCharsInFront(user.value, host, '?');
        CredentialsCutShort(c, user.value, HostText(host));
      }
      assert text + more == text + "@" + HostText(CanonicalHost(c)) + "?index=" + Print(c.index);
    }
  }

  /** With '?' in a credential, the URL of a TCP configuration reads back as another one. */
  lemma QuestionMarkBreaks(c: Config)
    requires c.scheme != UNIX && ('?' in c.username || '?' in c.password)
    ensures ParseUrl(UrlText(CanonicalParts(c))) != Ok(c)
  {
    hide QueryOf, HostPort, HostText, UserText, CanonicalHost, CanonicalUser, WellFormedFront, FrontText, Split;
    var url := UrlText(CanonicalParts(c));
    var end := "index=" + Print(c.index);
    UserHolds(c, '?');
    if ParseUrl(url) == Ok(c) {
      TextOfSplit(url);
      var canonical := FrontText(CanonicalUser(c), CanonicalHost(c));
      SchemeOfText(c.scheme, JoinAt(canonical, '?', Some(end)));
      match Split(url).value {
        case Inet(scheme, user, host, query) =>
          var front := FrontText(user, host);
          SchemeOfText(scheme, JoinAt(front, '?', query));
          QueryFollows(front, query, canonical, end);
          FrontNotCanonical(c, user, host, query.value);
          CanonicalText(c);
        case Local(path, query) =>
          SchemeOfText(UNIX, JoinAt(path, '?', query));
      }
    }
  }

  lemma CanonicalText(c: Config)
    requires CanonicalUser(c).Some?
    ensures FrontText(CanonicalUser(c), CanonicalHost(c)) + "?" + ("index=" + Print(c.index))
         == UserText(CanonicalUser(c).value) + "@" + HostText(CanonicalHost(c)) + "?index=" + Print(c.index)
  {
    hide HostText, UserText, CanonicalHost, CanonicalUser;
  }

  /** A TCP configuration survives its URL if and only if its delimiters are in place. */
  lemma InetRoundTripIff(c: Config)
    requires c.scheme != UNIX
    ensures ParseUrl(UrlText(CanonicalParts(c))) == Ok(c) <==> WellFormed(CanonicalParts(c))
  {
    hide QueryOf, PortOf, WellFormedFront, FrontText, SplitAt, SplitFront;
    var url := UrlText(CanonicalParts(c));
    var front, query := FrontText(CanonicalUser(c), CanonicalHost(c)), "index=" + Print(c.index);
    if WellFormed(CanonicalParts(c)) {
      InetRoundTrip(c);
    } else if '?' in c.username || '?' in c.password {
      QuestionMarkBreaks(c);
    } else if ParseUrl(url) == Ok(c) {
      TextOfSplit(url);
      SchemeOfText(c.scheme, JoinAt(front, '?', Some(query)));
      match Split(url).value {
        case Inet(scheme, user, host, q) =>
          HostCharsInFront(user, host, '?');
          FrontWithout(c);
          SplitOfJoin(front, '?', Some(query));
          TextOfFront(front);
          IndexQuery(c.index);
          CanonicalFrontExact(c, user, host);
        case Local(_, _) =>
      }
    }
  }

  // ---------- every well-formed URL, field by field ----------

  predicate NamesPort(host: Host, text: string) {
    if host.Bracketed? then host.tail == ":" + text else host.port == Some(text)
  }

  predicate NamesNoPort(host: Host) {
    if host.Bracketed? then host.tail == "" || host.tail[0] != ':' else host.port.None?
  }

  lemma PortNamedOrNot(host: Host)
    ensures NamesNoPort(host) || exists text :: NamesPort(host, text)
  {
    match host {
      case Bracketed(_, tail) =>
        if tail != "" && tail[0] == ':' {
          assert tail == ":" + tail[1..];
          assert NamesPort(host, tail[1..]);
        }
      case Plain(_, Some(text)) =>
        assert NamesPort(host, text);
      case Plain(_, None) =>
    }
  }

  /** What a query contributes; no query contributes nothing. */
  predicate Contributes(query: Option<string>, info: QueryInfo) {
    if query.None? then info == QueryInfo("", "", 0) else QueryOf(query.value) == Ok(info)
  }

  /** The fields of a configuration read from TCP parts: user name and password from before
      the '@' where they are given and from the query otherwise, with or without a query. */
  predicate ReadsAs(user: Option<User>, host: Host, info: QueryInfo, c: Config) {
    && c.host == host.host
    && c.index == info.index
    && (user.None? ==> c.username == info.username && c.password == info.password)
    && (user.Some? ==>
          && c.username == user.value.name
          && c.password == if user.value.pass.Some? then user.value.pass.value else info.password)
  }

  /** Every well-formed TCP URL, whichever of credentials, port and query it has: a bad query
      is reported first and a bad port after it; otherwise each field is where the URL says. */
  lemma InetUrlMeans(scheme: Scheme, user: Option<User>, host: Host, query: Option<string>)
    requires WellFormed(Inet(scheme, user, host, query))
    ensures var r := ParseUrl(UrlText(Inet(scheme, user, host, query)));
            && (query.Some? && QueryOf(query.value).Err? ==> r == Err(InvalidArgument))
            && forall info :: Contributes(query, info) ==>
                 && (NamesNoPort(host) ==>
                       r.Ok? && ReadsAs(user, host, info, r.value) && r.value.port == 6379 && r.value.scheme == scheme)
                 && forall text :: NamesPort(host, text) ==>
                      match Stoul(text)
                      case Err(e) => r == Err(e)
                      case Ok(n) =>
                        && r.Ok? && ReadsAs(user, host, info, r.value) && r.value.scheme == scheme
                        && r.value.port == n % 0x1_0000
  {
    hide WellFormed, UrlText, Stoul, Split, QueryOf;
    SplitOfText(Inet(scheme, user, host, query));
    if query.Some? {
      QueryErrors(query.value);
    }
    forall text | NamesPort(host, text)
      ensures HostPort(host) == PortOf(text)
    {
      assert (":" + text)[1..] == text;
    }
  }

  /** Every well-formed Unix-socket URL: the path is the host, the port is 0, and everything
      else comes from the query, if there is one. */
  lemma LocalUrlMeans(path: string, query: Option<string>)
    requires WellFormed(Local(path, query))
    ensures var r := ParseUrl(UrlText(Local(path, query)));
            && (query.Some? && QueryOf(query.value).Err? ==> r == Err(InvalidArgument))
            && forall info :: Contributes(query, info) ==>
                 r == Ok(Config(UNIX, path, 0, info.username, info.password, info.index))
  {
    hide WellFormed, UrlText, Split, QueryOf;
    SplitOfText(Local(path, query));
    if query.Some? {
      QueryErrors(query.value);
    }
  }

  /** Nothing else is a URL: a text of no well-formed parts is rejected. */
  lemma UrlRejects(url: string)
    requires forall p :: UrlText(p) == url ==> !WellFormed(p)
    ensures ParseUrl(url) == Err(InvalidArgument)
  {
    hide WellFormed, UrlText, Split;
    TextOfSplit(url);
  }

  /** A URL without a query, with the credentials a user may put in front. */
  lemma PlainUrl(c: Config, user: Option<User>)
    requires c.scheme != UNIX && WellFormed(Inet(c.scheme, user, CanonicalHost(c), None))
    ensures ParseUrl(UrlText(Inet(c.scheme, user, CanonicalHost(c), None))) ==
            Ok(Config(c.scheme, c.host, c.port,
                      if user.Some? then user.value.name else "",
                      if user.Some? && user.value.pass.Some? then user.value.pass.value else "",
                      0))
  {
    hide WellFormed, UrlText, ParseUrl, Stoul, Print, Value;
    InetUrlMeans(c.scheme, user, CanonicalHost(c), None);
    assert Contributes(None, QueryInfo("", "", 0));
    assert NamesPort(CanonicalHost(c), Print(c.port));
    PrintedPort(c.port);
  }

  /** Where TCP credentials come from when both places name some: a user name before the
      '@' wins over the query's, a password after its ':' wins over the query's, and what is
      missing there is taken from the query. `d` is what the query says. */
  lemma InetCredentials(c: Config, d: Config, user: Option<User>)
    requires c.scheme != UNIX && '&' !in d.username && '&' !in d.password
    requires WellFormed(Inet(c.scheme, user, CanonicalHost(c), Some(LocalQuery(d))))
    ensures ParseUrl(UrlText(Inet(c.scheme, user, CanonicalHost(c), Some(LocalQuery(d)))))
         == Ok(Config(c.scheme, c.host, c.port,
                      if user.Some? then user.value.name else d.username,
                      if user.Some? && user.value.pass.Some? then user.value.pass.value else d.password,
                      d.index))
  {
    hide QueryOf, PortOf, WellFormed, UrlText, LocalQuery;
    SplitOfText(Inet(c.scheme, user, CanonicalHost(c), Some(LocalQuery(d))));
    LocalInfo(d);
    PrintedPort(c.port);
    assert (":" + Print(c.port))[1..] == Print(c.port);
  }

  /** Without a port the default is used, also when other text follows a bracketed host. */
  lemma DefaultPortApplies(scheme: Scheme, host: Host)
    requires scheme != UNIX && WellFormed(Inet(scheme, None, host, None))
    requires if host.Bracketed? then host.tail == "" || host.tail[0] != ':' else host.port.None?
    ensures ParseUrl(UrlText(Inet(scheme, None, host, None))) == Ok(Config(scheme, host.host, 6379, "", "", 0))
  {
    hide WellFormed, UrlText, Split;
    SplitOfText(Inet(scheme, None, host, None));
  }

  predicate LocalRenderable(c: Config) {
    && c.host != "" && c.host[0] == '/' && '?' !in c.host
    && '&' !in c.username && '&' !in c.password
    && c.port == 0
  }

  /** A Unix-socket configuration survives its URL if and only if the path is absolute and
      free of '?', the credentials are free of '&', and the port is the fixed 0. */
  lemma LocalRoundTripIff(c: Config)
    requires c.scheme == UNIX
    ensures ParseUrl(UrlText(CanonicalParts(c))) == Ok(c) <==> LocalRenderable(c)
  {
    hide QueryOf, LocalQuery, UrlText, Split;
    var url := UrlText(CanonicalParts(c));
    SplitOfText(CanonicalParts(c));
    if LocalRenderable(c) {
      LocalInfo(c);
    } else if ParseUrl(url) == Ok(c) {
      TextOfSplit(url);
      var p := Split(url).value;
      match p {
        case Local(path, Some(query)) => InfoClean(query);
        case _ =>
      }
    }
  }

  lemma UrlWithPort(scheme: Scheme, host: Host, text: string)
    requires scheme != UNIX && WellFormed(Inet(scheme, None, host, None)) && NamesPort(host, text)
    ensures ParseUrl(UrlText(Inet(scheme, None, host, None))) ==
            match PortOf(text)
            case Err(e) => Err(e)
            case Ok(port) => Ok(Config(scheme, host.host, port, "", "", 0))
  {
    hide WellFormed, UrlText, PortOf, Split;
    SplitOfText(Inet(scheme, None, host, None));
    assert (":" + text)[1..] == text;
  }

  function PortNumber(sign: string, digits: string): UInt16
    requires AllDigits(digits)
  {
    (if sign == "-" then 0 - Value(digits) else Value(digits)) % 0x1_0000
  }

  lemma PortSpelled(text: string, space: string, sign: string, digits: string, tail: string)
    requires Spells(text, space, sign, digits, tail)
    ensures PortOf(text) == if Value(digits) > UINT64_MAX then Err(OutOfRange) else Ok(PortNumber(sign, digits))
  {
    hide Value, Stoul, Spells;
    StoulExact(text, space, sign, digits, tail);
  }

  /** The port a URL names: every text `std::stoul` accepts is taken modulo 2^16, a sign
      and anything after the digits included; an overflow of 64 bits is reported, and so is
      every text that is not accepted. */
  lemma PortText(scheme: Scheme, host: Host, text: string)
    requires scheme != UNIX && WellFormed(Inet(scheme, None, host, None)) && NamesPort(host, text)
    ensures var r := ParseUrl(UrlText(Inet(scheme, None, host, None)));
            && (r == Err(InvalidArgument) <==>
                  !exists space, sign, digits, tail :: Spells(text, space, sign, digits, tail))
            && forall space, sign, digits, tail :: Spells(text, space, sign, digits, tail) ==>
                 r == if Value(digits) > UINT64_MAX then Err(OutOfRange)
                      else Ok(Config(scheme, host.host, PortNumber(sign, digits), "", "", 0))
  {
    hide WellFormed, UrlText, Stoul, ParseUrl, Value, PortNumber, NamesPort;
    UrlWithPort(scheme, host, text);
    StoulRejects(text);
    forall space, sign, digits, tail | Spells(text, space, sign, digits, tail)
      ensures PortOf(text) == if Value(digits) > UINT64_MAX then Err(OutOfRange) else Ok(PortNumber(sign, digits))
    {
      PortSpelled(text, space, sign, digits, tail);
    }
  }

  /** Ports are not range checked: a decimal port that fits 64 bits is taken modulo 2^16,
      so it survives exactly when it is at most 65535. */
  lemma PortIsTruncated(scheme: Scheme, host: string, n: UInt64)
    requires scheme != UNIX && WellFormed(Inet(scheme, None, Plain(host, Some(Print(n))), None))
    ensures ParseUrl(UrlText(Inet(scheme, None, Plain(host, Some(Print(n))), None)))
         == Ok(Config(scheme, host, n % 0x1_0000, "", "", 0))
    ensures n % 0x1_0000 == n <==> n <= 0xFFFF
  {
    hide WellFormed, UrlText, Stoul, ParseUrl, PrintNat, Value;
    UrlWithPort(scheme, Plain(host, Some(Print(n))), Print(n));
    ValueOfPrintNat(n);
    StoulOfDigits(Print(n));
  }
}
