/** The query part of a connection URL (`parse_query_params` in src/redis_config.cpp):
    a scan with the regular expression `([^=&]+)=([^&]*)`, and what the scan means. */
module UrlQuery {
  import opened Results
  import opened Decimal

  datatype QueryInfo = QueryInfo(username: string, password: string, index: UInt32)

  // ---------- the regular expression ----------

  predicate KeyChar(c: char) {
    c != '=' && c != '&'
  }

  function KeyEnd(s: string, i: nat): (j: nat)
    requires i <= |s|
    ensures i <= j <= |s|
    ensures forall x :: i <= x < j ==> KeyChar(s[x])
    ensures j < |s| ==> !KeyChar(s[j])
    decreases |s| - i
  {
    if i < |s| && KeyChar(s[i]) then KeyEnd(s, i + 1) else i
  }

  /** The first position of `c` at or after `i`, or the length. */
  function IndexFrom(s: string, c: char, i: nat): (j: nat)
    requires i <= |s|
    ensures i <= j <= |s|
    ensures forall x :: i <= x < j ==> s[x] != c
    ensures j < |s| ==> s[j] == c
    decreases |s| - i
  {
    if i < |s| && s[i] != c then IndexFrom(s, c, i + 1) else i
  }

  /** All ways the expression matches at `i`: group 1 is `s[i..j]`, group 2 is `s[j + 1..k]`. */
  predicate Matches(s: string, i: int, j: int, k: int) {
    && 0 <= i < j < |s| && s[j] == '=' && j + 1 <= k <= |s|
    && (forall x :: i <= x < j ==> KeyChar(s[x]))
    && (forall x :: j + 1 <= x < k ==> s[x] != '&')
  }

  datatype Match = Nowhere | Match(start: nat, equals: nat, end: nat)

  /** The match the engine takes at `i`: both groups are greedy. */
  function MatchAt(s: string, i: nat): Match
    requires i <= |s|
  {
    var j := KeyEnd(s, i);
    if i < j < |s| && s[j] == '=' then Match(i, j, IndexFrom(s, '&', j + 1)) else Nowhere
  }

  /** Group 1 has no choice, and the engine takes the longest group 2. */
  lemma MatchAtIsGreedy(s: string, i: nat, j: nat, k: nat)
    requires i <= |s|
    ensures MatchAt(s, i) == Match(i, j, k) <==>
            Matches(s, i, j, k) && forall j', k' :: Matches(s, i, j', k') ==> j' == j && k' <= k
  {
    var e := KeyEnd(s, i);
    if Matches(s, i, j, k) {
      assert e == j;
      var longest := IndexFrom(s, '&', j + 1);
      assert Matches(s, i, j, longest);
    }
    if MatchAt(s, i).Match? {
      forall j', k' | Matches(s, i, j', k')
        ensures j' == e && k' <= IndexFrom(s, '&', e + 1)
      {
      }
    }
  }

  /** `std::sregex_iterator`: the leftmost match at or after `from`. */
  function Search(s: string, from: nat): (m: Match)
    requires from <= |s|
    ensures m.Match? ==> from <= m.start < m.equals < m.end <= |s|
    decreases |s| - from
  {
    if MatchAt(s, from).Match? then MatchAt(s, from)
    else if from == |s| then Nowhere
    else Search(s, from + 1)
  }

  /** The key-value pairs the iterator visits from `from` on. */
  function ScanPairs(s: string, from: nat): seq<(string, string)>
    requires from <= |s|
    decreases |s| - from
  {
    match Search(s, from)
    case Nowhere => []
    case Match(i, j, k) => [(s[i..j], s[j + 1..k])] + ScanPairs(s, k)
  }

  // ---------- the simple form ----------

  function DropEquals(s: string): (t: string)
    ensures |t| > 0 ==> t[0] != '='
  {
    if |s| > 0 && s[0] == '=' then DropEquals(s[1..]) else s
  }

  /** One segment between '&' signs: drop leading '=' signs, split at the first '=' left,
      skip the segment if there is none. */
  function SegmentPair(segment: string): seq<(string, string)> {
    var t := DropEquals(segment);
    var e := IndexFrom(t, '=', 0);
    if e == |t| then [] else [(t[..e], t[e + 1..])]
  }

  /** Split on '&' and read each segment. */
  function Pairs(q: string): seq<(string, string)> {
    var e := IndexFrom(q, '&', 0);
    if e == |q| then SegmentPair(q) else SegmentPair(q[..e]) + Pairs(q[e + 1..])
  }

  lemma IndexFromSkips(s: string, c: char, i: nat, j: nat)
    requires i <= j <= |s| && forall x :: i <= x < j ==> s[x] != c
    ensures IndexFrom(s, c, i) == IndexFrom(s, c, j)
    decreases j - i
  {
    if i < j {
      IndexFromSkips(s, c, i + 1, j);
    }
  }

  lemma IndexFromIs(s: string, c: char, i: nat, j: nat)
    requires i <= j <= |s| && (forall x :: i <= x < j ==> s[x] != c) && (j < |s| ==> s[j] == c)
    ensures IndexFrom(s, c, i) == j
  {
    IndexFromSkips(s, c, i, j);
  }

  /** `Pairs` by the position `e` of the first separator. */
  lemma PairsBySegment(q: string, e: nat)
    requires e <= |q| && (forall x :: 0 <= x < e ==> q[x] != '&') && (e < |q| ==> q[e] == '&')
    ensures Pairs(q) == SegmentPair(q[..e]) + if e == |q| then [] else Pairs(q[e + 1..])
  {
    hide SegmentPair;
    IndexFromIs(q, '&', 0, e);
    assert e == |q| ==> q[..e] == q;
  }

  lemma PairsSkipSeparator(q: string)
    requires |q| > 0 && q[0] == '&'
    ensures Pairs(q) == Pairs(q[1..])
  {
    PairsBySegment(q, 0);
    assert q[..0] == "" && SegmentPair("") == [];
  }

  lemma SegmentWithoutEquals(segment: string)
    requires forall i :: 0 <= i < |segment| ==> segment[i] != '='
    ensures SegmentPair(segment) == []
  {
  }

  lemma SegmentSkipChar(segment: string)
    requires |segment| > 0
    requires segment[0] == '=' || forall i :: 0 <= i < |segment| ==> segment[i] != '='
    ensures SegmentPair(segment) == SegmentPair(segment[1..])
  {
    if segment[0] != '=' {
      SegmentWithoutEquals(segment);
      SegmentWithoutEquals(segment[1..]);
    }
  }

  /** A first character that cannot start a pair can be dropped. */
  lemma PairsSkipChar(q: string, e: nat)
    requires 0 < e <= |q| && (forall x :: 0 <= x < e ==> q[x] != '&') && (e < |q| ==> q[e] == '&')
    requires q[0] == '=' || forall x :: 0 <= x < e ==> q[x] != '='
    ensures Pairs(q) == Pairs(q[1..])
  {
    hide Pairs, SegmentPair;
    var t := q[1..];
    PairsBySegment(q, e);
    PairsBySegment(t, e - 1);
    SegmentSkipChar(q[..e]);
    assert q[..e][1..] == t[..e - 1];
    assert e < |q| ==> q[e + 1..] == t[e..];
  }

  lemma SegmentTakePair(segment: string, e: nat)
    requires 0 < e < |segment| && segment[e] == '=' && forall x :: 0 <= x < e ==> segment[x] != '='
    ensures SegmentPair(segment) == [(segment[..e], segment[e + 1..])]
  {
    IndexFromIs(segment, '=', 0, e);
  }

  /** A pair that starts right away is read up to the next separator. */
  lemma PairsTakeMatch(q: string, j: nat, k: nat)
    requires 0 < j < k <= |q| && Matches(q, 0, j, k) && (k < |q| ==> q[k] == '&')
    ensures Pairs(q) == [(q[..j], q[j + 1..k])] + Pairs(q[k..])
  {
    hide Pairs, SegmentPair;
    var segment := q[..k];
    PairsBySegment(q, k);
    SegmentTakePair(segment, j);
    assert segment[..j] == q[..j] && segment[j + 1..] == q[j + 1..k];
    if k < |q| {
      PairsSkipSeparator(q[k..]);
      assert q[k..][1..] == q[k + 1..];
    } else {
      NoPairs();
      assert q[k..] == "";
    }
  }

  lemma NoPairs()
    ensures Pairs("") == []
  {
  }

  lemma ScanStep(s: string, from: nat)
    requires from <= |s|
    ensures match MatchAt(s, from)
            case Match(_, j, k) => ScanPairs(s, from) == [(s[from..j], s[j + 1..k])] + ScanPairs(s, k)
            case Nowhere => ScanPairs(s, from) == if from == |s| then [] else ScanPairs(s, from + 1)
  {
  }

  /** The regular-expression scan from any position is the simple form of what follows. */
  lemma {:induction false} ScanIsSplit(s: string, from: nat)
    requires from <= |s|
    ensures ScanPairs(s, from) == Pairs(s[from..])
    decreases |s| - from
  {
    hide Pairs, ScanPairs, KeyEnd, IndexFrom;
    var q := s[from..];
    var m := MatchAt(s, from);
    ScanStep(s, from);
    if m.Match? {
      var j, k := m.equals - from, m.end - from;
      ScanIsSplit(s, m.end);
      PairsTakeMatch(q, j, k);
      assert q[k..] == s[m.end..];
      assert q[..j] == s[from..m.equals] && q[j + 1..k] == s[m.equals + 1..m.end];
    } else if from < |s| {
      ScanIsSplit(s, from + 1);
      assert q[1..] == s[from + 1..];
      if q[0] == '&' {
        PairsSkipSeparator(q);
      } else if q[0] == '=' {
        PairsSkipChar(q, IndexFrom(q, '&', 0));
      } else {
        PairsSkipChar(q, KeyEnd(s, from) - from);
      }
    } else {
      NoPairs();
      assert q == "";
    }
  }

  // ---------- reading the pairs ----------

  const NO_INFO: QueryInfo := QueryInfo("", "", 0)

  /** One parameter. The index must be a full decimal that fits 32 bits, without a sign;
      unknown keys are ignored. */
  function ApplyOne(info: QueryInfo, key: string, value: string): Result<QueryInfo> {
    if key == "index" then
      match FromChars(value, 0, UINT32_MAX)
      case Parsed(n, consumed) =>
        if consumed != |value| || n < 0 || n > UINT32_MAX then Err(InvalidArgument) else Ok(info.(index := n))
      case _ => Err(InvalidArgument)
    else if key == "db" then Err(InvalidArgument)
    else if key == "password" || key == "auth" then Ok(info.(password := value))
    else if key == "username" then Ok(info.(username := value))
    else Ok(info)
  }

  function ApplyAll(pairs: seq<(string, string)>): Result<QueryInfo> {
    if pairs == [] then Ok(NO_INFO)
    else
      var info :- ApplyAll(pairs[..|pairs| - 1]);
      ApplyOne(info, pairs[|pairs| - 1].0, pairs[|pairs| - 1].1)
  }

  lemma {:induction false} ApplyAllStops(pairs: seq<(string, string)>, n: nat)
    requires n <= |pairs| && ApplyAll(pairs[..n]).Err?
    ensures ApplyAll(pairs) == ApplyAll(pairs[..n])
  {
    if n == |pairs| {
      assert pairs[..n] == pairs;
    } else {
      assert pairs[..|pairs| - 1][..n] == pairs[..n];
      ApplyAllStops(pairs[..|pairs| - 1], n);
    }
  }

  /** What a query string means, in terms of the simple form. */
  function QueryOf(query: string): Result<QueryInfo> {
    ApplyAll(Pairs(query))
  }

  lemma ApplySnoc(done: seq<(string, string)>, key: string, value: string, rest: seq<(string, string)>)
    requires ApplyAll(done).Ok?
    ensures ApplyOne(ApplyAll(done).value, key, value).Ok? ==>
              ApplyAll(done + [(key, value)]) == ApplyOne(ApplyAll(done).value, key, value)
    ensures ApplyOne(ApplyAll(done).value, key, value).Err? ==>
              ApplyAll(done + ([(key, value)] + rest)) == ApplyOne(ApplyAll(done).value, key, value)
  {
    hide ApplyOne;
    var longer := done + [(key, value)];
    assert longer[..|done|] == done;
    var all := done + ([(key, value)] + rest);
    assert all[..|longer|] == longer;
    if ApplyOne(ApplyAll(done).value, key, value).Err? {
      ApplyAllStops(all, |longer|);
    }
  }

  /** The loop over the regular-expression iterator computes the simple form. */
  method ParseQueryParams(query: string) returns (r: Result<QueryInfo>)
    ensures r == QueryOf(query)
  {
    hide Pairs, ApplyOne, ApplyAll, Search;
    var info := NO_INFO;
    var from: nat := 0;
    ghost var done: seq<(string, string)> := [];
    ScanIsSplit(query, 0);
    assert query[0..] == query;
    NothingApplied();
    while true
      invariant 0 <= from <= |query|
      invariant done + ScanPairs(query, from) == Pairs(query)
      invariant ApplyAll(done) == Ok(info)
      decreases |query| - from
    {
      var m := Search(query, from);
      if m.Nowhere? {
        assert done + [] == done;
        return Ok(info);
      }
      var key, value := query[m.start..m.equals], query[m.equals + 1..m.end];
      ApplySnoc(done, key, value, ScanPairs(query, m.end));
      var next := ApplyOne(info, key, value);
      if next.Err? {
        return next;
      }
      assert done + ([(key, value)] + ScanPairs(query, m.end)) == (done + [(key, value)]) + ScanPairs(query, m.end);
      info := next.value;
      done := done + [(key, value)];
      from := m.end;
    }
  }

  lemma NothingApplied()
    ensures ApplyAll([]) == Ok(NO_INFO)
  {
  }

  /** The value of the last pair with a key in `keys`. */
  function LastValue(pairs: seq<(string, string)>, keys: set<string>, default: string): string {
    if pairs == [] then default
    else if pairs[|pairs| - 1].0 in keys then pairs[|pairs| - 1].1
    else LastValue(pairs[..|pairs| - 1], keys, default)
  }

  predicate ValidIndex(text: string) {
    |text| > 0 && AllDigits(text) && Value(text) <= UINT32_MAX
  }

  lemma ValueOfZero()
    ensures ValidIndex("0") && Value("0") == 0
  {
    assert "0"[..0] == "";
  }

  lemma IndexRead(info: QueryInfo, value: string)
    ensures ApplyOne(info, "index", value) ==
            if ValidIndex(value) then Ok(info.(index := Value(value))) else Err(InvalidArgument)
  {
    FromCharsExact(value, 0, UINT32_MAX);
  }

  lemma KeysDiffer()
    ensures "db" != "index" && "password" != "index" && "auth" != "index" && "username" != "index"
    ensures "password" != "db" && "auth" != "db" && "username" != "db"
    ensures "username" != "password" && "username" != "auth"
  {
    assert "username"[0] == 'u' && "password"[0] == 'p';
  }

  /** A query is accepted exactly when no key is `db` and every `index` is a full decimal
      that fits 32 bits; then each setting holds the value of its last occurrence, where
      `password` and `auth` are the same setting. */
  lemma {:induction false} QueryMeaning(pairs: seq<(string, string)>)
    ensures ApplyAll(pairs).Ok? <==>
            forall i :: 0 <= i < |pairs| ==> pairs[i].0 != "db" && (pairs[i].0 == "index" ==> ValidIndex(pairs[i].1))
    ensures ApplyAll(pairs).Ok? ==>
              var info := ApplyAll(pairs).value;
              && info.username == LastValue(pairs, {"username"}, "")
              && info.password == LastValue(pairs, {"password", "auth"}, "")
              && ValidIndex(LastValue(pairs, {"index"}, "0"))
              && info.index == Value(LastValue(pairs, {"index"}, "0"))
  {
    hide FromChars, Value;
    KeysDiffer();
    ValueOfZero();
    if pairs != [] {
      var init, last := pairs[..|pairs| - 1], pairs[|pairs| - 1];
      QueryMeaning(init);
      assert forall i :: 0 <= i < |init| ==> init[i] == pairs[i];
      if ApplyAll(init).Ok? {
        IndexRead(ApplyAll(init).value, last.1);
      }
    }
  }

  /** No key and no value the scan reports contains a separator. */
  lemma {:induction false} ScanPairsClean(s: string, from: nat)
    requires from <= |s|
    ensures forall i :: 0 <= i < |ScanPairs(s, from)| ==> '&' !in ScanPairs(s, from)[i].1
    decreases |s| - from
  {
    var m := Search(s, from);
    if m.Match? {
      SearchMatches(s, from);
      ScanPairsClean(s, m.end);
      var value := s[m.equals + 1..m.end];
      assert forall x :: 0 <= x < |value| ==> value[x] == s[m.equals + 1 + x];
    }
  }

  lemma {:induction false} SearchMatches(s: string, from: nat)
    requires from <= |s|
    ensures var m := Search(s, from); m.Match? ==> Matches(s, m.start, m.equals, m.end)
    decreases |s| - from
  {
    if MatchAt(s, from).Nowhere? && from < |s| {
      SearchMatches(s, from + 1);
    }
  }
}
