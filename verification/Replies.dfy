/** `cmd_reply` (include/redisdal/common.hpp) as the tagged record it is, its factories
    and its decoders (src/cmd_reply.cpp). Decoders are methods with the source's loops,
    proved against the specification functions of this module. */
module Replies {
  import opened Results
  import opened Decimal
  import opened Serialization

  /** The optional array payload. */
  datatype Items = Absent | Present(elements: seq<ReplyNode>)

  /** The fields of `cmd_reply`: a tag and five optional payloads. */
  datatype ReplyNode = ReplyNode(
    tag: ReplyType,
    text: Option<string>,
    number: Option<UInt64>,
    double: Option<real>,
    flag: Option<bool>,
    items: Items)
  {
    /** The class invariant: the tag matches the only populated payload, at every depth. */
    predicate Consistent() {
      && text.Some? == (tag.STRING? || tag.STATUS? || tag.ERROR?)
      && number.Some? == tag.INTEGER?
      && double.Some? == tag.DOUBLE?
      && flag.Some? == tag.BOOL?
      && items.Present? == tag.ARRAY?
      && (items.Present? ==> forall i :: 0 <= i < |items.elements| ==> items.elements[i].Consistent())
    }
  }

  /** What callers can hold: the factories are the only way to build a reply. */
  type CmdReply = r: ReplyNode | r.Consistent()
    witness ReplyNode(NIL, None, None, None, None, Absent)

  // ---------- factories ----------

  function MakeNil(): CmdReply {
    ReplyNode(NIL, None, None, None, None, Absent)
  }

  function MakeString(s: string): CmdReply {
    ReplyNode(STRING, Some(s), None, None, None, Absent)
  }

  function MakeStatus(s: string): CmdReply {
    ReplyNode(STATUS, Some(s), None, None, None, Absent)
  }

  function MakeError(s: string): CmdReply {
    ReplyNode(ERROR, Some(s), None, None, None, Absent)
  }

  function MakeInteger(n: UInt64): CmdReply {
    ReplyNode(INTEGER, None, Some(n), None, None, Absent)
  }

  /** `static_cast<uint64_t>`: reduction modulo 2^64. */
  function MakeSignedInteger(n: Int64): CmdReply {
    MakeInteger(n % (UINT64_MAX + 1))
  }

  function MakeArray(rs: seq<CmdReply>): CmdReply {
    ReplyNode(ARRAY, None, None, None, None, Present(rs))
  }

  // ---------- the signed view ----------

  /** `get_signed_integer` on a populated payload. Both branches stay inside `int64_t`:
      the subtraction from `UINT64_MAX` is what keeps the second cast in range. */
  function SignedView(u: UInt64): Int64 {
    if u <= INT64_MAX then u
    else
      var distance: Int64 := UINT64_MAX - u;
      -1 - distance
  }

  /** The signed view is two's complement, and a bijection with `make_signed_integer`. */
  lemma SignedViewBijection(u: UInt64, v: Int64)
    ensures SignedView(u) == if u < INT64_MAX + 1 then u else u - (UINT64_MAX + 1)
    ensures MakeSignedInteger(v).number == Some(u) <==> SignedView(u) == v
  {
  }

  // ---------- accessors ----------

  function AsText(r: CmdReply): Result<string> {
    if r.text.None? then Err(UnexpectedReplyType(STRING)) else Ok(r.text.value)
  }

  function AsString(r: CmdReply): Result<string> {
    if r.tag != STRING then Err(UnexpectedReplyType(STRING)) else AsText(r)
  }

  function Elements(r: CmdReply): seq<CmdReply>
    requires r.tag == ARRAY
  {
    r.items.elements
  }

  function AsArray(r: CmdReply): Result<seq<CmdReply>> {
    if r.tag != ARRAY then Err(UnexpectedReplyType(ARRAY)) else Ok(Elements(r))
  }

  function AsInteger(r: CmdReply): Result<Int64> {
    if r.tag != INTEGER then Err(UnexpectedReplyType(INTEGER)) else Ok(SignedView(r.number.value))
  }

  function OptionalString(r: CmdReply): Result<Option<string>> {
    if r.tag == NIL then Ok(None)
    else
      var s :- AsString(r);
      Ok(Some(s))
  }

  /** `throw_if_error` and `or_throw`. */
  function OrThrow(r: CmdReply): Result<CmdReply> {
    if r.tag == ERROR then Err(RedisError(r.text.value)) else Ok(r)
  }

  // ---------- lists ----------

  function StringsOf(r: CmdReply): Result<seq<string>> {
    if r.tag == NIL then Ok([])
    else
      var items :- AsArray(r);
      Traverse(AsString, items)
  }

  method Strings(r: CmdReply) returns (res: Result<seq<string>>)
    ensures res == StringsOf(r)
  {
    if r.tag == NIL {
      return Ok([]);
    }
    var items :- AsArray(r);
    var values: seq<string> := [];
    for i := 0 to |items|
      invariant Traverse(AsString, items[..i]) == Ok(values)
    {
      TraverseSnoc(AsString, items, i);
      var value :- AsString(items[i]);
      values := values + [value];
    }
    assert items[..|items|] == items;
    return Ok(values);
  }

  function ArrayOfStrings(ss: seq<string>): CmdReply {
    MakeArray(seq(|ss|, i requires 0 <= i < |ss| => MakeString(ss[i])))
  }

  /** The list decoder accepts NIL and arrays of strings, nothing else, and loses nothing. */
  lemma StringsDomain(r: CmdReply, ss: seq<string>)
    ensures StringsOf(r) == Ok(ss) <==> (r == ArrayOfStrings(ss) || (r == MakeNil() && ss == []))
  {
    if r.tag == ARRAY {
      TraverseOk(AsString, Elements(r), ss);
      if StringsOf(r) == Ok(ss) {
        assert Elements(r) == Elements(ArrayOfStrings(ss));
      }
    }
  }

  // ---------- pairs ----------

  /** Pairs laid end to end, as HSET and XADD send them. */
  function Flatten(ps: seq<(string, string)>): (r: seq<string>)
    ensures |r| == 2 * |ps|
    ensures forall i :: 0 <= i < |ps| ==> r[2 * i] == ps[i].0 && r[2 * i + 1] == ps[i].1
  {
    if ps == [] then []
    else Flatten(ps[..|ps| - 1]) + [ps[|ps| - 1].0, ps[|ps| - 1].1]
  }

  function PairUp(ss: seq<string>): (r: seq<(string, string)>)
    requires |ss| % 2 == 0
    ensures |r| == |ss| / 2
    ensures forall i :: 0 <= i < |r| ==> r[i] == (ss[2 * i], ss[2 * i + 1])
  {
    seq(|ss| / 2, i requires 0 <= i < |ss| / 2 => (ss[2 * i], ss[2 * i + 1]))
  }

  lemma PairsRoundTrip(ps: seq<(string, string)>, ss: seq<string>)
    ensures PairUp(Flatten(ps)) == ps
    ensures |ss| % 2 == 0 ==> Flatten(PairUp(ss)) == ss
  {
    if |ss| % 2 == 0 {
      var again := Flatten(PairUp(ss));
      forall k | 0 <= k < |ss|
        ensures again[k] == ss[k]
      {
        var j := k / 2;
        assert PairUp(ss)[j] == (ss[2 * j], ss[2 * j + 1]);
        assert k == 2 * j || k == 2 * j + 1;
      }
    }
  }

  /** Consecutive string pairs of an array; the length is checked before any element. */
  function PairsOf(items: seq<CmdReply>): Result<seq<(string, string)>> {
    if |items| % 2 != 0 then Err(RuntimeError)
    else
      var ss :- Traverse(AsString, items);
      TraverseOk(AsString, items, ss);
      Ok(PairUp(ss))
  }

  /** An array decodes to pairs exactly when it is the flattened pairs. */
  lemma PairsDomain(items: seq<CmdReply>, ps: seq<(string, string)>)
    ensures PairsOf(items) == Ok(ps) <==> MakeArray(items) == ArrayOfStrings(Flatten(ps))
  {
    StringsDomain(MakeArray(items), Flatten(ps));
    PairsRoundTrip(ps, []);
    var ss := Traverse(AsString, items);
    if ss.Ok? && |items| % 2 == 0 {
      TraverseOk(AsString, items, ss.value);
      PairsRoundTrip(ps, ss.value);
    }
  }

  // ---------- hashes ----------

  /** `emplace` and `insert`: the first value of a key stays. */
  function Emplace<K(==), V>(m: map<K, V>, k: K, v: V): map<K, V> {
    if k in m then m else m[k := v]
  }

  function EmplaceAll<K(==), V>(m: map<K, V>, ps: seq<(K, V)>): map<K, V> {
    if ps == [] then m
    else Emplace(EmplaceAll(m, ps[..|ps| - 1]), ps[|ps| - 1].0, ps[|ps| - 1].1)
  }

  lemma {:induction false} EmplaceAllKeys<K, V>(m: map<K, V>, ps: seq<(K, V)>)
    ensures EmplaceAll(m, ps).Keys == m.Keys + set i | 0 <= i < |ps| :: ps[i].0
  {
    if ps != [] {
      var init := ps[..|ps| - 1];
      EmplaceAllKeys(m, init);
      assert forall i :: 0 <= i < |init| ==> init[i] == ps[i];
      assert (set i | 0 <= i < |ps| :: ps[i].0) == (set i | 0 <= i < |init| :: init[i].0) + {ps[|ps| - 1].0};
    }
  }

  lemma {:induction false} EmplaceAllKeeps<K, V>(m: map<K, V>, ps: seq<(K, V)>)
    ensures forall k :: k in m ==> k in EmplaceAll(m, ps) && EmplaceAll(m, ps)[k] == m[k]
  {
    if ps != [] {
      EmplaceAllKeeps(m, ps[..|ps| - 1]);
    }
  }

  lemma {:induction false} EmplaceAllFirst<K, V>(m: map<K, V>, ps: seq<(K, V)>, i: nat)
    requires i < |ps| && ps[i].0 !in m && forall j :: 0 <= j < i ==> ps[j].0 != ps[i].0
    ensures ps[i].0 in EmplaceAll(m, ps) && EmplaceAll(m, ps)[ps[i].0] == ps[i].1
  {
    var init := ps[..|ps| - 1];
    if i < |init| {
      EmplaceAllFirst(m, init, i);
    } else {
      EmplaceAllKeys(m, init);
      assert forall j :: 0 <= j < |init| ==> init[j] == ps[j];
    }
  }

  /** What "the first value stays" means for a whole run of insertions: existing entries
      are untouched, and a new key holds the value of its first occurrence. */
  lemma EmplaceAllFirstWins<K, V>(m: map<K, V>, ps: seq<(K, V)>)
    ensures forall k :: k in m ==> k in EmplaceAll(m, ps) && EmplaceAll(m, ps)[k] == m[k]
    ensures forall i :: 0 <= i < |ps| && ps[i].0 !in m && (forall j :: 0 <= j < i ==> ps[j].0 != ps[i].0)
              ==> ps[i].0 in EmplaceAll(m, ps) && EmplaceAll(m, ps)[ps[i].0] == ps[i].1
  {
    hide EmplaceAll;
    EmplaceAllKeeps(m, ps);
    forall i | 0 <= i < |ps| && ps[i].0 !in m && forall j :: 0 <= j < i ==> ps[j].0 != ps[i].0
      ensures ps[i].0 in EmplaceAll(m, ps) && EmplaceAll(m, ps)[ps[i].0] == ps[i].1
    {
      EmplaceAllFirst(m, ps, i);
    }
  }

  function HashOf(r: CmdReply): Result<map<string, string>> {
    var items :- AsArray(r);
    var ps :- PairsOf(items);
    Ok(EmplaceAll(map[], ps))
  }

  /** What the pair loops have collected after reading the first `n` elements. */
  function PairsRead(items: seq<CmdReply>, n: nat): Result<seq<(string, string)>>
    requires n <= |items| && n % 2 == 0
  {
    PairsOf(items[..n])
  }

  /** One turn of a pair loop: two more elements, one more pair, or the first error. */
  lemma PairsReadStep(items: seq<CmdReply>, n: nat)
    requires n + 1 < |items| && n % 2 == 0 && |items| % 2 == 0
    requires PairsRead(items, n).Ok?
    ensures AsString(items[n]).Err? ==> PairsOf(items) == Err(AsString(items[n]).error)
    ensures AsString(items[n]).Ok? && AsString(items[n + 1]).Err? ==>
              PairsOf(items) == Err(AsString(items[n + 1]).error)
    ensures AsString(items[n]).Ok? && AsString(items[n + 1]).Ok? ==>
              PairsRead(items, n + 2) ==
              Ok(PairsRead(items, n).value + [(AsString(items[n]).value, AsString(items[n + 1]).value)])
  {
    TraverseSnoc(AsString, items, n);
    TraverseSnoc(AsString, items, n + 1);
    if AsString(items[n]).Ok? && AsString(items[n + 1]).Ok? {
      var a, b := AsString(items[n]).value, AsString(items[n + 1]).value;
      var ss := Traverse(AsString, items[..n]).value;
      TraverseOk(AsString, items[..n], ss);
      assert ss + [a] + [b] == ss + [a, b];
      assert PairUp(ss + [a, b]) == PairUp(ss) + [(a, b)];
    }
  }

  lemma EmplaceAllSnoc<K, V>(m: map<K, V>, ps: seq<(K, V)>, k: K, v: V)
    ensures EmplaceAll(m, ps + [(k, v)]) == Emplace(EmplaceAll(m, ps), k, v)
  {
    assert (ps + [(k, v)])[..|ps|] == ps;
  }

  method Hash(r: CmdReply) returns (res: Result<map<string, string>>)
    ensures res == HashOf(r)
  {
    var items :- AsArray(r);
    if |items| % 2 != 0 {
      return Err(RuntimeError);
    }
    var fields: map<string, string> := map[];
    ghost var read: seq<(string, string)> := [];
    var i := 0;
    while i < |items|
      invariant 0 <= i <= |items| && i % 2 == 0
      invariant PairsRead(items, i) == Ok(read)
      invariant fields == EmplaceAll(map[], read)
    {
      PairsReadStep(items, i);
      var field :- AsString(items[i]);
      var value :- AsString(items[i + 1]);
      EmplaceAllSnoc(map[], read, field, value);
      fields := Emplace(fields, field, value);
      read := read + [(field, value)];
      i := i + 2;
    }
    assert items[..|items|] == items;
    return Ok(fields);
  }

  /** The hash decoder accepts exactly the flattened pair lists and keeps first values. */
  lemma HashDomain(r: CmdReply, m: map<string, string>)
    ensures HashOf(r) == Ok(m) <==>
            exists ps :: r == ArrayOfStrings(Flatten(ps)) && m == EmplaceAll(map[], ps)
  {
    if HashOf(r) == Ok(m) {
      var ps := PairsOf(Elements(r)).value;
      PairsDomain(Elements(r), ps);
      assert r == ArrayOfStrings(Flatten(ps));
    }
    forall ps | r == ArrayOfStrings(Flatten(ps))
      ensures HashOf(r) == Ok(EmplaceAll(map[], ps))
    {
      PairsDomain(Elements(r), ps);
    }
  }

  // ---------- scan cursors ----------

  function ScanCursor(r: CmdReply): Result<UInt64> {
    var parts :- AsArray(r);
    if |parts| != 2 then Err(RuntimeError)
    else
      var results :- AsArray(parts[1]);
      var text :- AsString(parts[0]);
      var cursor :- FromString(IntType(false, W64), text);
      Ok(cursor)
  }

  /** A page decodes exactly when it is a two-element array of an unsigned 64-bit
      numeral and an array; every cursor a server can print comes back unchanged. */
  lemma ScanCursorDomain(r: CmdReply, cursor: UInt64, results: seq<CmdReply>)
    ensures ScanCursor(MakeArray([MakeString(Print(cursor)), MakeArray(results)])) == Ok(cursor)
    ensures ScanCursor(r) == Ok(cursor) <==>
            && r.tag == ARRAY && |Elements(r)| == 2
            && Elements(r)[1].tag == ARRAY
            && AsString(Elements(r)[0]).Ok?
            && var text := AsString(Elements(r)[0]).value;
               IsNumeral(text, false) && NumeralValue(text, false) == cursor
  {
    IntegerRoundTrip(IntType(false, W64), cursor);
    if r.tag == ARRAY && |Elements(r)| == 2 && AsString(Elements(r)[0]).Ok? {
      FromStringClassifies(IntType(false, W64), AsString(Elements(r)[0]).value);
    }
  }

  // ---------- how decoding fails ----------

  /** `or_throw` raises the server's own message for error replies and for nothing else. */
  lemma OrThrowExact(r: CmdReply)
    ensures r.tag == ERROR ==> r.text.Some? && OrThrow(r) == Err(RedisError(r.text.value))
    ensures r.tag != ERROR ==> OrThrow(r) == Ok(r)
  {
  }

  lemma StringsTraversed(items: seq<CmdReply>)
    ensures Traverse(AsString, items).Ok? <==> forall i :: 0 <= i < |items| ==> items[i].tag == STRING
    ensures Traverse(AsString, items).Err? ==> Traverse(AsString, items).error == UnexpectedReplyType(STRING)
  {
    TraverseTotal(AsString, items);
    TraverseOneError(AsString, items, UnexpectedReplyType(STRING));
    assert forall r: CmdReply :: AsString(r).Ok? <==> r.tag == STRING;
  }

  /** Whatever is not a list is reported as such, and so is an element that is no string. */
  lemma StringsRejects(r: CmdReply)
    ensures StringsOf(r).Err? ==>
              StringsOf(r).error == UnexpectedReplyType(if r.tag == ARRAY then STRING else ARRAY)
  {
    if r.tag == ARRAY {
      StringsTraversed(Elements(r));
    }
  }

  /** The shape of a hash is checked before its elements. */
  lemma HashRejects(r: CmdReply)
    ensures r.tag != ARRAY ==> HashOf(r) == Err(UnexpectedReplyType(ARRAY))
    ensures r.tag == ARRAY && |Elements(r)| % 2 != 0 ==> HashOf(r) == Err(RuntimeError)
    ensures r.tag == ARRAY && |Elements(r)| % 2 == 0 ==>
              if forall i :: 0 <= i < |Elements(r)| ==> Elements(r)[i].tag == STRING then HashOf(r).Ok?
              else HashOf(r) == Err(UnexpectedReplyType(STRING))
  {
    if r.tag == ARRAY {
      StringsTraversed(Elements(r));
    }
  }

  /** A page is rejected for its shape first, then for what stands in place of the results,
      then for the cursor. */
  lemma ScanCursorRejects(r: CmdReply)
    ensures r.tag != ARRAY ==> ScanCursor(r) == Err(UnexpectedReplyType(ARRAY))
    ensures r.tag == ARRAY && |Elements(r)| != 2 ==> ScanCursor(r) == Err(RuntimeError)
    ensures r.tag == ARRAY && |Elements(r)| == 2 ==>
              var cursor, results := Elements(r)[0], Elements(r)[1];
              && (results.tag != ARRAY ==> ScanCursor(r) == Err(UnexpectedReplyType(ARRAY)))
              && (results.tag == ARRAY && cursor.tag != STRING ==> ScanCursor(r) == Err(UnexpectedReplyType(STRING)))
              && (results.tag == ARRAY && cursor.tag == STRING ==>
                    var text := cursor.text.value;
                    if !IsNumeral(text, false) then ScanCursor(r) == Err(InvalidArgument)
                    else if NumeralValue(text, false) > UINT64_MAX then ScanCursor(r) == Err(OutOfRange)
                    else ScanCursor(r) == Ok(NumeralValue(text, false)))
  {
    if r.tag == ARRAY && |Elements(r)| == 2 && Elements(r)[0].tag == STRING {
      FromStringClassifies(IntType(false, W64), Elements(r)[0].text.value);
    }
  }
}
