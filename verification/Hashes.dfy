/** Hash commands of the string client (src/redis_client.cpp, src/redis_cmd_ops.cpp):
    batched HMGET into a caller's map, HSET of a map, and HSCAN accumulation. The order in
    which an `unordered_map` is walked is a parameter, so every order is covered. */
module Hashes {
  import opened Results
  import opened Decimal
  import opened Serialization
  import opened Replies
  import opened Executors
  import opened Commands

  /** A caller's `std::unordered_map`, updated through a reference. */
  class MapRef<K(==), V> {
    var entries: map<K, V>

    constructor (entries: map<K, V>)
      ensures this.entries == entries
    {
      this.entries := entries;
    }
  }

  /** `order` walks every key once. */
  predicate Enumerates<K(==)>(order: seq<K>, keys: set<K>) {
    && (forall i, j :: 0 <= i < j < |order| ==> order[i] != order[j])
    && (set i | 0 <= i < |order| :: order[i]) == keys
  }

  lemma {:induction false} EnumerationLength<K>(order: seq<K>, keys: set<K>)
    requires Enumerates(order, keys)
    ensures |order| == |keys|
  {
    if order != [] {
      var init, last := order[..|order| - 1], order[|order| - 1];
      assert forall i :: 0 <= i < |init| ==> init[i] == order[i];
      assert (set i | 0 <= i < |init| :: init[i]) == keys - {last};
      EnumerationLength(init, keys - {last});
    }
  }

  /** Keys bound to values by position. */
  function Zip<K(==), V>(keys: seq<K>, values: seq<V>): map<K, V>
    requires |keys| == |values|
  {
    map i | 0 <= i < |keys| && forall j :: 0 <= j < i ==> keys[j] != keys[i] :: keys[i] := values[i]
  }

  lemma ZipLookup<K, V>(keys: seq<K>, values: seq<V>, domain: set<K>)
    requires |keys| == |values| && Enumerates(keys, domain)
    ensures Zip(keys, values).Keys == domain
    ensures forall i :: 0 <= i < |keys| ==> Zip(keys, values)[keys[i]] == values[i]
  {
  }

  lemma ZipUnique<K, V>(keys: seq<K>, values: seq<V>, m: map<K, V>)
    requires |keys| == |values| && Enumerates(keys, m.Keys)
    requires forall i :: 0 <= i < |keys| ==> m[keys[i]] == values[i]
    ensures m == Zip(keys, values)
  {
    ZipLookup(keys, values, m.Keys);
    forall k | k in m
      ensures m[k] == Zip(keys, values)[k]
    {
      var i :| 0 <= i < |keys| && keys[i] == k;
    }
  }

  /** An order of iteration for every set of keys a container may hold. */
  type Walk<!K> = set<K> -> seq<K>

  ghost predicate Walks<K(!new)>(walk: Walk<K>) {
    forall keys: set<K> :: Enumerates(walk(keys), keys)
  }

  // ---------- HMGET ----------

  function HmgetArgv(key: string, fields: seq<string>): Argv {
    ["HMGET", key] + fields
  }

  /** What a reply to HMGET binds the requested fields to. */
  function Hmget(r: Result<CmdReply>, fields: seq<string>): Result<map<string, Option<string>>> {
    var raw :- r;
    var reply :- OrThrow(raw);
    var items :- AsArray(reply);
    if |items| != |fields| then Err(RuntimeError)
    else
      var values :- Traverse(OptionalString, items);
      TraverseOk(OptionalString, items, values);
      Ok(Zip(fields, values))
  }

  /** The caller's map is replaced field by field only after the whole reply has decoded:
      on success it holds what the reply says, on any failure it is as before. */
  method HgetMap(exec: Executor, key: string, hashMap: MapRef<string, Option<string>>, walk: Walk<string>)
    returns (r: Result<()>)
    requires Walks(walk)
    modifies exec, hashMap
    ensures old(hashMap.entries) == map[] ==> r.Ok? && hashMap.entries == map[] && exec.trace == old(exec.trace)
    ensures old(hashMap.entries) != map[] ==>
              var fields := walk(old(hashMap.entries).Keys);
              && exec.trace == old(exec.trace) + [HmgetArgv(key, fields)]
              && match Hmget(exec.oracle(exec.trace), fields)
                 case Ok(m) => r.Ok? && hashMap.entries == m
                 case Err(e) => r == Err(e) && hashMap.entries == old(hashMap.entries)
  {
    if hashMap.entries == map[] {
      return Ok(());
    }
    var order := walk(hashMap.entries.Keys);
    EnumerationLength(order, hashMap.entries.Keys);
    var fields: seq<string> := [];
    for i := 0 to |order|
      invariant fields == order[..i]
      invariant unchanged(exec) && unchanged(hashMap)
    {
      fields := fields + [order[i]];
    }
    assert fields == order;
    var raw := exec.CmdExecv(HmgetArgv(key, fields));
    if raw.Err? {
      return Err(raw.error);
    }
    var reply :- OrThrow(raw.value);
    var values :- AsArray(reply);
    if |values| != |hashMap.entries| {
      return Err(RuntimeError);
    }
    var decoded := DecodeOptionals(values);
    if decoded.Err? {
      return Err(decoded.error);
    }
    TraverseOk(OptionalString, values, decoded.value);
    ZipLookup(fields, decoded.value, hashMap.entries.Keys);
    AssignAll(hashMap, fields, decoded.value);
    return Ok(());
  }

  method DecodeOptionals(values: seq<CmdReply>) returns (res: Result<seq<Option<string>>>)
    ensures res == Traverse(OptionalString, values)
  {
    var decoded: seq<Option<string>> := [];
    for i := 0 to |values|
      invariant Traverse(OptionalString, values[..i]) == Ok(decoded)
    {
      TraverseSnoc(OptionalString, values, i);
      var value :- OptionalString(values[i]);
      decoded := decoded + [value];
    }
    assert values[..|values|] == values;
    return Ok(decoded);
  }

  /** The update loop: `hash_map.at(fields[i]) = decoded[i]`. */
  method AssignAll<K, V>(hashMap: MapRef<K, V>, fields: seq<K>, decoded: seq<V>)
    requires |fields| == |decoded| && Enumerates(fields, hashMap.entries.Keys)
    modifies hashMap
    ensures hashMap.entries == Zip(fields, decoded)
  {
    ghost var keys := hashMap.entries.Keys;
    for i := 0 to |decoded|
      invariant hashMap.entries.Keys == keys
      invariant forall j :: 0 <= j < i ==> hashMap.entries[fields[j]] == decoded[j]
    {
      assert fields[i] in keys;
      hashMap.entries := hashMap.entries[fields[i] := decoded[i]];
    }
    ZipLookup(fields, decoded, keys);
    ZipUnique(fields, decoded, hashMap.entries);
  }

  function EncodeOptional(o: Option<string>): CmdReply {
    if o.None? then MakeNil() else MakeString(o.value)
  }

  function EncodeLookup(m: map<string, Option<string>>, fields: seq<string>): CmdReply
    requires forall i :: 0 <= i < |fields| ==> fields[i] in m
  {
    MakeArray(seq(|fields|, i requires 0 <= i < |fields| => EncodeOptional(m[fields[i]])))
  }

  lemma OptionalStringDomain(r: CmdReply, o: Option<string>)
    ensures OptionalString(r) == Ok(o) <==> r == EncodeOptional(o)
  {
  }

  lemma EncodedItems(items: seq<CmdReply>, fields: seq<string>, m: map<string, Option<string>>)
    requires forall i :: 0 <= i < |fields| ==> fields[i] in m
    ensures items == Elements(EncodeLookup(m, fields)) <==>
            |items| == |fields| && forall i :: 0 <= i < |fields| ==> OptionalString(items[i]) == Ok(m[fields[i]])
  {
    hide OptionalString;
    forall i | 0 <= i < |fields| && i < |items|
      ensures OptionalString(items[i]) == Ok(m[fields[i]]) <==> items[i] == EncodeOptional(m[fields[i]])
    {
      OptionalStringDomain(items[i], m[fields[i]]);
    }
  }

  lemma HmgetEncoded(fields: seq<string>, m: map<string, Option<string>>)
    requires Enumerates(fields, m.Keys) && forall i :: 0 <= i < |fields| ==> fields[i] in m
    ensures Hmget(Ok(EncodeLookup(m, fields)), fields) == Ok(m)
  {
    hide Zip, Enumerates, OptionalString;
    var items := Elements(EncodeLookup(m, fields));
    EncodedItems(items, fields, m);
    var values := seq(|fields|, i requires 0 <= i < |fields| => m[fields[i]]);
    ZipUnique(fields, values, m);
    TraverseOk(OptionalString, items, values);
  }

  lemma HmgetDecoded(reply: CmdReply, fields: seq<string>, m: map<string, Option<string>>)
    requires Enumerates(fields, m.Keys) && forall i :: 0 <= i < |fields| ==> fields[i] in m
    requires Hmget(Ok(reply), fields) == Ok(m)
    ensures reply == EncodeLookup(m, fields)
  {
    hide Zip, Enumerates, OptionalString;
    var items := Elements(reply);
    var decoded := Traverse(OptionalString, items).value;
    TraverseOk(OptionalString, items, decoded);
    ZipLookup(fields, decoded, m.Keys);
    EncodedItems(items, fields, m);
  }

  /** For every order of the fields, HMGET yields `m` exactly when the reply lists, in
      that order, the value or NIL that `m` holds for each field. */
  lemma HmgetDomain(reply: CmdReply, fields: seq<string>, m: map<string, Option<string>>)
    requires Enumerates(fields, m.Keys)
    ensures Hmget(Ok(reply), fields) == Ok(m) <==> reply == EncodeLookup(m, fields)
  {
    assert forall i :: 0 <= i < |fields| ==> fields[i] in m.Keys;
    hide Hmget, Enumerates;
    HmgetEncoded(fields, m);
    if Hmget(Ok(reply), fields) == Ok(m) {
      HmgetDecoded(reply, fields, m);
    }
  }

  /** How a batched lookup fails: with the transport, with the server's message, for the
      shape of the reply, for the number of values, or for a value that is neither text nor
      NIL; in no other way. */
  lemma HmgetRejects(reply: CmdReply, fields: seq<string>, e: Error)
    ensures Hmget(Err(e), fields) == Err(e)
    ensures reply.tag == ERROR ==> Hmget(Ok(reply), fields) == Err(RedisError(reply.text.value))
    ensures reply.tag !in {ERROR, ARRAY} ==> Hmget(Ok(reply), fields) == Err(UnexpectedReplyType(ARRAY))
    ensures reply.tag == ARRAY && |Elements(reply)| != |fields| ==> Hmget(Ok(reply), fields) == Err(RuntimeError)
    ensures reply.tag == ARRAY && |Elements(reply)| == |fields| ==>
              if forall i :: 0 <= i < |fields| ==> Elements(reply)[i].tag in {NIL, STRING}
              then Hmget(Ok(reply), fields).Ok?
              else Hmget(Ok(reply), fields) == Err(UnexpectedReplyType(STRING))
  {
    if reply.tag == ARRAY {
      TraverseTotal(OptionalString, Elements(reply));
      TraverseOneError(OptionalString, Elements(reply), UnexpectedReplyType(STRING));
      assert forall r: CmdReply :: OptionalString(r).Ok? <==> r.tag in {NIL, STRING};
    }
  }

  // ---------- HSET of a map ----------

  function PairsIn<K(==), V>(m: map<K, V>, order: seq<K>): seq<(K, V)>
    requires forall i :: 0 <= i < |order| ==> order[i] in m
  {
    seq(|order|, i requires 0 <= i < |order| => (order[i], m[order[i]]))
  }

  function HsetArgv(key: string, values: map<string, string>, order: seq<string>): Argv
    requires Enumerates(order, values.Keys)
  {
    ["HSET", key] + Flatten(PairsIn(values, order))
  }

  method HsetMap(exec: Executor, key: string, values: map<string, string>, walk: Walk<string>)
    returns (r: Result<CmdReply>)
    requires Walks(walk)
    modifies exec
    ensures values == map[] ==> r == Ok(MakeNil()) && exec.trace == old(exec.trace)
    ensures values != map[] ==>
              && exec.trace == old(exec.trace) + [HsetArgv(key, values, walk(values.Keys))]
              && r == exec.oracle(exec.trace)
  {
    if values == map[] {
      return Ok(MakeNil());
    }
    var order := walk(values.Keys);
    var args := new ArgVector(["HSET", key]);
    ghost var all := Flatten(PairsIn(values, order));
    for i := 0 to |order|
      invariant args.items == ["HSET", key] + all[..2 * i]
      invariant exec.trace == old(exec.trace)
    {
      assert order[i] in values.Keys;
      assert all[2 * i] == order[i] && all[2 * i + 1] == values[order[i]];
      args.PushBack(order[i]);
      args.PushBack(values[order[i]]);
    }
    assert all[..2 * |order|] == all;
    r := exec.CmdExecv(args.items);
  }

  /** `hset` answers whether the reply is a non-negative count. */
  function HsetResult(r: Result<CmdReply>): Result<bool> {
    var raw :- r;
    var reply :- OrThrow(raw);
    Ok(reply.tag == INTEGER && SignedView(reply.number.value) >= 0)
  }

  method ClientHset(exec: Executor, key: string, values: map<string, string>, walk: Walk<string>)
    returns (r: Result<bool>)
    requires Walks(walk)
    modifies exec
    ensures values == map[] ==> r == Ok(false) && exec.trace == old(exec.trace)
    ensures values != map[] ==>
              && exec.trace == old(exec.trace) + [HsetArgv(key, values, walk(values.Keys))]
              && r == HsetResult(exec.oracle(exec.trace))
  {
    if values == map[] {
      return Ok(false);
    }
    var raw := HsetMap(exec, key, values, walk);
    if raw.Err? {
      return Err(raw.error);
    }
    var reply :- OrThrow(raw.value);
    return Ok(reply.tag == INTEGER && SignedView(reply.number.value) >= 0);
  }

  /** Distinct keys inserted into nothing give back the map they came from. */
  lemma EmplaceEnumeration<K, V>(m: map<K, V>, order: seq<K>)
    requires Enumerates(order, m.Keys)
    ensures EmplaceAll(map[], PairsIn(m, order)) == m
  {
    hide EmplaceAll;
    var ps := PairsIn(m, order);
    var r := EmplaceAll(map[], ps);
    EmplaceAllFirstWins(map[], ps);
    EmplaceAllKeys(map[], ps);
    assert forall i :: 0 <= i < |ps| ==> ps[i].0 == order[i];
    forall k | k in m
      ensures k in r && r[k] == m[k]
    {
      var i :| 0 <= i < |order| && order[i] == k;
      assert ps[i] == (k, m[k]);
    }
  }

  /** The pairs HSET sends, in whatever order, are a hash reply that decodes to the same map. */
  lemma HsetHashRoundTrip(key: string, m: map<string, string>, order: seq<string>)
    requires Enumerates(order, m.Keys)
    ensures HashOf(ArrayOfStrings(HsetArgv(key, m, order)[2..])) == Ok(m)
  {
    var ps := PairsIn(m, order);
    assert HsetArgv(key, m, order)[2..] == Flatten(ps);
    EmplaceEnumeration(m, order);
    HashDomain(ArrayOfStrings(Flatten(ps)), m);
  }

  /** A store answers true exactly for a count that is not negative, 0 included; a server
      error is raised with its message, and any other reply means false. */
  lemma HsetResultExact(reply: CmdReply, n: Int64, e: Error)
    ensures HsetResult(Err(e)) == Err(e)
    ensures reply.tag == ERROR ==> HsetResult(Ok(reply)) == Err(RedisError(reply.text.value))
    ensures HsetResult(Ok(MakeSignedInteger(n))) == Ok(n >= 0)
    ensures reply.tag !in {ERROR, INTEGER} ==> HsetResult(Ok(reply)) == Ok(false)
  {
    SignedViewBijection(MakeSignedInteger(n).number.value, n);
  }

  // ---------- HGETALL ----------

  function HgetallResult(r: Result<CmdReply>): Result<map<string, string>> {
    var raw :- r;
    var reply :- OrThrow(raw);
    HashOf(reply)
  }

  /** A reply is read exactly when it is flattened pairs; the first value of a field stays. */
  lemma HgetallResultExact(reply: CmdReply, m: map<string, string>, e: Error)
    ensures HgetallResult(Err(e)) == Err(e)
    ensures reply.tag == ERROR ==> HgetallResult(Ok(reply)) == Err(RedisError(reply.text.value))
    ensures HgetallResult(Ok(reply)) == Ok(m) <==>
            exists ps :: reply == ArrayOfStrings(Flatten(ps)) && m == EmplaceAll(map[], ps)
    ensures reply.tag !in {ERROR, ARRAY} ==> HgetallResult(Ok(reply)) == Err(UnexpectedReplyType(ARRAY))
  {
    HashDomain(reply, m);
    HashRejects(reply);
  }

  method ClientHgetall(exec: Executor, key: string) returns (r: Result<map<string, string>>)
    modifies exec
    ensures exec.trace == old(exec.trace) + [["HGETALL", key]]
    ensures r == HgetallResult(exec.oracle(exec.trace))
  {
    var raw := exec.CmdExecv(["HGETALL", key]);
    if raw.Err? {
      return Err(raw.error);
    }
    var reply :- OrThrow(raw.value);
    r := Hash(reply);
  }

  // ---------- HSCAN ----------

  function HscanArgv(key: string, cursor: UInt64, pattern: string, count: UInt32): Argv {
    ["HSCAN", key, Print(cursor), "MATCH", pattern, "COUNT", Print(count)]
  }

  function PageOf(r: Result<CmdReply>): Result<(UInt64, map<string, string>)> {
    var raw :- r;
    var reply :- OrThrow(raw);
    var next :- ScanCursor(reply);
    var fields :- HashOf(Elements(reply)[1]);
    Ok((next, fields))
  }

  /** `insert` of a whole range: fields already present keep their value. */
  method Hscan(exec: Executor, key: string, cursor: UInt64, pattern: string, count: UInt32,
               hashMap: MapRef<string, string>)
    returns (r: Result<UInt64>)
    modifies exec, hashMap
    ensures exec.trace == old(exec.trace) + [HscanArgv(key, cursor, pattern, count)]
    ensures hashMap.entries == AfterPage(old(hashMap.entries), exec.oracle(exec.trace))
    ensures match PageOf(exec.oracle(exec.trace))
            case Ok((next, _)) => r == Ok(next)
            case Err(e) => r == Err(e)
  {
    var raw := exec.CmdExecv(HscanArgv(key, cursor, pattern, count));
    if raw.Err? {
      return Err(raw.error);
    }
    var reply :- OrThrow(raw.value);
    var next :- ScanCursor(reply);
    var fields := Hash(Elements(reply)[1]);
    if fields.Err? {
      return Err(fields.error);
    }
    hashMap.entries := fields.value + hashMap.entries;
    return Ok(next);
  }

  function AfterPage(m: map<string, string>, r: Result<CmdReply>): map<string, string> {
    match PageOf(r)
    case Ok((_, fields)) => fields + m
    case Err(_) => m
  }

  /** A map after a whole scan, one reply per page. */
  function AfterPages(m: map<string, string>, rs: seq<Result<CmdReply>>): map<string, string> {
    if rs == [] then m else AfterPage(AfterPages(m, rs[..|rs| - 1]), rs[|rs| - 1])
  }

  /** A page as a server sends it: the text of the next cursor and flattened pairs. */
  ghost predicate IsPage(reply: CmdReply, cursor: string, ps: seq<(string, string)>) {
    && reply == MakeArray([MakeString(cursor), ArrayOfStrings(Flatten(ps))])
    && IsNumeral(cursor, false) && NumeralValue(cursor, false) <= UINT64_MAX
  }

  lemma PageRead(reply: CmdReply, cursor: string, ps: seq<(string, string)>)
    requires IsPage(reply, cursor, ps)
    ensures PageOf(Ok(reply)) == Ok((NumeralValue(cursor, false), EmplaceAll(map[], ps)))
  {
    hide NumeralValue, IsNumeral, EmplaceAll, HashOf, ScanCursor;
    ScanCursorRejects(reply);
    HashDomain(ArrayOfStrings(Flatten(ps)), EmplaceAll(map[], ps));
  }

  lemma PageIsPage(reply: CmdReply, next: UInt64, m: map<string, string>)
    requires PageOf(Ok(reply)) == Ok((next, m))
    ensures exists cursor, ps ::
              IsPage(reply, cursor, ps) && NumeralValue(cursor, false) == next && m == EmplaceAll(map[], ps)
  {
    hide NumeralValue, IsNumeral, EmplaceAll, HashOf, ScanCursor;
    ScanCursorRejects(reply);
    var parts := Elements(reply);
    var cursor := parts[0].text.value;
    HashDomain(parts[1], m);
    var ps :| parts[1] == ArrayOfStrings(Flatten(ps)) && m == EmplaceAll(map[], ps);
    assert parts == [MakeString(cursor), ArrayOfStrings(Flatten(ps))];
    assert IsPage(reply, cursor, ps);
  }

  /** A reply decodes to a cursor and a map exactly when it is a page: the cursor is the
      number written, and the map holds the first value of each field. */
  lemma PageDomain(reply: CmdReply, next: UInt64, m: map<string, string>)
    ensures PageOf(Ok(reply)) == Ok((next, m)) <==>
            exists cursor, ps ::
              IsPage(reply, cursor, ps) && NumeralValue(cursor, false) == next && m == EmplaceAll(map[], ps)
  {
    hide PageOf, NumeralValue, IsNumeral, EmplaceAll;
    if PageOf(Ok(reply)) == Ok((next, m)) {
      PageIsPage(reply, next, m);
    }
    forall cursor, ps | IsPage(reply, cursor, ps) && NumeralValue(cursor, false) == next
      ensures PageOf(Ok(reply)) == Ok((next, EmplaceAll(map[], ps)))
    {
      PageRead(reply, cursor, ps);
    }
  }

  /** A failed request, a server error, and a reply that is no page. */
  lemma PageRejects(reply: CmdReply, e: Error)
    ensures PageOf(Err(e)) == Err(e)
    ensures reply.tag == ERROR ==> PageOf(Ok(reply)) == Err(RedisError(reply.text.value))
    ensures reply.tag != ERROR && ScanCursor(reply).Err? ==> PageOf(Ok(reply)) == Err(ScanCursor(reply).error)
    ensures reply.tag != ERROR && ScanCursor(reply).Ok? ==>
              var fields := Elements(reply)[1];
              HashOf(fields).Err? ==> PageOf(Ok(reply)) == Err(HashOf(fields).error)
  {
  }

  /** The field-value pairs a page carries; a reply that is no page carries none. */
  ghost function PagePairs(r: Result<CmdReply>): seq<(string, string)> {
    if r.Ok? && exists cursor, ps :: IsPage(r.value, cursor, ps)
    then var cursor, ps :| IsPage(r.value, cursor, ps); ps
    else []
  }

  lemma AfterPageEmplaces(m: map<string, string>, r: Result<CmdReply>)
    ensures AfterPage(m, r) == EmplaceAll(m, PagePairs(r))
  {
    hide IsPage, EmplaceAll, HashOf, ScanCursor;
    EmplaceAllMerges(m, PagePairs(r));
    EmplaceNothing(m);
    if r.Ok? && exists cursor, ps :: IsPage(r.value, cursor, ps) {
      var cursor, ps :| IsPage(r.value, cursor, ps) && ps == PagePairs(r);
      PageNumeral(r.value, cursor, ps);
      PageDomain(r.value, NumeralValue(cursor, false), EmplaceAll(map[], ps));
    } else if PageOf(r).Ok? {
      PageDomain(r.value, PageOf(r).value.0, PageOf(r).value.1);
    }
  }

  lemma PageNumeral(reply: CmdReply, cursor: string, ps: seq<(string, string)>)
    requires IsPage(reply, cursor, ps)
    ensures IsNumeral(cursor, false) && 0 <= NumeralValue(cursor, false) <= UINT64_MAX
  {
  }

  lemma EmplaceNothing<K, V>(m: map<K, V>)
    ensures EmplaceAll(m, []) == m
  {
  }

  ghost function AllPairs(rs: seq<Result<CmdReply>>): seq<(string, string)> {
    if rs == [] then [] else AllPairs(rs[..|rs| - 1]) + PagePairs(rs[|rs| - 1])
  }

  lemma {:induction false} EmplaceAllMerges<K, V>(m: map<K, V>, ps: seq<(K, V)>)
    ensures EmplaceAll(map[], ps) + m == EmplaceAll(m, ps)
  {
    if ps != [] {
      EmplaceAllMerges(m, ps[..|ps| - 1]);
    }
  }

  lemma {:induction false} EmplaceAllAppends<K, V>(m: map<K, V>, ps: seq<(K, V)>, qs: seq<(K, V)>)
    ensures EmplaceAll(m, ps + qs) == EmplaceAll(EmplaceAll(m, ps), qs)
  {
    if qs == [] {
      assert ps + qs == ps;
    } else {
      var init := qs[..|qs| - 1];
      assert (ps + qs)[..|ps + qs| - 1] == ps + init;
      EmplaceAllAppends(m, ps, init);
    }
  }

  /** After any sequence of pages, good and bad, the map is its initial contents plus all
      pairs that arrived, inserted one after the other: the first value of a field stays
      (EmplaceAllFirstWins), within a page and across pages. */
  lemma {:induction false} HscanAccumulates(m: map<string, string>, rs: seq<Result<CmdReply>>)
    ensures AfterPages(m, rs) == EmplaceAll(m, AllPairs(rs))
  {
    if rs != [] {
      var init, last := rs[..|rs| - 1], rs[|rs| - 1];
      HscanAccumulates(m, init);
      AfterPageEmplaces(AfterPages(m, init), last);
      EmplaceAllAppends(m, AllPairs(init), PagePairs(last));
    }
  }
}
