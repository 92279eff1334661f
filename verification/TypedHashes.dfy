/** The typed hash view (`default_hash_operations` in include/redisdal/redis_operations.hpp):
    maps are serialized on the way out and deserialized in place on the way back, entry by
    entry, in the order of the container. */
module TypedHashes {
  import opened Results
  import opened Decimal
  import opened Serialization
  import opened Replies
  import opened Executors
  import opened Hashes

  /** The serializers of a facade, and the iteration orders of the containers it is used with. */
  datatype Typing<!K, !V> = Typing(codecs: Codecs<K, V>, walkKeys: Walk<K>, walkText: Walk<string>)

  ghost predicate Sound<K(!new), V(!new)>(t: Typing<K, V>) {
    Walks(t.walkKeys) && Walks(t.walkText)
  }

  // ---------- batched hget ----------

  /** `serialized_map` before the request: every requested field, no value yet. */
  function Requested<K, V>(c: Codecs<K, V>, order: seq<K>): map<string, Option<string>> {
    if order == [] then map[]
    else Emplace(Requested(c, order[..|order| - 1]), c.keys.serialize(order[|order| - 1]), None)
  }

  /** One turn of the update loop: find the typed field and overwrite its value. */
  function UpdateOne<K(==), V>(c: Codecs<K, V>, m: map<K, Option<V>>, field: string, value: Option<string>)
    : (map<K, Option<V>>, Result<()>)
  {
    match c.keys.deserialize(field)
    case Err(e) => (m, Err(e))
    case Ok(k) =>
      if k !in m then (m, Ok(()))
      else if value.None? then (m[k := None], Ok(()))
      else match c.values.deserialize(value.value)
        case Err(e) => (m, Err(e))
        case Ok(v) => (m[k := Some(v)], Ok(()))
  }

  /** The update loop stops where a deserializer throws, leaving what it has written. */
  function UpdateAll<K(==), V>(
    c: Codecs<K, V>, m: map<K, Option<V>>, served: map<string, Option<string>>, order: seq<string>)
    : (map<K, Option<V>>, Result<()>)
    requires InMap(order, served)
  {
    if order == [] then (m, Ok(()))
    else
      var (before, r) := UpdateAll(c, m, served, order[..|order| - 1]);
      if r.Err? then (before, r)
      else UpdateOne(c, before, order[|order| - 1], served[order[|order| - 1]])
  }

  lemma {:induction false} UpdateAllStops<K, V>(
    c: Codecs<K, V>, m: map<K, Option<V>>, served: map<string, Option<string>>, order: seq<string>, n: nat)
    requires InMap(order, served)
    requires n <= |order| && UpdateAll(c, m, served, order[..n]).1.Err?
    ensures UpdateAll(c, m, served, order) == UpdateAll(c, m, served, order[..n])
  {
    if n == |order| {
      assert order[..n] == order;
    } else {
      assert order[..|order| - 1][..n] == order[..n];
      UpdateAllStops(c, m, served, order[..|order| - 1], n);
    }
  }

  lemma {:induction false} RequestedKeys<K, V>(c: Codecs<K, V>, order: seq<K>)
    ensures Requested(c, order).Keys == set i | 0 <= i < |order| :: c.keys.serialize(order[i])
  {
    if order != [] {
      var init := order[..|order| - 1];
      RequestedKeys(c, init);
      assert forall i :: 0 <= i < |init| ==> init[i] == order[i];
      assert (set i | 0 <= i < |order| :: c.keys.serialize(order[i]))
          == (set i | 0 <= i < |init| :: c.keys.serialize(init[i])) + {c.keys.serialize(order[|order| - 1])};
    }
  }

  /** The fields of the request, in the order in which they are sent. */
  function RequestedFields<K, V>(t: Typing<K, V>, m: map<K, Option<V>>): seq<string> {
    t.walkText(Requested(t.codecs, t.walkKeys(m.Keys)).Keys)
  }

  /** The caller's map after a batched hget that the server answers with `reply`. */
  function HgetOutcome<K(!new), V(!new)>(t: Typing<K, V>, reply: Result<CmdReply>, m: map<K, Option<V>>)
    : (map<K, Option<V>>, Result<()>)
    requires Sound(t)
  {
    if m == map[] then (m, Ok(()))
    else match Hmget(reply, RequestedFields(t, m))
      case Err(e) => (m, Err(e))
      case Ok(served) =>
        WalkInMap(t, served);
        UpdateAll(t.codecs, m, served, t.walkText(served.Keys))
  }

  lemma WalkInMap<K(!new), V(!new), W>(t: Typing<K, V>, m: map<string, W>)
    requires Sound(t)
    ensures InMap(t.walkText(m.Keys), m)
  {
    var order := t.walkText(m.Keys);
    assert forall i :: 0 <= i < |order| ==> order[i] in m.Keys;
  }

  method Hget<K(!new), V(!new)>(t: Typing<K, V>, exec: Executor, key: K, hashMap: MapRef<K, Option<V>>)
    returns (r: Result<()>)
    requires Sound(t)
    modifies exec, hashMap
    ensures old(hashMap.entries) == map[] ==> exec.trace == old(exec.trace)
    ensures old(hashMap.entries) != map[] ==>
              var fields := RequestedFields(t, old(hashMap.entries));
              exec.trace == old(exec.trace) + [HmgetArgv(t.codecs.keys.serialize(key), fields)]
    ensures (hashMap.entries, r) == HgetOutcome(t, exec.oracle(exec.trace), old(hashMap.entries))
  {
    if hashMap.entries == map[] {
      return Ok(());
    }
    var order := t.walkKeys(hashMap.entries.Keys);
    var serialized := SerializeRequest(t.codecs, order);
    RequestedSome(t.codecs, order, hashMap.entries.Keys);
    ghost var requested := serialized.entries.Keys;
    r := HgetMap(exec, t.codecs.keys.serialize(key), serialized, t.walkText);
    if r.Err? {
      return r;
    }
    HmgetKeys(exec.oracle(exec.trace), t.walkText(requested), requested);
    r := UpdateInPlace(t, hashMap, serialized.entries);
  }

  /** The loop that prepares `serialized_map`. */
  method SerializeRequest<K, V>(c: Codecs<K, V>, order: seq<K>)
    returns (serialized: MapRef<string, Option<string>>)
    ensures fresh(serialized) && serialized.entries == Requested(c, order)
  {
    serialized := new MapRef<string, Option<string>>(map[]);
    for i := 0 to |order|
      invariant serialized.entries == Requested(c, order[..i])
    {
      assert order[..i + 1][..i] == order[..i];
      serialized.entries := Emplace(serialized.entries, c.keys.serialize(order[i]), None);
    }
    assert order[..|order|] == order;
  }

  /** One turn of the update loop extends the prefix, or ends the loop. */
  lemma UpdateAllStep<K, V>(
    c: Codecs<K, V>, m: map<K, Option<V>>, served: map<string, Option<string>>, order: seq<string>, n: nat)
    requires InMap(order, served) && n < |order| && UpdateAll(c, m, served, order[..n]).1.Ok?
    ensures var (updated, step) := UpdateOne(c, UpdateAll(c, m, served, order[..n]).0, order[n], served[order[n]]);
            && UpdateAll(c, m, served, order[..n + 1]) == (updated, step)
            && (step.Err? ==> UpdateAll(c, m, served, order) == (UpdateAll(c, m, served, order[..n]).0, step))
  {
    assert order[..n + 1][..n] == order[..n];
    if UpdateAll(c, m, served, order[..n + 1]).1.Err? {
      UpdateAllStops(c, m, served, order, n + 1);
    }
  }

  /** The loop that writes deserialized results into the caller's map. */
  method UpdateInPlace<K(!new), V(!new)>(
    t: Typing<K, V>, hashMap: MapRef<K, Option<V>>, served: map<string, Option<string>>)
    returns (r: Result<()>)
    requires Sound(t)
    modifies hashMap
    ensures InMap(t.walkText(served.Keys), served)
    ensures (hashMap.entries, r) == UpdateAll(t.codecs, old(hashMap.entries), served, t.walkText(served.Keys))
  {
    var fields := t.walkText(served.Keys);
    assert forall i :: 0 <= i < |fields| ==> fields[i] in served.Keys;
    assert fields[..0] == [];
    assert UpdateAll(t.codecs, hashMap.entries, served, fields[..0]) == (hashMap.entries, Ok(()));
    hide Enumerates, Sound, UpdateOne, UpdateAll;
    for i := 0 to |fields|
      invariant (hashMap.entries, Ok(())) == UpdateAll(t.codecs, old(hashMap.entries), served, fields[..i])
    {
      UpdateAllStep(t.codecs, old(hashMap.entries), served, fields, i);
      var (updated, step) := UpdateOne(t.codecs, hashMap.entries, fields[i], served[fields[i]]);
      if step.Err? {
        return step;
      }
      hashMap.entries := updated;
    }
    assert fields[..|fields|] == fields;
    return Ok(());
  }

  predicate InMap<K(==), V>(order: seq<K>, m: map<K, V>) {
    forall i :: 0 <= i < |order| ==> order[i] in m
  }

  lemma RequestedSome<K, V>(c: Codecs<K, V>, order: seq<K>, keys: set<K>)
    requires Enumerates(order, keys) && keys != {}
    ensures Requested(c, order) != map[]
  {
    EnumerationLength(order, keys);
    RequestedKeys(c, order);
    assert c.keys.serialize(order[0]) in Requested(c, order).Keys;
  }

  lemma HmgetKeys(r: Result<CmdReply>, fields: seq<string>, keys: set<string>)
    requires Enumerates(fields, keys) && Hmget(r, fields).Ok?
    ensures Hmget(r, fields).value.Keys == keys
  {
    var items := AsArray(OrThrow(r.value).value).value;
    var values := Traverse(OptionalString, items).value;
    TraverseOk(OptionalString, items, values);
    ZipLookup(fields, values, keys);
  }

  // ---------- hset, hgetall and hscan ----------

  /** `serialized_map` of a typed map. */
  function SerializedPairs<K(==), V>(c: Codecs<K, V>, m: map<K, V>, order: seq<K>): seq<(string, string)>
    requires InMap(order, m)
  {
    seq(|order|, i requires 0 <= i < |order| => (c.keys.serialize(order[i]), c.values.serialize(m[order[i]])))
  }

  method Hset<K(!new), V(!new)>(t: Typing<K, V>, exec: Executor, key: K, m: map<K, V>) returns (r: Result<bool>)
    requires Sound(t)
    modifies exec
    ensures InMap(t.walkKeys(m.Keys), m)
    ensures m == map[] ==> r == Ok(false) && exec.trace == old(exec.trace)
    ensures m != map[] ==>
              var serialized := EmplaceAll(map[], SerializedPairs(t.codecs, m, t.walkKeys(m.Keys)));
              && exec.trace == old(exec.trace)
                               + [HsetArgv(t.codecs.keys.serialize(key), serialized, t.walkText(serialized.Keys))]
              && r == HsetResult(exec.oracle(exec.trace))
  {
    var order := t.walkKeys(m.Keys);
    assert forall i :: 0 <= i < |order| ==> order[i] in m.Keys;
    var serialized: map<string, string> := map[];
    ghost var ps := SerializedPairs(t.codecs, m, order);
    for i := 0 to |order|
      invariant serialized == EmplaceAll(map[], ps[..i])
      invariant exec.trace == old(exec.trace)
    {
      assert ps[..i + 1] == ps[..i] + [ps[i]];
      EmplaceAllSnoc(map[], ps[..i], ps[i].0, ps[i].1);
      serialized := Emplace(serialized, t.codecs.keys.serialize(order[i]), t.codecs.values.serialize(m[order[i]]));
    }
    assert ps[..|order|] == ps;
    EmplaceAllKeys(map[], ps);
    EnumerationLength(order, m.Keys);
    assert m != map[] ==> ps[0].0 in serialized;
    r := ClientHset(exec, t.codecs.keys.serialize(key), serialized, t.walkText);
  }

  /** One turn of the refill loop: deserialize a pair and `emplace` it. */
  function RefillOne<K(==), V>(c: Codecs<K, V>, m: map<K, V>, field: string, value: string): (map<K, V>, Result<()>) {
    match ReadPair(c)((field, value))
    case Err(e) => (m, Err(e))
    case Ok((k, v)) => (Emplace(m, k, v), Ok(()))
  }

  /** The refill loop of hgetall and hscan, from an empty map; it stops where a deserializer throws. */
  function RefillAll<K(==), V>(c: Codecs<K, V>, raw: map<string, string>, order: seq<string>): (map<K, V>, Result<()>)
    requires InMap(order, raw)
  {
    if order == [] then (map[], Ok(()))
    else
      var (before, r) := RefillAll(c, raw, order[..|order| - 1]);
      if r.Err? then (before, r)
      else RefillOne(c, before, order[|order| - 1], raw[order[|order| - 1]])
  }

  lemma {:induction false} RefillAllStops<K, V>(c: Codecs<K, V>, raw: map<string, string>, order: seq<string>, n: nat)
    requires InMap(order, raw) && n <= |order| && RefillAll(c, raw, order[..n]).1.Err?
    ensures RefillAll(c, raw, order) == RefillAll(c, raw, order[..n])
  {
    if n == |order| {
      assert order[..n] == order;
    } else {
      assert order[..|order| - 1][..n] == order[..n];
      RefillAllStops(c, raw, order[..|order| - 1], n);
    }
  }

  /** One turn of the refill loop extends the prefix, or ends the loop. */
  lemma RefillAllStep<K, V>(c: Codecs<K, V>, raw: map<string, string>, order: seq<string>, n: nat)
    requires InMap(order, raw) && n < |order| && RefillAll(c, raw, order[..n]).1.Ok?
    ensures var (updated, step) := RefillOne(c, RefillAll(c, raw, order[..n]).0, order[n], raw[order[n]]);
            && RefillAll(c, raw, order[..n + 1]) == (updated, step)
            && (step.Err? ==> RefillAll(c, raw, order) == (RefillAll(c, raw, order[..n]).0, step))
  {
    assert order[..n + 1][..n] == order[..n];
    if RefillAll(c, raw, order[..n + 1]).1.Err? {
      RefillAllStops(c, raw, order, n + 1);
    }
  }

  method Refill<K(!new), V(!new)>(
    t: Typing<K, V>, hashMap: MapRef<K, V>, raw: map<string, string>)
    returns (r: Result<()>)
    requires Sound(t)
    modifies hashMap
    ensures InMap(t.walkText(raw.Keys), raw)
    ensures (hashMap.entries, r) == RefillAll(t.codecs, raw, t.walkText(raw.Keys))
  {
    var fields := t.walkText(raw.Keys);
    assert forall i :: 0 <= i < |fields| ==> fields[i] in raw.Keys;
    hashMap.entries := map[];
    assert fields[..0] == [];
    assert RefillAll(t.codecs, raw, fields[..0]) == (hashMap.entries, Ok(()));
    hide Enumerates, Sound, RefillOne, RefillAll;
    for i := 0 to |fields|
      invariant (hashMap.entries, Ok(())) == RefillAll(t.codecs, raw, fields[..i])
    {
      RefillAllStep(t.codecs, raw, fields, i);
      var (updated, step) := RefillOne(t.codecs, hashMap.entries, fields[i], raw[fields[i]]);
      if step.Err? {
        return step;
      }
      hashMap.entries := updated;
    }
    assert fields[..|fields|] == fields;
    return Ok(());
  }

  /** What hgetall returns for a reply; a value that fails to deserialize loses the result. */
  function HgetallOutcome<K(!new), V(!new)>(t: Typing<K, V>, reply: Result<CmdReply>): Result<map<K, V>>
    requires Sound(t)
  {
    match HgetallResult(reply)
    case Err(e) => Err(e)
    case Ok(raw) =>
      WalkInMap(t, raw);
      match RefillAll(t.codecs, raw, t.walkText(raw.Keys))
      case (_, Err(e)) => Err(e)
      case (filled, Ok(_)) => Ok(filled)
  }

  method Hgetall<K(!new), V(!new)>(t: Typing<K, V>, exec: Executor, key: K) returns (r: Result<map<K, V>>)
    requires Sound(t)
    modifies exec
    ensures exec.trace == old(exec.trace) + [["HGETALL", t.codecs.keys.serialize(key)]]
    ensures r == HgetallOutcome(t, exec.oracle(exec.trace))
  {
    var raw := ClientHgetall(exec, t.codecs.keys.serialize(key));
    if raw.Err? {
      return Err(raw.error);
    }
    var result := new MapRef<K, V>(map[]);
    var done := Refill(t, result, raw.value);
    if done.Err? {
      return Err(done.error);
    }
    return Ok(result.entries);
  }

  /** The typed hscan replaces the caller's map where the string-level one extends it; a
      page that fails to decode leaves it alone, a value that fails to deserialize does not. */
  method Hscan<K(!new), V(!new)>(t: Typing<K, V>, exec: Executor, key: K, cursor: UInt64, pattern: K, count: UInt32,
                                 hashMap: MapRef<K, V>)
    returns (r: Result<UInt64>)
    requires Sound(t)
    modifies exec, hashMap
    ensures exec.trace == old(exec.trace)
                          + [HscanArgv(t.codecs.keys.serialize(key), cursor, t.codecs.keys.serialize(pattern), count)]
    ensures match PageOf(exec.oracle(exec.trace))
            case Err(e) => r == Err(e) && hashMap.entries == old(hashMap.entries)
            case Ok((next, fields)) =>
              && InMap(t.walkText(fields.Keys), fields)
              && var (filled, done) := RefillAll(t.codecs, fields, t.walkText(fields.Keys));
                 hashMap.entries == filled && r == (if done.Ok? then Ok(next) else Err(done.error))
  {
    var serialized := new MapRef<string, string>(map[]);
    var name, glob := t.codecs.keys.serialize(key), t.codecs.keys.serialize(pattern);
    var next := Hashes.Hscan(exec, name, cursor, glob, count, serialized);
    if next.Err? {
      return next;
    }
    assert PageOf(exec.oracle(exec.trace)).value.1 + map[] == PageOf(exec.oracle(exec.trace)).value.1;
    var done := Refill(t, hashMap, serialized.entries);
    if done.Err? {
      return Err(done.error);
    }
    return next;
  }
}
