/** What the typed hash view of TypedHashes guarantees for serializers that round trip, over
    every order in which an unordered container may be walked: what a batched hget and a
    page do to the caller's map, exactly, and that typed maps survive storing and reading. */
module TypedHashLaws {
  import opened Results
  import opened Decimal
  import opened Serialization
  import opened Replies
  import opened Executors
  import opened Hashes
  import opened TypedHashes

  // ---------- what a batched hget does to the caller's map ----------

  /** A string-level lookup result in terms of the value type. */
  function Lift<K, V>(c: Codecs<K, V>, o: Option<string>): Result<Option<V>> {
    match o
    case None => Ok(None)
    case Some(text) =>
      var v :- c.values.deserialize(text);
      Ok(Some(v))
  }

  /** `served` answers exactly the fields of `m`. */
  ghost predicate Answers<K, V>(c: Codecs<K, V>, m: map<K, Option<V>>, served: map<string, Option<string>>) {
    served.Keys == set k | k in m :: c.keys.serialize(k)
  }

  /** One turn of the update loop touches the one entry its field stands for. */
  lemma UpdateOneEffect<K, V>(c: Codecs<K, V>, m: map<K, Option<V>>, key: K, field: string, value: Option<string>)
    requires key in m && c.keys.deserialize(field) == Ok(key)
    ensures UpdateOne(c, m, field, value) ==
            match Lift(c, value)
            case Ok(v) => (m[key := v], Ok(()))
            case Err(e) => (m, Err(e))
  {
  }

  lemma {:induction false} UpdateAllProgress<K(!new), V>(
    c: Codecs<K, V>, m: map<K, Option<V>>, served: map<string, Option<string>>, order: seq<string>)
    requires RoundTrips(c.keys) && Answers(c, m, served) && InMap(order, served)
    ensures var (m', r) := UpdateAll(c, m, served, order);
            && m'.Keys == m.Keys
            && (forall k :: k in m ==> m'[k] == m[k] || Lift(c, served[c.keys.serialize(k)]) == Ok(m'[k]))
            && (forall k :: k in m && c.keys.serialize(k) !in order ==> m'[k] == m[k])
            && (r.Ok? ==> forall k :: k in m && c.keys.serialize(k) in order ==>
                            Lift(c, served[c.keys.serialize(k)]) == Ok(m'[k]))
            && (r.Ok? <==> forall k :: k in m && c.keys.serialize(k) in order ==>
                             Lift(c, served[c.keys.serialize(k)]).Ok?)
  {
    hide UpdateOne, Lift;
    if order != [] {
      var init, last := order[..|order| - 1], order[|order| - 1];
      assert order == init + [last];
      UpdateAllProgress(c, m, served, init);
      assert last in served.Keys;
      var key :| key in m && c.keys.serialize(key) == last;
      assert c.keys.deserialize(last) == Ok(key);
      UpdateOneEffect(c, UpdateAll(c, m, served, init).0, key, last, served[last]);
      forall k | k in m && c.keys.serialize(k) == last
        ensures k == key
      {
        assert c.keys.deserialize(c.keys.serialize(k)) == Ok(k);
      }
    }
  }

  /** Once the server has answered, a batched hget succeeds exactly when every value found
      deserializes; then every requested field holds its own lifted answer, nothing is
      lost, merged or added, and the order of iteration does not show. On failure the keys
      are intact and each entry is either untouched or already updated. */
  lemma HgetLifts<K(!new), V>(
    c: Codecs<K, V>, m: map<K, Option<V>>, served: map<string, Option<string>>, order: seq<string>)
    requires RoundTrips(c.keys) && Answers(c, m, served) && Enumerates(order, served.Keys)
    ensures InMap(order, served)
    ensures var (m', r) := UpdateAll(c, m, served, order);
            && (r.Ok? <==> forall k :: k in m ==> Lift(c, served[c.keys.serialize(k)]).Ok?)
            && (r.Ok? ==> m' == map k | k in m :: Lift(c, served[c.keys.serialize(k)]).value)
            && m'.Keys == m.Keys
            && forall k :: k in m ==> m'[k] == m[k] || Lift(c, served[c.keys.serialize(k)]) == Ok(m'[k])
  {
    assert forall i :: 0 <= i < |order| ==> order[i] in served.Keys;
    forall k | k in m
      ensures c.keys.serialize(k) in order
    {
      assert c.keys.serialize(k) in served.Keys;
      var i :| 0 <= i < |order| && order[i] == c.keys.serialize(k);
    }
    UpdateAllProgress(c, m, served, order);
  }

  /** On failure, exactly the entries whose fields come before the failing one in the order
      of iteration are updated. */
  lemma HgetStopsAt<K(!new), V>(
    c: Codecs<K, V>, m: map<K, Option<V>>, served: map<string, Option<string>>, order: seq<string>, n: nat)
    requires RoundTrips(c.keys) && Answers(c, m, served) && InMap(order, served) && n < |order|
    requires forall i :: 0 <= i < n ==> Lift(c, served[order[i]]).Ok?
    requires Lift(c, served[order[n]]).Err?
    ensures var (m', r) := UpdateAll(c, m, served, order);
            && r == Err(Lift(c, served[order[n]]).error)
            && m'.Keys == m.Keys
            && forall k :: k in m ==>
                 if c.keys.serialize(k) in order[..n] then Lift(c, served[c.keys.serialize(k)]) == Ok(m'[k])
                 else m'[k] == m[k]
  {
    hide UpdateOne, UpdateAll, Lift;
    var done := order[..n];
    UpdateAllProgress(c, m, served, done);
    UpdateAllStep(c, m, served, order, n);
    assert order[n] in served.Keys;
    var key :| key in m && c.keys.serialize(key) == order[n];
    assert c.keys.deserialize(order[n]) == Ok(key);
    UpdateOneEffect(c, UpdateAll(c, m, served, done).0, key, order[n], served[order[n]]);
  }

  /** The request built from a caller's map asks for exactly the serialized fields, one
      for each typed field. */
  lemma RequestAsksAll<K(!new), V(!new)>(
    c: Codecs<K, V>, m: map<K, Option<V>>, order: seq<K>, served: map<string, Option<string>>)
    requires Enumerates(order, m.Keys) && served.Keys == Requested(c, order).Keys
    ensures Answers(c, m, served)
  {
    RequestedKeys(c, order);
    forall k | k in m
      ensures c.keys.serialize(k) in served.Keys
    {
      var i :| 0 <= i < |order| && order[i] == k;
      assert c.keys.serialize(order[i]) in served.Keys;
    }
    forall s | s in served.Keys
      ensures s in set k | k in m :: c.keys.serialize(k)
    {
      var i :| 0 <= i < |order| && s == c.keys.serialize(order[i]);
      assert order[i] in m.Keys;
    }
  }

  /** A server that answers HMGET field by field from `lookup`. */
  function Answered(lookup: string -> Option<string>, fields: seq<string>): CmdReply {
    MakeArray(seq(|fields|, i requires 0 <= i < |fields| => EncodeOptional(lookup(fields[i]))))
  }

  /** What a server that answers field by field binds the requested fields to. */
  function Served<K, V>(t: Typing<K, V>, m: map<K, Option<V>>, lookup: string -> Option<string>)
    : map<string, Option<string>>
  {
    map f | f in Requested(t.codecs, t.walkKeys(m.Keys)).Keys :: lookup(f)
  }

  /** The call as a whole is the update loop over the server's answers. */
  lemma OutcomeByLookup<K(!new), V(!new)>(t: Typing<K, V>, m: map<K, Option<V>>, lookup: string -> Option<string>)
    requires Sound(t)
    ensures var served := Served(t, m, lookup);
            && Answers(t.codecs, m, served) && InMap(t.walkText(served.Keys), served)
            && HgetOutcome(t, Ok(Answered(lookup, RequestedFields(t, m))), m)
               == UpdateAll(t.codecs, m, served, t.walkText(served.Keys))
  {
    hide Hmget, Requested;
    var served := Served(t, m, lookup);
    var fields := RequestedFields(t, m);
    assert served.Keys == Requested(t.codecs, t.walkKeys(m.Keys)).Keys;
    assert Enumerates(fields, served.Keys) && Enumerates(t.walkKeys(m.Keys), m.Keys);
    ServedByLookup(lookup, fields, served);
    RequestAsksAll(t.codecs, m, t.walkKeys(m.Keys), served);
    WalkInMap(t, served);
    if m == map[] {
      EnumerationLength(fields, served.Keys);
      assert fields == [];
    }
  }

  /** The whole batched hget is a per-field lookup lifted through the serializers. Against
      a server that answers each field by itself, it succeeds exactly when every value found
      deserializes, and then every typed field holds its own deserialized value. No order of
      iteration is left in the result. */
  lemma HgetIsLookup<K(!new), V(!new)>(t: Typing<K, V>, m: map<K, Option<V>>, lookup: string -> Option<string>)
    requires Sound(t) && RoundTrips(t.codecs.keys)
    ensures var (updated, r) := HgetOutcome(t, Ok(Answered(lookup, RequestedFields(t, m))), m);
            && (r.Ok? <==> forall k :: k in m ==> Lift(t.codecs, lookup(t.codecs.keys.serialize(k))).Ok?)
            && (r.Ok? ==> updated == map k | k in m :: Lift(t.codecs, lookup(t.codecs.keys.serialize(k))).value)
  {
    hide UpdateAll, HgetOutcome, Requested, Lift, RequestedFields, Answered, Enumerates;
    var served := Served(t, m, lookup);
    OutcomeByLookup(t, m, lookup);
    assert Enumerates(t.walkText(served.Keys), served.Keys);
    HgetLifts(t.codecs, m, served, t.walkText(served.Keys));
    LookupOf(t, m, lookup);
  }

  lemma LookupOf<K(!new), V(!new)>(t: Typing<K, V>, m: map<K, Option<V>>, lookup: string -> Option<string>)
    requires Answers(t.codecs, m, Served(t, m, lookup))
    ensures forall k :: k in m ==> t.codecs.keys.serialize(k) in Served(t, m, lookup)
    ensures forall k :: k in m ==>
              Served(t, m, lookup)[t.codecs.keys.serialize(k)] == lookup(t.codecs.keys.serialize(k))
  {
    forall k | k in m
      ensures t.codecs.keys.serialize(k) in Served(t, m, lookup)
    {
      assert t.codecs.keys.serialize(k) in Served(t, m, lookup).Keys;
    }
  }

  lemma ServedByLookup(lookup: string -> Option<string>, fields: seq<string>, served: map<string, Option<string>>)
    requires Enumerates(fields, served.Keys) && forall f :: f in served ==> served[f] == lookup(f)
    ensures Hmget(Ok(Answered(lookup, fields)), fields) == Ok(served)
  {
    assert forall i :: 0 <= i < |fields| ==> fields[i] in served.Keys;
    hide Hmget;
    assert Elements(EncodeLookup(served, fields)) == Elements(Answered(lookup, fields));
    HmgetDomain(Answered(lookup, fields), fields, served);
  }

  /** How the whole call fails before the update loop: the caller's map is as before, and
      the error is that of the transport, of the server, or of the shape of the reply. */
  lemma HgetRejects<K(!new), V(!new)>(t: Typing<K, V>, m: map<K, Option<V>>, reply: CmdReply, e: Error)
    requires Sound(t) && m != map[]
    ensures HgetOutcome(t, Err(e), m) == (m, Err(e))
    ensures reply.tag == ERROR ==> HgetOutcome(t, Ok(reply), m) == (m, Err(RedisError(reply.text.value)))
    ensures reply.tag !in {ERROR, ARRAY} ==> HgetOutcome(t, Ok(reply), m) == (m, Err(UnexpectedReplyType(ARRAY)))
    ensures reply.tag == ARRAY && |Elements(reply)| != |RequestedFields(t, m)| ==>
              HgetOutcome(t, Ok(reply), m) == (m, Err(RuntimeError))
    ensures reply.tag == ARRAY && |Elements(reply)| == |RequestedFields(t, m)|
            && (exists i :: 0 <= i < |Elements(reply)| && Elements(reply)[i].tag !in {NIL, STRING}) ==>
              HgetOutcome(t, Ok(reply), m) == (m, Err(UnexpectedReplyType(STRING)))
  {
    hide Hmget, RequestedFields, UpdateAll;
    HmgetRejects(reply, RequestedFields(t, m), e);
  }

  // ---------- the update loop with any serializers ----------

  /** The loop gets past this field: its key deserializes, and so does the value found, if
      the caller asked for that key. */
  predicate FieldPasses<K(==), V>(c: Codecs<K, V>, m: map<K, Option<V>>, field: string, value: Option<string>) {
    && c.keys.deserialize(field).Ok?
    && (c.keys.deserialize(field).value in m ==> Lift(c, value).Ok?)
  }

  /** With no law asked of the serializers: the loop never adds or drops an entry, writes
      only what it was sent for a key, lets the last field of a key win, and gets through
      exactly when every field passes. */
  lemma {:induction false} UpdateAllAnyCodec<K, V>(
    c: Codecs<K, V>, m: map<K, Option<V>>, served: map<string, Option<string>>, order: seq<string>)
    requires InMap(order, served)
    ensures var (m', r) := UpdateAll(c, m, served, order);
            && m'.Keys == m.Keys
            && (r.Ok? <==> forall i :: 0 <= i < |order| ==> FieldPasses(c, m, order[i], served[order[i]]))
            && (forall k :: k in m && m'[k] != m[k] ==>
                  exists i :: 0 <= i < |order| && c.keys.deserialize(order[i]) == Ok(k)
                              && Lift(c, served[order[i]]) == Ok(m'[k]))
            && (r.Ok? ==>
                  forall i :: 0 <= i < |order| && c.keys.deserialize(order[i]).Ok? ==>
                    var k := c.keys.deserialize(order[i]).value;
                    k in m && (forall j :: i < j < |order| ==> c.keys.deserialize(order[j]) != Ok(k)) ==>
                      Lift(c, served[order[i]]) == Ok(m'[k]))
  {
    if order != [] {
      var n := |order| - 1;
      var init := order[..n];
      UpdateAllAnyCodec(c, m, served, init);
      assert forall i :: 0 <= i < n ==> order[i] == init[i];
      var before := UpdateAll(c, m, served, init).0;
      UpdateOneAnyCodec(c, before, order[n], served[order[n]]);
    }
  }

  lemma UpdateOneAnyCodec<K, V>(c: Codecs<K, V>, m: map<K, Option<V>>, field: string, value: Option<string>)
    ensures var (m', r) := UpdateOne(c, m, field, value);
            && (r.Ok? <==> FieldPasses(c, m, field, value))
            && (c.keys.deserialize(field).Err? ==> r == Err(c.keys.deserialize(field).error))
            && m' == if FieldPasses(c, m, field, value) && c.keys.deserialize(field).value in m
                     then m[c.keys.deserialize(field).value := Lift(c, value).value] else m
  {
  }

  // ---------- when a batched hget is all-or-nothing ----------

  /** A value written by the first turn of the update loop is not taken back. */
  lemma {:induction false} FirstWriteStays<K(!new), V>(
    c: Codecs<K, V>, m: map<K, Option<V>>, served: map<string, Option<string>>, order: seq<string>, key: K)
    requires RoundTrips(c.keys) && Answers(c, m, served) && InMap(order, served)
    requires key in m && order != [] && order[0] == c.keys.serialize(key)
    requires Lift(c, served[order[0]]).Ok?
    ensures var (updated, _) := UpdateAll(c, m, served, order);
            key in updated && updated[key] == Lift(c, served[order[0]]).value
  {
    hide UpdateOne, Lift;
    var init, last := order[..|order| - 1], order[|order| - 1];
    UpdateAllProgress(c, m, served, init);
    assert last in served.Keys;
    var lastKey :| lastKey in m && c.keys.serialize(lastKey) == last;
    assert c.keys.deserialize(last) == Ok(lastKey);
    UpdateOneEffect(c, UpdateAll(c, m, served, init).0, lastKey, last, served[last]);
    if init == [] {
      assert c.keys.deserialize(c.keys.serialize(key)) == Ok(key);
    } else {
      FirstWriteStays(c, m, served, init, key);
    }
  }

  function ToFront<T>(s: seq<T>, i: nat): seq<T>
    requires i < |s|
  {
    [s[i]] + (s[..i] + s[i + 1..])
  }

  lemma ToFrontEnumerates<T>(order: seq<T>, keys: set<T>, i: nat)
    requires Enumerates(order, keys) && i < |order|
    ensures Enumerates(ToFront(order, i), keys)
  {
    var moved := ToFront(order, i);
    forall x | x in keys
      ensures x in set j | 0 <= j < |moved| :: moved[j]
    {
      var j :| 0 <= j < |order| && order[j] == x;
      assert moved[if j == i then 0 else if j < i then j + 1 else j] == x;
    }
    forall j | 0 <= j < |moved|
      ensures moved[j] in keys
    {
      assert moved[j] == order[if j == 0 then i else if j <= i then j - 1 else j];
    }
  }

  ghost predicate AllOrNothing<K(!new), V(!new)>(
    t: Typing<K, V>, m: map<K, Option<V>>, lookup: string -> Option<string>)
    requires Sound(t)
  {
    var (updated, r) := HgetOutcome(t, Ok(Answered(lookup, RequestedFields(t, m))), m);
    r.Ok? || updated == m
  }

  /** Every value found deserializes, or no value that does would change its entry. */
  ghost predicate NothingHalfDone<K, V>(c: Codecs<K, V>, m: map<K, Option<V>>, lookup: string -> Option<string>) {
    || (forall k :: k in m ==> Lift(c, lookup(c.keys.serialize(k))).Ok?)
    || (forall k :: k in m && Lift(c, lookup(c.keys.serialize(k))).Ok? ==>
          Lift(c, lookup(c.keys.serialize(k))).value == m[k])
  }

  lemma HarmlessIsAtomic<K(!new), V(!new)>(t: Typing<K, V>, m: map<K, Option<V>>, lookup: string -> Option<string>)
    requires Sound(t) && RoundTrips(t.codecs.keys) && NothingHalfDone(t.codecs, m, lookup)
    ensures AllOrNothing(t, m, lookup)
  {
    hide UpdateAll, HgetOutcome, Requested, Lift, RequestedFields, Answered, Enumerates;
    var served := Served(t, m, lookup);
    OutcomeByLookup(t, m, lookup);
    assert Enumerates(t.walkText(served.Keys), served.Keys);
    HgetLifts(t.codecs, m, served, t.walkText(served.Keys));
    LookupOf(t, m, lookup);
  }

  /** If a value does not deserialize and another one would change its entry, then walking
      the latter first leaves the map half updated. */
  lemma HarmfulOrder<K(!new), V(!new)>(
    t: Typing<K, V>, m: map<K, Option<V>>, lookup: string -> Option<string>, changed: K)
    requires Sound(t) && RoundTrips(t.codecs.keys)
    requires changed in m && Lift(t.codecs, lookup(t.codecs.keys.serialize(changed))).Ok?
    requires Lift(t.codecs, lookup(t.codecs.keys.serialize(changed))).value != m[changed]
    requires exists k :: k in m && Lift(t.codecs, lookup(t.codecs.keys.serialize(k))).Err?
    requires var keys := Served(t, m, lookup).Keys;
             t.walkText(keys) != [] && t.walkText(keys)[0] == t.codecs.keys.serialize(changed)
    ensures !AllOrNothing(t, m, lookup)
  {
    hide UpdateAll, HgetOutcome, Requested, Lift, RequestedFields, Answered, Enumerates;
    var served := Served(t, m, lookup);
    OutcomeByLookup(t, m, lookup);
    LookupOf(t, m, lookup);
    assert Enumerates(t.walkText(served.Keys), served.Keys);
    HgetLifts(t.codecs, m, served, t.walkText(served.Keys));
    FirstWriteStays(t.codecs, m, served, t.walkText(served.Keys), changed);
  }

  /** The typed batched hget leaves the caller's map alone when it fails, whatever order its
      containers are walked in, if and only if nothing would be half done: either every
      value found deserializes, or no value that does would change its entry. */
  lemma HgetAtomicIff<K(!new), V(!new)>(t: Typing<K, V>, m: map<K, Option<V>>, lookup: string -> Option<string>)
    requires Sound(t) && RoundTrips(t.codecs.keys)
    ensures NothingHalfDone(t.codecs, m, lookup) <==>
            forall walk: Walk<string> :: Walks(walk) ==> AllOrNothing(t.(walkText := walk), m, lookup)
  {
    hide AllOrNothing, Requested, Lift, Enumerates;
    var c := t.codecs;
    if NothingHalfDone(c, m, lookup) {
      forall walk: Walk<string> | Walks(walk)
        ensures AllOrNothing(t.(walkText := walk), m, lookup)
      {
        HarmlessIsAtomic(t.(walkText := walk), m, lookup);
      }
    } else {
      var changed :| changed in m && Lift(c, lookup(c.keys.serialize(changed))).Ok?
                     && Lift(c, lookup(c.keys.serialize(changed))).value != m[changed];
      var keys, field := Served(t, m, lookup).Keys, c.keys.serialize(changed);
      OutcomeByLookup(t, m, lookup);
      LookupOf(t, m, lookup);
      var walk := WalkFrom(t.walkText, keys, field);
      assert Served(t.(walkText := walk), m, lookup) == Served(t, m, lookup);
      HarmfulOrder(t.(walkText := walk), m, lookup, changed);
    }
  }

  /** A walk that visits `field` first among `keys`. */
  lemma WalkFrom(walk: Walk<string>, keys: set<string>, field: string) returns (other: Walk<string>)
    requires Walks(walk) && field in keys
    ensures Walks(other) && other(keys) != [] && other(keys)[0] == field
  {
    var order := walk(keys);
    assert Enumerates(order, keys);
    var i: nat :| i < |order| && order[i] == field;
    ToFrontEnumerates(order, keys, i);
    var moved := ToFront(order, i);
    other := (ks: set<string>) => if ks == keys then moved else walk(ks);
  }

  /** A value codec that rejects the text "bad". */
  const PICKY: Codec<string> :=
    Codec((s: string) => s, (s: string) => if s == "bad" then Err(InvalidArgument) else Ok(s))

  lemma TwoOrders(order: seq<string>, a: string, b: string)
    requires Enumerates(order, {a, b}) && a != b
    ensures order == [a, b] || order == [b, a]
  {
    EnumerationLength(order, {a, b});
    assert |order| == 2 && order == [order[0], order[1]];
    assert order[0] in {a, b} && order[1] in {a, b};
  }

  lemma TwoFieldsRequested<V>(c: Codecs<string, V>, a: string, b: string)
    requires c.keys == STRING_CODEC
    ensures Requested(c, [a, b]).Keys == {a, b}
  {
    hide Requested;
    RequestedKeys(c, [a, b]);
    var order := [a, b];
    assert c.keys.serialize(order[0]) == a && c.keys.serialize(order[1]) == b;
    assert (set i | 0 <= i < |order| :: c.keys.serialize(order[i])) == {a, b};
  }

  /** The update loop over two fields of which the second does not deserialize. */
  lemma HalfUpdated(c: Codecs<string, string>, m: map<string, Option<string>>, x: string, y: string)
    requires c == Codecs(STRING_CODEC, PICKY) && x in m && y in m && x != y
    ensures UpdateAll(c, m, map[x := Some("new"), y := Some("bad")], [x, y])
         == (m[x := Some("new")], Err(InvalidArgument))
  {
    var served := map[x := Some("new"), y := Some("bad")];
    assert "new"[0] != "bad"[0];
    assert [x, y][..1] == [x] && [x][..0] == [];
    assert UpdateAll(c, m, served, [x]) == (m[x := Some("new")], Ok(()));
  }

  /** Unlike the string-level hget, the typed one is not all-or-nothing: however the
      containers are walked, a reply whose second value does not deserialize leaves the
      caller's map half updated. */
  lemma TypedHgetNotAtomic(walkKeys: Walk<string>, walkText: Walk<string>, a: string, b: string)
    requires Walks(walkKeys) && Walks(walkText) && a != b
    ensures var t := Typing(Codecs(STRING_CODEC, PICKY), walkKeys, walkText);
            var m := map[a := Some("old"), b := Some("old")];
            var fields := RequestedFields(t, m);
            && (fields == [a, b] || fields == [b, a])
            && HgetOutcome(t, Ok(MakeArray([MakeString("new"), MakeString("bad")])), m)
               == (m[fields[0] := Some("new")], Err(InvalidArgument))
  {
    hide Requested, Enumerates, UpdateAll, Hmget;
    var t := Typing(Codecs(STRING_CODEC, PICKY), walkKeys, walkText);
    var m := map[a := Some("old"), b := Some("old")];
    assert m.Keys == {a, b};
    assert Enumerates(walkKeys({a, b}), {a, b}) && Enumerates(walkText({a, b}), {a, b});
    TwoOrders(walkKeys({a, b}), a, b);
    TwoOrders(walkText({a, b}), a, b);
    TwoFieldsRequested(t.codecs, a, b);
    TwoFieldsRequested(t.codecs, b, a);
    assert {b, a} == {a, b};
    var fields := RequestedFields(t, m);
    var served := map[fields[0] := Some("new"), fields[1] := Some("bad")];
    assert served.Keys == {a, b};
    TwoValuesRead(fields[0], fields[1], served);
    HalfUpdated(t.codecs, m, fields[0], fields[1]);
  }

  lemma TwoValuesRead(x: string, y: string, served: map<string, Option<string>>)
    requires x != y && served == map[x := Some("new"), y := Some("bad")] && Enumerates([x, y], served.Keys)
    ensures Hmget(Ok(MakeArray([MakeString("new"), MakeString("bad")])), [x, y]) == Ok(served)
  {
    hide Hmget;
    var reply := MakeArray([MakeString("new"), MakeString("bad")]);
    assert Elements(reply) == Elements(EncodeLookup(served, [x, y]));
    HmgetDomain(reply, [x, y], served);
  }

  // ---------- what a page does to the caller's map ----------

  function ReadAt<K, V>(c: Codecs<K, V>, raw: map<string, string>, field: string): Result<(K, V)>
    requires field in raw
  {
    ReadPair(c)((field, raw[field]))
  }

  /** How many pairs deserialize before the first one that does not. */
  function ReadableUpTo<K, V>(c: Codecs<K, V>, raw: map<string, string>, order: seq<string>): (n: nat)
    requires InMap(order, raw)
    ensures n <= |order|
    ensures forall i :: 0 <= i < n ==> ReadAt(c, raw, order[i]).Ok?
    ensures n < |order| ==> ReadAt(c, raw, order[n]).Err?
  {
    if order == [] then 0
    else
      var before := ReadableUpTo(c, raw, order[..|order| - 1]);
      if before < |order| - 1 || ReadAt(c, raw, order[|order| - 1]).Err? then before else before + 1
  }

  function ReadPairs<K, V>(c: Codecs<K, V>, raw: map<string, string>, order: seq<string>): seq<(K, V)>
    requires InMap(order, raw) && forall i :: 0 <= i < |order| ==> ReadAt(c, raw, order[i]).Ok?
  {
    seq(|order|, i requires 0 <= i < |order| => ReadAt(c, raw, order[i]).value)
  }

  lemma {:induction false} RefillReadable<K, V>(c: Codecs<K, V>, raw: map<string, string>, order: seq<string>)
    requires InMap(order, raw) && forall i :: 0 <= i < |order| ==> ReadAt(c, raw, order[i]).Ok?
    ensures RefillAll(c, raw, order) == (EmplaceAll(map[], ReadPairs(c, raw, order)), Ok(()))
  {
    if order != [] {
      var init, last := order[..|order| - 1], order[|order| - 1];
      RefillReadable(c, raw, init);
      var (k, v) := ReadAt(c, raw, last).value;
      assert ReadPairs(c, raw, order) == ReadPairs(c, raw, init) + [(k, v)];
      EmplaceAllSnoc(map[], ReadPairs(c, raw, init), k, v);
    }
  }

  /** hgetall and hscan succeed exactly when every pair deserializes. What the map holds
      afterwards, also when one does not, is every pair before the first failure in the
      order of iteration, the first value of a repeated key. */
  lemma RefillExact<K, V>(c: Codecs<K, V>, raw: map<string, string>, order: seq<string>)
    requires InMap(order, raw)
    ensures RefillAll(c, raw, order).1.Ok? <==> forall i :: 0 <= i < |order| ==> ReadAt(c, raw, order[i]).Ok?
    ensures var n := ReadableUpTo(c, raw, order);
            RefillAll(c, raw, order) ==
            (EmplaceAll(map[], ReadPairs(c, raw, order[..n])),
             if n == |order| then Ok(()) else Err(ReadAt(c, raw, order[n]).error))
  {
    hide RefillAll, EmplaceAll, ReadableUpTo;
    var n := ReadableUpTo(c, raw, order);
    RefillReadable(c, raw, order[..n]);
    if n < |order| {
      RefillAllStep(c, raw, order, n);
    } else {
      assert order[..n] == order;
    }
  }

  /** The result of a page is the same for every order of iteration. */
  ghost predicate OrderDoesNotShow<K, V>(c: Codecs<K, V>, raw: map<string, string>) {
    forall a, b :: Enumerates(a, raw.Keys) && InMap(a, raw) && Enumerates(b, raw.Keys) && InMap(b, raw) ==>
      RefillAll(c, raw, a) == RefillAll(c, raw, b)
  }

  /** All pairs deserialize, and pairs with one typed key have one typed value. */
  ghost predicate NothingMerged<K, V>(c: Codecs<K, V>, raw: map<string, string>) {
    && (forall f :: f in raw ==> ReadAt(c, raw, f).Ok?)
    && forall f, g :: f in raw && g in raw && ReadAt(c, raw, f).value.0 == ReadAt(c, raw, g).value.0 ==>
         ReadAt(c, raw, f).value.1 == ReadAt(c, raw, g).value.1
  }

  /** No pair deserializes, all for the same reason. */
  ghost predicate NothingRead<K, V>(c: Codecs<K, V>, raw: map<string, string>) {
    && (forall f :: f in raw ==> ReadAt(c, raw, f).Err?)
    && forall f, g :: f in raw && g in raw ==> ReadAt(c, raw, f).error == ReadAt(c, raw, g).error
  }

  lemma {:induction false} EmplacedFrom<K, V>(ps: seq<(K, V)>, k: K)
    requires k in EmplaceAll(map[], ps)
    ensures exists i :: 0 <= i < |ps| && ps[i] == (k, EmplaceAll(map[], ps)[k])
  {
    var init := ps[..|ps| - 1];
    if k in EmplaceAll(map[], init) {
      EmplacedFrom(init, k);
      var i :| 0 <= i < |init| && init[i] == (k, EmplaceAll(map[], init)[k]);
      assert ps[i] == init[i];
    } else {
      assert ps[|ps| - 1] == (k, EmplaceAll(map[], ps)[k]);
    }
  }

  lemma EmplaceNone<K, V>()
    ensures EmplaceAll<K, V>(map[], []) == map[]
  {
  }

  /** What the first pair in the order decides. */
  lemma RefillStart<K, V>(c: Codecs<K, V>, raw: map<string, string>, order: seq<string>)
    requires InMap(order, raw) && order != []
    ensures var (m, r) := RefillAll(c, raw, order);
            match ReadAt(c, raw, order[0])
            case Err(e) => (m, r) == (map[], Err(e))
            case Ok((k, v)) => k in m && m[k] == v
  {
    hide RefillAll, EmplaceAll, ReadableUpTo;
    RefillExact(c, raw, order);
    var n := ReadableUpTo(c, raw, order);
    var pairs := ReadPairs(c, raw, order[..n]);
    if ReadAt(c, raw, order[0]).Ok? {
      EmplaceAllFirst(map[], pairs, 0);
    } else {
      assert n == 0 && pairs == [];
      EmplaceNone<K, V>();
    }
  }

  /** An order that starts with `field`. */
  lemma OrderFrom(walk: Walk<string>, raw: map<string, string>, field: string) returns (order: seq<string>)
    requires Walks(walk) && field in raw
    ensures Enumerates(order, raw.Keys) && InMap(order, raw) && order != [] && order[0] == field
  {
    var base := walk(raw.Keys);
    assert Enumerates(base, raw.Keys);
    var i: nat :| i < |base| && base[i] == field;
    ToFrontEnumerates(base, raw.Keys, i);
    order := ToFront(base, i);
    assert forall j :: 0 <= j < |order| ==> order[j] in raw.Keys;
  }

  lemma SameWhenNothingMerged<K, V>(c: Codecs<K, V>, raw: map<string, string>, a: seq<string>, b: seq<string>)
    requires NothingMerged(c, raw)
    requires Enumerates(a, raw.Keys) && InMap(a, raw) && Enumerates(b, raw.Keys) && InMap(b, raw)
    ensures forall k :: k in RefillAll(c, raw, a).0 ==>
              k in RefillAll(c, raw, b).0 && RefillAll(c, raw, a).0[k] == RefillAll(c, raw, b).0[k]
    ensures RefillAll(c, raw, a).1 == Ok(())
  {
    hide RefillAll, EmplaceAll, ReadAt;
    RefillReadable(c, raw, a);
    RefillReadable(c, raw, b);
    var ps, qs := ReadPairs(c, raw, a), ReadPairs(c, raw, b);
    EmplaceAllKeys(map[], qs);
    forall k | k in EmplaceAll(map[], ps)
      ensures k in EmplaceAll(map[], qs) && EmplaceAll(map[], ps)[k] == EmplaceAll(map[], qs)[k]
    {
      EmplacedFrom(ps, k);
      var i :| 0 <= i < |ps| && ps[i] == (k, EmplaceAll(map[], ps)[k]);
      assert a[i] in raw.Keys;
      var j :| 0 <= j < |b| && b[j] == a[i];
      assert qs[j].0 == k;
      EmplacedFrom(qs, k);
      var n :| 0 <= n < |qs| && qs[n] == (k, EmplaceAll(map[], qs)[k]);
      assert b[n] in raw.Keys;
    }
  }

  lemma SameWhenNothingRead<K, V>(c: Codecs<K, V>, raw: map<string, string>, a: seq<string>, b: seq<string>)
    requires NothingRead(c, raw)
    requires Enumerates(a, raw.Keys) && InMap(a, raw) && Enumerates(b, raw.Keys) && InMap(b, raw)
    ensures RefillAll(c, raw, a) == RefillAll(c, raw, b)
  {
    EnumerationLength(a, raw.Keys);
    EnumerationLength(b, raw.Keys);
    if a != [] {
      RefillStart(c, raw, a);
      RefillStart(c, raw, b);
    }
  }

  /** Two pairs that start an order with different results. */
  predicate Disagree<K(==), V(==)>(c: Codecs<K, V>, raw: map<string, string>, f: string, g: string)
    requires f in raw && g in raw
  {
    match (ReadAt(c, raw, f), ReadAt(c, raw, g))
    case (Ok((k, v)), Ok((l, w))) => k == l && v != w
    case (Err(d), Err(e)) => d != e
    case _ => true
  }

  lemma DisagreementShows<K, V>(c: Codecs<K, V>, raw: map<string, string>, walk: Walk<string>, f: string, g: string)
    requires Walks(walk) && f in raw && g in raw && Disagree(c, raw, f, g)
    ensures !OrderDoesNotShow(c, raw)
  {
    hide RefillAll, ReadAt, Enumerates;
    var a := OrderFrom(walk, raw, f);
    var b := OrderFrom(walk, raw, g);
    RefillStart(c, raw, a);
    RefillStart(c, raw, b);
    assert RefillAll(c, raw, a) != RefillAll(c, raw, b);
  }

  /** The map and outcome of hgetall and hscan are independent of the order in which the raw
      pairs are walked if and only if nothing is merged or nothing is read at all. */
  lemma RefillOrderIff<K(!new), V(!new)>(c: Codecs<K, V>, raw: map<string, string>, walk: Walk<string>)
    requires Walks(walk)
    ensures OrderDoesNotShow(c, raw) <==> NothingMerged(c, raw) || NothingRead(c, raw)
  {
    hide RefillAll, ReadAt, Enumerates;
    if NothingMerged(c, raw) || NothingRead(c, raw) {
      forall a, b | Enumerates(a, raw.Keys) && InMap(a, raw) && Enumerates(b, raw.Keys) && InMap(b, raw)
        ensures RefillAll(c, raw, a) == RefillAll(c, raw, b)
      {
        if NothingMerged(c, raw) {
          SameWhenNothingMerged(c, raw, a, b);
          SameWhenNothingMerged(c, raw, b, a);
          assert RefillAll(c, raw, a).0 == RefillAll(c, raw, b).0;
        } else {
          SameWhenNothingRead(c, raw, a, b);
        }
      }
    } else {
      var f, g :| f in raw && g in raw && Disagree(c, raw, f, g);
      DisagreementShows(c, raw, walk, f, g);
    }
  }

  /** The library's own integer keys merge fields: "1" and "+1" are one key, and which of
      the two values is kept depends on the order of iteration. */
  lemma PlusSignMerges<V(!new)>(values: Codec<V>, walk: Walk<string>, x: string, y: string)
    requires Walks(walk) && values.deserialize(x).Ok? && values.deserialize(y).Ok?
    ensures var raw := map["1" := x, "+1" := y];
            OrderDoesNotShow(Codecs(INT64_CODEC, values), raw) <==> values.deserialize(x) == values.deserialize(y)
  {
    hide FromString;
    var c, raw := Codecs(INT64_CODEC, values), map["1" := x, "+1" := y];
    IntegerRoundTrip(INT64, 1);
    assert Print(1) == "1" && "+" + "1" == "+1" && |"+1"| != |"1"|;
    assert ReadAt(c, raw, "1").Ok? && ReadAt(c, raw, "1").value == (1, values.deserialize(x).value);
    assert ReadAt(c, raw, "+1").Ok? && ReadAt(c, raw, "+1").value == (1, values.deserialize(y).value);
    RefillOrderIff(c, raw, walk);
  }

  // ---------- stored and read back ----------

  /** A map that serializes `m` entry by entry. */
  ghost predicate SerializesTo<K, V>(c: Codecs<K, V>, m: map<K, V>, raw: map<string, string>) {
    && raw.Keys == (set k | k in m :: c.keys.serialize(k))
    && forall k :: k in m ==> raw[c.keys.serialize(k)] == c.values.serialize(m[k])
  }

  /** The entry of `order[i]` in the serialized map. */
  lemma SerializedEntry<K(!new), V(!new)>(c: Codecs<K, V>, m: map<K, V>, order: seq<K>, i: nat)
    requires RoundTrips(c.keys) && InMap(order, m) && i < |order|
    requires forall j :: 0 <= j < i ==> order[j] != order[i]
    ensures var raw := EmplaceAll(map[], SerializedPairs(c, m, order));
            var s := c.keys.serialize(order[i]);
            s in raw && raw[s] == c.values.serialize(m[order[i]])
  {
    var ps := SerializedPairs(c, m, order);
    forall j | 0 <= j < i
      ensures ps[j].0 != ps[i].0
    {
      assert c.keys.deserialize(c.keys.serialize(order[j])) == Ok(order[j]);
      assert c.keys.deserialize(c.keys.serialize(order[i])) == Ok(order[i]);
    }
    EmplaceAllFirst(map[], ps, i);
  }

  /** With a key codec that round trips no two fields collide, so nothing is merged. */
  lemma SerializedMap<K(!new), V(!new)>(c: Codecs<K, V>, m: map<K, V>, order: seq<K>)
    requires RoundTrips(c.keys) && Enumerates(order, m.Keys)
    ensures InMap(order, m) && SerializesTo(c, m, EmplaceAll(map[], SerializedPairs(c, m, order)))
  {
    hide EmplaceAll, RoundTrips;
    assert forall i :: 0 <= i < |order| ==> order[i] in m.Keys;
    var ps := SerializedPairs(c, m, order);
    var raw := EmplaceAll(map[], ps);
    EmplaceAllKeys(map[], ps);
    forall k | k in m
      ensures c.keys.serialize(k) in raw && raw[c.keys.serialize(k)] == c.values.serialize(m[k])
    {
      var i :| 0 <= i < |order| && order[i] == k;
      SerializedEntry(c, m, order, i);
    }
    forall s | s in raw.Keys
      ensures s in set k | k in m :: c.keys.serialize(k)
    {
      var i :| 0 <= i < |ps| && ps[i].0 == s;
      assert order[i] in m && s == c.keys.serialize(order[i]);
    }
  }

  lemma {:induction false} RefillProgress<K(!new), V(!new)>(
    c: Codecs<K, V>, m: map<K, V>, raw: map<string, string>, order: seq<string>)
    requires Faithful(c)
    requires SerializesTo(c, m, raw) && InMap(order, raw)
    ensures RefillAll(c, raw, order) == (map k | k in m && c.keys.serialize(k) in order :: m[k], Ok(()))
  {
    if order != [] {
      var init, last := order[..|order| - 1], order[|order| - 1];
      assert order == init + [last];
      RefillProgress(c, m, raw, init);
      assert last in raw.Keys;
      var key :| key in m && c.keys.serialize(key) == last;
      assert c.keys.deserialize(last) == Ok(key);
      assert c.values.deserialize(raw[last]) == Ok(m[key]);
      assert RefillOne(c, RefillAll(c, raw, init).0, last, raw[last])
          == (Emplace(RefillAll(c, raw, init).0, key, m[key]), Ok(()));
      hide RefillOne, SerializesTo;
      forall k | k in m && c.keys.serialize(k) == last
        ensures k == key
      {
        assert c.keys.deserialize(c.keys.serialize(k)) == Ok(k);
      }
      assert Emplace(map k | k in m && c.keys.serialize(k) in init :: m[k], key, m[key])
          == map k | k in m && c.keys.serialize(k) in order :: m[k];
    }
  }

  /** Storing a typed map with hset and reading the reply back with hgetall or hscan gives
      the same map, for every serializer pair that round trips and every order in which
      any of the four loops walks its container. */
  lemma HsetHgetallRoundTrip<K(!new), V(!new)>(
    c: Codecs<K, V>, m: map<K, V>, order: seq<K>, sendOrder: seq<string>, readOrder: seq<string>, key: string)
    requires Faithful(c)
    requires Enumerates(order, m.Keys)
    requires InMap(order, m)
    requires var raw := EmplaceAll(map[], SerializedPairs(c, m, order));
             Enumerates(sendOrder, raw.Keys) && Enumerates(readOrder, raw.Keys)
    ensures var raw := EmplaceAll(map[], SerializedPairs(c, m, order));
            var reply := ArrayOfStrings(HsetArgv(key, raw, sendOrder)[2..]);
            && HashOf(reply) == Ok(raw)
            && InMap(readOrder, raw)
            && RefillAll(c, raw, readOrder) == (m, Ok(()))
  {
    hide EmplaceAll, RefillAll, HashOf, SerializedPairs, Flatten, PairsIn;
    var raw := EmplaceAll(map[], SerializedPairs(c, m, order));
    SerializedMap(c, m, order);
    HsetHashRoundTrip(key, raw, sendOrder);
    assert forall i :: 0 <= i < |readOrder| ==> readOrder[i] in raw.Keys;
    RefillProgress(c, m, raw, readOrder);
    forall k | k in m
      ensures c.keys.serialize(k) in readOrder
    {
      assert c.keys.serialize(k) in raw.Keys;
      var i :| 0 <= i < |readOrder| && readOrder[i] == c.keys.serialize(k);
    }
    assert (map k | k in m && c.keys.serialize(k) in readOrder :: m[k]) == m;
  }

  /** The same at the level of the calls: what hset sent, in any order, returned to hgetall. */
  lemma HgetallReturnsStored<K(!new), V(!new)>(
    t: Typing<K, V>, m: map<K, V>, order: seq<K>, sendOrder: seq<string>, key: string)
    requires Sound(t) && Faithful(t.codecs)
    requires Enumerates(order, m.Keys) && InMap(order, m)
    requires Enumerates(sendOrder, EmplaceAll(map[], SerializedPairs(t.codecs, m, order)).Keys)
    ensures var raw := EmplaceAll(map[], SerializedPairs(t.codecs, m, order));
            HgetallOutcome(t, Ok(ArrayOfStrings(HsetArgv(key, raw, sendOrder)[2..]))) == Ok(m)
  {
    hide EmplaceAll, RefillAll, HashOf, SerializedPairs, Flatten, PairsIn, HsetArgv;
    var raw := EmplaceAll(map[], SerializedPairs(t.codecs, m, order));
    var readOrder := t.walkText(raw.Keys);
    assert Enumerates(readOrder, raw.Keys);
    HsetHgetallRoundTrip(t.codecs, m, order, sendOrder, readOrder, key);
  }

  /** What hgetall answers, with any serializers: the transport's or the server's error, the
      typed pairs of a flattened pair list if all of them deserialize, the first value of a
      repeated key, or the error of the first pair, in the order of iteration, that does not. */
  lemma HgetallOutcomeExact<K(!new), V(!new)>(
    t: Typing<K, V>, reply: CmdReply, ps: seq<(string, string)>, e: Error)
    requires Sound(t)
    ensures HgetallOutcome(t, Err(e)) == Err(e)
    ensures reply.tag == ERROR ==> HgetallOutcome(t, Ok(reply)) == Err(RedisError(reply.text.value))
    ensures reply.tag !in {ERROR, ARRAY} ==> HgetallOutcome(t, Ok(reply)) == Err(UnexpectedReplyType(ARRAY))
    ensures var raw := EmplaceAll(map[], ps);
            var order := t.walkText(raw.Keys);
            && InMap(order, raw)
            && var n := ReadableUpTo(t.codecs, raw, order);
               HgetallOutcome(t, Ok(ArrayOfStrings(Flatten(ps)))) ==
               if n == |order| then Ok(EmplaceAll(map[], ReadPairs(t.codecs, raw, order[..n])))
               else Err(ReadAt(t.codecs, raw, order[n]).error)
  {
    hide RefillAll, EmplaceAll, ReadAt, HashOf, Flatten, ReadableUpTo;
    var raw := EmplaceAll(map[], ps);
    HgetallResultExact(reply, raw, e);
    HgetallResultExact(ArrayOfStrings(Flatten(ps)), raw, e);
    WalkInMap(t, raw);
    RefillExact(t.codecs, raw, t.walkText(raw.Keys));
  }
}
