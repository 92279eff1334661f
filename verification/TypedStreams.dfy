/** The typed stream view (`default_stream_operations` in
    include/redisdal/redis_operations.hpp): serializing XADD fields and read requests,
    deserializing entries and batches. */
module TypedStreams {
  import opened Results
  import opened Serialization
  import opened Replies
  import opened Executors
  import opened Commands
  import opened CommandGrammar
  import opened StreamReplies
  import opened StreamClient

  // ---------- outgoing ----------

  function SerializeFields<K, V>(c: Codecs<K, V>, fields: seq<(K, V)>): (r: seq<(string, string)>)
    ensures |r| == |fields|
  {
    seq(|fields|, i requires 0 <= i < |fields| => (c.keys.serialize(fields[i].0), c.values.serialize(fields[i].1)))
  }

  method XaddTyped<K, V>(c: Codecs<K, V>, exec: Executor, key: K, fields: seq<(K, V)>, o: AddOptions)
    returns (r: Result<Option<string>>)
    modifies exec
    ensures Calls(exec, old(exec.trace), XaddArgv(c.keys.serialize(key), SerializeFields(c, fields), o), XaddResult, r)
  {
    var serialized: seq<(string, string)> := [];
    for i := 0 to |fields|
      invariant serialized == SerializeFields(c, fields)[..i]
      invariant exec.trace == old(exec.trace)
    {
      serialized := serialized + [(c.keys.serialize(fields[i].0), c.values.serialize(fields[i].1))];
    }
    assert serialized == SerializeFields(c, fields);
    r := ClientXadd(exec, c.keys.serialize(key), serialized, o);
  }

  datatype TypedRequest<K> = TypedRequest(key: K, id: string)

  /** Only the key is typed; the ID stays as it is. */
  function SerializeRequests<K, V>(c: Codecs<K, V>, streams: seq<TypedRequest<K>>): (r: seq<ReadRequest>)
    ensures |r| == |streams|
  {
    seq(|streams|, i requires 0 <= i < |streams| => ReadRequest(c.keys.serialize(streams[i].key), streams[i].id))
  }

  method SerializeStreams<K, V>(c: Codecs<K, V>, streams: seq<TypedRequest<K>>) returns (serialized: seq<ReadRequest>)
    ensures serialized == SerializeRequests(c, streams)
  {
    serialized := [];
    for i := 0 to |streams|
      invariant serialized == SerializeRequests(c, streams)[..i]
    {
      serialized := serialized + [ReadRequest(c.keys.serialize(streams[i].key), streams[i].id)];
    }
  }

  /** With a faithful key codec, the server's reading of a typed XREAD names the very
      streams that were asked for. */
  lemma XreadTypedInverse<K(!new), V(!new)>(lex: Lexer, c: Codecs<K, V>, streams: seq<TypedRequest<K>>, o: ReadOptions)
    requires Faithful(c) && KnowsWords(lex) && XreadArgv(SerializeRequests(c, streams), o).Ok?
    ensures var read := ParseXread(lex, XreadArgv(SerializeRequests(c, streams), o).value);
            && read.Some? && |read.value.0| == |streams| && read.value.1 == o
            && forall i :: 0 <= i < |streams| ==>
                 && c.keys.deserialize(read.value.0[i].key) == Ok(streams[i].key)
                 && read.value.0[i].id == streams[i].id
  {
    hide ParseXread, XreadArgv, KnowsWords;
    XreadInverse(lex, SerializeRequests(c, streams), o);
  }

  // ---------- incoming ----------

  function ReadEntry<K, V>(c: Codecs<K, V>): StringEntry -> Result<Entry<K, V>> {
    (raw: StringEntry) =>
      match Traverse(ReadPair(c), raw.fields)
      case Err(e) => Err(e)
      case Ok(fields) => Ok(Entry(raw.id, fields))
  }

  function ReadBatch<K, V>(c: Codecs<K, V>): StringBatch -> Result<Batch<K, V>> {
    (raw: StringBatch) =>
      match c.keys.deserialize(raw.key)
      case Err(e) => Err(e)
      case Ok(key) =>
        match Traverse(ReadEntry(c), raw.entries)
        case Err(e) => Err(e)
        case Ok(entries) => Ok(Batch(key, entries))
  }

  method DeserializeEntry<K, V>(c: Codecs<K, V>, raw: StringEntry) returns (res: Result<Entry<K, V>>)
    ensures res == ReadEntry(c)(raw)
  {
    var fields: seq<(K, V)> := [];
    for i := 0 to |raw.fields|
      invariant Traverse(ReadPair(c), raw.fields[..i]) == Ok(fields)
    {
      TraverseSnoc(ReadPair(c), raw.fields, i);
      var field := c.keys.deserialize(raw.fields[i].0);
      if field.Err? {
        return Err(field.error);
      }
      var value := c.values.deserialize(raw.fields[i].1);
      if value.Err? {
        return Err(value.error);
      }
      fields := fields + [(field.value, value.value)];
    }
    assert raw.fields[..|raw.fields|] == raw.fields;
    return Ok(Entry(raw.id, fields));
  }

  method DeserializeEntries<K, V>(c: Codecs<K, V>, raw: seq<StringEntry>) returns (res: Result<seq<Entry<K, V>>>)
    ensures res == Traverse(ReadEntry(c), raw)
  {
    var entries: seq<Entry<K, V>> := [];
    for i := 0 to |raw|
      invariant Traverse(ReadEntry(c), raw[..i]) == Ok(entries)
    {
      TraverseSnoc(ReadEntry(c), raw, i);
      var entry := DeserializeEntry(c, raw[i]);
      if entry.Err? {
        return Err(entry.error);
      }
      entries := entries + [entry.value];
    }
    assert raw[..|raw|] == raw;
    return Ok(entries);
  }

  method DeserializeBatches<K, V>(c: Codecs<K, V>, raw: seq<StringBatch>) returns (res: Result<seq<Batch<K, V>>>)
    ensures res == Traverse(ReadBatch(c), raw)
  {
    var batches: seq<Batch<K, V>> := [];
    for i := 0 to |raw|
      invariant Traverse(ReadBatch(c), raw[..i]) == Ok(batches)
    {
      TraverseSnoc(ReadBatch(c), raw, i);
      var key := c.keys.deserialize(raw[i].key);
      if key.Err? {
        return Err(key.error);
      }
      var entries := DeserializeEntries(c, raw[i].entries);
      if entries.Err? {
        return Err(entries.error);
      }
      batches := batches + [Batch(key.value, entries.value)];
    }
    assert raw[..|raw|] == raw;
    return Ok(batches);
  }

  // ---------- reading ----------

  /** What the caller of a typed read gets for a reply. */
  function TypedBatches<K, V>(c: Codecs<K, V>): Result<CmdReply> -> Result<seq<Batch<K, V>>> {
    (r: Result<CmdReply>) =>
      match XreadResult(r)
      case Err(e) => Err(e)
      case Ok(raw) => Traverse(ReadBatch(c), raw)
  }

  method XreadTyped<K, V(==)>(c: Codecs<K, V>, exec: Executor, streams: seq<TypedRequest<K>>, o: ReadOptions)
    returns (r: Result<seq<Batch<K, V>>>)
    modifies exec
    ensures Calls(exec, old(exec.trace), XreadArgv(SerializeRequests(c, streams), o), TypedBatches(c), r)
  {
    var serialized := SerializeStreams(c, streams);
    var raw := ClientXread(exec, serialized, o);
    if raw.Err? {
      return Err(raw.error);
    }
    r := DeserializeBatches(c, raw.value);
  }

  method XreadgroupTyped<K, V(==)>(c: Codecs<K, V>, exec: Executor, group: string, consumer: string,
                                   streams: seq<TypedRequest<K>>, o: ReadGroupOptions)
    returns (r: Result<seq<Batch<K, V>>>)
    modifies exec
    ensures Calls(exec, old(exec.trace), XreadgroupArgv(group, consumer, SerializeRequests(c, streams), o),
                  TypedBatches(c), r)
  {
    var serialized := SerializeStreams(c, streams);
    var raw := ClientXreadgroup(exec, group, consumer, serialized, o);
    if raw.Err? {
      return Err(raw.error);
    }
    r := DeserializeBatches(c, raw.value);
  }

  // ---------- round trips ----------

  /** Typed entries as the server holds them. */
  function StoredEntry<K, V>(c: Codecs<K, V>, e: Entry<K, V>): StringEntry {
    Entry(e.id, SerializeFields(c, e.fields))
  }

  function StoredEntries<K, V>(c: Codecs<K, V>, es: seq<Entry<K, V>>): (r: seq<StringEntry>)
    ensures |r| == |es|
  {
    seq(|es|, i requires 0 <= i < |es| => StoredEntry(c, es[i]))
  }

  function StoredBatches<K, V>(c: Codecs<K, V>, bs: seq<Batch<K, V>>): (r: seq<StringBatch>)
    ensures |r| == |bs|
  {
    seq(|bs|, i requires 0 <= i < |bs| => Batch(c.keys.serialize(bs[i].key), StoredEntries(c, bs[i].entries)))
  }

  lemma FieldsReadBack<K(!new), V(!new)>(c: Codecs<K, V>, fields: seq<(K, V)>)
    requires Faithful(c)
    ensures Traverse(ReadPair(c), SerializeFields(c, fields)) == Ok(fields)
  {
    var raw := SerializeFields(c, fields);
    forall i | 0 <= i < |fields|
      ensures ReadPair(c)(raw[i]) == Ok(fields[i])
    {
      assert c.keys.deserialize(c.keys.serialize(fields[i].0)) == Ok(fields[i].0);
      assert c.values.deserialize(c.values.serialize(fields[i].1)) == Ok(fields[i].1);
    }
    TraverseOk(ReadPair(c), raw, fields);
  }

  lemma StoredEntriesReadBack<K(!new), V(!new)>(c: Codecs<K, V>, es: seq<Entry<K, V>>)
    requires Faithful(c)
    ensures Traverse(ReadEntry(c), StoredEntries(c, es)) == Ok(es)
  {
    var raw := StoredEntries(c, es);
    forall i | 0 <= i < |es|
      ensures ReadEntry(c)(raw[i]) == Ok(es[i])
    {
      FieldsReadBack(c, es[i].fields);
    }
    TraverseOk(ReadEntry(c), raw, es);
  }

  /** Any reply that carries stored entries decodes and deserializes to the typed entries,
      order and duplicate fields intact. */
  lemma EntriesRoundTrip<K(!new), V(!new)>(c: Codecs<K, V>, es: seq<Entry<K, V>>, reply: CmdReply)
    requires Faithful(c) && SameUpToNil(reply, EncodeEntries(StoredEntries(c, es)))
    ensures EntriesOf(reply).Ok? && Traverse(ReadEntry(c), EntriesOf(reply).value) == Ok(es)
  {
    EntriesDomain(reply, StoredEntries(c, es));
    StoredEntriesReadBack(c, es);
  }

  /** The same for nested batches: a typed XREAD or XREADGROUP that is answered with stored
      batches returns the typed batches. */
  lemma BatchesRoundTrip<K(!new), V(!new)>(c: Codecs<K, V>, bs: seq<Batch<K, V>>, reply: CmdReply)
    requires Faithful(c) && SameUpToNil(reply, EncodeBatches(StoredBatches(c, bs)))
    ensures TypedBatches(c)(Ok(reply)) == Ok(bs)
  {
    var raw := StoredBatches(c, bs);
    BatchesDomain(reply, raw);
    forall i | 0 <= i < |bs|
      ensures ReadBatch(c)(raw[i]) == Ok(bs[i])
    {
      assert c.keys.deserialize(c.keys.serialize(bs[i].key)) == Ok(bs[i].key);
      StoredEntriesReadBack(c, bs[i].entries);
    }
    TraverseOk(ReadBatch(c), raw, bs);
  }

  /** From the typed fields of an XADD through the argument vector, the server's reading of
      it, a reply with the stored entry, both decoders and the deserializers: the caller
      gets back the original field sequence. */
  lemma XaddToEntry<K(!new), V(!new)>(
    lex: Lexer, c: Codecs<K, V>, key: K, fields: seq<(K, V)>, o: AddOptions, id: string, reply: CmdReply)
    requires Faithful(c) && KnowsWords(lex) && Unambiguous(lex, o)
    requires XaddArgv(c.keys.serialize(key), SerializeFields(c, fields), o).Ok?
    requires var argv := XaddArgv(c.keys.serialize(key), SerializeFields(c, fields), o).value;
             ParseXadd(lex, argv).Some? ==>
               SameUpToNil(reply, EncodeEntries([Entry(id, ParseXadd(lex, argv).value.fields)]))
    ensures EntriesOf(reply).Ok? && Traverse(ReadEntry(c), EntriesOf(reply).value) == Ok([Entry(id, fields)])
  {
    XaddInverse(lex, c.keys.serialize(key), SerializeFields(c, fields), o);
    var es := [Entry(id, fields)];
    assert StoredEntries(c, es) == [Entry(id, SerializeFields(c, fields))];
    EntriesRoundTrip(c, es, reply);
  }

  // ---------- exactly what a typed read returns ----------

  predicate FieldsDeserialize<K(==), V(==)>(c: Codecs<K, V>, raw: seq<(string, string)>, fields: seq<(K, V)>) {
    && |fields| == |raw|
    && forall i :: 0 <= i < |raw| ==>
         && c.keys.deserialize(raw[i].0) == Ok(fields[i].0)
         && c.values.deserialize(raw[i].1) == Ok(fields[i].1)
  }

  predicate EntriesDeserialize<K(==), V(==)>(c: Codecs<K, V>, raw: seq<StringEntry>, es: seq<Entry<K, V>>) {
    && |es| == |raw|
    && forall i :: 0 <= i < |raw| ==> es[i].id == raw[i].id && FieldsDeserialize(c, raw[i].fields, es[i].fields)
  }

  predicate BatchesDeserialize<K(==), V(==)>(c: Codecs<K, V>, raw: seq<StringBatch>, bs: seq<Batch<K, V>>) {
    && |bs| == |raw|
    && forall i :: 0 <= i < |raw| ==>
         && c.keys.deserialize(raw[i].key) == Ok(bs[i].key)
         && EntriesDeserialize(c, raw[i].entries, bs[i].entries)
  }

  lemma ReadFieldsExact<K, V>(c: Codecs<K, V>, raw: seq<(string, string)>, fields: seq<(K, V)>)
    ensures Traverse(ReadPair(c), raw) == Ok(fields) <==> FieldsDeserialize(c, raw, fields)
  {
    TraverseOk(ReadPair(c), raw, fields);
    forall i | 0 <= i < |raw| && |fields| == |raw|
      ensures ReadPair(c)(raw[i]) == Ok(fields[i]) <==>
              c.keys.deserialize(raw[i].0) == Ok(fields[i].0) && c.values.deserialize(raw[i].1) == Ok(fields[i].1)
    {
      ReadPairExact(c, raw[i].0, raw[i].1, fields[i].0, fields[i].1);
    }
  }

  lemma ReadEntriesExact<K, V>(c: Codecs<K, V>, raw: seq<StringEntry>, es: seq<Entry<K, V>>)
    ensures Traverse(ReadEntry(c), raw) == Ok(es) <==> EntriesDeserialize(c, raw, es)
  {
    hide FieldsDeserialize, ReadPair;
    TraverseOk(ReadEntry(c), raw, es);
    forall i | 0 <= i < |raw| && |es| == |raw|
      ensures ReadEntry(c)(raw[i]) == Ok(es[i]) <==>
              es[i].id == raw[i].id && FieldsDeserialize(c, raw[i].fields, es[i].fields)
    {
      ReadFieldsExact(c, raw[i].fields, es[i].fields);
    }
  }

  lemma ReadBatchesExact<K, V>(c: Codecs<K, V>, raw: seq<StringBatch>, bs: seq<Batch<K, V>>)
    ensures Traverse(ReadBatch(c), raw) == Ok(bs) <==> BatchesDeserialize(c, raw, bs)
  {
    hide EntriesDeserialize, ReadEntry;
    TraverseOk(ReadBatch(c), raw, bs);
    forall i | 0 <= i < |raw| && |bs| == |raw|
      ensures ReadBatch(c)(raw[i]) == Ok(bs[i]) <==>
              c.keys.deserialize(raw[i].key) == Ok(bs[i].key) && EntriesDeserialize(c, raw[i].entries, bs[i].entries)
    {
      ReadEntriesExact(c, raw[i].entries, bs[i].entries);
    }
  }

  /** With any serializers: a typed read returns batches exactly when the reply encodes
      string batches whose every key, field and value deserializes, position by position. */
  lemma TypedBatchesExact<K, V>(c: Codecs<K, V>, reply: CmdReply, bs: seq<Batch<K, V>>, e: Error)
    ensures TypedBatches(c)(Err(e)) == Err(e)
    ensures reply.tag == ERROR ==> TypedBatches(c)(Ok(reply)) == Err(RedisError(reply.text.value))
    ensures TypedBatches(c)(Ok(reply)) == Ok(bs) <==>
            exists raw :: SameUpToNil(reply, EncodeBatches(raw)) && BatchesDeserialize(c, raw, bs)
  {
    hide BatchesDeserialize, ReadBatch, SameUpToNil, EncodeBatches, BatchesOf;
    XreadResultExact(reply, [], e);
    if TypedBatches(c)(Ok(reply)) == Ok(bs) {
      var raw := XreadResult(Ok(reply)).value;
      XreadResultExact(reply, raw, e);
      ReadBatchesExact(c, raw, bs);
    }
    forall raw | SameUpToNil(reply, EncodeBatches(raw)) && BatchesDeserialize(c, raw, bs)
      ensures TypedBatches(c)(Ok(reply)) == Ok(bs)
    {
      XreadResultExact(reply, raw, e);
      ReadBatchesExact(c, raw, bs);
    }
  }

  /** A read that fails to deserialize reports the first part that does: within a batch the
      key, then the fields in order. */
  lemma ReadEntryFails<K, V>(c: Codecs<K, V>, raw: StringEntry, n: nat)
    requires n < |raw.fields| && ReadPair(c)(raw.fields[n]).Err?
    requires forall i :: 0 <= i < n ==> ReadPair(c)(raw.fields[i]).Ok?
    ensures ReadEntry(c)(raw) == Err(ReadPair(c)(raw.fields[n]).error)
  {
    TraverseFails(ReadPair(c), raw.fields, n);
  }

  lemma ReadBatchFails<K, V>(c: Codecs<K, V>, raw: StringBatch, n: nat)
    requires c.keys.deserialize(raw.key).Ok? ==>
               && n < |raw.entries| && ReadEntry(c)(raw.entries[n]).Err?
               && forall i :: 0 <= i < n ==> ReadEntry(c)(raw.entries[i]).Ok?
    ensures ReadBatch(c)(raw) ==
            if c.keys.deserialize(raw.key).Err? then Err(c.keys.deserialize(raw.key).error)
            else Err(ReadEntry(c)(raw.entries[n]).error)
  {
    if c.keys.deserialize(raw.key).Ok? {
      TraverseFails(ReadEntry(c), raw.entries, n);
    }
  }

  lemma TypedBatchesFail<K, V>(c: Codecs<K, V>, reply: CmdReply, raw: seq<StringBatch>, n: nat)
    requires SameUpToNil(reply, EncodeBatches(raw))
    requires n < |raw| && ReadBatch(c)(raw[n]).Err? && forall i :: 0 <= i < n ==> ReadBatch(c)(raw[i]).Ok?
    ensures TypedBatches(c)(Ok(reply)) == Err(ReadBatch(c)(raw[n]).error)
  {
    hide ReadBatch, SameUpToNil, EncodeBatches, BatchesOf;
    XreadResultExact(reply, raw, RuntimeError);
    TraverseFails(ReadBatch(c), raw, n);
  }
}
