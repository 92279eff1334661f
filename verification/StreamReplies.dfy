/** Stream entries and batches (include/redisdal/common.hpp) and their decoders
    (`stream_entries` and `stream_batches` in src/cmd_reply.cpp). */
module StreamReplies {
  import opened Results
  import opened Replies

  /** One entry: fields keep their order and may repeat. */
  datatype Entry<K, V> = Entry(id: string, fields: seq<(K, V)>)

  datatype Batch<K, V> = Batch(key: K, entries: seq<Entry<K, V>>)

  type StringEntry = Entry<string, string>
  type StringBatch = Batch<string, string>

  // ---------- decoders ----------

  /** A deleted pending entry has NIL for its fields. */
  function FieldsOf(r: CmdReply): Result<seq<(string, string)>> {
    if r.tag == NIL then Ok([])
    else
      var items :- AsArray(r);
      PairsOf(items)
  }

  function EntryOf(r: CmdReply): Result<StringEntry> {
    var parts :- AsArray(r);
    if |parts| != 2 then Err(RuntimeError)
    else
      var id :- AsString(parts[0]);
      var fields :- FieldsOf(parts[1]);
      Ok(Entry(id, fields))
  }

  function EntriesOf(r: CmdReply): Result<seq<StringEntry>> {
    if r.tag == NIL then Ok([])
    else
      var items :- AsArray(r);
      Traverse(EntryOf, items)
  }

  function BatchOf(r: CmdReply): Result<StringBatch> {
    var parts :- AsArray(r);
    if |parts| != 2 then Err(RuntimeError)
    else
      var key :- AsString(parts[0]);
      var entries :- EntriesOf(parts[1]);
      Ok(Batch(key, entries))
  }

  function BatchesOf(r: CmdReply): Result<seq<StringBatch>> {
    if r.tag == NIL then Ok([])
    else
      var items :- AsArray(r);
      Traverse(BatchOf, items)
  }

  /** The inner loop of `stream_entries`. */
  method FieldPairs(fields: seq<CmdReply>) returns (res: Result<seq<(string, string)>>)
    ensures res == PairsOf(fields)
  {
    if |fields| % 2 != 0 {
      return Err(RuntimeError);
    }
    var pairs: seq<(string, string)> := [];
    var i := 0;
    while i < |fields|
      invariant 0 <= i <= |fields| && i % 2 == 0
      invariant PairsRead(fields, i) == Ok(pairs)
    {
      PairsReadStep(fields, i);
      var field :- AsString(fields[i]);
      var value :- AsString(fields[i + 1]);
      pairs := pairs + [(field, value)];
      i := i + 2;
    }
    assert fields[..|fields|] == fields;
    return Ok(pairs);
  }

  method StreamEntries(r: CmdReply) returns (res: Result<seq<StringEntry>>)
    ensures res == EntriesOf(r)
  {
    if r.tag == NIL {
      return Ok([]);
    }
    var entries :- AsArray(r);
    var result: seq<StringEntry> := [];
    for n := 0 to |entries|
      invariant Traverse(EntryOf, entries[..n]) == Ok(result)
    {
      TraverseSnoc(EntryOf, entries, n);
      var parts :- AsArray(entries[n]);
      if |parts| != 2 {
        return Err(RuntimeError);
      }
      var id :- AsString(parts[0]);
      var pairs: Result<seq<(string, string)>> := Ok([]);
      if parts[1].tag != NIL {
        var fields :- AsArray(parts[1]);
        pairs := FieldPairs(fields);
      }
      if pairs.Err? {
        return Err(pairs.error);
      }
      result := result + [Entry(id, pairs.value)];
    }
    assert entries[..|entries|] == entries;
    return Ok(result);
  }

  method StreamBatches(r: CmdReply) returns (res: Result<seq<StringBatch>>)
    ensures res == BatchesOf(r)
  {
    if r.tag == NIL {
      return Ok([]);
    }
    var batches :- AsArray(r);
    var result: seq<StringBatch> := [];
    for n := 0 to |batches|
      invariant Traverse(BatchOf, batches[..n]) == Ok(result)
    {
      TraverseSnoc(BatchOf, batches, n);
      var parts :- AsArray(batches[n]);
      if |parts| != 2 {
        return Err(RuntimeError);
      }
      var key :- AsString(parts[0]);
      var entries := StreamEntries(parts[1]);
      if entries.Err? {
        return Err(entries.error);
      }
      result := result + [Batch(key, entries.value)];
    }
    assert batches[..|batches|] == batches;
    return Ok(result);
  }

  // ---------- the replies a server sends for given entries ----------

  function EncodeEntry(e: StringEntry): CmdReply {
    MakeArray([MakeString(e.id), ArrayOfStrings(Flatten(e.fields))])
  }

  function EncodeEntries(es: seq<StringEntry>): CmdReply {
    MakeArray(seq(|es|, i requires 0 <= i < |es| => EncodeEntry(es[i])))
  }

  function EncodeBatch(b: StringBatch): CmdReply {
    MakeArray([MakeString(b.key), EncodeEntries(b.entries)])
  }

  function EncodeBatches(bs: seq<StringBatch>): CmdReply {
    MakeArray(seq(|bs|, i requires 0 <= i < |bs| => EncodeBatch(bs[i])))
  }

  // ---------- exact success domains ----------

  /** Equal at every depth, except that NIL may stand where the other has an empty array. */
  predicate SameUpToNil(a: CmdReply, b: CmdReply)
    decreases a
  {
    || a == b
    || (a.tag == NIL && b == MakeArray([]))
    || (a.tag == ARRAY && b.tag == ARRAY && |Elements(a)| == |Elements(b)|
        && forall i :: 0 <= i < |Elements(a)| ==> SameUpToNil(Elements(a)[i], Elements(b)[i]))
  }

  lemma SameAsString(a: CmdReply, s: string)
    ensures SameUpToNil(a, MakeString(s)) <==> a == MakeString(s)
  {
  }

  lemma StringsUpToNil(r: CmdReply, ss: seq<string>)
    ensures SameUpToNil(r, ArrayOfStrings(ss)) <==> r == ArrayOfStrings(ss) || (r == MakeNil() && ss == [])
  {
    var b := ArrayOfStrings(ss);
    if SameUpToNil(r, b) && r != b && r.tag == ARRAY {
      forall i | 0 <= i < |ss|
        ensures Elements(r)[i] == Elements(b)[i]
      {
        SameAsString(Elements(r)[i], ss[i]);
      }
      assert Elements(r) == Elements(b);
    }
    assert r.tag == NIL ==> r == MakeNil();
    if ss == [] {
      assert b == MakeArray([]);
    }
  }

  lemma FieldsDomain(r: CmdReply, ps: seq<(string, string)>)
    ensures FieldsOf(r) == Ok(ps) <==> SameUpToNil(r, ArrayOfStrings(Flatten(ps)))
  {
    StringsUpToNil(r, Flatten(ps));
    if r.tag == ARRAY {
      PairsDomain(Elements(r), ps);
    }
  }

  lemma EntryDomain(r: CmdReply, e: StringEntry)
    ensures EntryOf(r) == Ok(e) <==> SameUpToNil(r, EncodeEntry(e))
  {
    var b := EncodeEntry(e);
    assert b != MakeArray([]) by {
      assert |Elements(b)| == 2;
    }
    if r.tag == ARRAY && |Elements(r)| == 2 {
      FieldsDomain(Elements(r)[1], e.fields);
      assert AsString(Elements(r)[0]) == Ok(e.id) <==> SameUpToNil(Elements(r)[0], MakeString(e.id));
      if r == b {
        assert SameUpToNil(Elements(r)[1], Elements(b)[1]);
      }
    }
  }

  /** `stream_entries` succeeds with `es` exactly on the replies that encode `es`,
      reading NIL as an empty list wherever a list is expected. */
  lemma EntriesDomain(r: CmdReply, es: seq<StringEntry>)
    ensures EntriesOf(r) == Ok(es) <==> SameUpToNil(r, EncodeEntries(es))
  {
    var b := EncodeEntries(es);
    if r.tag == ARRAY {
      TraverseOk(EntryOf, Elements(r), es);
      forall i | 0 <= i < |es| && i < |Elements(r)|
        ensures EntryOf(Elements(r)[i]) == Ok(es[i]) <==> SameUpToNil(Elements(r)[i], Elements(b)[i])
      {
        EntryDomain(Elements(r)[i], es[i]);
      }
    } else if es == [] {
      assert b == MakeArray([]);
    }
  }

  lemma BatchDomain(r: CmdReply, e: StringBatch)
    ensures BatchOf(r) == Ok(e) <==> SameUpToNil(r, EncodeBatch(e))
  {
    var b := EncodeBatch(e);
    assert b != MakeArray([]) by {
      assert |Elements(b)| == 2;
    }
    if r.tag == ARRAY && |Elements(r)| == 2 {
      EntriesDomain(Elements(r)[1], e.entries);
      assert AsString(Elements(r)[0]) == Ok(e.key) <==> SameUpToNil(Elements(r)[0], MakeString(e.key));
      if r == b {
        assert SameUpToNil(Elements(r)[1], Elements(b)[1]);
      }
    }
  }

  /** `stream_batches` succeeds with `bs` exactly on the replies that encode `bs`,
      reading NIL as an empty list wherever a list is expected. */
  lemma BatchesDomain(r: CmdReply, bs: seq<StringBatch>)
    ensures BatchesOf(r) == Ok(bs) <==> SameUpToNil(r, EncodeBatches(bs))
  {
    var b := EncodeBatches(bs);
    if r.tag == ARRAY {
      TraverseOk(BatchOf, Elements(r), bs);
      forall i | 0 <= i < |bs| && i < |Elements(r)|
        ensures BatchOf(Elements(r)[i]) == Ok(bs[i]) <==> SameUpToNil(Elements(r)[i], Elements(b)[i])
      {
        BatchDomain(Elements(r)[i], bs[i]);
      }
    } else if bs == [] {
      assert b == MakeArray([]);
    }
  }

  // ---------- how decoding fails ----------

  /** The first thing wrong with an entry, from the outside in. */
  lemma EntryRejects(r: CmdReply)
    ensures EntryOf(r).Err? ==>
              EntryOf(r).error ==
              if r.tag != ARRAY then UnexpectedReplyType(ARRAY)
              else if |Elements(r)| != 2 then RuntimeError
              else if Elements(r)[0].tag != STRING then UnexpectedReplyType(STRING)
              else if Elements(r)[1].tag != ARRAY then UnexpectedReplyType(ARRAY)
              else if |Elements(Elements(r)[1])| % 2 != 0 then RuntimeError
              else UnexpectedReplyType(STRING)
  {
    if r.tag == ARRAY && |Elements(r)| == 2 && Elements(r)[1].tag == ARRAY {
      StringsTraversed(Elements(Elements(r)[1]));
    }
  }

  /** Of several bad entries the first is reported. */
  lemma EntriesRejects(r: CmdReply, n: nat)
    requires r.tag == ARRAY ==>
               && n < |Elements(r)| && EntryOf(Elements(r)[n]).Err?
               && forall i :: 0 <= i < n ==> EntryOf(Elements(r)[i]).Ok?
    ensures r.tag == ARRAY ==> EntriesOf(r) == Err(EntryOf(Elements(r)[n]).error)
    ensures r.tag != ARRAY && r.tag != NIL ==> EntriesOf(r) == Err(UnexpectedReplyType(ARRAY))
  {
    if r.tag == ARRAY {
      TraverseFails(EntryOf, Elements(r), n);
    }
  }

  lemma BatchRejects(r: CmdReply)
    ensures BatchOf(r).Err? ==>
              if r.tag != ARRAY then BatchOf(r).error == UnexpectedReplyType(ARRAY)
              else if |Elements(r)| != 2 then BatchOf(r).error == RuntimeError
              else if Elements(r)[0].tag != STRING then BatchOf(r).error == UnexpectedReplyType(STRING)
              else EntriesOf(Elements(r)[1]) == Err(BatchOf(r).error)
  {
  }

  /** Of several bad batches the first is reported. */
  lemma BatchesRejects(r: CmdReply, n: nat)
    requires r.tag == ARRAY ==>
               && n < |Elements(r)| && BatchOf(Elements(r)[n]).Err?
               && forall i :: 0 <= i < n ==> BatchOf(Elements(r)[i]).Ok?
    ensures r.tag == ARRAY ==> BatchesOf(r) == Err(BatchOf(Elements(r)[n]).error)
    ensures r.tag != ARRAY && r.tag != NIL ==> BatchesOf(r) == Err(UnexpectedReplyType(ARRAY))
  {
    if r.tag == ARRAY {
      TraverseFails(BatchOf, Elements(r), n);
    }
  }
}
