/** Stream commands of the string client (src/redis_client.cpp): build and send the command,
    raise a server error, and decode the reply. */
module StreamClient {
  import opened Results
  import opened Decimal
  import opened Replies
  import opened Executors
  import opened Commands
  import opened StreamReplies

  /** NIL is an XADD that NOMKSTREAM suppressed. */
  function XaddResult(r: Result<CmdReply>): Result<Option<string>> {
    var raw :- r;
    var reply :- OrThrow(raw);
    OptionalString(reply)
  }

  function XtrimResult(r: Result<CmdReply>): Result<Int64> {
    var raw :- r;
    var reply :- OrThrow(raw);
    AsInteger(reply)
  }

  function XreadResult(r: Result<CmdReply>): Result<seq<StringBatch>> {
    var raw :- r;
    var reply :- OrThrow(raw);
    BatchesOf(reply)
  }

  method ClientXadd(exec: Executor, key: string, fields: seq<(string, string)>, o: AddOptions)
    returns (r: Result<Option<string>>)
    modifies exec
    ensures Calls(exec, old(exec.trace), XaddArgv(key, fields, o), XaddResult, r)
  {
    var raw := Xadd(exec, key, fields, o);
    if raw.Err? {
      return Err(raw.error);
    }
    var reply :- OrThrow(raw.value);
    return OptionalString(reply);
  }

  method ClientXtrim(exec: Executor, key: string, o: TrimOptions) returns (r: Result<Int64>)
    modifies exec
    ensures Calls(exec, old(exec.trace), XtrimArgv(key, o), XtrimResult, r)
  {
    var raw := Xtrim(exec, key, o);
    if raw.Err? {
      return Err(raw.error);
    }
    var reply :- OrThrow(raw.value);
    return AsInteger(reply);
  }

  method ClientXread(exec: Executor, streams: seq<ReadRequest>, o: ReadOptions) returns (r: Result<seq<StringBatch>>)
    modifies exec
    ensures Calls(exec, old(exec.trace), XreadArgv(streams, o), XreadResult, r)
  {
    var raw := Xread(exec, streams, o);
    r := DecodeBatches(raw);
  }

  method ClientXreadgroup(
    exec: Executor, group: string, consumer: string, streams: seq<ReadRequest>, o: ReadGroupOptions)
    returns (r: Result<seq<StringBatch>>)
    modifies exec
    ensures Calls(exec, old(exec.trace), XreadgroupArgv(group, consumer, streams, o), XreadResult, r)
  {
    var raw := Xreadgroup(exec, group, consumer, streams, o);
    r := DecodeBatches(raw);
  }

  method DecodeBatches(raw: Result<CmdReply>) returns (r: Result<seq<StringBatch>>)
    ensures r == XreadResult(raw)
  {
    if raw.Err? {
      return Err(raw.error);
    }
    var reply :- OrThrow(raw.value);
    r := StreamBatches(reply);
  }

  // ---------- what the caller gets for a reply ----------

  /** An XADD answers the ID the server sends, or nothing for NIL; a server error is raised
      with its message, and every other reply is rejected. */
  lemma XaddResultExact(reply: CmdReply, e: Error)
    ensures XaddResult(Err(e)) == Err(e)
    ensures reply.tag == ERROR ==> XaddResult(Ok(reply)) == Err(RedisError(reply.text.value))
    ensures reply.tag == NIL ==> XaddResult(Ok(reply)) == Ok(None)
    ensures reply.tag == STRING ==> XaddResult(Ok(reply)) == Ok(Some(reply.text.value))
    ensures reply.tag !in {ERROR, NIL, STRING} ==> XaddResult(Ok(reply)) == Err(UnexpectedReplyType(STRING))
  {
  }

  /** An XTRIM answers the server's count, whatever its sign. */
  lemma XtrimResultExact(reply: CmdReply, n: Int64, e: Error)
    ensures XtrimResult(Err(e)) == Err(e)
    ensures reply.tag == ERROR ==> XtrimResult(Ok(reply)) == Err(RedisError(reply.text.value))
    ensures XtrimResult(Ok(MakeSignedInteger(n))) == Ok(n)
    ensures reply.tag !in {ERROR, INTEGER} ==> XtrimResult(Ok(reply)) == Err(UnexpectedReplyType(INTEGER))
  {
    var u := MakeSignedInteger(n).number.value;
    SignedViewBijection(u, n);
  }

  /** A read answers the batches that the reply encodes, and nothing else as a success. */
  lemma XreadResultExact(reply: CmdReply, bs: seq<StringBatch>, e: Error)
    ensures XreadResult(Err(e)) == Err(e)
    ensures reply.tag == ERROR ==> XreadResult(Ok(reply)) == Err(RedisError(reply.text.value))
    ensures XreadResult(Ok(reply)) == Ok(bs) <==> SameUpToNil(reply, EncodeBatches(bs))
    ensures reply.tag !in {ERROR, NIL, ARRAY} ==> XreadResult(Ok(reply)) == Err(UnexpectedReplyType(ARRAY))
  {
    BatchesDomain(reply, bs);
  }
}
