/** Script commands from the executor up to the typed facade: `script_load` and
    `eval_sha1` of src/redis_cmd_ops.cpp, src/redis_client.cpp and
    include/redisdal/redis_template.hpp, with the facade's `sha1_cache`. */
module Scripts {
  import opened Results
  import opened Replies
  import opened Executors
  import opened Commands
  import opened Serialization
  import opened ScriptServer

  type Oracle = seq<Argv> -> Result<CmdReply>

  predicate OccursAt(text: string, word: string, i: int) {
    0 <= i <= |text| - |word| && text[i..i + |word|] == word
  }

  /** `text.find(word) != npos`. */
  predicate Contains(text: string, word: string) {
    exists i :: 0 <= i <= |text| - |word| && OccursAt(text, word, i)
  }

  /** How the client recognises a missing script: by a word in the error text. */
  predicate LooksLikeNoScript(r: CmdReply) {
    r.tag == ERROR && Contains(r.text.value, NOSCRIPT)
  }

  // ---------- one request ----------

  function EvalShaResult(r: Result<CmdReply>): Result<CmdReply> {
    var reply :- r;
    if LooksLikeNoScript(reply) then Err(NoScript) else OrThrow(reply)
  }

  method ClientEvalSha1(exec: Executor, sha1: string, keys: seq<string>, args: seq<string>)
    returns (r: Result<CmdReply>)
    modifies exec
    ensures (r, exec.trace) == EvalOnce(exec.oracle, old(exec.trace), sha1, keys, args)
  {
    var argv := ScriptArguments("EVALSHA", sha1, keys, args);
    if argv.Err? {
      return Err(argv.error);
    }
    var reply := exec.CmdExecv(argv.value);
    if reply.Err? {
      return reply;
    }
    if reply.value.tag == ERROR && Contains(reply.value.text.value, NOSCRIPT) {
      return Err(NoScript);
    }
    return OrThrow(reply.value);
  }

  function EvalOnce(oracle: Oracle, trace: seq<Argv>, sha1: string, keys: seq<string>, args: seq<string>)
    : (Result<CmdReply>, seq<Argv>)
  {
    match ScriptArgv("EVALSHA", sha1, keys, args)
    case Err(e) => (Err(e), trace)
    case Ok(argv) => (EvalShaResult(oracle(trace + [argv])), trace + [argv])
  }

  function LoadResult(r: Result<CmdReply>): Result<string> {
    var reply :- r;
    if reply.tag == ERROR then Err(RedisError(reply.text.value))
    else if reply.tag != STRING then Err(UnexpectedReplyType(STRING))
    else Ok(reply.text.value)
  }

  method ClientScriptLoad(exec: Executor, script: string) returns (r: Result<string>)
    modifies exec
    ensures (r, exec.trace) == LoadOnce(exec.oracle, old(exec.trace), script)
  {
    var reply := exec.CmdExecv(LoadArgv(script));
    if reply.Err? {
      return Err(reply.error);
    }
    if reply.value.tag == ERROR {
      return Err(RedisError(reply.value.text.value));
    }
    if reply.value.tag != STRING {
      return Err(UnexpectedReplyType(STRING));
    }
    return Ok(reply.value.text.value);
  }

  function LoadOnce(oracle: Oracle, trace: seq<Argv>, script: string): (Result<string>, seq<Argv>) {
    var argv := LoadArgv(script);
    (LoadResult(oracle(trace + [argv])), trace + [argv])
  }

  // ---------- what one request returns ----------

  /** A word occurs in a text exactly when the text has it between two others. */
  lemma ContainsExactly(text: string, word: string)
    ensures Contains(text, word) <==> exists left, right :: text == left + (word + right)
  {
    if Contains(text, word) {
      var i :| 0 <= i <= |text| - |word| && OccursAt(text, word, i);
      assert text == text[..i] + (word + text[i + |word|..]);
    }
    if left, right :| text == left + (word + right) {
      assert text[|left|..] == word + right;
      assert OccursAt(text, word, |left|);
    }
  }

  /** An error with NOSCRIPT in its text is a missing script, any other error is raised with
      its message, everything else is the result. */
  lemma EvalShaResultExact(reply: CmdReply, e: Error)
    ensures EvalShaResult(Err(e)) == Err(e)
    ensures reply.tag != ERROR ==> EvalShaResult(Ok(reply)) == Ok(reply)
    ensures reply.tag == ERROR ==>
              EvalShaResult(Ok(reply)) ==
              if exists left, right :: reply.text.value == left + ("NOSCRIPT" + right) then Err(NoScript)
              else Err(RedisError(reply.text.value))
  {
    hide Contains;
    if reply.tag == ERROR {
      ContainsExactly(reply.text.value, "NOSCRIPT");
    }
  }

  /** A load returns the text of a string reply and nothing else. */
  lemma LoadResultExact(reply: CmdReply, e: Error)
    ensures LoadResult(Err(e)) == Err(e)
    ensures reply.tag == STRING ==> LoadResult(Ok(reply)) == Ok(reply.text.value)
    ensures reply.tag == ERROR ==> LoadResult(Ok(reply)) == Err(RedisError(reply.text.value))
    ensures reply.tag !in {STRING, ERROR} ==> LoadResult(Ok(reply)) == Err(UnexpectedReplyType(STRING))
  {
  }

  // ---------- the facade ----------

  /** What the facade carries from call to call, and the requests sent so far. */
  datatype Session = Session(cache: map<string, string>, trace: seq<Argv>)

  function LoadCall(oracle: Oracle, s: Session, script: string): (Result<string>, Session) {
    var (sha, trace) := LoadOnce(oracle, s.trace, script);
    (sha, Session(if sha.Ok? then Emplace(s.cache, sha.value, script) else s.cache, trace))
  }

  /** Evaluate; on a missing script with a known body reload it and evaluate once more. */
  function EvalCall(oracle: Oracle, s: Session, sha1: string, keys: seq<string>, args: seq<string>)
    : (Result<CmdReply>, Session)
  {
    var (first, trace1) := EvalOnce(oracle, s.trace, sha1, keys, args);
    if first != Err(NoScript) || sha1 !in s.cache then (first, Session(s.cache, trace1))
    else
      var (sha, trace2) := LoadOnce(oracle, trace1, s.cache[sha1]);
      if sha.Err? then (Err(sha.error), Session(s.cache, trace2))
      else
        var (second, trace3) := EvalOnce(oracle, trace2, sha.value, keys, args);
        (second, Session(Emplace(s.cache, sha.value, s.cache[sha1]), trace3))
  }

  function SerializeAll<T>(c: Codec<T>, xs: seq<T>): (r: seq<string>)
    ensures |r| == |xs|
    ensures forall i :: 0 <= i < |xs| ==> r[i] == c.serialize(xs[i])
  {
    seq(|xs|, i requires 0 <= i < |xs| => c.serialize(xs[i]))
  }

  /** What a caller sees of an EVALSHA that is answered with `reply`. */
  predicate Returned(reply: Result<CmdReply>, r: Result<CmdReply>) {
    match reply
    case Err(e) => r == Err(e)
    case Ok(v) =>
      if v.tag != ERROR then r == Ok(v)
      else if Contains(v.text.value, "NOSCRIPT") then r == Err(NoScript)
      else r == Err(RedisError(v.text.value))
  }

  /** The calls against any server and transport, consistent or not: a reload evaluates
      under the digest the server returned for the body, which need not be the one asked
      for, and remembers the body under it unless that digest is known. */
  lemma EvalCallOnAnyServer(oracle: Oracle, s: Session, sha1: string, keys: seq<string>, args: seq<string>)
    requires |keys| <= 64
    ensures var (r, s') := EvalCall(oracle, s, sha1, keys, args);
            var trace1 := s.trace + [EvalShaArgv(sha1, keys, args)];
            if !Returned(oracle(trace1), Err(NoScript)) || sha1 !in s.cache then
              Returned(oracle(trace1), r) && s' == Session(s.cache, trace1)
            else
              var script := s.cache[sha1];
              var trace2 := trace1 + [["SCRIPT", "LOAD", script]];
              match oracle(trace2)
              case Err(e) => r == Err(e) && s' == Session(s.cache, trace2)
              case Ok(loaded) =>
                if loaded.tag == ERROR then
                  r == Err(RedisError(loaded.text.value)) && s' == Session(s.cache, trace2)
                else if loaded.tag != STRING then
                  r == Err(UnexpectedReplyType(STRING)) && s' == Session(s.cache, trace2)
                else
                  var sha := loaded.text.value;
                  var trace3 := trace2 + [EvalShaArgv(sha, keys, args)];
                  && Returned(oracle(trace3), r)
                  && s' == Session(if sha in s.cache then s.cache else s.cache[sha := script], trace3)
  {
    hide Contains;
  }

  lemma LoadCallOnAnyServer(oracle: Oracle, s: Session, script: string)
    ensures var (r, s') := LoadCall(oracle, s, script);
            var trace := s.trace + [["SCRIPT", "LOAD", script]];
            && s'.trace == trace
            && match oracle(trace)
               case Err(e) => r == Err(e) && s'.cache == s.cache
               case Ok(loaded) =>
                 if loaded.tag == ERROR then r == Err(RedisError(loaded.text.value)) && s'.cache == s.cache
                 else if loaded.tag != STRING then r == Err(UnexpectedReplyType(STRING)) && s'.cache == s.cache
                 else
                   var sha := loaded.text.value;
                   && r == Ok(sha)
                   && s'.cache == if sha in s.cache then s.cache else s.cache[sha := script]
  {
  }

  class RedisTemplate<K, V> {
    const connection: Executor
    const keySerializer: Codec<K>
    const valueSerializer: Codec<V>
    var sha1Cache: map<string, string>

    constructor (connection: Executor, keySerializer: Codec<K>, valueSerializer: Codec<V>)
      ensures this.connection == connection && sha1Cache == map[]
      ensures this.keySerializer == keySerializer && this.valueSerializer == valueSerializer
    {
      this.connection := connection;
      this.keySerializer := keySerializer;
      this.valueSerializer := valueSerializer;
      sha1Cache := map[];
    }

    ghost function State(): Session
      reads this, connection
    {
      Session(sha1Cache, connection.trace)
    }

    method ScriptLoad(script: string) returns (r: Result<string>)
      modifies this, connection
      ensures (r, State()) == LoadCall(connection.oracle, old(State()), script)
    {
      r := ClientScriptLoad(connection, script);
      if r.Ok? {
        sha1Cache := Emplace(sha1Cache, r.value, script);
      }
    }

    method EvalSha1(sha1: string, keys: seq<K>, args: seq<V>) returns (r: Result<CmdReply>)
      modifies this, connection
      ensures (r, State()) == EvalCall(connection.oracle, old(State()), sha1,
                                       SerializeAll(keySerializer, keys), SerializeAll(valueSerializer, args))
    {
      var sKeys: seq<string> := [];
      for i := 0 to |keys|
        invariant sKeys == SerializeAll(keySerializer, keys)[..i]
        invariant unchanged(this) && unchanged(connection)
      {
        sKeys := sKeys + [keySerializer.serialize(keys[i])];
      }
      var sArgs: seq<string> := [];
      for i := 0 to |args|
        invariant sArgs == SerializeAll(valueSerializer, args)[..i]
        invariant unchanged(this) && unchanged(connection)
      {
        sArgs := sArgs + [valueSerializer.serialize(args[i])];
      }
      assert sKeys == SerializeAll(keySerializer, keys) && sArgs == SerializeAll(valueSerializer, args);
      r := ClientEvalSha1(connection, sha1, sKeys, sArgs);
      if r == Err(NoScript) {
        if sha1 !in sha1Cache {
          return r;
        }
        var script := sha1Cache[sha1];
        var newSha := ClientScriptLoad(connection, script);
        if newSha.Err? {
          return Err(newSha.error);
        }
        sha1Cache := Emplace(sha1Cache, newSha.value, script);
        r := ClientEvalSha1(connection, newSha.value, sKeys, sArgs);
      }
    }
  }
}
