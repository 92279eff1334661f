/** What the reload protocol of Scripts guarantees against the servers of ScriptServer,
    over every interleaving with other clients and every transport failure. */
module ScriptProtocol {
  import opened Results
  import opened Replies
  import opened Executors
  import opened Commands
  import opened CommandGrammar
  import opened ScriptServer
  import opened Scripts

  // ---------- one request ----------

  /** The runs this client caused between two points of its request sequence. */
  function NewRuns(w: World, before: seq<Argv>, after: seq<Argv>): seq<Run>
    requires |w.server(before).runs| <= |w.server(after).runs|
  {
    w.server(after).runs[|w.server(before).runs|..]
  }

  ghost predicate Grows(w: World, before: seq<Argv>, after: seq<Argv>) {
    w.server(before).runs <= w.server(after).runs
  }

  /** A run that serves EVALSHA of `sha1` with these keys and arguments. */
  predicate Serves(w: World, run: Run, sha1: string, keys: seq<string>, args: seq<string>) {
    w.digest(run.body) == sha1 && run.keys == keys && run.args == args
  }

  /** A script that runs on turn `n` does not report NOSCRIPT itself: the one assumption
      behind recognising a missing script by a word in the error text. */
  predicate HonestTurn(w: World, n: nat) {
    !LooksLikeNoScript(w.turns(n).result)
  }

  ghost predicate Honest(w: World) {
    forall n: nat :: HonestTurn(w, n)
  }

  /** What the server does with an EVALSHA request, and what comes back. */
  function ServeEval(w: World, s: Server, turn: Turn, sha1: string, keys: seq<string>, args: seq<string>)
    : (Server, Result<CmdReply>)
  {
    Handle(w.digest, EvalCommand(ScriptCall("EVALSHA", sha1, keys, args)), s, turn)
  }

  lemma MissingLooksMissing()
    ensures LooksLikeNoScript(MakeError(NOSCRIPT_MESSAGE))
  {
    assert OccursAt(NOSCRIPT_MESSAGE, NOSCRIPT, 0);
  }

  /** The request runs the script: it is delivered, processed, and the server has the body. */
  predicate RunsOn(s: Server, turn: Turn, sha1: string) {
    !turn.delivery.LostRequest? && turn.refusal.None? && sha1 in s.scripts
  }

  lemma ServeEvalFacts(w: World, s: Server, turn: Turn, sha1: string, keys: seq<string>, args: seq<string>)
    requires Indexed(w, s.scripts)
    ensures var (after, reply) := ServeEval(w, s, turn, sha1, keys, args);
            var r := EvalShaResult(reply);
            && s.runs <= after.runs
            && |after.runs| == |s.runs| + (if RunsOn(s, turn, sha1) then 1 else 0)
            && (RunsOn(s, turn, sha1) ==> Serves(w, after.runs[|s.runs|], sha1, keys, args))
            && (r.Ok? ==> RunsOn(s, turn, sha1))
            && (r == Err(NoScript) && !LooksLikeNoScript(turn.result) ==> !RunsOn(s, turn, sha1))
  {
    MissingLooksMissing();
  }

  /** The request that follows `trace`, if it is an EVALSHA of `sha1`, runs the script. */
  predicate Ran(w: World, trace: seq<Argv>, sha1: string) {
    RunsOn(Met(w, trace), w.turns(|trace|), sha1)
  }

  lemma NextEval(w: World, trace: seq<Argv>, sha1: string, keys: seq<string>, args: seq<string>)
    requires Coherent(w)
    requires |keys| <= MAX_SCRIPT_KEYS
    ensures var (r, after) := EvalOnce(w.answer, trace, sha1, keys, args);
            var served := ServeEval(w, Met(w, trace), w.turns(|trace|), sha1, keys, args);
            && after == trace + [EvalShaArgv(sha1, keys, args)]
            && w.server(after) == served.0 && r == EvalShaResult(served.1)
  {
    hide Met;
    var argv := EvalShaArgv(sha1, keys, args);
    assert Advances(w, trace, argv) && w.read(argv) == EvalCommand(ScriptCall("EVALSHA", sha1, keys, args));
  }

  /** One EVALSHA request: it appends at most one run, that run serves the request, and
      the client's outcome tells how many there were. */
  lemma EvalRequest(w: World, trace: seq<Argv>, sha1: string, keys: seq<string>, args: seq<string>)
    requires Coherent(w)
    requires |keys| <= MAX_SCRIPT_KEYS
    ensures var (r, after) := EvalOnce(w.answer, trace, sha1, keys, args);
            && |after| == |trace| + 1
            && Grows(w, trace, after)
            && |NewRuns(w, trace, after)| == (if Ran(w, trace, sha1) then 1 else 0)
            && (forall run :: run in NewRuns(w, trace, after) ==> Serves(w, run, sha1, keys, args))
            && (r.Ok? ==> Ran(w, trace, sha1))
            && (r == Err(NoScript) && HonestTurn(w, |trace|) ==> !Ran(w, trace, sha1))
  {
    hide Met, EvalOnce;
    ServerIndexed(w, trace);
    NextEval(w, trace, sha1, keys, args);
    ServeEvalFacts(w, Met(w, trace), w.turns(|trace|), sha1, keys, args);
  }

  /** What the server does with a SCRIPT LOAD request, and what comes back. */
  function ServeLoad(w: World, s: Server, turn: Turn, script: string): (Server, Result<CmdReply>) {
    Handle(w.digest, LoadCommand(script), s, turn)
  }

  lemma NextLoad(w: World, trace: seq<Argv>, script: string)
    requires Coherent(w)
    ensures var (r, after) := LoadOnce(w.answer, trace, script);
            var served := ServeLoad(w, Met(w, trace), w.turns(|trace|), script);
            && after == trace + [LoadArgv(script)]
            && w.server(after) == served.0 && r == LoadResult(served.1)
  {
    hide Met;
    var argv := LoadArgv(script);
    assert Advances(w, trace, argv) && w.read(argv) == LoadCommand(script);
  }

  /** One SCRIPT LOAD request: it runs nothing, and a digest it returns is the digest of
      the body, present on the server from then on until somebody flushes. */
  lemma LoadRequest(w: World, trace: seq<Argv>, script: string)
    requires Coherent(w)
    ensures var (r, after) := LoadOnce(w.answer, trace, script);
            && |after| == |trace| + 1
            && w.server(after).runs == w.server(trace).runs
            && (r.Ok? ==> r.value == w.digest(script) && r.value in w.server(after).scripts)
            && r != Err(NoScript)
  {
    hide Met, LoadOnce;
    ServerIndexed(w, trace);
    NextLoad(w, trace, script);
  }

  // ---------- one call ----------

  /** One `eval_sha1` call runs the script at most once, whatever other clients do
      between its requests: a normal return means exactly once, with a body of the
      digest asked for and the caller's keys and arguments; an escaping
      `no_script_error` means not at all. */
  lemma EvalCallAtMostOnce(w: World, s: Session, sha1: string, keys: seq<string>, args: seq<string>)
    requires Coherent(w) && Honest(w) && Indexed(w, s.cache)
    ensures var (r, s') := EvalCall(w.answer, s, sha1, keys, args);
            && Grows(w, s.trace, s'.trace)
            && |NewRuns(w, s.trace, s'.trace)| <= 1
            && (forall run :: run in NewRuns(w, s.trace, s'.trace) ==> Serves(w, run, sha1, keys, args))
            && (r.Ok? ==> |NewRuns(w, s.trace, s'.trace)| == 1)
            && (r == Err(NoScript) ==> NewRuns(w, s.trace, s'.trace) == [])
            && (|keys| > MAX_SCRIPT_KEYS ==> r == Err(TooManyScriptKeys) && s' == s)
  {
    hide LoadOnce;
    if |keys| <= MAX_SCRIPT_KEYS {
      EvalRequest(w, s.trace, sha1, keys, args);
      assert HonestTurn(w, |s.trace|);
      var (first, trace1) := EvalOnce(w.answer, s.trace, sha1, keys, args);
      if first == Err(NoScript) && sha1 in s.cache {
        LoadRequest(w, trace1, s.cache[sha1]);
        var (sha, trace2) := LoadOnce(w.answer, trace1, s.cache[sha1]);
        if sha.Ok? {
          assert sha.value == sha1;
          EvalRequest(w, trace2, sha1, keys, args);
          assert HonestTurn(w, |trace2|);
        }
      }
    }
  }

  /** Without the honesty assumption a call still runs the script at most twice. */
  lemma EvalCallAtMostTwice(w: World, s: Session, sha1: string, keys: seq<string>, args: seq<string>)
    requires Coherent(w)
    ensures var (r, s') := EvalCall(w.answer, s, sha1, keys, args);
            Grows(w, s.trace, s'.trace) && |NewRuns(w, s.trace, s'.trace)| <= 2
  {
    hide LoadOnce, Serves;
    if |keys| <= MAX_SCRIPT_KEYS {
      EvalRequest(w, s.trace, sha1, keys, args);
      var (first, trace1) := EvalOnce(w.answer, s.trace, sha1, keys, args);
      if first == Err(NoScript) && sha1 in s.cache {
        LoadRequest(w, trace1, s.cache[sha1]);
        var (sha, trace2) := LoadOnce(w.answer, trace1, s.cache[sha1]);
        if sha.Ok? {
          EvalRequest(w, trace2, sha.value, keys, args);
        }
      }
    }
  }

  /** All scripts return `result` in this world. */
  ghost predicate AlwaysReturns(w: World, result: CmdReply) {
    forall n: nat :: w.turns(n).result == result
  }

  ghost predicate RunsAtMostOnce(w: World, s: Session, sha1: string) {
    var (_, s') := EvalCall(w.answer, s, sha1, [], []);
    |w.server(s'.trace).runs| <= |w.server(s.trace).runs| + 1
  }

  /** A calm world whose server already knows `body`, and whose scripts return `result`. */
  function CalmWorld(body: string, result: CmdReply): World {
    MakeWorld(b => b, (n: nat) => Turn([Load(body)], Delivered, None, result))
  }

  /** In a calm world every EVALSHA of the body runs it, and every reload succeeds. */
  lemma CalmWorldRequests(body: string, result: CmdReply, trace: seq<Argv>)
    ensures var w := CalmWorld(body, result);
            && Coherent(w) && Ran(w, trace, body)
            && EvalOnce(w.answer, trace, body, [], []).0 == EvalShaResult(Ok(result))
            && LoadOnce(w.answer, trace, body).0 == Ok(body)
  {
    hide EvalOnce, LoadOnce;
    var w := CalmWorld(body, result);
    MadeWorldIsCoherent(w.digest, w.turns);
    var others := w.turns(|trace|).others;
    assert others == [Load(body)] && others[..0] == [];
    assert Interfere(w.digest, w.server(trace), others).scripts == w.server(trace).scripts[body := body];
    NextEval(w, trace, body, [], []);
    NextLoad(w, trace, body);
  }

  /** A script whose own error mentions NOSCRIPT is executed twice by a single call. */
  lemma DoubleRun(body: string, result: CmdReply)
    requires LooksLikeNoScript(result)
    ensures var w, s := CalmWorld(body, result), Session(map[body := body], []);
            var (_, s') := EvalCall(w.answer, s, body, [], []);
            |w.server(s'.trace).runs| == |w.server(s.trace).runs| + 2
  {
    hide EvalOnce, LoadOnce, Ran;
    var w := CalmWorld(body, result);
    CalmWorldRequests(body, result, []);
    EvalRequest(w, [], body, [], []);
    var trace1 := EvalOnce(w.answer, [], body, [], []).1;
    CalmWorldRequests(body, result, trace1);
    LoadRequest(w, trace1, body);
    var trace2 := LoadOnce(w.answer, trace1, body).1;
    CalmWorldRequests(body, result, trace2);
    EvalRequest(w, trace2, body, [], []);
  }

  /** Recognising NOSCRIPT by substring is what at-most-once rests on: it holds in every
      world whose scripts return `result` if and only if `result` is not an error that
      mentions NOSCRIPT. Otherwise a reload turns one call into two executions. */
  lemma AtMostOnceIffHonest(result: CmdReply)
    ensures !LooksLikeNoScript(result) <==>
            forall w: World, s: Session, sha1: string ::
              Coherent(w) && AlwaysReturns(w, result) && Indexed(w, s.cache) ==> RunsAtMostOnce(w, s, sha1)
  {
    hide EvalOnce, LoadOnce, Contains;
    if LooksLikeNoScript(result) {
      var w, s := CalmWorld("body", result), Session(map["body" := "body"], []);
      CalmWorldRequests("body", result, []);
      DoubleRun("body", result);
      assert Coherent(w) && AlwaysReturns(w, result) && Indexed(w, s.cache) && !RunsAtMostOnce(w, s, "body");
    } else {
      forall w: World, s: Session, sha1: string | Coherent(w) && AlwaysReturns(w, result) && Indexed(w, s.cache)
        ensures RunsAtMostOnce(w, s, sha1)
      {
        forall n: nat
          ensures HonestTurn(w, n)
        {
          assert w.turns(n).result == result;
        }
        EvalCallAtMostOnce(w, s, sha1, [], []);
      }
    }
  }

  // ---------- when the reload works ----------

  /** With a cached body, no flush between the reload and the retry, and no refusal that
      itself says NOSCRIPT, a call never ends in `no_script_error`. */
  lemma CachedDigestReloads(w: World, s: Session, sha1: string, keys: seq<string>, args: seq<string>)
    requires Coherent(w) && Honest(w) && Indexed(w, s.cache) && sha1 in s.cache
    requires var retry := w.turns(|s.trace| + 2);
             && !HasFlush(retry.others)
             && (retry.refusal.Some? ==> !LooksLikeNoScript(MakeError(retry.refusal.value)))
    ensures EvalCall(w.answer, s, sha1, keys, args).0 != Err(NoScript)
  {
    hide Met, LoadOnce;
    if |keys| <= MAX_SCRIPT_KEYS {
      EvalRequest(w, s.trace, sha1, keys, args);
      var (first, trace1) := EvalOnce(w.answer, s.trace, sha1, keys, args);
      LoadRequest(w, trace1, s.cache[sha1]);
      var (sha, trace2) := LoadOnce(w.answer, trace1, s.cache[sha1]);
      if first == Err(NoScript) && sha.Ok? {
        assert |trace2| == |s.trace| + 2 && sha1 in w.server(trace2).scripts;
        KeptUntilMet(w, trace2, sha1);
        NextEval(w, trace2, sha1, keys, args);
        assert HonestTurn(w, |trace2|);
      }
    }
  }

  /** The EVALSHA request that follows `trace` is answered as if the script were missing. */
  predicate AnsweredMissing(w: World, trace: seq<Argv>, sha1: string) {
    var turn := w.turns(|trace|);
    && turn.delivery.Delivered?
    && if turn.refusal.Some? then Contains(turn.refusal.value, NOSCRIPT) else sha1 !in Met(w, trace).scripts
  }

  lemma MissingAnswer(w: World, trace: seq<Argv>, sha1: string, keys: seq<string>, args: seq<string>)
    requires Coherent(w) && HonestTurn(w, |trace|) && |keys| <= MAX_SCRIPT_KEYS
    ensures EvalOnce(w.answer, trace, sha1, keys, args).0 == Err(NoScript) <==> AnsweredMissing(w, trace, sha1)
    ensures EvalOnce(w.answer, trace, sha1, keys, args).1 == trace + [EvalShaArgv(sha1, keys, args)]
  {
    hide Met, EvalOnce, Contains, EvalShaArgv;
    NextEval(w, trace, sha1, keys, args);
    MissingLooksMissing();
  }

  lemma LoadAnswer(w: World, trace: seq<Argv>, script: string)
    requires Coherent(w)
    ensures LoadOnce(w.answer, trace, script).0.Ok? <==> Quiet(w.turns(|trace|))
    ensures LoadOnce(w.answer, trace, script).1 == trace + [LoadArgv(script)]
  {
    hide Met, LoadOnce, LoadArgv;
    NextLoad(w, trace, script);
  }

  lemma TooManyKeys(w: World, trace: seq<Argv>, sha1: string, keys: seq<string>, args: seq<string>)
    requires |keys| > MAX_SCRIPT_KEYS
    ensures EvalOnce(w.answer, trace, sha1, keys, args) == (Err(TooManyScriptKeys), trace)
  {
  }

  /** Exactly when a call ends in `no_script_error`: the first EVALSHA is answered as
      missing, and either the digest is not cached, or the reload goes through and the
      retry is answered as missing as well. */
  lemma NoScriptIff(w: World, s: Session, sha1: string, keys: seq<string>, args: seq<string>)
    requires Coherent(w) && Honest(w) && Indexed(w, s.cache)
    ensures EvalCall(w.answer, s, sha1, keys, args).0 == Err(NoScript) <==>
            && |keys| <= MAX_SCRIPT_KEYS && AnsweredMissing(w, s.trace, sha1)
            && (sha1 in s.cache ==>
                  var retry := s.trace + [EvalShaArgv(sha1, keys, args), LoadArgv(s.cache[sha1])];
                  Quiet(w.turns(|s.trace| + 1)) && AnsweredMissing(w, retry, sha1))
  {
    hide LoadOnce, EvalOnce, AnsweredMissing, EvalShaArgv, LoadArgv, Met;
    if |keys| > MAX_SCRIPT_KEYS {
      TooManyKeys(w, s.trace, sha1, keys, args);
      return;
    }
    assert HonestTurn(w, |s.trace|);
    MissingAnswer(w, s.trace, sha1, keys, args);
    if sha1 in s.cache {
      var trace1 := s.trace + [EvalShaArgv(sha1, keys, args)];
      LoadAnswer(w, trace1, s.cache[sha1]);
      LoadRequest(w, trace1, s.cache[sha1]);
      var retry := s.trace + [EvalShaArgv(sha1, keys, args), LoadArgv(s.cache[sha1])];
      assert trace1 + [LoadArgv(s.cache[sha1])] == retry;
      assert HonestTurn(w, |retry|);
      MissingAnswer(w, retry, sha1, keys, args);
    }
  }

  predicate Quiet(turn: Turn) {
    turn.delivery.Delivered? && turn.refusal.None?
  }

  /** On a network and server that answer, a flushed script costs one reload and nothing
      else: the caller gets the script's own result, and it ran exactly once. */
  lemma FlushIsRepaired(w: World, s: Session, sha1: string, keys: seq<string>, args: seq<string>)
    requires Coherent(w) && Honest(w) && Indexed(w, s.cache) && sha1 in s.cache && |keys| <= MAX_SCRIPT_KEYS
    requires var n := |s.trace|;
             Quiet(w.turns(n)) && Quiet(w.turns(n + 1)) && Quiet(w.turns(n + 2)) && !HasFlush(w.turns(n + 2).others)
    ensures var (r, s') := EvalCall(w.answer, s, sha1, keys, args);
            var n := if Ran(w, s.trace, sha1) then |s.trace| else |s.trace| + 2;
            && |s'.trace| == n + 1
            && (var reply := w.turns(n).result;
                r == if reply.tag != ERROR then Ok(reply) else Err(RedisError(reply.text.value)))
            && Grows(w, s.trace, s'.trace) && |NewRuns(w, s.trace, s'.trace)| == 1
  {
    hide Met, LoadOnce, ScriptArgv;
    assert HonestTurn(w, |s.trace|) && HonestTurn(w, |s.trace| + 2);
    MissingLooksMissing();
    EvalRequest(w, s.trace, sha1, keys, args);
    NextEval(w, s.trace, sha1, keys, args);
    var trace1 := EvalOnce(w.answer, s.trace, sha1, keys, args).1;
    if !Ran(w, s.trace, sha1) {
      LoadRequest(w, trace1, s.cache[sha1]);
      NextLoad(w, trace1, s.cache[sha1]);
      var trace2 := LoadOnce(w.answer, trace1, s.cache[sha1]).1;
      KeptUntilMet(w, trace2, sha1);
      EvalRequest(w, trace2, sha1, keys, args);
      NextEval(w, trace2, sha1, keys, args);
    }
  }

  // ---------- the outcome of a call ----------

  /** What the server says to an EVALSHA that follows `trace`, if it gets to say anything. */
  function Said(w: World, trace: seq<Argv>, sha1: string): CmdReply {
    var turn := w.turns(|trace|);
    if turn.refusal.Some? then MakeError(turn.refusal.value)
    else if sha1 in Met(w, trace).scripts then turn.result
    else MakeError(NOSCRIPT_MESSAGE)
  }

  /** `r` is what a caller should see of an EVALSHA that follows `trace`. */
  predicate Sees(w: World, trace: seq<Argv>, sha1: string, r: Result<CmdReply>) {
    if !w.turns(|trace|).delivery.Delivered? then r == Err(TransportFailure)
    else
      var reply := Said(w, trace, sha1);
      if reply.tag != ERROR then r == Ok(reply)
      else if Contains(reply.text.value, "NOSCRIPT") then r == Err(NoScript)
      else r == Err(RedisError(reply.text.value))
  }

  lemma EvalSees(w: World, trace: seq<Argv>, sha1: string, keys: seq<string>, args: seq<string>)
    requires Coherent(w) && |keys| <= MAX_SCRIPT_KEYS
    ensures Sees(w, trace, sha1, EvalOnce(w.answer, trace, sha1, keys, args).0)
    ensures EvalOnce(w.answer, trace, sha1, keys, args).1 == trace + [EvalShaArgv(sha1, keys, args)]
  {
    hide Met, EvalOnce, Contains, EvalShaArgv;
    NextEval(w, trace, sha1, keys, args);
  }

  /** `r` is what a caller should see of a SCRIPT LOAD that follows `trace`. */
  predicate SeesLoad(w: World, trace: seq<Argv>, script: string, r: Result<string>) {
    var turn := w.turns(|trace|);
    if !turn.delivery.Delivered? then r == Err(TransportFailure)
    else if turn.refusal.Some? then r == Err(RedisError(turn.refusal.value))
    else r == Ok(w.digest(script))
  }

  lemma LoadSees(w: World, trace: seq<Argv>, script: string)
    requires Coherent(w)
    ensures SeesLoad(w, trace, script, LoadOnce(w.answer, trace, script).0)
    ensures LoadOnce(w.answer, trace, script).1 == trace + [["SCRIPT", "LOAD", script]]
  {
    hide Met, LoadOnce;
    NextLoad(w, trace, script);
  }

  /** The first EVALSHA decides the call unless it is answered as missing and the digest is
      cached; then a failing reload decides it, and otherwise the retry. In every world, for
      every cache, this is the result, these are the requests, and the cache stays. */
  lemma EvalCallOutcome(w: World, s: Session, sha1: string, keys: seq<string>, args: seq<string>)
    requires Coherent(w) && Indexed(w, s.cache) && |keys| <= 64
    ensures var (r, s') := EvalCall(w.answer, s, sha1, keys, args);
            var eval := EvalShaArgv(sha1, keys, args);
            && s'.cache == s.cache
            && if !Sees(w, s.trace, sha1, Err(NoScript)) || sha1 !in s.cache then
                 Sees(w, s.trace, sha1, r) && s'.trace == s.trace + [eval]
               else
                 var load := ["SCRIPT", "LOAD", s.cache[sha1]];
                 if !Quiet(w.turns(|s.trace| + 1)) then
                   r.Err? && SeesLoad(w, s.trace + [eval], s.cache[sha1], Err(r.error))
                   && s'.trace == s.trace + [eval, load]
                 else
                   Sees(w, s.trace + [eval, load], sha1, r) && s'.trace == s.trace + [eval, load, eval]
  {
    hide EvalOnce, LoadOnce, Met, Contains, EvalShaArgv;
    var eval := EvalShaArgv(sha1, keys, args);
    EvalSees(w, s.trace, sha1, keys, args);
    EvalCallCache(w, s, sha1, keys, args);
    if sha1 in s.cache {
      var load := ["SCRIPT", "LOAD", s.cache[sha1]];
      LoadSees(w, s.trace + [eval], s.cache[sha1]);
      assert s.trace + [eval] + [load] == s.trace + [eval, load];
      assert s.trace + [eval, load] + [eval] == s.trace + [eval, load, eval];
      assert w.digest(s.cache[sha1]) == sha1;
      EvalSees(w, s.trace + [eval, load], sha1, keys, args);
    }
  }

  /** The plain case: a script that the server has, on a turn that gets through, is run by
      one request, and its reply or its own error is what the caller gets, cached or not. */
  lemma RanScriptReturns(w: World, s: Session, sha1: string, keys: seq<string>, args: seq<string>)
    requires Coherent(w) && Honest(w) && Indexed(w, s.cache) && |keys| <= 64
    requires Ran(w, s.trace, sha1) && w.turns(|s.trace|).delivery.Delivered?
    ensures var (r, s') := EvalCall(w.answer, s, sha1, keys, args);
            var reply := w.turns(|s.trace|).result;
            && |s'.trace| == |s.trace| + 1
            && r == if reply.tag != ERROR then Ok(reply) else Err(RedisError(reply.text.value))
  {
    hide EvalCall, Met, Contains;
    assert HonestTurn(w, |s.trace|);
    EvalCallOutcome(w, s, sha1, keys, args);
  }

  /** A refusal that does not mention NOSCRIPT reaches the caller with its message, and no
      second request is made. */
  lemma RefusalEscapes(w: World, s: Session, sha1: string, keys: seq<string>, args: seq<string>)
    requires Coherent(w) && Indexed(w, s.cache) && |keys| <= 64
    requires var turn := w.turns(|s.trace|);
             turn.delivery.Delivered? && turn.refusal.Some? && !Contains(turn.refusal.value, "NOSCRIPT")
    ensures var (r, s') := EvalCall(w.answer, s, sha1, keys, args);
            r == Err(RedisError(w.turns(|s.trace|).refusal.value)) && |s'.trace| == |s.trace| + 1
  {
    hide EvalCall, Met, Contains;
    EvalCallOutcome(w, s, sha1, keys, args);
  }

  /** `script_load` sends one request, returns the digest of the body exactly when the
      request gets through, and then, only then, remembers the body unless the digest is
      known. */
  lemma LoadCallOutcome(w: World, s: Session, script: string)
    requires Coherent(w)
    ensures var (r, s') := LoadCall(w.answer, s, script);
            var sha1 := w.digest(script);
            && SeesLoad(w, s.trace, script, r)
            && s'.trace == s.trace + [["SCRIPT", "LOAD", script]]
            && s'.cache == if r.Ok? && sha1 !in s.cache then s.cache[sha1 := script] else s.cache
  {
    hide LoadOnce;
    LoadSees(w, s.trace, script);
  }

  // ---------- whole runs ----------

  datatype Call = Loading(script: string) | Evaluating(sha1: string, keys: seq<string>, args: seq<string>)

  function Step(oracle: Oracle, s: Session, call: Call): Session {
    match call
    case Loading(script) => LoadCall(oracle, s, script).1
    case Evaluating(sha1, keys, args) => EvalCall(oracle, s, sha1, keys, args).1
  }

  function RunCalls(oracle: Oracle, s: Session, calls: seq<Call>): Session {
    if calls == [] then s
    else Step(oracle, RunCalls(oracle, s, calls[..|calls| - 1]), calls[|calls| - 1])
  }

  /** The runs answer the EVALSHA calls in order, each call at most once, with the digest,
      keys and arguments of that call. */
  predicate ServedInOrder(w: World, runs: seq<Run>, calls: seq<Call>) {
    if calls == [] then runs == []
    else
      var init, last := calls[..|calls| - 1], calls[|calls| - 1];
      || ServedInOrder(w, runs, init)
      || (last.Evaluating? && runs != []
          && Serves(w, runs[|runs| - 1], last.sha1, last.keys, last.args)
          && ServedInOrder(w, runs[..|runs| - 1], init))
  }

  /** Each call keeps the cache invariant, never rebinds or drops a digest, and adds at
      most one run of its own. */
  lemma StepKeeps(w: World, s: Session, call: Call)
    requires Coherent(w) && Honest(w) && Indexed(w, s.cache)
    ensures var s' := Step(w.answer, s, call);
            && Indexed(w, s'.cache)
            && (forall sha :: sha in s.cache ==> sha in s'.cache && s'.cache[sha] == s.cache[sha])
            && Grows(w, s.trace, s'.trace)
            && (NewRuns(w, s.trace, s'.trace) == []
                || (call.Evaluating? && |NewRuns(w, s.trace, s'.trace)| == 1
                    && Serves(w, NewRuns(w, s.trace, s'.trace)[0], call.sha1, call.keys, call.args)))
  {
    hide EvalOnce, LoadOnce;
    match call {
      case Loading(script) =>
        LoadRequest(w, s.trace, script);
      case Evaluating(sha1, keys, args) =>
        EvalCallAtMostOnce(w, s, sha1, keys, args);
        EvalCallCache(w, s, sha1, keys, args);
    }
  }

  lemma EvalCallCache(w: World, s: Session, sha1: string, keys: seq<string>, args: seq<string>)
    requires Coherent(w) && Indexed(w, s.cache)
    ensures EvalCall(w.answer, s, sha1, keys, args).1.cache == s.cache
  {
    hide EvalOnce, LoadOnce;
    var trace1 := EvalOnce(w.answer, s.trace, sha1, keys, args).1;
    if sha1 in s.cache {
      LoadRequest(w, trace1, s.cache[sha1]);
    }
  }

  /** Over any sequence of calls: `sha1_cache` only grows, never rebinds a digest, and maps
      every digest to a body the server hashed to it; and the scripts the server ran are
      an ordered selection of the calls, each at most once. */
  lemma {:induction false} RunKeeps(w: World, s: Session, calls: seq<Call>)
    requires Coherent(w) && Honest(w) && Indexed(w, s.cache)
    ensures var s' := RunCalls(w.answer, s, calls);
            && Indexed(w, s'.cache)
            && (forall sha :: sha in s.cache ==> sha in s'.cache && s'.cache[sha] == s.cache[sha])
            && Grows(w, s.trace, s'.trace)
            && ServedInOrder(w, NewRuns(w, s.trace, s'.trace), calls)
  {
    hide Step, Serves;
    if calls != [] {
      var init, last := calls[..|calls| - 1], calls[|calls| - 1];
      RunKeeps(w, s, init);
      var mid := RunCalls(w.answer, s, init);
      StepKeeps(w, mid, last);
      var end := Step(w.answer, mid, last);
      var earlier, added := NewRuns(w, s.trace, mid.trace), NewRuns(w, mid.trace, end.trace);
      assert NewRuns(w, s.trace, end.trace) == earlier + added;
      if added != [] {
        assert (earlier + added)[..|earlier + added| - 1] == earlier;
      } else {
        assert earlier + added == earlier;
      }
    }
  }

  ghost predicate CollisionFree(w: World) {
    forall a, b :: w.digest(a) == w.digest(b) ==> a == b
  }

  /** With a collision-free digest, what a digest handed out by `script_load` executes is
      the very body that was loaded, at any later time. */
  lemma LoadedBodyRuns(
    w: World, s: Session, script: string, sha1: string, keys: seq<string>, args: seq<string>, later: seq<Call>)
    requires Coherent(w) && Honest(w) && Indexed(w, s.cache) && CollisionFree(w)
    requires LoadCall(w.answer, s, script).0 == Ok(sha1)
    ensures var s1 := RunCalls(w.answer, LoadCall(w.answer, s, script).1, later);
            var s2 := EvalCall(w.answer, s1, sha1, keys, args).1;
            && Grows(w, s1.trace, s2.trace)
            && forall run :: run in NewRuns(w, s1.trace, s2.trace) ==> run == Run(script, keys, args)
    ensures sha1 in RunCalls(w.answer, LoadCall(w.answer, s, script).1, later).cache
  {
    hide EvalOnce, LoadOnce;
    LoadRequest(w, s.trace, script);
    var s0 := LoadCall(w.answer, s, script).1;
    RunKeeps(w, s0, later);
    EvalCallAtMostOnce(w, RunCalls(w.answer, s0, later), sha1, keys, args);
  }
}
