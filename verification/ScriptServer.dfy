/** A Redis server as far as scripts are concerned: a digest-indexed script cache that
    this client shares with any number of others. One client request is one atomic step
    of the server; what other clients, the network and the scripts do around it is fixed
    by an arbitrary schedule, so a statement about every `World` covers every interleaving. */
module ScriptServer {
  import opened Results
  import opened Replies
  import opened Executors
  import opened Commands
  import opened CommandGrammar

  /** What another client may do to the shared cache. EVAL by others loads as well. */
  datatype OtherAction = Flush | Load(body: string)

  /** Whether a request reaches the server and its reply comes back. */
  datatype Delivery = Delivered | LostRequest | LostReply

  /** Everything around one request: the other clients' actions since the previous one,
      the network, a refusal to process the command (an error such as LOADING, or a
      compilation error), and what the script would return if it ran. */
  datatype Turn = Turn(
    others: seq<OtherAction>, delivery: Delivery, refusal: Option<string>, result: CmdReply)

  /** One script execution on behalf of this client. */
  datatype Run = Run(body: string, keys: seq<string>, args: seq<string>)

  datatype Server = Server(scripts: map<string, string>, runs: seq<Run>)

  /** A command as the server understands it. */
  datatype ScriptCommand = LoadCommand(script: string) | EvalCommand(call: ScriptCall) | OtherCommand

  /** `digest` is the server's hash, `read` how it understands an argument vector, and
      `turns(n)` surrounds the n-th request of this client; `server` and `answer` are what
      follows: the server after the requests sent so far, and the reply to the last one. */
  datatype World = World(
    digest: string -> string,
    read: Argv -> ScriptCommand,
    turns: nat -> Turn,
    server: seq<Argv> -> Server,
    answer: seq<Argv> -> Result<CmdReply>)

  const NOSCRIPT: string := "NOSCRIPT"
  const NOSCRIPT_MESSAGE: string := NOSCRIPT + " No matching script. Please use EVAL."

  function Interfere(digest: string -> string, s: Server, others: seq<OtherAction>): Server {
    if others == [] then s
    else
      var before := Interfere(digest, s, others[..|others| - 1]);
      match others[|others| - 1]
      case Flush => before.(scripts := map[])
      case Load(body) => before.(scripts := before.scripts[digest(body) := body])
  }

  function EvalShaArgv(sha1: string, keys: seq<string>, args: seq<string>): Argv
    requires |keys| <= MAX_SCRIPT_KEYS
  {
    ScriptArgv("EVALSHA", sha1, keys, args).value
  }

  function LoadArgv(script: string): Argv {
    ["SCRIPT", "LOAD", script]
  }

  /** EVALSHA runs the body stored under the digest, or answers NOSCRIPT and runs nothing. */
  function EvalSha(
    s: Server, result: CmdReply, sha1: string, keys: seq<string>, args: seq<string>)
    : (Server, CmdReply)
  {
    if sha1 in s.scripts
    then (s.(runs := s.runs + [Run(s.scripts[sha1], keys, args)]), result)
    else (s, MakeError(NOSCRIPT_MESSAGE))
  }

  /** SCRIPT LOAD stores the body under its digest and answers the digest. */
  function LoadScript(digest: string -> string, s: Server, script: string): (Server, CmdReply) {
    (s.(scripts := s.scripts[digest(script) := script]), MakeString(digest(script)))
  }

  /** Commands other than the two do not touch scripts. */
  function Process(digest: string -> string, command: ScriptCommand, s: Server, result: CmdReply)
    : (Server, CmdReply)
  {
    match command
    case LoadCommand(script) => LoadScript(digest, s, script)
    case EvalCommand(call) => EvalSha(s, result, call.script, call.keys, call.args)
    case OtherCommand => (s, result)
  }

  /** All the protocol needs of a server's reader: it recovers digest, keys and arguments
      from the two vectors this library sends. */
  ghost predicate ReadsScripts(w: World) {
    && (forall sha1, keys, args :: |keys| <= MAX_SCRIPT_KEYS ==>
          w.read(EvalShaArgv(sha1, keys, args)) == EvalCommand(ScriptCall("EVALSHA", sha1, keys, args)))
    && (forall script :: w.read(LoadArgv(script)) == LoadCommand(script))
  }

  /** The reader of CommandGrammar. */
  function ReadCommand(argv: Argv): ScriptCommand {
    if |argv| == 3 && argv[0] == "SCRIPT" && argv[1] == "LOAD" then LoadCommand(argv[2])
    else match ParseScript(argv)
      case Some(call) => if call.command == "EVALSHA" then EvalCommand(call) else OtherCommand
      case None => OtherCommand
  }

  /** A server that reads by the grammar of CommandGrammar is a server for this library. */
  lemma GrammarReadsScripts(w: World)
    requires w.read == ReadCommand
    ensures ReadsScripts(w)
  {
    forall sha1: string, keys: seq<string>, args: seq<string> | |keys| <= MAX_SCRIPT_KEYS
      ensures w.read(EvalShaArgv(sha1, keys, args)) == EvalCommand(ScriptCall("EVALSHA", sha1, keys, args))
    {
      var argv := EvalShaArgv(sha1, keys, args);
      ScriptInverse("EVALSHA", sha1, keys, args);
      assert argv[0] == "EVALSHA" && |"EVALSHA"| != |"SCRIPT"|;
    }
    forall script: string
      ensures w.read(LoadArgv(script)) == LoadCommand(script)
    {
      var argv := LoadArgv(script);
      assert |argv| == 3 && argv[0] == "SCRIPT" && argv[1] == "LOAD" && argv[2] == script;
    }
  }

  function Handle(digest: string -> string, command: ScriptCommand, s: Server, turn: Turn)
    : (Server, Result<CmdReply>)
  {
    if turn.delivery.LostRequest? then (s, Err(TransportFailure))
    else
      var (after, reply) := if turn.refusal.Some? then (s, MakeError(turn.refusal.value))
                            else Process(digest, command, s, turn.result);
      (after, if turn.delivery.LostReply? then Err(TransportFailure) else Ok(reply))
  }

  /** The server as the next request of this client finds it. */
  function Met(w: World, trace: seq<Argv>): Server {
    Interfere(w.digest, w.server(trace), w.turns(|trace|).others)
  }

  /** One more request moves the server by one step, and its reply is that step's reply. */
  predicate Advances(w: World, trace: seq<Argv>, argv: Argv) {
    (w.server(trace + [argv]), w.answer(trace + [argv]))
      == Handle(w.digest, w.read(argv), Met(w, trace), w.turns(|trace|))
  }

  /** Servers start empty and change by this client's requests and their turns only. */
  ghost predicate Evolves(w: World) {
    && w.server([]) == Server(map[], [])
    && forall trace, argv :: Advances(w, trace, argv)
  }

  /** A world this client can meet. */
  ghost predicate Coherent(w: World) {
    ReadsScripts(w) && Evolves(w)
  }

  // ---------- every digest and schedule makes a world ----------

  function ServerAfter(digest: string -> string, turns: nat -> Turn, trace: seq<Argv>): (Server, Result<CmdReply>) {
    if trace == [] then (Server(map[], []), Err(TransportFailure))
    else
      var n := |trace| - 1;
      var before := ServerAfter(digest, turns, trace[..n]).0;
      Handle(digest, ReadCommand(trace[n]), Interfere(digest, before, turns(n).others), turns(n))
  }

  function MakeWorld(digest: string -> string, turns: nat -> Turn): World {
    World(digest, ReadCommand, turns,
          (trace: seq<Argv>) => ServerAfter(digest, turns, trace).0,
          (trace: seq<Argv>) => ServerAfter(digest, turns, trace).1)
  }

  lemma MadeWorldIsCoherent(digest: string -> string, turns: nat -> Turn)
    ensures Coherent(MakeWorld(digest, turns))
  {
    hide ReadCommand, Interfere, Handle;
    var w := MakeWorld(digest, turns);
    GrammarReadsScripts(w);
    forall trace: seq<Argv>, argv: Argv
      ensures Advances(w, trace, argv)
    {
      var longer := trace + [argv];
      assert longer[..|longer| - 1] == trace && longer[|longer| - 1] == argv;
    }
  }

  /** And no two: a coherent world that reads by the grammar is the one made from its
      digest and its schedule. */
  lemma {:induction false} CoherentWorldIsMade(w: World, trace: seq<Argv>)
    requires Evolves(w) && w.read == ReadCommand
    ensures w.server(trace) == ServerAfter(w.digest, w.turns, trace).0
    ensures trace != [] ==> w.answer(trace) == ServerAfter(w.digest, w.turns, trace).1
    decreases |trace|
  {
    hide ReadCommand, Interfere, Handle;
    if trace != [] {
      var n := |trace| - 1;
      CoherentWorldIsMade(w, trace[..n]);
      assert trace[..n] + [trace[n]] == trace && Advances(w, trace[..n], trace[n]);
    }
  }

  // ---------- facts about the server ----------

  /** Every digest in a cache is the digest of the body stored under it. */
  ghost predicate Indexed(w: World, scripts: map<string, string>) {
    forall sha :: sha in scripts ==> w.digest(scripts[sha]) == sha
  }

  predicate HasFlush(others: seq<OtherAction>) {
    exists i :: 0 <= i < |others| && others[i] == Flush
  }

  lemma {:induction false} InterfereFacts(w: World, s: Server, others: seq<OtherAction>)
    requires Indexed(w, s.scripts)
    ensures var t := Interfere(w.digest, s, others);
            && Indexed(w, t.scripts) && t.runs == s.runs
            && (!HasFlush(others) ==> s.scripts.Keys <= t.scripts.Keys)
  {
    if others != [] {
      var init := others[..|others| - 1];
      InterfereFacts(w, s, init);
      assert HasFlush(init) ==> HasFlush(others) by {
        if HasFlush(init) {
          var i :| 0 <= i < |init| && init[i] == Flush;
          assert others[i] == Flush;
        }
      }
    }
  }

  lemma {:induction false} ServerIndexed(w: World, trace: seq<Argv>)
    requires Evolves(w)
    ensures Indexed(w, w.server(trace).scripts)
    ensures Indexed(w, Met(w, trace).scripts) && Met(w, trace).runs == w.server(trace).runs
    decreases |trace|
  {
    if trace != [] {
      var n := |trace| - 1;
      ServerIndexed(w, trace[..n]);
      assert trace[..n] + [trace[n]] == trace && Advances(w, trace[..n], trace[n]);
    }
    InterfereFacts(w, w.server(trace), w.turns(|trace|).others);
  }

  /** Without a flush in between, a stored script is still there at the next request. */
  lemma KeptUntilMet(w: World, trace: seq<Argv>, sha1: string)
    requires Evolves(w) && sha1 in w.server(trace).scripts && !HasFlush(w.turns(|trace|).others)
    ensures sha1 in Met(w, trace).scripts
  {
    ServerIndexed(w, trace);
    InterfereFacts(w, w.server(trace), w.turns(|trace|).others);
  }
}
