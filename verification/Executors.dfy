/** The command execution boundary (include/redisdal/redis_executor.hpp). */
module Executors {
  import opened Results
  import opened Replies

  /** One command: its name and its arguments. */
  type Argv = seq<string>

  /** Everything behind `cmd_execv`. The reply to a command may depend on every command
      sent before it, so quantifying over `oracle` covers every server and transport. */
  class Executor {
    const oracle: seq<Argv> -> Result<CmdReply>
    var trace: seq<Argv>

    constructor (oracle: seq<Argv> -> Result<CmdReply>)
      ensures this.oracle == oracle && trace == []
    {
      this.oracle := oracle;
      trace := [];
    }

    method CmdExecv(args: Argv) returns (r: Result<CmdReply>)
      modifies this
      ensures trace == old(trace) + [args]
      ensures r == oracle(trace)
    {
      trace := trace + [args];
      r := oracle(trace);
    }
  }
}
