/** Command construction (src/redis_cmd_ops.cpp): the argument vectors the library sends.
    Builders grow a vector in place; each is proved against a specification function, and
    CommandGrammar proves what a server reads back from those vectors. */
module Commands {
  import opened Results
  import opened Decimal
  import opened Replies
  import opened Executors

  datatype TrimStrategy = MAXLEN | MINID

  datatype TrimOptions = TrimOptions(
    strategy: TrimStrategy, threshold: string, approximate: bool, limit: Option<Int64>)

  datatype AddOptions = AddOptions(id: string, nomkstream: bool, trim: Option<TrimOptions>)

  datatype ReadOptions = ReadOptions(count: Option<Int64>, blockMs: Option<Int64>)

  datatype ReadGroupOptions = ReadGroupOptions(count: Option<Int64>, blockMs: Option<Int64>, noack: bool)

  datatype ReadRequest = ReadRequest(key: string, id: string)

  /** A `std::vector<std::string>` that helpers extend through a reference. */
  class ArgVector {
    var items: seq<string>

    constructor (items: seq<string>)
      ensures this.items == items
    {
      this.items := items;
    }

    method PushBack(s: string)
      modifies this
      ensures items == old(items) + [s]
    {
      items := items + [s];
    }
  }

  // ---------- clauses ----------

  function CountClause(count: Option<Int64>): Result<seq<string>> {
    if count.None? then Ok([])
    else if count.value <= 0 then Err(InvalidArgument)
    else Ok(["COUNT", Print(count.value)])
  }

  method AppendStreamCount(args: ArgVector, count: Option<Int64>) returns (r: Result<()>)
    modifies args
    ensures CountClause(count).Ok? ==> r.Ok? && args.items == old(args.items) + CountClause(count).value
    ensures CountClause(count).Err? ==> r == Err(CountClause(count).error) && args.items == old(args.items)
  {
    if count.None? {
      return Ok(());
    }
    if count.value <= 0 {
      return Err(InvalidArgument);
    }
    args.PushBack("COUNT");
    args.PushBack(Print(count.value));
    return Ok(());
  }

  function BlockClause(blockMs: Option<Int64>): Result<seq<string>> {
    if blockMs.None? then Ok([])
    else if blockMs.value < 0 then Err(InvalidArgument)
    else Ok(["BLOCK", Print(blockMs.value)])
  }

  method AppendStreamBlock(args: ArgVector, blockMs: Option<Int64>) returns (r: Result<()>)
    modifies args
    ensures BlockClause(blockMs).Ok? ==> r.Ok? && args.items == old(args.items) + BlockClause(blockMs).value
    ensures BlockClause(blockMs).Err? ==> r == Err(BlockClause(blockMs).error) && args.items == old(args.items)
  {
    if blockMs.None? {
      return Ok(());
    }
    if blockMs.value < 0 {
      return Err(InvalidArgument);
    }
    args.PushBack("BLOCK");
    args.PushBack(Print(blockMs.value));
    return Ok(());
  }

  function StrategyWord(s: TrimStrategy): string {
    if s == MAXLEN then "MAXLEN" else "MINID"
  }

  predicate ValidTrim(o: TrimOptions) {
    && o.threshold != ""
    && (o.limit.Some? ==> o.limit.value >= 0 && o.approximate)
  }

  function TrimWords(o: TrimOptions): seq<string> {
    [StrategyWord(o.strategy)]
    + (if o.approximate then ["~"] else [])
    + [o.threshold]
    + (if o.limit.Some? then ["LIMIT", Print(o.limit.value)] else [])
  }

  function TrimClause(o: TrimOptions): Result<seq<string>> {
    if ValidTrim(o) then Ok(TrimWords(o)) else Err(InvalidArgument)
  }

  method AppendStreamTrim(args: ArgVector, o: TrimOptions) returns (r: Result<()>)
    modifies args
    ensures TrimClause(o).Ok? ==> r.Ok? && args.items == old(args.items) + TrimClause(o).value
    ensures TrimClause(o).Err? ==> r == Err(TrimClause(o).error) && args.items == old(args.items)
  {
    if o.threshold == "" {
      return Err(InvalidArgument);
    }
    if o.limit.Some? && o.limit.value < 0 {
      return Err(InvalidArgument);
    }
    if o.limit.Some? && !o.approximate {
      return Err(InvalidArgument);
    }
    args.PushBack(if o.strategy == MAXLEN then "MAXLEN" else "MINID");
    if o.approximate {
      args.PushBack("~");
    }
    args.PushBack(o.threshold);
    if o.limit.Some? {
      args.PushBack("LIMIT");
      args.PushBack(Print(o.limit.value));
    }
    return Ok(());
  }

  function Keys(streams: seq<ReadRequest>): (r: seq<string>)
    ensures |r| == |streams|
  {
    seq(|streams|, i requires 0 <= i < |streams| => streams[i].key)
  }

  function Ids(streams: seq<ReadRequest>): (r: seq<string>)
    ensures |r| == |streams|
  {
    seq(|streams|, i requires 0 <= i < |streams| => streams[i].id)
  }

  predicate ValidStreams(streams: seq<ReadRequest>) {
    && streams != []
    && forall i :: 0 <= i < |streams| ==> streams[i].id != ""
  }

  function StreamsClause(streams: seq<ReadRequest>): Result<seq<string>> {
    if ValidStreams(streams) then Ok(["STREAMS"] + Keys(streams) + Ids(streams)) else Err(InvalidArgument)
  }

  method AppendStreams(args: ArgVector, streams: seq<ReadRequest>) returns (r: Result<()>)
    modifies args
    ensures StreamsClause(streams).Ok? ==> r.Ok? && args.items == old(args.items) + StreamsClause(streams).value
    ensures StreamsClause(streams).Err? ==>
              r == Err(StreamsClause(streams).error) && args.items == old(args.items)
  {
    if streams == [] {
      return Err(InvalidArgument);
    }
    for i := 0 to |streams|
      invariant forall j :: 0 <= j < i ==> streams[j].id != ""
    {
      if streams[i].id == "" {
        return Err(InvalidArgument);
      }
    }
    args.PushBack("STREAMS");
    ghost var base := args.items;
    for i := 0 to |streams|
      invariant args.items == base + Keys(streams)[..i]
    {
      args.PushBack(streams[i].key);
    }
    base := base + Keys(streams);
    for i := 0 to |streams|
      invariant args.items == base + Ids(streams)[..i]
    {
      args.PushBack(streams[i].id);
    }
    return Ok(());
  }

  // ---------- stream commands ----------

  /** What a command does with an argument vector: build it, then send it once; when
      building fails nothing is sent. */
  predicate Sends(exec: Executor, before: seq<Argv>, argv: Result<Argv>, r: Result<CmdReply>)
    reads exec
  {
    match argv
    case Ok(args) => exec.trace == before + [args] && r == exec.oracle(exec.trace)
    case Err(e) => exec.trace == before && r == Err(e)
  }

  /** The same for a caller that decodes the reply with `decode`. */
  predicate Calls<T(==)>(exec: Executor, before: seq<Argv>, argv: Result<Argv>,
                         decode: Result<CmdReply> -> Result<T>, r: Result<T>)
    reads exec
  {
    match argv
    case Ok(args) => exec.trace == before + [args] && r == decode(exec.oracle(exec.trace))
    case Err(e) => exec.trace == before && r == Err(e)
  }

  function XaddArgv(key: string, fields: seq<(string, string)>, o: AddOptions): Result<Argv> {
    if fields == [] || o.id == "" then Err(InvalidArgument)
    else
      var trim :- if o.trim.Some? then TrimClause(o.trim.value) else Ok([]);
      Ok(["XADD", key] + (if o.nomkstream then ["NOMKSTREAM"] else []) + trim + [o.id] + Flatten(fields))
  }

  method Xadd(exec: Executor, key: string, fields: seq<(string, string)>, o: AddOptions)
    returns (r: Result<CmdReply>)
    modifies exec
    ensures Sends(exec, old(exec.trace), XaddArgv(key, fields, o), r)
  {
    hide TrimClause, Flatten;
    if fields == [] {
      return Err(InvalidArgument);
    }
    if o.id == "" {
      return Err(InvalidArgument);
    }
    var args := new ArgVector(["XADD", key]);
    if o.nomkstream {
      args.PushBack("NOMKSTREAM");
    }
    if o.trim.Some? {
      var trimmed := AppendStreamTrim(args, o.trim.value);
      if trimmed.Err? {
        return Err(trimmed.error);
      }
    }
    args.PushBack(o.id);
    ghost var base := args.items;
    for i := 0 to |fields|
      invariant args.items == base + Flatten(fields)[..2 * i]
      invariant exec.trace == old(exec.trace)
    {
      args.PushBack(fields[i].0);
      args.PushBack(fields[i].1);
    }
    assert Flatten(fields)[..2 * |fields|] == Flatten(fields);
    assert args.items == XaddArgv(key, fields, o).value;
    r := exec.CmdExecv(args.items);
  }

  function XtrimArgv(key: string, o: TrimOptions): Result<Argv> {
    var trim :- TrimClause(o);
    Ok(["XTRIM", key] + trim)
  }

  method Xtrim(exec: Executor, key: string, o: TrimOptions) returns (r: Result<CmdReply>)
    modifies exec
    ensures Sends(exec, old(exec.trace), XtrimArgv(key, o), r)
  {
    var args := new ArgVector(["XTRIM", key]);
    var trimmed := AppendStreamTrim(args, o);
    if trimmed.Err? {
      return Err(trimmed.error);
    }
    r := exec.CmdExecv(args.items);
  }

  function XreadArgv(streams: seq<ReadRequest>, o: ReadOptions): Result<Argv> {
    var count :- CountClause(o.count);
    var block :- BlockClause(o.blockMs);
    var names :- StreamsClause(streams);
    Ok(["XREAD"] + count + block + names)
  }

  method Xread(exec: Executor, streams: seq<ReadRequest>, o: ReadOptions) returns (r: Result<CmdReply>)
    modifies exec
    ensures Sends(exec, old(exec.trace), XreadArgv(streams, o), r)
  {
    var args := new ArgVector(["XREAD"]);
    var step := AppendStreamCount(args, o.count);
    if step.Ok? {
      step := AppendStreamBlock(args, o.blockMs);
    }
    if step.Ok? {
      step := AppendStreams(args, streams);
    }
    if step.Err? {
      return Err(step.error);
    }
    r := exec.CmdExecv(args.items);
  }

  function XreadgroupArgv(group: string, consumer: string, streams: seq<ReadRequest>, o: ReadGroupOptions): Result<Argv>
  {
    var count :- CountClause(o.count);
    var block :- BlockClause(o.blockMs);
    var names :- StreamsClause(streams);
    Ok(["XREADGROUP", "GROUP", group, consumer] + count + block + (if o.noack then ["NOACK"] else []) + names)
  }

  method Xreadgroup(exec: Executor, group: string, consumer: string, streams: seq<ReadRequest>, o: ReadGroupOptions)
    returns (r: Result<CmdReply>)
    modifies exec
    ensures Sends(exec, old(exec.trace), XreadgroupArgv(group, consumer, streams, o), r)
  {
    var args := new ArgVector(["XREADGROUP", "GROUP", group, consumer]);
    var step := AppendStreamCount(args, o.count);
    if step.Ok? {
      step := AppendStreamBlock(args, o.blockMs);
    }
    if step.Err? {
      return Err(step.error);
    }
    if o.noack {
      args.PushBack("NOACK");
    }
    step := AppendStreams(args, streams);
    if step.Err? {
      return Err(step.error);
    }
    assert args.items == XreadgroupArgv(group, consumer, streams, o).value;
    r := exec.CmdExecv(args.items);
  }

  // ---------- scripts ----------

  const MAX_SCRIPT_KEYS: nat := 64

  /** `script_arguments`: EVAL and EVALSHA differ in the command word only. */
  function ScriptArgv(command: string, script: string, keys: seq<string>, args: seq<string>): Result<Argv> {
    if |keys| > MAX_SCRIPT_KEYS then Err(TooManyScriptKeys)
    else Ok([command, script, PrintNat(|keys|)] + keys + args)
  }

  method ScriptArguments(command: string, script: string, keys: seq<string>, args: seq<string>)
    returns (r: Result<Argv>)
    ensures r == ScriptArgv(command, script, keys, args)
  {
    if |keys| > MAX_SCRIPT_KEYS {
      return Err(TooManyScriptKeys);
    }
    var result := new ArgVector([command, script, PrintNat(|keys|)]);
    result.items := result.items + keys;
    result.items := result.items + args;
    return Ok(result.items);
  }

  // ---------- which requests are accepted ----------

  /** A read is accepted exactly when a count is positive, a block time is not negative,
      there is a stream, and no ID is empty. */
  lemma XreadAccepted(streams: seq<ReadRequest>, o: ReadOptions)
    ensures XreadArgv(streams, o).Ok? <==>
            && (o.count.Some? ==> o.count.value > 0)
            && (o.blockMs.Some? ==> o.blockMs.value >= 0)
            && streams != [] && forall i :: 0 <= i < |streams| ==> streams[i].id != ""
    ensures XreadArgv(streams, o).Err? ==> XreadArgv(streams, o) == Err(InvalidArgument)
  {
  }

  /** The same for a read by a consumer group; group, consumer and NOACK are never at fault. */
  lemma XreadgroupAccepted(group: string, consumer: string, streams: seq<ReadRequest>, o: ReadGroupOptions)
    ensures XreadgroupArgv(group, consumer, streams, o).Ok? <==>
            && (o.count.Some? ==> o.count.value > 0)
            && (o.blockMs.Some? ==> o.blockMs.value >= 0)
            && streams != [] && forall i :: 0 <= i < |streams| ==> streams[i].id != ""
    ensures XreadgroupArgv(group, consumer, streams, o).Err? ==>
              XreadgroupArgv(group, consumer, streams, o) == Err(InvalidArgument)
  {
  }

  /** A trim is accepted exactly with a threshold and with a limit, if any, that is not
      negative and goes with approximate trimming. */
  lemma XtrimAccepted(key: string, o: TrimOptions)
    ensures XtrimArgv(key, o).Ok? <==>
            o.threshold != "" && (o.limit.Some? ==> o.limit.value >= 0 && o.approximate)
    ensures XtrimArgv(key, o).Err? ==> XtrimArgv(key, o) == Err(InvalidArgument)
  {
  }

  /** An addition is accepted exactly with a field, with an ID, and with a trim, if any,
      that XTRIM would accept. */
  lemma XaddAccepted(key: string, fields: seq<(string, string)>, o: AddOptions)
    ensures XaddArgv(key, fields, o).Ok? <==>
            && fields != [] && o.id != ""
            && (o.trim.Some? ==>
                  var t := o.trim.value;
                  t.threshold != "" && (t.limit.Some? ==> t.limit.value >= 0 && t.approximate))
    ensures XaddArgv(key, fields, o).Err? ==> XaddArgv(key, fields, o) == Err(InvalidArgument)
  {
  }

  /** A script call is accepted exactly with at most 64 keys, whatever the arguments. */
  lemma ScriptAccepted(command: string, script: string, keys: seq<string>, args: seq<string>)
    ensures ScriptArgv(command, script, keys, args).Ok? <==> |keys| <= 64
    ensures |keys| > 64 ==> ScriptArgv(command, script, keys, args) == Err(TooManyScriptKeys)
  {
  }

  /** Where everything is in an XADD vector, also for options a server would misread: the
      trim is what XTRIM sends after its key, and the fields end the vector. */
  lemma XaddLayout(key: string, fields: seq<(string, string)>, o: AddOptions)
    requires XaddArgv(key, fields, o).Ok?
    ensures var argv := XaddArgv(key, fields, o).value;
            var trim := if o.trim.Some? then XtrimArgv(key, o.trim.value).value[2..] else [];
            var start := if o.nomkstream then 3 else 2;
            var id := start + |trim|;
            && |argv| == id + 1 + 2 * |fields|
            && argv[0] == "XADD" && argv[1] == key && (o.nomkstream ==> argv[2] == "NOMKSTREAM")
            && argv[start..id] == trim && argv[id] == o.id
            && forall i :: 0 <= i < |fields| ==>
                 argv[id + 1 + 2 * i] == fields[i].0 && argv[id + 2 + 2 * i] == fields[i].1
  {
    hide XaddArgv, XtrimArgv, Flatten;
    XaddParts(key, fields, o);
    var trim := if o.trim.Some? then XtrimArgv(key, o.trim.value).value[2..] else [];
    PartsLayout(["XADD", key] + if o.nomkstream then ["NOMKSTREAM"] else [], trim, o.id, fields);
  }

  lemma XaddParts(key: string, fields: seq<(string, string)>, o: AddOptions)
    requires XaddArgv(key, fields, o).Ok?
    ensures o.trim.Some? ==> XtrimArgv(key, o.trim.value).Ok? && |XtrimArgv(key, o.trim.value).value| >= 2
    ensures var trim := if o.trim.Some? then XtrimArgv(key, o.trim.value).value[2..] else [];
            XaddArgv(key, fields, o).value ==
            (["XADD", key] + if o.nomkstream then ["NOMKSTREAM"] else []) + trim + [o.id] + Flatten(fields)
  {
    hide TrimWords, Flatten;
    if o.trim.Some? {
      assert XtrimArgv(key, o.trim.value).value[2..] == TrimWords(o.trim.value);
    }
  }

  lemma PartsLayout(head: seq<string>, middle: seq<string>, id: string, fields: seq<(string, string)>)
    ensures var s := head + middle + [id] + Flatten(fields);
            var at := |head| + |middle|;
            && |s| == at + 1 + 2 * |fields|
            && (forall i :: 0 <= i < |head| ==> s[i] == head[i])
            && s[|head|..at] == middle && s[at] == id
            && forall i :: 0 <= i < |fields| ==> s[at + 1 + 2 * i] == fields[i].0 && s[at + 2 + 2 * i] == fields[i].1
  {
    hide Flatten;
    var s := head + middle + [id] + Flatten(fields);
    FourParts(head, middle, id, Flatten(fields));
    var at := |head| + |middle|;
    forall i | 0 <= i < |fields|
      ensures s[at + 1 + 2 * i] == fields[i].0 && s[at + 2 + 2 * i] == fields[i].1
    {
      assert s[at + 1..][2 * i] == fields[i].0 && s[at + 1..][2 * i + 1] == fields[i].1;
    }
  }

  lemma FourParts(head: seq<string>, middle: seq<string>, id: string, tail: seq<string>)
    ensures var s := head + middle + [id] + tail;
            && s[..|head|] == head && s[|head|..|head| + |middle|] == middle
            && s[|head| + |middle|] == id && s[|head| + |middle| + 1..] == tail
  {
  }
}
