/** The hiredis backend (src/sync_connection.cpp): reply conversion and the path a
    reply takes from the transport to the client. */
module SyncConnection {
  import opened Results
  import opened Decimal
  import opened Serialization
  import opened Replies
  import opened Executors
  import opened Urls

  /** The type codes of `redisReply`; any code the library does not know is `RAW_OTHER`. */
  datatype RawType = RAW_STRING | RAW_STATUS | RAW_ERROR | RAW_INTEGER | RAW_NIL | RAW_ARRAY | RAW_OTHER(code: int)

  /** A possibly null element pointer. */
  datatype Slot = NullSlot | Slot(reply: RawReply)

  /** A possibly null array of element pointers. */
  datatype Slots = NullSlots | Slots(slots: seq<Slot>)

  /** `redisReply`: all fields exist whatever the type code says. */
  datatype RawReply = RawReply(
    typ: RawType,
    str: Option<string>,
    len: nat,
    integer: Int64,
    elements: nat,
    element: Slots)

  /** The memory layout hiredis guarantees: a non-null pointer is readable for the
      announced length, at every depth. */
  predicate Readable(raw: RawReply) {
    && (raw.str.Some? ==> raw.len <= |raw.str.value|)
    && (raw.element.Slots? ==>
          && raw.elements <= |raw.element.slots|
          && forall i :: 0 <= i < |raw.element.slots| && raw.element.slots[i].Slot? ==>
                           Readable(raw.element.slots[i].reply))
  }

  predicate IsText(t: RawType) {
    t.RAW_STRING? || t.RAW_STATUS? || t.RAW_ERROR?
  }

  function Text(raw: RawReply): string
    requires raw.str.Some? ==> raw.len <= |raw.str.value|
  {
    if raw.str.Some? then raw.str.value[..raw.len] else ""
  }

  /** What `convert_reply` makes of a hiredis reply. */
  function Converted(raw: RawReply): Result<CmdReply>
    requires Readable(raw)
    decreases raw, 1
  {
    if IsText(raw.typ) && raw.str.None? && raw.len != 0 then Err(RuntimeError)
    else match raw.typ
    case RAW_STRING => Ok(MakeString(Text(raw)))
    case RAW_STATUS => Ok(MakeStatus(Text(raw)))
    case RAW_ERROR => Ok(MakeError(Text(raw)))
    case RAW_INTEGER => Ok(MakeSignedInteger(raw.integer))
    case RAW_NIL => Ok(MakeNil())
    case RAW_OTHER(_) => Ok(MakeError("Unknown reply type"))
    case RAW_ARRAY =>
      if raw.element.NullSlots? then (if raw.elements != 0 then Err(RuntimeError) else Ok(MakeArray([])))
      else
        var elements :- ConvertedPrefix(raw, raw.elements);
        Ok(MakeArray(elements))
  }

  /** The first `n` elements of an array, converted from left to right. */
  function ConvertedPrefix(raw: RawReply, n: nat): Result<seq<CmdReply>>
    requires Readable(raw) && raw.element.Slots? && n <= raw.elements
    decreases raw, 0, n
  {
    if n == 0 then Ok([])
    else
      var init :- ConvertedPrefix(raw, n - 1);
      if raw.element.slots[n - 1].NullSlot? then Err(RuntimeError)
      else
        var last :- Converted(raw.element.slots[n - 1].reply);
        Ok(init + [last])
  }

  /** Once a prefix fails to convert, the whole array fails the same way. */
  lemma {:induction false} ConvertedPrefixStops(raw: RawReply, n: nat, m: nat)
    requires Readable(raw) && raw.element.Slots? && n <= m <= raw.elements
    requires ConvertedPrefix(raw, n).Err?
    ensures ConvertedPrefix(raw, m) == Err(ConvertedPrefix(raw, n).error)
    decreases m - n
  {
    if n < m {
      ConvertedPrefixStops(raw, n, m - 1);
    }
  }

  method ConvertReply(raw: RawReply) returns (res: Result<CmdReply>)
    requires Readable(raw)
    ensures res == Converted(raw)
    decreases raw
  {
    if IsText(raw.typ) && raw.str.None? && raw.len != 0 {
      return Err(RuntimeError);
    }
    match raw.typ {
      case RAW_STRING => return Ok(MakeString(Text(raw)));
      case RAW_STATUS => return Ok(MakeStatus(Text(raw)));
      case RAW_ERROR => return Ok(MakeError(Text(raw)));
      case RAW_INTEGER => return Ok(MakeSignedInteger(raw.integer));
      case RAW_NIL => return Ok(MakeNil());
      case RAW_OTHER(_) => return Ok(MakeError("Unknown reply type"));
      case RAW_ARRAY =>
        if raw.element.NullSlots? {
          return if raw.elements != 0 then Err(RuntimeError) else Ok(MakeArray([]));
        }
        var elements: seq<CmdReply> := [];
        for i := 0 to raw.elements
          invariant ConvertedPrefix(raw, i) == Ok(elements)
        {
          if raw.element.slots[i].NullSlot? {
            ConvertedPrefixStops(raw, i + 1, raw.elements);
            return Err(RuntimeError);
          }
          var element := ConvertReply(raw.element.slots[i].reply);
          if element.Err? {
            ConvertedPrefixStops(raw, i + 1, raw.elements);
            return Err(element.error);
          }
          elements := elements + [element.value];
        }
        return Ok(MakeArray(elements));
    }
  }

  // ---------- what conversion guarantees ----------

  /** Nothing the conversion reads is missing: text has its pointer, arrays have all
      their elements, at every depth it visits. */
  predicate Complete(raw: RawReply)
    requires Readable(raw)
  {
    && (IsText(raw.typ) ==> raw.str.Some? || raw.len == 0)
    && (raw.typ.RAW_ARRAY? ==>
          if raw.element.NullSlots? then raw.elements == 0
          else forall i :: 0 <= i < raw.elements ==>
                             raw.element.slots[i].Slot? && Complete(raw.element.slots[i].reply))
  }

  /** `text` is every announced byte, in place; a null pointer stands for no bytes. */
  predicate SaysText(raw: RawReply, text: Option<string>)
    requires Readable(raw)
  {
    && text.Some?
    && if raw.str.None? then text.value == ""
       else
         && |text.value| == raw.len
         && forall i :: 0 <= i < raw.len ==> text.value[i] == raw.str.value[i]
  }

  lemma TextSays(raw: RawReply, text: string)
    requires Readable(raw)
    ensures SaysText(raw, Some(text)) <==> text == Text(raw)
  {
  }

  /** The reply tree `r` says the same as the hiredis reply `raw`, node by node: same
      shape, same text, same integers, nested errors kept as values. */
  predicate Mirrors(raw: RawReply, r: CmdReply)
    requires Readable(raw)
    decreases raw
  {
    match raw.typ
    case RAW_STRING => r.tag == STRING && SaysText(raw, r.text)
    case RAW_STATUS => r.tag == STATUS && SaysText(raw, r.text)
    case RAW_ERROR => r.tag == ERROR && SaysText(raw, r.text)
    case RAW_INTEGER => AsInteger(r) == Ok(raw.integer)
    case RAW_NIL => r.tag == NIL
    case RAW_OTHER(_) => r.tag == ERROR && r.text == Some("Unknown reply type")
    case RAW_ARRAY =>
      && r.tag == ARRAY && |Elements(r)| == raw.elements
      && (raw.elements > 0 ==> raw.element.Slots?)
      && forall i :: 0 <= i < raw.elements ==>
                       raw.element.slots[i].Slot? && Mirrors(raw.element.slots[i].reply, Elements(r)[i])
  }

  lemma ConvertedPrefixSnoc(raw: RawReply, n: nat, rs: seq<CmdReply>)
    requires Readable(raw) && raw.element.Slots? && 0 < n <= raw.elements
    ensures ConvertedPrefix(raw, n) == Ok(rs) <==>
            && rs != [] && ConvertedPrefix(raw, n - 1) == Ok(rs[..|rs| - 1])
            && raw.element.slots[n - 1].Slot?
            && Converted(raw.element.slots[n - 1].reply) == Ok(rs[|rs| - 1])
  {
    hide Converted;
    if rs != [] {
      assert rs == rs[..|rs| - 1] + [rs[|rs| - 1]];
    }
  }

  /** Array conversion is element by element. */
  lemma {:induction false} ConvertedPrefixOk(raw: RawReply, n: nat, rs: seq<CmdReply>)
    requires Readable(raw) && raw.element.Slots? && n <= raw.elements
    ensures ConvertedPrefix(raw, n) == Ok(rs) <==>
            |rs| == n && forall i :: 0 <= i < n ==>
              raw.element.slots[i].Slot? && Converted(raw.element.slots[i].reply) == Ok(rs[i])
  {
    if n > 0 {
      hide Converted, ConvertedPrefix;
      ConvertedPrefixSnoc(raw, n, rs);
      if rs != [] {
        ConvertedPrefixOk(raw, n - 1, rs[..|rs| - 1]);
      }
    }
  }

  lemma {:induction false} ConvertedPrefixSucceeds(raw: RawReply, n: nat)
    requires Readable(raw) && raw.element.Slots? && n <= raw.elements
    ensures ConvertedPrefix(raw, n).Ok? <==>
            forall i :: 0 <= i < n ==>
              raw.element.slots[i].Slot? && Converted(raw.element.slots[i].reply).Ok?
    ensures ConvertedPrefix(raw, n).Err? ==>
              || ConvertedPrefix(raw, n).error == RuntimeError
              || exists i :: 0 <= i < n && raw.element.slots[i].Slot?
                             && Converted(raw.element.slots[i].reply) == Err(ConvertedPrefix(raw, n).error)
  {
    if n > 0 {
      ConvertedPrefixSucceeds(raw, n - 1);
    }
  }

  /** Conversion succeeds exactly on complete replies, and reports any other as malformed. */
  lemma {:induction false} ConvertedSucceeds(raw: RawReply)
    requires Readable(raw)
    ensures Converted(raw).Ok? <==> Complete(raw)
    ensures Converted(raw).Err? ==> Converted(raw).error == RuntimeError
    decreases raw
  {
    if raw.typ.RAW_ARRAY? && raw.element.Slots? {
      ConvertedPrefixSucceeds(raw, raw.elements);
      forall i | 0 <= i < raw.elements && raw.element.slots[i].Slot?
        ensures Converted(raw.element.slots[i].reply).Ok? <==> Complete(raw.element.slots[i].reply)
        ensures Converted(raw.element.slots[i].reply).Err? ==>
                  Converted(raw.element.slots[i].reply).error == RuntimeError
      {
        ConvertedSucceeds(raw.element.slots[i].reply);
      }
    }
  }

  /** The result of a conversion is the one consistent reply tree that mirrors the server's. */
  lemma {:induction false} ConvertedMirrors(raw: RawReply, r: CmdReply)
    requires Readable(raw) && Complete(raw)
    ensures Converted(raw) == Ok(r) <==> Mirrors(raw, r)
    decreases raw
  {
    if IsText(raw.typ) && r.text.Some? {
      TextSays(raw, r.text.value);
    }
    if raw.typ.RAW_INTEGER? && r.tag == INTEGER {
      SignedViewBijection(r.number.value, raw.integer);
    }
    if raw.typ.RAW_ARRAY? && raw.element.Slots? && r.tag == ARRAY {
      ConvertedPrefixOk(raw, raw.elements, Elements(r));
      ConvertedSucceeds(raw);
      forall i | 0 <= i < raw.elements && |Elements(r)| == raw.elements
        ensures Converted(raw.element.slots[i].reply) == Ok(Elements(r)[i])
           <==> Mirrors(raw.element.slots[i].reply, Elements(r)[i])
      {
        ConvertedMirrors(raw.element.slots[i].reply, Elements(r)[i]);
      }
    }
  }

  // ---------- from the transport to the client ----------

  /** `cmd_execv` of the hiredis backend: a null reply is a transport failure, a server
      error is thrown by `execv` and caught here, anything else is converted. */
  function CmdExecv(args: seq<string>, raw: Option<RawReply>): Result<CmdReply>
    requires raw.Some? ==> Readable(raw.value)
    requires raw.Some? && raw.value.typ.RAW_ERROR? ==> raw.value.str.Some?
  {
    if |args| == 0 then Err(InvalidArgument)
    else if |args| > 0x7FFF_FFFF then Err(LengthError)
    else if raw.None? then Err(TransportFailure)
    else if raw.value.typ.RAW_ERROR? then Ok(MakeError(Text(raw.value)))
    else Converted(raw.value)
  }

  /** Catching the thrown server error and wrapping it again loses nothing: the client's
      `or_throw` raises `redis_error` with the server's own message, and raises it for
      no other complete reply of a known type, however many errors are nested inside. */
  lemma ServerErrorsReachTheClient(args: seq<string>, raw: RawReply, message: string)
    requires Readable(raw) && 0 < |args| <= 0x7FFF_FFFF
    requires raw.typ.RAW_ERROR? ==> raw.str.Some?
    requires Complete(raw) && !raw.typ.RAW_OTHER?
    ensures CmdExecv(args, Some(raw)) == Converted(raw)
    ensures Converted(raw).Ok?
    ensures OrThrow(Converted(raw).value) == Err(RedisError(message)) <==>
            raw.typ.RAW_ERROR? && SaysText(raw, Some(message))
    ensures OrThrow(Converted(raw).value).Ok? <==> !raw.typ.RAW_ERROR?
  {
    ConvertedSucceeds(raw);
    TextSays(raw, message);
  }

  /** What never reaches the server, what gets no answer, and what cannot be converted. */
  lemma CmdExecvRejects(args: seq<string>, raw: RawReply)
    requires Readable(raw) && (raw.typ.RAW_ERROR? ==> raw.str.Some?)
    ensures args == [] ==> CmdExecv(args, Some(raw)) == Err(InvalidArgument)
    ensures |args| > 0x7FFF_FFFF ==> CmdExecv(args, Some(raw)) == Err(LengthError)
    ensures 0 < |args| <= 0x7FFF_FFFF ==>
              && CmdExecv(args, None) == Err(TransportFailure)
              && (!Complete(raw) ==> CmdExecv(args, Some(raw)) == Err(RuntimeError))
  {
    ConvertedSucceeds(raw);
  }

  // ---------- opening a connection ----------

  /** What the constructor sends: credentials first, then the database. */
  function Handshake(c: Config): seq<Argv> {
    Login(c) + (if c.index != 0 then [["SELECT", Print(c.index)]] else [])
  }

  function Login(c: Config): seq<Argv> {
    if c.password == "" then []
    else if c.username != "" then [["AUTH", c.username, c.password]]
    else [["AUTH", c.password]]
  }

  function ValidateOk(r: Result<CmdReply>): Result<()> {
    var reply :- r;
    if reply.tag == ERROR then Err(RedisError(reply.text.value))
    else if reply.tag != STATUS || reply.text.value != "OK" then Err(RuntimeError)
    else Ok(())
  }

  /** A step is accepted exactly by the status OK; a server error is raised with its message. */
  lemma ValidateOkExact(reply: CmdReply, e: Error)
    ensures ValidateOk(Err(e)) == Err(e)
    ensures reply == MakeStatus("OK") ==> ValidateOk(Ok(reply)) == Ok(())
    ensures reply.tag == ERROR ==> ValidateOk(Ok(reply)) == Err(RedisError(reply.text.value))
    ensures reply.tag != ERROR && reply != MakeStatus("OK") ==> ValidateOk(Ok(reply)) == Err(RuntimeError)
  {
  }

  /** A server session as AUTH and SELECT see it: who is logged in, the database, and who
      was logged in when the database was chosen. A single AUTH argument is the password
      of the default user. */
  datatype ServerSession = ServerSession(
    user: Option<(string, string)>, database: int, selectedAs: Option<(string, string)>)

  const FRESH_SESSION: ServerSession := ServerSession(None, 0, None)

  function AfterCommand(s: ServerSession, argv: Argv): Option<ServerSession> {
    if |argv| == 2 && argv[0] == "AUTH" then Some(s.(user := Some(("default", argv[1]))))
    else if |argv| == 3 && argv[0] == "AUTH" then Some(s.(user := Some((argv[1], argv[2]))))
    else if |argv| == 2 && argv[0] == "SELECT" then
      match FromString(IntType(true, W64), argv[1])
      case Ok(n) => Some(s.(database := n, selectedAs := s.user))
      case Err(_) => None
    else None
  }

  function AfterCommands(commands: seq<Argv>): Option<ServerSession> {
    if commands == [] then Some(FRESH_SESSION)
    else match AfterCommands(commands[..|commands| - 1])
      case None => None
      case Some(s) => AfterCommand(s, commands[|commands| - 1])
  }

  /** Who a configuration logs in as; a user name without a password logs nobody in. */
  function Credentials(c: Config): Option<(string, string)> {
    if c.password == "" then None
    else Some((if c.username == "" then "default" else c.username, c.password))
  }

  /** After the handshake the server has the credentials of the configuration, user name
      and password each in its place, and its database, chosen with those credentials. */
  lemma HandshakeEstablishes(c: Config)
    ensures AfterCommands(Handshake(c)).Some?
    ensures var s := AfterCommands(Handshake(c)).value;
            && s.user == Credentials(c)
            && s.database == c.index
            && (c.index != 0 ==> s.selectedAs == s.user)
    ensures |Handshake(c)| == (if c.password == "" then 0 else 1) + (if c.index == 0 then 0 else 1)
  {
    hide FromString, Print;
    IntegerRoundTrip(IntType(true, W64), c.index);
    var login := Login(c);
    var select := ["SELECT", Print(c.index)];
    assert |login| == 1 ==> login[..0] == [];
    assert |"AUTH"| != |"SELECT"|;
    assert AfterCommands(login) == Some(FRESH_SESSION.(user := Credentials(c)));
    assert (login + [select])[..|login + [select]| - 1] == login;
    assert login + [] == login;
  }

  predicate Accepts(oracle: seq<Argv> -> Result<CmdReply>, before: seq<Argv>, commands: seq<Argv>, i: nat)
    requires i < |commands|
  {
    ValidateOk(oracle(before + commands[..i + 1])).Ok?
  }

  /** The constructor succeeds exactly when the server accepts every step of the handshake,
      sends the steps in order, and sends nothing after the first that is not accepted. */
  method Connect(exec: Executor, c: Config) returns (r: Result<()>, sent: nat)
    modifies exec
    ensures sent <= |Handshake(c)| && exec.trace == old(exec.trace) + Handshake(c)[..sent]
    ensures forall i :: 0 <= i < sent - 1 ==> Accepts(exec.oracle, old(exec.trace), Handshake(c), i)
    ensures sent > 0 ==> r == ValidateOk(exec.oracle(exec.trace))
    ensures r.Ok? ==> sent == |Handshake(c)|
    ensures sent == 0 ==> Handshake(c) == [] && r.Ok?
  {
    r, sent := Ok(()), 0;
    ghost var all := Handshake(c);
    if c.password != "" {
      var reply;
      if c.username != "" {
        reply := exec.CmdExecv(["AUTH", c.username, c.password]);
      } else {
        reply := exec.CmdExecv(["AUTH", c.password]);
      }
      sent := 1;
      assert exec.trace == old(exec.trace) + all[..1];
      r := ValidateOk(reply);
      if r.Err? {
        return;
      }
    }
    if c.index != 0 {
      assert all[..sent] + [["SELECT", Print(c.index)]] == all;
      var reply := exec.CmdExecv(["SELECT", Print(c.index)]);
      sent := sent + 1;
      assert exec.trace == old(exec.trace) + all[..sent];
      r := ValidateOk(reply);
    }
  }
}
