/** What a Redis server reads back from the argument vectors of Commands. The parsers
    follow the server's grammar: options are matched left to right without regard to
    case, and an option that takes arguments is one only where they are present. */
module CommandGrammar {
  import opened Results
  import opened Decimal
  import opened Serialization
  import opened Replies
  import opened Commands

  // ---------- option words ----------

  datatype Word =
    | KW_MAXLEN | KW_MINID | KW_LIMIT | KW_NOMKSTREAM | KW_COUNT | KW_BLOCK | KW_NOACK | KW_GROUP | KW_STREAMS
    | PLAIN

  function ToUpperChar(c: char): char {
    if 'a' <= c <= 'z' then (c as int - 'a' as int + 'A' as int) as char else c
  }

  function ToUpper(s: string): string {
    seq(|s|, i requires 0 <= i < |s| => ToUpperChar(s[i]))
  }

  /** How the server classifies a token: `strcasecmp` against each option word. */
  function WordOf(token: string): Word {
    var t := ToUpper(token);
    if t == "MAXLEN" then KW_MAXLEN
    else if t == "MINID" then KW_MINID
    else if t == "LIMIT" then KW_LIMIT
    else if t == "NOMKSTREAM" then KW_NOMKSTREAM
    else if t == "COUNT" then KW_COUNT
    else if t == "BLOCK" then KW_BLOCK
    else if t == "NOACK" then KW_NOACK
    else if t == "GROUP" then KW_GROUP
    else if t == "STREAMS" then KW_STREAMS
    else PLAIN
  }

  /** All the parsers need of a classifier: it knows the words the library writes. What
      other spellings it accepts is left open. */
  type Lexer = string -> Word

  predicate KnowsWords(lex: Lexer) {
    && lex("MAXLEN") == KW_MAXLEN && lex("MINID") == KW_MINID && lex("LIMIT") == KW_LIMIT
    && lex("NOMKSTREAM") == KW_NOMKSTREAM && lex("COUNT") == KW_COUNT && lex("BLOCK") == KW_BLOCK
    && lex("NOACK") == KW_NOACK && lex("GROUP") == KW_GROUP && lex("STREAMS") == KW_STREAMS
  }

  lemma UpperCaseStays(s: string)
    requires forall i :: 0 <= i < |s| ==> 'A' <= s[i] <= 'Z'
    ensures ToUpper(s) == s
  {
  }

  lemma LongWordsRead()
    ensures WordOf("MAXLEN") == KW_MAXLEN && WordOf("NOMKSTREAM") == KW_NOMKSTREAM && WordOf("STREAMS") == KW_STREAMS
  {
    UpperCaseStays("MAXLEN");
    UpperCaseStays("NOMKSTREAM");
    UpperCaseStays("STREAMS");
  }

  lemma TrimWordsRead()
    ensures WordOf("MINID") == KW_MINID && WordOf("LIMIT") == KW_LIMIT
  {
    UpperCaseStays("MINID");
    UpperCaseStays("LIMIT");
    assert "LIMIT"[0] == 'L' && "MINID"[0] == 'M';
  }

  lemma ReadWordsRead()
    ensures WordOf("COUNT") == KW_COUNT && WordOf("BLOCK") == KW_BLOCK
  {
    UpperCaseStays("COUNT");
    UpperCaseStays("BLOCK");
    assert "COUNT"[0] == 'C' && "BLOCK"[0] == 'B' && "LIMIT"[0] == 'L' && "MINID"[0] == 'M';
  }

  lemma GroupWordsRead()
    ensures WordOf("NOACK") == KW_NOACK && WordOf("GROUP") == KW_GROUP
  {
    UpperCaseStays("NOACK");
    UpperCaseStays("GROUP");
    assert "COUNT"[0] == 'C' && "BLOCK"[0] == 'B' && "LIMIT"[0] == 'L' && "MINID"[0] == 'M';
    assert "NOACK"[0] == 'N' && "GROUP"[0] == 'G';
  }

  /** The server's case-insensitive classifier is one. */
  lemma ServerKnowsWords()
    ensures KnowsWords(WordOf)
  {
    LongWordsRead();
    TrimWordsRead();
    ReadWordsRead();
    GroupWordsRead();
  }

  /** A number argument, as any decimal the library could have printed. */
  function Number(token: string): Option<Int64> {
    match FromString(IntType(true, W64), token)
    case Ok(n) => Some(n)
    case Err(_) => None
  }

  lemma NumberOfPrint(n: Int64)
    ensures Number(Print(n)) == Some(n)
  {
    IntegerRoundTrip(IntType(true, W64), n);
  }

  // ---------- XADD and XTRIM ----------

  datatype TrimSeen = TrimSeen(strategy: TrimStrategy, threshold: string, approximate: bool)

  datatype AddSeen = AddSeen(nomkstream: bool, trim: Option<TrimSeen>, limit: Option<Int64>)

  const NOTHING_SEEN: AddSeen := AddSeen(false, None, None)

  /** The option loop shared by XADD and XTRIM. For XADD it stops at the first token
      that is not an option, the entry ID; for XTRIM such a token is an error. */
  function ReadAddOptions(lex: Lexer, ts: seq<string>, xadd: bool, seen: AddSeen): Option<(AddSeen, seq<string>)> {
    if ts == [] then Some((seen, []))
    else
      var word := lex(ts[0]);
      if (word.KW_MAXLEN? || word.KW_MINID?) && |ts| >= 2 then
        var marked := |ts| >= 3 && (ts[1] == "~" || ts[1] == "=");
        var at := if marked then 2 else 1;
        if seen.trim.Some? then None
        else
          var trim := TrimSeen(if word.KW_MAXLEN? then MAXLEN else MINID, ts[at], marked && ts[1] == "~");
          ReadAddOptions(lex, ts[at + 1..], xadd, seen.(trim := Some(trim)))
      else if word.KW_LIMIT? && |ts| >= 2 then
        var n := Number(ts[1]);
        if n.None? || n.value < 0 then None
        else ReadAddOptions(lex, ts[2..], xadd, seen.(limit := n))
      else if word.KW_NOMKSTREAM? && xadd then ReadAddOptions(lex, ts[1..], xadd, seen.(nomkstream := true))
      else if xadd then Some((seen, ts))
      else None
  }

  /** LIMIT needs an approximate trimming clause to belong to. */
  function TrimOf(seen: AddSeen): Option<Option<TrimOptions>> {
    match seen.trim
    case None => if seen.limit.Some? then None else Some(None)
    case Some(t) =>
      if seen.limit.Some? && !t.approximate then None
      else Some(Some(TrimOptions(t.strategy, t.threshold, t.approximate, seen.limit)))
  }

  datatype AddCall = AddCall(key: string, fields: seq<(string, string)>, options: AddOptions)

  function ParseXadd(lex: Lexer, argv: seq<string>): Option<AddCall> {
    if |argv| < 2 || argv[0] != "XADD" then None
    else match ReadAddOptions(lex, argv[2..], true, NOTHING_SEEN)
      case None => None
      case Some((seen, rest)) =>
        if |rest| < 3 || |rest| % 2 == 0 || TrimOf(seen).None? then None
        else Some(AddCall(argv[1], PairUp(rest[1..]), AddOptions(rest[0], seen.nomkstream, TrimOf(seen).value)))
  }

  function ParseXtrim(lex: Lexer, argv: seq<string>): Option<(string, TrimOptions)> {
    if |argv| < 2 || argv[0] != "XTRIM" then None
    else match ReadAddOptions(lex, argv[2..], false, NOTHING_SEEN)
      case None => None
      case Some((seen, _)) =>
        if TrimOf(seen).None? || TrimOf(seen).value.None? then None
        else Some((argv[1], TrimOf(seen).value.value))
  }

  predicate IsAddOption(lex: Lexer, token: string) {
    var word := lex(token);
    word.KW_MAXLEN? || word.KW_MINID? || word.KW_LIMIT? || word.KW_NOMKSTREAM?
  }

  /** The only texts XADD cannot carry: an option word as the ID, and a bare "~" or "="
      as the threshold of an exact trim. */
  predicate Unambiguous(lex: Lexer, o: AddOptions) {
    && !IsAddOption(lex, o.id)
    && (o.trim.Some? && !o.trim.value.approximate ==> o.trim.value.threshold != "~" && o.trim.value.threshold != "=")
  }

  function SeenTrim(t: TrimOptions): Option<TrimSeen> {
    Some(TrimSeen(t.strategy, t.threshold, t.approximate))
  }

  lemma StrategyReads(lex: Lexer, t: TrimOptions, rest: seq<string>, xadd: bool, seen: AddSeen)
    requires KnowsWords(lex) && seen.trim.None?
    requires rest == [] || t.approximate || (t.threshold != "~" && t.threshold != "=")
    ensures ReadAddOptions(lex, [StrategyWord(t.strategy)] + (if t.approximate then ["~"] else [])
                                + [t.threshold] + rest, xadd, seen)
         == ReadAddOptions(lex, rest, xadd, seen.(trim := SeenTrim(t)))
  {
    if t.approximate {
      var ts := [StrategyWord(t.strategy)] + ["~"] + [t.threshold] + rest;
      assert ts[3..] == rest;
    } else {
      var ts := [StrategyWord(t.strategy)] + [] + [t.threshold] + rest;
      assert ts[2..] == rest;
    }
  }

  lemma LimitReads(lex: Lexer, n: Int64, rest: seq<string>, xadd: bool, seen: AddSeen)
    requires KnowsWords(lex) && n >= 0
    ensures ReadAddOptions(lex, ["LIMIT", Print(n)] + rest, xadd, seen)
         == ReadAddOptions(lex, rest, xadd, seen.(limit := Some(n)))
  {
    NumberOfPrint(n);
    var ts := ["LIMIT", Print(n)] + rest;
    assert ts[2..] == rest;
  }

  /** A trimming clause is read back whole, whatever follows it. */
  lemma TrimClauseReads(lex: Lexer, t: TrimOptions, rest: seq<string>, xadd: bool, seen: AddSeen)
    requires KnowsWords(lex)
    requires ValidTrim(t) && seen.trim.None? && seen.limit.None?
    requires rest == [] || t.approximate || (t.threshold != "~" && t.threshold != "=")
    ensures ReadAddOptions(lex, TrimWords(t) + rest, xadd, seen) ==
            ReadAddOptions(lex, rest, xadd, seen.(trim := SeenTrim(t), limit := t.limit))
  {
    var limit := if t.limit.Some? then ["LIMIT", Print(t.limit.value)] else [];
    assert TrimWords(t) + rest
        == [StrategyWord(t.strategy)] + (if t.approximate then ["~"] else []) + [t.threshold] + (limit + rest);
    StrategyReads(lex, t, limit + rest, xadd, seen);
    if t.limit.Some? {
      LimitReads(lex, t.limit.value, rest, xadd, seen.(trim := SeenTrim(t)));
    } else {
      assert limit + rest == rest;
    }
  }

  /** Where the option loop can stop: never on an option word that has something after
      it, never past its input, and never changing a trimming clause it has already read. */
  lemma {:induction false} ReadAddOptionsStops(lex: Lexer, ts: seq<string>, seen: AddSeen)
    ensures var r := ReadAddOptions(lex, ts, true, seen);
            r.Some? ==>
              && |r.value.1| <= |ts|
              && (|r.value.1| >= 2 ==> !IsAddOption(lex, r.value.1[0]))
              && (seen.trim.Some? ==> r.value.0.trim == seen.trim)
    decreases |ts|
  {
    if ts != [] {
      var word := lex(ts[0]);
      if (word.KW_MAXLEN? || word.KW_MINID?) && |ts| >= 2 && seen.trim.None? {
        var marked := |ts| >= 3 && (ts[1] == "~" || ts[1] == "=");
        var at := if marked then 2 else 1;
        var trim := TrimSeen(if word.KW_MAXLEN? then MAXLEN else MINID, ts[at], marked && ts[1] == "~");
        ReadAddOptionsStops(lex, ts[at + 1..], seen.(trim := Some(trim)));
      } else if word.KW_LIMIT? && |ts| >= 2 && Number(ts[1]).Some? {
        ReadAddOptionsStops(lex, ts[2..], seen.(limit := Number(ts[1])));
      } else if word.KW_NOMKSTREAM? {
        ReadAddOptionsStops(lex, ts[1..], seen.(nomkstream := true));
      }
    }
  }

  /** Everything of an XADD vector after the optional NOMKSTREAM. */
  function AddTail(fields: seq<(string, string)>, o: AddOptions): seq<string>
  {
    (if o.trim.Some? then TrimWords(o.trim.value) else []) + ([o.id] + Flatten(fields))
  }

  lemma XaddReadsTail(lex: Lexer, key: string, fields: seq<(string, string)>, o: AddOptions)
    requires KnowsWords(lex)
    requires XaddArgv(key, fields, o).Ok?
    ensures ReadAddOptions(lex, XaddArgv(key, fields, o).value[2..], true, NOTHING_SEEN) ==
            ReadAddOptions(lex, AddTail(fields, o), true, AddSeen(o.nomkstream, None, None))
  {
    hide Flatten, TrimWords, Print;
    var ts := XaddArgv(key, fields, o).value[2..];
    if o.nomkstream {
      assert ts[1..] == AddTail(fields, o);
    } else {
      assert ts == AddTail(fields, o);
    }
  }

  /** What a marked trimming clause without LIMIT does to the option loop. */
  lemma MarkReads(lex: Lexer, strategy: TrimStrategy, mark: string, threshold: string, rest: seq<string>, seen: AddSeen)
    requires KnowsWords(lex) && seen.trim.None? && (mark == "~" || mark == "=")
    ensures ReadAddOptions(lex, [StrategyWord(strategy), mark, threshold] + rest, true, seen)
         == ReadAddOptions(lex, rest, true, seen.(trim := Some(TrimSeen(strategy, threshold, mark == "~"))))
  {
    var ts := [StrategyWord(strategy), mark, threshold] + rest;
    assert ts[3..] == rest;
  }

  /** An exact trim whose threshold is "~" or "=" is not read back: the server takes the
      threshold for the precision mark and shifts everything after it by one token. */
  lemma MarkedThresholdMisread(lex: Lexer, fields: seq<(string, string)>, o: AddOptions, seen: AddSeen)
    requires KnowsWords(lex)
    requires o.trim.Some? && ValidTrim(o.trim.value) && !o.trim.value.approximate
    requires o.trim.value.threshold == "~" || o.trim.value.threshold == "="
    requires seen.trim.None?
    ensures var r := ReadAddOptions(lex, AddTail(fields, o), true, seen);
            r.Some? ==>
              || r.value.0.trim != SeenTrim(o.trim.value)
              || |r.value.1| < 1 + 2 * |fields|
  {
    var t := o.trim.value;
    assert AddTail(fields, o) == [StrategyWord(t.strategy), t.threshold, o.id] + Flatten(fields);
    hide ReadAddOptions, AddTail;
    MarkReads(lex, t.strategy, t.threshold, o.id, Flatten(fields), seen);
    ReadAddOptionsStops(lex, Flatten(fields), seen.(trim := Some(TrimSeen(t.strategy, o.id, t.threshold == "~"))));
  }

  /** With nothing ambiguous before it, the option loop reaches the ID with every option seen. */
  lemma XaddReadsToId(lex: Lexer, key: string, fields: seq<(string, string)>, o: AddOptions)
    requires KnowsWords(lex)
    requires XaddArgv(key, fields, o).Ok?
    requires o.trim.Some? && !o.trim.value.approximate ==>
               o.trim.value.threshold != "~" && o.trim.value.threshold != "="
    ensures ReadAddOptions(lex, XaddArgv(key, fields, o).value[2..], true, NOTHING_SEEN) ==
            ReadAddOptions(lex, [o.id] + Flatten(fields), true, SeenOf(o))
  {
    XaddReadsTail(lex, key, fields, o);
    var tail := [o.id] + Flatten(fields);
    if o.trim.Some? {
      TrimClauseReads(lex, o.trim.value, tail, true, AddSeen(o.nomkstream, None, None));
    } else {
      assert AddTail(fields, o) == tail;
    }
  }

  function SeenOf(o: AddOptions): AddSeen {
    match o.trim
    case None => AddSeen(o.nomkstream, None, None)
    case Some(t) => AddSeen(o.nomkstream, SeenTrim(t), t.limit)
  }

  lemma SeenIsTrim(o: AddOptions)
    requires o.trim.Some? ==> ValidTrim(o.trim.value)
    ensures TrimOf(SeenOf(o)) == Some(o.trim)
  {
  }

  /** When a vector is read as a given call: its options were seen, and the loop stopped
      with just the ID and the fields left. */
  lemma CallReads(lex: Lexer, argv: seq<string>, key: string, fields: seq<(string, string)>, o: AddOptions)
    requires |argv| >= 2 && argv[0] == "XADD" && argv[1] == key && fields != []
    ensures ParseXadd(lex, argv) == Some(AddCall(key, fields, o)) <==>
            var r := ReadAddOptions(lex, argv[2..], true, NOTHING_SEEN);
            && r.Some? && r.value.1 == [o.id] + Flatten(fields)
            && r.value.0.nomkstream == o.nomkstream && TrimOf(r.value.0) == Some(o.trim)
  {
    hide ReadAddOptions, TrimOf, Flatten;
    var r := ReadAddOptions(lex, argv[2..], true, NOTHING_SEEN);
    PairsRoundTrip(fields, []);
    var tail := [o.id] + Flatten(fields);
    assert tail[1..] == Flatten(fields);
    if r.Some? && |r.value.1| >= 3 && |r.value.1| % 2 == 1 {
      PairsRoundTrip(fields, r.value.1[1..]);
      assert r.value.1 == [r.value.1[0]] + r.value.1[1..];
    }
  }

  lemma StopsAtPlainId(lex: Lexer, fields: seq<(string, string)>, o: AddOptions, seen: AddSeen)
    requires KnowsWords(lex) && fields != []
    ensures var r := ReadAddOptions(lex, [o.id] + Flatten(fields), true, seen);
            r == Some((seen, [o.id] + Flatten(fields))) <==> !IsAddOption(lex, o.id)
    ensures var r := ReadAddOptions(lex, [o.id] + Flatten(fields), true, seen);
            IsAddOption(lex, o.id) && r.Some? ==> r.value.1 != [o.id] + Flatten(fields)
  {
    ReadAddOptionsStops(lex, [o.id] + Flatten(fields), seen);
  }

  lemma XaddHead(key: string, fields: seq<(string, string)>, o: AddOptions)
    requires XaddArgv(key, fields, o).Ok?
    ensures var argv := XaddArgv(key, fields, o).value;
            |argv| >= 2 && argv[0] == "XADD" && argv[1] == key
  {
  }

  /** The server reads back exactly the key, fields and options of an XADD, keywords and
      duplicates in keys and fields included, if and only if the options are unambiguous. */
  lemma XaddInverse(lex: Lexer, key: string, fields: seq<(string, string)>, o: AddOptions)
    requires KnowsWords(lex)
    requires XaddArgv(key, fields, o).Ok?
    ensures ParseXadd(lex, XaddArgv(key, fields, o).value) == Some(AddCall(key, fields, o)) <==> Unambiguous(lex, o)
  {
    hide ReadAddOptions, AddTail, Flatten, ParseXadd;
    XaddHead(key, fields, o);
    CallReads(lex, XaddArgv(key, fields, o).value, key, fields, o);
    if o.trim.Some? && !o.trim.value.approximate
       && (o.trim.value.threshold == "~" || o.trim.value.threshold == "=") {
      XaddReadsTail(lex, key, fields, o);
      MarkedThresholdMisread(lex, fields, o, AddSeen(o.nomkstream, None, None));
    } else {
      XaddReadsToId(lex, key, fields, o);
      StopsAtPlainId(lex, fields, o, SeenOf(o));
      SeenIsTrim(o);
    }
  }

  /** XTRIM has nothing after its clause, so no threshold is ambiguous. */
  lemma XtrimInverse(lex: Lexer, key: string, o: TrimOptions)
    requires KnowsWords(lex)
    requires XtrimArgv(key, o).Ok?
    ensures ParseXtrim(lex, XtrimArgv(key, o).value) == Some((key, o))
  {
    var argv := XtrimArgv(key, o).value;
    assert argv[2..] == TrimWords(o) + [];
    TrimClauseReads(lex, o, [], false, NOTHING_SEEN);
  }

  // ---------- XREAD and XREADGROUP ----------

  datatype ReadSeen = ReadSeen(
    count: Option<Int64>, blockMs: Option<Int64>, noack: bool, group: Option<(string, string)>)

  const NOTHING_READ: ReadSeen := ReadSeen(None, None, false, None)

  /** The option loop of the read commands. It stops at the first STREAMS in option
      position; keys, group and consumer are never looked at as options. */
  function ReadReadOptions(
    lex: Lexer, ts: seq<string>, grouped: bool, seen: ReadSeen)
    : Option<(ReadSeen, seq<string>)>
  {
    if ts == [] then None
    else
      var word := lex(ts[0]);
      if word.KW_BLOCK? && |ts| >= 2 then
        var n := Number(ts[1]);
        if n.None? || n.value < 0 then None
        else ReadReadOptions(lex, ts[2..], grouped, seen.(blockMs := n))
      else if word.KW_COUNT? && |ts| >= 2 then
        var n := Number(ts[1]);
        if n.None? then None
        else ReadReadOptions(lex, ts[2..], grouped, seen.(count := if n.value < 0 then Some(0) else n))
      else if word.KW_STREAMS? && |ts| >= 2 then
        if |ts| % 2 == 0 then None else Some((seen, ts[1..]))
      else if word.KW_GROUP? && |ts| >= 3 && grouped then
        ReadReadOptions(lex, ts[3..], grouped, seen.(group := Some((ts[1], ts[2]))))
      else if word.KW_NOACK? && grouped then
        ReadReadOptions(lex, ts[1..], grouped, seen.(noack := true))
      else None
  }

  /** Keys come first and IDs second, matched by position. */
  function Halve(names: seq<string>): seq<ReadRequest>
    requires |names| % 2 == 0
  {
    var n := |names| / 2;
    seq(n, i requires 0 <= i < n => ReadRequest(names[i], names[n + i]))
  }

  function ParseXread(lex: Lexer, argv: seq<string>): Option<(seq<ReadRequest>, ReadOptions)> {
    if |argv| < 1 || argv[0] != "XREAD" then None
    else match ReadReadOptions(lex, argv[1..], false, NOTHING_READ)
      case None => None
      case Some((seen, names)) =>
        if |names| % 2 != 0 then None else Some((Halve(names), ReadOptions(seen.count, seen.blockMs)))
  }

  datatype GroupCall = GroupCall(
    group: string, consumer: string, streams: seq<ReadRequest>, options: ReadGroupOptions)

  function ParseXreadgroup(lex: Lexer, argv: seq<string>): Option<GroupCall> {
    if |argv| < 1 || argv[0] != "XREADGROUP" then None
    else match ReadReadOptions(lex, argv[1..], true, NOTHING_READ)
      case None => None
      case Some((seen, names)) =>
        if |names| % 2 != 0 || seen.group.None? then None
        else Some(GroupCall(seen.group.value.0, seen.group.value.1, Halve(names),
                            ReadGroupOptions(seen.count, seen.blockMs, seen.noack)))
  }

  lemma CountReads(lex: Lexer, count: Option<Int64>, rest: seq<string>, grouped: bool, seen: ReadSeen)
    requires KnowsWords(lex) && CountClause(count).Ok? && seen.count.None?
    ensures ReadReadOptions(lex, CountClause(count).value + rest, grouped, seen)
         == ReadReadOptions(lex, rest, grouped, seen.(count := count))
  {
    var ts := CountClause(count).value + rest;
    if count.Some? {
      NumberOfPrint(count.value);
      assert ts[2..] == rest;
    } else {
      assert ts == rest;
    }
  }

  lemma BlockReads(lex: Lexer, blockMs: Option<Int64>, rest: seq<string>, grouped: bool, seen: ReadSeen)
    requires KnowsWords(lex) && BlockClause(blockMs).Ok? && seen.blockMs.None?
    ensures ReadReadOptions(lex, BlockClause(blockMs).value + rest, grouped, seen)
         == ReadReadOptions(lex, rest, grouped, seen.(blockMs := blockMs))
  {
    var ts := BlockClause(blockMs).value + rest;
    if blockMs.Some? {
      NumberOfPrint(blockMs.value);
      assert ts[2..] == rest;
    } else {
      assert ts == rest;
    }
  }

  lemma StreamsRead(lex: Lexer, streams: seq<ReadRequest>, grouped: bool, seen: ReadSeen)
    requires KnowsWords(lex) && ValidStreams(streams)
    ensures ReadReadOptions(lex, StreamsClause(streams).value, grouped, seen)
         == Some((seen, Keys(streams) + Ids(streams)))
    ensures Halve(Keys(streams) + Ids(streams)) == streams
  {
    var ts := StreamsClause(streams).value;
    assert ts[1..] == Keys(streams) + Ids(streams);
  }

  /** XREAD argument vectors determine their inputs: every key and ID comes back by
      position, whatever words the keys happen to be. */
  lemma XreadInverse(lex: Lexer, streams: seq<ReadRequest>, o: ReadOptions)
    requires KnowsWords(lex)
    requires XreadArgv(streams, o).Ok?
    ensures ParseXread(lex, XreadArgv(streams, o).value) == Some((streams, o))
  {
    hide ReadReadOptions, Halve, Keys, Ids, Print;
    var argv := XreadArgv(streams, o).value;
    var names := StreamsClause(streams).value;
    var block := BlockClause(o.blockMs).value;
    assert argv[1..] == CountClause(o.count).value + (block + names);
    CountReads(lex, o.count, block + names, false, NOTHING_READ);
    BlockReads(lex, o.blockMs, names, false, NOTHING_READ.(count := o.count));
    StreamsRead(lex, streams, false, ReadSeen(o.count, o.blockMs, false, None));
  }

  lemma NoackReads(lex: Lexer, noack: bool, rest: seq<string>, seen: ReadSeen)
    requires KnowsWords(lex) && !seen.noack
    ensures ReadReadOptions(lex, (if noack then ["NOACK"] else []) + rest, true, seen)
         == ReadReadOptions(lex, rest, true, seen.(noack := noack))
  {
    var ts := (if noack then ["NOACK"] else []) + rest;
    if noack {
      assert ts[1..] == rest;
    } else {
      assert ts == rest;
    }
  }

  lemma GroupReads(lex: Lexer, group: string, consumer: string, rest: seq<string>)
    requires KnowsWords(lex)
    ensures ReadReadOptions(lex, ["GROUP", group, consumer] + rest, true, NOTHING_READ)
         == ReadReadOptions(lex, rest, true, NOTHING_READ.(group := Some((group, consumer))))
  {
    var ts := ["GROUP", group, consumer] + rest;
    assert ts[3..] == rest;
  }

  /** Everything of an XREADGROUP vector after the group and the consumer. */
  function GroupTail(streams: seq<ReadRequest>, o: ReadGroupOptions): seq<string>
    requires CountClause(o.count).Ok? && BlockClause(o.blockMs).Ok? && StreamsClause(streams).Ok?
  {
    CountClause(o.count).value
    + (BlockClause(o.blockMs).value + ((if o.noack then ["NOACK"] else []) + StreamsClause(streams).value))
  }

  lemma GroupTailReads(lex: Lexer, streams: seq<ReadRequest>, o: ReadGroupOptions, group: Option<(string, string)>)
    requires KnowsWords(lex)
    requires CountClause(o.count).Ok? && BlockClause(o.blockMs).Ok? && ValidStreams(streams)
    ensures ReadReadOptions(lex, GroupTail(streams, o), true, NOTHING_READ.(group := group))
         == Some((ReadSeen(o.count, o.blockMs, o.noack, group), Keys(streams) + Ids(streams)))
  {
    var names := StreamsClause(streams).value;
    var noack := if o.noack then ["NOACK"] else [];
    var seen := NOTHING_READ.(group := group);
    CountReads(lex, o.count, BlockClause(o.blockMs).value + (noack + names), true, seen);
    BlockReads(lex, o.blockMs, noack + names, true, seen.(count := o.count));
    NoackReads(lex, o.noack, names, seen.(count := o.count, blockMs := o.blockMs));
    StreamsRead(lex, streams, true, ReadSeen(o.count, o.blockMs, o.noack, group));
  }

  lemma XreadgroupShape(group: string, consumer: string, streams: seq<ReadRequest>, o: ReadGroupOptions)
    requires XreadgroupArgv(group, consumer, streams, o).Ok?
    ensures CountClause(o.count).Ok? && BlockClause(o.blockMs).Ok? && ValidStreams(streams)
    ensures XreadgroupArgv(group, consumer, streams, o).value
         == ["XREADGROUP"] + (["GROUP", group, consumer] + GroupTail(streams, o))
  {
  }

  /** XREADGROUP argument vectors determine their inputs, with no restriction on the text
      of keys, group or consumer. */
  lemma XreadgroupInverse(lex: Lexer, group: string, consumer: string, streams: seq<ReadRequest>, o: ReadGroupOptions)
    requires KnowsWords(lex)
    requires XreadgroupArgv(group, consumer, streams, o).Ok?
    ensures ParseXreadgroup(lex, XreadgroupArgv(group, consumer, streams, o).value)
         == Some(GroupCall(group, consumer, streams, o))
  {
    XreadgroupShape(group, consumer, streams, o);
    var tail := ["GROUP", group, consumer] + GroupTail(streams, o);
    assert (["XREADGROUP"] + tail)[1..] == tail;
    GroupReads(lex, group, consumer, GroupTail(streams, o));
    GroupTailReads(lex, streams, o, Some((group, consumer)));
    StreamsRead(lex, streams, true, NOTHING_READ);
  }

  // ---------- EVAL and EVALSHA ----------

  datatype ScriptCall = ScriptCall(command: string, script: string, keys: seq<string>, args: seq<string>)

  /** The server splits keys from arguments by the announced key count. */
  function ParseScript(argv: seq<string>): Option<ScriptCall> {
    if |argv| < 3 then None
    else
      var n := Number(argv[2]);
      if n.None? || n.value < 0 || n.value > |argv| - 3 then None
      else Some(ScriptCall(argv[0], argv[1], argv[3..3 + n.value], argv[3 + n.value..]))
  }

  /** Script argument vectors determine their inputs: keys and arguments are never confused. */
  lemma ScriptInverse(command: string, script: string, keys: seq<string>, args: seq<string>)
    requires ScriptArgv(command, script, keys, args).Ok?
    ensures ParseScript(ScriptArgv(command, script, keys, args).value)
         == Some(ScriptCall(command, script, keys, args))
  {
    NumberOfPrint(|keys|);
    var argv := ScriptArgv(command, script, keys, args).value;
    assert argv[2] == Print(|keys|);
    assert argv[3..3 + |keys|] == keys && argv[3 + |keys|..] == args;
  }
}
