/** What a Redis server reads back from the hash commands of Hashes. */
module HashGrammar {
  import opened Results
  import opened Decimal
  import opened Serialization
  import opened Replies
  import opened CommandGrammar
  import opened Hashes

  datatype ScanWord = SCAN_MATCH | SCAN_COUNT | SCAN_OTHER

  type ScanLexer = string -> ScanWord

  predicate KnowsScanWords(lex: ScanLexer) {
    lex("MATCH") == SCAN_MATCH && lex("COUNT") == SCAN_COUNT
  }

  function ScanWordOf(token: string): ScanWord {
    var t := ToUpper(token);
    if t == "MATCH" then SCAN_MATCH else if t == "COUNT" then SCAN_COUNT else SCAN_OTHER
  }

  /** The server's case-insensitive classifier is one. */
  lemma ServerKnowsScanWords()
    ensures KnowsScanWords(ScanWordOf)
  {
    UpperCaseStays("MATCH");
    UpperCaseStays("COUNT");
    assert "MATCH"[0] != "COUNT"[0];
  }

  datatype ScanSeen = ScanSeen(pattern: string, count: Option<Int64>)

  datatype ScanCall = ScanCall(key: string, cursor: UInt64, seen: ScanSeen)

  /** Options come in any order, the last of each kind counts, and without MATCH every
      field matches. */
  function ReadScanOptions(lex: ScanLexer, ts: seq<string>, seen: ScanSeen): Option<ScanSeen> {
    if ts == [] then Some(seen)
    else if |ts| < 2 then None
    else match lex(ts[0])
      case SCAN_MATCH => ReadScanOptions(lex, ts[2..], seen.(pattern := ts[1]))
      case SCAN_COUNT =>
        if Number(ts[1]).None? then None else ReadScanOptions(lex, ts[2..], seen.(count := Number(ts[1])))
      case SCAN_OTHER => None
  }

  function ParseHscan(lex: ScanLexer, argv: seq<string>): Option<ScanCall> {
    if |argv| < 3 || argv[0] != "HSCAN" then None
    else match FromString(IntType(false, W64), argv[2])
      case Err(_) => None
      case Ok(cursor) =>
        match ReadScanOptions(lex, argv[3..], ScanSeen("*", None))
        case None => None
        case Some(seen) => Some(ScanCall(argv[1], cursor, seen))
  }

  function ParseHmget(argv: seq<string>): Option<(string, seq<string>)> {
    if |argv| < 3 || argv[0] != "HMGET" then None else Some((argv[1], argv[2..]))
  }

  function ParseHset(argv: seq<string>): Option<(string, seq<(string, string)>)> {
    if |argv| < 4 || argv[0] != "HSET" || |argv| % 2 != 0 then None else Some((argv[1], PairUp(argv[2..])))
  }

  lemma ScanOptionsRead(lex: ScanLexer, pattern: string, count: Int64)
    requires KnowsScanWords(lex)
    ensures ReadScanOptions(lex, ["MATCH", pattern, "COUNT", Print(count)], ScanSeen("*", None))
         == Some(ScanSeen(pattern, Some(count)))
  {
    hide Print, Number;
    NumberOfPrint(count);
    var tail := ["COUNT", Print(count)];
    assert ["MATCH", pattern, "COUNT", Print(count)][2..] == tail && tail[2..] == [];
    assert ReadScanOptions(lex, tail, ScanSeen(pattern, None)) == Some(ScanSeen(pattern, Some(count)));
  }

  /** A page request determines key, cursor, pattern and count, whatever words the key and
      the pattern are. */
  lemma HscanInverse(lex: ScanLexer, key: string, cursor: UInt64, pattern: string, count: UInt32)
    requires KnowsScanWords(lex)
    ensures ParseHscan(lex, HscanArgv(key, cursor, pattern, count))
         == Some(ScanCall(key, cursor, ScanSeen(pattern, Some(count))))
  {
    hide Print, FromString;
    var argv := HscanArgv(key, cursor, pattern, count);
    IntegerRoundTrip(IntType(false, W64), cursor);
    ScanOptionsRead(lex, pattern, count);
    assert argv[3..] == ["MATCH", pattern, "COUNT", Print(count)];
  }

  /** A batched lookup determines its key and, in order, its fields. */
  lemma HmgetInverse(key: string, fields: seq<string>)
    ensures fields != [] ==> ParseHmget(HmgetArgv(key, fields)) == Some((key, fields))
  {
    assert HmgetArgv(key, fields)[2..] == fields;
  }

  /** The server stores exactly the entries of the map, each once. */
  lemma HsetInverse(key: string, m: map<string, string>, order: seq<string>)
    requires Enumerates(order, m.Keys) && m != map[]
    ensures var read := ParseHset(HsetArgv(key, m, order));
            && read.Some? && read.value.0 == key
            && |read.value.1| == |m.Keys|
            && EmplaceAll(map[], read.value.1) == m
  {
    hide EmplaceAll;
    assert forall i :: 0 <= i < |order| ==> order[i] in m.Keys;
    EnumerationLength(order, m.Keys);
    var argv := HsetArgv(key, m, order);
    assert argv[2..] == Flatten(PairsIn(m, order));
    PairsRoundTrip(PairsIn(m, order), []);
    EmplaceEnumeration(m, order);
  }
}
