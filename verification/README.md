# Verified model of RedisDAL

RedisDAL is a layered Redis client for C++. Most of its commands are one-line wrappers. This project models the
parts that carry logic of their own, in Dafny 4.11, and proves what they guarantee:

- **Script reload.** The typed facade remembers script bodies by digest and reloads a script when the server answers
  NOSCRIPT. `ScriptServer` is a server whose script cache other clients flush and load between any two requests, with
  lost requests, lost replies and refusals; `Scripts` is the client and the facade; `ScriptProtocol` proves the
  at-most-once argument.
- **Command construction.** `Commands` builds argument vectors and says which requests are accepted; `CommandGrammar` and
  `HashGrammar` are what a Redis server reads back from them, and prove that it reads back what the caller meant.
- **Replies.** `Replies`, `StreamReplies` and `SyncConnection` are the tagged reply record, its decoders, and the
  conversion from hiredis replies.
- **Hashes and streams.** `Hashes`, `TypedHashes`, `StreamClient` and `TypedStreams` are the batched and typed operations
  over maps, pages and stream entries, from the facade through the string client to the executor; `TypedHashLaws` says
  what the typed hash operations guarantee, for every order in which an unordered container may be walked.
- **Integer text.** `Decimal` and `Serialization` are `std::to_string`, the digit loop of `std::from_chars`
  (section 23.20.3 of ISO C++17), `std::stoul`, and the integer and `bool` serializers.
- **Connection URLs.** `UrlQuery`, `Urls` and `UrlRoundTrip` are the query scan, the URL parser, and their round trips.

Conventions. Text is a sequence of bytes, one `char` per byte. Exceptions are values of `Results.Error`; their text is
kept only where a caller can read it back. Everything behind `cmd_execv` is an `Executor` whose replies may depend on
every command sent before, so a statement about every oracle covers every server and transport. Helpers of the
original that update a vector or a map through a reference update a field of an object here (`ArgVector`, `MapRef`), the
facade is a class with its `sha1Cache`, and the loops of the decoders and parsers are loops in methods, each proved equal
to a specification function about which the lemmas speak.

Assumptions stated in the model, not in the code:

- The client recognises a missing script by the word NOSCRIPT in the error text. `ScriptProtocol.Honest` says that a
  script that did run never answers with such an error. `ScriptProtocol.AtMostOnceIffHonest` proves that at-most-once
  execution holds exactly under this assumption.
- A server understands SCRIPT LOAD and EVALSHA as sent and changes only by the requests it receives and by what the
  schedule says others do (`ScriptServer.Coherent`). `ScriptServer.MadeWorldIsCoherent` proves that every digest
  function and every schedule gives such a world with a server that reads by the argument grammar, and
  `ScriptServer.CoherentWorldIsMade` that there is only one.
- The server's digest is a function of the body; that it has no collisions is assumed only where a body is identified
  by its digest (`ScriptProtocol.LoadedBodyRuns`).
- hiredis announces only readable memory (`SyncConnection.Readable`), and `unsigned long` has 64 bits.
- User-supplied serializers round trip (`Serialization.RoundTrips`) where a statement says so.

Where code and documentation differ, the model follows the code: ports in URLs are not range checked
(`UrlRoundTrip.PortIsTruncated`), the typed hscan replaces the caller's map while the string-level one extends it, and
the typed batched hget is not all-or-nothing (`TypedHashLaws.TypedHgetNotAtomic`, and exactly when it is:
`TypedHashLaws.HgetAtomicIff`), and a typed page may depend on the order in which the raw one is walked
(`TypedHashLaws.PlusSignMerges`, and exactly when: `TypedHashLaws.RefillOrderIff`).

`hide` statements in proofs only keep definitions out of the solver's sight; nothing is assumed.

## Model

| member | source | states |
|---|---|---|
| ScriptProtocol.EvalCallAtMostOnce | include/redisdal/redis_template.hpp:222-248 | over every schedule of other clients and lost messages, one call runs the script at most once; a normal return means exactly once with the digest, keys and arguments asked for; `no_script_error` means not at all; too many keys send nothing |
| ScriptProtocol.AtMostOnceIffHonest | src/redis_cmd_ops.cpp:104-111 | at-most-once holds in all worlds whose scripts return a given reply if and only if that reply is not an error mentioning NOSCRIPT |
| ScriptProtocol.DoubleRun | include/redisdal/redis_template.hpp:236-246 | a concrete world in which a script whose own error mentions NOSCRIPT is executed twice by one call |
| ScriptProtocol.EvalCallAtMostTwice | include/redisdal/redis_template.hpp:222-248 | without any assumption about scripts or digests a call still runs at most two scripts |
| ScriptProtocol.EvalCallOutcome | include/redisdal/redis_template.hpp:232-247 | in every world and for every cache: which requests a call sends, and its result by the server state and the turn of the request that decides it, as reply, missing script, server message or transport failure |
| ScriptProtocol.RanScriptReturns | include/redisdal/redis_template.hpp:232-234 | a script the server has, cached here or not, costs one request and returns its own reply, or raises its own error |
| ScriptProtocol.RefusalEscapes | src/redis_client.cpp:412-417 | a refusal that does not mention NOSCRIPT is raised with its message, without a second request |
| ScriptProtocol.LoadCallOutcome | include/redisdal/redis_template.hpp:214-219 | `script_load` sends one request, returns the digest exactly when it gets through, and then remembers the body unless the digest is known |
| ScriptProtocol.NoScriptIff | include/redisdal/redis_template.hpp:232-247 | a call ends in `no_script_error` if and only if the first EVALSHA is answered as missing, and the digest is not cached or the reload goes through and the retry is answered as missing |
| ScriptProtocol.CachedDigestReloads | include/redisdal/redis_template.hpp:236-246 | a cached digest with no flush between reload and retry, and no refusal of the retry that itself says NOSCRIPT, never ends in `no_script_error` |
| ScriptProtocol.FlushIsRepaired | include/redisdal/redis_template.hpp:233-247 | when requests get through, a flushed script costs one reload: three requests, one run, the script's own result |
| ScriptProtocol.RunKeeps | include/redisdal/redis_template.hpp:214-248 | over any sequence of calls the digest cache only grows, never rebinds, maps digests to bodies with that digest, and the server's runs are an ordered selection of the evaluation calls |
| ScriptProtocol.LoadedBodyRuns | include/redisdal/redis_template.hpp:214-219 | with a collision-free digest, a digest handed out by `script_load` runs that very body at any later time |
| ScriptServer.GrammarReadsScripts | src/redis_cmd_ops.cpp:16-25 | a server reading by the Redis argument grammar recovers digest, keys and arguments from the two script commands this library sends |
| ScriptProtocol.EvalRequest | src/redis_client.cpp:412-417 | one EVALSHA request appends at most one run and the client's outcome tells how many |
| ScriptProtocol.LoadRequest | src/redis_cmd_ops.cpp:93-102 | one SCRIPT LOAD runs nothing and returns the digest of a body the server now holds |
| Scripts.RedisTemplate.EvalSha1 | include/redisdal/redis_template.hpp:222-248 | result, requests sent and digest cache after the call are those of the specified protocol on the serialized keys and arguments |
| Scripts.RedisTemplate.ScriptLoad | include/redisdal/redis_template.hpp:214-219 | a returned digest is remembered unless already known; a failed load remembers nothing |
| Scripts.ClientEvalSha1 | src/redis_client.cpp:412-417 | too many keys are rejected before sending; NOSCRIPT, other errors and results are told apart |
| Scripts.EvalCallOnAnyServer | include/redisdal/redis_template.hpp:232-247 | against any server, consistent or not: requests, result and cache of a call; a reload evaluates and remembers under the digest the server returned |
| Scripts.LoadCallOnAnyServer | include/redisdal/redis_template.hpp:214-219 | against any server: one request, the returned digest, and what is remembered |
| Scripts.EvalShaResultExact | src/redis_cmd_ops.cpp:104-111 | an error with NOSCRIPT anywhere in its text is a missing script, any other error is raised with its message, anything else is returned |
| Scripts.ContainsExactly | src/redis_cmd_ops.cpp:107 | the word is found exactly where a text has it anywhere between two others |
| Scripts.LoadResultExact | src/redis_cmd_ops.cpp:93-102 | a load returns the text of a string reply, raises a server error, and rejects everything else |
| Commands.AppendStreamTrim | src/redis_cmd_ops.cpp:51-71 | appends exactly the trimming clause, or rejects the options and leaves the vector alone |
| Commands.AppendStreams | src/redis_cmd_ops.cpp:73-90 | appends STREAMS, all keys, then all IDs, or rejects and leaves the vector alone |
| Commands.Xadd | src/redis_cmd_ops.cpp:377-399 | sends exactly one well-built vector; rejected options cause no executor call |
| Commands.Xread | src/redis_cmd_ops.cpp:419-426 | sends exactly one well-built vector; rejected options cause no executor call |
| Commands.Xreadgroup | src/redis_cmd_ops.cpp:468-479 | sends exactly one well-built vector; rejected options cause no executor call |
| Commands.Xtrim | src/redis_cmd_ops.cpp:435-439 | sends exactly one well-built vector; rejected options cause no executor call |
| Commands.XreadAccepted | src/redis_cmd_ops.cpp:27-82 | XREAD is accepted exactly with a positive count, a non-negative block time, a stream and no empty ID; otherwise it is an invalid argument |
| Commands.XreadgroupAccepted | src/redis_cmd_ops.cpp:27-82 | the same domain for XREADGROUP, whatever group, consumer and NOACK |
| Commands.XtrimAccepted | src/redis_cmd_ops.cpp:51-61 | a trim is accepted exactly with a threshold and a limit that is non-negative and goes with approximate trimming |
| Commands.XaddAccepted | src/redis_cmd_ops.cpp:377-399 | an addition is accepted exactly with a field, an ID and an acceptable trim |
| Commands.ScriptAccepted | src/redis_cmd_ops.cpp:16-22 | a script call is accepted exactly with at most 64 keys |
| Commands.XaddLayout | src/redis_cmd_ops.cpp:377-399 | the position of every part of an XADD vector, also for options a server would misread |
| CommandGrammar.XaddInverse | src/redis_cmd_ops.cpp:377-399 | a server reads back exactly key, fields and options of an XADD if and only if the ID is no option word and an exact trim's threshold is neither "~" nor "=" |
| CommandGrammar.MarkedThresholdMisread | src/redis_cmd_ops.cpp:51-71 | an exact trim with threshold "~" or "=" is read as something else |
| CommandGrammar.XtrimInverse | src/redis_cmd_ops.cpp:435-439 | a server reads back every accepted XTRIM, whatever the threshold text |
| CommandGrammar.XreadInverse | src/redis_cmd_ops.cpp:419-426 | XREAD vectors determine their (key, ID) pairs and options, even when keys are keywords |
| CommandGrammar.XreadgroupInverse | src/redis_cmd_ops.cpp:468-479 | XREADGROUP vectors determine group, consumer, pairs and options with no restriction on their text |
| CommandGrammar.ScriptInverse | src/redis_cmd_ops.cpp:16-25 | EVAL and EVALSHA vectors determine script, keys and arguments |
| Replies.SignedViewBijection | include/redisdal/common.hpp:146-187 | the signed view is two's complement and inverts `make_signed_integer`, with no intermediate overflow |
| Replies.StringsDomain | src/cmd_reply.cpp:78-89 | the list decoder accepts exactly NIL and arrays of strings, and loses nothing |
| Replies.Strings | src/cmd_reply.cpp:78-89 | the decoding loop computes the specified list or the first error |
| Replies.HashDomain | src/cmd_reply.cpp:91-102 | the hash decoder accepts exactly flattened pair lists and keeps the first value of a repeated field |
| Replies.Hash | src/cmd_reply.cpp:91-102 | the decoding loop computes the specified map or the first error |
| Replies.EmplaceAllFirstWins | src/cmd_reply.cpp:98-100 | after any run of insertions existing entries are untouched and new keys hold their first value |
| Replies.ScanCursorDomain | src/cmd_reply.cpp:133-140 | a page decodes exactly when it is an unsigned 64-bit numeral and an array; every printed cursor comes back |
| Replies.OrThrowExact | src/cmd_reply.cpp:188-197 | error replies, and no others, are raised, with the message of the server |
| Replies.StringsRejects | src/cmd_reply.cpp:78-89 | what is not a list, and an element that is no string, are reported as such |
| Replies.HashRejects | src/cmd_reply.cpp:91-102 | the shape of a hash is checked before its elements, and everything of the right shape is accepted |
| Replies.ScanCursorRejects | src/cmd_reply.cpp:133-140 | every reply that is not a page, and the order in which its faults are found |
| StreamReplies.EntriesDomain | src/cmd_reply.cpp:142-169 | `stream_entries` yields given entries exactly on their encodings, up to NIL for empty lists |
| StreamReplies.BatchesDomain | src/cmd_reply.cpp:171-186 | `stream_batches` yields given batches exactly on their encodings, up to NIL for empty lists |
| StreamReplies.EntriesRejects | src/cmd_reply.cpp:142-169 | the first bad entry is reported |
| StreamReplies.EntryRejects | src/cmd_reply.cpp:149-164 | the first fault of an entry from the outside in |
| StreamReplies.BatchRejects | src/cmd_reply.cpp:177-182 | the first fault of a batch from the outside in |
| StreamReplies.BatchesRejects | src/cmd_reply.cpp:171-186 | the first bad batch is reported |
| StreamReplies.StreamEntries | src/cmd_reply.cpp:142-169 | the nested loops compute the specified entries or the first error |
| StreamReplies.StreamBatches | src/cmd_reply.cpp:171-186 | the loop computes the specified batches or the first error |
| SyncConnection.ConvertReply | src/sync_connection.cpp:14-48 | conversion terminates and computes the specified consistent reply tree or the first error |
| SyncConnection.ConvertedMirrors | src/sync_connection.cpp:14-48 | the result is the one consistent tree that says the same as the server's reply at every node: every announced byte of text in place, every integer, every element |
| SyncConnection.ConvertedSucceeds | src/sync_connection.cpp:15-40 | conversion fails exactly on missing text, a missing array or a missing element, and reports them as malformed |
| SyncConnection.CmdExecvRejects | src/sync_connection.cpp:153-191 | an empty or over-long vector never reaches the server; no answer is a transport failure |
| SyncConnection.ServerErrorsReachTheClient | src/sync_connection.cpp:108-115 | a top-level server error reaches the client as `redis_error` with every byte of its message, and nested errors stay values |
| SyncConnection.Connect | src/sync_connection.cpp:60-86 | AUTH then SELECT, in order, stopping at the first step that is not accepted |
| SyncConnection.HandshakeEstablishes | src/sync_connection.cpp:75-85 | after the handshake the server has the user name and password of the configuration, each in its place, and its database, chosen with those credentials |
| SyncConnection.ValidateOkExact | src/sync_connection.cpp:50-57 | a step is accepted exactly by the status OK; a server error is raised with its message |
| Serialization.FromStringClassifies | include/redisdal/serialization.hpp:62-106 | for every width and signedness every byte string is a numeral in range, a numeral out of range, or invalid, with the matching outcome |
| Serialization.IntegerRoundTrip | include/redisdal/serialization.hpp:41-60 | printing then parsing is the identity for every value of every width, also after a '+' |
| Serialization.BoolDomain | include/redisdal/serialization.hpp:63-74 | a truth value is read exactly from its digit and from every capitalisation of its printed form |
| Serialization.BuiltInCodecsRoundTrip | include/redisdal/serialization.hpp:147-157 | the serializers of strings, `bool` and the integers of every width and signedness satisfy the round-trip law |
| Serialization.ReadPairExact | include/redisdal/redis_operations.hpp:133-137 | a field-value pair is read exactly when both parts deserialize, with the error of the part that fails |
| Decimal.PrintIsCanonical | include/redisdal/serialization.hpp:41-60 | every digit text without a leading zero is what its number prints as |
| Decimal.PrintedShape | include/redisdal/serialization.hpp:41-60 | printed numbers have no leading zero and a minus sign exactly when negative |
| Decimal.ScanDigitsExact | include/redisdal/serialization.hpp:91-98 | the bounded digit loop computes the exact value when it fits, reports overflow otherwise, and consumes all digits either way |
| Decimal.FromCharsExact | include/redisdal/serialization.hpp:91-98 | full-text conversion succeeds, overflows or fails exactly by grammar and range |
| Decimal.StoulExact | src/redis_config.cpp:113-120 | `std::stoul` on leading space, optional sign, digits and any tail: the number, negated modulo 2^64 after a minus sign, overflow exactly from 2^64 on |
| Decimal.StoulRejects | src/redis_config.cpp:113-120 | every other text, and no more, is rejected as malformed |
| Hashes.HgetMap | src/redis_client.cpp:130-155 | on success the caller's map is what the reply binds; on any failure it is as before; an empty map sends nothing |
| Hashes.HmgetDomain | src/redis_client.cpp:140-154 | for every field order HMGET yields a map exactly when the reply lists its values and NILs in that order |
| Hashes.HmgetRejects | src/redis_client.cpp:140-150 | every way a batched lookup fails: transport, server message, shape, number of values, kind of a value |
| Hashes.HsetMap | src/redis_cmd_ops.cpp:186-196 | an empty map sends nothing; otherwise one vector with every entry in iteration order |
| Hashes.HsetHashRoundTrip | src/redis_cmd_ops.cpp:190-195 | the pairs HSET sends, in any order, decode as a hash to the same map |
| Hashes.Hscan | src/redis_client.cpp:182-189 | a decodable page is merged under the existing entries; a failing one changes nothing |
| Hashes.HscanAccumulates | src/redis_client.cpp:182-189 | after any sequence of pages the map is its initial contents plus all arriving pairs, first value wins |
| Hashes.PageDomain | src/redis_client.cpp:182-189 | a reply decodes to a next cursor and a map exactly when it is the text of that cursor beside flattened pairs |
| Hashes.PageRejects | src/redis_client.cpp:184-186 | a failed request, a server error and a malformed page keep their own errors |
| HashGrammar.HscanInverse | src/redis_cmd_ops.cpp:210-213 | a server reads back key, cursor, pattern and count of a page request |
| HashGrammar.HmgetInverse | src/redis_cmd_ops.cpp:178-180 | a server reads back key and fields of a batched lookup in order |
| HashGrammar.HsetInverse | src/redis_cmd_ops.cpp:186-196 | a server stores exactly the entries of the map, each once |
| Hashes.ClientHset | src/redis_client.cpp:162-168 | an empty map sends nothing and answers false; otherwise a server error is raised and the answer is whether the reply is a non-negative integer |
| Hashes.HsetResultExact | src/redis_client.cpp:162-168 | true exactly for a count that is not negative, 0 included; a server error is raised, any other reply is false |
| Hashes.HgetallResultExact | src/redis_client.cpp:170-172 | a reply is read exactly when it is flattened pairs; a server error is raised |
| TypedHashes.Hget | include/redisdal/redis_operations.hpp:100-127 | one HMGET for the serialized fields, then the update loop over the answer; a string-level failure or an empty map changes nothing |
| TypedHashLaws.HgetLifts | include/redisdal/redis_operations.hpp:114-126 | success exactly when all found values deserialize; then every field holds its lifted answer; on failure each entry is old or already updated |
| TypedHashLaws.HgetStopsAt | include/redisdal/redis_operations.hpp:114-126 | on failure exactly the fields before the failing one in the order of iteration are updated, and its error escapes |
| TypedHashLaws.HgetIsLookup | include/redisdal/redis_operations.hpp:100-127 | against a server that answers field by field the whole call succeeds exactly when every value found deserializes, and is then a per-field lookup through the serializers, independent of every iteration order |
| TypedHashLaws.HgetRejects | include/redisdal/redis_operations.hpp:100-111 | a string-level failure leaves the caller's map alone and keeps its error |
| TypedHashLaws.UpdateAllAnyCodec | include/redisdal/redis_operations.hpp:114-126 | with any serializers the loop never adds or drops an entry, the last field of a key wins, and it gets through exactly when every field passes |
| TypedHashLaws.HgetAtomicIff | include/redisdal/redis_operations.hpp:100-127 | a failing call leaves the map as it was for every walk of its containers if and only if every value found deserializes or no value that does would change its entry |
| TypedHashLaws.TypedHgetNotAtomic | include/redisdal/redis_operations.hpp:115-126 | a two-field map and an HMGET reply after which the call leaves it half updated, however the containers are walked |
| TypedHashes.Hset | include/redisdal/redis_operations.hpp:183-190 | sends the serialized map through the string client, or sends nothing and answers false if it is empty |
| TypedHashes.Hgetall | include/redisdal/redis_operations.hpp:130-138 | one HGETALL, its reply decoded as a hash, then the deserializing loop; any failure loses the result |
| TypedHashLaws.HgetallOutcomeExact | include/redisdal/redis_operations.hpp:130-138 | with any serializers: the typed pairs if all deserialize, otherwise the error of the first that does not; transport and server errors escape |
| TypedHashes.Hscan | include/redisdal/redis_operations.hpp:163-174 | replaces the caller's map by the deserialized page; a page that does not decode leaves it alone |
| TypedHashLaws.RefillExact | include/redisdal/redis_operations.hpp:163-174 | a page is accepted exactly when every pair deserializes; also after a failure the map holds the pairs before it, first value of a repeated key |
| TypedHashLaws.RefillOrderIff | include/redisdal/redis_operations.hpp:163-174 | map and outcome are the same for every walk if and only if all pairs deserialize and equal typed keys have equal typed values, or no pair deserializes and all fail alike |
| TypedHashLaws.PlusSignMerges | include/redisdal/redis_operations.hpp:133-137 | with integer keys the fields 1 and +1 are merged, and which value stays depends on the walk unless both are equal |
| TypedHashLaws.HsetHgetallRoundTrip | include/redisdal/redis_operations.hpp:130-138 | a typed map sent by hset and read back by hgetall or hscan is the same map, for every iteration order of every loop |
| TypedHashLaws.HgetallReturnsStored | include/redisdal/redis_operations.hpp:130-138 | an HGETALL reply listing what hset sent, in any order, returns the stored typed map |
| StreamClient.ClientXadd | src/redis_client.cpp:334-338 | one XADD or nothing; a server error is raised, and the reply is an ID or NIL |
| StreamClient.ClientXread | src/redis_client.cpp:354-357 | one XREAD or nothing; a server error is raised, and the reply is decoded as batches |
| StreamClient.ClientXreadgroup | src/redis_client.cpp:394-398 | one XREADGROUP or nothing; a server error is raised, and the reply is decoded as batches |
| StreamClient.XaddResultExact | src/redis_client.cpp:334-338 | the ID the server sends, nothing for NIL, a server error raised, everything else rejected |
| StreamClient.XtrimResultExact | src/redis_client.cpp:366-368 | the server's count, a server error raised, everything else rejected |
| StreamClient.XreadResultExact | src/redis_client.cpp:354-357 | the batches that the reply encodes and no others; a server error is raised |
| TypedStreams.XaddTyped | include/redisdal/redis_operations.hpp:541-549 | serializes fields in order, sends one XADD or nothing, and returns the optional ID |
| TypedStreams.XreadTyped | include/redisdal/redis_operations.hpp:571-576 | serializes the stream keys in order, sends one XREAD or nothing, and deserializes the decoded batches |
| TypedStreams.XreadgroupTyped | include/redisdal/redis_operations.hpp:613-619 | serializes the stream keys in order, sends one XREADGROUP or nothing, and deserializes the decoded batches |
| TypedStreams.XreadTypedInverse | include/redisdal/redis_operations.hpp:628-636 | the server's reading of a typed XREAD names the very streams and IDs asked for |
| TypedStreams.DeserializeEntry | include/redisdal/redis_operations.hpp:638-646 | the loop deserializes the fields in order or stops at the first error |
| TypedStreams.DeserializeBatches | include/redisdal/redis_operations.hpp:657-667 | the loops deserialize keys and entries in order or stop at the first error |
| TypedStreams.BatchesRoundTrip | include/redisdal/redis_operations.hpp:648-667 | a typed read that is answered with serialized batches returns the typed batches, order and duplicates intact |
| TypedStreams.TypedBatchesExact | include/redisdal/redis_operations.hpp:571-576 | with any serializers a typed read returns batches exactly when the reply encodes string batches whose keys, fields and values all deserialize, position by position |
| TypedStreams.TypedBatchesFail | include/redisdal/redis_operations.hpp:657-667 | otherwise the first batch that does not deserialize decides the error |
| TypedStreams.XaddToEntry | include/redisdal/redis_operations.hpp:541-549 | typed XADD fields, through argument vector, server, reply, decoders and deserializers, come back as the original sequence |
| UrlQuery.ParseQueryParams | src/redis_config.cpp:8-38 | the loop over the regular-expression iterator computes the simple split form |
| UrlQuery.MatchAtIsGreedy | src/redis_config.cpp:10-17 | at each position the engine's match is the greedy one among all matches of the expression |
| UrlQuery.ScanIsSplit | src/redis_config.cpp:10-17 | leftmost scanning equals: split on '&', drop leading '=', split at the first '=', skip segments without one |
| UrlQuery.QueryMeaning | src/redis_config.cpp:19-35 | accepted exactly when no key is `db` and every `index` is a full decimal fitting 32 bits; the last occurrence of each setting wins |
| Urls.ParseRedisUrl | src/redis_config.cpp:40-128 | the parser computes the configuration read from the parts of the URL |
| UrlRoundTrip.SplitOfText | src/redis_config.cpp:62-125 | writing parts as a URL and taking it apart gives the same parts if and only if the delimiter conditions hold |
| UrlRoundTrip.TextOfSplit | src/redis_config.cpp:44-125 | every URL that can be taken apart is the text of exactly the parts found |
| UrlRoundTrip.InetUrlMeans | src/redis_config.cpp:62-127 | every well-formed TCP URL, with any combination of credentials, port and query: each field of the configuration, or which error comes first |
| UrlRoundTrip.LocalUrlMeans | src/redis_config.cpp:62-83 | every well-formed Unix-socket URL, with or without a query: path as host, port 0, the rest from the query |
| UrlRoundTrip.PlainUrl | src/redis_config.cpp:85-127 | a TCP URL without a query gives scheme, host, port and the credentials before the at sign, with index 0 |
| UrlRoundTrip.UrlRejects | src/redis_config.cpp:44-125 | a text that no well-formed parts spell is rejected as an invalid argument |
| UrlRoundTrip.InetRoundTrip | src/redis_config.cpp:85-127 | a TCP configuration with well-placed delimiters and any 16-bit port survives its URL |
| UrlRoundTrip.InetRoundTripIff | src/redis_config.cpp:63-127 | it survives if and only if the delimiters are well placed, for all credentials, those with a question mark included |
| UrlRoundTrip.QuestionMarkBreaks | src/redis_config.cpp:63-99 | no TCP configuration with a question mark in its user name or password survives, whatever the query then supplies |
| UrlRoundTrip.LocalRoundTripIff | src/redis_config.cpp:77-83 | a Unix-socket configuration survives if and only if the path is absolute without '?', the credentials have no '&', and the port is 0 |
| UrlRoundTrip.InetCredentials | src/redis_config.cpp:63-99 | user name and password before the '@' win over those of the query; what is missing there comes from the query |
| UrlRoundTrip.DefaultPortApplies | src/redis_config.cpp:105-125 | without a port the default 6379 is used, also when other text follows a bracketed host |
| UrlRoundTrip.PortText | src/redis_config.cpp:111-124 | a port text is accepted exactly if `std::stoul` accepts it, and is its number modulo 2^16, leading space, sign and ignored tail included; a 64-bit overflow is reported |
| UrlRoundTrip.PortIsTruncated | src/redis_config.cpp:119-121 | a 64-bit decimal port is taken modulo 2^16, so it survives exactly up to 65535 |

## Left out

- CommandGrammar.XaddInverse: the server's checks of ID, threshold and LIMIT values beyond their position and being decimals are not modelled.
- ScriptProtocol.EvalCallAtMostOnce: a server that accepts a digest in another letter case is not modelled; digests are compared as text.
- Scripts.RedisTemplate.EvalSha1: serializers that throw while serializing are not modelled; the typed loops call them before any request.
- Replies.Hash: which of two failing elements of one pair is reported is unspecified in C++; here both give the same error.
- TypedHashes.Hscan: which of a failing key and a failing value of one pair is reported is unspecified in C++; here, as in hgetall and stream entries, it is the key.
- hiredis calls, sockets, descriptors, reply lifetime and the formatted `cmd_exec`: foreign code behind the executor.
- Floating-point text, scores and sorted-set replies: no rounding is modelled.
- Commands with a fixed argument vector and their one-line client wrappers: reading the line settles them.
- `keys` and `scan` of the facade, lists and sets: the same loops over one container, without updates to a caller's entries.
- Asynchronous executors and pipelines: declared in the headers but not implemented.
- Expiry, sorted-set order, consumer groups and other server state beyond the script cache.
- Message text of exceptions other than `redis_error`, and the command name that decoders put into it.
