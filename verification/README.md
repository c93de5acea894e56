# Verification of dbgate's core

dbgate is an access-control proxy for MySQL. This project models its decision-making core in Dafny and proves what it
promises, for every input, every run and every interleaving. `dafny verify dfyconfig.toml` checks all of it.

| files | what they model |
|---|---|
| `Text`, `Bytes`, `Slices`, `Decimals` | characters, little-endian words and bit masks, parts of sequences, decimal numerals |
| `MysqlPacket`, `TextRow`, `Relay`, `CommandLoop`, `CommandBytes` | packet framing, text rows, the response relay, the command loop of a session, and the loop told by bytes |
| `Capabilities`, `HandshakeResponse`, `Handshake`, `HandshakeTranscript` | capability stripping, the response parser, the handshake relay, and which transcripts succeed |
| `Cidr`, `PolicyText`, `Policy`, `PolicyLaws` | address blocks, time windows, the two copies of the decision cascade, and the laws of its decisions |
| `SqlScanner`, `SqlDialect`, `SqlParser` | multi-statement scanner, the lexical rules of MySQL it lacks, comment removal and classification |
| `Enforcement`, `Session` | the way from a client packet to the server, and a whole session on the bytes of its connections |
| `JsonString`, `JsonScan`, `JsonText`, `JsonLookup` | the control socket's JSON scanner, against JSON trees and their printer |
| `SnapshotName`, `VersionStore`, `PolicyAdmin` | the version store, rollback, reload and start |
| `Stats` | the lock-free counters as interleaved atomic steps |

Code that updates state is written as methods with loops, or as a class, and proved against functions; the theorems are
about those functions. Peers are packet sequences that are read by a cursor, and a set of write attempts that fail. What
comes from outside is a parameter: regular expressions, `inet_pton`, the local time of a zone, the byte order, the policy
file parser, the hash, the clock that stamps snapshots, the outcome of file operations, and the tables found in a query.

Where a property is false of the code, a lemma gives the input and another the exact condition:

- A row whose lengths wrap around 2^64 passes the row test (`TextRow.WrappingRowAccepted`, `TextRow.RowTestExact`).
- The handshake is not bounded by a constant (`Handshake.FastAuthUncounted`); `Handshake.HandshakeBounded` tells the
  packets a run reads, exactly for one that succeeds and up to two otherwise.
- Escaping and unescaping is no round trip for all control characters (`JsonString.EscapeRoundTrip`).
- A failed save lets version and config part (`PolicyAdmin.FailedSaveDiverges`, `PolicyAdmin.ReloadSyncedExactly`).
- A snapshot of the counters can be torn (`Stats.TornSnapshot`, `Stats.SnapshotTornExactly`, `Stats.SnapshotExcess`).
- Version numbers can be issued twice (`VersionStore.IssuedTwice`, `VersionStore.RestartContinuesExactly`).
- Comment removal cuts strings short (`SqlParser.CommentInString`, `SqlParser.StringsKeptExactly`).
- The scanner does not read every text as MySQL does (`SqlDialect.DashesMissed`, `SqlDialect.BacktickMissed`); where it
  does is `SqlDialect.ScannerRight`, a condition that suffices: without a semicolon behind it, say, an unblanked pair of
  dashes does no harm.
- A failed copy can make two files of one version (`VersionStore.LeftoverShadows`,
  `VersionStore.LeftoverClashesExactly`).

Where the code and its comments differ, the model follows the code:

- `src/parser/sql_parser.cpp:329-331` says that a comment after the last semicolon is allowed; by lines 370-375 it is not.
- `src/parser/sql_parser.cpp:43-55` says that block comments are removed; an unclosed one leaves its last character.

## Model

| member | source | states |
|---|---|---|
| MysqlPacket.ParseSerialized | src/protocol/mysql_packet.cpp:51-85 | Parsing the bytes of a framable packet, whatever follows them, gives that packet back. |
| MysqlPacket.SerializedParse | src/protocol/mysql_packet.cpp:51-85 | Converse: every packet the parser accepts is framable and serializes to the bytes it was read from. |
| MysqlPacket.Serialize | src/protocol/mysql_packet.cpp:103-130 | The buffer filled byte by byte is the three-byte length, the sequence id and the payload. |
| MysqlPacket.MakeError | src/protocol/mysql_packet.cpp:133-180 | The ERR packet has the given sequence id and a payload of 0xFF, the code low byte first, #HY000 and the whole message, cut only where it would not fit a packet. |
| MysqlPacket.ReadOnePacket | src/proxy/session.cpp:93-131 | Reading header and payload from the wire yields the next packet of the stream and stops exactly behind it; a truncated one is an error. |
| MysqlPacket.PacketsOfFrame | src/protocol/mysql_packet.cpp:103-130 | Splitting the concatenation of any packets at their headers gives the same packets back. |
| MysqlPacket.FrameOfPackets | src/protocol/mysql_packet.cpp:51-85 | The packets found in a byte stream, framed again, are the bytes they were found in. |
| MysqlPacket.FrameInjective | src/protocol/mysql_packet.cpp:103-130 | Two packet sequences with the same bytes are the same sequence. |
| TextRow.ParseLenencInteger | src/proxy/session.cpp:151-199 | The length-encoded reader returns the value and offset of the declarative reader on every payload and offset, in bounds, failing in the same cases. |
| TextRow.ConsumeTextCell | src/proxy/session.cpp:201-220 | One cell is skipped as specified, including the 64-bit wrap-around of offset plus length. |
| TextRow.IsTextRowPacket | src/proxy/session.cpp:222-230 | The loop accepts exactly the payloads that the column-wise skip uses up. |
| TextRow.IsResultsetFinalOk | src/proxy/session.cpp:232-248 | The final-OK test is a 0x00 byte, two length-encoded integers and four more bytes. |
| TextRow.ReadsLength | src/proxy/session.cpp:151-199 | Every encoding of a length (1, 3, 4 or 9 bytes, shortest or not) is read back, wherever it stands. |
| TextRow.SkipsRow | src/proxy/session.cpp:201-230 | Rows encoded from any cells, NULLs and 0xFE-prefixed lengths included, are skipped exactly. |
| TextRow.RowTestExact | src/proxy/session.cpp:201-230 | If no length wraps, a payload passes the row test if and only if it is the encoding of that many cells. |
| TextRow.WrappingRowAccepted | src/proxy/session.cpp:215-215 | A two-column payload that is the encoding of no two cells and passes the test through wrap-around: why RowTestExact needs its hypothesis. |
| Relay.RelayServerResponse | src/proxy/session.cpp:299-468 | The loop leaves the read position, success flag and relayed packets of the step-by-step relay, for every stream and every write failure. |
| Relay.Inspect | src/proxy/session.cpp:395-464 | Each packet is classified (terminator, row, definition, error) and the phase moved as the specification says. |
| Relay.ColumnDefShape | src/proxy/session.cpp:430-448 | A column definition is never an EOF or ERR packet, whatever its bytes. |
| Relay.RowShape | src/proxy/session.cpp:222-253 | A text row of the right width passes the row test and is never an EOF or ERR packet, also when it starts with 0x00, 0xFB or 0xFE. |
| Relay.RelayReadsExactly | src/proxy/session.cpp:299-468 | For every single-result reply followed by arbitrary packets, the relay reads exactly that reply and copies it unchanged and in order, leaving the rest unread. |
| Relay.RelayOnTheWire | src/proxy/session.cpp:299-468 | The same over bytes: from the framed reply followed by any bytes, exactly the framed reply reaches the client. |
| Relay.FinalOkEnds | src/proxy/session.cpp:449-459 | The reply to a query may also end in an OK packet that is no row; it is read exactly too. |
| Relay.SinglePackets | src/proxy/session.cpp:320-384 | Empty, OK, ERR, EOF and first bytes above 0xFC are replies of one packet; a request for a local file is shown to the client and fails the relay. |
| Relay.BrokenOff | src/proxy/session.cpp:395-399 | A server that breaks off in the middle of any reply fails the relay, and the client has what came. |
| Relay.TooManyDefinitions | src/proxy/session.cpp:431-447 | One column definition too many is let pass, a second one ends the relay. |
| Relay.ReversedEnds | src/proxy/session.cpp:419-427 | A packet numbered below its predecessor ends a result set, the wrap from 255 excepted. |
| CommandLoop.Refuse | src/proxy/session.cpp:783-900 | A refused command gets one ERR packet with the next sequence id; a lost client ends the session only for prepared statements. |
| CommandLoop.Forward | src/proxy/session.cpp:826-842 | A forwarded command is written to the server and its reply relayed; the session stops if either fails. |
| CommandLoop.Serve | src/proxy/session.cpp:703-922 | The dispatch on one client packet: what is handed over, answered and read, and when the loop stops. |
| CommandLoop.RunCommands | src/proxy/session.cpp:703-922 | For every session: what the server and the client were sent, why and at which command it stopped, and total = refused + fully relayed queries. |
| CommandLoop.ServerSeesExactlyForwarded | src/proxy/session.cpp:703-922 | The server sees the forwarded client packets, all of them, unchanged and in order, and nothing else. |
| CommandLoop.CommandsAccounted | src/proxy/session.cpp:703-922 | Every completed command was handed over or refused, never both; monitored queries are among the relayed ones. |
| CommandLoop.SessionStaysInStep | src/proxy/session.cpp:703-922 | When the server answers each forwarded command with one reply, every command gets exactly its own reply or exactly one ERR, over the whole session. |
| CommandBytes.ByteOfCommand | src/protocol/command.cpp:16-52 | Which first byte is which command, for every payload. |
| CommandBytes.SessionByBytes | src/proxy/session.cpp:703-922 | Every session told by first bytes: the server got, in order, the commands 0x02, 0x04-0x07, 0x09-0x0C, 0x0E, 0x19 and the queries not blocked, and a final 0x01; 0x16, 0x17 and 0x1A never reach it; an empty or unknown packet stops the loop. |
| CommandBytes.RefusalByBytes | src/proxy/session.cpp:783-900 | A refused command is answered by one ERR packet, byte by byte: sequence id plus one, code 1045 or 1235, #HY000 and the text. |
| CommandBytes.RepliesInOrder | src/proxy/session.cpp:703-922 | What the client gets is the replies one behind the other, in the order of the commands. |
| CommandBytes.RefusedByBytes | src/proxy/session.cpp:805-805 | The blocked count is the number of query packets with a block verdict. |
| CommandBytes.RelayedByBytes | src/proxy/session.cpp:863-863 | The other queries counted are the query packets relayed in full. |
| CommandBytes.MonitoredByBytes | src/proxy/session.cpp:812-824 | The monitored count is the number of those let through by a monitor-mode rule. |
| Session.RunSession | src/proxy/session.cpp:662-922 | A session on the bytes of its two connections: the handshake bytes, and behind them the framed packets of the command loop run on what the handshake left unread; a failed handshake ends it. |
| Session.ServerBytes | src/proxy/session.cpp:662-922 | Every byte the server ever gets: the client handshake packets, the first one stripped, then in order and unchanged client packets that may reach it. |
| Capabilities.StripUnsupportedCapabilities | src/protocol/handshake.cpp:125-168 | The edited greeting packet is the packet with the stripped payload, byte for byte. |
| Capabilities.StripUnsupportedClientCapabilities | src/protocol/handshake.cpp:178-205 | The edited response packet is the packet with the stripped payload. |
| Capabilities.GreetingStripped | src/protocol/handshake.cpp:125-168 | For every greeting with the full layout the result is the same greeting with capabilities AND NOT 0x09000800. |
| Capabilities.GreetingOf | src/protocol/handshake.cpp:125-168 | Every payload long enough for the upper flags is such a greeting. |
| Capabilities.GreetingUnchanged | src/protocol/handshake.cpp:125-168 | Every shorter or unterminated greeting is left unchanged. |
| Capabilities.ResponseStripped | src/protocol/handshake.cpp:178-205 | The client word loses the same mask and the rest of the response is untouched; shorter responses are unchanged. |
| Capabilities.StrippingIdempotent | src/protocol/handshake.cpp:125-205 | Stripping twice is stripping once, on both sides. |
| Capabilities.ResponseBits | src/protocol/handshake.cpp:178-205 | A stripped response claims exactly the capabilities it claimed before, less bits 11, 24 and 27. |
| Capabilities.StrippedHasBit | src/protocol/handshake.cpp:125-205 | The mask holds exactly bits 11, 24 and 27. |
| HandshakeResponse.ExtractHandshakeResponseFields | src/protocol/handshake.cpp:486-661 | The cursor-based parser returns the fields of the declarative one on every input, with every index in bounds. |
| HandshakeResponse.SkipAuth | src/protocol/handshake.cpp:537-629 | The authentication data is skipped in the encoding the flags select, or the response is refused. |
| HandshakeResponse.ResponseRoundTrip | src/protocol/handshake.cpp:486-661 | From every encoded response (three auth encodings, 1-, 3- and 4-byte lengths, any trailing bytes) exactly user and database are extracted. |
| HandshakeResponse.ExtractedFromResponse | src/protocol/handshake.cpp:486-661 | Converse: every payload from which fields are extracted is the encoding of a response with those fields. |
| HandshakeResponse.ExtractUnaffected | src/protocol/handshake.cpp:178-205 | On every payload the same fields, or none, are extracted from the stripped response as from the original. |
| Handshake.ServerTurn | src/protocol/handshake.cpp:703-821 | One turn that waits for the server: read, judge, relay; done is set only on a relayed OK. |
| Handshake.ClientTurn | src/protocol/handshake.cpp:703-821 | One turn that waits for the client: the first packet must parse, and is relayed stripped. |
| Handshake.RelayHandshake | src/protocol/handshake.cpp:673-826 | For every handshake the bytes written to each side are the packets read from the other, greeting and response stripped; on success the context holds the fields of the one response, otherwise it is untouched. |
| Handshake.RelayHandshakeOnTheWire | src/protocol/handshake.cpp:673-826 | The same over any bytes of the two connections: apart from the stripped first packet, each side gets byte for byte what the other sent. |
| Handshake.ServerSeesSessionUser | src/protocol/handshake.cpp:739-790 | In every handshake that succeeds, the response shown to the server claims none of bits 11, 24 and 27, and its user and database are those of the session. |
| Handshake.HandshakeBounded | src/protocol/handshake.cpp:270-469 | Every run relays at most one AuthSwitchRequest and counts at most 10 round trips; the server packets read are the counted trips, the uncounted fast-auth packets and at most two more, exactly two on success, the client packets the trips and at most, on success exactly, one more. Success is reported only on a relayed server OK. |
| Handshake.HandshakeLength | src/protocol/handshake.cpp:690-821 | So the client is asked for at most 10 packets after its response, and at most 23 packets plus the fast-auth ones are read. |
| Handshake.ExchangeLimit | src/protocol/handshake.cpp:814-817 | A password exchange of n questions succeeds if and only if n <= 10. |
| Handshake.FastAuthUncounted | src/protocol/handshake.cpp:422-426 | Runs with any number of fast-auth packets succeed, so no constant bounds the number of packets read. |
| HandshakeTranscript.SucceedsExactly | src/protocol/handshake.cpp:270-469 | Over every transcript, by bytes and positions: the handshake succeeds if and only if greeting and response are relayed and every server packet up to an OK goes on with the exchange and gets the answer it asks for, none of them after ten answers. |
| HandshakeTranscript.ConcludedSucceeds | src/protocol/handshake.cpp:673-826 | Such a handshake reads and relays exactly its packets. |
| HandshakeTranscript.CommonHandshakes | src/protocol/handshake.cpp:303-328 | An immediate OK, a switch with its answer and an OK, and a fast-auth packet and an OK all succeed. |
| HandshakeTranscript.RefusalRelayed | src/protocol/handshake.cpp:789-800 | A server ERR or EOF, wherever it comes, is relayed to the client before the relay fails. |
| HandshakeTranscript.MisplacedNotRelayed | src/protocol/handshake.cpp:801-811 | A packet out of place is not: an unknown one before more data, a second switch, and any that goes on after ten answers. |
| Cidr.BlockMeaning | src/policy/policy_engine.cpp:161-171 | The network-byte-order mask test, on hosts of either byte order, holds if and only if the addresses agree after division by 2^(32-p). |
| Cidr.ShorterPrefixMatches | src/policy/policy_engine.cpp:161-171 | A match on a longer prefix is a match on every shorter one. |
| PolicyText.StoiExact | src/policy/policy_engine.cpp:136-150 | std::stoi returns exactly the number a text starts with (blanks, sign, digits) and where it ends, if it fits an int. |
| PolicyText.CidrMeaning | src/policy/policy_engine.cpp:123-172 | For every text: a match if and only if it is an address, the first slash and a number up to 32 that is all the rest, and both addresses are IPv4 and agree in the leading bits. |
| PolicyText.RangeRead | src/policy/policy_engine.cpp:185-228 | For every text, the window read is exactly the one written (times around the first dash, hour and minute around the first colon, trailing text ignored), if one is. |
| PolicyText.WindowIsArc | src/policy/policy_engine.cpp:283-295 | The two-branch time test is one arc of the day: minutes since the start fewer than the length of the window, both modulo 1440. |
| PolicyText.IEqualsMeaning | src/policy/policy_engine.cpp:100-107 | iequals ignores the case of the letters a to z and nothing else. |
| Policy.PolicyEngine.Evaluate | src/policy/policy_engine.cpp:327-458 | The data-path cascade returns the declarative decision, for every config, query, session and environment. |
| Policy.PolicyEngine.EvaluateRule | src/policy/policy_engine.cpp:460-561 | Its checks of a matched rule from blocked operations to allowed operations. |
| Policy.PolicyEngine.EvaluateProcedures | src/policy/policy_engine.cpp:563-703 | Its procedure and schema checks and the final verdict. |
| Policy.PolicyEngine.Explain | src/policy/policy_engine.cpp:726-880 | The second copy of the cascade returns the same decision, and names the matched rule except for verdicts of the SQL rules. |
| Policy.PolicyEngine.ExplainRule | src/policy/policy_engine.cpp:882-1002 | Its checks of a matched rule up to allowed operations. |
| Policy.PolicyEngine.ExplainProcedures | src/policy/policy_engine.cpp:1004-1147 | Its procedure and schema checks and the final verdict. |
| Policy.PolicyEngine.Reload | src/policy/policy_engine.cpp:1228-1244 | The config is replaced and the version falls back to 0. |
| Policy.PolicyEngine.ReloadVersion | src/policy/policy_engine.cpp:1258-1266 | The config is replaced and the version set. |
| PolicyLaws.AllowedExactly | src/policy/policy_engine.cpp:327-703 | A query is allowed if and only if a config is loaded and no check, each stated by quantifiers over the config, fails; modes play no part. |
| PolicyLaws.ActionExactly | src/policy/policy_engine.cpp:327-703 | Allow, log and block exactly, from the checks and the modes: the mode of the matched rule decides over its own refusals, that of the SQL rules over theirs. |
| PolicyLaws.RuleIdExactly | src/policy/policy_engine.cpp:367-703 | Which rule id a verdict carries, by the first thing that is wrong with the query. |
| PolicyLaws.SqlReason | src/policy/policy_engine.cpp:370-425 | A verdict of the SQL rules names the first blocked statement, or the first pattern that matches. |
| PolicyLaws.RuleReason | src/policy/policy_engine.cpp:460-535 | A refusal by the matched rule names the first blocked operation, or the first table outside its list. |
| PolicyLaws.LowestFailing | src/policy/policy_engine.cpp:460-689 | The refusal reported is that of the lowest-numbered failing check, both directions. |
| PolicyLaws.MonitorIsDowngrade | src/policy/policy_engine.cpp:327-703 | With all modes set to enforce: allow stays the same allow, log becomes block with the same rule and the reason without its prefix, block stays block; a query the SQL rules catch is blocked by them. |
| PolicyLaws.ModesNeverAllow | src/policy/policy_engine.cpp:330-337 | Two configs that differ only in modes allow the same queries. |
| PolicyLaws.MonitorFlag | src/policy/policy_engine.cpp:330-337 | monitor_mode holds if and only if the action is log. |
| PolicyLaws.FailsClosed | src/policy/policy_engine.cpp:345-458 | A missing config, an unknown command and an unmatched session are blocked in every mode. |
| PolicyLaws.FirstMatchDecides | src/policy/policy_engine.cpp:431-448 | Only the lowest-index rule matching user and block counts: the decision is that of the config reduced to it. |
| PolicyLaws.AppendedRulesIgnored | src/policy/policy_engine.cpp:431-448 | Appending access rules changes nothing for a session that some rule already matched. |
| PolicyLaws.StricterNeverAllows | src/policy/policy_engine.cpp:370-476 | Adding blocked statements, patterns or operations anywhere never turns a refusal or a log entry into an allow. |
| PolicyLaws.StricterKeepsBlock | src/policy/policy_engine.cpp:370-476 | Nor, under the same modes, a block into a log entry. |
| PolicyLaws.HoursMeaning | src/policy/policy_engine.cpp:478-509 | A rule with a time restriction passes the hours check if and only if its text writes a window and the local time lies on that arc of the day. |
| PolicyLaws.RuleMatchMeaning | src/policy/policy_engine.cpp:432-444 | A rule is for a session if and only if it names its user or everyone, and no block or a written one that covers the address. |
| PolicyLaws.SchemaMeaning | src/policy/policy_engine.cpp:663-680 | The tables of information_schema, mysql, performance_schema and sys, by the name before the first dot, in any case. |
| PolicyLaws.ListedMeaning | src/policy/policy_engine.cpp:100-107 | A name is listed if and only if some entry is the same text up to the case of letters. |
| Enforcement.Inspect | src/proxy/session.cpp:759-777 | Parse, then evaluate or evaluate_error: the verdict on a query text. |
| Enforcement.ExplainQuery | src/stats/uds_server.cpp:1194-1221 | On the control socket every query text is explained with the verdict that a session of that user and address would get. |
| Enforcement.OnlyAdmissiblePass | src/proxy/session.cpp:759-783 | Whatever the modes, a verdict other than block implies one statement, a known command, a loaded config and a matching access rule. |
| Enforcement.SeveralStatementsBlocked | src/proxy/session.cpp:763-770 | A text of several statements, by the lexical rules of the scanner, is blocked under every policy. |
| Enforcement.ClearStatementsBlocked | src/proxy/session.cpp:763-770 | So is a text of several statements by the rules of MySQL, if two dashes stand only before blanks and backticks hold no quote, comment mark or semicolon. |
| Enforcement.PatternsSeeClientText | src/policy/policy_engine.cpp:393-425 | A block pattern that matches the text the client sent, byte for byte behind the command byte, is never allowed, and is blocked under enforce. |
| Enforcement.UnrecognizedBlocked | src/policy/policy_engine.cpp:355-364 | A text whose first word is no keyword is blocked under every policy. |
| Enforcement.NothingElseReachesServer | src/proxy/session.cpp:703-922 | Over every session, with the policy changing between queries: each packet sent to the server is, in client order, COM_QUIT, a passed command or an admissible query that was not blocked. |
| Enforcement.EnforcedForwardsExactlyPermitted | src/proxy/session.cpp:759-872 | Where all modes are enforce, a query is forwarded if and only if it parses and the policy permits it. |
| Enforcement.RuleForAuthenticatedUser | src/policy/policy_engine.cpp:431-448 | After every successful handshake, a query that is not blocked falls under a rule for everyone or for the user in the very response the server was shown. |
| JsonString.FindJsonStringEnd | src/stats/uds_server.cpp:207-228 | The scanner returns the first unescaped quote, or nothing. |
| JsonString.JsonEscape | src/stats/uds_server.cpp:61-103 | The appended text is the escape of the string, character by character. |
| JsonString.UnescapeJsonString | src/stats/uds_server.cpp:256-287 | The appended text is the decoded content. |
| JsonString.EscapedLiteralEnds | src/stats/uds_server.cpp:61-103 | In a quote, json_escape(s), a quote and any suffix, the scanner stops exactly at the closing quote. |
| JsonString.EscapeRoundTrip | src/stats/uds_server.cpp:256-287 | Unescaping json_escape(s) gives s back if and only if the only control characters in s are newline, carriage return and tab. |
| JsonString.ControlEscaped | src/stats/uds_server.cpp:90-98 | A control character without a short escape is written as its code in four hexadecimal digits. |
| JsonScan.ParseTopLevelStringField | src/stats/uds_server.cpp:295-385 | The scan returns the string at the first top-level key, in terms of the declarative search. |
| JsonScan.ParseTopLevelUint64Field | src/stats/uds_server.cpp:501-583 | The scan returns the number at the first top-level key; the overflow guard admits exactly the values below 2^64. |
| JsonScan.ExtractTopLevelObjectField | src/stats/uds_server.cpp:590-654 | The scan returns the text of the object at the first top-level key. |
| JsonScan.FindJsonObjectEnd | src/stats/uds_server.cpp:446-493 | The closing brace that matches, outside string literals. |
| JsonScan.ParsePayloadUint64Field | src/stats/uds_server.cpp:676-683 | The two lookups composed through "payload". |
| JsonLookup.LookupsFindFirstMember | src/stats/uds_server.cpp:295-654 | For every JSON object, printed with any whitespace, each of the three lookups answers for exactly the first top-level member with that raw key. |
| JsonLookup.PayloadLookupExact | src/stats/uds_server.cpp:676-683 | target_version yields n if and only if the payload is an object whose first such member is a digit literal of a number below 2^64. |
| SnapshotName.FileNameRoundTrip | src/policy/policy_version_store.cpp:90-106 | A file name written by a save is parsed back to its version and timestamp if and only if the timestamp is not empty and has no line break; otherwise the file is not recognized. |
| SnapshotName.NameInDirectory | src/policy/policy_version_store.cpp:214-214 | The shape of a file name. |
| VersionStore.PolicyVersionStore.constructor | src/policy/policy_version_store.cpp:117-187 | A start lists exactly the recognized files, sorted by version, and continues behind the newest. |
| VersionStore.ScanDirectory | src/policy/policy_version_store.cpp:135-175 | Whatever the order of the directory, the result lists each recognized file once, oldest version first. |
| VersionStore.PolicyVersionStore.SaveSnapshot | src/policy/policy_version_store.cpp:198-262 | The store after a save is the specified one; a failed save changes neither list nor next number, and the directory only by what the copy left. |
| VersionStore.PolicyVersionStore.Prune | src/policy/policy_version_store.cpp:346-365 | The oldest entries beyond the limit go, with those of their files that can be deleted. |
| VersionStore.PolicyVersionStore.LoadSnapshot | src/policy/policy_version_store.cpp:269-293 | The bytes of the first entry with that version, if its file is there. |
| VersionStore.SaveKeeps | src/policy/policy_version_store.cpp:198-262 | A save keeps the invariant, and leaves at most max_versions entries if it succeeds. |
| VersionStore.SaveKeepsNewest | src/policy/policy_version_store.cpp:241-247 | After a successful save the list is the last min(n + 1, limit) entries of the old list and the new entry, and the files gone are those of the dropped entries that can be deleted. |
| VersionStore.StaysLive | src/policy/policy_version_store.cpp:346-365 | Over every run, a version stays live until as many later ones have been issued as the limit allows. |
| VersionStore.RestartKeeps | src/policy/policy_version_store.cpp:117-187 | A restart continues with the same next number and keeps the invariant. |
| VersionStore.OpenEstablishes | src/policy/policy_version_store.cpp:117-187 | The first start on a directory without clashing versions establishes it. |
| VersionStore.RunKeeps | src/policy/policy_version_store.cpp:117-365 | Over every run of saves, failed saves, prunes and restarts: versions strictly increasing, listed files present, contents as saved. |
| VersionStore.NeverReissued | src/policy/policy_version_store.cpp:198-262 | No version number is ever issued twice, across restarts too. |
| VersionStore.BytesNeverChange | src/policy/policy_version_store.cpp:198-365 | A version live at two moments of a run reads the same at both. |
| VersionStore.StoredFaithful | src/policy/policy_version_store.cpp:269-293 | A version loads if and only if it is listed, and then gives the bytes saved under it. |
| VersionStore.RestartContinuesExactly | src/policy/policy_version_store.cpp:117-262 | After a save, a restart continues behind the new number if and only if the timestamp can be read back and the save did not prune its own file (limit 0); otherwise it falls back. |
| VersionStore.IssuedTwice | src/policy/policy_version_store.cpp:117-262 | A run that saves, restarts and saves, and issues the number 1 twice, for every such timestamp or limit. |
| VersionStore.PartialCopyListed | src/policy/policy_version_store.cpp:216-228 | A failed copy that leaves a file makes a version of it at the next start. |
| VersionStore.LeftoverClashesExactly | src/policy/policy_version_store.cpp:214-228 | After a failed copy that left a file, a save under the same number makes two files clash if and only if the timestamps differ and the new file can be read back and outlives its save. |
| VersionStore.LeftoverShadows | src/policy/policy_version_store.cpp:117-293 | Then a version can change its bytes at a restart: the leftover may be listed first. |
| VersionStore.StartIncreasesExactly | src/policy/policy_version_store.cpp:117-187 | The list of a start is strictly increasing if and only if no two recognized files share a version. |
| PolicyAdmin.UdsServer.HandlePolicyRollback | src/stats/uds_server.cpp:1302-1349 | The handler is one step of the run below; a failed rollback leaves the engine unchanged. |
| PolicyAdmin.UdsServer.HandlePolicyReload | src/stats/uds_server.cpp:1370-1427 | The handler is one step of the run below; a failed load leaves engine and store unchanged. |
| PolicyAdmin.StartProxy | src/proxy/proxy_server.cpp:213-256 | The start of the proxy is one step of the run below. |
| PolicyAdmin.StepKeeps | src/stats/uds_server.cpp:1302-1427 | Every operation keeps the store invariant and never rewrites what a version number stands for. |
| PolicyAdmin.RollbackExact | src/stats/uds_server.cpp:1302-1349 | A rollback succeeds if and only if the payload names a live version whose bytes parse, and then installs exactly that; otherwise nothing changes. |
| PolicyAdmin.RollbackRestores | src/stats/uds_server.cpp:1302-1349 | In every run, a rollback request (any JSON layout) to the version an earlier operation saved installs the config parsed from exactly the bytes saved then, if that version is live. |
| PolicyAdmin.EngineStaysSynced | src/stats/uds_server.cpp:1370-1427 | While saves succeed on a stable file, over every run of reloads, rollbacks and starts the engine runs the config saved under its version. |
| PolicyAdmin.SavedForGood | src/stats/uds_server.cpp:1370-1427 | The number an operation saved under stands for those bytes for the rest of the run. |
| PolicyAdmin.ReloadSyncedExactly | src/stats/uds_server.cpp:1393-1403 | A reload leaves config and version in agreement if and only if the saved bytes, or after a failed save those of the newest version, parse to the loaded config. |
| PolicyAdmin.FailedSaveVersion | src/stats/uds_server.cpp:1395-1400 | After a failed save the version is the largest live one, or 0. |
| PolicyAdmin.FailedSaveDiverges | src/stats/uds_server.cpp:1395-1399 | A run in which a failed save leaves the engine with one policy under the number of another. |
| SqlScanner.HasSemicolonOutsideStringOrComment | src/parser/sql_parser.cpp:333-422 | The index-skipping loop computes the character-level scan. |
| SqlScanner.ScanAgrees | src/parser/sql_parser.cpp:333-422 | On every tokenized text the scan says whether a top-level semicolon has something other than whitespace behind the first one. |
| SqlScanner.ScannerCorrect | src/parser/sql_parser.cpp:333-422 | Every string has a tokenization, so this holds of every input. |
| SqlScanner.TrailingCommentCounts | src/parser/sql_parser.cpp:370-375 | A comment after the semicolon counts as a second statement. |
| SqlDialect.ScannerRight | src/parser/sql_parser.cpp:333-422 | On every text of MySQL lexemes (two dashes open a comment only before a blank, backticks quote identifiers) that is clear of what the scanner reads differently, it is right. |
| SqlDialect.DashesHideRest | src/parser/sql_parser.cpp:360-362 | Behind two dashes, blank or not, the scanner reports nothing up to the line break, whatever stands there. |
| SqlDialect.QuoteHidesRest | src/parser/sql_parser.cpp:353-356 | Behind a quote, one between backticks included, it reports nothing up to the next one. |
| SqlDialect.DashesMissed | src/parser/sql_parser.cpp:360-362 | A text of two statements by the rules of MySQL that it takes for one, because of two dashes. |
| SqlDialect.BacktickMissed | src/parser/sql_parser.cpp:353-356 | The same because of a quote between backticks. |
| SqlParser.RemoveComments | src/parser/sql_parser.cpp:56-100 | The nested loops compute the index-based strip. |
| SqlParser.StripExact | src/parser/sql_parser.cpp:56-100 | Every text falls into comments and other characters; a block comment leaves a blank, a line comment its line break, an unclosed block comment its last character. |
| SqlParser.StringsKeptExactly | src/parser/sql_parser.cpp:56-100 | On every SQL text, comment removal leaves what removal with strings kept whole leaves, if and only if no comment opens inside a string. |
| SqlParser.CommentInString | src/parser/sql_parser.cpp:77-83 | A family of queries, one statement for the scanner, whose text behind a string with two dashes never shows in the tables looked for. |
| SqlParser.Parse | src/parser/sql_parser.cpp:430-529 | A parse error if and only if the text is blank, has several statements or holds only comments; otherwise command, tables and raw text. |
| SqlParser.ClassifiesFirstWord | src/parser/sql_parser.cpp:127-160 | The command is that of the first word, in any case, whatever blanks and comments precede it and whatever follows; blanks other than separators at its end count unless only blanks follow. |
| SqlParser.SplitsAtFirstWord | src/parser/sql_parser.cpp:103-137 | Every text that is not all blanks and comments falls into gaps, a first word and a rest, or ends in the last character of an unclosed comment. |
| SqlParser.LoneCharacterUnknown | src/parser/sql_parser.cpp:62-75 | In that last case the command is unknown. |
| SqlParser.KeywordRoundTrip | src/parser/sql_parser.cpp:140-160 | Keywords and commands correspond one to one. |
| SqlParser.KeywordInAnyCase | src/parser/sql_parser.cpp:103-160 | A word stands for a known command if and only if it is its keyword in some case of its letters. |
| SqlParser.Keywords | src/parser/sql_parser.cpp:141-153 | The eleven keywords and their commands. |
| SqlParser.PlainText | src/parser/sql_parser.cpp:461-476 | A text without comments, small letters and outer blanks is parsed with itself as raw text and looked for tables as it stands. |
| Stats.EveryRunConsistent | src/stats/stats_collector.hpp:100-106 | For any threads and interleaving: blocked <= total in every state, and every counted query is in the window count or about to be. |
| Stats.ActiveNeverWraps | src/stats/stats_collector.hpp:85-96 | No step, not even of a stray close, takes the active sessions below zero. |
| Stats.EveryRunMatched | src/stats/stats_collector.hpp:78-96 | When each close follows its own open, active_sessions is exactly the number of sessions between the two, no decrement is lost through the zero exit, and active <= total. |
| Stats.QueriesCounted | src/stats/stats_collector.hpp:100-106 | Every query started is counted once, every blocked one is counted as blocked or about to be. |
| Stats.CountersCounted | src/stats/stats_collector.hpp:78-113 | Connections, active sessions and monitored blocks are the numbers of the steps that make, join, leave and report them. |
| Stats.Reported | src/stats/stats_collector.hpp:131-134 | A snapshot never shows more active sessions than connections. |
| Stats.LoadedAt | src/stats/stats_collector.hpp:123-128 | Each value of a snapshot is that of its counter at some moment, in loading order. |
| Stats.SnapshotShows | src/stats/stats_collector.hpp:123-147 | A snapshot shows connections, active sessions cut to them, queries, blocked and monitored, each at its own moment and in this order. |
| Stats.SnapshotTornExactly | src/stats/stats_collector.hpp:125-126 | A snapshot shows blocked <= total if and only if no more blocked queries were counted between its two loads than the counters were apart. |
| Stats.SnapshotExcess | src/stats/stats_collector.hpp:125-126 | Blocked queries shown exceed queries shown by at most the blocked queries that started between the two loads; if none did, there is no excess. |
| Stats.TornSnapshot | src/stats/stats_collector.hpp:125-126 | A run whose snapshot shows one blocked query and no query. |

## Left out

- Sockets, coroutines, TLS, timers, signals, user-id checks, the health endpoint and logging: plumbing around the modelled core.
- Regular expressions, YAML loading, SHA-256, time-zone lookup: foreign libraries, taken as parameters.
- COM_STMT_PREPARE reply sections (`src/proxy/session.cpp:255-297`): the command loop refuses those commands first.
- Replies with several results, more than 250 columns or 0xFFFFFF-byte continuation packets, and replies to COM_FIELD_LIST, COM_STATISTICS and COM_STMT_CLOSE: the relay runs on them as modelled, but the reply-exactness theorem excludes them, since the code does not recognise their ends.
- Table extraction, the WHERE test, InjectionDetector and ProcedureDetector: regular expressions whose results are a parameter or unused in the session.
- evaluation_path of an explanation: a trace text without influence on the verdict.
- parse_string_field (`src/stats/uds_server.cpp:406-438`): a plain substring search, which the top-level lookups do not use.
- list_versions, serialize_snapshot, make_ok_response and the like: easy members.
- The text of control-socket replies: a reply is a value with its numbers, not JSON.
- Concurrent reloads: config and version are two stores; reloads are modelled one after the other.
- Memory order: the steps of the counters interleave in one order, weaker orders between different counters are not modelled. The counters are a value changed step by step rather than a class, since the steps of one call interleave with those of others. The rates of a snapshot are not modelled.
- VersionStore.ScanDirectory: collecting and sorting are one insertion loop, as the result is the same list; line breaks in file names are refused like the regular expression's dot does.
- VersionStore.RunKeeps: runs that issue fewer than 2^64 versions, with a limit of at least one version and saves whose timestamp can be read back and whose failed copies leave no file; VersionStore.RestartContinuesExactly, VersionStore.PartialCopyListed and VersionStore.LeftoverClashesExactly say what happens otherwise. The same holds for VersionStore.SaveKeeps, VersionStore.NeverReissued, VersionStore.BytesNeverChange and the runs of PolicyAdmin.
- VersionStore.OpenEstablishes: directories without clashing versions, the only ones on which the list increases (VersionStore.StartIncreasesExactly).
- Stats.EveryRunConsistent: runs of fewer than 2^64 steps; behind that a counter wraps.
- Policy.PolicyEngine.Evaluate: one C++ function is three methods here, so that each is verified by itself; the same holds for Policy.PolicyEngine.Explain.
- PolicyAdmin.UdsServer.HandlePolicyReload: the reload on SIGHUP (`src/proxy/proxy_server.cpp:165-195`) has the same effect and no method of its own.
- Go command line, dashboard and JavaScript: clients of the control socket.
