# Zabbix asynchronous agent poller and ClickHouse history backend, in Dafny

This project models three parts of a Zabbix server fork:

- The Zabbix agent checks in `src/zabbix_server/poller/checks_agent.c`.
  - `get_value_agent` is the blocking poll of one item.
  - `handle_socket_operation` is the per-socket state machine SOCKET_CREATED → CONNECT_SENT → REQ_SENT → FAIL.
  - `get_value_agent_async` is the batch poller. It holds parallel arrays of sockets, connection states, error codes and results. It also keeps the `active_agents` counter, a tick loop with a four-second deadline, and a final sweep that closes sockets and reports timeouts.
- The ClickHouse history backend in `src/libs/zbxhistory/history_clickhouse.c`.
  - The INSERT statement builder `clickhouse_add_values`.
  - The batch writer (init, add interface, release, flush with its retry rounds).
  - The SELECT text that `clickhouse_get_values` would send.
  - Interface initialisation with its base-URL trimming, and `clickhouse_close`.
- The frontend's `CClickHouseHelper::parseResult`, which turns tab-separated output into numbered rows keyed by column name, or strips a scalar answer.

The model follows the code:

- The agent reply classifier is a pure function over the receive buffer, seen as a C string. It is shared by the blocking path and the REQ_SENT branch.
- The batch poller is a class over arrays. Its methods are proved against per-entry transition functions (`HandleSlot`, `TickSlot`, `SweepSlot`, `PreflightSlot`).
- The INSERT builder is a loop method proved against a function of the batch. That function is proved to read back when every itemid and UINT64 value is below 2^63, and not to read back otherwise.
- The writer and the history interfaces are classes whose fields the methods update.
- The flush retry rounds are a loop proved against `Settle`, the first round in which a statement is done: its transfer does not fail in transport, or the round's outcomes are never read.
- The table branch of `parseResult` is a loop method proved against `TableOf`.

Sockets, DNS, libcurl and the clock are oracles:

- `AgentPoller.Net` is a record of total functions. It gives, per entry (and per tick where the source polls again), the result of socket(), gethostbyname(), connect(), zbx_tcp_send(), zbx_tcp_recv_ext(), getsockopt(SO_ERROR), ioctl(FIONREAD) and time().
- In the writer, curl_easy_init() success is a parameter. The outcome of every transfer in every flush round is a function `transfer(round, index)`. Whether a round's transfers all finish in its first curl_multi_perform() call is a function `unread(round)`.

Where the code does something other than what its comments or its sibling code suggest, the model does what the code does:

- :405 is `==`, so a connect reported failed by SO_ERROR stays in CONNECT_SENT and times out.
- The FAIL set on a failed send at :217 is overwritten by REQ_SENT at :222.
- A DNS or connect failure leaves the entry counted in `active_agents`, so the batch then always runs to the deadline.
- A REQ_SENT entry advances on any nonzero FIONREAD count, because the test is `0 == count`.
- `clickhouse_add_values` counts LOG entries of a LOG interface but writes no tuple for them.
- `clickhouse_add_values` writes the statement with an allocation size of 0 and does not free `data->buf` first. `data->buf` is still set after an earlier call whose curl_easy_init() failed. In that case the statement is lost and an empty body is queued.
- String values are quoted without escaping.
- The INSERT statement prints the unsigned itemid and UINT64 value with `%ld` (see Findings).
- `clickhouse_writer_flush` sets `previous = 0` before each round and skips curl_multi_info_read() while `running` equals `previous`. A round whose transfers all finish in the first curl_multi_perform() call ends with `running` at 0, so none of its outcomes is read. Its transport errors are neither logged nor retried, and the flush still returns SUCCEED.

## Model

| member | source | states |
|---|---|---|
| CStrings.CStr | src/zabbix_server/poller/checks_agent.c:121 | The C string of a buffer is its longest NUL-free prefix, ended by the first NUL when there is one. |
| CStrings.RTrimBuffer | src/zabbix_server/poller/checks_agent.c:116 | zbx_rtrim leaves the buffer length alone and makes its C string the old one with trailing trim characters removed; bytes after the old terminator are unchanged, and a string with nothing to trim leaves the buffer as it was. |
| CStrings.LTrimBuffer | src/zabbix_server/poller/checks_agent.c:117 | zbx_ltrim shifts the C string left over its leading trim characters and leaves the buffer untouched when there are none. |
| CStrings.RTrimmed | src/libs/zbxhistory/history_clickhouse.c:769 | Right trimming keeps a prefix, removes only trim characters, and leaves no trim character at the end. |
| AgentChecks.TrimBuffer | src/zabbix_server/poller/checks_agent.c:116-117 | The reply buffer after both trims has its C string trimmed of trailing space/CR/LF and leading spaces. |
| AgentChecks.Classify | src/zabbix_server/poller/checks_agent.c:121-144 | The trimmed reply equal to ZBX_NOTSUPPORTED gives NOTSUPPORTED with the text after the token's NUL when more than sizeof(ZBX_NOTSUPPORTED) bytes were read, else the fixed message. ZBX_ERROR gives AGENT_ERROR. Otherwise a zero received length gives NETWORK_ERROR with the empty-response message, and any other reply gives SUCCEED with the trimmed text. The token tests come before the empty test. |
| AgentChecks.ValueIsTrimmed | src/zabbix_server/poller/checks_agent.c:114-144 | A successful value is NUL-free and carries no leading space and no trailing space, CR or LF. |
| AgentChecks.NotSupportedCarriesReason | src/zabbix_server/poller/checks_agent.c:121-129 | `ZBX_NOTSUPPORTED\0reason` read in full gives NOTSUPPORTED with message `reason`, or the generic message when the reason is empty. |
| AgentChecks.BareNotSupported | src/zabbix_server/poller/checks_agent.c:124-127 | A bare `ZBX_NOTSUPPORTED\0` gives the "Not supported by Zabbix Agent" message. |
| AgentChecks.LeadingSpaceDropsReason | src/zabbix_server/poller/checks_agent.c:117-125 | A reply ` ZBX_NOTSUPPORTED\0reason` still gives NOTSUPPORTED, but the left trim moves the token and its terminator one byte left. The message, read at the fixed offset sizeof(ZBX_NOTSUPPORTED), is then the empty string at the old terminator, and the reason is lost. |
| AgentChecks.TlsRefusal | src/zabbix_server/poller/checks_agent.c:66-95 | A connection is refused exactly when the TLS mode is neither unencrypted nor (with TLS compiled in) certificate or PSK; the message names the missing TLS support or the invalid parameters. |
| AgentChecks.RecvOutcome | src/zabbix_server/poller/checks_agent.c:226-261 | A failed receive gives NETWORK_ERROR with the socket error text; a received reply is classified; no other codes arise. |
| AgentChecks.GetValueAgent | src/zabbix_server/poller/checks_agent.c:66-153 | TLS refusal gives CONFIG_ERROR with no connection. A connect or send failure gives NETWORK_ERROR. A receive failure gives TIMEOUT_ERROR when the alarm fired, else NETWORK_ERROR. A received reply is classified. The result is never FAIL. |
| AgentPoller.LiveCountUpdate | src/zabbix_server/poller/checks_agent.c:364 | Changing one entry changes the count of live entries by that entry's own change, and a live entry means the count is at least one. |
| AgentPoller.LiveCountZero | src/zabbix_server/poller/checks_agent.c:375 | When `active_agents` (the live count) is zero, no entry is live. |
| AgentPoller.HandleSlot | src/zabbix_server/poller/checks_agent.c:176-272 | From SOCKET_CREATED, a DNS failure or a connect error other than EINPROGRESS gives FAIL with CONFIG_ERROR, otherwise CONNECT_SENT. From CONNECT_SENT the state always becomes REQ_SENT, with NETWORK_ERROR when the send failed. From REQ_SENT the socket is closed once and zeroed, the state becomes FAIL and the outcome is the classified reply. Other states are untouched. Exactly the REQ_SENT step leaves the live set. |
| AgentPoller.TickSlot | src/zabbix_server/poller/checks_agent.c:386-424 | SKIPPED, FAIL, CLOSED and unexpected states are untouched. In CONNECT_SENT, a getsockopt error changes nothing; a nonzero SO_ERROR sets NETWORK_ERROR and the message but keeps the state; otherwise the entry sends. A REQ_SENT entry is unchanged exactly when FIONREAD reports zero bytes; otherwise it is read and closed. |
| AgentPoller.SweepSlot | src/zabbix_server/poller/checks_agent.c:432-442 | The sweep closes a nonzero socket once more and keeps state and handle. Entries in CONNECT_SENT or REQ_SENT get TIMEOUT_ERROR and the timeout message; all others keep their errcode and result. |
| AgentPoller.PreflightSlot | src/zabbix_server/poller/checks_agent.c:305-369 | Non-agent items become SKIPPED without touching errcode or result. A TLS refusal gives SKIPPED with CONFIG_ERROR. A socket() failure gives SKIPPED with CONFIG_ERROR, with the handle left at -1. Otherwise the socket is kept and the entry reaches CONNECT_SENT exactly when resolving and connecting succeed; else it is FAIL with CONFIG_ERROR. |
| AgentPoller.TickReachable | src/zabbix_server/poller/checks_agent.c:386-424 | A tick keeps every entry within the states reachable from its pre-flight state: untouched if it stopped early, else still connecting or waiting on the same socket, or finished. |
| AgentPoller.AfterTicks | src/zabbix_server/poller/checks_agent.c:384-425 | Any number of passes keeps an entry within the states reachable from its pre-flight state. |
| AgentPoller.NeverReadyTimesOut | src/zabbix_server/poller/checks_agent.c:396-440 | A connect for which getsockopt() fails on every pass stays in CONNECT_SENT untouched, and the sweep reports TIMEOUT_ERROR with the timeout message. |
| AgentPoller.ReplyKept | src/zabbix_server/poller/checks_agent.c:386-442 | Once a pass has read and closed an entry, later passes leave it alone and the sweep reports the read outcome unchanged. |
| AgentPoller.EntryOutcome | src/zabbix_server/poller/checks_agent.c:304-442 | Whatever the number of passes, the sweep gives each entry a final outcome, and a settled one when the entry is no longer live. |
| AgentPoller.SweepFinal | src/zabbix_server/poller/checks_agent.c:432-442 | After the sweep each entry has its final outcome. One stopped in pre-flight keeps that outcome and is closed once exactly when it holds a handle. Any other is closed exactly once and carries the classified reply or the timeout. |
| AgentPoller.AgentBatch.constructor | src/zabbix_server/poller/checks_agent.c:291-307 | A batch starts with every entry in INIT, socket handle 0 and the caller's errcode and result. |
| AgentPoller.AgentBatch.HandleSocketOperation | src/zabbix_server/poller/checks_agent.c:166-274 | Only entry `i` changes, as HandleSlot says; `active_agents` drops by one exactly when the entry was in REQ_SENT; the counter invariant holds. |
| AgentPoller.AgentBatch.Connect | src/zabbix_server/poller/checks_agent.c:177-209 | The SOCKET_CREATED branch on entry `i` only, as HandleSlot says. |
| AgentPoller.AgentBatch.SendRequest | src/zabbix_server/poller/checks_agent.c:211-223 | The CONNECT_SENT branch on entry `i` only, as HandleSlot says. |
| AgentPoller.AgentBatch.ReadReply | src/zabbix_server/poller/checks_agent.c:225-270 | The REQ_SENT branch on entry `i` only, as HandleSlot says; `active_agents` drops by exactly one. |
| AgentPoller.AgentBatch.RecordOutcome | src/zabbix_server/poller/checks_agent.c:226-258 | Entry `i` gets the given errcode and result; its state, handle and close count and every other entry stay as they were. |
| AgentPoller.AgentBatch.CloseReplied | src/zabbix_server/poller/checks_agent.c:260-266 | Entry `i` is closed once more, its handle zeroed and its state set to FAIL; `active_agents` drops by exactly one and still counts the live entries; other entries are untouched. |
| AgentPoller.AgentBatch.PreFlight | src/zabbix_server/poller/checks_agent.c:304-370 | After the pre-flight loop every entry is in its PreflightSlot state, and `active_agents` counts the live entries. |
| AgentPoller.AgentBatch.OpenEntry | src/zabbix_server/poller/checks_agent.c:306-369 | One pre-flight iteration brings entry `i` to its PreflightSlot state and leaves the others alone. |
| AgentPoller.AgentBatch.OpenSocket | src/zabbix_server/poller/checks_agent.c:355-368 | socket() and, on success, SOCKET_CREATED, `active_agents` + 1 and the first socket operation, on entry `i` only. |
| AgentPoller.AgentBatch.SetStatus | src/zabbix_server/poller/checks_agent.c:195-222 | Moving an entry that holds a socket between live states changes only its state and keeps `active_agents` exact. |
| AgentPoller.AgentBatch.SetConn | src/zabbix_server/poller/checks_agent.c:355-362 | Entry `i` takes the new state and socket handle and nothing else changes. `active_agents` drops by one if the entry was live and rises by one if it becomes live, so it still counts the live entries. |
| AgentPoller.AgentBatch.Tick | src/zabbix_server/poller/checks_agent.c:386-425 | One pass of the tick loop applies TickSlot to every entry and keeps the counter invariant; entries left by the first `t` passes are then where `t + 1` passes leave them. |
| AgentPoller.AgentBatch.TickAdvances | src/zabbix_server/poller/checks_agent.c:386-425 | Applying pass `n` to every entry that is where `n` passes left it gives the state after `n + 1` passes. |
| AgentPoller.AgentBatch.Pass | src/zabbix_server/poller/checks_agent.c:384-425 | A loop iteration entered before the deadline after `t` passes leaves every entry where `t + 1` passes leave it, and every test so far was before the deadline. |
| AgentPoller.AgentBatch.TickEntry | src/zabbix_server/poller/checks_agent.c:388-424 | One iteration of the tick loop brings entry `i` to its TickSlot state and leaves the others alone, keeping the counter invariant. |
| AgentPoller.AgentBatch.MarkConnectFailed | src/zabbix_server/poller/checks_agent.c:402-407 | A nonzero SO_ERROR sets NETWORK_ERROR and the connection-failed message on entry `i` and keeps its state (the `==` on line 405 compares and assigns nothing). |
| AgentPoller.AgentBatch.Poll | src/zabbix_server/poller/checks_agent.c:372-427 | The tick loop ends with `active_agents` at zero or the deadline reached, and is never entered at or after the deadline. Every entry ends exactly where `ticks` passes of TickSlot leave it from its pre-flight state. |
| AgentPoller.AgentBatch.Sweep | src/zabbix_server/poller/checks_agent.c:432-442 | The sweep applies SweepSlot to every entry. |
| AgentPoller.AgentBatch.Run | src/zabbix_server/poller/checks_agent.c:304-442 | Pre-flight, tick loop and sweep on a fresh batch. Each entry's errcode, result and close count are exactly those of SweepSlot after `ticks` passes from its pre-flight state, which is also a final outcome (FinalOutcome). The loop never runs at or past the deadline, and a batch that ended before the deadline has every entry settled. |
| AgentPoller.GetValueAgentAsync | src/zabbix_server/poller/checks_agent.c:277-447 | A failed allocation returns FAIL and writes nothing. Otherwise the function returns no value, and each item's errcode, result and close count are those of the sweep after `ticks` passes of the tick loop from its pre-flight state, with the item's classified reply; this is a final outcome (FinalOutcome). The loop stops before the horizon. A batch that ended before the deadline has every connected item answered and no item stuck in FAIL while counted. |
| Decimal.NatToDec | src/libs/zbxhistory/history_clickhouse.c:682-683 | Decimal text of a natural number is non-empty, all digits, and has no leading zero. |
| Decimal.DecRoundTrip | src/libs/zbxhistory/history_clickhouse.c:682-683 | Reading the decimal text of a number gives the number back. |
| Decimal.FormatLd | src/libs/zbxhistory/history_clickhouse.c:682-683 | `%ld` prints a uint64 below 2^63 as its unsigned decimal and one at or above 2^63 as a negative number. |
| Decimal.IntRoundTrip | src/libs/zbxhistory/history_clickhouse.c:682-683 | The `%d` text of an int reads back as that int. |
| Decimal.UInt64RoundTrip | src/libs/zbxhistory/history_clickhouse.c:682-683 | The unsigned decimal text of a uint64 reads back as that uint64. |
| Decimal.LdUnreadable | src/libs/zbxhistory/history_clickhouse.c:682-683 | The `%ld` text of a uint64 at or above 2^63 is not an unsigned number. |
| HistoryClickHouse.Pieces | src/libs/zbxhistory/history_clickhouse.c:680-696 | A non-LOG entry prints as seven comma-separated pieces: `(CAST(<sec> as date) `, the itemid through the given unsigned format, sec, ns, then `<ui64>,0,'')` for UINT64, `0,<printed %f>,'')` for FLOAT and `0,0,'<string>')` for STR and TEXT, where `<string>` is the value up to its first NUL, unescaped. |
| HistoryClickHouse.TupleAsWritten | src/libs/zbxhistory/history_clickhouse.c:680-702 | A LOG entry gives no text and any other gives its seven pieces joined by commas plus a trailing comma, itemid and UINT64 value through `%ld`; when both fit in a signed long this is the unsigned tuple. |
| HistoryClickHouse.Matching | src/libs/zbxhistory/history_clickhouse.c:672-678 | The entries considered are those of the interface's value type, in input order. |
| HistoryClickHouse.BuildInsert | src/libs/zbxhistory/history_clickhouse.c:670-706 | The loop returns the number of entries of the interface's type and the statement "INSERT INTO <table> VALUES " followed by one comma-terminated tuple per such entry, in order, with itemid and a UINT64 value printed through `%ld` as the source prints them. |
| HistoryClickHouse.MatchingCount | src/libs/zbxhistory/history_clickhouse.c:705 | The count is the number of occurrences of the interface's type among the entries' types; entries of other types add nothing. |
| HistoryClickHouse.LogNotWritten | src/libs/zbxhistory/history_clickhouse.c:698-702 | LOG entries are counted but contribute no tuple text. |
| HistoryClickHouse.UInt64TupleRoundTrip | src/libs/zbxhistory/history_clickhouse.c:680-684 | A UINT64 tuple's pieces read back as the entry: itemid, clock, ns and value. |
| HistoryClickHouse.BatchRoundTrip | src/libs/zbxhistory/history_clickhouse.c:680-706 | The comma-split tuples of UINT64 entries read back as exactly those entries in order. |
| HistoryClickHouse.InsertRoundTrip | src/libs/zbxhistory/history_clickhouse.c:670-706 | With the unsigned fields printed unsigned, the statement for a UINT64 interface reads back as the batch's UINT64 entries, in order, for every batch. |
| HistoryClickHouse.AsWrittenAgrees | src/libs/zbxhistory/history_clickhouse.c:682-683 | For entries whose itemid and UINT64 value are below 2^63, the `%ld` tuples equal the unsigned ones. |
| HistoryClickHouse.InsertRoundTripAsWritten | src/libs/zbxhistory/history_clickhouse.c:670-706 | The statement the source builds for a UINT64 interface reads back as the batch's UINT64 entries, in order, when every itemid and UINT64 value is below 2^63. |
| HistoryClickHouse.MatchingKeeps | src/libs/zbxhistory/history_clickhouse.c:672-678 | Every entry of the interface's type is among the entries the loop writes. |
| HistoryClickHouse.AsWrittenBatchUnreadable | src/libs/zbxhistory/history_clickhouse.c:680-704 | `%ld` tuples of UINT64 entries of which any one has a field at or above 2^63 do not read back as a batch. |
| HistoryClickHouse.InsertAsWrittenUnreadable | src/libs/zbxhistory/history_clickhouse.c:670-706 | The statement the source builds for a UINT64 interface does not read back at all when one UINT64 entry has its itemid or value at or above 2^63. |
| HistoryClickHouse.AsWrittenTupleUnreadable | src/libs/zbxhistory/history_clickhouse.c:682-683 | With `%ld`, a UINT64 entry whose itemid or value is at least 2^63 gives a tuple that does not read back. With unsigned printing it reads back. |
| HistoryClickHouse.ClockFilter | src/libs/zbxhistory/history_clickhouse.c:511-524 | A one-second period (`end - start == 1`) is asked for by `clock = end` alone. Otherwise there is no equality, a `clock > start` bound exactly when start is positive and a `clock <= end` bound exactly when end is positive, in that order. |
| HistoryClickHouse.FilterText | src/libs/zbxhistory/history_clickhouse.c:511-524 | The conditions print as `AND clock = <end> ` for a one-second period, otherwise as the optional `AND clock > <start> ` followed by the optional `AND clock <= <end> `. |
| HistoryClickHouse.SelectTail | src/libs/zbxhistory/history_clickhouse.c:511-529 | After the itemid come the clock conditions, then `ORDER BY clock DESC ` always, then `LIMIT <count>` only when count is positive. |
| HistoryClickHouse.SelectQueryAsWritten | src/libs/zbxhistory/history_clickhouse.c:506-529 | The query the source builds: `SELECT  toUInt32(clock),ns,value,value_dbl,value_str FROM <table> WHERE itemid=`, the itemid through `%ld`, a space and the tail; for an itemid below 2^63 it is the corrected query. |
| HistoryClickHouse.SelectQuery | src/libs/zbxhistory/history_clickhouse.c:506-529 | The corrected query: the same text with the itemid printed unsigned. |
| HistoryClickHouse.ClockFilterMeaning | src/libs/zbxhistory/history_clickhouse.c:511-524 | The clock conditions select ]start, end], each non-positive bound left open; a one-second period selects `clock = end` alone. |
| HistoryClickHouse.QueriedItemOf | src/libs/zbxhistory/history_clickhouse.c:506-529 | The item a SELECT asks for is read from the text after `WHERE itemid=` up to the next space, whatever conditions, ordering and limit follow. |
| HistoryClickHouse.SelectQueryItem | src/libs/zbxhistory/history_clickhouse.c:506-507 | With unsigned printing the SELECT asks for the given itemid; with `%ld` an itemid at or above 2^63 gives a query for no valid itemid. |
| HistoryClickHouse.BaseUrl | src/libs/zbxhistory/history_clickhouse.c:768-769 | The base URL is the configured one minus all trailing slashes, and ends in no slash. |
| HistoryClickHouse.BaseUrlIdempotent | src/libs/zbxhistory/history_clickhouse.c:768-769 | Trimming a trimmed URL changes nothing. |
| ClickHouseWriter.HistoryIface.constructor | src/libs/zbxhistory/history_clickhouse.c:765-780 | A new interface has its value type, the trimmed base URL, no statement, no handle and no trends requirement. |
| ClickHouseWriter.HistoryIface.Close | src/libs/zbxhistory/history_clickhouse.c:180-195 | Closing drops the statement and the curl handle. |
| ClickHouseWriter.HistoryClickhouseInit | src/libs/zbxhistory/history_clickhouse.c:756-795 | Without curl support, or when curl_global_init fails, the result is FAIL with the matching message and no interface. Otherwise it is SUCCEED with a fresh interface as the constructor leaves it. |
| ClickHouseWriter.Settle | src/libs/zbxhistory/history_clickhouse.c:319-383 | The settling round of a statement is the first round, up to the horizon, that ends it: its outcome there is not a transport error, or that round's outcomes are not read. Every earlier round was read and failed in transport. |
| ClickHouseWriter.HttpErrorNotRetried | src/libs/zbxhistory/history_clickhouse.c:350-357 | A transfer answered with an HTTP error settles in its first round and is not sent again. |
| ClickHouseWriter.RunRounds | src/libs/zbxhistory/history_clickhouse.c:319-383 | Each statement's last outcome is its outcome in its settling round, and it was sent once per round up to and including that one. Transport errors in a read round are retried; OK, HTTP errors and anything in an unread round are not. A final transport error comes only from an unread round. When the first round is unread the flush has exactly one round. The rounds stop by the horizon. |
| ClickHouseWriter.SendRound | src/libs/zbxhistory/history_clickhouse.c:321-366 | One pass of the send loop performs every pending transfer once in this round and counts the send. A transfer goes on the retry list exactly when it ends in a transport error and the round's outcomes are read. Transfers not pending are untouched and not retried. |
| ClickHouseWriter.SettleStep | src/libs/zbxhistory/history_clickhouse.c:319-383 | A statement pending in a round is pending in the next one exactly when that round does not end it. |
| ClickHouseWriter.AllReadNoTransportError | src/libs/zbxhistory/history_clickhouse.c:348-366 | When every round's outcomes are read, a statement's final outcome is not a transport error, and every earlier send failed in transport. |
| ClickHouseWriter.ProgressStep | src/libs/zbxhistory/history_clickhouse.c:370-381 | After a round, exactly the statements that settle in a later round are pending again, and those that settled hold their settled outcome and send count. |
| ClickHouseWriter.Writer.Init | src/libs/zbxhistory/history_clickhouse.c:212-226 | Init does nothing on an initialized writer; otherwise it starts an empty queue with a multi handle. |
| ClickHouseWriter.Writer.AddIface | src/libs/zbxhistory/history_clickhouse.c:260-282 | The writer is initialized. The interface's handle is set exactly when curl_easy_init succeeds, and the interface is appended to the queue exactly then; otherwise the queue is unchanged. |
| ClickHouseWriter.Writer.Release | src/libs/zbxhistory/history_clickhouse.c:236-249 | Every queued interface is closed, the queue is emptied, the multi handle dropped and the writer uninitialized. |
| ClickHouseWriter.Writer.Flush | src/libs/zbxhistory/history_clickhouse.c:291-393 | An uninitialized writer returns SUCCEED at once. Otherwise every queued statement is posted until it settles (RunRounds), every interface is closed, the writer is released, and the result is SUCCEED. A final transport error comes only from an unread round; when the first round is unread, each statement is sent once and keeps its first outcome, transport errors included. |
| ClickHouseWriter.Writer.AddValues | src/libs/zbxhistory/history_clickhouse.c:654-721 | Returns the number of entries of the interface's type. When it is positive, the interface is queued as AddIface says. Its buffer, if unset before, becomes the INSERT statement plus "\n"; a buffer left set by an earlier call becomes the empty string. Otherwise nothing changes. |
| Text.Explode | frontends/php/include/classes/helpers/CClickHouseHelper.php:65 | explode gives at least one piece and no piece holds the separator. |
| Text.JoinExplode | frontends/php/include/classes/helpers/CClickHouseHelper.php:65 | Joining the pieces of a text with the separator gives the text back. |
| Text.ExplodeJoin | frontends/php/include/classes/helpers/CClickHouseHelper.php:73 | Splitting joined separator-free pieces gives the pieces back. |
| Text.RemoveChar | frontends/php/include/classes/helpers/CClickHouseHelper.php:69 | Removing a character keeps exactly the other characters, never lengthening the text. |
| ClickHouseHelper.Combine | frontends/php/include/classes/helpers/CClickHouseHelper.php:73 | array_combine gives a row exactly when the counts match; the row's keys are the column names. |
| ClickHouseHelper.CombineDistinct | frontends/php/include/classes/helpers/CClickHouseHelper.php:73 | With distinct column names each field lands under its own column. |
| ClickHouseHelper.ZipLast | frontends/php/include/classes/helpers/CClickHouseHelper.php:73 | A repeated column name holds the field at its last position. |
| ClickHouseHelper.KeptIffNonEmpty | frontends/php/include/classes/helpers/CClickHouseHelper.php:69 | A line of the newline split yields a row exactly when it is not empty. |
| ClickHouseHelper.KeptTrailingEmpty | frontends/php/include/classes/helpers/CClickHouseHelper.php:65-80 | The empty piece after a final newline yields no row. |
| ClickHouseHelper.ParseResult | frontends/php/include/classes/helpers/CClickHouseHelper.php:57-93 | In table mode the result is TableOf: each non-empty line in order becomes the next row, numbered from 0, and empty lines do not advance the counter. In single mode the result is the stripped scalar. |
| ClickHouseHelper.TableOfLines | frontends/php/include/classes/helpers/CClickHouseHelper.php:63-78 | Non-empty newline-ended lines become rows 0..n-1 in order, each the combination of the columns with the line's tab-separated fields. |
| ClickHouseHelper.TableRoundTrip | frontends/php/include/classes/helpers/CClickHouseHelper.php:63-78 | A table printed as tab-separated lines parses back to one row per line, every field under its column, given distinct column names of the right number. |
| ClickHouseHelper.StripSingle | frontends/php/include/classes/helpers/CClickHouseHelper.php:84 | The stripped scalar contains exactly the input's characters other than CR, LF and tab. |
| ClickHouseHelper.StripSingleFilters | frontends/php/include/classes/helpers/CClickHouseHelper.php:84 | Stripping equals the character filter, so every other character is kept in order. |
| ClickHouseHelper.StripSingleAppend | frontends/php/include/classes/helpers/CClickHouseHelper.php:84 | Stripping distributes over concatenation. |
| ClickHouseHelper.StripSingleIdempotent | frontends/php/include/classes/helpers/CClickHouseHelper.php:84 | Stripping twice is stripping once. |

## Left out

- Sockets, DNS, TLS/PSK negotiation inside zbx_tcp_connect, libcurl (easy and multi calls, headers, the response callbacks), `usleep`, `sleep` and `time()`: these are oracle parameters (`AgentPoller.Net`, `easyOk`, `curlOk`, `transfer`).
- AgentPoller.GetValueAgentAsync: assumes the clock reaches the four-second deadline by a given tick (`horizon`). It also assumes socket() returns -1 or a descriptor above 0. The source relies on both without checking.
- AgentPoller.GetValueAgentAsync: `starttime` is an `unsigned int` holding time(NULL). On LP64 platforms `time_t` is `long`, so `time(NULL)-starttime` is a signed `long` subtraction. The model's integer subtraction matches it as long as time(NULL) fits in 32 bits, which holds until 2106; the truncation of later times is not modelled.
- AgentPoller.GetValueAgentAsync: the function ends without a `return` statement. The model says it hands back no value (`NoReturnValue`); what a caller reads then is undefined in C.
- The TLS certificate branch at checks_agent.c:329 refers to an undeclared `item` and does not compile with TLS enabled. The model treats it like the PSK branch; the pre-flight pass does not use the TLS arguments.
- Logging, and `max_socket` (written, never read).
- HistoryClickHouse.BuildInsert: FLOAT values are kept as their printed `%f` text; floating-point formatting is not modelled.
- Only UINT64 statements are read back by a round-trip lemma (InsertRoundTrip, InsertRoundTripAsWritten); FLOAT, STR and TEXT tuples are stated by their text (Pieces) but not decoded.
- HistoryClickHouse.ClockFilter: `end - start` is a C `int` subtraction, which overflows (undefined behaviour) for extreme bounds; the model subtracts unbounded integers.
- The response-parsing part of `clickhouse_get_values` (history_clickhouse.c:530-627) is not modelled, and neither is its early `return` at :466. That return makes the query builder unreachable, so the builder is modelled as the text it would send.
- ClickHouseWriter.Writer.AddValues: zbx_snprintf_alloc() and zbx_vsnprintf() (str.c) are not part of this model. For a buffer still set from an earlier call, the model follows Zabbix's definition of them: with an allocation size of 0 only the terminating NUL is written, so the buffer's C string becomes empty. The bytes after that NUL are not modelled.
- `clickhouse_destroy`, `curl_write_cb` / `curl_write_send_cb`, `history_str2value` / `history_value2str` and `clickhouse_log_error` are not part of this model.
- ClickHouseWriter.Writer.Init: curl_multi_init failure calls `exit(EXIT_FAILURE)`; that path is not modelled.
- ClickHouseWriter.Writer.Flush: curl_multi_perform / curl_multi_wait failures are not modelled. Either one breaks out of the inner loop. Handles already on the retry list are then sent again in the next round, and the transfers still running carry on there. With no retry pending, history_clickhouse.c:374-389 releases the writer and drops the transfers still running, unsent.
- ClickHouseWriter.Writer.Flush: the source keeps retrying as long as transport errors continue; the model assumes every transfer stops failing in transport by round `horizon`.
- ClickHouseWriter.RunRounds: the retry list is kept as a mask over the queue rather than a vector of handles.
- `CClickHouseHelper::query` is only a curl call and is not part of this model.
- ClickHouseHelper.Combine: a count mismatch is PHP 7's `false`; PHP 8 throws instead. PHP's conversion of numeric-string keys to integers is not modelled.
- Strings are character sequences; there is no encoding.

## Findings

| source | as written | input that shows it | evidently intended | confidence | as-written member | corrected member |
|---|---|---|---|---|---|---|
| src/libs/zbxhistory/history_clickhouse.c:682-683 | The uint64 itemid and UINT64 value are printed with `%ld`, so values at or above 2^63 come out negative. | A UINT64 entry with value 18446744073709551615 prints `-1`; itemid 9223372036854775808 prints `-9223372036854775808`. | Print them unsigned, as `history_value2str` does with ZBX_FS_UI64. | not executed; value overflow is realistic for counters | HistoryClickHouse.BuildInsert (InsertAsWrittenUnreadable, InsertRoundTripAsWritten) | HistoryClickHouse.Tuples (InsertRoundTrip) |
| src/libs/zbxhistory/history_clickhouse.c:506-507 | The SELECT prints the uint64 itemid with `%ld`. | itemid 9223372036854775808 asks for `itemid=-9223372036854775808`. | Print the itemid unsigned. | not executed; itemids that large are unusual | HistoryClickHouse.SelectQueryAsWritten (SelectQueryItem) | HistoryClickHouse.SelectQuery (SelectQueryItem) |

The statement builder (`BuildInsert`), and so the buffer `AddValues` stores, print through `%ld` as the source does. They read back whenever every itemid and UINT64 value is below 2^63 (`InsertRoundTripAsWritten`), and on those batches they equal the corrected printing (`AsWrittenAgrees`). For the SELECT both texts are modelled, and `SelectQueryItem` states what each one asks for.
