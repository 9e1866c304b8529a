# A verified model of pg_redis_proxy

pg_redis_proxy speaks the Redis protocol to its clients and keeps their keys in one hstore row of a
PostgreSQL table. Between the two sits a cache that works under one of four regimes. This project
models the path of a byte through the proxy (incremental parser, dispatcher, cache, operation log,
SQL transaction, reply frame) and proves that, seen from any client, all of it is one plain map.

The main result is `WholeSystem.SystemRefinement`. For any number of clients, any cutting and
interleaving of their bytes, any moments at which the timer fires, and any regime:

- each client completes exactly the commands that a one-shot reader of the Redis serialization
  protocol (RESP2, sections "Arrays" and "Bulk strings") finds in its bytes;
- the bytes it is answered are the frames of the replies that one plain map gives, executing all
  clients' commands in completion order, and they read back as exactly those replies;
- synchronizations cannot be seen.

`EventLoop.ProxyStartWork` carries it to the objects: one proxy and the connections of all clients,
updated in place by the callbacks as events come, end as exactly the state the theorem is about. Every
callback is called in a state in which it may be called. For the read callback,
`RedisProxy.Connection.OnReadCb`, that takes three things: that the chunk can be served
(`WholeSystem.EveryChunkIsServed`), that it has 1 to 200 bytes, which is what one `read` delivers, and
that the proxy is consistent, which its constructor establishes from a table of storable values (NUL-free
C strings whose length with a tag and a terminator fits an int) and every callback keeps.

## How it is built

| file | part of the proxy |
|---|---|
| `Bytes`, `Decimal` | bytes, C strings in buffers, `memcpy`, `%d` |
| `CacheModel`, `CacheRuns` | the cache, log and database as a state machine; its invariant, refinement, staleness |
| `Commands` | which call a command selects, and its reply over the cache and over a plain map |
| `ProxyHash` | the 200-byte records of the hash table |
| `Logger` | the linked list of pending operations, its nodes reused in place |
| `Quoting`, `Sql`, `WorkWithDb` | text between quotes, the statement and query texts and how they read, the transaction buffer, the database connection |
| `SendReqPostgres` | the requests and the synchronization on that hash table, log, buffer and database |
| `Resp` | commands on the wire: printer and one-shot reader |
| `ParserMachine`, `WorkWithSocket` | the seven-state parser as a function of bytes, and in place on the 200-byte read buffer |
| `Replies`, `RedisReqvConverter`, `PostgresReqvConverter` | tagged replies, the dispatcher, reply frames and how they read |
| `RedisProxy`, `WholeSystem` | one connection's callbacks; all clients together, as one value |
| `OnTheWire` | one client's bytes in and out, character by character |
| `EventLoop` | the worker: one proxy and all its connections in place, driven by events |

Code that changes things in place is a class whose methods are tied, by their postconditions, to a
function of the old state (`CacheModel`, `ParserMachine`, `RedisProxy.ChunkStep`); the theorems are
about those functions. Contents of memory the C code does not initialise, or reads past the end of a
string, come from `Bytes.UnspecifiedBytes`, of which only the length is known.

What is proved about is said apart from the code that does it. `Commands.SpecExecute`, the plain map, is
written on the command as it was sent and knows nothing of the dispatcher; the printers of commands and
frames are written with characters, the parser with its byte constants; the reader that stands for the
server (`Sql.ReadTransaction`, `ReadStatement`, `ReadQuery`) has keywords of its own, and an opened
transaction that does not end in `COMMIT;` changes nothing for it (`Sql.UncommittedChangesNothing`).

Three conditions appear throughout, all taken from the code. `CacheRuns.AdmissibleRun` and
`Commands.AdmissibleCommand` hold all of them, request by request, and so do the results about whole
runs and the whole system.

- **Admissible.** A SET whose key fits the cache (at most 98 bytes) and whose value does not (more
  than 97) goes straight to the database and leaves the cache alone
  (`send_req_postgres/send_req_postgres.c:95-97`). On a key that is cached the client would go on
  reading the old value. `CacheModel.SetIsFaithfulIff` proves that this is exactly when a SET fails
  to act as on a plain map, so runs are required to avoid it and nothing more.
- **Quote-free where it reaches a statement.** The proxy writes keys and values between quotes as they
  are (`work_with_db/work_with_db.c:51`, `:81`, `:182`, `:233`). `Sql.TransactionReadsBackIff`,
  `Sql.ReadsRendered` and `Sql.QueryReadsBackIff` prove that such a text reads as what was meant if
  and only if it contains no quote. The failing input is a value with a doubled quote: after
  `SET k x''y` a proxy without a cache answers `x'y` and one that only caches answers `x''y`
  (`Sql.DoubledQuoteTellsRegimesApart`); with a single quote the statement fails and the process stops.
  `Sql.ReachesSql` says which requests are written into a statement: all but those ONLY_CACHE settles
  in the cache and GETs answered from the cache. These are exactly the requests that involve the
  database (`Sql.ReachesSqlIff`), and only these must be free of quotes. The state machine
  of `CacheModel` is over a database that stores what it is given; the results about one step of it
  do not need this condition, those about runs of the proxy carry it. Two assumptions about the server
  stand behind it: it accepts every byte in a text (no encoding errors), and
  `standard_conforming_strings` is on, so that a backslash between quotes is a plain character.
- **Supported.** Arguments are non-empty C strings whose length with a tag and a terminator fits an
  int. The parser never completes an empty one; a NUL byte would cut a string short. An empty string
  in the database reads as absent (`work_with_db/work_with_db.c:205`), so the initial table holds none.

Where the code and its comments differ the model follows the code. `process_del` says it never
reports more than 9 deletions (`redis_reqv_converter/redis_reqv_converter.c:98-99`); it prints the
whole number. `configure_proxy/configure_proxy.h:14` says GET_CACHE caches only GET requests; SET and
DEL write their result into the cache as well.

## Model

| member | source | states |
|---|---|---|
| WholeSystem.SystemRefinement | redis_proxy.c:81-153 | For every run of well-formed streams and every client: the commands completed are those its bytes hold; the bytes answered are the frames of one plain map's replies in completion order and read back as exactly those replies; the final state shows that map. |
| EventLoop.ProxyStartWork | redis_proxy.c:219-309 | The whole process on any events in scope: the objects end consistent and as the state the main theorem is about, so every client's output is the frames of one plain map's replies and reads back as them. |
| EventLoop.Worker.Run | redis_proxy.c:306-309 | The event loop calls every callback in a state in which it may be called, and ends in the state of the run. |
| EventLoop.Worker.Handle | redis_proxy.c:299-309 | Whatever the event, the worker and all its connections in place make exactly that step; nothing outside them is touched. |
| EventLoop.Worker.OnRead | redis_proxy.c:81-153 | The read callback of one client makes that client's step and leaves the connection of every other client as it was. |
| EventLoop.Worker.OnWrite | redis_proxy.c:54-67 | The write callback empties one client's answer and changes nothing else. |
| EventLoop.Worker.OnAccept | redis_proxy.c:157-195 | A new client gets a connection of its own, ready to parse, beside those of the others. |
| EventLoop.Worker.OnTimer | redis_proxy.c:44-48 | The timer synchronizes in the deferred-dump regime, does nothing in the others, and touches no connection. |
| OnTheWire.SetThenGetOnTheWire | redis_proxy.c:81-153 | A client sets a key to a value and gets it, the names in any mixture of capitals and small letters: in every regime, however its bytes are cut, whenever the timer fires and the socket takes the answer, it is answered `+OK`, CRLF, `$`, the length, CRLF, the value, CRLF. |
| WholeSystem.EveryChunkIsServed | redis_proxy.c:81-145 | In every run of the main theorem each chunk arrives in a state in which it can be served: the parser stays in its domain and every command it completes can be run when its turn comes. |
| WholeSystem.CompletedSoFar | redis_proxy.c:99-145 | At every moment of a run the commands a client has completed are those its bytes so far hold, and they are the first commands of its whole stream. |
| WholeSystem.TimerSaves | redis_proxy.c:44-48 | In the deferred-dump regime, after the timer the database holds exactly the plain map of all commands completed so far, and nothing waits. |
| WholeSystem.RunServes | redis_proxy.c:44-153 | From any state that shows a plain map, in any regime, and on bytes that keep every parser in its domain, each client's output grows by exactly the frames of the plain map's replies to its own commands, whatever the others, the writes and the timer do. |
| WholeSystem.SyncsAndRegimesAreInvisible | redis_proxy.c:44-48 | Removing every timer event and changing the regime leaves every client's output bytes the same, for well-formed streams of commands admissible and quote-safe in both regimes. |
| WholeSystem.ClientCommandsAreFed | redis_proxy.c:99-145 | One client's completed commands depend only on its own bytes in order, not on how they were cut or interleaved with other clients. |
| WholeSystem.ServeRow | redis_proxy.c:117-145 | Commands completed by one chunk can be run in a row, refine the plain map and hand it on to the commands of later chunks. |
| WholeSystem.RepliesAreFramable | redis_reqv_converter/redis_reqv_converter.c:20-172 | Every reply that occurs can be carried by a frame: lines without CR, values that are not empty. |
| CacheModel.PerformRefines | send_req_postgres/send_req_postgres.c:17-153 | One GET, SET or DEL in any regime keeps the invariant, changes the visible map as on a plain map, answers as a plain map, and caches exactly the keys the history says. |
| CacheModel.GetRefines | send_req_postgres/send_req_postgres.c:17-62 | GET answers the visible value and changes nothing visible, whether it hits, finds a tombstone, fills the cache from the database or bypasses it. |
| CacheModel.SetRefines | send_req_postgres/send_req_postgres.c:68-100 | An admissible SET updates the visible map at its key only, in each regime, including the forced synchronization. |
| CacheModel.DelRefines | send_req_postgres/send_req_postgres.c:106-153 | DEL removes the key from the visible map and reports whether it was there, also when it reaches the database early while other operations wait. |
| CacheModel.SetIsFaithfulIff | send_req_postgres/send_req_postgres.c:68-100 | In any reachable state a SET acts on the visible map as on a plain map if and only if it is not an oversize value for a cached key outside NO_CACHE. |
| CacheModel.OversizeSetIsLost | send_req_postgres/send_req_postgres.c:95-97 | In every inadmissible case the next GET answers the old value, and if the key is pending the next synchronization puts the old value back into the database. |
| CacheModel.OversizeSetExample | send_req_postgres/send_req_postgres.c:95-97 | A concrete case: a one-byte key set to one byte and then to 98 bytes still reads as the one byte while the database holds the 98. |
| CacheModel.AddLogRefines | logger/logger.c:35-103 | Logging an operation whose effect the cache already shows keeps every pending key cached and replay equal to the cache; at 10000 operations the forced synchronization keeps it too. |
| CacheModel.SyncCorrect | send_req_postgres/send_req_postgres.c:157-192 | A synchronization leaves the visible map unchanged, makes the database equal to it on every key, empties the log, and done twice is done once. |
| CacheModel.ReplayIsLocal | send_req_postgres/send_req_postgres.c:174-182 | What replay leaves at a key depends only on what the database held at that key, so direct writes to other keys commute with pending operations. |
| CacheModel.ReplaySkipsUnlogged | send_req_postgres/send_req_postgres.c:174-182 | Replay leaves every key that is not pending as it was. |
| CacheModel.LimitsAre | proxy_hash/proxy_hash.h:6-8 | A key fits with at most 98 bytes, a value with at most 97; records have 200 bytes; at most 10000 operations wait. |
| CacheModel.EmptyReadsAsAbsent | work_with_db/work_with_db.c:205-211 | An empty string stored in the database is answered as absent, and a fitting key is then marked absent in the cache. |
| CacheModel.FittingSetWaits | send_req_postgres/send_req_postgres.c:83-94 | A fitting SET in the deferred-dump regime, while fewer than 9999 operations wait, caches the value and waits behind the others; the database is left alone. |
| CacheModel.FittingDelWaits | send_req_postgres/send_req_postgres.c:120-146 | A fitting DEL in the regimes that write late or never tells the database at once of a key the cache does not know, and of no other. |
| CacheRuns.NothingIsSavedEarly | logger/logger.c:94-100 | Along a deferred-dump run of GETs and fitting SETs, while fewer than 10000 operations wait, the database stays as it is and every SET waits. |
| CacheRuns.EverythingIsSaved | logger/logger.c:94-100 | After the timer, or after the fitting SET or DEL that comes when 9999 operations wait, nothing waits and the database holds exactly the plain map, whatever happened before. |
| CacheRuns.RunRefines | send_req_postgres/send_req_postgres.c:17-192 | Every admissible run, with synchronizations anywhere, answers as one plain map, ends showing it, and keeps the invariant. |
| CacheRuns.RegimeEquivalence | send_req_postgres/send_req_postgres.c:17-153 | The same requests, admissible and quote-safe in both regimes, over the same database get the same answers under any two timer schedules, and bring the same keys into the cache in the caching regimes. |
| CacheRuns.WriteThroughCoherence | send_req_postgres/send_req_postgres.c:36-82 | In every reachable NO_CACHE or GET_CACHE state the database is the plain map, every live entry is the stored value and every tombstone means the key is not stored. |
| CacheRuns.DeferredDumpCoherence | send_req_postgres/send_req_postgres.c:83-146 | In every reachable deferred-dump state all pending keys are cached, replay over the database gives each cached entry, and gives the plain map on all keys. |
| CacheRuns.OnlyCacheNeverSaves | send_req_postgres/send_req_postgres.c:83-152 | In every admissible, quote-safe run of ONLY_CACHE the database keeps its first value at a fitting key or loses it, whatever fitting values are set there. |
| CacheRuns.StalenessFromStart | logger/logger.c:94-100 | In every reachable deferred-dump state each key of the database has a value the plain map had at or after the last synchronization, the current one unless the key is pending, and fewer than 10000 operations are pending. |
| CacheRuns.StalenessIsBounded | send_req_postgres/send_req_postgres.c:83-146 | The same from any state, along the run that records every map held since the last synchronization. |
| Commands.ExecuteRefines | redis_reqv_converter/redis_reqv_converter.c:188-234 | Every command in any regime replies as over one plain map and keeps the invariant. |
| Commands.ClassifyIs | redis_reqv_converter/redis_reqv_converter.c:188-234 | The dispatcher selects, for GET, SET, DEL and PING in capitals or small letters, the call with these arguments as key, value or keys, and in the other cases the error with this text. |
| Commands.UpperByteIs | redis_reqv_converter/redis_reqv_converter.c:176-182 | The letters a to z become A to Z; every other byte stays. |
| Commands.GetReplies | redis_reqv_converter/redis_reqv_converter.c:20-53 | In any regime and state, GET replies the value the plain map holds, or nil, and changes nothing visible. |
| Commands.SetThenGet | redis_reqv_converter/redis_reqv_converter.c:20-76 | In any regime and state, an admissible SET replies OK and the GET after it replies exactly the value set. |
| Commands.DelThenGet | redis_reqv_converter/redis_reqv_converter.c:20-117 | In any regime and state, DEL of a list replies the number of distinct listed keys that were present, and a GET of any of them then replies nil. |
| Commands.AdmissibleCommandIff | redis_reqv_converter/redis_reqv_converter.c:188-234 | A supported command is admissible if and only if each request it makes of the cache is. |
| Commands.MultiKeyDel | redis_reqv_converter/redis_reqv_converter.c:78-117 | DEL with any list of keys, repeats included, replies the number of distinct listed keys that were present and removes exactly the listed keys. |
| ProxyHash.WrittenReadsBack | proxy_hash/proxy_hash.c:73-96 | A record reads back as the last value or deletion written, whatever bytes follow the terminator in the fixed-size copy; the key area keeps the key; all writes stay inside the record. |
| ProxyHash.HashTable.SetHashTable | proxy_hash/proxy_hash.c:73-96 | The table as a map changes at the key only, to the tombstone or the stored C string. |
| ProxyHash.HashTable.CheckHashTable | proxy_hash/proxy_hash.c:45-60 | The lookup tells a live value, a tombstone and a missing key apart. |
| Logger.CopiedReadsBack | logger/logger.c:71-77 | A string copied over the left-over contents of a node's buffer and terminated reads back unchanged. |
| Logger.Operation.Write | logger/logger.c:69-82 | A reused node holds exactly the new operation and its sizes, and stays linked as it was. |
| Logger.Log.Advance | logger/logger.c:41-68 | The current node becomes the one after the last pending operation; a node is made only if the list is too short, and the old nodes stay in place. |
| Logger.Log.Append | logger/logger.c:35-93 | The list, acyclic and at most 10000 long, holds the old operations and the new one in order; its length is at all times the largest count there has been; the size total is that of the rendered statements. |
| Logger.Log.ClearLog | logger/logger.c:112-121 | No operations, count and size total zero, every node and the high-water mark kept, the head current. |
| Sql.RenderAllSize | logger/logger.c:83-93 | The running size total is the exact length of the rendered statements. |
| Sql.SumSizeBounds | send_req_postgres/send_req_postgres.c:167-169 | The size total is zero if and only if no operation is pending, and with the transaction frame it fits a C int for a full log. |
| Sql.RenderIs | work_with_db/work_with_db.c:51-81 | The bytes of the two update statements, character by character. |
| Sql.QueriesAre | work_with_db/work_with_db.c:182-288 | The bytes of the SELECT and of the existence query, character by character. |
| Sql.TransactionTextIs | work_with_db/work_with_db.c:24-134 | A transaction is `BEGIN;`, the statements in order, and `COMMIT;`. |
| Sql.UncommittedChangesNothing | work_with_db/work_with_db.c:117-134 | For the server a text that opens a transaction and does not end in `COMMIT;` changes nothing, whatever is between. |
| Sql.ReachesSqlIff | send_req_postgres/send_req_postgres.c:17-153 | The requests counted as reaching a statement are exactly those for which the database is read or written, now or at the next synchronization. |
| Quoting.ReadQuotedConcat | work_with_db/work_with_db.c:51 | A quote-free text written between quotes reads back as itself. |
| Quoting.QuotedTextIsNotReadBack | work_with_db/work_with_db.c:51 | A text with a quote in it, written between quotes as it stands, never reads back as itself. |
| Sql.ReadsRendered | work_with_db/work_with_db.c:43-95 | A rendered statement reads as the operation it was rendered from if and only if its key and value contain no quote. |
| Sql.QueryReadsBackIff | work_with_db/work_with_db.c:182-288 | A SELECT or existence query asks for the key it was written with if and only if that key contains no quote. |
| Sql.DoubledQuoteTellsRegimesApart | work_with_db/work_with_db.c:233 | A concrete case: a value with a doubled quote is stored with one quote, so NO_CACHE and ONLY_CACHE answer differently. |
| Sql.TransactionReadsBackIff | work_with_db/work_with_db.c:43-134 | The text of a transaction decodes to exactly the operations it was built from, in order, if and only if their keys and values contain no quote. |
| Sql.TransactionIsReplay | work_with_db/work_with_db.c:117-134 | Executing the text of a transaction over quote-free operations is folding the operations over the database. |
| Sql.StatementIsApply | work_with_db/work_with_db.c:220-323 | Executing one rendered statement on its own is that one update of the table. |
| WorkWithDb.Database.GetValue | work_with_db/work_with_db.c:168-218 | The database's answer to the SELECT text is the value stored at the key, an empty one counting as absent; the length check never fails. |
| WorkWithDb.Database.SetValue | work_with_db/work_with_db.c:220-247 | The table updated at the key; the statement has exactly the computed length. |
| WorkWithDb.Database.DelValue | work_with_db/work_with_db.c:251-323 | The answer to the existence query decides, as whether the key was stored; the table ends without it. |
| WorkWithDb.Transaction.InitTransaction | work_with_db/work_with_db.c:24-36 | A buffer of the size total, the frame and one byte, holding `BEGIN;`. |
| WorkWithDb.Transaction.AddText | work_with_db/work_with_db.c:52-64 | The statement is appended if and only if it has the size computed for it; otherwise the transaction is freed. |
| WorkWithDb.Transaction.DoTransaction | work_with_db/work_with_db.c:117-134 | With `COMMIT;` the text ends exactly one byte before the end of the buffer, and the whole text is executed. |
| SendReqPostgres.Proxy.AddNodes | send_req_postgres/send_req_postgres.c:173-182 | The replay loop never fails and never leaves the buffer; it builds `BEGIN;` and all statements in log order, leaving room for `COMMIT;` and one byte. |
| SendReqPostgres.Proxy.SyncWithDb | send_req_postgres/send_req_postgres.c:157-192 | The synchronization succeeds, the database ends as the log replayed over it, the log is empty and its nodes are kept. |
| SendReqPostgres.Proxy.AddLog | logger/logger.c:35-103 | The operation is logged, with the forced synchronization at 10000. |
| SendReqPostgres.Proxy.ReqGet | send_req_postgres/send_req_postgres.c:17-62 | Result, value and whole new state are those of the state machine's GET. |
| SendReqPostgres.Proxy.ReqSet | send_req_postgres/send_req_postgres.c:68-100 | Result and whole new state are those of the state machine's SET. |
| SendReqPostgres.Proxy.ReqDel | send_req_postgres/send_req_postgres.c:106-153 | Result and whole new state are those of the state machine's DEL. |
| SendReqPostgres.Proxy.OnTimerTimeout | redis_proxy.c:44-48 | The timer synchronizes. |
| Decimal.PrintReadsBack | work_with_socket/work_with_socket.c:80-98 | Accumulating the digits of a printed number gives the number. |
| Decimal.PrintIs | postgres_reqv_converter/postgres_reqv_converter.c:44 | A number is printed digit by digit in base ten with the characters 0 to 9. |
| Decimal.PrintedIntFits | postgres_reqv_converter/postgres_reqv_converter.c:35-44 | A printed int has at most 10 digits; `ProcessDel` and `CreateStr` print into their 20-byte buffers on its strength. |
| Resp.CreateReqIsEncode | t/003-load_test_.go:52-59 | The repository's printer and the protocol's array of bulk strings, each written with characters, are the same bytes. |
| Resp.ReadStreamOf | t/003-load_test_.go:52-59 | Reading printed commands, any payload bytes, noise without `*` between them, gives exactly those commands. |
| Resp.ReadStreamPrefix | work_with_socket/work_with_socket.c:62-69 | Every prefix of a well-formed stream is well formed and holds the stream's first commands. |
| ParserMachine.FeedReadsStream | work_with_socket/work_with_socket.c:70-177 | On every well-formed stream, complete or cut anywhere, the machine emits exactly the commands the one-shot reader finds and never leaves its domain. |
| ParserMachine.ChunksDoNotMatter | work_with_socket/work_with_socket.c:170-175 | On bytes that keep the parser in its domain, the commands emitted and the state left do not depend on how the stream is cut. |
| ParserMachine.RoundTrip | work_with_socket/work_with_socket.c:70-177 | Printing commands and feeding the bytes in any pieces gives exactly the commands back and leaves the parser ready. |
| ParserMachine.StepKeepsInv | work_with_socket/work_with_socket.c:135-158 | After any byte: counts and lengths are C ints, the payload index stays below the size while reading, the argument index below the count. |
| ParserMachine.FeedKeepsInv | work_with_socket/work_with_socket.c:70-177 | The same over any bytes in any pieces; every command completed has at least one argument and no empty one. |
| ParserMachine.StepIs | work_with_socket/work_with_socket.c:76-135 | What the parser waits for in each state, by character; any other byte is skipped without a trace. |
| ParserMachine.CompletedIsSupported | work_with_socket/work_with_socket.c:135-168 | Of the commands the parser can complete, the results cover exactly those that are not COMMAND and hold no NUL byte and no argument of 2147483646 bytes. |
| WorkWithSocket.ReadData.TakeByte | work_with_socket/work_with_socket.c:73-168 | The branches taken in place on the fields are the machine's step. |
| WorkWithSocket.ReadData.ParseCliMes | work_with_socket/work_with_socket.c:70-177 | Bytes are used up once, in order, to the end of a command or of the buffer; the rest stays pending in order. |
| WorkWithSocket.ReadData.ReplacePartOfBuffer | work_with_socket/work_with_socket.c:181-186 | The bytes after the index move to the front unchanged. |
| WorkWithSocket.ReadData.NextCommand | redis_proxy.c:104-120 | One round of the loop splits off exactly the next command and uses up at least one byte. |
| WorkWithSocket.FeedIsParse | redis_proxy.c:104-145 | Parsing command by command is feeding all the bytes. |
| RedisProxy.Connection.OnReadCb | redis_proxy.c:81-153 | A chunk's commands run in order, their frames are appended in order to the old answer, and no byte is left in the buffer. |
| RedisProxy.Connection.ServeCommand | redis_proxy.c:121-129 | One command: new state and framed reply are those of the functional model. |
| RedisProxy.Connection.OnWriteCb | redis_proxy.c:54-72 | A complete write hands over the waiting bytes and empties the answer; a failed one changes nothing; a partial one leaves what the code's copy leaves. |
| RedisProxy.PartialWriteKeepsOrderIff | redis_proxy.c:68-71 | After a partial write the bytes left are those not written if and only if the last bytes of the answer, as many as were written, repeat the ones before them. |
| RedisProxy.PartialWriteExample | redis_proxy.c:68-71 | A concrete case: with two of the bytes 1 to 6 written, what is left is 3, 4, 3, 4. |
| RedisProxy.ResultAfterCommand | redis_proxy.c:121-144 | Running and answering the first command of the pending bytes leaves the outcome of the whole callback unchanged. |
| RedisReqvConverter.ToBigCase | redis_reqv_converter/redis_reqv_converter.c:176-182 | The string in place becomes its upper-case form. |
| RedisReqvConverter.ProcessRedisToPostgres | redis_reqv_converter/redis_reqv_converter.c:188-234 | The call selected, the whole new state and the tagged reply are those of the functional model. |
| RedisReqvConverter.ProcessGet | redis_reqv_converter/redis_reqv_converter.c:20-53 | The buffer holds the byte 3, the value and a terminator, or the byte 3 alone when the key is absent. |
| RedisReqvConverter.ProcessSet | redis_reqv_converter/redis_reqv_converter.c:56-76 | The tagged status OK. |
| RedisReqvConverter.ProcessDel | redis_reqv_converter/redis_reqv_converter.c:78-117 | All listed keys are deleted one after another and the successes are counted and printed. |
| RedisReqvConverter.ProcessPing | redis_reqv_converter/redis_reqv_converter.c:119-130 | The tagged status PONG. |
| RedisReqvConverter.ProcessError | redis_reqv_converter/redis_reqv_converter.c:139-172 | The tagged message at the front of a larger buffer. |
| PostgresReqvConverter.DefineTypeReq | postgres_reqv_converter/postgres_reqv_converter.c:126-144 | The frame of whatever reply the tagged buffer holds. |
| PostgresReqvConverter.CreateSimplStr | postgres_reqv_converter/postgres_reqv_converter.c:12-27 | The status frame, byte for byte. |
| PostgresReqvConverter.PrintSize | postgres_reqv_converter/postgres_reqv_converter.c:35-49 | The length, or -1 for an absent value, fits the 20-byte buffer it is printed into. |
| PostgresReqvConverter.CreateStr | postgres_reqv_converter/postgres_reqv_converter.c:31-69 | The bulk frame with the right length, or the nil frame. |
| PostgresReqvConverter.CreateInt | postgres_reqv_converter/postgres_reqv_converter.c:73-88 | The integer frame, byte for byte. |
| PostgresReqvConverter.CreateErr | postgres_reqv_converter/postgres_reqv_converter.c:100-116 | The error frame, although one byte too many is copied first. |
| Replies.FramesReadBack | postgres_reqv_converter/postgres_reqv_converter.c:12-144 | Concatenated frames decode uniquely to the replies they were made of. |
| Replies.FrameIs | postgres_reqv_converter/postgres_reqv_converter.c:12-116 | The bytes of every frame, character by character. |

## Left out

- WorkWithDb.Database.SetValue: the sizes of direct statements are not wrapped at the width of a C int, which only arguments of gigabytes would reach; the sizes inside a transaction are proved to fit.
- WorkWithDb.Database.GetValue: excludes a key with a quote; the SELECT then fails and stops the process, or asks for another key, as `Sql.QueryReadsBackIff` shows.
- WorkWithDb.Database.DelValue: excludes a key with a quote, as above.
- SendReqPostgres.Proxy.ReqSet: excludes an argument with a quote that reaches a statement; the statement then fails and stops the process, or stores another value, as `Sql.ReadsRendered` shows.
- SendReqPostgres.Proxy.AddLog: excludes arguments with a quote, which reach a statement at the next synchronization.
- SendReqPostgres.Proxy.ReqGet: excludes a key with a quote where it reaches a SELECT.
- SendReqPostgres.Proxy.ReqDel: excludes a key with a quote where it reaches a statement.
- RedisReqvConverter.ProcessGet: excludes what `ReqGet` excludes.
- RedisReqvConverter.ProcessSet: excludes what `ReqSet` excludes.
- RedisReqvConverter.ProcessDel: excludes what `ReqDel` excludes, for each of its keys.
- RedisProxy.Connection.ServeCommand: excludes COMMAND and what the requests exclude.
- RedisProxy.Connection.OnReadCb: excludes chunks that complete such a command or take the parser out of its domain.
- RedisProxy.PartialWriteKeepsOrderIff: is about writes of at most half of the answer, for the reason given for `OnWriteCb` below.
- RedisProxy.Connection.OnWriteCb: a write of more than half of the answer but not all of it makes the code copy a negative number of bytes, which is not modelled; a smaller one copies between overlapping ranges, modelled as a copy that reads before it writes. The whole-system results and `EventLoop` are about complete writes.
- ParserMachine.StepKeepsInv: counts and lengths that are not positive, or do not fit a C int, end in the state `Fault`, after which nothing is modelled; a stream that reaches it is not well formed.
- ParserMachine.FeedKeepsInv: says nothing after `Fault` either.
- ParserMachine.ChunksDoNotMatter: says nothing about the code once the parser is in `Fault`; what the code does then can depend on the cuts.
- WorkWithSocket.ReadData.TakeByte: excludes the byte that ends a count or length that is not positive or does not fit, where the code goes on with an allocation of no or a wrong size.
- WorkWithSocket.ReadData.ParseCliMes: excludes the same bytes.
- WorkWithSocket.ReadData.NextCommand: excludes the same bytes.
- RedisReqvConverter.ProcessRedisToPostgres: excludes the COMMAND command, which returns without a reply.
- Sockets, libev watchers, closing of connections, worker registration and signals: input and output; a read is a chunk of 1 to 200 bytes, and which events come, in which order, is any sequence that can happen (`EventLoop.RunCanHappen`).
- libpq, hstore and the PostgreSQL hash table implementation: maps, with the semantics the statements rely on; the hash table may keep any bytes in a new record beyond the key.
- Failures of memory allocation, of the connection or of a statement: they stop the process, and no recovery is modelled.
- Several databases: no command changes the current table.
- Configuration, table creation, startup, shutdown and the freeing of memory.
- The read buffer and the transaction are arrays; the growing argument list, the payload being read, the answer, and the bytes inside a node or a record are sequences that the methods reassign, so aliasing between them is not modelled.
