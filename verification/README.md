# JetGraph client: verified models

Dafny models of the parts of the JetGraph client repository whose correctness needs an
argument: the credit-controlled ingest stream and its reconnect loop, the lexical guard in
front of Cypher queries, work sharing by an atomic counter, the CSV batching pipeline,
cursor paging through a filter, the growth-test accounts, and two printers.
`dafny verify dfyconfig.toml` checks everything.

## How the models are built

- **Streams** (`IngestProtocol`, `IngestStream`, `HotNode`, `Reconnect`). One session is a
  state machine over atomic steps of the sender, the server and the drain task, which
  interleave freely. The class `Stream` holds the same state in fields; each method performs
  steps of the machine, `Interfere` runs any number of steps of the others, and `Valid()`
  says that the fields are a reachable state. The environment assumption is the documented
  one: the server answers each request once, in request order. `acquire` that is not granted
  models a sender that is still waiting. Elapsed time is a number of deadline checks that
  still find time left.
- **Guard** (`GuardText`, `Guard`, `GuardTheorems`, `GuardCase`, `GuardTokens`, `GuardShapes`,
  `GuardBytes`). Text is a sequence of Unicode scalar values with the concrete White_Space and UTF-8
  definitions. Positions count characters; `GuardBytes` proves that the program's scans over
  bytes, and the slices it takes at a match, decide the same. The scanning loops are methods,
  proved against functions and predicates that look at every position; the theorems are about
  those.
- **Tickets** (`Tickets`, `LoadTest`, `Growth`). Which worker takes the next atomic step is
  chosen freely; `owner` records who got each ticket. A worker whose request fails keeps its
  last ticket unfinished.
- **CSV** (`CsvRequest`, `CsvIngest`, `CsvWorkers`, `CsvPipeline`). The meaning of a request is
  the sequence of relations its edges state once their keys are resolved. The reading loop is a method
  over the records; the workers behind the channel are a state machine, including the early
  return on a read error, after which the runtime may drop any worker at any point.
- **Paging** is over a fixed list of edges in ascending id order with positive ids, which is
  what a cursor of "the id after which to resume, 0 = start" presupposes.
- What the network and the server answer is a parameter: a function from the number of the
  attempt, ticket, card or user to the outcome. The order in which tasks run is chosen freely
  (`*` or `:|`). Reals stand for `f32`/`f64`.

## What the proofs found

- `prepare_cypher` is idempotent on an output exactly when that output still fits 8000
  bytes. A statement of 7991 to 8000 bytes without a LIMIT is accepted, grows by ten bytes,
  and is refused when sent again (`GuardCase.RefusedTheSecondTime`). Stored signal queries,
  limited to 4000 bytes, are clear of this.
- After a failure to open a stream the wait is always the base delay, because the connect just
  before it has reset the backoff. The doubling at that point shows only if the next connect
  fails, whose wait then starts at twice the base.
- Transaction ids repeat across the rounds of phase 3, because every round restarts the
  numbering. They are distinct within a round.
- The barrier of phase 9 waits for every response, yet the edge counter read after it can
  lack the last one, at every pipeline depth. A band's count is off by at most one response at
  either end, and edges counted between the readings of two bands are in neither count.
- `prepare_cypher` reads the leading digits after a LIMIT, whatever follows them: `limit 5e9`
  passes as 5. The digits are the whole token exactly when the next character is neither an
  identifier character nor a dot (`GuardTokens.WholeLimitsExactly`).
- The pairs of the load test repeat with period `n` only up to wrap-arounds of the 64-bit
  product, and the destinations of `n` consecutive requests are a permutation exactly when
  31 does not divide `n`.
- Walking `list_segment_members` by `next_cursor` gets stuck exactly when some run of `limit`
  edges that are filtered out has an edge after it, and it misses a member exactly when one
  stands behind such a run. The neighbour walk never does.
- The CSV program can end normally, with nothing in flight and `ack + err` equal to `sent`,
  while queued batches were never taken: a worker leaves on a failed send or when its stream
  cannot be opened, and nobody takes its place. At the end every queued batch was handed to a
  stream exactly when some worker opened its stream and no send failed, unless nothing was
  queued (`CsvWorkers.DoneExactly`, `CsvWorkers.FailedSendCanStrandBatches`). Only then do the
  acknowledged requests state what the file states (`CsvPipeline.PipelineDelivers`).
- Once all workers have left, at most the channel's depth of batches can still be queued; the
  reading loop waits for ever in the send of the next one, because `main` keeps the receiver
  alive (`CsvWorkers.NobodyDrains`).
- After a CSV read error the rows collected since the last full batch never reach the channel.
  The program also returns without draining, so batches in the channel, in a worker's hand or
  in flight may be lost as well (`CsvWorkers.AbortCanLoseQueuedBatch`).
- Requests acknowledged or failed can outnumber those sent once a response stream reports an
  error; the exact condition is in `CsvWorkers.EveryRequestAccounted`.
- The comment in `scale_growth_test.rs` (495-498) says the user cursor reflects the users that
  were sent. It does exactly as long as every chunk had a working stream and no worker of it
  left on a send error.
- The comment on `ROWS_PER_REQUEST` speaks of 100 rows; the constant is 150, which also fits.

## Model

| member | source | states |
|---|---|---|
| IngestProtocol.SenderStepKeepsInv | examples/stress_test.rs:1704-1741 | Acquiring, enqueueing, forgetting, failing to send, taking a permit for the barrier and restoring keep permits conserved, messages in order and edges accounted for |
| IngestProtocol.ServeKeepsInv | proto/graph.proto:20-24 | One answer per request, in request order, keeps the session invariant |
| IngestProtocol.DrainReplyKeepsInv | examples/stress_test.rs:1661-1670 | Giving a permit back before counting the edges keeps the session invariant |
| IngestProtocol.EnvironmentStepKeepsInv | examples/stress_test.rs:1661-1670 | Every step of the server and of the drain task keeps the session invariant |
| IngestProtocol.PathKeepsInv | examples/stress_test.rs:1653-1744 | The invariant holds in every state of every interleaving |
| IngestProtocol.EveryReachableState | examples/stress_test.rs:1653-1744 | Available + held + in flight + taken by the barrier is always the pipeline depth; at most that many messages are in flight; answers are a prefix of the sends; the edge counter plus what the drain task has not counted yet is the edges of all drained responses, so it lacks at most the last |
| IngestProtocol.CompletedBarrierIsQuiet | examples/stress_test.rs:1733-1741 | Once the barrier holds all permits nothing is in flight and everything sent has been drained; the edge counter is complete exactly when the drain task holds no uncounted edges |
| IngestProtocol.BarrierCanMissLastResponse | examples/stress_test.rs:1653-1744 | At every pipeline depth and for every response: a reachable state in which the barrier has completed and the edge counter still lacks that response |
| IngestStream.Stream.constructor | examples/stress_test.rs:1653-1659 | A fresh stream is the initial state with all permits available |
| IngestStream.Stream.Interfere | examples/stress_test.rs:1661-1670 | Whatever server and drain task do, the state stays reachable, and permits, edge counter and answers only grow |
| IngestStream.Stream.Acquire | examples/stress_test.rs:782-785 | Granted: the sender holds one permit; otherwise none was free and it still waits |
| IngestStream.Stream.Send | examples/stress_test.rs:803-821 | Success appends exactly one message, failure none and the permit is back; the state stays reachable |
| IngestStream.Stream.TakeForBarrier | examples/stress_test.rs:1735-1738 | One more permit belongs to the barrier |
| IngestStream.Stream.RestoreBarrier | examples/stress_test.rs:1741 | All permits of a completed barrier are added back at once |
| IngestStream.Stream.Close | examples/stress_test.rs:824-825 | After the drain task ended the counters equal what was drained, and at most the pipeline depth of messages stays unanswered |
| HotNode.SendBand | examples/stress_test.rs:1703-1731 | The band's cards are enqueued once each in increasing order; the band breaks exactly when the stream refuses one of its cards, and the sender gives up early only while no permit is free |
| HotNode.Barrier | examples/stress_test.rs:1733-1741 | On completion all permits are back and everything sent has been answered; otherwise no permit is free |
| HotNode.RunBand | examples/stress_test.rs:1699-1744 | The reported count is the growth of the edge counter between the two readings of the band, each of which lacks at most the last response before it; unless the stream broke exactly the band's cards were sent |
| HotNode.RunBands | examples/stress_test.rs:1653-1758 | Over the whole phase the cards sent are strictly increasing; a completed run sent 0..19999 once each, with the bands ending at 5000, 10000 and 20000, exactly when the stream accepts every card; the bands cover the responses without a gap, while a late count may fall between the readings of two bands |
| HotNode.OneMoreBand | examples/stress_test.rs:1699-1744 | A band measured between two quiet points extends the measured bands, which stay chained end to start |
| HotNode.GapIsLastResponse | examples/stress_test.rs:1699-1744 | Between the readings of two bands the counter grows by nothing or by the last response before them, which neither band then counts |
| HotNode.BandWithinOneResponse | examples/stress_test.rs:1743-1744 | A band's count differs from the edges of its own responses by at most the last response of this band and of the one before |
| HotNode.RequestChannelNeverFull | src/graph.rs:381 | With pipeline depth 128 the 1024-deep request channel never fills |
| Reconnect.BackoffDoubles | examples/stress_test.rs:717-740 | Doubling with the cap steps from base * 2^k to base * 2^(k+1), both capped |
| Reconnect.BackoffSchedule | examples/stress_test.rs:710-739 | Phase 3 waits 100 * 2^k ms for k < 6 and 5000 ms from then on; phase 8 waits 50 * 2^k and 2000 ms |
| Reconnect.OneMoreEvent | examples/stress_test.rs:712-740 | Every wait equals the capped base * 2^k for k failures since the last connect, after each event of a run |
| Reconnect.RunSession | examples/stress_test.rs:777-825 | The stream of a session holds the next numbers without gap or repetition and the ids are those they were sent under; it ends at the deadline only when the time is used up, breaks only on a refused send, waits only without a free permit, and every message and failed send uses one tick; at most the pipeline depth stays unanswered |
| Reconnect.RunWorker | examples/stress_test.rs:706-836 | Over any number of drops and reconnects the streams together hold the numbers 0..total_seq-1 once each and in order, sent under their ids; the worker goes on until its ticks are used up, one for each failed connect, failed open, session, message and broken stream; the failures are those of the attempts made; every wait is as promised (open failures always the base); unanswered messages are bounded per session |
| Reconnect.TxIdSpelled | examples/stress_test.rs:790 | The ids of phases 3 and 8 are `s{w}-{n}` and `p8w{w}-{n}` |
| Reconnect.CardsCycle | examples/stress_test.rs:788-789 | A worker goes round 10000 cards and 50000 merchants of its own block |
| Reconnect.TxIdInjective | examples/stress_test.rs:790 | A transaction id determines worker and sequence number |
| Reconnect.RoundIdsDistinct | examples/stress_test.rs:698-836 | Within a round no two transactions of any workers share an id |
| Reconnect.RoundsShareIds | examples/stress_test.rs:687-708 | Two rounds reuse an id exactly when some worker enqueued in both |
| Reconnect.WorkersDisjoint | examples/stress_test.rs:772-789 | Different workers never name the same card or merchant |
| GuardText.SkipLosesNothing | jetgraph-mcp/src/guard.rs:151-163 | Skipping a whole word length after a match loses no standalone occurrence, even of self-overlapping words |
| Guard.ContainsWord | jetgraph-mcp/src/guard.rs:148-165 | True exactly when the word occurs with no identifier character on either side; the scan terminates |
| Guard.FirstWord | jetgraph-mcp/src/guard.rs:73-83 | No word is reported exactly when none of the list stands alone; a reported one does |
| Guard.RejectWrites | jetgraph-mcp/src/guard.rs:73-83 | Refuses with the first write word of the list that stands alone, in any letter case |
| Guard.RejectNonGraphCalls | jetgraph-mcp/src/guard.rs:85-106 | Refuses exactly when some whole-word CALL is not followed by `graph.` |
| Guard.CapLimit | jetgraph-mcp/src/guard.rs:108-141 | Reports the fault of the first bad whole-word LIMIT in the text; otherwise appends the default exactly when there is no LIMIT |
| Guard.ScanStep | jetgraph-mcp/src/guard.rs:112-135 | After each match of the LIMIT scan, everything before the next start position has been checked |
| Guard.PrepareCypher | jetgraph-mcp/src/guard.rs:9-15 | The loops together compute the verdict that the theorems below are about |
| Guard.ValidateSignalQuery | jetgraph-mcp/src/guard.rs:18-32 | The checks together compute the verdict that the theorems below are about |
| GuardTheorems.AcceptedExactly | jetgraph-mcp/src/guard.rs:9-15 | A query is accepted if and only if its trimmed single statement is non-empty, within 8000 bytes, without `;`, write words, foreign CALLs and bad LIMITs (bad: the leading digits after it are missing or not in 1..100); the output is the statement or the statement plus ` LIMIT 100` |
| GuardShapes.StatementParts | jetgraph-mcp/src/guard.rs:58-63 | Every query is white space, the statement, white space, one semicolon exactly when its last visible character is one, and white space; nothing else is taken away |
| GuardShapes.PreparedIgnoresFrame | jetgraph-mcp/src/guard.rs:9-71 | Surrounding white space and a final semicolon change neither verdict nor output |
| GuardShapes.WhiteSpaceExactly | jetgraph-mcp/src/guard.rs:59-60 | The characters trimmed are the 25 of the Unicode property White_Space |
| GuardShapes.IdentifierExactly | jetgraph-mcp/src/guard.rs:167-169 | The identifier characters are the ASCII letters, the digits and the underscore |
| GuardShapes.LowerExactly | jetgraph-mcp/src/guard.rs:74 | Lower-casing maps each capital letter to its small one and nothing else |
| GuardShapes.CallsGraphExactly | jetgraph-mcp/src/guard.rs:95-96 | A CALL passes exactly when white space, if any, and then `graph.` follow it |
| GuardShapes.NumberInOf | jetgraph-mcp/src/guard.rs:119-126 | The number of a LIMIT is that of the digits between white space and the first other character; without digits there is none |
| GuardShapes.NoWritesExactly | jetgraph-mcp/src/guard.rs:4-6 | The nine write words, one by one |
| GuardShapes.RefusalOrder | jetgraph-mcp/src/guard.rs:9-141 | Each refusal is given exactly when its check is the first to fail |
| GuardShapes.SignalRefusalOrder | jetgraph-mcp/src/guard.rs:18-32 | The same for signal queries, including both length limits |
| GuardTheorems.RefusalExplained | jetgraph-mcp/src/guard.rs:58-141 | Every refusal names a defect the statement has; for LIMIT it is the defect of the first bad one |
| GuardTheorems.LimitsAreOk | jetgraph-mcp/src/guard.rs:117-130 | No LIMIT has a fault exactly when each is followed by leading digits that are a number in 1..100 |
| GuardTheorems.SuffixAddsNoWord | jetgraph-mcp/src/guard.rs:136-140 | Appending ` LIMIT 100` neither creates nor destroys a standalone word other than LIMIT and 100 |
| GuardTheorems.SuffixKeepsGraphCalls | jetgraph-mcp/src/guard.rs:136-140 | Appending the suffix leaves every CALL followed by `graph.` |
| GuardTheorems.OutputIsReadOnlyAndCapped | jetgraph-mcp/src/guard.rs:9-15 | The accepted text itself is trimmed, has no `;` and no write word, only graph CALLs, at least one LIMIT, leading digits in 1..100 after each LIMIT, and is at most 8010 bytes |
| GuardTheorems.PreparedTwice | jetgraph-mcp/src/guard.rs:9-15 | Preparing an output again returns it unchanged when it fits 8000 bytes and refuses it as too long otherwise |
| GuardTheorems.SentUnchangedExactly | jetgraph-mcp/src/guard.rs:9-15 | The queries sent as they are: exactly those within 8000 bytes that meet all conditions of an output |
| GuardTokens.DigitsAreTokenExactly | jetgraph-mcp/src/guard.rs:119-120 | The leading digits are the whole token exactly when the next character is neither an identifier character nor a dot |
| GuardTokens.WholeLimitsExactly | jetgraph-mcp/src/guard.rs:117-129 | In an accepted query every LIMIT shows a number in range as a whole token exactly when its digits end their token |
| GuardTokens.LimitPrefixAccepted | jetgraph-mcp/src/guard.rs:119-129 | `limit 5e9` is accepted and sent unchanged: only the digit 5 is read |
| GuardCase.CaseInsensitive | jetgraph-mcp/src/guard.rs:58-141 | A query and its lower-case form get the same refusal, or outputs equal after lower-casing |
| GuardCase.SignalAcceptedExactly | jetgraph-mcp/src/guard.rs:18-32 | A signal query passes if and only if it binds `$node`, has the word value and meets the lexical conditions within 4000 bytes |
| GuardCase.SignalQueryOnlyNeedsLimits | jetgraph-mcp/src/guard.rs:9-32 | A stored signal query is accepted by `prepare_cypher` exactly when the leading digits after each of its LIMITs are in range |
| GuardCase.SignalQueryPreparesStably | jetgraph-mcp/src/guard.rs:9-32 | For stored signal queries `prepare_cypher` is idempotent without exception |
| GuardCase.RefusedTheSecondTime | jetgraph-mcp/src/guard.rs:58-71 | A concrete query whose output is refused when prepared again |
| GuardBytes.ByteMatchIsCharMatch | jetgraph-mcp/src/guard.rs:151-155 | A word of identifier characters found at a byte offset stands at a character boundary |
| GuardBytes.StandaloneSameAt | jetgraph-mcp/src/guard.rs:153-155 | Word boundaries judged on bytes and on characters agree at every match |
| GuardBytes.ByteScanAgrees | jetgraph-mcp/src/guard.rs:148-169 | A standalone word exists in the bytes exactly when it exists in the characters |
| GuardBytes.OffsetLower | jetgraph-mcp/src/guard.rs:109-119 | A byte offset found in the lower-cased text is the offset of the same character in the text itself, so slicing the query there is sound |
| GuardBytes.CallScanAgrees | jetgraph-mcp/src/guard.rs:85-106 | The CALL scan over bytes, with the slice taken after each match, decides what the one over characters decides |
| GuardBytes.FaultSameAt | jetgraph-mcp/src/guard.rs:115-129 | The query sliced at the byte after a LIMIT found in the lower-cased text shows the same fault as at the character |
| GuardBytes.LimitScanAgrees | jetgraph-mcp/src/guard.rs:108-135 | The LIMIT scan over bytes meets the same first bad LIMIT as the one over characters, and none exactly when that one meets none |
| Tickets.TicketKeepsInv | examples/grpc_load_test.rs:323-327 | Taking an index keeps the pool invariant |
| Tickets.StopKeepsInv | examples/grpc_load_test.rs:324-327 | Seeing an index past the end keeps it: the counter's overshoot is the number of stopped workers |
| Tickets.FinishKeepsInv | examples/grpc_load_test.rs:328-332 | Finishing the ticket in hand keeps it |
| Tickets.QuitKeepsInv | examples/grpc_load_test.rs:330-331 | Leaving on an error with a ticket in hand keeps it |
| Tickets.RunWorkers | examples/grpc_load_test.rs:313-335 | For every interleaving each worker finished its tickets in order with the answers they got; a worker leaves exactly on a ticket that gets none; the counter ends at the end plus the workers that stopped |
| Tickets.TicketsOfExactly | examples/grpc_load_test.rs:324 | A worker holds exactly the indices whose `fetch_add` it performed |
| Tickets.EachIndexOnce | examples/grpc_load_test.rs:554-600 | Every dealt index is processed by exactly one worker and once, unless its worker failed on it |
| Tickets.AllDealt | examples/grpc_load_test.rs:554-600 | The shares of all workers add up to the indices dealt |
| Tickets.AllFinishedExactly | examples/scale_growth_test.rs:540-600 | The whole range was processed exactly when there was a worker and none failed |
| Tickets.LostExactly | examples/grpc_load_test.rs:330-335 | Some worker leaves exactly when there is a worker and a ticket of the range fails |
| LoadTest.Tally | examples/grpc_load_test.rs:629-652 | A worker's statistics describe its own requests: ok, errors, misses and latencies |
| LoadTest.CountExactly | examples/grpc_load_test.rs:637-650 | The count of an outcome is the number of places with that outcome |
| LoadTest.DealtHitsExactly | examples/grpc_load_test.rs:621-663 | Over all workers and for every split of the tickets, an outcome is counted once for each request that had it |
| LoadTest.RunLoad | examples/grpc_load_test.rs:612-673 | In every interleaving the merged ok, err and miss are the numbers of requests below N that did not fail, failed, and missed in a query load; latencies are those of the finished requests; the counter ends at N + workers |
| LoadTest.FillSlots | examples/grpc_load_test.rs:342-345 | Each result is stored at its own index and no other slot changes |
| LoadTest.PrepareWorkload | examples/grpc_load_test.rs:306-383 | Succeeds exactly when every index got its nodes; then slot t holds the ids created for index t |
| Pairs.PeriodicExactly | examples/grpc_load_test.rs:300-304 | A request uses the pair of its index modulo n exactly when n divides 2^64 times the difference in wrap-arounds |
| Pairs.SrcExactly | examples/grpc_load_test.rs:301 | The source is the request's own index, counted round n |
| Pairs.PeriodicWithoutWrap | examples/grpc_load_test.rs:300-304 | Without wrap-around the pairs repeat with period n |
| Pairs.WrapBreaksThePeriod | examples/grpc_load_test.rs:302 | A request index whose product wraps and that leaves the period |
| Pairs.SeedEdges | examples/grpc_load_test.rs:435-467 | Without a failed upsert the seeded pairs are those of requests 0..min(n, 20000); the first failed one ends the seeding |
| Pairs.HitsSeededExactly | examples/grpc_load_test.rs:435-467 | A query meets a seeded edge exactly when its source index was seeded; always when n is at most 20000 |
| Pairs.DestinationsPermutedExactly | examples/grpc_load_test.rs:300-304 | Over n consecutive requests that do not wrap, no destination repeats, and all are reached, if and only if 31 does not divide n |
| XorShift.StepInvertible | examples/grpc_load_test.rs:760-767 | The step is a bijection on 64-bit states, with the explicit inverse |
| XorShift.StepWords | examples/grpc_load_test.rs:760-766 | The step shifts left by 13, right by 7 and left by 17 |
| XorShift.ZeroOnlyFromZero | examples/grpc_load_test.rs:760-767 | Only zero steps to zero |
| XorShift.SeedsStayApart | examples/grpc_load_test.rs:754-767 | Generators are in the same state after equally many steps exactly when their seeds are equal; one is stuck at zero exactly when its seed is the mask |
| XorShift.XorShift64.NextU64 | examples/grpc_load_test.rs:760-767 | Returns the new state, from which the old one can be recovered |
| CsvRequest.BuildBatch | examples/csv_ingest.rs:244-341 | The loop's nodes and edges are those of the rows that have a location, in order |
| CsvRequest.KeyInjective | examples/csv_ingest.rs:255-301 | A node key determines its kind and row |
| CsvRequest.LookupInBatch | examples/csv_ingest.rs:269-301 | Every key finds the node of its own row, with its type, external id and location |
| CsvRequest.KeysDistinct | examples/csv_ingest.rs:255-301 | No two nodes of a request share a key |
| CsvRequest.BatchMeaning | examples/csv_ingest.rs:303-337 | Every edge resolves within the request, to the relation between the row's own entities with the expected node types |
| CsvRequest.BatchingKeepsMeaning | examples/csv_ingest.rs:244-341 | One request for many rows states exactly what one request per row states |
| CsvRequest.WithinLimits | examples/csv_ingest.rs:51-54 | 150 rows stay within 1024 nodes and 4096 edges |
| CsvIngest.FirstWithIp | examples/csv_ingest.rs:494-506 | The row whose location is cached for an address is the first with that address |
| CsvIngest.CacheStep | examples/csv_ingest.rs:494-506 | A lookup with insertion keeps the cache exact and returns the location of the first row with that address |
| CsvIngest.RowCollected | examples/csv_ingest.rs:508-529 | One more row keeps the loop's state: the open batch is the rows and locations since the last full batch, aligned |
| CsvIngest.Ingest | examples/csv_ingest.rs:459-566 | The queued tasks are those of the first min(limit, total) rows; on a read error only the full batches before it are queued |
| CsvIngest.RowsReadExactly | examples/csv_ingest.rs:481-492 | The rows read are the records up to the limit, in order; the reading fails exactly when an unreadable record comes before it |
| CsvIngest.TaskAt | examples/csv_ingest.rs:513-566 | The k-th task packs the k-th stretch of 150 rows with its locations, under the id of its last row |
| CsvIngest.BatchSizes | examples/csv_ingest.rs:513-566 | No batch is empty, all but the last have 150 rows, counts are 6 per row and within the engine's limits |
| CsvIngest.QueueMeaning | examples/csv_ingest.rs:481-566 | The queued requests together state what the rows of the file state, in order |
| CsvIngest.ReadErrorLosesOpenBatch | examples/csv_ingest.rs:486-492 | After a read error exactly the rows since the last full batch never reach the channel |
| CsvIngest.LocationInTask | examples/csv_ingest.rs:494-529 | Across flushes, each row's IP node carries the location of the first row in the file with that address |
| CsvIngest.CoordinatesInTask | examples/csv_ingest.rs:494-529 | Latitude and longitude under a row's IP key are those of the first row of the file with the same address |
| CsvIngest.TaskIdsDistinct | examples/csv_ingest.rs:513-566 | No two requests of a run carry the same transaction id |
| CsvIngest.TaskIdSpelled | examples/csv_ingest.rs:518-566 | A full batch is named after its last row, the rest after the number of rows with the suffix `-final` |
| CsvWorkers.WorkerStepKeepsInv | examples/csv_ingest.rs:421-450 | Every worker step keeps requests accounted for |
| CsvWorkers.RunKeepsInv | examples/csv_ingest.rs:363-455 | The accounts hold in every state of every interleaving |
| CsvWorkers.EveryRequestAccounted | examples/csv_ingest.rs:195-214 | ack + err stays within sent exactly while stream errors do not outnumber the open requests, always when there are none; at most the channel depth of batches waits |
| CsvWorkers.EachBatchOnce | examples/csv_ingest.rs:421-430 | Each batch received went to exactly one worker, in channel order; these are all queued batches once some worker has found the channel closed and empty |
| CsvWorkers.EveryBatchSomewhere | examples/csv_ingest.rs:421-450 | In every state, aborted or not, a queued batch is still in the channel, in the hand of the one worker that took it, or with a stream |
| CsvWorkers.AnsweredExactly | examples/csv_ingest.rs:388-450 | In every state, aborted or not, all queued batches are acknowledged exactly when all were handed to a stream and nothing is in flight |
| CsvWorkers.DoneExactly | examples/csv_ingest.rs:375-456 | Once all workers are done, every queued batch was handed to a stream exactly when some worker opened its stream and no send failed, or nothing was queued |
| CsvWorkers.QuietEnd | examples/csv_ingest.rs:571-593 | When the workers are done, all is answered and no stream reported an error, every batch taken is acknowledged or counted as an error, and all queued batches are acknowledged exactly when some worker opened its stream and no send failed, or nothing was queued |
| CsvWorkers.NobodyDrains | examples/csv_ingest.rs:375-450 | Once all workers have left nothing is taken any more, and at most the channel's depth can still be queued |
| CsvPipeline.HandedFactsExactly | examples/csv_ingest.rs:421-450 | The tasks handed to streams state everything the rows state exactly when none of them is missing |
| CsvPipeline.PipelineDelivers | examples/csv_ingest.rs:459-593 | At a quiet end without a read error the acknowledged requests state exactly what the rows of the file state, in order, if and only if some worker opened its stream and no send failed, or there was no row |
| CsvWorkers.StreamErrorCanOvershoot | examples/csv_ingest.rs:413-416 | A run in which an open stream reports an error and ack + err exceeds sent |
| CsvWorkers.OneBatchDelivered | examples/csv_ingest.rs:421-455 | A run that delivers everything and ends by finding the channel closed and empty |
| CsvWorkers.UnopenedStreamsStrandBatches | examples/csv_ingest.rs:376-382 | A run in which no worker gets a stream and a queued batch stays behind |
| CsvWorkers.FailedSendCanStrandBatches | examples/csv_ingest.rs:438-449 | A run that ends normally with balanced counters and a queued batch that no worker took |
| CsvWorkers.AbortCanLoseQueuedBatch | examples/csv_ingest.rs:486-492 | A run in which a read error abandons a full batch already in the channel |
| Paging.GetSegmentMembers | src/segment.rs:368-414 | A page is returned exactly when all its requests succeed: the raw page filtered by positive confidence, in order, with the raw page's has_more, each member reporting an edge of the page |
| Paging.MembersReport | src/segment.rs:401-411 | A member carries the id and the last-seen time of its edge and as confidence the positive sum, or 1 for an edge without one that has transactions; every such edge is reported |
| Paging.ClampExactly | jetgraph-mcp/src/guard.rs:49-56 | A limit is accepted exactly from 1 to the maximum; the default is 25 |
| Paging.FetchExactly | proto/graph.proto:119-120 | A page is a prefix of the edges after the cursor, cut at a limit that is not 0, and has more exactly when something was cut off |
| Paging.MembersInIdOrder | src/segment.rs:387-413 | Members are in strictly ascending id order, have positive confidence, and are exactly the edges that pass the filter |
| Paging.MembersProgress | jetgraph-mcp/src/main.rs:847 | Following next_cursor always leaves fewer edges, so the walk terminates |
| Paging.NextPage | jetgraph-mcp/src/main.rs:840-847 | A page continues after its last member, so edges filtered out behind it are fetched again and none is skipped |
| Paging.MembersWalkExactly | jetgraph-mcp/src/main.rs:829-869 | The walk collects a prefix of the members; it comes to an end exactly when no run of `limit` filtered edges has an edge after it, and returns all members exactly when no member stands behind such a run |
| Paging.WalkCanGetStuck | jetgraph-mcp/src/main.rs:847 | A segment with a member that the walk never reaches |
| Paging.NeighborsProgress | jetgraph-mcp/src/main.rs:404 | Following next_cursor through neighbours always leaves fewer edges |
| Paging.NeighborsWalkComplete | jetgraph-mcp/src/main.rs:385-426 | With any limit that passes `clamp_page` the walk returns every neighbour once, in id order |
| Growth.IngestChunk | examples/scale_growth_test.rs:499-619 | A chunk holds what the server reported; every user of it was sent exactly when some worker had a stream and all sends succeed |
| Growth.ChunkTracked | examples/scale_growth_test.rs:1034-1060 | Adding a chunk keeps all counters equal to what the chunks add up to, and edges_remaining equal to max(0, edge_count - total_edges) |
| Growth.CheckpointReports | examples/scale_growth_test.rs:1074-1109 | A checkpoint reports the totals up to its chunk and the records since the checkpoint before |
| Growth.PassKeepsAccounts | examples/scale_growth_test.rs:1034-1110 | One pass keeps: intervals + open interval = cumulative records, non-final intervals of at least `checkpoint_every`, every checkpoint taken as soon as it is due, nothing open when the loop ends |
| Growth.ChunkSizeExactly | examples/scale_growth_test.rs:1032 | A chunk is a quarter of `checkpoint_every` users, but at least 50000 and at most 500000 |
| Growth.PromptWithout | examples/scale_growth_test.rs:1074-1077 | A chunk without a checkpoint leaves fewer than `checkpoint_every` records open |
| Growth.SentGrows | examples/scale_growth_test.rs:495-498 | The cursor keeps counting exactly the users sent only while chunks are complete |
| Growth.Grow | examples/scale_growth_test.rs:1017-1110 | Over every run: the accounts hold, chunks are consecutive and start only while users and edges are wanted, checkpoints chain, the open interval is zero on a normal end, all users below the cursor were sent exactly when every chunk was complete |
| Growth.CursorCountsUnsentUsers | examples/scale_growth_test.rs:495-498 | A chunk whose only worker fails on its first user: the cursor stands behind both users and none was sent |
| FmtNumber.FmtN | examples/scale_growth_test.rs:238-248 | The reversed loop prints the digits in groups of three from the right |
| FmtNumber.GroupedLeft | examples/scale_growth_test.rs:241-246 | A digit on the left starts a new group exactly when the digits to its right fill theirs |
| FmtNumber.PrintedReadsBack | examples/scale_growth_test.rs:238-248 | Without commas the printed number reads back as the number |
| FmtNumber.CommasExactly | examples/scale_growth_test.rs:238-248 | Commas stand at every fourth place from the right and nowhere else; the first character is the leading digit |
| PercentEncoding.EncodePath | src/segment_config.rs:335-346 | The loop encodes the UTF-8 bytes of the name |
| PercentEncoding.DecodeEncode | src/segment_config.rs:335-346 | Percent-decoding (section 2.1 of RFC 3986) returns the original bytes |
| PercentEncoding.EncodeIsCanonical | src/segment_config.rs:338-343 | The output has only unreserved characters (section 2.3 of RFC 3986) and `%` with two upper-case hex digits for bytes that are not unreserved |
| PercentEncoding.UnreservedExactly | src/segment_config.rs:339 | The characters left as they are: the ASCII letters and digits and `-`, `_`, `.`, `~` |
| Utf8Decoding.Utf8Forms | src/segment_config.rs:337 | The bytes of a character have one of the four forms of section 3 of RFC 3629 |
| PercentEncoding.EncodeDecode | src/segment_config.rs:335-346 | Every text of that form is the encoding of what it decodes to |
| PercentEncoding.EncodedLength | src/segment_config.rs:335-346 | The length is the input's plus two per escaped byte |
| PercentEncoding.EncodePathInjective | src/segment_config.rs:335-346 | Different names have different encodings |

## Left out

- Liveness of the streaming code: permits and channel sends can wait for ever if the peer stops answering; the theorems about the barrier are about its completion.
- Semaphore closing (`acquire` returning an error): nothing closes the semaphores, so that branch is not modelled.
- Wrap-around of the ticket and sequence counters after 2^64 steps, and of the statistics counters.
- Task panics during the load test (`j.await?` returning a join error); for the growth loop they are the error result of a chunk.
- `f32` and `f64` rounding and NaN: confidences and amounts are reals.
- GeoIP values: a location is the pair of latitude and longitude texts it is computed from; parsing and the geohash string are functions of those.
- Random node properties, timestamps and event offsets in requests, and the probe queries of the growth test.
- The node and edge counters of the CSV workers; the request counters carry the argument. The snapshot `Counter::in_flight` reads three counters one after another and is not exact, so the invariants are about atomic states.
- Sends of batches to the channel never fail, because `main` keeps a handle on the receiving side; that error branch is not modelled.
- Paging over edges that change between two pages, and the direction and node arguments of the requests.
- Cypher semantics (comments, string literals, quoting): the guard is lexical and so are its properties.
- `encode_path` leaves the names `.` and `..` as they are; nothing is claimed about them as URL path segments.
- `require_name`, label functions, property conversions, builders and the pass-through clients in `src/lib.rs`, `src/features.rs`, `src/schema.rs`, `src/health.rs` and most of `src/graph.rs`: one branch or none.
- Latency percentiles, throughput, clocks, printing, command lines, gRPC, HTTP and MCP routing.
- The engine itself is not part of this model.
