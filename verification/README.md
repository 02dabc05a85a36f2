# Buffered event collector and ticket allocator, modelled in Dafny

This project models the two small sequential kernels inside the repository's HTTP services:

- **Event collector** (`Questions/Qn2/firehose_collector.py`). The `/event` endpoint appends each request body to an in-memory FIFO buffer. A background flusher wakes periodically. It pops up to `batch_size` events from the front and inserts the whole batch in one transaction. If anything raises, it pushes the batch back onto the front with `appendleft` over `reversed(batch)`.
  The model (`firehose_collector.dfy`, module `FirehoseCollector`) keeps the buffer as a `seq`. It records the in-flight batch, the persisted events (`log`) and the inserted rows (`table`) explicitly. The central invariant is `Stream = log ++ inFlight ++ queue`:
  - every drain keeps it unchanged;
  - every flush keeps it unchanged, unless the attempt raises after its commit;
  - every enqueue appends to it.
  This gives FIFO order end to end and conservation of events for runs without such a late exception.
  An exception after the commit can come from the success `print` or from closing the connection, both inside the `try`. It requeues a batch that is already stored, so the next cycle stores it again. For every modelled run, including these, the model proves at-least-once delivery: no event is dropped and none is invented, but events may be stored twice. This does not cover an exception from the outage `print` before the `try`, or from the `print` in the exception handler. Either one loses the drained batch and ends the flusher; see "## Left out".
- **Ticket allocator** (`Questions/Qn3/app.py`, `buy_ticket`). Each attempt is one `BEGIN IMMEDIATE` transaction. It reads the single item's stock (0 when the row is absent). If the stock is positive, it decrements it and records a purchase, answering 200. Otherwise it answers 410. An exception rolls the attempt back. A "database is locked" error (case-insensitive substring) is retried while `attempt < retries - 1`. Any other failure answers 500.
  The model (`ticket_allocator.dfy`, module `TicketAllocator`) gives each attempt's error as an oracle input. It proves the following:
  - the retry bound and the classification of responses;
  - that the ledger `stock + |purchases| == initial` is kept;
  - that N error-free serial calls against stock S sell exactly `min(S, N)`.

`optional.dfy` holds the shared `Option` type.

The store's serialisation is taken as given:
- each section under the buffer lock is one atomic step;
- each batch insert is one atomic step;
- each allocator transaction is one atomic step.

Inputs replace the environment:
- `StoreOutcome` says whether the batch insert commits, raises before its commit, or raises after it;
- `faults[k]` is the error message of allocator attempt `k`;
- `now` is the purchase timestamp.

Behaviour of the code worth knowing:
- **Malformed events.** The comment at `Questions/Qn2/firehose_collector.py:67` says a failed batch is re-buffered "so no data loss". But some events make every batch that contains them raise:
  - a body that is not an object;
  - a body missing `user_id`, `timestamp` or `metadata`;
  - a body whose `user_id` or `timestamp` SQLite cannot bind. The model covers a list, an object, or an integer outside 64 bits. A string with an unpaired surrogate also cannot be bound, but the model cannot represent it (see "## Left out").
  `MalformedHeadBlocksForever` proves that once such an event reaches the front of the buffer, nothing is ever persisted again.
- **Errors other than locking.** Any error that is not a lock error answers 500 after that one attempt, without retrying.
- **Zero retries.** With `retries <= 0` the loop never runs and the handler returns `None`. The model exposes this as a fourth outcome, `NoResponse`. The web framework sends a returned `None` as a 200 response with body `null`. So a client asking with `retries=0` receives a 200 without a sale. `StatusCode` describes only the three responses the handler builds itself.
- **Stress script.** The asserts at `Questions/Qn3/proof_of_correctness.py:32-33` expect exactly 100 answers of 200 and 900 of 410. `StressScenario` proves this for error-free serial calls. As an extra case the script does not run, it also proves that 50 further calls all answer 410.

## Model

| member | source | states |
|---|---|---|
| FirehoseCollector.ToRows | Questions/Qn2/firehose_collector.py:56-61 | The insert's parameter list exists exactly when every event in the batch is an object with `user_id`, `timestamp` and `metadata`, and its `user_id` and `timestamp` can be bound. It then has one row per event, in batch order. |
| FirehoseCollector.Persist | Questions/Qn2/firehose_collector.py:54-64 | A persistence attempt writes rows exactly when every event yields a row and the store does not fail before its commit. It then writes all the rows, even if it raises afterwards. Otherwise it writes nothing. |
| FirehoseCollector.UnbindableEventFailsBatch | Questions/Qn2/firehose_collector.py:56-61 | A batch holding an event whose `user_id` or `timestamp` cannot be bound raises before any commit, whatever the store does. |
| FirehoseCollector.DrainBuffer | Questions/Qn2/firehose_collector.py:46-49 | The drain loop pops a FIFO prefix: `batch ++ rest == buffer`. The prefix has length `min(batch_size, |buffer|)`, or 0 when `batch_size <= 0`, so it is never longer than `batch_size`. The prefix is exactly the batch that `Drain` moves. |
| FirehoseCollector.Drain | Questions/Qn2/firehose_collector.py:46-49 | The drain step moves the first `DrainCount` events of the buffer into the batch, in order. The log and table are untouched and the event stream is unchanged. |
| FirehoseCollector.AppendLeftEachReverses | Questions/Qn2/firehose_collector.py:69-70 | Calling `appendleft` on each item in turn puts the items in front of the queue in reverse order. |
| FirehoseCollector.Requeue | Questions/Qn2/firehose_collector.py:68-70 | `appendleft` over `reversed(batch)` yields `batch ++ queue`. |
| FirehoseCollector.Enqueue | Questions/Qn2/firehose_collector.py:78-79 | The endpoint appends exactly one event at the back and changes nothing else. The event stream grows by that one event. |
| FirehoseCollector.EnqueueAll | Questions/Qn2/firehose_collector.py:74-79 | Successive endpoint calls append their events at the back in arrival order. |
| FirehoseCollector.FinishFlush | Questions/Qn2/firehose_collector.py:50-70 | An empty batch makes no attempt. A committed batch moves, whole and in order, into the log, and its rows go into the table. A batch whose attempt raises inside the `try` goes back in front of the buffer. A batch that raises after its commit therefore ends up in both places. The in-flight batch is always emptied. Unless the exception comes after the commit, no event is duplicated or dropped. |
| FirehoseCollector.FinishFlushAtLeastOnce | Questions/Qn2/firehose_collector.py:54-70 | Ending a flush neither drops nor invents an event. The only change to the multiset of events is one extra copy of the batch, when the attempt raises after its commit. |
| FirehoseCollector.LateFailureStoresBatchTwice | Questions/Qn2/firehose_collector.py:54-70 | An attempt that raises after its commit, followed by a committing cycle, stores the drained batch twice in a row. |
| FirehoseCollector.RunCycle | Questions/Qn2/firehose_collector.py:43-71 | One flusher iteration leaves nothing in flight. Unless its attempt raises after the commit, it appends exactly the arrivals before and during the attempt to the event stream. |
| FirehoseCollector.RunCycleAtLeastOnce | Questions/Qn2/firehose_collector.py:43-79 | One flusher iteration keeps every event it had and every arrival, and invents none. |
| FirehoseCollector.EmptyDrainIsNoOp | Questions/Qn2/firehose_collector.py:46-50 | Draining an empty buffer yields an empty batch. No attempt is made and the collector is unchanged, whatever the store would do. |
| FirehoseCollector.DrainThenFailureRestoresQueue | Questions/Qn2/firehose_collector.py:46-70 | A drain followed by a failed flush leaves the buffer as it was before the drain. Events enqueued during the attempt sit behind the requeued batch. Log and table are unchanged. |
| FirehoseCollector.DrainThenSuccessPersistsPrefix | Questions/Qn2/firehose_collector.py:46-63 | An attempt that commits and returns normally appends exactly the drained FIFO prefix to the log. The remaining suffix, followed by new arrivals, stays in the buffer. |
| FirehoseCollector.MalformedBatchIsRequeuedWhole | Questions/Qn2/firehose_collector.py:59-70 | A batch with an event that cannot be made into a row is requeued whole, whatever the store would do. Nothing of it is persisted or dropped. |
| FirehoseCollector.RunExtendsStream | Questions/Qn2/firehose_collector.py:43-79 | Over any flusher cycles without an exception after a commit, the stream `log ++ inFlight ++ queue` is the old stream followed by all arrivals in order. |
| FirehoseCollector.FifoAndConservation | Questions/Qn2/firehose_collector.py:43-79 | Starting from an empty collector, with no exception after a commit, `log ++ queue` equals the arrival order, so the persisted log is a prefix of it. The multiset of persisted and buffered events then equals the multiset of arrivals. |
| FirehoseCollector.RunAtLeastOnce | Questions/Qn2/firehose_collector.py:43-79 | Over any flusher cycles at all, every arrival stays persisted or buffered, at least as often as it arrived. No event that did not arrive ever appears. |
| FirehoseCollector.RunKeepsTableMatchingLog | Questions/Qn2/firehose_collector.py:55-62 | The rows in the events table are always exactly the rows of the persisted events, in the same order. |
| FirehoseCollector.MalformedHeadBlocksForever | Questions/Qn2/firehose_collector.py:46-70 | Once a malformed event is at the front of the buffer, it stays there. No later cycle persists anything. |
| TicketAllocator.StatusCode | Questions/Qn3/app.py:60-69 | The three responses map one-to-one onto 200 (purchased), 410 (sold out) and 500 (retry later). |
| TicketAllocator.Attempt | Questions/Qn3/app.py:47-65 | With no error, positive stock yields a sale: stock − 1, one purchase record, 200. Otherwise the store is unchanged and the answer is 410. A raised error commits nothing. |
| TicketAllocator.BuyTicket | Questions/Qn3/app.py:43-69 | See the notes below this table. |
| TicketAllocator.LockErrorDetection | Questions/Qn3/app.py:66 | The retry test recognises the lock message in any letter case, anywhere in the error text. A shorter text is never taken for a lock error. |
| TicketAllocator.LockErrorExactly | Questions/Qn3/app.py:66 | The retry test holds if and only if some slice of the error text lower-cases to "database is locked". |
| TicketAllocator.KelvinSignCountsAsK | Questions/Qn3/app.py:66 | Python lower-cases the Kelvin sign to `k`, so swapping it for `k` anywhere in the text never changes the retry decision. |
| TicketAllocator.AttemptKeepsLedger | Questions/Qn3/app.py:51-59 | A committed attempt keeps stock non-negative and keeps `stock + |purchases| == INITIAL_STOCK`. |
| TicketAllocator.HandleKeepsLedger | Questions/Qn3/app.py:44-69 | The whole retry loop keeps the ledger. Only a 200 changes the store, and then by exactly one sale. |
| TicketAllocator.NonLockErrorFailsAtOnce | Questions/Qn3/app.py:64-69 | An error that is not a lock error answers 500 after that one attempt, with the store unchanged. |
| TicketAllocator.LockErrorsExhaustRetries | Questions/Qn3/app.py:44-69 | If every attempt hits a lock error, exactly `retries` attempts run and the answer is 500. |
| TicketAllocator.SerialCallsNeverOversell | Questions/Qn3/app.py:47-63 | Over any serial sequence of calls with any errors, the ledger stays balanced. The number of 200s equals the number of purchase records added, and never exceeds the starting stock. |
| TicketAllocator.SerialCallsNeverUndersell | Questions/Qn3/app.py:44-69 | Over any serial sequence of calls with any errors, the number of sales equals the smaller of the starting stock and the number of calls answered 200 or 410. A 410 therefore comes only after every unit is sold. |
| TicketAllocator.SoldOutMeansEmpty | Questions/Qn3/app.py:51-63 | However many lock-error retries came before, a 410 is answered only when the stock read is not positive. |
| TicketAllocator.CleanCallsAllocateExactly | Questions/Qn3/app.py:51-63 | N error-free serial calls against stock S give exactly `min(S, N)` answers of 200 and `N − min(S, N)` of 410. Stock `S − min(S, N)` is left. |
| TicketAllocator.StressScenario | Questions/Qn3/proof_of_correctness.py:32-33 | From stock 100, 1000 error-free calls give exactly 100 answers of 200 and 900 of 410. As an extra case beyond the script, 50 further calls all give 410. |

What `TicketAllocator.BuyTicket` states:
- With `retries >= 1`, between 1 and `retries` attempts run.
- Every attempt before the last one hit a lock error.
- A 500 means the last attempt raised, and either the error was not a lock error or the attempts ran out.
- A 200 is exactly one sale.
- A 410 means the stock read was at most 0.
- Any answer other than 200 leaves the store unchanged.
- With `retries <= 0`, nothing runs and no response is built.
- The loop agrees with the recursive reference `Handle`.

## Left out

- HTTP routing, request parsing, `JSONResponse` bodies and `json.dumps`. The metadata column keeps the JSON value, not its text. JSON numbers are integers.
- Connection setup, SQL text, table creation (`create_table`, `create_tables`) and `lifespan`. The store is abstract, with atomic commit and rollback.
- The generated `id` columns. A row's id is its position.
- Other failures of the SQL driver or the store (connection, lock or disk errors) are the `StoreOutcome` input.
- An exception raised by `aiosqlite.connect` in `buy_ticket`, or by closing that connection when the `async with` block is left. Both sit outside the `try`, so such an exception leaves the handler unhandled and the framework answers 500. Neither is modelled. A close that fails after the commit of a sale is the case that matters: a unit is sold but the client receives 500, not 200. So the equality "number of 200s == purchase records added" in `SerialCallsNeverOversell` holds only for calls whose connection closes cleanly. Without that, the 200s can only be fewer than the records, never more.
- FirehoseCollector.FinishFlush: does not model an exception from the outage `print` at `Questions/Qn2/firehose_collector.py:52`, which runs before the `try`, or from the `print` in the exception handler at line 65, which runs before the requeue. Either one loses the drained batch and ends the flusher task, so nothing is flushed again. `RunAtLeastOnce` and the other delivery lemmas hold only for runs without such an exception. Output to stdout is treated as infallible.
- FirehoseCollector.Bindable: strings are sequences of Unicode scalar values, so a string holding an unpaired surrogate cannot be represented. Such a string is valid in a JSON body (`"\ud800"`). SQLite cannot encode it, so an event carrying one as `user_id` or `timestamp` would poison the buffer like an unbindable list.
- All sleeps: the flush interval, the simulated outage, the pause after a failed flush and the 0.1 s backoff. Also the task cancellation on shutdown. The simulated outage only sleeps and never fails, so store failure is the `StoreOutcome` input instead.
- `threading.Lock` and real concurrency. Locked sections and transactions are atomic steps.
- `datetime.utcnow()` timestamps. They are the opaque input `now`.
- The load generator (`Questions/Qn2/load_test.py`) and the HTTP client of the stress script.
- TicketAllocator.LockErrorDetection: `LowerChar` lower-cases ASCII capitals and the Kelvin sign and leaves every other character alone. Python's `str.lower` also lower-cases other non-ASCII letters. All of them lower-case to non-ASCII text except U+0130, which becomes `i` followed by a combining dot. That `i` cannot complete the phrase, because in the phrase `i` is followed by `s`. So the substring test agrees with Python's.
