/**
  Model of the event collector: an in-memory FIFO buffer fed by the event
  endpoint and drained by a periodic flusher that writes each batch to the
  `events` table in one all-or-nothing transaction, pushing a failed batch
  back onto the front of the buffer.

  Each section run under the buffer lock, and the whole batch insert, is one
  atomic step. How the store answers an insert is an input (`StoreOutcome`).
*/
module FirehoseCollector {
  import opened Optional

  /** A decoded request body. JSON numbers are modelled as integers. */
  datatype Json =
    | JNull
    | JBool(b: bool)
    | JNum(n: int)
    | JStr(s: string)
    | JArr(items: seq<Json>)
    | JObj(members: map<string, Json>)

  /** An event is whatever body the endpoint received. */
  type Event = Json

  /** One row of the `events` table; the metadata column holds the JSON text of `metadata`. */
  datatype Row = Row(userId: Json, timestamp: Json, metadata: Json)

  /**
    Whether the SQLite driver can bind a value as a query parameter, among the
    values representable here: a list or an object cannot be bound, and an
    integer must fit in 64 bits.
  */
  predicate Bindable(v: Json)
  {
    match v
    case JArr(_) => false
    case JObj(_) => false
    case JNum(n) => -0x8000_0000_0000_0000 <= n < 0x8000_0000_0000_0000
    case _ => true
  }

  /**
    The row the insert writes for one event, or None when the insert raises on
    it whatever the store's state: subscripting a non-object body raises a
    TypeError, a missing key a KeyError, and an unbindable `user_id` or
    `timestamp` makes `executemany` raise. The metadata is bound as JSON text,
    which can always be produced for a decoded body.
  */
  function ToRow(e: Event): Option<Row>
  {
    match e
    case JObj(m) =>
      if "user_id" in m && "timestamp" in m && "metadata" in m
         && Bindable(m["user_id"]) && Bindable(m["timestamp"])
      then Some(Row(m["user_id"], m["timestamp"], m["metadata"]))
      else None
    case _ => None
  }

  /** The parameter list of the batch insert: all rows, or None if any event cannot be turned into one. */
  function ToRows(batch: seq<Event>): (r: Option<seq<Row>>)
    ensures r.Some? <==> forall i :: 0 <= i < |batch| ==> ToRow(batch[i]).Some?
    ensures r.Some? ==> |r.value| == |batch|
    ensures r.Some? ==> forall i :: 0 <= i < |batch| ==> ToRow(batch[i]) == Some(r.value[i])
  {
    if |batch| == 0 then Some([])
    else
      match ToRow(batch[0])
      case None => None
      case Some(row) =>
        match ToRows(batch[1..])
        case None => None
        case Some(rest) => Some([row] + rest)
  }

  /**
    What the store does with one attempt that has valid rows: commit and return
    normally, raise before the commit (connection, lock or disk errors), or
    raise after the commit, when the success message or the closing of the
    connection fails inside the `try` although the rows are already written.
  */
  datatype StoreOutcome = Commits | FailsBeforeCommit | FailsAfterCommit

  /**
    The rows one persistence attempt writes, or None when nothing is committed.
    Nothing is written unless everything is.
  */
  function Persist(batch: seq<Event>, store: StoreOutcome): (r: Option<seq<Row>>)
    ensures r.Some? <==> store != FailsBeforeCommit && ToRows(batch).Some?
    ensures r.Some? ==> r == ToRows(batch)
  {
    match ToRows(batch)
    case None => None
    case Some(rows) => if store == FailsBeforeCommit then None else Some(rows)
  }

  /** Whether the attempt ends in the exception handler. */
  predicate Raises(batch: seq<Event>, store: StoreOutcome)
  {
    ToRows(batch).None? || store != Commits
  }

  /**
    An event whose `user_id` or `timestamp` cannot be bound makes every attempt
    on its batch raise before anything is committed, whatever the store does.
  */
  lemma UnbindableEventFailsBatch(batch: seq<Event>, j: int, store: StoreOutcome)
    requires 0 <= j < |batch| && batch[j].JObj?
    requires "user_id" in batch[j].members && "timestamp" in batch[j].members
    requires !Bindable(batch[j].members["user_id"]) || !Bindable(batch[j].members["timestamp"])
    ensures Persist(batch, store).None? && Raises(batch, store)
  {
  }

  /** Number of events one drain takes: the inner loop stops when the buffer is empty or the batch is full. */
  function DrainCount(batchSize: int, queued: nat): (k: nat)
  {
    if batchSize <= 0 then 0 else if batchSize < queued then batchSize else queued
  }

  /** The drain loop: pop events from the front until the buffer is empty or `batchSize` are taken. */
  method DrainBuffer(buffer: seq<Event>, batchSize: int) returns (batch: seq<Event>, rest: seq<Event>)
    ensures batch + rest == buffer
    ensures |batch| <= |buffer|
    ensures batchSize <= 0 ==> batch == []
    ensures batchSize > 0 ==> |batch| == if batchSize < |buffer| then batchSize else |buffer|
    ensures batch == buffer[..DrainCount(batchSize, |buffer|)]
  {
    batch := [];
    rest := buffer;
    while |rest| > 0 && |batch| < batchSize
      invariant batch + rest == buffer
      invariant |batch| == 0 || |batch| <= batchSize
      decreases |rest|
    {
      batch := batch + [rest[0]];
      rest := rest[1..];
    }
  }

  /** The reverse of a sequence, as iterated by `reversed`. */
  function Reverse<T>(s: seq<T>): (r: seq<T>)
    ensures |r| == |s|
    ensures forall i :: 0 <= i < |s| ==> r[i] == s[|s| - 1 - i]
  {
    if |s| == 0 then [] else Reverse(s[1..]) + [s[0]]
  }

  /** `appendleft` of each item in turn: the last item handled ends up at the very front. */
  function AppendLeftEach<T>(items: seq<T>, queue: seq<T>): seq<T>
  {
    if |items| == 0 then queue else AppendLeftEach(items[1..], [items[0]] + queue)
  }

  /** Pushing items one by one onto the front leaves them in reverse order ahead of the queue. */
  lemma {:induction false} AppendLeftEachReverses<T>(items: seq<T>, queue: seq<T>)
    ensures AppendLeftEach(items, queue) == Reverse(items) + queue
    decreases |items|
  {
    if |items| > 0 {
      AppendLeftEachReverses(items[1..], [items[0]] + queue);
      assert Reverse(items) == Reverse(items[1..]) + [items[0]];
    }
  }

  /** Reversing twice gives the sequence back. */
  lemma ReverseReverse<T>(s: seq<T>)
    ensures Reverse(Reverse(s)) == s
  {
  }

  /** The failure path: `appendleft` over `reversed(batch)`, which puts the batch back in front in its original order. */
  function Requeue<T>(batch: seq<T>, queue: seq<T>): (r: seq<T>)
    ensures r == batch + queue
  {
    AppendLeftEachReverses(Reverse(batch), queue);
    ReverseReverse(batch);
    AppendLeftEach(Reverse(batch), queue)
  }

  /**
    Collector state. `inFlight` is the batch the flusher holds between its drain
    and the end of its persistence attempt; `log` lists the persisted events in
    insertion order and `table` the rows inserted for them.
  */
  datatype Collector = Collector(queue: seq<Event>, inFlight: seq<Event>, log: seq<Event>, table: seq<Row>)

  const Empty := Collector([], [], [], [])

  /** Every event the collector knows, oldest first: persisted, then in flight, then waiting. */
  function Stream(c: Collector): seq<Event>
  {
    c.log + c.inFlight + c.queue
  }

  /** The event endpoint: append the body at the back of the buffer under the lock. */
  function Enqueue(c: Collector, e: Event): (d: Collector)
    ensures d.queue == c.queue + [e] && |d.queue| == |c.queue| + 1
    ensures d.inFlight == c.inFlight && d.log == c.log && d.table == c.table
    ensures Stream(d) == Stream(c) + [e]
  {
    c.(queue := c.queue + [e])
  }

  /** Several endpoint calls in arrival order. */
  function EnqueueAll(c: Collector, es: seq<Event>): (d: Collector)
    ensures d.queue == c.queue + es
    ensures d.inFlight == c.inFlight && d.log == c.log && d.table == c.table
    ensures Stream(d) == Stream(c) + es
    decreases |es|
  {
    if |es| == 0 then c else EnqueueAll(Enqueue(c, es[0]), es[1..])
  }

  /** The drain of one flusher cycle: a FIFO prefix of at most `batchSize` events moves into the batch. */
  function Drain(c: Collector, batchSize: int): (d: Collector)
    requires c.inFlight == []
    ensures d.inFlight + d.queue == c.queue
    ensures |d.inFlight| == DrainCount(batchSize, |c.queue|)
    ensures batchSize > 0 ==> |d.inFlight| <= batchSize
    ensures d.log == c.log && d.table == c.table
    ensures Stream(d) == Stream(c)
  {
    var k := DrainCount(batchSize, |c.queue|);
    c.(queue := c.queue[k..], inFlight := c.queue[..k])
  }

  /**
    The end of one flusher cycle. An empty batch makes no attempt. Otherwise a
    committed insert moves the batch to the log and its rows to the table, and
    an exception puts the batch back in front of the buffer. Only an exception
    raised after the commit leaves the batch in both places.
  */
  function FinishFlush(c: Collector, store: StoreOutcome): (d: Collector)
    ensures d.inFlight == []
    ensures c.inFlight == [] ==> d == c
    ensures Persist(c.inFlight, store).Some? ==>
      d.log == c.log + c.inFlight && d.table == c.table + Persist(c.inFlight, store).value
    ensures Persist(c.inFlight, store).None? ==> d.log == c.log && d.table == c.table
    ensures Raises(c.inFlight, store) ==> d.queue == c.inFlight + c.queue
    ensures !Raises(c.inFlight, store) ==> d.queue == c.queue
    ensures store != FailsAfterCommit ==> Stream(d) == Stream(c)
  {
    if c.inFlight == [] then c
    else
      var written :=
        match Persist(c.inFlight, store)
        case Some(rows) => c.(log := c.log + c.inFlight, table := c.table + rows)
        case None => c;
      var settled :=
        if Raises(c.inFlight, store) then written.(queue := Requeue(c.inFlight, c.queue)) else written;
      settled.(inFlight := [])
  }

  /**
    One iteration of the flusher loop: `before` arrive while it sleeps, it drains
    up to `batchSize`, `during` arrive while the attempt is in progress, and the
    store answers the attempt with `store`.
  */
  datatype Cycle = Cycle(before: seq<Event>, batchSize: int, during: seq<Event>, store: StoreOutcome)

  function RunCycle(c: Collector, cy: Cycle): (d: Collector)
    requires c.inFlight == []
    ensures d.inFlight == []
    ensures cy.store != FailsAfterCommit ==> Stream(d) == Stream(c) + (cy.before + cy.during)
  {
    FinishFlush(EnqueueAll(Drain(EnqueueAll(c, cy.before), cy.batchSize), cy.during), cy.store)
  }

  function Run(c: Collector, cycles: seq<Cycle>): (d: Collector)
    requires c.inFlight == []
    ensures d.inFlight == []
    decreases |cycles|
  {
    if |cycles| == 0 then c else Run(RunCycle(c, cycles[0]), cycles[1..])
  }

  /** All events that reach the endpoint during `cycles`, in arrival order. */
  function Arrivals(cycles: seq<Cycle>): seq<Event>
    decreases |cycles|
  {
    if |cycles| == 0 then [] else (cycles[0].before + cycles[0].during) + Arrivals(cycles[1..])
  }

  /** Draining an empty buffer takes nothing, makes no attempt and changes nothing, whatever the store does. */
  lemma EmptyDrainIsNoOp(c: Collector, batchSize: int, store: StoreOutcome)
    requires c.inFlight == [] && c.queue == []
    ensures Drain(c, batchSize).inFlight == []
    ensures FinishFlush(Drain(c, batchSize), store) == c
  {
  }

  /**
    A drain followed by a failed attempt gives back the buffer exactly as it was
    before the drain, with the events that arrived meanwhile behind it.
  */
  lemma DrainThenFailureRestoresQueue(c: Collector, batchSize: int, during: seq<Event>, store: StoreOutcome)
    requires c.inFlight == []
    requires Persist(Drain(c, batchSize).inFlight, store).None?
    ensures RunCycle(c, Cycle([], batchSize, during, store)).queue == c.queue + during
    ensures RunCycle(c, Cycle([], batchSize, during, store)).log == c.log
    ensures RunCycle(c, Cycle([], batchSize, during, store)).table == c.table
  {
  }

  /** An attempt that commits and returns normally moves exactly the drained prefix into the log, in order. */
  lemma DrainThenSuccessPersistsPrefix(c: Collector, batchSize: int, during: seq<Event>, store: StoreOutcome)
    requires c.inFlight == []
    requires !Raises(Drain(c, batchSize).inFlight, store)
    ensures var k := DrainCount(batchSize, |c.queue|);
      && RunCycle(c, Cycle([], batchSize, during, store)).log == c.log + c.queue[..k]
      && RunCycle(c, Cycle([], batchSize, during, store)).queue == c.queue[k..] + during
  {
  }

  /**
    A batch holding an event that cannot be made into a row is requeued whole,
    whatever the store would have done: nothing of it is persisted or dropped.
  */
  lemma MalformedBatchIsRequeuedWhole(c: Collector, store: StoreOutcome, j: int)
    requires 0 <= j < |c.inFlight| && ToRow(c.inFlight[j]).None?
    ensures FinishFlush(c, store).queue == c.inFlight + c.queue
    ensures FinishFlush(c, store).log == c.log
    ensures FinishFlush(c, store).table == c.table
  {
  }

  lemma ConcatAssoc<T>(a: seq<T>, b: seq<T>, c: seq<T>)
    ensures (a + b) + c == a + (b + c)
  {
  }

  /** No cycle's attempt raises after its commit. */
  predicate NoLateFailure(cycles: seq<Cycle>)
  {
    forall i :: 0 <= i < |cycles| ==> cycles[i].store != FailsAfterCommit
  }

  /**
    Unless an attempt raises after its commit, every cycle keeps the order of
    everything already accepted and appends its arrivals.
  */
  lemma {:induction false} RunExtendsStream(c: Collector, cycles: seq<Cycle>)
    requires c.inFlight == []
    requires NoLateFailure(cycles)
    ensures Stream(Run(c, cycles)) == Stream(c) + Arrivals(cycles)
    decreases |cycles|
  {
    if |cycles| > 0 {
      var d := RunCycle(c, cycles[0]);
      var rest := Arrivals(cycles[1..]);
      assert Run(c, cycles) == Run(d, cycles[1..]);
      assert cycles[0].store != FailsAfterCommit;
      assert NoLateFailure(cycles[1..]) by {
        forall i | 0 <= i < |cycles[1..]|
          ensures cycles[1..][i].store != FailsAfterCommit
        {
          assert cycles[1..][i] == cycles[i + 1];
        }
      }
      RunExtendsStream(d, cycles[1..]);
      var x := cycles[0].before + cycles[0].during;
      assert Stream(d) == Stream(c) + x;
      assert Arrivals(cycles) == x + rest;
      ConcatAssoc(Stream(c), x, rest);
    } else {
      assert Arrivals(cycles) == [];
    }
  }

  /**
    End-to-end FIFO and conservation from an empty collector, unless an attempt
    raises after its commit: the persisted log is a prefix of the arrival order,
    the buffer holds exactly the remaining suffix, and no event is duplicated or
    dropped.
  */
  lemma FifoAndConservation(cycles: seq<Cycle>)
    requires NoLateFailure(cycles)
    ensures var d := Run(Empty, cycles);
      && d.log + d.queue == Arrivals(cycles)
      && d.log == Arrivals(cycles)[..|d.log|]
      && multiset(d.log) + multiset(d.queue) == multiset(Arrivals(cycles))
  {
    RunExtendsStream(Empty, cycles);
    var d := Run(Empty, cycles);
    var all := Arrivals(cycles);
    assert Stream(d) == [] + all;
    assert d.log + d.inFlight == d.log;
    assert d.log + d.queue == all;
    assert all[..|d.log|] == d.log;
    assert multiset(all) == multiset(d.log) + multiset(d.queue);
  }

  /** Events persisted by an attempt that then raises: they are also requeued. */
  function Duplicated(batch: seq<Event>, store: StoreOutcome): multiset<Event>
  {
    if store == FailsAfterCommit && ToRows(batch).Some? then multiset(batch) else multiset{}
  }

  /**
    Ending a flush drops no event and invents none; only an exception after the
    commit adds a second copy of each batch event.
  */
  lemma FinishFlushAtLeastOnce(c: Collector, store: StoreOutcome)
    ensures multiset(Stream(FinishFlush(c, store))) == multiset(Stream(c)) + Duplicated(c.inFlight, store)
    ensures forall e :: e in Stream(FinishFlush(c, store)) <==> e in Stream(c)
  {
    var b := c.inFlight;
    if b != [] && Persist(b, store).Some? && Raises(b, store) {
      LateFailureStream(c, store);
    } else {
      OnTimeFinishStream(c, store);
    }
  }

  lemma OnTimeFinishStream(c: Collector, store: StoreOutcome)
    requires !(c.inFlight != [] && Persist(c.inFlight, store).Some? && Raises(c.inFlight, store))
    ensures Stream(FinishFlush(c, store)) == Stream(c)
    ensures Duplicated(c.inFlight, store) == multiset{}
  {
    var b := c.inFlight;
    if b != [] && Persist(b, store).None? {
      assert Stream(FinishFlush(c, store)) == c.log + [] + (b + c.queue);
    } else if b != [] {
      assert Stream(FinishFlush(c, store)) == (c.log + b) + [] + c.queue;
    }
  }

  lemma LateFailureStream(c: Collector, store: StoreOutcome)
    requires c.inFlight != [] && Persist(c.inFlight, store).Some? && Raises(c.inFlight, store)
    ensures multiset(Stream(FinishFlush(c, store))) == multiset(Stream(c)) + multiset(c.inFlight)
    ensures forall e :: e in Stream(FinishFlush(c, store)) <==> e in Stream(c)
  {
    var b := c.inFlight;
    assert Stream(FinishFlush(c, store)) == (c.log + b) + [] + (b + c.queue);
    DuplicatedBatchStream(c.log, b, c.queue);
  }

  lemma DuplicatedBatchStream(log: seq<Event>, b: seq<Event>, q: seq<Event>)
    ensures multiset((log + b) + [] + (b + q)) == multiset(log + b + q) + multiset(b)
    ensures forall e :: e in (log + b) + [] + (b + q) <==> e in log + b + q
  {
    var dup := (log + b) + [] + (b + q);
    assert multiset(dup) == multiset(log) + multiset(b) + multiset(b) + multiset(q);
    forall e
      ensures e in dup <==> e in log + b + q
    {
      assert e in dup <==> e in multiset(dup);
      assert e in log + b + q <==> e in multiset(log + b + q);
    }
  }

  /** One flusher cycle keeps every event it had and every arrival, and invents none. */
  lemma RunCycleAtLeastOnce(c: Collector, cy: Cycle)
    requires c.inFlight == []
    ensures multiset(Stream(c)) + multiset(cy.before + cy.during) <= multiset(Stream(RunCycle(c, cy)))
    ensures forall e :: e in Stream(RunCycle(c, cy)) <==> e in Stream(c) + (cy.before + cy.during)
  {
    var w := EnqueueAll(Drain(EnqueueAll(c, cy.before), cy.batchSize), cy.during);
    assert Stream(w) == Stream(c) + cy.before + cy.during;
    ConcatAssoc(Stream(c), cy.before, cy.during);
    FinishFlushAtLeastOnce(w, cy.store);
  }

  /**
    At-least-once delivery over any cycles, including attempts that raise after
    their commit: every arrival is still persisted or buffered (as many times as
    it arrived, or more), and nothing that did not arrive ever appears.
  */
  lemma {:induction false} RunAtLeastOnce(c: Collector, cycles: seq<Cycle>)
    requires c.inFlight == []
    ensures multiset(Stream(c)) + multiset(Arrivals(cycles)) <= multiset(Stream(Run(c, cycles)))
    ensures forall e :: e in Stream(Run(c, cycles)) <==> e in Stream(c) + Arrivals(cycles)
    decreases |cycles|
  {
    if |cycles| > 0 {
      var d := RunCycle(c, cycles[0]);
      var x := cycles[0].before + cycles[0].during;
      var rest := Arrivals(cycles[1..]);
      assert Run(c, cycles) == Run(d, cycles[1..]);
      assert Arrivals(cycles) == x + rest;
      RunAtLeastOnce(d, cycles[1..]);
      RunCycleAtLeastOnce(c, cycles[0]);
      assert multiset(Arrivals(cycles)) == multiset(x) + multiset(rest);
      assert multiset(Stream(d) + rest) == multiset(Stream(d)) + multiset(rest);
      forall e
        ensures e in Stream(Run(c, cycles)) <==> e in Stream(c) + Arrivals(cycles)
      {
        assert e in Stream(d) + rest <==> e in Stream(d) || e in rest;
        assert e in Stream(c) + x <==> e in Stream(c) || e in x;
        assert e in Stream(c) + Arrivals(cycles) <==> e in Stream(c) || e in x || e in rest;
      }
    } else {
      assert Arrivals(cycles) == [];
      assert Stream(c) + [] == Stream(c);
    }
  }

  /**
    A late exception stores a batch twice: when the attempt raises after its
    commit, the batch is requeued, and the next committed cycle writes the same
    events again, so the log holds the drained prefix twice in a row.
  */
  lemma LateFailureStoresBatchTwice(c: Collector, batchSize: int)
    requires c.inFlight == []
    requires DrainCount(batchSize, |c.queue|) > 0
    requires ToRows(c.queue[..DrainCount(batchSize, |c.queue|)]).Some?
    ensures var k := DrainCount(batchSize, |c.queue|);
      var d := Run(c, [Cycle([], batchSize, [], FailsAfterCommit), Cycle([], batchSize, [], Commits)]);
      && d.log == c.log + c.queue[..k] + c.queue[..k]
      && d.queue == c.queue[k..]
  {
    var k := DrainCount(batchSize, |c.queue|);
    var batch := c.queue[..k];
    var first := Cycle([], batchSize, [], FailsAfterCommit);
    var second := Cycle([], batchSize, [], Commits);
    assert EnqueueAll(c, []) == c;
    var d1 := RunCycle(c, first);
    assert d1.log == c.log + batch;
    assert d1.queue == c.queue;
    assert EnqueueAll(d1, []) == d1;
    assert EnqueueAll(Drain(d1, batchSize), []) == Drain(d1, batchSize);
    var d2 := RunCycle(d1, second);
    assert Drain(d1, batchSize).inFlight == batch;
    assert d2.log == d1.log + batch;
    assert Run(c, [first, second]) == Run(d1, [second]);
    assert Run(d1, [second]) == Run(d2, []);
  }

  /** The rows in the table are exactly the rows of the persisted events, in order. */
  predicate TableMatchesLog(c: Collector)
  {
    ToRows(c.log) == Some(c.table)
  }

  lemma ToRowsAppend(a: seq<Event>, b: seq<Event>, ra: seq<Row>, rb: seq<Row>)
    requires ToRows(a) == Some(ra) && ToRows(b) == Some(rb)
    ensures ToRows(a + b) == Some(ra + rb)
  {
    var ab := a + b;
    assert forall i :: 0 <= i < |ab| ==> ToRow(ab[i]).Some? by {
      forall i | 0 <= i < |ab|
        ensures ToRow(ab[i]).Some?
      {
        if i < |a| { assert ab[i] == a[i]; } else { assert ab[i] == b[i - |a|]; }
      }
    }
    var r := ToRows(ab).value;
    assert r == ra + rb by {
      forall i | 0 <= i < |ab|
        ensures r[i] == (ra + rb)[i]
      {
        if i < |a| { assert ab[i] == a[i]; } else { assert ab[i] == b[i - |a|]; }
      }
    }
  }

  /** Every flusher cycle keeps the table in step with the log. */
  lemma {:induction false} RunKeepsTableMatchingLog(c: Collector, cycles: seq<Cycle>)
    requires c.inFlight == [] && TableMatchesLog(c)
    ensures TableMatchesLog(Run(c, cycles))
    decreases |cycles|
  {
    if |cycles| > 0 {
      var cy := cycles[0];
      var w := EnqueueAll(Drain(EnqueueAll(c, cy.before), cy.batchSize), cy.during);
      if w.inFlight != [] && Persist(w.inFlight, cy.store).Some? {
        ToRowsAppend(w.log, w.inFlight, w.table, Persist(w.inFlight, cy.store).value);
      }
      RunKeepsTableMatchingLog(RunCycle(c, cy), cycles[1..]);
    }
  }

  /**
    Head-of-line blocking: once an event that cannot be made into a row is at the
    front of the buffer, no later cycle persists anything and it stays in front.
  */
  lemma {:induction false} MalformedHeadBlocksForever(c: Collector, cycles: seq<Cycle>)
    requires c.inFlight == [] && |c.queue| > 0 && ToRow(c.queue[0]).None?
    ensures |Run(c, cycles).queue| > 0 && Run(c, cycles).queue[0] == c.queue[0]
    ensures Run(c, cycles).log == c.log && Run(c, cycles).table == c.table
    decreases |cycles|
  {
    if |cycles| > 0 {
      var cy := cycles[0];
      var a := EnqueueAll(c, cy.before);
      assert a.queue[0] == c.queue[0];
      var w := EnqueueAll(Drain(a, cy.batchSize), cy.during);
      var d := RunCycle(c, cy);
      if w.inFlight != [] {
        assert w.inFlight[0] == c.queue[0];
        MalformedBatchIsRequeuedWhole(w, cy.store, 0);
      } else {
        assert w.queue[0] == c.queue[0];
      }
      MalformedHeadBlocksForever(d, cycles[1..]);
    }
  }
}
