/**
  Model of the ticket endpoint: each attempt is one immediate-mode transaction
  that reads the stock of the single item, and either sells one unit (decrement
  and a purchase record) or reports the item sold out. An attempt that raises
  is rolled back; a "database is locked" error is retried while attempts remain.

  The store's serialisation of transactions is taken as given, so one attempt
  is one atomic step. Whether an attempt raises, and with which message, is an
  input: `faults[k]` is the error of attempt k (attempts past the end of
  `faults` do not raise). The purchase timestamp is the input `now`.
*/
module TicketAllocator {
  import opened Optional

  const ItemName: string := "A"
  const InitialStock: int := 100
  const LockedMessage: string := "database is locked"

  /** One row of the `purchases` table; its generated id is its position. */
  datatype Purchase = Purchase(item: string, timestamp: string)

  /** The store as the endpoint sees it: the item's stock row (None when absent) and the purchases table. */
  datatype Store = Store(stock: Option<int>, purchases: seq<Purchase>)

  /** What the endpoint hands back: 200, 410, 500, or nothing at all when the loop never runs. */
  datatype Outcome = Purchased | SoldOut | RetryLater | NoResponse

  /** The HTTP status of each response the handler builds. */
  function StatusCode(o: Outcome): (code: int)
    requires o != NoResponse
    ensures code == 200 <==> o == Purchased
    ensures code == 410 <==> o == SoldOut
    ensures code == 500 <==> o == RetryLater
  {
    match o
    case Purchased => 200
    case SoldOut => 410
    case RetryLater => 500
  }

  /** The stock the transaction reads: the row's value, or 0 when the row is absent. */
  function StockRead(s: Store): int
  {
    match s.stock
    case Some(n) => n
    case None => 0
  }

  /** The ledger invariant: the row exists, is non-negative, and stock plus sales is the initial stock. */
  predicate Ledger(s: Store, initial: int)
  {
    && s.stock.Some?
    && s.stock.value >= 0
    && s.stock.value + |s.purchases| == initial
    && forall i :: 0 <= i < |s.purchases| ==> s.purchases[i].item == ItemName
  }

  /**
    Lower-casing of one character, as far as it can matter for an ASCII phrase:
    ASCII capitals, and the Kelvin sign, which Python lower-cases to ASCII `k`.
  */
  function LowerChar(c: char): char
  {
    if 'A' <= c <= 'Z' then (c as int + 32) as char
    else if c == '\U{212A}' then 'k'
    else c
  }

  /** `str.lower` for the purpose of the retry test: every character lower-cased in place. */
  function Lower(s: string): string
  {
    seq(|s|, i requires 0 <= i < |s| => LowerChar(s[i]))
  }

  predicate StartsWith(s: string, prefix: string)
  {
    |prefix| <= |s| && s[..|prefix|] == prefix
  }

  /** Substring test, as Python's `in` on strings. */
  predicate Contains(s: string, part: string)
  {
    exists i :: 0 <= i <= |s| && StartsWith(s[i..], part)
  }

  /** The retry test on the exception text: it mentions "database is locked", in any letter case. */
  predicate IsLockError(message: string)
  {
    Contains(Lower(message), LockedMessage)
  }

  /** The error raised by attempt k, if any. */
  function FaultAt(faults: seq<Option<string>>, k: nat): Option<string>
  {
    if k < |faults| then faults[k] else None
  }

  predicate IsLockFault(faults: seq<Option<string>>, k: nat)
  {
    FaultAt(faults, k).Some? && IsLockError(FaultAt(faults, k).value)
  }

  /** The result of one transaction: committed with a response and the new store, or raised and rolled back. */
  datatype AttemptResult = Committed(outcome: Outcome, store: Store) | Raised(message: string)

  /**
    One attempt. Without an error it commits: a sale when the stock read is
    positive, otherwise an unchanged store and "sold out". With an error nothing
    is committed; the caller keeps the store it had (rollback).
  */
  function Attempt(s: Store, fault: Option<string>, now: string): (r: AttemptResult)
    ensures fault.Some? ==> r == Raised(fault.value)
    ensures fault.None? ==> r.Committed? && (r.outcome == Purchased || r.outcome == SoldOut)
    ensures r.Committed? && r.outcome == Purchased ==>
      && StockRead(s) > 0
      && r.store.stock == Some(StockRead(s) - 1)
      && r.store.purchases == s.purchases + [Purchase(ItemName, now)]
    ensures r.Committed? && r.outcome == SoldOut ==> StockRead(s) <= 0 && r.store == s
    ensures fault.None? && StockRead(s) > 0 ==> r.outcome == Purchased
  {
    match fault
    case Some(message) => Raised(message)
    case None =>
      var stock := StockRead(s);
      if stock > 0 then
        Committed(Purchased, Store(Some(stock - 1), s.purchases + [Purchase(ItemName, now)]))
      else
        Committed(SoldOut, s)
  }

  /**
    Reference definition of the retry loop from attempt `attempt` on: the
    response, the store afterwards, and how many attempts ran in all.
  */
  function Handle(s: Store, retries: int, faults: seq<Option<string>>, now: string, attempt: nat): (r: (Outcome, Store, nat))
    decreases retries - attempt
  {
    if attempt >= retries then (NoResponse, s, attempt)
    else
      match Attempt(s, FaultAt(faults, attempt), now)
      case Committed(o, t) => (o, t, attempt + 1)
      case Raised(message) =>
        if IsLockError(message) && attempt < retries - 1
        then Handle(s, retries, faults, now, attempt + 1)
        else (RetryLater, s, attempt + 1)
  }

  /**
    The endpoint: at most `retries` attempts, retrying only after a lock error
    that is not on the last attempt. The store changes only by one sale.
  */
  method BuyTicket(s: Store, retries: int, faults: seq<Option<string>>, now: string)
    returns (outcome: Outcome, t: Store, attempts: nat)
    ensures (outcome, t, attempts) == Handle(s, retries, faults, now, 0)
    ensures retries <= 0 <==> outcome == NoResponse
    ensures retries <= 0 ==> attempts == 0 && t == s
    ensures retries >= 1 ==> 1 <= attempts <= retries
    ensures forall k :: 0 <= k < attempts - 1 ==> IsLockFault(faults, k)
    ensures outcome == RetryLater ==>
      FaultAt(faults, attempts - 1).Some? && (!IsLockError(FaultAt(faults, attempts - 1).value) || attempts == retries)
    ensures (outcome == Purchased || outcome == SoldOut) ==> FaultAt(faults, attempts - 1).None?
    ensures outcome == Purchased ==>
      StockRead(s) > 0 && t.stock == Some(StockRead(s) - 1) && t.purchases == s.purchases + [Purchase(ItemName, now)]
    ensures outcome == SoldOut ==> StockRead(s) <= 0
    ensures outcome != Purchased ==> t == s
  {
    var attempt := 0;
    while attempt < retries
      invariant 0 <= attempt
      invariant retries >= 1 ==> attempt < retries
      invariant forall k :: 0 <= k < attempt ==> IsLockFault(faults, k)
      invariant Handle(s, retries, faults, now, 0) == Handle(s, retries, faults, now, attempt)
      decreases retries - attempt
    {
      var r := Attempt(s, FaultAt(faults, attempt), now);
      match r
      case Committed(o, after) =>
        return o, after, attempt + 1;
      case Raised(message) =>
        if IsLockError(message) && attempt < retries - 1 {
          attempt := attempt + 1;
        } else {
          return RetryLater, s, attempt + 1;
        }
    }
    return NoResponse, s, 0;
  }

  lemma LowerAppend(a: string, b: string)
    ensures Lower(a + b) == Lower(a) + Lower(b)
  {
  }

  /**
    The lock-error test matches the message anywhere inside a longer text and in
    any letter case; a text shorter than the message is never a lock error.
  */
  lemma {:induction false} LockErrorDetection(before: string, core: string, after: string, other: string)
    requires Lower(core) == LockedMessage
    requires |other| < |LockedMessage|
    ensures IsLockError(before + core + after)
    ensures !IsLockError(other)
  {
    LowerAppend(before + core, after);
    LowerAppend(before, core);
    var low := Lower(before + core + after);
    assert low == Lower(before) + LockedMessage + Lower(after);
    assert low[|before|..][..|LockedMessage|] == LockedMessage;
    assert StartsWith(low[|before|..], LockedMessage);
  }

  lemma LowerSlice(m: string, i: int, j: int)
    requires 0 <= i <= j <= |m|
    ensures Lower(m[i..j]) == Lower(m)[i..j]
  {
  }

  /** The lock message, in any letter case, occurs in `m` at position `i`. */
  predicate LockedMessageAt(m: string, i: int)
  {
    0 <= i && i + |LockedMessage| <= |m| && Lower(m[i..i + |LockedMessage|]) == LockedMessage
  }

  /** The retry test holds exactly when the error text contains the lock message in some letter case. */
  lemma LockErrorExactly(m: string)
    ensures IsLockError(m) <==> exists i :: LockedMessageAt(m, i)
  {
    if IsLockError(m) {
      var low := Lower(m);
      var i :| 0 <= i <= |low| && StartsWith(low[i..], LockedMessage);
      LowerSlice(m, i, i + |LockedMessage|);
      assert LockedMessageAt(m, i);
    }
    if exists i :: LockedMessageAt(m, i) {
      var i :| LockedMessageAt(m, i);
      LowerSlice(m, i, i + |LockedMessage|);
      assert StartsWith(Lower(m)[i..], LockedMessage);
    }
  }

  /** The Kelvin sign counts as `k`: replacing one by the other never changes the retry decision. */
  lemma KelvinSignCountsAsK(before: string, after: string)
    ensures IsLockError(before + "\U{212A}" + after) <==> IsLockError(before + "k" + after)
  {
    LowerAppend(before + "\U{212A}", after);
    LowerAppend(before, "\U{212A}");
    LowerAppend(before + "k", after);
    LowerAppend(before, "k");
    assert Lower("\U{212A}") == Lower("k");
  }

  /** A single attempt never oversells and keeps the ledger balanced; a raised attempt changes nothing. */
  lemma AttemptKeepsLedger(s: Store, initial: int, fault: Option<string>, now: string)
    requires Ledger(s, initial)
    ensures Attempt(s, fault, now).Committed? ==> Ledger(Attempt(s, fault, now).store, initial)
  {
  }

  /** The whole retry loop keeps the ledger: only a 200 changes the store, and then by exactly one sale. */
  lemma {:induction false} HandleKeepsLedger(s: Store, initial: int, retries: int, faults: seq<Option<string>>, now: string, attempt: nat)
    requires Ledger(s, initial)
    ensures var (o, t, _) := Handle(s, retries, faults, now, attempt);
      && Ledger(t, initial)
      && (o == Purchased ==> |t.purchases| == |s.purchases| + 1 && t.stock.value == s.stock.value - 1)
      && (o != Purchased ==> t == s)
    decreases retries - attempt
  {
    if attempt < retries {
      var r := Attempt(s, FaultAt(faults, attempt), now);
      if r.Raised? && IsLockError(r.message) && attempt < retries - 1 {
        HandleKeepsLedger(s, initial, retries, faults, now, attempt + 1);
      }
    }
  }

  /** An error that is not a lock error ends the request with 500 after that one attempt. */
  lemma NonLockErrorFailsAtOnce(s: Store, retries: int, faults: seq<Option<string>>, now: string, attempt: nat)
    requires attempt < retries
    requires FaultAt(faults, attempt).Some? && !IsLockError(FaultAt(faults, attempt).value)
    ensures Handle(s, retries, faults, now, attempt) == (RetryLater, s, attempt + 1)
  {
  }

  /** When every attempt hits a lock error, exactly `retries` attempts run and the answer is 500. */
  lemma {:induction false} LockErrorsExhaustRetries(s: Store, retries: int, faults: seq<Option<string>>, now: string, attempt: nat)
    requires attempt < retries
    requires forall k :: attempt <= k < retries ==> IsLockFault(faults, k)
    ensures Handle(s, retries, faults, now, attempt) == (RetryLater, s, retries as nat)
    decreases retries - attempt
  {
    assert IsLockFault(faults, attempt);
    if attempt < retries - 1 {
      LockErrorsExhaustRetries(s, retries, faults, now, attempt + 1);
    }
  }

  /** One call to the endpoint, with its retry budget, the errors its attempts meet, and its clock reading. */
  datatype Call = Call(retries: int, faults: seq<Option<string>>, now: string)

  /** A call whose first attempt raises nothing and which is allowed at least one attempt. */
  predicate Clean(c: Call)
  {
    c.retries >= 1 && FaultAt(c.faults, 0).None?
  }

  /** Calls served one after another, as the store serialises them: their responses and the final store. */
  function ServeAll(s: Store, calls: seq<Call>): (r: (seq<Outcome>, Store))
    ensures |r.0| == |calls|
    decreases |calls|
  {
    if |calls| == 0 then ([], s)
    else
      var h := Handle(s, calls[0].retries, calls[0].faults, calls[0].now, 0);
      var rest := ServeAll(h.1, calls[1..]);
      ([h.0] + rest.0, rest.1)
  }

  function Count(o: Outcome, os: seq<Outcome>): nat
    decreases |os|
  {
    if |os| == 0 then 0 else (if os[0] == o then 1 else 0) + Count(o, os[1..])
  }

  function Min(a: int, b: int): int
  {
    if a < b then a else b
  }

  /**
    No oversell, over any serial sequence of calls and any errors: the ledger
    stays balanced, stock never goes negative, and the number of 200 responses
    equals the number of purchase records added, never more than the stock.
  */
  lemma {:induction false} SerialCallsNeverOversell(s: Store, initial: int, calls: seq<Call>)
    requires Ledger(s, initial)
    ensures var (os, t) := ServeAll(s, calls);
      && Ledger(t, initial)
      && Count(Purchased, os) == |t.purchases| - |s.purchases|
      && Count(Purchased, os) <= s.stock.value
    decreases |calls|
  {
    if |calls| > 0 {
      var c := calls[0];
      HandleKeepsLedger(s, initial, c.retries, c.faults, c.now, 0);
      var h := Handle(s, c.retries, c.faults, c.now, 0);
      SerialCallsNeverOversell(h.1, initial, calls[1..]);
    }
  }

  /**
    No oversell and no undersell: N error-free calls against stock S get exactly
    min(S, N) responses of 200 and N - min(S, N) of 410, leaving S - min(S, N).
  */
  lemma {:induction false} CleanCallsAllocateExactly(s: Store, initial: int, calls: seq<Call>)
    requires Ledger(s, initial)
    requires forall i :: 0 <= i < |calls| ==> Clean(calls[i])
    ensures var (os, t) := ServeAll(s, calls);
      var sold := Min(s.stock.value, |calls|);
      && Count(Purchased, os) == sold
      && Count(SoldOut, os) == |calls| - sold
      && t.stock == Some(s.stock.value - sold)
      && Ledger(t, initial)
    decreases |calls|
  {
    if |calls| > 0 {
      var c := calls[0];
      assert Clean(c);
      HandleKeepsLedger(s, initial, c.retries, c.faults, c.now, 0);
      var h := Handle(s, c.retries, c.faults, c.now, 0);
      assert h.0 == Purchased || h.0 == SoldOut;
      assert h.0 == Purchased <==> s.stock.value > 0;
      CleanCallsAllocateExactly(h.1, initial, calls[1..]);
    }
  }

  /** A 410 is only ever answered when the stock read is not positive, however many retries came before. */
  lemma {:induction false} SoldOutMeansEmpty(s: Store, retries: int, faults: seq<Option<string>>, now: string, attempt: nat)
    requires Handle(s, retries, faults, now, attempt).0 == SoldOut
    ensures StockRead(s) <= 0
    decreases retries - attempt
  {
    var r := Attempt(s, FaultAt(faults, attempt), now);
    if r.Raised? && IsLockError(r.message) && attempt < retries - 1 {
      SoldOutMeansEmpty(s, retries, faults, now, attempt + 1);
    }
  }

  /**
    No undersell under any errors: over any serial sequence of calls, the number
    of sales is the smaller of the starting stock and the number of calls that
    got a definite answer (200 or 410). A 410 is only answered once every unit
    is sold; calls that end in 500 neither sell nor count against the stock.
  */
  lemma {:induction false} SerialCallsNeverUndersell(s: Store, initial: int, calls: seq<Call>)
    requires Ledger(s, initial)
    ensures var (os, t) := ServeAll(s, calls);
      Count(Purchased, os) == Min(s.stock.value, Count(Purchased, os) + Count(SoldOut, os))
    decreases |calls|
  {
    if |calls| > 0 {
      var c := calls[0];
      HandleKeepsLedger(s, initial, c.retries, c.faults, c.now, 0);
      var h := Handle(s, c.retries, c.faults, c.now, 0);
      if h.0 == SoldOut {
        SoldOutMeansEmpty(s, c.retries, c.faults, c.now, 0);
      }
      SerialCallsNeverUndersell(h.1, initial, calls[1..]);
    }
  }

  /**
    The stress scenario: from the initial stock of 100, 1000 error-free calls sell
    exactly 100 and answer 410 to 900. As an extra case beyond that scenario, a
    second wave of 50 calls after the sell-out all answer 410.
  */
  lemma StressScenario(wave1: seq<Call>, wave2: seq<Call>)
    requires |wave1| == 1000 && |wave2| == 50
    requires forall i :: 0 <= i < |wave1| ==> Clean(wave1[i])
    requires forall i :: 0 <= i < |wave2| ==> Clean(wave2[i])
    ensures var (os1, t1) := ServeAll(Store(Some(InitialStock), []), wave1);
      var (os2, t2) := ServeAll(t1, wave2);
      && Count(Purchased, os1) == 100 && Count(SoldOut, os1) == 900
      && Count(Purchased, os2) == 0 && Count(SoldOut, os2) == 50
      && t2.stock == Some(0) && |t2.purchases| == 100
  {
    var s0 := Store(Some(InitialStock), []);
    CleanCallsAllocateExactly(s0, InitialStock, wave1);
    var t1 := ServeAll(s0, wave1).1;
    CleanCallsAllocateExactly(t1, InitialStock, wave2);
  }
}
