/** Request/response correlation across the controller's threads.

    Many threads call `request`; one thread reads the socket.  Each step below is what one
    thread does while it holds the pending-table's lock, or one operation on a response
    queue; a run is any interleaving of such steps.  Callers are numbered in the order of
    their id allocations, which no thread can see. */
module Correlation {
  import opened Words
  import opened Wrappers

  const PERIOD := 0xFFFF_FFFF

  /** The id of the n-th allocation: 1 to 2^32 - 1, then 1 again. */
  function IdOf(n: nat): u32 {
    n % PERIOD + 1
  }

  /** A message from the reader, and the request it answers; bytes that the reader could
      not decode are answered under id 0 and answer nobody's request. */
  datatype Reply = Reply(requestId: u32, answers: Option<nat>)

  datatype Delivery = Answer(reply: Reply) | Disconnected

  datatype Phase = HasId | Waiting | Returned(received: Option<Delivery>)

  datatype Table = Table(
    nextRequestId: u32,
    issued: nat,
    pending: map<u32, nat>,          // request id to the caller whose queue it is
    queues: map<nat, seq<Delivery>>,
    callers: map<nat, Phase>,
    found: Option<(nat, Reply)>,     // the socket thread between its lookup and its put
    answered: set<nat>,              // requests whose reply has been read from the socket
    failing: Option<set<nat>>,       // the queues that the ended socket thread still has to fail
    overflowed: bool)                // a put found its queue full

  const NEW_TABLE := Table(1, 0, map[], map[], map[], None, {}, None, false)

  datatype Step =
    | Allocate
    | Insert(caller: nat)
    | Lookup(reply: Reply)
    | Put
    | Get(caller: nat)
    | TimeOut(caller: nat)
    | EndSocket
    | FailOne(caller: nat)

  /** What a caller does on its way out of `request`, whatever brought it there. */
  function Return(t: Table, caller: nat, received: Option<Delivery>): Table {
    t.(pending := t.pending - {IdOf(caller)}, callers := t.callers[caller := Returned(received)])
  }

  function Take(t: Table, s: Step): Table {
    match s
    case Allocate =>
      t.(nextRequestId := if t.nextRequestId == 0xFFFF_FFFF then 1 else t.nextRequestId as int + 1,
         issued := t.issued + 1,
         callers := t.callers[t.issued := HasId])
    case Insert(n) =>
      t.(queues := t.queues[n := []], pending := t.pending[IdOf(n) := n], callers := t.callers[n := Waiting])
    case Lookup(r) =>
      var seen := t.(answered := t.answered + if r.answers.Some? then {r.answers.value} else {});
      if r.requestId in t.pending then seen.(found := Some((t.pending[r.requestId], r))) else seen
    case Put =>
      if t.found.None? then t
      else
        var (n, r) := t.found.value;
        if n in t.queues && t.queues[n] == [] then t.(found := None, queues := t.queues[n := [Answer(r)]])
        else t.(found := None, overflowed := true)
    case Get(n) =>
      if n in t.queues && t.queues[n] != []
      then Return(t.(queues := t.queues[n := t.queues[n][1..]]), n, Some(t.queues[n][0]))
      else t
    case TimeOut(n) => Return(t, n, None)
    case EndSocket => t.(failing := Some(set id | id in t.pending :: t.pending[id]))
    case FailOne(n) =>
      if n in t.queues && t.queues[n] == [] then t.(queues := t.queues[n := [Disconnected]]) else t
  }

  /** Callers that still hold, or may still insert, their id. */
  predicate Live(t: Table, n: nat) {
    n in t.callers && !t.callers[n].Returned?
  }

  /** When a step can happen.  A thread does its steps in order; the socket thread looks up
      a reply only after it has put the last one, and fails queues only when it has ended.
      The reader answers a request at most once and under its id.  And the one assumption
      about numbers: fewer than 2^32 - 1 allocations happen while a request is live or its
      reply under way. */
  predicate Enabled(t: Table, s: Step) {
    match s
    case Allocate => forall n :: n in t.callers && Live(t, n) ==> t.issued + 1 - n <= PERIOD
    case Insert(n) => n in t.callers && t.callers[n] == HasId
    case Lookup(r) =>
      && t.found.None? && t.failing.None?
      && (match r.answers
          case None => r.requestId == 0
          case Some(n) => r.requestId == IdOf(n) && n in t.queues && n !in t.answered && t.issued - n <= PERIOD)
    case Put => t.found.Some?
    case Get(n) => n in t.callers && t.callers[n] == Waiting
    case TimeOut(n) => n in t.callers && t.callers[n] == Waiting
    case EndSocket => t.found.None? && t.failing.None?
    case FailOne(n) => t.failing.Some? && n in t.failing.value
  }

  /** The caller has returned with a message from the reader. */
  predicate GotAnswer(t: Table, n: nat) {
    n in t.callers && t.callers[n].Returned? && t.callers[n].received.Some? && t.callers[n].received.value.Answer?
  }

  // ----- The invariant -----

  predicate QueueInv(t: Table, n: nat)
    requires n in t.queues
  {
    && |t.queues[n]| <= 1
    && (t.queues[n] != [] && t.queues[n][0].Answer? ==>
          t.queues[n][0].reply == Reply(IdOf(n), Some(n)) && n in t.answered)
    && (t.queues[n] != [] && t.queues[n][0].Disconnected? ==> t.failing.Some?)
  }

  predicate CallerInv(t: Table, n: nat)
    requires n in t.callers
  {
    && n < t.issued
    && (t.callers[n] != HasId <==> n in t.queues)
    && (Live(t, n) ==> t.issued - n <= PERIOD)
    && (t.callers[n] == Waiting ==> IdOf(n) in t.pending && t.pending[IdOf(n)] == n)
    && (GotAnswer(t, n) ==> t.callers[n].received.value.reply == Reply(IdOf(n), Some(n)))
  }

  ghost predicate Inv(t: Table) {
    && t.nextRequestId == IdOf(t.issued) && !t.overflowed
    && (forall n :: n in t.queues ==> n in t.callers && QueueInv(t, n))
    && (forall n :: n in t.callers ==> CallerInv(t, n))
    && (forall id :: id in t.pending ==>
          var n := t.pending[id]; n in t.callers && t.callers[n] == Waiting && IdOf(n) == id)
    && (t.found.Some? ==>
          var (n, r) := t.found.value;
          && t.failing.None? && n in t.queues && t.queues[n] == [] && n in t.answered
          && r == Reply(IdOf(n), Some(n)))
  }

  /** Within one period no two allocations share an id. */
  lemma IdsDistinctWithinPeriod(m: nat, n: nat)
    requires IdOf(m) == IdOf(n) && -PERIOD < m - n < PERIOD
    ensures m == n
  {
  }

  lemma LookupFindsTheCaller(t: Table, r: Reply)
    requires Inv(t) && Enabled(t, Lookup(r)) && r.requestId in t.pending
    ensures r.answers == Some(t.pending[r.requestId]) && t.queues[t.pending[r.requestId]] == []
  {
  }

  lemma LookupKeepsInv(t: Table, r: Reply)
    requires Inv(t) && Enabled(t, Lookup(r))
    ensures Inv(Take(t, Lookup(r)))
  {
    var u := Take(t, Lookup(r));
    if r.requestId in t.pending {
      LookupFindsTheCaller(t, r);
      assert CallerInv(t, t.pending[r.requestId]);
    }
    forall n | n in u.queues ensures QueueInv(u, n) {
      assert QueueInv(t, n);
    }
    forall n | n in u.callers ensures CallerInv(u, n) {
      assert CallerInv(t, n);
    }
  }

  lemma AllocateKeepsInv(t: Table)
    requires Inv(t) && Enabled(t, Allocate)
    ensures Inv(Take(t, Allocate))
  {
    var u := Take(t, Allocate);
    NextId(t.issued);
    forall n | n in u.callers ensures CallerInv(u, n) {
      if n in t.callers {
        assert CallerInv(t, n);
      }
    }
    forall n | n in u.queues ensures QueueInv(u, n) {
      assert QueueInv(t, n);
    }
    assert t.issued !in t.callers;
  }

  lemma NextId(n: nat)
    ensures IdOf(n + 1) == if IdOf(n) == 0xFFFF_FFFF then 1 else IdOf(n) as int + 1
  {
  }

  lemma InsertKeepsInv(t: Table, n: nat)
    requires Inv(t) && Enabled(t, Insert(n))
    ensures Inv(Take(t, Insert(n)))
  {
    var u := Take(t, Insert(n));
    assert CallerInv(t, n) && Live(t, n);
    if IdOf(n) in t.pending {
      var k := t.pending[IdOf(n)];
      assert CallerInv(t, k) && Live(t, k);
      IdsDistinctWithinPeriod(k, n);
    }
    forall k | k in u.callers ensures CallerInv(u, k) {
      assert CallerInv(t, k);
    }
    forall k | k in u.queues ensures k in u.callers && QueueInv(u, k) {
      if k != n {
        assert QueueInv(t, k);
      }
    }
  }

  lemma ReturnKeepsInv(t: Table, n: nat, received: Option<Delivery>)
    requires Inv(t) && n in t.callers && t.callers[n] == Waiting
    requires received.Some? && received.value.Answer? ==> received.value.reply == Reply(IdOf(n), Some(n))
    ensures Inv(Return(t, n, received))
  {
    var u := Return(t, n, received);
    assert CallerInv(t, n);
    forall k | k in u.callers ensures CallerInv(u, k) {
      assert CallerInv(t, k);
    }
    forall k | k in u.queues ensures QueueInv(u, k) {
      assert QueueInv(t, k);
    }
  }

  lemma GetKeepsInv(t: Table, n: nat)
    requires Inv(t) && Enabled(t, Get(n))
    ensures Inv(Take(t, Get(n)))
  {
    assert CallerInv(t, n) && QueueInv(t, n);
    if t.queues[n] != [] {
      var emptied := t.(queues := t.queues[n := t.queues[n][1..]]);
      assert Inv(emptied) by {
        QueueChangeKeepsInv(t, n, []);
      }
      ReturnKeepsInv(emptied, n, Some(t.queues[n][0]));
    }
  }

  /** A queue may be emptied, or filled with what it may hold. */
  lemma QueueChangeKeepsInv(t: Table, n: nat, content: seq<Delivery>)
    requires Inv(t) && n in t.queues && |content| <= 1
    requires content == [] || (content == [Disconnected] && t.failing.Some?)
    ensures Inv(t.(queues := t.queues[n := content]))
  {
  }

  lemma PutKeepsInv(t: Table)
    requires Inv(t) && Enabled(t, Put)
    ensures Inv(Take(t, Put))
  {
    var u := Take(t, Put);
    forall k | k in u.queues ensures k in u.callers && QueueInv(u, k) {
      assert QueueInv(t, k);
    }
    forall k | k in u.callers ensures CallerInv(u, k) {
      assert CallerInv(t, k);
    }
  }

  lemma EndKeepsInv(t: Table)
    requires Inv(t) && Enabled(t, EndSocket)
    ensures Inv(Take(t, EndSocket))
  {
  }

  lemma StepKeepsInv(t: Table, s: Step)
    requires Inv(t) && Enabled(t, s)
    ensures Inv(Take(t, s))
  {
    match s
    case Allocate => AllocateKeepsInv(t);
    case Insert(n) => InsertKeepsInv(t, n);
    case Lookup(r) => LookupKeepsInv(t, r);
    case Put => PutKeepsInv(t);
    case Get(n) => GetKeepsInv(t, n);
    case TimeOut(n) => ReturnKeepsInv(t, n, None);
    case EndSocket => EndKeepsInv(t);
    case FailOne(n) =>
      if n in t.queues && t.queues[n] == [] {
        QueueChangeKeepsInv(t, n, [Disconnected]);
      }
  }

  // ----- Over every interleaving -----

  function Run(steps: seq<Step>): Table
    decreases |steps|
  {
    if steps == [] then NEW_TABLE else Take(Run(steps[..|steps| - 1]), steps[|steps| - 1])
  }

  predicate AllEnabled(steps: seq<Step>)
    decreases |steps|
  {
    steps == [] || (AllEnabled(steps[..|steps| - 1]) && Enabled(Run(steps[..|steps| - 1]), steps[|steps| - 1]))
  }

  lemma {:induction false} EveryRunKeepsInv(steps: seq<Step>)
    requires AllEnabled(steps)
    ensures Inv(Run(steps))
    decreases |steps|
  {
    if steps != [] {
      EveryRunKeepsInv(steps[..|steps| - 1]);
      StepKeepsInv(Run(steps[..|steps| - 1]), steps[|steps| - 1]);
    }
  }

  /** Correlation: in every interleaving a caller that gets a message has got the reader's
      reply to its own request, under its own id, which is never 0; no put finds a queue
      full; and every id handed out lies in 1..2^32 - 1. */
  lemma OwnReplyOnly(steps: seq<Step>)
    requires AllEnabled(steps)
    ensures var t := Run(steps);
            && !t.overflowed && 1 <= t.nextRequestId
            && (forall n :: GotAnswer(t, n) ==> t.callers[n].received.value.reply == Reply(IdOf(n), Some(n)) && IdOf(n) != 0)
  {
    EveryRunKeepsInv(steps);
    var t := Run(steps);
    forall n | GotAnswer(t, n)
      ensures t.callers[n].received.value.reply == Reply(IdOf(n), Some(n))
    {
      assert CallerInv(t, n);
    }
  }

  /** A reply that comes after its caller has returned reaches nobody: the table and every
      queue stay as they are. */
  lemma LateReplyReachesNobody(steps: seq<Step>, n: nat)
    requires AllEnabled(steps) && Enabled(Run(steps), Lookup(Reply(IdOf(n), Some(n))))
    requires var t := Run(steps); n in t.callers && t.callers[n].Returned?
    ensures var t, u := Run(steps), Take(Run(steps), Lookup(Reply(IdOf(n), Some(n))));
            u.found.None? && u.pending == t.pending && u.queues == t.queues && u.callers == t.callers
  {
    EveryRunKeepsInv(steps);
    var t := Run(steps);
    if IdOf(n) in t.pending {
      LookupFindsTheCaller(t, Reply(IdOf(n), Some(n)));
    }
  }

  lemma ReplyIsDelivered(t: Table, n: nat)
    requires Inv(t) && Enabled(t, Lookup(Reply(IdOf(n), Some(n)))) && n in t.callers && t.callers[n] == Waiting
    ensures var r := Reply(IdOf(n), Some(n)); var t1 := Take(t, Lookup(r)); var t2 := Take(t1, Put); var t3 := Take(t2, Get(n));
            && Enabled(t1, Put) && Enabled(t2, Get(n))
            && t2.queues == t.queues[n := [Answer(r)]] && t3.callers == t.callers[n := Returned(Some(Answer(r)))]
            && IdOf(n) !in t3.pending && t3.found.None? && t3.failing.None? && t3.issued == t.issued
  {
    assert CallerInv(t, n);
    LookupFindsTheCaller(t, Reply(IdOf(n), Some(n)));
  }

  /** A reply that comes while its caller waits is put where that caller, and only that
      caller, gets it. */
  lemma ReplyReachesItsCaller(steps: seq<Step>, n: nat)
    requires AllEnabled(steps) && Enabled(Run(steps), Lookup(Reply(IdOf(n), Some(n))))
    requires var t := Run(steps); n in t.callers && t.callers[n] == Waiting
    ensures var u := Take(Take(Run(steps), Lookup(Reply(IdOf(n), Some(n)))), Put);
            && u.queues == Run(steps).queues[n := [Answer(Reply(IdOf(n), Some(n)))]]
            && Take(u, Get(n)).callers[n] == Returned(Some(Answer(Reply(IdOf(n), Some(n)))))
            && IdOf(n) !in Take(u, Get(n)).pending
  {
    EveryRunKeepsInv(steps);
    ReplyIsDelivered(Run(steps), n);
  }

  // ----- After the socket has ended -----

  function RunFrom(t: Table, steps: seq<Step>): Table
    decreases |steps|
  {
    if steps == [] then t else Take(RunFrom(t, steps[..|steps| - 1]), steps[|steps| - 1])
  }

  predicate AllEnabledFrom(t: Table, steps: seq<Step>)
    decreases |steps|
  {
    steps == []
    || (AllEnabledFrom(t, steps[..|steps| - 1]) && Enabled(RunFrom(t, steps[..|steps| - 1]), steps[|steps| - 1]))
  }

  lemma {:induction false} RunFromKeepsInv(t: Table, steps: seq<Step>)
    requires Inv(t) && AllEnabledFrom(t, steps)
    ensures Inv(RunFrom(t, steps))
    decreases |steps|
  {
    if steps != [] {
      RunFromKeepsInv(t, steps[..|steps| - 1]);
      StepKeepsInv(RunFrom(t, steps[..|steps| - 1]), steps[|steps| - 1]);
    }
  }

  /** The caller has returned, or finds something in its queue when it next looks. */
  predicate Released(t: Table, n: nat) {
    n in t.callers && (t.callers[n].Returned? || (t.callers[n] == Waiting && n in t.queues && t.queues[n] != []))
  }

  /** The caller is past the insertion of its queue. */
  predicate Inserted(t: Table, n: nat) {
    n in t.callers && t.callers[n] != HasId
  }

  lemma StaysReleased(t: Table, s: Step, n: nat)
    requires Inv(t) && Enabled(t, s) && Inserted(t, n)
    ensures Inserted(Take(t, s), n)
    ensures Released(t, n) || s == FailOne(n) ==> Released(Take(t, s), n)
  {
    assert CallerInv(t, n);
  }

  lemma {:induction false} FailedIsReleased(t: Table, steps: seq<Step>, n: nat)
    requires Inv(t) && AllEnabledFrom(t, steps) && Inserted(t, n)
    ensures Inserted(RunFrom(t, steps), n)
    ensures FailOne(n) in steps ==> Released(RunFrom(t, steps), n)
    decreases |steps|
  {
    if steps != [] {
      var init, last := steps[..|steps| - 1], steps[|steps| - 1];
      FailedIsReleased(t, init, n);
      RunFromKeepsInv(t, init);
      StaysReleased(RunFrom(t, init), last, n);
      assert steps == init + [last];
    }
  }

  /** Once the socket thread has ended and has failed every queue it found, every caller that
      was waiting then has returned or returns when it next looks, whatever else the threads
      have done in between. */
  lemma EndReleasesWaiters(t: Table, steps: seq<Step>)
    requires Inv(t) && Enabled(t, EndSocket) && AllEnabledFrom(Take(t, EndSocket), steps)
    requires forall n :: n in Take(t, EndSocket).failing.value ==> FailOne(n) in steps
    ensures var u := RunFrom(Take(t, EndSocket), steps);
            forall n :: n in t.callers && t.callers[n] == Waiting ==>
              Released(u, n) && (u.callers[n] == Waiting ==> Take(u, Get(n)).callers[n].Returned?)
  {
    var began := Take(t, EndSocket);
    EndKeepsInv(t);
    forall n | n in t.callers && t.callers[n] == Waiting
      ensures Released(RunFrom(began, steps), n)
    {
      assert CallerInv(t, n);
      assert t.pending[IdOf(n)] in began.failing.value;
      FailedIsReleased(began, steps, n);
    }
  }

  // ----- The table as the controller keeps it -----

  /** `ReaderConnection`: the fields that the threads share.  `issued` and the callers'
      phases are known to no thread. */
  class ReaderConnection {
    var nextRequestId: u32
    var pending: map<u32, nat>
    var queues: map<nat, seq<Delivery>>

    constructor ()
      ensures nextRequestId == NEW_TABLE.nextRequestId && pending == NEW_TABLE.pending && queues == NEW_TABLE.queues
    {
      nextRequestId, pending, queues := 1, map[], map[];
    }

    /** The fields hold what table `t` says. */
    ghost predicate Holds(t: Table)
      reads this
    {
      nextRequestId == t.nextRequestId && pending == t.pending && queues == t.queues
    }

    /** `_allocate_request_id`, under the lock. */
    method AllocateRequestId(ghost t: Table) returns (requestId: u32)
      requires Inv(t) && Holds(t)
      modifies this`nextRequestId
      ensures Holds(Take(t, Allocate)) && requestId == IdOf(t.issued)
    {
      requestId := nextRequestId;
      nextRequestId := if requestId == 0xFFFF_FFFF then 1 else requestId as int + 1;
    }

    /** A caller's new queue goes into the table. */
    method InsertQueue(requestId: u32, queue: nat, ghost t: Table)
      requires Holds(t) && requestId == IdOf(queue)
      modifies this`pending, this`queues
      ensures Holds(Take(t, Insert(queue)))
    {
      queues := queues[queue := []];
      pending := pending[requestId := queue];
    }

    /** `dispatch`, the part under the lock. */
    method LookUp(reply: Reply, ghost t: Table) returns (queue: Option<nat>)
      requires Holds(t) && t.found.None?
      ensures Holds(Take(t, Lookup(reply)))
      ensures Take(t, Lookup(reply)).found == if queue.Some? then Some((queue.value, reply)) else None
    {
      queue := if reply.requestId in pending then Some(pending[reply.requestId]) else None;
    }

    /** `put_nowait` on a queue of size one; false is `queue.Full`. */
    method PutNoWait(queue: nat, reply: Reply, ghost t: Table) returns (accepted: bool)
      requires Holds(t) && t.found == Some((queue, reply)) && queue in queues
      modifies this`queues
      ensures Holds(Take(t, Put))
      ensures Take(t, Put).overflowed <==> t.overflowed || !accepted
    {
      accepted := |queues[queue]| < 1;
      if accepted {
        assert queues[queue] == [] && queues[queue] + [Answer(reply)] == [Answer(reply)];
        queues := queues[queue := queues[queue] + [Answer(reply)]];
      }
    }

    /** `get`, once something is there, and the clean-up behind it. */
    method GetAndReturn(requestId: u32, queue: nat, ghost t: Table) returns (received: Delivery)
      requires Holds(t) && requestId == IdOf(queue) && queue in queues && queues[queue] != []
      modifies this`pending, this`queues
      ensures Holds(Take(t, Get(queue)))
      ensures queue in t.callers ==> Take(t, Get(queue)).callers[queue] == Returned(Some(received))
    {
      received := queues[queue][0];
      queues := queues[queue := queues[queue][1..]];
      pending := pending - {requestId};
    }

    /** The clean-up after a time-out. */
    method GiveUp(requestId: u32, ghost queue: nat, ghost t: Table)
      requires Holds(t) && requestId == IdOf(queue)
      modifies this`pending
      ensures Holds(Take(t, TimeOut(queue)))
    {
      pending := pending - {requestId};
    }
  }
}
