/** The one-place queue that takes a card's event from the socket's thread to the reader's
    worker: which cards reach the worker. */
module TargetEvents {
  import opened Words
  import opened Wrappers
  import W = ReaderWorker

  datatype Item = Card(payload: seq<byte>) | Fault

  /** What a thread does to the queue at once: `put_nowait`, which a full queue refuses; the
      worker's wait, over which it takes what the queue holds; and a `get_nowait` whose result
      is thrown away.  A run is any interleaving. */
  datatype Op = Put(item: Item) | Wait | Drop

  predicate Takes(op: Op) {
    op.Wait? || op.Drop?
  }

  /** The put whose item the queue holds before step `n`. */
  function Held(ops: seq<Op>, n: nat): Option<nat>
    requires n <= |ops|
    decreases n
  {
    if n == 0 then None
    else if Takes(ops[n - 1]) then None
    else if Held(ops, n - 1).None? then Some(n - 1)
    else Held(ops, n - 1)
  }

  /** The wait at `j` receives what was put at `i`. */
  predicate ReceivedAt(ops: seq<Op>, i: nat, j: nat) {
    i < j < |ops| && ops[j].Wait? && Held(ops, j) == Some(i)
  }

  ghost predicate Received(ops: seq<Op>, i: nat) {
    exists j: nat :: ReceivedAt(ops, i, j)
  }

  predicate NothingTaken(ops: seq<Op>, i: nat, n: nat)
    requires n <= |ops|
  {
    forall k | i < k < n :: ops[k].Put?
  }

  /** Every item put before step `n` has been taken out by then, or was refused. */
  predicate FreeAt(ops: seq<Op>, n: nat)
    requires n <= |ops|
  {
    forall p: nat | p < n && ops[p].Put? :: !NothingTaken(ops, p, n)
  }

  /** The first step after `i` that takes something out is the worker's. */
  ghost predicate WorkerIsNext(ops: seq<Op>, i: nat) {
    exists j: nat :: NextTaker(ops, i, j) && ops[j].Wait?
  }

  predicate NextTaker(ops: seq<Op>, i: nat, j: nat) {
    i < j < |ops| && Takes(ops[j]) && NothingTaken(ops, i, j)
  }

  // ----- Which cards are received -----

  lemma {:induction false} HeldMeans(ops: seq<Op>, n: nat)
    requires n <= |ops|
    ensures Held(ops, n).None? <==> FreeAt(ops, n)
    ensures Held(ops, n).Some? ==>
              var i := Held(ops, n).value; i < n && ops[i].Put? && NothingTaken(ops, i, n) && FreeAt(ops, i)
    decreases n
  {
    if n > 0 {
      HeldMeans(ops, n - 1);
      if Takes(ops[n - 1]) {
        forall p: nat | p < n && ops[p].Put? ensures !NothingTaken(ops, p, n) {
          assert p < n - 1 && !ops[n - 1].Put?;
        }
      } else {
        var i := Held(ops, n).value;
        assert NothingTaken(ops, i, n) && ops[i].Put?;
      }
    }
  }

  lemma {:induction false} StaysInQueue(ops: seq<Op>, i: nat, n: nat)
    requires i < n <= |ops| && ops[i].Put? && FreeAt(ops, i) && NothingTaken(ops, i, n)
    ensures Held(ops, n) == Some(i)
    decreases n
  {
    if n == i + 1 {
      HeldMeans(ops, i);
    } else {
      StaysInQueue(ops, i, n - 1);
    }
  }

  /** An item reaches the worker if and only if the queue was free when it was put, and the
      next to take something out is the worker: not a session that clears the queue at its
      start, and not a fault that is put in its place. */
  lemma ReceivedExactly(ops: seq<Op>, i: nat)
    requires i < |ops| && ops[i].Put?
    ensures Received(ops, i) <==> FreeAt(ops, i) && WorkerIsNext(ops, i)
  {
    forall j: nat | ReceivedAt(ops, i, j) ensures FreeAt(ops, i) && NextTaker(ops, i, j) {
      HeldMeans(ops, j);
    }
    if FreeAt(ops, i) && WorkerIsNext(ops, i) {
      var j: nat :| NextTaker(ops, i, j) && ops[j].Wait?;
      StaysInQueue(ops, i, j);
      assert ReceivedAt(ops, i, j);
    }
  }

  /** Items are received at most once, and in the order in which they were put. */
  lemma ReceivedOnceInOrder(ops: seq<Op>, i: nat, j: nat, k: nat, l: nat)
    requires ReceivedAt(ops, i, k) && ReceivedAt(ops, j, l)
    ensures i < j <==> k < l
  {
    HeldMeans(ops, k);
    HeldMeans(ops, l);
    if k < l {
      assert !ops[k].Put?;
    } else if l < k {
      assert !ops[l].Put?;
    }
  }

  // ----- What the worker makes of them -----

  /** What the wait at `j` finds. */
  function Found(ops: seq<Op>, j: nat): W.Start
    requires j < |ops|
  {
    if Held(ops, j).None? then W.Quiet
    else
      var i := Held(ops, j).value;
      if i >= |ops| || !ops[i].Put? then W.Quiet
      else if ops[i].item.Fault? then W.Faulted
      else W.Presented(ops[i].item.payload)
  }

  /** The rounds that had a connection found what they found at the waits `waits`, one after the
      other. */
  ghost predicate FoundAt(ops: seq<Op>, rounds: seq<W.Round>, waits: seq<nat>) {
    && |waits| == |rounds|
    && (forall n | 0 <= n < |rounds| && !rounds[n].start.NoConnection? ::
          waits[n] < |ops| && ops[waits[n]].Wait? && rounds[n].start == Found(ops, waits[n]))
    && (forall m, n | 0 <= m < n < |rounds| && !rounds[m].start.NoConnection? && !rounds[n].start.NoConnection? :: waits[m] < waits[n])
  }

  /** The put at `i` is a card's that the worker receives and can read. */
  ghost predicate ReadableCard(ops: seq<Op>, i: nat) {
    && i < |ops| && ops[i].Put? && ops[i].item.Card? && Received(ops, i)
    && W.DecodeDiscovery(ops[i].item.payload).Ok? && W.DecodeDiscovery(ops[i].item.payload).value.Some?
  }

  /** The card of the round `n`. */
  lemma CardOf(ops: seq<Op>, rounds: seq<W.Round>, waits: seq<nat>, n: nat) returns (i: nat)
    requires FoundAt(ops, rounds, waits) && n < |rounds| && W.HasTarget(rounds[n])
    ensures ReceivedAt(ops, i, waits[n]) && ReadableCard(ops, i)
  {
    HeldMeans(ops, waits[n]);
    i := Held(ops, waits[n]).value;
    assert ReceivedAt(ops, i, waits[n]);
  }

  /** The cards of the first of the rounds `at`. */
  ghost predicate CardsOf(ops: seq<Op>, waits: seq<nat>, at: seq<nat>, cards: seq<nat>) {
    && |cards| <= |at| && W.Increasing(cards)
    && forall k | 0 <= k < |cards| :: ReadableCard(ops, cards[k]) && at[k] < |waits| && ReceivedAt(ops, cards[k], waits[at[k]])
  }

  lemma NextCard(ops: seq<Op>, rounds: seq<W.Round>, waits: seq<nat>, at: seq<nat>, cards: seq<nat>) returns (i: nat)
    requires FoundAt(ops, rounds, waits) && CardsOf(ops, waits, at, cards) && |cards| < |at| && W.Increasing(at)
    requires forall k | 0 <= k < |at| :: W.Serves(rounds, at[k])
    ensures CardsOf(ops, waits, at, cards + [i])
  {
    var k := |cards|;
    assert W.Serves(rounds, at[k]);
    i := CardOf(ops, rounds, waits, at[k]);
    if k > 0 {
      assert W.Serves(rounds, at[k - 1]);
      ReceivedOnceInOrder(ops, cards[k - 1], i, waits[at[k - 1]], waits[at[k]]);
    }
  }

  /** Each RESUME is for a card of its own that the worker received; a card whose event was
      dropped gets none. */
  lemma ResumesAnswerReceivedCards(ops: seq<Op>, rounds: seq<W.Round>, waits: seq<nat>) returns (cards: seq<nat>)
    requires FoundAt(ops, rounds, waits)
    ensures |cards| == |W.Resumes(rounds)| && W.Increasing(cards)
    ensures forall k | 0 <= k < |cards| :: ReadableCard(ops, cards[k])
  {
    var at := W.OneResumePerTarget(rounds);
    forall k | 0 <= k < |at| ensures W.Serves(rounds, at[k]) {
      assert at[k] in at;
    }
    cards := [];
    while |cards| < |at|
      invariant CardsOf(ops, waits, at, cards)
    {
      var i := NextCard(ops, rounds, waits, at, cards);
      cards := cards + [i];
    }
  }

  /** A fault that the worker takes out of the queue ends its session: no round is polled behind
      it, and the round that took it raises. */
  lemma FaultEndsSession(ops: seq<Op>, rounds: seq<W.Round>, waits: seq<nat>, i: nat, k: nat,
                         before: seq<W.Poll>, n: nat, failures: nat, verdict: W.Verdict)
    requires FoundAt(ops, rounds, waits) && k < |rounds| && !rounds[k].start.NoConnection?
    requires i < |ops| && ops[i] == Put(Fault) && ReceivedAt(ops, i, waits[k])
    requires W.SessionAt(rounds, before, n, failures, verdict)
    ensures n <= k + 1 && (n == k + 1 ==> verdict == W.Raise)
  {
    W.NeverPastBreak(rounds, before, n, failures, verdict, k);
  }

  // ----- The queue -----

  function Contents(ops: seq<Op>): seq<Item> {
    var h := Held(ops, |ops|);
    if h.None? || h.value >= |ops| || !ops[h.value].Put? then [] else [ops[h.value].item]
  }

  lemma {:induction false} HeldBefore(ops: seq<Op>, op: Op, n: nat)
    requires n <= |ops|
    ensures Held(ops + [op], n) == Held(ops, n)
    decreases n
  {
    if n > 0 {
      HeldBefore(ops, op, n - 1);
    }
  }

  /** How one step changes the contents. */
  lemma OneOp(ops: seq<Op>, op: Op)
    ensures Contents(ops + [op]) == if Takes(op) then [] else if Contents(ops) == [] then [op.item] else Contents(ops)
  {
    HeldBefore(ops, op, |ops|);
    HeldMeans(ops, |ops|);
  }

  /** The target events of a `ReaderConnection`. */
  class TargetQueue {
    var items: seq<Item>

    constructor ()
      ensures items == Contents([])
    {
      items := [];
    }

    /** `put_nowait` on a queue for one item. */
    method PutNoWait(item: Item, ghost ops: seq<Op>) returns (full: bool)
      requires items == Contents(ops)
      modifies this
      ensures items == Contents(ops + [Put(item)]) && full == (Contents(ops) != [])
    {
      OneOp(ops, Put(item));
      full := |items| >= 1;
      if !full {
        items := [item];
      }
    }

    /** `get_nowait`, or a `get` that waits no longer. */
    method GetNoWait(op: Op, ghost ops: seq<Op>) returns (item: Option<Item>)
      requires items == Contents(ops) && Takes(op)
      modifies this
      ensures items == Contents(ops + [op])
      ensures item == if Contents(ops) == [] then None else Some(Contents(ops)[0])
    {
      OneOp(ops, op);
      if |items| == 0 {
        return None;
      }
      item := Some(items[0]);
      items := items[1..];
    }

    /** `wait_for_target`: the reader's fault raises. */
    method WaitForTarget(ghost ops: seq<Op>) returns (found: W.Start)
      requires items == Contents(ops)
      modifies this
      ensures items == Contents(ops + [Wait]) && found == Found(ops + [Wait], |ops|)
    {
      HeldBefore(ops, Wait, |ops|);
      HeldMeans(ops, |ops|);
      var event := GetNoWait(Wait, ops);
      if event.None? {
        return W.Quiet;
      }
      match event.value
      case Fault => found := W.Faulted;
      case Card(payload) => found := W.Presented(payload);
    }

    /** `clear_target_events` */
    method ClearTargetEvents(ghost ops: seq<Op>) returns (ghost more: seq<Op>)
      requires items == Contents(ops)
      modifies this
      ensures items == [] == Contents(ops + more) && more != [] && forall op :: op in more ==> op == Drop
    {
      var event := GetNoWait(Drop, ops);
      more := [Drop];
      while event.Some?
        invariant items == Contents(ops + more) && more != [] && (forall op :: op in more ==> op == Drop)
        invariant |items| == 0
        decreases if event.Some? then 1 else 0
      {
        event := GetNoWait(Drop, ops + more);
        more := more + [Drop];
      }
    }

    /** `dispatch_fault`: the fault takes the place of what was there. */
    method DispatchFault(ghost ops: seq<Op>) returns (ghost more: seq<Op>)
      requires items == Contents(ops)
      modifies this
      ensures items == [Fault] == Contents(ops + more)
    {
      more := ClearTargetEvents(ops);
      OneOp(ops + more, Put(Fault));
      var full := PutNoWait(Fault, ops + more);
      assert ops + more + [Put(Fault)] == ops + (more + [Put(Fault)]);
      more := more + [Put(Fault)];
    }
  }
}
