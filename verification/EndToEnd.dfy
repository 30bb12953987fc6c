/** Both ends of one connection: the controller's threads with their table of pending requests,
    the socket in both directions, and the reader.  `Correlation` assumes that the reader
    answers a request at most once and under its own id; here the reader does. */
module EndToEnd {
  import opened Words
  import opened Wrappers
  import opened Protocol
  import opened ReaderMachine
  import opened ReaderRuns
  import C = Correlation

  /** What the controller can encode. */
  type Sendable = m: ProtocolMessage | |m.payload| <= MAX_PAYLOAD witness ProtocolMessage(0, 0, 0, [])

  datatype Request = Request(caller: nat, message: Sendable)

  /** How far a caller's request has come; nobody sees it. */
  datatype Stage = Queued | Running | Answering | Done

  datatype System = System(
    reader: Reader,
    table: C.Table,
    requests: seq<Request>,      // on their way to the reader
    running: seq<nat>,           // the caller whose transceive the reader runs
    replies: seq<C.Reply>,       // on their way to the controller
    stages: map<nat, Stage>)

  /** The socket has just come up, whatever the reader `r` did before. */
  function Joined(r: Reader): System {
    System(Take(r, Connected).0, C.NEW_TABLE, [], [], [], map[])
  }

  ghost predicate Begins(s: System) {
    exists r :: Inv(r) && s == Joined(r)
  }

  datatype Move =
    | Thread(step: C.Step)
    | Send(caller: nat, message: Sendable)
    | Serve(radio: Radio, now: nat)
    | Pass(bytes: seq<byte>, sweep: SweepResults, times: Times)
    | Garbage(raw: seq<byte>, radio: Radio, now: nat)
    | Read
    | Cut(event: Event)   // the connection is lost, or closed for an update

  function Raw(m: Sendable): seq<byte> {
    Encoding(m.code, m.requestId, m.timeoutMs, m.payload)
  }

  /** Replies with the ids the reader gave them; whose request they answer is noted. */
  function Noted(ids: seq<u32>, answers: Option<nat>): seq<C.Reply> {
    seq(|ids|, i requires 0 <= i < |ids| => C.Reply(ids[i], answers))
  }

  function Arrival(s: System, radio: Radio, now: nat): Event
    requires s.requests != []
  {
    Receive(Raw(s.requests[0].message), radio, now)
  }

  function After(s: System, move: Move): System
    requires Possible(s, move)
  {
    match move
    case Thread(step) => s.(table := C.Take(s.table, step))
    case Send(n, m) => s.(requests := s.requests + [Request(n, m)], stages := s.stages[n := Queued])
    case Serve(radio, now) =>
      var q := s.requests[0];
      var (r, out) := Take(s.reader, Arrival(s, radio, now));
      var ids := ReplyIds(out.messages);
      var kept := if q.message.code == TypeCode(Reset) then [] else s.running;
      var taken := Accepts(s.reader, q.message);
      s.(reader := r, requests := s.requests[1..],
         running := kept + if taken then [q.caller] else [],
         replies := s.replies + Noted(ids, Some(q.caller)),
         stages := s.stages[q.caller := if taken then Running else if ids != [] then Answering else Done])
    case Pass(bytes, sweep, times) =>
      var (r, out) := Take(s.reader, Loop(bytes, sweep, times));
      var ids := ReplyIds(out.messages);
      if ids == [] || s.running == [] then s.(reader := r, replies := s.replies + Noted(ids, None))
      else s.(reader := r, running := s.running[1..], replies := s.replies + Noted(ids, Some(s.running[0])),
              stages := s.stages[s.running[0] := Answering])
    case Garbage(raw, radio, now) =>
      var (r, out) := Take(s.reader, Receive(raw, radio, now));
      s.(reader := r, replies := s.replies + Noted(ReplyIds(out.messages), None))
    case Read => s.(table := C.Take(s.table, C.Lookup(s.replies[0])), replies := s.replies[1..], stages := Answered(s.stages, s.replies[0]))
    case Cut(event) =>
      s.(reader := Take(s.reader, event).0, requests := [], running := [], stages := AfterCut(s.stages))
  }

  function Answered(stages: map<nat, Stage>, r: C.Reply): map<nat, Stage> {
    if r.answers.Some? then stages[r.answers.value := Done] else stages
  }

  /** Requests that have no reply yet get none; replies already sent may still be read. */
  function AfterCut(stages: map<nat, Stage>): map<nat, Stage> {
    map n | n in stages :: if stages[n] == Answering then Answering else Done
  }

  /** The request is on its way, or its reply is. */
  predicate UnderWay(s: System, n: nat) {
    n in s.stages && s.stages[n] != Done
  }

  /** When a move can happen.  The controller sends a request once, with its queue in place and
      under its own id; it never sends what is itself a reply; a retry RESUME reaches the reader
      only between transceives.  And fewer than 2^32 - 1 allocations happen while a request is
      live or under way. */
  predicate Possible(s: System, move: Move) {
    match move
    case Thread(step) =>
      !step.Lookup? && C.Enabled(s.table, step)
      && (step.Allocate? ==> forall n :: n in s.stages && UnderWay(s, n) ==> s.table.issued + 1 - n <= C.PERIOD)
    case Send(n, m) =>
      && n in s.table.callers && s.table.callers[n] == C.Waiting && n !in s.stages
      && m.requestId == C.IdOf(n) && m.code != TypeCode(ButtonResult)
    case Serve(radio, now) => s.requests != [] && s.reader.connected && Allowed(s.reader, Arrival(s, radio, now))
    case Pass(_, _, _) => true
    case Garbage(raw, _, _) => s.reader.connected && DecodeMessage(raw).None?
    case Read => s.replies != [] && s.table.found.None? && s.table.failing.None?
    case Cut(event) => event == Disconnected || event == OtaStarted
  }

  // ----- The invariant -----

  predicate RequestInv(stages: map<nat, Stage>, q: Request) {
    && q.caller in stages && stages[q.caller] == Queued
    && q.message.requestId == C.IdOf(q.caller) && q.message.code != TypeCode(ButtonResult)
  }

  ghost predicate RequestsInv(stages: map<nat, Stage>, requests: seq<Request>) {
    && (forall i | 0 <= i < |requests| :: RequestInv(stages, requests[i]))
    && (forall i, j | 0 <= i < j < |requests| :: requests[i].caller != requests[j].caller)
  }

  predicate ReplyInv(stages: map<nat, Stage>, p: C.Reply) {
    match p.answers
    case None => p.requestId == 0
    case Some(n) => n in stages && stages[n] == Answering && p.requestId == C.IdOf(n)
  }

  ghost predicate RepliesInv(stages: map<nat, Stage>, replies: seq<C.Reply>) {
    && (forall i | 0 <= i < |replies| :: ReplyInv(stages, replies[i]))
    && (forall i, j | 0 <= i < j < |replies| :: replies[i].answers.Some? ==> replies[i].answers != replies[j].answers)
  }

  /** What is noted of a caller agrees with the table. */
  predicate StageInv(table: C.Table, stages: map<nat, Stage>, n: nat)
    requires n in stages
  {
    && n in table.queues
    && (stages[n] != Done ==> n !in table.answered && table.issued - n <= C.PERIOD)
  }

  ghost predicate StagesInv(table: C.Table, stages: map<nat, Stage>) {
    && (forall n :: n in stages ==> StageInv(table, stages, n))
    && (forall n :: n in table.answered ==> n in stages)
  }

  predicate RunningInv(stages: map<nat, Stage>, running: seq<nat>, open: seq<u32>) {
    if running == [] then open == []
    else
      && |running| == 1 && open == [C.IdOf(running[0])]
      && running[0] in stages && stages[running[0]] == Running
  }

  ghost predicate SystemInv(s: System) {
    && Inv(s.reader) && C.Inv(s.table)
    && RequestsInv(s.stages, s.requests) && RepliesInv(s.stages, s.replies)
    && RunningInv(s.stages, s.running, Open(s.reader))
    && StagesInv(s.table, s.stages)
  }

  // ----- One stage changes -----

  /** All that is noted of others than `n` stays. */
  predicate Others(stages: map<nat, Stage>, changed: map<nat, Stage>, n: nat) {
    forall k :: k in stages && k != n ==> k in changed && changed[k] == stages[k]
  }

  lemma RequestsStay(stages: map<nat, Stage>, changed: map<nat, Stage>, n: nat, requests: seq<Request>)
    requires RequestsInv(stages, requests) && Others(stages, changed, n)
    requires n !in stages || stages[n] != Queued
    ensures RequestsInv(changed, requests)
  {
    forall i | 0 <= i < |requests| ensures RequestInv(changed, requests[i]) {
      assert RequestInv(stages, requests[i]);
    }
  }

  /** The first request is taken. */
  lemma RequestsMoveUp(stages: map<nat, Stage>, changed: map<nat, Stage>, requests: seq<Request>)
    requires requests != [] && RequestsInv(stages, requests) && Others(stages, changed, requests[0].caller)
    ensures RequestsInv(changed, requests[1..])
  {
    var rest := requests[1..];
    forall i | 0 <= i < |rest| ensures RequestInv(changed, rest[i]) {
      assert RequestInv(stages, requests[i + 1]) && requests[0].caller != requests[i + 1].caller;
    }
  }

  lemma RepliesStay(stages: map<nat, Stage>, changed: map<nat, Stage>, n: nat, replies: seq<C.Reply>)
    requires RepliesInv(stages, replies) && Others(stages, changed, n)
    requires n !in stages || stages[n] != Answering
    ensures RepliesInv(changed, replies)
    ensures forall i | 0 <= i < |replies| :: replies[i].answers != Some(n)
  {
    forall i | 0 <= i < |replies| ensures ReplyInv(changed, replies[i]) && replies[i].answers != Some(n) {
      assert ReplyInv(stages, replies[i]);
    }
  }

  /** A reply is added, for a caller whose reply was not yet on its way. */
  lemma RepliesGrow(stages: map<nat, Stage>, changed: map<nat, Stage>, n: nat, replies: seq<C.Reply>)
    requires RepliesInv(stages, replies) && Others(stages, changed, n)
    requires (n !in stages || stages[n] != Answering) && n in changed && changed[n] == Answering
    ensures RepliesInv(changed, replies + [C.Reply(C.IdOf(n), Some(n))])
  {
    RepliesStay(stages, changed, n, replies);
  }

  /** The first reply is read. */
  lemma RepliesMoveUp(stages: map<nat, Stage>, replies: seq<C.Reply>)
    requires replies != [] && RepliesInv(stages, replies)
    ensures RepliesInv(Answered(stages, replies[0]), replies[1..])
  {
    var rest, p := replies[1..], replies[0];
    forall i | 0 <= i < |rest| ensures ReplyInv(Answered(stages, p), rest[i]) {
      assert ReplyInv(stages, replies[i + 1]) && (p.answers.Some? ==> p.answers != replies[i + 1].answers);
    }
  }

  lemma StageMoves(table: C.Table, stages: map<nat, Stage>, changed: map<nat, Stage>, n: nat)
    requires StagesInv(table, stages) && n in stages && stages[n] != Done
    requires changed.Keys == stages.Keys && Others(stages, changed, n)
    ensures StagesInv(table, changed)
  {
    forall k | k in changed ensures StageInv(table, changed, k) {
      assert StageInv(table, stages, k) && StageInv(table, stages, n);
    }
  }

  // ----- Every move keeps it -----

  /** The reader discharges what `Correlation` assumes of the replies it looks up. */
  lemma ReadIsEnabled(s: System)
    requires SystemInv(s) && Possible(s, Read)
    ensures C.Enabled(s.table, C.Lookup(s.replies[0]))
  {
    assert ReplyInv(s.stages, s.replies[0]);
    if s.replies[0].answers.Some? {
      assert StageInv(s.table, s.stages, s.replies[0].answers.value);
    }
  }

  lemma ThreadKeeps(s: System, step: C.Step)
    requires SystemInv(s) && Possible(s, Thread(step))
    ensures SystemInv(After(s, Thread(step)))
  {
    C.StepKeepsInv(s.table, step);
    var t := C.Take(s.table, step);
    forall n | n in s.stages ensures StageInv(t, s.stages, n) {
      assert StageInv(s.table, s.stages, n);
    }
  }

  lemma SendKeeps(s: System, n: nat, m: Sendable)
    requires SystemInv(s) && Possible(s, Send(n, m))
    ensures SystemInv(After(s, Send(n, m)))
  {
    var changed := s.stages[n := Queued];
    assert C.CallerInv(s.table, n);
    RequestsStay(s.stages, changed, n, s.requests);
    SendAppends(s.stages, s.requests, n, m);
    RepliesStay(s.stages, changed, n, s.replies);
    forall k | k in changed ensures StageInv(s.table, changed, k) {
      assert k != n ==> StageInv(s.table, s.stages, k);
    }
  }

  lemma SendAppends(stages: map<nat, Stage>, requests: seq<Request>, n: nat, m: Sendable)
    requires n !in stages && RequestsInv(stages, requests) && RequestsInv(stages[n := Queued], requests)
    requires m.requestId == C.IdOf(n) && m.code != TypeCode(ButtonResult)
    ensures RequestsInv(stages[n := Queued], requests + [Request(n, m)])
  {
    forall i | 0 <= i < |requests| ensures requests[i].caller != n {
      assert RequestInv(stages, requests[i]);
    }
  }

  lemma ReadKeeps(s: System)
    requires SystemInv(s) && Possible(s, Read)
    ensures SystemInv(After(s, Read))
  {
    var p := s.replies[0];
    ReadIsEnabled(s);
    C.StepKeepsInv(s.table, C.Lookup(p));
    assert ReplyInv(s.stages, p);
    var changed, t := Answered(s.stages, p), C.Take(s.table, C.Lookup(p));
    RepliesMoveUp(s.stages, s.replies);
    if p.answers.Some? {
      RequestsStay(s.stages, changed, p.answers.value, s.requests);
    }
    forall k | k in changed ensures StageInv(t, changed, k) {
      assert StageInv(s.table, s.stages, k);
    }
  }

  /** Bytes that are no message are answered under id 0. */
  lemma GarbageKeeps(s: System, raw: seq<byte>, radio: Radio, now: nat)
    requires SystemInv(s) && Possible(s, Garbage(raw, radio, now))
    ensures SystemInv(After(s, Garbage(raw, radio, now)))
  {
    var u := After(s, Garbage(raw, radio, now));
    HandlerReplies(s.reader, raw, radio, now);
    assert u.reader == s.reader && u.replies == s.replies + [C.Reply(0, None)];
  }

  /** What the reader makes of the first request. */
  lemma ServedRequest(s: System, radio: Radio, now: nat)
    requires SystemInv(s) && Possible(s, Serve(radio, now))
    ensures var q := s.requests[0]; var (r, out) := Take(s.reader, Arrival(s, radio, now)); var taken := Accepts(s.reader, q.message);
            && Inv(r) && ReplyIds(out.messages) == (if taken then [] else [C.IdOf(q.caller)])
            && Open(r) == (if taken then [C.IdOf(q.caller)] else if q.message.code == TypeCode(Reset) then [] else Open(s.reader))
            && (taken ==> s.running == [] && q.message.code != TypeCode(Reset))
  {
    var q := s.requests[0];
    assert RequestInv(s.stages, q);
    ReaderWritesDecode(q.message);
    ReaderServes(s.reader, q.message, Raw(q.message), radio, now);
  }

  lemma ReaderServes(r: Reader, m: ProtocolMessage, raw: seq<byte>, radio: Radio, now: nat)
    requires Inv(r) && Allowed(r, Receive(raw, radio, now)) && DecodeMessage(raw) == Some(m) && m.code != TypeCode(ButtonResult)
    ensures var (s, out) := Take(r, Receive(raw, radio, now));
            && Inv(s) && ReplyIds(out.messages) == (if Accepts(r, m) then [] else [m.requestId])
            && Open(s) == (if Accepts(r, m) then [m.requestId] else if m.code == TypeCode(Reset) then [] else Open(r))
            && (Accepts(r, m) ==> Open(r) == [] && m.code != TypeCode(Reset))
  {
    HandlerReplies(r, raw, radio, now);
    TakeKeepsInv(r, Receive(raw, radio, now));
    DispatchConserves(r, m, radio, Millis(now));
    NothingAdded(Open(r));
    NothingAdded(Open(Dispatch(r, m, radio, Millis(now)).0));
  }

  lemma NothingAdded(ids: seq<u32>)
    ensures ids + [] == ids == [] + ids
  {
  }

  lemma NotedOne(id: u32, n: nat)
    ensures Noted([id], Some(n)) == [C.Reply(id, Some(n))] && Noted([], Some(n)) == Noted([], None) == []
  {
  }

  /** What taking on or answering the request of `n` does to all that is noted. */
  lemma ServedStages(s: System, stage: Stage, replies: seq<C.Reply>)
    requires SystemInv(s) && s.requests != []
    requires var n := s.requests[0].caller;
             if stage == Answering then replies == s.replies + [C.Reply(C.IdOf(n), Some(n))] else replies == s.replies
    ensures var changed := s.stages[s.requests[0].caller := stage];
            && RequestsInv(changed, s.requests[1..]) && RepliesInv(changed, replies) && StagesInv(s.table, changed)
            && Others(s.stages, changed, s.requests[0].caller)
  {
    var n := s.requests[0].caller;
    assert RequestInv(s.stages, s.requests[0]);
    var changed := s.stages[n := stage];
    RequestsMoveUp(s.stages, changed, s.requests);
    if stage == Answering {
      RepliesGrow(s.stages, changed, n, s.replies);
    } else {
      RepliesStay(s.stages, changed, n, s.replies);
    }
    StageMoves(s.table, s.stages, changed, n);
  }

  lemma ServeKeeps(s: System, radio: Radio, now: nat)
    requires SystemInv(s) && Possible(s, Serve(radio, now))
    ensures SystemInv(After(s, Serve(radio, now)))
  {
    var u, q := After(s, Serve(radio, now)), s.requests[0];
    ServedRequest(s, radio, now);
    NotedOne(C.IdOf(q.caller), q.caller);
    assert RequestInv(s.stages, q);
    assert s.replies + [] == s.replies;
    ServedStages(s, u.stages[q.caller], u.replies);
  }

  /** A pass ends the transceive with its reply, or goes on without one. */
  lemma ReaderPasses(r: Reader, e: Event)
    requires Inv(r) && e.Loop?
    ensures var (s, out) := Take(r, e);
            && Inv(s)
            && ((ReplyIds(out.messages) == [] && Open(s) == Open(r)) || (ReplyIds(out.messages) == Open(r) != [] && Open(s) == []))
  {
    PassReplies(r, e.bytes, e.sweep, e.times);
    TakeKeepsInv(r, e);
    var (s, out) := Take(r, e);
    NothingAdded(ReplyIds(out.messages));
    NothingAdded(Open(s));
    assert |ReplyIds(out.messages)| + |Open(s)| == |Open(r)|;
  }

  /** The running transceive is answered. */
  lemma AnsweredStages(s: System, n: nat)
    requires SystemInv(s) && s.running == [n]
    ensures var changed := s.stages[n := Answering];
            && RequestsInv(changed, s.requests) && RepliesInv(changed, s.replies + [C.Reply(C.IdOf(n), Some(n))])
            && StagesInv(s.table, changed)
  {
    var changed := s.stages[n := Answering];
    RequestsStay(s.stages, changed, n, s.requests);
    RepliesGrow(s.stages, changed, n, s.replies);
    StageMoves(s.table, s.stages, changed, n);
  }

  lemma PassKeeps(s: System, bytes: seq<byte>, sweep: SweepResults, times: Times)
    requires SystemInv(s)
    ensures SystemInv(After(s, Pass(bytes, sweep, times)))
  {
    var e := Loop(bytes, sweep, times);
    ReaderPasses(s.reader, e);
    assert s.replies + [] == s.replies;
    if ReplyIds(Take(s.reader, e).1.messages) != [] {
      var n := s.running[0];
      NotedOne(C.IdOf(n), n);
      AnsweredStages(s, n);
    }
  }

  lemma CutKeeps(s: System, event: Event)
    requires SystemInv(s) && Possible(s, Cut(event))
    ensures SystemInv(After(s, Cut(event)))
  {
    var changed := AfterCut(s.stages);
    TakeKeepsInv(s.reader, event);
    forall i | 0 <= i < |s.replies| ensures ReplyInv(changed, s.replies[i]) {
      assert ReplyInv(s.stages, s.replies[i]);
    }
    forall k | k in changed ensures StageInv(s.table, changed, k) {
      assert StageInv(s.table, s.stages, k);
    }
  }

  lemma MoveKeepsInv(s: System, move: Move)
    requires SystemInv(s) && Possible(s, move)
    ensures SystemInv(After(s, move))
  {
    match move
    case Thread(step) => ThreadKeeps(s, step);
    case Send(n, m) => SendKeeps(s, n, m);
    case Serve(radio, now) => ServeKeeps(s, radio, now);
    case Pass(bytes, sweep, times) => PassKeeps(s, bytes, sweep, times);
    case Garbage(raw, radio, now) => GarbageKeeps(s, raw, radio, now);
    case Read => ReadKeeps(s);
    case Cut(event) => CutKeeps(s, event);
  }

  lemma BeginsInv(s: System)
    requires Begins(s)
    ensures SystemInv(s)
  {
    var r :| Inv(r) && s == Joined(r);
    TakeKeepsInv(r, Connected);
  }

  // ----- Over every run -----

  /** The moves, one after the other, lead from `s` to `u`. */
  ghost predicate Leads(s: System, moves: seq<Move>, u: System)
    decreases |moves|
  {
    if moves == [] then u == s else Possible(s, moves[0]) && Leads(After(s, moves[0]), moves[1..], u)
  }

  function TableSteps(s: System, move: Move): seq<C.Step>
    requires Possible(s, move)
  {
    match move
    case Thread(step) => [step]
    case Read => [C.Lookup(s.replies[0])]
    case _ => []
  }

  /** What the moves do to the controller's table. */
  function StepsOf(s: System, moves: seq<Move>): seq<C.Step>
    decreases |moves|
  {
    if moves == [] || !Possible(s, moves[0]) then []
    else TableSteps(s, moves[0]) + StepsOf(After(s, moves[0]), moves[1..])
  }

  lemma OneMoreStep(s: System, move: Move, steps: seq<C.Step>)
    requires SystemInv(s) && Possible(s, move) && C.AllEnabled(steps) && s.table == C.Run(steps)
    ensures C.AllEnabled(steps + TableSteps(s, move)) && After(s, move).table == C.Run(steps + TableSteps(s, move))
  {
    var more := TableSteps(s, move);
    if more == [] {
      assert steps + more == steps;
    } else {
      assert (steps + more)[..|steps|] == steps;
      if move.Read? {
        ReadIsEnabled(s);
      }
    }
  }

  lemma FirstMove(s: System, moves: seq<Move>, u: System)
    requires moves != [] && Leads(s, moves, u)
    ensures Possible(s, moves[0]) && Leads(After(s, moves[0]), moves[1..], u)
    ensures StepsOf(s, moves) == TableSteps(s, moves[0]) + StepsOf(After(s, moves[0]), moves[1..])
  {
  }

  lemma Regrouped(a: seq<C.Step>, b: seq<C.Step>, c: seq<C.Step>)
    ensures (a + b) + c == a + (b + c)
  {
  }

  lemma {:induction false} MovesMeetAssumptions(s: System, moves: seq<Move>, u: System, done: seq<C.Step>)
    requires SystemInv(s) && Leads(s, moves, u) && C.AllEnabled(done) && s.table == C.Run(done)
    ensures SystemInv(u) && C.AllEnabled(done + StepsOf(s, moves)) && u.table == C.Run(done + StepsOf(s, moves))
    decreases |moves|
  {
    if moves == [] {
      assert done + [] == done;
    } else {
      FirstMove(s, moves, u);
      var next, steps := After(s, moves[0]), TableSteps(s, moves[0]);
      MoveKeepsInv(s, moves[0]);
      OneMoreStep(s, moves[0], done);
      MovesMeetAssumptions(next, moves[1..], u, done + steps);
      Regrouped(done, steps, StepsOf(next, moves[1..]));
    }
  }

  /** Over every run of both ends of a connection, whatever the reader did before it, the steps
      in the controller's table are steps that `Correlation` allows: the reader gives it no
      reply that it does not assume. */
  lemma ReaderMeetsAssumptions(s: System, moves: seq<Move>, u: System)
    requires Begins(s) && Leads(s, moves, u)
    ensures SystemInv(u) && C.AllEnabled(StepsOf(s, moves)) && u.table == C.Run(StepsOf(s, moves))
  {
    BeginsInv(s);
    MovesMeetAssumptions(s, moves, u, []);
    assert [] + StepsOf(s, moves) == StepsOf(s, moves);
  }

  /** End to end: over every run of both ends, a caller that gets a message has got the
      reader's reply to its own request under its own id, and no queue is ever found full. */
  lemma EveryCallerGetsItsReply(s: System, moves: seq<Move>, u: System)
    requires Begins(s) && Leads(s, moves, u)
    ensures !u.table.overflowed
    ensures forall n :: C.GotAnswer(u.table, n) ==>
              u.table.callers[n].received.value.reply == C.Reply(C.IdOf(n), Some(n)) && C.IdOf(n) != 0
  {
    ReaderMeetsAssumptions(s, moves, u);
    C.OwnReplyOnly(StepsOf(s, moves));
  }
}
