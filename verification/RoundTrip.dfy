/** Requests that come back: in the runs of `EndToEnd` a caller's request is sent, served,
    answered and received, and so is a TRANSCEIVE, whose reply comes only many passes later. */
module RoundTrip {
  import opened Words
  import opened Wrappers
  import opened Protocol
  import opened Pn532Frames
  import opened LocalCommands
  import opened ReaderMachine
  import opened ReaderRuns
  import opened ReaderExchange
  import opened EndToEnd
  import D = ReaderDiscovery

  // ----- Runs put together -----

  lemma {:induction false} LeadsAppend(s: System, a: seq<Move>, t: System, b: seq<Move>, u: System)
    requires Leads(s, a, t) && Leads(t, b, u)
    ensures Leads(s, a + b, u)
    decreases |a|
  {
    if a == [] {
      assert a + b == b;
    } else {
      LeadsAppend(After(s, a[0]), a[1..], t, b, u);
      assert (a + b)[1..] == a[1..] + b;
    }
  }

  lemma OneMove(s: System, move: Move)
    requires Possible(s, move)
    ensures Leads(s, [move], After(s, move))
  {
    assert [move][1..] == [];
  }

  lemma OneMoreMove(s: System, moves: seq<Move>, t: System, move: Move)
    requires Leads(s, moves, t) && Possible(t, move)
    ensures Leads(s, moves + [move], After(t, move))
  {
    OneMove(t, move);
    LeadsAppend(s, moves, t, [move], After(t, move));
  }

  lemma {:induction false} LeadsKeepsInv(s: System, moves: seq<Move>, u: System)
    requires SystemInv(s) && Leads(s, moves, u)
    ensures SystemInv(u)
    decreases |moves|
  {
    if moves != [] {
      MoveKeepsInv(s, moves[0]);
      LeadsKeepsInv(After(s, moves[0]), moves[1..], u);
    }
  }

  // ----- Sending and receiving -----

  /** Caller `n` waits with its queue in place and is about to send `m`; nothing else is under
      way on the socket. */
  ghost predicate AboutToSend(s: System, n: nat, m: Sendable) {
    && SystemInv(s) && s.requests == [] && s.replies == [] && s.reader.connected && !s.reader.ota
    && s.table.found.None? && s.table.failing.None? && Possible(s, Send(n, m))
  }

  lemma NotedAreIssued(s: System)
    requires SystemInv(s)
    ensures forall k :: k in s.stages ==> k < s.table.issued
  {
    forall k | k in s.stages ensures k < s.table.issued {
      assert StageInv(s.table, s.stages, k) && C.CallerInv(s.table, k);
    }
  }

  /** A new caller gets its id and inserts its queue. */
  function Arriving(n: nat): seq<Move> {
    [Thread(C.Allocate)] + [Thread(C.Insert(n))]
  }

  /** A new caller gets there. */
  lemma NewCaller(s: System, m: Sendable) returns (t: System)
    requires SystemInv(s) && s.requests == [] && s.replies == [] && s.reader.connected && !s.reader.ota
    requires s.table.found.None? && s.table.failing.None? && Possible(s, Thread(C.Allocate))
    requires m.requestId == C.IdOf(s.table.issued) && m.code != TypeCode(ButtonResult)
    ensures var n := s.table.issued;
            AboutToSend(t, n, m) && Leads(s, Arriving(n), t) && t.reader == s.reader
            && t.stages == s.stages && t.table.issued == n + 1 && t.table.callers == s.table.callers[n := C.Waiting]
  {
    var n := s.table.issued;
    var a := Allocated(s);
    t := Inserted(a, n);
    CallerArrives(s, a, n, t);
    WaitsAtLast(s.table.callers, n);
    ReadyToSend(t, n, m);
  }

  lemma WaitsAtLast(callers: map<nat, C.Phase>, n: nat)
    ensures callers[n := C.HasId][n := C.Waiting] == callers[n := C.Waiting]
  {
  }

  lemma ReadyToSend(t: System, n: nat, m: Sendable)
    requires SystemInv(t) && t.requests == [] && t.replies == [] && t.reader.connected && !t.reader.ota
    requires t.table.found.None? && t.table.failing.None? && n !in t.stages
    requires n in t.table.callers && t.table.callers[n] == C.Waiting
    requires m.requestId == C.IdOf(n) && m.code != TypeCode(ButtonResult)
    ensures AboutToSend(t, n, m)
  {
  }

  lemma CallerArrives(s: System, a: System, n: nat, t: System)
    requires Possible(s, Thread(C.Allocate)) && a == After(s, Thread(C.Allocate))
    requires Possible(a, Thread(C.Insert(n))) && t == After(a, Thread(C.Insert(n)))
    ensures Leads(s, Arriving(n), t)
  {
    OneMove(s, Thread(C.Allocate));
    OneMoreMove(s, [Thread(C.Allocate)], a, Thread(C.Insert(n)));
  }

  lemma Allocated(s: System) returns (a: System)
    requires SystemInv(s) && Possible(s, Thread(C.Allocate))
    ensures a == After(s, Thread(C.Allocate)) && SystemInv(a) && a == s.(table := a.table) && s.table.issued !in s.stages
    ensures a.table.issued == s.table.issued + 1 && a.table.callers == s.table.callers[s.table.issued := C.HasId]
    ensures a.table.found == s.table.found && a.table.failing == s.table.failing
  {
    NotedAreIssued(s);
    MoveKeepsInv(s, Thread(C.Allocate));
    a := After(s, Thread(C.Allocate));
  }

  lemma Inserted(a: System, n: nat) returns (t: System)
    requires SystemInv(a) && n in a.table.callers && a.table.callers[n] == C.HasId
    ensures Possible(a, Thread(C.Insert(n))) && t == After(a, Thread(C.Insert(n))) && SystemInv(t) && t == a.(table := t.table)
    ensures t.table.issued == a.table.issued && t.table.callers == a.table.callers[n := C.Waiting]
    ensures t.table.found == a.table.found && t.table.failing == a.table.failing
  {
    MoveKeepsInv(a, Thread(C.Insert(n)));
    t := After(a, Thread(C.Insert(n)));
  }

  /** The moves by which a reply that is the only one under way reaches its caller. */
  function Receiving(n: nat): seq<Move> {
    [Read] + [Thread(C.Put)] + [Thread(C.Get(n))]
  }

  predicate Received(t: C.Table, n: nat) {
    && n in t.callers && t.callers[n] == C.Returned(Some(C.Answer(C.Reply(C.IdOf(n), Some(n)))))
    && t.found.None? && t.failing.None?
  }

  lemma ReplyIsReceived(s: System, n: nat) returns (u: System)
    requires SystemInv(s) && s.replies == [C.Reply(C.IdOf(n), Some(n))]
    requires n in s.table.callers && s.table.callers[n] == C.Waiting && s.table.found.None? && s.table.failing.None?
    ensures Leads(s, Receiving(n), u) && SystemInv(u) && Received(u.table, n)
    ensures u.reader == s.reader && u.requests == s.requests && u.replies == []
    ensures u.stages == s.stages[n := Done] && u.table.issued == s.table.issued && u.table.callers.Keys == s.table.callers.Keys
    ensures forall k :: k in s.table.callers && k != n ==> u.table.callers[k] == s.table.callers[k]
  {
    u := ReplyIsPassedOn(s, n);
    LeadsKeepsInv(s, Receiving(n), u);
  }

  lemma ReplyIsPassedOn(s: System, n: nat) returns (u: System)
    requires SystemInv(s) && s.replies == [C.Reply(C.IdOf(n), Some(n))]
    requires n in s.table.callers && s.table.callers[n] == C.Waiting && s.table.found.None? && s.table.failing.None?
    ensures Leads(s, Receiving(n), u) && Received(u.table, n)
    ensures u.reader == s.reader && u.requests == s.requests && u.replies == []
    ensures u.stages == s.stages[n := Done] && u.table.issued == s.table.issued && u.table.callers.Keys == s.table.callers.Keys
    ensures forall k :: k in s.table.callers && k != n ==> u.table.callers[k] == s.table.callers[k]
  {
    ReadIsEnabled(s);
    C.ReplyIsDelivered(s.table, n);
    OneMove(s, Read);
    var t := After(s, Read);
    OneMoreMove(s, [Read], t, Thread(C.Put));
    var w := After(t, Thread(C.Put));
    OneMoreMove(s, [Read] + [Thread(C.Put)], w, Thread(C.Get(n)));
    u := After(w, Thread(C.Get(n)));
  }

  // ----- Answered at once -----

  /** Caller `n` sends `m` and the reader takes it. */
  function Asking(n: nat, m: Sendable, radio: Radio, now: nat): seq<Move> {
    [Send(n, m)] + [Move.Serve(radio, now)]
  }

  predicate OnlyStageOf(s: System, u: System, n: nat, stage: Stage) {
    u.table == s.table && u.requests == [] && u.stages == s.stages[n := stage]
  }

  lemma TwoStages(stages: map<nat, Stage>, n: nat)
    ensures stages[n := Queued][n := Running] == stages[n := Running]
    ensures stages[n := Queued][n := Answering] == stages[n := Answering]
    ensures stages[n := Answering][n := Done] == stages[n := Running][n := Answering][n := Done] == stages[n := Done]
  {
  }

  lemma SentOnly(s: System, n: nat, m: Sendable) returns (t: System)
    requires AboutToSend(s, n, m)
    ensures Possible(s, Send(n, m)) && t == After(s, Send(n, m)) && SystemInv(t)
    ensures t == s.(requests := [Request(n, m)], stages := s.stages[n := Queued])
  {
    t := After(s, Send(n, m));
    MoveKeepsInv(s, Send(n, m));
    assert [] + [Request(n, m)] == [Request(n, m)];
  }

  lemma ServedOnly(t: System, n: nat, m: Sendable, radio: Radio, now: nat) returns (u: System)
    requires SystemInv(t) && t.requests == [Request(n, m)] && t.replies == []
    requires t.reader.connected && Allowed(t.reader, Receive(Raw(m), radio, now))
    ensures u == After(t, Move.Serve(radio, now))
    ensures u.reader == Take(t.reader, Receive(Raw(m), radio, now)).0
    ensures if Accepts(t.reader, m) then OnlyStageOf(t, u, n, Running) && u.running == [n] && u.replies == []
            else OnlyStageOf(t, u, n, Answering) && u.replies == [C.Reply(C.IdOf(n), Some(n))]
  {
    ServedRequest(t, radio, now);
    NotedOne(C.IdOf(n), n);
    u := ServingDoes(t, Request(n, m), radio, now);
  }

  lemma ServingDoes(t: System, q: Request, radio: Radio, now: nat) returns (u: System)
    requires t.requests == [q] && t.replies == [] && Possible(t, Move.Serve(radio, now))
    ensures u == After(t, Move.Serve(radio, now)) && u.table == t.table && u.requests == []
    ensures var (r, out) := Take(t.reader, Receive(Raw(q.message), radio, now)); var taken := Accepts(t.reader, q.message);
            && u.reader == r && u.replies == Noted(ReplyIds(out.messages), Some(q.caller))
            && u.stages == t.stages[q.caller := if taken then Running else if ReplyIds(out.messages) != [] then Answering else Done]
            && (taken && t.running == [] ==> u.running == [q.caller])
  {
    u := After(t, Move.Serve(radio, now));
  }

  lemma Asked(s: System, n: nat, m: Sendable, radio: Radio, now: nat) returns (u: System)
    requires AboutToSend(s, n, m) && Allowed(s.reader, Receive(Raw(m), radio, now))
    ensures Leads(s, Asking(n, m, radio, now), u) && SystemInv(u) && u.reader == Take(s.reader, Receive(Raw(m), radio, now)).0
    ensures if Accepts(s.reader, m) then OnlyStageOf(s, u, n, Running) && u.running == [n] && u.replies == []
            else OnlyStageOf(s, u, n, Answering) && u.replies == [C.Reply(C.IdOf(n), Some(n))]
  {
    var t := SentOnly(s, n, m);
    OneMove(s, Send(n, m));
    u := ServedOnly(t, n, m, radio, now);
    MoveKeepsInv(t, Move.Serve(radio, now));
    OneMoreMove(s, [Send(n, m)], t, Move.Serve(radio, now));
    TwoStages(s.stages, n);
  }

  /** A request that the reader answers at once comes back to its caller. */
  lemma AnswerComesBack(s: System, n: nat, m: Sendable, radio: Radio, now: nat) returns (u: System)
    requires AboutToSend(s, n, m) && Allowed(s.reader, Receive(Raw(m), radio, now)) && !Accepts(s.reader, m)
    ensures Leads(s, Asking(n, m, radio, now) + Receiving(n), u) && SystemInv(u) && Received(u.table, n)
    ensures u.reader == Take(s.reader, Receive(Raw(m), radio, now)).0
    ensures u.requests == [] && u.replies == [] && u.stages == s.stages[n := Done]
    ensures u.table.issued == s.table.issued && u.table.callers.Keys == s.table.callers.Keys
    ensures forall k :: k in s.table.callers && k != n ==> u.table.callers[k] == s.table.callers[k]
  {
    var t := Asked(s, n, m, radio, now);
    u := ReplyIsReceived(t, n);
    LeadsAppend(s, Asking(n, m, radio, now), t, Receiving(n), u);
    TwoStages(s.stages, n);
  }

  // ----- A transceive -----

  function MoveOf(e: Event): Move
    requires e.Loop?
  {
    Move.Pass(e.bytes, e.sweep, e.times)
  }

  function Passes(es: seq<Event>): seq<Move>
    requires OnlyPasses(es)
    decreases |es|
  {
    if es == [] then [] else Passes(es[..|es| - 1]) + [MoveOf(es[|es| - 1])]
  }

  /** A pass that leaves the transceive running changes nothing but the reader. */
  lemma PassGoesOn(s: System, e: Event)
    requires Inv(s.reader) && e.Loop? && Take(s.reader, e).0.step != Step.Idle
    ensures After(s, MoveOf(e)) == s.(reader := Take(s.reader, e).0) && Inv(Take(s.reader, e).0) && s.reader.step != Step.Idle
  {
    ReaderPasses(s.reader, e);
    NotedOne(0, 0);
    assert s.replies + [] == s.replies;
  }

  lemma {:induction false} PassesGoOn(s: System, es: seq<Event>)
    requires Inv(s.reader) && OnlyPasses(es) && Run(s.reader, es).step != Step.Idle
    ensures Leads(s, Passes(es), s.(reader := Run(s.reader, es))) && Inv(Run(s.reader, es))
    decreases |es|
  {
    if es == [] {
      assert s == s.(reader := s.reader);
    } else {
      var init, e := es[..|es| - 1], es[|es| - 1];
      PassesKeepInv(s.reader, init);
      var t := s.(reader := Run(s.reader, init));
      PassGoesOn(t, e);
      PassesGoOn(s, init);
      OneMoreMove(s, Passes(init), t, MoveOf(e));
    }
  }

  lemma {:induction false} PassesKeepInv(r: Reader, es: seq<Event>)
    requires Inv(r) && OnlyPasses(es)
    ensures Inv(Run(r, es))
    decreases |es|
  {
    if es != [] {
      PassesKeepInv(r, es[..|es| - 1]);
      TakeKeepsInv(Run(r, es[..|es| - 1]), es[|es| - 1]);
    }
  }

  predicate PassesOnly(c: Course) {
    OnlyPasses(c.read) && OnlyPasses(c.write) && OnlyPasses(c.time) && OnlyPasses(c.exchange) && c.exchange != []
  }

  function LastPass(c: Course): Event
    requires PassesOnly(c)
  {
    c.exchange[|c.exchange| - 1]
  }

  /** The reader before the last pass. */
  function BeforeLast(r1: Reader, c: Course): Reader
    requires PassesOnly(c)
  {
    Run(AfterTime(r1, c), c.exchange[..|c.exchange| - 1])
  }

  function PassesBefore(c: Course): seq<Move>
    requires PassesOnly(c)
  {
    Passes(c.read) + Passes(c.write) + Passes(c.time) + Passes(c.exchange[..|c.exchange| - 1])
  }

  lemma CourseGoesOn(s: System, c: Course)
    requires Inv(s.reader) && PassesOnly(c)
    requires AfterRead(s.reader, c).step != Step.Idle && AfterWrite(s.reader, c).step != Step.Idle
    requires AfterTime(s.reader, c).step != Step.Idle && BeforeLast(s.reader, c).step != Step.Idle
    ensures Leads(s, PassesBefore(c), s.(reader := BeforeLast(s.reader, c)))
  {
    var r1 := s.reader;
    var r2, r3, r4 := AfterRead(r1, c), AfterWrite(r1, c), AfterTime(r1, c);
    PassesGoOn(s, c.read);
    PassesGoOn(s.(reader := r2), c.write);
    LeadsAppend(s, Passes(c.read), s.(reader := r2), Passes(c.write), s.(reader := r3));
    PassesGoOn(s.(reader := r3), c.time);
    LeadsAppend(s, Passes(c.read) + Passes(c.write), s.(reader := r3), Passes(c.time), s.(reader := r4));
    var init := c.exchange[..|c.exchange| - 1];
    PassesGoOn(s.(reader := r4), init);
    LeadsAppend(s, Passes(c.read) + Passes(c.write) + Passes(c.time), s.(reader := r4), Passes(init),
                s.(reader := BeforeLast(r1, c)));
  }

  lemma Answers(r: Reader, e: Event, m: ProtocolMessage)
    requires Inv(r) && e.Loop? && IsReply(m) && [m] <= Take(r, e).1.messages
    ensures r.step != Step.Idle && ReplyIds(Take(r, e).1.messages) != []
  {
    var out := Take(r, e).1.messages;
    ReplyIdsAppend([m], out[1..]);
    ReplyIdsOfOne(m);
    assert out == [m] + out[1..];
    ReaderPasses(r, e);
  }

  lemma BeforeLastKeepsInv(r: Reader, m: ProtocolMessage, now: u32, c: Course)
    requires Inv(r) && PassesOnly(c)
    ensures Inv(BeforeLast(OnTransceive(r, m, now).0, c))
  {
    TransceiveKeepsInv(r, m, now);
    var r1 := OnTransceive(r, m, now).0;
    PassesKeepInv(r1, c.read);
    PassesKeepInv(AfterRead(r1, c), c.write);
    PassesKeepInv(AfterWrite(r1, c), c.time);
    PassesKeepInv(AfterTime(r1, c), c.exchange[..|c.exchange| - 1]);
  }

  /** The message arrives as it was sent. */
  lemma RequestArrives(r: Reader, m: Sendable, radio: Radio, now: nat)
    requires m.code == TypeCode(Transceive)
    ensures Take(r, Receive(Raw(m), radio, now)) == OnTransceive(r, m, Millis(now)) && Allowed(r, Receive(Raw(m), radio, now))
  {
    ReaderWritesDecode(m);
    Routes(r, m, radio, Millis(now));
  }

  /** What a course does to the reader, as far as the socket sees it. */
  lemma CourseRuns(r: Reader, m: Sendable, now: u32, c: Course)
    requires Inv(r) && Accepts(r, m) && !r.ota && PassesOnly(c) && Follows(OnTransceive(r, m, now).0, c)
    ensures var r1 := OnTransceive(r, m, now).0;
            && AfterRead(r1, c).step != Step.Idle && AfterWrite(r1, c).step != Step.Idle
            && AfterTime(r1, c).step != Step.Idle && BeforeLast(r1, c).step != Step.Idle
            && [Reply(m.requestId, c.response)] <= Take(BeforeLast(r1, c), LastPass(c)).1.messages
            && ReplyIds(Take(BeforeLast(r1, c), LastPass(c)).1.messages) != []
  {
    TransceiveRoundTrip(r, m, now, c);
    var r1 := OnTransceive(r, m, now).0;
    BeforeLastKeepsInv(r, m, now, c);
    Answers(BeforeLast(r1, c), LastPass(c), Reply(m.requestId, c.response));
  }

  lemma PassAnswers(s: System, n: nat, e: Event)
    requires SystemInv(s) && s.running == [n] && s.replies == [] && e.Loop? && ReplyIds(Take(s.reader, e).1.messages) != []
    ensures var u := After(s, MoveOf(e));
            && SystemInv(u) && u.replies == [C.Reply(C.IdOf(n), Some(n))] && u.running == []
            && u.table == s.table && u.stages == s.stages[n := Answering] && u.requests == s.requests
  {
    ReaderPasses(s.reader, e);
    NotedOne(C.IdOf(n), n);
    MoveKeepsInv(s, MoveOf(e));
  }

  /** A transceive comes back.  Whenever a caller is about to send a TRANSCEIVE that the
      reader accepts, and the chip answers its four commands in time over whatever passes,
      then the caller's request is running until the last of these passes; that pass answers
      it with the chip's response; and the caller gets that reply. */
  lemma TransceiveComesBack(s: System, n: nat, m: Sendable, radio: Radio, now: nat, c: Course) returns (w: System, u: System)
    requires AboutToSend(s, n, m) && Accepts(s.reader, m)
    requires PassesOnly(c) && Follows(OnTransceive(s.reader, m, Millis(now)).0, c)
    ensures Leads(s, Asking(n, m, radio, now) + PassesBefore(c), w) && w.running == [n] && w.replies == []
    ensures [Reply(m.requestId, c.response)] <= Take(w.reader, LastPass(c)).1.messages
    ensures Leads(w, [MoveOf(LastPass(c))] + Receiving(n), u) && Received(u.table, n) && u.running == [] && SystemInv(u)
  {
    RequestArrives(s.reader, m, radio, now);
    CourseRuns(s.reader, m, Millis(now), c);
    var t := Asked(s, n, m, radio, now);
    CourseGoesOn(t, c);
    w := t.(reader := BeforeLast(t.reader, c));
    LeadsAppend(s, Asking(n, m, radio, now), t, PassesBefore(c), w);
    LeadsKeepsInv(t, PassesBefore(c), w);
    u := LastPassComesBack(s, w, n, LastPass(c));
  }

  lemma LastPassComesBack(s: System, w: System, n: nat, e: Event) returns (u: System)
    requires SystemInv(w) && w.running == [n] && w.replies == [] && w.table == s.table
    requires e.Loop? && ReplyIds(Take(w.reader, e).1.messages) != []
    requires n in s.table.callers && s.table.callers[n] == C.Waiting && s.table.found.None? && s.table.failing.None?
    ensures Leads(w, [MoveOf(e)] + Receiving(n), u) && Received(u.table, n) && u.running == [] && SystemInv(u)
  {
    PassAnswers(w, n, e);
    var v := After(w, MoveOf(e));
    OneMove(w, MoveOf(e));
    u := ReplyIsReceived(v, n);
    LeadsAppend(w, [MoveOf(e)], v, Receiving(n), u);
  }

  // ----- From power-on -----

  function StartMessage(): Sendable {
    ProtocolMessage(TypeCode(StartDiscovery), 1, 0, D.ECP_FRAME)
  }

  function TransceiveMessage(payload: seq<byte>, timeoutMs: u16): Sendable
    requires 1 <= |payload| <= MAX_TRANSCEIVE
  {
    ProtocolMessage(TypeCode(Transceive), 2, timeoutMs, payload)
  }

  /** Nobody waits and nothing is under way. */
  ghost predicate Settled(s: System) {
    && SystemInv(s) && s.requests == [] && s.replies == [] && s.reader.connected && !s.reader.ota
    && s.table.found.None? && s.table.failing.None?
    && (forall k :: k in s.table.callers ==> s.table.callers[k].Returned?) && (forall k :: k in s.stages ==> s.stages[k] == Done)
  }

  /** A new caller's request, answered at once, leaves things settled. */
  lemma SettledCaller(s: System, m: Sendable, radio: Radio, now: nat) returns (moves: seq<Move>, u: System)
    requires Settled(s) && m.requestId == C.IdOf(s.table.issued) && m.code != TypeCode(ButtonResult)
    requires Allowed(s.reader, Receive(Raw(m), radio, now)) && !Accepts(s.reader, m)
    requires Take(s.reader, Receive(Raw(m), radio, now)).0.connected && !Take(s.reader, Receive(Raw(m), radio, now)).0.ota
    ensures Leads(s, moves, u) && Settled(u) && u.reader == Take(s.reader, Receive(Raw(m), radio, now)).0
    ensures Received(u.table, s.table.issued) && u.table.issued == s.table.issued + 1
  {
    var n := s.table.issued;
    var t := NewCaller(s, m);
    u := AnswerComesBack(t, n, m, radio, now);
    moves := Arriving(n) + (Asking(n, m, radio, now) + Receiving(n));
    LeadsAppend(s, Arriving(n), t, Asking(n, m, radio, now) + Receiving(n), u);
    SettledAgain(s, t, n, u);
  }

  lemma SettledAgain(s: System, t: System, n: nat, u: System)
    requires Settled(s) && t.stages == s.stages && t.table.callers == s.table.callers[n := C.Waiting]
    requires SystemInv(u) && u.requests == [] && u.replies == [] && u.reader.connected && !u.reader.ota
    requires Received(u.table, n) && u.stages == t.stages[n := Done] && u.table.callers.Keys == t.table.callers.Keys
    requires forall k :: k in t.table.callers && k != n ==> u.table.callers[k] == t.table.callers[k]
    ensures Settled(u)
  {
  }

  /** A pass that finds no transceive to end changes only the reader. */
  lemma IdlePass(s: System, e: Event)
    requires Settled(s) && e.Loop? && s.reader.step == Step.Idle
    requires Take(s.reader, e).0.connected && !Take(s.reader, e).0.ota
    ensures After(s, MoveOf(e)) == s.(reader := Take(s.reader, e).0) && Settled(s.(reader := Take(s.reader, e).0))
  {
    ReaderPasses(s.reader, e);
    NotedOne(0, 0);
    assert s.replies + [] == s.replies;
    MoveKeepsInv(s, MoveOf(e));
  }

  /** A reader that has just started discovery, and one that has just presented a card. */
  const STARTED := D.Discovering(Started(START_STATE.discovery, D.ECP_FRAME, 0))

  const PRESENTING := Take(STARTED, D.SweepAt(0, [1])).0

  lemma Presents()
    ensures Take(D.Discovering(START_STATE.discovery), D.StartAt(0)).0 == STARTED
    ensures STARTED.step == PRESENTING.step == Step.Idle && PRESENTING.connected && !PRESENTING.ota
    ensures !PRESENTING.waiting && PRESENTING.discovery.targetPending
  {
    D.StartTakes(START_STATE.discovery, 0);
    D.FreeCardIsPresented(STARTED, 0);
  }

  lemma JoinedIsSettled()
    ensures Begins(Joined(START_STATE)) && Settled(Joined(START_STATE))
    ensures Joined(START_STATE).reader == D.Discovering(START_STATE.discovery) && Joined(START_STATE).table == C.NEW_TABLE
  {
    BeginsInv(Joined(START_STATE));
  }

  lemma StartIsAnswered() returns (moves: seq<Move>, u: System)
    ensures Leads(Joined(START_STATE), moves, u) && Settled(u) && u.reader == STARTED && u.table.issued == 1
  {
    JoinedIsSettled();
    Presents();
    assert D.StartAt(0) == Receive(Raw(StartMessage()), D.SILENT_RADIO, 0);
    moves, u := SettledCaller(Joined(START_STATE), StartMessage(), D.SILENT_RADIO, 0);
  }

  lemma CardComes(u: System) returns (t: System)
    requires Settled(u) && u.reader == STARTED
    ensures t == After(u, MoveOf(D.SweepAt(0, [1]))) && Settled(t) && t.reader == PRESENTING && t.table == u.table
  {
    Presents();
    IdlePass(u, D.SweepAt(0, [1]));
    t := After(u, MoveOf(D.SweepAt(0, [1])));
  }

  /** The first caller starts discovery, and a card is presented. */
  lemma CardIsPresented() returns (s: System, moves: seq<Move>, t: System)
    ensures Begins(s) && Leads(s, moves, t) && Settled(t) && t.reader == PRESENTING && t.table.issued == 1
  {
    JoinedIsSettled();
    s := Joined(START_STATE);
    var first, u := StartIsAnswered();
    t := CardComes(u);
    moves := first + [MoveOf(D.SweepAt(0, [1]))];
    OneMoreMove(s, first, u, MoveOf(D.SweepAt(0, [1])));
  }

  /** The second caller is about to send a request to a reader that has presented a card. */
  lemma SecondCaller(m: Sendable) returns (s: System, moves: seq<Move>, t: System)
    requires m.requestId == 2 && m.code != TypeCode(ButtonResult)
    ensures Begins(s) && Leads(s, moves, t) && AboutToSend(t, 1, m) && t.reader == PRESENTING
  {
    var before, u;
    s, before, u := CardIsPresented();
    Presents();
    t := NewCaller(u, m);
    moves := before + Arriving(1);
    LeadsAppend(s, before, u, Arriving(1), t);
  }

  lemma SentIn(before: seq<Move>, n: nat, m: Sendable, radio: Radio, now: nat, more: seq<Move>)
    ensures Send(n, m) in before + (Asking(n, m, radio, now) + more)
  {
    assert (Asking(n, m, radio, now) + more)[0] == Send(n, m);
  }

  /** From power-on and a new connection, every transceive that a controller may ask for and
      every response that a chip may give it come back in some run: the second caller sends
      the request, a pass answers it, and the caller gets the reply. */
  lemma EveryTransceiveCanComeBack(payload: seq<byte>, timeoutMs: u16, response: seq<byte>)
    returns (s: System, asked: seq<Move>, w: System, last: Event, u: System)
    requires 1 <= |payload| <= MAX_TRANSCEIVE && timeoutMs != 0 && 1 <= |response| <= MAX_DATA
    ensures Begins(s) && Leads(s, asked, w) && w.running == [1] && last.Loop?
    ensures Send(1, TransceiveMessage(payload, timeoutMs)) in asked
    ensures [Reply(2, response)] <= Take(w.reader, last).1.messages
    ensures Leads(w, [MoveOf(last)] + Receiving(1), u) && Received(u.table, 1)
  {
    var m := TransceiveMessage(payload, timeoutMs);
    var before, t;
    s, before, t := SecondCaller(m);
    Presents();
    var c := EveryTransceiveCanSucceed(t.reader, m, 0, [0, 0, 0], response);
    w, u := TransceiveComesBack(t, 1, m, D.SILENT_RADIO, 0, c);
    last := LastPass(c);
    asked := before + (Asking(1, m, D.SILENT_RADIO, 0) + PassesBefore(c));
    LeadsAppend(s, before, t, Asking(1, m, D.SILENT_RADIO, 0) + PassesBefore(c), w);
    SentIn(before, 1, m, D.SILENT_RADIO, 0, PassesBefore(c));
  }
}
