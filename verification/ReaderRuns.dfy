/** What holds over every run of the reader: its invariant, one reply per request, and the
    time by which the reply is out. */
module ReaderRuns {
  import opened Words
  import opened Protocol
  import opened Pn532Ring
  import opened LocalCommands
  import opened AsyncCommands
  import opened ReaderMachine

  // ----- The invariant -----

  predicate DiscoveryInv(d: Discovery) {
    && (d.targetPending ==> d.enabled)
    && (d.waitForRemoval ==> d.enabled)
    && !(d.targetPending && d.waitForRemoval)
    && (d.enabled ==> d.failures < DISCOVERY_FAILURE_LIMIT && d.frame != [])
    && |d.frame| <= MAX_BROADCAST
  }

  /** A command is on its way exactly while a transceive is, and only then is the UART
      listened to. */
  predicate TransceiveInv(r: Reader) {
    && (r.waiting <==> r.step != Step.Idle)
    && (r.async.active <==> r.step != Step.Idle)
    && (r.step != Step.Idle ==> r.async.phase != Phase.Idle && r.timeoutMs >= 1)
    && |r.payload| <= MAX_TRANSCEIVE
    && |r.ring| <= CAPACITY
  }

  predicate Inv(r: Reader) {
    TransceiveInv(r) && DiscoveryInv(r.discovery)
  }

  /** A RESUME that asks for a retry runs a blocking command unchecked. */
  predicate RetryResume(e: Event) {
    && e.Receive? && DecodeMessage(e.raw).Some?
    && var m := DecodeMessage(e.raw).value;
       m.code == TypeCode(ResumeDiscovery) && m.payload == [1]
  }

  /** All that is needed of the rule that one command may be in flight per reader: the
      controller sends no retry RESUME while its transceive is unanswered. */
  predicate Allowed(r: Reader, e: Event) {
    RetryResume(e) ==> r.step == Step.Idle
  }

  lemma AdvanceKeepsInv(r: Reader, data: seq<byte>, now: u32)
    requires r.step != Step.Idle && r.waiting && !r.async.active && r.timeoutMs >= 1
    requires |r.payload| <= MAX_TRANSCEIVE && |r.ring| <= CAPACITY
    ensures TransceiveInv(Advance(r, data, now).0) && Advance(r, data, now).0.discovery == r.discovery
  {
  }

  lemma UpdateKeepsInv(r: Reader, now: u32)
    requires TransceiveInv(r)
    ensures TransceiveInv(Update(r, now).0) && Update(r, now).0.discovery == r.discovery
  {
    if r.step != Step.Idle {
      RestIsShorter(r.async.collector, r.ring);
      var p := Poll(r.async, r.ring, now);
      if p.Done? {
        AdvanceKeepsInv(r.(async := r.async.(active := false), ring := p.ring), p.data, now);
      }
    }
  }

  lemma DrainKeepsInv(r: Reader, bytes: seq<byte>)
    requires TransceiveInv(r)
    ensures TransceiveInv(Drain(r, bytes))
  {
    OfferAllKeepsPrefix(r.ring, bytes);
  }

  lemma SweepKeepsInv(d: Discovery, sweep: SweepResults, t: Times)
    requires DiscoveryInv(d) && d.enabled && !d.targetPending
    ensures DiscoveryInv(RunSweep(d, sweep, t).0)
  {
  }

  lemma DiscoveryKeepsInv(r: Reader, sweep: SweepResults, t: Times)
    requires Inv(r)
    ensures Inv(AutonomousDiscovery(r, sweep, t).0)
  {
    if MayDiscover(r) {
      var d := AfterWatchdog(r.discovery, Millis(t.entry));
      assert DiscoveryInv(d);
      if Sweeps(r, t) {
        SweepKeepsInv(d, sweep, t);
      }
    }
  }

  lemma TransceiveKeepsInv(r: Reader, m: ProtocolMessage, now: u32)
    requires Inv(r)
    ensures Inv(OnTransceive(r, m, now).0)
  {
  }

  lemma ResumeKeepsInv(r: Reader, m: ProtocolMessage, off: FieldOff, now: u32)
    requires Inv(r) && (m.payload == [1] ==> r.step == Step.Idle)
    ensures Inv(OnResume(r, m, off, now).0)
  {
  }

  lemma StartKeepsInv(r: Reader, m: ProtocolMessage, now: u32)
    requires Inv(r)
    ensures Inv(OnStart(r, m, now).0)
  {
  }

  /** Where a message goes. */
  lemma Routes(r: Reader, m: ProtocolMessage, radio: Radio, now: u32)
    ensures m.code == TypeCode(Transceive) ==> Dispatch(r, m, radio, now) == OnTransceive(r, m, now)
    ensures m.code == TypeCode(ResumeDiscovery) ==> Dispatch(r, m, radio, now) == OnResume(r, m, radio.off, now)
    ensures m.code == TypeCode(StartDiscovery) ==> Dispatch(r, m, radio, now) == OnStart(r, m, now)
    ensures m.code == TypeCode(Reset) ==>
              Dispatch(r, m, radio, now).0 == CancelTransceive(r).(discovery := Disabled(r.discovery).(failures := 0), ring := [])
  {
  }

  /** The other messages at most clear the ring, and that only while nothing runs. */
  lemma OthersLeaveState(r: Reader, m: ProtocolMessage, radio: Radio, now: u32)
    requires m.code != TypeCode(Transceive) && m.code != TypeCode(ResumeDiscovery)
    requires m.code != TypeCode(StartDiscovery) && m.code != TypeCode(Reset)
    ensures var (s, out) := Dispatch(r, m, radio, now); (s == r || (!r.waiting && s == r.(ring := []))) && out.wire == []
  {
  }

  lemma DispatchKeepsInv(r: Reader, m: ProtocolMessage, radio: Radio, now: u32)
    requires Inv(r) && (m.code == TypeCode(ResumeDiscovery) && m.payload == [1] ==> r.step == Step.Idle)
    ensures Inv(Dispatch(r, m, radio, now).0)
  {
    Routes(r, m, radio, now);
    var s := Dispatch(r, m, radio, now).0;
    if m.code == TypeCode(Transceive) {
      TransceiveKeepsInv(r, m, now);
    } else if m.code == TypeCode(ResumeDiscovery) {
      ResumeKeepsInv(r, m, radio.off, now);
    } else if m.code == TypeCode(StartDiscovery) {
      StartKeepsInv(r, m, now);
    } else if m.code == TypeCode(Reset) {
      ResetKeepsInv(r, s);
    } else {
      OthersLeaveState(r, m, radio, now);
      ClearedRingKeepsInv(r);
    }
  }

  lemma ResetKeepsInv(r: Reader, s: Reader)
    requires Inv(r) && s == CancelTransceive(r).(discovery := Disabled(r.discovery).(failures := 0), ring := [])
    ensures Inv(s)
  {
  }

  lemma ClearedRingKeepsInv(r: Reader)
    requires Inv(r)
    ensures Inv(r.(ring := []))
  {
  }

  /** Every message, pass and connection event keeps the invariant. */
  lemma TakeKeepsInv(r: Reader, e: Event)
    requires Inv(r) && Allowed(r, e)
    ensures Inv(Take(r, e).0)
  {
    match e
    case Receive(raw, radio, now) =>
      if DecodeMessage(raw).Some? {
        DispatchKeepsInv(r, DecodeMessage(raw).value, radio, Millis(now));
      }
    case Loop(bytes, sweep, t) =>
      if !r.ota {
        DrainKeepsInv(r, bytes);
        UpdateKeepsInv(Drain(r, bytes), Millis(t.poll));
        DiscoveryKeepsInv(Update(Drain(r, bytes), Millis(t.poll)).0, sweep, t);
      }
    case Connected =>
    case Disconnected =>
    case OtaStarted =>
    case OtaFailed =>
  }

  // ----- Runs -----

  function Run(r: Reader, es: seq<Event>): Reader
    decreases |es|
  {
    if es == [] then r else Take(Run(r, es[..|es| - 1]), es[|es| - 1]).0
  }

  predicate AllAllowed(r: Reader, es: seq<Event>)
    decreases |es|
  {
    es == [] || (AllAllowed(r, es[..|es| - 1]) && Allowed(Run(r, es[..|es| - 1]), es[|es| - 1]))
  }

  lemma {:induction false} RunKeepsInv(r: Reader, es: seq<Event>)
    requires Inv(r) && AllAllowed(r, es)
    ensures Inv(Run(r, es))
    decreases |es|
  {
    if es != [] {
      RunKeepsInv(r, es[..|es| - 1]);
      TakeKeepsInv(Run(r, es[..|es| - 1]), es[|es| - 1]);
    }
  }

  /** The invariant holds after every run from power-on. */
  lemma PowerOnRunKeepsInv(es: seq<Event>)
    requires AllAllowed(START_STATE, es)
    ensures Inv(Run(START_STATE, es))
  {
    RunKeepsInv(START_STATE, es);
  }

  // ----- One reply per request -----

  predicate IsReply(m: ProtocolMessage) {
    m.code == TypeCode(Response) || m.code == TypeCode(ErrorResponse)
  }

  /** The request ids that are answered by a list of messages, in order. */
  function ReplyIds(ms: seq<ProtocolMessage>): seq<u32>
    decreases |ms|
  {
    if ms == [] then []
    else (if IsReply(ms[0]) then [ms[0].requestId] else []) + ReplyIds(ms[1..])
  }

  lemma ReplyIdsOfOne(m: ProtocolMessage)
    ensures ReplyIds([m]) == if IsReply(m) then [m.requestId] else []
  {
  }

  lemma {:induction false} ReplyIdsAppend(a: seq<ProtocolMessage>, b: seq<ProtocolMessage>)
    ensures ReplyIds(a + b) == ReplyIds(a) + ReplyIds(b)
    decreases |a|
  {
    if a == [] {
      assert a + b == b;
    } else {
      assert (a + b)[1..] == a[1..] + b;
      ReplyIdsAppend(a[1..], b);
      var first := if IsReply(a[0]) then [a[0].requestId] else [];
      assert first + (ReplyIds(a[1..]) + ReplyIds(b)) == (first + ReplyIds(a[1..])) + ReplyIds(b);
    }
  }

  /** The request whose transceive is running, if any. */
  function Open(r: Reader): seq<u32> {
    if r.step == Step.Idle then [] else [r.requestId]
  }

  /** A TRANSCEIVE that the handler takes on instead of answering. */
  predicate Accepts(r: Reader, m: ProtocolMessage) {
    && m.code == TypeCode(Transceive) && m.payload != [] && |m.payload| <= 250 && m.timeoutMs != 0
    && !r.waiting && r.discovery.targetPending
  }

  /** Every message is answered at once, once, and under its own id: an accepted TRANSCEIVE
      is answered later, a BUTTON_RESULT is itself an answer, and bytes that are no message
      are answered under id 0. */
  lemma HandlerReplies(r: Reader, raw: seq<byte>, radio: Radio, now: nat)
    requires Inv(r)
    ensures ReplyIds(Take(r, Receive(raw, radio, now)).1.messages) ==
            match DecodeMessage(raw)
            case None => [0]
            case Some(m) => if Accepts(r, m) || m.code == TypeCode(ButtonResult) then [] else [m.requestId]
  {
    if DecodeMessage(raw).Some? {
      DispatchReplies(r, DecodeMessage(raw).value, radio, Millis(now));
    } else {
      ReplyIdsOfOne(ErrorReply(0, BadMessage));
    }
  }

  lemma DispatchReplies(r: Reader, m: ProtocolMessage, radio: Radio, now: u32)
    requires Inv(r)
    ensures ReplyIds(Dispatch(r, m, radio, now).1.messages) ==
            if Accepts(r, m) || m.code == TypeCode(ButtonResult) then [] else [m.requestId]
  {
    var ms := Dispatch(r, m, radio, now).1.messages;
    DispatchSends(r, m, radio, now);
    if ms != [] {
      ReplyIdsOfOne(ms[0]);
      ReplyIdsAppend([ms[0]], ms[1..]);
      assert ms == [ms[0]] + ms[1..];
      if |ms| == 2 {
        ReplyIdsOfOne(ms[1]);
        assert ms[1..] == [ms[1]];
      }
    }
  }

  /** A handler sends its reply first; only START sends a status after it. */
  lemma DispatchSends(r: Reader, m: ProtocolMessage, radio: Radio, now: u32)
    requires Inv(r)
    ensures var ms := Dispatch(r, m, radio, now).1.messages;
            if Accepts(r, m) || m.code == TypeCode(ButtonResult) then ms == []
            else 1 <= |ms| <= 2 && IsReply(ms[0]) && ms[0].requestId == m.requestId && (|ms| == 2 ==> !IsReply(ms[1]))
  {
    if m.code == TypeCode(Transceive) {
      TransceiveSends(r, m, now);
    } else if m.code == TypeCode(StartDiscovery) {
      StartSends(r, m, now);
    } else if m.code == TypeCode(ResumeDiscovery) {
      ResumeSends(r, m, radio.off, now);
    }
  }

  lemma TransceiveSends(r: Reader, m: ProtocolMessage, now: u32)
    requires Inv(r) && m.code == TypeCode(Transceive)
    ensures var ms := OnTransceive(r, m, now).1.messages;
            if Accepts(r, m) then ms == [] else |ms| == 1 && IsReply(ms[0]) && ms[0].requestId == m.requestId
  {
  }

  lemma StartSends(r: Reader, m: ProtocolMessage, now: u32)
    ensures var ms := OnStart(r, m, now).1.messages;
            1 <= |ms| <= 2 && IsReply(ms[0]) && ms[0].requestId == m.requestId && (|ms| == 2 ==> !IsReply(ms[1]))
  {
  }

  lemma ResumeSends(r: Reader, m: ProtocolMessage, off: FieldOff, now: u32)
    ensures var ms := OnResume(r, m, off, now).1.messages;
            |ms| == 1 && IsReply(ms[0]) && ms[0].requestId == m.requestId
  {
  }

  /** A pass answers the running transceive exactly when it ends it. */
  lemma PassReplies(r: Reader, bytes: seq<byte>, sweep: SweepResults, t: Times)
    requires Inv(r)
    ensures var (s, out) := Take(r, Loop(bytes, sweep, t));
            Open(r) == ReplyIds(out.messages) + Open(s)
  {
    if !r.ota {
      DrainKeepsInv(r, bytes);
      var d := Drain(r, bytes);
      var (u, out) := Update(d, Millis(t.poll));
      UpdateReplies(d, Millis(t.poll));
      var (v, more) := AutonomousDiscovery(u, sweep, t);
      DiscoveryRepliesNothing(u, sweep, t);
      ReplyIdsAppend(out.messages, more.messages);
    }
  }

  /** What a step of the transceive may send: nothing while it goes on, one reply under the
      request's id, never "busy", when it ends. */
  ghost predicate StepSends(r: Reader, s: Reader, out: Effects) {
    if s.step == Step.Idle
    then exists m :: out.messages == [m] && IsReply(m) && m.requestId == r.requestId && m != ErrorReply(r.requestId, Pn532Busy)
    else out.messages == [] && s.requestId == r.requestId
  }

  lemma AdvanceSends(r: Reader, data: seq<byte>, now: u32)
    requires r.step != Step.Idle && !r.async.active
    ensures StepSends(r, Advance(r, data, now).0, Advance(r, data, now).1)
  {
  }

  lemma UpdateSends(r: Reader, now: u32)
    requires r.step != Step.Idle && r.async.active
    ensures StepSends(r, Update(r, now).0, Update(r, now).1)
  {
    var p := Poll(r.async, r.ring, now);
    match p
    case Done(data, ring) => AdvanceSends(r.(async := r.async.(active := false), ring := ring), data, now);
    case Failed(e, _, wire) =>
      assert Update(r, now).1.messages == [ErrorReply(r.requestId, e)];
    case Pending(_, _) =>
  }

  lemma UpdateReplies(r: Reader, now: u32)
    requires TransceiveInv(r)
    ensures var (s, out) := Update(r, now);
            && Open(r) == ReplyIds(out.messages) + Open(s)
            && forall m :: m in out.messages ==> m != ErrorReply(m.requestId, Pn532Busy)
  {
    if r.step != Step.Idle {
      UpdateSends(r, now);
      var out := Update(r, now).1;
      if out.messages != [] {
        ReplyIdsOfOne(out.messages[0]);
      }
    }
  }

  lemma DiscoverySends(d: Discovery, sweep: SweepResults, t: Times)
    ensures var out := RunSweep(d, sweep, t).1;
            out.messages == [] || (|out.messages| == 1 && !IsReply(out.messages[0]))
  {
  }

  lemma DiscoveryRepliesNothing(r: Reader, sweep: SweepResults, t: Times)
    ensures var (s, out) := AutonomousDiscovery(r, sweep, t);
            && ReplyIds(out.messages) == [] && s.step == r.step && s.requestId == r.requestId
            && forall m :: m in out.messages ==> !IsReply(m)
  {
    var out := AutonomousDiscovery(r, sweep, t).1;
    DiscoverySends(AfterWatchdog(r.discovery, Millis(t.entry)), sweep, t);
    if out.messages != [] {
      assert out.messages == [out.messages[0]];
      ReplyIdsOfOne(out.messages[0]);
    }
  }

  /** The requests taken on by one event, and those ended by it: answered by a pass, or
      cancelled by a reset, a new connection, a lost one or an update. */
  function TakenOn(r: Reader, e: Event): seq<u32> {
    if e.Receive? && DecodeMessage(e.raw).Some? && Accepts(r, DecodeMessage(e.raw).value)
    then [DecodeMessage(e.raw).value.requestId] else []
  }

  function Ended(r: Reader, e: Event): seq<u32> {
    match e
    case Loop(_, _, _) => ReplyIds(Take(r, e).1.messages)
    case Receive(raw, _, _) =>
      if DecodeMessage(raw).Some? && DecodeMessage(raw).value.code == TypeCode(Reset) then Open(r) else []
    case OtaFailed => []
    case _ => Open(r)
  }

  lemma DispatchConserves(r: Reader, m: ProtocolMessage, radio: Radio, now: u32)
    requires Inv(r)
    ensures Open(r) + (if Accepts(r, m) then [m.requestId] else [])
         == (if m.code == TypeCode(Reset) then Open(r) else []) + Open(Dispatch(r, m, radio, now).0)
  {
    if m.code == TypeCode(ResumeDiscovery) {
      ResumeLeavesTransceive(r, m, radio.off, now);
    }
  }

  lemma ResumeLeavesTransceive(r: Reader, m: ProtocolMessage, off: FieldOff, now: u32)
    ensures var s := OnResume(r, m, off, now).0; s.step == r.step && s.requestId == r.requestId
  {
  }

  lemma TakeConserves(r: Reader, e: Event)
    requires Inv(r) && Allowed(r, e)
    ensures Open(r) + TakenOn(r, e) == Ended(r, e) + Open(Take(r, e).0)
  {
    match e
    case Loop(bytes, sweep, t) => PassReplies(r, bytes, sweep, t);
    case Receive(raw, radio, now) =>
      if DecodeMessage(raw).Some? {
        DispatchConserves(r, DecodeMessage(raw).value, radio, Millis(now));
      }
    case Connected =>
    case Disconnected =>
    case OtaStarted =>
    case OtaFailed =>
  }

  function AllTakenOn(r: Reader, es: seq<Event>): seq<u32>
    decreases |es|
  {
    if es == [] then []
    else
      var init := es[..|es| - 1];
      AllTakenOn(r, init) + TakenOn(Run(r, init), es[|es| - 1])
  }

  function AllEnded(r: Reader, es: seq<Event>): seq<u32>
    decreases |es|
  {
    if es == [] then []
    else
      var init := es[..|es| - 1];
      AllEnded(r, init) + Ended(Run(r, init), es[|es| - 1])
  }

  lemma Regroup(a: seq<u32>, b: seq<u32>, c: seq<u32>, p: seq<u32>, q: seq<u32>, u: seq<u32>, v: seq<u32>)
    requires a + b == p + q && q + c == u + v
    ensures a + (b + c) == (p + u) + v
  {
    assert a + (b + c) == (a + b) + c == p + (q + c);
    assert p + (u + v) == (p + u) + v;
  }

  /** Exactly one reply: over every run the accepted transceives are ended one by one in the
      order in which they were accepted, each by one reply under its own id or by a
      cancelling event, and at most the last is still running. */
  lemma {:induction false} ExactlyOneReply(r: Reader, es: seq<Event>)
    requires Inv(r) && AllAllowed(r, es)
    ensures Open(r) + AllTakenOn(r, es) == AllEnded(r, es) + Open(Run(r, es))
    decreases |es|
  {
    if es == [] {
      assert Open(r) + [] == [] + Open(r);
    } else {
      var init, e := es[..|es| - 1], es[|es| - 1];
      var s := Run(r, init);
      ExactlyOneReply(r, init);
      RunKeepsInv(r, init);
      TakeConserves(s, e);
      Regroup(Open(r), AllTakenOn(r, init), TakenOn(s, e), AllEnded(r, init), Open(s), Ended(s, e), Open(Take(s, e).0));
    }
  }

  /** From power-on, the replies and cancellations are the accepted requests in order. */
  lemma PowerOnExactlyOneReply(es: seq<Event>)
    requires AllAllowed(START_STATE, es)
    ensures AllEnded(START_STATE, es) <= AllTakenOn(START_STATE, es)
    ensures |AllTakenOn(START_STATE, es)| - |AllEnded(START_STATE, es)| <= 1
  {
    ExactlyOneReply(START_STATE, es);
    assert Open(START_STATE) + AllTakenOn(START_STATE, es) == AllTakenOn(START_STATE, es);
  }

  /** No pass ever reports a transceive as busy: the branches for a step that cannot begin
      are unreachable. */
  lemma StepsAlwaysBegin(r: Reader, bytes: seq<byte>, sweep: SweepResults, t: Times)
    requires Inv(r)
    ensures forall m :: m in Take(r, Loop(bytes, sweep, t)).1.messages ==> m != ErrorReply(m.requestId, Pn532Busy)
  {
    if !r.ota {
      DrainKeepsInv(r, bytes);
      var d := Drain(r, bytes);
      UpdateReplies(d, Millis(t.poll));
      DiscoveryRepliesNothing(Update(d, Millis(t.poll)).0, sweep, t);
    }
  }
}
