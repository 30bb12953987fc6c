/** A whole transceive over a run of the reader: passes of the loop with anything else that
    may come in between, from the accepted message to its reply. */
module ReaderExchange {
  import opened Words
  import opened Protocol
  import opened Pn532Ring
  import opened Pn532Frames
  import opened FrameCollector
  import opened LocalCommands
  import opened AsyncCommands
  import opened ReaderMachine
  import opened ReaderRuns

  // ----- The run as its passes see it -----

  /** What may come while a transceive runs without ending it: passes, and messages other than
      RESET and, by the rule of `Allowed`, a retry RESUME. */
  predicate Quiet(e: Event) {
    || e.Loop?
    || (e.Receive? && !RetryResume(e)
        && (DecodeMessage(e.raw).Some? ==> DecodeMessage(e.raw).value.code != TypeCode(Reset)))
  }

  predicate AllQuiet(es: seq<Event>) {
    forall n | 0 <= n < |es| :: Quiet(es[n])
  }

  /** The bytes and instants of the passes. */
  function LooksOf(es: seq<Event>): seq<Look>
    decreases |es|
  {
    if es == [] then []
    else
      var last := es[|es| - 1];
      LooksOf(es[..|es| - 1]) + if last.Loop? then [Look(last.bytes, Millis(last.times.poll))] else []
  }

  /** Everything the transceive writes to the chip. */
  function Wires(r: Reader, es: seq<Event>): seq<seq<byte>>
    decreases |es|
  {
    if es == [] then []
    else Wires(r, es[..|es| - 1]) + Take(Run(r, es[..|es| - 1]), es[|es| - 1]).1.wire
  }

  lemma QuietMessage(r: Reader, e: Event)
    requires Inv(r) && r.step != Step.Idle && Quiet(e) && e.Receive?
    ensures var (s, out) := Take(r, e); s == r.(discovery := s.discovery) && out.wire == []
  {
    if DecodeMessage(e.raw).Some? {
      QuietDispatch(r, DecodeMessage(e.raw).value, e.radio, Millis(e.now));
    }
  }

  lemma QuietDispatch(r: Reader, m: ProtocolMessage, radio: Radio, now: u32)
    requires Inv(r) && r.step != Step.Idle && m.code != TypeCode(Reset)
    requires m.code == TypeCode(ResumeDiscovery) ==> m.payload != [1]
    ensures var (s, out) := Dispatch(r, m, radio, now); s == r.(discovery := s.discovery) && out.wire == []
  {
    assert r == r.(discovery := r.discovery);
    Routes(r, m, radio, now);
    if m.code == TypeCode(ResumeDiscovery) {
      QuietResume(r, m, radio.off, now);
    } else if m.code == TypeCode(StartDiscovery) || m.code == TypeCode(Transceive) {
      BusyRefuses(r, m, now);
    } else {
      OthersLeaveState(r, m, radio, now);
    }
  }

  lemma QuietResume(r: Reader, m: ProtocolMessage, off: FieldOff, now: u32)
    requires m.payload != [1]
    ensures var (s, out) := OnResume(r, m, off, now); s == r.(discovery := s.discovery) && out.wire == []
  {
    assert |m.payload| == 1 && m.payload[0] == 1 ==> m.payload == [1];
    assert r == r.(discovery := r.discovery);
  }

  lemma BusyRefuses(r: Reader, m: ProtocolMessage, now: u32)
    requires r.waiting
    ensures OnStart(r, m, now).0 == OnTransceive(r, m, now).0 == r
    ensures OnStart(r, m, now).1.wire == OnTransceive(r, m, now).1.wire == []
  {
  }

  /** A pass that leaves the command waiting changes the command and the ring, and no more. */
  lemma WaitingPass(r: Reader, e: Event)
    requires Inv(r) && r.step != Step.Idle && !r.ota && e.Loop?
    requires Poll(r.async, OfferAll(r.ring, e.bytes), Millis(e.times.poll)).Pending?
    ensures var p := Poll(r.async, OfferAll(r.ring, e.bytes), Millis(e.times.poll));
            Take(r, e) == (r.(async := p.command, ring := p.ring), NOTHING)
  {
    var p := Poll(r.async, OfferAll(r.ring, e.bytes), Millis(e.times.poll));
    var s := r.(async := p.command, ring := p.ring);
    assert Update(Drain(r, e.bytes), Millis(e.times.poll)) == (s, NOTHING);
    assert !MayDiscover(s);
    assert NOTHING.messages + NOTHING.messages == [] && NOTHING.wire + NOTHING.wire == [];
  }

  lemma {:induction false} ServeAppend(a: AsyncCommand, ring: seq<byte>, looks: seq<Look>, last: Look)
    ensures var p := Serve(a, ring, looks);
            Serve(a, ring, looks + [last])
            == if p.Pending? then Poll(p.command, OfferAll(p.ring, last.bytes), last.now) else p
    decreases |looks|
  {
    var all := looks + [last];
    if looks == [] {
      assert all[1..] == [];
    } else {
      assert all[1..] == looks[1..] + [last];
      var p := Poll(a, OfferAll(ring, looks[0].bytes), looks[0].now);
      if p.Pending? {
        ServeAppend(p.command, p.ring, looks[1..], last);
      }
    }
  }

  /** As long as the command is still waiting, the run does to the reader what serving the
      command does to it. */
  lemma {:induction false} RunWaits(r: Reader, es: seq<Event>)
    requires Inv(r) && r.step != Step.Idle && !r.ota && AllQuiet(es) && Serve(r.async, r.ring, LooksOf(es)).Pending?
    ensures var p, s := Serve(r.async, r.ring, LooksOf(es)), Run(r, es);
            s == r.(async := p.command, ring := p.ring, discovery := s.discovery) && Inv(s) && Wires(r, es) == []
    decreases |es|
  {
    if es != [] {
      var init, e := es[..|es| - 1], es[|es| - 1];
      LooksNext(r, es);
      RunWaits(r, init);
      WaitingStep(r, Run(r, init), Serve(r.async, r.ring, LooksOf(init)), e);
    }
  }

  /** One more event while the command waits. */
  lemma WaitingStep(r: Reader, s: Reader, p: Polled, e: Event)
    requires Inv(s) && r.step != Step.Idle && !r.ota && Quiet(e) && p.Pending?
    requires s == r.(async := p.command, ring := p.ring, discovery := s.discovery)
    requires e.Loop? ==> Poll(p.command, OfferAll(p.ring, e.bytes), Millis(e.times.poll)).Pending?
    ensures var q := if e.Loop? then Poll(p.command, OfferAll(p.ring, e.bytes), Millis(e.times.poll)) else p;
            var u := Take(s, e).0;
            u == r.(async := q.command, ring := q.ring, discovery := u.discovery) && Inv(u) && Take(s, e).1.wire == []
  {
    TakeKeepsInv(s, e);
    if e.Loop? {
      WaitingPass(s, e);
    } else {
      QuietMessage(s, e);
    }
  }

  lemma LooksNext(r: Reader, es: seq<Event>)
    requires es != []
    ensures var init, e := es[..|es| - 1], es[|es| - 1];
            var p, q := Serve(r.async, r.ring, LooksOf(init)), Serve(r.async, r.ring, LooksOf(es));
            q == if !e.Loop? || !p.Pending? then p else Poll(p.command, OfferAll(p.ring, e.bytes), Millis(e.times.poll))
  {
    var init, e := es[..|es| - 1], es[|es| - 1];
    if e.Loop? {
      ServeAppend(r.async, r.ring, LooksOf(init), Look(e.bytes, Millis(e.times.poll)));
    } else {
      assert LooksOf(init) + [] == LooksOf(init);
    }
  }

  // ----- One command -----

  /** The command `e` has just been begun for `step`. */
  ghost predicate JustBegun(r: Reader, step: Step, e: Exchange) {
    && TransceiveInv(r) && step != Step.Idle && r.step == step && r.ring == []
    && exists now: u32 :: r.async == Begun(e.command, e.timeoutMs, now)
  }

  lemma BegunIs(r: Reader, step: Step, e: Exchange, now: u32)
    requires !r.async.active && step != Step.Idle && r.timeoutMs >= 1 && |r.payload| <= MAX_TRANSCEIVE
    ensures var (s, out) := BeginStep(r, step, e, now);
            && JustBegun(s, step, e) && out == Effects([], [CommandFrame(e)])
            && s.payload == r.payload && s.timeoutMs == r.timeoutMs && s.requestId == r.requestId
  {
  }

  /** Accepting the message writes the register read. */
  lemma AcceptReadsRegisters(r: Reader, m: ProtocolMessage, now: u32)
    requires Inv(r) && Accepts(r, m)
    ensures var (s, out) := OnTransceive(r, m, now);
            && JustBegun(s, ReadRegisters, READ_RF_REGISTERS) && out == Effects([], [CommandFrame(READ_RF_REGISTERS)])
            && s.payload == m.payload && s.timeoutMs == m.timeoutMs && s.requestId == m.requestId
  {
  }

  /** The chip acknowledges the command just begun and answers it with `data`, behind any
      noise; the passes come in time, and the last event is the pass that finds the answer
      whole. */
  ghost predicate Fetches(r: Reader, es: seq<Event>, data: seq<byte>) {
    && AllQuiet(es) && es != [] && es[|es| - 1].Loop? && |data| <= MAX_DATA
    && InTime(r.async, [], LooksOf(es))
    && Serve(r.async, [], LooksOf(es[..|es| - 1])).Pending? && !Serve(r.async, [], LooksOf(es)).Pending?
    && exists noise, more :: Noise(noise)
         && Arrived(LooksOf(es)) == noise + (ACK + (Build(CHIP, Successor(r.async.command), data) + more))
  }

  lemma FetchedIsServed(r: Reader, step: Step, e: Exchange, es: seq<Event>, data: seq<byte>)
    requires JustBegun(r, step, e) && Fetches(r, es, data)
    ensures Serve(r.async, [], LooksOf(es)).Done? && Serve(r.async, [], LooksOf(es)).data == data
  {
    var begun: u32 :| r.async == Begun(e.command, e.timeoutMs, begun);
    var noise, more :| Noise(noise)
      && Arrived(LooksOf(es)) == noise + (ACK + (Build(CHIP, Successor(r.async.command), data) + more));
    OutcomeOfResponse(e.command, noise, data, more);
    ServeAgrees(r.async, [], LooksOf(es));
    assert [] + Arrived(LooksOf(es)) == Arrived(LooksOf(es));
    assert Verdict(r.async, Arrived(LooksOf(es))) == AsyncOutcome(e.command, Arrived(LooksOf(es)));
  }

  /** The pass that ends the command advances the transceive with the chip's data. */
  lemma FetchAdvances(r: Reader, step: Step, e: Exchange, es: seq<Event>, data: seq<byte>) returns (s: Reader, now: u32)
    requires Inv(r) && !r.ota && JustBegun(r, step, e) && Fetches(r, es, data)
    ensures s == r.(async := s.async, ring := s.ring, discovery := s.discovery) && !s.async.active && DiscoveryInv(s.discovery)
    ensures var (u, out) := Advance(s, data, now);
            && Wires(r, es) == out.wire
            && (u.step != Step.Idle ==> Run(r, es) == u)
            && (u.step == Step.Idle ==>
                  Run(r, es).step == Step.Idle && out.messages <= Take(Run(r, es[..|es| - 1]), es[|es| - 1]).1.messages)
  {
    var init, last := es[..|es| - 1], es[|es| - 1];
    FetchedIsServed(r, step, e, es, data);
    LooksNext(r, es);
    RunWaits(r, init);
    var before := Run(r, init);
    now := Millis(last.times.poll);
    s := LastPass(before, last, data);
    assert Wires(r, es) == [] + Take(before, last).1.wire;
  }

  lemma LastPass(r: Reader, e: Event, data: seq<byte>) returns (s: Reader)
    requires Inv(r) && r.step != Step.Idle && !r.ota && e.Loop?
    requires var p := Poll(r.async, OfferAll(r.ring, e.bytes), Millis(e.times.poll)); p.Done? && p.data == data
    ensures s == r.(async := s.async, ring := s.ring) && !s.async.active
    ensures var (u, out) := Advance(s, data, Millis(e.times.poll));
            && Take(r, e).1.wire == out.wire
            && (u.step != Step.Idle ==> Take(r, e).0 == u)
            && (u.step == Step.Idle ==> Take(r, e).0.step == Step.Idle && out.messages <= Take(r, e).1.messages)
  {
    var d := Drain(r, e.bytes);
    var p := Poll(d.async, d.ring, Millis(e.times.poll));
    s := d.(async := d.async.(active := false), ring := p.ring);
    var (u, out) := Advance(s, data, Millis(e.times.poll));
    assert Update(d, Millis(e.times.poll)) == (u, out);
    DrainKeepsInv(r, e.bytes);
    RestIsShorter(d.async.collector, d.ring);
    AdvanceKeepsInv(s, data, Millis(e.times.poll));
    DiscoveryAdds(u, out, e.sweep, e.times);
  }

  /** Behind a transceive's own effects discovery adds nothing while it runs, and nothing that
      concerns it afterwards. */
  lemma DiscoveryAdds(u: Reader, out: Effects, sweep: SweepResults, t: Times)
    requires TransceiveInv(u)
    ensures var (v, more) := AutonomousDiscovery(u, sweep, t);
            && v.step == u.step && out.wire + more.wire == out.wire && out.messages <= out.messages + more.messages
            && (u.step != Step.Idle ==> v == u && out.messages + more.messages == out.messages)
  {
  }

  /** A command that ends, in time, over some passes. */
  ghost predicate Ends(r: Reader, es: seq<Event>) {
    && AllQuiet(es) && es != [] && es[|es| - 1].Loop? && InTime(r.async, [], LooksOf(es))
    && Serve(r.async, [], LooksOf(es[..|es| - 1])).Pending? && !Serve(r.async, [], LooksOf(es)).Pending?
  }

  /** What was asked for cannot be used: not three registers, or an empty response. */
  predicate Useless(step: Step, data: seq<byte>) {
    (step == ReadRegisters && |data| != 3) || (step == Exchanging && data == [])
  }

  /** What the pass that ends a command in time answers is decided by the chip's bytes alone:
      the error that they come to, PN532_BAD_FRAME for an answer of no use, and nothing yet if
      the transceive goes on. */
  lemma BytesDecideReply(r: Reader, step: Step, e: Exchange, es: seq<Event>)
    requires Inv(r) && !r.ota && JustBegun(r, step, e) && Ends(r, es)
    ensures var out := Take(Run(r, es[..|es| - 1]), es[|es| - 1]).1; var s := Run(r, es);
            match AsyncOutcome(e.command, Arrived(LooksOf(es)))
            case Failure(error) => s.step == Step.Idle && [ErrorReply(r.requestId, error)] <= out.messages
            case Success(data) =>
              if Useless(step, data) then s.step == Step.Idle && [ErrorReply(r.requestId, Pn532BadFrame)] <= out.messages
              else if step == Exchanging then s.step == Step.Idle && [Reply(r.requestId, data)] <= out.messages
              else s.step != Step.Idle && s.step != step && out.messages == []
  {
    var init, last := es[..|es| - 1], es[|es| - 1];
    EndIsVerdict(r, step, e, es);
    LooksNext(r, es);
    RunWaits(r, init);
    var p := Serve(r.async, [], LooksOf(es));
    if p.Done? {
      var s := LastPass(Run(r, init), last, p.data);
      DataLeadsOn(s, p.data, Millis(last.times.poll));
    } else {
      FailingPass(Run(r, init), last, p.error);
    }
  }

  lemma EndIsVerdict(r: Reader, step: Step, e: Exchange, es: seq<Event>)
    requires JustBegun(r, step, e) && Ends(r, es)
    ensures match Serve(r.async, [], LooksOf(es))
            case Done(data, _) => AsyncOutcome(e.command, Arrived(LooksOf(es))) == Success(data)
            case Failed(error, _, _) => AsyncOutcome(e.command, Arrived(LooksOf(es))) == Failure(error)
            case Pending(_, _) => false
  {
    var begun: u32 :| r.async == Begun(e.command, e.timeoutMs, begun);
    ServeAgrees(r.async, [], LooksOf(es));
    assert [] + Arrived(LooksOf(es)) == Arrived(LooksOf(es));
    assert Verdict(r.async, Arrived(LooksOf(es))) == AsyncOutcome(e.command, Arrived(LooksOf(es)));
  }

  /** What the data of a completed command lead to. */
  lemma DataLeadsOn(s: Reader, data: seq<byte>, now: u32)
    requires s.step != Step.Idle && !s.async.active
    ensures var (u, out) := Advance(s, data, now);
            if Useless(s.step, data) then u.step == Step.Idle && out.messages == [ErrorReply(s.requestId, Pn532BadFrame)]
            else if s.step == Exchanging then u.step == Step.Idle && out.messages == [Reply(s.requestId, data)]
            else u.step != Step.Idle && u.step != s.step && out.messages == []
  {
  }

  lemma FailingPass(r: Reader, e: Event, error: ErrorCode)
    requires Inv(r) && r.step != Step.Idle && !r.ota && e.Loop?
    requires var p := Poll(r.async, OfferAll(r.ring, e.bytes), Millis(e.times.poll)); p.Failed? && p.error == error
    ensures Take(r, e).0.step == Step.Idle && [ErrorReply(r.requestId, error)] <= Take(r, e).1.messages
  {
    var d := Drain(r, e.bytes);
    var (u, out) := Update(d, Millis(e.times.poll));
    DrainKeepsInv(r, e.bytes);
    UpdateKeepsInv(d, Millis(e.times.poll));
    DiscoveryAdds(u, out, e.sweep, e.times);
  }

  // ----- The four commands -----

  /** Four stretches of a run, and what the chip answers in each. */
  datatype Course = Course(read: seq<Event>, write: seq<Event>, time: seq<Event>, exchange: seq<Event>,
                           registers: seq<byte>, written: seq<byte>, timed: seq<byte>, response: seq<byte>)

  function AfterRead(r1: Reader, c: Course): Reader {
    Run(r1, c.read)
  }

  function AfterWrite(r1: Reader, c: Course): Reader {
    Run(AfterRead(r1, c), c.write)
  }

  function AfterTime(r1: Reader, c: Course): Reader {
    Run(AfterWrite(r1, c), c.time)
  }

  ghost predicate Follows(r1: Reader, c: Course) {
    && |c.registers| == 3 && c.response != []
    && Fetches(r1, c.read, c.registers) && Fetches(AfterRead(r1, c), c.write, c.written)
    && Fetches(AfterWrite(r1, c), c.time, c.timed) && Fetches(AfterTime(r1, c), c.exchange, c.response)
  }

  /** The transceive has moved on to the command `next` of step `step`. */
  ghost predicate MovedOn(r: Reader, s: Reader, step: Step, next: Exchange) {
    && JustBegun(s, step, next) && Inv(s) && !s.ota
    && s.payload == r.payload && s.timeoutMs == r.timeoutMs && s.requestId == r.requestId
  }

  lemma ReadMovesOn(r: Reader, es: seq<Event>, values: seq<byte>)
    requires Inv(r) && !r.ota && JustBegun(r, ReadRegisters, READ_RF_REGISTERS) && Fetches(r, es, values) && |values| == 3
    ensures MovedOn(r, Run(r, es), WriteRegisters, WriteRfRegisters(values))
    ensures Wires(r, es) == [CommandFrame(WriteRfRegisters(values))]
  {
    var s, now := FetchAdvances(r, ReadRegisters, READ_RF_REGISTERS, es, values);
    BegunIs(s, WriteRegisters, WriteRfRegisters(values), now);
  }

  lemma WriteMovesOn(r: Reader, values: seq<byte>, es: seq<Event>, data: seq<byte>)
    requires Inv(r) && !r.ota && |values| == 3 && JustBegun(r, WriteRegisters, WriteRfRegisters(values)) && Fetches(r, es, data)
    ensures MovedOn(r, Run(r, es), ConfigureTimeout, SetRfTimeouts(r.timeoutMs))
    ensures Wires(r, es) == [CommandFrame(SetRfTimeouts(r.timeoutMs))]
  {
    var s, now := FetchAdvances(r, WriteRegisters, WriteRfRegisters(values), es, data);
    BegunIs(s, ConfigureTimeout, SetRfTimeouts(r.timeoutMs), now);
  }

  lemma TimeMovesOn(r: Reader, es: seq<Event>, data: seq<byte>)
    requires Inv(r) && !r.ota && JustBegun(r, ConfigureTimeout, SetRfTimeouts(r.timeoutMs)) && Fetches(r, es, data)
    ensures MovedOn(r, Run(r, es), Exchanging, Communicate(r.payload, r.timeoutMs))
    ensures Wires(r, es) == [CommandFrame(Communicate(r.payload, r.timeoutMs))]
  {
    var s, now := FetchAdvances(r, ConfigureTimeout, SetRfTimeouts(r.timeoutMs), es, data);
    BegunIs(s, Exchanging, Communicate(r.payload, r.timeoutMs), now);
  }

  lemma ExchangeEnds(r: Reader, es: seq<Event>, data: seq<byte>)
    requires Inv(r) && !r.ota && JustBegun(r, Exchanging, Communicate(r.payload, r.timeoutMs)) && Fetches(r, es, data) && data != []
    ensures Run(r, es).step == Step.Idle && Wires(r, es) == []
    ensures [Reply(r.requestId, data)] <= Take(Run(r, es[..|es| - 1]), es[|es| - 1]).1.messages
  {
    var s, now := FetchAdvances(r, Exchanging, Communicate(r.payload, r.timeoutMs), es, data);
  }

  // The four frames, byte for byte.

  function RegisterRead(): seq<byte> {
    Build(0xD4, 0x06, [0x63, 0x02, 0x63, 0x03, 0x63, 0x05])
  }

  function RegisterWrite(values: seq<byte>): seq<byte>
    requires |values| == 3
  {
    Build(0xD4, 0x08, [0x63, 0x02, KeepBits732(values[0]), 0x63, 0x03, KeepBits732(values[1]), 0x63, 0x05, WithBit6(values[2])])
  }

  function TimeoutWrite(timeoutMs: u16): seq<byte> {
    Build(0xD4, 0x32, [0x02, 0x0A, 0x0B, RfTimeout.TimeoutCode(timeoutMs)])
  }

  function DataExchange(payload: seq<byte>): seq<byte> {
    Build(0xD4, 0x42, payload)
  }

  /** A whole transceive over every run in which the chip answers its four commands in time,
      with any messages in between that do not cancel it: it is over with the pass that finds
      the last answer whole; that pass sends the one RESPONSE under the request's own id, with
      exactly the chip's answer to the exchange; and four frames have gone out, the register
      read, the registers masked, the timeout code and the request's own payload. */
  lemma TransceiveRoundTrip(r: Reader, m: ProtocolMessage, now: u32, c: Course)
    requires Inv(r) && Accepts(r, m) && !r.ota && Follows(OnTransceive(r, m, now).0, c)
    ensures var (r1, out) := OnTransceive(r, m, now); var r4 := AfterTime(r1, c);
            && Run(r4, c.exchange).step == Step.Idle
            && [Reply(m.requestId, c.response)] <= Take(Run(r4, c.exchange[..|c.exchange| - 1]), c.exchange[|c.exchange| - 1]).1.messages
            && out.wire == [RegisterRead()]
            && Wires(r1, c.read) == [RegisterWrite(c.registers)]
            && Wires(AfterRead(r1, c), c.write) == [TimeoutWrite(m.timeoutMs)]
            && Wires(AfterWrite(r1, c), c.time) == [DataExchange(m.payload)]
            && Wires(r4, c.exchange) == []
            && Open(AfterRead(r1, c)) == Open(AfterWrite(r1, c)) == Open(r4) == [m.requestId]
  {
    AcceptReadsRegisters(r, m, now);
    TransceiveKeepsInv(r, m, now);
    var r1 := OnTransceive(r, m, now).0;
    ReadMovesOn(r1, c.read, c.registers);
    WriteMovesOn(AfterRead(r1, c), c.registers, c.write, c.written);
    TimeMovesOn(AfterWrite(r1, c), c.time, c.timed);
    ExchangeEnds(AfterTime(r1, c), c.exchange, c.response);
  }

  // ----- Such runs exist -----

  lemma NotYetDue(now: u32, ms: nat)
    requires 0 < ms < TWO_31
    ensures !Expired(now, Later(now, ms))
  {
  }

  /** A burst drained as soon as the command has been sent, and one more pass, are in time. */
  lemma BurstIsInTime(e: Exchange, now: u32, bytes: seq<byte>)
    requires |bytes| <= CAPACITY
    ensures InTime(Begun(e.command, e.timeoutMs, now), [], [Look(bytes, now)] + [Look([], now)])
  {
    var a := Begun(e.command, e.timeoutMs, now);
    var looks := [Look(bytes, now)] + [Look([], now)];
    NotYetDue(now, ACK_TIMEOUT_MS);
    NotYetDue(now, a.responseTimeoutMs);
    assert [] + bytes == bytes;
    var p := Poll(a, bytes, now);
    if p.Pending? {
      PollKeepsVerdict(a, bytes, now, []);
      assert !Expired(now, p.command.deadline);
      assert looks[1..] == [Look([], now)];
    }
  }

  predicate OnlyPasses(es: seq<Event>) {
    forall i | 0 <= i < |es| :: es[i].Loop?
  }

  /** A pass that finds `bytes` and nothing on the air. */
  function PassAt(now: u32, bytes: seq<byte>): Event {
    Loop(bytes, SweepResults(Failure(Pn532Timeout), Success([])), Times(now, now, now, now, now))
  }

  /** A chip that answers at once: one pass finds the acknowledgement in a burst with the
      answer, and the next the answer. */
  lemma PromptAnswer(r: Reader, step: Step, e: Exchange, data: seq<byte>) returns (es: seq<Event>)
    requires JustBegun(r, step, e) && |data| <= MAX_DATA
    ensures Fetches(r, es, data) && OnlyPasses(es)
  {
    var now: u32 :| r.async == Begun(e.command, e.timeoutMs, now);
    var bytes := Burst(e.command, data);
    BurstWaitsOnce(e, now, data, bytes);
    BurstIsInTime(e, now, bytes);
    es := [PassAt(now, bytes), PassAt(now, [])];
    TwoPassesFetch(r, now, bytes, data);
  }

  /** The acknowledgement and the answer at once. */
  function Burst(command: byte, data: seq<byte>): seq<byte> {
    [] + (ACK + (Build(CHIP, Successor(command), data) + []))
  }

  lemma TwoPassesFetch(r: Reader, now: u32, bytes: seq<byte>, data: seq<byte>)
    requires |data| <= MAX_DATA && bytes == Burst(r.async.command, data)
    requires InTime(r.async, [], [Look(bytes, now)] + [Look([], now)])
    requires Serve(r.async, [], [Look(bytes, now)]).Pending?
    requires !Serve(r.async, [], [Look(bytes, now)] + [Look([], now)]).Pending?
    ensures Fetches(r, [PassAt(now, bytes), PassAt(now, [])], data)
  {
    var a, b := PassAt(now, bytes), PassAt(now, []);
    assert Millis(now) == now;
    TwoLooks(a, b);
    ArrivedAppend([Look(bytes, now)], Look([], now));
    assert Arrived([Look(bytes, now)]) == bytes + Arrived([]) == bytes;
    assert Noise([]);
    FetchedBy(r, [a, b], data, bytes);
  }

  lemma FetchedBy(r: Reader, es: seq<Event>, data: seq<byte>, bytes: seq<byte>)
    requires AllQuiet(es) && es != [] && es[|es| - 1].Loop? && |data| <= MAX_DATA
    requires InTime(r.async, [], LooksOf(es))
    requires Serve(r.async, [], LooksOf(es[..|es| - 1])).Pending? && !Serve(r.async, [], LooksOf(es)).Pending?
    requires Arrived(LooksOf(es)) == bytes == Burst(r.async.command, data)
    ensures Fetches(r, es, data)
  {
    assert Noise([]);
  }

  lemma TwoLooks(a: Event, b: Event)
    requires a.Loop? && b.Loop?
    ensures LooksOf([a]) == [Look(a.bytes, Millis(a.times.poll))] && [a, b][..1] == [a]
    ensures LooksOf([a, b]) == [Look(a.bytes, Millis(a.times.poll))] + [Look(b.bytes, Millis(b.times.poll))]
  {
    assert [a, b][..1] == [a] && [a][..0] == [];
    assert LooksOf([a]) == [] + [Look(a.bytes, Millis(a.times.poll))];
  }

  lemma BurstWaitsOnce(e: Exchange, now: u32, data: seq<byte>, bytes: seq<byte>)
    requires |data| <= MAX_DATA && bytes == Burst(e.command, data)
    ensures var a := Begun(e.command, e.timeoutMs, now);
            && |bytes| <= CAPACITY && Serve(a, [], [Look(bytes, now)]).Pending?
            && Serve(a, [], [Look(bytes, now)] + [Look([], now)]).Done?
  {
    var a := Begun(e.command, e.timeoutMs, now);
    var answer := Build(CHIP, Successor(e.command), data) + [];
    BuiltFrameShape(CHIP, Successor(e.command), data);
    OfferAllKeepsPrefix([], bytes);
    assert [] + bytes[..|bytes|] == bytes;
    BurstIsTwoFrames(e.command, data, answer);
    assert Poll(a, bytes, now)
        == Polled.Pending(a.(phase := WaitResponse, deadline := Later(now, a.responseTimeoutMs), collector := FRESH), answer);
    assert [Look(bytes, now)][1..] == [];
    ServeAppend(a, [], [Look(bytes, now)], Look([], now));
  }

  lemma BurstIsTwoFrames(command: byte, data: seq<byte>, answer: seq<byte>)
    requires |data| <= MAX_DATA && answer == Build(CHIP, Successor(command), data) + []
    ensures FeedAll(FRESH, Burst(command, data)) == Complete(ACK, answer)
    ensures FeedAll(FRESH, answer).Complete? && ResponseData(FeedAll(FRESH, answer).frame, command) == Data(data)
  {
    BehindAck(command, [], answer);
    CollectorRefinesParse(Burst(command, data));
    BuildParseRoundTrip([], command, data, []);
    assert [] + Build(CHIP, Successor(command), data) + [] == answer;
    CollectorRefinesParse(answer);
  }

  /** Nothing on the reader's side stands in the way of a transceive: for every accepted
      request and every three register values and response of the chip there is a run in
      which the reader ends it with that response. */
  lemma EveryTransceiveCanSucceed(r: Reader, m: ProtocolMessage, now: u32, values: seq<byte>, response: seq<byte>)
    returns (c: Course)
    requires Inv(r) && Accepts(r, m) && !r.ota && |values| == 3 && 1 <= |response| <= MAX_DATA
    ensures c.registers == values && c.response == response && Follows(OnTransceive(r, m, now).0, c)
    ensures OnlyPasses(c.read) && OnlyPasses(c.write) && OnlyPasses(c.time) && OnlyPasses(c.exchange)
  {
    AcceptReadsRegisters(r, m, now);
    TransceiveKeepsInv(r, m, now);
    var r1 := OnTransceive(r, m, now).0;
    var read := PromptAnswer(r1, ReadRegisters, READ_RF_REGISTERS, values);
    ReadMovesOn(r1, read, values);
    var r2 := Run(r1, read);
    var write := PromptAnswer(r2, WriteRegisters, WriteRfRegisters(values), []);
    WriteMovesOn(r2, values, write, []);
    var r3 := Run(r2, write);
    var time := PromptAnswer(r3, ConfigureTimeout, SetRfTimeouts(r3.timeoutMs), []);
    TimeMovesOn(r3, time, []);
    var r4 := Run(r3, time);
    var exchange := PromptAnswer(r4, Exchanging, Communicate(r4.payload, r4.timeoutMs), response);
    c := Course(read, write, time, exchange, values, [], [], response);
  }
}
