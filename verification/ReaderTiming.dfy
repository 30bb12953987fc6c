/** How long the controller may have to wait for the reader, and that it waits long enough. */
module ReaderTiming {
  import opened Words
  import opened Protocol
  import opened FrameCollector
  import opened LocalCommands
  import opened AsyncCommands
  import opened ReaderMachine
  import opened ReaderRuns

  // ----- The phases of a transceive -----

  /** Four commands of two phases each, in order. */
  function PhaseNumber(step: Step, phase: Phase): nat
    requires step != Step.Idle && phase != Phase.Idle
  {
    var s := match step
      case Idle => 0
      case ReadRegisters => 0
      case WriteRegisters => 2
      case ConfigureTimeout => 4
      case Exchanging => 6;
    if phase == WaitAck then s else s + 1
  }

  /** How long a phase may last. */
  function PhaseLimit(k: nat, timeoutMs: u16): nat {
    if k % 2 == 0 then ACK_TIMEOUT_MS
    else if k < 7 then 300
    else Patience(Min(timeoutMs as int + 150, 0xFFFF))
  }

  /** How long the phases before phase `k` may last together, when passes are at most `d`
      apart: each its limit and one gap. */
  function Before(k: nat, timeoutMs: u16, d: nat): nat {
    if k == 0 then 0 else Before(k - 1, timeoutMs, d) + PhaseLimit(k - 1, timeoutMs) + d
  }

  lemma AllPhases(timeoutMs: u16, d: nat)
    requires timeoutMs >= 1
    ensures Before(8, timeoutMs, d) <= timeoutMs as int + 2050 + 8 * d
  {
    assert Before(1, timeoutMs, d) == 250 + d;
    assert Before(2, timeoutMs, d) == 550 + 2 * d;
    assert Before(3, timeoutMs, d) == 800 + 3 * d;
    assert Before(4, timeoutMs, d) == 1100 + 4 * d;
    assert Before(5, timeoutMs, d) == 1350 + 5 * d;
    assert Before(6, timeoutMs, d) == 1650 + 6 * d;
    assert Before(7, timeoutMs, d) == 1900 + 7 * d;
  }

  lemma {:induction false} BeforeMonotone(j: nat, k: nat, timeoutMs: u16, d: nat)
    requires j <= k
    ensures Before(j, timeoutMs, d) <= Before(k, timeoutMs, d)
    decreases k - j
  {
    if j < k {
      BeforeMonotone(j, k - 1, timeoutMs, d);
    }
  }

  // ----- The invariant of a running transceive -----

  /** The transceive accepted at `accepted` is in a phase that began at `began`; the last
      pass, at `last`, found it not yet expired; and no earlier phase has used more than its
      limit and one gap `d` between passes. */
  predicate Running(r: Reader, accepted: nat, began: nat, last: nat, d: nat) {
    && r.step != Step.Idle && r.async.phase != Phase.Idle
    && var k := PhaseNumber(r.step, r.async.phase);
       var limit := PhaseLimit(k, r.timeoutMs);
       && began <= last < began + limit
       && r.async.deadline == Millis(began + limit)
       && r.async.responseTimeoutMs == (if k % 2 == 0 then PhaseLimit(k + 1, r.timeoutMs) else limit)
       && began <= accepted + Before(k, r.timeoutMs, d)
  }

  /** When an accepted request must have been answered. */
  function DueBy(accepted: nat, timeoutMs: u16, d: nat): nat {
    accepted + timeoutMs as int + 2050 + 8 * d
  }

  /** A running transceive is never past its time. */
  lemma RunningIsEarly(r: Reader, accepted: nat, began: nat, last: nat, d: nat)
    requires Running(r, accepted, began, last, d) && r.timeoutMs >= 1
    ensures last + d <= DueBy(accepted, r.timeoutMs, d)
  {
    var k := PhaseNumber(r.step, r.async.phase);
    BeforeMonotone(k + 1, 8, r.timeoutMs, d);
    AllPhases(r.timeoutMs, d);
  }

  /** Accepting a TRANSCEIVE begins its first phase. */
  lemma AcceptedIsRunning(r: Reader, m: ProtocolMessage, now: nat, d: nat)
    requires Inv(r) && Accepts(r, m)
    ensures var s := OnTransceive(r, m, Millis(now)).0;
            Running(s, now, now, now, d) && s.requestId == m.requestId && s.timeoutMs == m.timeoutMs
  {
    LaterIsMillis(now, ACK_TIMEOUT_MS);
  }

  /** The expiry test at a pass no more than `d` after the last one is the true one. */
  lemma ExpiryIsTrue(r: Reader, accepted: nat, began: nat, last: nat, d: nat, now: nat)
    requires Running(r, accepted, began, last, d) && last <= now <= last + d && d < TWO_31 - 0x1_0000
    ensures var limit := PhaseLimit(PhaseNumber(r.step, r.async.phase), r.timeoutMs);
            Expired(Millis(now), r.async.deadline) <==> began + limit <= now
  {
  }

  /** One pass either ends the transceive or leaves it running, in the same phase or in the
      next one, which began at this pass. */
  lemma UpdateKeepsRunning(r: Reader, accepted: nat, began: nat, last: nat, d: nat, now: nat)
    requires TransceiveInv(r) && Running(r, accepted, began, last, d)
    requires last <= now <= last + d && d < TWO_31 - 0x1_0000
    ensures var s := Update(r, Millis(now)).0;
            || s.step == Step.Idle
            || Running(s, accepted, began, now, d)
            || Running(s, accepted, now, now, d)
    ensures Update(r, Millis(now)).0.timeoutMs == r.timeoutMs && Update(r, Millis(now)).0.ota == r.ota
  {
    ExpiryIsTrue(r, accepted, began, last, d, now);
    var k := PhaseNumber(r.step, r.async.phase);
    assert now <= accepted + Before(k + 1, r.timeoutMs, d);
    var p := Poll(r.async, r.ring, Millis(now));
    match p
    case Failed(_, _, _) =>
    case Pending(command, ring) =>
      if command.phase != r.async.phase {
        AckBeginsResponse(r, ring, now, accepted, d);
      }
    case Done(data, ring) =>
      AdvanceBegins(r.(async := r.async.(active := false), ring := ring), data, now, accepted, d);
  }

  /** The acknowledgement begins the response phase. */
  lemma AckBeginsResponse(r: Reader, ring: seq<byte>, now: nat, accepted: nat, d: nat)
    requires r.step != Step.Idle && r.async.phase == WaitAck
    requires var k := PhaseNumber(r.step, WaitAck);
             && r.async.responseTimeoutMs as int == PhaseLimit(k + 1, r.timeoutMs)
             && now <= accepted + Before(k + 1, r.timeoutMs, d)
    ensures var a := r.async.(phase := WaitResponse, deadline := Later(Millis(now), r.async.responseTimeoutMs), collector := FRESH);
            Running(r.(async := a, ring := ring), accepted, now, now, d)
  {
    LaterIsMillis(now, r.async.responseTimeoutMs);
  }

  /** Beginning a step starts its first phase. */
  lemma BeginStepRuns(r: Reader, step: Step, e: Exchange, now: nat, accepted: nat, d: nat)
    requires step != Step.Idle && !r.async.active
    requires Patience(e.timeoutMs) == PhaseLimit(PhaseNumber(step, WaitAck) + 1, r.timeoutMs)
    requires now <= accepted + Before(PhaseNumber(step, WaitAck), r.timeoutMs, d)
    ensures Running(BeginStep(r, step, e, Millis(now)).0, accepted, now, now, d)
    ensures BeginStep(r, step, e, Millis(now)).0.timeoutMs == r.timeoutMs && BeginStep(r, step, e, Millis(now)).0.ota == r.ota
  {
    LaterIsMillis(now, ACK_TIMEOUT_MS);
  }

  /** A completed command ends the transceive or begins the next step's command. */
  lemma AdvanceBegins(r: Reader, data: seq<byte>, now: nat, accepted: nat, d: nat)
    requires r.step != Step.Idle && !r.async.active && r.async.phase == WaitResponse
    requires now <= accepted + Before(PhaseNumber(r.step, WaitResponse) + 1, r.timeoutMs, d)
    ensures var s := Advance(r, data, Millis(now)).0;
            s.step == Step.Idle || Running(s, accepted, now, now, d)
    ensures Advance(r, data, Millis(now)).0.timeoutMs == r.timeoutMs && Advance(r, data, Millis(now)).0.ota == r.ota
  {
    match r.step
    case ReadRegisters =>
      if |data| == 3 {
        BeginStepRuns(r, WriteRegisters, WriteRfRegisters(data), now, accepted, d);
      }
    case WriteRegisters => BeginStepRuns(r, ConfigureTimeout, SetRfTimeouts(r.timeoutMs), now, accepted, d);
    case ConfigureTimeout => BeginStepRuns(r, Exchanging, Communicate(r.payload, r.timeoutMs), now, accepted, d);
    case Exchanging =>
  }

  // ----- Over whole runs -----

  function LastPass(es: seq<Event>, start: nat): nat
    decreases |es|
  {
    if es == [] then start
    else if es[|es| - 1].Loop? then es[|es| - 1].times.poll
    else LastPass(es[..|es| - 1], start)
  }

  /** From `start` on, passes follow one another by at most `d`. */
  predicate Regular(es: seq<Event>, start: nat, d: nat)
    decreases |es|
  {
    es == [] ||
    (var init, e := es[..|es| - 1], es[|es| - 1];
     && Regular(init, start, d)
     && (e.Loop? ==> LastPass(init, start) <= e.times.poll <= LastPass(init, start) + d))
  }

  /** No event of the run ends the transceive that runs at its start. */
  predicate StillRunning(r: Reader, es: seq<Event>)
    decreases |es|
  {
    es == [] || (StillRunning(r, es[..|es| - 1]) && Run(r, es).step != Step.Idle && Ended(Run(r, es[..|es| - 1]), es[|es| - 1]) == [])
  }

  lemma PassKeepsRunning(
    r: Reader, bytes: seq<byte>, sweep: SweepResults, t: Times, accepted: nat, began: nat, last: nat, d: nat)
    requires Inv(r) && Running(r, accepted, began, last, d) && d < TWO_31 - 0x1_0000
    requires !r.ota && last <= t.poll <= last + d
    ensures var s := Pass(r, bytes, sweep, t).0;
            s.step != Step.Idle ==>
              && (Running(s, accepted, began, t.poll, d) || Running(s, accepted, t.poll, t.poll, d))
              && s.timeoutMs == r.timeoutMs && s.requestId == r.requestId && !s.ota
  {
    DrainKeepsInv(r, bytes);
    var s := Drain(r, bytes);
    var u := Update(s, Millis(t.poll)).0;
    UpdateKeepsRunning(s, accepted, began, last, d, t.poll);
    UpdateSends(s, Millis(t.poll));
    DiscoveryLeavesTransceive(u, sweep, t);
  }

  lemma DiscoveryLeavesTransceive(r: Reader, sweep: SweepResults, t: Times)
    ensures var s := AutonomousDiscovery(r, sweep, t).0;
            && s.step == r.step && s.async == r.async && s.timeoutMs == r.timeoutMs && s.requestId == r.requestId
            && s.ota == r.ota
  {
  }

  /** While a transceive runs, no message but RESET touches it. */
  lemma MessagesLeaveTransceive(r: Reader, m: ProtocolMessage, radio: Radio, now: u32)
    requires Inv(r) && r.step != Step.Idle && m.code != TypeCode(Reset)
    ensures var s := Dispatch(r, m, radio, now).0;
            && s.step == r.step && s.async == r.async && s.timeoutMs == r.timeoutMs && s.requestId == r.requestId
            && s.ota == r.ota
  {
  }

  lemma TakeKeepsRunning(r: Reader, e: Event, accepted: nat, began: nat, last: nat, d: nat)
    requires Inv(r) && Allowed(r, e) && Running(r, accepted, began, last, d) && d < TWO_31 - 0x1_0000
    requires !r.ota && (e.Loop? ==> last <= e.times.poll <= last + d)
    requires Ended(r, e) == [] && Take(r, e).0.step != Step.Idle
    ensures var now := if e.Loop? then e.times.poll else last;
            Running(Take(r, e).0, accepted, began, now, d) || Running(Take(r, e).0, accepted, now, now, d)
    ensures Take(r, e).0.timeoutMs == r.timeoutMs && Take(r, e).0.requestId == r.requestId && !Take(r, e).0.ota
  {
    if e.Loop? {
      PassKeepsRunning(r, e.bytes, e.sweep, e.times, accepted, began, last, d);
    } else if e.Receive? && DecodeMessage(e.raw).Some? {
      if DecodeMessage(e.raw).value.code != TypeCode(Reset) {
        MessagesLeaveTransceive(r, DecodeMessage(e.raw).value, e.radio, Millis(e.now));
      }
    }
  }

  lemma {:induction false} StillRunningIsRunning(r: Reader, es: seq<Event>, accepted: nat, d: nat) returns (began: nat)
    requires Inv(r) && AllAllowed(r, es) && Running(r, accepted, accepted, accepted, d) && d < TWO_31 - 0x1_0000
    requires !r.ota && Regular(es, accepted, d) && StillRunning(r, es)
    ensures var s := Run(r, es);
            && Running(s, accepted, began, LastPass(es, accepted), d)
            && s.timeoutMs == r.timeoutMs && s.requestId == r.requestId && !s.ota
    decreases |es|
  {
    if es == [] {
      began := accepted;
    } else {
      var init, e := es[..|es| - 1], es[|es| - 1];
      began := StillRunningIsRunning(r, init, accepted, d);
      RunKeepsInv(r, init);
      var s := Run(r, init);
      var last := LastPass(init, accepted);
      TakeKeepsRunning(s, e, accepted, began, last, d);
      var now := if e.Loop? then e.times.poll else last;
      if !Running(Take(s, e).0, accepted, began, now, d) {
        began := now;
      }
    }
  }

  /** The reader answers in time.  Let a request be accepted and passes follow one another
      by at most `d`.  As long as nothing has ended it, the clock is short of its due time,
      so it is still running only before then; and the pass that ends it, by a reply, comes
      no later than `accepted + T + 2050 + 8 d`. */
  lemma AnsweredInTime(r: Reader, es: seq<Event>, accepted: nat, d: nat)
    requires Inv(r) && AllAllowed(r, es) && Running(r, accepted, accepted, accepted, d) && d < TWO_31 - 0x1_0000
    requires !r.ota && Regular(es, accepted, d)
    ensures StillRunning(r, es) ==> LastPass(es, accepted) + d <= DueBy(accepted, r.timeoutMs, d)
    ensures es != [] && StillRunning(r, es[..|es| - 1]) && es[|es| - 1].Loop? && !StillRunning(r, es)
        ==> Ended(Run(r, es[..|es| - 1]), es[|es| - 1]) == [r.requestId]
            && LastPass(es, accepted) <= DueBy(accepted, r.timeoutMs, d)
  {
    if StillRunning(r, es) {
      RunKeepsInv(r, es);
      var began := StillRunningIsRunning(r, es, accepted, d);
      RunningIsEarly(Run(r, es), accepted, began, LastPass(es, accepted), d);
    } else if es != [] && StillRunning(r, es[..|es| - 1]) && es[|es| - 1].Loop? {
      var init, e := es[..|es| - 1], es[|es| - 1];
      RunKeepsInv(r, init);
      var began := StillRunningIsRunning(r, init, accepted, d);
      var s := Run(r, init);
      RunningIsEarly(s, accepted, began, LastPass(init, accepted), d);
      PassReplies(s, e.bytes, e.sweep, e.times);
    }
  }

  // ----- Against the controller's patience -----

  /** How long `request` waits for its response, in milliseconds. */
  function ControllerWaits(timeoutMs: nat): nat {
    Max(timeoutMs + 3500, 5000)
  }

  /** The reply to a TRANSCEIVE is out before the controller gives up, if passes follow one
      another within 181 ms; and this is the limit for long timeouts, since at 182 ms the
      bound exceeds what the controller grants. */
  lemma TransceiveBeatsController(timeoutMs: u16, d: nat)
    ensures d <= 181 ==> DueBy(0, timeoutMs, d) < ControllerWaits(timeoutMs)
    ensures timeoutMs >= 1500 && d >= 182 ==> DueBy(0, timeoutMs, d) > ControllerWaits(timeoutMs)
  {
  }

  /** DISCOVER asks for 1500 ms and EXECUTE for its own timeout: both handlers' time bounds
      lie within what the controller grants them. */
  lemma BlockingHandlersBeatController(timeoutMs: u16, gap: nat)
    requires gap <= 67
    ensures SWEEP_BUDGET + 14 * gap < ControllerWaits(1500)
    ensures Patience(timeoutMs) + LOCAL_RESPONSE_TIMEOUT_MS + 2 * gap < ControllerWaits(timeoutMs)
  {
  }
}
