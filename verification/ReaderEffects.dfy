/** What the outside sees of the reader: what a pass writes to the chip, what each message is
    answered with, and what a presentation carries. */
module ReaderEffects {
  import opened Words
  import opened Wrappers
  import opened Protocol
  import opened Pn532Frames
  import opened LocalCommands
  import opened AsyncCommands
  import opened ReaderMachine
  import opened ReaderRuns
  import opened ReaderExchange
  import D = ReaderDiscovery

  // ----- What a pass writes to the chip -----

  /** The frame by which the host aborts a command inside the chip. */
  const ABORT: seq<byte> := [0x00, 0x00, 0xFF, 0x00, 0xFF, 0x00]

  function NextStep(step: Step): Step {
    match step
    case Idle => Step.Idle
    case ReadRegisters => WriteRegisters
    case WriteRegisters => ConfigureTimeout
    case ConfigureTimeout => Exchanging
    case Exchanging => Step.Idle
  }

  /** The frame is the command by which the transceive of `r` enters `step`. */
  ghost predicate BeginsStep(r: Reader, step: Step, frame: seq<byte>) {
    match step
    case Idle => false
    case ReadRegisters => frame == RegisterRead()
    case WriteRegisters => exists values :: |values| == 3 && frame == RegisterWrite(values)
    case ConfigureTimeout => frame == TimeoutWrite(r.timeoutMs)
    case Exchanging => frame == DataExchange(r.payload)
  }

  predicate MovesOn(r: Reader, s: Reader) {
    s.step != Step.Idle && s.step != r.step
  }

  /** The chip gave no whole answer in time, or announced one that no buffer takes. */
  predicate GivesUp(r: Reader, out: Effects) {
    ErrorReply(r.requestId, Pn532Timeout) in out.messages || ErrorReply(r.requestId, Pn532FrameTooLarge) in out.messages
  }

  /** What one update of the transceive writes. */
  ghost predicate Writes(r: Reader, s: Reader, out: Effects) {
    && (GivesUp(r, out) ==> out.wire == [ABORT] && s.step == Step.Idle)
    && (MovesOn(r, s) ==> s.step == NextStep(r.step) && |out.wire| == 1 && BeginsStep(r, s.step, out.wire[0]))
    && (!GivesUp(r, out) && !MovesOn(r, s) ==> out.wire == [])
  }

  lemma AdvanceWrites(r: Reader, data: seq<byte>, now: u32)
    requires r.step != Step.Idle && !r.async.active
    ensures var (s, out) := Advance(r, data, now); Writes(r, s, out) && !GivesUp(r, out)
  {
  }

  lemma UpdateWrites(r: Reader, now: u32)
    requires TransceiveInv(r)
    ensures var (s, out) := Update(r, now); Writes(r, s, out)
  {
    if r.step != Step.Idle {
      var p := Poll(r.async, r.ring, now);
      match p
      case Done(data, ring) => AdvanceWrites(r.(async := r.async.(active := false), ring := ring), data, now);
      case Failed(error, _, wire) => FailureWrites(r, error, wire);
      case Pending(_, _) =>
    }
  }

  lemma FailureWrites(r: Reader, error: ErrorCode, wire: seq<seq<byte>>)
    requires if error == Pn532Timeout || error == Pn532FrameTooLarge then wire == [ABORT] else wire == []
    ensures var (s, out) := FinishTransceive(r, error, wire); Writes(r, s, out)
  {
    assert ErrorReply(r.requestId, error) in [ErrorReply(r.requestId, error)];
  }

  /** The abort frame is no command: it has no data bytes. */
  lemma AbortBeginsNothing(r: Reader, step: Step)
    ensures !BeginsStep(r, step, ABORT)
  {
    assert forall code: byte, data: seq<byte> :: |Build(HOST, code, data)| >= 9;
  }

  /** Discovery adds nothing that an update of the transceive could have written or said. */
  lemma DiscoveryIsSilent(r: Reader, s: Reader, out: Effects, sweep: SweepResults, t: Times)
    ensures var (v, more) := AutonomousDiscovery(s, sweep, t);
            var all := Effects(out.messages + more.messages, out.wire + more.wire);
            all.wire == out.wire && v.step == s.step && (GivesUp(r, all) <==> GivesUp(r, out))
  {
    DiscoveryRepliesNothing(s, sweep, t);
    assert out.wire + [] == out.wire;
  }

  /** Over every pass: the abort frame goes to the chip if and only if the pass answers the
      transceive with PN532_TIMEOUT or PN532_FRAME_TOO_LARGE; the next step's command, and it
      alone, if and only if the transceive moves on; and nothing otherwise, be it that the
      command still waits, that it failed by PN532_BAD_ACK or PN532_BAD_FRAME, or that the
      transceive succeeded. */
  lemma PassWrites(r: Reader, e: Event)
    requires Inv(r) && e.Loop?
    ensures var (s, out) := Take(r, e);
            && (out.wire == [ABORT] <==> GivesUp(r, out))
            && (|out.wire| == 1 && BeginsStep(r, s.step, out.wire[0]) <==> MovesOn(r, s))
            && (MovesOn(r, s) ==> s.step == NextStep(r.step))
            && (out.wire == [] <==> !GivesUp(r, out) && !MovesOn(r, s))
  {
    var (s, out) := Take(r, e);
    AbortBeginsNothing(r, s.step);
    if !r.ota {
      DrainKeepsInv(r, e.bytes);
      var d := Drain(r, e.bytes);
      var (u, first) := Update(d, Millis(e.times.poll));
      UpdateWrites(d, Millis(e.times.poll));
      DiscoveryIsSilent(r, u, first, e.sweep, e.times);
      SameWrites(r, d, u, first);
      PassIs(r, d, u, first, e);
    }
  }

  lemma PassIs(r: Reader, d: Reader, u: Reader, first: Effects, e: Event)
    requires e.Loop? && !r.ota && d == Drain(r, e.bytes) && (u, first) == Update(d, Millis(e.times.poll))
    ensures var (v, more) := AutonomousDiscovery(u, e.sweep, e.times);
            Take(r, e) == (v, Effects(first.messages + more.messages, first.wire + more.wire))
  {
  }

  lemma SameWrites(r: Reader, d: Reader, s: Reader, out: Effects)
    requires d == r.(ring := d.ring) && Writes(d, s, out)
    ensures Writes(r, s, out)
  {
  }

  // ----- What a message is answered with -----

  /** START and DISCOVER carry an ECP frame of 3 to 64 bytes. */
  predicate CarriesBroadcast(m: ProtocolMessage) {
    3 <= |m.payload| <= 64
  }

  /** A handler that needs the chip is refused while a transceive runs, whatever it carries. */
  predicate NeedsChip(m: ProtocolMessage) {
    m.code in {TypeCode(Execute), TypeCode(Discover), TypeCode(StartDiscovery), TypeCode(Transceive)}
  }

  predicate Known(m: ProtocolMessage) {
    || NeedsChip(m)
    || m.code in {TypeCode(Reset), TypeCode(ResumeDiscovery), TypeCode(AccessResult), TypeCode(ButtonResult), TypeCode(FirmwareUpdateCheck)}
  }

  /** What is wrong with a request, if anything is; a TRANSCEIVE is here one that is refused. */
  function Objection(r: Reader, m: ProtocolMessage, radio: Radio): Option<ErrorCode> {
    if !Known(m) then Some(UnsupportedType)
    else if NeedsChip(m) && r.waiting then Some(Pn532Busy)
    else if m.code == TypeCode(Execute) then
      if m.payload == [] then Some(Pn532Busy) else ErrorOf(radio.execute)
    else if m.code == TypeCode(Discover) || m.code == TypeCode(StartDiscovery) then
      if !CarriesBroadcast(m) then Some(BadMessage)
      else if m.code == TypeCode(StartDiscovery) then None
      else if radio.opening.Failure? || SeesTarget(radio.opening) then ErrorOf(radio.opening)
      else ErrorOf(radio.closing)
    else if m.code == TypeCode(ResumeDiscovery) then
      if m.payload !in {[], [0], [1]} || !r.discovery.enabled then Some(BadMessage)
      else if m.payload == [1] then ErrorOf(radio.off.result) else None
    else if m.code == TypeCode(Reset) || (m.code == TypeCode(FirmwareUpdateCheck) && m.payload == [])
         || (m.code == TypeCode(AccessResult) && |m.payload| == 5 && m.payload[0] <= 1) then None
    else Some(BadMessage)
  }

  function ErrorOf(result: CommandResult): Option<ErrorCode> {
    if result.Failure? then Some(result.error) else None
  }

  /** What an answer carries: what the chip said to an EXECUTE or a DISCOVER, and else nothing. */
  function Content(m: ProtocolMessage, radio: Radio): seq<byte> {
    if m.code == TypeCode(Execute) && radio.execute.Success? then radio.execute.data
    else if m.code != TypeCode(Discover) then []
    else if SeesTarget(radio.opening) then [1] + radio.opening.data else [0]
  }

  /** Over every message but an accepted TRANSCEIVE and a BUTTON_RESULT: it is answered first of
      all, under its own id, with RESPONSE and what it asked for if nothing is wrong with it, and
      otherwise with ERROR_RESPONSE and the code that says what is. */
  lemma AnswerSays(r: Reader, raw: seq<byte>, radio: Radio, now: nat)
    requires Inv(r) && DecodeMessage(raw).Some?
    requires var m := DecodeMessage(raw).value; !Accepts(r, m) && m.code != TypeCode(ButtonResult)
    ensures var m := DecodeMessage(raw).value; var ms := Take(r, Receive(raw, radio, now)).1.messages;
            ms != [] && ms[0] == match Objection(r, m, radio)
              case None => ProtocolMessage(0x80, m.requestId, 0, Content(m, radio))
              case Some(error) => ProtocolMessage(0x7F, m.requestId, 0, [ErrorByte(error)])
  {
    var m := DecodeMessage(raw).value;
    if m.code == TypeCode(ResumeDiscovery) {
      ResumeSays(r, m, radio.off, Millis(now));
      Routes(r, m, radio, Millis(now));
    } else {
      DispatchSays(r, m, radio, Millis(now));
    }
  }

  /** Bytes that are no message are answered, too. */
  lemma GarbageIsRefused(r: Reader, raw: seq<byte>, radio: Radio, now: nat)
    requires DecodeMessage(raw).None?
    ensures Take(r, Receive(raw, radio, now)) == (r, Effects([ProtocolMessage(0x7F, 0, 0, [1])], []))
  {
  }

  lemma ResumeSays(r: Reader, m: ProtocolMessage, off: FieldOff, now: u32)
    ensures OnResume(r, m, off, now).1.messages == [
              if m.payload !in {[], [0], [1]} || !r.discovery.enabled then ErrorReply(m.requestId, BadMessage)
              else if m.payload == [1] && off.result.Failure? then ErrorReply(m.requestId, off.result.error)
              else Reply(m.requestId, [])]
  {
    assert |m.payload| == 1 ==> m.payload == [m.payload[0]];
  }

  lemma DispatchSays(r: Reader, m: ProtocolMessage, radio: Radio, now: u32)
    requires Inv(r) && !Accepts(r, m) && m.code != TypeCode(ButtonResult) && m.code != TypeCode(ResumeDiscovery)
    ensures var ms := Dispatch(r, m, radio, now).1.messages;
            ms != [] && ms[0] == match Objection(r, m, radio)
              case None => Reply(m.requestId, Content(m, radio))
              case Some(error) => ErrorReply(m.requestId, error)
  {
  }

  // ----- What a presentation carries -----

  /** The messages of one kind, in order. */
  function OfCode(code: byte, ms: seq<ProtocolMessage>): seq<ProtocolMessage>
    decreases |ms|
  {
    if ms == [] then [] else (if ms[0].code == code then [ms[0]] else []) + OfCode(code, ms[1..])
  }

  lemma {:induction false} OfCodeAppend(code: byte, a: seq<ProtocolMessage>, b: seq<ProtocolMessage>)
    ensures OfCode(code, a + b) == OfCode(code, a) + OfCode(code, b)
    decreases |a|
  {
    if a == [] {
      assert a + b == b;
    } else {
      assert (a + b)[1..] == a[1..] + b;
      OfCodeAppend(code, a[1..], b);
      var first := if a[0].code == code then [a[0]] else [];
      assert first + (OfCode(code, a[1..]) + OfCode(code, b)) == first + OfCode(code, a[1..]) + OfCode(code, b);
    }
  }

  lemma OfCodeOfOne(code: byte, m: ProtocolMessage)
    ensures OfCode(code, [m]) == if m.code == code then [m] else []
  {
  }

  lemma {:induction false} NoneOfCode(code: byte, ms: seq<ProtocolMessage>)
    requires forall m :: m in ms ==> m.code != code
    ensures OfCode(code, ms) == []
    decreases |ms|
  {
    if ms != [] {
      assert ms[0] in ms;
      NoneOfCode(code, ms[1..]);
    }
  }

  function Targets(out: Effects): seq<ProtocolMessage> {
    OfCode(TypeCode(TargetEvent), out.messages)
  }

  function Statuses(out: Effects): seq<ProtocolMessage> {
    OfCode(TypeCode(ReaderStatus), out.messages)
  }

  /** What discovery announces, an update and a message as such do not. */
  predicate Silent(ms: seq<ProtocolMessage>) {
    OfCode(TypeCode(TargetEvent), ms) == OfCode(TypeCode(ReaderStatus), ms) == []
  }

  lemma RepliesAreSilent(ms: seq<ProtocolMessage>)
    requires forall m :: m in ms ==> IsReply(m)
    ensures Silent(ms)
  {
    NoneOfCode(TypeCode(TargetEvent), ms);
    NoneOfCode(TypeCode(ReaderStatus), ms);
  }

  lemma StepIsSilent(r: Reader, now: u32)
    requires TransceiveInv(r)
    ensures Silent(Update(r, now).1.messages)
  {
    if r.step != Step.Idle {
      UpdateSends(r, now);
      StepOnlyReplies(r, Update(r, now).0, Update(r, now).1);
      RepliesAreSilent(Update(r, now).1.messages);
    }
  }

  lemma StepOnlyReplies(r: Reader, s: Reader, out: Effects)
    requires StepSends(r, s, out)
    ensures forall m :: m in out.messages ==> IsReply(m)
  {
  }

  /** The sweep of a pass sees a card that is neither pending nor waited for to go. */
  predicate SeesFreeCard(r: Reader, e: Event) {
    D.Observed(r, e) == D.Present && !r.discovery.targetPending && !r.discovery.waitForRemoval
  }

  /** A sweep announces a card once, with the chip's answer behind a 1, under the next id. */
  lemma SweepAnnounces(d: Discovery, sweep: SweepResults, t: Times)
    requires sweep.opening.Success? ==> |sweep.opening.data| < MAX_PAYLOAD
    ensures var (e, out) := RunSweep(d, sweep, t);
            if SeesTarget(sweep.opening) && !d.waitForRemoval
            then out.messages == [ProtocolMessage(TypeCode(TargetEvent), d.nextEventId, 0, [1] + sweep.opening.data)]
                 && e.nextEventId == Later(d.nextEventId, 1)
            else e.nextEventId == d.nextEventId && forall m :: m in out.messages ==> m.code != TypeCode(TargetEvent)
  {
  }

  /** A pass presents a card exactly if its sweep sees a free one; then it sends one
      TARGET_EVENT, which carries the chip's answer, and the next one will have the next id. */
  lemma PassPresents(r: Reader, e: Event)
    requires Inv(r) && e.Loop? && (e.sweep.opening.Success? ==> |e.sweep.opening.data| <= MAX_DATA)
    ensures var (s, out) := Take(r, e);
            if SeesFreeCard(r, e)
            then Targets(out) == [ProtocolMessage(TypeCode(TargetEvent), r.discovery.nextEventId, 0, [1] + e.sweep.opening.data)]
                 && s.discovery.nextEventId == Later(r.discovery.nextEventId, 1)
            else Targets(out) == [] && s.discovery.nextEventId == r.discovery.nextEventId
  {
    if !r.ota {
      DrainKeepsInv(r, e.bytes);
      var d := Drain(r, e.bytes);
      var (u, first) := Update(d, Millis(e.times.poll));
      StepIsSilent(d, Millis(e.times.poll));
      D.UpdateLeavesDiscovery(d, Millis(e.times.poll));
      PassIs(r, d, u, first, e);
      DiscoveryPresents(u, e.sweep, e.times);
      OfCodeAppend(TypeCode(TargetEvent), first.messages, AutonomousDiscovery(u, e.sweep, e.times).1.messages);
    }
  }

  lemma DiscoveryPresents(u: Reader, sweep: SweepResults, t: Times)
    requires sweep.opening.Success? ==> |sweep.opening.data| <= MAX_DATA
    ensures var (v, out) := AutonomousDiscovery(u, sweep, t);
            if Sweeps(u, t) && SeesTarget(sweep.opening) && !u.discovery.targetPending && !u.discovery.waitForRemoval
            then Targets(out) == [ProtocolMessage(TypeCode(TargetEvent), u.discovery.nextEventId, 0, [1] + sweep.opening.data)]
                 && v.discovery.nextEventId == Later(u.discovery.nextEventId, 1)
            else Targets(out) == [] && v.discovery.nextEventId == u.discovery.nextEventId
  {
    if Sweeps(u, t) {
      var d := AfterWatchdog(u.discovery, Millis(t.entry));
      SweepAnnounces(d, sweep, t);
      var ms := RunSweep(d, sweep, t).1.messages;
      if SeesTarget(sweep.opening) && !d.waitForRemoval {
        OfCodeOfOne(TypeCode(TargetEvent), ms[0]);
      } else {
        NoneOfCode(TypeCode(TargetEvent), ms);
      }
    }
  }

  lemma {:induction false} OfCodeHas(code: byte, ms: seq<ProtocolMessage>)
    ensures OfCode(code, ms) != [] <==> exists m :: m in ms && m.code == code
    decreases |ms|
  {
    if ms != [] {
      OfCodeHas(code, ms[1..]);
      assert forall m :: m in ms <==> m == ms[0] || m in ms[1..];
    }
  }

  lemma TargetsAreSent(r: Reader, e: Event)
    ensures Targets(Take(r, e).1) != [] <==> D.SendsTarget(r, e)
  {
    OfCodeHas(TypeCode(TargetEvent), Take(r, e).1.messages);
  }

  // ----- Failing sweeps -----

  /** The card is still waited for to go; the second half of the sweep is skipped. */
  predicate StillWaits(d: Discovery, t: Times) {
    && d.waitForRemoval
    && Elapsed(Millis(t.checked), if d.noTargetSince == 0 then Millis(t.seen) else d.noTargetSince) < 750
  }

  /** How a sweep ends: with an error, as far as it goes, or over before its second half. */
  datatype Course = NoSweep | Completed | CutShort | Failing(error: ErrorCode)

  function CourseOf(d: Discovery, sweep: SweepResults, t: Times): Course {
    if sweep.opening.Failure? then Failing(sweep.opening.error)
    else if SeesTarget(sweep.opening) then Completed
    else if StillWaits(d, t) then CutShort
    else if sweep.closing.Failure? then Failing(sweep.closing.error)
    else Completed
  }

  function SweepOf(u: Reader, sweep: SweepResults, t: Times): Course {
    if Sweeps(u, t) then CourseOf(AfterWatchdog(u.discovery, Millis(t.entry)), sweep, t) else NoSweep
  }

  /** The sweep of an event, if it has one. */
  function Swept(r: Reader, e: Event): Course {
    if !e.Loop? || r.ota then NoSweep
    else SweepOf(Update(Drain(r, e.bytes), Millis(e.times.poll)).0, e.sweep, e.times)
  }

  function StatusOf(d: Discovery, payload: seq<byte>): ProtocolMessage {
    ProtocolMessage(TypeCode(ReaderStatus), d.nextStatusId, 0, payload)
  }

  /** What a sweep does to the count of failures, and what it reports. */
  lemma SweepCounts(d: Discovery, sweep: SweepResults, t: Times)
    requires DiscoveryInv(d) && d.enabled && !d.targetPending
    requires sweep.opening.Success? ==> |sweep.opening.data| < MAX_PAYLOAD
    ensures var (e, out) := RunSweep(d, sweep, t); var c := CourseOf(d, sweep, t); var last := c.Failing? && d.failures == 2;
            && e.failures == (match c case Failing(_) => d.failures as int + 1 case Completed => 0 case _ => d.failures as int)
            && e.enabled == !last && e.nextStatusId == (if last then Later(d.nextStatusId, 1) else d.nextStatusId)
            && (last ==> out.messages == [StatusOf(d, [2, ErrorByte(c.error), 3])])
            && (!last ==> forall m :: m in out.messages ==> m.code != TypeCode(ReaderStatus))
  {
  }

  lemma DiscoveryCounts(u: Reader, sweep: SweepResults, t: Times)
    requires Inv(u) && (sweep.opening.Success? ==> |sweep.opening.data| <= MAX_DATA)
    ensures var (v, out) := AutonomousDiscovery(u, sweep, t); var c := SweepOf(u, sweep, t);
            var d, e := u.discovery, v.discovery; var last := c.Failing? && d.failures == 2;
            && e.failures == (match c case Failing(_) => d.failures as int + 1 case Completed => 0 case _ => d.failures as int)
            && e.enabled == (d.enabled && !last) && e.nextStatusId == (if last then Later(d.nextStatusId, 1) else d.nextStatusId)
            && Statuses(out) == (if last then [StatusOf(d, [2, ErrorByte(c.error), 3])] else [])
  {
    if Sweeps(u, t) {
      var d := AfterWatchdog(u.discovery, Millis(t.entry));
      SweepCounts(d, sweep, t);
      var ms := RunSweep(d, sweep, t).1.messages;
      if SweepOf(u, sweep, t).Failing? && d.failures == 2 {
        OfCodeOfOne(TypeCode(ReaderStatus), ms[0]);
      } else {
        NoneOfCode(TypeCode(ReaderStatus), ms);
      }
    }
  }

  lemma PassCounts(r: Reader, e: Event)
    requires Inv(r) && e.Loop? && (e.sweep.opening.Success? ==> |e.sweep.opening.data| <= MAX_DATA)
    ensures var (s, out) := Take(r, e); Counts(r, e, s.discovery, Statuses(out))
  {
    LaterNothing(r.discovery.nextStatusId);
    if !r.ota {
      var d := Drain(r, e.bytes);
      var u := Update(d, Millis(e.times.poll)).0;
      D.UpdateLeavesDiscovery(d, Millis(e.times.poll));
      DrainKeepsInv(r, e.bytes);
      UpdateKeepsInv(d, Millis(e.times.poll));
      DiscoveryCounts(u, e.sweep, e.times);
      PassReports(r, e);
    }
  }

  /** A pass reports what its discovery reports. */
  lemma PassReports(r: Reader, e: Event)
    requires Inv(r) && e.Loop? && !r.ota
    ensures var u := Update(Drain(r, e.bytes), Millis(e.times.poll)).0; var (v, more) := AutonomousDiscovery(u, e.sweep, e.times);
            Take(r, e).0 == v && Statuses(Take(r, e).1) == Statuses(more)
  {
    DrainKeepsInv(r, e.bytes);
    var d := Drain(r, e.bytes);
    var (u, first) := Update(d, Millis(e.times.poll));
    StepIsSilent(d, Millis(e.times.poll));
    PassIs(r, d, u, first, e);
    OfCodeAppend(TypeCode(ReaderStatus), first.messages, AutonomousDiscovery(u, e.sweep, e.times).1.messages);
  }

  predicate Resets(e: Event) {
    e.Receive? && DecodeMessage(e.raw).Some? && DecodeMessage(e.raw).value.code == TypeCode(Reset)
  }

  /** What begins the count of failures anew. */
  predicate Clears(r: Reader, e: Event) {
    D.AcceptsStart(r, e) || D.AcceptsResume(r, e) || Resets(e) || Swept(r, e).Completed?
  }

  /** What turns discovery off: a lost connection, a RESET, and a third failing sweep. */
  predicate TurnsOff(r: Reader, e: Event) {
    e.Disconnected? || Resets(e) || (Swept(r, e).Failing? && r.discovery.failures == 2)
  }

  /** What an event does to the count of failures and to discovery being on, and what it reports:
      READY for an accepted START, and FAILED with the error and the count for the third failing
      sweep. */
  predicate Counts(r: Reader, e: Event, d: Discovery, statuses: seq<ProtocolMessage>) {
    var was := r.discovery;
    && d.failures == (if Clears(r, e) then 0 else if Swept(r, e).Failing? then was.failures as int + 1 else was.failures as int)
    && (d.enabled <==> D.AcceptsStart(r, e) || (was.enabled && !TurnsOff(r, e)))
    && d.nextStatusId == Later(was.nextStatusId, |statuses|)
    && statuses == if D.AcceptsStart(r, e) then [StatusOf(was, [0, 0, 0])]
                   else if Swept(r, e).Failing? && was.failures == 2 then [StatusOf(was, [2, ErrorByte(Swept(r, e).error), 3])]
                   else []
  }

  /** An accepted START. */
  predicate Starts(r: Reader, m: ProtocolMessage) {
    m.code == TypeCode(StartDiscovery) && 3 <= |m.payload| <= 64 && !r.waiting
  }

  lemma OthersOnlyReply(r: Reader, m: ProtocolMessage, radio: Radio, now: u32)
    requires Inv(r) && !Starts(r, m)
    ensures forall x :: x in Dispatch(r, m, radio, now).1.messages ==> IsReply(x)
  {
    var ms := Dispatch(r, m, radio, now).1.messages;
    DispatchSends(r, m, radio, now);
    if m.code == TypeCode(Transceive) {
      TransceiveSends(r, m, now);
    }
  }

  lemma MessageAnnounces(r: Reader, m: ProtocolMessage, radio: Radio, now: u32)
    requires Inv(r)
    ensures var out := Dispatch(r, m, radio, now).1;
            && Statuses(out) == (if Starts(r, m) then [StatusOf(r.discovery, [0, 0, 0])] else [])
            && Targets(out) == []
  {
    var ms := Dispatch(r, m, radio, now).1.messages;
    if Starts(r, m) {
      var reply, status := Reply(m.requestId, []), StatusOf(r.discovery, [0, 0, 0]);
      assert ms == [reply] + [status];
      OfCodeAppend(TypeCode(ReaderStatus), [reply], [status]);
      OfCodeAppend(TypeCode(TargetEvent), [reply], [status]);
    } else {
      OthersOnlyReply(r, m, radio, now);
      RepliesAreSilent(ms);
    }
  }

  lemma MessageDiscovery(r: Reader, m: ProtocolMessage, radio: Radio, now: u32)
    ensures var was, d := r.discovery, Dispatch(r, m, radio, now).0.discovery;
            var resumed := m.code == TypeCode(ResumeDiscovery) && was.enabled
                           && (m.payload == [] || m.payload == [0] || (m.payload == [1] && radio.off.result.Success?));
            && d.failures == (if Starts(r, m) || resumed || m.code == TypeCode(Reset) then 0 else was.failures)
            && (d.enabled <==> Starts(r, m) || (was.enabled && m.code != TypeCode(Reset)))
            && d.nextStatusId == (if Starts(r, m) then Later(was.nextStatusId, 1) else was.nextStatusId)
            && d.nextEventId == was.nextEventId
  {
    Routes(r, m, radio, now);
    if m.code == TypeCode(ResumeDiscovery) {
      assert |m.payload| == 1 ==> m.payload == [m.payload[0]];
    }
  }

  lemma MessageCounts(r: Reader, e: Event)
    requires Inv(r) && e.Receive?
    ensures var (s, out) := Take(r, e); Counts(r, e, s.discovery, Statuses(out)) && Targets(out) == []
    ensures Take(r, e).0.discovery.nextEventId == r.discovery.nextEventId
  {
    if DecodeMessage(e.raw).Some? {
      var m := DecodeMessage(e.raw).value;
      MessageAnnounces(r, m, e.radio, Millis(e.now));
      MessageDiscovery(r, m, e.radio, Millis(e.now));
      var (s, out) := Dispatch(r, m, e.radio, Millis(e.now));
      assert Take(r, e) == (s, out);
      CountsOf(r, e, m, s.discovery, Statuses(out));
    } else {
      GarbageCounts(r, e);
    }
  }

  lemma CountsOf(r: Reader, e: Event, m: ProtocolMessage, d: Discovery, statuses: seq<ProtocolMessage>)
    requires e.Receive? && DecodeMessage(e.raw) == Some(m)
    requires statuses == if Starts(r, m) then [StatusOf(r.discovery, [0, 0, 0])] else []
    requires var was := r.discovery;
             var resumed := m.code == TypeCode(ResumeDiscovery) && was.enabled
                            && (m.payload == [] || m.payload == [0] || (m.payload == [1] && e.radio.off.result.Success?));
             && d.failures == (if Starts(r, m) || resumed || m.code == TypeCode(Reset) then 0 else was.failures)
             && (d.enabled <==> Starts(r, m) || (was.enabled && m.code != TypeCode(Reset)))
             && d.nextStatusId == (if Starts(r, m) then Later(was.nextStatusId, 1) else was.nextStatusId)
    ensures Counts(r, e, d, statuses)
  {
    LaterNothing(r.discovery.nextStatusId);
    assert Swept(r, e) == NoSweep;
  }

  lemma GarbageCounts(r: Reader, e: Event)
    requires Inv(r) && e.Receive? && DecodeMessage(e.raw).None?
    ensures var (s, out) := Take(r, e); Counts(r, e, s.discovery, Statuses(out)) && Targets(out) == [] && s == r
  {
    GarbageIsSilent(r, e);
    LaterNothing(r.discovery.nextStatusId);
    assert !Clears(r, e) && !TurnsOff(r, e);
  }

  lemma GarbageIsSilent(r: Reader, e: Event)
    requires e.Receive? && DecodeMessage(e.raw).None?
    ensures Take(r, e).0 == r && Silent(Take(r, e).1.messages)
  {
    OfCodeOfOne(TypeCode(ReaderStatus), ErrorReply(0, BadMessage));
    OfCodeOfOne(TypeCode(TargetEvent), ErrorReply(0, BadMessage));
  }

  lemma LaterNothing(base: u32)
    ensures Later(base, 0) == base
  {
  }

  /** Every event changes the count of failures, turns discovery on and off, and reports, just
      so. */
  lemma EventCounts(r: Reader, e: Event)
    requires Inv(r) && Bounded(e)
    ensures var (s, out) := Take(r, e); Counts(r, e, s.discovery, Statuses(out))
  {
    if e.Loop? {
      PassCounts(r, e);
    } else if e.Receive? {
      MessageCounts(r, e);
    }
  }

  /** No poll reports more data than a frame carries. */
  predicate Bounded(e: Event) {
    e.Loop? && e.sweep.opening.Success? ==> |e.sweep.opening.data| <= MAX_DATA
  }

  // ----- Over every run -----

  ghost predicate AllBounded(es: seq<Event>) {
    forall n | 0 <= n < |es| :: Bounded(es[n])
  }

  /** The ids of the TARGET_EVENTs, and of the READER_STATUS messages, of a run. */
  function TargetIds(r: Reader, es: seq<Event>): seq<u32>
    decreases |es|
  {
    if es == [] then []
    else
      var init, e := es[..|es| - 1], es[|es| - 1];
      TargetIds(r, init) + Ids(Targets(Take(Run(r, init), e).1))
  }

  function StatusIds(r: Reader, es: seq<Event>): seq<u32>
    decreases |es|
  {
    if es == [] then []
    else
      var init, e := es[..|es| - 1], es[|es| - 1];
      StatusIds(r, init) + Ids(Statuses(Take(Run(r, init), e).1))
  }

  function Ids(ms: seq<ProtocolMessage>): seq<u32> {
    seq(|ms|, i requires 0 <= i < |ms| => ms[i].requestId)
  }

  /** The ids count up from `first`, in 32 bits. */
  predicate Consecutive(ids: seq<u32>, first: u32) {
    forall k | 0 <= k < |ids| :: ids[k] == Later(first, k)
  }

  lemma NextIds(ids: seq<u32>, first: u32, next: u32, more: seq<u32>)
    requires Consecutive(ids, first) && next == Later(first, |ids|) && (more == [] || more == [next])
    ensures Consecutive(ids + more, first) && Later(next, |more|) == Later(first, |ids + more|)
  {
    LaterLater(first, |ids|, |more|);
  }

  lemma LaterLater(base: u32, a: nat, b: nat)
    ensures Later(Later(base, a), b) == Later(base, a + b)
  {
  }

  lemma IdsOfOne(m: ProtocolMessage)
    ensures Ids([m]) == [m.requestId] && Ids([]) == []
  {
  }

  lemma EventTargets(r: Reader, e: Event)
    requires Inv(r) && Bounded(e)
    ensures var (s, out) := Take(r, e); var next := r.discovery.nextEventId;
            && s.discovery.nextEventId == Later(next, |Targets(out)|)
            && (Ids(Targets(out)) == [] || Ids(Targets(out)) == [next])
  {
    LaterNothing(r.discovery.nextEventId);
    if e.Loop? {
      PassPresents(r, e);
      if Targets(Take(r, e).1) != [] {
        IdsOfOne(Targets(Take(r, e).1)[0]);
      }
    } else if e.Receive? {
      MessageCounts(r, e);
    }
  }

  lemma EventStatuses(r: Reader, e: Event)
    requires Inv(r) && Bounded(e)
    ensures var (s, out) := Take(r, e); var next := r.discovery.nextStatusId;
            && s.discovery.nextStatusId == Later(next, |Statuses(out)|)
            && (Ids(Statuses(out)) == [] || Ids(Statuses(out)) == [next])
  {
    EventCounts(r, e);
  }

  /** Over every run the events that present cards carry consecutive ids. */
  lemma {:induction false} TargetIdsAreConsecutive(r: Reader, es: seq<Event>)
    requires Inv(r) && AllAllowed(r, es) && AllBounded(es)
    ensures Consecutive(TargetIds(r, es), r.discovery.nextEventId)
    ensures Run(r, es).discovery.nextEventId == Later(r.discovery.nextEventId, |TargetIds(r, es)|)
    decreases |es|
  {
    if es != [] {
      var init, e := es[..|es| - 1], es[|es| - 1];
      TargetIdsAreConsecutive(r, init);
      RunKeepsInv(r, init);
      EventTargets(Run(r, init), e);
      NextIds(TargetIds(r, init), r.discovery.nextEventId, Run(r, init).discovery.nextEventId, Ids(Targets(Take(Run(r, init), e).1)));
    }
  }

  /** And so do the reports. */
  lemma {:induction false} StatusIdsAreConsecutive(r: Reader, es: seq<Event>)
    requires Inv(r) && AllAllowed(r, es) && AllBounded(es)
    ensures Consecutive(StatusIds(r, es), r.discovery.nextStatusId)
    ensures Run(r, es).discovery.nextStatusId == Later(r.discovery.nextStatusId, |StatusIds(r, es)|)
    decreases |es|
  {
    if es != [] {
      var init, e := es[..|es| - 1], es[|es| - 1];
      StatusIdsAreConsecutive(r, init);
      RunKeepsInv(r, init);
      EventStatuses(Run(r, init), e);
      NextIds(StatusIds(r, init), r.discovery.nextStatusId, Run(r, init).discovery.nextStatusId, Ids(Statuses(Take(Run(r, init), e).1)));
    }
  }

  /** How many sweeps in a row have failed. */
  function InARow(r: Reader, es: seq<Event>): nat
    decreases |es|
  {
    if es == [] then 0
    else
      var init, e := es[..|es| - 1], es[|es| - 1];
      if Clears(Run(r, init), e) then 0
      else InARow(r, init) + if Swept(Run(r, init), e).Failing? then 1 else 0
  }

  lemma {:induction false} CountIsInARow(r: Reader, es: seq<Event>)
    requires Inv(r) && r.discovery.failures == 0 && AllAllowed(r, es) && AllBounded(es)
    ensures Run(r, es).discovery.failures as int == InARow(r, es)
    decreases |es|
  {
    if es != [] {
      CountIsInARow(r, es[..|es| - 1]);
      RunKeepsInv(r, es[..|es| - 1]);
      EventCounts(Run(r, es[..|es| - 1]), es[|es| - 1]);
    }
  }

  /** Over every run the reader reports FAILED exactly with the third sweep in a row that fails,
      with that sweep's error and the count; anything else that it reports is READY, for an
      accepted START.  The third failure, a RESET and a lost connection are all that turn
      discovery off, and an accepted START is all that turns it on. */
  lemma ThirdFailureIsReported(r: Reader, es: seq<Event>, e: Event)
    requires Inv(r) && r.discovery.failures == 0 && AllAllowed(r, es) && AllBounded(es) && Bounded(e)
    ensures var s := Run(r, es); var (u, out) := Take(s, e); var third := Swept(s, e).Failing? && InARow(r, es) == 2;
            && Statuses(out) == (if D.AcceptsStart(s, e) then [StatusOf(s.discovery, [0, 0, 0])]
                                 else if third then [StatusOf(s.discovery, [2, ErrorByte(Swept(s, e).error), 3])] else [])
            && (u.discovery.enabled <==> D.AcceptsStart(s, e)
                                         || (s.discovery.enabled && !third && !e.Disconnected? && !Resets(e)))
  {
    CountIsInARow(r, es);
    RunKeepsInv(r, es);
    EventCounts(Run(r, es), e);
  }

  /** Once it is off, no card is presented before a START is accepted. */
  lemma {:induction false} OffUntilStart(r: Reader, es: seq<Event>)
    requires Inv(r) && !r.discovery.enabled && AllAllowed(r, es) && AllBounded(es)
    requires forall n | 0 <= n < |es| :: !D.AcceptsStart(Run(r, es[..n]), es[n])
    ensures !Run(r, es).discovery.enabled && TargetIds(r, es) == []
    decreases |es|
  {
    if es != [] {
      var init, e := es[..|es| - 1], es[|es| - 1];
      forall n | 0 <= n < |init| ensures !D.AcceptsStart(Run(r, init[..n]), init[n]) {
        assert init[..n] == es[..n];
      }
      OffUntilStart(r, init);
      RunKeepsInv(r, init);
      OffStaysOff(Run(r, init), e);
    }
  }

  lemma OffStaysOff(r: Reader, e: Event)
    requires Inv(r) && !r.discovery.enabled && Bounded(e) && !D.AcceptsStart(r, e)
    ensures !Take(r, e).0.discovery.enabled && Ids(Targets(Take(r, e).1)) == []
  {
    EventCounts(r, e);
    if e.Loop? {
      PassPresents(r, e);
      OffSeesNothing(r, e);
    } else if e.Receive? {
      MessageCounts(r, e);
    }
  }

  lemma OffSeesNothing(r: Reader, e: Event)
    requires Inv(r) && !r.discovery.enabled && e.Loop?
    ensures D.Observed(r, e) == D.Sight.Nothing
  {
    if !r.ota {
      D.UpdateLeavesDiscovery(Drain(r, e.bytes), Millis(e.times.poll));
    }
  }

  /** From power-on no card is presented before the reader is connected, and none while it is
      not. */
  lemma {:induction false} OfflineUntilConnected(es: seq<Event>)
    requires AllAllowed(START_STATE, es) && AllBounded(es) && forall n | 0 <= n < |es| :: es[n] != Connected
    ensures !Run(START_STATE, es).connected && TargetIds(START_STATE, es) == []
    decreases |es|
  {
    if es != [] {
      var init, e := es[..|es| - 1], es[|es| - 1];
      OfflineUntilConnected(init);
      RunKeepsInv(START_STATE, init);
      OfflinePresentsNothing(Run(START_STATE, init), e);
    }
  }

  lemma OfflinePresentsNothing(r: Reader, e: Event)
    requires Inv(r) && !r.connected && Bounded(e) && e != Connected
    ensures !Take(r, e).0.connected && Ids(Targets(Take(r, e).1)) == []
  {
    if e.Loop? {
      PassPresents(r, e);
      OfflineSeesNothing(r, e);
    } else if e.Receive? {
      MessageCounts(r, e);
      if DecodeMessage(e.raw).Some? {
        MessageLeavesConnection(r, DecodeMessage(e.raw).value, e.radio, Millis(e.now));
      }
    }
  }

  lemma MessageLeavesConnection(r: Reader, m: ProtocolMessage, radio: Radio, now: u32)
    ensures Dispatch(r, m, radio, now).0.connected == r.connected && Dispatch(r, m, radio, now).0.ota == r.ota
  {
  }

  lemma OfflineSeesNothing(r: Reader, e: Event)
    requires Inv(r) && !r.connected && e.Loop?
    ensures D.Observed(r, e) == D.Sight.Nothing && !Take(r, e).0.connected
  {
    if !r.ota {
      UpdateLeavesConnection(Drain(r, e.bytes), Millis(e.times.poll));
    }
  }

  /** By the last event that concerns it, whether the socket is up, and whether an update is being
      written. */
  function SocketUp(es: seq<Event>, was: bool): bool
    decreases |es|
  {
    if es == [] then was
    else match es[|es| - 1]
      case Connected => true
      case Disconnected => false
      case OtaStarted => false
      case _ => SocketUp(es[..|es| - 1], was)
  }

  function Updating(es: seq<Event>, was: bool): bool
    decreases |es|
  {
    if es == [] then was
    else match es[|es| - 1]
      case OtaStarted => true
      case OtaFailed => false
      case _ => Updating(es[..|es| - 1], was)
  }

  /** Over every run the reader knows both, and while an update is being written its passes do
      nothing at all. */
  lemma {:induction false} ConnectionTellsHistory(r: Reader, es: seq<Event>, pass: Event)
    requires Inv(r) && AllAllowed(r, es) && pass.Loop?
    ensures Run(r, es).connected == SocketUp(es, r.connected) && Run(r, es).ota == Updating(es, r.ota)
    ensures Updating(es, r.ota) ==> Take(Run(r, es), pass) == (Run(r, es), NOTHING)
    decreases |es|
  {
    if es != [] {
      var init, e := es[..|es| - 1], es[|es| - 1];
      ConnectionTellsHistory(r, init, pass);
      RunKeepsInv(r, init);
      if e.Loop? || e.Receive? {
        OthersLeaveConnection(Run(r, init), e);
      }
    }
  }

  lemma OthersLeaveConnection(r: Reader, e: Event)
    requires Inv(r) && (e.Loop? || e.Receive?)
    ensures Take(r, e).0.connected == r.connected && Take(r, e).0.ota == r.ota
  {
    if e.Loop? {
      if !r.ota {
        UpdateLeavesConnection(Drain(r, e.bytes), Millis(e.times.poll));
      }
    } else if DecodeMessage(e.raw).Some? {
      MessageLeavesConnection(r, DecodeMessage(e.raw).value, e.radio, Millis(e.now));
    }
  }

  // ----- The pace of discovery -----

  /** When the next sweep is due after an event: at once after an accepted START, 40 ms after an
      accepted RESUME, or 500 ms if that asked for a retry; 100 ms after a sweep that failed and
      40 ms after any other, but for one that presented a card. */
  function NextDue(r: Reader, e: Event): u32 {
    if D.AcceptsStart(r, e) then Millis(e.now)
    else if D.AcceptsResume(r, e) then Later(Millis(e.now), if DecodeMessage(e.raw).value.payload == [1] then 500 else 40)
    else if Swept(r, e).Failing? then Later(Millis(e.times.done), 100)
    else if Swept(r, e) != NoSweep && !SeesFreeCard(r, e) then Later(Millis(e.times.done), 40)
    else r.discovery.nextAt
  }

  lemma SweepPaces(d: Discovery, sweep: SweepResults, t: Times)
    requires sweep.opening.Success? ==> |sweep.opening.data| < MAX_PAYLOAD
    ensures RunSweep(d, sweep, t).0.nextAt ==
            if CourseOf(d, sweep, t).Failing? then Later(Millis(t.done), 100)
            else if SeesTarget(sweep.opening) && !d.waitForRemoval then d.nextAt
            else Later(Millis(t.done), 40)
  {
  }

  lemma PassPaces(r: Reader, e: Event)
    requires Inv(r) && e.Loop? && Bounded(e)
    ensures Take(r, e).0.discovery.nextAt == NextDue(r, e)
  {
    if !r.ota {
      DrainKeepsInv(r, e.bytes);
      var d := Drain(r, e.bytes);
      var (u, first) := Update(d, Millis(e.times.poll));
      D.UpdateLeavesDiscovery(d, Millis(e.times.poll));
      PassIs(r, d, u, first, e);
      if Sweeps(u, e.times) {
        SweepPaces(AfterWatchdog(u.discovery, Millis(e.times.entry)), e.sweep, e.times);
      }
    }
  }

  lemma MessagePaces(r: Reader, m: ProtocolMessage, radio: Radio, now: u32)
    ensures Dispatch(r, m, radio, now).0.discovery.nextAt ==
            if Starts(r, m) then now
            else if m.code == TypeCode(ResumeDiscovery) && r.discovery.enabled
                    && (m.payload == [] || m.payload == [0] || (m.payload == [1] && radio.off.result.Success?))
            then Later(now, if m.payload == [1] then 500 else 40)
            else r.discovery.nextAt
  {
    Routes(r, m, radio, now);
    if m.code == TypeCode(ResumeDiscovery) {
      assert |m.payload| == 1 ==> m.payload == [m.payload[0]];
    }
  }

  lemma EventPaces(r: Reader, e: Event)
    requires Inv(r) && Bounded(e)
    ensures Take(r, e).0.discovery.nextAt == NextDue(r, e)
  {
    if e.Loop? {
      PassPaces(r, e);
    } else if e.Receive? && DecodeMessage(e.raw).Some? {
      MessagePaces(r, DecodeMessage(e.raw).value, e.radio, Millis(e.now));
    }
  }

  /** Nothing makes the next sweep come earlier or later. */
  ghost predicate Unhurried(r: Reader, es: seq<Event>, due: nat) {
    forall n | 0 <= n < |es| :: Patient(D.Before(r, es, n), es[n], due)
  }

  predicate Patient(s: Reader, e: Event, due: nat) {
    && Allowed(s, e) && Bounded(e) && !D.AcceptsStart(s, e) && !D.AcceptsResume(s, e)
    && (e.Loop? ==> e.times.entry < due <= e.times.entry + TWO_31)
  }

  lemma NotDueYet(r: Reader, e: Event, due: nat)
    requires Inv(r) && e.Loop? && r.discovery.nextAt == Millis(due) && e.times.entry < due <= e.times.entry + TWO_31
    ensures Swept(r, e) == NoSweep
  {
    if !r.ota {
      D.UpdateLeavesDiscovery(Drain(r, e.bytes), Millis(e.times.poll));
      NotExpiredBefore(e.times.entry, due);
    }
  }

  lemma NotExpiredBefore(now: nat, due: nat)
    requires now < due <= now + TWO_31
    ensures !Expired(Millis(now), Millis(due))
  {
  }

  lemma StillNotDue(s: Reader, e: Event, due: nat)
    requires Inv(s) && s.discovery.nextAt == Millis(due) && Patient(s, e, due)
    ensures Inv(Take(s, e).0) && Take(s, e).0.discovery.nextAt == Millis(due) && Swept(s, e) == NoSweep
  {
    TakeKeepsInv(s, e);
    EventPaces(s, e);
    if e.Loop? {
      NotDueYet(s, e, due);
    }
  }

  /** Over every run no sweep comes before it is due, unless a START or RESUME sets another
      instant. */
  lemma {:induction false} NoSweepBeforeDue(r: Reader, es: seq<Event>, due: nat, n: nat)
    requires Inv(r) && r.discovery.nextAt == Millis(due) && Unhurried(r, es, due) && n <= |es|
    ensures Inv(D.Before(r, es, n)) && D.Before(r, es, n).discovery.nextAt == Millis(due)
    ensures n < |es| ==> Swept(D.Before(r, es, n), es[n]) == NoSweep
    decreases n
  {
    if n == 0 {
      assert es[..0] == [];
    } else {
      NoSweepBeforeDue(r, es, due, n - 1);
      StillNotDue(D.Before(r, es, n - 1), es[n - 1], due);
      D.BeforeNext(r, es, n - 1);
    }
    if n < |es| {
      StillNotDue(D.Before(r, es, n), es[n], due);
    }
  }

  /** When it is due, the next pass sweeps, if discovery is on, no transceive runs behind the
      pass's update and no card is pending. */
  lemma SweepsWhenDue(r: Reader, e: Event, due: nat)
    requires Inv(r) && e.Loop? && r.discovery.nextAt == Millis(due) && due <= e.times.entry < due + TWO_31
    requires r.discovery.enabled && r.connected && !r.ota && !r.discovery.targetPending
    requires Update(Drain(r, e.bytes), Millis(e.times.poll)).0.step == Step.Idle
    ensures Swept(r, e) != NoSweep
  {
    DrainKeepsInv(r, e.bytes);
    UpdateKeepsInv(Drain(r, e.bytes), Millis(e.times.poll));
    UpdateLeavesConnection(Drain(r, e.bytes), Millis(e.times.poll));
  }

  lemma UpdateLeavesConnection(r: Reader, now: u32)
    ensures Update(r, now).0.connected == r.connected && Update(r, now).0.ota == r.ota
  {
  }

  /** The watchdog is exact: a card presented at `since` is still pending after a pass of an
      idle reader if and only if that pass came less than 15 s later. */
  lemma WatchdogIsExact(r: Reader, e: Event, since: nat)
    requires Inv(r) && e.Loop? && r.step == Step.Idle && r.connected && !r.ota
    requires r.discovery.targetPending && r.discovery.pendingAt == Millis(since) && since <= e.times.entry < since + TWO_32
    ensures Take(r, e).0.discovery.targetPending <==> e.times.entry < since + 15_000
  {
    assert Drain(r, e.bytes) == r && Update(r, Millis(e.times.poll)) == (r, NOTHING);
    PassIs(r, r, r, NOTHING, e);
    WatchdogOfDiscovery(r, e.sweep, e.times, since);
  }

  lemma WatchdogOfDiscovery(u: Reader, sweep: SweepResults, t: Times, since: nat)
    requires u.discovery.targetPending && u.discovery.pendingAt == Millis(since) && since <= t.entry < since + TWO_32
    requires MayDiscover(u)
    ensures AutonomousDiscovery(u, sweep, t).0.discovery.targetPending <==> t.entry < since + 15_000
  {
    ElapsedIs(since, t.entry);
  }

  lemma ElapsedIs(since: nat, now: nat)
    requires since <= now < since + TWO_32
    ensures Elapsed(Millis(now), Millis(since)) == now - since
  {
  }
}
