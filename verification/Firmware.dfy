/** The reader's firmware as it is written: static buffers and globals updated in place by
    handlers.  Every handler is proved to make exactly the step of the state machine. */
module Firmware {
  import opened Words
  import opened Wrappers
  import opened Protocol
  import opened Pn532Ring
  import opened Pn532Frames
  import opened FrameCollector
  import opened LocalCommands
  import opened AsyncCommands
  import opened ReaderMachine
  import opened ReaderRuns

  datatype CommandStatus = PENDING | COMPLETE | FAILED

  /** What an event is to the socket.  A message is answered at once and under its own id, or
      taken on; bytes that are no message are answered under id 0, and a BUTTON_RESULT not at
      all.  A pass answers the running transceive if it ends it, and otherwise nothing; no
      other event sends anything.  What was open or is taken on is ended now or still open. */
  ghost predicate EventEffect(r: Reader, e: Event, s: Reader, messages: seq<ProtocolMessage>) {
    && Inv(s) && Open(r) + TakenOn(r, e) == Ended(r, e) + Open(s)
    && ReplyIds(messages) == (match e
         case Receive(raw, _, _) =>
           (match DecodeMessage(raw)
            case None => [0]
            case Some(m) => if TakenOn(r, e) != [] || m.code == TypeCode(ButtonResult) then [] else [m.requestId])
         case Loop(_, _, _) => if Open(s) == [] then Open(r) else []
         case _ => [])
  }

  lemma EventMeets(r: Reader, e: Event)
    ensures Inv(r) && Allowed(r, e) ==> EventEffect(r, e, Take(r, e).0, Take(r, e).1.messages)
  {
    if Inv(r) && Allowed(r, e) {
      TakeKeepsInv(r, e);
      TakeConserves(r, e);
      match e
      case Receive(raw, radio, now) => HandlerReplies(r, raw, radio, now);
      case Loop(bytes, sweep, t) => PassReplies(r, bytes, sweep, t);
      case _ =>
    }
  }

  lemma OperateMeets(r: Reader, es: seq<Event>)
    ensures Inv(r) && AllAllowed(r, es) ==> Inv(Run(r, es)) && Open(r) + AllTakenOn(r, es) == AllEnded(r, es) + Open(Run(r, es))
  {
    if Inv(r) && AllAllowed(r, es) {
      RunKeepsInv(r, es);
      ExactlyOneReply(r, es);
    }
  }

  class ReaderFirmware {
    const ring: Ring
    const responseFrame: array<byte>
    const ackFrame: array<byte>
    const buffer: array<byte>
    var waiting: bool
    // the command under way
    var active: bool
    var phase: Phase
    var command: byte
    var syncState: nat
    var frameLength: nat
    var responseTimeoutMs: u16
    var deadline: u32
    // the transceive under way
    var step: Step
    var payload: seq<byte>
    var timeoutMs: u16
    var requestId: u32
    // discovery
    var enabled: bool
    var targetPending: bool
    var waitForRemoval: bool
    var discoveryFrame: seq<byte>
    var failures: byte
    var nextAt: u32
    var pendingAt: u32
    var noTargetSince: u32
    var nextEventId: u32
    var nextStatusId: u32
    // the connection
    var connected: bool
    var ota: bool
    // every write to the serial line
    var written: seq<seq<byte>>

    ghost predicate Valid()
      reads this, ring, ring.slots
    {
      && ring.Valid()
      && responseFrame.Length == ackFrame.Length == MAX_FRAME
      && buffer.Length == HEADER_SIZE + MAX_PAYLOAD
      && responseFrame != ackFrame && responseFrame != buffer && ackFrame != buffer
      && ring.slots != responseFrame && ring.slots != ackFrame && ring.slots != buffer
      && frameLength <= MAX_FRAME
      && |payload| <= MAX_TRANSCEIVE
    }

    /** The command record the fields make up. */
    ghost function Async(): AsyncCommand
      requires frameLength <= responseFrame.Length
      reads this, responseFrame
    {
      AsyncCommand(active, phase, command, Collector(syncState, responseFrame[..frameLength]), responseTimeoutMs, deadline)
    }

    ghost function DiscoveryState(): Discovery
      reads this
    {
      Discovery(enabled, targetPending, waitForRemoval, discoveryFrame, failures, nextAt, pendingAt, noTargetSince,
                nextEventId, nextStatusId)
    }

    /** The state the fields make up. */
    ghost function State(): Reader
      requires frameLength <= responseFrame.Length
      reads this, ring, responseFrame
    {
      Reader(ring.contents, waiting, Async(), step, payload, timeoutMs, requestId, DiscoveryState(), connected, ota)
    }

    constructor ()
      ensures Valid() && State() == START_STATE && written == []
    {
      ring := new Ring();
      responseFrame := new byte[MAX_FRAME](_ => 0);
      ackFrame := new byte[MAX_FRAME](_ => 0);
      buffer := new byte[HEADER_SIZE + MAX_PAYLOAD](_ => 0);
      waiting, active, phase, command, syncState, frameLength := false, false, Phase.Idle, 0, 0, 0;
      responseTimeoutMs, deadline := 0, 0;
      step, payload, timeoutMs, requestId := Step.Idle, [], 0, 0;
      enabled, targetPending, waitForRemoval, discoveryFrame, failures := false, false, false, [], 0;
      nextAt, pendingAt, noTargetSince, nextEventId, nextStatusId := 0, 0, 0, 0x9000_0000, 0xA000_0000;
      connected, ota, written := false, false, [];
    }

    // ----- The command under way -----

    /** `drainPn532Uart` */
    method DrainUart(bytes: seq<byte>)
      requires Valid()
      modifies ring, ring.slots
      ensures Valid() && State() == Drain(old(State()), bytes)
    {
      for i := 0 to |bytes|
        invariant Valid()
        invariant waiting ==> OfferAll(ring.contents, bytes[i..]) == OfferAll(old(ring.contents), bytes)
        invariant !waiting ==> ring.contents == old(ring.contents)
      {
        if waiting {
          assert bytes[i..][1..] == bytes[i + 1..];
          var accepted := ring.Push(bytes[i]);
        }
      }
    }

    /** The command record goes back to what it was at first. */
    method Disarm()
      requires Valid()
      modifies this`active, this`phase, this`frameLength, this`syncState
      ensures Valid() && Async() == Cancelled(old(Async()))
    {
      active, phase, frameLength, syncState := false, Phase.Idle, 0, 0;
    }

    /** `cancelAsyncTransceive` */
    method CancelAsync()
      requires Valid()
      modifies this`active, this`phase, this`frameLength, this`syncState, this`step, this`payload, this`waiting
      ensures Valid() && State() == CancelTransceive(old(State())) && written == old(written)
    {
      Disarm();
      step, payload, waiting := Step.Idle, [], false;
    }

    /** One turn of the collecting loop. */
    method FeedByte(value: byte) returns (status: CommandStatus)
      requires Valid()
      modifies this`syncState, this`frameLength, responseFrame
      ensures Valid()
      ensures match Feed(old(Async()).collector, value)
              case More(c) => status == PENDING && Async().collector == c
              case Whole(f) => status == COMPLETE && responseFrame[..frameLength] == f
              case Overflow => status == FAILED
    {
      if frameLength == 0 {
        var next := Hunt(syncState, value);
        if next == 3 {
          responseFrame[0], responseFrame[1], responseFrame[2] := 0x00, 0x00, 0xFF;
          frameLength := 3;
          assert responseFrame[..3] == START;
        } else {
          syncState := next;
        }
        return PENDING;
      }
      if frameLength >= MAX_FRAME {
        return FAILED;
      }
      ghost var before := responseFrame[..frameLength];
      responseFrame[frameLength] := value;
      frameLength := frameLength + 1;
      assert responseFrame[..frameLength] == before + [value];
      if frameLength == 6 && responseFrame[3] == 0x00 && responseFrame[4] == 0xFF && responseFrame[5] == 0x00 {
        return COMPLETE;
      }
      var expectedLength := ExpectedLength(responseFrame[..frameLength]);
      if expectedLength > MAX_FRAME {
        return FAILED;
      }
      return if expectedLength != 0 && frameLength == expectedLength then COMPLETE else PENDING;
    }

    /** `collectAsyncPn532Frame`: the loop consumes exactly the bytes the collector would. */
    method CollectFrame(now: u32) returns (status: CommandStatus, error: ErrorCode, ghost collected: Collected)
      requires Valid()
      modifies this`syncState, this`frameLength, ring, responseFrame
      ensures Valid()
      ensures collected == FeedAll(old(Async()).collector, old(ring.contents))
      ensures match collected
              case Pending(c) => Async().collector == c && ring.contents == []
                                 && status == (if Expired(now, deadline) then FAILED else PENDING) && error == Pn532Timeout
              case Complete(f, rest) => status == COMPLETE && responseFrame[..frameLength] == f && ring.contents == rest
              case TooLarge(rest) => status == FAILED && error == Pn532FrameTooLarge && ring.contents == rest
    {
      error := Pn532Timeout;
      collected := FeedAll(Async().collector, ring.contents);
      var popped, value := ring.Pop();
      while popped
        invariant Valid()
        invariant collected == FeedAll(old(Async()).collector, old(ring.contents))
        invariant collected == if popped then FeedAll(Async().collector, [value] + ring.contents)
                         else Collected.Pending(Async().collector)
        invariant !popped ==> ring.contents == []
        decreases |ring.contents| + if popped then 1 else 0
      {
        FeedAllStep(Async().collector, value, ring.contents);
        status := FeedByte(value);
        if status == COMPLETE {
          return;
        }
        if status == FAILED {
          return FAILED, Pn532FrameTooLarge, collected;
        }
        popped, value := ring.Pop();
      }
      status := if Expired(now, deadline) then FAILED else PENDING;
    }

    /** `beginAsyncPn532Command` */
    method BeginCommand(e: Exchange, now: u32) returns (begun: bool)
      requires Valid() && |e.data| <= 255
      modifies this`active, this`phase, this`command, this`syncState, this`frameLength, this`responseTimeoutMs, this`deadline, this`waiting, this`written
      modifies ring, buffer
      ensures Valid() && begun == !old(active)
      ensures !begun ==> State() == old(State()) && written == old(written)
      ensures begun ==> written == old(written) + [CommandFrame(e)]
      ensures begun ==> State() == old(State()).(ring := [], waiting := true, async := Begun(e.command, e.timeoutMs, now))
    {
      if active {
        return false;
      }
      var n := WriteCommandFrame(buffer, e.command, e.data);
      written := written + [buffer[..n]];
      ArmCommand(e.command, e.timeoutMs, now);
      begun := true;
    }

    /** The command record of a command just sent. */
    method Arm(code: byte, timeout: u16, now: u32)
      requires Valid()
      modifies this`active, this`phase, this`command, this`syncState, this`frameLength, this`responseTimeoutMs, this`deadline
      ensures Valid() && Async() == Begun(code, timeout, now)
    {
      active, phase, command := true, WaitAck, code;
      responseTimeoutMs := Max(timeout, LEAST_TIMEOUT_MS);
      deadline := Later(now, ACK_TIMEOUT_MS);
      frameLength, syncState := 0, 0;
    }

    /** Sets up the wait for a command's acknowledgement. */
    method ArmCommand(code: byte, timeout: u16, now: u32)
      requires Valid()
      modifies this`active, this`phase, this`command, this`syncState, this`frameLength, this`responseTimeoutMs, this`deadline
      modifies this`waiting, ring
      ensures Valid() && written == old(written)
      ensures State() == old(State()).(ring := [], waiting := true, async := Begun(code, timeout, now))
    {
      ring.Clear();
      waiting := true;
      Arm(code, timeout, now);
    }

    /** The command has ended and left `rest` in the ring; what its collector holds no longer
        matters. */
    ghost predicate EndedFrom(a: AsyncCommand, rest: seq<byte>)
      requires frameLength <= responseFrame.Length
      reads this, ring, responseFrame
    {
      Async() == a.(active := false, collector := Async().collector) && ring.contents == rest
    }

    /** The fields, the buffers and what a poll of `was` returns say what the poll `p` says. */
    ghost predicate Reports(p: Polled, was: AsyncCommand, wrote: seq<seq<byte>>, status: CommandStatus, responseLength: nat, error: ErrorCode)
      requires frameLength <= responseFrame.Length && responseLength <= ackFrame.Length
      reads this, ring, responseFrame, ackFrame
    {
      match p
      case Pending(c, rest) => status == PENDING && Async() == c && ring.contents == rest && written == wrote
      case Done(data, rest) =>
        status == COMPLETE && ackFrame[..responseLength] == data && EndedFrom(was, rest) && written == wrote
      case Failed(e, rest, wire) =>
        status == FAILED && error == e && EndedFrom(was, rest) && written == wrote + wire
    }

    /** An ACK on the wire aborts a command still waiting inside the chip. */
    method AbortCommand()
      requires Valid()
      modifies this`active, this`written, ring
      ensures Valid() && EndedFrom(old(Async()), []) && written == old(written) + [ACK]
    {
      written := written + [ACK];
      active := false;
      ring.Clear();
    }

    /** `pollAsyncPn532Command`; nothing else of the state changes. */
    method PollCommand(now: u32) returns (status: CommandStatus, responseLength: nat, error: ErrorCode)
      requires Valid()
      modifies this`active, this`phase, this`deadline, this`syncState, this`frameLength, this`written
      modifies ring, responseFrame, ackFrame
      ensures Valid() && responseLength <= MAX_FRAME
      ensures Reports(Poll(old(Async()), old(ring.contents), now), old(Async()), old(written), status, responseLength, error)
    {
      responseLength := 0;
      if !active {
        return FAILED, 0, Pn532BadFrame;
      }
      WholeFramesAreBounded(Async().collector, ring.contents);
      ghost var collected;
      status, error, collected := CollectFrame(now);
      if status == FAILED {
        AbortCommand();
      } else if status == COMPLETE {
        status, responseLength, error := ConcludeCommand(now);
      }
    }

    /** What the whole frame collected means to the command. */
    method ConcludeCommand(now: u32) returns (status: CommandStatus, responseLength: nat, error: ErrorCode)
      requires Valid() && active
      requires var f := responseFrame[..frameLength]; |f| >= 8 && LengthChecks(f) ==> DataLength(f) + 7 == |f|
      modifies this`active, this`phase, this`deadline, this`syncState, this`frameLength, ackFrame
      ensures Valid() && responseLength <= MAX_FRAME
      ensures match Conclude(old(Async()), old(responseFrame[..frameLength]), old(ring.contents), now)
              case Pending(c, rest) => status == PENDING && Async() == c && ring.contents == rest
              case Done(data, rest) =>
                status == COMPLETE && responseLength <= MAX_FRAME && ackFrame[..responseLength] == data
                && EndedFrom(old(Async()), rest)
              case Failed(e, rest, wire) => status == FAILED && error == e && EndedFrom(old(Async()), rest) && wire == []
    {
      responseLength := 0;
      if phase == WaitAck {
        status := TakeAck(now);
        error := Pn532BadAck;
      } else {
        active := false;
        status, responseLength := TakeResponse();
        error := Pn532BadFrame;
      }
    }

    /** The acknowledgement starts the wait for the response; anything else ends the command. */
    method TakeAck(now: u32) returns (status: CommandStatus)
      requires Valid()
      modifies this`active, this`phase, this`deadline, this`frameLength, this`syncState
      ensures Valid()
      ensures if old(responseFrame[..frameLength]) == ACK
              then status == PENDING && Async() == old(Async()).(
                     phase := WaitResponse, deadline := Later(now, responseTimeoutMs), collector := FRESH)
              else status == FAILED && EndedFrom(old(Async()), ring.contents)
    {
      if responseFrame[..frameLength] != ACK {
        active := false;
        return FAILED;
      }
      phase := WaitResponse;
      deadline := Later(now, responseTimeoutMs);
      frameLength := 0;
      syncState := 0;
      status := PENDING;
    }

    /** Tests the collected response and copies its data out. */
    method TakeResponse() returns (status: CommandStatus, responseLength: nat)
      requires Valid()
      requires var f := responseFrame[..frameLength]; |f| >= 8 && LengthChecks(f) ==> DataLength(f) + 7 == |f|
      modifies ackFrame
      ensures responseLength <= MAX_FRAME
      ensures responseFrame[..frameLength] == old(responseFrame[..frameLength])
      ensures match ResponseData(responseFrame[..frameLength], command)
              case Nothing => status == FAILED
              case Data(data) => status == COMPLETE && responseLength <= MAX_FRAME && ackFrame[..responseLength] == data
    {
      ghost var f := responseFrame[..frameLength];
      var valid := ValidateNormalFrame(responseFrame, frameLength);
      if !valid || frameLength < 9 {
        return FAILED, 0;
      }
      var dataLength: nat := responseFrame[3];
      if dataLength < 2 || dataLength + 7 != frameLength || responseFrame[5] != CHIP || responseFrame[6] != Successor(command) {
        return FAILED, 0;
      }
      responseLength := dataLength - 2;
      forall i | 0 <= i < responseLength {
        ackFrame[i] := responseFrame[7 + i];
      }
      assert responseFrame[..frameLength] == f;
      assert forall i | 0 <= i < responseLength :: ackFrame[i] == f[7 + i];
      assert ackFrame[..responseLength] == f[7..5 + dataLength];
      status := COMPLETE;
    }

    // ----- The transceive under way -----

    /** `finishAsyncTransceive` after a failure. */
    method Finish(error: ErrorCode) returns (messages: seq<ProtocolMessage>)
      requires Valid()
      modifies this`active, this`phase, this`frameLength, this`syncState, this`step, this`payload, this`waiting
      modifies ring
      ensures Valid() && written == old(written)
      ensures (State(), messages) == (FinishTransceive(old(State()), error, []).0, [ErrorReply(old(requestId), error)])
    {
      var id := requestId;
      CancelAsync();
      ClearRing();
      messages := [ErrorReply(id, error)];
    }

    /** A step's state is entered and its command begun, or everything ends as busy. */
    method EnterStep(next: Step, e: Exchange, now: u32) returns (messages: seq<ProtocolMessage>)
      requires Valid() && |e.data| <= 255
      modifies this`active, this`phase, this`command, this`syncState, this`frameLength, this`responseTimeoutMs, this`deadline, this`waiting, this`written
      modifies this`step, this`payload
      modifies ring, buffer
      ensures Valid()
      ensures var (s, out) := BeginStep(old(State()), next, e, now);
              State() == s && messages == out.messages && written == old(written) + out.wire
    {
      step := next;
      var begun := BeginCommand(e, now);
      messages := [];
      if !begun {
        messages := Finish(Pn532Busy);
      }
    }

    /** `handleTransceive` */
    method HandleTransceive(m: ProtocolMessage, now: u32) returns (messages: seq<ProtocolMessage>)
      requires Valid()
      modifies this`active, this`phase, this`command, this`syncState, this`frameLength, this`responseTimeoutMs, this`deadline, this`waiting, this`written
      modifies this`step, this`payload, this`timeoutMs, this`requestId
      modifies ring, buffer
      ensures Valid()
      ensures var (s, out) := OnTransceive(old(State()), m, now);
              State() == s && messages == out.messages && written == old(written) + out.wire
    {
      if m.payload == [] || |m.payload| > MAX_TRANSCEIVE || m.timeoutMs == 0 || waiting || !targetPending {
        return [ErrorReply(m.requestId, if waiting then Pn532Busy else BadMessage)];
      }
      Accept(m);
      messages := EnterStep(ReadRegisters, READ_RF_REGISTERS, now);
    }

    /** The request is remembered. */
    method Accept(m: ProtocolMessage)
      requires Valid() && |m.payload| <= MAX_TRANSCEIVE
      modifies this`payload, this`timeoutMs, this`requestId
      ensures Valid()
      ensures State() == old(State()).(payload := m.payload, timeoutMs := m.timeoutMs, requestId := m.requestId)
    {
      payload := m.payload;
      timeoutMs := m.timeoutMs;
      requestId := m.requestId;
    }

    /** What a completed command leads to; its data is in the ACK buffer. */
    method AdvanceStep(responseLength: nat, now: u32) returns (messages: seq<ProtocolMessage>)
      requires Valid() && responseLength <= MAX_FRAME && step != Step.Idle
      modifies this`active, this`phase, this`command, this`syncState, this`frameLength, this`responseTimeoutMs, this`deadline, this`waiting, this`written
      modifies this`step, this`payload
      modifies ring, buffer
      ensures Valid()
      ensures var (s, out) := Advance(old(State()), old(ackFrame[..responseLength]), now);
              State() == s && messages == out.messages && written == old(written) + out.wire
    {
      if step == ReadRegisters {
        if responseLength != 3 {
          messages := Finish(Pn532BadFrame);
          return;
        }
        messages := EnterStep(WriteRegisters, WriteRfRegisters(ackFrame[..responseLength]), now);
      } else if step == WriteRegisters {
        var timeoutIndex := RfTimeout.FindTimeoutCode(timeoutMs);
        messages := EnterStep(ConfigureTimeout, Exchange(0x32, [0x02, 0x0A, 0x0B, timeoutIndex], 300), now);
      } else if step == ConfigureTimeout {
        messages := EnterStep(Exchanging, Communicate(payload, timeoutMs), now);
      } else if responseLength == 0 {
        messages := Finish(Pn532BadFrame);
      } else {
        messages := [Reply(requestId, ackFrame[..responseLength])];
        CancelAsync();
      }
    }

    /** `updateAsyncTransceive` */
    method UpdateTransceive(now: u32) returns (messages: seq<ProtocolMessage>)
      requires Valid()
      modifies this`active, this`phase, this`command, this`syncState, this`frameLength, this`responseTimeoutMs, this`deadline, this`waiting, this`written
      modifies this`step, this`payload
      modifies ring, responseFrame, ackFrame, buffer
      ensures Valid()
      ensures var (s, out) := Update(old(State()), now);
              State() == s && messages == out.messages && written == old(written) + out.wire
    {
      if step == Step.Idle {
        return [];
      }
      ghost var r := State();
      var status, responseLength, error := PollStep(now);
      if status == PENDING {
        return [];
      }
      CollectorIsForgotten(r, ring.contents, Async().collector, error, ackFrame[..responseLength], now);
      messages := Continue(status == COMPLETE, responseLength, error, now);
    }

    /** The same poll, seen from the whole state. */
    method PollStep(now: u32) returns (status: CommandStatus, responseLength: nat, error: ErrorCode)
      requires Valid()
      modifies this`active, this`phase, this`deadline, this`syncState, this`frameLength, this`written
      modifies ring, responseFrame, ackFrame
      ensures Valid() && responseLength <= MAX_FRAME
      ensures State() == old(State()).(ring := ring.contents, async := Async())
      ensures Reports(Poll(old(Async()), old(ring.contents), now), old(Async()), old(written), status, responseLength, error)
    {
      status, responseLength, error := PollCommand(now);
      assert DiscoveryState() == old(DiscoveryState());
    }

    /** What the end of a command leads to. */
    method Continue(complete: bool, responseLength: nat, error: ErrorCode, now: u32) returns (messages: seq<ProtocolMessage>)
      requires Valid() && responseLength <= MAX_FRAME && step != Step.Idle
      modifies this`active, this`phase, this`command, this`syncState, this`frameLength, this`responseTimeoutMs, this`deadline, this`waiting, this`written
      modifies this`step, this`payload
      modifies ring, buffer
      ensures Valid()
      ensures var (s, out) := if complete then Advance(old(State()), old(ackFrame[..responseLength]), now)
                              else FinishTransceive(old(State()), error, []);
              State() == s && messages == out.messages && written == old(written) + out.wire
    {
      if complete {
        messages := AdvanceStep(responseLength, now);
      } else {
        messages := Finish(error);
      }
    }

    // ----- Discovery -----

    /** `handleStartDiscovery` */
    method HandleStart(m: ProtocolMessage, now: u32) returns (messages: seq<ProtocolMessage>)
      requires Valid()
      modifies this`enabled, this`targetPending, this`waitForRemoval, this`failures, this`discoveryFrame, this`nextAt, this`nextStatusId
      ensures Valid() && written == old(written)
      ensures var (s, out) := OnStart(old(State()), m, now); State() == s && messages == out.messages
    {
      if |m.payload| < 3 || |m.payload| > MAX_BROADCAST || waiting {
        return [ErrorReply(m.requestId, if waiting then Pn532Busy else BadMessage)];
      }
      var status := StartSession(m.payload, now);
      messages := [Reply(m.requestId, []), status];
    }

    /** The discovery side of START. */
    method StartSession(frame: seq<byte>, now: u32) returns (status: ProtocolMessage)
      requires Valid()
      modifies this`enabled, this`targetPending, this`waitForRemoval, this`failures, this`discoveryFrame, this`nextAt, this`nextStatusId
      ensures Valid() && State() == old(State()).(discovery := Started(old(DiscoveryState()), frame, now))
      ensures status == StatusMessage(old(DiscoveryState()), STATE_READY, 0, 0)
    {
      status := SetStarted(frame, now);
    }

    method SetStarted(frame: seq<byte>, now: u32) returns (status: ProtocolMessage)
      modifies this`enabled, this`targetPending, this`waitForRemoval, this`failures, this`discoveryFrame, this`nextAt, this`nextStatusId
      ensures DiscoveryState() == Started(old(DiscoveryState()), frame, now)
      ensures status == StatusMessage(old(DiscoveryState()), STATE_READY, 0, 0)
    {
      discoveryFrame := frame;
      enabled, targetPending, waitForRemoval := true, false, false;
      failures := 0;
      nextAt := now;
      status := ProtocolMessage(TypeCode(ReaderStatus), nextStatusId, 0, [STATE_READY, 0, 0]);
      nextStatusId := Later(nextStatusId, 1);
    }

    method ClearRing()
      requires Valid()
      modifies ring
      ensures Valid() && State() == old(State()).(ring := [])
    {
      ring.Clear();
    }

    /** What a blocking command leaves of the link: an empty ring, and the flag dropped once
        its acknowledgement was read. */
    method LocalCommandDone(acknowledged: bool)
      requires Valid()
      modifies this`waiting, ring
      ensures Valid() && State() == old(State()).(ring := [], waiting := old(waiting) && !acknowledged)
    {
      ring.Clear();
      waiting := waiting && !acknowledged;
    }

    /** `handleResumeDiscovery` */
    method HandleResume(m: ProtocolMessage, off: FieldOff, now: u32) returns (messages: seq<ProtocolMessage>)
      requires Valid()
      modifies this`waiting, this`targetPending, this`waitForRemoval, this`noTargetSince, this`failures, this`nextAt
      modifies ring
      ensures Valid() && written == old(written)
      ensures var (s, out) := OnResume(old(State()), m, off, now); State() == s && messages == out.messages
    {
      if |m.payload| > 1 || (|m.payload| == 1 && m.payload[0] > 1) || !enabled {
        return [ErrorReply(m.requestId, BadMessage)];
      }
      var retry := |m.payload| == 1 && m.payload[0] == 1;
      if retry {
        LocalCommandDone(off.acknowledged);
        if off.result.Failure? {
          return [ErrorReply(m.requestId, off.result.error)];
        }
      }
      ResumeSession(retry, now);
      messages := [Reply(m.requestId, [])];
    }

    /** The discovery side of RESUME. */
    method ResumeSession(retry: bool, now: u32)
      requires Valid()
      modifies this`targetPending, this`waitForRemoval, this`noTargetSince, this`failures, this`nextAt
      ensures Valid() && State() == old(State()).(discovery := Resumed(old(DiscoveryState()), retry, now))
    {
      SetResumed(retry, now);
    }

    method SetResumed(retry: bool, now: u32)
      modifies this`targetPending, this`waitForRemoval, this`noTargetSince, this`failures, this`nextAt
      ensures DiscoveryState() == Resumed(old(DiscoveryState()), retry, now)
    {
      targetPending := false;
      waitForRemoval := !retry;
      noTargetSince := 0;
      failures := 0;
      nextAt := Later(now, if retry then DISCOVERY_RETRY_MS else DISCOVERY_INTERVAL_MS);
    }

    method StopDiscovery()
      requires Valid()
      modifies this`enabled, this`targetPending, this`waitForRemoval
      ensures Valid() && State() == old(State()).(discovery := Disabled(old(DiscoveryState())))
    {
      enabled, targetPending, waitForRemoval := false, false, false;
    }

    /** `autonomousDiscoveryFailure` */
    method NoteFailure(error: ErrorCode, done: nat) returns (messages: seq<ProtocolMessage>)
      requires Valid()
      modifies this`enabled, this`targetPending, this`waitForRemoval, this`failures, this`nextAt, this`nextStatusId
      ensures Valid()
      ensures var (d, out) := DiscoveryFailure(old(DiscoveryState()), error, done);
              DiscoveryState() == d && messages == out.messages
    {
      failures := Low8(failures as int + 1);
      nextAt := Later(Millis(done), DISCOVERY_FAILURE_DELAY_MS);
      if failures < DISCOVERY_FAILURE_LIMIT {
        return [];
      }
      enabled := false;
      targetPending := false;
      waitForRemoval := false;
      messages := [ProtocolMessage(TypeCode(ReaderStatus), nextStatusId, 0, [STATE_FAILED, ErrorByte(error), failures])];
      nextStatusId := Later(nextStatusId, 1);
    }

    /** The poll saw a target. */
    method NoteTarget(data: seq<byte>, t: Times) returns (messages: seq<ProtocolMessage>)
      requires Valid()
      modifies this`enabled, this`targetPending, this`waitForRemoval, this`failures, this`nextAt, this`nextStatusId
      modifies this`noTargetSince, this`pendingAt, this`nextEventId
      ensures Valid()
      ensures var (d, out) := TargetSeen(old(DiscoveryState()), data, t);
              DiscoveryState() == d && messages == out.messages
    {
      failures := 0;
      if waitForRemoval {
        noTargetSince := 0;
        nextAt := Later(Millis(t.done), DISCOVERY_INTERVAL_MS);
        return [];
      }
      if |data| + 1 > MAX_PAYLOAD {
        messages := NoteFailure(Pn532FrameTooLarge, t.done);
        return;
      }
      messages := [ProtocolMessage(TypeCode(TargetEvent), nextEventId, 0, [1] + data)];
      nextEventId := Later(nextEventId, 1);
      targetPending := true;
      pendingAt := Millis(t.done);
    }

    /** The second half of a sweep is over. */
    method NoteAnnounced(closing: CommandResult, done: nat) returns (messages: seq<ProtocolMessage>)
      requires Valid()
      modifies this`enabled, this`targetPending, this`waitForRemoval, this`failures, this`nextAt, this`nextStatusId
      ensures Valid()
      ensures var (d, out) := Announce(old(DiscoveryState()), closing, done);
              DiscoveryState() == d && messages == out.messages
    {
      if closing.Failure? {
        messages := NoteFailure(closing.error, done);
        return;
      }
      failures := 0;
      nextAt := Later(Millis(done), DISCOVERY_INTERVAL_MS);
      messages := [];
    }

    /** The poll saw none. */
    method NoteNoTarget(closing: CommandResult, t: Times) returns (messages: seq<ProtocolMessage>)
      requires Valid()
      modifies this`enabled, this`targetPending, this`waitForRemoval, this`failures, this`nextAt, this`nextStatusId
      modifies this`noTargetSince
      ensures Valid()
      ensures var (d, out) := NoTargetSeen(old(DiscoveryState()), closing, t);
              DiscoveryState() == d && messages == out.messages
    {
      if waitForRemoval {
        if noTargetSince == 0 {
          noTargetSince := Millis(t.seen);
        }
        if Elapsed(Millis(t.checked), noTargetSince) < DISCOVERY_REMOVAL_MS {
          nextAt := Later(Millis(t.done), DISCOVERY_INTERVAL_MS);
          return [];
        }
        waitForRemoval := false;
        noTargetSince := 0;
      }
      messages := NoteAnnounced(closing, t.done);
    }

    /** `runAutonomousDiscovery` */
    method RunDiscovery(sweep: SweepResults, t: Times) returns (messages: seq<ProtocolMessage>)
      requires Valid()
      modifies this`waiting, this`enabled, this`targetPending, this`waitForRemoval, this`failures
      modifies this`nextAt, this`nextStatusId, this`noTargetSince, this`pendingAt, this`nextEventId
      modifies ring
      ensures Valid() && written == old(written)
      ensures var (s, out) := AutonomousDiscovery(old(State()), sweep, t); State() == s && messages == out.messages
    {
      if !enabled || !connected || ota || waiting || discoveryFrame == [] {
        return [];
      }
      var now := Millis(t.entry);
      CheckWatchdog(now);
      if targetPending || Signed(Elapsed(now, nextAt)) < 0 {
        return [];
      }
      LocalCommandDone(true);
      messages := NoteSweep(sweep, t);
    }

    /** A target nobody came back for is given up. */
    method CheckWatchdog(now: u32)
      requires Valid()
      modifies this`targetPending, this`waitForRemoval
      ensures Valid() && State() == old(State()).(discovery := AfterWatchdog(old(DiscoveryState()), now))
    {
      if targetPending && Elapsed(now, pendingAt) >= DISCOVERY_WATCHDOG_MS {
        targetPending := false;
        waitForRemoval := true;
      }
    }

    /** The sweep has come back. */
    method NoteSweep(sweep: SweepResults, t: Times) returns (messages: seq<ProtocolMessage>)
      requires Valid()
      modifies this`enabled, this`targetPending, this`waitForRemoval, this`failures, this`nextAt, this`nextStatusId
      modifies this`noTargetSince, this`pendingAt, this`nextEventId
      ensures Valid()
      ensures var (d, out) := RunSweep(old(DiscoveryState()), sweep, t);
              State() == old(State()).(discovery := d) && messages == out.messages
    {
      messages := NoteResults(sweep, t);
    }

    /** What it showed. */
    method NoteResults(sweep: SweepResults, t: Times) returns (messages: seq<ProtocolMessage>)
      requires Valid()
      modifies this`enabled, this`targetPending, this`waitForRemoval, this`failures, this`nextAt, this`nextStatusId
      modifies this`noTargetSince, this`pendingAt, this`nextEventId
      ensures Valid()
      ensures var (d, out) := RunSweep(old(DiscoveryState()), sweep, t);
              DiscoveryState() == d && messages == out.messages
    {
      if sweep.opening.Failure? {
        messages := NoteFailure(sweep.opening.error, t.done);
      } else if sweep.opening.data != [] && sweep.opening.data[0] > 0 {
        messages := NoteTarget(sweep.opening.data, t);
      } else {
        messages := NoteNoTarget(sweep.closing, t);
      }
    }

    // ----- The loop -----

    /** `loop()`, as far as the PN532 is concerned: one pass of the machine. */
    method RunPass(bytes: seq<byte>, sweep: SweepResults, t: Times) returns (messages: seq<ProtocolMessage>)
      requires Valid()
      modifies this, ring, ring.slots, responseFrame, ackFrame, buffer
      ensures Valid()
      ensures var (s, out) := Pass(old(State()), bytes, sweep, t);
              State() == s && messages == out.messages && written == old(written) + out.wire
    {
      if ota {
        return [];
      }
      DrainUart(bytes);
      messages := UpdateTransceive(Millis(t.poll));
      ghost var u := State();
      var more := RunDiscovery(sweep, t);
      DiscoveryWritesNothing(u, sweep, t);
      messages := messages + more;
    }

    // ----- Messages and the connection -----

    /** `handleBinaryMessage` */
    method HandleBinaryMessage(raw: seq<byte>, radio: Radio, now: nat) returns (messages: seq<ProtocolMessage>)
      requires Valid()
      modifies this, ring, buffer
      ensures Valid()
      ensures var (s, out) := Take(old(State()), Receive(raw, radio, now));
              State() == s && messages == out.messages && written == old(written) + out.wire
    {
      var decoded := DecodeMessage(raw);
      if decoded.None? {
        return [ErrorReply(0, BadMessage)];
      }
      messages := HandleMessage(decoded.value, radio, Millis(now));
    }

    method HandleMessage(m: ProtocolMessage, radio: Radio, now: u32) returns (messages: seq<ProtocolMessage>)
      requires Valid()
      modifies this, ring, buffer
      ensures Valid()
      ensures var (s, out) := Dispatch(old(State()), m, radio, now);
              State() == s && messages == out.messages && written == old(written) + out.wire
    {
      if TypeOf(m.code) == Some(Transceive) {
        TransceiveDispatch(State(), m, radio, now);
        messages := HandleTransceive(m, now);
      } else {
        messages := HandleBlocking(m, radio, now);
      }
    }

    /** The messages that are dealt with on the spot. */
    method HandleBlocking(m: ProtocolMessage, radio: Radio, now: u32) returns (messages: seq<ProtocolMessage>)
      requires Valid() && TypeOf(m.code) != Some(Transceive)
      modifies this, ring
      ensures Valid() && written == old(written)
      ensures var (s, out) := Dispatch(old(State()), m, radio, now);
              State() == s && messages == out.messages && out.wire == []
    {
      WireOfMessages(State(), m, radio, now);
      match TypeOf(m.code)
      case Some(StartDiscovery) =>
        messages := HandleStart(m, now);
      case Some(ResumeDiscovery) =>
        messages := HandleResume(m, radio.off, now);
      case Some(Reset) =>
        ResetChip();
        messages := [Reply(m.requestId, [])];
      case Some(Transceive) =>
        assert false;
      case _ =>
        OthersIgnoreTheClock(State(), m, radio, now);
        messages := HandleOther(m, radio);
    }

    /** The messages that leave transceive and discovery alone. */
    method HandleOther(m: ProtocolMessage, radio: Radio) returns (messages: seq<ProtocolMessage>)
      requires Valid()
      requires TypeOf(m.code) !in {Some(StartDiscovery), Some(ResumeDiscovery), Some(Transceive), Some(Reset)}
      modifies ring
      ensures Valid()
      ensures var (s, out) := Dispatch(old(State()), m, radio, 0); State() == s && messages == out.messages
    {
      match TypeOf(m.code)
      case Some(Execute) =>
        if m.payload == [] || waiting {
          return [ErrorReply(m.requestId, Pn532Busy)];
        }
        ring.Clear();
        messages := [ResultReply(m.requestId, radio.execute)];
      case Some(Discover) =>
        if |m.payload| < 3 || |m.payload| > MAX_BROADCAST || waiting {
          return [ErrorReply(m.requestId, if waiting then Pn532Busy else BadMessage)];
        }
        ring.Clear();
        messages := [DiscoverReply(m.requestId, radio.opening, radio.closing)];
      case Some(AccessResult) =>
        messages := [if |m.payload| != 5 || m.payload[0] > 1 then ErrorReply(m.requestId, BadMessage) else Reply(m.requestId, [])];
      case Some(ButtonResult) =>
        messages := [];
      case Some(FirmwareUpdateCheck) =>
        messages := [if m.payload != [] then ErrorReply(m.requestId, BadMessage) else Reply(m.requestId, [])];
      case _ =>
        messages := [ErrorReply(m.requestId, UnsupportedType)];
    }

    method SetConnected(value: bool)
      requires Valid()
      modifies this`connected
      ensures Valid() && State() == old(State()).(connected := value)
    {
      connected := value;
    }

    /** The socket is up. */
    method OnConnected()
      requires Valid()
      modifies this`connected, this`active, this`phase, this`frameLength, this`syncState, this`step, this`payload, this`waiting
      modifies ring
      ensures Valid() && State() == Take(old(State()), Connected).0
    {
      SetConnected(true);
      CancelAsync();
      ClearRing();
    }

    /** The socket is down. */
    method OnDisconnected()
      requires Valid()
      modifies this`connected, this`active, this`phase, this`frameLength, this`syncState, this`step, this`payload, this`waiting
      modifies this`enabled, this`targetPending, this`waitForRemoval
      modifies ring
      ensures Valid() && State() == Take(old(State()), Disconnected).0
    {
      SetConnected(false);
      CancelAsync();
      StopDiscovery();
      ClearRing();
    }

    /** The client is closed for the update. */
    method GoOffline()
      requires Valid()
      modifies this`ota, this`connected
      ensures Valid() && State() == old(State()).(connected := false, ota := true)
    {
      ota := true;
      connected := false;
    }

    /** An update begins to be written. */
    method OnUpdateStarted()
      requires Valid()
      modifies this`ota, this`connected, this`active, this`phase, this`frameLength, this`syncState, this`step, this`payload, this`waiting
      modifies ring
      ensures Valid() && State() == Take(old(State()), OtaStarted).0
    {
      ghost var r := State();
      GoOffline();
      CancelAsync();
      assert State() == CancelTransceive(r).(connected := false, ota := true);
      ClearRing();
    }

    /** It fails. */
    method OnUpdateFailed()
      requires Valid()
      modifies this`ota
      ensures Valid() && State() == Take(old(State()), OtaFailed).0
    {
      ota := false;
    }

    /** One thing that happens to the sketch, and what the socket sees of it. */
    method HandleEvent(e: Event) returns (messages: seq<ProtocolMessage>)
      requires Valid()
      modifies this, ring, ring.slots, responseFrame, ackFrame, buffer
      ensures Valid() && State() == Take(old(State()), e).0 && messages == Take(old(State()), e).1.messages
      ensures Inv(old(State())) && Allowed(old(State()), e) ==> EventEffect(old(State()), e, State(), messages)
    {
      EventMeets(State(), e);
      messages := [];
      match e
      case Receive(raw, radio, now) => messages := HandleBinaryMessage(raw, radio, now);
      case Loop(bytes, sweep, t) => messages := RunPass(bytes, sweep, t);
      case Connected => OnConnected();
      case Disconnected => OnDisconnected();
      case OtaStarted => OnUpdateStarted();
      case OtaFailed => OnUpdateFailed();
    }

    /** The sketch at work: whatever happens to it, in whatever order, its variables stand for
        the state that the run of the machine reaches, and every transceive that it took on has
        been ended once, in order, or is the one still running. */
    method Operate(es: seq<Event>)
      requires Valid()
      modifies this, ring, ring.slots, responseFrame, ackFrame, buffer
      ensures Valid() && State() == Run(old(State()), es)
      ensures Inv(old(State())) && AllAllowed(old(State()), es) ==>
                && Inv(State())
                && Open(old(State())) + AllTakenOn(old(State()), es) == AllEnded(old(State()), es) + Open(State())
    {
      ghost var r := State();
      OperateMeets(r, es);
      for n := 0 to |es|
        invariant Valid() && State() == Run(r, es[..n])
      {
        assert es[..n + 1][..n] == es[..n];
        var messages := HandleEvent(es[n]);
      }
      assert es[..|es|] == es;
    }

    /** The hardware reset behind RESET. */
    method ResetChip()
      requires Valid()
      modifies this`active, this`phase, this`frameLength, this`syncState, this`step, this`payload, this`waiting
      modifies this`enabled, this`targetPending, this`waitForRemoval, this`failures
      modifies ring
      ensures Valid() && written == old(written)
      ensures var r := old(State());
              State() == CancelTransceive(r).(discovery := Disabled(r.discovery).(failures := 0), ring := [])
    {
      CancelAsync();
      StopDiscovery();
      failures := 0;
      ClearRing();
    }
  }

  /** Only an accepted TRANSCEIVE writes to the chip by itself; the blocking handlers' writes
      are theirs. */
  lemma WireOfMessages(r: Reader, m: ProtocolMessage, radio: Radio, now: u32)
    requires TypeOf(m.code) != Some(Transceive)
    ensures Dispatch(r, m, radio, now).1.wire == []
  {
  }

  lemma TransceiveDispatch(r: Reader, m: ProtocolMessage, radio: Radio, now: u32)
    requires TypeOf(m.code) == Some(Transceive)
    ensures Dispatch(r, m, radio, now) == OnTransceive(r, m, now)
  {
  }

  lemma OthersIgnoreTheClock(r: Reader, m: ProtocolMessage, radio: Radio, now: u32)
    requires TypeOf(m.code) !in {Some(StartDiscovery), Some(ResumeDiscovery), Some(Transceive), Some(Reset)}
    ensures Dispatch(r, m, radio, now) == Dispatch(r, m, radio, 0)
  {
  }

  /** Whatever follows an ended command does not depend on what its collector held. */
  lemma CollectorIsForgotten(r: Reader, rest: seq<byte>, c: Collector, e: ErrorCode, data: seq<byte>, now: u32)
    ensures var s := r.(ring := rest, async := r.async.(active := false, collector := c));
            && FinishTransceive(s, e, []).0 == FinishTransceive(r, e, []).0
            && (r.step != Step.Idle ==> Advance(s, data, now) == Advance(r.(async := r.async.(active := false), ring := rest), data, now))
  {
  }

  lemma DiscoveryWritesNothing(r: Reader, sweep: SweepResults, t: Times)
    ensures AutonomousDiscovery(r, sweep, t).1.wire == []
  {
  }
}
