/** The reader as a state machine: its state between two passes of the main loop, and what
    each message, each pass and each connection event does to it and sends out.

    Instants are true times; the code sees `Millis` of them.  What the chip answers to the
    blocking commands of a handler is given by the environment (`Radio`, `Sweep`). */
module ReaderMachine {
  import opened Words
  import opened Protocol
  import opened Pn532Ring
  import opened LocalCommands
  import opened AsyncCommands
  import RfTimeout

  const DISCOVERY_INTERVAL_MS := 40
  const DISCOVERY_WATCHDOG_MS := 15000
  const DISCOVERY_REMOVAL_MS := 750
  const DISCOVERY_RETRY_MS := 500
  const DISCOVERY_FAILURE_DELAY_MS := 100
  const DISCOVERY_FAILURE_LIMIT := 3
  const MAX_TRANSCEIVE := 250
  const MAX_BROADCAST := 64
  const STATE_READY: byte := 0
  const STATE_FAILED: byte := 2

  datatype Step = Idle | ReadRegisters | WriteRegisters | ConfigureTimeout | Exchanging

  datatype Discovery = Discovery(
    enabled: bool,
    targetPending: bool,
    waitForRemoval: bool,
    frame: seq<byte>,
    failures: byte,
    nextAt: u32,
    pendingAt: u32,
    noTargetSince: u32,
    nextEventId: u32,
    nextStatusId: u32)

  datatype Reader = Reader(
    ring: seq<byte>,
    waiting: bool,
    async: AsyncCommand,
    step: Step,
    payload: seq<byte>,
    timeoutMs: u16,
    requestId: u32,
    discovery: Discovery,
    connected: bool,
    ota: bool)

  /** What a handler puts on the socket and on the serial line. */
  datatype Effects = Effects(messages: seq<ProtocolMessage>, wire: seq<seq<byte>>)

  const NOTHING := Effects([], [])

  function Sends(m: ProtocolMessage): Effects {
    Effects([m], [])
  }

  const START_STATE := Reader(
    [], false, IDLE_COMMAND, Step.Idle, [], 0, 0,
    Discovery(false, false, false, [], 0, 0, 0, 0, 0x9000_0000, 0xA000_0000), false, false)

  // ----- The transceive machine -----

  function CancelTransceive(r: Reader): Reader {
    r.(async := Cancelled(r.async), step := Step.Idle, payload := [], waiting := false)
  }

  /** `finishAsyncTransceive` after a failure. */
  function FinishTransceive(r: Reader, error: ErrorCode, wire: seq<seq<byte>>): (Reader, Effects) {
    (CancelTransceive(r).(ring := []), Effects([ErrorReply(r.requestId, error)], wire))
  }

  /** Moves to `step` by beginning its command; a command still active would end the whole
      transceive as busy. */
  function BeginStep(r: Reader, step: Step, e: Exchange, now: u32): (Reader, Effects) {
    var s := r.(step := step);
    if s.async.active then FinishTransceive(s, Pn532Busy, [])
    else (s.(ring := [], waiting := true, async := Begun(e.command, e.timeoutMs, now)), Effects([], [CommandFrame(e)]))
  }

  const READ_RF_REGISTERS := Exchange(0x06, [0x63, 0x02, 0x63, 0x03, 0x63, 0x05], 300)

  /** `value & 0x8C`: of the bits only 7, 3 and 2 are kept. */
  function KeepBits732(value: byte): byte {
    value / 0x80 * 0x80 + value / 8 % 2 * 8 + value / 4 % 2 * 4
  }

  /** `(value & 0xBF) | 0x40`: bit 6 is set, the others are kept. */
  function WithBit6(value: byte): byte {
    if value / 0x40 % 2 == 1 then value else value as int + 0x40
  }

  lemma Bit7IsMask(value: bv8)
    ensures value as int / 0x80 * 0x80 == (value & 0x80) as int
  {
  }

  lemma Bit3IsMask(value: bv8)
    ensures value as int / 8 % 2 * 8 == (value & 0x08) as int
  {
  }

  lemma Bit2IsMask(value: bv8)
    ensures value as int / 4 % 2 * 4 == (value & 0x04) as int
  {
  }

  lemma MaskSplits(value: bv8)
    ensures (value & 0x8C) as int == (value & 0x80) as int + (value & 0x08) as int + (value & 0x04) as int
  {
  }

  lemma KeepBits732IsMask(value: bv8)
    ensures KeepBits732(value as int) == (value & 0x8C) as int
  {
    Bit7IsMask(value);
    Bit3IsMask(value);
    Bit2IsMask(value);
    MaskSplits(value);
  }

  lemma WithBit6IsMask(value: bv8)
    ensures WithBit6(value as int) == ((value & 0xBF) | 0x40) as int
  {
  }

  /** Same registers, with the values read masked. */
  function WriteRfRegisters(values: seq<byte>): Exchange
    requires |values| == 3
  {
    Exchange(0x08,
             [0x63, 0x02, KeepBits732(values[0]), 0x63, 0x03, KeepBits732(values[1]), 0x63, 0x05, WithBit6(values[2])],
             300)
  }

  function SetRfTimeouts(timeoutMs: u16): Exchange {
    Exchange(0x32, [0x02, 0x0A, 0x0B, RfTimeout.TimeoutCode(timeoutMs)], 300)
  }

  function Communicate(payload: seq<byte>, timeoutMs: u16): Exchange {
    Exchange(0x42, payload, Min(timeoutMs as int + 150, 0xFFFF))
  }

  /** What a completed command leads to. */
  function Advance(r: Reader, data: seq<byte>, now: u32): (Reader, Effects) {
    match r.step
    case Idle => (r, NOTHING)
    case ReadRegisters =>
      if |data| != 3 then FinishTransceive(r, Pn532BadFrame, [])
      else BeginStep(r, WriteRegisters, WriteRfRegisters(data), now)
    case WriteRegisters => BeginStep(r, ConfigureTimeout, SetRfTimeouts(r.timeoutMs), now)
    case ConfigureTimeout => BeginStep(r, Exchanging, Communicate(r.payload, r.timeoutMs), now)
    case Exchanging =>
      if data == [] then FinishTransceive(r, Pn532BadFrame, [])
      else (CancelTransceive(r), Sends(Reply(r.requestId, data)))
  }

  /** `updateAsyncTransceive` */
  function Update(r: Reader, now: u32): (Reader, Effects) {
    if r.step == Step.Idle then (r, NOTHING)
    else match Poll(r.async, r.ring, now)
      case Pending(command, ring) => (r.(async := command, ring := ring), NOTHING)
      case Failed(error, _, wire) => FinishTransceive(r, error, wire)
      case Done(data, ring) => Advance(r.(async := r.async.(active := false), ring := ring), data, now)
  }

  /** `handleTransceive` */
  function OnTransceive(r: Reader, m: ProtocolMessage, now: u32): (Reader, Effects) {
    if m.payload == [] || |m.payload| > MAX_TRANSCEIVE || m.timeoutMs == 0 || r.waiting || !r.discovery.targetPending
    then (r, Sends(ErrorReply(m.requestId, if r.waiting then Pn532Busy else BadMessage)))
    else BeginStep(r.(payload := m.payload, timeoutMs := m.timeoutMs, requestId := m.requestId),
                   ReadRegisters, READ_RF_REGISTERS, now)
  }

  // ----- The discovery machine -----

  function Disabled(d: Discovery): Discovery {
    d.(enabled := false, targetPending := false, waitForRemoval := false)
  }

  function StatusMessage(d: Discovery, state: byte, error: byte, failures: byte): ProtocolMessage {
    ProtocolMessage(TypeCode(ReaderStatus), d.nextStatusId, 0, [state, error, failures])
  }

  /** A session begins; the time since when no target was seen stays what it was. */
  function Started(d: Discovery, frame: seq<byte>, now: u32): Discovery {
    d.(frame := frame, enabled := true, targetPending := false, waitForRemoval := false, failures := 0,
       nextAt := now, nextStatusId := Later(d.nextStatusId, 1))
  }

  /** `handleStartDiscovery` */
  function OnStart(r: Reader, m: ProtocolMessage, now: u32): (Reader, Effects) {
    if |m.payload| < 3 || |m.payload| > MAX_BROADCAST || r.waiting
    then (r, Sends(ErrorReply(m.requestId, if r.waiting then Pn532Busy else BadMessage)))
    else
      (r.(discovery := Started(r.discovery, m.payload, now)),
       Effects([Reply(m.requestId, []), StatusMessage(r.discovery, STATE_READY, 0, 0)], []))
  }

  /** The result of the field-off command of a retry RESUME, and whether it got as far as
      its acknowledgement, after which the executor drops the waiting flag. */
  datatype FieldOff = FieldOff(result: CommandResult, acknowledged: bool)

  /** The controller is done with the target: after a success it must first go away. */
  function Resumed(d: Discovery, retry: bool, now: u32): Discovery {
    d.(targetPending := false, waitForRemoval := !retry, noTargetSince := 0, failures := 0,
       nextAt := Later(now, if retry then DISCOVERY_RETRY_MS else DISCOVERY_INTERVAL_MS))
  }

  /** `handleResumeDiscovery`, with no check that the chip is free. */
  function OnResume(r: Reader, m: ProtocolMessage, off: FieldOff, now: u32): (Reader, Effects) {
    if |m.payload| > 1 || (|m.payload| == 1 && m.payload[0] > 1) || !r.discovery.enabled
    then (r, Sends(ErrorReply(m.requestId, BadMessage)))
    else
      var retry := |m.payload| == 1 && m.payload[0] == 1;
      var s := if retry then r.(ring := [], waiting := r.waiting && !off.acknowledged) else r;
      if retry && off.result.Failure? then (s, Sends(ErrorReply(m.requestId, off.result.error)))
      else
        (s.(discovery := Resumed(s.discovery, retry, now)), Sends(Reply(m.requestId, [])))
  }

  /** The clock as one pass of the loop reads it: when it polls, when discovery starts, and
      up to three times after the radio has answered. */
  datatype Times = Times(poll: nat, entry: nat, seen: nat, checked: nat, done: nat)

  predicate Ordered(t: Times) {
    t.poll <= t.entry <= t.seen <= t.checked <= t.done
  }

  /** What the two halves of an autonomous sweep come back with. */
  datatype SweepResults = SweepResults(opening: CommandResult, closing: CommandResult)

  /** `autonomousDiscoveryFailure` */
  function DiscoveryFailure(d: Discovery, error: ErrorCode, done: nat): (Discovery, Effects) {
    var failures := Low8(d.failures as int + 1);
    var e := d.(failures := failures, nextAt := Later(Millis(done), DISCOVERY_FAILURE_DELAY_MS));
    if failures < DISCOVERY_FAILURE_LIMIT then (e, NOTHING)
    else (Disabled(e).(nextStatusId := Later(e.nextStatusId, 1)),
          Sends(StatusMessage(e, STATE_FAILED, ErrorByte(error), failures)))
  }

  /** The second half of a sweep that saw no target. */
  function Announce(d: Discovery, closing: CommandResult, done: nat): (Discovery, Effects) {
    match closing
    case Failure(e) => DiscoveryFailure(d, e, done)
    case Success(_) => (d.(failures := 0, nextAt := Later(Millis(done), DISCOVERY_INTERVAL_MS)), NOTHING)
  }

  function NoTargetSeen(d: Discovery, closing: CommandResult, t: Times): (Discovery, Effects) {
    if !d.waitForRemoval then Announce(d, closing, t.done)
    else
      var e := d.(noTargetSince := if d.noTargetSince == 0 then Millis(t.seen) else d.noTargetSince);
      if Elapsed(Millis(t.checked), e.noTargetSince) < DISCOVERY_REMOVAL_MS
      then (e.(nextAt := Later(Millis(t.done), DISCOVERY_INTERVAL_MS)), NOTHING)
      else Announce(e.(waitForRemoval := false, noTargetSince := 0), closing, t.done)
  }

  function TargetSeen(d: Discovery, data: seq<byte>, t: Times): (Discovery, Effects) {
    var e := d.(failures := 0);
    if e.waitForRemoval
    then (e.(noTargetSince := 0, nextAt := Later(Millis(t.done), DISCOVERY_INTERVAL_MS)), NOTHING)
    else if |data| + 1 > MAX_PAYLOAD
    then DiscoveryFailure(e, Pn532FrameTooLarge, t.done)
    else (e.(targetPending := true, pendingAt := Millis(t.done), nextEventId := Later(e.nextEventId, 1)),
          Sends(ProtocolMessage(TypeCode(TargetEvent), e.nextEventId, 0, [1] + data)))
  }

  /** A sweep on the air. */
  function RunSweep(d: Discovery, sweep: SweepResults, t: Times): (Discovery, Effects) {
    match sweep.opening
    case Failure(e) => DiscoveryFailure(d, e, t.done)
    case Success(data) =>
      if SeesTarget(sweep.opening) then TargetSeen(d, data, t) else NoTargetSeen(d, sweep.closing, t)
  }

  /** The controller did not come back within the watchdog's time. */
  predicate WatchdogFires(d: Discovery, now: u32) {
    d.targetPending && Elapsed(now, d.pendingAt) >= DISCOVERY_WATCHDOG_MS
  }

  predicate MayDiscover(r: Reader) {
    r.discovery.enabled && r.connected && !r.ota && !r.waiting && r.discovery.frame != []
  }

  function AfterWatchdog(d: Discovery, now: u32): Discovery {
    if WatchdogFires(d, now) then d.(targetPending := false, waitForRemoval := true) else d
  }

  /** Whether this pass puts a sweep on the air. */
  predicate Sweeps(r: Reader, t: Times) {
    && MayDiscover(r)
    && var d := AfterWatchdog(r.discovery, Millis(t.entry));
       !d.targetPending && Expired(Millis(t.entry), d.nextAt)
  }

  /** `runAutonomousDiscovery` */
  function AutonomousDiscovery(r: Reader, sweep: SweepResults, t: Times): (Reader, Effects) {
    if !MayDiscover(r) then (r, NOTHING)
    else
      var d := AfterWatchdog(r.discovery, Millis(t.entry));
      if !Sweeps(r, t) then (r.(discovery := d), NOTHING)
      else
        var (e, out) := RunSweep(d, sweep, t);
        (r.(discovery := e, ring := []), out)
  }

  // ----- Messages -----

  /** What the chip answers to the blocking commands a message may start. */
  datatype Radio = Radio(execute: CommandResult, opening: CommandResult, closing: CommandResult, off: FieldOff)

  function Dispatch(r: Reader, m: ProtocolMessage, radio: Radio, now: u32): (Reader, Effects) {
    match TypeOf(m.code)
    case Some(Execute) =>
      if m.payload == [] || r.waiting then (r, Sends(ErrorReply(m.requestId, Pn532Busy)))
      else (r.(ring := []), Sends(ResultReply(m.requestId, radio.execute)))
    case Some(Reset) =>
      (CancelTransceive(r).(discovery := Disabled(r.discovery).(failures := 0), ring := []), Sends(Reply(m.requestId, [])))
    case Some(Discover) =>
      if |m.payload| < 3 || |m.payload| > MAX_BROADCAST || r.waiting
      then (r, Sends(ErrorReply(m.requestId, if r.waiting then Pn532Busy else BadMessage)))
      else (r.(ring := []), Sends(DiscoverReply(m.requestId, radio.opening, radio.closing)))
    case Some(StartDiscovery) => OnStart(r, m, now)
    case Some(ResumeDiscovery) => OnResume(r, m, radio.off, now)
    case Some(Transceive) => OnTransceive(r, m, now)
    case Some(AccessResult) =>
      (r, Sends(if |m.payload| != 5 || m.payload[0] > 1 then ErrorReply(m.requestId, BadMessage) else Reply(m.requestId, [])))
    case Some(ButtonResult) => (r, NOTHING)
    case Some(FirmwareUpdateCheck) =>
      (r, Sends(if m.payload != [] then ErrorReply(m.requestId, BadMessage) else Reply(m.requestId, [])))
    case _ => (r, Sends(ErrorReply(m.requestId, UnsupportedType)))
  }

  // ----- Runs -----

  datatype Event =
    | Receive(raw: seq<byte>, radio: Radio, now: nat)
    | Loop(bytes: seq<byte>, sweep: SweepResults, times: Times)
    | Connected
    | Disconnected
    | OtaStarted
    | OtaFailed

  /** The UART is drained into the ring only while an answer is awaited. */
  function Drain(r: Reader, bytes: seq<byte>): Reader
  {
    if r.waiting then r.(ring := OfferAll(r.ring, bytes)) else r
  }

  function Pass(r: Reader, bytes: seq<byte>, sweep: SweepResults, t: Times): (Reader, Effects)
  {
    if r.ota then (r, NOTHING)
    else
      var (s, out) := Update(Drain(r, bytes), Millis(t.poll));
      var (u, more) := AutonomousDiscovery(s, sweep, t);
      (u, Effects(out.messages + more.messages, out.wire + more.wire))
  }

  function Take(r: Reader, e: Event): (Reader, Effects)
  {
    match e
    case Receive(raw, radio, now) =>
      (match DecodeMessage(raw)
       case None => (r, Sends(ErrorReply(0, BadMessage)))
       case Some(m) => Dispatch(r, m, radio, Millis(now)))
    case Loop(bytes, sweep, times) => Pass(r, bytes, sweep, times)
    case Connected => (CancelTransceive(r).(connected := true, ring := []), NOTHING)
    case Disconnected =>
      (CancelTransceive(r).(connected := false, discovery := Disabled(r.discovery), ring := []), NOTHING)
    case OtaStarted => (CancelTransceive(r).(connected := false, ota := true, ring := []), NOTHING)
    case OtaFailed => (r.(ota := false), NOTHING)
  }
}
