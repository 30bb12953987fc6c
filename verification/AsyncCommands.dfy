/** One PN532 command run cooperatively: begun, then polled once per pass of the main loop,
    each poll consuming whatever the ring holds.  Proved to give, for every way the chip's
    bytes are spread over the polls, what the bytes alone determine, and compared with the
    blocking executor. */
module AsyncCommands {
  import opened Words
  import opened Protocol
  import opened Pn532Ring
  import opened Pn532Frames
  import opened FrameCollector
  import opened LocalCommands

  datatype Phase = Idle | WaitAck | WaitResponse

  datatype AsyncCommand = AsyncCommand(
    active: bool,
    phase: Phase,
    command: byte,
    collector: Collector,
    responseTimeoutMs: u16,
    deadline: u32)

  const IDLE_COMMAND := AsyncCommand(false, Phase.Idle, 0, FRESH, 0, 0)

  /** A command just written to the chip. */
  function Begun(command: byte, responseTimeoutMs: u16, now: u32): AsyncCommand {
    AsyncCommand(true, WaitAck, command, FRESH, Patience(responseTimeoutMs), Later(now, ACK_TIMEOUT_MS))
  }

  function Cancelled(a: AsyncCommand): AsyncCommand {
    a.(active := false, phase := Phase.Idle, collector := FRESH)
  }

  /** `int32_t(now - deadline) >= 0` */
  predicate Expired(now: u32, deadline: u32) {
    Signed(Elapsed(now, deadline)) >= 0
  }

  /** What one poll finds.  A failed or completed command is no longer active. */
  datatype Polled =
    | Pending(command: AsyncCommand, ring: seq<byte>)
    | Done(data: seq<byte>, ring: seq<byte>)
    | Failed(error: ErrorCode, ring: seq<byte>, wire: seq<seq<byte>>)

  /** `pollAsyncPn532Command`.  A frame that cannot be collected is answered with an ACK on
      the wire, which aborts the command inside the chip, and clears the input. */
  function Poll(a: AsyncCommand, ring: seq<byte>, now: u32): Polled {
    if !a.active then Failed(Pn532BadFrame, ring, []) else Resolve(a, FeedAll(a.collector, ring), now)
  }

  function Resolve(a: AsyncCommand, collected: Collected, now: u32): Polled {
    match collected
    case Pending(c) =>
      if Expired(now, a.deadline) then Failed(Pn532Timeout, [], [ACK])
      else Polled.Pending(a.(collector := c), [])
    case TooLarge(_) => Failed(Pn532FrameTooLarge, [], [ACK])
    case Complete(f, rest) => Conclude(a, f, rest, now)
  }

  /** What a whole frame means to a command. */
  function Conclude(a: AsyncCommand, f: seq<byte>, rest: seq<byte>, now: u32): Polled {
    if a.phase == WaitAck then
      if f != ACK then Failed(Pn532BadAck, rest, [])
      else Polled.Pending(a.(phase := WaitResponse, deadline := Later(now, a.responseTimeoutMs), collector := FRESH), rest)
    else match ResponseData(f, a.command)
      case Nothing => Failed(Pn532BadFrame, rest, [])
      case Data(data) => Done(data, rest)
  }

  // ----- What the bytes alone determine -----

  /** The verdict of an active command on all bytes from here on, were none of them late. */
  function Verdict(a: AsyncCommand, s: seq<byte>): CommandResult {
    match FeedAll(a.collector, s)
    case Pending(_) => Failure(Pn532Timeout)
    case TooLarge(_) => Failure(Pn532FrameTooLarge)
    case Complete(f, rest) =>
      if a.phase == WaitAck then
        if f != ACK then Failure(Pn532BadAck) else AnswerVerdict(a.command, FRESH, rest)
      else AnswerVerdict(a.command, a.collector, s)
  }

  function AnswerVerdict(command: byte, c: Collector, s: seq<byte>): CommandResult {
    match FeedAll(c, s)
    case Pending(_) => Failure(Pn532Timeout)
    case TooLarge(_) => Failure(Pn532FrameTooLarge)
    case Complete(f, _) =>
      match ResponseData(f, command)
      case Nothing => Failure(Pn532BadFrame)
      case Data(data) => Success(data)
  }

  /** The asynchronous executor's verdict on everything the chip says to a command. */
  function AsyncOutcome(command: byte, s: seq<byte>): CommandResult {
    Verdict(Begun(command, 0, 0), s)
  }

  // ----- Polling while the bytes trickle in -----

  /** One pass of the loop: the bytes drained from the UART, then a poll at `now`. */
  datatype Look = Look(bytes: seq<byte>, now: u32)

  function Arrived(looks: seq<Look>): seq<byte>
    decreases |looks|
  {
    if looks == [] then [] else looks[0].bytes + Arrived(looks[1..])
  }

  function Serve(a: AsyncCommand, ring: seq<byte>, looks: seq<Look>): Polled
    decreases |looks|
  {
    if looks == [] then Polled.Pending(a, ring)
    else
      var p := Poll(a, OfferAll(ring, looks[0].bytes), looks[0].now);
      if p.Pending? then Serve(p.command, p.ring, looks[1..]) else p
  }

  /** Every chunk fits the ring and no look comes after the deadline then in force. */
  predicate InTime(a: AsyncCommand, ring: seq<byte>, looks: seq<Look>)
    decreases |looks|
  {
    looks == [] ||
    (var look := looks[0];
     && |ring| + |look.bytes| <= CAPACITY
     && !Expired(look.now, a.deadline)
     && (var p := Poll(a, ring + look.bytes, look.now);
         p.Pending? ==> InTime(p.command, p.ring, looks[1..])))
  }

  /** A poll in time decides nothing that the bytes do not, and forgets none of them. */
  lemma PollKeepsVerdict(a: AsyncCommand, ring: seq<byte>, now: u32, future: seq<byte>)
    requires a.active && a.phase != Phase.Idle && !Expired(now, a.deadline)
    ensures match Poll(a, ring, now)
            case Pending(b, left) =>
              && b.active && b.phase != Phase.Idle && |left| <= |ring|
              && b.command == a.command && Verdict(b, left + future) == Verdict(a, ring + future)
            case Done(data, left) => Verdict(a, ring + future) == Success(data) && |left| <= |ring|
            case Failed(e, _, _) => Verdict(a, ring + future) == Failure(e) && e != Pn532Timeout
  {
    FeedAllSplits(a.collector, ring, future);
    RestIsShorter(a.collector, ring);
    assert [] + future == future;
  }

  lemma {:induction false} RestIsShorter(c: Collector, s: seq<byte>)
    ensures FeedAll(c, s).Complete? ==> |FeedAll(c, s).rest| < |s|
    decreases |s|
  {
    if s != [] && Feed(c, s[0]).More? {
      RestIsShorter(Feed(c, s[0]).next, s[1..]);
    }
  }

  /** The result of polling is the verdict on the joined bytes, for every split. */
  ghost predicate Agrees(p: Polled, verdict: CommandResult) {
    match p
    case Pending(a, ring) => a.active && a.phase != Phase.Idle && Verdict(a, ring) == verdict
    case Done(data, _) => verdict == Success(data)
    case Failed(e, _, _) => verdict == Failure(e) && e != Pn532Timeout
  }

  /** One pass in time decides nothing that the bytes do not. */
  lemma LookAgrees(a: AsyncCommand, ring: seq<byte>, look: Look, later: seq<byte>)
    requires a.active && a.phase != Phase.Idle && |ring| + |look.bytes| <= CAPACITY && !Expired(look.now, a.deadline)
    ensures OfferAll(ring, look.bytes) == ring + look.bytes
    ensures var p, verdict := Poll(a, ring + look.bytes, look.now), Verdict(a, ring + (look.bytes + later));
            if p.Pending? then
              && p.command.active && p.command.phase != Phase.Idle && |p.ring| <= CAPACITY
              && Verdict(p.command, p.ring + later) == verdict
            else Agrees(p, verdict)
  {
    OfferAllKeepsPrefix(ring, look.bytes);
    assert look.bytes[..|look.bytes|] == look.bytes;
    PollKeepsVerdict(a, ring + look.bytes, look.now, later);
    assert ring + (look.bytes + later) == ring + look.bytes + later;
  }

  lemma {:induction false} ServeAgrees(a: AsyncCommand, ring: seq<byte>, looks: seq<Look>)
    requires a.active && a.phase != Phase.Idle && |ring| <= CAPACITY && InTime(a, ring, looks)
    ensures Agrees(Serve(a, ring, looks), Verdict(a, ring + Arrived(looks)))
    decreases |looks|
  {
    if looks == [] {
      assert ring + [] == ring;
    } else {
      LookAgrees(a, ring, looks[0], Arrived(looks[1..]));
      var p := Poll(a, ring + looks[0].bytes, looks[0].now);
      if p.Pending? {
        ServeAgrees(p.command, p.ring, looks[1..]);
      }
    }
  }

  /** Split invariance: however the chip's bytes are spread over the passes of the loop,
      in one burst, one at a time or cut inside the acknowledgement, once they have all
      been drained and one more pass has gone by in time the command has ended with the
      result those bytes determine; it is still waiting only if they hold no whole answer. */
  lemma SplitInvariance(command: byte, responseTimeoutMs: u16, begun: u32, looks: seq<Look>, last: Look)
    requires var a := Begun(command, responseTimeoutMs, begun);
             InTime(a, [], looks + [last]) && last.bytes == []
    ensures match Serve(Begun(command, responseTimeoutMs, begun), [], looks + [last])
            case Done(data, _) => AsyncOutcome(command, Arrived(looks)) == Success(data)
            case Failed(e, _, _) => AsyncOutcome(command, Arrived(looks)) == Failure(e) && e != Pn532Timeout
            case Pending(_, _) => AsyncOutcome(command, Arrived(looks)) == Failure(Pn532Timeout)
  {
    var a := Begun(command, responseTimeoutMs, begun);
    ServeAgrees(a, [], looks + [last]);
    ArrivedAppend(looks, last);
    assert [] + Arrived(looks) == Arrived(looks) && Arrived(looks) + [] == Arrived(looks);
    assert Verdict(a, Arrived(looks)) == AsyncOutcome(command, Arrived(looks));
    IdleLookDrains(a, [], looks, last);
  }

  lemma {:induction false} ArrivedAppend(looks: seq<Look>, last: Look)
    ensures Arrived(looks + [last]) == Arrived(looks) + last.bytes
    decreases |looks|
  {
    if looks == [] {
      assert [last][1..] == [];
    } else {
      assert (looks + [last])[1..] == looks[1..] + [last];
      ArrivedAppend(looks[1..], last);
    }
  }

  /** A command that survives a pass with nothing new to drain has emptied the ring: only
      the pass that consumes the acknowledgement leaves bytes behind, and they are the
      answer's. */
  lemma {:induction false} IdleLookDrains(a: AsyncCommand, ring: seq<byte>, looks: seq<Look>, last: Look)
    requires a.active && a.phase != Phase.Idle && |ring| <= CAPACITY
    requires a.phase == WaitResponse || ring == []
    requires last.bytes == [] && InTime(a, ring, looks + [last])
    ensures var p := Serve(a, ring, looks + [last]);
            p.Pending? ==> Verdict(p.command, p.ring) == Failure(Pn532Timeout)
    decreases |looks|
  {
    var all := looks + [last];
    var look := all[0];
    OfferAllKeepsPrefix(ring, look.bytes);
    assert look.bytes[..|look.bytes|] == look.bytes;
    var p := Poll(a, ring + look.bytes, look.now);
    PollKeepsVerdict(a, ring + look.bytes, look.now, []);
    if looks == [] {
      assert ring + [] == ring && all[1..] == [];
    } else if p.Pending? {
      assert all[1..] == looks[1..] + [last];
      IdleLookDrains(p.command, p.ring, looks[1..], last);
    }
  }

  // ----- Asynchronous against blocking -----

  /** A first frame of normal shape whose checksums fail. */
  predicate CorruptFirst(s: seq<byte>) {
    && ParseFrame(s).Found?
    && var f := ParseFrame(s).frame;
       f != ACK && !IsExtended(f) && !ValidNormal(f)
  }

  /** An oversize header of which fewer than two further bytes arrived. */
  predicate TruncatedOversize(s: seq<byte>) {
    ParseFrame(s).Oversize? && |ParseFrame(s).rest| < 2
  }

  /** Where the two executors report different errors: a corrupt frame in place of the
      acknowledgement, or an oversize header cut short. */
  predicate Diverges(s: seq<byte>) {
    || CorruptFirst(s)
    || TruncatedOversize(s)
    || (ParseFrame(s).Found? && ParseFrame(s).frame == ACK && TruncatedOversize(ParseFrame(s).rest))
  }

  /** Each case is real.  A normal frame with a wrong checksum in the acknowledgement's place: */
  lemma CorruptFrameDiverges(command: byte)
    ensures var s := START + [0x02, 0xFE, 0xD5, 0x15, 0x00, 0x00];
            CorruptFirst(s) && AsyncOutcome(command, s) == Failure(Pn532BadAck) && BlockingOutcome(command, s) == Failure(Pn532BadFrame)
  {
    var s := START + [0x02, 0xFE, 0xD5, 0x15, 0x00, 0x00];
    assert s[..3] == START && FrameLength(s) == 9 && s[..9] == s;
    assert s[5..8] == [0xD5, 0x15, 0x00];
    Sum8OfThree(0xD5, 0x15, 0x00);
    CollectorRefinesParse(s);
  }

  /** An oversize header cut short after seven bytes. */
  const CUT_HEADER: seq<byte> := START + [0xFF, 0xFF, 0x05, 0x00]

  lemma CutHeaderIsOversize()
    ensures ParseFrame(CUT_HEADER) == Oversize([])
  {
    assert CUT_HEADER[..3] == START && FrameLength(CUT_HEADER) == 0x50A;
  }

  lemma CutHeaderDiverges(command: byte)
    ensures TruncatedOversize(CUT_HEADER)
    ensures AsyncOutcome(command, CUT_HEADER) == Failure(Pn532FrameTooLarge)
    ensures BlockingOutcome(command, CUT_HEADER) == Failure(Pn532Timeout)
  {
    CutHeaderIsOversize();
    CollectorRefinesParse(CUT_HEADER);
  }

  /** The same behind the acknowledgement. */
  lemma CutAnswerDiverges(command: byte)
    ensures ParseFrame(ACK + CUT_HEADER) == Found(ACK, CUT_HEADER) && TruncatedOversize(CUT_HEADER)
    ensures AsyncOutcome(command, ACK + CUT_HEADER) == Failure(Pn532FrameTooLarge)
    ensures BlockingOutcome(command, ACK + CUT_HEADER) == Failure(Pn532Timeout)
  {
    BehindAck(command, [], CUT_HEADER);
    assert [] + (ACK + CUT_HEADER) == ACK + CUT_HEADER;
    CutHeaderIsOversize();
    CollectorRefinesParse(CUT_HEADER);
  }

  lemma Sum8OfThree(a: byte, b: byte, c: byte)
    ensures Sum8([a, b, c]) == Low8(Low8(a as int + b as int) as int + c as int)
  {
    Sum8Pair(a, b);
    assert [a, b, c][..2] == [a, b];
  }

  /** The cooperative executor gives the blocking executor's result, data or error, on every
      stream but those of `Diverges`, and on those only the error code differs. */
  lemma AsyncMatchesBlocking(command: byte, s: seq<byte>)
    ensures AsyncOutcome(command, s) == BlockingOutcome(command, s) <==> !Diverges(s)
    ensures AsyncOutcome(command, s).Success? <==> BlockingOutcome(command, s).Success?
  {
    CollectorRefinesParse(s);
    if ParseFrame(s).Found? && ParseFrame(s).frame == ACK {
      AnswersMatch(command, ParseFrame(s).rest);
    }
  }

  /** So a command polled over any split in time ends as the blocking executor would end it
      on the same bytes, wherever `Diverges` does not hold. */
  lemma AsyncRefinesBlocking(command: byte, responseTimeoutMs: u16, begun: u32, looks: seq<Look>, last: Look)
    requires InTime(Begun(command, responseTimeoutMs, begun), [], looks + [last]) && last.bytes == []
    requires !Diverges(Arrived(looks))
    ensures match Serve(Begun(command, responseTimeoutMs, begun), [], looks + [last])
            case Done(data, _) => BlockingOutcome(command, Arrived(looks)) == Success(data)
            case Failed(e, _, _) => BlockingOutcome(command, Arrived(looks)) == Failure(e)
            case Pending(_, _) => BlockingOutcome(command, Arrived(looks)) == Failure(Pn532Timeout)
  {
    SplitInvariance(command, responseTimeoutMs, begun, looks, last);
    AsyncMatchesBlocking(command, Arrived(looks));
  }

  lemma AnswersMatch(command: byte, s: seq<byte>)
    ensures AnswerVerdict(command, FRESH, s) == Answer(command, s) <==> !TruncatedOversize(s)
    ensures AnswerVerdict(command, FRESH, s).Success? <==> Answer(command, s).Success?
    ensures AnswerVerdict(command, FRESH, s).Success? ==> AnswerVerdict(command, FRESH, s) == Answer(command, s)
  {
    CollectorRefinesParse(s);
  }

  /** No extended frame is ever an answer, to either executor. */
  lemma ExtendedAnswersRejected(command: byte, s: seq<byte>)
    requires ParseFrame(s).Found? && IsExtended(ParseFrame(s).frame)
    ensures AnswerVerdict(command, FRESH, s) == Answer(command, s) == Failure(Pn532BadFrame)
  {
    CollectorRefinesParse(s);
    FoundIsWhole(s);
  }

  /** From chip to reader in one step: the acknowledgement and the response the chip builds
      for `data`, behind any noise, however they are spread over the passes, end the
      command with exactly `data`. */
  lemma ResponseSurvivesAnySplit(
    command: byte, responseTimeoutMs: u16, begun: u32, noise: seq<byte>, data: seq<byte>, more: seq<byte>,
    looks: seq<Look>, last: Look)
    requires Noise(noise) && |data| <= MAX_DATA
    requires Arrived(looks) == noise + (ACK + (Build(CHIP, Successor(command), data) + more))
    requires InTime(Begun(command, responseTimeoutMs, begun), [], looks + [last]) && last.bytes == []
    ensures Serve(Begun(command, responseTimeoutMs, begun), [], looks + [last]).Done?
    ensures Serve(Begun(command, responseTimeoutMs, begun), [], looks + [last]).data == data
  {
    SplitInvariance(command, responseTimeoutMs, begun, looks, last);
    OutcomeOfResponse(command, noise, data, more);
  }

  lemma OutcomeOfResponse(command: byte, noise: seq<byte>, data: seq<byte>, more: seq<byte>)
    requires Noise(noise) && |data| <= MAX_DATA
    ensures AsyncOutcome(command, noise + (ACK + (Build(CHIP, Successor(command), data) + more))) == Success(data)
  {
    var answer := Build(CHIP, Successor(command), data) + more;
    BehindAck(command, noise, answer);
    AnswerOfResponse(command, data, more, answer);
  }

  lemma AnswerOfResponse(command: byte, data: seq<byte>, more: seq<byte>, answer: seq<byte>)
    requires |data| <= MAX_DATA && answer == Build(CHIP, Successor(command), data) + more
    ensures AnswerVerdict(command, FRESH, answer) == Success(data)
  {
    BuildParseRoundTrip([], command, data, more);
    assert [] + Build(CHIP, Successor(command), data) + more == answer;
    CollectorRefinesParse(answer);
  }

  /** Behind the acknowledgement both executors judge the answer. */
  lemma BehindAck(command: byte, noise: seq<byte>, answer: seq<byte>)
    requires Noise(noise)
    ensures ParseFrame(noise + (ACK + answer)) == Found(ACK, answer)
    ensures AsyncOutcome(command, noise + (ACK + answer)) == AnswerVerdict(command, FRESH, answer)
    ensures BlockingOutcome(command, noise + (ACK + answer)) == Answer(command, answer)
  {
    AckIsFound(noise, answer);
    CollectorRefinesParse(noise + (ACK + answer));
  }

  lemma AckIsFound(noise: seq<byte>, rest: seq<byte>)
    requires Noise(noise)
    ensures ParseFrame(noise + (ACK + rest)) == Found(ACK, rest)
  {
    var t := ACK + rest;
    assert t[0..3] == START;
    ParseBehindNoise(noise, t);
    assert t[..6] == ACK && t[6..] == rest;
  }
}
