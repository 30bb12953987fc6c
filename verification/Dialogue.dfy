/** DISCOVER with a chip that answers: what goes out to the chip, how long it may take, and what
    the controller reads from the reply. */
module ChipDialogue {
  import opened Words
  import opened Wrappers
  import opened Protocol
  import opened Pn532Frames
  import opened LocalCommands
  import opened AsyncCommands
  import W = ReaderWorker

  // ----- What goes out -----

  /** The seven commands of a sweep with the ECP frame `frame`, byte for byte: field off, poll for
      one card of type A, retries, RF timeouts and bit framing set, the frame sent, field off. */
  function SweepFrame(n: nat, frame: seq<byte>): seq<byte>
    requires n < 7
  {
    match n
    case 0 => Build(0xD4, 0x32, [0x01, 0x02])
    case 1 => Build(0xD4, 0x4A, [0x01, 0x00])
    case 2 => Build(0xD4, 0x32, [0x05, 0xFF, 0x01, 0x00])
    case 3 => Build(0xD4, 0x32, [0x02, 0x0A, 0x0B, 0x08])
    case 4 => Build(0xD4, 0x08, [0x63, 0x3D, 0x00])
    case 5 => Build(0xD4, 0x42, frame)
    case _ => Build(0xD4, 0x32, [0x01, 0x02])
  }

  lemma SweepSends(frame: seq<byte>)
    ensures OpeningWrites() == [SweepFrame(0, frame), SweepFrame(1, frame)]
    ensures ConfigureWrites() == [SweepFrame(2, frame), SweepFrame(3, frame), SweepFrame(4, frame)]
    ensures BroadcastWrites(frame) == [SweepFrame(5, frame), SweepFrame(6, frame)]
  {
  }

  /** The budget of a sweep is what its commands may wait: 250 ms each for the acknowledgement,
      and 500 ms for the answer to the poll and 300 ms for each of the others; and no command
      waits less than 50 ms for its answer.  EXECUTE looks for an answer for 1500 ms more. */
  lemma SweepTakes(frame: seq<byte>, timeoutMs: u16)
    ensures SWEEP_BUDGET == 7 * 250 + 6 * 300 + 500 && ACK_TIMEOUT_MS == 250 && LOCAL_RESPONSE_TIMEOUT_MS == 1500
    ensures POLL_TYPE_A.timeoutMs == 500 && RF_FIELD_OFF.timeoutMs == DETECTION_RETRIES.timeoutMs == 300
    ensures RF_TIMEOUTS.timeoutMs == BIT_FRAMING.timeoutMs == Broadcast(frame).timeoutMs == 300
    ensures Patience(timeoutMs) == if timeoutMs < 50 then 50 else timeoutMs as int
  {
  }

  // ----- What comes back -----

  /** Noise, an acknowledgement, a frame and more. */
  function Spoken(noise: seq<byte>, frame: seq<byte>, more: seq<byte>): seq<byte> {
    noise + (ACK + (frame + more))
  }

  ghost predicate Speaks(heard: seq<byte>, frame: seq<byte>) {
    exists noise, more :: Noise(noise) && heard == Spoken(noise, frame, more)
  }

  /** The chip acknowledges the command `code` and answers it with `data`, behind any noise. */
  ghost predicate ChipAnswers(heard: seq<byte>, code: byte, data: seq<byte>) {
    |data| <= 253 && Speaks(heard, Build(0xD5, Low8(code as int + 1), data))
  }

  /** The blocking executor takes from such bytes exactly the data, and from those of another
      command's answer nothing. */
  lemma AnswerIsTaken(heard: seq<byte>, code: byte, data: seq<byte>, command: byte)
    requires ChipAnswers(heard, code, data)
    ensures BlockingOutcome(command, heard) == if command == code then Success(data) else Failure(Pn532BadFrame)
  {
    var noise, more :| Noise(noise) && heard == Spoken(noise, Build(0xD5, Low8(code as int + 1), data), more);
    var answer := Build(CHIP, Successor(code), data) + more;
    BehindAck(command, noise, answer);
    BuiltIsAnswer(code, data, more, answer, command);
  }

  lemma BuiltIsAnswer(code: byte, data: seq<byte>, more: seq<byte>, answer: seq<byte>, command: byte)
    requires |data| <= MAX_DATA && answer == Build(CHIP, Successor(code), data) + more
    ensures Answer(command, answer) == if command == code then Success(data) else Failure(Pn532BadFrame)
  {
    BuildParseRoundTrip([], code, data, more);
    BuiltFrameShape(CHIP, Successor(code), data);
    assert [] + Build(CHIP, Successor(code), data) + more == answer;
    OtherSuccessor(code, command);
  }

  lemma OtherSuccessor(a: byte, b: byte)
    ensures Successor(a) == Successor(b) <==> a == b
  {
  }

  function SweepCode(n: nat): byte
    requires n < 7
  {
    match n
    case 1 => 0x4A
    case 4 => 0x08
    case 5 => 0x42
    case _ => 0x32
  }

  /** The chip answers the commands of a sweep, as far as they go, with the data `d`. */
  ghost predicate ChipServes(heard: seq<seq<byte>>, d: seq<seq<byte>>, upTo: nat) {
    |heard| == |d| == 7 && upTo <= 7 && forall n | 0 <= n < upTo :: ChipAnswers(heard[n], SweepCode(n), d[n])
  }

  lemma OpeningServed(heard: seq<seq<byte>>, d: seq<seq<byte>>)
    requires ChipServes(heard, d, 2)
    ensures OpeningOutcome(heard) == Success(d[1])
  {
    assert ChipAnswers(heard[0], SweepCode(0), d[0]) && ChipAnswers(heard[1], SweepCode(1), d[1]);
    AnswerIsTaken(heard[0], 0x32, d[0], 0x32);
    AnswerIsTaken(heard[1], 0x4A, d[1], 0x4A);
  }

  lemma ClosingServed(heard: seq<seq<byte>>, d: seq<seq<byte>>)
    requires ChipServes(heard, d, 7)
    ensures ClosingOutcome(heard) == Success(d[6])
  {
    forall n | 2 <= n < 7 ensures BlockingOutcome(SweepCode(n), heard[n]) == Success(d[n]) {
      AnswerIsTaken(heard[n], SweepCode(n), d[n], SweepCode(n));
    }
    assert SweepCode(2) == SweepCode(3) == SweepCode(6) == 0x32 && SweepCode(4) == 0x08 && SweepCode(5) == 0x42;
  }

  /** DISCOVER end to end, a card there: when the chip answers the field-off command and lists a
      card with a proper UID, the reply is RESPONSE, and the controller reads from it exactly
      the card that the chip listed. */
  lemma DiscoverFindsCard(requestId: u32, heard: seq<seq<byte>>, d: seq<seq<byte>>,
                          count: byte, sens: (byte, byte), sel: byte, uid: seq<byte>, more: seq<byte>)
    requires ChipServes(heard, d, 2) && count >= 1 && |uid| in {4, 7, 10}
    requires d[1] == [count, 1, sens.0, sens.1, sel, |uid|] + uid + more
    ensures var reply := DiscoverReply(requestId, OpeningOutcome(heard), ClosingOutcome(heard));
            && reply.code == 0x80 && reply.requestId == requestId
            && W.DecodeDiscovery(reply.payload) == Ok(Some(W.Target([sens.1, sens.0], [sel], uid + more)))
  {
    OpeningServed(heard, d);
    ListIsRead(d[1], count, sens, sel, uid, more);
    CardIsReplied(requestId, OpeningOutcome(heard), ClosingOutcome(heard), d[1]);
  }

  lemma ListIsRead(list: seq<byte>, count: byte, sens: (byte, byte), sel: byte, uid: seq<byte>, more: seq<byte>)
    requires count >= 1 && |uid| in {4, 7, 10} && list == [count, 1, sens.0, sens.1, sel, |uid|] + uid + more
    ensures list[0] > 0 && W.DecodeDiscovery([1] + list) == Ok(Some(W.Target([sens.1, sens.0], [sel], uid + more)))
  {
    var t := W.Target([sens.1, sens.0], [sel], uid + more);
    assert [1] + list == W.Discovery(count, sens, sel, uid, more);
    assert W.Describes([1] + list, t);
    W.DecodesTargetsOnly([1] + list, t);
  }

  lemma CardIsReplied(requestId: u32, opening: CommandResult, closing: CommandResult, list: seq<byte>)
    requires opening == Success(list) && list != [] && list[0] > 0
    ensures DiscoverReply(requestId, opening, closing) == ProtocolMessage(0x80, requestId, 0, [1] + list)
  {
  }

  lemma NoneIsReplied(requestId: u32, opening: CommandResult, closing: CommandResult)
    requires opening == Success([0]) && closing.Success?
    ensures DiscoverReply(requestId, opening, closing) == ProtocolMessage(0x80, requestId, 0, [0])
  {
  }

  /** And none there: when the chip lists nothing and answers all seven commands, the reply is
      RESPONSE and the controller reads that there is no card. */
  lemma DiscoverFindsNone(requestId: u32, heard: seq<seq<byte>>, d: seq<seq<byte>>)
    requires ChipServes(heard, d, 7) && d[1] == [0]
    ensures var reply := DiscoverReply(requestId, OpeningOutcome(heard), ClosingOutcome(heard));
            reply.code == 0x80 && reply.requestId == requestId && W.DecodeDiscovery(reply.payload) == Ok(None)
  {
    OpeningServed(heard, d);
    ClosingServed(heard, d);
    NoneIsReplied(requestId, OpeningOutcome(heard), ClosingOutcome(heard));
  }

  /** An answer that fits goes back behind the acknowledgement, whole, whatever the command was;
      one that does not fit the reader's 1100-byte buffer with it is refused. */
  lemma ExecuteForwards(noise: seq<byte>, answer: seq<byte>)
    requires Noise(noise) && BlockingFrame(answer).Got?
    ensures var g := BlockingFrame(answer).frame;
            ForwardedOutcome(noise + (ACK + answer)) ==
            if |g| <= 1094 then Success([0x00, 0x00, 0xFF, 0x00, 0xFF, 0x00] + g) else Failure(Pn532FrameTooLarge)
  {
    BehindAck(0, noise, answer);
  }
}
