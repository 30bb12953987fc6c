/** The blocking side of the reader: `readPn532Frame` looping to a deadline over the serial
    line, and the commands that are executed on it from start to finish.

    The line and the clock are the environment: which bytes are there when the loop looks,
    and how far the clock moves between two looks, is arbitrary up to `gap`.  Only on a prompt
    line is every byte there when it is looked for. */
module LocalCommands {
  import opened Words
  import opened Wrappers
  import opened Protocol
  import opened Pn532Ring
  import opened Pn532Frames
  import opened FrameCollector

  const ACK_TIMEOUT_MS := 250
  const LEAST_TIMEOUT_MS := 50
  const LOCAL_RESPONSE_TIMEOUT_MS := 1500

  datatype Exchange = Exchange(command: byte, data: seq<byte>, timeoutMs: u16)

  datatype CommandResult = Success(data: seq<byte>) | Failure(error: ErrorCode)

  // ----- What the bytes alone determine -----

  datatype FrameRead = Got(frame: seq<byte>, rest: seq<byte>) | Refused(error: ErrorCode)

  /** The blocking parser's verdict on a stream, were no byte of it late.  It reads nine
      bytes of an oversize header before it gives up on it. */
  function BlockingFrame(s: seq<byte>): FrameRead {
    match ParseFrame(s)
    case Starved => Refused(Pn532Timeout)
    case Oversize(rest) => Refused(if |rest| >= 2 then Pn532FrameTooLarge else Pn532Timeout)
    case Found(f, rest) =>
      if f == ACK || IsExtended(f) || ValidNormal(f) then Got(f, rest) else Refused(Pn532BadFrame)
  }

  /** The blocking executor's verdict on everything the chip says to a command. */
  function BlockingOutcome(command: byte, s: seq<byte>): CommandResult {
    match BlockingFrame(s)
    case Refused(e) => Failure(e)
    case Got(f, rest) => if f == ACK then Answer(command, rest) else Failure(Pn532BadAck)
  }

  /** Its verdict on what follows the acknowledgement. */
  function Answer(command: byte, s: seq<byte>): CommandResult {
    match BlockingFrame(s)
    case Refused(e) => Failure(e)
    case Got(g, _) =>
      match ResponseData(g, command)
      case Nothing => Failure(Pn532BadFrame)
      case Data(data) => Success(data)
  }

  /** What EXECUTE makes of everything the chip says: the acknowledgement and the next
      frame, whole, whatever that frame is. */
  function ForwardedOutcome(s: seq<byte>): CommandResult {
    match BlockingFrame(s)
    case Refused(e) => Failure(e)
    case Got(f, rest) => if f == ACK then Forwarded(rest) else Failure(Pn532BadAck)
  }

  function Forwarded(s: seq<byte>): CommandResult {
    match BlockingFrame(s)
    case Refused(e) => Failure(e)
    case Got(g, _) => if |ACK| + |g| > MAX_FRAME then Failure(Pn532FrameTooLarge) else Success(ACK + g)
  }

  function ResultReply(requestId: u32, r: CommandResult): ProtocolMessage {
    match r
    case Success(data) => Reply(requestId, data)
    case Failure(e) => ErrorReply(requestId, e)
  }

  /** What the reader writes to the chip for one command. */
  function CommandFrame(e: Exchange): seq<byte> {
    Build(HOST, e.command, e.data)
  }

  const RF_FIELD_OFF := Exchange(0x32, [0x01, 0x02], 300)
  const POLL_TYPE_A := Exchange(0x4A, [0x01, 0x00], 500)
  const DETECTION_RETRIES := Exchange(0x32, [0x05, 0xFF, 0x01, 0x00], 300)
  const RF_TIMEOUTS := Exchange(0x32, [0x02, 0x0A, 0x0B, 0x08], 300)
  const BIT_FRAMING := Exchange(0x08, [0x63, 0x3D, 0x00], 300)

  function Broadcast(frame: seq<byte>): Exchange {
    Exchange(0x42, frame, 300)
  }

  /** The writes of a whole sweep, in three parts. */
  function OpeningWrites(): seq<seq<byte>> {
    [CommandFrame(RF_FIELD_OFF), CommandFrame(POLL_TYPE_A)]
  }

  function ConfigureWrites(): seq<seq<byte>> {
    [CommandFrame(DETECTION_RETRIES), CommandFrame(RF_TIMEOUTS), CommandFrame(BIT_FRAMING)]
  }

  function BroadcastWrites(frame: seq<byte>): seq<seq<byte>> {
    [CommandFrame(Broadcast(frame)), CommandFrame(RF_FIELD_OFF)]
  }

  function Reply(requestId: u32, payload: seq<byte>): ProtocolMessage {
    ProtocolMessage(TypeCode(Response), requestId, 0, payload)
  }

  function ErrorReply(requestId: u32, error: ErrorCode): ProtocolMessage {
    ProtocolMessage(TypeCode(ErrorResponse), requestId, 0, [ErrorByte(error)])
  }

  // ----- The serial line -----

  class SerialLink {
    const ring: Ring
    const ackFrame: array<byte>
    const responseFrame: array<byte>
    const buffer: array<byte>
    const gap: nat
    const prompt: bool
    var arriving: seq<byte>   // what the chip's side of the line will still deliver
    var written: seq<seq<byte>>   // every write to the chip
    var clock: nat
    var waiting: bool
    ghost var unread: seq<byte>   // what a reader will be given next: ring first, then line
    ghost var passed: seq<byte>   // what has come over the line by now
    ghost var said: seq<byte>     // everything the chip has ever said

    ghost predicate Valid()
      reads this, ring, ring.slots
    {
      && ring.Valid()
      && ackFrame.Length == responseFrame.Length == MAX_FRAME
      && buffer.Length == HEADER_SIZE + MAX_PAYLOAD
      && ackFrame != responseFrame && ackFrame != buffer && responseFrame != buffer
      && ring.slots != ackFrame && ring.slots != responseFrame && ring.slots != buffer
      && 0 < gap < TWO_31
      && unread == ring.contents + arriving
      && said == passed + arriving
    }

    constructor (gap: nat, prompt: bool)
      requires 0 < gap < TWO_31
      ensures Valid() && unread == said == [] && written == [] && !waiting
    {
      ring := new Ring();
      ackFrame := new byte[MAX_FRAME](_ => 0);
      responseFrame := new byte[MAX_FRAME](_ => 0);
      buffer := new byte[HEADER_SIZE + MAX_PAYLOAD](_ => 0);
      this.gap := gap;
      this.prompt := prompt;
      arriving, written, clock, waiting := [], [], 0, false;
      unread, passed, said := [], [], [];
    }

    ghost predicate QuickOpening(h: seq<seq<byte>>)
      requires |h| == 7
    {
      Quick(h[0], ACK_TIMEOUT_MS) && Quick(h[1], ACK_TIMEOUT_MS)
    }

    ghost predicate QuickConfigure(h: seq<seq<byte>>)
      requires |h| == 7
    {
      QuickLimits(h) && Quick(h[4], ACK_TIMEOUT_MS)
    }

    ghost predicate QuickLimits(h: seq<seq<byte>>)
      requires |h| == 7
    {
      Quick(h[2], ACK_TIMEOUT_MS) && Quick(h[3], ACK_TIMEOUT_MS)
    }

    ghost predicate QuickBroadcast(h: seq<seq<byte>>)
      requires |h| == 7
    {
      Quick(h[5], ACK_TIMEOUT_MS) && Quick(h[6], ACK_TIMEOUT_MS)
    }

    /** On a prompt line `n` bytes have taken no more than their share of time since `began`. */
    ghost predicate OnTime(began: nat, n: nat)
      reads this`clock
    {
      prompt ==> clock <= began + Ticks(gap, n)
    }

    /** On a prompt line only the end of the bytes, or reading `n` of them, excuses a time-out. */
    ghost predicate Excused(began: nat, due: nat, n: nat)
      reads this`unread
    {
      prompt ==> unread == [] || due <= began + Ticks(gap, n)
    }

    /** The line is prompt and `heard` can be read before any deadline. */
    ghost predicate Quick(heard: seq<byte>, limit: nat) {
      prompt && Ticks(gap, |heard|) < limit
    }

    /** `yield()`: the clock moves on. */
    method Yield()
      requires gap > 0
      modifies this`clock
      ensures old(clock) < clock <= old(clock) + gap
    {
      var pause: nat :| 0 < pause <= gap;
      clock := clock + pause;
    }

    /** `int32_t(deadline - millis()) > 0`, which decides the true order of the two instants. */
    method Before(deadline: u32, ghost due: nat) returns (before: bool)
      requires Valid()
      requires deadline == Millis(due) && due < clock + TWO_31 && clock <= due + gap
      ensures before <==> clock < due
    {
      SignTestExact(clock, due);
      before := Signed(Elapsed(deadline, Millis(clock))) > 0;
    }

    /** One look: the ring first, then the line, where a byte may or may not be there yet. */
    method Look() returns (got: bool, value: byte)
      requires Valid()
      modifies this`arriving, this`passed, this`unread, ring
      ensures Valid()
      ensures if got then old(unread) == [value] + unread else unread == old(unread)
      ensures prompt && old(unread) != [] ==> got
    {
      got, value := ring.Pop();
      if got {
        Associate([value], ring.contents, arriving);
        unread := ring.contents + arriving;
        return;
      }
      got, value := LookAtLine();
    }

    method LookAtLine() returns (got: bool, value: byte)
      requires Valid() && ring.contents == []
      modifies this`arriving, this`passed, this`unread
      ensures Valid()
      ensures if got then old(unread) == [value] + unread else unread == old(unread)
      ensures prompt && old(unread) != [] ==> got
    {
      assert unread == arriving;
      var chance: bool := *;
      var available := prompt || chance;
      got := available && arriving != [];
      value := 0;
      if got {
        value := arriving[0];
        MoveByte(passed, value, arriving[1..]);
        passed := passed + [value];
        arriving := arriving[1..];
        unread := arriving;
        assert ring.contents + arriving == arriving;
      }
    }

    method ReadByteUntil(deadline: u32, ghost due: nat) returns (got: bool, value: byte)
      requires Valid()
      requires deadline == Millis(due) && due < clock + TWO_31 && clock <= due + gap
      modifies this`arriving, this`passed, this`clock, this`unread, ring
      ensures Valid()
      ensures got ==> old(unread) == [value] + unread && clock < due
      ensures !got ==> unread == old(unread) && due <= clock
      ensures prompt && got ==> clock == old(clock)
      ensures prompt && !got ==> unread == [] || due <= old(clock)
      ensures old(clock) <= clock <= due + gap
    {
      value := 0;
      var open := Before(deadline, due);
      while open
        invariant Valid() && unread == old(unread)
        invariant old(clock) <= clock <= due + gap
        invariant prompt && unread != [] ==> clock == old(clock)
        invariant open <==> clock < due
        decreases due - clock
      {
        got, value := Look();
        if got {
          return;
        }
        Yield();
        open := Before(deadline, due);
      }
      got := false;
    }

    /** Reads `count` more bytes of a frame.  The destination's size is checked before every
        byte, so no count the line can announce writes past it. */
    method ReadExact(destination: array<byte>, count: nat, start: nat, deadline: u32, ghost due: nat, ghost began: nat)
      returns (complete: bool, position: nat)
      requires Valid() && OnTime(began, start)
      requires destination == ackFrame || destination == responseFrame
      requires start <= MAX_FRAME
      requires deadline == Millis(due) && due < clock + TWO_31 && clock <= due + gap
      modifies this`arriving, this`passed, this`clock, this`unread, ring, destination
      ensures Valid()
      ensures start <= position <= MAX_FRAME
      ensures destination[..start] == old(destination[..start])
      ensures destination[..position] + unread == old(destination[..start] + unread)
      ensures complete ==> position == start + count
      ensures !complete ==> position < start + count && (due <= clock || position == MAX_FRAME)
      ensures complete ==> OnTime(began, position)
      ensures !complete ==> position == MAX_FRAME || Excused(began, due, position)
      ensures old(clock) <= clock <= due + gap
    {
      complete, position := true, start;
      ghost var all := destination[..start] + unread;
      while complete && position < start + count
        invariant start <= position <= MAX_FRAME && position <= start + count
        invariant Valid() && destination[..position] + unread == all
        invariant complete ==> OnTime(began, position)
        invariant !complete ==> position < start + count && (due <= clock || position == MAX_FRAME)
        invariant !complete ==> position == MAX_FRAME || Excused(began, due, position)
        invariant old(clock) <= clock <= due + gap
        decreases start + count - position, if complete then 1 else 0
      {
        complete, position := ReadNext(destination, position, deadline, due, began);
      }
      HeadStays(destination[..position], unread, old(destination[..start]), old(unread));
    }

    /** One turn of that loop. */
    method ReadNext(destination: array<byte>, start: nat, deadline: u32, ghost due: nat, ghost began: nat)
      returns (going: bool, position: nat)
      requires Valid() && OnTime(began, start) && start <= MAX_FRAME
      requires destination == ackFrame || destination == responseFrame
      requires deadline == Millis(due) && due < clock + TWO_31 && clock <= due + gap
      modifies this`arriving, this`passed, this`clock, this`unread, ring, destination
      ensures Valid() && position <= MAX_FRAME
      ensures destination[..position] + unread == old(destination[..start] + unread)
      ensures going ==> position == start + 1 && OnTime(began, position)
      ensures !going ==> position == start && (position == MAX_FRAME || (due <= clock && Excused(began, due, position)))
      ensures old(clock) <= clock <= due + gap
    {
      if start >= MAX_FRAME {
        return false, start;
      }
      going := ReadOne(destination, start, deadline, due);
      if !going {
        return false, start;
      }
      position := start + 1;
      Yield();
    }

    /** One byte of a frame, where there is room for it. */
    method ReadOne(destination: array<byte>, position: nat, deadline: u32, ghost due: nat) returns (got: bool)
      requires Valid() && position < MAX_FRAME
      requires destination == ackFrame || destination == responseFrame
      requires deadline == Millis(due) && due < clock + TWO_31 && clock <= due + gap
      modifies this`arriving, this`passed, this`clock, this`unread, ring, destination
      ensures Valid() && destination[..position] == old(destination[..position])
      ensures got ==> destination[..position + 1] + unread == old(destination[..position] + unread) && clock < due
      ensures !got ==> unread == old(unread) && due <= clock
      ensures prompt && got ==> clock == old(clock)
      ensures prompt && !got ==> unread == [] || due <= old(clock)
      ensures old(clock) <= clock <= due + gap
    {
      ghost var before := destination[..position];
      var value;
      got, value := ReadByteUntil(deadline, due);
      if got {
        destination[position] := value;
        assert destination[..position + 1] == before + [value];
        MoveByte(before, value, unread);
      }
    }

    /** Finds the start code, tolerating extra zero preamble. */
    method FindStart(deadline: u32, ghost due: nat) returns (found: bool, ghost skipped: seq<byte>)
      requires Valid()
      requires deadline == Millis(due) && due < clock + TWO_31 && clock <= due + gap
      modifies this`arriving, this`passed, this`clock, this`unread, ring
      ensures Valid()
      ensures found ==> Noise(skipped) && old(unread) == skipped + START + unread
      ensures !found ==> due <= clock && Noise(skipped) && old(unread) == skipped + unread
      ensures prompt && found ==> clock == old(clock)
      ensures prompt && !found ==> unread == [] || due <= old(clock)
      ensures old(clock) <= clock <= due + gap
    {
      var syncState := 0;
      ghost var seen: seq<byte> := [];
      var open := Before(deadline, due);
      while open
        invariant Valid()
        invariant Hunting(seen, syncState) && old(unread) == seen + unread
        invariant prompt ==> clock == old(clock)
        invariant old(clock) <= clock <= due + gap
        invariant open <==> clock < due
        decreases |unread|, due - clock
      {
        var got, value := ReadByteUntil(deadline, due);
        if !got {
          return false, seen;
        }
        MoveByte(seen, value, unread);
        HuntIsExact(seen, syncState, value);
        syncState := Hunt(syncState, value);
        if syncState == 3 {
          return true, seen[..|seen| - 2];
        }
        seen := seen + [value];
        open := Before(deadline, due);
      }
      return false, seen;
    }

    /** The length bytes of an extended frame, whose first six bytes are there. */
    method ReadExtended(output: array<byte>, deadline: u32, ghost due: nat, ghost began: nat)
      returns (length: nat, failed: Option<ErrorCode>)
      requires Valid() && OnTime(began, 6)
      requires output == ackFrame || output == responseFrame
      requires StartsFrame(output[..6]) && IsExtended(output[..6])
      requires deadline == Millis(due) && due < clock + TWO_31 && clock <= due + gap
      modifies this`arriving, this`passed, this`clock, this`unread, ring, output
      ensures Valid() && 3 <= length <= MAX_FRAME
      ensures output[..length] + unread == old(output[..6] + unread)
      ensures BodyVerdict(output[..length], failed)
      ensures failed == Some(Pn532Timeout) ==> due <= clock && Excused(began, due, length)
      ensures old(clock) <= clock <= due + gap
    {
      var complete: bool;
      ghost var header := output[..6];
      complete, length := ReadExact(output, 3, 6, deadline, due, began);
      if !complete {
        assert output[..length][..6] == header;
        CutHeader(header, output[..length]);
        return length, Some(Pn532Timeout);
      }
      assert output[..9][..6] == output[..6];
      length, failed := ReadExtendedBody(output, deadline, due, began);
    }

    /** The body of an extended frame, whose first nine bytes are there. */
    method ReadExtendedBody(output: array<byte>, deadline: u32, ghost due: nat, ghost began: nat)
      returns (length: nat, failed: Option<ErrorCode>)
      requires Valid() && OnTime(began, 9)
      requires output == ackFrame || output == responseFrame
      requires StartsFrame(output[..9]) && IsExtended(output[..9])
      requires deadline == Millis(due) && due < clock + TWO_31 && clock <= due + gap
      modifies this`arriving, this`passed, this`clock, this`unread, ring, output
      ensures Valid() && 3 <= length <= MAX_FRAME
      ensures output[..length] + unread == old(output[..9] + unread)
      ensures BodyVerdict(output[..length], failed)
      ensures failed == Some(Pn532Timeout) ==> due <= clock && Excused(began, due, length)
      ensures old(clock) <= clock <= due + gap
    {
      var dataLength := output[5] as int * 0x100 + output[6] as int;
      if dataLength + 10 > MAX_FRAME {
        ExtendedVerdict(output[..9]);
        return 9, Some(Pn532FrameTooLarge);
      }
      ghost var header := output[..9];
      var complete: bool;
      complete, length := ReadExact(output, dataLength + 1, 9, deadline, due, began);
      assert output[..length][..9] == header;
      HeaderSays(header, output[..length]);
      if !complete {
        return length, Some(Pn532Timeout);
      }
      ExtendedVerdict(output[..length]);
      return length, None;
    }

    /** The body of a normal frame, whose first six bytes are there. */
    method ReadNormal(output: array<byte>, deadline: u32, ghost due: nat, ghost began: nat)
      returns (length: nat, failed: Option<ErrorCode>)
      requires Valid() && OnTime(began, 6)
      requires output == ackFrame || output == responseFrame
      requires StartsFrame(output[..6]) && !IsExtended(output[..6])
      requires !(output[3] == 0x00 && output[4] == 0xFF && output[5] == 0x00)
      requires deadline == Millis(due) && due < clock + TWO_31 && clock <= due + gap
      modifies this`arriving, this`passed, this`clock, this`unread, ring, output
      ensures Valid() && 3 <= length <= MAX_FRAME
      ensures output[..length] + unread == old(output[..6] + unread)
      ensures BodyVerdict(output[..length], failed)
      ensures failed == Some(Pn532Timeout) ==> due <= clock && Excused(began, due, length)
      ensures old(clock) <= clock <= due + gap
    {
      var dataLength: nat := output[3];
      ghost var header := output[..6];
      var complete: bool;
      complete, length := ReadExact(output, dataLength + 1, 6, deadline, due, began);
      if !complete {
        assert output[..length][..6] == header;
        CutHeader(header, output[..length]);
        return length, Some(Pn532Timeout);
      }
      NormalVerdict(output[..length]);
      var valid := ValidateNormalFrame(output, length);
      return length, if valid then None else Some(Pn532BadFrame);
    }

    /** Collects the frame behind the start code, whose bytes are already in `output`. */
    method ReadBody(output: array<byte>, deadline: u32, ghost due: nat, ghost began: nat)
      returns (length: nat, failed: Option<ErrorCode>)
      requires Valid() && OnTime(began, 3)
      requires output == ackFrame || output == responseFrame
      requires output[..3] == START
      requires deadline == Millis(due) && due < clock + TWO_31 && clock <= due + gap
      modifies this`arriving, this`passed, this`clock, this`unread, ring, output
      ensures Valid() && 3 <= length <= MAX_FRAME
      ensures output[..length] + unread == START + old(unread)
      ensures BodyVerdict(output[..length], failed)
      ensures failed == Some(Pn532Timeout) ==> due <= clock && Excused(began, due, length)
      ensures old(clock) <= clock <= due + gap
    {
      length := 3;
      var complete: bool;
      complete, length := ReadExact(output, 3, length, deadline, due, began);
      if !complete {
        return length, Some(Pn532Timeout);
      }
      if output[3] == 0x00 && output[4] == 0xFF && output[5] == 0x00 {
        AckVerdict(output[..length]);
        return length, None;
      }
      if output[3] == 0xFF && output[4] == 0xFF {
        length, failed := ReadExtended(output, deadline, due, began);
        return;
      }
      length, failed := ReadNormal(output, deadline, due, began);
    }

    /** `readPn532Frame`: for every timing, the frame it returns is the one the stream
        holds, with the stream left just behind it; it refuses a frame only for the
        stream's own fault or because the deadline has really passed; and it never
        overstays the deadline by more than one look at the clock. */
    method ReadFrame(timeoutMs: u16, output: array<byte>) returns (length: nat, failed: Option<ErrorCode>)
      requires Valid()
      requires output == ackFrame || output == responseFrame
      modifies this`arriving, this`passed, this`clock, this`unread, ring, output
      ensures Valid() && length <= MAX_FRAME
      ensures failed.None? ==> BlockingFrame(old(unread)) == Got(output[..length], unread)
      ensures failed.Some? && failed.value != Pn532Timeout ==> BlockingFrame(old(unread)) == Refused(failed.value)
      ensures failed == Some(Pn532Timeout) ==> old(clock) + Patience(timeoutMs) <= clock
      ensures failed == Some(Pn532Timeout) && Quick(old(unread), Patience(timeoutMs)) ==> BlockingFrame(old(unread)) == Refused(Pn532Timeout)
      ensures old(clock) <= clock <= old(clock) + Patience(timeoutMs) + gap
    {
      ghost var due := clock + Patience(timeoutMs);
      var deadline := Later(Millis(clock), Patience(timeoutMs));
      LaterIsMillis(clock, Patience(timeoutMs));
      ghost var began := clock;
      var found, skipped := FindStart(deadline, due);
      if !found {
        CutShortStarves(skipped, []);
        StarvedIfQuick(skipped, [], began, due);
        return 0, Some(Pn532Timeout);
      }
      output[0], output[1], output[2] := 0x00, 0x00, 0xFF;
      ghost var stream := skipped + START + unread;
      Associate(skipped, START, unread);
      length, failed := ReadBody(output, deadline, due, began);
      assert stream == skipped + (output[..length] + unread);
      if failed != Some(Pn532Timeout) {
        BodyDecides(stream, skipped, output[..length], unread, failed);
      } else {
        CutShortStarves(skipped, output[..length]);
        StarvedIfQuick(skipped, output[..length], began, due);
      }
    }

    /** An excused time-out on a stream that is quick to read means that all of it was read. */
    lemma StarvedIfQuick(skipped: seq<byte>, f: seq<byte>, began: nat, due: nat)
      requires began <= due && Excused(began, due, |f|) && BlockingFrame(skipped + f) == Refused(Pn532Timeout)
      ensures Quick(skipped + (f + unread), due - began) ==> BlockingFrame(skipped + (f + unread)) == Refused(Pn532Timeout)
    {
      if unread == [] {
        assert f + unread == f;
      } else {
        TicksGrow(gap, |f|, |skipped + (f + unread)|);
      }
    }

    // ----- Whole commands -----

    /** Empties the ring and throws away what the line holds at this moment. */
    method ClearInput()
      requires Valid()
      modifies this`arriving, this`passed, this`unread, ring
      ensures Valid()
      ensures ring.contents == [] && unread == arriving
      ensures IsSuffix(arriving, old(arriving))
    {
      ring.Clear();
      var there: nat :| there <= |arriving|;
      assert Glue(arriving[..there], arriving[there..]) == arriving;
      Associate(passed, arriving[..there], arriving[there..]);
      passed := passed + arriving[..there];
      arriving := arriving[there..];
      unread := arriving;
    }

    /** Writes to the chip, which will answer `reply`, bytes already under way arriving first. */
    method Send(frame: seq<byte>, reply: seq<byte>)
      requires Valid()
      modifies this`arriving, this`passed, this`unread, this`said, this`written
      ensures Valid()
      ensures written == old(written) + [frame] && unread == old(unread) + reply && said == old(said) + reply
    {
      Associate(ring.contents, arriving, reply);
      Associate(passed, arriving, reply);
      written := written + [frame];
      arriving := arriving + reply;
      unread := unread + reply;
      said := said + reply;
    }

    /** Clears the input and writes; what will be heard is the answer, behind at most bytes that
        were still on the line. */
    method Transmit(frame: seq<byte>, reply: seq<byte>) returns (ghost heard: seq<byte>)
      requires Valid()
      modifies this`arriving, this`passed, this`unread, this`said, this`written, ring
      ensures Valid() && unread == heard && Hears(heard, reply, old(arriving) + reply)
      ensures written == old(written) + [frame] && said == old(said) + reply
    {
      ClearInput();
      LineIsHeard(arriving, old(arriving), reply);
      Send(frame, reply);
      heard := unread;
    }

    /** `executeLocalPn532Command` up to and including the acknowledgement. */
    method Acknowledge(e: Exchange, reply: seq<byte>)
      returns (failed: Option<ErrorCode>, ghost heard: seq<byte>)
      requires Valid() && |e.data| <= 255
      modifies this`arriving, this`passed, this`clock, this`unread, this`said, this`written, ring, ackFrame, buffer
      ensures Valid()
      ensures Hears(heard, reply, old(arriving) + reply) && said == old(said) + reply
      ensures written == old(written) + [CommandFrame(e)]
      ensures failed.None? ==> BlockingFrame(heard) == Got(ACK, unread)
      ensures failed.Some? && failed.value != Pn532Timeout ==> BlockingOutcome(e.command, heard) == Failure(failed.value)
      ensures failed.Some? && Quick(heard, ACK_TIMEOUT_MS) ==> BlockingOutcome(e.command, heard) == Failure(failed.value)
      ensures failed == Some(Pn532Timeout) ==> old(clock) + ACK_TIMEOUT_MS <= clock
      ensures old(clock) <= clock <= old(clock) + ACK_TIMEOUT_MS + gap
    {
      var n := WriteCommandFrame(buffer, e.command, e.data);
      heard := Transmit(buffer[..n], reply);
      AckDecides(heard, e.command);
      failed := AwaitAck(ACK_TIMEOUT_MS);
    }

    /** Reads a frame that has to be the acknowledgement. */
    method AwaitAck(timeoutMs: u16) returns (failed: Option<ErrorCode>)
      requires Valid()
      modifies this`arriving, this`passed, this`clock, this`unread, ring, ackFrame
      ensures Valid()
      ensures failed.None? ==> BlockingFrame(old(unread)) == Got(ACK, unread) && ackFrame[..6] == ACK
      ensures failed.Some? && failed.value != Pn532Timeout ==> AckFailure(old(unread)) == failed
      ensures failed.Some? && Quick(old(unread), Patience(timeoutMs)) ==> AckFailure(old(unread)) == failed
      ensures failed == Some(Pn532Timeout) ==> old(clock) + Patience(timeoutMs) <= clock
      ensures old(clock) <= clock <= old(clock) + Patience(timeoutMs) + gap
    {
      var length;
      length, failed := ReadFrame(timeoutMs, ackFrame);
      if failed.None? && ackFrame[..length] != ACK {
        failed := Some(Pn532BadAck);
      }
    }

    /** The response of a command whose acknowledgement has been read. */
    method Respond(e: Exchange) returns (result: CommandResult)
      requires Valid() && |e.data| <= 255
      modifies this, ring, responseFrame
      ensures Valid() && !waiting && written == old(written) && said == old(said)
      ensures result == Failure(Pn532Timeout) || result == Answer(e.command, old(unread))
      ensures Quick(old(unread), Patience(e.timeoutMs)) ==> result == Answer(e.command, old(unread))
      ensures result == Failure(Pn532Timeout) ==> old(clock) + Patience(e.timeoutMs) <= clock
      ensures old(clock) <= clock <= old(clock) + Patience(e.timeoutMs) + gap
      ensures result.Success? ==> |result.data| <= MAX_DATA
    {
      ghost var s := unread;
      waiting := true;
      var length, failed := ReadFrame(e.timeoutMs, responseFrame);
      waiting := false;
      if failed.Some? {
        ClearInput();
        return Failure(failed.value);
      }
      AnswerFollowsTests(s, e.command);
      result := TestResponse(length, e.command);
    }

    /** The executor's tests on a collected response. */
    method TestResponse(length: nat, command: byte) returns (result: CommandResult)
      requires Valid() && length <= MAX_FRAME
      ensures result == Tested(responseFrame[..length], command)
    {
      if length < 9 || responseFrame[0] != 0x00 || responseFrame[1] != 0x00 || responseFrame[2] != 0xFF {
        return Failure(Pn532BadFrame);
      }
      var dataLength: nat := responseFrame[3];
      if dataLength < 2 || dataLength + 7 != length || responseFrame[5] != CHIP || responseFrame[6] != Successor(command) {
        return Failure(Pn532BadFrame);
      }
      assert responseFrame[..length][7..5 + dataLength] == responseFrame[7..5 + dataLength];
      return Success(responseFrame[7..5 + dataLength]);
    }

    /** What is left behind the first frame is quick to read if the whole is. */
    lemma QuickRest(heard: seq<byte>, rest: seq<byte>, limit: nat, longer: nat)
      requires BlockingFrame(heard).Got? && rest == BlockingFrame(heard).rest && limit <= longer
      ensures Quick(heard, limit) ==> Quick(rest, longer)
      ensures Quick(heard, limit) ==> Quick(heard, longer)
    {
      FoundIsWhole(heard);
      TicksGrow(gap, |rest|, |heard|);
    }

    /** `executeLocalPn532Command`: the result is what the chip's bytes determine, or a time-out
        once a deadline has passed, which on a prompt line with few enough bytes is never too
        early for them; and the time it takes is bounded. */
    method ExecuteLocal(e: Exchange, reply: seq<byte>)
      returns (result: CommandResult, ghost heard: seq<byte>)
      requires Valid() && |e.data| <= 255
      modifies this, ring, ackFrame, responseFrame, buffer
      ensures Valid()
      ensures Hears(heard, reply, old(arriving) + reply) && said == old(said) + reply
      ensures written == old(written) + [CommandFrame(e)]
      ensures result == Failure(Pn532Timeout) || result == BlockingOutcome(e.command, heard)
      ensures Quick(heard, Min(ACK_TIMEOUT_MS, Patience(e.timeoutMs))) ==> result == BlockingOutcome(e.command, heard)
      ensures result == Failure(Pn532Timeout) ==>
                || old(clock) + ACK_TIMEOUT_MS <= clock
                || (Acknowledged(heard) && old(clock) + Patience(e.timeoutMs) <= clock)
      ensures old(clock) <= clock <= old(clock) + ACK_TIMEOUT_MS + Patience(e.timeoutMs) + 2 * gap
      ensures !old(waiting) ==> !waiting
      ensures result.Success? ==> |result.data| <= MAX_DATA
    {
      var failed;
      failed, heard := Acknowledge(e, reply);
      if failed.Some? {
        return Failure(failed.value), heard;
      }
      QuickRest(heard, unread, Min(ACK_TIMEOUT_MS, Patience(e.timeoutMs)), Patience(e.timeoutMs));
      AckDecides(heard, e.command);
      result := Respond(e);
    }

    /** The `i`-th command of a sweep, left out once the `||` chain has failed.  `h` holds what
        has been heard for each command, of those left out whatever the chip would say. */
    method Then(previous: CommandResult, e: Exchange, i: nat, replies: seq<seq<byte>>, ghost start: seq<byte>, ghost before: seq<seq<byte>>)
      returns (result: CommandResult, ghost h: seq<seq<byte>>)
      requires Valid() && !waiting && |e.data| <= 255 && e.timeoutMs >= ACK_TIMEOUT_MS
      requires i < |replies| && HearsAll(before, replies, start)
      requires previous.Success? ==> said == Said(start, replies, i)
      modifies this, ring, ackFrame, responseFrame, buffer
      ensures Valid() && !waiting && HearsAll(h, replies, start) && h == before[i := h[i]]
      ensures previous.Failure? ==> result == previous && written == old(written)
      ensures previous.Success? ==> written == old(written) + [CommandFrame(e)]
      ensures previous.Success? ==> InTimeOrLate(result, BlockingOutcome(e.command, h[i]), Quick(h[i], ACK_TIMEOUT_MS), old(clock), clock)
      ensures result.Success? ==> |result.data| <= MAX_DATA && said == Said(start, replies, i + 1)
      ensures old(clock) <= clock <= old(clock) + ACK_TIMEOUT_MS + e.timeoutMs + 2 * gap
    {
      h := before;
      if previous.Failure? {
        return previous, h;
      }
      ghost var heard;
      ghost var gone, line := passed, arriving;
      result, heard := ExecuteLocal(e, replies[i]);
      HearsOfAll(heard, gone, line, replies[i]);
      HearsOneMore(before, replies, start, |before|, i, heard);
      h := before[i := heard];
    }

    /** Field off, then the poll. */
    method Open(replies: seq<seq<byte>>, ghost start: seq<byte>, ghost before: seq<seq<byte>>)
      returns (opening: CommandResult, ghost h: seq<seq<byte>>)
      requires Valid() && !waiting && |replies| == 7 && HearsAll(before, replies, start) && said == start
      modifies this, ring, ackFrame, responseFrame, buffer
      ensures Valid() && !waiting && HearsAll(h, replies, start)
      ensures InTimeOrLate(opening, OpeningOutcome(h), QuickOpening(h), old(clock), clock)
      ensures opening.Success? ==> |opening.data| <= MAX_DATA && said == Said(start, replies, 2)
      ensures opening.Success? ==> written == old(written) + OpeningWrites()
      ensures old(clock) <= clock <= old(clock) + 1300 + 4 * gap
    {
      var fieldOff;
      fieldOff, h := Then(Success([]), RF_FIELD_OFF, 0, replies, start, before);
      ghost var between := clock;
      opening, h := Then(fieldOff, POLL_TYPE_A, 1, replies, start, h);
      Chained(fieldOff, BlockingOutcome(0x32, h[0]), Quick(h[0], ACK_TIMEOUT_MS), opening, BlockingOutcome(0x4A, h[1]), Quick(h[1], ACK_TIMEOUT_MS),
              old(clock), between, clock);
    }

    /** Retries and timeouts. */
    method SetLimits(replies: seq<seq<byte>>, ghost start: seq<byte>, ghost before: seq<seq<byte>>)
      returns (result: CommandResult, ghost h: seq<seq<byte>>)
      requires Valid() && !waiting && |replies| == 7 && HearsAll(before, replies, start) && said == Said(start, replies, 2)
      modifies this, ring, ackFrame, responseFrame, buffer
      ensures Valid() && !waiting && HearsAll(h, replies, start) && h[..2] == before[..2]
      ensures InTimeOrLate(result, LimitsOutcome(h), QuickLimits(h), old(clock), clock)
      ensures result.Success? ==> said == Said(start, replies, 4)
      ensures result.Success? ==> written == old(written) + [CommandFrame(DETECTION_RETRIES), CommandFrame(RF_TIMEOUTS)]
      ensures old(clock) <= clock <= old(clock) + 1100 + 4 * gap
    {
      var retries;
      retries, h := Then(Success([]), DETECTION_RETRIES, 2, replies, start, before);
      ghost var between := clock;
      result, h := Then(retries, RF_TIMEOUTS, 3, replies, start, h);
      Chained(retries, BlockingOutcome(0x32, h[2]), Quick(h[2], ACK_TIMEOUT_MS), result, BlockingOutcome(0x32, h[3]), Quick(h[3], ACK_TIMEOUT_MS),
              old(clock), between, clock);
    }

    /** Retries, timeouts and framing. */
    method Configure(replies: seq<seq<byte>>, ghost start: seq<byte>, ghost before: seq<seq<byte>>)
      returns (result: CommandResult, ghost h: seq<seq<byte>>)
      requires Valid() && !waiting && |replies| == 7 && HearsAll(before, replies, start) && said == Said(start, replies, 2)
      modifies this, ring, ackFrame, responseFrame, buffer
      ensures Valid() && !waiting && HearsAll(h, replies, start) && h[..2] == before[..2]
      ensures InTimeOrLate(result, ConfigureOutcome(h), QuickConfigure(h), old(clock), clock)
      ensures result.Success? ==> said == Said(start, replies, 5)
      ensures result.Success? ==> written == old(written) + ConfigureWrites()
      ensures old(clock) <= clock <= old(clock) + 1650 + 6 * gap
    {
      var limits;
      limits, h := SetLimits(replies, start, before);
      ghost var between := clock;
      ghost var outcome, quick := LimitsOutcome(h), QuickLimits(h);
      result, h := Then(limits, BIT_FRAMING, 4, replies, start, h);
      Chained(limits, outcome, quick, result, BlockingOutcome(0x08, h[4]), Quick(h[4], ACK_TIMEOUT_MS), old(clock), between, clock);
    }

    /** The Home Key broadcast and field off. */
    method SendBroadcast(previous: CommandResult, frame: seq<byte>, replies: seq<seq<byte>>, ghost start: seq<byte>, ghost before: seq<seq<byte>>)
      returns (result: CommandResult, ghost h: seq<seq<byte>>)
      requires Valid() && !waiting && |frame| <= 255 && |replies| == 7 && HearsAll(before, replies, start)
      requires previous.Success? ==> said == Said(start, replies, 5)
      modifies this, ring, ackFrame, responseFrame, buffer
      ensures Valid() && !waiting && HearsAll(h, replies, start) && h[..5] == before[..5]
      ensures previous.Failure? ==> result == previous && written == old(written)
      ensures previous.Success? ==> InTimeOrLate(result, BroadcastOutcome(h), QuickBroadcast(h), old(clock), clock)
      ensures result.Success? ==> written == old(written) + BroadcastWrites(frame)
      ensures old(clock) <= clock <= old(clock) + 1100 + 4 * gap
    {
      var broadcast;
      broadcast, h := Then(previous, Broadcast(frame), 5, replies, start, before);
      ghost var between := clock;
      result, h := Then(broadcast, RF_FIELD_OFF, 6, replies, start, h);
      if previous.Success? {
        Chained(broadcast, BlockingOutcome(0x42, h[5]), Quick(h[5], ACK_TIMEOUT_MS), result, BlockingOutcome(0x32, h[6]), Quick(h[6], ACK_TIMEOUT_MS),
                old(clock), between, clock);
      }
    }

    /** The Home Key broadcast between configuring the chip and field off. */
    method Close(frame: seq<byte>, replies: seq<seq<byte>>, ghost start: seq<byte>, ghost before: seq<seq<byte>>)
      returns (closing: CommandResult, ghost h: seq<seq<byte>>)
      requires Valid() && !waiting && |frame| <= 255 && |replies| == 7
      requires HearsAll(before, replies, start) && said == Said(start, replies, 2)
      modifies this, ring, ackFrame, responseFrame, buffer
      ensures Valid() && !waiting && HearsAll(h, replies, start) && h[..2] == before[..2]
      ensures InTimeOrLate(closing, ClosingOutcome(h), QuickConfigure(h) && QuickBroadcast(h), old(clock), clock)
      ensures closing.Success? ==> written == old(written) + ConfigureWrites() + BroadcastWrites(frame)
      ensures old(clock) <= clock <= old(clock) + 2750 + 10 * gap
    {
      var configured;
      configured, h := Configure(replies, start, before);
      ghost var between := clock;
      ghost var outcome, quick := ConfigureOutcome(h), QuickConfigure(h);
      ghost var after := h;
      closing, h := SendBroadcast(configured, frame, replies, start, h);
      SameConfiguration(after, h);
      assert QuickConfigure(h) == quick by {
        FirstFive(after, h);
      }
      Chained(configured, outcome, quick, closing, BroadcastOutcome(h), QuickBroadcast(h), old(clock), between, clock);
    }

    /** The radio sweep: only without a target does the second half follow the first.  Each
        half's result is what the bytes heard determine, or a time-out once a deadline has
        passed; what is heard for a command is all the chip says to it, behind nothing but
        bytes it had said before. */
    method Sweep(frame: seq<byte>, replies: seq<seq<byte>>)
      returns (opening: CommandResult, closing: CommandResult, ghost h: seq<seq<byte>>)
      requires Valid() && !waiting && |frame| <= 255 && |replies| == 7
      modifies this, ring, ackFrame, responseFrame, buffer
      ensures Valid() && !waiting && HearsAll(h, replies, old(said))
      ensures InTimeOrLate(opening, OpeningOutcome(h), QuickOpening(h), old(clock), clock)
      ensures opening.Success? && !SeesTarget(opening) ==> InTimeOrLate(closing, ClosingOutcome(h), QuickConfigure(h) && QuickBroadcast(h), old(clock), clock)
      ensures opening.Success? ==> |opening.data| <= MAX_DATA
      ensures SeesTarget(opening) ==> written == old(written) + OpeningWrites()
      ensures opening.Success? && !SeesTarget(opening) && closing.Success?
          ==> written == old(written) + OpeningWrites() + ConfigureWrites() + BroadcastWrites(frame)
      ensures old(clock) <= clock <= old(clock) + SWEEP_BUDGET + 14 * gap
    {
      UnheardMayBeAnything(replies, said);
      opening, h := Open(replies, said, replies);
      closing := opening;
      if opening.Success? && !SeesTarget(opening) {
        closing, h := CloseAfter(opening, frame, replies, old(said), h, old(clock));
      }
    }

    /** The second half, after what the first has heard. */
    method CloseAfter(ghost opening: CommandResult, frame: seq<byte>, replies: seq<seq<byte>>, ghost start: seq<byte>, ghost before: seq<seq<byte>>, ghost began: nat)
      returns (closing: CommandResult, ghost h: seq<seq<byte>>)
      requires Valid() && !waiting && |frame| <= 255 && |replies| == 7 && began <= clock
      requires HearsAll(before, replies, start) && said == Said(start, replies, 2)
      requires opening.Success? && opening == OpeningOutcome(before)
      modifies this, ring, ackFrame, responseFrame, buffer
      ensures Valid() && !waiting && HearsAll(h, replies, start) && opening == OpeningOutcome(h) && QuickOpening(h) == QuickOpening(before)
      ensures InTimeOrLate(closing, ClosingOutcome(h), QuickConfigure(h) && QuickBroadcast(h), began, clock)
      ensures closing.Success? ==> written == old(written) + ConfigureWrites() + BroadcastWrites(frame)
      ensures old(clock) <= clock <= old(clock) + 2750 + 10 * gap
    {
      closing, h := Close(frame, replies, start, before);
      SameOpening(before, h);
    }

    /** `handleDiscover`: one reply, under the request's own id, within the sweep's budget: what
        the bytes heard determine, or a time-out once a deadline has passed.  "No target" means
        that all seven commands went out in order and succeeded; a target that the poll listed
        it and nothing was sent after the poll. */
    method HandleDiscover(m: ProtocolMessage, replies: seq<seq<byte>>)
      returns (reply: ProtocolMessage, ghost h: seq<seq<byte>>)
      requires Valid() && |replies| == 7
      modifies this, ring, ackFrame, responseFrame, buffer
      ensures Valid() && waiting == old(waiting) && HearsAll(h, replies, old(said))
      ensures old(waiting) || !(3 <= |m.payload| <= 64) ==>
                && reply == ErrorReply(m.requestId, if old(waiting) then Pn532Busy else BadMessage)
                && written == old(written)
      ensures !old(waiting) && 3 <= |m.payload| <= 64 ==>
                && (reply == DiscoverReply(m.requestId, OpeningOutcome(h), ClosingOutcome(h)) || reply == ErrorReply(m.requestId, Pn532Timeout))
                && (QuickOpening(h) && QuickConfigure(h) && QuickBroadcast(h) ==>
                      reply == DiscoverReply(m.requestId, OpeningOutcome(h), ClosingOutcome(h)))
                && (reply == ErrorReply(m.requestId, Pn532Timeout) ==> old(clock) + ACK_TIMEOUT_MS <= clock)
                && (reply == Reply(m.requestId, [0]) ==>
                      written == old(written) + OpeningWrites() + ConfigureWrites() + BroadcastWrites(m.payload))
                && (reply.code == TypeCode(Response) && reply.payload != [0] ==> written == old(written) + OpeningWrites())
      ensures old(clock) <= clock <= old(clock) + SWEEP_BUDGET + 14 * gap
    {
      if |m.payload| < 3 || |m.payload| > 64 || waiting {
        reply := ErrorReply(m.requestId, if waiting then Pn532Busy else BadMessage);
        h := replies;
        UnheardMayBeAnything(replies, said);
        return;
      }
      var opening, closing;
      opening, closing, h := Sweep(m.payload, replies);
      reply := DiscoverReply(m.requestId, opening, closing);
      ReplyOfSweep(m.requestId, opening, closing, OpeningOutcome(h), QuickOpening(h),
                   ClosingOutcome(h), QuickConfigure(h) && QuickBroadcast(h), old(clock), clock);
    }

    /** `handleExecute` once the command is accepted. */
    method Forward(m: ProtocolMessage, chip: seq<byte>) returns (result: CommandResult, ghost heard: seq<byte>)
      requires Valid() && !waiting
      modifies this, ring, ackFrame, responseFrame
      ensures Valid() && !waiting
      ensures written == old(written) + [m.payload] && Hears(heard, chip, old(arriving) + chip) && said == old(said) + chip
      ensures result == Failure(Pn532Timeout) || result == ForwardedOutcome(heard)
      ensures Quick(heard, Min(Patience(m.timeoutMs), LOCAL_RESPONSE_TIMEOUT_MS)) ==> result == ForwardedOutcome(heard)
      ensures result == Failure(Pn532Timeout) ==>
                || old(clock) + Patience(m.timeoutMs) <= clock
                || (Acknowledged(heard) && old(clock) + LOCAL_RESPONSE_TIMEOUT_MS <= clock)
      ensures old(clock) <= clock <= old(clock) + Patience(m.timeoutMs) + LOCAL_RESPONSE_TIMEOUT_MS + 2 * gap
    {
      heard := Transmit(m.payload, chip);
      result := ForwardUnread(m.timeoutMs);
    }

    /** The acknowledgement, then the response. */
    method ForwardUnread(timeoutMs: u16) returns (result: CommandResult)
      requires Valid() && !waiting
      modifies this, ring, ackFrame, responseFrame
      ensures Valid() && !waiting && written == old(written) && said == old(said)
      ensures result == Failure(Pn532Timeout) || result == ForwardedOutcome(old(unread))
      ensures Quick(old(unread), Min(Patience(timeoutMs), LOCAL_RESPONSE_TIMEOUT_MS)) ==> result == ForwardedOutcome(old(unread))
      ensures result == Failure(Pn532Timeout) ==>
                || old(clock) + Patience(timeoutMs) <= clock
                || (Acknowledged(old(unread)) && old(clock) + LOCAL_RESPONSE_TIMEOUT_MS <= clock)
      ensures old(clock) <= clock <= old(clock) + Patience(timeoutMs) + LOCAL_RESPONSE_TIMEOUT_MS + 2 * gap
    {
      AckDecides(unread, 0);
      var failed := AwaitAck(timeoutMs);
      if failed.Some? {
        return Failure(failed.value);
      }
      QuickRest(old(unread), unread, Min(Patience(timeoutMs), LOCAL_RESPONSE_TIMEOUT_MS), LOCAL_RESPONSE_TIMEOUT_MS);
      result := ForwardResponse(6);
    }

    /** Waits for the response locally and appends it to the acknowledgement. */
    method ForwardResponse(length: nat) returns (result: CommandResult)
      requires Valid() && length == 6 && ackFrame[..length] == ACK
      modifies this, ring, responseFrame
      ensures Valid() && !waiting && written == old(written) && said == old(said)
      ensures result == Failure(Pn532Timeout) || result == Forwarded(old(unread))
      ensures Quick(old(unread), LOCAL_RESPONSE_TIMEOUT_MS) ==> result == Forwarded(old(unread))
      ensures result == Failure(Pn532Timeout) ==> old(clock) + LOCAL_RESPONSE_TIMEOUT_MS <= clock
      ensures old(clock) <= clock <= old(clock) + LOCAL_RESPONSE_TIMEOUT_MS + gap
    {
      waiting := true;
      var responseLength, failed := ReadFrame(LOCAL_RESPONSE_TIMEOUT_MS, responseFrame);
      waiting := false;
      if failed.Some? {
        ClearInput();
        return Failure(failed.value);
      }
      if length + responseLength > MAX_FRAME {
        return Failure(Pn532FrameTooLarge);
      }
      return Success(ackFrame[..length] + responseFrame[..responseLength]);
    }

    /** `handleExecute`: one reply under the request's id, exactly what the chip's bytes
        determine or a time-out once a deadline has passed. */
    method HandleExecute(m: ProtocolMessage, chip: seq<byte>)
      returns (reply: ProtocolMessage, ghost heard: seq<byte>)
      requires Valid()
      modifies this, ring, ackFrame, responseFrame
      ensures Valid() && waiting == old(waiting)
      ensures old(waiting) || m.payload == [] ==> reply == ErrorReply(m.requestId, Pn532Busy) && written == old(written)
      ensures !old(waiting) ==> ExecuteAnswers(m, heard, reply)
      ensures !old(waiting) && m.payload != [] ==> written == old(written) + [m.payload] && Hears(heard, chip, old(arriving) + chip)
      ensures !old(waiting) && m.payload != [] && Quick(heard, Min(Patience(m.timeoutMs), LOCAL_RESPONSE_TIMEOUT_MS)) ==>
                reply == ResultReply(m.requestId, ForwardedOutcome(heard))
      ensures !old(waiting) && m.payload != [] && reply == ErrorReply(m.requestId, Pn532Timeout) ==>
                || old(clock) + Patience(m.timeoutMs) <= clock
                || (Acknowledged(heard) && old(clock) + LOCAL_RESPONSE_TIMEOUT_MS <= clock)
      ensures old(clock) <= clock <= old(clock) + Patience(m.timeoutMs) + LOCAL_RESPONSE_TIMEOUT_MS + 2 * gap
    {
      heard := chip;
      if m.payload == [] || waiting {
        return ErrorReply(m.requestId, Pn532Busy), heard;
      }
      var result;
      result, heard := Forward(m, chip);
      ExecuteReplies(m, result, heard);
      return ResultReply(m.requestId, result), heard;
    }
  }

  // ----- What whole commands need -----

  /** The bytes begin with an acknowledgement. */
  predicate Acknowledged(s: seq<byte>) {
    BlockingFrame(s).Got? && BlockingFrame(s).frame == ACK
  }

  /** Why the bytes do not begin with one. */
  function AckFailure(s: seq<byte>): Option<ErrorCode> {
    match BlockingFrame(s)
    case Refused(e) => Some(e)
    case Got(f, _) => if f == ACK then None else Some(Pn532BadAck)
  }

  lemma AckDecides(s: seq<byte>, command: byte)
    ensures AckFailure(s).Some? ==>
              BlockingOutcome(command, s) == ForwardedOutcome(s) == Failure(AckFailure(s).value)
    ensures AckFailure(s).None? ==>
              Acknowledged(s) && BlockingOutcome(command, s) == Answer(command, BlockingFrame(s).rest)
              && ForwardedOutcome(s) == Forwarded(BlockingFrame(s).rest)
  {
  }

  /** What EXECUTE may answer when the chip's bytes are `heard`. */
  predicate ExecuteAnswers(m: ProtocolMessage, heard: seq<byte>, reply: ProtocolMessage) {
    if m.payload == [] then reply == ErrorReply(m.requestId, Pn532Busy)
    else reply == ErrorReply(m.requestId, Pn532Timeout) || reply == ResultReply(m.requestId, ForwardedOutcome(heard))
  }

  lemma ExecuteReplies(m: ProtocolMessage, result: CommandResult, heard: seq<byte>)
    requires m.payload != [] && (result == Failure(Pn532Timeout) || result == ForwardedOutcome(heard))
    ensures ExecuteAnswers(m, heard, ResultReply(m.requestId, result))
    ensures ResultReply(m.requestId, result) == ErrorReply(m.requestId, Pn532Timeout) ==> result == Failure(Pn532Timeout)
  {
  }

  /** The result is `outcome`, or, unless the bytes were quick to read, it is a time-out; and a
      time-out only comes late. */
  predicate InTimeOrLate(result: CommandResult, outcome: CommandResult, quick: bool, began: nat, ended: nat) {
    && (result == outcome || (!quick && result == Failure(Pn532Timeout)))
    && (result == Failure(Pn532Timeout) ==> began + ACK_TIMEOUT_MS <= ended)
  }

  /** What is heard for a command: all of the chip's reply to it, behind bytes of what the chip
      had said before. */
  ghost predicate Hears(heard: seq<byte>, reply: seq<byte>, said: seq<byte>) {
    IsSuffix(reply, heard) && IsSuffix(heard, said)
  }

  /** What the chip has said after its first `n` replies. */
  function Said(start: seq<byte>, replies: seq<seq<byte>>, n: nat): seq<byte>
    requires n <= |replies|
  {
    if n == 0 then start else Said(start, replies, n - 1) + replies[n - 1]
  }

  ghost predicate HearsAll(h: seq<seq<byte>>, replies: seq<seq<byte>>, start: seq<byte>) {
    |h| == |replies| && HearsFirst(h, replies, start, |h|)
  }

  ghost predicate HearsFirst(h: seq<seq<byte>>, replies: seq<seq<byte>>, start: seq<byte>, n: nat)
    requires n <= |h| == |replies|
  {
    n == 0 || (HearsFirst(h, replies, start, n - 1) && Hears(h[n - 1], replies[n - 1], Said(start, replies, n)))
  }

  lemma {:induction false} HearsOneMore(h: seq<seq<byte>>, replies: seq<seq<byte>>, start: seq<byte>, n: nat, i: nat, heard: seq<byte>)
    requires n <= |h| == |replies| && HearsFirst(h, replies, start, n) && i < |h|
    requires Hears(heard, replies[i], Said(start, replies, i + 1))
    ensures HearsFirst(h[i := heard], replies, start, n)
  {
    if n > 0 {
      HearsOneMore(h, replies, start, n - 1, i, heard);
      assert h[i := heard][n - 1] == if i == n - 1 then heard else h[n - 1];
    }
  }

  lemma LineIsHeard(stray: seq<byte>, line: seq<byte>, reply: seq<byte>)
    requires IsSuffix(stray, line)
    ensures Hears(stray + reply, reply, line + reply)
  {
    var p :| Glue(p, stray) == line;
    assert Glue(p, stray + reply) == line + reply && Glue(stray, reply) == stray + reply;
  }

  lemma HearsOfAll(heard: seq<byte>, passed: seq<byte>, line: seq<byte>, reply: seq<byte>)
    requires Hears(heard, reply, line + reply)
    ensures Hears(heard, reply, (passed + line) + reply)
  {
    var p :| Glue(p, heard) == line + reply;
    Associate(passed, p, heard);
    Associate(passed, line, reply);
    assert Glue(passed + p, heard) == (passed + line) + reply;
  }

  /** For commands that are left out. */
  lemma UnheardMayBeAnything(replies: seq<seq<byte>>, start: seq<byte>)
    ensures HearsAll(replies, replies, start)
  {
    FirstMayBeAnything(replies, start, |replies|);
  }

  lemma {:induction false} FirstMayBeAnything(replies: seq<seq<byte>>, start: seq<byte>, n: nat)
    requires n <= |replies|
    ensures HearsFirst(replies, replies, start, n)
  {
    if n > 0 {
      FirstMayBeAnything(replies, start, n - 1);
      ReplyIsHeard(Said(start, replies, n - 1), replies[n - 1]);
    }
  }

  lemma ReplyIsHeard(before: seq<byte>, reply: seq<byte>)
    ensures Hears(reply, reply, before + reply)
  {
    assert Glue([], reply) == reply && Glue(before, reply) == before + reply;
  }

  function AndThen(first: CommandResult, second: CommandResult): CommandResult {
    if first.Failure? then first else second
  }

  /** In a chain a late command is late for the whole. */
  lemma Chained(
    previous: CommandResult, first: CommandResult, quickFirst: bool,
    result: CommandResult, second: CommandResult, quickSecond: bool, t0: nat, t1: nat, t2: nat)
    requires InTimeOrLate(previous, first, quickFirst, t0, t1) && t0 <= t1 <= t2
    requires previous.Failure? ==> result == previous
    requires previous.Success? ==> InTimeOrLate(result, second, quickSecond, t1, t2)
    ensures InTimeOrLate(result, AndThen(first, second), quickFirst && quickSecond, t0, t2)
  {
  }

  /** The verdicts of a sweep's parts on what is heard for its seven commands. */
  function OpeningOutcome(h: seq<seq<byte>>): CommandResult
    requires |h| == 7
  {
    AndThen(BlockingOutcome(0x32, h[0]), BlockingOutcome(0x4A, h[1]))
  }

  function ConfigureOutcome(h: seq<seq<byte>>): CommandResult
    requires |h| == 7
  {
    AndThen(LimitsOutcome(h), BlockingOutcome(0x08, h[4]))
  }

  function LimitsOutcome(h: seq<seq<byte>>): CommandResult
    requires |h| == 7
  {
    AndThen(BlockingOutcome(0x32, h[2]), BlockingOutcome(0x32, h[3]))
  }

  function BroadcastOutcome(h: seq<seq<byte>>): CommandResult
    requires |h| == 7
  {
    AndThen(BlockingOutcome(0x42, h[5]), BlockingOutcome(0x32, h[6]))
  }

  function ClosingOutcome(h: seq<seq<byte>>): CommandResult
    requires |h| == 7
  {
    AndThen(ConfigureOutcome(h), BroadcastOutcome(h))
  }

  lemma SameOpening(g: seq<seq<byte>>, h: seq<seq<byte>>)
    requires |g| == |h| == 7 && h[..2] == g[..2]
    ensures h[0] == g[0] && h[1] == g[1] && OpeningOutcome(h) == OpeningOutcome(g)
  {
    assert h[0] == h[..2][0] == g[0] && h[1] == h[..2][1] == g[1];
  }

  lemma SameConfiguration(g: seq<seq<byte>>, h: seq<seq<byte>>)
    requires |g| == |h| == 7 && h[..5] == g[..5]
    ensures ConfigureOutcome(h) == ConfigureOutcome(g) && h[..2] == g[..2]
  {
    assert forall i | 0 <= i < 5 :: h[i] == h[..5][i] && g[i] == g[..5][i];
  }

  lemma FirstFive(g: seq<seq<byte>>, h: seq<seq<byte>>)
    requires |g| == |h| == 7 && h[..5] == g[..5]
    ensures h[2] == g[2] && h[3] == g[3] && h[4] == g[4]
  {
    assert forall i | 0 <= i < 5 :: h[i] == h[..5][i] && g[i] == g[..5][i];
  }

  /** The reply is that of the outcomes, or a late time-out. */
  lemma ReplyOfSweep(
    requestId: u32, opening: CommandResult, closing: CommandResult, o: CommandResult, quickOpening: bool, c: CommandResult, quickClosing: bool,
    t0: nat, t1: nat)
    requires InTimeOrLate(opening, o, quickOpening, t0, t1)
    requires opening.Success? && !SeesTarget(opening) ==> InTimeOrLate(closing, c, quickClosing, t0, t1)
    ensures var reply := DiscoverReply(requestId, opening, closing);
            && (reply == DiscoverReply(requestId, o, c) || reply == ErrorReply(requestId, Pn532Timeout))
            && (quickOpening && quickClosing ==> reply == DiscoverReply(requestId, o, c))
            && (reply == ErrorReply(requestId, Pn532Timeout) ==> t0 + ACK_TIMEOUT_MS <= t1)
            && (reply == Reply(requestId, [0]) ==> opening.Success? && !SeesTarget(opening) && closing.Success?)
            && (reply.code == TypeCode(Response) && reply.payload != [0] ==> SeesTarget(opening))
  {
  }

  /** The reply to DISCOVER, from the results of the two halves of the sweep. */
  function DiscoverReply(requestId: u32, opening: CommandResult, closing: CommandResult): ProtocolMessage {
    if opening.Failure? then ErrorReply(requestId, opening.error)
    else if SeesTarget(opening) then Reply(requestId, [1] + opening.data)
    else if closing.Failure? then ErrorReply(requestId, closing.error)
    else Reply(requestId, [0])
  }

  /** The longest the seven commands of a sweep may wait for the chip. */
  const SWEEP_BUDGET := 4050

  function Glue(p: seq<byte>, t: seq<byte>): seq<byte> {
    p + t
  }

  ghost predicate IsSuffix(t: seq<byte>, s: seq<byte>) {
    exists p: seq<byte> :: Glue(p, t) == s
  }

  /** The poll lists at least one target. */
  predicate SeesTarget(opening: CommandResult) {
    opening.Success? && opening.data != [] && opening.data[0] > 0
  }

  /** The tests the executor makes on a response frame. */
  predicate PassesTests(f: seq<byte>, command: byte) {
    && 9 <= |f| && f[0] == 0x00 && f[1] == 0x00 && f[2] == 0xFF
    && 2 <= DataLength(f) && DataLength(f) + 7 == |f| && f[5] == CHIP && f[6] == Successor(command)
  }

  function Tested(f: seq<byte>, command: byte): (r: CommandResult)
    ensures r.Success? ==> |r.data| <= MAX_DATA
    ensures r != Failure(Pn532Timeout)
  {
    if PassesTests(f, command) then Success(f[7..5 + DataLength(f)]) else Failure(Pn532BadFrame)
  }

  /** On a frame from the blocking parser they come to exactly the test for a response to
      this command, so an extended frame never passes. */
  lemma ResponseTests(s: seq<byte>, command: byte)
    requires BlockingFrame(s).Got?
    ensures var f := BlockingFrame(s).frame;
            && (ResponseData(f, command).Data? <==> PassesTests(f, command))
            && (ResponseData(f, command).Data? ==> ResponseData(f, command).data == f[7..5 + DataLength(f)])
  {
    FoundIsWhole(s);
    var f := BlockingFrame(s).frame;
    assert f[..3] == [f[0], f[1], f[2]];
  }

  lemma AnswerFollowsTests(s: seq<byte>, command: byte)
    requires BlockingFrame(s).Got?
    ensures Answer(command, s) == Tested(BlockingFrame(s).frame, command)
  {
    ResponseTests(s, command);
  }

  // ----- What the body of a frame decides -----

  /** The time that `n` bytes may take, `gap` milliseconds each. */
  function Ticks(gap: nat, n: nat): nat {
    if n == 0 then 0 else Ticks(gap, n - 1) + gap
  }

  lemma {:induction false} TicksGrow(gap: nat, m: nat, n: nat)
    requires m <= n
    ensures Ticks(gap, m) <= Ticks(gap, n)
    decreases n
  {
    if m < n {
      TicksGrow(gap, m, n - 1);
    }
  }

  /** `max<uint16_t>(timeoutMs, 50)` */
  function Patience(timeoutMs: u16): nat {
    Max(timeoutMs, LEAST_TIMEOUT_MS)
  }

  /** What the blocking parser may say about the bytes `f` it has collected. */
  ghost predicate BodyVerdict(f: seq<byte>, failed: Option<ErrorCode>) {
    match failed
    case None => StartsFrame(f) && FrameLength(f) == |f| && (f == ACK || IsExtended(f) || ValidNormal(f))
    case Some(Pn532BadFrame) => StartsFrame(f) && FrameLength(f) == |f| && f != ACK && !IsExtended(f) && !ValidNormal(f)
    case Some(Pn532FrameTooLarge) => StartsFrame(f) && |f| == 9 && FrameLength(f) > MAX_FRAME
    case Some(e) => e == Pn532Timeout && CutShort(f)
  }

  /** What is there of a frame does not make it whole, and not yet too large. */
  predicate CutShort(f: seq<byte>) {
    StartsFrame(f) && (if FrameLength(f) > MAX_FRAME then |f| < 9 else FrameLength(f) == 0 || |f| < FrameLength(f))
  }

  predicate StartsFrame(f: seq<byte>) {
    3 <= |f| && f[..3] == START
  }

  lemma AckVerdict(f: seq<byte>)
    requires |f| == 6 && StartsFrame(f) && f[3] == 0x00 && f[4] == 0xFF && f[5] == 0x00
    ensures BodyVerdict(f, None)
  {
  }

  lemma NormalVerdict(f: seq<byte>)
    requires 6 <= |f| && StartsFrame(f) && !IsExtended(f) && DataLength(f) + 7 == |f|
    requires !(f[3] == 0x00 && f[4] == 0xFF && f[5] == 0x00)
    ensures BodyVerdict(f, if ValidNormal(f) then None else Some(Pn532BadFrame))
  {
  }

  lemma ExtendedVerdict(f: seq<byte>)
    requires 9 <= |f| && StartsFrame(f) && IsExtended(f)
    requires |f| == 0x100 * f[5] as int + f[6] as int + 10 <= MAX_FRAME
      || (|f| == 9 && 0x100 * f[5] as int + f[6] as int + 10 > MAX_FRAME)
    ensures BodyVerdict(f, if |f| == 9 then Some(Pn532FrameTooLarge) else None)
  {
  }

  /** The first six bytes go on holding. */
  lemma CutHeader(header: seq<byte>, f: seq<byte>)
    requires |header| == 6 <= |f| && f[..6] == header && StartsFrame(header)
    ensures StartsFrame(f) && f[3] == header[3] && f[4] == header[4] && f[5] == header[5]
  {
    assert forall i | 0 <= i < 6 :: f[i] == f[..6][i];
    assert f[..3] == header[..3];
  }

  /** A stream that ends in the middle of its first frame, or has none, is waited for in vain. */
  lemma CutShortStarves(skipped: seq<byte>, f: seq<byte>)
    requires Noise(skipped) && (f == [] || CutShort(f))
    ensures BlockingFrame(skipped + f) == Refused(Pn532Timeout)
  {
    if f == [] {
      assert skipped + f == skipped;
      NoiseHoldsNoFrame(skipped);
    } else {
      assert f[0..3] == f[..3];
      ParseBehindNoise(skipped, f);
    }
  }

  lemma HeaderSays(header: seq<byte>, f: seq<byte>)
    requires |header| == 9 <= |f| && f[..9] == header && StartsFrame(header) && IsExtended(header)
    ensures StartsFrame(f) && IsExtended(f) && f[5] == header[5] && f[6] == header[6]
  {
    assert forall i | 0 <= i < 9 :: f[i] == f[..9][i];
    assert f[..3] == header[..3];
  }

  lemma BodyDecides(stream: seq<byte>, skipped: seq<byte>, f: seq<byte>, rest: seq<byte>, failed: Option<ErrorCode>)
    requires Noise(skipped) && stream == skipped + (f + rest) && |f| <= MAX_FRAME
    requires BodyVerdict(f, failed) && failed != Some(Pn532Timeout)
    ensures BlockingFrame(stream) == match failed case None => Got(f, rest) case Some(e) => Refused(e)
  {
    var t := f + rest;
    assert t[0..3] == f[..3];
    ParseBehindNoise(skipped, t);
    HeaderDecides(f, rest);
    assert t[..|f|] == f && t[|f|..] == rest;
  }

  lemma Associate(a: seq<byte>, b: seq<byte>, c: seq<byte>)
    ensures (a + b) + c == a + (b + c)
  {
  }

  lemma HeadStays(f: seq<byte>, rest: seq<byte>, head: seq<byte>, tail: seq<byte>)
    requires f + rest == head + tail && |head| <= |f|
    ensures f[..|head|] == head
  {
    assert (f + rest)[..|head|] == f[..|head|] && (head + tail)[..|head|] == head;
  }

  lemma MoveByte(a: seq<byte>, value: byte, b: seq<byte>)
    ensures a + ([value] + b) == a + [value] + b
  {
  }
}
