/** The controller's NFC transport: `write` keeps a frame, the next `read` has the reader
    execute it and returns its acknowledgement, and the one after returns the response. */
module Transport {
  import opened Words
  import opened Wrappers
  import opened Protocol
  import opened Pn532Frames
  import opened LocalCommands

  type Bytes = seq<byte>

  const ACK_LENGTH := 6

  /** What an EXECUTE request comes back with, should one be made. */
  datatype Reply = Combined(bytes: Bytes) | Raised

  datatype State = State(pendingWrite: Option<Bytes>, cachedResponse: Option<Bytes>)

  const CLEAR := State(None, None)

  datatype Op = Open | Close | Write(frame: Bytes) | Read(reply: Reply)

  datatype Outcome =
    | Silent
    | Acknowledged(sent: Bytes, acknowledgement: Bytes)
    | Failed(sent: Bytes)
    | Delivered(frame: Bytes)
    | NothingPending

  function Take(s: State, op: Op): (State, Outcome) {
    match op
    case Open => (CLEAR, Silent)
    case Close => (CLEAR, Silent)
    case Write(frame) => (s.(pendingWrite := Some(frame)), Silent)
    case Read(reply) =>
      if s.pendingWrite.Some? then
        if reply.Raised? || |reply.bytes| < ACK_LENGTH then (s.(pendingWrite := None), Failed(s.pendingWrite.value))
        else (State(None, Some(reply.bytes[ACK_LENGTH..])),
              Acknowledged(s.pendingWrite.value, reply.bytes[..ACK_LENGTH]))
      else if s.cachedResponse.None? then (s, NothingPending)
      else (s.(cachedResponse := None), Delivered(s.cachedResponse.value))
  }

  class WebSocketPn532Transport {
    var pendingWrite: Option<Bytes>
    var cachedResponse: Option<Bytes>

    constructor ()
      ensures Current() == CLEAR
    {
      pendingWrite, cachedResponse := None, None;
    }

    function Current(): State
      reads this
    {
      State(pendingWrite, cachedResponse)
    }

    /** `open` and `close`, as far as the buffered frames go. */
    method Reset()
      modifies this
      ensures Current() == Take(old(Current()), Open).0 == Take(old(Current()), Close).0
    {
      pendingWrite := None;
      cachedResponse := None;
    }

    method WriteFrame(frame: Bytes)
      modifies this`pendingWrite
      ensures Current() == Take(old(Current()), Write(frame)).0
    {
      pendingWrite := Some(frame);
    }

    method ReadFrame(reply: Reply) returns (outcome: Outcome)
      modifies this
      ensures (Current(), outcome) == Take(old(Current()), Read(reply))
    {
      if pendingWrite.Some? {
        var command := pendingWrite.value;
        pendingWrite := None;
        if reply.Raised? || |reply.bytes| < ACK_LENGTH {
          return Failed(command);
        }
        cachedResponse := Some(reply.bytes[ACK_LENGTH..]);
        return Acknowledged(command, reply.bytes[..ACK_LENGTH]);
      }
      if cachedResponse.None? {
        return NothingPending;
      }
      outcome := Delivered(cachedResponse.value);
      cachedResponse := None;
    }
  }

  // ----- Over every sequence of calls -----

  function Run(ops: seq<Op>, n: nat): State
    requires n <= |ops|
    decreases n
  {
    if n == 0 then CLEAR else Take(Run(ops, n - 1), ops[n - 1]).0
  }

  function OutcomeAt(ops: seq<Op>, n: nat): Outcome
    requires n < |ops|
  {
    Take(Run(ops, n), ops[n]).1
  }

  /** A frame is pending exactly between its write and the next call. */
  lemma PendingIsLastCall(ops: seq<Op>, n: nat, frame: Bytes)
    requires n <= |ops|
    ensures Run(ops, n).pendingWrite == Some(frame) <==> n > 0 && ops[n - 1] == Write(frame)
  {
  }

  /** A frame goes to the reader exactly when the call after its write is a read: every write
      is executed at most once, and only the last of several. */
  lemma SentOnce(ops: seq<Op>, n: nat, frame: Bytes)
    requires n < |ops|
    ensures (OutcomeAt(ops, n).Acknowledged? || OutcomeAt(ops, n).Failed?) && OutcomeAt(ops, n).sent == frame
            <==> n > 0 && ops[n - 1] == Write(frame) && ops[n].Read?
  {
  }

  /** The exchange at `i` is the last that succeeded before `n`, and its response is unread. */
  ghost predicate Unread(ops: seq<Op>, i: nat, n: nat)
    requires n <= |ops|
  {
    && i < n && OutcomeAt(ops, i).Acknowledged?
    && forall j | i < j < n :: !OutcomeAt(ops, j).Acknowledged? && !OutcomeAt(ops, j).Delivered? && !ops[j].Open? && !ops[j].Close?
  }

  lemma {:induction false} CachedIsUnread(ops: seq<Op>, n: nat) returns (i: nat)
    requires n <= |ops| && Run(ops, n).cachedResponse.Some?
    ensures Unread(ops, i, n)
    ensures ops[i].reply.bytes == OutcomeAt(ops, i).acknowledgement + Run(ops, n).cachedResponse.value
    decreases n
  {
    if OutcomeAt(ops, n - 1).Acknowledged? {
      i := n - 1;
    } else {
      i := CachedIsUnread(ops, n - 1);
    }
  }

  /** Every response read comes from the last exchange that succeeded, and nothing was lost
      of what the reader sent there.  It answers the last frame written if and only if no
      exchange has failed since. */
  lemma ResponseOfLastExchange(ops: seq<Op>, n: nat) returns (i: nat)
    requires n < |ops| && OutcomeAt(ops, n).Delivered?
    ensures Unread(ops, i, n)
    ensures ops[i].reply.bytes == OutcomeAt(ops, i).acknowledgement + OutcomeAt(ops, n).frame
    ensures i > 0 && ops[i - 1] == Write(OutcomeAt(ops, i).sent)
    ensures (forall j | i < j < n :: !ops[j].Write?) <==> (forall j | i < j < n :: !OutcomeAt(ops, j).Failed?)
  {
    i := CachedIsUnread(ops, n);
    SentOnce(ops, i, OutcomeAt(ops, i).sent);
    forall j | i < j < n && OutcomeAt(ops, j).Failed? ensures i < j - 1 && ops[j - 1].Write? {
      SentOnce(ops, j, OutcomeAt(ops, j).sent);
    }
    if j :| i < j < n && ops[j].Write? {
      var k := WriteThenFailure(ops, i, j, n);
    }
  }

  lemma AfterWrite(ops: seq<Op>, j: nat)
    requires j + 1 < |ops| && ops[j].Write?
    ensures !OutcomeAt(ops, j + 1).Delivered?
    ensures ops[j + 1].Read? ==> OutcomeAt(ops, j + 1).Acknowledged? || OutcomeAt(ops, j + 1).Failed?
  {
    PendingIsLastCall(ops, j + 1, ops[j].frame);
  }

  /** A write behind an unread response is not acknowledged before that response is read; so
      its exchange fails. */
  lemma {:induction false} WriteThenFailure(ops: seq<Op>, i: nat, j: nat, n: nat) returns (k: nat)
    requires n < |ops| && OutcomeAt(ops, n).Delivered? && Unread(ops, i, n) && i < j < n && ops[j].Write?
    ensures j < k < n && OutcomeAt(ops, k).Failed?
    decreases n - j
  {
    AfterWrite(ops, j);
    if ops[j + 1].Write? {
      k := WriteThenFailure(ops, i, j + 1, n);
    } else {
      k := j + 1;
    }
  }

  /** The case is real: the response of an earlier command is handed out for a later one whose
      exchange failed. */
  lemma StaleResponse(first: Bytes, second: Bytes, acknowledgement: Bytes, response: Bytes, any: Reply)
    requires |acknowledgement| == ACK_LENGTH
    ensures var ops := [Write(first), Read(Combined(acknowledgement + response)), Write(second), Read(Raised), Read(any)];
            OutcomeAt(ops, 3) == Failed(second) && OutcomeAt(ops, 4) == Delivered(response)
  {
  }

  // ----- Together with the reader -----

  /** What `request` makes of the reader's reply: the payload, or an exception. */
  function ReplyOf(m: ProtocolMessage): Reply {
    if m.code == TypeCode(MessageType.Response) then Combined(m.payload) else Raised
  }

  /** The EXECUTE request that `read` makes for a frame. */
  function ExecuteRequest(requestId: u32, timeoutMs: u16, frame: Bytes): ProtocolMessage {
    ProtocolMessage(TypeCode(Execute), requestId, timeoutMs, frame)
  }

  /** One exchange end to end, over every reply that the reader's handler may give: a frame
      written and then read twice gives exactly the acknowledgement and the whole frame behind
      it if the frame is not empty, the reader's parser accepts both, they fit its buffer and
      neither comes late; and otherwise it fails and leaves nothing new. */
  lemma ExchangeEndToEnd(ops: seq<Op>, frame: Bytes, id: u32, timeoutMs: u16, heard: seq<byte>, reply: ProtocolMessage, any: Reply)
    requires |frame| <= MAX_PAYLOAD && ExecuteAnswers(ExecuteRequest(id, timeoutMs, frame), heard, reply)
    ensures var all := ops + [Write(frame), Read(ReplyOf(reply)), Read(any)];
            if frame != [] && AcceptsBoth(heard) && reply != ErrorReply(id, Pn532Timeout) then
              && OutcomeAt(all, |ops| + 1) == Acknowledged(frame, ACK)
              && OutcomeAt(all, |ops| + 2) == Delivered(BlockingFrame(BlockingFrame(heard).rest).frame)
            else
              && OutcomeAt(all, |ops| + 1) == Failed(frame)
              && Run(all, |ops| + 2) == Run(all, |ops|).(pendingWrite := None)
  {
    ReplyToExchange(frame, id, timeoutMs, heard, reply);
    ThreeCalls(ops, Write(frame), Read(ReplyOf(reply)), Read(any));
  }

  lemma ThreeCalls(ops: seq<Op>, a: Op, b: Op, c: Op)
    ensures var all, n := ops + [a, b, c], |ops|; var s := Run(all, n);
            && Run(all, n + 1) == Take(s, a).0 && Run(all, n + 2) == Take(Take(s, a).0, b).0
            && OutcomeAt(all, n + 1) == Take(Take(s, a).0, b).1
            && OutcomeAt(all, n + 2) == Take(Take(Take(s, a).0, b).0, c).1
  {
    var all, n := ops + [a, b, c], |ops|;
    assert all[n] == a && all[n + 1] == b && all[n + 2] == c;
  }

  lemma ReplyToExchange(frame: Bytes, id: u32, timeoutMs: u16, heard: seq<byte>, reply: ProtocolMessage)
    requires ExecuteAnswers(ExecuteRequest(id, timeoutMs, frame), heard, reply)
    ensures if frame != [] && AcceptsBoth(heard) && reply != ErrorReply(id, Pn532Timeout) then
              var g := BlockingFrame(BlockingFrame(heard).rest).frame;
              ReplyOf(reply) == Combined(ACK + g) && (ACK + g)[..ACK_LENGTH] == ACK && (ACK + g)[ACK_LENGTH..] == g
            else ReplyOf(reply) == Raised
  {
  }

  /** The reader's parser takes an acknowledgement and then any whole frame from the chip. */
  predicate AcceptsBoth(chip: seq<byte>) {
    && BlockingFrame(chip).Got? && BlockingFrame(chip).frame == ACK
    && var next := BlockingFrame(BlockingFrame(chip).rest);
       next.Got? && |ACK| + |next.frame| <= MAX_FRAME
  }
}
