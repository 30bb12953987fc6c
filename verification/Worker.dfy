/** The controller's worker for one reader: how it reads a discovered target, when it hands
    the reader back, when repeated failures end a session and how long it then waits. */
module ReaderWorker {
  import opened Words
  import opened Wrappers

  // ----- Discovered targets -----

  type Bytes = seq<byte>

  datatype Target = Target(sensRes: Bytes, selRes: Bytes, sddRes: Bytes)

  datatype Malformed = InvalidResponse | InvalidTarget | InvalidUid | TruncatedTarget

  const UID_LENGTHS := {4, 7, 10}

  /** `_decode_discovery` */
  function DecodeDiscovery(payload: Bytes): Result<Option<Target>, Malformed> {
    if payload == [0] then Ok(None)
    else if |payload| < 8 || payload[0] != 1 then Err(InvalidResponse)
    else
      var response := payload[1..];
      if response[0] < 1 || response[1] != 1 then Err(InvalidTarget)
      else
        var target := response[2..];
        if target[3] !in UID_LENGTHS then Err(InvalidUid)
        else if |target| < 4 + target[3] then Err(TruncatedTarget)
        else Ok(Some(Target([target[1], target[0]], target[2..3], target[4..])))
  }

  /** The chip's list of `count` targets whose first has these parameters. */
  function Discovery(count: byte, sens: (byte, byte), sel: byte, uid: Bytes, more: Bytes): Bytes
    requires |uid| <= 10
  {
    [1, count, 1, sens.0, sens.1, sel, |uid|] + uid + more
  }

  /** The target a list's first entry describes. */
  ghost predicate Describes(payload: Bytes, t: Target) {
    exists count: byte, sens: (byte, byte), sel: byte, uid: Bytes, more: Bytes ::
      && count >= 1 && |uid| in {4, 7, 10} && payload == Discovery(count, sens, sel, uid, more)
      && t == Target([sens.1, sens.0], [sel], uid + more)
  }

  /** A payload is decoded to a target exactly if it is such a list with a proper UID, and
      the target has the first entry's parameters. */
  lemma DecodesTargetsOnly(payload: Bytes, t: Target)
    ensures DecodeDiscovery(payload) == Ok(Some(t)) <==> Describes(payload, t)
    ensures DecodeDiscovery(payload) == Ok(None) <==> payload == [0]
  {
    if DecodeDiscovery(payload) == Ok(Some(t)) {
      DecodedIsDescribed(payload, t);
    }
    if Describes(payload, t) {
      var count: byte, sens: (byte, byte), sel: byte, uid: Bytes, more: Bytes :|
        && count >= 1 && |uid| in UID_LENGTHS && payload == Discovery(count, sens, sel, uid, more)
        && t == Target([sens.1, sens.0], [sel], uid + more);
      DecodesDiscovery(count, sens, sel, uid, more);
    }
  }

  lemma DecodedIsDescribed(payload: Bytes, t: Target)
    requires DecodeDiscovery(payload) == Ok(Some(t))
    ensures Describes(payload, t)
  {
    var n: nat := payload[6];
    FieldsOf(payload);
    var uid, more := payload[7..7 + n], payload[7 + n..];
    assert uid + more == payload[7..];
    ListOf(payload, uid, more);
    assert t == Target([payload[4], payload[3]], [payload[5]], uid + more);
    assert payload == Discovery(payload[1], (payload[3], payload[4]), payload[5], uid, more);
  }

  lemma ListOf(payload: Bytes, uid: Bytes, more: Bytes)
    requires |payload| >= 8 && payload[0] == 1 && payload[2] == 1 && payload[6] as int == |uid| <= 10
    requires payload[7..] == uid + more
    ensures payload == Discovery(payload[1], (payload[3], payload[4]), payload[5], uid, more)
  {
    assert payload == payload[..7] + payload[7..];
  }

  lemma FieldsOf(payload: Bytes)
    requires |payload| >= 8
    ensures payload[1..][0] == payload[1] && payload[1..][1] == payload[2]
    ensures var target := payload[1..][2..];
            && target[0] == payload[3] && target[1] == payload[4] && target[2..3] == [payload[5]]
            && target[3] == payload[6] && target[4..] == payload[7..] && |target| == |payload| - 3
  {
  }

  lemma DecodesDiscovery(count: byte, sens: (byte, byte), sel: byte, uid: Bytes, more: Bytes)
    requires count >= 1 && |uid| in UID_LENGTHS
    ensures DecodeDiscovery(Discovery(count, sens, sel, uid, more)) == Ok(Some(Target([sens.1, sens.0], [sel], uid + more)))
  {
    var p := Discovery(count, sens, sel, uid, more);
    assert p == [1, count, 1, sens.0, sens.1, sel, |uid|] + (uid + more);
    FieldsOf(p);
    assert p[7..] == uid + more;
  }

  // ----- Failures of a session -----

  datatype Poll = Fine | Transient | Fatal

  datatype Verdict = GoOn | HardwareFault | Raise

  const FAILURE_LIMIT := 3

  /** The count after the polls so far, over all sessions: a new session does not clear it. */
  function FailuresAfter(ps: seq<Poll>, n: nat): nat
    requires n <= |ps|
    decreases n
  {
    if n == 0 then 0
    else match ps[n - 1]
      case Fine => 0
      case Transient => FailuresAfter(ps, n - 1) + 1
      case Fatal => FailuresAfter(ps, n - 1)
  }

  function VerdictOn(ps: seq<Poll>, n: nat): Verdict
    requires n < |ps|
  {
    match ps[n]
    case Fine => GoOn
    case Transient => if FailuresAfter(ps, n) + 1 >= FAILURE_LIMIT then HardwareFault else GoOn
    case Fatal => Raise
  }

  /** Transient failures at `a`, `b` and `n`, and no good poll from the first to the last. */
  ghost predicate ThreeWithoutSuccess(ps: seq<Poll>, a: nat, b: nat, n: nat)
    requires n < |ps|
  {
    && a < b < n && ps[a].Transient? && ps[b].Transient? && ps[n].Transient?
    && forall k | a <= k <= n :: !ps[k].Fine?
  }

  /** The first of the last `count` transient failures, and none of the polls from there on
      was good. */
  lemma {:induction false} CountedFailures(ps: seq<Poll>, n: nat, count: nat) returns (a: nat)
    requires n <= |ps| && 1 <= count <= FailuresAfter(ps, n)
    ensures a < n && ps[a].Transient? && FailuresAfter(ps, a) == FailuresAfter(ps, n) - count
    ensures forall k | a <= k < n :: !ps[k].Fine?
    decreases n
  {
    if ps[n - 1].Transient? && count == 1 {
      a := n - 1;
    } else {
      a := CountedFailures(ps, n - 1, if ps[n - 1].Transient? then count - 1 else count);
    }
  }

  lemma {:induction false} FailuresGrow(ps: seq<Poll>, a: nat, n: nat)
    requires a <= n <= |ps| && forall k | a <= k < n :: !ps[k].Fine?
    ensures FailuresAfter(ps, a) <= FailuresAfter(ps, n)
    decreases n - a
  {
    if a < n {
      FailuresGrow(ps, a, n - 1);
    }
  }

  /** A poll ends its session with a hardware fault exactly if it is the third transient
      failure, or a later one, since the last good poll, whatever sessions lie in between. */
  lemma FaultsOnThird(ps: seq<Poll>, n: nat)
    requires n < |ps|
    ensures VerdictOn(ps, n) == HardwareFault <==> exists a: nat, b: nat :: ThreeWithoutSuccess(ps, a, b, n)
  {
    if VerdictOn(ps, n) == HardwareFault {
      var a := CountedFailures(ps, n, 2);
      var b := CountedFailures(ps, n, 1);
      if b <= a {
        FailuresGrow(ps, b, a);
        assert false;
      }
      assert ThreeWithoutSuccess(ps, a, b, n);
    }
    forall a: nat, b: nat | ThreeWithoutSuccess(ps, a, b, n) ensures VerdictOn(ps, n) == HardwareFault {
      FailuresGrow(ps, a + 1, b);
      FailuresGrow(ps, b + 1, n);
    }
  }

  /** So a session that begins after a fault ends at its first transient failure. */
  lemma FaultsAgainAtOnce(ps: seq<Poll>, n: nat)
    requires n + 1 < |ps| && VerdictOn(ps, n) == HardwareFault && ps[n + 1].Transient?
    ensures VerdictOn(ps, n + 1) == HardwareFault
  {
  }

  // ----- Between sessions -----

  /** `Down` is one of the three reader failures; any other exception leaves the counters and
      always waits two seconds. */
  datatype Event = Ready(at: real) | Down(at: real)

  datatype Recovery = Recovery(attempts: nat, readySince: Option<real>)

  const NEW_WORKER := Recovery(0, None)

  const SETTLED := 60.0

  function Delay(attempts: nat): nat {
    Min(Pow2(Min(attempts, 6)), 60)
  }

  /** The reader had been ready a minute or more before it failed. */
  predicate Settled(r: Recovery, now: real) {
    r.readySince.Some? && now - r.readySince.value >= SETTLED
  }

  function After(r: Recovery, e: Event): Recovery {
    match e
    case Ready(at) => r.(readySince := Some(at))
    case Down(at) => r.(attempts := if Settled(r, at) then 1 else r.attempts + 1)
  }

  function Recover(es: seq<Event>, n: nat): Recovery
    requires n <= |es|
    decreases n
  {
    if n == 0 then NEW_WORKER else After(Recover(es, n - 1), es[n - 1])
  }

  /** The wait after the failure at `n`. */
  function WaitAfter(es: seq<Event>, n: nat): nat
    requires n < |es|
  {
    Delay(Recover(es, n + 1).attempts)
  }

  lemma DelayTable(attempts: nat)
    requires attempts >= 1
    ensures 2 <= Delay(attempts) <= 60
    ensures Delay(attempts) == 2 <==> attempts == 1
    ensures attempts < 6 ==> Delay(attempts) < Delay(attempts + 1)
    ensures attempts >= 6 ==> Delay(attempts) == 60
  {
  }

  /** Every wait lies between two seconds and a minute. */
  lemma WaitsAreBounded(es: seq<Event>, n: nat)
    requires n < |es| && es[n].Down?
    ensures 2 <= WaitAfter(es, n) <= 60
  {
    DelayTable(Recover(es, n + 1).attempts);
  }

  /** Waits grow from one failure of an outage to the next, up to a minute, if and only if the
      reader was last ready less than a minute before the second; otherwise they start over. */
  lemma WaitsGrowUnlessSettled(es: seq<Event>, n: nat)
    requires n + 1 < |es| && es[n].Down? && es[n + 1].Down?
    ensures WaitAfter(es, n + 1) == 60 || WaitAfter(es, n + 1) > WaitAfter(es, n)
            <==> !Settled(Recover(es, n + 1), es[n + 1].at)
    ensures Settled(Recover(es, n + 1), es[n + 1].at) ==> WaitAfter(es, n + 1) == 2
  {
    DelayTable(Recover(es, n + 1).attempts);
    DelayTable(Recover(es, n + 2).attempts);
  }

  /** The time since the reader was last ready is not forgotten when it fails: once it is a
      minute, every further failure of the outage waits two seconds, however many there are. */
  lemma {:induction false} LongOutageNeverBacksOff(es: seq<Event>, n: nat, m: nat)
    requires n <= m < |es| && es[n].Down? && Settled(Recover(es, n), es[n].at)
    requires forall k | n <= k <= m :: es[k].Down? && es[k].at >= es[n].at
    ensures Recover(es, m).readySince == Recover(es, n).readySince && WaitAfter(es, m) == 2
    decreases m
  {
    if n < m {
      LongOutageNeverBacksOff(es, n, m - 1);
    }
    DelayTable(1);
  }

  /** The reader was last ready at `j` before event `n`. */
  ghost predicate LastReadyAt(es: seq<Event>, n: nat, j: nat) {
    j < n <= |es| && es[j].Ready? && forall i | j < i < n :: !es[i].Ready?
  }

  /** A failure a minute or more after the reader was last ready. */
  ghost predicate StartsOver(es: seq<Event>, k: nat) {
    k < |es| && es[k].Down? && exists j: nat :: LastReadyAt(es, k, j) && es[k].at >= es[j].at + 60.0
  }

  /** The failures from `k` up to and with `n`. */
  function DownsSince(es: seq<Event>, k: nat, n: nat): nat
    requires k <= n < |es|
    decreases n
  {
    (if n == k then 0 else DownsSince(es, k, n - 1)) + if es[n].Down? then 1 else 0
  }

  lemma {:induction false} ReadySinceIs(es: seq<Event>, n: nat)
    requires n <= |es|
    ensures match Recover(es, n).readySince
            case None => forall j | 0 <= j < n :: !es[j].Ready?
            case Some(at) => exists j: nat :: LastReadyAt(es, n, j) && es[j].at == at
    decreases n
  {
    if n > 0 {
      ReadySinceIs(es, n - 1);
      if es[n - 1].Ready? {
        assert LastReadyAt(es, n, n - 1);
      } else if Recover(es, n - 1).readySince.Some? {
        var j: nat :| LastReadyAt(es, n - 1, j) && es[j].at == Recover(es, n - 1).readySince.value;
        assert LastReadyAt(es, n, j);
      }
    }
  }

  lemma SettledIfStartsOver(es: seq<Event>, k: nat)
    requires k < |es| && es[k].Down?
    ensures StartsOver(es, k) <==> Settled(Recover(es, k), es[k].at)
  {
    ReadySinceIs(es, k);
    forall i: nat, j: nat | LastReadyAt(es, k, i) && LastReadyAt(es, k, j) ensures i == j {
    }
  }

  /** `k` is the last failure up to `n` that starts over, or the worker's beginning. */
  ghost predicate CountsFrom(es: seq<Event>, k: nat, n: nat) {
    k <= n < |es| && (k == 0 || StartsOver(es, k)) && forall i | k < i <= n :: !StartsOver(es, i)
  }

  lemma {:induction false} AttemptsAreDowns(es: seq<Event>, k: nat, n: nat)
    requires CountsFrom(es, k, n)
    ensures Recover(es, n + 1).attempts == DownsSince(es, k, n)
    decreases n
  {
    if es[n].Down? {
      SettledIfStartsOver(es, n);
    }
    if n > k {
      AttemptsAreDowns(es, k, n - 1);
    }
  }

  /** The wait after every failure, from the events alone: 2, 4, 8, 16, 32 seconds and then a
      minute, by how many failures there were since the last one that came a minute or more
      after the reader was ready. */
  lemma WaitIsByHistory(es: seq<Event>, k: nat, n: nat)
    requires CountsFrom(es, k, n) && es[n].Down?
    ensures WaitAfter(es, n) == match DownsSince(es, k, n)
              case 1 => 2
              case 2 => 4
              case 3 => 8
              case 4 => 16
              case 5 => 32
              case _ => 60
  {
    AttemptsAreDowns(es, k, n);
    DelayIs(Recover(es, n + 1).attempts);
  }

  lemma DelayIs(attempts: nat)
    ensures Delay(0) == 1 && Delay(1) == 2 && Delay(2) == 4 && Delay(3) == 8 && Delay(4) == 16 && Delay(5) == 32
    ensures attempts >= 6 ==> Delay(attempts) == 60
  {
  }

  // ----- One poll of an autonomous session -----

  /** What an exception makes of a poll. */
  type Exception = p: Poll | !p.Fine? witness Fatal

  /** What becomes of a target that was decoded. */
  datatype Session =
    | NoTag
    | ActivationFails(raised: Exception)
    | CardDecided
    | CardFails(raised: Exception)
    | Authenticated
    | NotAuthenticated
    | ProtocolRejected
    | SessionFails(raised: Exception)

  /** What a round finds: no connection; no event within half a second; a fault put in place
      of an event; or a card's event. */
  datatype Start = NoConnection | Quiet | Faulted | Presented(payload: Bytes)

  /** What becomes of the RESUME request.  It raises if the reader refuses it, and if no reply
      comes, whether or not the reader has got it. */
  datatype Resume = NotConnected | Answered | Refused | Unanswered

  /** One round: what it finds, and the rest as far as it gets there. */
  datatype Round = Round(start: Start, session: Session, resume: Resume)

  predicate HasTarget(round: Round) {
    && round.start.Presented? && DecodeDiscovery(round.start.payload).Ok?
    && DecodeDiscovery(round.start.payload).value.Some?
  }

  /** The access system has decided: there is nothing to try again. */
  predicate Completed(session: Session) {
    session.CardDecided? || session.Authenticated?
  }

  predicate Raises(session: Session) {
    session.ActivationFails? || session.CardFails? || session.SessionFails?
  }

  /** The RESUME request a round makes, if any. */
  function ResumeOf(round: Round): seq<Bytes> {
    if !HasTarget(round) || round.resume.NotConnected? then [] else [[if Completed(round.session) then 0 else 1]]
  }

  /** What a round is to the session: an exception of the RESUME hides that of the session. */
  function PollOf(round: Round): Poll {
    if round.start.Quiet? || (round.start.Presented? && DecodeDiscovery(round.start.payload) == Ok(None)) then Fine
    else if !HasTarget(round) || round.resume.Refused? || round.resume.Unanswered? then Fatal
    else if Raises(round.session) then round.session.raised
    else Fine
  }

  /** The payloads of the RESUME requests made in the rounds so far. */
  function Resumes(rounds: seq<Round>): seq<Bytes>
    decreases |rounds|
  {
    if rounds == [] then [] else Resumes(rounds[..|rounds| - 1]) + ResumeOf(rounds[|rounds| - 1])
  }

  function PollsOf(rounds: seq<Round>): seq<Poll> {
    seq(|rounds|, n requires 0 <= n < |rounds| => PollOf(rounds[n]))
  }

  predicate Increasing(at: seq<nat>) {
    forall i, j | 0 <= i < j < |at| :: at[i] < at[j]
  }

  /** The reader's target was taken, and there is a connection at the end. */
  predicate Serves(rounds: seq<Round>, n: nat) {
    n < |rounds| && HasTarget(rounds[n]) && !rounds[n].resume.NotConnected?
  }

  /** The RESUMEs go to the rounds `at`. */
  predicate GoTo(rounds: seq<Round>, resumes: seq<Bytes>, at: seq<nat>) {
    && |at| == |resumes|
    && forall k | 0 <= k < |at| ::
         at[k] < |rounds| && resumes[k] == if rounds[at[k]].session in {CardDecided, Authenticated} then [0] else [1]
  }

  lemma OneMoreServed(init: seq<Round>, last: Round, at: seq<nat>) returns (more: seq<nat>)
    requires GoTo(init, Resumes(init), at) && Increasing(at) && forall n: nat :: n in at <==> Serves(init, n)
    ensures GoTo(init + [last], Resumes(init) + ResumeOf(last), more) && Increasing(more)
    ensures forall n: nat :: n in more <==> Serves(init + [last], n)
  {
    ServesNext(init, last);
    GoToNext(init, last, Resumes(init), at);
    more := if ResumeOf(last) == [] then at else at + [|init|];
  }

  lemma GoToNext(init: seq<Round>, last: Round, resumes: seq<Bytes>, at: seq<nat>)
    requires GoTo(init, resumes, at) && Increasing(at)
    ensures var more := if ResumeOf(last) == [] then at else at + [|init|];
            GoTo(init + [last], resumes + ResumeOf(last), more) && Increasing(more)
  {
    assert resumes + [] == resumes;
    assert forall k | 0 <= k < |at| :: (init + [last])[at[k]] == init[at[k]];
  }

  lemma ServesNext(init: seq<Round>, last: Round)
    ensures forall n: nat :: Serves(init + [last], n) <==> Serves(init, n) || (n == |init| && ResumeOf(last) != [])
  {
  }

  /** Over every sequence of rounds the RESUMEs go, one each and in order, to exactly the rounds
      that had a target and a connection at their end; and each asks for a retry exactly if its
      round's transaction did not complete. */
  lemma {:induction false} OneResumePerTarget(rounds: seq<Round>) returns (at: seq<nat>)
    ensures GoTo(rounds, Resumes(rounds), at) && Increasing(at) && forall n: nat :: n in at <==> Serves(rounds, n)
    decreases |rounds|
  {
    if rounds == [] {
      at := [];
    } else {
      var init, last := rounds[..|rounds| - 1], rounds[|rounds| - 1];
      at := OneResumePerTarget(init);
      at := OneMoreServed(init, last, at);
      assert init + [last] == rounds;
    }
  }

  // ----- The worker -----

  /** Of the polls from `first` on all but the last let the session go on, and the last one's
      verdict is this. */
  predicate EndsWith(ps: seq<Poll>, first: nat, verdict: Verdict) {
    && first < |ps| && VerdictOn(ps, |ps| - 1) == verdict
    && forall n | first <= n < |ps| - 1 :: VerdictOn(ps, n) == GoOn
  }

  /** The polls of earlier sessions and of the first `n` rounds. */
  function Polled(rounds: seq<Round>, before: seq<Poll>, n: nat): (ps: seq<Poll>)
    requires n <= |rounds|
    ensures |ps| == |before| + n
  {
    before + PollsOf(rounds[..n])
  }

  function Sent(rounds: seq<Round>, n: nat): seq<Bytes>
    requires n <= |rounds|
  {
    Resumes(rounds[..n])
  }

  /** A session has come as far as `n` rounds, with this count of failures and verdict. */
  predicate SessionAt(rounds: seq<Round>, before: seq<Poll>, n: nat, failures: nat, verdict: Verdict) {
    && n <= |rounds| && failures == FailuresAfter(Polled(rounds, before, n), |before| + n)
    && if n == 0 then verdict == GoOn else EndsWith(Polled(rounds, before, n), |before|, verdict)
  }

  class Worker {
    var failures: nat
    var recovery: Recovery
    var resumes: seq<Bytes>   // payloads of the RESUME requests made

    constructor ()
      ensures failures == 0 && recovery == NEW_WORKER && resumes == []
    {
      failures, recovery, resumes := 0, NEW_WORKER, [];
    }

    /** `_poll_once` of an autonomous session. */
    method PollOnce(round: Round) returns (result: Poll)
      modifies this`resumes
      ensures resumes == old(resumes) + ResumeOf(round) && result == PollOf(round)
    {
      assert resumes + [] == resumes;
      if round.start.NoConnection? || round.start.Faulted? {
        return Fatal;
      }
      if round.start.Quiet? {
        return Fine;
      }
      var decoded := DecodeDiscovery(round.start.payload);
      if decoded.Err? {
        return Fatal;
      }
      if decoded.value.None? {
        return Fine;
      }
      var transactionCompleted := false;
      result := Fine;
      match round.session {
        case NoTag =>
        case ActivationFails(raised) => result := raised;
        case CardDecided => transactionCompleted := true;
        case CardFails(raised) => result := raised;
        case Authenticated => transactionCompleted := true;
        case NotAuthenticated =>
        case ProtocolRejected =>
        case SessionFails(raised) => result := raised;
      }
      // `finally`
      if !round.resume.NotConnected? {
        resumes := resumes + [[if transactionCompleted then 0 else 1]];
        if !round.resume.Answered? {
          result := Fatal;
        }
      }
    }

    /** The loop of `_reader_session`, which is told to stop when no round is left: it ends
        with the first poll that raises or is a fault too many. */
    method ReaderSession(rounds: seq<Round>, ghost before: seq<Poll>) returns (polled: nat, verdict: Verdict)
      requires failures == FailuresAfter(before, |before|)
      modifies this`failures, this`resumes
      ensures polled <= |rounds| && resumes == old(resumes) + Sent(rounds, polled)
      ensures SessionAt(rounds, before, polled, failures, verdict)
      ensures verdict == GoOn ==> polled == |rounds|
    {
      polled, verdict := 0, GoOn;
      SessionBegins(rounds, before, failures);
      while polled < |rounds| && verdict == GoOn
        invariant polled <= |rounds| && resumes == old(resumes) + Sent(rounds, polled)
        invariant SessionAt(rounds, before, polled, failures, verdict)
        decreases |rounds| - polled
      {
        ghost var past := Polled(rounds, before, polled);
        MoreSent(rounds, polled, old(resumes));
        var result := PollOnce(rounds[polled]);
        verdict := NotePoll(result, past);
        SessionGoesOn(rounds, before, past, polled, failures, verdict);
        polled := polled + 1;
      }
    }

    /** The session loop's reaction to one poll. */
    method NotePoll(p: Poll, ghost before: seq<Poll>) returns (verdict: Verdict)
      requires failures == FailuresAfter(before, |before|)
      modifies this`failures
      ensures failures == FailuresAfter(before + [p], |before| + 1)
      ensures verdict == VerdictOn(before + [p], |before|)
    {
      SamePrefix(before, p, |before|);
      match p
      case Fine =>
        failures := 0;
        verdict := GoOn;
      case Transient =>
        failures := failures + 1;
        verdict := if failures >= FAILURE_LIMIT then HardwareFault else GoOn;
      case Fatal =>
        verdict := Raise;
    }

    /** `_run` after a reader failure. */
    method NoteDown(now: real) returns (retryDelay: nat)
      modifies this`recovery
      ensures recovery == After(old(recovery), Down(now)) && retryDelay == Delay(recovery.attempts)
    {
      var attempts := recovery.attempts;
      if recovery.readySince.Some? && now - recovery.readySince.value >= SETTLED {
        attempts := 0;
      }
      recovery := recovery.(attempts := attempts + 1);
      retryDelay := Min(Pow2(Min(recovery.attempts, 6)), 60);
    }
  }

  // ----- How a session ends -----

  /** The round cannot go on: there is no connection, the reader has reported a fault, what it
      presented cannot be read, or its RESUME was refused or left unanswered. */
  predicate Breaks(round: Round) {
    || round.start.NoConnection? || round.start.Faulted?
    || (round.start.Presented? && DecodeDiscovery(round.start.payload).Err?)
    || (HasTarget(round) && (round.resume.Refused? || round.resume.Unanswered?))
  }

  /** The transaction raised, and nothing was wrong with the RESUME behind it. */
  predicate Excepts(round: Round) {
    HasTarget(round) && (round.resume.Answered? || round.resume.NotConnected?) && Raises(round.session)
  }

  /** Nothing was found, or no target, or a target without an exception. */
  predicate Good(round: Round) {
    || round.start.Quiet?
    || (round.start.Presented? && DecodeDiscovery(round.start.payload) == Ok(None))
    || (HasTarget(round) && (round.resume.Answered? || round.resume.NotConnected?) && !Raises(round.session))
  }

  lemma RoundIsOneOfThree(round: Round)
    ensures PollOf(round) == if Breaks(round) then Fatal else if Excepts(round) then round.session.raised else Fine
    ensures Good(round) <==> !Breaks(round) && !Excepts(round)
    ensures !(Breaks(round) && Excepts(round))
  {
  }

  /** The failures counted when a session is about to poll round `n`. */
  function CountBefore(rounds: seq<Round>, before: seq<Poll>, n: nat): nat
    requires n <= |rounds|
  {
    FailuresAfter(Polled(rounds, before, n), |before| + n)
  }

  /** How far a session gets, and why it ends.  All rounds but the last one polled were good or
      raised something transient.  The last one ends it with `Raise` exactly if it could not go on
      or its transaction raised something else, and with a hardware fault exactly if it raised
      something transient for the third time at least; and the count falls to nothing at good
      rounds alone. */
  lemma SessionEnds(rounds: seq<Round>, before: seq<Poll>, n: nat, failures: nat, verdict: Verdict)
    requires SessionAt(rounds, before, n, failures, verdict) && n > 0
    ensures forall k | 0 <= k < n - 1 :: Good(rounds[k]) || (Excepts(rounds[k]) && rounds[k].session.raised.Transient?)
    ensures var last := rounds[n - 1]; var was := CountBefore(rounds, before, n - 1);
            && (verdict == Raise <==> Breaks(last) || (Excepts(last) && last.session.raised.Fatal?))
            && (verdict == HardwareFault <==> Excepts(last) && last.session.raised.Transient? && was >= 2)
            && failures == if Good(last) then 0 else if Excepts(last) && last.session.raised.Transient? then was + 1 else was
  {
    forall k | 0 <= k < n - 1 ensures Good(rounds[k]) || (Excepts(rounds[k]) && rounds[k].session.raised.Transient?) {
      WentOn(rounds, before, n, failures, verdict, k);
    }
    RoundIsOneOfThree(rounds[n - 1]);
    LastPoll(rounds, before, n);
  }

  lemma WentOn(rounds: seq<Round>, before: seq<Poll>, n: nat, failures: nat, verdict: Verdict, k: nat)
    requires SessionAt(rounds, before, n, failures, verdict) && k + 1 < n
    ensures Good(rounds[k]) || (Excepts(rounds[k]) && rounds[k].session.raised.Transient?)
  {
    var ps := Polled(rounds, before, n);
    assert ps[|before| + k] == PollOf(rounds[k]) && VerdictOn(ps, |before| + k) == GoOn;
    RoundIsOneOfThree(rounds[k]);
  }

  /** What a poll after `was` failures in a row comes to. */
  predicate ComesTo(was: nat, p: Poll, verdict: Verdict, failures: nat) {
    match p
    case Fine => verdict == GoOn && failures == 0
    case Transient => verdict == (if was >= 2 then HardwareFault else GoOn) && failures == was + 1
    case Fatal => verdict == Raise && failures == was
  }

  lemma LastPoll(rounds: seq<Round>, before: seq<Poll>, n: nat)
    requires 0 < n <= |rounds|
    ensures var ps := Polled(rounds, before, n);
            ComesTo(CountBefore(rounds, before, n - 1), PollOf(rounds[n - 1]),
                    VerdictOn(ps, |before| + n - 1), FailuresAfter(ps, |before| + n))
  {
    PolledNext(rounds, before, n - 1);
    OneMorePoll(Polled(rounds, before, n - 1), PollOf(rounds[n - 1]));
  }

  lemma OneMorePoll(ps: seq<Poll>, p: Poll)
    ensures ComesTo(FailuresAfter(ps, |ps|), p, VerdictOn(ps + [p], |ps|), FailuresAfter(ps + [p], |ps| + 1))
  {
    SamePrefix(ps, p, |ps|);
  }

  /** So a session never polls past a round that cannot go on, and raises there. */
  lemma NeverPastBreak(rounds: seq<Round>, before: seq<Poll>, n: nat, failures: nat, verdict: Verdict, k: nat)
    requires SessionAt(rounds, before, n, failures, verdict) && k < |rounds| && Breaks(rounds[k])
    ensures n <= k + 1 && (n == k + 1 ==> verdict == Raise)
  {
    if n > 0 {
      SessionEnds(rounds, before, n, failures, verdict);
      RoundIsOneOfThree(rounds[k]);
    }
  }

  lemma MoreSent(rounds: seq<Round>, n: nat, resumes: seq<Bytes>)
    requires n < |rounds|
    ensures resumes + Sent(rounds, n + 1) == resumes + Sent(rounds, n) + ResumeOf(rounds[n])
  {
    assert rounds[..n + 1][..n] == rounds[..n];
  }

  lemma SessionBegins(rounds: seq<Round>, before: seq<Poll>, failures: nat)
    requires failures == FailuresAfter(before, |before|)
    ensures SessionAt(rounds, before, 0, failures, GoOn) && Sent(rounds, 0) == []
  {
    assert before + PollsOf(rounds[..0]) == before;
  }

  lemma SessionGoesOn(rounds: seq<Round>, before: seq<Poll>, past: seq<Poll>, n: nat, failures: nat, verdict: Verdict)
    requires n < |rounds| && past == Polled(rounds, before, n) && (n == 0 || EndsWith(past, |before|, GoOn))
    requires failures == FailuresAfter(past + [PollOf(rounds[n])], |past| + 1)
    requires verdict == VerdictOn(past + [PollOf(rounds[n])], |past|)
    ensures SessionAt(rounds, before, n + 1, failures, verdict)
  {
    EndsLater(past, PollOf(rounds[n]), |before|);
    PolledNext(rounds, before, n);
  }

  lemma PolledNext(rounds: seq<Round>, before: seq<Poll>, n: nat)
    requires n < |rounds|
    ensures Polled(rounds, before, n + 1) == Polled(rounds, before, n) + [PollOf(rounds[n])]
  {
    assert PollsOf(rounds[..n + 1]) == PollsOf(rounds[..n]) + [PollOf(rounds[n])];
  }

  lemma EndsLater(ps: seq<Poll>, p: Poll, first: nat)
    requires |ps| == first || EndsWith(ps, first, GoOn)
    ensures EndsWith(ps + [p], first, VerdictOn(ps + [p], |ps|))
  {
    forall n | 0 <= n < |ps| ensures VerdictOn(ps + [p], n) == VerdictOn(ps, n) {
      SamePrefix(ps, p, n);
    }
  }

  lemma {:induction false} SamePrefix(ps: seq<Poll>, p: Poll, n: nat)
    requires n <= |ps|
    ensures FailuresAfter(ps + [p], n) == FailuresAfter(ps, n)
    decreases n
  {
    if n > 0 {
      SamePrefix(ps, p, n - 1);
    }
  }
}
