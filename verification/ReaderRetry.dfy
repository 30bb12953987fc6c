/** What a retry RESUME does during a transceive, which `ReaderRuns.Allowed` rules out: when
    exactly the invariant and the one reply per request survive it, and how a reply is lost. */
module ReaderRetry {
  import opened Words
  import opened Protocol
  import opened LocalCommands
  import opened AsyncCommands
  import opened ReaderMachine
  import opened ReaderRuns
  import opened ReaderDiscovery
  import opened ReaderTiming

  /** `u` runs the transceive of `r`, with nothing to read and not counted as busy. */
  predicate Orphaned(u: Reader, r: Reader) {
    && u.step != Step.Idle && u.async == r.async && u.async.active && u.async.phase != Phase.Idle
    && u.requestId == r.requestId && !u.waiting && u.ring == []
    && u.connected == r.connected && u.ota == r.ota && u.discovery.enabled && DiscoveryInv(u.discovery)
  }

  /** A retry RESUME keeps the invariant exactly if no transceive is under way, discovery is
      off, or the chip does not acknowledge the field-off command; otherwise the transceive
      goes on while the reader no longer counts as busy and no longer listens to the UART. */
  lemma RetryKeepsInvExactly(r: Reader, e: Event)
    requires Inv(r) && RetryResume(e)
    ensures Inv(Take(r, e).0) <==> r.step == Step.Idle || !r.discovery.enabled || !e.radio.off.acknowledged
    ensures !Inv(Take(r, e).0) ==> Orphaned(Take(r, e).0, r)
  {
  }

  /** An orphan is not silent: the pass that finds its deadline expired answers it. */
  lemma OrphanTimesOut(u: Reader, r: Reader, now: u32)
    requires Orphaned(u, r) && Expired(now, u.async.deadline)
    ensures Update(u, now).1.messages == [ErrorReply(r.requestId, Pn532Timeout)] && Update(u, now).0.step == Step.Idle
  {
  }

  /** A second TRANSCEIVE before that is taken on, runs into the command still active, and
      ends both: it is answered as busy and nothing is left that could answer the first. */
  lemma SecondTransceiveEndsBoth(u: Reader, r: Reader, e: Event)
    requires Orphaned(u, r) && u.discovery.targetPending && SendsTransceive(e)
    ensures TakenOn(u, e) == [DecodeMessage(e.raw).value.requestId] && Ended(u, e) == [] && !RetryResume(e)
    ensures var (s, out) := Take(u, e);
            && ReplyIds(out.messages) == [DecodeMessage(e.raw).value.requestId]
            && out.messages == [ErrorReply(DecodeMessage(e.raw).value.requestId, Pn532Busy)] && Open(s) == []
  {
    var m := DecodeMessage(e.raw).value;
    assert Take(u, e) == OnTransceive(u, m, Millis(e.now));
    ReplyIdsOfOne(ErrorReply(m.requestId, Pn532Busy));
  }

  /** A TRANSCEIVE that asks for something the reader can do. */
  predicate SendsTransceive(e: Event) {
    && e.Receive? && DecodeMessage(e.raw).Some?
    && var m := DecodeMessage(e.raw).value;
       m.code == TypeCode(Transceive) && m.payload != [] && |m.payload| <= MAX_TRANSCEIVE && m.timeoutMs != 0
  }

  /** A pass that comes before the deadline `due` and whose sweep sees a card. */
  predicate SeesCardBefore(e: Event, due: u32) {
    && e.Loop? && !Expired(Millis(e.times.poll), due)
    && SeesTarget(e.sweep.opening) && |e.sweep.opening.data| < MAX_PAYLOAD
  }

  /** Such a pass leaves the transceive as it is and tells the controller of the card, which
      may then send that second TRANSCEIVE. */
  lemma OrphanIsPassedOver(u: Reader, r: Reader, e: Event)
    requires Orphaned(u, r) && u.connected && !u.ota && SeesCardBefore(e, u.async.deadline)
    requires !u.discovery.targetPending && !u.discovery.waitForRemoval && Expired(Millis(e.times.entry), u.discovery.nextAt)
    ensures var (s, out) := Take(u, e);
            Orphaned(s, r) && s.discovery.targetPending && ReplyIds(out.messages) == []
    ensures TakenOn(u, e) == Ended(u, e) == [] && SendsTarget(u, e) && !RetryResume(e)
  {
    assert Drain(u, e.bytes) == u;
    assert Update(u, Millis(e.times.poll)) == (u, NOTHING);
    CardIsAnnounced(u, e);
  }

  lemma CardIsAnnounced(u: Reader, e: Event)
    requires MayDiscover(u) && e.Loop? && DiscoveryInv(u.discovery)
    requires Drain(u, e.bytes) == u && Update(u, Millis(e.times.poll)) == (u, NOTHING)
    requires !u.discovery.targetPending && !u.discovery.waitForRemoval && Expired(Millis(e.times.entry), u.discovery.nextAt)
    requires SeesTarget(e.sweep.opening) && |e.sweep.opening.data| < MAX_PAYLOAD
    ensures var (s, out) := Take(u, e);
            && s == u.(ring := [], discovery := s.discovery) && DiscoveryInv(s.discovery)
            && s.discovery.enabled && s.discovery.targetPending && ReplyIds(out.messages) == []
    ensures SendsTarget(u, e)
  {
    assert Sweeps(u, e.times);
    var more := AutonomousDiscovery(u, e.sweep, e.times).1;
    assert Take(u, e).1.messages == [] + more.messages == more.messages == [more.messages[0]];
    ReplyIdsOfOne(more.messages[0]);
  }

  /** A retry RESUME whose field-off command succeeds leads there. */
  lemma RetryOrphans(r: Reader, e: Event)
    requires Inv(r) && r.step != Step.Idle && r.discovery.enabled
    requires RetryResume(e) && e.radio.off.acknowledged && e.radio.off.result.Success?
    ensures var (s, out) := Take(r, e);
            && Orphaned(s, r) && s.discovery == Resumed(r.discovery, true, Millis(e.now))
            && ReplyIds(out.messages) == [DecodeMessage(e.raw).value.requestId]
  {
    RetryKeepsInvExactly(r, e);
    HandlerReplies(r, e.raw, e.radio, e.now);
    RetryResumes(r, e);
  }

  lemma RetryResumes(r: Reader, e: Event)
    requires r.discovery.enabled && RetryResume(e) && e.radio.off.result.Success?
    ensures Take(r, e).0.discovery == Resumed(r.discovery, true, Millis(e.now))
  {
  }

  /** The reply that is lost.  A transceive is running; a retry RESUME succeeds; a pass before
      the command's deadline presents a card; a second TRANSCEIVE is sent.  The RESUME and the
      second request are answered and the first is not: its transceive is over. */
  lemma RetryLosesReply(r: Reader, retry: Event, pass: Event, second: Event)
    requires Inv(r) && r.step != Step.Idle && r.discovery.enabled && r.connected && !r.ota
    requires RetryResume(retry) && retry.radio.off.acknowledged && retry.radio.off.result.Success?
    requires SeesCardBefore(pass, r.async.deadline) && SendsTransceive(second)
    requires Expired(Millis(pass.times.entry), Later(Millis(retry.now), DISCOVERY_RETRY_MS))
    ensures var (r1, out1) := Take(r, retry); var (r2, out2) := Take(r1, pass); var (r3, out3) := Take(r2, second);
            && ReplyIds(out1.messages) == [DecodeMessage(retry.raw).value.requestId]
            && ReplyIds(out2.messages) == [] && SendsTarget(r1, pass)
            && ReplyIds(out3.messages) == [DecodeMessage(second.raw).value.requestId] == TakenOn(r2, second)
            && Open(r) == [r.requestId] && Open(r3) == []
  {
    RetryOrphans(r, retry);
    var r1 := Take(r, retry).0;
    OrphanIsPassedOver(r1, r, pass);
    SecondTransceiveEndsBoth(Take(r1, pass).0, r, second);
  }

  // ----- The exact condition -----

  /** The latest instant among the events, or `start`. */
  function Clock(es: seq<Event>, start: nat): nat
    decreases |es|
  {
    if es == [] then start
    else match es[|es| - 1]
      case Receive(_, _, now) => now
      case Loop(_, _, times) => times.done
      case _ => Clock(es[..|es| - 1], start)
  }

  /** Time moves on from `start`, and passes follow one another by at most `d`. */
  predicate InOrder(es: seq<Event>, start: nat, d: nat)
    decreases |es|
  {
    es == [] ||
    (var init, e := es[..|es| - 1], es[|es| - 1];
     && InOrder(init, start, d)
     && (e.Receive? ==> Clock(init, start) <= e.now)
     && (e.Loop? ==> Ordered(e.times) && Clock(init, start) <= e.times.poll <= LastPass(init, start) + d))
  }

  /** Every continuation of `s` from `start` on answers, or cancels, the requests open in `r`
      and those taken on since, one by one and in order. */
  ghost predicate OneReplyEach(r: Reader, s: Reader, start: nat, d: nat) {
    forall es :: AllAllowed(s, es) && InOrder(es, start, d) ==> Conserves(r, s, es)
  }

  ghost predicate Conserves(r: Reader, s: Reader, es: seq<Event>) {
    Open(r) + AllTakenOn(s, es) == AllEnded(s, es) + Open(Run(s, es))
  }

  /** The running command's deadline is the instant `due`; passes at most `d` apart do not
      take its expiry test beyond half a turn of the clock. */
  predicate DueAt(r: Reader, due: nat, now: nat, d: nat) {
    Millis(due) == r.async.deadline && now + d < due + TWO_31 && due <= now + TWO_31
  }

  /** Exactly one reply per request survives a retry RESUME, over every allowed continuation,
      if and only if no transceive is under way, discovery is off, the field-off command is not
      acknowledged, or the running command is overdue, so that the next pass ends it, and no
      card is left pending by a field-off command that fails. */
  lemma RetryKeepsOneReplyExactly(r: Reader, e: Event, due: nat, d: nat)
    requires Inv(r) && RetryResume(e) && r.connected && !r.ota
    requires r.step != Step.Idle ==> DueAt(r, due, e.now, d)
    ensures OneReplyEach(r, Take(r, e).0, e.now, d) <==>
              || r.step == Step.Idle || !r.discovery.enabled || !e.radio.off.acknowledged
              || (due <= e.now && !(r.discovery.targetPending && e.radio.off.result.Failure?))
  {
    var s := Take(r, e).0;
    RetryKeepsInvExactly(r, e);
    if Inv(s) {
      ResumeLeavesTransceive(r, DecodeMessage(e.raw).value, e.radio.off, Millis(e.now));
      KeptInvKeepsOneReply(r, s, e.now, d);
    } else {
      PendingAfterRetry(r, e);
      if s.discovery.targetPending {
        var es := PendingCardLosesReply(s, r, e.now, d);
      } else if e.now < due {
        var es := RestartLosesReply(s, r, e.now, due, d);
      } else {
        OverdueKeepsOneReply(s, r, e.now, due, d);
      }
    }
  }

  lemma PendingAfterRetry(r: Reader, e: Event)
    requires Inv(r) && RetryResume(e) && r.discovery.enabled
    ensures Take(r, e).0.discovery.targetPending <==> r.discovery.targetPending && e.radio.off.result.Failure?
  {
  }

  lemma KeptInvKeepsOneReply(r: Reader, s: Reader, start: nat, d: nat)
    requires Inv(s) && Open(r) == Open(s)
    ensures OneReplyEach(r, s, start, d)
  {
    forall es | AllAllowed(s, es) && InOrder(es, start, d) ensures Conserves(r, s, es) {
      ExactlyOneReply(s, es);
    }
  }

  // ----- Overdue, it is answered -----

  /** The orphan waits for the next pass; no card is there that a TRANSCEIVE could be for. */
  predicate Overdue(u: Reader, r: Reader) {
    Orphaned(u, r) && !u.discovery.targetPending && !u.ota && u.requestId == r.requestId
  }

  /** No message but RESET touches it, and none is taken on. */
  lemma OverdueMessage(u: Reader, r: Reader, m: ProtocolMessage, radio: Radio, now: u32)
    requires Overdue(u, r) && |u.payload| <= MAX_TRANSCEIVE && !(m.code == TypeCode(ResumeDiscovery) && m.payload == [1])
    ensures var s := Dispatch(u, m, radio, now).0;
            && |s.payload| <= MAX_TRANSCEIVE
            && if m.code == TypeCode(Reset) then Inv(s) && Open(s) == [] else Overdue(s, r)
    ensures !Accepts(u, m)
  {
    Routes(u, m, radio, now);
    if m.code == TypeCode(ResumeDiscovery) {
      OverdueResume(u, r, m, radio.off, now);
    } else if m.code == TypeCode(StartDiscovery) || m.code == TypeCode(Transceive) || m.code == TypeCode(Reset) {
    } else {
      OthersLeaveState(u, m, radio, now);
    }
  }

  lemma OverdueResume(u: Reader, r: Reader, m: ProtocolMessage, off: FieldOff, now: u32)
    requires Overdue(u, r) && m.payload != [1]
    ensures Overdue(OnResume(u, m, off, now).0, r) && OnResume(u, m, off, now).0.payload == u.payload
  {
    assert |m.payload| == 1 && m.payload[0] == 1 ==> m.payload == [1];
  }

  /** The next pass answers it. */
  lemma OverduePass(u: Reader, r: Reader, e: Event)
    requires Overdue(u, r) && |u.payload| <= MAX_TRANSCEIVE && e.Loop? && Expired(Millis(e.times.poll), u.async.deadline)
    ensures Inv(Take(u, e).0) && Open(Take(u, e).0) == [] && Ended(u, e) == [r.requestId]
  {
    var now := Millis(e.times.poll);
    assert Drain(u, e.bytes) == u;
    OrphanTimesOut(u, r, now);
    var (s, out) := Update(u, now);
    assert Inv(s);
    DiscoveryKeepsInv(s, e.sweep, e.times);
    DiscoveryRepliesNothing(s, e.sweep, e.times);
    ReplyIdsOfOne(ErrorReply(r.requestId, Pn532Timeout));
    ReplyIdsAppend(out.messages, AutonomousDiscovery(s, e.sweep, e.times).1.messages);
  }

  /** One event of a run that began overdue. */
  lemma OverdueEvent(u: Reader, r: Reader, e: Event)
    requires Overdue(u, r) && |u.payload| <= MAX_TRANSCEIVE && Allowed(u, e)
    requires e.Loop? ==> Expired(Millis(e.times.poll), u.async.deadline)
    ensures var s := Take(u, e).0; Inv(s) || (Overdue(s, r) && |s.payload| <= MAX_TRANSCEIVE && !e.Loop?)
    ensures Open(u) + TakenOn(u, e) == Ended(u, e) + Open(Take(u, e).0)
  {
    if e.Loop? {
      OverduePass(u, r, e);
    } else if e.Receive? && DecodeMessage(e.raw).Some? {
      OverdueMessage(u, r, DecodeMessage(e.raw).value, e.radio, Millis(e.now));
    }
  }

  lemma OverdueIsExpired(due: nat, start: nat, now: nat, d: nat)
    requires due <= start <= now <= start + d < due + TWO_31
    ensures Expired(Millis(now), Millis(due))
  {
  }

  lemma {:induction false} OverdueRun(s: Reader, r: Reader, es: seq<Event>, start: nat, due: nat, d: nat)
    requires Overdue(s, r) && |s.payload| <= MAX_TRANSCEIVE && DueAt(r, due, start, d) && due <= start
    requires AllAllowed(s, es) && InOrder(es, start, d)
    ensures var u := Run(s, es);
            Inv(u) || (Overdue(u, r) && |u.payload| <= MAX_TRANSCEIVE && LastPass(es, start) == start)
    ensures Conserves(s, s, es) && start <= Clock(es, start)
    decreases |es|
  {
    if es == [] {
      assert Open(s) + [] == [] + Open(s);
    } else {
      var init, e := es[..|es| - 1], es[|es| - 1];
      OverdueRun(s, r, init, start, due, d);
      var u := Run(s, init);
      if Inv(u) {
        TakeKeepsInv(u, e);
        TakeConserves(u, e);
      } else {
        if e.Loop? {
          OverdueIsExpired(due, start, e.times.poll, d);
        }
        OverdueEvent(u, r, e);
      }
      Regroup(Open(s), AllTakenOn(s, init), TakenOn(u, e), AllEnded(s, init), Open(u), Ended(u, e), Open(Take(u, e).0));
    }
  }

  lemma OverdueKeepsOneReply(s: Reader, r: Reader, start: nat, due: nat, d: nat)
    requires Inv(r) && Orphaned(s, r) && !s.discovery.targetPending && !s.ota && Open(s) == Open(r) && s.payload == r.payload
    requires DueAt(r, due, start, d) && due <= start
    ensures OneReplyEach(r, s, start, d)
  {
    forall es | AllAllowed(s, es) && InOrder(es, start, d) ensures Conserves(r, s, es) {
      OverdueRun(s, r, es, start, due, d);
    }
  }

  // ----- Otherwise it can be lost -----

  /** A TRANSCEIVE as the controller sends it. */
  function TransceiveAt(t: nat): Event {
    Receive(Encoding(TypeCode(Transceive), 2, 500, [0x00]), SILENT_RADIO, t)
  }

  lemma TransceiveIsSent(t: nat)
    ensures SendsTransceive(TransceiveAt(t))
  {
    ReaderWritesDecode(ProtocolMessage(TypeCode(Transceive), 2, 500, [0x00]));
  }

  /** With a card still pending, a TRANSCEIVE at once loses the reply. */
  lemma PendingCardLosesReply(s: Reader, r: Reader, start: nat, d: nat) returns (es: seq<Event>)
    requires Orphaned(s, r) && s.discovery.targetPending && r.step != Step.Idle
    ensures AllAllowed(s, es) && InOrder(es, start, d) && !Conserves(r, s, es)
  {
    TransceiveIsSent(start);
    SecondLosesReply(s, r, TransceiveAt(start), d);
    es := [] + [TransceiveAt(start)];
  }

  lemma SecondLosesReply(s: Reader, r: Reader, c: Event, d: nat)
    requires Orphaned(s, r) && s.discovery.targetPending && SendsTransceive(c)
    ensures AllAllowed(s, [] + [c]) && InOrder([] + [c], c.now, d) && !Conserves(r, s, [] + [c])
  {
    SecondTransceiveEndsBoth(s, r, c);
    OnlyOneIsTaken(s, r, c);
    OneInOrder(c, d);
  }

  lemma OneInOrder(c: Event, d: nat)
    requires c.Receive?
    ensures InOrder([] + [c], c.now, d)
  {
    OneMoreInOrder([], c, c.now, d);
  }

  lemma OnlyOneIsTaken(s: Reader, r: Reader, c: Event)
    requires !RetryResume(c) && Ended(s, c) == [] && |TakenOn(s, c)| == 1 && Open(Take(s, c).0) == []
    ensures AllAllowed(s, [] + [c]) && !Conserves(r, s, [] + [c])
  {
    OneMore(s, [], c);
    assert |AllTakenOn(s, [] + [c])| == 1;
  }

  /** A START, a card and a TRANSCEIVE before the deadline lose it too. */
  lemma RestartLosesReply(s: Reader, r: Reader, start: nat, due: nat, d: nat) returns (es: seq<Event>)
    requires Orphaned(s, r) && s.connected && !s.ota && DueAt(r, due, start, d) && start < due
    ensures AllAllowed(s, es) && InOrder(es, start, d) && !Conserves(r, s, es)
  {
    assert !Expired(Millis(start), s.async.deadline) && Expired(Millis(start), Millis(start));
    OrphanRestarts(s, r, start);
    TransceiveIsSent(start);
    es := [StartAt(start), SweepAt(start, [1]), TransceiveAt(start)];
    ThirdEventLosesReply(s, Take(s, StartAt(start)).0, r, es[0], es[1], es[2]);
    ThreeInOrder(es[0], es[1], es[2], start, d);
  }

  lemma OneMoreInOrder(es: seq<Event>, e: Event, start: nat, d: nat)
    requires InOrder(es, start, d)
    requires e.Receive? ==> Clock(es, start) <= e.now
    requires e.Loop? ==> Ordered(e.times) && Clock(es, start) <= e.times.poll <= LastPass(es, start) + d
    ensures InOrder(es + [e], start, d)
    ensures Clock(es + [e], start) == if e.Receive? then e.now else if e.Loop? then e.times.done else Clock(es, start)
    ensures LastPass(es + [e], start) == if e.Loop? then e.times.poll else LastPass(es, start)
  {
    assert (es + [e])[..|es|] == es;
  }

  lemma ThreeInOrder(a: Event, b: Event, c: Event, start: nat, d: nat)
    requires a.Receive? && a.now == start && b.Loop? && b.times == Times(start, start, start, start, start)
    requires c.Receive? && c.now == start
    ensures InOrder([a, b, c], start, d)
  {
    assert [] + [a] == [a] && [a] + [b] == [a, b] && [a, b] + [c] == [a, b, c];
    OneMoreInOrder([], a, start, d);
    OneMoreInOrder([a], b, start, d);
    OneMoreInOrder([a, b], c, start, d);
  }

  lemma ThirdEventLosesReply(s: Reader, u: Reader, r: Reader, a: Event, b: Event, c: Event)
    requires u == Take(s, a).0 && !RetryResume(a) && TakenOn(s, a) == Ended(s, a) == []
    requires Orphaned(u, r) && u.connected && !u.ota && !u.discovery.targetPending && !u.discovery.waitForRemoval
    requires SeesCardBefore(b, u.async.deadline) && Expired(Millis(b.times.entry), u.discovery.nextAt)
    requires SendsTransceive(c)
    ensures AllAllowed(s, [a, b, c]) && !Conserves(r, s, [a, b, c])
  {
    OrphanIsPassedOver(u, r, b);
    SecondTransceiveEndsBoth(Take(u, b).0, r, c);
    ThirdOnlyIsTaken(s, u, r, a, b, c);
  }

  lemma OrphanRestarts(s: Reader, r: Reader, t: nat)
    requires Orphaned(s, r)
    ensures var u := Take(s, StartAt(t)).0;
            Orphaned(u, r) && !u.discovery.targetPending && !u.discovery.waitForRemoval && u.discovery.nextAt == Millis(t)
    ensures TakenOn(s, StartAt(t)) == Ended(s, StartAt(t)) == [] && !RetryResume(StartAt(t))
  {
    ReaderWritesDecode(ProtocolMessage(TypeCode(StartDiscovery), 1, 0, ECP_FRAME));
  }

  /** Three events of which only the last takes a request on, and none ends one. */
  lemma ThirdOnlyIsTaken(s: Reader, u: Reader, r: Reader, a: Event, b: Event, c: Event)
    requires u == Take(s, a).0 && !RetryResume(a) && !RetryResume(b) && !RetryResume(c)
    requires TakenOn(s, a) == Ended(s, a) == TakenOn(u, b) == Ended(u, b) == []
    requires Ended(Take(u, b).0, c) == [] && |TakenOn(Take(u, b).0, c)| == 1
    requires Open(Take(Take(u, b).0, c).0) == []
    ensures AllAllowed(s, [a, b, c]) && !Conserves(r, s, [a, b, c])
  {
    NothingYet(s, a, b);
    OneMore(s, [a, b], c);
    assert [a, b] + [c] == [a, b, c];
    assert |AllTakenOn(s, [a, b, c])| == 1;
  }

  lemma NothingYet(s: Reader, a: Event, b: Event)
    requires !RetryResume(a) && !RetryResume(b)
    requires var s1 := Take(s, a).0; TakenOn(s, a) == Ended(s, a) == TakenOn(s1, b) == Ended(s1, b) == []
    ensures Run(s, [a, b]) == Take(Take(s, a).0, b).0
    ensures AllTakenOn(s, [a, b]) == AllEnded(s, [a, b]) == [] && AllAllowed(s, [a, b])
  {
    OneMore(s, [], a);
    OneMore(s, [a], b);
    assert [] + [a] == [a] && [a] + [b] == [a, b];
  }

  lemma OneMore(s: Reader, es: seq<Event>, e: Event)
    ensures Run(s, es + [e]) == Take(Run(s, es), e).0
    ensures AllTakenOn(s, es + [e]) == AllTakenOn(s, es) + TakenOn(Run(s, es), e)
    ensures AllEnded(s, es + [e]) == AllEnded(s, es) + Ended(Run(s, es), e)
    ensures AllAllowed(s, es + [e]) <==> AllAllowed(s, es) && Allowed(Run(s, es), e)
  {
    assert (es + [e])[..|es|] == es;
  }
}
