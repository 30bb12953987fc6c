/** A presented card on its way from the reader to the worker and back: when the worker's round
    releases it, and what happens to a card that no round releases. */
module Cards {
  import opened Words
  import opened Wrappers
  import opened Protocol
  import opened Pn532Frames
  import opened LocalCommands
  import opened ReaderMachine
  import opened ReaderRuns
  import D = ReaderDiscovery
  import F = ReaderEffects
  import Q = TargetEvents
  import W = ReaderWorker

  // ----- From the chip to the worker -----

  /** The chip's answer to a poll for one card of type A that found `count`. */
  function ChipList(count: byte, sens: (byte, byte), sel: byte, uid: seq<byte>, more: seq<byte>): seq<byte>
    requires |uid| <= 10
  {
    [count, 1, sens.0, sens.1, sel, |uid|] + uid + more
  }

  /** What the reader presents the worker can read: a pass that presents a card sends exactly one
      TARGET_EVENT, and if the chip listed a card with a proper UID, the worker's round has a
      target, namely that card with the parameters that the chip listed. */
  lemma PresentedCardIsRead(r: Reader, e: Event, count: byte, sens: (byte, byte), sel: byte, uid: seq<byte>, more: seq<byte>)
    requires Inv(r) && e.Loop? && D.SendsTarget(r, e) && count >= 1 && |uid| in {4, 7, 10}
    requires e.sweep.opening == Success(ChipList(count, sens, sel, uid, more)) && |e.sweep.opening.data| <= MAX_DATA
    ensures |F.Targets(Take(r, e).1)| == 1
    ensures var payload := F.Targets(Take(r, e).1)[0].payload;
            && W.DecodeDiscovery(payload) == Ok(Some(W.Target([sens.1, sens.0], [sel], uid + more)))
            && forall session, resume :: W.HasTarget(W.Round(W.Presented(payload), session, resume))
  {
    F.PassPresents(r, e);
    F.TargetsAreSent(r, e);
    PayloadIsList(count, sens, sel, uid, more);
    W.DecodesTargetsOnly([1] + ChipList(count, sens, sel, uid, more), W.Target([sens.1, sens.0], [sel], uid + more));
  }

  lemma PayloadIsList(count: byte, sens: (byte, byte), sel: byte, uid: seq<byte>, more: seq<byte>)
    requires count >= 1 && |uid| in W.UID_LENGTHS
    ensures W.Describes([1] + ChipList(count, sens, sel, uid, more), W.Target([sens.1, sens.0], [sel], uid + more))
  {
    assert [1] + ChipList(count, sens, sel, uid, more) == W.Discovery(count, sens, sel, uid, more);
  }

  // ----- And back -----

  /** The event is the round's RESUME request reaching the reader. */
  predicate Carries(round: W.Round, request: Event) {
    && request.Receive? && DecodeMessage(request.raw).Some?
    && DecodeMessage(request.raw).value.code == TypeCode(ResumeDiscovery)
    && W.ResumeOf(round) == [DecodeMessage(request.raw).value.payload]
  }

  /** The reader answers the request with RESPONSE. */
  predicate Granted(r: Reader, request: Event) {
    var out := Take(r, request).1.messages;
    out != [] && out[0].code == TypeCode(Response)
  }

  /** What reached the reader of a round that ended as it did, if anything did: the worker's
      outcome is the reader's reply to that very request.  When no reply came the request may
      have been lost, or the reply to it. */
  predicate Reached(r: Reader, round: W.Round, request: Option<Event>) {
    && (request.Some? ==> Carries(round, request.value))
    && (W.ResumeOf(round) != [] ==>
          match round.resume
          case Answered => request.Some? && Granted(r, request.value)
          case Refused => request.Some? && !Granted(r, request.value)
          case _ => true)
  }

  function AfterRound(r: Reader, request: Option<Event>): Reader {
    if request.Some? then Take(r, request.value).0 else r
  }

  /** The reader's answer to a RESUME, by what it says and what the field-off command does. */
  lemma ResumeAnswer(r: Reader, round: W.Round, request: Event)
    requires Inv(r) && r.discovery.targetPending && Carries(round, request)
    ensures Granted(r, request) <==> W.Completed(round.session) || request.radio.off.result.Success?
    ensures var s := Take(r, request).0;
            if Granted(r, request)
            then !s.discovery.targetPending && (s.discovery.waitForRemoval <==> W.Completed(round.session))
            else s.discovery == r.discovery
  {
    var m := DecodeMessage(request.raw).value;
    var sent := [if W.Completed(round.session) then 0 else 1];
    assert W.ResumeOf(round) == [sent] && W.ResumeOf(round)[0] == sent == m.payload;
    Routes(r, m, request.radio, Millis(request.now));
  }

  /** What a round makes of the card that the reader has presented.  The card is released if
      and only if the round's RESUME reached the reader and the reader answered it with
      RESPONSE; then the reader waits for it to go exactly if its transaction completed.  A
      worker that got an answer to its RESUME knows which: the card is released after an
      answer, and still pending after a refusal.  And a card that a round was given and that
      stays pending ends the session, unless the connection was gone. */
  lemma RoundReleasesCard(r: Reader, round: W.Round, request: Option<Event>)
    requires Inv(r) && r.discovery.targetPending && Reached(r, round, request)
    ensures var d := AfterRound(r, request).discovery;
            && (!d.targetPending <==> request.Some? && Granted(r, request.value))
            && (d.targetPending ==> d == r.discovery)
            && (!d.targetPending ==> W.HasTarget(round) && (d.waitForRemoval <==> W.Completed(round.session)))
            && (W.HasTarget(round) && round.resume.Answered? ==> !d.targetPending)
            && (W.HasTarget(round) && round.resume.Refused? ==> d.targetPending && !W.Completed(round.session))
            && (W.HasTarget(round) && d.targetPending && !round.resume.NotConnected? ==> W.PollOf(round) == W.Fatal)
  {
    if request.Some? {
      ResumeAnswer(r, round, request.value);
    }
  }

  /** A card that stays pending is left to the watchdog: nothing more is presented until a START
      or another RESUME is accepted, or 15 s have passed since the card was presented. */
  lemma LeftToTheWatchdog(r: Reader, round: W.Round, request: Option<Event>, since: nat, es: seq<Event>)
    requires Inv(r) && r.discovery.targetPending && D.Holding(r.discovery, since) && Reached(r, round, request)
    requires request.None? || !Granted(r, request.value)
    requires D.Unreleased(AfterRound(r, request), es, since)
    ensures forall n: nat | n < |es| :: !D.PresentsAt(AfterRound(r, request), es, n)
  {
    RoundReleasesCard(r, round, request);
    var s := AfterRound(r, request);
    forall n: nat | n < |es| ensures !D.PresentsAt(s, es, n) {
      D.StaysHeld(s, es, since, n);
      D.PendingSurvives(D.Before(s, es, n), es[n], since);
    }
  }

  /** A card whose event is dropped: it was put at `i` into a queue that was not free, or a
      session or a fault took it out before the worker did.  None of the worker's RESUMEs is
      for it, and until a START or some other card's RESUME is accepted or 15 s have passed the
      reader presents nothing more. */
  lemma DroppedCardIsLeft(r: Reader, e: Event, es: seq<Event>, ops: seq<Q.Op>, i: nat, rounds: seq<W.Round>, waits: seq<nat>)
    returns (cards: seq<nat>)
    requires DiscoveryInv(r.discovery) && e.Loop? && D.SendsTarget(r, e)
    requires e.sweep.opening.Success? ==> |e.sweep.opening.data| <= MAX_DATA
    requires i < |ops| && ops[i].Put? && !(Q.FreeAt(ops, i) && Q.WorkerIsNext(ops, i))
    requires Q.FoundAt(ops, rounds, waits) && D.Unreleased(Take(r, e).0, es, e.times.done)
    ensures |cards| == |W.Resumes(rounds)| && (forall k | 0 <= k < |cards| :: Q.ReadableCard(ops, cards[k])) && i !in cards
    ensures forall n: nat | n < |es| :: !D.PresentsAt(Take(r, e).0, es, n)
  {
    cards := Q.ResumesAnswerReceivedCards(ops, rounds, waits);
    Q.ReceivedExactly(ops, i);
    D.OneEventPerPresentation(r, e, es);
  }
}
