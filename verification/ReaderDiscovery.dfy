/** Discovery over whole runs: a card is presented once, and again only after it has been
    away for the confirmation time. */
module ReaderDiscovery {
  import opened Words
  import opened Protocol
  import opened Pn532Frames
  import opened LocalCommands
  import opened AsyncCommands
  import opened ReaderMachine
  import opened ReaderRuns

  // ----- What can be seen of a run -----

  /** What an event's sweep, if it had one, saw. */
  datatype Sight = Nothing | Absent(seen: nat, checked: nat) | Present

  function Observed(r: Reader, e: Event): Sight {
    if !e.Loop? || r.ota then Sight.Nothing
    else
      var s := Update(Drain(r, e.bytes), Millis(e.times.poll)).0;
      if !Sweeps(s, e.times) || e.sweep.opening.Failure? then Sight.Nothing
      else if SeesTarget(e.sweep.opening) then Present
      else Absent(e.times.seen, e.times.checked)
  }

  ghost predicate SendsTarget(r: Reader, e: Event) {
    exists m :: m in Take(r, e).1.messages && m.code == TypeCode(TargetEvent)
  }

  /** A START or RESUME that the reader answers with RESPONSE. */
  predicate AcceptsStart(r: Reader, e: Event) {
    && e.Receive? && DecodeMessage(e.raw).Some?
    && var m := DecodeMessage(e.raw).value;
       m.code == TypeCode(StartDiscovery) && 3 <= |m.payload| <= 64 && !r.waiting
  }

  predicate AcceptsResume(r: Reader, e: Event) {
    && e.Receive? && DecodeMessage(e.raw).Some?
    && var m := DecodeMessage(e.raw).value;
       && m.code == TypeCode(ResumeDiscovery) && r.discovery.enabled
       && (m.payload == [] || m.payload == [0] || (m.payload == [1] && e.radio.off.result.Success?))
  }

  function Before(r: Reader, es: seq<Event>, n: nat): Reader
    requires n <= |es|
  {
    Run(r, es[..n])
  }

  function Sees(r: Reader, es: seq<Event>, n: nat): Sight
    requires n < |es|
  {
    Observed(Before(r, es, n), es[n])
  }

  /** Time moves forward, within a pass and from pass to pass. */
  ghost predicate Chronological(es: seq<Event>) {
    && (forall n | 0 <= n < |es| :: es[n].Loop? ==> Ordered(es[n].times))
    && (forall m, n | 0 <= m < n < |es| :: es[m].Loop? && es[n].Loop? ==> es[m].times.done <= es[n].times.poll)
  }

  /** A session left to itself: no START or RESUME is accepted, time moves forward, and no
      poll reports more data than a frame carries. */
  ghost predicate Undisturbed(r: Reader, es: seq<Event>) {
    && Chronological(es)
    && (forall n | 0 <= n < |es| :: !AcceptsStart(Before(r, es, n), es[n]) && !AcceptsResume(Before(r, es, n), es[n]))
    && (forall n | 0 <= n < |es| ::
          es[n].Loop? && es[n].sweep.opening.Success? ==> |es[n].sweep.opening.data| <= MAX_DATA)
  }

  // ----- No repeated presentation -----

  /** From event `i` up to event `n` no sweep saw a target, and one at `i` saw none. */
  ghost predicate AbsentSince(r: Reader, es: seq<Event>, i: nat, n: nat) {
    i < n <= |es| && Sees(r, es, i).Absent? && forall k | i <= k < n :: Sees(r, es, k) != Present
  }

  /** Before event `n`, sweeps at least 750 ms apart saw no target and none since the first
      of them has seen one. */
  ghost predicate ConfirmedAway(r: Reader, es: seq<Event>, n: nat) {
    exists i: nat, j: nat :: i <= j < n && AbsentSince(r, es, i, n) && Sees(r, es, j).Absent?
      && Sees(r, es, j).checked >= Sees(r, es, i).seen + 750
  }

  ghost predicate PresentsAt(r: Reader, es: seq<Event>, n: nat) {
    n < |es| && SendsTarget(Before(r, es, n), es[n])
  }

  /** Every presentation in the run is of a card that had been away. */
  ghost predicate PresentsOnlyReturned(r: Reader, es: seq<Event>) {
    forall n: nat | n < |es| :: PresentsAt(r, es, n) ==> ConfirmedAway(r, es, n)
  }

  /** Every presentation in the run but the first is of a card that had been away. */
  ghost predicate RepeatsOnlyReturned(r: Reader, es: seq<Event>) {
    forall m: nat, n: nat | m < n < |es| ::
      PresentsAt(r, es, m) && PresentsAt(r, es, n) ==> ConfirmedAway(r, es, n)
  }

  /** The run began with no card presented or waited for, and no sweep has seen one yet. */
  ghost predicate NoneYet(r: Reader, es: seq<Event>, n: nat)
    requires n <= |es|
  {
    && !r.discovery.targetPending && !r.discovery.waitForRemoval
    && forall k | 0 <= k < n :: Sees(r, es, k) != Present
  }

  /** What the discovery state says about the run so far. */
  ghost predicate Tracks(r: Reader, es: seq<Event>, n: nat)
    requires n <= |es|
  {
    var d := Before(r, es, n).discovery;
    && DiscoveryInv(d)
    && (d.waitForRemoval ==> d.noTargetSince == 0 || exists i: nat :: TracksFrom(r, es, i, n))
    && (d.targetPending ==> d.noTargetSince == 0)
    && (d.enabled && !d.waitForRemoval && !d.targetPending ==>
          d.noTargetSince == 0 && (ConfirmedAway(r, es, n) || NoneYet(r, es, n)))
  }

  ghost predicate TracksFrom(r: Reader, es: seq<Event>, i: nat, n: nat)
    requires n <= |es|
  {
    AbsentSince(r, es, i, n) && Millis(Sees(r, es, i).seen) == Before(r, es, n).discovery.noTargetSince
  }

  lemma BeforeNext(r: Reader, es: seq<Event>, n: nat)
    requires n < |es|
    ensures Before(r, es, n + 1) == Take(Before(r, es, n), es[n]).0
  {
    assert es[..n + 1][..n] == es[..n];
  }

  // ----- One event -----

  predicate SameFlags(d: Discovery, e: Discovery) {
    && e.enabled == d.enabled && e.targetPending == d.targetPending
    && e.waitForRemoval == d.waitForRemoval && e.noTargetSince == d.noTargetSince
  }

  function WatchdogFired(d: Discovery): Discovery {
    d.(targetPending := false, waitForRemoval := true)
  }

  /** How a pass with no target pending changes discovery, by what it saw. */
  ghost predicate FollowsSight(d: Discovery, sight: Sight, e: Discovery) {
    || !e.enabled
    || match sight
       case Nothing => SameFlags(d, e)
       case Present =>
         if d.waitForRemoval then SameFlags(d.(noTargetSince := 0), e) else SameFlags(d.(targetPending := true), e)
       case Absent(seen, checked) =>
         if !d.waitForRemoval then SameFlags(d, e)
         else
           var since := if d.noTargetSince == 0 then Millis(seen) else d.noTargetSince;
           if Elapsed(Millis(checked), since) < 750 then SameFlags(d.(noTargetSince := since), e)
           else SameFlags(d.(waitForRemoval := false, noTargetSince := 0), e)
  }

  /** How any event that is no accepted START or RESUME changes it. */
  ghost predicate EventEffect(d: Discovery, sight: Sight, e: Discovery) {
    || (sight == Sight.Nothing && FollowsSight(d, sight, e))
    || (!d.targetPending && FollowsSight(d, sight, e))
    || (d.targetPending && FollowsSight(WatchdogFired(d), sight, e))
  }

  ghost predicate HasTarget(ms: seq<ProtocolMessage>) {
    exists m :: m in ms && m.code == TypeCode(TargetEvent)
  }

  lemma SweepFollowsSight(d: Discovery, sweep: SweepResults, t: Times)
    requires DiscoveryInv(d) && d.enabled && !d.targetPending
    requires sweep.opening.Success? ==> |sweep.opening.data| <= MAX_DATA
    ensures var sight := if sweep.opening.Failure? then Sight.Nothing
                         else if SeesTarget(sweep.opening) then Present else Absent(t.seen, t.checked);
            DiscoveryInv(RunSweep(d, sweep, t).0) && FollowsSight(d, sight, RunSweep(d, sweep, t).0)
    ensures HasTarget(RunSweep(d, sweep, t).1.messages) ==> !d.waitForRemoval
  {
  }

  lemma UpdateLeavesDiscovery(r: Reader, now: u32)
    ensures Update(r, now).0.discovery == r.discovery
    ensures !HasTarget(Update(r, now).1.messages)
  {
    if r.step != Step.Idle {
      var p := Poll(r.async, r.ring, now);
      if p.Done? {
        AdvanceLeavesDiscovery(r.(async := r.async.(active := false), ring := p.ring), p.data, now);
      }
    }
  }

  lemma BeginLeavesDiscovery(r: Reader, step: Step, e: Exchange, now: u32)
    ensures BeginStep(r, step, e, now).0.discovery == r.discovery
    ensures !HasTarget(BeginStep(r, step, e, now).1.messages)
  {
  }

  lemma AdvanceLeavesDiscovery(r: Reader, data: seq<byte>, now: u32)
    ensures Advance(r, data, now).0.discovery == r.discovery
    ensures !HasTarget(Advance(r, data, now).1.messages)
  {
    match r.step
    case Idle =>
    case ReadRegisters =>
      if |data| == 3 {
        BeginLeavesDiscovery(r, WriteRegisters, WriteRfRegisters(data), now);
      }
    case WriteRegisters => BeginLeavesDiscovery(r, ConfigureTimeout, SetRfTimeouts(r.timeoutMs), now);
    case ConfigureTimeout => BeginLeavesDiscovery(r, Exchanging, Communicate(r.payload, r.timeoutMs), now);
    case Exchanging =>
  }

  lemma LoopEffect(r: Reader, e: Event)
    requires e.Loop? && DiscoveryInv(r.discovery)
    requires e.sweep.opening.Success? ==> |e.sweep.opening.data| <= MAX_DATA
    ensures var d := Take(r, e).0.discovery;
            DiscoveryInv(d) && EventEffect(r.discovery, Observed(r, e), d)
    ensures SendsTarget(r, e) ==> r.discovery.enabled && !r.discovery.waitForRemoval && !r.discovery.targetPending
  {
    if !r.ota {
      UpdateLeavesDiscovery(Drain(r, e.bytes), Millis(e.times.poll));
      var (s, out) := Update(Drain(r, e.bytes), Millis(e.times.poll));
      var d := AfterWatchdog(s.discovery, Millis(e.times.entry));
      if Sweeps(s, e.times) {
        SweepFollowsSight(d, e.sweep, e.times);
      }
      TargetsOfPass(out, AutonomousDiscovery(s, e.sweep, e.times).1);
    }
  }

  lemma TargetsOfPass(a: Effects, b: Effects)
    ensures HasTarget(a.messages + b.messages) <==> HasTarget(a.messages) || HasTarget(b.messages)
  {
  }

  /** Only START, RESUME and RESET change discovery, and no message presents a card. */
  lemma MessageLeavesDiscovery(r: Reader, m: ProtocolMessage, radio: Radio, now: u32)
    requires m.code != TypeCode(StartDiscovery) && m.code != TypeCode(ResumeDiscovery) && m.code != TypeCode(Reset)
    ensures Dispatch(r, m, radio, now).0.discovery == r.discovery
    ensures !HasTarget(Dispatch(r, m, radio, now).1.messages)
  {
  }

  lemma MessageEffect(r: Reader, m: ProtocolMessage, radio: Radio, now: u32)
    requires DiscoveryInv(r.discovery)
    requires !(m.code == TypeCode(StartDiscovery) && 3 <= |m.payload| <= MAX_BROADCAST && !r.waiting)
    requires !(m.code == TypeCode(ResumeDiscovery) && r.discovery.enabled
               && (m.payload == [] || m.payload == [0] || (m.payload == [1] && radio.off.result.Success?)))
    ensures var d := Dispatch(r, m, radio, now).0.discovery;
            DiscoveryInv(d) && FollowsSight(r.discovery, Sight.Nothing, d)
    ensures !HasTarget(Dispatch(r, m, radio, now).1.messages)
  {
    if m.code != TypeCode(StartDiscovery) && m.code != TypeCode(ResumeDiscovery) && m.code != TypeCode(Reset) {
      MessageLeavesDiscovery(r, m, radio, now);
    }
  }

  /** Every event that is no accepted START or RESUME changes discovery as its sight says,
      and presents a card only when none is pending and none is waited for. */
  lemma TakeEffect(r: Reader, e: Event)
    requires DiscoveryInv(r.discovery) && !AcceptsStart(r, e) && !AcceptsResume(r, e)
    requires e.Loop? && e.sweep.opening.Success? ==> |e.sweep.opening.data| <= MAX_DATA
    ensures var d := Take(r, e).0.discovery;
            DiscoveryInv(d) && EventEffect(r.discovery, Observed(r, e), d)
    ensures SendsTarget(r, e) ==> r.discovery.enabled && !r.discovery.waitForRemoval && !r.discovery.targetPending
  {
    if e.Loop? {
      LoopEffect(r, e);
    } else if e.Receive? && DecodeMessage(e.raw).Some? {
      MessageEffect(r, DecodeMessage(e.raw).value, e.radio, Millis(e.now));
    }
  }

  // ----- All events -----

  lemma AbsenceGoesOn(r: Reader, es: seq<Event>, i: nat, n: nat)
    requires n < |es| && AbsentSince(r, es, i, n) && Sees(r, es, n) != Present
    ensures AbsentSince(r, es, i, n + 1)
  {
  }

  lemma ConfirmationGoesOn(r: Reader, es: seq<Event>, n: nat)
    requires n < |es| && ConfirmedAway(r, es, n) && Sees(r, es, n) != Present
    ensures ConfirmedAway(r, es, n + 1)
  {
    var i: nat, j: nat :| i <= j < n && AbsentSince(r, es, i, n) && Sees(r, es, j).Absent?
      && Sees(r, es, j).checked >= Sees(r, es, i).seen + DISCOVERY_REMOVAL_MS;
    AbsenceGoesOn(r, es, i, n);
    assert i <= j < n + 1 && AbsentSince(r, es, i, n + 1);
  }

  /** The sweep at `n` ends the wait: the streak that began at `i` is long enough. */
  lemma StreakConfirms(r: Reader, es: seq<Event>, i: nat, n: nat)
    requires n < |es| && Chronological(es) && AbsentSince(r, es, i, n + 1) && Sees(r, es, n).Absent?
    requires Elapsed(Millis(Sees(r, es, n).checked), Millis(Sees(r, es, i).seen)) >= DISCOVERY_REMOVAL_MS
    ensures ConfirmedAway(r, es, n + 1)
  {
    assert es[i].Loop? && es[n].Loop? && Ordered(es[i].times) && Ordered(es[n].times);
    ElapsedNeverOverstates(Sees(r, es, i).seen, Sees(r, es, n).checked);
    assert i <= n < n + 1 && Sees(r, es, n).checked >= Sees(r, es, i).seen + DISCOVERY_REMOVAL_MS;
  }

  lemma WaitTracks(r: Reader, es: seq<Event>, n: nat, d: Discovery)
    requires n < |es| && Chronological(es) && Sees(r, es, n).Absent?
    requires d.noTargetSince == 0 || exists i: nat :: AbsentSince(r, es, i, n) && Millis(Sees(r, es, i).seen) == d.noTargetSince
    requires d.waitForRemoval && d.enabled && !d.targetPending
    requires FollowsSight(d, Sees(r, es, n), Before(r, es, n + 1).discovery) && DiscoveryInv(Before(r, es, n + 1).discovery)
    ensures Tracks(r, es, n + 1)
  {
    var i: nat := n;
    if d.noTargetSince != 0 {
      i :| AbsentSince(r, es, i, n) && Millis(Sees(r, es, i).seen) == d.noTargetSince;
      AbsenceGoesOn(r, es, i, n);
    }
    assert AbsentSince(r, es, i, n + 1);
    var e := Before(r, es, n + 1).discovery;
    if e.enabled {
      if e.waitForRemoval {
        assert TracksFrom(r, es, i, n + 1);
      } else {
        StreakConfirms(r, es, i, n);
      }
    }
  }

  lemma TracksNext(r: Reader, es: seq<Event>, n: nat)
    requires n < |es| && Undisturbed(r, es) && Tracks(r, es, n)
    ensures Tracks(r, es, n + 1)
  {
    BeforeNext(r, es, n);
    TakeEffect(Before(r, es, n), es[n]);
    var d, e := Before(r, es, n).discovery, Before(r, es, n + 1).discovery;
    var sight := Sees(r, es, n);
    if !e.enabled || sight == Present {
    } else if sight.Absent? && (d.waitForRemoval || d.targetPending) {
      if d.waitForRemoval && d.noTargetSince != 0 {
        var i: nat :| TracksFrom(r, es, i, n);
        assert AbsentSince(r, es, i, n) && Millis(Sees(r, es, i).seen) == d.noTargetSince;
      }
      WaitTracks(r, es, n, if d.targetPending then WatchdogFired(d) else d);
    } else if e.waitForRemoval && e.noTargetSince != 0 {
      var i: nat :| TracksFrom(r, es, i, n);
      AbsenceGoesOn(r, es, i, n);
      assert TracksFrom(r, es, i, n + 1);
    } else if !e.waitForRemoval && !e.targetPending && ConfirmedAway(r, es, n) {
      ConfirmationGoesOn(r, es, n);
    }
  }

  lemma {:induction false} AlwaysTracks(r: Reader, es: seq<Event>, n: nat)
    requires n <= |es| && Undisturbed(r, es) && Tracks(r, es, 0)
    ensures Tracks(r, es, n)
  {
    if n > 0 {
      AlwaysTracks(r, es, n - 1);
      TracksNext(r, es, n - 1);
    }
  }

  /** No repeated presentation.  From a state that has presented a card or waits for its
      removal, with no start of absence on record, whatever the sweeps see, fail or miss and
      however often the clock wraps, a card is presented only when sweeps at least 750 ms
      apart have seen none and none has been seen since the first of them; this goes for
      every presentation in the run, however it comes about. */
  lemma NoRepeatedPresentation(r: Reader, es: seq<Event>)
    requires DiscoveryInv(r.discovery) && (r.discovery.waitForRemoval || r.discovery.targetPending)
    requires r.discovery.noTargetSince == 0
    requires Undisturbed(r, es)
    ensures PresentsOnlyReturned(r, es)
  {
    assert es[..0] == [];
    assert Tracks(r, es, 0);
    forall n: nat | n < |es| && PresentsAt(r, es, n) ensures ConfirmedAway(r, es, n) {
      AlwaysTracks(r, es, n);
      TakeEffect(Before(r, es, n), es[n]);
    }
  }

  /** An accepted RESUME that is no retry leads to such a state. */
  lemma ResumeStartsTheWait(r: Reader, e: Event)
    requires DiscoveryInv(r.discovery) && AcceptsResume(r, e) && DecodeMessage(e.raw).value.payload != [1]
    ensures var d := Take(r, e).0.discovery;
            DiscoveryInv(d) && d.waitForRemoval && d.noTargetSince == 0
  {
  }

  /** After an accepted RESUME that is no retry, every presentation of the session left to
      itself is of a card that had been away. */
  lemma NoRepeatAfterResume(r: Reader, e: Event, es: seq<Event>)
    requires DiscoveryInv(r.discovery) && AcceptsResume(r, e) && DecodeMessage(e.raw).value.payload != [1]
    requires Undisturbed(Take(r, e).0, es)
    ensures PresentsOnlyReturned(Take(r, e).0, es)
  {
    ResumeStartsTheWait(r, e);
    NoRepeatedPresentation(Take(r, e).0, es);
  }

  /** A session that starts with no start of absence on record presents a card again only
      after it had been away. */
  lemma NoRepeatInSession(r: Reader, es: seq<Event>)
    requires DiscoveryInv(r.discovery) && !r.discovery.waitForRemoval && !r.discovery.targetPending
    requires r.discovery.noTargetSince == 0 && Undisturbed(r, es)
    ensures RepeatsOnlyReturned(r, es)
  {
    forall m: nat, n: nat | m < n < |es| && PresentsAt(r, es, m) && PresentsAt(r, es, n)
      ensures ConfirmedAway(r, es, n)
    {
      RepeatIsReturned(r, es, m, n);
    }
  }

  lemma RepeatIsReturned(r: Reader, es: seq<Event>, m: nat, n: nat)
    requires DiscoveryInv(r.discovery) && !r.discovery.waitForRemoval && !r.discovery.targetPending
    requires r.discovery.noTargetSince == 0 && Undisturbed(r, es)
    requires m < n < |es| && PresentsAt(r, es, m) && PresentsAt(r, es, n)
    ensures ConfirmedAway(r, es, n)
  {
    assert es[..0] == [];
    assert Tracks(r, es, 0);
    AlwaysTracks(r, es, m);
    PresentedIsSeen(Before(r, es, m), es[m]);
    AlwaysTracks(r, es, n);
    assert !NoneYet(r, es, n) by {
      assert Sees(r, es, m) == Present;
    }
    TakeEffect(Before(r, es, n), es[n]);
  }

  /** What is presented has been seen. */
  lemma PresentedIsSeen(r: Reader, e: Event)
    requires DiscoveryInv(r.discovery) && SendsTarget(r, e) && !AcceptsStart(r, e) && !AcceptsResume(r, e)
    requires e.Loop? && e.sweep.opening.Success? ==> |e.sweep.opening.data| <= MAX_DATA
    ensures Observed(r, e) == Present
  {
    if e.Loop? {
      UpdateLeavesDiscovery(Drain(r, e.bytes), Millis(e.times.poll));
      var (s, out) := Update(Drain(r, e.bytes), Millis(e.times.poll));
      TargetsOfPass(out, AutonomousDiscovery(s, e.sweep, e.times).1);
      OnlySeenTargetsAreSent(s, e.sweep, e.times);
    } else if e.Receive? && DecodeMessage(e.raw).Some? {
      MessageEffect(r, DecodeMessage(e.raw).value, e.radio, Millis(e.now));
    }
  }

  lemma OnlySeenTargetsAreSent(s: Reader, sweep: SweepResults, t: Times)
    ensures HasTarget(AutonomousDiscovery(s, sweep, t).1.messages) ==> Sweeps(s, t) && SeesTarget(sweep.opening)
  {
  }

  // ----- Where the rule fails -----

  /** A pass that only sweeps, at one instant. */
  function SweepAt(t: nat, data: seq<byte>): Event {
    Loop([], SweepResults(Success(data), Success([])), Times(t, t, t, t, t))
  }

  /** An instant long after all that is on record: the watchdog has run out, the next sweep is
      due and the start of absence is old enough.  Each of the two records rules out at most
      one of three instants far enough apart. */
  function LongAfter(d: Discovery): nat {
    if IsLongAfter(d, d.nextAt) then d.nextAt
    else if IsLongAfter(d, d.nextAt + 20_000) then d.nextAt + 20_000
    else d.nextAt + 40_000
  }

  predicate IsLongAfter(d: Discovery, t: nat) {
    && Elapsed(Millis(t), d.pendingAt) >= DISCOVERY_WATCHDOG_MS
    && Elapsed(Millis(t), d.noTargetSince) >= DISCOVERY_REMOVAL_MS
  }

  lemma LongAfterIs(d: Discovery)
    ensures var t := LongAfter(d); IsLongAfter(d, t) && Expired(Millis(t), d.nextAt) && t >= d.nextAt
  {
    LongAfterAt(d, 0);
    LongAfterAt(d, 20_000);
    LongAfterAt(d, 40_000);
  }

  lemma LongAfterAt(d: Discovery, ms: nat)
    requires ms <= 40_000
    ensures Expired(Millis(d.nextAt + ms), d.nextAt)
    ensures IsLongAfter(d, d.nextAt + ms) <==>
              && Longer(Elapsed(d.nextAt, d.pendingAt), ms) >= DISCOVERY_WATCHDOG_MS
              && Longer(Elapsed(d.nextAt, d.noTargetSince), ms) >= DISCOVERY_REMOVAL_MS
  {
    ElapsedLonger(d.nextAt, d.pendingAt, ms);
    ElapsedLonger(d.nextAt, d.noTargetSince, ms);
    ElapsedLonger(d.nextAt, d.nextAt, ms);
  }

  function Longer(elapsed: u32, ms: nat): int {
    if elapsed + ms < TWO_32 then elapsed + ms else elapsed + ms - TWO_32
  }

  lemma ElapsedLonger(base: u32, since: u32, ms: nat)
    requires ms < TWO_31
    ensures Elapsed(Millis(base + ms), since) == Longer(Elapsed(base, since), ms)
  {
  }

  lemma DueAfterInterval(t: nat)
    ensures Expired(Millis(t + DISCOVERY_INTERVAL_MS), Later(Millis(t), DISCOVERY_INTERVAL_MS))
  {
  }

  /** With a start of absence on record from an earlier wait, the watchdog's own sweep is
      enough to end the wait, and the next sweep may present the card again. */
  lemma StaleRecordPresentsAtOnce(r: Reader)
    requires Inv(r) && MayDiscover(r) && r.discovery.targetPending && r.discovery.noTargetSince != 0
    ensures var t := LongAfter(r.discovery); var es := [SweepAt(t, []), SweepAt(t + DISCOVERY_INTERVAL_MS, [1])];
            && Undisturbed(r, es) && SendsTarget(Before(r, es, 1), es[1])
            && Sees(r, es, 0) == Absent(t, t) && !ConfirmedAway(r, es, 1)
  {
    var t := LongAfter(r.discovery);
    LongAfterIs(r.discovery);
    WatchdogSweepEndsWait(r, t);
    FreeCardIsPresented(Take(r, SweepAt(t, [])).0, t + DISCOVERY_INTERVAL_MS);
    TwoPasses(r, SweepAt(t, []), SweepAt(t + DISCOVERY_INTERVAL_MS, [1]));
  }

  lemma TwoPasses(r: Reader, a: Event, b: Event)
    requires a.Loop? && b.Loop? && Ordered(a.times) && Ordered(b.times) && a.times.done <= b.times.poll
    requires a.sweep.opening.Success? ==> |a.sweep.opening.data| <= MAX_DATA
    requires b.sweep.opening.Success? ==> |b.sweep.opening.data| <= MAX_DATA
    ensures var es := [a, b];
            && Undisturbed(r, es) && Before(r, es, 1) == Take(r, a).0 && Sees(r, es, 0) == Observed(r, a)
            && (ConfirmedAway(r, es, 1) ==>
                  Observed(r, a).Absent? && Observed(r, a).checked >= Observed(r, a).seen + DISCOVERY_REMOVAL_MS)
  {
    var es := [a, b];
    assert es[..0] == [] && es[..1] == [a] && [a][..0] == [];
    assert Before(r, es, 0) == r && Before(r, es, 1) == Take(r, a).0;
  }

  lemma WatchdogSweepEndsWait(r: Reader, t: nat)
    requires r.step == Step.Idle && MayDiscover(r) && r.discovery.targetPending && r.discovery.noTargetSince != 0
    requires IsLongAfter(r.discovery, t) && Expired(Millis(t), r.discovery.nextAt)
    ensures Observed(r, SweepAt(t, [])) == Absent(t, t)
    ensures var s := Take(r, SweepAt(t, [])).0;
            && s.step == Step.Idle && MayDiscover(s) && !s.discovery.waitForRemoval && !s.discovery.targetPending
            && Expired(Millis(t + DISCOVERY_INTERVAL_MS), s.discovery.nextAt)
  {
    DueAfterInterval(t);
  }

  lemma FreeCardIsPresented(r: Reader, t: nat)
    requires r.step == Step.Idle && MayDiscover(r) && !r.discovery.waitForRemoval && !r.discovery.targetPending
    requires Expired(Millis(t), r.discovery.nextAt)
    ensures SendsTarget(r, SweepAt(t, [1])) && Observed(r, SweepAt(t, [1])) == Present
    ensures var s := Take(r, SweepAt(t, [1])).0;
            s == r.(ring := [], discovery := r.discovery.(failures := 0, targetPending := true, pendingAt := Millis(t),
                                                         nextEventId := Later(r.discovery.nextEventId, 1)))
  {
    var out := Take(r, SweepAt(t, [1])).1.messages;
    assert Sweeps(r, Times(t, t, t, t, t));
    assert out[|out| - 1].code == TypeCode(TargetEvent);
  }

  /** The rule for a card that is pending: it is presented again only after it had been away,
      over every continuation, if and only if no start of absence is on record. */
  lemma RuleHoldsExactly(r: Reader)
    requires Inv(r) && MayDiscover(r) && r.discovery.targetPending
    ensures (forall es :: Undisturbed(r, es) ==> PresentsOnlyReturned(r, es)) <==> r.discovery.noTargetSince == 0
  {
    if r.discovery.noTargetSince == 0 {
      forall es | Undisturbed(r, es) ensures PresentsOnlyReturned(r, es) {
        NoRepeatedPresentation(r, es);
      }
    } else {
      StaleRecordPresentsAtOnce(r);
      var t := LongAfter(r.discovery);
      assert !PresentsOnlyReturned(r, [SweepAt(t, []), SweepAt(t + DISCOVERY_INTERVAL_MS, [1])]);
    }
  }

  lemma ThreePasses(r: Reader, a: Event, b: Event, c: Event)
    requires a.Loop? && b.Loop? && c.Loop? && Ordered(a.times) && Ordered(b.times) && Ordered(c.times)
    requires a.times.done <= b.times.poll && b.times.done <= c.times.poll
    requires a.sweep.opening.Success? ==> |a.sweep.opening.data| <= MAX_DATA
    requires b.sweep.opening.Success? ==> |b.sweep.opening.data| <= MAX_DATA
    requires c.sweep.opening.Success? ==> |c.sweep.opening.data| <= MAX_DATA
    ensures var es, s := [a, b, c], Take(r, a).0;
            && Undisturbed(r, es) && Before(r, es, 0) == r && Before(r, es, 2) == Take(s, b).0
            && Sees(r, es, 0) == Observed(r, a) && Sees(r, es, 1) == Observed(s, b)
            && (ConfirmedAway(r, es, 2) ==>
                  Observed(r, a) != Present
                  || (Observed(s, b).Absent? && Observed(s, b).checked >= Observed(s, b).seen + DISCOVERY_REMOVAL_MS))
  {
    var es := [a, b, c];
    assert es[..0] == [] && es[..1] == [a] && es[..2] == [a, b];
    assert [a][..0] == [] && [a, b][..1] == [a];
    assert Before(r, es, 0) == r && Before(r, es, 1) == Take(r, a).0;
  }

  /** The rule for a session: over every continuation after an accepted START a card is
      presented again only after it had been away, if and only if the START came with no
      start of absence on record.  START does not clear the record. */
  lemma SessionRuleHoldsExactly(r: Reader, e: Event)
    requires Inv(r) && AcceptsStart(r, e) && r.connected && !r.ota
    ensures var s := Take(r, e).0;
            (forall es :: Undisturbed(s, es) ==> RepeatsOnlyReturned(s, es)) <==> r.discovery.noTargetSince == 0
  {
    var s := Take(r, e).0;
    assert s.discovery == Started(r.discovery, DecodeMessage(e.raw).value.payload, Millis(e.now));
    if r.discovery.noTargetSince == 0 {
      forall es | Undisturbed(s, es) ensures RepeatsOnlyReturned(s, es) {
        NoRepeatInSession(s, es);
      }
    } else {
      var es := StaleSession(s);
    }
  }

  lemma StaleSession(s: Reader) returns (es: seq<Event>)
    requires Inv(s) && MayDiscover(s) && !s.discovery.targetPending && !s.discovery.waitForRemoval
    requires s.discovery.noTargetSince != 0
    ensures Undisturbed(s, es) && !RepeatsOnlyReturned(s, es)
  {
    var n: nat := s.discovery.nextAt;
    assert Millis(n) == n && Expired(n, n);
    FreeCardIsPresented(s, n);
    var u := Take(s, SweepAt(n, [1])).0;
    var t := LongAfter(u.discovery);
    LongAfterIs(u.discovery);
    WatchdogSweepEndsWait(u, t);
    FreeCardIsPresented(Take(u, SweepAt(t, [])).0, t + DISCOVERY_INTERVAL_MS);
    es := [SweepAt(n, [1]), SweepAt(t, []), SweepAt(t + DISCOVERY_INTERVAL_MS, [1])];
    ThreePasses(s, es[0], es[1], es[2]);
    assert PresentsAt(s, es, 0) && PresentsAt(s, es, 2);
  }

  // ----- From power-on to the failure -----

  const ECP_FRAME: seq<byte> := [0x6A, 0x01, 0x02]

  const SILENT_RADIO := Radio(Success([]), Success([]), Success([]), FieldOff(Failure(Pn532Timeout), false))

  function StartAt(t: nat): Event {
    Receive(Encoding(TypeCode(StartDiscovery), 1, 0, ECP_FRAME), SILENT_RADIO, t)
  }

  /** A RESUME that is no retry. */
  function ResumeAt(t: nat): Event {
    Receive(Encoding(TypeCode(ResumeDiscovery), 1, 0, [0]), SILENT_RADIO, t)
  }

  function FailedSweepAt(t: nat): Event {
    Loop([], SweepResults(Failure(Pn532Timeout), Success([])), Times(t, t, t, t, t))
  }

  /** The controller starts discovery, a card comes, is served and is found gone once; the
      controller starts discovery anew, a card comes and is not served; the watchdog gives it
      up with a sweep that fails; a sweep sees no card, and 40 ms later one sees it again. */
  function StaleEvent(n: nat): Event
    requires n < 10
  {
    match n
    case 0 => Connected
    case 1 => StartAt(1000)
    case 2 => SweepAt(1000, [1])
    case 3 => ResumeAt(2000)
    case 4 => SweepAt(2040, [])
    case 5 => StartAt(3000)
    case 6 => SweepAt(3000, [1])
    case 7 => FailedSweepAt(18_000)
    case 8 => SweepAt(18_100, [])
    case _ => SweepAt(18_140, [1])
  }

  ghost predicate IsStaleRun(es: seq<Event>) {
    |es| == 10 && forall n | 0 <= n < 10 :: es[n] == StaleEvent(n)
  }

  /** A connected reader that does nothing but discover. */
  function Discovering(d: Discovery): Reader {
    START_STATE.(connected := true, discovery := d)
  }

  lemma StartTakes(d: Discovery, t: nat)
    ensures Take(Discovering(d), StartAt(t)).0 == Discovering(Started(d, ECP_FRAME, Millis(t)))
    ensures !RetryResume(StartAt(t))
  {
    ReaderWritesDecode(ProtocolMessage(TypeCode(StartDiscovery), 1, 0, ECP_FRAME));
  }

  lemma ResumeTakes(d: Discovery, t: nat)
    requires d.enabled
    ensures Take(Discovering(d), ResumeAt(t)).0 == Discovering(Resumed(d, false, Millis(t)))
    ensures !RetryResume(ResumeAt(t))
  {
    ReaderWritesDecode(ProtocolMessage(TypeCode(ResumeDiscovery), 1, 0, [0]));
  }

  lemma PassTakes(d: Discovery, e: Event)
    requires e.Loop? && e.bytes == [] && Sweeps(Discovering(d), e.times)
    ensures Take(Discovering(d), e).0
            == Discovering(RunSweep(AfterWatchdog(d, Millis(e.times.entry)), e.sweep, e.times).0)
    ensures Observed(Discovering(d), e) ==
            if e.sweep.opening.Failure? then Sight.Nothing
            else if SeesTarget(e.sweep.opening) then Present else Absent(e.times.seen, e.times.checked)
  {
  }

  /** What discovery records before the n-th event of that run. */
  function StaleRecord(n: nat): Discovery
    requires 1 <= n <= 9
  {
    match n
    case 1 => START_STATE.discovery
    case 2 => Discovery(true, false, false, ECP_FRAME, 0, 1000, 0, 0, 0x9000_0000, 0xA000_0001)
    case 3 => Discovery(true, true, false, ECP_FRAME, 0, 1000, 1000, 0, 0x9000_0001, 0xA000_0001)
    case 4 => Discovery(true, false, true, ECP_FRAME, 0, 2040, 1000, 0, 0x9000_0001, 0xA000_0001)
    case 5 => Discovery(true, false, true, ECP_FRAME, 0, 2080, 1000, 2040, 0x9000_0001, 0xA000_0001)
    case 6 => Discovery(true, false, false, ECP_FRAME, 0, 3000, 1000, 2040, 0x9000_0001, 0xA000_0002)
    case 7 => Discovery(true, true, false, ECP_FRAME, 0, 3000, 3000, 2040, 0x9000_0002, 0xA000_0002)
    case 8 => Discovery(true, false, true, ECP_FRAME, 1, 18_100, 3000, 2040, 0x9000_0002, 0xA000_0002)
    case _ => Discovery(true, false, false, ECP_FRAME, 0, 18_140, 3000, 0, 0x9000_0002, 0xA000_0002)
  }

  lemma FirstCardStep(n: nat)
    requires 1 <= n <= 4
    ensures Take(Discovering(StaleRecord(n)), StaleEvent(n)).0 == Discovering(StaleRecord(n + 1))
    ensures Allowed(Discovering(StaleRecord(n)), StaleEvent(n))
    ensures n == 2 ==> Observed(Discovering(StaleRecord(n)), StaleEvent(n)) == Present
    ensures n == 4 ==> Observed(Discovering(StaleRecord(n)), StaleEvent(n)) == Absent(2040, 2040)
  {
    var d, e := StaleRecord(n), StaleEvent(n);
    if n == 1 {
      StartTakes(d, 1000);
    } else if n == 3 {
      ResumeTakes(d, 2000);
    } else {
      PassTakes(d, e);
    }
  }

  lemma SecondCardStep(n: nat)
    requires 5 <= n <= 8
    ensures Take(Discovering(StaleRecord(n)), StaleEvent(n)).0 == Discovering(StaleRecord(n + 1))
    ensures Allowed(Discovering(StaleRecord(n)), StaleEvent(n))
    ensures n == 6 ==> Observed(Discovering(StaleRecord(n)), StaleEvent(n)) == Present
    ensures n == 7 ==> Observed(Discovering(StaleRecord(n)), StaleEvent(n)) == Sight.Nothing
    ensures n == 8 ==> Observed(Discovering(StaleRecord(n)), StaleEvent(n)) == Absent(18_100, 18_100)
  {
    var d, e := StaleRecord(n), StaleEvent(n);
    if n == 5 {
      StartTakes(d, 3000);
    } else {
      PassTakes(d, e);
    }
  }

  lemma {:induction false} StaleRunReaches(es: seq<Event>, n: nat)
    requires IsStaleRun(es) && 1 <= n <= 9
    ensures Before(START_STATE, es, n) == Discovering(StaleRecord(n))
    ensures AllAllowed(START_STATE, es[..n])
    decreases n
  {
    if n == 1 {
      assert es[..1] == [Connected] && [Connected][..0] == [];
    } else {
      StaleRunReaches(es, n - 1);
      BeforeNext(START_STATE, es, n - 1);
      assert es[..n][..n - 1] == es[..n - 1];
      if n <= 5 {
        FirstCardStep(n - 1);
      } else {
        SecondCardStep(n - 1);
      }
    }
  }

  lemma FirstCardSeen(es: seq<Event>)
    requires IsStaleRun(es)
    ensures Sees(START_STATE, es, 2) == Present && Sees(START_STATE, es, 3) == Sees(START_STATE, es, 5) == Sight.Nothing
  {
    StaleRunReaches(es, 2);
    FirstCardStep(2);
  }

  lemma FirstCardMissed(es: seq<Event>)
    requires IsStaleRun(es)
    ensures Sees(START_STATE, es, 4) == Absent(2040, 2040)
  {
    StaleRunReaches(es, 4);
    FirstCardStep(4);
  }

  lemma StaleRunSees(es: seq<Event>)
    requires IsStaleRun(es)
    ensures Sees(START_STATE, es, 6) == Present && Sees(START_STATE, es, 7) == Sight.Nothing
    ensures Sees(START_STATE, es, 8) == Absent(18_100, 18_100)
  {
    StaleRunReaches(es, 6);
    StaleRunReaches(es, 7);
    StaleRunReaches(es, 8);
    SecondCardStep(6);
    SecondCardStep(7);
    SecondCardStep(8);
  }

  lemma PresentsFrom(r: Reader, es: seq<Event>, n: nat, s: Reader, t: nat)
    requires n < |es| && Before(r, es, n) == s && es[n] == SweepAt(t, [1])
    requires s.step == Step.Idle && MayDiscover(s) && !s.discovery.waitForRemoval && !s.discovery.targetPending
    requires Expired(Millis(t), s.discovery.nextAt)
    ensures PresentsAt(r, es, n)
  {
    FreeCardIsPresented(s, t);
  }

  lemma IsFree(d: Discovery, t: nat)
    requires d.enabled && !d.targetPending && !d.waitForRemoval && d.frame != [] && d.nextAt == t
    ensures var s := Discovering(d);
            && s.step == Step.Idle && MayDiscover(s) && !s.discovery.waitForRemoval && !s.discovery.targetPending
            && Expired(Millis(t), s.discovery.nextAt)
  {
  }

  lemma StaleRunPresents(es: seq<Event>, n: nat)
    requires IsStaleRun(es) && (n == 6 || n == 9)
    ensures PresentsAt(START_STATE, es, n)
  {
    StaleRunReaches(es, n);
    var d := StaleRecord(n);
    IsFree(d, d.nextAt);
    PresentsFrom(START_STATE, es, n, Discovering(d), d.nextAt);
  }

  /** Since the sweep at `p` saw the card, only the one at `m` has not seen it. */
  ghost predicate MissedOnce(r: Reader, es: seq<Event>, p: nat, m: nat, n: nat) {
    && p < m < n <= |es| && Sees(r, es, p) == Present
    && forall k | p < k < n && k != m :: !Sees(r, es, k).Absent?
  }

  /** One look without the card, at one instant, confirms nothing. */
  lemma OneLookConfirmsNothing(r: Reader, es: seq<Event>, p: nat, m: nat, n: nat, t: nat)
    requires MissedOnce(r, es, p, m, n) && Sees(r, es, m) == Absent(t, t)
    ensures !ConfirmedAway(r, es, n)
  {
    forall i: nat, j: nat | i <= j < n && AbsentSince(r, es, i, n) && Sees(r, es, j).Absent?
      ensures Sees(r, es, i) == Sees(r, es, j) == Absent(t, t)
    {
      PresentEndsAbsence(r, es, i, p, n);
    }
  }

  lemma PresentEndsAbsence(r: Reader, es: seq<Event>, i: nat, p: nat, n: nat)
    requires p < n && AbsentSince(r, es, i, n) && Sees(r, es, p) == Present
    ensures p < i
  {
  }

  lemma NeitherIsConfirmed(es: seq<Event>)
    requires IsStaleRun(es)
    ensures !ConfirmedAway(START_STATE, es, 6) && !ConfirmedAway(START_STATE, es, 9)
  {
    FirstCardSeen(es);
    FirstCardMissed(es);
    OneLookConfirmsNothing(START_STATE, es, 2, 4, 6, 2040);
    StaleRunSees(es);
    OneLookConfirmsNothing(START_STATE, es, 6, 8, 9, 18_100);
  }

  lemma StaleRunIsChronological(es: seq<Event>)
    requires IsStaleRun(es)
    ensures Chronological(es)
  {
  }

  lemma StaleRunIsAllowed(es: seq<Event>)
    requires IsStaleRun(es)
    ensures AllAllowed(START_STATE, es) && Chronological(es)
  {
    StaleRunIsChronological(es);
    StaleRunReaches(es, 9);
    assert es[..|es| - 1] == es[..9];
  }

  /** Both failures in one run from power-on, which the rule of `Allowed` permits.  The sweep
      after the second START presents a card again whose transaction had completed, and the last
      one a card that the watchdog had given up; no two sweeps 750 ms apart had missed them. */
  lemma CardPresentedWithoutRemoval() returns (es: seq<Event>)
    ensures IsStaleRun(es) && AllAllowed(START_STATE, es) && Chronological(es)
    ensures PresentsAt(START_STATE, es, 6) && !ConfirmedAway(START_STATE, es, 6)
    ensures PresentsAt(START_STATE, es, 9) && !ConfirmedAway(START_STATE, es, 9)
  {
    es := seq(10, n requires 0 <= n < 10 => StaleEvent(n));
    StaleRunIsAllowed(es);
    StaleRunPresents(es, 6);
    StaleRunPresents(es, 9);
    NeitherIsConfirmed(es);
  }

  // ----- One event per presentation -----

  /** A stretch of run in which nothing releases a target presented at `since`: no START or
      RESUME is accepted, and every pass comes within the watchdog's 15 s. */
  ghost predicate Unreleased(r: Reader, es: seq<Event>, since: nat) {
    && (forall n | 0 <= n < |es| :: !AcceptsStart(Before(r, es, n), es[n]) && !AcceptsResume(Before(r, es, n), es[n]))
    && (forall n | 0 <= n < |es| :: es[n].Loop? ==> since <= es[n].times.entry < since + 15_000)
  }

  /** A target presented at `since` is still pending, or discovery is off. */
  predicate Holding(d: Discovery, since: nat) {
    DiscoveryInv(d) && (!d.enabled || (d.targetPending && d.pendingAt == Millis(since)))
  }

  lemma PendingSurvives(r: Reader, e: Event, since: nat)
    requires Holding(r.discovery, since) && !AcceptsStart(r, e) && !AcceptsResume(r, e)
    requires e.Loop? ==> since <= e.times.entry < since + DISCOVERY_WATCHDOG_MS
    ensures Holding(Take(r, e).0.discovery, since) && !SendsTarget(r, e)
  {
    if e.Loop? {
      PassKeepsPending(r, e, since);
    } else if e.Receive? && DecodeMessage(e.raw).Some? {
      MessageEffect(r, DecodeMessage(e.raw).value, e.radio, Millis(e.now));
      MessageKeepsPendingAt(r, DecodeMessage(e.raw).value, e.radio, Millis(e.now));
    }
  }

  lemma MessageKeepsPendingAt(r: Reader, m: ProtocolMessage, radio: Radio, now: u32)
    ensures Dispatch(r, m, radio, now).0.discovery.pendingAt == r.discovery.pendingAt
  {
  }

  lemma PassKeepsPending(r: Reader, e: Event, since: nat)
    requires e.Loop? && Holding(r.discovery, since)
    requires since <= e.times.entry < since + DISCOVERY_WATCHDOG_MS
    ensures Holding(Take(r, e).0.discovery, since) && !SendsTarget(r, e)
  {
    if !r.ota {
      UpdateLeavesDiscovery(Drain(r, e.bytes), Millis(e.times.poll));
      var (s, out) := Update(Drain(r, e.bytes), Millis(e.times.poll));
      TargetsOfPass(out, AutonomousDiscovery(s, e.sweep, e.times).1);
      ElapsedNeverOverstates(since, e.times.entry);
    }
  }

  lemma {:induction false} StaysHeld(r: Reader, es: seq<Event>, since: nat, n: nat)
    requires n <= |es| && Holding(r.discovery, since) && Unreleased(r, es, since)
    ensures Holding(Before(r, es, n).discovery, since)
  {
    if n == 0 {
      assert es[..0] == [];
    } else {
      StaysHeld(r, es, since, n - 1);
      PendingSurvives(Before(r, es, n - 1), es[n - 1], since);
      BeforeNext(r, es, n - 1);
    }
  }

  /** One event per presentation.  Once a pass has sent a TARGET_EVENT, another follows only
      after a START, an accepted RESUME, or a pass at least 15 s later. */
  lemma OneEventPerPresentation(r: Reader, e: Event, es: seq<Event>)
    requires DiscoveryInv(r.discovery) && e.Loop? && SendsTarget(r, e)
    requires e.sweep.opening.Success? ==> |e.sweep.opening.data| <= MAX_DATA
    requires Unreleased(Take(r, e).0, es, e.times.done)
    ensures forall n: nat | n < |es| :: !SendsTarget(Before(Take(r, e).0, es, n), es[n])
  {
    var s := Take(r, e).0;
    PresentingHolds(r, e);
    forall n: nat | n < |es| ensures !SendsTarget(Before(s, es, n), es[n]) {
      StaysHeld(s, es, e.times.done, n);
      PendingSurvives(Before(s, es, n), es[n], e.times.done);
    }
  }

  lemma PresentingHolds(r: Reader, e: Event)
    requires DiscoveryInv(r.discovery) && e.Loop? && SendsTarget(r, e)
    requires e.sweep.opening.Success? ==> |e.sweep.opening.data| <= MAX_DATA
    ensures Holding(Take(r, e).0.discovery, e.times.done)
  {
    LoopEffect(r, e);
    UpdateLeavesDiscovery(Drain(r, e.bytes), Millis(e.times.poll));
    var (s, out) := Update(Drain(r, e.bytes), Millis(e.times.poll));
    TargetsOfPass(out, AutonomousDiscovery(s, e.sweep, e.times).1);
    assert HasTarget(RunSweep(s.discovery, e.sweep, e.times).1.messages);
  }
}
