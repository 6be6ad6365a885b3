/**
  The hub reports nothing that did not happen: over every run of the main loop, every report is
  made on an admission of the command it names; "sent to probe" follows an acknowledged write of
  that very admission, "expired" a clock read past its deadline and before the report, and
  "failed" an action that cannot be carried out. Each carries its own reason code.
 */
module TruthfulReports {
  import opened DeliveryOrder
  import opened Hub
  import opened Machine
  import opened MotorWire
  import opened SessionCredit

  /** The ticket is an admission of that command, for that probe, before `i`. */
  predicate AdmittedBefore(log: seq<Event>, i: nat, ticket: nat, id: string, node: string) {
    ticket < i <= |log| && log[ticket].Admitted? && log[ticket].command.commandId == id &&
      log[ticket].command.nodeId == node
  }

  predicate WriteAcknowledged(e: Event, ticket: nat, id: string, node: string) {
    e.Written? && e.acknowledged && e.request.ticket == ticket && e.request.commandId == id && e.probe == node
  }

  /** That admission was written before, and the probe acknowledged the write. */
  ghost predicate TrueDelivery(log: seq<Event>, i: nat, ticket: nat, id: string, node: string) {
    exists j: nat :: j < i <= |log| && WriteAcknowledged(log[j], ticket, id, node)
  }

  /** Before `i`, no acknowledgement was asked at the oracle's question `k`, so that the clock was read there. */
  ghost predicate ClockRead(log: seq<Event>, i: nat, k: nat) {
    forall m :: 0 <= m < i <= |log| && log[m].Acked? ==> log[m].tick != k
  }

  /** The clock had been read, before the oracle's question `tick`, at or past the deadline. */
  ghost predicate TrueExpiry(w: Oracle, log: seq<Event>, i: nat, tick: nat, c: PolledCommand) {
    exists k: nat :: k < tick && ClockRead(log, i, k) && c.expiresAt <= w.clock(k)
  }

  /** The event at `i`, if it is an acknowledgement by the hub, is true of what came before it. */
  ghost predicate TrueAt(w: Oracle, log: seq<Event>, i: nat)
    requires i < |log|
  {
    var e := log[i];
    e.Acked? && e.origin.FromHub? ==>
      && AdmittedBefore(log, i, e.origin.ticket, e.commandId, e.nodeId)
      && var c := log[e.origin.ticket].command;
         match e.status
         case SentToProbe => e.reason == NoReason && TrueDelivery(log, i, e.origin.ticket, e.commandId, e.nodeId)
         case Expired => e.reason == TtlExpired && TrueExpiry(w, log, i, e.tick, c)
         case Failed => e.reason == BleWriteFailed && Unusable(c)
         case Executing => false
         case Succeeded => false
  }

  ghost predicate AllTrue(w: Oracle, log: seq<Event>) {
    forall i: nat :: i < |log| ==> TrueAt(w, log, i)
  }

  /** What was true stays true when the log grows. */
  lemma StaysTrue(w: Oracle, log: seq<Event>, longer: seq<Event>, i: nat)
    requires i < |log| && Extends(log, longer) && TrueAt(w, log, i)
    ensures TrueAt(w, longer, i)
  {
    var e := log[i];
    if e.Acked? && e.origin.FromHub? && e.status == SentToProbe {
      var j: nat :| j < i <= |log| && WriteAcknowledged(log[j], e.origin.ticket, e.commandId, e.nodeId);
      assert WriteAcknowledged(longer[j], e.origin.ticket, e.commandId, e.nodeId);
    }
    if e.Acked? && e.origin.FromHub? && e.status == Expired {
      var c := log[e.origin.ticket].command;
      var k: nat :| k < e.tick && ClockRead(log, i, k) && c.expiresAt <= w.clock(k);
      assert ClockRead(longer, i, k);
    }
  }

  /** Extending a true log by true events. */
  lemma ExtendTrue(w: Oracle, log: seq<Event>, longer: seq<Event>)
    requires AllTrue(w, log) && Extends(log, longer)
    requires forall i: nat :: |log| <= i < |longer| ==> TrueAt(w, longer, i)
    ensures AllTrue(w, longer)
  {
    forall i: nat | i < |longer|
      ensures TrueAt(w, longer, i)
    {
      if i < |log| {
        StaysTrue(w, log, longer, i);
      }
    }
  }

  /** Every acknowledgement in the log was asked before the oracle's question `tick`. */
  ghost predicate AskedBefore(log: seq<Event>, tick: nat) {
    forall m :: 0 <= m < |log| && log[m].Acked? ==> log[m].tick < tick
  }

  ghost predicate Honest(w: Oracle, s: State) {
    FirstInFirstOut(s.pending, s.log) && AllTrue(w, s.log) && AskedBefore(s.log, s.tick)
  }

  // ---------- The poll window ----------

  /** Reporting an expiry after a clock read past the deadline of an admitted command. */
  lemma ReportExpiryIsTrue(w: Oracle, s: State, ticket: nat, k: nat, id: string, node: string)
    requires AllTrue(w, s.log)
    requires AdmittedBefore(s.log, |s.log|, ticket, id, node)
    requires k < s.tick && ClockRead(s.log, |s.log|, k) && s.log[ticket].command.expiresAt <= w.clock(k)
    ensures AllTrue(w, Report(w, s, ticket, id, node, Expired, TtlExpired).log)
  {
    var longer := Report(w, s, ticket, id, node, Expired, TtlExpired).log;
    assert AdmittedBefore(longer, |s.log|, ticket, id, node);
    assert ClockRead(longer, |s.log|, k);
    assert TrueExpiry(w, longer, |s.log|, s.tick, s.log[ticket].command);
    ExtendTrue(w, s.log, longer);
  }

  lemma ReportFailureIsTrue(w: Oracle, s: State, ticket: nat, id: string, node: string)
    requires AllTrue(w, s.log)
    requires AdmittedBefore(s.log, |s.log|, ticket, id, node) && Unusable(s.log[ticket].command)
    ensures AllTrue(w, Report(w, s, ticket, id, node, Failed, BleWriteFailed).log)
  {
    var longer := Report(w, s, ticket, id, node, Failed, BleWriteFailed).log;
    assert AdmittedBefore(longer, |s.log|, ticket, id, node);
    ExtendTrue(w, s.log, longer);
  }

  lemma JudgeIsHonest(w: Oracle, s: State, k: nat)
    requires Honest(w, s)
    ensures Honest(w, Judge(w, s, k))
  {
    JudgeKeepsOrder(w, s, k);
    if k < |s.pending| {
      var e, read := s.pending[k], s.(tick := s.tick + 1);
      if IsExpired(e.expiresAtEpochMs, w.clock(s.tick)) {
        assert EntryFaithful(s.log, e);
        ReportExpiryIsTrue(w, read, e.ticket, s.tick, e.commandId, e.nodeId);
      }
    }
  }

  lemma {:induction false} SweepIsHonest(w: Oracle, s: State, k: nat)
    requires Honest(w, s)
    ensures Honest(w, Sweep(w, s, k))
    decreases |s.pending| - k
  {
    if k < |s.pending| {
      var t := Judge(w, s, k);
      JudgeIsHonest(w, s, k);
      SweepIsHonest(w, t, if |t.pending| < |s.pending| then k else k + 1);
    }
  }

  lemma PlaceIsTrue(w: Oracle, s: State, c: PolledCommand, ticket: nat)
    requires AllTrue(w, s.log) && AskedBefore(s.log, s.tick)
    requires ticket < |s.log| && s.log[ticket].Admitted? && s.log[ticket].command == c
    ensures AllTrue(w, Place(w, s, c, ticket).log)
  {
    var read := s.(tick := s.tick + 1);
    assert AdmittedBefore(s.log, |s.log|, ticket, c.commandId, c.nodeId);
    if IsExpired(c.expiresAt, w.clock(s.tick)) {
      ReportExpiryIsTrue(w, read, ticket, s.tick, c.commandId, c.nodeId);
    } else if ActionByte(c).None? {
      ActionByteExactly(c);
      ReportFailureIsTrue(w, read, ticket, c.commandId, c.nodeId);
    }
  }

  lemma OfferIsHonest(w: Oracle, s: State, c: PolledCommand)
    requires Honest(w, s)
    ensures Honest(w, Offer(w, s, c))
  {
    OfferKeepsOrder(w, s, c);
    if LetsIn(w, s, c) {
      var admitted := Admit(w, s, c);
      ExtendTrue(w, s.log, admitted.log);
      PlaceIsTrue(w, admitted, c, |s.log|);
    } else {
      ExtendTrue(w, s.log, Offer(w, s, c).log);
    }
  }

  lemma {:induction false} OffersAreHonest(w: Oracle, s: State, cs: seq<PolledCommand>)
    requires Honest(w, s)
    ensures Honest(w, OfferAll(w, s, cs))
    decreases |cs|
  {
    if cs != [] {
      OfferIsHonest(w, s, cs[0]);
      OffersAreHonest(w, Offer(w, s, cs[0]), cs[1..]);
    }
  }

  // ---------- The session ----------

  /** What the writer's outcome says about the world: a delivery was acknowledged, an expiry was read off the clock. */
  lemma OutcomeIsTrue(w: Oracle, s: State, probe: string, r: MotorDispatchRequest, radio: Radio)
    ensures var (t, outcome) := WriteRequest(w, s, probe, r, radio);
      && s.tick <= t.tick
      && (outcome == Delivered ==>
           |t.log| == |s.log| + 1 && WriteAcknowledged(t.log[|s.log|], r.ticket, r.commandId, probe))
      && (outcome == ExpiredBeforeWrite ==> exists k: nat :: s.tick <= k < t.tick && r.expiresAtEpochMs <= w.clock(k))
  {
    var (t, outcome) := WriteRequest(w, s, probe, r, radio);
    if outcome == ExpiredBeforeWrite {
      assert r.expiresAtEpochMs <= w.clock(t.tick - 1);
    }
  }

  lemma SendIsHonest(w: Oracle, s: State, probe: string, radio: Radio)
    requires Honest(w, s)
    ensures Honest(w, Send(w, s, probe, radio).0)
  {
    var t := Send(w, s, probe, radio).0;
    SendKeepsOrder(w, s, probe, radio);
    ExtendTrue(w, s.log, t.log);
  }

  lemma HearIsHonest(w: Oracle, s: State, probe: string, result: ProbeMotorResult)
    requires Honest(w, s)
    ensures Honest(w, Hear(w, s, probe, result))
  {
    var t := Hear(w, s, probe, result);
    HearKeepsOrder(w, s, probe, result);
    ExtendTrue(w, s.log, t.log);
  }

  /** Reporting a delivery whose acknowledged write is in the log. */
  lemma DispatchDeliveryIsTrue(w: Oracle, s: State, e: PendingMotorCommand, j: nat)
    requires AllTrue(w, s.log) && EntryFaithful(s.log, e)
    requires j < |s.log| && WriteAcknowledged(s.log[j], e.ticket, e.commandId, e.nodeId)
    ensures AllTrue(w, Dispatch(w, s, e, Delivered).0.log)
  {
    var t := Dispatch(w, s, e, Delivered).0;
    assert AdmittedBefore(t.log, |s.log|, e.ticket, e.commandId, e.nodeId);
    assert WriteAcknowledged(t.log[j], e.ticket, e.commandId, e.nodeId);
    assert TrueDelivery(t.log, |s.log|, e.ticket, e.commandId, e.nodeId);
    ExtendTrue(w, s.log, t.log);
  }

  /** Completing with an outcome that is true of the log and the clock. */
  lemma CompleteIsHonest(w: Oracle, s: State, probe: string, outcome: DispatchResult, basis: nat)
    requires Honest(w, s) && IndexFor(s.pending, probe) < |s.pending|
    requires var e := s.pending[IndexFor(s.pending, probe)];
      && (outcome == Delivered ==> basis < |s.log| && WriteAcknowledged(s.log[basis], e.ticket, e.commandId, e.nodeId))
      && (outcome == ExpiredBeforeWrite ==>
            basis < s.tick && ClockRead(s.log, |s.log|, basis) && e.expiresAtEpochMs <= w.clock(basis))
    ensures Honest(w, Complete(w, s, probe, outcome))
  {
    var e := s.pending[IndexFor(s.pending, probe)];
    CompleteKeepsOrder(w, s, probe, outcome);
    assert EntryFaithful(s.log, e);
    match outcome
    case Delivered => DispatchDeliveryIsTrue(w, s, e, basis);
    case ExpiredBeforeWrite => ReportExpiryIsTrue(w, s, e.ticket, basis, e.commandId, e.nodeId);
    case BleWriteFailure =>
  }

  /** Where in the log, or when on the clock, the writer's outcome is founded. */
  lemma SendHasBasis(w: Oracle, s: State, probe: string, radio: Radio) returns (basis: nat)
    requires IndexFor(s.pending, probe) < |s.pending|
    ensures var e, sending := s.pending[IndexFor(s.pending, probe)], Send(w, s, probe, radio);
      var t, outcome := sending.0, sending.1;
      && outcome.Some? && t.pending == s.pending
      && (outcome.value == Delivered ==>
           basis < |t.log| && WriteAcknowledged(t.log[basis], e.ticket, e.commandId, e.nodeId))
      && (outcome.value == ExpiredBeforeWrite ==> s.tick <= basis < t.tick && e.expiresAtEpochMs <= w.clock(basis))
  {
    var k := IndexFor(s.pending, probe);
    var (t, outcome) := WriteRequest(w, s, probe, RequestOf(s.pending[k]), radio);
    OutcomeIsTrue(w, s, probe, RequestOf(s.pending[k]), radio);
    basis := |s.log|;
    if outcome == ExpiredBeforeWrite {
      basis :| s.tick <= basis < t.tick && s.pending[k].expiresAtEpochMs <= w.clock(basis);
    }
  }

  lemma HearOnlyAppends(w: Oracle, s: State, probe: string, result: ProbeMotorResult)
    ensures var t := Hear(w, s, probe, result);
      && s.tick <= t.tick && Extends(s.log, t.log)
      && (forall m :: |s.log| <= m < |t.log| && t.log[m].Acked? ==> s.tick <= t.log[m].tick)
  {
  }

  /** Between the sending and the completion, an expiry found by the writer still rests on a clock read. */
  lemma BasisIsClockRead(w: Oracle, s: State, probe: string, radio: Radio, basis: nat)
    requires AskedBefore(s.log, s.tick) && s.tick <= basis < Send(w, s, probe, radio).0.tick
    ensures var heard := AfterHearing(w, s, probe, radio);
      basis < heard.tick && ClockRead(heard.log, |heard.log|, basis)
  {
    var sent := Send(w, s, probe, radio).0;
    assert forall m :: 0 <= m < |sent.log| && sent.log[m].Acked? ==> sent.log[m].tick < s.tick;
    if HeardResult(radio).Some? {
      HearOnlyAppends(w, sent, probe, HeardResult(radio).value);
    }
  }

  lemma SessionIsHonest(w: Oracle, s: State, probe: string, radio: Radio)
    requires Honest(w, s)
    ensures Honest(w, Session(w, s, probe, radio))
  {
    var (sent, outcome) := Send(w, s, probe, radio);
    var heard := AfterHearing(w, s, probe, radio);
    SendIsHonest(w, s, probe, radio);
    if HeardResult(radio).Some? {
      HearIsHonest(w, sent, probe, HeardResult(radio).value);
      HearOnlyAppends(w, sent, probe, HeardResult(radio).value);
    }
    PeekStillHoldsAtCompletion(w, s, probe, radio);
    if !HeardTerminal(radio) && outcome.Some? {
      var basis := SendHasBasis(w, s, probe, radio);
      if outcome.value == ExpiredBeforeWrite {
        BasisIsClockRead(w, s, probe, radio, basis);
      }
      CompleteIsHonest(w, heard, probe, outcome.value, basis);
    }
  }

  // ---------- All runs of the main loop ----------

  /** The steps of the main loop. (A completion on its own could claim anything.) */
  predicate MainLoopStep(step: Step) {
    step.PollWindow? || step.ProbeSession?
  }

  lemma {:induction false} RunIsHonest(w: Oracle, s: State, steps: seq<Step>)
    requires Honest(w, s) && forall i :: 0 <= i < |steps| ==> MainLoopStep(steps[i])
    ensures Honest(w, Run(w, s, steps))
    decreases |steps|
  {
    if steps != [] {
      match steps[0] {
        case PollWindow(pulled) =>
          SweepIsHonest(w, s, 0);
          if pulled.Some? {
            OffersAreHonest(w, Sweep(w, s, 0), pulled.value);
          }
        case ProbeSession(probe, radio) =>
          SessionIsHonest(w, s, probe, radio);
        case ApplyResult(_, _) =>
        case CompleteDispatch(_, _) =>
      }
      RunIsHonest(w, Exec(w, s, steps[0]), steps[1..]);
    }
  }

  /** Every acknowledgement that the hub ever makes on its own account is true. */
  lemma HubReportsAreTrue(w: Oracle, steps: seq<Step>)
    requires forall i :: 0 <= i < |steps| ==> MainLoopStep(steps[i])
    ensures AllTrue(w, Run(w, INITIAL, steps).log)
  {
    RunIsHonest(w, INITIAL, steps);
  }
}
