/**
  One BLE session: the outcome of a write is credited to the command that was written, and to no
  other, whatever the probe reports in between.
 */
module SessionCredit {
  import opened Hub
  import opened Machine
  import opened MotorWire
  import opened Uuid
  import opened Wrappers

  /** Neither writing nor hearing moves the pending commands, so the entry completed is the one that was peeked. */
  lemma PeekStillHoldsAtCompletion(w: Oracle, s: State, probe: string, radio: Radio)
    ensures AfterHearing(w, s, probe, radio).pending == s.pending
    ensures AfterHearing(w, s, probe, radio).tick >= s.tick
  {
  }

  /** A write, or an acknowledgement by the hub, that concerns the peeked command; or what a probe causes. */
  predicate Concerns(e: Event, peeked: PendingMotorCommand) {
    match e
    case Admitted(_, _) => false
    case Refused(_, _) => false
    case FinishedAt(_, _, _) => true
    case Acked(origin, id, node, _, _, _, _) =>
      origin.FromHub? ==> origin.ticket == peeked.ticket && id == peeked.commandId && node == peeked.nodeId
    case Written(probe, request, _, _, _) => probe == peeked.nodeId && request == RequestOf(peeked)
  }

  ghost predicate AddsOnly(log: seq<Event>, longer: seq<Event>, peeked: PendingMotorCommand) {
    && Extends(log, longer)
    && (forall i :: |log| <= i < |longer| ==> Concerns(longer[i], peeked))
  }

  lemma SendConcernsPeeked(w: Oracle, s: State, probe: string, radio: Radio)
    requires IndexFor(s.pending, probe) < |s.pending|
    ensures AddsOnly(s.log, Send(w, s, probe, radio).0.log, s.pending[IndexFor(s.pending, probe)])
  {
  }

  lemma HearConcernsNoOther(w: Oracle, s: State, probe: string, result: ProbeMotorResult, peeked: PendingMotorCommand)
    ensures AddsOnly(s.log, Hear(w, s, probe, result).log, peeked)
  {
  }

  lemma CompleteConcernsPeeked(w: Oracle, s: State, probe: string, outcome: DispatchResult)
    requires IndexFor(s.pending, probe) < |s.pending|
    ensures AddsOnly(s.log, Complete(w, s, probe, outcome).log, s.pending[IndexFor(s.pending, probe)])
  {
  }

  /** A session drops at most the peeked command, and writes and reports on no other. */
  lemma SessionCreditsPeekedCommand(w: Oracle, s: State, probe: string, radio: Radio)
    requires IndexFor(s.pending, probe) < |s.pending|
    ensures var k, t := IndexFor(s.pending, probe), Session(w, s, probe, radio);
      && (t.pending == s.pending || t.pending == Without(s.pending, k))
      && AddsOnly(s.log, t.log, s.pending[k])
  {
    var k := IndexFor(s.pending, probe);
    var sent, heard, t := Send(w, s, probe, radio).0, AfterHearing(w, s, probe, radio), Session(w, s, probe, radio);
    PeekStillHoldsAtCompletion(w, s, probe, radio);
    SendConcernsPeeked(w, s, probe, radio);
    if HeardResult(radio).Some? {
      HearConcernsNoOther(w, sent, probe, HeardResult(radio).value, s.pending[k]);
    }
    AddsOnlyTransitive(s.log, sent.log, heard.log, s.pending[k]);
    if !HeardTerminal(radio) {
      CompleteConcernsPeeked(w, heard, probe, Send(w, s, probe, radio).1.value);
    }
    AddsOnlyTransitive(s.log, heard.log, t.log, s.pending[k]);
  }

  lemma AddsOnlyTransitive(a: seq<Event>, b: seq<Event>, c: seq<Event>, peeked: PendingMotorCommand)
    requires AddsOnly(a, b, peeked) && AddsOnly(b, c, peeked)
    ensures AddsOnly(a, c, peeked)
  {
  }

  /** With nothing pending for the probe, a session writes nothing, and can only pass a result on. */
  lemma SessionWithoutCommandOnlyHears(w: Oracle, s: State, probe: string, radio: Radio)
    requires IndexFor(s.pending, probe) == |s.pending|
    ensures Session(w, s, probe, radio)
         == if HeardResult(radio).Some? then Hear(w, s, probe, HeardResult(radio).value) else s
    ensures Session(w, s, probe, radio).pending == s.pending
  {
  }

  /** The command can be encoded: a supported action and a UUID. */
  predicate Encodable(e: PendingMotorCommand) {
    (e.action == ACTION_STOP || e.action == ACTION_RUN_FOR_DURATION) && IsUuidText(e.commandId)
  }

  /** The deadline is ahead of both clock reads that the writer makes before a write. */
  predicate InTime(w: Oracle, tick: nat, deadline: I64) {
    w.clock(tick) < deadline && w.clock(tick + 1) < deadline
  }

  /**
    The number of the question whether the delivery report got through: after the two clock reads, and
    what hearing the result asked.
   */
  function ReportTick(w: Oracle, s: State, radio: Radio): nat {
    s.tick + 2 +
      match HeardResult(radio)
      case None => 0
      case Some(result) =>
        if Canonical(result.commandId) in s.applied || !(4 <= result.status <= 7) then 0
        else if w.ackSent(s.tick + 2) then 3
        else 1
  }

  /**
    No terminal result is heard, and the command is either found late or is delivered with a report that
    gets through.
   */
  predicate LeavesPending(w: Oracle, s: State, e: PendingMotorCommand, radio: Radio) {
    && !HeardTerminal(radio)
    && radio.characteristicFound
    && if e.expiresAtEpochMs <= w.clock(s.tick) then true
       else if !Encodable(e) then e.expiresAtEpochMs <= w.clock(s.tick + 1)
       else if e.expiresAtEpochMs <= w.clock(s.tick + 1) then e.expiresAtEpochMs <= w.clock(s.tick + 2)
       else radio.writeAcknowledged && w.ackSent(ReportTick(w, s, radio))
  }

  /**
    Exactly when the peeked command leaves the pending list, in terms of the radio, the clock and the
    acknowledgements.
   */
  lemma PeekedCommandLeavesExactlyWhen(w: Oracle, s: State, probe: string, radio: Radio)
    requires IndexFor(s.pending, probe) < |s.pending|
    ensures var k := IndexFor(s.pending, probe);
      && (Session(w, s, probe, radio).pending == Without(s.pending, k) <==> LeavesPending(w, s, s.pending[k], radio))
      && (!LeavesPending(w, s, s.pending[k], radio) ==> Session(w, s, probe, radio).pending == s.pending)
  {
    PeekStillHoldsAtCompletion(w, s, probe, radio);
    var k, heard := IndexFor(s.pending, probe), AfterHearing(w, s, probe, radio);
    var outcome := Send(w, s, probe, radio).1.value;
    assert |Without(s.pending, k)| < |s.pending|;
    if !HeardTerminal(radio) {
      CompletionDropsExactlyWhen(w, heard, probe, outcome);
      if outcome == Delivered {
        assert heard.tick == ReportTick(w, s, radio);
      }
    }
  }

  lemma CompletionDropsExactlyWhen(w: Oracle, s: State, probe: string, outcome: DispatchResult)
    requires IndexFor(s.pending, probe) < |s.pending|
    ensures var k, t := IndexFor(s.pending, probe), Complete(w, s, probe, outcome);
      t.pending == if outcome == ExpiredBeforeWrite || (outcome == Delivered && w.ackSent(s.tick))
        then Without(s.pending, k) else s.pending
  {
  }

  /**
    A terminal result, even about another command, skips the completion: the command just written
    stays pending and is the one offered in the next session, so it can be written twice.
   */
  lemma TerminalResultLeavesCommandOffered(w: Oracle, s: State, probe: string, radio: Radio, next: Radio)
    requires HeardTerminal(radio) && IndexFor(s.pending, probe) < |s.pending|
    ensures var k, t := IndexFor(s.pending, probe), Session(w, s, probe, radio);
      && t.pending == s.pending
      && Send(w, t, probe, next) == ((WriteRequest(w, t, probe, RequestOf(s.pending[k]), next).0),
                                     Some(WriteRequest(w, t, probe, RequestOf(s.pending[k]), next).1))
  {
    PeekStillHoldsAtCompletion(w, s, probe, radio);
  }

  /** The command can be written whenever the clock is read, and its identifier and action are encodable. */
  ghost predicate WritableThroughout(w: Oracle, e: PendingMotorCommand) {
    Encodable(e) && forall i: nat :: w.clock(i) < e.expiresAtEpochMs
  }

  /** A session whose probe reports a terminal result leaves the write in the log and the command in the list. */
  lemma WriteThenTerminalResult(w: Oracle, s: State, probe: string, radio: Radio)
    requires IndexFor(s.pending, probe) < |s.pending|
    requires radio.characteristicFound && HeardTerminal(radio)
    requires WritableThroughout(w, s.pending[IndexFor(s.pending, probe)])
    ensures var t := Session(w, s, probe, radio);
      && t.pending == s.pending
      && |s.log| < |t.log| && t.log[..|s.log|] == s.log
      && t.log[|s.log|].Written? && t.log[|s.log|].request == RequestOf(s.pending[IndexFor(s.pending, probe)])
      && t.log[|s.log|].acknowledged == radio.writeAcknowledged
  {
    var e, sent := s.pending[IndexFor(s.pending, probe)], Send(w, s, probe, radio).0;
    var encoded := EncodeRequest(e.commandId, e.action, e.durationMs, e.expiresAtEpochMs, w.clock(s.tick + 1));
    assert encoded.Encoded?;
    assert sent.log == s.log + [Written(probe, RequestOf(e), encoded.payload, encoded.at, radio.writeAcknowledged)];
    assert sent.log <= AfterHearing(w, s, probe, radio).log == Session(w, s, probe, radio).log;
  }

  /** A usable command that has not expired, pulled by the first poll window, is the one pending command. */
  lemma FirstPollStores(w: Oracle, c: PolledCommand, action: Byte)
    requires ActionByte(c) == Some(action) && forall i: nat :: !IsExpired(c.expiresAt, w.clock(i))
    ensures PollOnce(w, INITIAL, Some([c])).pending
         == [PendingMotorCommand(c.commandId, c.nodeId, action, c.durationMs, c.expiresAt, 0)]
    ensures PollOnce(w, INITIAL, Some([c])).log == [Admitted(c, w.clock(0))]
  {
    var offered := Offer(w, INITIAL, c);
    assert OfferAll(w, offered, [c][1..]) == offered;
    assert Sweep(w, INITIAL, 0) == INITIAL;
    assert LetsIn(w, INITIAL, c);
  }

  /**
    While the clock never goes back, the writer reports a late command as expired and never as a
    failed write; a command in time is delivered exactly when it has a UUID and the write is acknowledged.
   */
  lemma WriterOutcomeExactly(w: Oracle, s: State, probe: string, r: MotorDispatchRequest, radio: Radio)
    requires ClockNeverGoesBack(w) && radio.characteristicFound
    requires r.action == ACTION_STOP || r.action == ACTION_RUN_FOR_DURATION
    ensures WriteRequest(w, s, probe, r, radio).1 ==
      if r.expiresAtEpochMs <= w.clock(s.tick + 1) then ExpiredBeforeWrite
      else if IsUuidText(r.commandId) && radio.writeAcknowledged then Delivered
      else BleWriteFailure
  {
    assert w.clock(s.tick) <= w.clock(s.tick + 1) <= w.clock(s.tick + 2);
  }

  // ---------- What counts as expired ----------

  /** The poller's test for expiry and the writer's agree, at any time, exactly on positive deadlines. */
  lemma PollerAndWriterAgreeExactlyWhen(deadline: I64, now: EpochMs)
    ensures (IsExpired(deadline, now) <==> deadline <= now) <==> deadline > 0
  {
  }

  /** The acknowledgement says that the hub found the command expired. */
  predicate ReportsExpiry(event: Event, e: PendingMotorCommand) {
    && event.Acked? && event.origin == FromHub(e.ticket)
    && event.commandId == e.commandId && event.nodeId == e.nodeId
    && event.status == Expired && event.reason == TtlExpired
  }

  /**
    The poller never expires a command with a deadline of zero or less. The writer always does: it never
    writes the command, and a session that finds the characteristic and hears no terminal result reports
    it expired and drops it, while any other session leaves it pending.
   */
  lemma NonPositiveDeadlineIsReportedExpired(w: Oracle, s: State, probe: string, radio: Radio)
    requires IndexFor(s.pending, probe) < |s.pending|
    requires s.pending[IndexFor(s.pending, probe)].expiresAtEpochMs <= 0
    ensures var k, t := IndexFor(s.pending, probe), Session(w, s, probe, radio);
      && (forall now: EpochMs :: !IsExpired(s.pending[k].expiresAtEpochMs, now))
      && (forall i :: |s.log| <= i < |t.log| ==> !t.log[i].Written?)
      && (t.pending == Without(s.pending, k) <==> radio.characteristicFound && !HeardTerminal(radio))
      && (radio.characteristicFound && !HeardTerminal(radio) ==>
            |s.log| + 2 <= |t.log| && ReportsExpiry(t.log[|t.log| - 2], s.pending[k]))
  {
    PeekedCommandLeavesExactlyWhen(w, s, probe, radio);
    PeekStillHoldsAtCompletion(w, s, probe, radio);
  }

  /**
    A run in which the poller queues such a command as live, and the next session with its probe reports it
    expired without writing it.
   */
  lemma QueuedThenReportedExpired(w: Oracle, c: PolledCommand, action: Byte, radio: Radio)
    requires ActionByte(c) == Some(action) && c.expiresAt <= 0
    requires radio.characteristicFound && !HeardTerminal(radio)
    ensures var poll, session := PollWindow(Some([c])), ProbeSession(c.nodeId, radio);
      var e := PendingMotorCommand(c.commandId, c.nodeId, action, c.durationMs, c.expiresAt, 0);
      var queued, reported := Run(w, INITIAL, [poll]), Run(w, INITIAL, [poll] + [session]);
      && queued.pending == [e] && queued.log == [Admitted(c, w.clock(0))]
      && reported.pending == []
      && (exists i :: 1 <= i < |reported.log| && ReportsExpiry(reported.log[i], e))
      && (forall i :: 0 <= i < |reported.log| ==> !reported.log[i].Written?)
  {
    var poll, session := PollWindow(Some([c])), ProbeSession(c.nodeId, radio);
    var queued := PollOnce(w, INITIAL, Some([c]));
    RunOfOne(w, INITIAL, poll);
    RunSnoc(w, INITIAL, [poll], session);
    FirstPollStores(w, c, action);
    NonPositiveDeadlineIsReportedExpired(w, queued, c.nodeId, radio);
    SessionCreditsPeekedCommand(w, queued, c.nodeId, radio);
    assert Without(queued.pending, 0) == [];
  }
}
