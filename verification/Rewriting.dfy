/**
  When a command that was written is written again, and when it never is.
 */
module Rewriting {
  import opened AdmissionLife
  import opened DeliveryOrder
  import opened Hub
  import opened HeadOfLine
  import opened Machine
  import opened MotorWire
  import opened SessionCredit
  import opened Uuid
  import opened Wrappers

  /** Once the peeked command leaves the list, its admission is never written or reported on again, whatever happens. */
  lemma NeverAgainOnceItLeaves(w: Oracle, s: State, probe: string, radio: Radio, steps: seq<Step>)
    requires PendingInOrder(s.pending, s.log) && IndexFor(s.pending, probe) < |s.pending|
    requires LeavesPending(w, s, s.pending[IndexFor(s.pending, probe)], radio)
    ensures var e, t := s.pending[IndexFor(s.pending, probe)], Session(w, s, probe, radio);
      && NotPending(Run(w, t, steps).pending, e.ticket)
      && SilentOn(t.log, Run(w, t, steps).log, e.ticket)
  {
    var k, t := IndexFor(s.pending, probe), Session(w, s, probe, radio);
    PeekedCommandLeavesExactlyWhen(w, s, probe, radio);
    SessionCreditsPeekedCommand(w, s, probe, radio);
    WithoutIsNotPending(s.pending, s.log, k);
    GoneForGood(w, t, steps, s.pending[k].ticket);
  }

  lemma WithoutIsNotPending(pending: seq<PendingMotorCommand>, log: seq<Event>, k: nat)
    requires PendingInOrder(pending, log) && k < |pending|
    ensures pending[k].ticket < |log| && NotPending(Without(pending, k), pending[k].ticket)
  {
    assert EntryFaithful(log, pending[k]);
    forall i: nat | i < |pending| - 1
      ensures Without(pending, k)[i] == pending[if i < k then i else i + 1]
    {
      WithoutAt(pending, k, i);
    }
  }

  lemma WrittenLeavesExactlyWhen(w: Oracle, s: State, e: PendingMotorCommand, radio: Radio)
    requires CanWrite(w, s.tick, e, radio)
    ensures LeavesPending(w, s, e, radio)
       <==> !HeardTerminal(radio) && radio.writeAcknowledged && w.ackSent(ReportTick(w, s, radio))
  {
  }

  /** Once it has left, no session after any steps writes it. */
  lemma NotWrittenByLaterSession(w: Oracle, s: State, probe: string, radio: Radio, between: seq<Step>, next: Radio)
    requires PendingInOrder(s.pending, s.log) && IndexFor(s.pending, probe) < |s.pending|
    requires LeavesPending(w, s, s.pending[IndexFor(s.pending, probe)], radio)
    ensures var e := s.pending[IndexFor(s.pending, probe)];
      var u := Run(w, Session(w, s, probe, radio), between);
      !WrittenFrom(Session(w, u, probe, next).log, |u.log|, e.ticket)
  {
    var e, t := s.pending[IndexFor(s.pending, probe)], Session(w, s, probe, radio);
    var last, u := ProbeSession(probe, next), Run(w, t, between);
    NeverAgainOnceItLeaves(w, s, probe, radio, between);
    NeverAgainOnceItLeaves(w, s, probe, radio, between + [last]);
    RunSnoc(w, t, between, last);
    NotWrittenWhereSilent(t.log, Session(w, u, probe, next).log, e.ticket, |u.log|);
  }

  lemma NotWrittenWhereSilent(log: seq<Event>, longer: seq<Event>, ticket: nat, from: nat)
    requires SilentOn(log, longer, ticket) && |log| <= from
    ensures !WrittenFrom(longer, from, ticket)
  {
  }

  /** A command that can be written at some question of the oracle was live at all earlier ones. */
  lemma LiveBefore(w: Oracle, tick: nat, e: PendingMotorCommand, radio: Radio)
    requires ClockNeverGoesBack(w) && CanWrite(w, tick, e, radio)
    ensures LiveUntil(w, tick, e.expiresAtEpochMs)
  {
  }

  /**
    A command that was just written is written again by the next session with its probe that can, exactly
    when a terminal result was heard, the write was not acknowledged, or the report of its delivery did not
    get through: whatever poll windows, sessions with other probes and results come in between.
   */
  lemma WrittenAgainExactlyWhen(w: Oracle, s: State, probe: string, radio: Radio, between: seq<Step>, next: Radio)
    requires ClockNeverGoesBack(w)
    requires PendingInOrder(s.pending, s.log) && IndexFor(s.pending, probe) < |s.pending|
    requires forall i :: 0 <= i < |between| ==> LeavesAlone(between[i], probe)
    requires var e := s.pending[IndexFor(s.pending, probe)];
      && CanWrite(w, s.tick, e, radio)
      && CanWrite(w, Run(w, Session(w, s, probe, radio), between).tick, e, next)
    ensures var e, t := s.pending[IndexFor(s.pending, probe)], Session(w, s, probe, radio);
      var u := Run(w, t, between);
      && WrittenFrom(t.log, |s.log|, e.ticket)
      && (WrittenFrom(Session(w, u, probe, next).log, |u.log|, e.ticket)
          <==> HeardTerminal(radio) || !radio.writeAcknowledged || !w.ackSent(ReportTick(w, s, radio)))
  {
    var e, t := s.pending[IndexFor(s.pending, probe)], Session(w, s, probe, radio);
    var u := Run(w, t, between);
    SessionWritesExactlyWhen(w, s, probe, radio);
    WrittenLeavesExactlyWhen(w, s, e, radio);
    if LeavesPending(w, s, e, radio) {
      NotWrittenByLaterSession(w, s, probe, radio, between, next);
    } else {
      PeekedCommandLeavesExactlyWhen(w, s, probe, radio);
      LiveBefore(w, u.tick, e, next);
      StaysFirst(w, t, between, e);
      SessionWritesExactlyWhen(w, u, probe, next);
    }
  }

  // ---------- A run that writes twice ----------

  /** Two acknowledged writes of one admission. */
  ghost predicate WrittenTwice(log: seq<Event>, e: PendingMotorCommand) {
    exists i, j :: 0 <= i < j < |log| && AcknowledgedWrite(log[i], e) && AcknowledgedWrite(log[j], e)
  }

  predicate AcknowledgedWrite(event: Event, e: PendingMotorCommand) {
    event.Written? && event.acknowledged && event.request == RequestOf(e)
  }

  lemma SameWritesTwice(a: seq<Event>, b: seq<Event>, c: seq<Event>, d: seq<Event>, e: PendingMotorCommand)
    requires |a| < |b| <= |c| < |d| && Extends(b, c) && d[..|c|] == c
    requires AcknowledgedWrite(b[|a|], e) && AcknowledgedWrite(d[|c|], e)
    ensures WrittenTwice(d, e)
  {
    assert d[|a|] == d[..|c|][|a|] == b[|a|];
  }

  /** Two sessions that hear a terminal result, with an acknowledging radio, write the command twice. */
  lemma TwoTerminalResultsTwoWrites(w: Oracle, s: State, e: PendingMotorCommand, radio: Radio, between: seq<Step>)
    requires FirstFor(s.pending, e) && WritableThroughout(w, e)
    requires radio.characteristicFound && radio.writeAcknowledged && HeardTerminal(radio)
    requires forall i :: 0 <= i < |between| ==> LeavesAlone(between[i], e.nodeId)
    ensures var u := Run(w, Session(w, s, e.nodeId, radio), between);
      WrittenTwice(Session(w, u, e.nodeId, radio).log, e)
  {
    var t := Session(w, s, e.nodeId, radio);
    var u := Run(w, t, between);
    WriteThenTerminalResult(w, s, e.nodeId, radio);
    StaysFirst(w, t, between, e);
    WriteThenTerminalResult(w, u, e.nodeId, radio);
    SameWritesTwice(s.log, t.log, u.log, Session(w, u, e.nodeId, radio).log, e);
  }

  /**
    A run that writes one admission twice, although the probe acknowledged both writes: each session hears a
    terminal result on some other command. Any poll window may come in between.
   */
  lemma CommandWrittenTwice(w: Oracle, c: PolledCommand, other: CompactId, again: Option<seq<PolledCommand>>)
    returns (steps: seq<Step>)
    requires IsUuidText(c.commandId) && c.action == Stop && other != NIL_ID
    requires forall i: nat :: w.clock(i) < c.expiresAt
    ensures |steps| == 4 && steps[0] == PollWindow(Some([c])) && steps[2] == PollWindow(again)
    ensures steps[1].ProbeSession? && steps[3].ProbeSession?
    ensures WrittenTwice(Run(w, INITIAL, steps).log,
      PendingMotorCommand(c.commandId, c.nodeId, ACTION_STOP, c.durationMs, c.expiresAt, 0))
  {
    var e := PendingMotorCommand(c.commandId, c.nodeId, ACTION_STOP, c.durationMs, c.expiresAt, 0);
    var result := ProbeMotorResult(5, 1, other);
    var radio := Radio(true, true, Some(EncodeMotorResult(result)));
    MotorResultRoundTrip(EncodeMotorResult(result), result);
    assert HeardTerminal(radio);
    var poll, session, between := PollWindow(Some([c])), ProbeSession(c.nodeId, radio), [PollWindow(again)];
    FirstPollStores(w, c, ACTION_STOP);
    var s := PollOnce(w, INITIAL, Some([c]));
    TwoTerminalResultsTwoWrites(w, s, e, radio, between);
    steps := [poll, session, PollWindow(again), session];
    assert steps == [poll] + [session] + between + [session];
    RunOfOne(w, INITIAL, poll);
    RunSnoc(w, INITIAL, [poll], session);
    RunConcat(w, INITIAL, [poll] + [session], between);
    RunSnoc(w, INITIAL, [poll] + [session] + between, session);
  }
}
