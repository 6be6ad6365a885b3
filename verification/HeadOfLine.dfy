/**
  The command at the head of a probe's line: when a session writes it, what keeps it at the head,
  and how it blocks the commands behind it.
 */
module HeadOfLine {
  import opened DeliveryOrder
  import opened Hub
  import opened Machine
  import opened SessionCredit
  import opened Uuid
  import opened Wrappers

  // ---------- When a session writes ----------

  /** That admission is written in the log from position `from` on. */
  ghost predicate WrittenFrom(log: seq<Event>, from: nat, ticket: nat) {
    exists i :: from <= i < |log| && log[i].Written? && log[i].request.ticket == ticket
  }

  /** The session finds the characteristic, and the peeked command can be encoded and is in time. */
  predicate CanWrite(w: Oracle, tick: nat, e: PendingMotorCommand, radio: Radio) {
    radio.characteristicFound && Encodable(e) && InTime(w, tick, e.expiresAtEpochMs)
  }

  lemma SendWritesExactlyWhen(w: Oracle, s: State, probe: string, radio: Radio)
    requires IndexFor(s.pending, probe) < |s.pending|
    ensures var e, log := s.pending[IndexFor(s.pending, probe)], Send(w, s, probe, radio).0.log;
      && (log == s.log <==> !CanWrite(w, s.tick, e, radio))
      && (log != s.log ==> |log| == |s.log| + 1 && log[..|s.log|] == s.log
                           && log[|s.log|].Written? && log[|s.log|].request == RequestOf(e))
  {
  }

  lemma CompletionWritesNothing(w: Oracle, s: State, probe: string, outcome: DispatchResult)
    ensures GrowsQuietly(s.log, Complete(w, s, probe, outcome).log)
  {
  }

  /** What follows the sending in a session writes nothing. */
  lemma RestOfSessionWritesNothing(w: Oracle, s: State, probe: string, radio: Radio)
    ensures GrowsQuietly(Send(w, s, probe, radio).0.log, Session(w, s, probe, radio).log)
  {
    var (sent, outcome) := Send(w, s, probe, radio);
    var heard := AfterHearing(w, s, probe, radio);
    assert GrowsQuietly(sent.log, heard.log);
    if !HeardTerminal(radio) && outcome.Some? {
      CompletionWritesNothing(w, heard, probe, outcome.value);
    }
  }

  /** A session writes the peeked command exactly when it can. */
  lemma SessionWritesExactlyWhen(w: Oracle, s: State, probe: string, radio: Radio)
    requires IndexFor(s.pending, probe) < |s.pending|
    ensures var e := s.pending[IndexFor(s.pending, probe)];
      WrittenFrom(Session(w, s, probe, radio).log, |s.log|, e.ticket) <==> CanWrite(w, s.tick, e, radio)
  {
    var e, sent := s.pending[IndexFor(s.pending, probe)], Send(w, s, probe, radio).0;
    SendWritesExactlyWhen(w, s, probe, radio);
    RestOfSessionWritesNothing(w, s, probe, radio);
    if CanWrite(w, s.tick, e, radio) {
      assert Session(w, s, probe, radio).log[|s.log|] == sent.log[|s.log|];
    }
  }

  // ---------- The oracle's questions are numbered upwards ----------

  lemma MoveAsksOn(w: Oracle, s: State, m: Move)
    ensures s.tick <= Apply(w, s, m).tick
  {
    match m
    case JudgeMove(k) => assert Apply(w, s, m) == Judge(w, s, k);
    case OfferMove(c) => assert Apply(w, s, m) == Offer(w, s, c);
    case HearMove(probe, result) => assert Apply(w, s, m) == Hear(w, s, probe, result);
    case SendMove(probe, radio) => assert Apply(w, s, m) == Send(w, s, probe, radio).0;
    case CompleteMove(probe, outcome) => assert Apply(w, s, m) == Complete(w, s, probe, outcome);
  }

  lemma {:induction false} MovesAskOn(w: Oracle, s: State, ms: seq<Move>)
    ensures s.tick <= ApplyAll(w, s, ms).tick
    decreases |ms|
  {
    if ms != [] {
      MoveAsksOn(w, s, ms[0]);
      MovesAskOn(w, Apply(w, s, ms[0]), ms[1..]);
    }
  }

  lemma RunAsksOn(w: Oracle, s: State, steps: seq<Step>)
    ensures s.tick <= Run(w, s, steps).tick
  {
    var ms := RunIsMoves(w, s, steps);
    MovesAskOn(w, s, ms);
  }

  lemma SweepAsksOn(w: Oracle, s: State, k: nat)
    ensures s.tick <= Sweep(w, s, k).tick
  {
    var ms := SweepIsMoves(w, s, k);
    MovesAskOn(w, s, ms);
  }

  lemma OffersAskOn(w: Oracle, s: State, cs: seq<PolledCommand>)
    ensures s.tick <= OfferAll(w, s, cs).tick
  {
    var ms := OfferAllIsMoves(w, s, cs);
    MovesAskOn(w, s, ms);
  }

  // ---------- What keeps a command at the head of its line ----------

  /** The entry is the first one pending for its probe. */
  predicate FirstFor(pending: seq<PendingMotorCommand>, e: PendingMotorCommand) {
    var k := IndexFor(pending, e.nodeId);
    k < |pending| && pending[k] == e
  }

  /** Whenever the clock is read before the question `limit`, the deadline is ahead. */
  ghost predicate LiveUntil(w: Oracle, limit: nat, deadline: I64) {
    forall i: nat :: i < limit ==> w.clock(i) < deadline
  }

  lemma FirstAt(pending: seq<PendingMotorCommand>, k: nat, e: PendingMotorCommand)
    requires k < |pending| && pending[k] == e && forall i :: 0 <= i < k ==> pending[i].nodeId != e.nodeId
    ensures FirstFor(pending, e)
  {
  }

  lemma HeadAfterDrop(pending: seq<PendingMotorCommand>, k: nat, j: nat) returns (moved: nat)
    requires k < |pending| && j < |pending| && j != k
    requires forall i :: 0 <= i < k ==> pending[i].nodeId != pending[k].nodeId
    ensures var rest := Without(pending, j);
      && moved < |rest| && rest[moved] == pending[k]
      && forall i :: 0 <= i < moved ==> rest[i].nodeId != pending[k].nodeId
  {
    moved := if j < k then k - 1 else k;
    WithoutAt(pending, j, moved);
    forall i | 0 <= i < moved ensures Without(pending, j)[i].nodeId != pending[k].nodeId {
      WithoutAt(pending, j, i);
    }
  }

  lemma FirstAfterDrop(pending: seq<PendingMotorCommand>, e: PendingMotorCommand, j: nat)
    requires FirstFor(pending, e) && j < |pending| && j != IndexFor(pending, e.nodeId)
    ensures FirstFor(Without(pending, j), e)
  {
    var moved := HeadAfterDrop(pending, IndexFor(pending, e.nodeId), j);
    FirstAt(Without(pending, j), moved, e);
  }

  lemma FirstAfterAppend(pending: seq<PendingMotorCommand>, e: PendingMotorCommand, arrived: seq<PendingMotorCommand>)
    requires FirstFor(pending, e)
    ensures FirstFor(pending + arrived, e)
  {
    FirstAt(pending + arrived, IndexFor(pending, e.nodeId), e);
  }

  lemma JudgeKeepsFirst(w: Oracle, s: State, k: nat, e: PendingMotorCommand)
    requires FirstFor(s.pending, e) && w.clock(s.tick) < e.expiresAtEpochMs
    ensures FirstFor(Judge(w, s, k).pending, e)
  {
    if k < |s.pending| && IsExpired(s.pending[k].expiresAtEpochMs, w.clock(s.tick)) {
      FirstAfterDrop(s.pending, e, k);
    }
  }

  lemma JudgeReadsOnce(w: Oracle, s: State, k: nat)
    requires k < |s.pending|
    ensures s.tick < Judge(w, s, k).tick && GrowsQuietly(s.log, Judge(w, s, k).log)
  {
  }

  lemma {:induction false} SweepKeepsFirst(w: Oracle, s: State, k: nat, e: PendingMotorCommand)
    requires FirstFor(s.pending, e) && LiveUntil(w, Sweep(w, s, k).tick, e.expiresAtEpochMs)
    ensures FirstFor(Sweep(w, s, k).pending, e) && GrowsQuietly(s.log, Sweep(w, s, k).log)
    decreases |s.pending| - k
  {
    if k < |s.pending| {
      var t := Judge(w, s, k);
      var next := if |t.pending| < |s.pending| then k else k + 1;
      SweepAsksOn(w, t, next);
      JudgeReadsOnce(w, s, k);
      assert Sweep(w, s, k) == Sweep(w, t, next);
      JudgeKeepsFirst(w, s, k, e);
      SweepKeepsFirst(w, t, next, e);
    }
  }

  lemma OfferKeepsFirst(w: Oracle, s: State, c: PolledCommand, e: PendingMotorCommand)
    requires FirstFor(s.pending, e)
    ensures FirstFor(Offer(w, s, c).pending, e) && GrowsQuietly(s.log, Offer(w, s, c).log)
  {
    var t := Offer(w, s, c);
    if t.pending != s.pending {
      FirstAfterAppend(s.pending, e, t.pending[|s.pending|..]);
      assert t.pending == s.pending + t.pending[|s.pending|..];
    }
  }

  lemma {:induction false} OffersKeepFirst(w: Oracle, s: State, cs: seq<PolledCommand>, e: PendingMotorCommand)
    requires FirstFor(s.pending, e)
    ensures FirstFor(OfferAll(w, s, cs).pending, e) && GrowsQuietly(s.log, OfferAll(w, s, cs).log)
    decreases |cs|
  {
    if cs != [] {
      OfferKeepsFirst(w, s, cs[0], e);
      OffersKeepFirst(w, Offer(w, s, cs[0]), cs[1..], e);
    }
  }

  lemma PollKeepsFirst(w: Oracle, s: State, pulled: Option<seq<PolledCommand>>, e: PendingMotorCommand)
    requires FirstFor(s.pending, e) && LiveUntil(w, PollOnce(w, s, pulled).tick, e.expiresAtEpochMs)
    ensures FirstFor(PollOnce(w, s, pulled).pending, e) && GrowsQuietly(s.log, PollOnce(w, s, pulled).log)
  {
    var swept := Sweep(w, s, 0);
    if pulled.Some? {
      OffersAskOn(w, swept, pulled.value);
      SweepKeepsFirst(w, s, 0, e);
      OffersKeepFirst(w, swept, pulled.value, e);
    } else {
      SweepKeepsFirst(w, s, 0, e);
    }
  }

  /** The log grows, and nothing more is written to that probe. */
  ghost predicate NoWriteTo(log: seq<Event>, longer: seq<Event>, probe: string) {
    && Extends(log, longer)
    && (forall i :: |log| <= i < |longer| && longer[i].Written? ==> longer[i].probe != probe)
  }

  /** A session with another probe. */
  lemma OtherSessionKeepsFirst(w: Oracle, s: State, probe: string, radio: Radio, e: PendingMotorCommand)
    requires FirstFor(s.pending, e) && probe != e.nodeId
    ensures FirstFor(Session(w, s, probe, radio).pending, e)
    ensures NoWriteTo(s.log, Session(w, s, probe, radio).log, e.nodeId)
  {
    var k := IndexFor(s.pending, probe);
    if k < |s.pending| {
      SessionCreditsPeekedCommand(w, s, probe, radio);
      assert k != IndexFor(s.pending, e.nodeId);
      FirstAfterDrop(s.pending, e, k);
    } else {
      SessionWithoutCommandOnlyHears(w, s, probe, radio);
    }
  }

  lemma OtherCompletionKeepsFirst(w: Oracle, s: State, probe: string, outcome: DispatchResult, e: PendingMotorCommand)
    requires FirstFor(s.pending, e) && probe != e.nodeId
    ensures FirstFor(Complete(w, s, probe, outcome).pending, e)
  {
    var k := IndexFor(s.pending, probe);
    if k < |s.pending| {
      CompletionDropsExactlyWhen(w, s, probe, outcome);
      assert k != IndexFor(s.pending, e.nodeId);
      FirstAfterDrop(s.pending, e, k);
    }
  }

  /** A session with its own probe that does not find the characteristic. */
  lemma MissedSessionKeepsFirst(w: Oracle, s: State, radio: Radio, e: PendingMotorCommand)
    requires FirstFor(s.pending, e) && !radio.characteristicFound
    ensures var t := Session(w, s, e.nodeId, radio);
      t.pending == s.pending && NoWriteTo(s.log, t.log, e.nodeId)
  {
    PeekedCommandLeavesExactlyWhen(w, s, e.nodeId, radio);
    SendWritesExactlyWhen(w, s, e.nodeId, radio);
    RestOfSessionWritesNothing(w, s, e.nodeId, radio);
  }

  /** The step neither writes to the probe nor completes a write to it. */
  predicate LeavesAlone(step: Step, probe: string) {
    match step
    case PollWindow(_) => true
    case ProbeSession(other, radio) => other != probe || !radio.characteristicFound
    case ApplyResult(_, _) => true
    case CompleteDispatch(other, _) => other != probe
  }

  lemma StepKeepsFirst(w: Oracle, s: State, step: Step, e: PendingMotorCommand)
    requires FirstFor(s.pending, e) && LiveUntil(w, Exec(w, s, step).tick, e.expiresAtEpochMs)
    requires LeavesAlone(step, e.nodeId)
    ensures FirstFor(Exec(w, s, step).pending, e) && NoWriteTo(s.log, Exec(w, s, step).log, e.nodeId)
  {
    match step
    case PollWindow(pulled) => PollKeepsFirst(w, s, pulled, e);
    case ProbeSession(probe, radio) =>
      if probe == e.nodeId {
        MissedSessionKeepsFirst(w, s, radio, e);
      } else {
        OtherSessionKeepsFirst(w, s, probe, radio, e);
      }
    case ApplyResult(probe, result) => assert Exec(w, s, step) == Hear(w, s, probe, result);
    case CompleteDispatch(probe, outcome) =>
      OtherCompletionKeepsFirst(w, s, probe, outcome, e);
      CompletionWritesNothing(w, s, probe, outcome);
  }

  /** While its deadline is ahead, the head of a line stays there through any steps that leave its probe alone. */
  lemma {:induction false} StaysFirst(w: Oracle, s: State, steps: seq<Step>, e: PendingMotorCommand)
    requires FirstFor(s.pending, e) && LiveUntil(w, Run(w, s, steps).tick, e.expiresAtEpochMs)
    requires forall i :: 0 <= i < |steps| ==> LeavesAlone(steps[i], e.nodeId)
    ensures FirstFor(Run(w, s, steps).pending, e) && Extends(s.log, Run(w, s, steps).log)
    decreases |steps|
  {
    if steps != [] {
      var t := Exec(w, s, steps[0]);
      RunAsksOn(w, t, steps[1..]);
      StepKeepsFirst(w, s, steps[0], e);
      StaysFirst(w, t, steps[1..], e);
    }
  }

  // ---------- A head that cannot be encoded blocks its line ----------

  /** A session with the probe neither writes anything nor moves the head. */
  lemma BlockedSession(w: Oracle, s: State, radio: Radio, e: PendingMotorCommand)
    requires FirstFor(s.pending, e) && !Encodable(e)
    requires LiveUntil(w, Session(w, s, e.nodeId, radio).tick, e.expiresAtEpochMs)
    ensures var t := Session(w, s, e.nodeId, radio);
      t.pending == s.pending && NoWriteTo(s.log, t.log, e.nodeId)
  {
    var t := Session(w, s, e.nodeId, radio);
    if radio.characteristicFound {
      SessionTicks(w, s, radio, e);
    }
    PeekedCommandLeavesExactlyWhen(w, s, e.nodeId, radio);
    SendWritesExactlyWhen(w, s, e.nodeId, radio);
    RestOfSessionWritesNothing(w, s, e.nodeId, radio);
  }

  /** A session that finds the characteristic reads the clock twice before it gives up on a live command. */
  lemma SessionTicks(w: Oracle, s: State, radio: Radio, e: PendingMotorCommand)
    requires FirstFor(s.pending, e) && !Encodable(e) && radio.characteristicFound
    requires LiveUntil(w, Session(w, s, e.nodeId, radio).tick, e.expiresAtEpochMs)
    ensures InTime(w, s.tick, e.expiresAtEpochMs)
  {
  }

  /**
    While its deadline is ahead, a command that cannot be encoded, such as one whose identifier is no UUID,
    stays at the head of its line, and nothing at all is written to its probe: whatever is admitted behind
    it waits, through any poll windows, sessions and results.
   */
  lemma {:induction false} HeadOfLineBlocks(w: Oracle, s: State, steps: seq<Step>, e: PendingMotorCommand)
    requires FirstFor(s.pending, e) && !Encodable(e)
    requires LiveUntil(w, Run(w, s, steps).tick, e.expiresAtEpochMs)
    requires forall i :: 0 <= i < |steps| ==> !steps[i].CompleteDispatch?
    ensures FirstFor(Run(w, s, steps).pending, e) && NoWriteTo(s.log, Run(w, s, steps).log, e.nodeId)
    decreases |steps|
  {
    if steps != [] {
      var t := Exec(w, s, steps[0]);
      RunAsksOn(w, t, steps[1..]);
      if steps[0].ProbeSession? && steps[0].probe == e.nodeId {
        BlockedSession(w, s, steps[0].radio, e);
      } else {
        StepKeepsFirst(w, s, steps[0], e);
      }
      HeadOfLineBlocks(w, t, steps[1..], e);
    }
  }

  /** A command that cannot be encoded, pulled first, keeps everything pulled after it for its probe unwritten. */
  lemma BadCommandBlocksItsProbe(w: Oracle, c: PolledCommand, more: seq<PolledCommand>, steps: seq<Step>)
    requires ActionByte(c).Some? && !IsUuidText(c.commandId)
    requires forall i :: 0 <= i < |steps| ==> !steps[i].CompleteDispatch?
    requires LiveUntil(w, Run(w, PollOnce(w, INITIAL, Some([c] + more)), steps).tick, c.expiresAt)
    ensures NoWriteTo([], Run(w, INITIAL, [PollWindow(Some([c] + more))] + steps).log, c.nodeId)
  {
    var poll, offered := PollWindow(Some([c] + more)), Offer(w, INITIAL, c);
    var s := Exec(w, INITIAL, poll);
    var e := PendingMotorCommand(c.commandId, c.nodeId, ActionByte(c).value, c.durationMs, c.expiresAt, 0);
    RunAsksOn(w, s, steps);
    OffersAskOn(w, offered, more);
    assert ([c] + more)[1..] == more && s == OfferAll(w, offered, more);
    assert w.clock(1) < c.expiresAt;
    assert offered.pending == [e];
    OffersKeepFirst(w, offered, more, e);
    HeadOfLineBlocks(w, s, steps, e);
    RunOfOne(w, INITIAL, poll);
    RunConcat(w, INITIAL, [poll], steps);
  }
}
