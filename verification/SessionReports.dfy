/**
  What one session with a probe adds to the log: at most one write, then the result it hears, then
  the report on the write.
 */
module SessionReports {
  import opened HeadOfLine
  import opened Hub
  import opened Machine
  import opened MotorWire
  import opened ProbeReports
  import opened SessionCredit
  import opened Uuid

  // ---------- What the probe's bytes say ----------

  /** The bytes read from the probe are a result frame that does not name the nil identifier. */
  predicate Says(radio: Radio, r: ProbeMotorResult) {
    radio.resultBytes.Some? && ResultBytes(radio.resultBytes.value, r) && exists i :: 0 <= i < 16 && r.commandId[i] != 0
  }

  lemma HeardExactly(radio: Radio, r: ProbeMotorResult)
    ensures HeardResult(radio).Some? && HeardResult(radio).value == r <==> Says(radio, r)
  {
    if radio.resultBytes.Some? {
      MotorResultRoundTrip(radio.resultBytes.value, r);
      NilExactly(r.commandId);
    }
  }

  lemma NilExactly(id: CompactId)
    ensures id == NIL_ID <==> forall i :: 0 <= i < 16 ==> id[i] == 0
  {
    if forall i :: 0 <= i < 16 ==> id[i] == 0 {
      assert id == NIL_ID;
    }
  }

  /** The completion of a write is skipped exactly after a result of status 5, 6 or 7. */
  lemma HeardTerminalExactly(radio: Radio)
    ensures HeardTerminal(radio) <==> exists r :: Says(radio, r) && (r.status == 5 || r.status == 6 || r.status == 7)
  {
    if HeardResult(radio).Some? {
      HeardExactly(radio, HeardResult(radio).value);
    }
    forall r | Says(radio, r) ensures HeardResult(radio).Some? && HeardResult(radio).value == r {
      HeardExactly(radio, r);
    }
  }

  // ---------- The three parts of a session's log ----------

  /** An attempt to pass that result on: the probe's own status, identifier and name, and its reason. */
  predicate PassesOn(e: Event, probe: string, r: ProbeMotorResult) {
    && e.Acked? && e.origin == FromProbe && e.nodeId == probe && e.commandId == Canonical(r.commandId)
    && (e.status == Executing <==> r.status == 4) && (e.status == Succeeded <==> r.status == 5)
    && (e.status == Failed <==> r.status == 6) && (e.status == Expired <==> r.status == 7)
    && RightReason(r, e.reason)
  }

  /** Nothing, or the attempt; and what got through is finished in the same breath. */
  predicate RelayPart(relayed: seq<Event>, probe: string, r: ProbeMotorResult) {
    && 1 <= |relayed| <= 2
    && PassesOn(relayed[0], probe, r)
    && (|relayed| == 2 <==> relayed[0].sent)
    && (|relayed| == 2 ==> relayed[1].FinishedAt? && relayed[1].commandId == Canonical(r.commandId))
  }

  /** The hub's report on the command it wrote, or found late; and what is settled is finished in the same breath. */
  predicate ReportPart(completed: seq<Event>, e: PendingMotorCommand, status: CommandStatus) {
    && 1 <= |completed| <= 2
    && completed[0].Acked? && completed[0].origin == FromHub(e.ticket)
    && completed[0].commandId == e.commandId && completed[0].nodeId == e.nodeId && completed[0].status == status
    && (|completed| == 2 <==> status == Expired || completed[0].sent)
    && (|completed| == 2 ==> completed[1].FinishedAt? && completed[1].commandId == e.commandId)
  }

  lemma HearAdds(w: Oracle, s: State, probe: string, r: ProbeMotorResult) returns (relayed: seq<Event>)
    ensures var t, id := Hear(w, s, probe, r), Canonical(r.commandId);
      && t.log == s.log + relayed
      && (if 4 <= r.status <= 7 && id !in s.applied then RelayPart(relayed, probe, r) else relayed == [])
      && t.applied == s.applied + (if |relayed| == 2 then {id} else {})
  {
    relayed := Hear(w, s, probe, r).log[|s.log|..];
    PassedOnFaithfully(w, s, probe, r);
  }

  lemma CompleteAdds(w: Oracle, s: State, probe: string, outcome: DispatchResult) returns (completed: seq<Event>)
    requires IndexFor(s.pending, probe) < |s.pending|
    ensures var e, t := s.pending[IndexFor(s.pending, probe)], Complete(w, s, probe, outcome);
      && t.log == s.log + completed && t.applied == s.applied
      && match outcome
         case Delivered => ReportPart(completed, e, SentToProbe)
         case ExpiredBeforeWrite => ReportPart(completed, e, Expired)
         case BleWriteFailure => completed == []
  {
    completed := Complete(w, s, probe, outcome).log[|s.log|..];
  }

  /** The clock reads before the write, and after a failed encoding, find the deadline passed. */
  predicate FoundLate(w: Oracle, tick: nat, e: PendingMotorCommand, radio: Radio) {
    && radio.characteristicFound
    && if e.expiresAtEpochMs <= w.clock(tick) then true
       else if !Encodable(e) then e.expiresAtEpochMs <= w.clock(tick + 1)
       else e.expiresAtEpochMs <= w.clock(tick + 1) && e.expiresAtEpochMs <= w.clock(tick + 2)
  }

  lemma SendAdds(w: Oracle, s: State, probe: string, radio: Radio) returns (written: seq<Event>)
    requires IndexFor(s.pending, probe) < |s.pending|
    ensures var e := s.pending[IndexFor(s.pending, probe)];
      var (t, outcome) := Send(w, s, probe, radio);
      && t.log == s.log + written && t.applied == s.applied && t.pending == s.pending
      && outcome.Some?
      && (if CanWrite(w, s.tick, e, radio) then WritePart(w, s.tick, written, e, radio) else written == [])
      && (outcome.value == Delivered <==> CanWrite(w, s.tick, e, radio) && radio.writeAcknowledged)
      && (outcome.value == ExpiredBeforeWrite <==> FoundLate(w, s.tick, e, radio))
  {
    written := Send(w, s, probe, radio).0.log[|s.log|..];
  }

  /** The write of the command, encoded at the second clock read. */
  predicate WritePart(w: Oracle, tick: nat, written: seq<Event>, e: PendingMotorCommand, radio: Radio) {
    && |written| == 1 && written[0].Written? && written[0].probe == e.nodeId && written[0].request == RequestOf(e)
    && written[0].acknowledged == radio.writeAcknowledged
    && written[0].at == w.clock(tick + 1)
    && EncodeRequest(e.commandId, e.action, e.durationMs, e.expiresAtEpochMs, w.clock(tick + 1))
       == Encoded(written[0].payload, written[0].at)
  }

  /** The result that a session hears is passed on, whether or not a command is pending for the probe. */
  lemma HearingAdds(w: Oracle, s: State, probe: string, radio: Radio, sent: State) returns (relayed: seq<Event>)
    requires sent == Send(w, s, probe, radio).0 && sent.applied == s.applied
    ensures AfterHearing(w, s, probe, radio).log == sent.log + relayed
    ensures forall r :: Says(radio, r) && 4 <= r.status <= 7 && Canonical(r.commandId) !in s.applied ==>
      && RelayPart(relayed, probe, r)
      && AfterHearing(w, s, probe, radio).applied
         == s.applied + (if relayed[0].sent then {Canonical(r.commandId)} else {})
    ensures !(exists r :: Says(radio, r) && 4 <= r.status <= 7 && Canonical(r.commandId) !in s.applied) ==>
      relayed == [] && AfterHearing(w, s, probe, radio).applied == s.applied
  {
    relayed := [];
    if HeardResult(radio).Some? {
      var r := HeardResult(radio).value;
      relayed := HearAdds(w, sent, probe, r);
      HeardExactly(radio, r);
    }
    forall r | Says(radio, r) ensures HeardResult(radio).Some? && HeardResult(radio).value == r {
      HeardExactly(radio, r);
    }
  }

  /**
    Everything a session logs, in order. It writes the peeked command exactly when it can. It then tries
    exactly once to pass a result on if the bytes read are a result of status 4 to 7 on a command with no
    result through so far, with or without a command of its own, and the identifier is recorded exactly if
    that got through. It reports the write last: sent exactly if the write was acknowledged, expired
    exactly if the command was found late, and neither after a result of status 5, 6 or 7.
   */
  lemma SessionLogExactly(w: Oracle, s: State, probe: string, radio: Radio)
    returns (written: seq<Event>, relayed: seq<Event>, completed: seq<Event>)
    ensures var t, k := Session(w, s, probe, radio), IndexFor(s.pending, probe);
      && t.log == s.log + written + relayed + completed
      && (if k < |s.pending| && CanWrite(w, s.tick, s.pending[k], radio) then
            WritePart(w, s.tick, written, s.pending[k], radio)
          else written == [])
      && (forall r :: Says(radio, r) && 4 <= r.status <= 7 && Canonical(r.commandId) !in s.applied ==>
            && RelayPart(relayed, probe, r)
            && t.applied == s.applied + (if relayed[0].sent then {Canonical(r.commandId)} else {}))
      && (!(exists r :: Says(radio, r) && 4 <= r.status <= 7 && Canonical(r.commandId) !in s.applied) ==>
            relayed == [] && t.applied == s.applied)
      && (if k == |s.pending| || HeardTerminal(radio) then completed == []
          else if CanWrite(w, s.tick, s.pending[k], radio) && radio.writeAcknowledged then
            ReportPart(completed, s.pending[k], SentToProbe)
          else if FoundLate(w, s.tick, s.pending[k], radio) then ReportPart(completed, s.pending[k], Expired)
          else completed == [])
  {
    var k := IndexFor(s.pending, probe);
    var (sent, outcome) := Send(w, s, probe, radio);
    var heard := AfterHearing(w, s, probe, radio);
    written, completed := [], [];
    if k < |s.pending| {
      written := SendAdds(w, s, probe, radio);
    }
    relayed := HearingAdds(w, s, probe, radio, sent);
    PeekStillHoldsAtCompletion(w, s, probe, radio);
    if k < |s.pending| && !HeardTerminal(radio) {
      completed := CompleteAdds(w, heard, probe, outcome.value);
    }
  }

  /** After a terminal result the session ends with hearing it. */
  lemma TerminalSessionEndsWithHearing(w: Oracle, s: State, probe: string, radio: Radio, r: ProbeMotorResult)
    requires Says(radio, r) && (r.status == 5 || r.status == 6 || r.status == 7)
    ensures HeardTerminal(radio)
    ensures Session(w, s, probe, radio) == Hear(w, Send(w, s, probe, radio).0, probe, r)
  {
    HeardExactly(radio, r);
  }

  lemma PassedOnIsFinished(w: Oracle, s: State, probe: string, r: ProbeMotorResult)
    ensures var t, id := Hear(w, s, probe, r), Canonical(r.commandId);
      id in t.applied && id !in s.applied ==> id !in t.dedup.processing
  {
  }

  lemma OnlyTheRelayIsAcked(log: seq<Event>, written: seq<Event>, relayed: seq<Event>, probe: string,
      r: ProbeMotorResult)
    requires RelayPart(relayed, probe, r) && (written == [] || (|written| == 1 && written[0].Written?))
    ensures var longer, i := log + written + relayed, |log| + |written|;
      && i < |longer| && longer[i] == relayed[0]
      && forall j :: |log| <= j < |longer| && longer[j].Acked? ==> j == i
  {
  }

  /**
    A session passes on the terminal result it hears, even with a command of its own to write. That is then
    the session's only acknowledgement: the command it names is finished if it gets through, and the write is
    not reported either way.
   */
  lemma TerminalResultIsPassedOn(w: Oracle, s: State, probe: string, radio: Radio, r: ProbeMotorResult) returns (i: nat)
    requires Says(radio, r) && (r.status == 5 || r.status == 6 || r.status == 7)
    requires Canonical(r.commandId) !in s.applied
    ensures var t, id := Session(w, s, probe, radio), Canonical(r.commandId);
      && |s.log| <= i < |t.log| && PassesOn(t.log[i], probe, r)
      && (forall j :: |s.log| <= j < |t.log| && t.log[j].Acked? ==> j == i)
      && (id in t.applied <==> t.log[i].sent)
      && (t.log[i].sent ==> id !in t.dedup.processing)
  {
    var written, relayed, completed := SessionLogExactly(w, s, probe, radio);
    var sent := Send(w, s, probe, radio).0;
    TerminalSessionEndsWithHearing(w, s, probe, radio, r);
    PassedOnIsFinished(w, sent, probe, r);
    PeekStillHoldsAtCompletion(w, s, probe, radio);
    i := |s.log| + |written|;
    assert s.log + written + relayed + completed == s.log + written + relayed;
    OnlyTheRelayIsAcked(s.log, written, relayed, probe, r);
    assert sent.applied == s.applied;
  }
}
