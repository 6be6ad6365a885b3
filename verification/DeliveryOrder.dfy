/**
  Order and content of what is written to the probes: first admitted, first offered, and every
  frame on the air encodes a command that was pulled, with a time to live inside its deadline.
 */
module DeliveryOrder {
  import opened Hub
  import opened Machine
  import opened MotorWire
  import opened Uuid
  import opened Wrappers

  /** The pending entry or request was made from the command admitted at its ticket. */
  predicate MadeFrom(log: seq<Event>, ticket: nat, id: string, node: string, action: Byte, durationMs: I32,
      expiresAt: I64) {
    && ticket < |log|
    && log[ticket].Admitted?
    && var c := log[ticket].command;
       c.commandId == id && c.nodeId == node && ActionByte(c) == Some(action) && c.durationMs == durationMs &&
         c.expiresAt == expiresAt
  }

  /** The command cannot be carried out: no known action, or a run of negative length. */
  predicate Unusable(c: PolledCommand) {
    c.action.Unspecified? || c.action.Unrecognised? || (c.action.RunForDuration? && c.durationMs < 0)
  }

  /** The action byte: 0 to stop, 1 to run, and none exactly for what cannot be carried out. */
  lemma ActionByteExactly(c: PolledCommand)
    ensures ActionByte(c).None? <==> Unusable(c)
    ensures ActionByte(c) == Some(0) <==> c.action.Stop?
    ensures ActionByte(c) == Some(1) <==> c.action.RunForDuration? && 0 <= c.durationMs
  {
  }

  predicate EntryFaithful(log: seq<Event>, e: PendingMotorCommand) {
    MadeFrom(log, e.ticket, e.commandId, e.nodeId, e.action, e.durationMs, e.expiresAtEpochMs)
  }

  /** The frame written carries the request, and its time to live ends by the request's deadline. */
  predicate FrameFaithful(r: MotorDispatchRequest, payload: seq<Byte>, at: EpochMs) {
    var frame := DecodeCommand(payload);
    && frame.Some?
    && Some(frame.value.id) == ParseUuid(r.commandId)
    && frame.value.action == r.action
    && frame.value.durationMs == ClampDuration(r.durationMs)
    && 1 <= frame.value.ttlMs <= U32_MAX
    && at + frame.value.ttlMs <= r.expiresAtEpochMs
  }

  predicate WriteFaithful(log: seq<Event>, e: Event)
    requires e.Written?
  {
    var r := e.request;
    && MadeFrom(log, r.ticket, r.commandId, e.probe, r.action, r.durationMs, r.expiresAtEpochMs)
    && FrameFaithful(r, e.payload, e.at)
  }

  /** Pending is a subsequence of the admissions: its tickets name them in order. */
  ghost predicate PendingInOrder(pending: seq<PendingMotorCommand>, log: seq<Event>) {
    && (forall i :: 0 <= i < |pending| ==> EntryFaithful(log, pending[i]))
    && (forall i, j :: 0 <= i < j < |pending| ==> pending[i].ticket < pending[j].ticket)
  }

  ghost predicate WritesFaithful(log: seq<Event>) {
    forall i :: 0 <= i < |log| && log[i].Written? ==> WriteFaithful(log, log[i])
  }

  /** What is still pending for a probe was not admitted before anything already written to it. */
  ghost predicate PendingNotOvertaken(pending: seq<PendingMotorCommand>, log: seq<Event>) {
    forall i, k :: 0 <= i < |log| && log[i].Written? && 0 <= k < |pending| && pending[k].nodeId == log[i].probe ==>
      log[i].request.ticket <= pending[k].ticket
  }

  /** The writes to each probe follow the order of admission. */
  ghost predicate WritesInOrder(log: seq<Event>) {
    forall i, j :: 0 <= i < j < |log| && log[i].Written? && log[j].Written? && log[i].probe == log[j].probe ==>
      log[i].request.ticket <= log[j].request.ticket
  }

  ghost predicate FirstInFirstOut(pending: seq<PendingMotorCommand>, log: seq<Event>) {
    PendingInOrder(pending, log) && WritesFaithful(log) && PendingNotOvertaken(pending, log) && WritesInOrder(log)
  }

  /** The log grows by events that are not writes. */
  ghost predicate GrowsQuietly(log: seq<Event>, longer: seq<Event>) {
    && Extends(log, longer)
    && (forall i :: |log| <= i < |longer| ==> !longer[i].Written?)
  }

  lemma QuietLogKeepsOrder(pending: seq<PendingMotorCommand>, log: seq<Event>, longer: seq<Event>)
    requires FirstInFirstOut(pending, log) && GrowsQuietly(log, longer)
    ensures FirstInFirstOut(pending, longer)
  {
    forall i | 0 <= i < |log| && log[i].Written?
      ensures WriteFaithful(longer, log[i])
    {
      assert WriteFaithful(log, log[i]);
    }
    forall i | 0 <= i < |pending|
      ensures EntryFaithful(longer, pending[i])
    {
      assert EntryFaithful(log, pending[i]);
    }
  }

  lemma DropKeepsOrder(pending: seq<PendingMotorCommand>, log: seq<Event>, k: nat)
    requires FirstInFirstOut(pending, log) && k < |pending|
    ensures FirstInFirstOut(Without(pending, k), log)
  {
    forall i: nat | i < |pending| - 1
      ensures Without(pending, k)[i] == pending[if i < k then i else i + 1]
    {
      WithoutAt(pending, k, i);
    }
  }

  /** Appending events that are not writes, and dropping at most one pending entry, keeps the order. */
  lemma QuieterKeepsOrder(s: State, t: State, k: nat)
    requires FirstInFirstOut(s.pending, s.log) && GrowsQuietly(s.log, t.log)
    requires t.pending == s.pending || (k < |s.pending| && t.pending == Without(s.pending, k))
    ensures FirstInFirstOut(t.pending, t.log)
  {
    QuietLogKeepsOrder(s.pending, s.log, t.log);
    if t.pending != s.pending {
      DropKeepsOrder(s.pending, t.log, k);
    }
  }

  /** A new entry was admitted after everything in the log so far. */
  lemma AdmissionKeepsOrder(pending: seq<PendingMotorCommand>, log: seq<Event>, admission: Event,
      e: PendingMotorCommand)
    requires FirstInFirstOut(pending, log) && admission.Admitted?
    requires EntryFaithful(log + [admission], e) && e.ticket == |log|
    ensures FirstInFirstOut(pending + [e], log + [admission])
  {
    QuietLogKeepsOrder(pending, log, log + [admission]);
    forall i | 0 <= i < |log| && log[i].Written?
      ensures log[i].request.ticket < |log|
    {
      assert WriteFaithful(log, log[i]);
    }
    forall i | 0 <= i < |pending|
      ensures pending[i].ticket < |log|
    {
      assert EntryFaithful(log, pending[i]);
    }
  }

  lemma OfferKeepsOrder(w: Oracle, s: State, c: PolledCommand)
    requires FirstInFirstOut(s.pending, s.log)
    ensures FirstInFirstOut(Offer(w, s, c).pending, Offer(w, s, c).log)
  {
    var t, admission := Offer(w, s, c), Admitted(c, w.clock(s.tick));
    if t.pending == s.pending {
      QuietLogKeepsOrder(s.pending, s.log, t.log);
    } else {
      assert t.log == s.log + [admission];
      assert t.pending == s.pending + [t.pending[|s.pending|]];
      AdmissionKeepsOrder(s.pending, s.log, admission, t.pending[|s.pending|]);
    }
  }

  lemma EncodedFrameFaithful(r: MotorDispatchRequest, now: EpochMs)
    requires r.action == ACTION_STOP || r.action == ACTION_RUN_FOR_DURATION
    requires EncodeRequest(r.commandId, r.action, r.durationMs, r.expiresAtEpochMs, now).Encoded?
    ensures var encoded := EncodeRequest(r.commandId, r.action, r.durationMs, r.expiresAtEpochMs, now);
      encoded.at == now && FrameFaithful(r, encoded.payload, now)
  {
    EncodedRequestMeansRequest(r.commandId, r.action, r.durationMs, r.expiresAtEpochMs, now);
  }

  /** Whatever is written is a faithful frame for the request. */
  lemma WrittenFrameFaithful(w: Oracle, s: State, probe: string, r: MotorDispatchRequest, radio: Radio)
    requires r.action == ACTION_STOP || r.action == ACTION_RUN_FOR_DURATION
    ensures var t := WriteRequest(w, s, probe, r, radio).0;
      && t.pending == s.pending
      && (t.log != s.log ==>
           && |t.log| == |s.log| + 1 && t.log == s.log + [t.log[|s.log|]]
           && (var e := t.log[|s.log|];
               e.Written? && e.probe == probe && e.request == r && FrameFaithful(r, e.payload, e.at)))
  {
    var now, t := w.clock(s.tick + 1), WriteRequest(w, s, probe, r, radio).0;
    var encoded := EncodeRequest(r.commandId, r.action, r.durationMs, r.expiresAtEpochMs, now);
    if t.log != s.log {
      EncodedFrameFaithful(r, now);
      assert t.log == s.log + [Written(probe, r, encoded.payload, encoded.at, radio.writeAcknowledged)];
    }
  }

  /** An entry or request stays faithful when the log grows. */
  lemma StillMadeFrom(log: seq<Event>, e: Event, ticket: nat, id: string, node: string, action: Byte, durationMs: I32,
      expiresAt: I64)
    requires MadeFrom(log, ticket, id, node, action, durationMs, expiresAt)
    ensures MadeFrom(log + [e], ticket, id, node, action, durationMs, expiresAt)
  {
  }

  lemma WriteKeepsFaithful(pending: seq<PendingMotorCommand>, log: seq<Event>, e: Event, k: nat)
    requires PendingInOrder(pending, log) && WritesFaithful(log) && k < |pending|
    requires e.Written? && e.probe == pending[k].nodeId && e.request == RequestOf(pending[k]) &&
      FrameFaithful(e.request, e.payload, e.at)
    ensures PendingInOrder(pending, log + [e]) && WritesFaithful(log + [e])
  {
    var longer := log + [e];
    forall i | 0 <= i < |pending|
      ensures EntryFaithful(longer, pending[i])
    {
      var p := pending[i];
      assert EntryFaithful(log, p);
      StillMadeFrom(log, e, p.ticket, p.commandId, p.nodeId, p.action, p.durationMs, p.expiresAtEpochMs);
    }
    forall i | 0 <= i < |longer| && longer[i].Written?
      ensures WriteFaithful(longer, longer[i])
    {
      if i < |log| {
        var r := longer[i].request;
        assert WriteFaithful(log, log[i]);
        StillMadeFrom(log, e, r.ticket, r.commandId, longer[i].probe, r.action, r.durationMs, r.expiresAtEpochMs);
      } else {
        assert EntryFaithful(longer, pending[k]);
      }
    }
  }

  /** The command offered for a probe is the earliest admitted of those pending for it. */
  lemma OfferedFirst(pending: seq<PendingMotorCommand>, log: seq<Event>, probe: string, i: nat)
    requires PendingInOrder(pending, log) && i < |pending| && pending[i].nodeId == probe
    ensures var k := IndexFor(pending, probe);
      k < |pending| && pending[k].nodeId == probe && pending[k].ticket <= pending[i].ticket
  {
  }

  /** Nothing pending for the probe was admitted before the command now written. */
  lemma WriteKeepsNotOvertaken(pending: seq<PendingMotorCommand>, log: seq<Event>, e: Event, k: nat)
    requires PendingInOrder(pending, log) && PendingNotOvertaken(pending, log) && e.Written?
    requires k < |pending| && k == IndexFor(pending, e.probe) && e.request.ticket == pending[k].ticket
    ensures PendingNotOvertaken(pending, log + [e])
  {
    forall i, j | 0 <= i < |log + [e]| && (log + [e])[i].Written? && 0 <= j < |pending| &&
      pending[j].nodeId == (log + [e])[i].probe
      ensures (log + [e])[i].request.ticket <= pending[j].ticket
    {
      if i < |log| {
        assert (log + [e])[i] == log[i];
      } else {
        OfferedFirst(pending, log, e.probe, j);
      }
    }
  }

  /** Nothing already written to the probe was admitted after the command now written. */
  lemma WriteKeepsWritesInOrder(pending: seq<PendingMotorCommand>, log: seq<Event>, e: Event, k: nat)
    requires PendingNotOvertaken(pending, log) && WritesInOrder(log) && k < |pending|
    requires e.Written? && e.probe == pending[k].nodeId && e.request == RequestOf(pending[k])
    ensures WritesInOrder(log + [e])
  {
    forall i | 0 <= i < |log| && log[i].Written? && log[i].probe == e.probe
      ensures log[i].request.ticket <= e.request.ticket
    {
      assert log[i].request.ticket <= pending[k].ticket;
    }
  }

  lemma WriteKeepsOrder(pending: seq<PendingMotorCommand>, log: seq<Event>, e: Event, k: nat)
    requires FirstInFirstOut(pending, log) && k < |pending| && k == IndexFor(pending, pending[k].nodeId)
    requires e.Written? && e.probe == pending[k].nodeId && e.request == RequestOf(pending[k]) &&
      FrameFaithful(e.request, e.payload, e.at)
    ensures FirstInFirstOut(pending, log + [e])
  {
    WriteKeepsFaithful(pending, log, e, k);
    WriteKeepsNotOvertaken(pending, log, e, k);
    WriteKeepsWritesInOrder(pending, log, e, k);
  }

  lemma SendKeepsOrder(w: Oracle, s: State, probe: string, radio: Radio)
    requires FirstInFirstOut(s.pending, s.log)
    ensures FirstInFirstOut(Send(w, s, probe, radio).0.pending, Send(w, s, probe, radio).0.log)
  {
    var k, t := IndexFor(s.pending, probe), Send(w, s, probe, radio).0;
    if k < |s.pending| {
      assert EntryFaithful(s.log, s.pending[k]);
      WrittenFrameFaithful(w, s, probe, RequestOf(s.pending[k]), radio);
      if t.log != s.log {
        WriteKeepsOrder(s.pending, s.log, t.log[|s.log|], k);
      }
    }
  }

  lemma JudgeKeepsOrder(w: Oracle, s: State, k: nat)
    requires FirstInFirstOut(s.pending, s.log)
    ensures FirstInFirstOut(Judge(w, s, k).pending, Judge(w, s, k).log)
  {
    QuieterKeepsOrder(s, Judge(w, s, k), k);
  }

  lemma HearKeepsOrder(w: Oracle, s: State, probe: string, result: ProbeMotorResult)
    requires FirstInFirstOut(s.pending, s.log)
    ensures FirstInFirstOut(Hear(w, s, probe, result).pending, Hear(w, s, probe, result).log)
  {
    QuieterKeepsOrder(s, Hear(w, s, probe, result), 0);
  }

  lemma CompleteKeepsOrder(w: Oracle, s: State, probe: string, outcome: DispatchResult)
    requires FirstInFirstOut(s.pending, s.log)
    ensures FirstInFirstOut(Complete(w, s, probe, outcome).pending, Complete(w, s, probe, outcome).log)
  {
    QuieterKeepsOrder(s, Complete(w, s, probe, outcome), IndexFor(s.pending, probe));
  }

  lemma MoveKeepsOrder(w: Oracle, s: State, m: Move)
    requires FirstInFirstOut(s.pending, s.log)
    ensures FirstInFirstOut(Apply(w, s, m).pending, Apply(w, s, m).log)
  {
    match m
    case JudgeMove(k) =>
      JudgeKeepsOrder(w, s, k);
      assert Apply(w, s, m) == Judge(w, s, k);
    case OfferMove(c) =>
      OfferKeepsOrder(w, s, c);
      assert Apply(w, s, m) == Offer(w, s, c);
    case HearMove(probe, result) =>
      HearKeepsOrder(w, s, probe, result);
      assert Apply(w, s, m) == Hear(w, s, probe, result);
    case SendMove(probe, radio) =>
      SendKeepsOrder(w, s, probe, radio);
      assert Apply(w, s, m) == Send(w, s, probe, radio).0;
    case CompleteMove(probe, outcome) =>
      CompleteKeepsOrder(w, s, probe, outcome);
      assert Apply(w, s, m) == Complete(w, s, probe, outcome);
  }

  // ---------- Consequences ----------

  /** Encoding a pending command can fail only because its identifier is no UUID, or because it is too late. */
  lemma PendingEncodesUnlessBadIdOrLate(pending: seq<PendingMotorCommand>, log: seq<Event>, k: nat, now: EpochMs)
    requires FirstInFirstOut(pending, log) && k < |pending|
    ensures var r := RequestOf(pending[k]);
      EncodeRequest(r.commandId, r.action, r.durationMs, r.expiresAtEpochMs, now).Encoded?
      <==> IsUuidText(r.commandId) && now < r.expiresAtEpochMs
  {
    assert EntryFaithful(log, pending[k]);
    var e := pending[k];
    EncodedRequestMeansRequest(e.commandId, e.action, e.durationMs, e.expiresAtEpochMs, now);
  }
}
