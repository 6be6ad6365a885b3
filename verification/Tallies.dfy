/** Counting, per command identifier or per admission, in the pending list and in the log. */
module Tallies {
  import opened Hub
  import opened Machine
  import opened MotorWire
  import opened Uuid

  /** What is counted: everything on one command, or everything on one of its admissions. */
  datatype Subject = Command(id: string) | Admission(ticket: nat)

  predicate About(of: Subject, id: string, ticket: nat) {
    match of
    case Command(subject) => id == subject
    case Admission(n) => ticket == n
  }

  /** How often the subject is pending. */
  function PendingCount(p: seq<PendingMotorCommand>, of: Subject): nat {
    if p == [] then 0
    else
      var e := p[|p| - 1];
      PendingCount(p[..|p| - 1], of) + if About(of, e.commandId, e.ticket) then 1 else 0
  }

  lemma {:induction false} PendingCountConcat(a: seq<PendingMotorCommand>, b: seq<PendingMotorCommand>, of: Subject)
    ensures PendingCount(a + b, of) == PendingCount(a, of) + PendingCount(b, of)
  {
    if b == [] {
      assert a + b == a;
    } else {
      PendingCountConcat(a, b[..|b| - 1], of);
      assert (a + b)[..|a + b| - 1] == a + b[..|b| - 1];
    }
  }

  lemma PendingCountSnoc(p: seq<PendingMotorCommand>, e: PendingMotorCommand, of: Subject)
    ensures PendingCount(p + [e], of) == PendingCount(p, of) + if About(of, e.commandId, e.ticket) then 1 else 0
  {
    assert (p + [e])[..|p|] == p;
  }

  lemma PendingCountWithout(p: seq<PendingMotorCommand>, k: nat, of: Subject)
    requires k < |p|
    ensures PendingCount(p, of) == PendingCount(Without(p, k), of) + if About(of, p[k].commandId, p[k].ticket)
      then 1 else 0
  {
    assert p == p[..k] + [p[k]] + p[k + 1..];
    PendingCountConcat(p[..k] + [p[k]], p[k + 1..], of);
    PendingCountSnoc(p[..k], p[k], of);
    PendingCountConcat(p[..k], p[k + 1..], of);
  }

  lemma {:induction false} PendingCountMembers(p: seq<PendingMotorCommand>, of: Subject)
    ensures PendingCount(p, of) > 0 <==> exists i :: 0 <= i < |p| && About(of, p[i].commandId, p[i].ticket)
  {
    if p != [] {
      var front := p[..|p| - 1];
      PendingCountMembers(front, of);
      if i :| 0 <= i < |front| && About(of, front[i].commandId, front[i].ticket) {
        assert About(of, p[i].commandId, p[i].ticket);
      }
      if i :| 0 <= i < |p| && About(of, p[i].commandId, p[i].ticket) {
        assert i == |p| - 1 || About(of, front[i].commandId, front[i].ticket);
      }
    }
  }

  /** The three things that are counted in the log. */
  datatype Kind =
    | Entry         // the duplicate filter let the command in
    | Settlement    // an acknowledgement by the hub that decides the command's fate
    | Relay         // a probe's result, acknowledged successfully

  /** An acknowledgement by the hub that decides a command's fate. */
  predicate Settles(e: Event) {
    e.Acked? && e.origin.FromHub? && (e.status == Expired || e.status == Failed || (e.status == SentToProbe && e.sent))
  }

  /** The event at position `at` of the log is to be counted. */
  predicate Counts(kind: Kind, at: nat, e: Event, of: Subject) {
    match kind
    case Entry => e.Admitted? && About(of, e.command.commandId, at)
    case Settlement => Settles(e) && About(of, e.commandId, e.origin.ticket)
    case Relay => e.Acked? && e.origin == FromProbe && e.sent && of == Command(e.commandId)
  }

  function Tally(kind: Kind, log: seq<Event>, of: Subject): nat {
    if log == [] then 0
    else Tally(kind, log[..|log| - 1], of) + if Counts(kind, |log| - 1, log[|log| - 1], of) then 1 else 0
  }

  lemma TallySnoc(kind: Kind, log: seq<Event>, e: Event, of: Subject)
    ensures Tally(kind, log + [e], of) == Tally(kind, log, of) + if Counts(kind, |log|, e, of) then 1 else 0
  {
    assert (log + [e])[..|log|] == log;
  }

  /** The count is positive exactly if there is something to count. */
  lemma {:induction false} TallyMembers(kind: Kind, log: seq<Event>, of: Subject)
    ensures Tally(kind, log, of) > 0 <==> exists i :: 0 <= i < |log| && Counts(kind, i, log[i], of)
  {
    if log != [] {
      var front := log[..|log| - 1];
      TallyMembers(kind, front, of);
      if i :| 0 <= i < |front| && Counts(kind, i, front[i], of) {
        assert Counts(kind, i, log[i], of);
      }
      if i :| 0 <= i < |log| && Counts(kind, i, log[i], of) {
        assert i == |log| - 1 || Counts(kind, i, front[i], of);
      }
    }
  }

  /** A ticket is the position of one admission. */
  lemma {:induction false} TicketNamesOneAdmission(log: seq<Event>, ticket: nat)
    ensures Tally(Entry, log, Admission(ticket)) == if ticket < |log| && log[ticket].Admitted? then 1 else 0
  {
    if log != [] {
      TicketNamesOneAdmission(log[..|log| - 1], ticket);
    }
  }

  // ---------- What the basic operations add to the counts ----------

  lemma AckTally(w: Oracle, s: State, kind: Kind, origin: AckOrigin, id: string, node: string,
                 status: CommandStatus, reason: ReasonCode, of: Subject)
    ensures Tally(kind, Ack(w, s, origin, id, node, status, reason).log, of) == Tally(kind, s.log, of)
      + if Counts(kind, |s.log|, Acked(origin, id, node, status, reason, s.tick, w.ackSent(s.tick)), of) then 1 else 0
  {
    TallySnoc(kind, s.log, Acked(origin, id, node, status, reason, s.tick, w.ackSent(s.tick)), of);
  }

  lemma FinishTally(w: Oracle, s: State, kind: Kind, id: string, of: Subject)
    ensures Tally(kind, Finish(w, s, id).log, of) == Tally(kind, s.log, of)
  {
    TallySnoc(kind, s.log, FinishedAt(id, w.clock(s.tick), w.clock(s.tick + 1)), of);
  }

  lemma ReportTally(w: Oracle, s: State, kind: Kind, ticket: nat, id: string, node: string,
                    status: CommandStatus, reason: ReasonCode, of: Subject)
    requires status == Expired || status == Failed
    ensures Tally(kind, Report(w, s, ticket, id, node, status, reason).log, of)
         == Tally(kind, s.log, of) + if kind == Settlement && About(of, id, ticket) then 1 else 0
  {
    AckTally(w, s, kind, FromHub(ticket), id, node, status, reason, of);
    FinishTally(w, Ack(w, s, FromHub(ticket), id, node, status, reason), kind, id, of);
  }

  /** Placing an admitted command either queues it or settles it. */
  lemma PlaceTally(w: Oracle, s: State, kind: Kind, c: PolledCommand, ticket: nat, of: Subject)
    ensures var t := Place(w, s, c, ticket);
      && Tally(kind, t.log, of) == Tally(kind, s.log, of)
           + (if kind == Settlement && About(of, c.commandId, ticket) && t.pending == s.pending then 1 else 0)
      && PendingCount(t.pending, of) == PendingCount(s.pending, of)
           + (if About(of, c.commandId, ticket) && t.pending != s.pending then 1 else 0)
  {
    var read, t := s.(tick := s.tick + 1), Place(w, s, c, ticket);
    if IsExpired(c.expiresAt, w.clock(s.tick)) {
      ReportTally(w, read, kind, ticket, c.commandId, c.nodeId, Expired, TtlExpired, of);
    } else if ActionByte(c).None? {
      ReportTally(w, read, kind, ticket, c.commandId, c.nodeId, Failed, BleWriteFailed, of);
    } else {
      assert |t.pending| == |s.pending| + 1;
      PendingCountSnoc(s.pending, t.pending[|s.pending|], of);
    }
  }

  /** Offering a command admits it or not; an admitted one is queued or settled. */
  lemma OfferTally(w: Oracle, s: State, kind: Kind, c: PolledCommand, of: Subject)
    ensures var t := Offer(w, s, c);
      var concerned := LetsIn(w, s, c) && About(of, c.commandId, |s.log|);
      && t.applied == s.applied
      && (kind == Entry ==> Tally(kind, t.log, of) == Tally(kind, s.log, of) + if concerned then 1 else 0)
      && (kind == Settlement ==> Tally(kind, t.log, of) + PendingCount(t.pending, of)
                                 == Tally(kind, s.log, of) + PendingCount(s.pending, of) + if concerned then 1 else 0)
      && (kind == Relay ==> Tally(kind, t.log, of) == Tally(kind, s.log, of))
  {
    if LetsIn(w, s, c) {
      TallySnoc(kind, s.log, Admitted(c, w.clock(s.tick)), of);
      PlaceTally(w, Admit(w, s, c), kind, c, |s.log|, of);
    } else {
      TallySnoc(kind, s.log, Refused(c, w.clock(s.tick)), of);
    }
  }

  /** The sweep settles exactly what it drops. */
  lemma JudgeTally(w: Oracle, s: State, kind: Kind, k: nat, of: Subject)
    ensures var t := Judge(w, s, k);
      && t.applied == s.applied
      && Tally(kind, t.log, of) - Tally(kind, s.log, of)
           == if kind == Settlement then PendingCount(s.pending, of) - PendingCount(t.pending, of) else 0
  {
    if k < |s.pending| && IsExpired(s.pending[k].expiresAtEpochMs, w.clock(s.tick)) {
      var e, read := s.pending[k], s.(tick := s.tick + 1);
      PendingCountWithout(s.pending, k, of);
      ReportTally(w, read, kind, e.ticket, e.commandId, e.nodeId, Expired, TtlExpired, of);
      assert Judge(w, s, k)
          == Report(w, read, e.ticket, e.commandId, e.nodeId, Expired, TtlExpired).(pending := Without(s.pending, k));
    } else {
      assert Judge(w, s, k).log == s.log && Judge(w, s, k).pending == s.pending;
    }
  }

  /** Dispatching settles a command exactly when it does not keep it. */
  lemma DispatchTally(w: Oracle, s: State, kind: Kind, e: PendingMotorCommand, outcome: DispatchResult, of: Subject)
    ensures var (t, kept) := Dispatch(w, s, e, outcome);
      && t.pending == s.pending && t.applied == s.applied
      && Tally(kind, t.log, of) == Tally(kind, s.log, of)
           + if kind == Settlement && About(of, e.commandId, e.ticket) && !kept then 1 else 0
  {
    match outcome
    case Delivered =>
      AckTally(w, s, kind, FromHub(e.ticket), e.commandId, e.nodeId, SentToProbe, NoReason, of);
      FinishTally(w, Ack(w, s, FromHub(e.ticket), e.commandId, e.nodeId, SentToProbe, NoReason), kind, e.commandId, of);
    case ExpiredBeforeWrite =>
      ReportTally(w, s, kind, e.ticket, e.commandId, e.nodeId, Expired, TtlExpired, of);
    case BleWriteFailure =>
  }

  lemma CompleteTally(w: Oracle, s: State, kind: Kind, probe: string, outcome: DispatchResult, of: Subject)
    ensures var t := Complete(w, s, probe, outcome);
      && t.applied == s.applied
      && Tally(kind, t.log, of) - Tally(kind, s.log, of)
           == if kind == Settlement then PendingCount(s.pending, of) - PendingCount(t.pending, of) else 0
  {
    var k := IndexFor(s.pending, probe);
    if k < |s.pending| {
      PendingCountWithout(s.pending, k, of);
      DispatchTally(w, s, kind, s.pending[k], outcome, of);
    }
  }

  lemma PassOnTally(w: Oracle, s: State, kind: Kind, id: string, probe: string, status: CommandStatus,
      reason: ReasonCode, of: Subject)
    ensures Tally(kind, PassOn(w, s, id, probe, status, reason).log, of)
         == Tally(kind, s.log, of) + if kind == Relay && of == Command(id) && w.ackSent(s.tick) then 1 else 0
  {
    AckTally(w, s, kind, FromProbe, id, probe, status, reason, of);
    if w.ackSent(s.tick) {
      FinishTally(w, Ack(w, s, FromProbe, id, probe, status, reason), kind, id, of);
    }
  }

  /** Hearing a result passes it on exactly when the command becomes one of the applied ones. */
  lemma HearTally(w: Oracle, s: State, kind: Kind, probe: string, result: ProbeMotorResult, of: Subject)
    ensures var t := Hear(w, s, probe, result);
      && Tally(kind, t.log, of) == Tally(kind, s.log, of)
           + (if kind == Relay && of.Command? && of.id in t.applied && of.id !in s.applied then 1 else 0)
      && s.applied <= t.applied && t.pending == s.pending
  {
    var id := Canonical(result.commandId);
    if id !in s.applied && Outcome(result).Some? {
      PassOnTally(w, s, kind, id, probe, Outcome(result).value.0, Outcome(result).value.1, of);
    }
  }

  lemma SendTally(w: Oracle, s: State, kind: Kind, probe: string, radio: Radio, of: Subject)
    ensures var t := Send(w, s, probe, radio).0;
      && Tally(kind, t.log, of) == Tally(kind, s.log, of)
      && t.applied == s.applied && t.pending == s.pending
  {
    var t := Send(w, s, probe, radio).0;
    if t.log != s.log {
      TallySnoc(kind, s.log, t.log[|s.log|], of);
    }
  }
}
