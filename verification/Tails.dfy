/**
  What one move adds to the log: it speaks of at most one admission, or passes on one result.
 */
module Tails {
  import opened Hub
  import opened Machine
  import opened MotorWire
  import opened Tallies
  import opened Uuid

  /** A write of that admission, or an acknowledgement by the hub on it. */
  predicate Mentions(e: Event, ticket: nat) {
    (e.Written? && e.request.ticket == ticket) || (e.Acked? && e.origin == FromHub(ticket))
  }

  /** Writes and acknowledgements are of that admission, and an acknowledgement names its command and probe. */
  predicate Speaks(e: Event, ticket: nat, id: string, node: string) {
    && (e.Written? ==> e.request.ticket == ticket)
    && (e.Acked? ==> e.origin == FromHub(ticket) && e.commandId == id && e.nodeId == node)
  }

  /** All of it is about one admission, and nothing follows what settles it. */
  predicate TailOn(tail: seq<Event>, ticket: nat, id: string, node: string) {
    && (forall i :: 0 <= i < |tail| ==> Speaks(tail[i], ticket, id, node))
    && (forall i, j :: 0 <= i < j < |tail| && Settles(tail[i]) ==> !Mentions(tail[j], ticket))
  }

  predicate SpeaksOfNone(tail: seq<Event>) {
    forall i :: 0 <= i < |tail| ==> !tail[i].Written? && !tail[i].Acked?
  }

  /** A result on that command is passed on, or tried to be, and nothing else is said. */
  predicate Relays(tail: seq<Event>, id: string) {
    tail != [] && tail[0].Acked? && tail[0].origin == FromProbe && tail[0].commandId == id
    && forall i :: 0 < i < |tail| ==> !tail[i].Written? && !tail[i].Acked?
  }

  lemma ReportTail(w: Oracle, s: State, ticket: nat, id: string, node: string, status: CommandStatus,
      reason: ReasonCode)
    returns (tail: seq<Event>)
    ensures Report(w, s, ticket, id, node, status, reason).log == s.log + tail
    ensures TailOn(tail, ticket, id, node)
  {
    tail := [Acked(FromHub(ticket), id, node, status, reason, s.tick, w.ackSent(s.tick)),
             FinishedAt(id, w.clock(s.tick + 1), w.clock(s.tick + 2))];
  }

  lemma JudgeTail(w: Oracle, s: State, k: nat) returns (tail: seq<Event>)
    requires k < |s.pending|
    ensures Judge(w, s, k).log == s.log + tail
    ensures var e := s.pending[k]; TailOn(tail, e.ticket, e.commandId, e.nodeId)
  {
    var e := s.pending[k];
    tail := [];
    if IsExpired(e.expiresAtEpochMs, w.clock(s.tick)) {
      tail := ReportTail(w, s.(tick := s.tick + 1), e.ticket, e.commandId, e.nodeId, Expired, TtlExpired);
    }
  }

  lemma PlaceTail(w: Oracle, s: State, c: PolledCommand, ticket: nat) returns (tail: seq<Event>)
    ensures Place(w, s, c, ticket).log == s.log + tail
    ensures TailOn(tail, ticket, c.commandId, c.nodeId)
  {
    var read := s.(tick := s.tick + 1);
    tail := [];
    if IsExpired(c.expiresAt, w.clock(s.tick)) {
      tail := ReportTail(w, read, ticket, c.commandId, c.nodeId, Expired, TtlExpired);
    } else if ActionByte(c).None? {
      tail := ReportTail(w, read, ticket, c.commandId, c.nodeId, Failed, BleWriteFailed);
    }
  }

  lemma OfferTail(w: Oracle, s: State, c: PolledCommand) returns (tail: seq<Event>)
    ensures Offer(w, s, c).log == s.log + tail && tail != []
    ensures TailOn(tail, |s.log|, c.commandId, c.nodeId)
    ensures SpeaksOfNone(tail) || (tail[0].Admitted? && tail[0].command == c)
  {
    if LetsIn(w, s, c) {
      var rest := PlaceTail(w, Admit(w, s, c), c, |s.log|);
      tail := [Admitted(c, w.clock(s.tick))] + rest;
    } else {
      tail := [Refused(c, w.clock(s.tick))];
    }
  }

  lemma HearTail(w: Oracle, s: State, probe: string, result: ProbeMotorResult) returns (tail: seq<Event>)
    ensures Hear(w, s, probe, result).log == s.log + tail
    ensures var id := Canonical(result.commandId);
      tail == [] || (id !in s.applied && Relays(tail, id))
  {
    tail := Hear(w, s, probe, result).log[|s.log|..];
  }

  lemma SendTail(w: Oracle, s: State, probe: string, radio: Radio) returns (tail: seq<Event>)
    requires IndexFor(s.pending, probe) < |s.pending|
    ensures Send(w, s, probe, radio).0.log == s.log + tail
    ensures var e := s.pending[IndexFor(s.pending, probe)]; TailOn(tail, e.ticket, e.commandId, e.nodeId)
  {
    tail := Send(w, s, probe, radio).0.log[|s.log|..];
  }

  lemma CompleteTail(w: Oracle, s: State, probe: string, outcome: DispatchResult) returns (tail: seq<Event>)
    requires IndexFor(s.pending, probe) < |s.pending|
    ensures Complete(w, s, probe, outcome).log == s.log + tail
    ensures var e := s.pending[IndexFor(s.pending, probe)]; TailOn(tail, e.ticket, e.commandId, e.nodeId)
  {
    var e := s.pending[IndexFor(s.pending, probe)];
    match outcome
    case Delivered => tail := Complete(w, s, probe, outcome).log[|s.log|..];
    case ExpiredBeforeWrite => tail := ReportTail(w, s, e.ticket, e.commandId, e.nodeId, Expired, TtlExpired);
    case BleWriteFailure => tail := [];
  }

  /** Whom a move speaks of: nobody, the admission it has just made, a pending one, or a command a probe reports on. */
  datatype Topic = Nobody | Newcomer(command: PolledCommand) | Waiting(k: nat) | Reported(id: string)

  predicate TailFits(tail: seq<Event>, topic: Topic, pending: seq<PendingMotorCommand>, applied: set<string>,
      log: seq<Event>) {
    match topic
    case Nobody => SpeaksOfNone(tail)
    case Newcomer(c) =>
      tail != [] && tail[0].Admitted? && tail[0].command == c && TailOn(tail, |log|, c.commandId, c.nodeId)
    case Reported(id) => id !in applied && Relays(tail, id)
    case Waiting(k) =>
      k < |pending| && TailOn(tail, pending[k].ticket, pending[k].commandId, pending[k].nodeId)
  }

  lemma MoveTail(w: Oracle, s: State, m: Move) returns (tail: seq<Event>, topic: Topic)
    ensures Apply(w, s, m).log == s.log + tail && TailFits(tail, topic, s.pending, s.applied, s.log)
  {
    tail, topic := [], Nobody;
    match m
    case JudgeMove(k) =>
      if k < |s.pending| {
        tail := JudgeTail(w, s, k);
        topic := Waiting(k);
      }
    case OfferMove(c) =>
      tail := OfferTail(w, s, c);
      topic := if SpeaksOfNone(tail) then Nobody else Newcomer(c);
      assert Apply(w, s, m) == Offer(w, s, c);
    case HearMove(probe, result) =>
      tail := HearTail(w, s, probe, result);
      topic := if tail == [] then Nobody else Reported(Canonical(result.commandId));
      assert Apply(w, s, m) == Hear(w, s, probe, result);
    case SendMove(probe, radio) =>
      if IndexFor(s.pending, probe) < |s.pending| {
        tail := SendTail(w, s, probe, radio);
        topic := Waiting(IndexFor(s.pending, probe));
      }
      assert Apply(w, s, m) == Send(w, s, probe, radio).0;
    case CompleteMove(probe, outcome) =>
      if IndexFor(s.pending, probe) < |s.pending| {
        tail := CompleteTail(w, s, probe, outcome);
        topic := Waiting(IndexFor(s.pending, probe));
      }
  }
}
