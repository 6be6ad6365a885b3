/**
  The link between the pending list, the commands in progress and the finished ones, kept by
  every move of the hub.
 */
module DedupSlots {
  import opened Hub
  import opened Machine
  import opened MotorWire
  import opened Tallies
  import opened Uuid
  import opened Wrappers

  /** The command is pending exactly as often as the duplicate filter counts on. */
  predicate CountsRight(s: State, id: string) {
    PendingCount(s.pending, Command(id)) == if id in s.dedup.processing then 1 else 0
  }

  /**
    The command is not both in progress and finished; if it is in progress it is pending, so no
    slot leaks; it is pending at most once more than it is in progress; and unless a probe's result
    on it was passed on, it is pending exactly once if it is in progress and not at all otherwise.
   */
  predicate SlotRight(s: State, id: string) {
    && (id in s.dedup.processing ==> id !in s.dedup.processed)
    && (id in s.dedup.processing ==> PendingCount(s.pending, Command(id)) > 0)
    && PendingCount(s.pending, Command(id)) <= 1 + (if id in s.dedup.processing then 1 else 0)
    && (id !in s.applied ==> CountsRight(s, id))
  }

  /** Dropping an entry and finishing its command keeps every slot right. */
  lemma RetireKeepsSlot(w: Oracle, s: State, k: nat, t: State, id: string)
    requires SlotRight(s, id) && k < |s.pending|
    requires t.dedup == s.dedup && t.applied == s.applied
    ensures SlotRight(Finish(w, t, s.pending[k].commandId).(pending := Without(s.pending, k)), id)
  {
    PendingCountWithout(s.pending, k, Command(id));
  }

  /** Between admitting a command and placing it, its slot is right but for the entry still to come. */
  predicate SlotOpen(s: State, c: PolledCommand, id: string) {
    var count := PendingCount(s.pending, Command(id)) + if c.commandId == id then 1 else 0;
    var slots := if id in s.dedup.processing then 1 else 0;
    && c.commandId in s.dedup.processing
    && (id in s.dedup.processing ==> id !in s.dedup.processed)
    && slots <= count <= 1 + slots
    && (id !in s.applied ==> count == slots)
  }

  lemma PlaceClosesSlot(w: Oracle, s: State, c: PolledCommand, ticket: nat, id: string)
    requires SlotOpen(s, c, id)
    ensures SlotRight(Place(w, s, c, ticket), id)
  {
    PlaceTally(w, s, Entry, c, ticket, Command(id));
  }

  lemma OfferKeepsSlot(w: Oracle, s: State, c: PolledCommand, id: string)
    requires SlotRight(s, id)
    ensures SlotRight(Offer(w, s, c), id)
  {
    if LetsIn(w, s, c) {
      var admitted := Admit(w, s, c);
      assert SlotOpen(admitted, c, id);
      PlaceClosesSlot(w, admitted, c, |s.log|, id);
      assert Offer(w, s, c) == Place(w, admitted, c, |s.log|);
    }
  }

  lemma CompleteKeepsSlot(w: Oracle, s: State, probe: string, outcome: DispatchResult, id: string)
    requires SlotRight(s, id)
    ensures SlotRight(Complete(w, s, probe, outcome), id)
  {
    var k := IndexFor(s.pending, probe);
    if k < |s.pending| {
      var e := s.pending[k];
      RetireKeepsSlot(w, s, k, Ack(w, s, FromHub(e.ticket), e.commandId, e.nodeId, SentToProbe, NoReason), id);
      RetireKeepsSlot(w, s, k, Ack(w, s, FromHub(e.ticket), e.commandId, e.nodeId, Expired, TtlExpired), id);
    }
  }

  /** Every move keeps every slot right, including the moves inside the loops of the poller. */
  lemma MoveKeepsSlot(w: Oracle, s: State, m: Move, id: string)
    requires SlotRight(s, id)
    ensures SlotRight(Apply(w, s, m), id)
  {
    match m
    case JudgeMove(k) =>
      if k < |s.pending| {
        var e := s.pending[k];
        RetireKeepsSlot(w, s, k,
          Ack(w, s.(tick := s.tick + 1), FromHub(e.ticket), e.commandId, e.nodeId, Expired, TtlExpired), id);
      }
    case OfferMove(c) => OfferKeepsSlot(w, s, c, id);
    case HearMove(_, _) =>
    case SendMove(_, _) =>
    case CompleteMove(probe, outcome) => CompleteKeepsSlot(w, s, probe, outcome, id);
  }

  // ---------- The condition on probe results is needed ----------

  /** The move is a probe's result that gets through, on that command, while it is in progress. */
  predicate FinishesWhilePending(w: Oracle, s: State, m: Move, id: string) {
    && m.HearMove?
    && id == Canonical(m.result.commandId) && 4 <= m.result.status <= 7
    && id !in s.applied && w.ackSent(s.tick)
    && id in s.dedup.processing
  }

  lemma RetireKeepsCounts(w: Oracle, s: State, k: nat, t: State, id: string)
    requires CountsRight(s, id) && k < |s.pending| && t.dedup == s.dedup
    ensures CountsRight(Finish(w, t, s.pending[k].commandId).(pending := Without(s.pending, k)), id)
  {
    PendingCountWithout(s.pending, k, Command(id));
  }

  lemma JudgeKeepsCounts(w: Oracle, s: State, k: nat, id: string)
    requires CountsRight(s, id)
    ensures CountsRight(Judge(w, s, k), id)
  {
    if k < |s.pending| {
      var e := s.pending[k];
      RetireKeepsCounts(w, s, k,
        Ack(w, s.(tick := s.tick + 1), FromHub(e.ticket), e.commandId, e.nodeId, Expired, TtlExpired), id);
    }
  }

  lemma PlaceClosesCount(w: Oracle, s: State, c: PolledCommand, ticket: nat, id: string)
    requires c.commandId in s.dedup.processing
    requires PendingCount(s.pending, Command(id)) + (if c.commandId == id then 1 else 0)
          == if id in s.dedup.processing then 1 else 0
    ensures CountsRight(Place(w, s, c, ticket), id)
  {
    PlaceTally(w, s, Entry, c, ticket, Command(id));
  }

  lemma OfferKeepsCounts(w: Oracle, s: State, c: PolledCommand, id: string)
    requires CountsRight(s, id)
    ensures CountsRight(Offer(w, s, c), id)
  {
    if LetsIn(w, s, c) {
      PlaceClosesCount(w, Admit(w, s, c), c, |s.log|, id);
      assert Offer(w, s, c) == Place(w, Admit(w, s, c), c, |s.log|);
    }
  }

  lemma CompleteKeepsCounts(w: Oracle, s: State, probe: string, outcome: DispatchResult, id: string)
    requires CountsRight(s, id)
    ensures CountsRight(Complete(w, s, probe, outcome), id)
  {
    var k := IndexFor(s.pending, probe);
    if k < |s.pending| {
      var e := s.pending[k];
      RetireKeepsCounts(w, s, k, Ack(w, s, FromHub(e.ticket), e.commandId, e.nodeId, SentToProbe, NoReason), id);
      RetireKeepsCounts(w, s, k, Ack(w, s, FromHub(e.ticket), e.commandId, e.nodeId, Expired, TtlExpired), id);
    }
  }

  /** Of all moves, for every command, exactly that one upsets the count. */
  lemma MoveUpsetsCountExactlyWhen(w: Oracle, s: State, m: Move, id: string)
    requires CountsRight(s, id)
    ensures !CountsRight(Apply(w, s, m), id) <==> FinishesWhilePending(w, s, m, id)
  {
    match m
    case JudgeMove(k) =>
      JudgeKeepsCounts(w, s, k, id);
      assert Apply(w, s, m) == Judge(w, s, k);
    case OfferMove(c) =>
      OfferKeepsCounts(w, s, c, id);
      assert Apply(w, s, m) == Offer(w, s, c);
    case HearMove(probe, result) =>
      assert Apply(w, s, m) == Hear(w, s, probe, result);
    case SendMove(probe, radio) =>
      assert Apply(w, s, m) == Send(w, s, probe, radio).0;
    case CompleteMove(probe, outcome) =>
      CompleteKeepsCounts(w, s, probe, outcome, id);
      assert Apply(w, s, m) == Complete(w, s, probe, outcome);
  }

  /** A run after which a command is pending, yet no longer in progress: its result was heard and acknowledged. */
  lemma HeardCommandStaysPending(w: Oracle, c: PolledCommand, result: ProbeMotorResult) returns (steps: seq<Step>)
    requires ActionByte(c).Some? && c.expiresAt <= 0
    requires c.commandId == Canonical(result.commandId) && Outcome(result).Some? && w.ackSent(2)
    ensures var s := Run(w, INITIAL, steps);
      && |s.pending| == 1 && s.pending[0].commandId == c.commandId
      && c.commandId !in s.dedup.processing && c.commandId in s.applied
  {
    var first, second := PollWindow(Some([c])), ApplyResult(c.nodeId, result);
    steps := [first, second];
    assert steps[1..] == [second] && [second][1..] == [];
    var polled := Exec(w, INITIAL, first);
    assert [c][1..] == [];
    assert polled == OfferAll(w, Offer(w, INITIAL, c), []);
    assert Run(w, INITIAL, steps) == Run(w, polled, [second]) == Run(w, Hear(w, polled, c.nodeId, result), []);
  }
}
