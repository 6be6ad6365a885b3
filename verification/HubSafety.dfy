/**
  The invariants of the hub over whole runs: any number of poll windows, probe sessions, probe
  results and dispatch completions, in any order, with any clock and any network failures.
 */
module HubSafety {
  import opened AdmissionLife
  import opened Conservation
  import opened DedupSlots
  import opened DeliveryOrder
  import opened Hub
  import opened Machine
  import opened MotorWire
  import opened ProbeReports
  import opened Tails
  import opened Tallies
  import opened Uuid
  import opened Wrappers

  /** Everything that every move keeps. */
  ghost predicate Safe(s: State) {
    && (forall id :: SlotRight(s, id))
    && (forall id :: RelayedOnce(s, id))
    && (forall of :: Balanced(s, of))
    && FirstInFirstOut(s.pending, s.log)
    && LivesInOrder(s)
    && RelayIsLastWord(s.log)
  }

  lemma MoveKeepsSafe(w: Oracle, s: State, m: Move)
    requires Safe(s)
    ensures Safe(Apply(w, s, m))
  {
    var t := Apply(w, s, m);
    forall id ensures SlotRight(t, id) {
      MoveKeepsSlot(w, s, m, id);
    }
    forall id ensures RelayedOnce(t, id) {
      MoveKeepsRelayedOnce(w, s, m, id);
    }
    forall of ensures Balanced(t, of) {
      MoveKeepsBalance(w, s, m, of);
    }
    MoveKeepsOrder(w, s, m);
    MoveKeepsLives(w, s, m);
    MoveKeepsLastWord(w, s, m);
  }

  /** It holds after any sequence of moves, so also between the iterations of the poller's loops. */
  lemma {:induction false} SafeAfterMoves(w: Oracle, s: State, ms: seq<Move>)
    requires Safe(s)
    ensures Safe(ApplyAll(w, s, ms))
    decreases |ms|
  {
    if ms != [] {
      MoveKeepsSafe(w, s, ms[0]);
      SafeAfterMoves(w, Apply(w, s, ms[0]), ms[1..]);
    }
  }

  lemma SafeInEveryRun(w: Oracle, steps: seq<Step>)
    ensures Safe(Run(w, INITIAL, steps))
  {
    var ms := RunIsMoves(w, INITIAL, steps);
    SafeAfterMoves(w, INITIAL, ms);
  }

  /**
    No slot leaks, no command is both in progress and finished, pending agrees with in progress, and
    exceeds it by at most one entry where a probe's result was passed on.
   */
  lemma SlotsInEveryRun(w: Oracle, steps: seq<Step>, id: string)
    ensures var s := Run(w, INITIAL, steps);
      && (id in s.dedup.processing ==> id !in s.dedup.processed)
      && (id in s.dedup.processing ==> exists i :: 0 <= i < |s.pending| && s.pending[i].commandId == id)
      && (id !in s.applied ==> PendingCount(s.pending, Command(id)) == if id in s.dedup.processing then 1 else 0)
      && PendingCount(s.pending, Command(id)) <= 1 + (if id in s.dedup.processing then 1 else 0)
  {
    var s := Run(w, INITIAL, steps);
    SafeInEveryRun(w, steps);
    assert SlotRight(s, id);
    PendingCountMembers(s.pending, Command(id));
    if i :| 0 <= i < |s.pending| && About(Command(id), s.pending[i].commandId, s.pending[i].ticket) {
      assert s.pending[i].commandId == id;
    }
  }

  /** The admissions of a command are accounted for: pending, or settled by one acknowledgement attempt each. */
  lemma AdmissionsAddUp(w: Oracle, steps: seq<Step>, id: string)
    ensures var s := Run(w, INITIAL, steps);
      && Tally(Entry, s.log, Command(id))
        == PendingCount(s.pending, Command(id)) + Tally(Settlement, s.log, Command(id))
      && (id !in s.applied ==>
            Tally(Entry, s.log, Command(id)) - Tally(Settlement, s.log, Command(id))
            == if id in s.dedup.processing then 1 else 0)
  {
    var s := Run(w, INITIAL, steps);
    SafeInEveryRun(w, steps);
    assert Balanced(s, Command(id)) && SlotRight(s, id);
  }

  /** The acknowledgement at `i` settles that admission, and names its command and its probe. */
  predicate SettlesAdmission(log: seq<Event>, i: nat, ticket: nat) {
    i < |log| && Settles(log[i]) && log[i].origin.ticket == ticket && ReportsOn(log, i, ticket)
  }

  /**
    No admission vanishes: each one either is pending, in one entry, and not settled; or is not pending, and
    settled by exactly one acknowledgement, which names its command and is the last thing said on it.
   */
  lemma NoCommandVanishes(w: Oracle, steps: seq<Step>, ticket: nat)
    requires ticket < |Run(w, INITIAL, steps).log| && Run(w, INITIAL, steps).log[ticket].Admitted?
    ensures var s := Run(w, INITIAL, steps);
      && PendingCount(s.pending, Admission(ticket)) + Tally(Settlement, s.log, Admission(ticket)) == 1
      && (PendingCount(s.pending, Admission(ticket)) == 0 <==> exists i: nat :: SettlesAdmission(s.log, i, ticket))
      && (forall i: nat, j :: SettlesAdmission(s.log, i, ticket) && i < j < |s.log| ==> !Mentions(s.log[j], ticket))
  {
    var s, of := Run(w, INITIAL, steps), Admission(ticket);
    SafeInEveryRun(w, steps);
    assert Balanced(s, of);
    TicketNamesOneAdmission(s.log, ticket);
    SettlementsAreAdmissions(s.log, ticket);
  }

  lemma SettlementsAreAdmissions(log: seq<Event>, ticket: nat)
    requires ReportsNameTheirAdmission(log)
    ensures Tally(Settlement, log, Admission(ticket)) > 0 <==> exists i: nat :: SettlesAdmission(log, i, ticket)
  {
    TallyMembers(Settlement, log, Admission(ticket));
    if i :| 0 <= i < |log| && Counts(Settlement, i, log[i], Admission(ticket)) {
      assert SettlesAdmission(log, i, ticket);
    }
    if i: nat :| SettlesAdmission(log, i, ticket) {
      assert Counts(Settlement, i, log[i], Admission(ticket));
    }
  }

  /** At most one probe result per command gets through, and exactly the applied commands have one. */
  lemma ProbeResultPassedOnAtMostOnce(w: Oracle, steps: seq<Step>, id: string)
    ensures var s := Run(w, INITIAL, steps);
      && Tally(Relay, s.log, Command(id)) <= 1
      && (Tally(Relay, s.log, Command(id)) == 1 <==> id in s.applied)
  {
    SafeInEveryRun(w, steps);
    assert RelayedOnce(Run(w, INITIAL, steps), id);
  }

  predicate GotThrough(e: Event, id: string) {
    FromProbeOn(e, id) && e.sent
  }

  /**
    After every run, a result read from a probe is offered to the backend if and only if it has one of the
    statuses 4 to 7 and no result on that command, "executing" included, has got through before; and then no
    other result on that command is ever offered.
   */
  lemma FirstResultThroughIsTheOnlyOne(w: Oracle, steps: seq<Step>, probe: string, result: ProbeMotorResult)
    ensures var s, id := Run(w, INITIAL, steps), Canonical(result.commandId);
      && (Hear(w, s, probe, result).log != s.log
          <==> 4 <= result.status <= 7 && forall i :: 0 <= i < |s.log| ==> !GotThrough(s.log[i], id))
      && (forall i, j :: 0 <= i < j < |s.log| && GotThrough(s.log[i], id) ==> !FromProbeOn(s.log[j], id))
  {
    var s, of := Run(w, INITIAL, steps), Command(Canonical(result.commandId));
    SafeInEveryRun(w, steps);
    PassedOnFaithfully(w, s, probe, result);
    assert RelayedOnce(s, of.id);
    RelaysGotThrough(s.log, of.id);
  }

  lemma RelaysGotThrough(log: seq<Event>, id: string)
    ensures Tally(Relay, log, Command(id)) > 0 <==> exists i :: 0 <= i < |log| && GotThrough(log[i], id)
  {
    TallyMembers(Relay, log, Command(id));
    if i :| 0 <= i < |log| && Counts(Relay, i, log[i], Command(id)) {
      assert GotThrough(log[i], id);
    }
    if i :| 0 <= i < |log| && GotThrough(log[i], id) {
      assert Counts(Relay, i, log[i], Command(id));
    }
  }

  /** Pending is in admission order, no write overtakes an earlier admission, and every frame is faithful. */
  lemma DeliveredInOrder(w: Oracle, steps: seq<Step>)
    ensures FirstInFirstOut(Run(w, INITIAL, steps).pending, Run(w, INITIAL, steps).log)
  {
    SafeInEveryRun(w, steps);
  }

  /** Every frame ever written ends by the deadline of the command that was pulled, and that deadline is positive. */
  lemma EveryWriteWithinDeadline(w: Oracle, steps: seq<Step>, i: nat)
    requires i < |Run(w, INITIAL, steps).log| && Run(w, INITIAL, steps).log[i].Written?
    ensures var log := Run(w, INITIAL, steps).log;
      var e := log[i];
      && e.request.ticket < |log| && log[e.request.ticket].Admitted?
      && var c := log[e.request.ticket].command;
         var frame := DecodeCommand(e.payload);
         && c.nodeId == e.probe
         && frame.Some? && Some(frame.value.id) == ParseUuid(c.commandId)
         && (frame.value.action == 1 <==> c.action == RunForDuration)
         && (frame.value.action == 0 <==> c.action == Stop)
         && (c.action == RunForDuration ==> 0 <= c.durationMs)
         && (c.durationMs < 0 ==> frame.value.durationMs == 0)
         && (0 <= c.durationMs <= 5000 ==> frame.value.durationMs == c.durationMs)
         && (5000 < c.durationMs ==> frame.value.durationMs == 5000)
         && 0 < c.expiresAt
         && 1 <= frame.value.ttlMs <= 0xFFFF_FFFF && e.at + frame.value.ttlMs <= c.expiresAt
  {
    DeliveredInOrder(w, steps);
    var log := Run(w, INITIAL, steps).log;
    assert WriteFaithful(log, log[i]);
    ActionByteExactly(log[log[i].request.ticket].command);
  }
}
