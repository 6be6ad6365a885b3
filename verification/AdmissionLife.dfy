/**
  The life of one admission: written and reported on while it is pending, settled once, and
  nothing after that.
 */
module AdmissionLife {
  import opened Conservation
  import opened DeliveryOrder
  import opened Hub
  import opened Machine
  import opened Tails
  import opened Tallies

  ghost predicate NotPending(pending: seq<PendingMotorCommand>, ticket: nat) {
    forall k :: 0 <= k < |pending| ==> pending[k].ticket != ticket
  }

  /** The log grows, and says nothing new on that admission. */
  ghost predicate SilentOn(log: seq<Event>, longer: seq<Event>, ticket: nat) {
    && Extends(log, longer)
    && (forall i :: |log| <= i < |longer| ==> !Mentions(longer[i], ticket))
  }

  // ---------- What is no longer pending never comes back ----------

  lemma MoveKeepsNotPending(w: Oracle, s: State, m: Move, ticket: nat)
    requires ticket < |s.log| && NotPending(s.pending, ticket)
    ensures NotPending(Apply(w, s, m).pending, ticket)
  {
    match m
    case JudgeMove(k) => assert Apply(w, s, m) == Judge(w, s, k);
    case OfferMove(c) => assert Apply(w, s, m) == Offer(w, s, c);
    case HearMove(probe, result) => assert Apply(w, s, m) == Hear(w, s, probe, result);
    case SendMove(probe, radio) => assert Apply(w, s, m) == Send(w, s, probe, radio).0;
    case CompleteMove(probe, outcome) => assert Apply(w, s, m) == Complete(w, s, probe, outcome);
  }

  lemma MoveIsSilent(w: Oracle, s: State, m: Move, ticket: nat)
    requires ticket < |s.log| && NotPending(s.pending, ticket)
    ensures NotPending(Apply(w, s, m).pending, ticket) && SilentOn(s.log, Apply(w, s, m).log, ticket)
  {
    MoveKeepsNotPending(w, s, m, ticket);
    var tail, topic := MoveTail(w, s, m);
    forall i | 0 <= i < |tail|
      ensures !Mentions(tail[i], ticket)
    {
    }
  }

  lemma {:induction false} MovesAreSilent(w: Oracle, s: State, ms: seq<Move>, ticket: nat)
    requires ticket < |s.log| && NotPending(s.pending, ticket)
    ensures NotPending(ApplyAll(w, s, ms).pending, ticket) && SilentOn(s.log, ApplyAll(w, s, ms).log, ticket)
    decreases |ms|
  {
    if ms != [] {
      MoveIsSilent(w, s, ms[0], ticket);
      MovesAreSilent(w, Apply(w, s, ms[0]), ms[1..], ticket);
    }
  }

  /** An admission that has left the pending list never returns to it, and is never written or reported on again. */
  lemma GoneForGood(w: Oracle, s: State, steps: seq<Step>, ticket: nat)
    requires ticket < |s.log| && NotPending(s.pending, ticket)
    ensures NotPending(Run(w, s, steps).pending, ticket) && SilentOn(s.log, Run(w, s, steps).log, ticket)
  {
    var ms := RunIsMoves(w, s, steps);
    MovesAreSilent(w, s, ms, ticket);
  }

  // ---------- Settled once, and for the command that was admitted ----------

  /** After the acknowledgement that settles an admission, nothing mentions it. */
  ghost predicate SettledLast(log: seq<Event>) {
    forall i, j :: 0 <= i < j < |log| && Settles(log[i]) ==> !Mentions(log[j], log[i].origin.ticket)
  }

  predicate ReportsOn(log: seq<Event>, i: nat, ticket: nat)
    requires i < |log| && log[i].Acked?
  {
    && ticket < i && log[ticket].Admitted?
    && log[ticket].command.commandId == log[i].commandId && log[ticket].command.nodeId == log[i].nodeId
  }

  /** Every acknowledgement by the hub names the command and the probe of the admission it is on. */
  ghost predicate ReportsNameTheirAdmission(log: seq<Event>) {
    forall i: nat :: i < |log| && log[i].Acked? && log[i].origin.FromHub? ==> ReportsOn(log, i, log[i].origin.ticket)
  }

  ghost predicate LivesInOrder(s: State) {
    SettledLast(s.log) && ReportsNameTheirAdmission(s.log)
  }

  /** An admission that is settled is not pending. */
  lemma SettledIsNotPending(s: State, i: nat)
    requires i < |s.log| && Settles(s.log[i]) && Balanced(s, Admission(s.log[i].origin.ticket))
    ensures s.log[i].origin.ticket < |s.log| && NotPending(s.pending, s.log[i].origin.ticket)
  {
    var of := Admission(s.log[i].origin.ticket);
    assert Counts(Settlement, i, s.log[i], of);
    TallyMembers(Settlement, s.log, of);
    TicketNamesOneAdmission(s.log, of.ticket);
    PendingCountMembers(s.pending, of);
  }

  ghost predicate ReportsOnceFrom(n: nat, log: seq<Event>) {
    && (forall i, j :: n <= i < j < |log| && Settles(log[i]) ==> !Mentions(log[j], log[i].origin.ticket))
    && (forall i: nat :: n <= i < |log| && log[i].Acked? && log[i].origin.FromHub? ==>
         ReportsOn(log, i, log[i].origin.ticket))
  }

  lemma TailReportsOnce(pending: seq<PendingMotorCommand>, applied: set<string>, log: seq<Event>, tail: seq<Event>,
      topic: Topic)
    requires PendingInOrder(pending, log) && TailFits(tail, topic, pending, applied, log)
    ensures ReportsOnceFrom(|log|, log + tail)
  {
    var longer, n := log + tail, |log|;
    if topic.Waiting? {
      assert EntryFaithful(log, pending[topic.k]);
    }
    forall i: nat | n <= i < |longer| && longer[i].Acked? && longer[i].origin.FromHub?
      ensures ReportsOn(longer, i, longer[i].origin.ticket)
    {
      assert longer[i] == tail[i - n];
    }
    forall i, j | n <= i < j < |longer| && Settles(longer[i])
      ensures !Mentions(longer[j], longer[i].origin.ticket)
    {
      assert longer[i] == tail[i - n] && longer[j] == tail[j - n];
    }
  }

  lemma MoveKeepsLives(w: Oracle, s: State, m: Move)
    requires LivesInOrder(s) && PendingInOrder(s.pending, s.log)
    requires forall ticket: nat :: Balanced(s, Admission(ticket))
    ensures LivesInOrder(Apply(w, s, m))
  {
    var log := Apply(w, s, m).log;
    var tail, topic := MoveTail(w, s, m);
    TailReportsOnce(s.pending, s.applied, s.log, tail, topic);
    assert forall i :: 0 <= i < |s.log| ==> log[i] == s.log[i];
    forall i, j | 0 <= i < j < |log| && Settles(log[i])
      ensures !Mentions(log[j], log[i].origin.ticket)
    {
      if i < |s.log| {
        SettledIsNotPending(s, i);
        MoveIsSilent(w, s, m, s.log[i].origin.ticket);
        assert j < |s.log| ==> !Mentions(s.log[j], s.log[i].origin.ticket);
      }
    }
    forall i: nat | i < |log| && log[i].Acked? && log[i].origin.FromHub?
      ensures ReportsOn(log, i, log[i].origin.ticket)
    {
      assert i < |s.log| ==> ReportsOn(s.log, i, log[i].origin.ticket);
    }
  }
}
