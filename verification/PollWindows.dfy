/**
  What one poll window does with the commands it pulls: every one is offered, in order, after the
  sweep, and each is refused, reported or queued.
 */
module PollWindows {
  import opened CommandDedup
  import opened DeliveryOrder
  import opened Hub
  import opened Machine
  import opened Wrappers

  /** The commands that the log shows being offered, whether let in or refused. */
  function Offers(log: seq<Event>): seq<PolledCommand> {
    if log == [] then []
    else
      var e := log[|log| - 1];
      Offers(log[..|log| - 1]) + if e.Admitted? || e.Refused? then [e.command] else []
  }

  lemma {:induction false} OffersConcat(a: seq<Event>, b: seq<Event>)
    ensures Offers(a + b) == Offers(a) + Offers(b)
  {
    if b == [] {
      assert a + b == a;
    } else {
      OffersConcat(a, b[..|b| - 1]);
      assert (a + b)[..|a + b| - 1] == a + b[..|b| - 1];
    }
  }

  predicate OffersNothing(tail: seq<Event>) {
    forall i :: 0 <= i < |tail| ==> !tail[i].Admitted? && !tail[i].Refused?
  }

  lemma {:induction false} OffersOfNothing(tail: seq<Event>)
    requires OffersNothing(tail)
    ensures Offers(tail) == []
  {
    if tail != [] {
      OffersOfNothing(tail[..|tail| - 1]);
    }
  }

  predicate Finishes(e: Event, id: string) {
    e.FinishedAt? && e.commandId == id
  }

  /** The sweep reports and finishes an entry exactly if the clock reads at or past its positive deadline. */
  lemma JudgeExactly(w: Oracle, s: State, k: nat) returns (tail: seq<Event>)
    requires k < |s.pending|
    ensures var e, t := s.pending[k], Judge(w, s, k);
      && t.log == s.log + tail && OffersNothing(tail)
      && if 0 < e.expiresAtEpochMs <= w.clock(s.tick) then
           && t.pending == Without(s.pending, k)
           && |tail| == 2 && tail[0].Acked? && tail[0].origin == FromHub(e.ticket)
           && tail[0].commandId == e.commandId && tail[0].nodeId == e.nodeId
           && tail[0].status == Expired && tail[0].reason == TtlExpired
           && Finishes(tail[1], e.commandId)
         else
           t.pending == s.pending && tail == []
  {
    tail := Judge(w, s, k).log[|s.log|..];
  }

  lemma {:induction false} SweepOffersNothing(w: Oracle, s: State, k: nat) returns (tail: seq<Event>)
    ensures Sweep(w, s, k).log == s.log + tail && OffersNothing(tail)
    decreases |s.pending| - k
  {
    tail := [];
    if k < |s.pending| {
      var t := Judge(w, s, k);
      var first := JudgeExactly(w, s, k);
      var rest := SweepOffersNothing(w, t, if |t.pending| < |s.pending| then k else k + 1);
      tail := first + rest;
    }
  }

  // ---------- What becomes of one offered command ----------

  /** What the hub tells the backend of a command that it drops at once. */
  predicate ReportOf(e: Event, c: PolledCommand, ticket: nat, status: CommandStatus, reason: ReasonCode) {
    && e.Acked? && e.origin == FromHub(ticket)
    && e.commandId == c.commandId && e.nodeId == c.nodeId && e.status == status && e.reason == reason
  }

  /** The log of one offer: the command is refused; or admitted and queued; or admitted, reported and finished. */
  predicate OfferLog(tail: seq<Event>, c: PolledCommand, ticket: nat) {
    && (|tail| == 1 || |tail| == 3)
    && (tail[0].Admitted? || (tail[0].Refused? && |tail| == 1)) && tail[0].command == c
    && (|tail| == 3 ==>
         && (ReportOf(tail[1], c, ticket, Expired, TtlExpired) || ReportOf(tail[1], c, ticket, Failed, BleWriteFailed))
         && Finishes(tail[2], c.commandId))
  }

  /**
    A command let in is reported expired if its deadline has passed at the second clock read; otherwise it is
    reported failed if it cannot be carried out; otherwise it is queued last, with action 0 to stop and 1 to
    run, and nothing is reported. A command that is not let in is only noted.
   */
  lemma OfferExactly(w: Oracle, s: State, c: PolledCommand) returns (tail: seq<Event>)
    ensures var t, ticket := Offer(w, s, c), |s.log|;
      var late := 0 < c.expiresAt <= w.clock(s.tick + 1);
      && t.log == s.log + tail && OfferLog(tail, c, ticket)
      && (tail[0].Admitted? <==> TryBegin(s.dedup, c.commandId, w.clock(s.tick)).1 == New)
      && (tail[0].Admitted? && late ==> |tail| == 3 && ReportOf(tail[1], c, ticket, Expired, TtlExpired))
      && (tail[0].Admitted? && !late && Unusable(c) ==>
            |tail| == 3 && ReportOf(tail[1], c, ticket, Failed, BleWriteFailed))
      && (tail[0].Admitted? && !late && !Unusable(c) ==>
            var action := if c.action == Stop then 0 else 1;
            && |tail| == 1
            && t.pending == s.pending
               + [PendingMotorCommand(c.commandId, c.nodeId, action, c.durationMs, c.expiresAt, ticket)])
      && (tail[0].Refused? || late || Unusable(c) ==> t.pending == s.pending)
  {
    tail := Offer(w, s, c).log[|s.log|..];
    ActionByteExactly(c);
    if LetsIn(w, s, c) {
      assert Offer(w, s, c) == Place(w, Admit(w, s, c), c, |s.log|);
    }
  }

  // ---------- The whole window ----------

  lemma {:induction false} OfferAllOffersAll(w: Oracle, s: State, cs: seq<PolledCommand>) returns (tail: seq<Event>)
    ensures OfferAll(w, s, cs).log == s.log + tail && Offers(tail) == cs
    decreases |cs|
  {
    tail := [];
    if cs != [] {
      var first := OfferExactly(w, s, cs[0]);
      var rest := OfferAllOffersAll(w, Offer(w, s, cs[0]), cs[1..]);
      tail := first + rest;
      OfferLogOffersOne(first, cs[0], |s.log|);
      OffersConcat(first, rest);
      assert cs == [cs[0]] + cs[1..];
    }
  }

  lemma OfferLogOffersOne(tail: seq<Event>, c: PolledCommand, ticket: nat)
    requires OfferLog(tail, c, ticket)
    ensures Offers(tail) == [c]
  {
    assert tail == [tail[0]] + tail[1..];
    OffersConcat([tail[0]], tail[1..]);
    OffersOfNothing(tail[1..]);
    assert [tail[0]][..0] == [];
  }

  /**
    For every state and every pull, the commands that a poll window admits or refuses are, in order, exactly
    those pulled, and none if the pull failed; the sweep comes first.
   */
  lemma PollOffersExactlyThePulled(w: Oracle, s: State, pulled: Option<seq<PolledCommand>>)
    returns (swept: seq<Event>, offered: seq<Event>)
    ensures Exec(w, s, PollWindow(pulled)).log == s.log + swept + offered
    ensures OffersNothing(swept)
    ensures Offers(swept + offered) == match pulled case None => [] case Some(cs) => cs
    ensures pulled.None? ==> offered == []
  {
    swept := SweepOffersNothing(w, s, 0);
    OffersOfNothing(swept);
    offered := [];
    match pulled {
      case None =>
        assert swept + offered == swept;
      case Some(cs) =>
        offered := OfferAllOffersAll(w, Sweep(w, s, 0), cs);
        OffersConcat(swept, offered);
    }
  }
}
