/**
  The objects of src/polling.rs: the duplicate filter and the command poller, with their loops,
  each method proved equal to its function in Hub.dfy.
 */
module CommandPoller {
  import opened CommandDedup
  import opened Hub
  import opened Machine
  import opened MotorWire
  import opened Uuid
  import opened Wrappers

  /** The clock, the acknowledgement service, and the log of what happened. */
  class Environment {
    const oracle: Oracle
    var tick: nat
    var log: seq<Event>

    constructor (oracle: Oracle)
      ensures this.oracle == oracle && tick == 0 && log == []
    {
      this.oracle := oracle;
      tick, log := 0, [];
    }

    /** `unix_now_ms` and `get_unix_now_ms`. */
    method UnixNowMs() returns (now: EpochMs)
      modifies this`tick
      ensures now == oracle.clock(old(tick)) && tick == old(tick) + 1
    {
      now := oracle.clock(tick);
      tick := tick + 1;
    }

    /** `ack_best_effort`. */
    method AckBestEffort(origin: AckOrigin, id: string, node: string, status: CommandStatus, reason: ReasonCode)
      returns (sent: bool)
      modifies this
      ensures sent == oracle.ackSent(old(tick)) && tick == old(tick) + 1
      ensures log == old(log) + [Acked(origin, id, node, status, reason, old(tick), sent)]
    {
      sent := oracle.ackSent(tick);
      log := log + [Acked(origin, id, node, status, reason, tick, sent)];
      tick := tick + 1;
    }

    method Record(e: Event)
      modifies this`log
      ensures log == old(log) + [e]
    {
      log := log + [e];
    }
  }

  class CommandDedupSet {
    var processing: set<string>
    var processed: map<string, EpochMs>

    function Table(): Dedup
      reads this
    {
      Dedup(processing, processed)
    }

    constructor ()
      ensures Table() == EMPTY
    {
      processing, processed := {}, map[];
    }

    method PruneOld(env: Environment)
      modifies this`processed, env`tick
      ensures Table() == Prune(old(Table()), env.oracle.clock(old(env.tick)))
      ensures env.tick == old(env.tick) + 1
    {
      var now := env.UnixNowMs();
      processed := map id | id in processed && SaturatingSub(now, processed[id]) <= RETENTION_MS :: processed[id];
    }

    method Begin(env: Environment, id: string) returns (answer: DedupBegin)
      modifies this, env`tick
      ensures (Table(), answer) == TryBegin(old(Table()), id, env.oracle.clock(old(env.tick)))
      ensures env.tick == old(env.tick) + 1
    {
      PruneOld(env);
      if id in processed {
        return AlreadyProcessed;
      }
      if id in processing {
        return AlreadyProcessing;
      }
      processing := processing + {id};
      return New;
    }

    method FinishCommand(env: Environment, id: string)
      modifies this, env
      ensures Table() == FinishProcessed(old(Table()), id, env.oracle.clock(old(env.tick)),
        env.oracle.clock(old(env.tick) + 1))
      ensures env.tick == old(env.tick) + 2
      ensures env.log == old(env.log)
        + [FinishedAt(id, env.oracle.clock(old(env.tick)), env.oracle.clock(old(env.tick) + 1))]
    {
      processing := processing - {id};
      var seenAt := env.UnixNowMs();
      processed := processed[id := seenAt];
      ghost var marked := Table();
      PruneOld(env);
      assert Table() == Prune(marked, env.oracle.clock(old(env.tick) + 1));
      env.Record(FinishedAt(id, seenAt, env.oracle.clock(env.tick - 1)));
    }
  }

  class Poller {
    const dedup: CommandDedupSet
    var pending: seq<PendingMotorCommand>
    var applied: set<string>

    constructor ()
      ensures fresh(dedup) && dedup.Table() == EMPTY
      ensures pending == [] && applied == {}
    {
      dedup := new CommandDedupSet();
      pending, applied := [], {};
    }

    /** The state that the functions of Hub.dfy talk about. */
    function View(env: Environment): State
      reads this, dedup, env
    {
      State(dedup.Table(), pending, applied, env.tick, env.log)
    }

    method PollWindow(env: Environment, pulled: Option<seq<PolledCommand>>)
      modifies this, dedup, env
      ensures View(env) == PollOnce(env.oracle, old(View(env)), pulled)
    {
      ExpirePendingCommands(env);
      match pulled {
        case None =>
          return;
        case Some(commands) =>
          ghost var swept := View(env);
          for i := 0 to |commands|
            invariant OfferAll(env.oracle, View(env), commands[i..]) == OfferAll(env.oracle, swept, commands)
          {
            assert commands[i..][1..] == commands[i + 1..];
            StorePolledCommand(env, commands[i]);
          }
      }
    }

    /** `peek_pending_for_probe_uuid`: the first command for the probe, and none if it has none. */
    method PeekPendingForProbe(probe: string) returns (request: Option<MotorDispatchRequest>)
      ensures request.None? <==> forall i :: 0 <= i < |pending| ==> pending[i].nodeId != probe
      ensures request.Some? ==>
        var k := IndexFor(pending, probe);
        k < |pending| && request == Some(RequestOf(pending[k]))
    {
      var i := 0;
      while i < |pending|
        invariant i <= |pending|
        invariant forall j :: 0 <= j < i ==> pending[j].nodeId != probe
      {
        if pending[i].nodeId == probe {
          assert IndexFor(pending, probe) == i;
          return Some(RequestOf(pending[i]));
        }
        i := i + 1;
      }
      return None;
    }

    method CompleteDispatchedForProbe(env: Environment, probe: string, outcome: DispatchResult)
      modifies this, dedup, env
      ensures View(env) == Complete(env.oracle, old(View(env)), probe, outcome)
    {
      var taken := pending;
      ghost var before, k := View(env), IndexFor(taken, probe);
      ghost var emptied := before.(pending := []);
      ghost var settled := if k < |taken| then Dispatch(env.oracle, emptied, taken[k], outcome) else (emptied, true);
      var remaining := [];
      pending := [];
      var consumed := false;
      for i := 0 to |taken|
        invariant consumed <==> k < i
        invariant View(env) == if consumed then settled.0 else emptied
        invariant remaining == if consumed && !settled.1 then taken[..k] + taken[k + 1..i] else taken[..i]
      {
        ExtendRebuilt(taken, k, i);
        if consumed || taken[i].nodeId != probe {
          remaining := remaining + [taken[i]];
          continue;
        }
        consumed := true;
        assert i == k;
        var kept := DispatchPendingCommand(env, taken[i], outcome);
        if kept.Some? {
          remaining := remaining + [kept.value];
        }
      }
      pending := remaining;
      assert taken[..|taken|] == taken;
      assert k < |taken| ==> taken[k + 1..|taken|] == taken[k + 1..];
      SettledApart(env.oracle, before, probe, outcome, remaining);
    }

    method ApplyProbeMotorResult(env: Environment, probe: string, result: ProbeMotorResult)
      modifies this, dedup, env
      ensures View(env) == Hear(env.oracle, old(View(env)), probe, result)
    {
      var commandId := ExpandCommandId(result.commandId);
      if commandId in applied {
        return;
      }
      match Outcome(result) {
        case None =>
          return;
        case Some((status, reason)) =>
          var sent := env.AckBestEffort(FromProbe, commandId, probe, status, reason);
          if sent {
            dedup.FinishCommand(env, commandId);
            applied := applied + {commandId};
          }
      }
    }

    /** Acknowledge, whether or not it gets through, then finish. */
    method ReportOutcome(env: Environment, ticket: nat, id: string, node: string, status: CommandStatus,
        reason: ReasonCode)
      modifies dedup, env
      ensures View(env) == Report(env.oracle, old(View(env)), ticket, id, node, status, reason)
    {
      var _ := env.AckBestEffort(FromHub(ticket), id, node, status, reason);
      dedup.FinishCommand(env, id);
    }

    method StorePolledCommand(env: Environment, command: PolledCommand)
      modifies this, dedup, env
      ensures View(env) == Offer(env.oracle, old(View(env)), command)
    {
      var ticket := |env.log|;
      var answer := dedup.Begin(env, command.commandId);
      if answer != New {
        env.Record(Refused(command, env.oracle.clock(env.tick - 1)));
        return;
      }
      env.Record(Admitted(command, env.oracle.clock(env.tick - 1)));
      PlaceCommand(env, command, ticket);
    }

    /** The second half of `store_polled_command`. */
    method PlaceCommand(env: Environment, command: PolledCommand, ticket: nat)
      modifies this, dedup, env
      ensures View(env) == Place(env.oracle, old(View(env)), command, ticket)
    {
      var now := env.UnixNowMs();
      if IsExpired(command.expiresAt, now) {
        ReportOutcome(env, ticket, command.commandId, command.nodeId, Expired, TtlExpired);
        return;
      }
      match ActionByte(command) {
        case None =>
          ReportOutcome(env, ticket, command.commandId, command.nodeId, Failed, BleWriteFailed);
        case Some(action) =>
          pending := pending + [PendingMotorCommand(
            command.commandId, command.nodeId, action, command.durationMs, command.expiresAt, ticket)];
      }
    }

    /** Leaves `pending` alone: the caller has taken it. */
    method DispatchPendingCommand(env: Environment, command: PendingMotorCommand, outcome: DispatchResult)
      returns (kept: Option<PendingMotorCommand>)
      modifies this, dedup, env
      ensures (View(env), kept.Some?) == Dispatch(env.oracle, old(View(env)), command, outcome)
      ensures kept.Some? ==> kept.value == command
    {
      match outcome {
        case Delivered =>
          var sent := env.AckBestEffort(FromHub(command.ticket), command.commandId, command.nodeId, SentToProbe,
            NoReason);
          if sent {
            dedup.FinishCommand(env, command.commandId);
            return None;
          }
          return Some(command);
        case ExpiredBeforeWrite =>
          ReportOutcome(env, command.ticket, command.commandId, command.nodeId, Expired, TtlExpired);
          return None;
        case BleWriteFailure =>
          return Some(command);
      }
    }

    /** `whole` is the state as if nothing had been taken: the entries kept so far, then those still to be judged. */
    method ExpirePendingCommands(env: Environment)
      modifies this, dedup, env
      ensures View(env) == Sweep(env.oracle, old(View(env)), 0)
    {
      var taken := pending;
      ghost var before, whole := View(env), View(env);
      pending := [];
      for i := 0 to |taken|
        invariant View(env) == whole.(pending := pending)
        invariant whole.pending == pending + taken[i..]
        invariant Sweep(env.oracle, whole, |pending|) == Sweep(env.oracle, before, 0)
      {
        SweepStep(env.oracle, whole, pending, taken, i);
        whole := Judge(env.oracle, whole, |pending|);
        var expired := ExpireOne(env, taken[i]);
        if !expired {
          pending := pending + [taken[i]];
        }
      }
    }

    /** The body of the sweep: read the clock, and report the command if its time has passed. */
    method ExpireOne(env: Environment, command: PendingMotorCommand) returns (expired: bool)
      modifies dedup, env
      ensures expired == IsExpired(command.expiresAtEpochMs, env.oracle.clock(old(env.tick)))
      ensures View(env) == JudgeEntry(env.oracle, old(View(env)), command)
    {
      var now := env.UnixNowMs();
      expired := IsExpired(command.expiresAtEpochMs, now);
      if expired {
        ReportOutcome(env, command.ticket, command.commandId, command.nodeId, Expired, TtlExpired);
      }
    }
  }

  lemma SplitTaken(whole: seq<PendingMotorCommand>, front: seq<PendingMotorCommand>, taken: seq<PendingMotorCommand>,
      i: nat)
    requires i < |taken| && whole == front + taken[i..]
    ensures whole[|front|] == taken[i]
    ensures whole == front + [taken[i]] + taken[i + 1..]
    ensures Without(whole, |front|) == front + taken[i + 1..]
  {
  }

  lemma JudgeIgnoresOthers(w: Oracle, s: State, e: PendingMotorCommand, other: seq<PendingMotorCommand>)
    ensures JudgeEntry(w, s.(pending := other), e) == JudgeEntry(w, s, e).(pending := other)
  {
  }

  lemma SweepUnfolds(w: Oracle, s: State, k: nat)
    requires k < |s.pending|
    ensures var expired, judged := IsExpired(s.pending[k].expiresAtEpochMs, w.clock(s.tick)), Judge(w, s, k);
      && judged == JudgeEntry(w, s, s.pending[k]).(pending := if expired then Without(s.pending, k) else s.pending)
      && Sweep(w, s, k) == Sweep(w, judged, if expired then k else k + 1)
  {
    assert |Without(s.pending, k)| < |s.pending|;
    assert JudgeEntry(w, s, s.pending[k]).pending == s.pending;
  }

  /** Judging an entry apart from the list it was taken from, and judging it in place. */
  lemma SweepStep(w: Oracle, whole: State, front: seq<PendingMotorCommand>, taken: seq<PendingMotorCommand>, i: nat)
    requires i < |taken| && whole.pending == front + taken[i..]
    ensures var apart, judged := whole.(pending := front), Judge(w, whole, |front|);
      var kept := if IsExpired(taken[i].expiresAtEpochMs, w.clock(whole.tick)) then front else front + [taken[i]];
      && JudgeEntry(w, apart, taken[i]).(pending := kept) == judged.(pending := kept)
      && judged.pending == kept + taken[i + 1..]
      && Sweep(w, judged, |kept|) == Sweep(w, whole, |front|)
  {
    SplitTaken(whole.pending, front, taken, i);
    JudgeIgnoresOthers(w, whole, taken[i], front);
    SweepUnfolds(w, whole, |front|);
  }

  /** One more entry rebuilt, whether or not the one at `k` was dropped. */
  lemma ExtendRebuilt(taken: seq<PendingMotorCommand>, k: nat, i: nat)
    requires i < |taken|
    ensures taken[..i] + [taken[i]] == taken[..i + 1]
    ensures k < i ==> taken[..k] + taken[k + 1..i] + [taken[i]] == taken[..k] + taken[k + 1..i + 1]
    ensures k == i ==> taken[..i] == taken[..k] + taken[k + 1..i + 1]
  {
  }

  /** Settling the command apart from the list it was taken from, and settling it in place. */
  lemma SettledApart(w: Oracle, s: State, probe: string, outcome: DispatchResult, remaining: seq<PendingMotorCommand>)
    requires var k := IndexFor(s.pending, probe);
      remaining == if k < |s.pending| && !Dispatch(w, s.(pending := []), s.pending[k], outcome).1
        then Without(s.pending, k) else s.pending
    ensures var k := IndexFor(s.pending, probe);
      Complete(w, s, probe, outcome)
      == (if k < |s.pending| then Dispatch(w, s.(pending := []), s.pending[k], outcome).0 else s).(pending := remaining)
  {
    var k := IndexFor(s.pending, probe);
    if k < |s.pending| {
      DispatchIgnoresPending(w, s, s.pending[k], outcome);
    }
  }

  lemma DispatchIgnoresPending(w: Oracle, s: State, e: PendingMotorCommand, outcome: DispatchResult)
    ensures Dispatch(w, s.(pending := []), e, outcome)
         == (Dispatch(w, s, e, outcome).0.(pending := []), Dispatch(w, s, e, outcome).1)
    ensures Dispatch(w, s, e, outcome).0.pending == s.pending
  {
  }
}
