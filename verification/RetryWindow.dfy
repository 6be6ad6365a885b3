/**
  The duplicate filter in the running hub: its pruned table answers as the finish times in the
  log call for, so no command is let in again within the retention window.
 */
module RetryWindow {
  import opened CommandDedup
  import opened Hub
  import opened Machine
  import opened MotorWire
  import opened Uuid

  /** The last finish of every command in the log. */
  function LastFinish(log: seq<Event>): map<string, EpochMs> {
    if log == [] then map[]
    else
      var e := log[|log| - 1];
      if e.FinishedAt? then LastFinish(log[..|log| - 1])[e.commandId := e.at] else LastFinish(log[..|log| - 1])
  }

  lemma LastFinishSnoc(log: seq<Event>, e: Event)
    ensures LastFinish(log + [e]) == if e.FinishedAt? then LastFinish(log)[e.commandId := e.at] else LastFinish(log)
  {
    assert (log + [e])[..|log|] == log;
  }

  function HistoryOf(d: Dedup, log: seq<Event>): History {
    History(d.processing, LastFinish(log))
  }

  /** Every finish of a command in the log is no later than its last one. */
  ghost predicate LastIsLatest(log: seq<Event>) {
    forall i :: 0 <= i < |log| && log[i].FinishedAt? ==>
      log[i].commandId in LastFinish(log) && log[i].at <= LastFinish(log)[log[i].commandId]
  }

  /** No admission follows a finish of the same command by 300 seconds or less. */
  ghost predicate NoEarlyReadmission(log: seq<Event>) {
    forall i, j :: 0 <= i < j < |log| && log[i].FinishedAt? && log[j].Admitted? ==>
      log[j].command.commandId == log[i].commandId ==> log[j].at - log[i].at > 300_000
  }

  /** The table agrees with the log, as seen at `now`. */
  ghost predicate WindowKept(d: Dedup, log: seq<Event>, now: EpochMs) {
    Refines(d, HistoryOf(d, log), now) && LastIsLatest(log) && NoEarlyReadmission(log)
  }

  ghost predicate Kept(w: Oracle, s: State) {
    WindowKept(s.dedup, s.log, w.clock(s.tick))
  }

  /** An event that is neither an admission nor a finish changes nothing. */
  lemma OtherEventKeepsWindow(d: Dedup, log: seq<Event>, e: Event, now: EpochMs)
    requires WindowKept(d, log, now) && !e.FinishedAt? && !e.Admitted?
    ensures WindowKept(d, log + [e], now)
  {
    LastFinishSnoc(log, e);
  }

  /** Nor does the passage of time. */
  lemma LaterKeepsWindow(d: Dedup, log: seq<Event>, now: EpochMs, later: EpochMs)
    requires WindowKept(d, log, now) && now <= later
    ensures WindowKept(d, log, later)
  {
  }

  lemma LatestSnoc(log: seq<Event>, id: string, at: EpochMs, prunedAt: EpochMs)
    requires LastIsLatest(log) && forall other :: other in LastFinish(log) ==> LastFinish(log)[other] <= at
    ensures LastIsLatest(log + [FinishedAt(id, at, prunedAt)])
  {
    var longer := log + [FinishedAt(id, at, prunedAt)];
    LastFinishSnoc(log, FinishedAt(id, at, prunedAt));
    forall i | 0 <= i < |longer| && longer[i].FinishedAt?
      ensures longer[i].commandId in LastFinish(longer) && longer[i].at <= LastFinish(longer)[longer[i].commandId]
    {
      if i < |log| {
        assert longer[i] == log[i];
      }
    }
  }

  lemma FinishKeepsWindow(d: Dedup, log: seq<Event>, id: string, seenAt: EpochMs, now: EpochMs)
    requires WindowKept(d, log, seenAt) && seenAt <= now
    ensures WindowKept(FinishProcessed(d, id, seenAt, now), log + [FinishedAt(id, seenAt, now)], now)
  {
    LatestSnoc(log, id, seenAt, now);
    LastFinishSnoc(log, FinishedAt(id, seenAt, now));
    FinishRefines(d, HistoryOf(d, log), id, seenAt, seenAt, now);
  }

  /** A command is let in only when its last finish, hence every finish, is out of the window. */
  lemma AdmitKeepsWindow(d: Dedup, log: seq<Event>, c: PolledCommand, now: EpochMs)
    requires WindowKept(d, log, now) && TryBegin(d, c.commandId, now).1 == New
    ensures WindowKept(TryBegin(d, c.commandId, now).0, log + [Admitted(c, now)], now)
  {
    BeginRefines(d, HistoryOf(d, log), c.commandId, now, now);
    LastFinishSnoc(log, Admitted(c, now));
    assert !FinishedWithinWindow(HistoryOf(d, log), c.commandId, now);
  }

  // ---------- The same for the operations on the hub's state ----------

  lemma AckKeeps(w: Oracle, s: State, origin: AckOrigin, id: string, node: string, status: CommandStatus,
      reason: ReasonCode)
    requires ClockNeverGoesBack(w) && Kept(w, s)
    ensures Kept(w, Ack(w, s, origin, id, node, status, reason))
  {
    OtherEventKeepsWindow(s.dedup, s.log, Acked(origin, id, node, status, reason, s.tick, w.ackSent(s.tick)),
      w.clock(s.tick));
    LaterKeepsWindow(s.dedup, Ack(w, s, origin, id, node, status, reason).log, w.clock(s.tick), w.clock(s.tick + 1));
  }

  lemma FinishKeeps(w: Oracle, s: State, id: string)
    requires ClockNeverGoesBack(w) && Kept(w, s)
    ensures Kept(w, Finish(w, s, id))
  {
    var t := Finish(w, s, id);
    FinishKeepsWindow(s.dedup, s.log, id, w.clock(s.tick), w.clock(s.tick + 1));
    LaterKeepsWindow(t.dedup, t.log, w.clock(s.tick + 1), w.clock(s.tick + 2));
  }

  lemma ReportKeeps(w: Oracle, s: State, ticket: nat, id: string, node: string, status: CommandStatus,
      reason: ReasonCode)
    requires ClockNeverGoesBack(w) && Kept(w, s)
    ensures Kept(w, Report(w, s, ticket, id, node, status, reason))
  {
    AckKeeps(w, s, FromHub(ticket), id, node, status, reason);
    FinishKeeps(w, Ack(w, s, FromHub(ticket), id, node, status, reason), id);
  }

  lemma ReadKeeps(w: Oracle, s: State, t: State)
    requires ClockNeverGoesBack(w) && Kept(w, s)
    requires t.dedup == s.dedup && t.log == s.log && s.tick <= t.tick
    ensures Kept(w, t)
  {
    LaterKeepsWindow(s.dedup, s.log, w.clock(s.tick), w.clock(t.tick));
  }

  lemma JudgeKeeps(w: Oracle, s: State, k: nat)
    requires ClockNeverGoesBack(w) && Kept(w, s)
    ensures Kept(w, Judge(w, s, k))
  {
    if k < |s.pending| {
      var read, e := s.(tick := s.tick + 1), s.pending[k];
      ReadKeeps(w, s, read);
      if IsExpired(e.expiresAtEpochMs, w.clock(s.tick)) {
        ReportKeeps(w, read, e.ticket, e.commandId, e.nodeId, Expired, TtlExpired);
      } else {
        assert Judge(w, s, k) == read;
      }
    }
  }

  /** Placing a command reads the clock, and then reports or queues it. */
  lemma PlaceReportsOrQueues(w: Oracle, s: State, c: PolledCommand, ticket: nat)
    ensures var read, t := s.(tick := s.tick + 1), Place(w, s, c, ticket);
      if IsExpired(c.expiresAt, w.clock(s.tick)) then
        t == Report(w, read, ticket, c.commandId, c.nodeId, Expired, TtlExpired)
      else if ActionByte(c).None? then t == Report(w, read, ticket, c.commandId, c.nodeId, Failed, BleWriteFailed)
      else t.dedup == s.dedup && t.log == s.log && t.tick == read.tick
  {
  }

  lemma PlaceKeeps(w: Oracle, s: State, c: PolledCommand, ticket: nat)
    requires ClockNeverGoesBack(w) && Kept(w, s)
    ensures Kept(w, Place(w, s, c, ticket))
  {
    var read := s.(tick := s.tick + 1);
    ReadKeeps(w, s, read);
    if IsExpired(c.expiresAt, w.clock(s.tick)) {
      ReportKeeps(w, read, ticket, c.commandId, c.nodeId, Expired, TtlExpired);
    } else if ActionByte(c).None? {
      ReportKeeps(w, read, ticket, c.commandId, c.nodeId, Failed, BleWriteFailed);
    }
    PlaceReportsOrQueues(w, s, c, ticket);
  }

  lemma OfferKeeps(w: Oracle, s: State, c: PolledCommand)
    requires ClockNeverGoesBack(w) && Kept(w, s)
    ensures Kept(w, Offer(w, s, c))
  {
    var now, next := w.clock(s.tick), w.clock(s.tick + 1);
    if LetsIn(w, s, c) {
      var admitted := Admit(w, s, c);
      AdmitKeepsWindow(s.dedup, s.log, c, now);
      LaterKeepsWindow(admitted.dedup, admitted.log, now, next);
      PlaceKeeps(w, admitted, c, |s.log|);
    } else {
      BeginRefines(s.dedup, HistoryOf(s.dedup, s.log), c.commandId, now, now);
      OtherEventKeepsWindow(Prune(s.dedup, now), s.log, Refused(c, now), now);
      LaterKeepsWindow(Prune(s.dedup, now), s.log + [Refused(c, now)], now, next);
    }
  }

  lemma HearKeeps(w: Oracle, s: State, probe: string, result: ProbeMotorResult)
    requires ClockNeverGoesBack(w) && Kept(w, s)
    ensures Kept(w, Hear(w, s, probe, result))
  {
    var id := Canonical(result.commandId);
    if id !in s.applied && Outcome(result).Some? {
      var (status, reason) := Outcome(result).value;
      AckKeeps(w, s, FromProbe, id, probe, status, reason);
      if w.ackSent(s.tick) {
        FinishKeeps(w, Ack(w, s, FromProbe, id, probe, status, reason), id);
      }
    }
  }

  lemma SendKeeps(w: Oracle, s: State, probe: string, radio: Radio)
    requires ClockNeverGoesBack(w) && Kept(w, s)
    ensures Kept(w, Send(w, s, probe, radio).0)
  {
    var t := Send(w, s, probe, radio).0;
    if t.log == s.log {
      ReadKeeps(w, s, t);
    } else {
      OtherEventKeepsWindow(s.dedup, s.log, t.log[|s.log|], w.clock(s.tick));
      LaterKeepsWindow(s.dedup, t.log, w.clock(s.tick), w.clock(t.tick));
    }
  }

  lemma CompleteKeeps(w: Oracle, s: State, probe: string, outcome: DispatchResult)
    requires ClockNeverGoesBack(w) && Kept(w, s)
    ensures Kept(w, Complete(w, s, probe, outcome))
  {
    var k := IndexFor(s.pending, probe);
    if k < |s.pending| {
      var e := s.pending[k];
      match outcome
      case Delivered =>
        AckKeeps(w, s, FromHub(e.ticket), e.commandId, e.nodeId, SentToProbe, NoReason);
        if w.ackSent(s.tick) {
          FinishKeeps(w, Ack(w, s, FromHub(e.ticket), e.commandId, e.nodeId, SentToProbe, NoReason), e.commandId);
        }
      case ExpiredBeforeWrite =>
        ReportKeeps(w, s, e.ticket, e.commandId, e.nodeId, Expired, TtlExpired);
      case BleWriteFailure =>
    }
  }

  lemma MoveKeeps(w: Oracle, s: State, m: Move)
    requires ClockNeverGoesBack(w) && Kept(w, s)
    ensures Kept(w, Apply(w, s, m))
  {
    match m
    case JudgeMove(k) =>
      JudgeKeeps(w, s, k);
      assert Apply(w, s, m) == Judge(w, s, k);
    case OfferMove(c) =>
      OfferKeeps(w, s, c);
      assert Apply(w, s, m) == Offer(w, s, c);
    case HearMove(probe, result) =>
      HearKeeps(w, s, probe, result);
      assert Apply(w, s, m) == Hear(w, s, probe, result);
    case SendMove(probe, radio) =>
      SendKeeps(w, s, probe, radio);
      assert Apply(w, s, m) == Send(w, s, probe, radio).0;
    case CompleteMove(probe, outcome) =>
      CompleteKeeps(w, s, probe, outcome);
      assert Apply(w, s, m) == Complete(w, s, probe, outcome);
  }

  lemma {:induction false} KeptByMoves(w: Oracle, s: State, ms: seq<Move>)
    requires ClockNeverGoesBack(w) && Kept(w, s)
    ensures Kept(w, ApplyAll(w, s, ms))
    decreases |ms|
  {
    if ms != [] {
      MoveKeeps(w, s, ms[0]);
      KeptByMoves(w, Apply(w, s, ms[0]), ms[1..]);
    }
  }

  /** While the clock never goes back, no run of the hub lets a command in again within the window. */
  lemma NeverReadmittedWithinWindow(w: Oracle, steps: seq<Step>)
    requires ClockNeverGoesBack(w)
    ensures Kept(w, Run(w, INITIAL, steps))
    ensures NoEarlyReadmission(Run(w, INITIAL, steps).log)
  {
    var ms := RunIsMoves(w, INITIAL, steps);
    assert Kept(w, INITIAL);
    KeptByMoves(w, INITIAL, ms);
  }

  /** And after every run the filter answers as the whole log of finishes calls for. */
  lemma FilterAnswersFromLog(w: Oracle, steps: seq<Step>, id: string)
    requires ClockNeverGoesBack(w)
    ensures var s := Run(w, INITIAL, steps);
      TryBegin(s.dedup, id, w.clock(s.tick)).1 == Answer(HistoryOf(s.dedup, s.log), id, w.clock(s.tick))
  {
    NeverReadmittedWithinWindow(w, steps);
    var s := Run(w, INITIAL, steps);
    BeginRefines(s.dedup, HistoryOf(s.dedup, s.log), id, w.clock(s.tick), w.clock(s.tick));
  }
}
