/**
  The duplicate filter in the running hub under any clock at all: exactly when a finished command
  is let in again, read off the log.
 */
module Readmission {
  import opened CommandDedup
  import opened Hub
  import opened Machine
  import opened MotorWire
  import opened RetryWindow
  import opened Uuid

  // ---------- The filter is a function of the log ----------

  /** The filter that the logged calls leave behind. */
  function Replayed(d: Dedup, e: Event): Dedup {
    match e
    case Admitted(c, at) => Dedup(d.processing + {c.commandId}, Prune(d, at).processed)
    case Refused(_, at) => Prune(d, at)
    case FinishedAt(id, at, prunedAt) => FinishProcessed(d, id, at, prunedAt)
    case Acked(_, _, _, _, _, _, _) => d
    case Written(_, _, _, _, _) => d
  }

  function Replay(log: seq<Event>): Dedup {
    if log == [] then EMPTY else Replayed(Replay(log[..|log| - 1]), log[|log| - 1])
  }

  lemma ReplaySnoc(log: seq<Event>, e: Event)
    ensures Replay(log + [e]) == Replayed(Replay(log), e)
  {
    assert (log + [e])[..|log|] == log;
  }

  /** Each offer was answered as the filter of that moment answers it. */
  predicate AnsweredRight(d: Dedup, e: Event) {
    && (e.Admitted? ==> TryBegin(d, e.command.commandId, e.at).1 == New)
    && (e.Refused? ==> TryBegin(d, e.command.commandId, e.at).1 != New)
  }

  ghost predicate OffersAnswered(log: seq<Event>) {
    forall j :: 0 <= j < |log| ==> AnsweredRight(Replay(log[..j]), log[j])
  }

  ghost predicate Recorded(d: Dedup, log: seq<Event>) {
    d == Replay(log) && OffersAnswered(log)
  }

  lemma RecordedSnoc(d: Dedup, log: seq<Event>, e: Event)
    requires Recorded(d, log) && AnsweredRight(d, e)
    ensures Recorded(Replayed(d, e), log + [e])
  {
    var longer := log + [e];
    ReplaySnoc(log, e);
    forall j | 0 <= j < |longer|
      ensures AnsweredRight(Replay(longer[..j]), longer[j])
    {
      assert longer[..j] == log[..j];
      assert j == |log| ==> log[..j] == log;
    }
  }

  lemma AckRecorded(w: Oracle, s: State, origin: AckOrigin, id: string, node: string, status: CommandStatus,
      reason: ReasonCode)
    requires Recorded(s.dedup, s.log)
    ensures var t := Ack(w, s, origin, id, node, status, reason); Recorded(t.dedup, t.log)
  {
    RecordedSnoc(s.dedup, s.log, Acked(origin, id, node, status, reason, s.tick, w.ackSent(s.tick)));
  }

  lemma FinishRecorded(w: Oracle, s: State, id: string)
    requires Recorded(s.dedup, s.log)
    ensures Recorded(Finish(w, s, id).dedup, Finish(w, s, id).log)
  {
    var e, t := FinishedAt(id, w.clock(s.tick), w.clock(s.tick + 1)), Finish(w, s, id);
    RecordedSnoc(s.dedup, s.log, e);
    assert t.dedup == Replayed(s.dedup, e) && t.log == s.log + [e];
  }

  lemma ReportRecorded(w: Oracle, s: State, ticket: nat, id: string, node: string, status: CommandStatus,
      reason: ReasonCode)
    requires Recorded(s.dedup, s.log)
    ensures var t := Report(w, s, ticket, id, node, status, reason); Recorded(t.dedup, t.log)
  {
    AckRecorded(w, s, FromHub(ticket), id, node, status, reason);
    FinishRecorded(w, Ack(w, s, FromHub(ticket), id, node, status, reason), id);
  }

  lemma JudgeEntryRecorded(w: Oracle, s: State, e: PendingMotorCommand)
    requires Recorded(s.dedup, s.log)
    ensures Recorded(JudgeEntry(w, s, e).dedup, JudgeEntry(w, s, e).log)
  {
    var read := s.(tick := s.tick + 1);
    if IsExpired(e.expiresAtEpochMs, w.clock(s.tick)) {
      ReportRecorded(w, read, e.ticket, e.commandId, e.nodeId, Expired, TtlExpired);
      assert JudgeEntry(w, s, e) == Report(w, read, e.ticket, e.commandId, e.nodeId, Expired, TtlExpired);
    } else {
      assert JudgeEntry(w, s, e) == read;
    }
  }

  lemma JudgeRecorded(w: Oracle, s: State, k: nat)
    requires Recorded(s.dedup, s.log)
    ensures Recorded(Judge(w, s, k).dedup, Judge(w, s, k).log)
  {
    if k < |s.pending| {
      var judged := JudgeEntry(w, s, s.pending[k]);
      JudgeEntryRecorded(w, s, s.pending[k]);
      assert Judge(w, s, k).dedup == judged.dedup && Judge(w, s, k).log == judged.log;
    }
  }

  lemma PlaceRecorded(w: Oracle, s: State, c: PolledCommand, ticket: nat)
    requires Recorded(s.dedup, s.log)
    ensures Recorded(Place(w, s, c, ticket).dedup, Place(w, s, c, ticket).log)
  {
    var read, t := s.(tick := s.tick + 1), Place(w, s, c, ticket);
    if IsExpired(c.expiresAt, w.clock(s.tick)) {
      ReportRecorded(w, read, ticket, c.commandId, c.nodeId, Expired, TtlExpired);
      assert t == Report(w, read, ticket, c.commandId, c.nodeId, Expired, TtlExpired);
    } else if ActionByte(c).None? {
      ReportRecorded(w, read, ticket, c.commandId, c.nodeId, Failed, BleWriteFailed);
      assert t == Report(w, read, ticket, c.commandId, c.nodeId, Failed, BleWriteFailed);
    } else {
      assert t.dedup == s.dedup && t.log == s.log;
    }
  }

  lemma OfferRecorded(w: Oracle, s: State, c: PolledCommand)
    requires Recorded(s.dedup, s.log)
    ensures Recorded(Offer(w, s, c).dedup, Offer(w, s, c).log)
  {
    var now := w.clock(s.tick);
    if LetsIn(w, s, c) {
      RecordedSnoc(s.dedup, s.log, Admitted(c, now));
      PlaceRecorded(w, Admit(w, s, c), c, |s.log|);
    } else {
      RecordedSnoc(s.dedup, s.log, Refused(c, now));
    }
  }

  lemma HearRecorded(w: Oracle, s: State, probe: string, result: ProbeMotorResult)
    requires Recorded(s.dedup, s.log)
    ensures Recorded(Hear(w, s, probe, result).dedup, Hear(w, s, probe, result).log)
  {
    var id := Canonical(result.commandId);
    if id !in s.applied && Outcome(result).Some? {
      var (status, reason) := Outcome(result).value;
      AckRecorded(w, s, FromProbe, id, probe, status, reason);
      if w.ackSent(s.tick) {
        FinishRecorded(w, Ack(w, s, FromProbe, id, probe, status, reason), id);
      }
    }
  }

  lemma SendRecorded(w: Oracle, s: State, probe: string, radio: Radio)
    requires Recorded(s.dedup, s.log)
    ensures Recorded(Send(w, s, probe, radio).0.dedup, Send(w, s, probe, radio).0.log)
  {
    var t := Send(w, s, probe, radio).0;
    if t.log != s.log {
      RecordedSnoc(s.dedup, s.log, t.log[|s.log|]);
    }
  }

  lemma CompleteRecorded(w: Oracle, s: State, probe: string, outcome: DispatchResult)
    requires Recorded(s.dedup, s.log)
    ensures Recorded(Complete(w, s, probe, outcome).dedup, Complete(w, s, probe, outcome).log)
  {
    var k := IndexFor(s.pending, probe);
    if k < |s.pending| {
      var e := s.pending[k];
      match outcome
      case Delivered =>
        AckRecorded(w, s, FromHub(e.ticket), e.commandId, e.nodeId, SentToProbe, NoReason);
        FinishRecorded(w, Ack(w, s, FromHub(e.ticket), e.commandId, e.nodeId, SentToProbe, NoReason), e.commandId);
      case ExpiredBeforeWrite =>
        ReportRecorded(w, s, e.ticket, e.commandId, e.nodeId, Expired, TtlExpired);
      case BleWriteFailure =>
    }
  }

  lemma MoveRecorded(w: Oracle, s: State, m: Move)
    requires Recorded(s.dedup, s.log)
    ensures Recorded(Apply(w, s, m).dedup, Apply(w, s, m).log)
  {
    match m
    case JudgeMove(k) =>
      JudgeRecorded(w, s, k);
      assert Apply(w, s, m) == Judge(w, s, k);
    case OfferMove(c) =>
      OfferRecorded(w, s, c);
      assert Apply(w, s, m) == Offer(w, s, c);
    case HearMove(probe, result) =>
      HearRecorded(w, s, probe, result);
      assert Apply(w, s, m) == Hear(w, s, probe, result);
    case SendMove(probe, radio) =>
      SendRecorded(w, s, probe, radio);
      assert Apply(w, s, m) == Send(w, s, probe, radio).0;
    case CompleteMove(probe, outcome) =>
      CompleteRecorded(w, s, probe, outcome);
      assert Apply(w, s, m) == Complete(w, s, probe, outcome);
  }

  lemma {:induction false} MovesRecorded(w: Oracle, s: State, ms: seq<Move>)
    requires Recorded(s.dedup, s.log)
    ensures Recorded(ApplyAll(w, s, ms).dedup, ApplyAll(w, s, ms).log)
    decreases |ms|
  {
    if ms != [] {
      MoveRecorded(w, s, ms[0]);
      MovesRecorded(w, Apply(w, s, ms[0]), ms[1..]);
    }
  }

  /** After every run, under any clock, the filter is what the logged calls made it, and every offer got its answer. */
  lemma FilterIsReplayOfLog(w: Oracle, steps: seq<Step>)
    ensures Recorded(Run(w, INITIAL, steps).dedup, Run(w, INITIAL, steps).log)
  {
    var ms := RunIsMoves(w, INITIAL, steps);
    MovesRecorded(w, INITIAL, ms);
  }

  // ---------- The filter against the history in the log ----------

  /** For every command finished in the log, the latest prune since its last finish. */
  function LatestPrune(log: seq<Event>): map<string, EpochMs> {
    if log == [] then map[]
    else
      var earlier := LatestPrune(log[..|log| - 1]);
      match log[|log| - 1]
      case Admitted(_, at) => PrunedAt(earlier, at)
      case Refused(_, at) => PrunedAt(earlier, at)
      case FinishedAt(id, _, prunedAt) => PrunedAt(earlier, prunedAt)[id := prunedAt]
      case Acked(_, _, _, _, _, _, _) => earlier
      case Written(_, _, _, _, _) => earlier
  }

  function WatchedIn(log: seq<Event>): Watched {
    Watched(HistoryOf(Replay(log), log), LatestPrune(log))
  }

  lemma {:induction false} ReplayTracksLog(log: seq<Event>)
    ensures Tracks(Replay(log), WatchedIn(log))
  {
    if log != [] {
      var earlier, e := log[..|log| - 1], log[|log| - 1];
      ReplayTracksLog(earlier);
      match e
      case Admitted(c, at) => PruneTracks(Replay(earlier), WatchedIn(earlier), at);
      case Refused(_, at) => PruneTracks(Replay(earlier), WatchedIn(earlier), at);
      case FinishedAt(id, at, prunedAt) => FinishTracks(Replay(earlier), WatchedIn(earlier), id, at, prunedAt);
      case Acked(_, _, _, _, _, _, _) =>
      case Written(_, _, _, _, _) =>
    }
  }

  /**
    After every run and under any clock, the filter's answer is not the one the log's finish times call for
    exactly when the last finish is inside the window and an earlier prune since it lay beyond the window.
   */
  lemma FilterDiffersFromLogExactlyWhen(w: Oracle, steps: seq<Step>, id: string, now: EpochMs)
    ensures var s := Run(w, INITIAL, steps);
      TryBegin(s.dedup, id, now).1 != Answer(HistoryOf(s.dedup, s.log), id, now)
      <==> FinishedWithinWindow(HistoryOf(s.dedup, s.log), id, now) && DroppedFinish(WatchedIn(s.log), id)
  {
    var s := Run(w, INITIAL, steps);
    FilterIsReplayOfLog(w, steps);
    ReplayTracksLog(s.log);
    AnswerDiffersExactlyWhen(s.dedup, WatchedIn(s.log), id, now);
  }

  // ---------- Exactly when a finished command is let in again ----------

  /** The event pruned the table at a time beyond the window of a finish at `at`. */
  predicate PrunedBeyond(e: Event, at: EpochMs) {
    match e
    case Admitted(_, now) => now - at > 300_000
    case Refused(_, now) => now - at > 300_000
    case FinishedAt(_, _, now) => now - at > 300_000
    case Acked(_, _, _, _, _, _, _) => false
    case Written(_, _, _, _, _) => false
  }

  /** The last thing the filter did with the command before `j` was to finish it, at `i`. */
  ghost predicate FinishedLastAt(log: seq<Event>, i: nat, j: nat, id: string) {
    && i < j <= |log| && log[i].FinishedAt? && log[i].commandId == id
    && (forall k :: i < k < j ==> !(log[k].FinishedAt? && log[k].commandId == id))
    && (forall k :: i < k < j ==> !(log[k].Admitted? && log[k].command.commandId == id))
  }

  /** What the filter knows of the command then. */
  lemma {:induction false} SinceLastFinish(log: seq<Event>, i: nat, j: nat, id: string)
    requires FinishedLastAt(log, i, j, id)
    ensures var v := WatchedIn(log[..j]);
      && id !in v.history.processing
      && id in v.history.lastFinish && v.history.lastFinish[id] == log[i].at
      && id in v.latestPrune
      && (DroppedFinish(v, id) <==> exists k :: i <= k < j && PrunedBeyond(log[k], log[i].at))
    decreases j
  {
    assert log[..j][..j - 1] == log[..j - 1];
    if j > i + 1 {
      SinceLastFinish(log, i, j - 1, id);
      assert log[..j][j - 1] == log[j - 1];
    }
  }

  lemma AnswerSinceLastFinish(log: seq<Event>, i: nat, j: nat, e: Event)
    requires (e.Admitted? || e.Refused?) && FinishedLastAt(log, i, j, e.command.commandId)
    requires AnsweredRight(Replay(log[..j]), e)
    ensures e.Admitted? <==> PrunedBeyond(e, log[i].at) || exists k :: i <= k < j && PrunedBeyond(log[k], log[i].at)
  {
    var id := e.command.commandId;
    ReplayTracksLog(log[..j]);
    SinceLastFinish(log, i, j, id);
    BeginTracks(Replay(log[..j]), WatchedIn(log[..j]), id, e.at);
  }

  lemma AnswerInLog(log: seq<Event>, i: nat, j: nat)
    requires OffersAnswered(log) && j < |log| && (log[j].Admitted? || log[j].Refused?)
    requires FinishedLastAt(log, i, j, log[j].command.commandId)
    ensures log[j].Admitted? <==> exists k :: i <= k <= j && PrunedBeyond(log[k], log[i].at)
  {
    assert AnsweredRight(Replay(log[..j]), log[j]);
    AnswerSinceLastFinish(log, i, j, log[j]);
  }

  /**
    Over every run and any clock: a command offered again after it was finished is let in if and
    only if some prune from that finish to this offer lay more than 300 seconds after the finish.
   */
  lemma ReadmittedExactlyWhen(w: Oracle, steps: seq<Step>, i: nat, j: nat)
    requires var log := Run(w, INITIAL, steps).log;
      && j < |log| && (log[j].Admitted? || log[j].Refused?)
      && FinishedLastAt(log, i, j, log[j].command.commandId)
    ensures var log := Run(w, INITIAL, steps).log;
      log[j].Admitted? <==> exists k :: i <= k <= j && PrunedBeyond(log[k], log[i].at)
  {
    FilterIsReplayOfLog(w, steps);
    AnswerInLog(Run(w, INITIAL, steps).log, i, j);
  }
}
