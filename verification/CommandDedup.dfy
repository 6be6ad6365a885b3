/**
  The duplicate filter of src/polling.rs: commands in progress, and commands finished within the
  retention window. The table of finished commands is pruned on every use; the specification is a
  complete history of finish times that forgets nothing.
 */
module CommandDedup {
  import opened Machine

  const RETENTION_MS: I64 := 300_000

  datatype Dedup = Dedup(processing: set<string>, processed: map<string, EpochMs>)

  datatype DedupBegin = New | AlreadyProcessing | AlreadyProcessed

  const EMPTY := Dedup({}, map[])

  /** `prune`. */
  function Prune(d: Dedup, now: EpochMs): Dedup {
    d.(processed :=
      map id | id in d.processed && SaturatingSub(now, d.processed[id]) <= RETENTION_MS :: d.processed[id])
  }

  /** `try_begin`, when the clock reads `now`. */
  function TryBegin(d: Dedup, id: string, now: EpochMs): (Dedup, DedupBegin) {
    var pruned := Prune(d, now);
    if id in pruned.processed then (pruned, AlreadyProcessed)
    else if id in pruned.processing then (pruned, AlreadyProcessing)
    else (pruned.(processing := pruned.processing + {id}), New)
  }

  /** `finish_processed`, which reads the clock once to stamp the entry and once to prune. */
  function FinishProcessed(d: Dedup, id: string, seenAt: EpochMs, now: EpochMs): Dedup {
    Prune(Dedup(d.processing - {id}, d.processed[id := seenAt]), now)
  }

  // ---------- The history that is never pruned ----------

  datatype History = History(processing: set<string>, lastFinish: map<string, EpochMs>)

  predicate FinishedWithinWindow(h: History, id: string, now: EpochMs) {
    id in h.lastFinish && now - h.lastFinish[id] <= 300_000
  }

  function Answer(h: History, id: string, now: EpochMs): DedupBegin {
    if FinishedWithinWindow(h, id, now) then AlreadyProcessed
    else if id in h.processing then AlreadyProcessing
    else New
  }

  function Begun(h: History, id: string, now: EpochMs): History {
    if Answer(h, id, now) == New then h.(processing := h.processing + {id}) else h
  }

  function Finished(h: History, id: string, at: EpochMs): History {
    History(h.processing - {id}, h.lastFinish[id := at])
  }

  /** The table agrees with the history, except that it may have dropped what is out of the window at `now`. */
  ghost predicate Refines(d: Dedup, h: History, now: EpochMs) {
    && d.processing == h.processing
    && (forall id :: id in d.processed ==> id in h.lastFinish && d.processed[id] == h.lastFinish[id])
    && (forall id :: id in h.lastFinish ==> h.lastFinish[id] <= now)
    && (forall id :: id in h.lastFinish && id !in d.processed ==> now - h.lastFinish[id] > RETENTION_MS)
  }

  lemma BeginRefines(d: Dedup, h: History, id: string, before: EpochMs, now: EpochMs)
    requires Refines(d, h, before) && before <= now
    ensures TryBegin(d, id, now).1 == Answer(h, id, now)
    ensures Refines(TryBegin(d, id, now).0, Begun(h, id, now), now)
  {
  }

  lemma FinishRefines(d: Dedup, h: History, id: string, before: EpochMs, seenAt: EpochMs, now: EpochMs)
    requires Refines(d, h, before) && before <= seenAt <= now
    ensures Refines(FinishProcessed(d, id, seenAt, now), Finished(h, id, seenAt), now)
  {
  }

  // ---------- All operation sequences ----------

  datatype DedupOp = BeginOp(id: string) | FinishOp(id: string)

  /** The answers the filter gives to the `BeginOp` operations, in order. */
  function TableAnswers(w: Oracle, tick: nat, d: Dedup, ops: seq<DedupOp>): seq<DedupBegin>
    decreases |ops|
  {
    if ops == [] then []
    else
      match ops[0]
      case BeginOp(id) =>
        var (d', answer) := TryBegin(d, id, w.clock(tick));
        [answer] + TableAnswers(w, tick + 1, d', ops[1..])
      case FinishOp(id) =>
        TableAnswers(w, tick + 2, FinishProcessed(d, id, w.clock(tick), w.clock(tick + 1)), ops[1..])
  }

  /** The answers the complete history calls for. */
  function HistoryAnswers(w: Oracle, tick: nat, h: History, ops: seq<DedupOp>): seq<DedupBegin>
    decreases |ops|
  {
    if ops == [] then []
    else
      match ops[0]
      case BeginOp(id) =>
        [Answer(h, id, w.clock(tick))] + HistoryAnswers(w, tick + 1, Begun(h, id, w.clock(tick)), ops[1..])
      case FinishOp(id) =>
        HistoryAnswers(w, tick + 2, Finished(h, id, w.clock(tick)), ops[1..])
  }

  lemma {:induction false} PrunedTableAnswersLikeHistoryFrom(w: Oracle, tick: nat, d: Dedup, h: History,
      ops: seq<DedupOp>)
    requires ClockNeverGoesBack(w) && Refines(d, h, w.clock(tick))
    ensures TableAnswers(w, tick, d, ops) == HistoryAnswers(w, tick, h, ops)
    decreases |ops|
  {
    if ops != [] {
      var now, next := w.clock(tick), w.clock(tick + 1);
      match ops[0]
      case BeginOp(id) =>
        BeginRefines(d, h, id, now, now);
        assert Refines(TryBegin(d, id, now).0, Begun(h, id, now), next);
        PrunedTableAnswersLikeHistoryFrom(w, tick + 1, TryBegin(d, id, now).0, Begun(h, id, now), ops[1..]);
      case FinishOp(id) =>
        FinishRefines(d, h, id, now, now, next);
        assert next <= w.clock(tick + 2);
        PrunedTableAnswersLikeHistoryFrom(w, tick + 2,
          FinishProcessed(d, id, now, next), Finished(h, id, now), ops[1..]);
    }
  }

  /** Pruning is invisible: while the clock never goes back, no answer depends on it. */
  lemma PrunedTableAnswersLikeHistory(w: Oracle, ops: seq<DedupOp>)
    requires ClockNeverGoesBack(w)
    ensures TableAnswers(w, 0, EMPTY, ops) == HistoryAnswers(w, 0, History({}, map[]), ops)
  {
    PrunedTableAnswersLikeHistoryFrom(w, 0, EMPTY, History({}, map[]), ops);
  }

  // ---------- Any clock ----------

  /** The history, and for every command in it the latest clock read the table was pruned with since its last finish. */
  datatype Watched = Watched(history: History, latestPrune: map<string, EpochMs>)

  const UNTOUCHED := Watched(History({}, map[]), map[])

  function Later(a: EpochMs, b: EpochMs): EpochMs {
    if a < b then b else a
  }

  function PrunedAt(latestPrune: map<string, EpochMs>, now: EpochMs): map<string, EpochMs> {
    map id | id in latestPrune :: Later(latestPrune[id], now)
  }

  /** A prune since the last finish of the command lay beyond its window, so the table has lost it. */
  predicate DroppedFinish(v: Watched, id: string) {
    id in v.history.lastFinish && id in v.latestPrune &&
    var pruned: int, finished: int := v.latestPrune[id], v.history.lastFinish[id];
    pruned - finished > 300_000
  }

  /** What the table answers, in terms of the history. */
  function WatchedAnswer(v: Watched, id: string, now: EpochMs): DedupBegin {
    if FinishedWithinWindow(v.history, id, now) && !DroppedFinish(v, id) then AlreadyProcessed
    else if id in v.history.processing then AlreadyProcessing
    else New
  }

  function WatchedBegin(v: Watched, id: string, now: EpochMs): Watched {
    var h := v.history;
    Watched(if WatchedAnswer(v, id, now) == New then h.(processing := h.processing + {id}) else h,
            PrunedAt(v.latestPrune, now))
  }

  function WatchedFinish(v: Watched, id: string, at: EpochMs, now: EpochMs): Watched {
    Watched(Finished(v.history, id, at), PrunedAt(v.latestPrune, now)[id := now])
  }

  /** The table holds exactly the last finishes that no prune has dropped. */
  ghost predicate Tracks(d: Dedup, v: Watched) {
    && d.processing == v.history.processing
    && v.latestPrune.Keys == v.history.lastFinish.Keys
    && (forall id :: id in d.processed <==> id in v.history.lastFinish && !DroppedFinish(v, id))
    && (forall id :: id in d.processed ==> d.processed[id] == v.history.lastFinish[id])
  }

  lemma PruneTracks(d: Dedup, v: Watched, now: EpochMs)
    requires Tracks(d, v)
    ensures Tracks(Prune(d, now), v.(latestPrune := PrunedAt(v.latestPrune, now)))
  {
  }

  lemma BeginTracks(d: Dedup, v: Watched, id: string, now: EpochMs)
    requires Tracks(d, v)
    ensures TryBegin(d, id, now).1 == WatchedAnswer(v, id, now)
    ensures Tracks(TryBegin(d, id, now).0, WatchedBegin(v, id, now))
  {
  }

  lemma FinishTracks(d: Dedup, v: Watched, id: string, seenAt: EpochMs, now: EpochMs)
    requires Tracks(d, v)
    ensures Tracks(FinishProcessed(d, id, seenAt, now), WatchedFinish(v, id, seenAt, now))
  {
  }

  /** The table's answer is not the history's exactly when a finish inside the window has been dropped. */
  lemma AnswerDiffersExactlyWhen(d: Dedup, v: Watched, id: string, now: EpochMs)
    requires Tracks(d, v)
    ensures TryBegin(d, id, now).1 != Answer(v.history, id, now)
       <==> FinishedWithinWindow(v.history, id, now) && DroppedFinish(v, id)
  {
    BeginTracks(d, v, id, now);
  }

  /** No `BeginOp` asks for a command whose finish is inside the window although an earlier prune lay beyond it. */
  predicate NoneDroppedEarly(w: Oracle, tick: nat, v: Watched, ops: seq<DedupOp>)
    decreases |ops|
  {
    ops != [] ==>
      match ops[0]
      case BeginOp(id) =>
        && !(FinishedWithinWindow(v.history, id, w.clock(tick)) && DroppedFinish(v, id))
        && NoneDroppedEarly(w, tick + 1, WatchedBegin(v, id, w.clock(tick)), ops[1..])
      case FinishOp(id) =>
        NoneDroppedEarly(w, tick + 2, WatchedFinish(v, id, w.clock(tick), w.clock(tick + 1)), ops[1..])
  }

  lemma {:induction false} PruningInvisibleFrom(w: Oracle, tick: nat, d: Dedup, v: Watched, ops: seq<DedupOp>)
    requires Tracks(d, v)
    ensures TableAnswers(w, tick, d, ops) == HistoryAnswers(w, tick, v.history, ops) <==>
      NoneDroppedEarly(w, tick, v, ops)
    decreases |ops|
  {
    if ops != [] {
      var now, next := w.clock(tick), w.clock(tick + 1);
      match ops[0]
      case BeginOp(id) =>
        var (d', answer) := TryBegin(d, id, now);
        BeginTracks(d, v, id, now);
        PruningInvisibleFrom(w, tick + 1, d', WatchedBegin(v, id, now), ops[1..]);
        var rest := TableAnswers(w, tick + 1, d', ops[1..]);
        var restOfHistory := HistoryAnswers(w, tick + 1, Begun(v.history, id, now), ops[1..]);
        SameAnswers(answer, rest, Answer(v.history, id, now), restOfHistory);
      case FinishOp(id) =>
        FinishTracks(d, v, id, now, next);
        PruningInvisibleFrom(w, tick + 2, FinishProcessed(d, id, now, next), WatchedFinish(v, id, now, next), ops[1..]);
    }
  }

  lemma SameAnswers(a: DedupBegin, rest: seq<DedupBegin>, b: DedupBegin, others: seq<DedupBegin>)
    ensures [a] + rest == [b] + others <==> a == b && rest == others
  {
    assert ([a] + rest)[0] == a && ([a] + rest)[1..] == rest;
    assert ([b] + others)[0] == b && ([b] + others)[1..] == others;
  }

  /** Over every operation sequence and any clock, pruning is invisible exactly when nothing is dropped early. */
  lemma PruningInvisibleExactlyWhen(w: Oracle, ops: seq<DedupOp>)
    ensures TableAnswers(w, 0, EMPTY, ops) == HistoryAnswers(w, 0, UNTOUCHED.history, ops)
       <==> NoneDroppedEarly(w, 0, UNTOUCHED, ops)
  {
    PruningInvisibleFrom(w, 0, EMPTY, UNTOUCHED, ops);
  }

  /** It is visible for a clock that goes back: one that jumps ahead and back readmits a finished command. */
  lemma ClockJumpReadmits() returns (w: Oracle)
    ensures !ClockNeverGoesBack(w)
    ensures TableAnswers(w, 0, EMPTY, [FinishOp("a"), BeginOp("a")]) == [New]
    ensures HistoryAnswers(w, 0, History({}, map[]), [FinishOp("a"), BeginOp("a")]) == [AlreadyProcessed]
  {
    w := Oracle((i: nat) => if i == 1 then 400_000 else 0, (i: nat) => true);
    var ops := [FinishOp("a"), BeginOp("a")];
    assert w.clock(1) > w.clock(2);
    assert ops[1..] == [BeginOp("a")] && ops[1..][1..] == [];
    var d := FinishProcessed(EMPTY, "a", w.clock(0), w.clock(1));
    assert d == EMPTY;
    assert TableAnswers(w, 2, d, ops[1..]) == [New] + TableAnswers(w, 3, TryBegin(d, "a", w.clock(2)).0, []);
    var h := Finished(History({}, map[]), "a", w.clock(0));
    assert HistoryAnswers(w, 2, h, ops[1..]) == [AlreadyProcessed] + HistoryAnswers(w, 3, h, []);
  }
}
