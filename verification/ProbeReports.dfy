/**
  What the hub passes on from the probes: at most one result per command gets through, and a
  result that does not get through leaves the poller as it was.
 */
module ProbeReports {
  import opened Hub
  import opened Machine
  import opened MotorWire
  import opened Tails
  import opened Tallies
  import opened Uuid
  import opened Wrappers

  /** The applied set is exactly the commands with a result passed on, and none has two. */
  predicate RelayedOnce(s: State, id: string) {
    Tally(Relay, s.log, Command(id)) == if id in s.applied then 1 else 0
  }

  lemma MoveKeepsRelayedOnce(w: Oracle, s: State, m: Move, id: string)
    requires RelayedOnce(s, id)
    ensures RelayedOnce(Apply(w, s, m), id)
  {
    match m
    case JudgeMove(k) => JudgeTally(w, s, Relay, k, Command(id));
    case OfferMove(c) => OfferTally(w, s, Relay, c, Command(id));
    case HearMove(probe, result) => HearTally(w, s, Relay, probe, result, Command(id));
    case SendMove(probe, radio) => SendTally(w, s, Relay, probe, radio, Command(id));
    case CompleteMove(probe, outcome) => CompleteTally(w, s, Relay, probe, outcome, Command(id));
  }

  /** The numbers that the probe and the backend share for a status and a reason, as src/ble.rs labels them. */
  function StatusNumber(status: CommandStatus): Byte {
    match status
    case SentToProbe => 3
    case Executing => 4
    case Succeeded => 5
    case Failed => 6
    case Expired => 7
  }

  /** Only a failure carries the probe's reason; anything but a UART timeout or rejection counts as a failed write. */
  predicate RightReason(result: ProbeMotorResult, reason: ReasonCode) {
    match reason
    case NoReason => result.status == 4 || result.status == 5
    case TtlExpired => result.status == 7
    case UartTimeout => result.status == 6 && result.reasonCode == 7
    case UartRejected => result.status == 6 && result.reasonCode == 8
    case BleWriteFailed => result.status == 6 && result.reasonCode != 7 && result.reasonCode != 8
  }

  /**
    An attempt to pass a result on is made exactly for statuses 4 to 7 of a command with no result passed on
    so far. It says what the probe said, about the command it named, in the probe's own name; and the result
    counts as passed on exactly when the attempt gets through.
   */
  lemma PassedOnFaithfully(w: Oracle, s: State, probe: string, result: ProbeMotorResult)
    ensures var t, id := Hear(w, s, probe, result), Canonical(result.commandId);
      && (t.log != s.log <==> 4 <= result.status <= 7 && id !in s.applied)
      && (t.applied != s.applied <==> 4 <= result.status <= 7 && id !in s.applied && w.ackSent(s.tick))
      && (t.log != s.log ==>
           && |s.log| < |t.log| && t.log[..|s.log|] == s.log
           && (var e := t.log[|s.log|];
               && e.Acked? && e.origin == FromProbe && e.commandId == id && e.nodeId == probe
               && StatusNumber(e.status) == result.status && RightReason(result, e.reason)
               && e.sent == w.ackSent(s.tick)))
  {
  }

  /** The poller's own fields, without the clock position and the log. */
  predicate SamePoller(s: State, t: State) {
    s.dedup == t.dedup && s.pending == t.pending && s.applied == t.applied
  }

  /** A result that is not passed on leaves the poller alone and can be retried. */
  lemma UnsentResultIsRetryable(w: Oracle, s: State, probe: string, result: ProbeMotorResult)
    ensures var t := Hear(w, s, probe, result);
      SamePoller(s, t) || (w.ackSent(s.tick) && Canonical(result.commandId) in t.applied)
    ensures Canonical(result.commandId) !in s.applied && Outcome(result).Some? && !w.ackSent(s.tick) ==>
      && SamePoller(s, Hear(w, s, probe, result))
      && (var retry := Hear(w, Hear(w, s, probe, result), probe, result);
          w.ackSent(s.tick + 1) ==> Canonical(result.commandId) in retry.applied)
  {
  }

  // ---------- A result that got through is the last word ----------

  predicate FromProbeOn(e: Event, id: string) {
    e.Acked? && e.origin == FromProbe && e.commandId == id
  }

  lemma MoveKeepsApplied(w: Oracle, s: State, m: Move)
    ensures s.applied <= Apply(w, s, m).applied
  {
    match m
    case JudgeMove(k) => assert Apply(w, s, m) == Judge(w, s, k);
    case OfferMove(c) => assert Apply(w, s, m) == Offer(w, s, c);
    case HearMove(probe, result) => assert Apply(w, s, m) == Hear(w, s, probe, result);
    case SendMove(probe, radio) => assert Apply(w, s, m) == Send(w, s, probe, radio).0;
    case CompleteMove(probe, outcome) => assert Apply(w, s, m) == Complete(w, s, probe, outcome);
  }

  /** A move passes on at most one result, and only on a command with none passed on so far. */
  lemma MovePassesOnOne(w: Oracle, s: State, m: Move) returns (tail: seq<Event>)
    ensures Apply(w, s, m).log == s.log + tail && s.applied <= Apply(w, s, m).applied
    ensures forall i :: 0 <= i < |tail| && tail[i].Acked? && tail[i].origin == FromProbe ==>
      i == 0 && tail[i].commandId !in s.applied
  {
    MoveKeepsApplied(w, s, m);
    var topic;
    tail, topic := MoveTail(w, s, m);
  }

  /** The log grows, and nothing more is passed on about that command. */
  ghost predicate NothingRelayed(log: seq<Event>, longer: seq<Event>, id: string) {
    && Extends(log, longer)
    && (forall i :: |log| <= i < |longer| ==> !FromProbeOn(longer[i], id))
  }

  lemma NothingRelayedTransitive(a: seq<Event>, b: seq<Event>, c: seq<Event>, id: string)
    requires NothingRelayed(a, b, id) && NothingRelayed(b, c, id)
    ensures NothingRelayed(a, c, id)
  {
  }

  lemma {:induction false} AppliedStaysSilent(w: Oracle, s: State, ms: seq<Move>, id: string)
    requires id in s.applied
    ensures id in ApplyAll(w, s, ms).applied && NothingRelayed(s.log, ApplyAll(w, s, ms).log, id)
    decreases |ms|
  {
    if ms != [] {
      var tail := MovePassesOnOne(w, s, ms[0]);
      var t := Apply(w, s, ms[0]);
      assert NothingRelayed(s.log, t.log, id);
      AppliedStaysSilent(w, t, ms[1..], id);
      NothingRelayedTransitive(s.log, t.log, ApplyAll(w, t, ms[1..]).log, id);
    }
  }

  /**
    Once a result on a command is passed on, then after any further steps a result on that command changes
    nothing, whether it is applied by itself or read in a session, and nothing more is passed on about it.
   */
  lemma PassedOnResultIsFinal(w: Oracle, s: State, between: seq<Step>, probe: string, result: ProbeMotorResult,
      radio: Radio)
    requires Canonical(result.commandId) in s.applied
    ensures var t := Run(w, s, between);
      && Hear(w, t, probe, result) == t
      && NothingRelayed(s.log, t.log, Canonical(result.commandId))
      && (HeardResult(radio) == Some(result) ==>
            var (sent, outcome) := Send(w, t, probe, radio);
            Session(w, t, probe, radio)
            == if IsTerminal(result) || outcome.None? then sent else Complete(w, sent, probe, outcome.value))
  {
    var ms := RunIsMoves(w, s, between);
    AppliedStaysSilent(w, s, ms, Canonical(result.commandId));
  }

  /** After a result that got through, the log holds no other attempt to pass on a result on that command. */
  ghost predicate RelayIsLastWord(log: seq<Event>) {
    forall i, j :: 0 <= i < j < |log| && log[i].Acked? && log[i].origin == FromProbe && log[i].sent ==>
      !FromProbeOn(log[j], log[i].commandId)
  }

  lemma MoveKeepsLastWord(w: Oracle, s: State, m: Move)
    requires RelayIsLastWord(s.log) && forall id :: RelayedOnce(s, id)
    ensures RelayIsLastWord(Apply(w, s, m).log)
  {
    var tail := MovePassesOnOne(w, s, m);
    forall i | 0 <= i < |s.log| && s.log[i].Acked? && s.log[i].origin == FromProbe && s.log[i].sent
      ensures s.log[i].commandId in s.applied
    {
      var of := Command(s.log[i].commandId);
      assert Counts(Relay, i, s.log[i], of) && RelayedOnce(s, of.id);
      TallyMembers(Relay, s.log, of);
    }
    LastWordSnoc(s.log, tail, s.applied);
  }

  lemma LastWordSnoc(log: seq<Event>, tail: seq<Event>, applied: set<string>)
    requires RelayIsLastWord(log)
    requires forall i :: 0 <= i < |log| && log[i].Acked? && log[i].origin == FromProbe && log[i].sent ==>
      log[i].commandId in applied
    requires forall i :: 0 <= i < |tail| && tail[i].Acked? && tail[i].origin == FromProbe ==>
      i == 0 && tail[i].commandId !in applied
    ensures RelayIsLastWord(log + tail)
  {
    var longer, n := log + tail, |log|;
    forall i, j | 0 <= i < j < |longer| && longer[i].Acked? && longer[i].origin == FromProbe && longer[i].sent
      ensures !FromProbeOn(longer[j], longer[i].commandId)
    {
      assert j >= n ==> longer[j] == tail[j - n];
      assert i >= n ==> longer[i] == tail[i - n];
    }
  }
}
