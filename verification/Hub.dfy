/**
  The motor-command delivery state machine: what src/polling.rs, the motor writer of src/ble.rs
  and the session loop of src/main.rs do to the hub's state, as functions of that state and of
  the outside world's answers. The classes in CommandPoller.dfy and MotorSession.dfy are proved
  equal to these functions.
 */
module Hub {
  import opened CommandDedup
  import opened Machine
  import opened MotorWire
  import opened Uuid
  import opened Wrappers

  // ---------- Data ----------

  /** The `action` of a pulled command, after decoding its enumeration number. */
  datatype CommandAction = RunForDuration | Stop | Unspecified | Unrecognised(raw: I32)

  datatype PolledCommand = PolledCommand(
    commandId: string, nodeId: string, action: CommandAction, durationMs: I32, expiresAt: I64)

  /**
    `ticket` (here, in the request and in the hub's acknowledgements) is not in the source: it is
    the position of the command's admission in the log, so that two admissions of one identifier
    can be told apart. No operation looks at it.
   */
  datatype PendingMotorCommand = PendingMotorCommand(
    commandId: string, nodeId: string, action: Byte, durationMs: I32, expiresAtEpochMs: I64, ticket: nat)

  datatype MotorDispatchRequest = MotorDispatchRequest(
    commandId: string, action: Byte, durationMs: I32, expiresAtEpochMs: I64, ticket: nat)

  /** `Result<(), MotorDispatchFailure>`. */
  datatype DispatchResult = Delivered | ExpiredBeforeWrite | BleWriteFailure

  datatype CommandStatus = SentToProbe | Executing | Succeeded | Failed | Expired

  datatype ReasonCode = NoReason | TtlExpired | BleWriteFailed | UartTimeout | UartRejected

  /** Who speaks: the hub on the admission with that ticket, or a probe through the hub. */
  datatype AckOrigin = FromHub(ticket: nat) | FromProbe

  /**
    What the outside world could have observed, with the calls of the duplicate filter and the
    clock reads they made. `tick` is the number of questions asked of the oracle before this one.
   */
  datatype Event =
    | Admitted(command: PolledCommand, at: EpochMs)
    | Refused(command: PolledCommand, at: EpochMs)
    | FinishedAt(commandId: string, at: EpochMs, prunedAt: EpochMs)
    | Acked(origin: AckOrigin, commandId: string, nodeId: string, status: CommandStatus, reason: ReasonCode,
      tick: nat, sent: bool)
    | Written(probe: string, request: MotorDispatchRequest, payload: seq<Byte>, at: EpochMs, acknowledged: bool)

  /** The poller's fields, the number of questions asked of the oracle, and the log. */
  datatype State = State(
    dedup: Dedup, pending: seq<PendingMotorCommand>, applied: set<string>, tick: nat, log: seq<Event>)

  const INITIAL := State(EMPTY, [], {}, 0, [])

  function RequestOf(e: PendingMotorCommand): MotorDispatchRequest {
    MotorDispatchRequest(e.commandId, e.action, e.durationMs, e.expiresAtEpochMs, e.ticket)
  }

  /** `command_is_expired` and `pending_command_is_expired`: a deadline of zero or less never passes. */
  predicate IsExpired(expiresAt: I64, now: EpochMs) {
    expiresAt > 0 && expiresAt <= now
  }

  function Without<T>(s: seq<T>, k: nat): seq<T>
    requires k < |s|
  {
    s[..k] + s[k + 1..]
  }

  lemma WithoutAt<T>(s: seq<T>, k: nat, i: nat)
    requires k < |s| && i < |s| - 1
    ensures Without(s, k)[i] == s[if i < k then i else i + 1]
  {
  }

  /** The position of the first pending command for the probe, or the length if there is none. */
  function IndexFor(pending: seq<PendingMotorCommand>, probe: string): (k: nat)
    ensures k <= |pending|
    ensures forall i :: 0 <= i < k ==> pending[i].nodeId != probe
    ensures k < |pending| ==> pending[k].nodeId == probe
  {
    if pending == [] then 0
    else if pending[0].nodeId == probe then 0
    else 1 + IndexFor(pending[1..], probe)
  }

  // ---------- Acknowledging and finishing ----------

  function Ack(w: Oracle, s: State, origin: AckOrigin, id: string, node: string, status: CommandStatus,
      reason: ReasonCode): State {
    s.(tick := s.tick + 1, log := s.log + [Acked(origin, id, node, status, reason, s.tick, w.ackSent(s.tick))])
  }

  function Finish(w: Oracle, s: State, id: string): State {
    s.(dedup := FinishProcessed(s.dedup, id, w.clock(s.tick), w.clock(s.tick + 1)),
       tick := s.tick + 2,
       log := s.log + [FinishedAt(id, w.clock(s.tick), w.clock(s.tick + 1))])
  }

  /** Report an outcome once, and finish the command whether or not the report got through. */
  function Report(w: Oracle, s: State, ticket: nat, id: string, node: string, status: CommandStatus,
      reason: ReasonCode): State {
    Finish(w, Ack(w, s, FromHub(ticket), id, node, status, reason), id)
  }

  // ---------- Poll window ----------

  /** One iteration of the sweep, apart from keeping or dropping the entry. */
  function JudgeEntry(w: Oracle, s: State, e: PendingMotorCommand): State {
    var read := s.(tick := s.tick + 1);
    if IsExpired(e.expiresAtEpochMs, w.clock(s.tick)) then
      Report(w, read, e.ticket, e.commandId, e.nodeId, Expired, TtlExpired)
    else
      read
  }

  /** The sweep's decision on the pending command at `k`. */
  function Judge(w: Oracle, s: State, k: nat): State {
    if k >= |s.pending| then s
    else if IsExpired(s.pending[k].expiresAtEpochMs, w.clock(s.tick)) then
      JudgeEntry(w, s, s.pending[k]).(pending := Without(s.pending, k))
    else
      JudgeEntry(w, s, s.pending[k])
  }

  /** `expire_pending_commands`, from position `k` on. */
  function Sweep(w: Oracle, s: State, k: nat): State
    decreases |s.pending| - k
  {
    if k >= |s.pending| then s
    else
      var s' := Judge(w, s, k);
      Sweep(w, s', if |s'.pending| < |s.pending| then k else k + 1)
  }

  function ActionByte(c: PolledCommand): Option<Byte> {
    match c.action
    case RunForDuration => if c.durationMs < 0 then None else Some(ACTION_RUN_FOR_DURATION)
    case Stop => Some(ACTION_STOP)
    case Unspecified => None
    case Unrecognised(_) => None
  }

  /** The second half of `store_polled_command`, once the command is admitted. */
  function Place(w: Oracle, s: State, c: PolledCommand, ticket: nat): State {
    var read := s.(tick := s.tick + 1);
    if IsExpired(c.expiresAt, w.clock(s.tick)) then Report(w, read, ticket, c.commandId, c.nodeId, Expired, TtlExpired)
    else
      match ActionByte(c)
      case None => Report(w, read, ticket, c.commandId, c.nodeId, Failed, BleWriteFailed)
      case Some(action) =>
        read.(pending := s.pending
          + [PendingMotorCommand(c.commandId, c.nodeId, action, c.durationMs, c.expiresAt, ticket)])
  }

  /** The state once the duplicate filter has let the command in. */
  function Admit(w: Oracle, s: State, c: PolledCommand): State {
    var now := w.clock(s.tick);
    s.(dedup := TryBegin(s.dedup, c.commandId, now).0, tick := s.tick + 1, log := s.log + [Admitted(c, now)])
  }

  predicate LetsIn(w: Oracle, s: State, c: PolledCommand) {
    TryBegin(s.dedup, c.commandId, w.clock(s.tick)).1 == New
  }

  /** `store_polled_command`. */
  function Offer(w: Oracle, s: State, c: PolledCommand): State {
    if LetsIn(w, s, c) then Place(w, Admit(w, s, c), c, |s.log|)
    else
      s.(dedup := Prune(s.dedup, w.clock(s.tick)), tick := s.tick + 1, log := s.log + [Refused(c, w.clock(s.tick))])
  }

  function OfferAll(w: Oracle, s: State, cs: seq<PolledCommand>): State
    decreases |cs|
  {
    if cs == [] then s else OfferAll(w, Offer(w, s, cs[0]), cs[1..])
  }

  /** `poll_once`; `pulled` is absent when the pull failed. */
  function PollOnce(w: Oracle, s: State, pulled: Option<seq<PolledCommand>>): State {
    var swept := Sweep(w, s, 0);
    match pulled
    case None => swept
    case Some(cs) => OfferAll(w, swept, cs)
  }

  // ---------- Results read from a probe ----------

  /** The acknowledgement a result calls for, if it calls for one. */
  function Outcome(result: ProbeMotorResult): Option<(CommandStatus, ReasonCode)> {
    match result.status
    case 4 => Some((Executing, NoReason))
    case 5 => Some((Succeeded, NoReason))
    case 6 =>
      Some((Failed, match result.reasonCode case 7 => UartTimeout case 8 => UartRejected case _ => BleWriteFailed))
    case 7 => Some((Expired, TtlExpired))
    case _ => None
  }

  /** Pass a result on; only a successful acknowledgement finishes the command. */
  function PassOn(w: Oracle, s: State, id: string, probe: string, status: CommandStatus, reason: ReasonCode): State {
    var acked := Ack(w, s, FromProbe, id, probe, status, reason);
    if w.ackSent(s.tick) then Finish(w, acked, id).(applied := s.applied + {id}) else acked
  }

  /** `apply_probe_motor_result`. */
  function Hear(w: Oracle, s: State, probe: string, result: ProbeMotorResult): State {
    var id := Canonical(result.commandId);
    if id in s.applied || Outcome(result).None? then s
    else PassOn(w, s, id, probe, Outcome(result).value.0, Outcome(result).value.1)
  }

  // ---------- Dispatch ----------

  /** `dispatch_pending_command`: the new state, and whether the command stays pending. */
  function Dispatch(w: Oracle, s: State, e: PendingMotorCommand, outcome: DispatchResult): (State, bool) {
    match outcome
    case Delivered =>
      var acked := Ack(w, s, FromHub(e.ticket), e.commandId, e.nodeId, SentToProbe, NoReason);
      if w.ackSent(s.tick) then (Finish(w, acked, e.commandId), false) else (acked, true)
    case ExpiredBeforeWrite => (Report(w, s, e.ticket, e.commandId, e.nodeId, Expired, TtlExpired), false)
    case BleWriteFailure => (s, true)
  }

  function SettleAt(w: Oracle, s: State, k: nat, outcome: DispatchResult): State
    requires k < |s.pending|
  {
    var (s', kept) := Dispatch(w, s, s.pending[k], outcome);
    if kept then s' else s'.(pending := Without(s.pending, k))
  }

  /** `complete_dispatched_for_probe`. */
  function Complete(w: Oracle, s: State, probe: string, outcome: DispatchResult): State {
    var k := IndexFor(s.pending, probe);
    if k < |s.pending| then SettleAt(w, s, k, outcome) else s
  }

  // ---------- One BLE session ----------

  /** What the radio does in a session: the characteristic, the acknowledged write, the result bytes. */
  datatype Radio = Radio(characteristicFound: bool, writeAcknowledged: bool, resultBytes: Option<seq<Byte>>)

  /** `write_motor_payload_to_service`: up to three clock reads, and at most one write. */
  function WriteRequest(w: Oracle, s: State, probe: string, r: MotorDispatchRequest, radio: Radio)
      : (State, DispatchResult) {
    if !radio.characteristicFound then (s, BleWriteFailure)
    else if r.expiresAtEpochMs <= w.clock(s.tick) then (s.(tick := s.tick + 1), ExpiredBeforeWrite)
    else
      match EncodeRequest(r.commandId, r.action, r.durationMs, r.expiresAtEpochMs, w.clock(s.tick + 1))
      case BadRequest =>
        (s.(tick := s.tick + 2),
         if r.expiresAtEpochMs <= w.clock(s.tick + 1) then ExpiredBeforeWrite else BleWriteFailure)
      case TooLate(_) =>
        (s.(tick := s.tick + 3),
         if r.expiresAtEpochMs <= w.clock(s.tick + 2) then ExpiredBeforeWrite else BleWriteFailure)
      case Encoded(payload, at) =>
        (s.(tick := s.tick + 2, log := s.log + [Written(probe, r, payload, at, radio.writeAcknowledged)]),
         if radio.writeAcknowledged then Delivered else BleWriteFailure)
  }

  /** Write the first pending command for the probe, if there is one. */
  function Send(w: Oracle, s: State, probe: string, radio: Radio): (State, Option<DispatchResult>) {
    var k := IndexFor(s.pending, probe);
    if k < |s.pending| then
      var (s', outcome) := WriteRequest(w, s, probe, RequestOf(s.pending[k]), radio);
      (s', Some(outcome))
    else
      (s, None)
  }

  function HeardResult(radio: Radio): Option<ProbeMotorResult> {
    match radio.resultBytes
    case None => None
    case Some(raw) => ParseMotorResult(raw)
  }

  function HeardTerminal(radio: Radio): bool {
    HeardResult(radio).Some? && IsTerminal(HeardResult(radio).value)
  }

  /** The state in which the session decides whether to complete the write. */
  function AfterHearing(w: Oracle, s: State, probe: string, radio: Radio): State {
    var sent := Send(w, s, probe, radio).0;
    if HeardResult(radio).Some? then Hear(w, sent, probe, HeardResult(radio).value) else sent
  }

  /** What one successful session with a probe does to the poller. */
  function Session(w: Oracle, s: State, probe: string, radio: Radio): State {
    var outcome, heard := Send(w, s, probe, radio).1, AfterHearing(w, s, probe, radio);
    if !HeardTerminal(radio) && outcome.Some? then Complete(w, heard, probe, outcome.value) else heard
  }

  // ---------- Runs ----------

  /** The poller's entry points, and the session that main strings together from them. */
  datatype Step =
    | PollWindow(pulled: Option<seq<PolledCommand>>)
    | ProbeSession(probe: string, radio: Radio)
    | ApplyResult(probe: string, result: ProbeMotorResult)
    | CompleteDispatch(probe: string, outcome: DispatchResult)

  function Exec(w: Oracle, s: State, step: Step): State {
    match step
    case PollWindow(pulled) => PollOnce(w, s, pulled)
    case ProbeSession(probe, radio) => Session(w, s, probe, radio)
    case ApplyResult(probe, result) => Hear(w, s, probe, result)
    case CompleteDispatch(probe, outcome) => Complete(w, s, probe, outcome)
  }

  function Run(w: Oracle, s: State, steps: seq<Step>): State
    decreases |steps|
  {
    if steps == [] then s else Run(w, Exec(w, s, steps[0]), steps[1..])
  }

  lemma RunOfOne(w: Oracle, s: State, step: Step)
    ensures Run(w, s, [step]) == Exec(w, s, step)
  {
    assert Run(w, Exec(w, s, step), [step][1..]) == Exec(w, s, step);
  }

  lemma {:induction false} RunConcat(w: Oracle, s: State, a: seq<Step>, b: seq<Step>)
    ensures Run(w, s, a + b) == Run(w, Run(w, s, a), b)
    decreases |a|
  {
    if a == [] {
      assert a + b == b;
    } else {
      assert (a + b)[1..] == a[1..] + b;
      RunConcat(w, Exec(w, s, a[0]), a[1..], b);
    }
  }

  lemma RunSnoc(w: Oracle, s: State, steps: seq<Step>, last: Step)
    ensures Run(w, s, steps + [last]) == Exec(w, Run(w, s, steps), last)
  {
    RunConcat(w, s, steps, [last]);
    RunOfOne(w, Run(w, s, steps), last);
  }

  /** The log only grows. */
  ghost predicate Extends(log: seq<Event>, longer: seq<Event>) {
    |log| <= |longer| && forall i :: 0 <= i < |log| ==> longer[i] == log[i]
  }

  // ---------- Moves: the indivisible parts of the steps ----------

  /** Between two moves the loops of the poller are between two iterations. */
  datatype Move =
    | JudgeMove(k: nat)
    | OfferMove(command: PolledCommand)
    | HearMove(probe: string, result: ProbeMotorResult)
    | SendMove(probe: string, radio: Radio)
    | CompleteMove(probe: string, outcome: DispatchResult)

  function Apply(w: Oracle, s: State, m: Move): State {
    match m
    case JudgeMove(k) => Judge(w, s, k)
    case OfferMove(c) => Offer(w, s, c)
    case HearMove(probe, result) => Hear(w, s, probe, result)
    case SendMove(probe, radio) => Send(w, s, probe, radio).0
    case CompleteMove(probe, outcome) => Complete(w, s, probe, outcome)
  }

  function ApplyAll(w: Oracle, s: State, ms: seq<Move>): State
    decreases |ms|
  {
    if ms == [] then s else ApplyAll(w, Apply(w, s, ms[0]), ms[1..])
  }

  lemma {:induction false} ApplyConcat(w: Oracle, s: State, a: seq<Move>, b: seq<Move>)
    ensures ApplyAll(w, s, a + b) == ApplyAll(w, ApplyAll(w, s, a), b)
    decreases |a|
  {
    if a == [] {
      assert a + b == b;
    } else {
      assert (a + b)[1..] == a[1..] + b;
      ApplyConcat(w, Apply(w, s, a[0]), a[1..], b);
    }
  }

  lemma {:induction false} SweepIsMoves(w: Oracle, s: State, k: nat) returns (ms: seq<Move>)
    ensures ApplyAll(w, s, ms) == Sweep(w, s, k)
    decreases |s.pending| - k
  {
    ms := [];
    if k < |s.pending| {
      var s' := Judge(w, s, k);
      var rest := SweepIsMoves(w, s', if |s'.pending| < |s.pending| then k else k + 1);
      ms := [JudgeMove(k)] + rest;
    }
  }

  lemma {:induction false} OfferAllIsMoves(w: Oracle, s: State, cs: seq<PolledCommand>) returns (ms: seq<Move>)
    ensures ApplyAll(w, s, ms) == OfferAll(w, s, cs)
    decreases |cs|
  {
    ms := [];
    if cs != [] {
      var rest := OfferAllIsMoves(w, Offer(w, s, cs[0]), cs[1..]);
      ms := [OfferMove(cs[0])] + rest;
    }
  }

  lemma {:induction false} OneMove(w: Oracle, s: State, m: Move)
    ensures ApplyAll(w, s, [m]) == Apply(w, s, m)
  {
    assert ApplyAll(w, Apply(w, s, m), []) == Apply(w, s, m);
  }

  lemma SessionIsMoves(w: Oracle, s: State, probe: string, radio: Radio) returns (ms: seq<Move>)
    ensures ApplyAll(w, s, ms) == Session(w, s, probe, radio)
  {
    var (sent, outcome) := Send(w, s, probe, radio);
    ms := [SendMove(probe, radio)];
    OneMove(w, s, ms[0]);
    var heard := sent;
    if HeardResult(radio).Some? {
      var hear := HearMove(probe, HeardResult(radio).value);
      heard := Apply(w, sent, hear);
      ApplyConcat(w, s, ms, [hear]);
      OneMove(w, sent, hear);
      ms := ms + [hear];
    }
    if !HeardTerminal(radio) && outcome.Some? {
      var complete := CompleteMove(probe, outcome.value);
      ApplyConcat(w, s, ms, [complete]);
      OneMove(w, heard, complete);
      ms := ms + [complete];
    }
  }

  /** Every step is a sequence of moves. */
  lemma StepIsMoves(w: Oracle, s: State, step: Step) returns (ms: seq<Move>)
    ensures ApplyAll(w, s, ms) == Exec(w, s, step)
  {
    match step
    case PollWindow(pulled) =>
      ms := SweepIsMoves(w, s, 0);
      if pulled.Some? {
        var offers := OfferAllIsMoves(w, Sweep(w, s, 0), pulled.value);
        ApplyConcat(w, s, ms, offers);
        ms := ms + offers;
      }
    case ProbeSession(probe, radio) =>
      ms := SessionIsMoves(w, s, probe, radio);
    case ApplyResult(probe, result) =>
      ms := [HearMove(probe, result)];
      OneMove(w, s, ms[0]);
    case CompleteDispatch(probe, outcome) =>
      ms := [CompleteMove(probe, outcome)];
      OneMove(w, s, ms[0]);
  }

  /** Every run is a sequence of moves, so what all moves keep holds after every run and inside every loop. */
  lemma {:induction false} RunIsMoves(w: Oracle, s: State, steps: seq<Step>) returns (ms: seq<Move>)
    ensures ApplyAll(w, s, ms) == Run(w, s, steps)
    decreases |steps|
  {
    ms := [];
    if steps != [] {
      var first := StepIsMoves(w, s, steps[0]);
      var rest := RunIsMoves(w, Exec(w, s, steps[0]), steps[1..]);
      ApplyConcat(w, s, first, rest);
      ms := first + rest;
    }
  }
}
