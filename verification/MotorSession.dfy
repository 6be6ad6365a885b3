/**
  One BLE session with a probe: the motor writer of src/ble.rs and the sequence of calls that
  src/main.rs makes around it.
 */
module MotorSession {
  import opened CommandPoller
  import opened Hub
  import opened Machine
  import opened MotorWire
  import opened Uuid
  import opened Wrappers

  /** The zeroed buffer, and each field copied to its offsets. */
  method FillCommandBuffer(frame: CommandFrame) returns (bytes: seq<Byte>)
    ensures bytes == EncodeCommand(frame)
  {
    var durationBytes, ttlBytes := ToLe32(frame.durationMs), ToLe32(frame.ttlMs);
    var payload := new Byte[COMMAND_LEN](_ => 0);
    forall i | COMMAND_MAGIC_OFFSET <= i < COMMAND_VERSION_OFFSET {
      payload[i] := COMMAND_MAGIC[i - COMMAND_MAGIC_OFFSET];
    }
    payload[COMMAND_VERSION_OFFSET] := COMMAND_VERSION;
    payload[COMMAND_ACTION_OFFSET] := frame.action;
    forall i | COMMAND_ID_OFFSET <= i < COMMAND_DURATION_OFFSET {
      payload[i] := frame.id[i - COMMAND_ID_OFFSET];
    }
    forall i | COMMAND_DURATION_OFFSET <= i < COMMAND_EXPIRY_OFFSET {
      payload[i] := durationBytes[i - COMMAND_DURATION_OFFSET];
    }
    forall i | COMMAND_EXPIRY_OFFSET <= i < COMMAND_LEN {
      payload[i] := ttlBytes[i - COMMAND_EXPIRY_OFFSET];
    }
    return payload[..];
  }

  /** `build_motor_command_payload`: the clock is read once, and only for a request that can be encoded. */
  method BuildMotorCommandPayload(commandId: string, action: Byte, durationMs: I32, expiresAtMs: I64, env: Environment)
    returns (result: EncodeResult)
    modifies env`tick
    ensures result == EncodeRequest(commandId, action, durationMs, expiresAtMs, env.oracle.clock(old(env.tick)))
    ensures env.tick == if result.BadRequest? then old(env.tick) else old(env.tick) + 1
  {
    if action != ACTION_STOP && action != ACTION_RUN_FOR_DURATION {
      return BadRequest;
    }
    var compact := new Byte[ID_LEN](_ => 0);
    var parsed := ParseUuidCompactBytes(commandId, compact);
    if !parsed {
      return BadRequest;
    }
    var clamped := ClampDuration(durationMs);
    var now := env.UnixNowMs();
    if expiresAtMs <= now {
      return TooLate(now);
    }
    var remaining := RemainingTtl(expiresAtMs, now);
    var payload := FillCommandBuffer(CommandFrame(action, compact[..], clamped, remaining));
    return Encoded(payload, now);
  }

  /** `write_motor_payload_to_service`. */
  method WriteMotorPayloadToService(env: Environment, probe: string, r: MotorDispatchRequest, radio: Radio)
    returns (outcome: DispatchResult)
    modifies env
    ensures forall s: State :: s.tick == old(env.tick) && s.log == old(env.log) ==>
      WriteRequest(env.oracle, s, probe, r, radio) == (s.(tick := env.tick, log := env.log), outcome)
  {
    if !radio.characteristicFound {
      return BleWriteFailure;
    }
    var now := env.UnixNowMs();
    if r.expiresAtEpochMs <= now {
      return ExpiredBeforeWrite;
    }
    var built := BuildMotorCommandPayload(r.commandId, r.action, r.durationMs, r.expiresAtEpochMs, env);
    if !built.Encoded? {
      now := env.UnixNowMs();
      if r.expiresAtEpochMs <= now {
        return ExpiredBeforeWrite;
      }
      return BleWriteFailure;
    }
    env.Record(Written(probe, r, built.payload, built.at, radio.writeAcknowledged));
    if !radio.writeAcknowledged {
      return BleWriteFailure;
    }
    return Delivered;
  }

  /** The session of src/main.rs, from the peek to the completion; the upload in between does not touch the poller. */
  method RunSession(poller: Poller, env: Environment, probe: string, radio: Radio)
    modifies poller, poller.dedup, env
    ensures poller.View(env) == Session(env.oracle, old(poller.View(env)), probe, radio)
  {
    ghost var before := poller.View(env);
    var request := poller.PeekPendingForProbe(probe);
    var outcome: Option<DispatchResult> := None;
    if request.Some? {
      var result := WriteMotorPayloadToService(env, probe, request.value, radio);
      outcome := Some(result);
    }
    assert (poller.View(env), outcome) == Send(env.oracle, before, probe, radio);
    var heard := None;
    if radio.resultBytes.Some? {
      heard := ParseMotorResult(radio.resultBytes.value);
    }
    var terminal := heard.Some? && IsTerminal(heard.value);
    if heard.Some? {
      poller.ApplyProbeMotorResult(env, probe, heard.value);
    }
    if !terminal && outcome.Some? {
      poller.CompleteDispatchedForProbe(env, probe, outcome.value);
    }
  }

  /**
    A hub from its start through any steps: what the state machine's runs satisfy, the objects satisfy.
    The main loop takes poll windows and sessions; the other two steps drive the entry points singly.
   */
  method RunHub(oracle: Oracle, steps: seq<Step>) returns (poller: Poller, env: Environment)
    ensures poller.View(env) == Run(oracle, INITIAL, steps)
  {
    env := new Environment(oracle);
    poller := new Poller();
    for i := 0 to |steps|
      invariant fresh(env) && fresh(poller) && fresh(poller.dedup) && env.oracle == oracle
      invariant Run(oracle, poller.View(env), steps[i..]) == Run(oracle, INITIAL, steps)
    {
      assert steps[i..][1..] == steps[i + 1..];
      match steps[i] {
        case PollWindow(pulled) => poller.PollWindow(env, pulled);
        case ProbeSession(probe, radio) => RunSession(poller, env, probe, radio);
        case ApplyResult(probe, result) => poller.ApplyProbeMotorResult(env, probe, result);
        case CompleteDispatch(probe, outcome) => poller.CompleteDispatchedForProbe(env, probe, outcome);
      }
    }
  }
}
