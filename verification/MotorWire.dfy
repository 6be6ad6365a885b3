/**
  The two fixed-width frames exchanged with a probe: the 30-byte motor command and the 23-byte
  motor result (layouts in src/config.rs, code in src/ble.rs).
 */
module MotorWire {
  import opened Machine
  import opened Uuid
  import opened Wrappers

  const COMMAND_MAGIC: seq<Byte> := [0x48, 0x48, 0x4D, 0x43] // HHMC
  const COMMAND_VERSION: Byte := 1
  const ACTION_STOP: Byte := 0
  const ACTION_RUN_FOR_DURATION: Byte := 1
  const COMMAND_MAGIC_OFFSET := 0
  const COMMAND_VERSION_OFFSET := 4
  const COMMAND_ACTION_OFFSET := 5
  const COMMAND_ID_OFFSET := 6
  const COMMAND_DURATION_OFFSET := 22
  const COMMAND_EXPIRY_OFFSET := 26
  const COMMAND_LEN := 30
  const MAX_DURATION_MS: U32 := 5000

  const RESULT_MAGIC: seq<Byte> := [0x48, 0x48, 0x4D, 0x52] // HHMR
  const RESULT_VERSION: Byte := 1
  const RESULT_MAGIC_OFFSET := 0
  const RESULT_VERSION_OFFSET := 4
  const RESULT_STATUS_OFFSET := 5
  const RESULT_REASON_OFFSET := 6
  const RESULT_ID_OFFSET := 7
  const RESULT_LEN := 23

  // ---------- Motor command ----------

  datatype CommandFrame = CommandFrame(action: Byte, id: CompactId, durationMs: U32, ttlMs: U32)

  /** The frame as the layout comment lists it: its fields side by side. */
  function EncodeCommand(frame: CommandFrame): (payload: seq<Byte>)
    ensures |payload| == COMMAND_LEN
  {
    COMMAND_MAGIC + [COMMAND_VERSION] + [frame.action] + frame.id + ToLe32(frame.durationMs) + ToLe32(frame.ttlMs)
  }

  /** The frame as a probe reads it, at the documented byte ranges. */
  function DecodeCommand(payload: seq<Byte>): Option<CommandFrame> {
    if |payload| == 30 && payload[0..4] == [0x48, 0x48, 0x4D, 0x43] && payload[4] == 1 then
      Some(CommandFrame(payload[5], payload[6..22], FromLe32(payload[22..26]), FromLe32(payload[26..30])))
    else
      None
  }

  function ClampDuration(durationMs: I32): (clamped: U32) {
    var nonNegative: int := if durationMs < 0 then 0 else durationMs;
    if nonNegative > MAX_DURATION_MS then MAX_DURATION_MS else nonNegative
  }

  /** Milliseconds left; the subtraction stays within 64 bits because the clock is not negative. */
  function RemainingTtl(expiresAtMs: I64, now: EpochMs): (ttl: U32)
    requires now < expiresAtMs
    ensures 1 <= ttl && now + ttl <= expiresAtMs
  {
    var left: I64 := expiresAtMs - now;
    if left < U32_MAX then left else U32_MAX
  }

  datatype EncodeResult =
    | Encoded(payload: seq<Byte>, at: EpochMs)
    | BadRequest             // unsupported action, or not a UUID: the clock is not read
    | TooLate(at: EpochMs)

  /** What `build_motor_command_payload` returns when the clock reads `now`. */
  function EncodeRequest(commandId: string, action: Byte, durationMs: I32, expiresAtMs: I64,
      now: EpochMs): EncodeResult {
    if action != ACTION_STOP && action != ACTION_RUN_FOR_DURATION then BadRequest
    else if !IsUuidText(commandId) then BadRequest
    else if expiresAtMs <= now then TooLate(now)
    else
      Encoded(EncodeCommand(CommandFrame(action, ParseUuid(commandId).value, ClampDuration(durationMs),
                                         RemainingTtl(expiresAtMs, now))), now)
  }

  /** Encoding and decoding undo each other, so the fields tile the 30 bytes exactly. */
  lemma CommandFrameRoundTrip(frame: CommandFrame, payload: seq<Byte>)
    ensures DecodeCommand(payload) == Some(frame) <==> payload == EncodeCommand(frame)
  {
    Le32RoundTrip(frame.durationMs);
    Le32RoundTrip(frame.ttlMs);
    var encoded := EncodeCommand(frame);
    assert encoded[0..4] == COMMAND_MAGIC && encoded[6..22] == frame.id;
    assert encoded[22..26] == ToLe32(frame.durationMs) && encoded[26..30] == ToLe32(frame.ttlMs);
    if DecodeCommand(payload) == Some(frame) {
      Le32Injective(payload[22..26]);
      Le32Injective(payload[26..30]);
      assert payload == payload[0..4] + [payload[4]] + [payload[5]] + payload[6..22] + payload[22..26]
        + payload[26..30];
    }
  }

  /** What the probe reads out of an encoded request is what was asked, within the safety limits. */
  lemma EncodedRequestMeansRequest(commandId: string, action: Byte, durationMs: I32, expiresAtMs: I64, now: EpochMs)
    requires action == 0 || action == 1
    ensures EncodeRequest(commandId, action, durationMs, expiresAtMs, now).Encoded?
       <==> IsUuidText(commandId) && now < expiresAtMs
    ensures IsUuidText(commandId) && now < expiresAtMs ==>
      var frame := DecodeCommand(EncodeRequest(commandId, action, durationMs, expiresAtMs, now).payload);
      && frame.Some?
      && frame.value.action == action
      && Some(frame.value.id) == ParseUuid(commandId)
      && frame.value.durationMs <= 5000
      && (0 <= durationMs <= 5000 ==> frame.value.durationMs == durationMs)
      && (durationMs < 0 ==> frame.value.durationMs == 0)
      && (durationMs > 5000 ==> frame.value.durationMs == 5000)
      && 1 <= frame.value.ttlMs <= 0xFFFF_FFFF
      && now + frame.value.ttlMs <= expiresAtMs
      && (now + frame.value.ttlMs == expiresAtMs || frame.value.ttlMs == 0xFFFF_FFFF)
  {
    if IsUuidText(commandId) && now < expiresAtMs {
      var frame := CommandFrame(action, ParseUuid(commandId).value, ClampDuration(durationMs),
        RemainingTtl(expiresAtMs, now));
      CommandFrameRoundTrip(frame, EncodeCommand(frame));
    }
  }

  // ---------- Motor result ----------

  datatype ProbeMotorResult = ProbeMotorResult(status: Byte, reasonCode: Byte, commandId: CompactId)

  /** The nil UUID of section 5.9 of RFC 9562. */
  const NIL_ID: CompactId := [0, 0, 0, 0, 0, 0, 0, 0, 0, 0, 0, 0, 0, 0, 0, 0]

  /** The frame as a probe writes it. */
  function EncodeMotorResult(result: ProbeMotorResult): (raw: seq<Byte>)
    ensures |raw| == RESULT_LEN
  {
    RESULT_MAGIC + [RESULT_VERSION] + [result.status] + [result.reasonCode] + result.commandId
  }

  /** `parse_motor_result_payload`. */
  function ParseMotorResult(raw: seq<Byte>): Option<ProbeMotorResult> {
    if |raw| != RESULT_LEN then None
    else if raw[RESULT_MAGIC_OFFSET..RESULT_VERSION_OFFSET] != RESULT_MAGIC then None
    else if raw[RESULT_VERSION_OFFSET] != RESULT_VERSION then None
    else
      var commandId: CompactId := raw[RESULT_ID_OFFSET..RESULT_LEN];
      if forall i :: 0 <= i < |commandId| ==> commandId[i] == 0 then None
      else Some(ProbeMotorResult(raw[RESULT_STATUS_OFFSET], raw[RESULT_REASON_OFFSET], commandId))
  }

  /** The bytes are a result frame with that status, reason and identifier, at the documented offsets. */
  predicate ResultBytes(raw: seq<Byte>, result: ProbeMotorResult) {
    && |raw| == 23
    && raw[0..4] == [0x48, 0x48, 0x4D, 0x52] && raw[4] == 1
    && raw[5] == result.status && raw[6] == result.reasonCode && raw[7..23] == result.commandId
  }

  /** A result is read exactly from the frame that encodes it, unless it names the nil command. */
  lemma MotorResultRoundTrip(raw: seq<Byte>, result: ProbeMotorResult)
    ensures raw == EncodeMotorResult(result) <==> ResultBytes(raw, result)
    ensures ParseMotorResult(raw) == Some(result) <==> raw == EncodeMotorResult(result) && result.commandId != NIL_ID
  {
    assert EncodeMotorResult(result)[RESULT_MAGIC_OFFSET..RESULT_VERSION_OFFSET] == RESULT_MAGIC;
    assert EncodeMotorResult(result)[RESULT_ID_OFFSET..RESULT_LEN] == result.commandId;
    if ResultBytes(raw, result) {
      assert raw == raw[0..4] + [raw[4]] + [raw[5]] + [raw[6]] + raw[7..23];
    }
    if (forall i :: 0 <= i < |result.commandId| ==> result.commandId[i] == 0) {
      assert result.commandId == NIL_ID;
    }
    if ParseMotorResult(raw) == Some(result) {
      assert raw == raw[0..4] + [raw[4]] + [raw[5]] + [raw[6]] + raw[7..23];
      assert result.commandId != NIL_ID;
    }
  }

  /** `is_terminal`. */
  predicate IsTerminal(result: ProbeMotorResult) {
    5 <= result.status <= 7
  }
}
