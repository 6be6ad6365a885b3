/**
  From a pulled command to the probe and back: the 16 bytes that a probe echoes must name the
  same command in the duplicate filter.
 */
module Correlation {
  import opened Hub
  import opened Machine
  import opened MotorWire
  import opened Uuid
  import opened Wrappers

  /** The result frame of a probe that copies the identifier bytes out of the command frame. */
  function Echo(payload: seq<Byte>, status: Byte, reason: Byte): seq<Byte>
    requires |payload| == COMMAND_LEN
  {
    EncodeMotorResult(ProbeMotorResult(status, reason, payload[COMMAND_ID_OFFSET..COMMAND_DURATION_OFFSET]))
  }

  /** The identifier that the hub reads back, in its canonical spelling; the nil identifier is ignored. */
  lemma EchoNamesCommand(id: string, action: Byte, durationMs: I32, expiresAtMs: I64, now: EpochMs, status: Byte,
      reason: Byte)
    requires EncodeRequest(id, action, durationMs, expiresAtMs, now).Encoded?
    ensures IsUuidText(id)
    ensures var payload := EncodeRequest(id, action, durationMs, expiresAtMs, now).payload;
      |payload| == COMMAND_LEN &&
      var heard := ParseMotorResult(Echo(payload, status, reason));
      && (heard.Some? <==> ParseUuid(id) != Some(NIL_ID))
      && (heard.Some? ==>
           && heard.value.status == status && heard.value.reasonCode == reason
           && Some(heard.value.commandId) == ParseUuid(id)
           && (Canonical(heard.value.commandId) == id <==> IsCanonical(id)))
  {
    var frame := CommandFrame(action, ParseUuid(id).value, ClampDuration(durationMs), RemainingTtl(expiresAtMs, now));
    var payload := EncodeCommand(frame);
    assert payload[COMMAND_ID_OFFSET..COMMAND_DURATION_OFFSET] == frame.id;
    var result := ProbeMotorResult(status, reason, frame.id);
    MotorResultRoundTrip(EncodeMotorResult(result), result);
    if ParseMotorResult(EncodeMotorResult(result)).Some? {
      MotorResultRoundTrip(EncodeMotorResult(result), ParseMotorResult(EncodeMotorResult(result)).value);
      assert ParseMotorResult(EncodeMotorResult(result)).value.commandId == frame.id;
    }
    PrintedParseIsIdentityExactlyOnCanonical(id);
  }

  /**
    The echo of a status from 4 to 7, once acknowledged, finishes that command's slot and no other,
    exactly when the identifier is spelled canonically.
   */
  lemma EchoFinishesItsCommand(w: Oracle, s: State, probe: string, id: string, action: Byte, durationMs: I32,
                               expiresAtMs: I64, now: EpochMs, status: Byte, reason: Byte)
    requires EncodeRequest(id, action, durationMs, expiresAtMs, now).Encoded? && ParseUuid(id) != Some(NIL_ID)
    requires 4 <= status <= 7 && w.ackSent(s.tick)
    requires id !in s.applied && id in s.dedup.processing
    ensures var payload := EncodeRequest(id, action, durationMs, expiresAtMs, now).payload;
      var heard := ParseMotorResult(Echo(payload, status, reason));
      heard.Some? &&
      var t := Hear(w, s, probe, heard.value);
      && (IsCanonical(id) <==> id !in t.dedup.processing)
      && (IsCanonical(id) <==> id in t.applied)
      && (IsCanonical(id) ==> t.dedup.processing == s.dedup.processing - {id} && t.applied == s.applied + {id})
      && t.pending == s.pending
  {
    EchoNamesCommand(id, action, durationMs, expiresAtMs, now, status, reason);
    var payload := EncodeRequest(id, action, durationMs, expiresAtMs, now).payload;
    var heard := ParseMotorResult(Echo(payload, status, reason)).value;
    var spelled := Canonical(heard.commandId);
    assert Outcome(heard).Some?;
    var t := Hear(w, s, probe, heard);
    if spelled in s.applied {
      assert t == s;
    } else {
      assert t.dedup.processing == s.dedup.processing - {spelled} && t.applied == s.applied + {spelled};
    }
  }
}
