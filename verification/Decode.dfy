/** The clock rules of `src/decode.rs`: frame validation, run state, GP1 pulse decision. */
module Decode {
  import opened Words

  const PACKET_LEN := 6
  const PACKET_SOF: byte := 0x60
  const MAX_MINUTES := 99
  const MAX_SECONDS := 59
  const STOPPED_AFTER_MS := 2000

  function ParseClockPacket(pkt: seq<byte>): (r: Option<(byte, byte)>)
    requires |pkt| == PACKET_LEN
    ensures r.Some? ==> r.value.0 <= MAX_MINUTES && r.value.1 <= MAX_SECONDS
  {
    if pkt[0] != PACKET_SOF then None
    else if pkt[3] > MAX_MINUTES || pkt[4] > MAX_SECONDS then None
    else Some((pkt[3], pkt[4]))
  }

  /** A frame as the board sends it: start byte, check byte, an unknown byte, the time, another unknown byte. */
  function ClockFrame(chk: byte, unk0: byte, min: byte, sec: byte, unk1: byte): seq<byte> {
    [0x60, chk, unk0, min, sec, unk1]
  }

  /** A packet reads as a time exactly when it is a frame sent to show that time, up to 99:59. */
  lemma ParsesExactlyWhenSent(pkt: seq<byte>, min: byte, sec: byte)
    requires |pkt| == PACKET_LEN
    ensures ParseClockPacket(pkt) == Some((min, sec)) <==>
              && min <= 99 && sec <= 59
              && exists chk, unk0, unk1 :: pkt == ClockFrame(chk, unk0, min, sec, unk1)
    ensures ParseClockPacket(pkt).None? <==>
              forall chk, unk0, m: byte, s: byte, unk1 :: m <= 99 && s <= 59 ==> pkt != ClockFrame(chk, unk0, m, s, unk1)
  {
    assert pkt[0] == 0x60 ==> pkt == ClockFrame(pkt[1], pkt[2], pkt[3], pkt[4], pkt[5]);
  }

  /** `total_seconds(min, sec) == 0`, told from the two bytes. */
  predicate IsZero(min: byte, sec: byte): (zero: bool)
    ensures zero <==> min * 60 + sec == 0
  {
    min == 0 && sec == 0
  }

  predicate ClockIsRunning(min: byte, sec: byte, unchangedMs: nat) {
    !IsZero(min, sec) && unchangedMs < STOPPED_AFTER_MS
  }

  predicate StartStopPulseNeeded(effectiveRunning: bool, want: Option<bool>) {
    match want
    case Some(w) => w != effectiveRunning
    case None => true
  }

  function ResolvePendingRunning(pending: Option<bool>, uartRunning: bool, pendingAgeMs: nat): Option<bool> {
    if pending.Some? && pending.value != uartRunning && pendingAgeMs < STOPPED_AFTER_MS then pending else None
  }
}
