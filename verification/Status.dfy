/** Battery telemetry and its frames: can/encoder.py and can/decoder.py. */
module Status {
  import opened Wrappers
  import opened Bytes
  import opened Can

  /** A 32-bit float, kept as its four little-endian bytes. */
  type Float32 = b: bytes | |b| == 4 witness [0, 0, 0, 0]

  datatype BatteryStatus = BatteryStatus(
    counter: int,
    voltage: Float32,
    current: Float32,
    temperature: Float32,
    soc: int,
    soh: int,
    faultFlags: int)

  /** The one error of `struct.pack` and `struct.unpack`. */
  datatype CodecError = StructError

  /** `struct.pack` refuses integers that do not fit their field. */
  predicate Encodable(s: BatteryStatus) {
    && 0 <= s.counter < 0x1_0000_0000
    && 0 <= s.soc < 256 && 0 <= s.soh < 256 && 0 <= s.faultFlags < 256
  }

  lemma {:induction false} FourBytes()
    ensures Power256(4) == 0x1_0000_0000
  {
    assert Power256(3) == 256 * Power256(2);
  }

  // ---------- The single 19-byte frame, "IfffBBB" ----------

  const STATUS_LEN := 19

  function EncodeStatus(s: BatteryStatus): Result<CANMessage, CodecError> {
    if !Encodable(s) then Err(StructError)
    else Ok(CANMessage(BATTERY_STATUS,
                       Le(s.counter, 4) + s.voltage + s.current + s.temperature + [s.soc, s.soh, s.faultFlags]))
  }

  function DecodeStatus(m: CANMessage): Result<BatteryStatus, CodecError> {
    var d := m.data;
    if |d| != STATUS_LEN then Err(StructError)
    else Ok(BatteryStatus(FromLe(d[..4]), d[4..8], d[8..12], d[12..16], d[16], d[17], d[18]))
  }

  // ---------- The three classic CAN frames ----------

  function EncodeStatusA(s: BatteryStatus): Result<CANMessage, CodecError> {
    if !Encodable(s) then Err(StructError)
    else Ok(CANMessage(BATTERY_STATUS_A, Le(s.counter, 4) + [s.soc, s.soh, s.faultFlags, 0]))
  }

  function EncodeStatusB(s: BatteryStatus): CANMessage {
    CANMessage(BATTERY_STATUS_B, s.voltage + s.current)
  }

  function EncodeStatusC(s: BatteryStatus): CANMessage {
    CANMessage(BATTERY_STATUS_C, s.temperature + Zeros(4))
  }

  datatype PartA = PartA(counter: int, soc: int, soh: int, faultFlags: int)

  datatype PartB = PartB(voltage: Float32, current: Float32)

  function DecodeStatusA(m: CANMessage): Result<PartA, CodecError> {
    if |m.data| != 8 then Err(StructError)
    else Ok(PartA(FromLe(m.data[..4]), m.data[4], m.data[5], m.data[6]))
  }

  function DecodeStatusB(m: CANMessage): Result<PartB, CodecError> {
    if |m.data| != 8 then Err(StructError) else Ok(PartB(m.data[..4], m.data[4..]))
  }

  /** Only the first four bytes are read, so four are enough. */
  function DecodeStatusC(m: CANMessage): Result<Float32, CodecError> {
    if |m.data| < 4 then Err(StructError) else Ok(m.data[..4])
  }

  function StatusFromFrames(a: CANMessage, b: CANMessage, c: CANMessage): Result<BatteryStatus, CodecError> {
    var pa, pb, pc := DecodeStatusA(a), DecodeStatusB(b), DecodeStatusC(c);
    if pa.Err? || pb.Err? || pc.Err? then Err(StructError)
    else Ok(BatteryStatus(pa.value.counter, pb.value.voltage, pb.value.current, pc.value,
                          pa.value.soc, pa.value.soh, pa.value.faultFlags))
  }

  // ---------- Round trips ----------

  /** Both encodings are lossless on every status that can be encoded at all. */
  lemma {:induction false} StatusRoundTrip(s: BatteryStatus)
    requires Encodable(s)
    ensures DecodeStatus(EncodeStatus(s).value) == Ok(s)
    ensures StatusFromFrames(EncodeStatusA(s).value, EncodeStatusB(s), EncodeStatusC(s)) == Ok(s)
  {
    FourBytes();
    LeRoundTrip(s.counter, 4);
    var d := EncodeStatus(s).value.data;
    assert d[..4] == Le(s.counter, 4) && d[4..8] == s.voltage && d[8..12] == s.current && d[12..16] == s.temperature;
    var a, b, c := EncodeStatusA(s).value.data, EncodeStatusB(s).data, EncodeStatusC(s).data;
    assert a[..4] == Le(s.counter, 4) && b[..4] == s.voltage && b[4..] == s.current && c[..4] == s.temperature;
  }

  /** Every 19-byte status frame is the encoding of exactly what it decodes to. */
  lemma {:induction false} DecodedReencodes(m: CANMessage)
    requires m.arbitrationId == 0x200 && |m.data| == 19
    ensures Encodable(DecodeStatus(m).value) && EncodeStatus(DecodeStatus(m).value) == Ok(m)
  {
    var d := m.data;
    FourBytes();
    FromLeBounded(d[..4]);
    FromLeRoundTrip(d[..4]);
    assert d == d[..4] + d[4..8] + d[8..12] + d[12..16] + [d[16], d[17], d[18]];
  }

  // ---------- The frames, byte by byte ----------

  /** A status from bytes: its counter is the number the four bytes k stand for. */
  ghost predicate ReadFrom(s: BatteryStatus, k: Float32, v: Float32, i: Float32, t: Float32, soc: byte, soh: byte, fault: byte) {
    && s.counter == k[0] + 0x100 * k[1] + 0x1_0000 * k[2] + 0x100_0000 * k[3] as int
    && s.voltage == v && s.current == i && s.temperature == t && s.soc == soc && s.soh == soh && s.faultFlags == fault
  }

  /** The 19 bytes, in their order, are read and written; nothing else can be read. */
  lemma {:induction false} StatusInBytes(k: Float32, v: Float32, i: Float32, t: Float32, soc: byte, soh: byte, fault: byte)
    ensures var m := CANMessage(0x200, k + v + i + t + [soc, soh, fault]);
            && DecodeStatus(m).Ok? && ReadFrom(DecodeStatus(m).value, k, v, i, t, soc, soh, fault)
            && forall s :: ReadFrom(s, k, v, i, t, soc, soh, fault) ==> EncodeStatus(s) == Ok(m)
    ensures forall m: CANMessage :: DecodeStatus(m) == Err(StructError) <==> |m.data| != 19
  {
    var m := CANMessage(0x200, k + v + i + t + [soc, soh, fault]);
    var d := m.data;
    assert d[..4] == k && d[4..8] == v && d[8..12] == i && d[12..16] == t;
    FromLeOfFour(k);
    DecodedReencodes(m);
    forall s | ReadFrom(s, k, v, i, t, soc, soh, fault) ensures EncodeStatus(s) == Ok(m) {
      assert s == DecodeStatus(m).value;
    }
  }

  /** The three frames of a round, likewise; what the reserved bytes hold does not matter, and zeros are sent in them. */
  lemma {:induction false} RoundInBytes(k: Float32, v: Float32, i: Float32, t: Float32, soc: byte, soh: byte, fault: byte,
                                        reserved: byte, tail: Float32)
    ensures var s := StatusFromFrames(CANMessage(0x200, k + [soc, soh, fault, reserved]), CANMessage(0x201, v + i),
                                      CANMessage(0x202, t + tail));
            s.Ok? && ReadFrom(s.value, k, v, i, t, soc, soh, fault)
    ensures forall s :: ReadFrom(s, k, v, i, t, soc, soh, fault) ==>
              && EncodeStatusA(s) == Ok(CANMessage(0x200, k + [soc, soh, fault, 0]))
              && EncodeStatusB(s) == CANMessage(0x201, v + i) && EncodeStatusC(s) == CANMessage(0x202, t + [0, 0, 0, 0])
  {
    var a, b, c := k + [soc, soh, fault, reserved], v + i, t + tail;
    assert a[..4] == k && b[..4] == v && b[4..] == i && c[..4] == t;
    FromLeOfFour(k);
    FourBytes();
    FromLeBounded(k);
    FromLeRoundTrip(k);
    forall s | ReadFrom(s, k, v, i, t, soc, soh, fault)
      ensures EncodeStatusA(s) == Ok(CANMessage(0x200, k + [soc, soh, fault, 0]))
    {
      assert s.counter == FromLe(k);
    }
  }

  /** Which rounds cannot be read: the third frame may have any length from four bytes on. */
  lemma {:induction false} RoundRefused(a: CANMessage, b: CANMessage, c: CANMessage)
    ensures StatusFromFrames(a, b, c) == Err(StructError) <==> |a.data| != 8 || |b.data| != 8 || |c.data| < 4
  {
  }
}
