/** The two ends of the bus: can/simulation/vehicle_node.py and can/simulation/battery_node.py. */
module Nodes {
  import opened Wrappers
  import opened Bytes
  import opened Can
  import opened Status
  import opened Floats
  import opened Crypto
  import opened ReplayGuard
  import opened Challenge

  const OVERVOLTAGE := 0x01
  const UNDERVOLTAGE := 0x02
  const OVERCURRENT := 0x04
  const OVERTEMP := 0x08
  const COMM_ERROR := 0x10
  const AUTH_FAILURE := 0x20

  const VOLTAGE_WARN := 95.0
  const CURRENT_WARN := 450.0
  const TEMPERATURE_WARN := 140.0

  /** What the vehicle reports about a frame; NotTelemetry stands for the frames that carry no status. */
  datatype Verdict =
    | NotTelemetry
    | Malformed
    | ReplayDetected
    | InjectionDetected
    | FaultRaised
    | NearLimits
    | Valid(status: BatteryStatus)

  /** `flags & mask` for a mask of one bit: shift both right until the mask is 1. */
  predicate HasFlag(flags: int, mask: nat)
    decreases mask
  {
    if mask <= 1 then flags % 2 == 1 else HasFlag(flags / 2, mask / 2)
  }

  predicate AnyFault(flags: int) {
    || HasFlag(flags, OVERVOLTAGE) || HasFlag(flags, UNDERVOLTAGE) || HasFlag(flags, OVERCURRENT)
    || HasFlag(flags, OVERTEMP) || HasFlag(flags, COMM_ERROR) || HasFlag(flags, AUTH_FAILURE)
  }

  predicate Injected(s: BatteryStatus) {
    Above(s.voltage, 100.0) || Above(s.current, 500.0) || Above(s.temperature, 150.0)
  }

  predicate Warned(s: BatteryStatus) {
    Above(s.voltage, VOLTAGE_WARN) || Above(s.current, CURRENT_WARN) || Above(s.temperature, TEMPERATURE_WARN)
  }

  predicate IsStatus(m: CANMessage) {
    m.arbitrationId == BATTERY_STATUS && |m.data| == STATUS_LEN
  }

  /** The verdict on one frame by a vehicle whose guard stands at `last`. */
  function VerdictOn(last: int, m: CANMessage): Verdict {
    if m.arbitrationId != BATTERY_STATUS then NotTelemetry
    else match DecodeStatus(m)
         case Err(_) => Malformed
         case Ok(s) =>
           if s.counter <= last then ReplayDetected
           else if Injected(s) then InjectionDetected
           else if AnyFault(s.faultFlags) then FaultRaised
           else if Warned(s) then NearLimits
           else Valid(s)
  }

  /** The guard moves on every decoded status, before the value checks. */
  function GuardAfter(last: int, m: CANMessage): int {
    if IsStatus(m) then LastAfter(last, DecodeStatus(m).value.counter) else last
  }

  class VehicleNode {
    const replay: ReplayProtection
    const rootCaPublicKey: Option<PublicKey>
    var storedCertificate: Option<Certificate>
    var challengeData: Option<bytes>

    constructor (rootCaPublicKey: Option<PublicKey>)
      ensures fresh(replay) && replay.lastCounter == 0
      ensures this.rootCaPublicKey == rootCaPublicKey && storedCertificate == None && challengeData == None
    {
      replay := new ReplayProtection();
      this.rootCaPublicKey := rootCaPublicKey;
      storedCertificate, challengeData := None, None;
    }

    method HandleStatus(message: CANMessage) returns (v: Verdict)
      requires message.arbitrationId == BATTERY_STATUS
      modifies replay
      ensures v == VerdictOn(old(replay.lastCounter), message)
      ensures replay.lastCounter == GuardAfter(old(replay.lastCounter), message)
    {
      if |message.data| != STATUS_LEN {
        return Malformed;
      }
      var decoded := DecodeStatus(message);
      if decoded.Err? {
        return Malformed;
      }
      var status := decoded.value;
      var isFresh := replay.Validate(status.counter);
      if !isFresh {
        return ReplayDetected;
      }
      if Above(status.voltage, 100.0) || Above(status.current, 500.0) || Above(status.temperature, 150.0) {
        return InjectionDetected;
      }
      if AnyFault(status.faultFlags) {
        return FaultRaised;
      }
      if Above(status.voltage, VOLTAGE_WARN) || Above(status.current, CURRENT_WARN) || Above(status.temperature, TEMPERATURE_WARN) {
        return NearLimits;
      }
      return Valid(status);
    }

    method Receive(message: CANMessage) returns (v: Verdict)
      modifies replay
      ensures v == VerdictOn(old(replay.lastCounter), message)
      ensures replay.lastCounter == GuardAfter(old(replay.lastCounter), message)
    {
      if message.arbitrationId == BATTERY_STATUS {
        v := HandleStatus(message);
      } else {
        v := NotTelemetry;
      }
    }

    /** None if decoding or date parsing raises; the certificate is stored as soon as it is decoded. */
    method ReceiveAndVerifyCertificate(lib: Library, message: CANMessage) returns (valid: Option<bool>)
      modifies this
      ensures challengeData == old(challengeData)
      ensures storedCertificate == if lib.decodeCertificate(message.data).Some? then lib.decodeCertificate(message.data)
                                   else old(storedCertificate)
      ensures valid == match lib.decodeCertificate(message.data)
                       case None => None
                       case Some(c) => if rootCaPublicKey.None? then Some(false)
                                       else VerifyCertificate(lib, c, rootCaPublicKey.value)
    {
      var certificate := lib.decodeCertificate(message.data);
      if certificate.None? {
        return None;
      }
      storedCertificate := certificate;
      if rootCaPublicKey.None? {
        return Some(false);
      }
      valid := VerifyCertificate(lib, certificate.value, rootCaPublicKey.value);
    }

    method SendNonce(nonce: bytes, timestamp: Option<int>) returns (m: CANMessage)
      modifies this
      ensures storedCertificate == old(storedCertificate)
      ensures m.arbitrationId == NONCE && challengeData == Some(m.data)
      ensures m.data == if timestamp.Some? then ChallengeBytes(nonce, timestamp.value) else nonce
    {
      var data := if timestamp.Some? then nonce + Decimal(timestamp.value) else nonce;
      challengeData := Some(data);
      m := CANMessage(NONCE, data);
    }

    /** None if the certificate's key does not load. */
    method ReceiveAndVerifySignature(lib: Library, message: CANMessage) returns (valid: Option<bool>)
      ensures storedCertificate.None? || challengeData.None? ==> valid == Some(false)
      ensures storedCertificate.Some? && challengeData.Some? ==>
                match lib.loadKey(storedCertificate.value.publicKey)
                case None => valid == None
                case Some(key) => valid == Some(lib.verify(key, challengeData.value, message.data))
    {
      if storedCertificate.None? {
        return Some(false);
      }
      if challengeData.None? {
        return Some(false);
      }
      var key := lib.loadKey(storedCertificate.value.publicKey);
      if key.None? {
        return None;
      }
      valid := Some(lib.verify(key.value, challengeData.value, message.data));
    }
  }

  /** The fixed telemetry of the simulated battery: 51.2 V, 12.4 A, 30 degrees, as binary32. */
  function SimulatedStatus(counter: int): BatteryStatus {
    BatteryStatus(counter, [205, 204, 76, 66], [102, 102, 70, 65], [0, 0, 240, 65], 85, 98, 0)
  }

  class BatteryNode {
    const privateKey: PrivateKey
    const counter: MessageCounter
    var storedChallengeData: Option<bytes>

    constructor (privateKey: PrivateKey)
      ensures this.privateKey == privateKey && storedChallengeData == None
      ensures fresh(counter) && counter.counter == 0
    {
      this.privateKey := privateKey;
      counter := new MessageCounter();
      storedChallengeData := None;
    }

    method SendStatus() returns (r: Result<CANMessage, CodecError>)
      modifies counter
      ensures counter.counter == old(counter.counter) + 1
      ensures r == EncodeStatus(SimulatedStatus(counter.counter))
    {
      var n := counter.Next();
      r := EncodeStatus(SimulatedStatus(n));
    }

    method ReceiveNonce(message: CANMessage) returns (data: bytes)
      modifies this
      ensures data == message.data && storedChallengeData == Some(data)
    {
      data := message.data;
      storedChallengeData := Some(data);
    }

    /** None for the RuntimeError raised when no challenge has been received. */
    method SignAndRespond(lib: Library) returns (m: Option<CANMessage>)
      ensures m == if storedChallengeData.None? then None
                   else Some(CANMessage(SIGNATURE, lib.sign(privateKey, storedChallengeData.value)))
    {
      if storedChallengeData.None? {
        return None;
      }
      m := Some(CANMessage(SIGNATURE, lib.sign(privateKey, storedChallengeData.value)));
    }
  }
}
