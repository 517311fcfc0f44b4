/**
 The handshake of integration/orchestrator.py over a bus on which anything may happen: before every receive an
 attacker replaces the whole queue by whatever it likes - dropping, altering, injecting or reordering frames.
 */
module Orchestrator {
  import opened Wrappers
  import opened Bytes
  import opened Can
  import opened Crypto
  import opened Challenge
  import opened Nodes
  import SM = StateMachine

  /** protocol/session_manager.py */
  class SessionManager {
    var sessions: map<bytes, bytes>

    constructor ()
      ensures sessions == map[]
    {
      sessions := map[];
    }

    method AddSession(sessionId: bytes, batteryId: bytes)
      modifies this
      ensures sessions == old(sessions)[sessionId := batteryId]
    {
      sessions := sessions[sessionId := batteryId];
    }

    predicate SessionExists(sessionId: bytes)
      reads this
    {
      sessionId in sessions
    }

    function GetBattery(sessionId: bytes): Option<bytes>
      reads this
    {
      if sessionId in sessions then Some(sessions[sessionId]) else None
    }
  }

  /** The attacker's move before receive number `step`. */
  type Attacker = (nat, seq<CANMessage>) -> seq<CANMessage>

  /** Everything a run takes from outside: keys, dates, randomness, the clock, the library, and the attacker. */
  datatype Scenario = Scenario(
    lib: Library,
    rootKey: PrivateKey,
    batteryKey: PrivateKey,
    issueDate: bytes,
    expiryDate: bytes,
    nonce: bytes,
    timestamp: int,
    sessionId: bytes,
    attacker: Attacker)

  /** "BAT001" */
  const BATTERY_ID: bytes := [66, 65, 84, 48, 48, 49]

  /** "BATTLOCK" */
  const MANUFACTURER_ID: bytes := [66, 65, 84, 84, 76, 79, 67, 75]

  /** "AUTH" */
  const AUTH: bytes := [65, 85, 84, 72]

  function IssuedCertificate(sc: Scenario): Certificate {
    var key := sc.lib.serializeKey(sc.lib.publicKeyOf(sc.batteryKey));
    CreateCertificate(sc.lib, sc.rootKey, Certificate(BATTERY_ID, MANUFACTURER_ID, key, sc.issueDate, sc.expiryDate, []))
  }

  function ChallengeOf(sc: Scenario): bytes {
    ChallengeBytes(sc.nonce, sc.timestamp)
  }

  /** How a run ends: an exception, an early return, a refused signature, or an active session. */
  datatype Ending = Raised | Aborted | Denied | Established

  /** What the run received, as far as it got; and how it left the state machine and the sessions. */
  datatype Outcome = Outcome(
    ending: Ending,
    state: SM.ConnectionState,
    sessions: map<bytes, bytes>,
    certificate: Option<CANMessage>,
    challenge: Option<CANMessage>,
    signature: Option<CANMessage>,
    session: Option<CANMessage>)

  // ---------- The run as a function ----------

  /** The queue the receiver finds after this side sent a frame and the attacker moved. */
  function Tampered(sc: Scenario, step: nat, queue: seq<CANMessage>, sent: CANMessage): seq<CANMessage> {
    sc.attacker(step, QueueAfter(queue, SendOp(sent)))
  }

  function CertificateQueue(sc: Scenario): seq<CANMessage> {
    var q0 := QueueAfter(Tampered(sc, 0, [], CANMessage(AUTH_REQUEST, AUTH)), ReceiveOp);
    Tampered(sc, 1, q0, CANMessage(CERTIFICATE, sc.lib.encodeCertificate(IssuedCertificate(sc))))
  }

  function ChallengeQueue(sc: Scenario): seq<CANMessage> {
    Tampered(sc, 2, QueueAfter(CertificateQueue(sc), ReceiveOp), CANMessage(NONCE, ChallengeOf(sc)))
  }

  function SignatureQueue(sc: Scenario, challenge: CANMessage): seq<CANMessage> {
    Tampered(sc, 3, QueueAfter(ChallengeQueue(sc), ReceiveOp),
             CANMessage(SIGNATURE, sc.lib.sign(sc.batteryKey, challenge.data)))
  }

  function SessionQueue(sc: Scenario, challenge: CANMessage): seq<CANMessage> {
    Tampered(sc, 4, QueueAfter(SignatureQueue(sc, challenge), ReceiveOp), CANMessage(SESSION_ID, sc.sessionId))
  }

  /** Phases 6 to 8: the certificate is received and checked. Aborted here means it was not accepted, Established that it was. */
  function CertificatePhase(sc: Scenario, state: SM.ConnectionState, sessions: map<bytes, bytes>): Outcome {
    var received := Front(CertificateQueue(sc));
    var start := Outcome(Raised, state, sessions, received, None, None, None);
    if received.None? then start
    else if !SM.Moves(state, SM.Hello) then start.(ending := Aborted)
    else
      var hello := start.(state := SM.Next(state, SM.Hello));
      match sc.lib.decodeCertificate(received.value.data)
      case None => hello
      case Some(c) =>
        match VerifyCertificate(sc.lib, c, sc.lib.publicKeyOf(sc.rootKey))
        case None => hello
        case Some(false) => hello.(ending := Aborted)
        case Some(true) => hello.(ending := Established, state := SM.Next(hello.state, SM.Certificate))
  }

  /** The key in a certificate frame. */
  function KeyIn(sc: Scenario, m: CANMessage): Option<PublicKey> {
    match sc.lib.decodeCertificate(m.data)
    case None => None
    case Some(c) => sc.lib.loadKey(c.publicKey)
  }

  /** The end of phase 11, given that the signature was accepted. */
  function SessionPhase(sc: Scenario, signed: Outcome, challenge: CANMessage): Outcome {
    var session := Front(SessionQueue(sc, challenge));
    var stored := signed.(state := SM.Next(signed.state, SM.Authenticate),
                          sessions := signed.sessions[sc.sessionId := BATTERY_ID], session := session);
    if session.None? || !sc.lib.isText(session.value.data) then stored
    else stored.(ending := Established, state := SM.Next(stored.state, SM.Session))
  }

  /** Phase 9 on, given that the certificate was accepted. */
  function ChallengePhase(sc: Scenario, o: Outcome): Outcome
    requires o.certificate.Some?
  {
    var challenge := Front(ChallengeQueue(sc));
    var sent := o.(ending := Raised, state := SM.Next(o.state, SM.Challenge), challenge := challenge);
    if challenge.None? then sent
    else
      var signature := Front(SignatureQueue(sc, challenge.value));
      var signed := sent.(signature := signature);
      if signature.None? then signed
      else
        match KeyIn(sc, o.certificate.value)
        case None => signed
        case Some(key) =>
          if !sc.lib.verify(key, ChallengeOf(sc), signature.value.data) then signed.(ending := Denied)
          else SessionPhase(sc, signed, challenge.value)
  }

  function Run(sc: Scenario, state: SM.ConnectionState, sessions: map<bytes, bytes>): Outcome {
    var o := CertificatePhase(sc, state, sessions);
    if o.ending == Established then ChallengePhase(sc, o) else o
  }

  // ---------- The run as the orchestrator performs it ----------

  class BattLockOrchestrator {
    const sessionManager: SessionManager
    const stateMachine: SM.BattLockStateMachine

    constructor ()
      ensures fresh(sessionManager) && fresh(stateMachine)
      ensures sessionManager.sessions == map[] && stateMachine.state == SM.DISCONNECTED
    {
      sessionManager := new SessionManager();
      stateMachine := new SM.BattLockStateMachine();
    }

    /** One frame over the bus: send, let the attacker move, receive. */
    method Exchange(sc: Scenario, bus: CANBus, step: nat, message: CANMessage) returns (r: Option<CANMessage>)
      modifies bus
      ensures r == Front(Tampered(sc, step, old(bus.queue), message))
      ensures bus.queue == QueueAfter(Tampered(sc, step, old(bus.queue), message), ReceiveOp)
    {
      bus.Send(message);
      bus.queue := sc.attacker(step, bus.queue);
      r := bus.Receive();
    }

    /** Phases 6 to 8 of `run`. */
    method ExchangeCertificate(sc: Scenario, bus: CANBus, vehicle: VehicleNode) returns (o: Outcome)
      requires bus.queue == [] && vehicle.rootCaPublicKey == Some(sc.lib.publicKeyOf(sc.rootKey))
      modifies bus, vehicle, stateMachine
      ensures o == CertificatePhase(sc, old(stateMachine.state), sessionManager.sessions)
      ensures stateMachine.state == o.state
      ensures o.ending == Established ==>
                && bus.queue == QueueAfter(CertificateQueue(sc), ReceiveOp)
                && vehicle.storedCertificate == sc.lib.decodeCertificate(o.certificate.value.data)
    {
      var lib := sc.lib;
      var request := Exchange(sc, bus, 0, CANMessage(AUTH_REQUEST, AUTH));
      var certificate := Exchange(sc, bus, 1, CANMessage(CERTIFICATE, lib.encodeCertificate(IssuedCertificate(sc))));
      o := Outcome(Raised, stateMachine.state, sessionManager.sessions, certificate, None, None, None);
      if certificate.None? {
        return;
      }
      var ok := stateMachine.HelloReceived();
      o := o.(state := stateMachine.state);
      if !ok {
        return o.(ending := Aborted);
      }
      var valid := vehicle.ReceiveAndVerifyCertificate(lib, certificate.value);
      if valid.None? {
        return;
      }
      if !valid.value {
        return o.(ending := Aborted);
      }
      ok := stateMachine.CertificateVerified();
      o := o.(state := stateMachine.state);
      if !ok {
        return o.(ending := Aborted);
      }
      return o.(ending := Established);
    }

    /** The end of phase 11, on a bus from which the accepted signature was just received. */
    method EstablishSession(sc: Scenario, bus: CANBus, challenge: CANMessage, signed: Outcome) returns (o: Outcome)
      requires signed.ending == Raised && signed.state == stateMachine.state == SM.CHALLENGE_SENT
      requires signed.sessions == sessionManager.sessions && signed.session.None?
      requires bus.queue == QueueAfter(SignatureQueue(sc, challenge), ReceiveOp)
      modifies bus, stateMachine, sessionManager
      ensures o == SessionPhase(sc, signed, challenge)
      ensures stateMachine.state == o.state && sessionManager.sessions == o.sessions
    {
      var ok := stateMachine.Authenticated();
      o := signed.(state := stateMachine.state);
      if !ok {
        return o.(ending := Aborted);
      }
      sessionManager.AddSession(sc.sessionId, BATTERY_ID);
      var session := Exchange(sc, bus, 4, CANMessage(SESSION_ID, sc.sessionId));
      o := o.(sessions := sessionManager.sessions, session := session);
      if session.None? || !sc.lib.isText(session.value.data) {
        return;
      }
      ok := stateMachine.SessionEstablished();
      o := o.(state := stateMachine.state);
      if !ok {
        return o.(ending := Aborted);
      }
      return o.(ending := Established);
    }

    /** Phases 9 to 11 of `run`: on a certificate accepted in this run. */
    method ExchangeChallenge(sc: Scenario, bus: CANBus, vehicle: VehicleNode, battery: BatteryNode, accepted: Outcome)
      returns (o: Outcome)
      requires accepted.certificate.Some? && accepted.state == stateMachine.state == SM.CERT_VERIFIED
      requires accepted.challenge.None? && accepted.signature.None? && accepted.session.None?
      requires accepted.sessions == sessionManager.sessions
      requires bus.queue == QueueAfter(CertificateQueue(sc), ReceiveOp) && battery.privateKey == sc.batteryKey
      requires vehicle.storedCertificate.Some?
      requires vehicle.storedCertificate == sc.lib.decodeCertificate(accepted.certificate.value.data)
      modifies bus, vehicle, battery, stateMachine, sessionManager
      ensures o == ChallengePhase(sc, accepted)
      ensures stateMachine.state == o.state && sessionManager.sessions == o.sessions
    {
      var nonce := vehicle.SendNonce(sc.nonce, Some(sc.timestamp));
      bus.Send(nonce);
      var ok := stateMachine.ChallengeSent();
      o := accepted.(ending := Raised, state := stateMachine.state);
      if !ok {
        return o.(ending := Aborted);
      }
      bus.queue := sc.attacker(2, bus.queue);
      var challenge := bus.Receive();
      o := o.(challenge := challenge);
      if challenge.None? {
        return;
      }
      var data := battery.ReceiveNonce(challenge.value);
      var response := battery.SignAndRespond(sc.lib);
      var signature := Exchange(sc, bus, 3, response.value);
      o := o.(signature := signature);
      if signature.None? {
        return;
      }
      var valid := vehicle.ReceiveAndVerifySignature(sc.lib, signature.value);
      if valid.None? {
        return;
      }
      if !valid.value {
        return o.(ending := Denied);
      }
      o := EstablishSession(sc, bus, challenge.value, o);
    }

    method RunOnce(sc: Scenario) returns (o: Outcome)
      modifies sessionManager, stateMachine
      ensures o == Run(sc, old(stateMachine.state), old(sessionManager.sessions))
      ensures stateMachine.state == o.state && sessionManager.sessions == o.sessions
    {
      var bus := new CANBus();
      var vehicle := new VehicleNode(Some(sc.lib.publicKeyOf(sc.rootKey)));
      var battery := new BatteryNode(sc.batteryKey);
      o := ExchangeCertificate(sc, bus, vehicle);
      if o.ending == Established {
        o := ExchangeChallenge(sc, bus, vehicle, battery, o);
      }
    }
  }
}
