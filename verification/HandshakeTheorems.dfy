/** Safety of the handshake against every attacker, over any number of runs; and its success when nobody interferes. */
module HandshakeTheorems {
  import opened Wrappers
  import opened Bytes
  import opened Can
  import opened Crypto
  import opened Challenge
  import opened Orchestrator
  import opened Sequences
  import opened ExampleLibrary
  import SM = StateMachine

  // ---------- One run ----------

  /** The frame holds an unexpired certificate that verifies under the run's root key. */
  ghost predicate CertificateAccepted(sc: Scenario, m: CANMessage) {
    exists c ::
      && sc.lib.decodeCertificate(m.data) == Some(c)
      && sc.lib.expired(c) == Some(false)
      && sc.lib.verify(sc.lib.publicKeyOf(sc.rootKey), SignedData(c), c.signature)
  }

  /** The signature frame verifies, under the key in the certificate frame, over exactly the challenge that was sent. */
  ghost predicate SignatureAccepted(sc: Scenario, certificate: CANMessage, signature: CANMessage) {
    exists key :: KeyIn(sc, certificate) == Some(key) && sc.lib.verify(key, ChallengeOf(sc), signature.data)
  }

  /** What has to happen in a run before the vehicle may trust the battery. */
  ghost predicate Authentic(sc: Scenario, o: Outcome) {
    && o.certificate.Some? && o.challenge.Some? && o.signature.Some?
    && CertificateAccepted(sc, o.certificate.value)
    && SignatureAccepted(sc, o.certificate.value, o.signature.value)
  }

  predicate Trusting(state: SM.ConnectionState) {
    state in {SM.AUTHENTICATED, SM.ACTIVE_SESSION}
  }

  lemma {:induction false} CertificatePhaseSound(sc: Scenario, state: SM.ConnectionState, sessions: map<bytes, bytes>)
    ensures var o := CertificatePhase(sc, state, sessions);
            && o.sessions == sessions && o.challenge == None && o.signature == None && o.session == None
            && o.certificate == Front(CertificateQueue(sc)) && o.ending != Denied
            && (o.ending == Established <==>
                state == SM.DISCONNECTED && o.certificate.Some? && CertificateAccepted(sc, o.certificate.value))
            && (o.ending == Established ==> o.state == SM.CERT_VERIFIED)
            && (o.ending != Established ==> o.state == state || (state == SM.DISCONNECTED && o.state == SM.HELLO_RECEIVED))
  {
    var received := Front(CertificateQueue(sc));
    if received.Some? {
      var decoded := sc.lib.decodeCertificate(received.value.data);
      assert decoded.Some? ==> (CertificateAccepted(sc, received.value) <==>
                                VerifyCertificate(sc.lib, decoded.value, sc.lib.publicKeyOf(sc.rootKey)) == Some(true));
    }
  }

  /**
   Against every attacker: a run reaches a trusting state, or stores a session, exactly when it began disconnected
   and was authentic; the session it stores is then its own. It ends in an active session exactly when, besides,
   the session frame came back readable.
   */
  lemma {:induction false} RunIsSafe(sc: Scenario, state: SM.ConnectionState, sessions: map<bytes, bytes>)
    ensures var o := Run(sc, state, sessions);
            && (o.ending == Established <==>
                state == SM.DISCONNECTED && Authentic(sc, o) && o.session.Some? && sc.lib.isText(o.session.value.data))
            && (o.ending == Established ==> o.state == SM.ACTIVE_SESSION)
            && (state == SM.DISCONNECTED ==> (Trusting(o.state) <==> Authentic(sc, o)))
            && (state == SM.DISCONNECTED ==>
                o.sessions == if Authentic(sc, o) then sessions[sc.sessionId := BATTERY_ID] else sessions)
            && (state != SM.DISCONNECTED ==> o.state == state && o.sessions == sessions)
  {
    CertificatePhaseSound(sc, state, sessions);
    var o := CertificatePhase(sc, state, sessions);
    if o.ending == Established {
      var r := ChallengePhase(sc, o);
      assert r.certificate == o.certificate;
      if r.signature.Some? {
        assert SignatureAccepted(sc, r.certificate.value, r.signature.value) <==>
               KeyIn(sc, r.certificate.value).Some? &&
               sc.lib.verify(KeyIn(sc, r.certificate.value).value, ChallengeOf(sc), r.signature.value.data);
      }
    }
  }

  /** A corollary: where a run that began disconnected leaves the machine. */
  lemma {:induction false} FinalState(sc: Scenario, sessions: map<bytes, bytes>)
    ensures var o := Run(sc, SM.DISCONNECTED, sessions);
            o.state ==
            if o.certificate.None? then SM.DISCONNECTED
            else if !CertificateAccepted(sc, o.certificate.value) then SM.HELLO_RECEIVED
            else if !Authentic(sc, o) then SM.CHALLENGE_SENT
            else if o.session.None? || !sc.lib.isText(o.session.value.data) then SM.AUTHENTICATED
            else SM.ACTIVE_SESSION
  {
    CertificatePhaseSound(sc, SM.DISCONNECTED, sessions);
    RunIsSafe(sc, SM.DISCONNECTED, sessions);
    assert Run(sc, SM.DISCONNECTED, sessions).certificate == Front(CertificateQueue(sc));
  }

  /** The frame does not hold a certificate, or one whose expiry date does not parse. */
  ghost predicate CertificateUnreadable(sc: Scenario, m: CANMessage) {
    match sc.lib.decodeCertificate(m.data)
    case None => true
    case Some(c) => sc.lib.expired(c) == None
  }

  /** It holds one that has expired or does not verify under the root key. */
  ghost predicate CertificateRefused(sc: Scenario, m: CANMessage) {
    match sc.lib.decodeCertificate(m.data)
    case None => false
    case Some(c) =>
      || sc.lib.expired(c) == Some(true)
      || (sc.lib.expired(c) == Some(false) && !sc.lib.verify(sc.lib.publicKeyOf(sc.rootKey), SignedData(c), c.signature))
  }

  lemma {:induction false} CertificateIsOneOfThree(sc: Scenario, m: CANMessage)
    ensures CertificateAccepted(sc, m) <==> !CertificateUnreadable(sc, m) && !CertificateRefused(sc, m)
    ensures !(CertificateUnreadable(sc, m) && CertificateRefused(sc, m))
  {
    match sc.lib.decodeCertificate(m.data)
    case None =>
    case Some(c) =>
      assert CertificateAccepted(sc, m) <==> VerifyCertificate(sc.lib, c, sc.lib.publicKeyOf(sc.rootKey)) == Some(true) by {
        if VerifyCertificate(sc.lib, c, sc.lib.publicKeyOf(sc.rootKey)) == Some(true) {
          assert sc.lib.verify(sc.lib.publicKeyOf(sc.rootKey), SignedData(c), c.signature);
        }
      }
  }

  /** Which failure ends a run how: an early return, a refused signature, or an exception. */
  lemma {:induction false} EndingExactlyWhen(sc: Scenario, state: SM.ConnectionState, sessions: map<bytes, bytes>)
    ensures var o := Run(sc, state, sessions);
            var accepted := state == SM.DISCONNECTED && o.certificate.Some? && CertificateAccepted(sc, o.certificate.value);
            && (o.ending == Aborted <==>
                o.certificate.Some? && (state != SM.DISCONNECTED || CertificateRefused(sc, o.certificate.value)))
            && (o.ending == Denied <==>
                && accepted && o.challenge.Some? && o.signature.Some? && KeyIn(sc, o.certificate.value).Some?
                && !SignatureAccepted(sc, o.certificate.value, o.signature.value))
            && (o.ending == Raised <==>
                || o.certificate.None?
                || (state == SM.DISCONNECTED && CertificateUnreadable(sc, o.certificate.value))
                || (accepted && (o.challenge.None? || o.signature.None? || KeyIn(sc, o.certificate.value).None?))
                || (accepted && Authentic(sc, o) && (o.session.None? || !sc.lib.isText(o.session.value.data))))
  {
    CertificatePhaseSound(sc, state, sessions);
    RunIsSafe(sc, state, sessions);
    var o := Run(sc, state, sessions);
    if o.certificate.Some? {
      CertificateIsOneOfThree(sc, o.certificate.value);
      if o.signature.Some? {
        assert SignatureAccepted(sc, o.certificate.value, o.signature.value) <==>
               KeyIn(sc, o.certificate.value).Some? &&
               sc.lib.verify(KeyIn(sc, o.certificate.value).value, ChallengeOf(sc), o.signature.value.data);
      }
    }
  }

  // ---------- Any number of runs ----------

  /** How an orchestrator stands between runs. */
  datatype Standing = Standing(state: SM.ConnectionState, sessions: map<bytes, bytes>)

  function After(runs: seq<Scenario>): Standing {
    if runs == [] then Standing(SM.DISCONNECTED, map[])
    else
      var before := After(Init(runs));
      var o := Run(Last(runs), before.state, before.sessions);
      Standing(o.state, o.sessions)
  }

  function OutcomeAt(runs: seq<Scenario>, i: nat): Outcome
    requires i < |runs|
  {
    Run(runs[i], After(runs[..i]).state, After(runs[..i]).sessions)
  }

  ghost predicate WonAt(runs: seq<Scenario>, i: nat) {
    i < |runs| && After(runs[..i]).state == SM.DISCONNECTED && Authentic(runs[i], OutcomeAt(runs, i))
  }

  lemma {:induction false} WonEarlier(runs: seq<Scenario>, i: nat)
    requires runs != [] && WonAt(Init(runs), i)
    ensures WonAt(runs, i) && runs[i] == Init(runs)[i]
  {
    assert Init(runs)[..i] == runs[..i];
  }

  /** The state is trusting exactly when a session is stored; and that is the session of one run, which was authentic. */
  ghost predicate Accounted(runs: seq<Scenario>) {
    var now := After(runs);
    if Trusting(now.state) then exists i: nat :: WonAt(runs, i) && now.sessions == map[runs[i].sessionId := BATTERY_ID]
    else now.sessions == map[]
  }

  /** What the latest run did. */
  lemma {:induction false} AfterLast(runs: seq<Scenario>, n: nat)
    requires |runs| == n + 1
    ensures After(runs[..n]).state != SM.DISCONNECTED ==> After(runs) == After(runs[..n])
    ensures After(runs[..n]).state == SM.DISCONNECTED ==>
              && (Trusting(After(runs).state) <==> WonAt(runs, n))
              && After(runs).sessions == if WonAt(runs, n) then After(runs[..n]).sessions[runs[n].sessionId := BATTERY_ID]
                                         else After(runs[..n]).sessions
  {
    var before := After(runs[..n]);
    assert Init(runs) == runs[..n];
    RunIsSafe(runs[n], before.state, before.sessions);
  }

  lemma {:induction false} AllAccounted(runs: seq<Scenario>)
    ensures Accounted(runs)
  {
    if runs != [] {
      var g, n := Init(runs), |runs| - 1;
      assert g == runs[..n];
      AllAccounted(g);
      AfterLast(runs, n);
      if Trusting(After(g).state) {
        var i: nat :| WonAt(g, i) && After(g).sessions == map[g[i].sessionId := BATTERY_ID];
        WonEarlier(runs, i);
      } else if WonAt(runs, n) {
        assert After(runs).sessions == map[][runs[n].sessionId := BATTERY_ID] == map[runs[n].sessionId := BATTERY_ID];
      }
    }
  }

  /**
   Whatever the attackers do over any number of runs of one orchestrator: at most one session is ever stored; one
   is stored exactly when the state is trusting; and then it comes from one run, which was authentic.
   */
  lemma {:induction false} AtMostOneSession(runs: seq<Scenario>)
    ensures |After(runs).sessions| <= 1
    ensures Trusting(After(runs).state) <==> After(runs).sessions != map[]
    ensures Trusting(After(runs).state) ==>
              exists i: nat :: WonAt(runs, i) && After(runs).sessions == map[runs[i].sessionId := BATTERY_ID]
  {
    AllAccounted(runs);
    if Trusting(After(runs).state) {
      var i: nat :| WonAt(runs, i) && After(runs).sessions == map[runs[i].sessionId := BATTERY_ID];
      assert runs[i].sessionId in After(runs).sessions;
    }
  }

  /** Once a run has left DISCONNECTED, no later run changes anything: nothing in `run` ever resets the machine. */
  lemma {:induction false} FirstStepIsFinal(runs: seq<Scenario>, k: nat)
    requires k <= |runs| && After(runs[..k]).state != SM.DISCONNECTED
    ensures After(runs) == After(runs[..k])
    decreases |runs|
  {
    if k < |runs| {
      assert Init(runs)[..k] == runs[..k];
      FirstStepIsFinal(Init(runs), k);
      RunIsSafe(Last(runs), After(Init(runs)).state, After(Init(runs)).sessions);
    } else {
      assert runs[..k] == runs;
    }
  }

  /** Once a run has won, its session is the one stored. */
  lemma {:induction false} WinnersSession(runs: seq<Scenario>, i: nat)
    requires WonAt(runs, i)
    ensures After(runs).sessions == map[runs[i].sessionId := BATTERY_ID]
  {
    var upTo := runs[..i + 1];
    assert upTo[..i] == runs[..i] && WonAt(upTo, i);
    AllAccounted(runs[..i]);
    AfterLast(upTo, i);
    FirstStepIsFinal(runs, i + 1);
  }

  /** What the session manager knows after these runs: the session of the run that won, with battery "BAT001". */
  lemma {:induction false} SessionsExactlyWhen(manager: SessionManager, runs: seq<Scenario>, sessionId: bytes)
    requires manager.sessions == After(runs).sessions
    ensures manager.SessionExists(sessionId) <==> exists i: nat :: WonAt(runs, i) && runs[i].sessionId == sessionId
    ensures manager.GetBattery(sessionId) == if manager.SessionExists(sessionId) then Some([66, 65, 84, 48, 48, 49]) else None
  {
    AtMostOneSession(runs);
    if manager.SessionExists(sessionId) {
      var i: nat :| WonAt(runs, i) && After(runs).sessions == map[runs[i].sessionId := BATTERY_ID];
      assert runs[i].sessionId == sessionId;
    }
    if i: nat :| WonAt(runs, i) && runs[i].sessionId == sessionId {
      WinnersSession(runs, i);
    }
  }

  // ---------- Nobody interferes ----------

  ghost predicate Honest(attacker: Attacker) {
    forall step, queue :: attacker(step, queue) == queue
  }

  /** On a faithful bus every frame arrives as it was sent; the battery signs the very bytes the vehicle stored. */
  lemma {:induction false} HonestTranscript(sc: Scenario)
    requires Honest(sc.attacker)
    ensures CertificateQueue(sc) == [CANMessage(CERTIFICATE, sc.lib.encodeCertificate(IssuedCertificate(sc)))]
    ensures ChallengeQueue(sc) == [CANMessage(NONCE, ChallengeOf(sc))]
    ensures SignatureQueue(sc, CANMessage(NONCE, ChallengeOf(sc))) ==
            [CANMessage(SIGNATURE, sc.lib.sign(sc.batteryKey, ChallengeOf(sc)))]
    ensures SessionQueue(sc, CANMessage(NONCE, ChallengeOf(sc))) == [CANMessage(SESSION_ID, sc.sessionId)]
  {
  }

  /** With a lawful library, an unexpired certificate and no interference, a new orchestrator reaches an active session. */
  lemma {:induction false} HonestRunSucceeds(sc: Scenario, sessions: map<bytes, bytes>)
    requires Lawful(sc.lib) && Honest(sc.attacker)
    requires sc.lib.expired(IssuedCertificate(sc)) == Some(false) && sc.lib.isText(sc.sessionId)
    ensures var o := Run(sc, SM.DISCONNECTED, sessions);
            o.ending == Established && o.state == SM.ACTIVE_SESSION && o.sessions == sessions[sc.sessionId := BATTERY_ID]
  {
    var c := IssuedCertificate(sc);
    var key := sc.lib.publicKeyOf(sc.batteryKey);
    HonestTranscript(sc);
    var unsigned := Certificate(BATTERY_ID, MANUFACTURER_ID, sc.lib.serializeKey(key), sc.issueDate, sc.expiryDate, []);
    IssuedCertificateVerifies(sc.lib, sc.rootKey, unsigned);
    assert sc.lib.decodeCertificate(sc.lib.encodeCertificate(c)) == Some(c);
    assert sc.lib.loadKey(c.publicKey) == Some(key);
    assert sc.lib.verify(key, ChallengeOf(sc), sc.lib.sign(sc.batteryKey, ChallengeOf(sc)));
  }

  /** What an undisturbed run receives. */
  lemma {:induction false} HonestOutcome(sc: Scenario, sessions: map<bytes, bytes>)
    requires Lawful(sc.lib) && Honest(sc.attacker)
    requires sc.lib.expired(IssuedCertificate(sc)) == Some(false) && sc.lib.isText(sc.sessionId)
    ensures var o := Run(sc, SM.DISCONNECTED, sessions);
            && o.certificate == Some(CANMessage(CERTIFICATE, sc.lib.encodeCertificate(IssuedCertificate(sc))))
            && o.challenge == Some(CANMessage(NONCE, ChallengeOf(sc)))
            && o.signature == Some(CANMessage(SIGNATURE, sc.lib.sign(sc.batteryKey, ChallengeOf(sc))))
            && KeyIn(sc, o.certificate.value) == Some(sc.lib.publicKeyOf(sc.batteryKey))
  {
    HonestTranscript(sc);
    HonestRunSucceeds(sc, sessions);
    CertificatePhaseSound(sc, SM.DISCONNECTED, sessions);
    var c, key := IssuedCertificate(sc), sc.lib.publicKeyOf(sc.batteryKey);
    assert sc.lib.decodeCertificate(sc.lib.encodeCertificate(c)) == Some(c);
    assert c.publicKey == sc.lib.serializeKey(key) && sc.lib.loadKey(c.publicKey) == Some(key);
  }

  // ---------- What an undisturbed run puts on the bus ----------

  /** The certificate, field by field: "BAT001", "BATTLOCK", the battery's key, the dates, and the root's signature. */
  lemma {:induction false} HonestCertificate(sc: Scenario)
    requires Lawful(sc.lib) && Honest(sc.attacker)
    ensures CertificateQueue(sc) != [] && CertificateQueue(sc)[0].arbitrationId == 0x104
    ensures var key := sc.lib.serializeKey(sc.lib.publicKeyOf(sc.batteryKey));
            var battery, manufacturer := [66, 65, 84, 48, 48, 49], [66, 65, 84, 84, 76, 79, 67, 75];
            sc.lib.decodeCertificate(CertificateQueue(sc)[0].data) ==
            Some(Certificate(battery, manufacturer, key, sc.issueDate, sc.expiryDate,
                             sc.lib.sign(sc.rootKey, battery + manufacturer + key + sc.issueDate + sc.expiryDate)))
  {
    HonestTranscript(sc);
    var c := IssuedCertificate(sc);
    assert sc.lib.decodeCertificate(sc.lib.encodeCertificate(c)) == Some(c);
  }

  /** Every frame of the run: identifiers 0x100 to 0x102, 0x104 and 0x105, the request "AUTH", and the challenge. */
  lemma {:induction false} HonestFrames(sc: Scenario)
    requires Honest(sc.attacker)
    ensures Tampered(sc, 0, [], CANMessage(AUTH_REQUEST, AUTH)) == [CANMessage(0x100, [65, 85, 84, 72])]
    ensures CertificateQueue(sc) == [CANMessage(0x104, sc.lib.encodeCertificate(IssuedCertificate(sc)))]
    ensures var challenge := CANMessage(0x101, ChallengeBytes(sc.nonce, sc.timestamp));
            && ChallengeQueue(sc) == [challenge]
            && SignatureQueue(sc, challenge) == [CANMessage(0x102, sc.lib.sign(sc.batteryKey, challenge.data))]
            && SessionQueue(sc, challenge) == [CANMessage(0x105, sc.sessionId)]
  {
    HonestTranscript(sc);
  }

  /** If nobody interferes, the expiry date decides: success, an early return, or an exception while parsing it. */
  lemma {:induction false} ExpiryDateDecides(sc: Scenario, sessions: map<bytes, bytes>, expired: Option<bool>)
    requires Lawful(sc.lib) && Honest(sc.attacker) && sc.lib.isText(sc.sessionId)
    requires forall c: Certificate :: c.expiryDate == sc.expiryDate ==> sc.lib.expired(c) == expired
    ensures var o := Run(sc, SM.DISCONNECTED, sessions);
            match expired
            case Some(false) => o.ending == Established && o.state == SM.ACTIVE_SESSION
                                && o.sessions == sessions[sc.sessionId := [66, 65, 84, 48, 48, 49]]
            case Some(true) => o.ending == Aborted && o.state == SM.HELLO_RECEIVED && o.sessions == sessions
            case None => o.ending == Raised && o.state == SM.HELLO_RECEIVED && o.sessions == sessions
  {
    HonestCertificate(sc);
    if expired == Some(false) {
      HonestRunSucceeds(sc, sessions);
    }
  }

  // ---------- Agreement ----------

  /** A run of some orchestrator, with how that orchestrator stood before it. */
  datatype Entry = Entry(sc: Scenario, standing: Standing)

  function OutcomeOf(e: Entry): Outcome {
    Run(e.sc, e.standing.state, e.standing.sessions)
  }

  /** The bytes the battery was handed to sign in this run, if any. */
  function Handed(e: Entry): Option<bytes> {
    var o := OutcomeOf(e);
    if o.challenge.Some? then Some(o.challenge.value.data) else None
  }

  /** All the runs a battery took part in, on whatever orchestrators, with nonces of one length, all different. */
  ghost predicate BatteryLog(log: seq<Entry>, lib: Library, batteryKey: PrivateKey, l: nat) {
    && (forall i :: 0 <= i < |log| ==>
          log[i].sc.lib == lib && log[i].sc.batteryKey == batteryKey && |log[i].sc.nonce| == l)
    && (forall i, j :: 0 <= i < j < |log| ==> log[i].sc.nonce != log[j].sc.nonce)
  }

  /** In run i the vehicle came to trust the battery, on a certificate with the battery's own key. */
  ghost predicate TrustedAt(log: seq<Entry>, i: nat, batteryKey: PrivateKey) {
    && i < |log| && log[i].standing.state == SM.DISCONNECTED && Trusting(OutcomeOf(log[i]).state)
    && OutcomeOf(log[i]).certificate.Some? && OutcomeOf(log[i]).signature.Some?
    && KeyIn(log[i].sc, OutcomeOf(log[i]).certificate.value) == Some(log[i].sc.lib.publicKeyOf(batteryKey))
  }

  ghost predicate HandedUpTo(log: seq<Entry>, i: nat, message: bytes) {
    exists j :: 0 <= j <= i && j < |log| && Handed(log[j]) == Some(message)
  }

  /** The signature received in run i verifies over a challenge. */
  predicate SignatureCovers(log: seq<Entry>, i: nat, batteryKey: PrivateKey, challenge: bytes)
    requires i < |log| && OutcomeOf(log[i]).signature.Some?
  {
    log[i].sc.lib.verify(log[i].sc.lib.publicKeyOf(batteryKey), challenge, OutcomeOf(log[i]).signature.value.data)
  }

  /** It was not forged: of the challenges of these runs it covers only such as the battery had been handed. */
  ghost predicate Unforged(log: seq<Entry>, i: nat, batteryKey: PrivateKey) {
    i < |log| && OutcomeOf(log[i]).signature.Some? &&
    forall k :: 0 <= k < |log| && SignatureCovers(log, i, batteryKey, ChallengeOf(log[k].sc))
                ==> HandedUpTo(log, i, ChallengeOf(log[k].sc))
  }

  /** Nonces are fresh: no run hands the battery a challenge that begins with the nonce of a later run. */
  ghost predicate NotGuessed(log: seq<Entry>) {
    forall j, k, t :: 0 <= j < |log| && 0 <= k < |log| && Handed(log[j]) == Some(ChallengeBytes(log[k].sc.nonce, t)) ==> k <= j
  }

  /**
   If the signature accepted in a trusted run was not forged, the battery had been handed that run's challenge, and
   it is the challenge of no other run - whatever the attacker dropped, altered, injected or replayed, signatures
   of earlier runs included.
   */
  lemma {:induction false} Agreement(log: seq<Entry>, lib: Library, batteryKey: PrivateKey, l: nat, i: nat)
    requires BatteryLog(log, lib, batteryKey, l) && TrustedAt(log, i, batteryKey) && Unforged(log, i, batteryKey)
    ensures exists j :: 0 <= j <= i && Handed(log[j]) == Some(ChallengeOf(log[i].sc))
    ensures forall k :: 0 <= k < |log| && k != i ==> ChallengeOf(log[k].sc) != ChallengeOf(log[i].sc)
  {
    var e := log[i];
    RunIsSafe(e.sc, e.standing.state, e.standing.sessions);
    assert SignatureCovers(log, i, batteryKey, ChallengeOf(e.sc));
    forall k | 0 <= k < |log| && k != i ensures ChallengeOf(log[k].sc) != ChallengeOf(e.sc) {
      if ChallengeOf(log[k].sc) == ChallengeOf(e.sc) {
        ChallengeInjective(log[k].sc.nonce, log[k].sc.timestamp, e.sc.nonce, e.sc.timestamp);
      }
    }
  }

  /** With fresh nonces besides, the battery was handed them in that very run: trusted runs pair off with battery runs. */
  lemma {:induction false} AgreementInTheSameRun(log: seq<Entry>, lib: Library, batteryKey: PrivateKey, l: nat, i: nat)
    requires BatteryLog(log, lib, batteryKey, l) && TrustedAt(log, i, batteryKey) && Unforged(log, i, batteryKey)
    requires NotGuessed(log)
    ensures Handed(log[i]) == Some(ChallengeOf(log[i].sc))
  {
    Agreement(log, lib, batteryKey, l, i);
    var j :| 0 <= j <= i && Handed(log[j]) == Some(ChallengeOf(log[i].sc));
    assert Handed(log[j]) == Some(ChallengeBytes(log[i].sc.nonce, log[i].sc.timestamp));
  }

  // ---------- Where the hypotheses come from ----------

  /** Messages are hashed first: an honest signature covers only messages with the digest of the one signed. */
  ghost predicate SignsDigests(lib: Library, batteryKey: PrivateKey, digest: bytes -> bytes) {
    forall message, signed :: lib.verify(lib.publicKeyOf(batteryKey), message, lib.sign(batteryKey, signed)) ==>
                                digest(message) == digest(signed)
  }

  /** Nothing the battery was handed in these runs has the digest of one of their challenges without being it. */
  ghost predicate NoCollision(log: seq<Entry>, digest: bytes -> bytes) {
    forall j, k :: 0 <= j < |log| && 0 <= k < |log| && Handed(log[j]).Some?
                   && digest(Handed(log[j]).value) == digest(ChallengeOf(log[k].sc)) ==>
                     Handed(log[j]).value == ChallengeOf(log[k].sc)
  }

  /** The battery signed what it was handed in run j, and this is the signature. */
  predicate EmittedIn(e: Entry, signature: bytes) {
    Handed(e).Some? && signature == e.sc.lib.sign(e.sc.batteryKey, Handed(e).value)
  }

  /** The attacker cannot sign: if what it delivers in run i covers a challenge of these runs, the battery emitted it. */
  ghost predicate OnlyEmitted(log: seq<Entry>, i: nat, batteryKey: PrivateKey) {
    i < |log| && OutcomeOf(log[i]).signature.Some? &&
    forall k :: 0 <= k < |log| && SignatureCovers(log, i, batteryKey, ChallengeOf(log[k].sc)) ==>
                  exists j :: 0 <= j <= i && EmittedIn(log[j], OutcomeOf(log[i]).signature.value.data)
  }

  /** Against an attacker who cannot sign, hashing without collisions among these runs' messages is enough. */
  lemma {:induction false} EmittedIsUnforged(log: seq<Entry>, lib: Library, batteryKey: PrivateKey, l: nat, i: nat,
                                             digest: bytes -> bytes)
    requires BatteryLog(log, lib, batteryKey, l) && OnlyEmitted(log, i, batteryKey)
    requires SignsDigests(lib, batteryKey, digest) && NoCollision(log, digest)
    ensures Unforged(log, i, batteryKey)
  {
    var signature := OutcomeOf(log[i]).signature.value.data;
    forall k | 0 <= k < |log| && SignatureCovers(log, i, batteryKey, ChallengeOf(log[k].sc))
      ensures HandedUpTo(log, i, ChallengeOf(log[k].sc))
    {
      var j :| 0 <= j <= i && EmittedIn(log[j], signature);
      assert lib.verify(lib.publicKeyOf(batteryKey), ChallengeOf(log[k].sc), lib.sign(batteryKey, Handed(log[j]).value));
      assert Handed(log[j]) == Some(ChallengeOf(log[k].sc));
    }
  }

  /** A certificate in run i that verifies under the root key signs what the manufacturer signed in one of the runs. */
  ghost predicate RootUnforged(log: seq<Entry>, i: nat) {
    i < |log| && OutcomeOf(log[i]).certificate.Some? &&
    forall c :: log[i].sc.lib.decodeCertificate(OutcomeOf(log[i]).certificate.value.data) == Some(c)
                && log[i].sc.lib.verify(log[i].sc.lib.publicKeyOf(log[i].sc.rootKey), SignedData(c), c.signature) ==>
                  exists j :: 0 <= j < |log| && SignedData(c) == SignedData(IssuedCertificate(log[j].sc))
  }

  /** The certificate received in run i has its key where issued certificates have it. */
  predicate KeyInPlace(log: seq<Entry>, i: nat) {
    i < |log| && OutcomeOf(log[i]).certificate.Some? &&
    match log[i].sc.lib.decodeCertificate(OutcomeOf(log[i]).certificate.value.data)
    case None => false
    case Some(c) =>
      var l, issued := LayoutOf(c), LayoutOf(IssuedCertificate(log[i].sc));
      l.KeyAt() == issued.KeyAt() && l.publicKey == issued.publicKey
  }

  /** The certificate a trusted run accepted. */
  lemma {:induction false} AcceptedCertificate(e: Entry) returns (c: Certificate)
    requires e.standing.state == SM.DISCONNECTED && Trusting(OutcomeOf(e).state)
    ensures OutcomeOf(e).certificate.Some? && OutcomeOf(e).signature.Some?
    ensures e.sc.lib.decodeCertificate(OutcomeOf(e).certificate.value.data) == Some(c)
    ensures e.sc.lib.verify(e.sc.lib.publicKeyOf(e.sc.rootKey), SignedData(c), c.signature)
  {
    RunIsSafe(e.sc, e.standing.state, e.standing.sessions);
    c :| e.sc.lib.decodeCertificate(OutcomeOf(e).certificate.value.data) == Some(c)
         && e.sc.lib.expired(c) == Some(false)
         && e.sc.lib.verify(e.sc.lib.publicKeyOf(e.sc.rootKey), SignedData(c), c.signature);
  }

  /**
   From the root key to the battery's: certificates are signed without separators, so the certificate that a trusted
   run accepted holds the battery's key if its fields put the key where the manufacturer puts it.
   */
  lemma {:induction false} TrustRestsOnBatteryKey(log: seq<Entry>, lib: Library, batteryKey: PrivateKey, l: nat, i: nat)
    requires BatteryLog(log, lib, batteryKey, l) && RootUnforged(log, i) && KeyInPlace(log, i)
    requires log[i].standing.state == SM.DISCONNECTED && Trusting(OutcomeOf(log[i]).state)
    requires lib.loadKey(lib.serializeKey(lib.publicKeyOf(batteryKey))) == Some(lib.publicKeyOf(batteryKey))
    ensures TrustedAt(log, i, batteryKey)
  {
    var c := AcceptedCertificate(log[i]);
    var j :| 0 <= j < |log| && SignedData(c) == SignedData(IssuedCertificate(log[j].sc));
    var issued := IssuedCertificate(log[j].sc);
    ParsedIs(c);
    ParsedIs(issued);
    KeyDeterminedExactlyWhen(LayoutOf(c), LayoutOf(issued));
    assert c.publicKey == issued.publicKey;
  }

  /** All together, from what the attacker cannot do to what the battery was handed, in the run that came to trust it. */
  lemma {:induction false} AgreementFromRoot(log: seq<Entry>, lib: Library, batteryKey: PrivateKey, l: nat, i: nat,
                                             digest: bytes -> bytes)
    requires BatteryLog(log, lib, batteryKey, l) && NotGuessed(log)
    requires lib.loadKey(lib.serializeKey(lib.publicKeyOf(batteryKey))) == Some(lib.publicKeyOf(batteryKey))
    requires SignsDigests(lib, batteryKey, digest) && NoCollision(log, digest)
    requires RootUnforged(log, i) && KeyInPlace(log, i) && OnlyEmitted(log, i, batteryKey)
    requires log[i].standing.state == SM.DISCONNECTED && Trusting(OutcomeOf(log[i]).state)
    ensures TrustedAt(log, i, batteryKey) && Handed(log[i]) == Some(ChallengeOf(log[i].sc))
  {
    TrustRestsOnBatteryKey(log, lib, batteryKey, l, i);
    EmittedIsUnforged(log, lib, batteryKey, l, i, digest);
    AgreementInTheSameRun(log, lib, batteryKey, l, i);
  }

  // ---------- The hypotheses can be met ----------

  ghost predicate HonestLog(log: seq<Entry>, digest: bytes -> bytes) {
    forall i :: 0 <= i < |log| ==>
      && log[i].standing.state == SM.DISCONNECTED && log[i].sc.lib == Example(digest) && Honest(log[i].sc.attacker)
  }

  lemma {:induction false} HonestEntry(e: Entry, digest: bytes -> bytes)
    requires e.standing.state == SM.DISCONNECTED && e.sc.lib == Example(digest) && Honest(e.sc.attacker)
    ensures Handed(e) == Some(ChallengeOf(e.sc)) && Trusting(OutcomeOf(e).state)
    ensures OutcomeOf(e).certificate == Some(CANMessage(CERTIFICATE, e.sc.lib.encodeCertificate(IssuedCertificate(e.sc))))
    ensures OutcomeOf(e).signature.Some? && EmittedIn(e, OutcomeOf(e).signature.value.data)
    ensures KeyIn(e.sc, OutcomeOf(e).certificate.value) == Some(e.sc.lib.publicKeyOf(e.sc.batteryKey))
  {
    ExampleIsLawful(digest);
    HonestOutcome(e.sc, e.standing.sessions);
    HonestRunSucceeds(e.sc, e.standing.sessions);
  }

  lemma {:induction false} HonestRoot(log: seq<Entry>, digest: bytes -> bytes, i: nat)
    requires HonestLog(log, digest) && i < |log|
    ensures RootUnforged(log, i) && KeyInPlace(log, i)
  {
    ExampleIsLawful(digest);
    HonestEntry(log[i], digest);
    var issued := IssuedCertificate(log[i].sc);
    assert log[i].sc.lib.decodeCertificate(log[i].sc.lib.encodeCertificate(issued)) == Some(issued);
  }

  lemma {:induction false} HonestNonces(log: seq<Entry>, digest: bytes -> bytes, batteryKey: PrivateKey, l: nat)
    requires HonestLog(log, digest) && BatteryLog(log, Example(digest), batteryKey, l)
    ensures NotGuessed(log)
  {
    forall j, k, t | 0 <= j < |log| && 0 <= k < |log| && Handed(log[j]) == Some(ChallengeBytes(log[k].sc.nonce, t))
      ensures k <= j
    {
      HonestEntry(log[j], digest);
      ChallengeInjective(log[j].sc.nonce, log[j].sc.timestamp, log[k].sc.nonce, t);
    }
  }

  /**
   For every digest function, however short its digests, there is a lawful library with which every log of undisturbed
   runs whose challenges have different digests meets every hypothesis of the agreement results.
   */
  lemma {:induction false} AgreementIsNotVacuous(log: seq<Entry>, digest: bytes -> bytes, batteryKey: PrivateKey, l: nat, i: nat)
    requires HonestLog(log, digest) && BatteryLog(log, Example(digest), batteryKey, l) && i < |log|
    requires forall j, k :: 0 <= j < k < |log| ==> digest(ChallengeOf(log[j].sc)) != digest(ChallengeOf(log[k].sc))
    ensures Lawful(Example(digest)) && SignsDigests(Example(digest), batteryKey, digest) && NoCollision(log, digest)
    ensures RootUnforged(log, i) && KeyInPlace(log, i) && OnlyEmitted(log, i, batteryKey) && NotGuessed(log)
    ensures TrustedAt(log, i, batteryKey) && Unforged(log, i, batteryKey)
  {
    ExampleIsLawful(digest);
    HonestEntry(log[i], digest);
    HonestRoot(log, digest, i);
    HonestNonces(log, digest, batteryKey, l);
    forall message, signed
      ensures Example(digest).verify(Example(digest).publicKeyOf(batteryKey), message, Example(digest).sign(batteryKey, signed))
              ==> digest(message) == digest(signed)
    {
      ExampleSignatures(digest, batteryKey, signed, message);
    }
    forall j | 0 <= j < |log| ensures Handed(log[j]) == Some(ChallengeOf(log[j].sc)) {
      HonestEntry(log[j], digest);
    }
    EmittedIsUnforged(log, Example(digest), batteryKey, l, i, digest);
  }
}
