/** The connection state machine of protocol/state_machine.py, and its state as a function of all calls made. */
module StateMachine {
  import opened Sequences

  datatype ConnectionState = DISCONNECTED | HELLO_RECEIVED | CERT_VERIFIED | CHALLENGE_SENT | AUTHENTICATED | ACTIVE_SESSION

  datatype Call = Hello | Certificate | Challenge | Authenticate | Session | Reset

  /** The order in which a session is built up. */
  const FLOW: seq<Call> := [Hello, Certificate, Challenge, Authenticate, Session]

  function Level(s: ConnectionState): nat {
    match s
    case DISCONNECTED => 0
    case HELLO_RECEIVED => 1
    case CERT_VERIFIED => 2
    case CHALLENGE_SENT => 3
    case AUTHENTICATED => 4
    case ACTIVE_SESSION => 5
  }

  /** Whether a call makes its transition: every other call returns False and changes nothing. */
  predicate Moves(s: ConnectionState, c: Call) {
    match c
    case Hello => s == DISCONNECTED
    case Certificate => s == HELLO_RECEIVED
    case Challenge => s == CERT_VERIFIED
    case Authenticate => s == CHALLENGE_SENT
    case Session => s == AUTHENTICATED
    case Reset => false
  }

  function Next(s: ConnectionState, c: Call): ConnectionState {
    if c == Reset then DISCONNECTED
    else if !Moves(s, c) then s
    else match c
         case Hello => HELLO_RECEIVED
         case Certificate => CERT_VERIFIED
         case Challenge => CHALLENGE_SENT
         case Authenticate => AUTHENTICATED
         case Session => ACTIVE_SESSION
  }

  class BattLockStateMachine {
    var state: ConnectionState

    constructor ()
      ensures state == DISCONNECTED
    {
      state := DISCONNECTED;
    }

    method HelloReceived() returns (ok: bool)
      modifies this
      ensures state == Next(old(state), Hello) && ok == Moves(old(state), Hello)
    {
      if state == DISCONNECTED {
        state := HELLO_RECEIVED;
        return true;
      }
      return false;
    }

    method CertificateVerified() returns (ok: bool)
      modifies this
      ensures state == Next(old(state), Certificate) && ok == Moves(old(state), Certificate)
    {
      if state == HELLO_RECEIVED {
        state := CERT_VERIFIED;
        return true;
      }
      return false;
    }

    method ChallengeSent() returns (ok: bool)
      modifies this
      ensures state == Next(old(state), Challenge) && ok == Moves(old(state), Challenge)
    {
      if state == CERT_VERIFIED {
        state := CHALLENGE_SENT;
        return true;
      }
      return false;
    }

    method Authenticated() returns (ok: bool)
      modifies this
      ensures state == Next(old(state), Authenticate) && ok == Moves(old(state), Authenticate)
    {
      if state == CHALLENGE_SENT {
        state := AUTHENTICATED;
        return true;
      }
      return false;
    }

    method SessionEstablished() returns (ok: bool)
      modifies this
      ensures state == Next(old(state), Session) && ok == Moves(old(state), Session)
    {
      if state == AUTHENTICATED {
        state := ACTIVE_SESSION;
        return true;
      }
      return false;
    }

    method ResetMachine()
      modifies this
      ensures state == Next(old(state), Reset)
    {
      state := DISCONNECTED;
    }

    predicate TelemetryAllowed()
      reads this
    {
      state == ACTIVE_SESSION
    }
  }

  // ---------- The machine over a log of calls ----------

  function StateAfter(calls: seq<Call>): ConnectionState {
    if calls == [] then DISCONNECTED else Next(StateAfter(Init(calls)), Last(calls))
  }

  function SinceReset(calls: seq<Call>): seq<Call> {
    if calls == [] || Last(calls) == Reset then [] else SinceReset(Init(calls)) + [Last(calls)]
  }

  /** How many calls returned True since the last reset. */
  function TruesSinceReset(calls: seq<Call>): nat {
    if calls == [] || Last(calls) == Reset then 0
    else TruesSinceReset(Init(calls)) + if Moves(StateAfter(Init(calls)), Last(calls)) then 1 else 0
  }

  /** The first n steps of the flow were all called, in order, among these calls. */
  ghost predicate Reached(calls: seq<Call>, n: nat) {
    n <= |FLOW| && Embeds(FLOW[..n], calls)
  }

  lemma {:induction false} ReachedSnoc(calls: seq<Call>, c: Call, n: nat)
    ensures Reached(calls + [c], n) <==> Reached(calls, n) || (1 <= n <= |FLOW| && FLOW[n - 1] == c && Reached(calls, n - 1))
  {
    assert Init(calls + [c]) == calls;
    if 1 <= n <= |FLOW| {
      assert Init(FLOW[..n]) == FLOW[..n - 1] && Last(FLOW[..n]) == FLOW[n - 1];
    }
  }


  /**
   The machine's level after any log is the length of the longest beginning of the flow that can be found, in
   order, among the calls since the last reset; and it is the number of calls since then that returned True.
   */
  lemma {:induction false} LevelIsLongestFlow(calls: seq<Call>)
    ensures Reached(SinceReset(calls), Level(StateAfter(calls)))
    ensures forall n: nat :: Reached(SinceReset(calls), n) ==> n <= Level(StateAfter(calls))
    ensures TruesSinceReset(calls) == Level(StateAfter(calls))
  {
    if calls != [] && Last(calls) != Reset {
      var before, c := Init(calls), Last(calls);
      LevelIsLongestFlow(before);
      var level := Level(StateAfter(before));
      assert Moves(StateAfter(before), c) <==> level < |FLOW| && FLOW[level] == c;
      ReachedSnoc(SinceReset(before), c, Level(StateAfter(calls)));
      forall n: nat | Reached(SinceReset(calls), n) ensures n <= Level(StateAfter(calls)) {
        ReachedSnoc(SinceReset(before), c, n);
        if !Reached(SinceReset(before), n) {
          assert Reached(SinceReset(before), n - 1);
        }
      }
    } else {
      forall n: nat | Reached([], n) ensures n == 0 {
        assert |FLOW[..n]| == n;
      }
    }
  }

  /** Telemetry is allowed exactly when all five steps were called in order since the last reset. */
  lemma {:induction false} TelemetryNeedsWholeFlow(calls: seq<Call>)
    ensures StateAfter(calls) == ACTIVE_SESSION <==> Embeds(FLOW, SinceReset(calls))
  {
    LevelIsLongestFlow(calls);
    assert FLOW[..5] == FLOW;
    assert Reached(SinceReset(calls), 5) <==> Embeds(FLOW, SinceReset(calls));
  }

  /** `telemetry_allowed` on a machine that went through these calls, with the flow spelled out. */
  lemma {:induction false} TelemetryAllowedExactlyWhen(machine: BattLockStateMachine, calls: seq<Call>)
    requires machine.state == StateAfter(calls)
    ensures machine.TelemetryAllowed() <==> Embeds([Hello, Certificate, Challenge, Authenticate, Session], SinceReset(calls))
  {
    TelemetryNeedsWholeFlow(calls);
  }
}
