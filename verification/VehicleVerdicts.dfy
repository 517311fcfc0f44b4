/** The vehicle's verdicts over a whole run of frames, as a function of everything it received. */
module VehicleVerdicts {
  import opened Wrappers
  import opened Bytes
  import opened Can
  import opened Sequences
  import opened Status
  import opened Floats
  import opened ReplayGuard
  import opened Nodes

  /** The guard of a new vehicle after a run of frames. */
  function GuardAfterAll(frames: seq<CANMessage>): int {
    if frames == [] then 0 else GuardAfter(GuardAfterAll(Init(frames)), Last(frames))
  }

  function Verdicts(frames: seq<CANMessage>): (v: seq<Verdict>)
    ensures |v| == |frames|
  {
    if frames == [] then [] else Verdicts(Init(frames)) + [VerdictOn(GuardAfterAll(Init(frames)), Last(frames))]
  }

  lemma {:induction false} VerdictAt(frames: seq<CANMessage>, i: nat)
    requires i < |frames|
    ensures Verdicts(frames)[i] == VerdictOn(GuardAfterAll(frames[..i]), frames[i])
    decreases |frames|
  {
    if i < |frames| - 1 {
      VerdictAt(Init(frames), i);
      assert Init(frames)[..i] == frames[..i];
    }
  }

  function CounterIn(m: CANMessage): int
    requires IsStatus(m)
  {
    DecodeStatus(m).value.counter
  }

  /** The counters of the well-formed status frames, in order of arrival. */
  function StatusCounters(frames: seq<CANMessage>): seq<int> {
    if frames == [] then []
    else if IsStatus(Last(frames)) then StatusCounters(Init(frames)) + [CounterIn(Last(frames))]
    else StatusCounters(Init(frames))
  }

  /** Malformed and foreign frames leave the guard alone; the rest run through it one by one. */
  lemma {:induction false} GuardSeesStatusCounters(frames: seq<CANMessage>)
    ensures GuardAfterAll(frames) == LastAfterAll(0, StatusCounters(frames))
  {
    if frames != [] {
      GuardSeesStatusCounters(Init(frames));
      if IsStatus(Last(frames)) {
        assert Init(StatusCounters(frames)) == StatusCounters(Init(frames));
      }
    }
  }

  lemma {:induction false} CountersOfFrames(frames: seq<CANMessage>)
    ensures forall j :: 0 <= j < |frames| && IsStatus(frames[j]) ==> CounterIn(frames[j]) in StatusCounters(frames)
    ensures forall x :: x in StatusCounters(frames) ==> exists j :: 0 <= j < |frames| && IsStatus(frames[j]) && CounterIn(frames[j]) == x
  {
    if frames != [] {
      var g := Init(frames);
      CountersOfFrames(g);
      forall j | 0 <= j < |frames| && IsStatus(frames[j]) ensures CounterIn(frames[j]) in StatusCounters(frames) {
        assert j < |g| ==> g[j] == frames[j];
      }
      forall x | x in StatusCounters(frames)
        ensures exists j :: 0 <= j < |frames| && IsStatus(frames[j]) && CounterIn(frames[j]) == x
      {
        if x in StatusCounters(g) {
          var j :| 0 <= j < |g| && IsStatus(g[j]) && CounterIn(g[j]) == x;
          assert frames[j] == g[j];
        } else {
          assert IsStatus(frames[|g|]) && CounterIn(frames[|g|]) == x;
        }
      }
    }
  }

  /** Positive, and above the counter of every earlier well-formed status frame, accepted or not. */
  ghost predicate FreshCounter(frames: seq<CANMessage>, i: nat)
    requires i < |frames| && IsStatus(frames[i])
  {
    && CounterIn(frames[i]) > 0
    && forall j :: 0 <= j < i && IsStatus(frames[j]) ==> CounterIn(frames[j]) < CounterIn(frames[i])
  }

  lemma {:induction false} FreshIffAboveGuard(frames: seq<CANMessage>, i: nat)
    requires i < |frames| && IsStatus(frames[i])
    ensures CounterIn(frames[i]) > GuardAfterAll(frames[..i]) <==> FreshCounter(frames, i)
  {
    var before := frames[..i];
    GuardSeesStatusCounters(before);
    LastIsMaximum(0, StatusCounters(before));
    CountersOfFrames(before);
    assert forall j :: 0 <= j < i ==> before[j] == frames[j];
    if FreshCounter(frames, i) && GuardAfterAll(before) in StatusCounters(before) {
      var j :| 0 <= j < |before| && IsStatus(before[j]) && CounterIn(before[j]) == GuardAfterAll(before);
      assert IsStatus(frames[j]);
    }
  }

  lemma {:induction false} LowPart(low: nat, high: nat)
    requires low < 64
    ensures (low + 64 * high) % 64 == low
  {
  }

  /** Six one-bit masks together cover exactly the six low bits. */
  lemma {:induction false} FaultBits(flags: nat)
    ensures AnyFault(flags) <==> flags % 64 != 0
  {
    var h1 := flags / 2;
    var h2 := h1 / 2;
    var h3 := h2 / 2;
    var h4 := h3 / 2;
    var h5 := h4 / 2;
    assert HasFlag(flags, UNDERVOLTAGE) == HasFlag(h1, 1);
    assert HasFlag(flags, OVERCURRENT) == HasFlag(h1, 2) == HasFlag(h2, 1);
    assert HasFlag(flags, OVERTEMP) == HasFlag(h1, 4) == HasFlag(h2, 2) == HasFlag(h3, 1);
    assert HasFlag(flags, COMM_ERROR) == HasFlag(h1, 8) == HasFlag(h2, 4) == HasFlag(h3, 2) == HasFlag(h4, 1);
    assert HasFlag(flags, AUTH_FAILURE) == HasFlag(h1, 16) == HasFlag(h2, 8) == HasFlag(h3, 4) == HasFlag(h4, 2) == HasFlag(h5, 1);
    var low := flags % 2 + 2 * (h1 % 2) + 4 * (h2 % 2) + 8 * (h3 % 2) + 16 * (h4 % 2) + 32 * (h5 % 2);
    assert flags == low + 64 * (h5 / 2);
    LowPart(low, h5 / 2);
  }

  /** The injection limits are looser than the warning limits, so only the latter decide validity. */
  lemma {:induction false} InjectedIsWarned(s: BatteryStatus)
    ensures Injected(s) ==> Warned(s)
  {
    AboveLimits(s.voltage);
    AboveLimits(s.current);
    AboveLimits(s.temperature);
  }

  /** A 32-bit float above a limit given by its bits, up to infinity; negative numbers and NaNs are above nothing. */
  predicate Exceeds(f: bytes, limit: nat) {
    limit < FromLe(f) <= 0x7F80_0000
  }

  /** The checks of the values, on the bytes of the frame: limits 100, 500, 150 and warning limits 95, 450, 140. */
  lemma {:induction false} LimitsInBytes(m: CANMessage)
    requires IsStatus(m)
    ensures var s, d := DecodeStatus(m).value, m.data;
            && (Injected(s) <==> Exceeds(d[4..8], 0x42C8_0000) || Exceeds(d[8..12], 0x43FA_0000) || Exceeds(d[12..16], 0x4316_0000))
            && (Warned(s) <==> Exceeds(d[4..8], 0x42BE_0000) || Exceeds(d[8..12], 0x43E1_0000) || Exceeds(d[12..16], 0x430C_0000))
            && s.faultFlags == d[18]
  {
    AboveLimits(m.data[4..8]);
    AboveLimits(m.data[8..12]);
    AboveLimits(m.data[12..16]);
  }

  /**
   In any run of frames, a frame is reported valid exactly when it is a well-formed status frame whose counter
   is new, none of whose values exceeds its warning limit, and none of whose six defined fault bits is set.
   */
  lemma {:induction false} ValidExactlyWhen(frames: seq<CANMessage>, i: nat)
    requires i < |frames|
    ensures IsStatus(frames[i]) <==> frames[i].arbitrationId == 0x200 && |frames[i].data| == 19
    ensures Verdicts(frames)[i].Valid? <==>
            IsStatus(frames[i]) && FreshCounter(frames, i) &&
            var d := frames[i].data;
            && !Exceeds(d[4..8], 0x42BE_0000) && !Exceeds(d[8..12], 0x43E1_0000) && !Exceeds(d[12..16], 0x430C_0000)
            && d[18] % 64 == 0
    ensures Verdicts(frames)[i].Valid? ==> Ok(Verdicts(frames)[i].status) == DecodeStatus(frames[i])
    ensures Verdicts(frames)[i] == ReplayDetected <==> IsStatus(frames[i]) && !FreshCounter(frames, i)
    ensures Verdicts(frames)[i] == Malformed <==> frames[i].arbitrationId == 0x200 && |frames[i].data| != 19
    ensures Verdicts(frames)[i] == NotTelemetry <==> frames[i].arbitrationId != 0x200
  {
    VerdictAt(frames, i);
    if IsStatus(frames[i]) {
      FreshIffAboveGuard(frames, i);
      FaultBits(DecodeStatus(frames[i]).value.faultFlags);
      InjectedIsWarned(DecodeStatus(frames[i]).value);
      LimitsInBytes(frames[i]);
    }
  }

  /** Why a well-formed status with a new counter is rejected: limits exceeded first, then fault bits, then warning limits. */
  lemma {:induction false} RejectedExactlyWhen(frames: seq<CANMessage>, i: nat)
    requires i < |frames| && IsStatus(frames[i]) && FreshCounter(frames, i)
    ensures var v, d := Verdicts(frames)[i], frames[i].data;
            var injected := Exceeds(d[4..8], 0x42C8_0000) || Exceeds(d[8..12], 0x43FA_0000) || Exceeds(d[12..16], 0x4316_0000);
            var warned := Exceeds(d[4..8], 0x42BE_0000) || Exceeds(d[8..12], 0x43E1_0000) || Exceeds(d[12..16], 0x430C_0000);
            && (v == InjectionDetected <==> injected)
            && (v == FaultRaised <==> !injected && d[18] % 64 != 0)
            && (v == NearLimits <==> !injected && d[18] % 64 == 0 && warned)
  {
    VerdictAt(frames, i);
    FreshIffAboveGuard(frames, i);
    FaultBits(DecodeStatus(frames[i]).value.faultFlags);
    LimitsInBytes(frames[i]);
  }

  /** The counters of valid statuses strictly increase; so no status is reported valid twice. */
  lemma {:induction false} ValidCountersIncrease(frames: seq<CANMessage>, i: nat, j: nat)
    requires i < j < |frames| && Verdicts(frames)[i].Valid? && Verdicts(frames)[j].Valid?
    ensures Verdicts(frames)[i].status.counter < Verdicts(frames)[j].status.counter
  {
    ValidExactlyWhen(frames, i);
    ValidExactlyWhen(frames, j);
  }

  /** A replay is rejected even when the frame it repeats was itself rejected for its values. */
  lemma {:induction false} RejectedFramesStillCount(frames: seq<CANMessage>, i: nat, j: nat)
    requires i < j < |frames| && IsStatus(frames[i]) && frames[j] == frames[i]
    ensures Verdicts(frames)[j] == ReplayDetected
  {
    ValidExactlyWhen(frames, j);
  }

  // ---------- The simulated battery's telemetry ----------

  /** The bits of the fixed telemetry. */
  lemma {:induction false} SimulatedBits(counter: int)
    ensures FromLe(SimulatedStatus(counter).voltage) == 0x424C_CCCD
    ensures FromLe(SimulatedStatus(counter).current) == 0x4146_6666
    ensures FromLe(SimulatedStatus(counter).temperature) == 0x41F0_0000
  {
    var s := SimulatedStatus(counter);
    FromLeOfFour(s.voltage);
    FromLeOfFour(s.current);
    FromLeOfFour(s.temperature);
  }

  /** It is within the limits. */
  lemma {:induction false} SimulatedIsUnremarkable(counter: int)
    ensures !Warned(SimulatedStatus(counter))
  {
    var s := SimulatedStatus(counter);
    SimulatedBits(counter);
    AboveLimits(s.voltage);
    AboveLimits(s.current);
    AboveLimits(s.temperature);
  }

  lemma {:induction false} ValueOfBits(f: Float32, n: nat, exponent: nat, fraction: nat, unit: real)
    requires FromLe(f) == n == 0x80_0000 * exponent + fraction && 0 < exponent < 255 && fraction < 0x80_0000
    requires PowerOfTwo(exponent - 150) == unit
    ensures ValueOf(f) == Finite((0x80_0000 + fraction) as real * unit)
  {
    NormalMagnitude(n, exponent, fraction, unit);
    ValueByBits(f);
  }

  /** `|x - y| <= e` */
  predicate Within(x: real, y: real, e: real) {
    y - e <= x <= y + e
  }

  /**
   What `send_status` puts on the bus: 51.2 V, 12.4 A and 30 degrees to within half a unit in the last place
   (2 to the power -18 and -20 for the first two), and 85, 98 and no faults.
   */
  lemma {:induction false} SimulatedValues(counter: int)
    ensures var s := SimulatedStatus(counter);
            && ValueOf(s.voltage).Finite? && Within(ValueOf(s.voltage).value, 51.2, 1.0 / 524288.0)
            && ValueOf(s.current).Finite? && Within(ValueOf(s.current).value, 12.4, 1.0 / 2097152.0)
            && ValueOf(s.temperature) == Finite(30.0)
            && s.counter == counter && s.soc == 85 && s.soh == 98 && s.faultFlags == 0
  {
    var s := SimulatedStatus(counter);
    SimulatedBits(counter);
    SmallPowers();
    ValueOfBits(s.voltage, 0x424C_CCCD, 132, 0x4C_CCCD, 1.0 / 262144.0);
    ValueOfBits(s.current, 0x4146_6666, 130, 0x46_6666, 1.0 / 1048576.0);
    ValueOfBits(s.temperature, 0x41F0_0000, 131, 0x70_0000, 1.0 / 524288.0);
  }

  lemma {:induction false} BatteryFrameDecodes(m: CANMessage, counter: int)
    requires 1 <= counter < 0x1_0000_0000 && Ok(m) == EncodeStatus(SimulatedStatus(counter))
    ensures IsStatus(m) && DecodeStatus(m) == Ok(SimulatedStatus(counter))
  {
    StatusRoundTrip(SimulatedStatus(counter));
  }

  /** Valid statuses by their decoded values. */
  lemma {:induction false} ValidByValues(frames: seq<CANMessage>, i: nat)
    requires i < |frames| && IsStatus(frames[i])
    ensures Verdicts(frames)[i].Valid? <==>
            var s := DecodeStatus(frames[i]).value;
            FreshCounter(frames, i) && !Warned(s) && s.faultFlags % 64 == 0
  {
    ValidExactlyWhen(frames, i);
    LimitsInBytes(frames[i]);
  }

  lemma {:induction false} UnremarkableVerdict(frames: seq<CANMessage>, counters: seq<int>, i: nat)
    requires |counters| == |frames| && i < |frames| && counters[i] > 0 && IsStatus(frames[i])
    requires forall k :: 0 <= k < |frames| ==> IsStatus(frames[k]) && CounterIn(frames[k]) == counters[k]
    requires !Warned(DecodeStatus(frames[i]).value) && DecodeStatus(frames[i]).value.faultFlags == 0
    ensures Verdicts(frames)[i] ==
            if forall j :: 0 <= j < i ==> counters[j] < counters[i] then Valid(DecodeStatus(frames[i]).value)
            else ReplayDetected
  {
    assert FreshCounter(frames, i) <==> forall j :: 0 <= j < i ==> counters[j] < counters[i];
    ValidByValues(frames, i);
    ValidExactlyWhen(frames, i);
  }

  /**
   The battery's status frames, arriving in any order, with any loss and any repetition: the vehicle reports a
   frame valid exactly when its counter is the largest yet, and as a replay otherwise.
   */
  lemma {:induction false} BatteryToVehicle(frames: seq<CANMessage>, counters: seq<int>, i: nat)
    requires |counters| == |frames| && i < |frames|
    requires forall k :: 0 <= k < |counters| ==> 1 <= counters[k] < 0x1_0000_0000
    requires forall k :: 0 <= k < |frames| ==> Ok(frames[k]) == EncodeStatus(SimulatedStatus(counters[k]))
    ensures Verdicts(frames)[i] ==
            if forall j :: 0 <= j < i ==> counters[j] < counters[i] then Valid(SimulatedStatus(counters[i]))
            else ReplayDetected
  {
    forall k | 0 <= k < |frames| ensures IsStatus(frames[k]) && CounterIn(frames[k]) == counters[k] {
      BatteryFrameDecodes(frames[k], counters[k]);
    }
    BatteryFrameDecodes(frames[i], counters[i]);
    SimulatedIsUnremarkable(counters[i]);
    UnremarkableVerdict(frames, counters, i);
  }
}
