/** The three-slot collector of can/status_collector.py, and what it does over a whole stream of frames. */
module Collector {
  import opened Wrappers
  import opened Bytes
  import opened Can
  import opened Sequences
  import opened Status

  /** What `feed` does: return None, return a status, or let the decoder's error through. */
  datatype FeedOutcome = Nothing | Emitted(status: BatteryStatus) | Raised

  datatype Slots = Slots(a: Option<CANMessage>, b: Option<CANMessage>, c: Option<CANMessage>)

  const EMPTY := Slots(None, None, None)

  predicate IsStatusFrame(m: CANMessage) {
    m.arbitrationId in {BATTERY_STATUS_A, BATTERY_STATUS_B, BATTERY_STATUS_C}
  }

  predicate Full(s: Slots) {
    s.a.Some? && s.b.Some? && s.c.Some?
  }

  /** A begins a round; B and C count only while one is open. */
  function Stored(s: Slots, m: CANMessage): Slots {
    if m.arbitrationId == BATTERY_STATUS_A then Slots(Some(m), None, None)
    else if m.arbitrationId == BATTERY_STATUS_B && s.a.Some? then s.(b := Some(m))
    else if m.arbitrationId == BATTERY_STATUS_C && s.a.Some? then s.(c := Some(m))
    else s
  }

  function OutcomeOf(s: Slots, m: CANMessage): FeedOutcome {
    var t := Stored(s, m);
    if !IsStatusFrame(m) || !Full(t) then Nothing
    else match StatusFromFrames(t.a.value, t.b.value, t.c.value)
         case Ok(status) => Emitted(status)
         case Err(_) => Raised
  }

  /** Only an emission empties the slots: a decoding error leaves them full. */
  function Step(s: Slots, m: CANMessage): Slots {
    if OutcomeOf(s, m).Emitted? then EMPTY else Stored(s, m)
  }

  class StatusCollector {
    var a: Option<CANMessage>
    var b: Option<CANMessage>
    var c: Option<CANMessage>

    function View(): Slots
      reads this
    {
      Slots(a, b, c)
    }

    constructor ()
      ensures View() == EMPTY
    {
      a, b, c := None, None, None;
    }

    method Reset()
      modifies this
      ensures View() == EMPTY
    {
      a, b, c := None, None, None;
    }

    /** A round is open and not complete. */
    predicate Pending()
      reads this
    {
      a.Some? && (b.None? || c.None?)
    }

    method Feed(message: CANMessage) returns (r: FeedOutcome)
      modifies this
      ensures View() == Step(old(View()), message)
      ensures r == OutcomeOf(old(View()), message)
    {
      var arb := message.arbitrationId;
      if arb == BATTERY_STATUS_A {
        a, b, c := Some(message), None, None;
      } else if arb == BATTERY_STATUS_B {
        if a.Some? {
          b := Some(message);
        }
      } else if arb == BATTERY_STATUS_C {
        if a.Some? {
          c := Some(message);
        }
      } else {
        return Nothing;
      }
      if a.Some? && b.Some? && c.Some? {
        var status := StatusFromFrames(a.value, b.value, c.value);
        if status.Err? {
          return Raised;
        }
        Reset();
        return Emitted(status.value);
      }
      return Nothing;
    }
  }

  // ---------- The collector over a stream ----------

  function SlotsAfter(s: Slots, frames: seq<CANMessage>): Slots {
    if frames == [] then s else Step(SlotsAfter(s, Init(frames)), Last(frames))
  }

  function Emissions(s: Slots, frames: seq<CANMessage>): seq<BatteryStatus> {
    if frames == [] then []
    else
      var outcome := OutcomeOf(SlotsAfter(s, Init(frames)), Last(frames));
      if outcome.Emitted? then Emissions(s, Init(frames)) + [outcome.status] else Emissions(s, Init(frames))
  }

  // ---------- The specification: a function of the whole history ----------

  /** The position of the latest frame with this identifier, or -1. */
  function Latest(frames: seq<CANMessage>, id: int): (i: int)
    ensures -1 <= i < |frames|
    ensures i >= 0 ==> frames[i].arbitrationId == id
    ensures forall j :: i < j < |frames| ==> frames[j].arbitrationId != id
  {
    if frames == [] then -1
    else if Last(frames).arbitrationId == id then |frames| - 1
    else Latest(Init(frames), id)
  }

  /** The last frame of the history is a B or C, and both have arrived since the latest A, with no emission since. */
  ghost predicate Completes(frames: seq<CANMessage>)
    decreases |frames|, 1
  {
    && frames != []
    && Last(frames).arbitrationId in {BATTERY_STATUS_B, BATTERY_STATUS_C}
    && 0 <= Latest(frames, BATTERY_STATUS_A) < Latest(frames, BATTERY_STATUS_B)
    && Latest(frames, BATTERY_STATUS_A) < Latest(frames, BATTERY_STATUS_C)
    && !EmittedSince(frames, Latest(frames, BATTERY_STATUS_A), |frames|)
  }

  /** Some frame after position a, among the first n, caused an emission. */
  ghost predicate EmittedSince(frames: seq<CANMessage>, a: int, n: nat)
    requires n <= |frames|
    decreases n, 0
  {
    exists j: nat :: a + 1 < j < n && Emits(frames[..j])
  }

  /** What the latest A, B and C decode to. */
  function LatestStatus(frames: seq<CANMessage>): Result<BatteryStatus, CodecError>
    requires Latest(frames, BATTERY_STATUS_A) >= 0
    requires Latest(frames, BATTERY_STATUS_B) >= 0 && Latest(frames, BATTERY_STATUS_C) >= 0
  {
    StatusFromFrames(frames[Latest(frames, BATTERY_STATUS_A)],
                     frames[Latest(frames, BATTERY_STATUS_B)],
                     frames[Latest(frames, BATTERY_STATUS_C)])
  }

  ghost predicate Emits(frames: seq<CANMessage>)
    decreases |frames|, 2
  {
    Completes(frames) && LatestStatus(frames).Ok?
  }

  /** The whole of what `feed` returns for the last frame of a history. */
  ghost function Expected(frames: seq<CANMessage>): FeedOutcome {
    if !Completes(frames) then Nothing
    else match LatestStatus(frames)
         case Ok(status) => Emitted(status)
         case Err(_) => Raised
  }

  ghost predicate Closed(frames: seq<CANMessage>, a: int) {
    EmittedSince(frames, a, |frames|) || (a + 1 < |frames| && Emits(frames))
  }

  function Since(frames: seq<CANMessage>, a: int, id: int): Option<CANMessage> {
    var i := Latest(frames, id);
    if i > a && i >= 0 then Some(frames[i]) else None
  }

  /** The slots a new collector must hold after a history. */
  ghost function ExpectedSlots(frames: seq<CANMessage>): Slots {
    var a := Latest(frames, BATTERY_STATUS_A);
    if a < 0 || Closed(frames, a) then EMPTY
    else Slots(Some(frames[a]), Since(frames, a, BATTERY_STATUS_B), Since(frames, a, BATTERY_STATUS_C))
  }

  lemma {:induction false} ClosedBefore(frames: seq<CANMessage>, a: int)
    requires frames != [] && a < |frames| - 1
    ensures EmittedSince(frames, a, |frames|) <==> Closed(Init(frames), a)
  {
    var g := Init(frames);
    assert frames[..|g|] == g;
    assert forall j :: 0 <= j <= |g| ==> g[..j] == frames[..j];
  }

  /**
   Over any stream of frames, well formed or not, the collector returns at each frame what the whole history
   prescribes: a status exactly when a B or C first completes the pair since the latest A, decoded from the
   latest A, B and C; the decoder's error in the same place when those do not decode; otherwise nothing.
   */
  lemma {:induction false} CollectorMeetsHistory(frames: seq<CANMessage>)
    ensures SlotsAfter(EMPTY, frames) == ExpectedSlots(frames)
    ensures frames != [] ==> OutcomeOf(SlotsAfter(EMPTY, Init(frames)), Last(frames)) == Expected(frames)
  {
    if frames != [] {
      var g, m := Init(frames), Last(frames);
      CollectorMeetsHistory(g);
      ClosedBefore(frames, Latest(g, BATTERY_STATUS_A));
      var a := Latest(frames, BATTERY_STATUS_A);
      if m.arbitrationId == BATTERY_STATUS_A {
        assert !Closed(frames, a);
      } else if 0 <= a {
        assert frames[a] == g[a];
        if Closed(g, a) {
          assert SlotsAfter(EMPTY, frames) == EMPTY;
        } else if IsStatusFrame(m) {
          assert Emits(frames) <==> OutcomeOf(SlotsAfter(EMPTY, g), m).Emitted?;
        } else {
          assert !Emits(frames);
        }
      }
    }
  }

  /** A round is pending from its A frame until it has both B and C; a round that was emitted is not pending any more. */
  lemma {:induction false} PendingExactlyWhen(collector: StatusCollector, frames: seq<CANMessage>)
    requires collector.View() == SlotsAfter(EMPTY, frames)
    ensures var a := Latest(frames, 0x200);
            collector.Pending() <==> a >= 0 && !Closed(frames, a) && (Latest(frames, 0x201) < a || Latest(frames, 0x202) < a)
  {
    CollectorMeetsHistory(frames);
  }

  /** Two emissions never share a frame: the later one's A comes after the earlier one's last frame. */
  lemma {:induction false} NoFrameUsedTwice(frames: seq<CANMessage>, i: nat, j: nat)
    requires i < j <= |frames| && Emits(frames[..i]) && Emits(frames[..j])
    ensures i <= Latest(frames[..j], BATTERY_STATUS_A)
    ensures Latest(frames[..j], BATTERY_STATUS_A) < Latest(frames[..j], BATTERY_STATUS_B)
    ensures Latest(frames[..j], BATTERY_STATUS_A) < Latest(frames[..j], BATTERY_STATUS_C)
  {
    var h := frames[..j];
    var a := Latest(h, BATTERY_STATUS_A);
    assert h[..i] == frames[..i];
    assert Last(frames[..i]) == h[i - 1];
    assert Completes(h) && !EmittedSince(h, a, |h|);
    assert Emits(h[..i]);
  }

  function StatusFrames(frames: seq<CANMessage>): seq<CANMessage> {
    if frames == [] then []
    else if IsStatusFrame(Last(frames)) then StatusFrames(Init(frames)) + [Last(frames)]
    else StatusFrames(Init(frames))
  }

  /** Frames with other identifiers might as well not be there. */
  lemma {:induction false} OtherFramesIgnored(s: Slots, frames: seq<CANMessage>)
    ensures Emissions(s, StatusFrames(frames)) == Emissions(s, frames)
    ensures SlotsAfter(s, StatusFrames(frames)) == SlotsAfter(s, frames)
  {
    if frames != [] {
      OtherFramesIgnored(s, Init(frames));
      if IsStatusFrame(Last(frames)) {
        assert Init(StatusFrames(frames)) == StatusFrames(Init(frames));
      }
    }
  }

  // ---------- A round, byte by byte ----------

  /** A round of three frames on the bus makes a new collector emit what their bytes say, and nothing before the last. */
  lemma {:induction false} RoundIsRead(k: Float32, v: Float32, i: Float32, t: Float32, soc: byte, soh: byte, fault: byte,
                                       reserved: byte, tail: Float32)
    ensures var a, b, c := CANMessage(0x200, k + [soc, soh, fault, reserved]), CANMessage(0x201, v + i), CANMessage(0x202, t + tail);
            && Emissions(EMPTY, [a, b]) == [] && |Emissions(EMPTY, [a, b, c])| == 1
            && ReadFrom(Emissions(EMPTY, [a, b, c])[0], k, v, i, t, soc, soh, fault)
  {
    RoundInBytes(k, v, i, t, soc, soh, fault, reserved, tail);
    var a, b, c := CANMessage(0x200, k + [soc, soh, fault, reserved]), CANMessage(0x201, v + i), CANMessage(0x202, t + tail);
    assert Init([a]) == [] && Init([a, b]) == [a] && Init([a, b, c]) == [a, b];
    assert SlotsAfter(EMPTY, [a]) == Slots(Some(a), None, None) && Emissions(EMPTY, [a]) == [];
    assert SlotsAfter(EMPTY, [a, b]) == Slots(Some(a), Some(b), None) && Emissions(EMPTY, [a, b]) == [];
  }
}
