/** Telemetry over a lossy bus: counter, encoder, collector, decoder and replay guard composed. */
module Telemetry {
  import opened Wrappers
  import opened Can
  import opened Sequences
  import opened Status
  import opened Collector
  import opened ReplayGuard

  ghost predicate AllEncodable(statuses: seq<BatteryStatus>) {
    forall s :: s in statuses ==> Encodable(s)
  }

  /** The three frames of one telemetry round. */
  function RoundFrames(s: BatteryStatus): seq<CANMessage>
    requires Encodable(s)
  {
    [EncodeStatusA(s).value, EncodeStatusB(s), EncodeStatusC(s)]
  }

  lemma {:induction false} AppendFrame(slots: Slots, frames: seq<CANMessage>, m: CANMessage)
    ensures SlotsAfter(slots, frames + [m]) == Step(SlotsAfter(slots, frames), m)
    ensures Emissions(slots, frames + [m]) ==
            if OutcomeOf(SlotsAfter(slots, frames), m).Emitted?
            then Emissions(slots, frames) + [OutcomeOf(SlotsAfter(slots, frames), m).status]
            else Emissions(slots, frames)
  {
    assert Init(frames + [m]) == frames;
  }

  // ---------- Rounds with any of their frames lost ----------

  /** A round as delivered: which of its three frames were not lost. */
  datatype Delivery = Delivery(status: BatteryStatus, gotA: bool, gotB: bool, gotC: bool)

  ghost predicate AllDecodable(rounds: seq<Delivery>) {
    forall r :: r in rounds ==> Encodable(r.status)
  }

  /** What arrives of one more round. */
  function Arriving(before: seq<CANMessage>, r: Delivery): seq<CANMessage>
    requires Encodable(r.status)
  {
    var f := RoundFrames(r.status);
    var withA := if r.gotA then before + [f[0]] else before;
    var withB := if r.gotB then withA + [f[1]] else withA;
    if r.gotC then withB + [f[2]] else withB
  }

  function Delivered(rounds: seq<Delivery>): seq<CANMessage>
    requires AllDecodable(rounds)
  {
    if rounds == [] then [] else Arriving(Delivered(Init(rounds)), Last(rounds))
  }

  predicate Whole(r: Delivery) {
    r.gotA && r.gotB && r.gotC
  }

  function Survivors(rounds: seq<Delivery>): seq<BatteryStatus> {
    if rounds == [] then []
    else if Whole(Last(rounds)) then Survivors(Init(rounds)) + [Last(rounds).status]
    else Survivors(Init(rounds))
  }

  /** What one round does, beginning with its A: it is emitted if and only if it is whole. */
  lemma {:induction false} RoundEffect(slots: Slots, before: seq<CANMessage>, r: Delivery)
    requires Encodable(r.status) && r.gotA
    ensures Emissions(slots, Arriving(before, r)) ==
            if Whole(r) then Emissions(slots, before) + [r.status] else Emissions(slots, before)
    ensures var f := RoundFrames(r.status);
            SlotsAfter(slots, Arriving(before, r)) ==
            if Whole(r) then EMPTY
            else Slots(Some(f[0]), if r.gotB then Some(f[1]) else None, if r.gotC then Some(f[2]) else None)
  {
    var f := RoundFrames(r.status);
    StatusRoundTrip(r.status);
    AppendFrame(slots, before, f[0]);
    var withA := before + [f[0]];
    assert SlotsAfter(slots, withA) == Slots(Some(f[0]), None, None);
    AppendFrame(slots, withA, f[1]);
    var withB := if r.gotB then withA + [f[1]] else withA;
    assert SlotsAfter(slots, withB) == Slots(Some(f[0]), if r.gotB then Some(f[1]) else None, None);
    AppendFrame(slots, withB, f[2]);
  }

  /**
   If no A frame is lost: whatever B and C frames are, and whatever the collector held before, it emits exactly
   the statuses of the rounds that survived whole: in order, field for field, each once, and never a mixture.
   */
  lemma {:induction false} LostBAndC(slots: Slots, rounds: seq<Delivery>)
    requires AllDecodable(rounds) && forall r :: r in rounds ==> r.gotA
    ensures Emissions(slots, Delivered(rounds)) == Survivors(rounds)
  {
    if rounds != [] {
      LostBAndC(slots, Init(rounds));
      RoundEffect(slots, Delivered(Init(rounds)), Last(rounds));
    }
  }

  // ---------- Exactly when the surviving rounds come out ----------

  /** Whether a round is open, and which of B and C it has. */
  datatype Phase = Phase(open: bool, b: bool, c: bool)

  const CLOSED := Phase(false, false, false)

  /** A round without its A completes a round left open before it. */
  predicate Mixes(p: Phase, r: Delivery) {
    !r.gotA && p.open && (p.b || r.gotB) && (p.c || r.gotC)
  }

  function PhaseThen(p: Phase, r: Delivery): Phase {
    if r.gotA then (if r.gotB && r.gotC then CLOSED else Phase(true, r.gotB, r.gotC))
    else if !p.open || Mixes(p, r) then CLOSED
    else Phase(true, p.b || r.gotB, p.c || r.gotC)
  }

  function PhaseAfter(rounds: seq<Delivery>): Phase {
    if rounds == [] then CLOSED else PhaseThen(PhaseAfter(Init(rounds)), Last(rounds))
  }

  /** How many rounds without their A completed an earlier one. */
  function Mixtures(rounds: seq<Delivery>): nat {
    if rounds == [] then 0
    else Mixtures(Init(rounds)) + if Mixes(PhaseAfter(Init(rounds)), Last(rounds)) then 1 else 0
  }

  ghost predicate Matches(s: Slots, p: Phase) {
    && s.a.Some? == p.open && s.b.Some? == p.b && s.c.Some? == p.c
    && (p.open || p == CLOSED) && !(p.b && p.c)
    && (s.a.Some? ==> DecodeStatusA(s.a.value).Ok?)
    && (s.b.Some? ==> DecodeStatusB(s.b.value).Ok?)
    && (s.c.Some? ==> DecodeStatusC(s.c.value).Ok?)
  }

  /** A B frame on its own: it closes an open round that has its C, and otherwise only marks the round. */
  lemma {:induction false} OrphanB(before: seq<CANMessage>, p: Phase, m: CANMessage)
    requires m.arbitrationId == BATTERY_STATUS_B && DecodeStatusB(m).Ok? && Matches(SlotsAfter(EMPTY, before), p)
    ensures Matches(SlotsAfter(EMPTY, before + [m]), if p.open && !p.c then Phase(true, true, false) else CLOSED)
    ensures if p.open && p.c then |Emissions(EMPTY, before + [m])| == |Emissions(EMPTY, before)| + 1
            else Emissions(EMPTY, before + [m]) == Emissions(EMPTY, before)
  {
    AppendFrame(EMPTY, before, m);
  }

  lemma {:induction false} OrphanC(before: seq<CANMessage>, p: Phase, m: CANMessage)
    requires m.arbitrationId == BATTERY_STATUS_C && DecodeStatusC(m).Ok? && Matches(SlotsAfter(EMPTY, before), p)
    ensures Matches(SlotsAfter(EMPTY, before + [m]), if p.open && !p.b then Phase(true, false, true) else CLOSED)
    ensures if p.open && p.b then |Emissions(EMPTY, before + [m])| == |Emissions(EMPTY, before)| + 1
            else Emissions(EMPTY, before + [m]) == Emissions(EMPTY, before)
  {
    AppendFrame(EMPTY, before, m);
  }

  /** A round without its A: it adds an emission exactly when it completes the open round. */
  lemma {:induction false} OrphanEffect(before: seq<CANMessage>, p: Phase, r: Delivery)
    requires Encodable(r.status) && !r.gotA && Matches(SlotsAfter(EMPTY, before), p)
    ensures Matches(SlotsAfter(EMPTY, Arriving(before, r)), PhaseThen(p, r))
    ensures Mixes(p, r) ==> |Emissions(EMPTY, Arriving(before, r))| == |Emissions(EMPTY, before)| + 1
    ensures !Mixes(p, r) ==> Emissions(EMPTY, Arriving(before, r)) == Emissions(EMPTY, before)
  {
    var f := RoundFrames(r.status);
    if r.gotB {
      OrphanB(before, p, f[1]);
      if r.gotC {
        OrphanC(before + [f[1]], if p.open && !p.c then Phase(true, true, false) else CLOSED, f[2]);
      }
    } else if r.gotC {
      OrphanC(before, p, f[2]);
    }
  }

  /** The flags alone tell what the collector holds and how many statuses it has emitted. */
  lemma {:induction false} EmissionCount(rounds: seq<Delivery>)
    requires AllDecodable(rounds)
    ensures Matches(SlotsAfter(EMPTY, Delivered(rounds)), PhaseAfter(rounds))
    ensures |Emissions(EMPTY, Delivered(rounds))| == |Survivors(rounds)| + Mixtures(rounds)
    ensures Mixtures(rounds) == 0 ==> Emissions(EMPTY, Delivered(rounds)) == Survivors(rounds)
  {
    if rounds != [] {
      var before, r := Init(rounds), Last(rounds);
      EmissionCount(before);
      if r.gotA {
        RoundEffect(EMPTY, Delivered(before), r);
      } else {
        OrphanEffect(Delivered(before), PhaseAfter(before), r);
      }
    }
  }

  ghost predicate SomeB(rounds: seq<Delivery>, k: int, n: int) {
    exists j :: 0 <= k <= j <= n && j < |rounds| && rounds[j].gotB
  }

  ghost predicate SomeC(rounds: seq<Delivery>, k: int, n: int) {
    exists j :: 0 <= k <= j <= n && j < |rounds| && rounds[j].gotC
  }

  /**
   Round k's A arrived and k itself is incomplete; every A after it up to round n was lost; and among the rounds
   from k to n some B and some C arrived.
   */
  ghost predicate Straddles(rounds: seq<Delivery>, k: int, n: int) {
    && 0 <= k < n < |rounds|
    && rounds[k].gotA && !(rounds[k].gotB && rounds[k].gotC)
    && (forall j :: k < j <= n ==> !rounds[j].gotA)
    && SomeB(rounds, k, n) && SomeC(rounds, k, n)
  }

  /** The latest round whose A arrived, or -1. */
  function LatestA(rounds: seq<Delivery>): (k: int)
    ensures -1 <= k < |rounds|
    ensures k >= 0 ==> rounds[k].gotA
    ensures forall j :: k < j < |rounds| ==> !rounds[j].gotA
  {
    if rounds == [] then -1 else if Last(rounds).gotA then |rounds| - 1 else LatestA(Init(rounds))
  }

  /** Looking at one round more. */
  lemma {:induction false} SomeGrows(rounds: seq<Delivery>, k: int)
    requires rounds != [] && 0 <= k < |rounds|
    ensures SomeB(rounds, k, |rounds| - 1) <==> SomeB(Init(rounds), k, |rounds| - 2) || Last(rounds).gotB
    ensures SomeC(rounds, k, |rounds| - 1) <==> SomeC(Init(rounds), k, |rounds| - 2) || Last(rounds).gotC
  {
    var g := Init(rounds);
    assert forall j :: 0 <= j < |g| ==> g[j] == rounds[j];
  }

  /** The phase from the flags of all rounds since the latest A. */
  lemma {:induction false} PhaseIs(rounds: seq<Delivery>)
    ensures var k, n := LatestA(rounds), |rounds| - 1;
            PhaseAfter(rounds) ==
            if k < 0 || (SomeB(rounds, k, n) && SomeC(rounds, k, n)) then CLOSED
            else Phase(true, SomeB(rounds, k, n), SomeC(rounds, k, n))
  {
    if rounds != [] {
      PhaseIs(Init(rounds));
      var k := LatestA(rounds);
      if k >= 0 {
        SomeGrows(rounds, k);
      }
    }
  }

  lemma {:induction false} PrefixSame(rounds: seq<Delivery>, k: int, n: int)
    requires 0 <= k <= n < |rounds| - 1
    ensures SomeB(Init(rounds), k, n) == SomeB(rounds, k, n) && SomeC(Init(rounds), k, n) == SomeC(rounds, k, n)
  {
    assert forall j :: 0 <= j < |rounds| - 1 ==> Init(rounds)[j] == rounds[j];
  }

  lemma {:induction false} StraddlesPrefix(rounds: seq<Delivery>, k: int, n: int)
    requires rounds != [] && n < |rounds| - 1
    ensures Straddles(Init(rounds), k, n) <==> Straddles(rounds, k, n)
  {
    if 0 <= k < n {
      PrefixSame(rounds, k, n);
      assert forall j :: 0 <= j < |rounds| - 1 ==> Init(rounds)[j] == rounds[j];
    }
  }

  /** While the phase is open, the round that opened it is incomplete. */
  lemma {:induction false} OpenMeansIncomplete(rounds: seq<Delivery>)
    requires PhaseAfter(rounds).open
    ensures LatestA(rounds) >= 0
    ensures !(rounds[LatestA(rounds)].gotB && rounds[LatestA(rounds)].gotC)
  {
    PhaseIs(rounds);
  }

  /** A straddle ending at the last round mixes there, unless a shorter one did before. */
  lemma {:induction false} LastStraddleMixes(rounds: seq<Delivery>, k: int)
    requires Straddles(rounds, k, |rounds| - 1)
    ensures Mixes(PhaseAfter(Init(rounds)), Last(rounds)) || Straddles(Init(rounds), k, |rounds| - 2)
  {
    var g := Init(rounds);
    assert forall j :: 0 <= j < |g| ==> g[j] == rounds[j];
    assert LatestA(g) == k;
    PhaseIs(g);
    SomeGrows(rounds, k);
  }

  /** The first straddle ends where the collector mixes. */
  lemma {:induction false} MixturesMeanStraddles(rounds: seq<Delivery>)
    ensures Mixtures(rounds) > 0 <==> exists k, n :: Straddles(rounds, k, n)
  {
    if rounds != [] {
      var g, last := Init(rounds), |rounds| - 1;
      MixturesMeanStraddles(g);
      PhaseIs(g);
      forall k, n | n < last ensures Straddles(g, k, n) <==> Straddles(rounds, k, n) {
        StraddlesPrefix(rounds, k, n);
      }
      var a := LatestA(g);
      if a >= 0 {
        SomeGrows(rounds, a);
      }
      if Mixes(PhaseAfter(g), Last(rounds)) {
        OpenMeansIncomplete(g);
        assert Straddles(rounds, a, last);
      }
      if Mixtures(rounds) == 0 {
        forall k ensures !Straddles(rounds, k, last) {
          if Straddles(rounds, k, last) {
            LastStraddleMixes(rounds, k);
          }
        }
      }
    }
  }

  /**
   Whatever frames are lost, a new collector emits exactly the rounds that survived whole if and only if no
   straddle exists: no run of rounds that opens with an incomplete one, loses every later A, and yet receives
   some B and some C. So losing A frames is harmless as long as they do not expose an open round.
   */
  lemma {:induction false} SurvivorsExactlyWhen(rounds: seq<Delivery>)
    requires AllDecodable(rounds)
    ensures Emissions(EMPTY, Delivered(rounds)) == Survivors(rounds) <==> !exists k, n :: Straddles(rounds, k, n)
  {
    EmissionCount(rounds);
    MixturesMeanStraddles(rounds);
  }

  lemma {:induction false} MixedEmission(s: BatteryStatus, t: BatteryStatus)
    requires Encodable(s) && Encodable(t)
    ensures Emissions(EMPTY, [RoundFrames(s)[0], RoundFrames(s)[1]] + [RoundFrames(t)[1]] + [RoundFrames(t)[2]]) ==
            [s.(voltage := t.voltage, current := t.current, temperature := t.temperature)]
  {
    var a, b, b', c' := RoundFrames(s)[0], RoundFrames(s)[1], RoundFrames(t)[1], RoundFrames(t)[2];
    var mixed := s.(voltage := t.voltage, current := t.current, temperature := t.temperature);
    StatusRoundTrip(mixed);
    assert StatusFromFrames(a, b', c') == Ok(mixed);
    var open := Delivery(s, true, true, false);
    assert Arriving([], open) == [a, b];
    RoundEffect(EMPTY, [], open);
    AppendFrame(EMPTY, [a, b], b');
    AppendFrame(EMPTY, [a, b] + [b'], c');
  }

  /** The smallest failing instance: C of one round and A of the next lost, for any two statuses. */
  lemma {:induction false} LosingAMixesRounds(s: BatteryStatus, t: BatteryStatus)
    requires Encodable(s) && Encodable(t)
    ensures var rounds := [Delivery(s, true, true, false), Delivery(t, false, true, true)];
            && Straddles(rounds, 0, 1)
            && Emissions(EMPTY, Delivered(rounds)) ==
               [s.(voltage := t.voltage, current := t.current, temperature := t.temperature)]
  {
    var rounds := [Delivery(s, true, true, false), Delivery(t, false, true, true)];
    assert rounds[0].gotB && rounds[1].gotC;
    var f, g := RoundFrames(s), RoundFrames(t);
    assert Init(rounds) == [rounds[0]] && Init([rounds[0]]) == [];
    assert Delivered([rounds[0]]) == [f[0], f[1]];
    assert Delivered(rounds) == [f[0], f[1]] + [g[1]] + [g[2]];
    MixedEmission(s, t);
  }

  // ---------- Losing any frames at all ----------

  function AllFrames(statuses: seq<BatteryStatus>): seq<CANMessage>
    requires AllEncodable(statuses)
  {
    if statuses == [] then [] else Arriving(AllFrames(Init(statuses)), Delivery(Last(statuses), true, true, true))
  }

  function Counters(statuses: seq<BatteryStatus>): seq<int> {
    if statuses == [] then [] else Counters(Init(statuses)) + [Last(statuses).counter]
  }

  function CounterOf(m: CANMessage): int {
    match DecodeStatusA(m)
    case Ok(part) => part.counter
    case Err(_) => -1
  }

  /** The counters announced by the A frames of a stream. */
  function Announced(frames: seq<CANMessage>): seq<int> {
    if frames == [] then []
    else if Last(frames).arbitrationId == BATTERY_STATUS_A then Announced(Init(frames)) + [CounterOf(Last(frames))]
    else Announced(Init(frames))
  }

  lemma {:induction false} AppendEmbeds(xs: seq<int>, ys: seq<int>, x: int)
    requires Embeds(xs, ys)
    ensures Embeds(xs, ys + [x]) && Embeds(xs + [x], ys + [x])
  {
    assert Init(ys + [x]) == ys && Init(xs + [x]) == xs;
  }

  lemma {:induction false} AnnouncedEmbeds(some: seq<CANMessage>, all: seq<CANMessage>)
    requires Embeds(some, all)
    ensures Embeds(Announced(some), Announced(all))
    decreases |all|
  {
    if some != [] {
      if Embeds(some, Init(all)) {
        AnnouncedEmbeds(some, Init(all));
        AppendEmbeds(Announced(some), Announced(Init(all)), CounterOf(Last(all)));
      } else {
        AnnouncedEmbeds(Init(some), Init(all));
        AppendEmbeds(Announced(Init(some)), Announced(Init(all)), CounterOf(Last(all)));
      }
    }
  }

  lemma {:induction false} CountersAppend(statuses: seq<BatteryStatus>, s: BatteryStatus)
    ensures Counters(statuses + [s]) == Counters(statuses) + [s.counter]
  {
    assert Init(statuses + [s]) == statuses;
  }

  /** Each status emitted uses up one announced counter, in order, with the open round's counter still to come. */
  lemma {:induction false} EmittedEmbedInAnnounced(frames: seq<CANMessage>)
    ensures Embeds(Counters(Emissions(EMPTY, frames)), Announced(frames))
    ensures SlotsAfter(EMPTY, frames).a.Some? ==>
              Embeds(Counters(Emissions(EMPTY, frames)) + [CounterOf(SlotsAfter(EMPTY, frames).a.value)], Announced(frames))
  {
    if frames != [] {
      var g, m := Init(frames), Last(frames);
      EmittedEmbedInAnnounced(g);
      var emitted, slots := Emissions(EMPTY, g), SlotsAfter(EMPTY, g);
      assert frames == g + [m];
      AppendFrame(EMPTY, g, m);
      if OutcomeOf(slots, m).Emitted? {
        CountersAppend(emitted, OutcomeOf(slots, m).status);
      } else if m.arbitrationId == BATTERY_STATUS_A {
        AppendEmbeds(Counters(emitted), Announced(g), CounterOf(m));
      }
    }
  }

  lemma {:induction false} AnnouncedAppend(frames: seq<CANMessage>, m: CANMessage)
    ensures Announced(frames + [m]) ==
            if m.arbitrationId == BATTERY_STATUS_A then Announced(frames) + [CounterOf(m)] else Announced(frames)
  {
    assert Init(frames + [m]) == frames;
  }

  lemma {:induction false} AllAnnounced(statuses: seq<BatteryStatus>)
    requires AllEncodable(statuses)
    ensures Announced(AllFrames(statuses)) == Counters(statuses)
  {
    if statuses != [] {
      var s := Last(statuses);
      var f := RoundFrames(s);
      var before := AllFrames(Init(statuses));
      AllAnnounced(Init(statuses));
      StatusRoundTrip(s);
      assert CounterOf(f[0]) == s.counter;
      AnnouncedAppend(before, f[0]);
      AnnouncedAppend(before + [f[0]], f[1]);
      AnnouncedAppend(before + [f[0]] + [f[1]], f[2]);
    }
  }

  /** The counters are those a `MessageCounter` standing at `start` hands out. */
  ghost predicate Issued(start: int, statuses: seq<BatteryStatus>) {
    forall k :: 0 <= k < |statuses| ==> statuses[k].counter == start + 1 + k
  }

  lemma {:induction false} CountersAre(statuses: seq<BatteryStatus>)
    ensures |Counters(statuses)| == |statuses|
    ensures forall k :: 0 <= k < |statuses| ==> Counters(statuses)[k] == statuses[k].counter
  {
    if statuses != [] {
      CountersAre(Init(statuses));
    }
  }

  /**
   Whatever frames are lost, A frames included, the counters of the statuses that come out still increase
   strictly, so a replay guard that has seen nothing beyond `start` accepts every one of them.
   */
  lemma {:induction false} AnyLossKeepsOrder(start: int, statuses: seq<BatteryStatus>, delivered: seq<CANMessage>, last: int)
    requires AllEncodable(statuses) && Issued(start, statuses) && last <= start
    requires Embeds(delivered, AllFrames(statuses))
    ensures var counters := Counters(Emissions(EMPTY, delivered));
            && StrictlyIncreasing(counters)
            && Embeds(counters, Counters(statuses))
            && forall i :: 0 <= i < |counters| ==> Answers(last, counters)[i]
  {
    var counters := Counters(Emissions(EMPTY, delivered));
    EmittedEmbedInAnnounced(delivered);
    AnnouncedEmbeds(delivered, AllFrames(statuses));
    AllAnnounced(statuses);
    EmbedsTransitive(counters, Announced(delivered), Counters(statuses));
    CountersAre(statuses);
    EmbedsIncreasing(counters, Counters(statuses));
    forall x | x in counters ensures x > last {
      EmbedsMember(counters, Counters(statuses), x);
    }
    IncreasingAllAccepted(last, counters);
  }
}
