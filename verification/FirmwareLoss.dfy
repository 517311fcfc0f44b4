/** What the loss of frames does to a firmware receiver that checks lengths but no sequence numbers. */
module FirmwareLoss {
  import opened Bytes
  import opened Can
  import opened Sequences
  import opened Firmware
  import opened FirmwareTheorems
  import Transport
  import TransportTheorems

  const CLEARED := Reception([], 0, false)

  // ---------- The receiver around the reassembly ----------

  /** A frame that ends a reception clears the reassembly, whatever its length was. */
  function Handled(s: Reception, f: WireFrame): (r: Reception)
    requires Sound(s)
    ensures Sound(r)
  {
    if IsFlagged(f.data[0]) then CLEARED else Fed(s, f)
  }

  /** A reception is taken when it ends with exactly n bytes. */
  predicate Takes(n: nat, s: Reception, f: WireFrame)
    requires Sound(s)
  {
    IsFlagged(f.data[0]) && |Fed(s, f).contents| == n
  }

  /** The cases of `loop` that reassemble: nonce, certificate and signature, each with a length of its own. */
  class FixedReceiver {
    const reassembly: BattLockReassembly
    const taken: array<byte>
    var has: bool

    ghost predicate Valid()
      reads this, reassembly, reassembly.buffer, taken
    {
      reassembly.Valid() && taken != reassembly.buffer && taken.Length <= TRANSPORT_MAX
    }

    constructor (n: nat)
      requires n <= TRANSPORT_MAX
      ensures Valid() && fresh(reassembly) && fresh(reassembly.buffer) && fresh(taken)
      ensures taken.Length == n && reassembly.View() == CLEARED && !has
    {
      reassembly := new BattLockReassembly();
      taken := new byte[n];
      has := false;
    }

    /** `memcpy` out of the reassembly buffer. */
    method TakeHeld()
      requires Valid() && reassembly.len == taken.Length
      modifies taken
      ensures taken[..] == reassembly.View().contents
    {
      for j := 0 to taken.Length
        invariant taken[..j] == reassembly.buffer[..j]
      {
        taken[j] := reassembly.buffer[j];
      }
    }

    method Receive(data: CanData, dlc: byte) returns (took: bool)
      requires Valid()
      modifies this, reassembly, reassembly.buffer, taken
      ensures Valid() && reassembly.View() == Handled(old(reassembly.View()), WireFrame(data, dlc))
      ensures took == Takes(taken.Length, old(reassembly.View()), WireFrame(data, dlc))
      ensures taken[..] == if took then Fed(old(reassembly.View()), WireFrame(data, dlc)).contents else old(taken[..])
      ensures has == (old(has) || took)
    {
      took := false;
      var done := reassembly.Feed(data, dlc);
      if done {
        if reassembly.len == taken.Length {
          TakeHeld();
          has, took := true, true;
        }
        reassembly.Init();
      }
    }
  }

  /** Where the receiver stands, and what it has taken so far. */
  datatype Progress = Progress(s: Reception, taken: seq<bytes>)

  function Next(n: nat, st: Progress, f: WireFrame): (next: Progress)
    requires Sound(st.s)
    ensures Sound(next.s)
  {
    Progress(Handled(st.s, f), if Takes(n, st.s, f) then st.taken + [Fed(st.s, f).contents] else st.taken)
  }

  /** After a run of frames, beginning cleared. */
  function After(n: nat, frames: seq<WireFrame>): (st: Progress)
    ensures Sound(st.s)
  {
    if frames == [] then Progress(CLEARED, []) else Next(n, After(n, Init(frames)), Last(frames))
  }

  function Taken(n: nat, frames: seq<WireFrame>): seq<bytes> {
    After(n, frames).taken
  }

  // ---------- Messages of one length with any of their frames lost ----------

  /** A message as it arrives: which of its frames were not lost. */
  datatype Arrival = Arrival(payload: bytes, got: seq<bool>)

  ghost predicate OfLength(n: nat, messages: seq<Arrival>) {
    forall a :: a in messages ==> |a.payload| == n && |a.got| == Transport.FragmentCount(n)
  }

  predicate AllOf(got: seq<bool>, m: nat)
    requires m <= |got|
  {
    forall k :: 0 <= k < m ==> got[k]
  }

  predicate Whole(a: Arrival) {
    AllOf(a.got, |a.got|)
  }

  /** What arrives of the first m frames of one more message. */
  function Arriving(before: seq<WireFrame>, wire: seq<WireFrame>, got: seq<bool>, m: nat): seq<WireFrame>
    requires m <= |wire| == |got|
  {
    if m == 0 then before
    else
      var frames := Arriving(before, wire, got, m - 1);
      if got[m - 1] then frames + [wire[m - 1]] else frames
  }

  /** The same on the receiver. */
  function Through(n: nat, st: Progress, wire: seq<WireFrame>, got: seq<bool>, m: nat): (next: Progress)
    requires Sound(st.s) && m <= |wire| == |got|
    ensures Sound(next.s)
  {
    if m == 0 then st
    else
      var before := Through(n, st, wire, got, m - 1);
      if got[m - 1] then Next(n, before, wire[m - 1]) else before
  }

  lemma {:induction false} AfterArriving(n: nat, before: seq<WireFrame>, wire: seq<WireFrame>, got: seq<bool>, m: nat)
    requires m <= |wire| == |got|
    ensures After(n, Arriving(before, wire, got, m)) == Through(n, After(n, before), wire, got, m)
  {
    if m > 0 {
      AfterArriving(n, before, wire, got, m - 1);
      var frames := Arriving(before, wire, got, m - 1);
      assert Init(frames + [wire[m - 1]]) == frames;
    }
  }

  function WireOf(payload: bytes): seq<WireFrame>
    requires |payload| <= TRANSPORT_MAX
  {
    OnWire(Frames(payload))
  }

  function Delivered(n: nat, messages: seq<Arrival>): seq<WireFrame>
    requires n <= TRANSPORT_MAX && OfLength(n, messages)
  {
    if messages == [] then []
    else
      var a := Last(messages);
      Arriving(Delivered(n, Init(messages)), WireOf(a.payload), a.got, |a.got|)
  }

  function WholeOnes(messages: seq<Arrival>): seq<bytes> {
    if messages == [] then []
    else if Whole(Last(messages)) then WholeOnes(Init(messages)) + [Last(messages).payload]
    else WholeOnes(Init(messages))
  }

  /** How many of the first m frames, the very first one aside, arrived. */
  function Continuations(got: seq<bool>, m: nat): (c: nat)
    requires m <= |got|
    ensures c <= if m == 0 then 0 else m - 1
  {
    if m <= 1 then 0 else Continuations(got, m - 1) + if got[m - 1] then 1 else 0
  }

  // ---------- What the flags tell ----------

  /** Whether a header arrived since the receiver was cleared, and how many other frames since that header. */
  datatype Phase = Phase(open: bool, count: nat)

  const CLOSED := Phase(false, 0)

  /** After the first m frames of a message. */
  function Within(p: Phase, got: seq<bool>, m: nat): Phase
    requires m <= |got|
  {
    if m == 0 then p
    else if got[0] then Phase(true, Continuations(got, m))
    else if p.open then Phase(true, p.count + Continuations(got, m))
    else CLOSED
  }

  /** One frame more that carries no flag. */
  function PhaseWith(p: Phase, k: nat): Phase {
    if k == 0 then Phase(true, 0) else if p.open then Phase(true, p.count + 1) else CLOSED
  }

  lemma {:induction false} WithinStep(p: Phase, got: seq<bool>, m: nat)
    requires 1 <= m <= |got| && (p.open || p == CLOSED)
    ensures Within(p, got, m) == if got[m - 1] then PhaseWith(Within(p, got, m - 1), m - 1) else Within(p, got, m - 1)
  {
  }

  function PhaseThen(p: Phase, got: seq<bool>): Phase {
    if got == [] || Last(got) then CLOSED else Within(p, got, |got|)
  }

  function PhaseAfter(messages: seq<Arrival>): Phase {
    if messages == [] then CLOSED else PhaseThen(PhaseAfter(Init(messages)), Last(messages).got)
  }

  /** A message without its header ends an earlier one, with frames enough for its length. */
  predicate Mixes(p: Phase, got: seq<bool>) {
    got != [] && !got[0] && Last(got) && p.open && p.count + Continuations(got, |got|) >= |got| - 1
  }

  function Mixtures(messages: seq<Arrival>): nat {
    if messages == [] then 0
    else Mixtures(Init(messages)) + if Mixes(PhaseAfter(Init(messages)), Last(messages).got) then 1 else 0
  }

  /** The bytes held are as many as the frames counted carry, cut at the length. */
  ghost predicate Matches(n: nat, s: Reception, p: Phase) {
    if p.open then s.total == n && |s.contents| == Min(n, FRAG_FIRST_DATA + FRAG_DATA_BYTES * p.count) && !s.complete
    else p == CLOSED && s == CLEARED
  }

  // ---------- One frame ----------

  /** Frame k of a message: its number, its flag if it is the last, the length if it is the first, and its chunk. */
  ghost predicate Carrier(f: WireFrame, payload: bytes, k: nat)
    requires k < Transport.FragmentCount(|payload|)
  {
    && f.dlc == CAN_MAX_DATA && SequenceOf(f.data[0]) == k
    && (IsFlagged(f.data[0]) <==> k == Transport.FragmentCount(|payload|) - 1)
    && (k == 0 ==> FromLe16(f.data[1], f.data[2]) == |payload|)
    && Transport.Chunk(payload, k) <= f.data[if k == 0 then FRAG_HEAD_BYTES else 1..]
  }

  ghost predicate Carriers(wire: seq<WireFrame>, payload: bytes) {
    && |wire| == Transport.FragmentCount(|payload|)
    && forall k :: 0 <= k < |wire| ==> Carrier(wire[k], payload, k)
  }

  lemma {:induction false} FramesAreCarriers(payload: bytes)
    requires |payload| <= TRANSPORT_MAX
    ensures Carriers(WireOf(payload), payload)
  {
    forall k | 0 <= k < |WireOf(payload)| ensures Carrier(WireOf(payload)[k], payload, k) {
      FrameShape(payload, k);
      SequenceFieldBits(k == |WireOf(payload)| - 1, k);
    }
  }

  /** What is held is what the first m frames carry. */
  ghost predicate Holds(s: Reception, payload: bytes, m: nat)
    requires Transport.Capacity(m) <= |payload|
  {
    s.total == |payload| && s.contents == payload[..Transport.Capacity(m)]
  }

  /** A frame that carries no flag. */
  lemma {:induction false} MiddleFrame(s: Reception, p: Phase, f: WireFrame, payload: bytes, k: nat)
    requires |payload| <= TRANSPORT_MAX && k < Transport.FragmentCount(|payload|) - 1 && Carrier(f, payload, k)
    requires Sound(s) && Matches(|payload|, s, p)
    ensures !IsFlagged(f.data[0]) && Matches(|payload|, Fed(s, f), PhaseWith(p, k))
  {
    TransportTheorems.CountIsLeast(|payload|, k + 1);
  }

  lemma {:induction false} MiddleHeld(s: Reception, f: WireFrame, payload: bytes, k: nat)
    requires |payload| <= TRANSPORT_MAX && k < Transport.FragmentCount(|payload|) - 1 && Carrier(f, payload, k)
    requires Sound(s) && (k > 0 ==> Transport.Capacity(k) <= |payload| && Holds(s, payload, k))
    ensures !IsFlagged(f.data[0])
    ensures Transport.Capacity(k + 1) <= |payload| && Holds(Fed(s, f), payload, k + 1)
  {
    TransportTheorems.CountIsLeast(|payload|, k + 1);
    TransportTheorems.ChunkExtends(payload, k);
    TransportTheorems.ChunkLength(payload, k);
    var chunk := Transport.Chunk(payload, k);
    if k == 0 {
      assert f.data[3..][..5] == chunk;
    } else {
      assert f.data[1..][..7] == chunk;
    }
  }

  /** The last frame of several: it ends a message of the full length if enough frames came since its header. */
  lemma {:induction false} LastFrame(s: Reception, p: Phase, f: WireFrame, payload: bytes, k: nat)
    requires |payload| <= TRANSPORT_MAX && 1 <= k == Transport.FragmentCount(|payload|) - 1 && Carrier(f, payload, k)
    requires Sound(s) && Matches(|payload|, s, p)
    ensures Transport.Capacity(k) <= |payload| && IsFlagged(f.data[0])
    ensures Takes(|payload|, s, f) <==> p.open && p.count + 1 >= k
    ensures Holds(s, payload, k) ==> Fed(s, f).contents == payload
  {
    TransportTheorems.CountIsLeast(|payload|, k);
    TransportTheorems.CountIsLeast(|payload|, k + 1);
    TransportTheorems.ChunkExtends(payload, k);
    var chunk := Transport.Chunk(payload, k);
    assert f.data[1..][..|chunk|] == chunk;
  }

  lemma {:induction false} OnlyFrame(s: Reception, f: WireFrame, payload: bytes)
    requires Transport.FragmentCount(|payload|) == 1 && Sound(s) && Carrier(f, payload, 0)
    ensures IsFlagged(f.data[0]) && Fed(s, f).contents == payload
  {
    TransportTheorems.CountIsLeast(|payload|, 1);
    assert Transport.Chunk(payload, 0) == payload;
    assert f.data[3..][..|payload|] == payload;
  }

  // ---------- One message ----------

  lemma {:induction false} MiddleStep(st: Progress, p: Phase, f: WireFrame, payload: bytes, k: nat)
    requires |payload| <= TRANSPORT_MAX && k < Transport.FragmentCount(|payload|) - 1 && Carrier(f, payload, k)
    requires Sound(st.s) && Matches(|payload|, st.s, p)
    ensures Next(|payload|, st, f).taken == st.taken
    ensures Matches(|payload|, Next(|payload|, st, f).s, PhaseWith(p, k))
  {
    MiddleFrame(st.s, p, f, payload, k);
  }

  /** Before its last frame a message makes nothing end. */
  lemma {:induction false} Beginning(st: Progress, p: Phase, payload: bytes, wire: seq<WireFrame>, got: seq<bool>, m: nat)
    requires |payload| <= TRANSPORT_MAX && Carriers(wire, payload) && m < |wire| == |got|
    requires Sound(st.s) && Matches(|payload|, st.s, p)
    ensures Through(|payload|, st, wire, got, m).taken == st.taken
    ensures Matches(|payload|, Through(|payload|, st, wire, got, m).s, Within(p, got, m))
  {
    if m > 0 {
      Beginning(st, p, payload, wire, got, m - 1);
      WithinStep(p, got, m);
      if got[m - 1] {
        MiddleStep(Through(|payload|, st, wire, got, m - 1), Within(p, got, m - 1), wire[m - 1], payload, m - 1);
      }
    }
  }

  /** As long as nothing of the message is missing, what is held is its beginning. */
  lemma {:induction false} BeginningHeld(st: Progress, payload: bytes, wire: seq<WireFrame>, got: seq<bool>, m: nat)
    requires |payload| <= TRANSPORT_MAX && Carriers(wire, payload) && 1 <= m < |wire| == |got|
    requires Sound(st.s) && AllOf(got, m)
    ensures Transport.Capacity(m) <= |payload| && Holds(Through(|payload|, st, wire, got, m).s, payload, m)
  {
    var k := m - 1;
    if k > 0 {
      BeginningHeld(st, payload, wire, got, k);
    }
    MiddleHeld(Through(|payload|, st, wire, got, k).s, wire[k], payload, k);
  }

  /** The count is full exactly when nothing is missing. */
  lemma {:induction false} FullCount(got: seq<bool>, m: nat)
    requires 1 <= m <= |got|
    ensures Continuations(got, m) == m - 1 <==> forall k :: 1 <= k < m ==> got[k]
  {
    if m > 1 {
      FullCount(got, m - 1);
    }
  }

  lemma {:induction false} AllButLast(got: seq<bool>)
    requires got != []
    ensures AllOf(got, |got|) <==> AllOf(got, |got| - 1) && Last(got)
    ensures |got| > 1 && got[0] ==> (AllOf(got, |got| - 1) <==> Continuations(got, |got| - 1) == |got| - 2)
  {
    if |got| > 1 {
      FullCount(got, |got| - 1);
    }
  }

  /** When the last of several frames completes a length. */
  lemma {:induction false} LastFlag(p: Phase, got: seq<bool>)
    requires |got| > 1 && (p.open || p == CLOSED)
    ensures var q := Within(p, got, |got| - 1);
            if Last(got) then
              && PhaseThen(p, got) == CLOSED
              && (q.open && q.count + 2 >= |got| <==> AllOf(got, |got|) || Mixes(p, got))
              && !(AllOf(got, |got|) && Mixes(p, got))
            else PhaseThen(p, got) == q && !AllOf(got, |got|) && !Mixes(p, got)
  {
    AllButLast(got);
    WithinStep(p, got, |got|);
  }

  /** What a message adds to what is taken, and the phase it leaves. */
  ghost predicate Effect(n: nat, st: Progress, next: Progress, p: Phase, a: Arrival) {
    && Matches(n, next.s, PhaseThen(p, a.got))
    && (Whole(a) ==> next.taken == st.taken + [a.payload] && !Mixes(p, a.got))
    && (Mixes(p, a.got) ==> |next.taken| == |st.taken| + 1)
    && (!Whole(a) && !Mixes(p, a.got) ==> next.taken == st.taken)
  }

  lemma {:induction false} OnlyFrameEffect(st: Progress, p: Phase, wire: seq<WireFrame>, a: Arrival)
    requires |a.payload| <= TRANSPORT_MAX && Carriers(wire, a.payload) && 1 == |wire| == |a.got|
    requires Sound(st.s) && Matches(|a.payload|, st.s, p)
    ensures Effect(|a.payload|, st, Through(|a.payload|, st, wire, a.got, 1), p, a)
  {
    assert Through(|a.payload|, st, wire, a.got, 0) == st;
    if a.got[0] {
      OnlyFrame(st.s, wire[0], a.payload);
    }
  }

  /** The last frame clears the receiver; what is taken with it. */
  lemma {:induction false} LastStep(st: Progress, p: Phase, f: WireFrame, payload: bytes, k: nat)
    requires |payload| <= TRANSPORT_MAX && 1 <= k == Transport.FragmentCount(|payload|) - 1 && Carrier(f, payload, k)
    requires Sound(st.s) && Matches(|payload|, st.s, p)
    ensures Transport.Capacity(k) <= |payload|
    ensures var next, full := Next(|payload|, st, f), p.open && p.count + 1 >= k;
            && next.s == CLEARED
            && (full ==> |next.taken| == |st.taken| + 1)
            && (full && Holds(st.s, payload, k) ==> next.taken == st.taken + [payload])
            && (!full ==> next.taken == st.taken)
  {
    LastFrame(st.s, p, f, payload, k);
  }

  lemma {:induction false} LastEffect(n: nat, st: Progress, before: Progress, next: Progress, p: Phase, a: Arrival)
    requires |a.got| > 1 && (p.open || p == CLOSED) && Last(a.got) && before.taken == st.taken && next.s == CLEARED
    requires var q := Within(p, a.got, |a.got| - 1);
             if q.open && q.count + 2 >= |a.got| then
               |next.taken| == |before.taken| + 1 && (Whole(a) ==> next.taken == before.taken + [a.payload])
             else next.taken == before.taken
    ensures Effect(n, st, next, p, a)
  {
    LastFlag(p, a.got);
  }

  lemma {:induction false} LastFrameEffect(st: Progress, p: Phase, wire: seq<WireFrame>, a: Arrival)
    requires |a.payload| <= TRANSPORT_MAX && Carriers(wire, a.payload) && 1 < |wire| == |a.got|
    requires Sound(st.s) && Matches(|a.payload|, st.s, p)
    ensures Effect(|a.payload|, st, Through(|a.payload|, st, wire, a.got, |wire|), p, a)
  {
    var n, k := |a.payload|, |wire| - 1;
    var before := Through(n, st, wire, a.got, k);
    Beginning(st, p, a.payload, wire, a.got, k);
    if a.got[k] {
      if Whole(a) {
        BeginningHeld(st, a.payload, wire, a.got, k);
      }
      LastStep(before, Within(p, a.got, k), wire[k], a.payload, k);
      LastEffect(n, st, before, Next(n, before, wire[k]), p, a);
    } else {
      LastFlag(p, a.got);
    }
  }

  // ---------- Exactly when the whole messages are taken ----------

  lemma {:induction false} MessageEffect(n: nat, messages: seq<Arrival>)
    requires n <= TRANSPORT_MAX && messages != [] && OfLength(n, messages)
    requires Matches(n, After(n, Delivered(n, Init(messages))).s, PhaseAfter(Init(messages)))
    ensures Effect(n, After(n, Delivered(n, Init(messages))), After(n, Delivered(n, messages)),
                   PhaseAfter(Init(messages)), Last(messages))
  {
    var before, p, a := Delivered(n, Init(messages)), PhaseAfter(Init(messages)), Last(messages);
    var wire := WireOf(a.payload);
    FramesAreCarriers(a.payload);
    AfterArriving(n, before, wire, a.got, |wire|);
    if |wire| == 1 {
      OnlyFrameEffect(After(n, before), p, wire, a);
    } else {
      LastFrameEffect(After(n, before), p, wire, a);
    }
  }

  /** The flags alone tell what the receiver holds and how much it has taken. */
  lemma {:induction false} TakenCount(n: nat, messages: seq<Arrival>)
    requires n <= 512 && OfLength(n, messages)
    ensures Matches(n, After(n, Delivered(n, messages)).s, PhaseAfter(messages))
    ensures |Taken(n, Delivered(n, messages))| == |WholeOnes(messages)| + Mixtures(messages)
    ensures Mixtures(messages) == 0 ==> Taken(n, Delivered(n, messages)) == WholeOnes(messages)
  {
    if messages != [] {
      TakenCount(n, Init(messages));
      MessageEffect(n, messages);
    }
  }

  /** Frames other than headers that arrived of messages k to m. */
  function Heard(messages: seq<Arrival>, k: nat, m: int): nat
    requires m < |messages|
    decreases m + 1
  {
    if m < k then 0 else Heard(messages, k, m - 1) + Continuations(messages[m].got, |messages[m].got|)
  }

  /** Message k's header arrived, and up to message m no other header and no last frame. */
  ghost predicate Unended(messages: seq<Arrival>, k: int, m: int)
    requires forall a :: a in messages ==> a.got != []
  {
    && 0 <= k <= m < |messages| && messages[k].got[0]
    && (forall j :: k < j <= m ==> !messages[j].got[0])
    && (forall j :: k <= j <= m ==> !Last(messages[j].got))
  }

  /** Message m, its own header lost, ends message k, and enough frames arrived between. */
  ghost predicate Straddles(messages: seq<Arrival>, k: int, m: int)
    requires forall a :: a in messages ==> a.got != []
  {
    && Unended(messages, k, m - 1) && m < |messages| && !messages[m].got[0] && Last(messages[m].got)
    && Heard(messages, k, m) >= |messages[m].got| - 1
  }

  lemma {:induction false} HeardPrefix(messages: seq<Arrival>, k: nat, m: int)
    requires messages != [] && m < |messages| - 1
    ensures Heard(Init(messages), k, m) == Heard(messages, k, m)
    decreases m + 1
  {
    if m >= k {
      HeardPrefix(messages, k, m - 1);
    }
  }

  lemma {:induction false} UnendedPrefix(messages: seq<Arrival>, k: int, m: int)
    requires messages != [] && m < |messages| - 1 && forall a :: a in messages ==> a.got != []
    ensures Unended(Init(messages), k, m) <==> Unended(messages, k, m)
  {
    var g := Init(messages);
    assert forall j :: 0 <= j < |g| ==> g[j] == messages[j];
  }

  lemma {:induction false} StraddlesPrefix(messages: seq<Arrival>, k: int, m: int)
    requires messages != [] && m < |messages| - 1 && forall a :: a in messages ==> a.got != []
    ensures Straddles(Init(messages), k, m) <==> Straddles(messages, k, m)
  {
    UnendedPrefix(messages, k, m - 1);
    if 0 <= k < m {
      HeardPrefix(messages, k, m);
    }
  }

  /** Looking at one message less. */
  lemma {:induction false} AllPrefixes(messages: seq<Arrival>, m: int)
    requires messages != [] && m < |messages| - 1 && forall a :: a in messages ==> a.got != []
    ensures forall k :: Unended(Init(messages), k, m) <==> Unended(messages, k, m)
    ensures forall k: nat :: Heard(Init(messages), k, m) == Heard(messages, k, m)
  {
    forall k ensures Unended(Init(messages), k, m) <==> Unended(messages, k, m) {
      UnendedPrefix(messages, k, m);
    }
    forall k: nat ensures Heard(Init(messages), k, m) == Heard(messages, k, m) {
      HeardPrefix(messages, k, m);
    }
  }

  /** The phase from the flags: open while some message is unended, with what was heard since. */
  lemma {:induction false} PhaseIs(messages: seq<Arrival>, last: int)
    requires last == |messages| - 1 && forall a :: a in messages ==> a.got != []
    ensures PhaseAfter(messages).open ==> exists k :: Unended(messages, k, last)
    ensures forall k: nat :: Unended(messages, k, last) ==> PhaseAfter(messages) == Phase(true, Heard(messages, k, last))
  {
    if messages != [] {
      var g, a, before := Init(messages), Last(messages), last - 1;
      PhaseIs(g, before);
      AllPrefixes(messages, before);
      forall k: nat ensures Unended(messages, k, last) ==> PhaseAfter(messages) == Phase(true, Heard(messages, k, last)) {
        if k < last && Unended(messages, k, last) {
          assert Unended(messages, k, before);
        }
      }
      if PhaseAfter(messages).open {
        if a.got[0] {
          assert Unended(messages, last, last);
        } else {
          var k :| Unended(g, k, before);
          assert Unended(messages, k, before);
          assert Unended(messages, k, last);
        }
      }
    }
  }

  /** The receiver mixes exactly at the end of a straddle. */
  lemma {:induction false} MixesMeansStraddles(messages: seq<Arrival>, last: int)
    requires 0 <= last == |messages| - 1 && forall a :: a in messages ==> a.got != []
    ensures Mixes(PhaseAfter(Init(messages)), Last(messages).got) <==> exists k :: Straddles(messages, k, last)
  {
    var g, before := Init(messages), last - 1;
    PhaseIs(g, before);
    AllPrefixes(messages, before);
    if Mixes(PhaseAfter(g), Last(messages).got) {
      var k :| Unended(g, k, before);
      assert Unended(messages, k, before);
      assert Straddles(messages, k, last);
    }
    if k :| Straddles(messages, k, last) {
      assert Unended(messages, k, before);
      assert Unended(g, k, before);
    }
  }

  lemma {:induction false} MixturesMeanStraddles(messages: seq<Arrival>)
    requires forall a :: a in messages ==> a.got != []
    ensures Mixtures(messages) > 0 <==> exists k, m :: Straddles(messages, k, m)
  {
    if messages != [] {
      var g, last := Init(messages), |messages| - 1;
      MixturesMeanStraddles(g);
      MixesMeansStraddles(messages, last);
      forall k, m | m < last ensures Straddles(g, k, m) <==> Straddles(messages, k, m) {
        StraddlesPrefix(messages, k, m);
      }
      if Mixtures(g) > 0 {
        var k, m :| Straddles(g, k, m);
        assert Straddles(messages, k, m);
      }
      if k, m :| Straddles(messages, k, m) {
        assert m < last ==> Straddles(g, k, m);
      }
    }
  }

  /**
   Messages of one length that fits the buffer, any of their frames lost: what the receiver takes is exactly the
   messages that arrived whole, if and only if there is no straddle - no message left unended whose missing frames
   are made up in number by later ones without their header. The receiver counts bytes and looks at no sequence number.
   */
  lemma {:induction false} WholeOnesExactlyWhen(n: nat, messages: seq<Arrival>)
    requires n <= 512 && OfLength(n, messages)
    ensures forall a :: a in messages ==> a.got != []
    ensures Taken(n, Delivered(n, messages)) == WholeOnes(messages) <==> !exists k, m :: Straddles(messages, k, m)
  {
    TakenCount(n, messages);
    MixturesMeanStraddles(messages);
  }

  lemma {:induction false} TwoFrames(p: bytes, q: bytes, f: WireFrame, g: WireFrame)
    requires 6 <= |p| == |q| <= 12 && Carrier(f, p, 0) && Carrier(g, q, 1)
    ensures Taken(|p|, [f, g]) == [p[..5] + q[5..]]
  {
    var cleared := Progress(CLEARED, []);
    var st := Next(|p|, cleared, f);
    assert Init([f]) == [] && Init([f, g]) == [f] && After(|p|, [f]) == st;
    MiddleStep(cleared, CLOSED, f, p, 0);
    MiddleHeld(CLEARED, f, p, 0);
    LastFrame(st.s, Phase(true, 0), g, q, 1);
    assert Transport.Chunk(q, 1) == q[5..];
    assert g.data[1..][..|q| - 5] == q[5..];
  }

  lemma {:induction false} InnerFramesLost(p: bytes, q: bytes)
    requires 6 <= |p| == |q| <= 12
    ensures Transport.FragmentCount(|p|) == 2
    ensures var messages := [Arrival(p, [true, false]), Arrival(q, [false, true])];
            OfLength(|p|, messages) && Delivered(|p|, messages) == [WireOf(p)[0], WireOf(q)[1]]
  {
    var a, b := Arrival(p, [true, false]), Arrival(q, [false, true]);
    var v, w := WireOf(p), WireOf(q);
    assert Init([a, b]) == [a] && Init([a]) == [];
    assert |v| == |w| == 2 && a.got[0] && !a.got[1] && !b.got[0] && b.got[1];
    assert Arriving([], v, a.got, 0) == [];
    assert Arriving([], v, a.got, 1) == [] + [v[0]];
    assert Arriving([], v, a.got, 2) == [v[0]];
    assert Delivered(|p|, [a]) == [v[0]];
    assert Arriving([v[0]], w, b.got, 0) == [v[0]];
    assert Arriving([v[0]], w, b.got, 1) == [v[0]];
    assert Arriving([v[0]], w, b.got, 2) == [v[0]] + [w[1]];
  }

  lemma {:induction false} InnerFramesStraddle(p: bytes, q: bytes)
    ensures Straddles([Arrival(p, [true, false]), Arrival(q, [false, true])], 0, 1)
  {
    var messages := [Arrival(p, [true, false]), Arrival(q, [false, true])];
    assert Continuations(messages[1].got, 2) == 1 && Heard(messages, 0, 1) >= 1;
    assert Unended(messages, 0, 0);
  }

  /** The smallest failing instance: of two messages of two frames, the inner frames lost, for any contents. */
  lemma {:induction false} LosingInnerFramesMixes(p: bytes, q: bytes)
    requires 6 <= |p| == |q| <= 12
    ensures var messages := [Arrival(p, [true, false]), Arrival(q, [false, true])];
            && OfLength(|p|, messages) && Straddles(messages, 0, 1)
            && Taken(|p|, Delivered(|p|, messages)) == [p[..5] + q[5..]]
  {
    InnerFramesLost(p, q);
    InnerFramesStraddle(p, q);
    FramesAreCarriers(p);
    FramesAreCarriers(q);
    TwoFrames(p, q, WireOf(p)[0], WireOf(q)[1]);
  }
}
