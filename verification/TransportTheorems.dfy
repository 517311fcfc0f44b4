/** What can/transport.py promises: losslessness, rejection of loss and duplication, order independence, minimality. */
module TransportTheorems {
  import opened Wrappers
  import opened Bytes
  import opened Can
  import opened Sequences
  import opened Transport

  // ---------- The shape of a fragmented message ----------

  /** The frame count is the least number of frames whose capacity reaches n; a byte numbers them up to 1790. */
  lemma {:induction false} CountIsLeast(n: nat, k: nat)
    ensures FragmentCount(n) <= k <==> 1 <= k && n <= Capacity(k)
    ensures FragmentCount(n) - 1 <= 255 <==> n <= 1790
  {
  }

  /** A chunk fills its frame, except that the last one may be short. */
  lemma {:induction false} ChunkLength(payload: bytes, k: nat)
    requires k < FragmentCount(|payload|)
    ensures |Chunk(payload, k)| <= if k == 0 then FIRST_FRAME_PAYLOAD else CONT_FRAME_PAYLOAD
    ensures k < FragmentCount(|payload|) - 1 ==>
              |Chunk(payload, k)| == if k == 0 then FIRST_FRAME_PAYLOAD else CONT_FRAME_PAYLOAD
    ensures |payload| <= MAX_PAYLOAD ==> k <= MAX_SEQUENCE
  {
  }

  /** Each frame is a classic CAN frame, numbered by its position in one byte; only the last may be short. */
  lemma {:induction false} FragmentShape(id: int, payload: bytes, k: nat)
    requires |payload| <= 1790 && k < FragmentCount(|payload|)
    ensures var f := Fragments(id, payload)[k];
            && f.arbitrationId == id
            && 1 <= |f.data| <= 8
            && SequenceByte(f) == k <= 255
            && (k < FragmentCount(|payload|) - 1 ==> |f.data| == 8)
            && Part(f, k) == Chunk(payload, k)
            && (k == 0 ==> 3 <= |f.data| && FromLe16(f.data[1], f.data[2]) == |payload|)
  {
    ChunkLength(payload, k);
    assert Fragments(id, payload)[k] == FragmentAt(id, payload, k);
    if k == 0 {
      Le16RoundTrip(|payload|);
    }
  }

  lemma {:induction false} ChunkExtends(payload: bytes, k: nat)
    requires k < FragmentCount(|payload|)
    ensures payload[..Min(Capacity(k), |payload|)] + Chunk(payload, k) == payload[..Min(Capacity(k + 1), |payload|)]
  {
    CountIsLeast(|payload|, k);
  }

  /** Each frame, byte by byte: 5 payload bytes behind the header in frame 0, then 7 in each, numbered from 1. */
  lemma {:induction false} FragmentInBytes(id: int, payload: bytes, k: nat)
    requires |payload| <= 1790
    ensures |Fragments(id, payload)| <= k <==> 1 <= k && |payload| <= 7 * k - 2
    ensures k < |Fragments(id, payload)| ==>
              var n, f := |payload|, Fragments(id, payload)[k];
              && f.arbitrationId == id && k < 256
              && f.data == if k == 0 then [0, n % 256, n / 256] + payload[..Min(5, n)]
                           else [k] + payload[7 * k - 2..Min(7 * k + 5, n)]
  {
    CountIsLeast(|payload|, k);
    if k < |Fragments(id, payload)| {
      ChunkLength(payload, k);
    }
  }

  lemma {:induction false} CarriedLast(ordered: seq<CANMessage>, m: nat)
    requires 1 <= m <= |ordered|
    ensures Carried(ordered[..m]) == Carried(ordered[..m - 1]) + Part(ordered[m - 1], m - 1)
  {
    assert Init(ordered[..m]) == ordered[..m - 1];
  }

  /** The first m frames carry the first Capacity(m) bytes, no byte lost, repeated or moved. */
  lemma {:induction false} CarriedPrefix(id: int, payload: bytes, m: nat)
    requires |payload| <= 1790 && m <= FragmentCount(|payload|)
    ensures Carried(Fragments(id, payload)[..m]) == payload[..Min(Capacity(m), |payload|)]
  {
    if m > 0 {
      CarriedPrefix(id, payload, m - 1);
      FragmentShape(id, payload, m - 1);
      CarriedLast(Fragments(id, payload), m);
      ChunkExtends(payload, m - 1);
    }
  }

  lemma {:induction false} CarriedWhole(id: int, payload: bytes)
    requires |payload| <= 1790
    ensures Carried(Fragments(id, payload)) == payload
  {
    var fs := Fragments(id, payload);
    CarriedPrefix(id, payload, |fs|);
    CountIsLeast(|payload|, |fs|);
    assert fs[..|fs|] == fs && payload[..|payload|] == payload;
  }

  /** A received prefix decodes to the payload exactly when it is the whole message. */
  lemma {:induction false} DecodePrefix(id: int, payload: bytes, m: nat)
    requires |payload| <= MAX_PAYLOAD && 1 <= m <= FragmentCount(|payload|)
    ensures Decode(Fragments(id, payload)[..m]) ==
            if m == FragmentCount(|payload|) then Ok(payload) else Err(IncompleteMessage)
  {
    FragmentShape(id, payload, 0);
    CarriedPrefix(id, payload, m);
    CountIsLeast(|payload|, m);
    assert payload[..|payload|] == payload;
  }

  // ---------- Arrival order ----------

  /** A clean list of frames has no first fault, so its verdict is Decide. */
  lemma {:induction false} CleanVerdict(frames: seq<CANMessage>)
    requires frames != [] && Clean(multiset(frames))
    ensures Reassembled(frames) == Decide(multiset(frames))
  {
    assert forall i :: 0 <= i < |frames| ==> frames[i] in multiset(frames);
  }

  /** Clean frames that arrive in sequence are decoded as they stand. */
  lemma {:induction false} SequentialVerdict(frames: seq<CANMessage>)
    requires frames != [] && Clean(multiset(frames)) && InSequence(frames)
    ensures Reassembled(frames) == Decode(frames)
  {
    CleanVerdict(frames);
    InSequenceVerdict(frames);
  }

  lemma {:induction false} FirstFaultExists(frames: seq<CANMessage>, n: nat)
    requires n < |frames| && FrameFault(frames[n], frames[0].arbitrationId).Some?
    ensures exists i: nat :: FirstFaultAt(frames, i)
  {
    if j: nat :| j < n && FrameFault(frames[j], frames[0].arbitrationId).Some? {
      FirstFaultExists(frames, j);
    } else {
      assert FirstFaultAt(frames, n);
    }
  }

  /** The first fault decides. */
  lemma {:induction false} FirstFaultVerdict(frames: seq<CANMessage>, i: nat)
    requires FirstFaultAt(frames, i)
    ensures Reassembled(frames) == Err(FrameFault(frames[i], frames[0].arbitrationId).value)
  {
    assert forall j: nat :: FirstFaultAt(frames, j) ==> j == i;
  }

  lemma {:induction false} FaultlessIsClean(frames: seq<CANMessage>)
    requires frames != []
    ensures (forall k :: 0 <= k < |frames| ==> FrameFault(frames[k], frames[0].arbitrationId).None?) ==> Clean(multiset(frames))
  {
    assert forall f :: f in multiset(frames) ==> f in frames;
  }

  /** A list that is not clean has a first fault. */
  lemma {:induction false} UncleanHasFault(frames: seq<CANMessage>) returns (i: nat)
    requires !Clean(multiset(frames))
    ensures FirstFaultAt(frames, i)
  {
    assert frames != [];
    FaultlessIsClean(frames);
    var n :| 0 <= n < |frames| && FrameFault(frames[n], frames[0].arbitrationId).Some?;
    FirstFaultExists(frames, n);
    i :| FirstFaultAt(frames, i);
  }

  ghost predicate FrameLevel(r: Result<bytes, TransportError>) {
    r.Err? && r.error in {MixedIds, EmptyFrame, OversizedFrame}
  }

  /** A list that is not clean is rejected by a per-frame check, whatever its order. */
  lemma {:induction false} UncleanVerdict(frames: seq<CANMessage>)
    requires !Clean(multiset(frames))
    ensures FrameLevel(Reassembled(frames))
  {
    var i := UncleanHasFault(frames);
    FirstFaultVerdict(frames, i);
  }

  /**
   For any frames at all, arrival order cannot change the bytes delivered or whether they are delivered.
   It cannot change the reason for a rejection either, unless a single frame is already unacceptable.
   */
  lemma {:induction false} ArrivalOrderIrrelevant(one: seq<CANMessage>, other: seq<CANMessage>)
    requires multiset(one) == multiset(other)
    ensures Reassembled(one) == Reassembled(other) || (FrameLevel(Reassembled(one)) && FrameLevel(Reassembled(other)))
  {
    assert |multiset(one)| == |one| && |multiset(other)| == |other|;
    if one != [] {
      if Clean(multiset(one)) {
        CleanVerdict(one);
        CleanVerdict(other);
      } else {
        UncleanVerdict(one);
        UncleanVerdict(other);
      }
    }
  }

  // ---------- When the reported error depends on the order ----------

  predicate Legal(f: CANMessage) {
    1 <= |f.data| <= 8
  }

  predicate Oversized(f: CANMessage) {
    |f.data| > 8
  }

  ghost predicate OneId(frames: multiset<CANMessage>) {
    forall f, g :: f in frames && g in frames ==> f.arbitrationId == g.arbitrationId
  }

  /** Only one thing can be reported first, whichever frame comes first. */
  ghost predicate OneVerdict(frames: multiset<CANMessage>) {
    || (forall f :: f in frames ==> Legal(f))
    || (forall f :: f in frames ==> f.data == [])
    || (forall f :: f in frames ==> Oversized(f))
    || (OneId(frames) && !((exists f :: f in frames && f.data == []) && (exists f :: f in frames && Oversized(f))))
  }

  lemma {:induction false} CleanNotFrameLevel(frames: seq<CANMessage>)
    requires Clean(multiset(frames))
    ensures !FrameLevel(Reassembled(frames))
  {
    if frames != [] {
      CleanVerdict(frames);
      assert |multiset(frames)| == |frames|;
    }
  }

  /** If only one thing can be reported, any two orders report it. */
  lemma {:induction false} OneVerdictSuffices(one: seq<CANMessage>, other: seq<CANMessage>)
    requires multiset(one) == multiset(other) && OneVerdict(multiset(one))
    ensures Reassembled(one) == Reassembled(other)
  {
    var ms := multiset(one);
    if Clean(ms) {
      ArrivalOrderIrrelevant(one, other);
      CleanNotFrameLevel(one);
    } else {
      var i := UncleanHasFault(one);
      var j := UncleanHasFault(other);
      FirstFaultVerdict(one, i);
      FirstFaultVerdict(other, j);
      assert one[i] in ms && one[0] in ms && other[j] in ms && other[0] in ms;
      assert i > 0 ==> FrameFault(one[0], one[0].arbitrationId).None?;
      assert j > 0 ==> FrameFault(other[0], other[0].arbitrationId).None?;
    }
  }

  /** An arrival order of the same frames that begins with f. */
  lemma {:induction false} BeginningWith(frames: seq<CANMessage>, f: CANMessage) returns (order: seq<CANMessage>)
    requires f in multiset(frames)
    ensures multiset(order) == multiset(frames) && order != [] && order[0] == f
  {
    var i :| 0 <= i < |frames| && frames[i] == f;
    assert frames == frames[..i] + [f] + frames[i + 1..];
    order := [f] + frames[..i] + frames[i + 1..];
  }

  /** An arrival order of the same frames that begins with f and then g. */
  lemma {:induction false} BeginningWithTwo(frames: seq<CANMessage>, f: CANMessage, g: CANMessage) returns (order: seq<CANMessage>)
    requires f in multiset(frames) && g in multiset(frames) && f != g
    ensures multiset(order) == multiset(frames) && |order| >= 2 && order[0] == f && order[1] == g
  {
    var first := BeginningWith(frames, f);
    var rest := first[1..];
    assert first == [f] + rest;
    assert g in multiset(rest);
    var second := BeginningWith(rest, g);
    order := [f] + second;
  }

  /** A bad frame in front is what gets reported. */
  lemma {:induction false} BadFirst(order: seq<CANMessage>)
    requires order != [] && !Legal(order[0])
    ensures Reassembled(order) == Err(if order[0].data == [] then EmptyFrame else OversizedFrame)
  {
    FirstFaultVerdict(order, 0);
  }

  /** Otherwise two orders report different things. */
  lemma {:induction false} TwoVerdicts(frames: seq<CANMessage>) returns (one: seq<CANMessage>, other: seq<CANMessage>)
    requires !OneVerdict(multiset(frames))
    ensures multiset(one) == multiset(frames) && multiset(other) == multiset(frames)
    ensures Reassembled(one) != Reassembled(other)
  {
    var ms := multiset(frames);
    var bad :| bad in ms && !Legal(bad);
    one := BeginningWith(frames, bad);
    BadFirst(one);
    if f :| f in ms && !Legal(f) && (f.data == []) != (bad.data == []) {
      other := BeginningWith(frames, f);
      BadFirst(other);
    } else {
      var legal :| legal in ms && Legal(legal);
      var f, g :| f in ms && g in ms && f.arbitrationId != g.arbitrationId;
      var foreign := if f.arbitrationId != legal.arbitrationId then f else g;
      other := BeginningWithTwo(frames, legal, foreign);
      FirstFaultVerdict(other, 1);
    }
  }

  /**
   The exact extent of the exception in ArrivalOrderIrrelevant: all arrival orders of some frames end alike, error
   and all, if and only if the frames are all of legal length, or all empty, or all oversized, or have one
   identifier and not both an empty and an oversized frame among them.
   */
  lemma {:induction false} OrderIrrelevantExactlyWhen(frames: seq<CANMessage>)
    ensures (forall order :: multiset(order) == multiset(frames) ==> Reassembled(order) == Reassembled(frames))
            <==> OneVerdict(multiset(frames))
  {
    if OneVerdict(multiset(frames)) {
      forall order | multiset(order) == multiset(frames) ensures Reassembled(order) == Reassembled(frames) {
        OneVerdictSuffices(order, frames);
      }
    } else {
      var one, other := TwoVerdicts(frames);
    }
  }

  // ---------- Loss, duplication, reordering of one message's frames ----------

  /** Every frame received is one of the message's own: nothing else was put on the bus under its identifier. */
  ghost predicate DrawnFrom(received: seq<CANMessage>, sent: seq<CANMessage>) {
    forall i :: 0 <= i < |received| ==> received[i] in sent
  }

  lemma {:induction false} DrawnFrameIs(id: int, payload: bytes, f: CANMessage)
    requires |payload| <= MAX_PAYLOAD && f in Fragments(id, payload)
    ensures 0 <= SequenceByte(f) < FragmentCount(|payload|)
    ensures f == Fragments(id, payload)[SequenceByte(f)]
    ensures f.arbitrationId == id && 1 <= |f.data| <= CAN_MAX_DATA
  {
    var fs := Fragments(id, payload);
    var k :| 0 <= k < |fs| && fs[k] == f;
    FragmentShape(id, payload, k);
  }

  /** Some frame was received twice. */
  ghost predicate Repeated(received: seq<CANMessage>) {
    exists i, j :: 0 <= i < j < |received| && received[i] == received[j]
  }

  /** Counting from the first, a frame is missing although enough frames arrived to include it. */
  ghost predicate HasGap(received: seq<CANMessage>, sent: seq<CANMessage>) {
    exists k :: 0 <= k < |received| && k < |sent| && sent[k] !in received
  }

  lemma {:induction false} DistinctIffUnrepeated(id: int, payload: bytes, received: seq<CANMessage>)
    requires |payload| <= MAX_PAYLOAD && DrawnFrom(received, Fragments(id, payload))
    ensures DistinctSequences(multiset(received)) <==> !Repeated(received)
  {
    DistinctPositions(received);
    forall i, j | 0 <= i < j < |received|
      ensures SequenceByte(received[i]) == SequenceByte(received[j]) <==> received[i] == received[j]
    {
      DrawnFrameIs(id, payload, received[i]);
      DrawnFrameIs(id, payload, received[j]);
    }
  }

  lemma {:induction false} CarriesIffReceived(id: int, payload: bytes, received: seq<CANMessage>, k: nat)
    requires |payload| <= MAX_PAYLOAD && DrawnFrom(received, Fragments(id, payload))
    requires k < FragmentCount(|payload|)
    ensures Carries(multiset(received), k) <==> Fragments(id, payload)[k] in received
  {
    var fs := Fragments(id, payload);
    if Carries(multiset(received), k) {
      var f :| f in multiset(received) && SequenceByte(f) == k;
      assert f in received;
      DrawnFrameIs(id, payload, f);
    }
    if fs[k] in received {
      FragmentShape(id, payload, k);
      assert fs[k] in multiset(received);
    }
  }

  /** Frames without repeats are at most as many as the message has. */
  lemma {:induction false} UnrepeatedFits(id: int, payload: bytes, received: seq<CANMessage>)
    requires |payload| <= MAX_PAYLOAD && DrawnFrom(received, Fragments(id, payload)) && !Repeated(received)
    ensures |received| <= FragmentCount(|payload|)
    ensures multiset(received) <= multiset(Fragments(id, payload))
  {
    var fs := Fragments(id, payload);
    forall f | f in multiset(received) ensures multiset(received)[f] <= multiset(fs)[f] {
      var i :| 0 <= i < |received| && received[i] == f;
      CountOnce(received, i);
      assert f in fs;
    }
    assert multiset(fs) == multiset(received) + (multiset(fs) - multiset(received));
    assert |multiset(fs)| == |fs| && |multiset(received)| == |received|;
  }

  lemma {:induction false} ContiguousIffNoGap(id: int, payload: bytes, received: seq<CANMessage>)
    requires |payload| <= MAX_PAYLOAD && DrawnFrom(received, Fragments(id, payload)) && !Repeated(received)
    ensures Contiguous(multiset(received)) <==> !HasGap(received, Fragments(id, payload))
  {
    var fs := Fragments(id, payload);
    UnrepeatedFits(id, payload, received);
    assert |multiset(received)| == |received|;
    forall k | 0 <= k < |received| ensures Carries(multiset(received), k) <==> fs[k] in received {
      CarriesIffReceived(id, payload, received, k);
    }
  }

  lemma {:induction false} GaplessIsPrefix(id: int, payload: bytes, received: seq<CANMessage>)
    requires |payload| <= MAX_PAYLOAD && DrawnFrom(received, Fragments(id, payload))
    requires !Repeated(received) && !HasGap(received, Fragments(id, payload))
    requires Contiguous(multiset(received))
    ensures |received| <= FragmentCount(|payload|)
    ensures Arranged(multiset(received)) == Fragments(id, payload)[..|received|]
  {
    var fs := Fragments(id, payload);
    var arranged := Arranged(multiset(received));
    UnrepeatedFits(id, payload, received);
    forall k | 0 <= k < |received| ensures arranged[k] == fs[k] {
      assert arranged[k] in received;
      DrawnFrameIs(id, payload, arranged[k]);
    }
  }

  lemma {:induction false} AcceptedIffPermutation(id: int, payload: bytes, received: seq<CANMessage>)
    requires |payload| <= MAX_PAYLOAD && DrawnFrom(received, Fragments(id, payload))
    ensures multiset(received) == multiset(Fragments(id, payload)) <==>
            received != [] && !Repeated(received) && |received| >= FragmentCount(|payload|)
    ensures multiset(received) == multiset(Fragments(id, payload)) ==> !HasGap(received, Fragments(id, payload))
  {
    var fs := Fragments(id, payload);
    assert |multiset(fs)| == |fs| && |multiset(received)| == |received|;
    forall i, j | 0 <= i < j < |fs| ensures fs[i] != fs[j] {
      FragmentShape(id, payload, i);
      FragmentShape(id, payload, j);
    }
    if multiset(received) == multiset(fs) {
      if i, j :| 0 <= i < j < |received| && received[i] == received[j] {
        CountTwice(received, i, j);
        assert received[i] in fs;
        var k :| 0 <= k < |fs| && fs[k] == received[i];
        CountOnce(fs, k);
        assert false;
      }
      forall k | 0 <= k < |fs| ensures fs[k] in received {
        assert fs[k] in multiset(fs);
      }
    }
    if received != [] && !Repeated(received) && |received| >= |fs| {
      UnrepeatedFits(id, payload, received);
      var rest := multiset(fs) - multiset(received);
      assert multiset(fs) == multiset(received) + rest;
      assert |rest| == 0;
    }
  }

  /**
   Any frames of one message, in any order, with any omissions and repeats: the receiver's exact verdict.
   It accepts precisely a permutation of the whole message and then returns the payload.
   */
  lemma {:induction false} LossyDelivery(id: int, payload: bytes, received: seq<CANMessage>)
    requires |payload| <= 1790 && DrawnFrom(received, Fragments(id, payload))
    ensures Reassembled(received) ==
            if received == [] then Err(NoFrames)
            else if Repeated(received) then Err(DuplicateSequence)
            else if HasGap(received, Fragments(id, payload)) then Err(MissingSequence)
            else if |received| < FragmentCount(|payload|) then Err(IncompleteMessage)
            else Ok(payload)
    ensures Reassembled(received).Ok? <==> multiset(received) == multiset(Fragments(id, payload))
  {
    var fs := Fragments(id, payload);
    var ms := multiset(received);
    forall f | f in received ensures f in fs && f == fs[SequenceByte(f)] && f.arbitrationId == id && 1 <= |f.data| <= CAN_MAX_DATA {
      DrawnFrameIs(id, payload, f);
    }
    assert |ms| == |received|;
    if received != [] {
      assert Clean(ms);
      CleanVerdict(received);
      DistinctIffUnrepeated(id, payload, received);
      if !Repeated(received) {
        ContiguousIffNoGap(id, payload, received);
        if !HasGap(received, fs) {
          GaplessIsPrefix(id, payload, received);
          DecodePrefix(id, payload, |received|);
        }
      }
    }
    AcceptedIffPermutation(id, payload, received);
  }

  // ---------- The normal form ----------

  lemma {:induction false} CarriedBounded(ordered: seq<CANMessage>)
    requires forall f :: f in ordered ==> |f.data| <= CAN_MAX_DATA
    ensures |Carried(ordered)| <= Capacity(|ordered|)
  {
    if ordered != [] {
      CarriedBounded(Init(ordered));
    }
  }

  lemma {:induction false} RoundTrip(id: int, payload: bytes)
    requires |payload| <= 1790
    ensures Reassembled(Fragments(id, payload)) == Ok(payload)
  {
    var fs := Fragments(id, payload);
    LossyDelivery(id, payload, fs);
    assert Reassembled(fs).Ok?;
  }

  /**
   Whatever frames the receiver accepts, canonical or not, their payload has a canonical form of its own,
   with no more frames, that delivers the same payload. So nothing longer than 1790 bytes ever arrives.
   */
  lemma {:induction false} MinimalForm(frames: seq<CANMessage>, payload: bytes, id: int)
    requires Reassembled(frames) == Ok(payload)
    ensures |payload| <= 1790
    ensures |Fragments(id, payload)| <= |frames|
    ensures Reassembled(Fragments(id, payload)) == Ok(payload)
  {
    var ms := multiset(frames);
    assert |ms| == |frames|;
    if !Clean(ms) {
      UncleanVerdict(frames);
      assert false;
    }
    CleanVerdict(frames);
    var ordered := Arranged(ms);
    forall f | f in ordered ensures |f.data| <= CAN_MAX_DATA {
      assert f in ms;
    }
    CarriedBounded(ordered);
    assert |payload| <= Capacity(|frames|);
    assert SequenceByte(Last(ordered)) == |frames| - 1;
    CountIsLeast(|payload|, |frames|);
    RoundTrip(id, payload);
  }

  /** The bound is tight: 1790 bytes use sequence number 255, and one byte more would need 256. */
  lemma {:induction false} MaxPayloadIsTight(id: int, payload: bytes)
    ensures |payload| == 1790 ==> |Fragments(id, payload)| == 256 && SequenceByte(Last(Fragments(id, payload))) == 255
    ensures |payload| == 1791 ==> FragmentCount(|payload|) - 1 == 256
  {
    if |payload| == MAX_PAYLOAD {
      FragmentShape(id, payload, 255);
    }
  }
}
