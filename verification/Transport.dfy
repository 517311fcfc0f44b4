/**
 The multi-frame transport of can/transport.py: the loops that split a payload and rebuild it,
 each proved against a specification that does not mention the order frames arrive in.
 */
module Transport {
  import opened Wrappers
  import opened Bytes
  import opened Can
  import opened Sequences

  const FIRST_FRAME_PAYLOAD := 5
  const CONT_FRAME_PAYLOAD := 7
  const MAX_SEQUENCE := 255
  const MAX_PAYLOAD := FIRST_FRAME_PAYLOAD + MAX_SEQUENCE * CONT_FRAME_PAYLOAD

  datatype TransportError =
    | PayloadTooLong
    | NoFrames
    | MixedIds
    | EmptyFrame
    | OversizedFrame
    | DuplicateSequence
    | MissingSequence
    | ShortHeader
    | IncompleteMessage

  // ---------- What fragmentation is ----------

  /** One frame for the first five bytes, then one for every seven bytes begun. */
  function FragmentCount(n: nat): nat {
    if n <= FIRST_FRAME_PAYLOAD then 1
    else 1 + (n - FIRST_FRAME_PAYLOAD + CONT_FRAME_PAYLOAD - 1) / CONT_FRAME_PAYLOAD
  }

  /** How many payload bytes the first k full frames carry. */
  function Capacity(k: nat): nat {
    if k == 0 then 0 else FIRST_FRAME_PAYLOAD + CONT_FRAME_PAYLOAD * (k - 1)
  }

  /** The payload bytes carried by frame k. */
  function Chunk(payload: bytes, k: nat): bytes
    requires k < FragmentCount(|payload|)
  {
    payload[Capacity(k)..Min(Capacity(k + 1), |payload|)]
  }

  function FragmentAt(id: int, payload: bytes, k: nat): CANMessage
    requires |payload| <= MAX_PAYLOAD && k < FragmentCount(|payload|)
  {
    CANMessage(id, (if k == 0 then [0] + Le16(|payload|) else [k]) + Chunk(payload, k))
  }

  function Fragments(id: int, payload: bytes): seq<CANMessage>
    requires |payload| <= MAX_PAYLOAD
  {
    seq(FragmentCount(|payload|), k requires 0 <= k < FragmentCount(|payload|) => FragmentAt(id, payload, k))
  }

  method Fragment(id: int, payload: bytes) returns (r: Result<seq<CANMessage>, TransportError>)
    ensures r == if |payload| <= 1790 then Ok(Fragments(id, payload)) else Err(PayloadTooLong)
  {
    var total := |payload|;
    if total > MAX_PAYLOAD {
      return Err(PayloadTooLong);
    }
    var frames := [];
    var header: bytes := [0, total % 256, total / 256 % 256];
    frames := frames + [CANMessage(id, header + payload[..Min(FIRST_FRAME_PAYLOAD, total)])];
    var offset := FIRST_FRAME_PAYLOAD;
    var sequence := 1;
    while offset < total
      invariant 1 <= sequence <= FragmentCount(total)
      invariant offset == FIRST_FRAME_PAYLOAD + CONT_FRAME_PAYLOAD * (sequence - 1)
      invariant |frames| == sequence
      invariant forall k :: 0 <= k < sequence ==> frames[k] == FragmentAt(id, payload, k)
    {
      var chunk := payload[offset..Min(offset + CONT_FRAME_PAYLOAD, total)];
      frames := frames + [CANMessage(id, [sequence] + chunk)];
      offset := offset + CONT_FRAME_PAYLOAD;
      sequence := sequence + 1;
    }
    assert frames == Fragments(id, payload);
    r := Ok(frames);
  }

  // ---------- What reassembly is ----------

  /** The sequence number of a frame; -1 for a frame without data. */
  function SequenceByte(f: CANMessage): int {
    if f.data == [] then -1 else f.data[0]
  }

  /** The first defect a frame has, compared with the identifier of the message. */
  function FrameFault(f: CANMessage, id: int): Option<TransportError> {
    if f.arbitrationId != id then Some(MixedIds)
    else if |f.data| == 0 then Some(EmptyFrame)
    else if |f.data| > CAN_MAX_DATA then Some(OversizedFrame)
    else None
  }

  /** Every frame is a non-empty classic CAN frame and all have one identifier. */
  ghost predicate Clean(frames: multiset<CANMessage>) {
    && (forall f :: f in frames ==> 1 <= |f.data| <= CAN_MAX_DATA)
    && (forall f, g :: f in frames && g in frames ==> f.arbitrationId == g.arbitrationId)
  }

  /** No sequence number occurs twice. */
  ghost predicate DistinctSequences(frames: multiset<CANMessage>) {
    && (forall f :: f in frames ==> frames[f] == 1)
    && (forall f, g :: f in frames && g in frames && SequenceByte(f) == SequenceByte(g) ==> f == g)
  }

  ghost predicate Carries(frames: multiset<CANMessage>, k: int) {
    exists f :: f in frames && SequenceByte(f) == k
  }

  /** Each of the numbers 0, 1, ..., N-1 occurs, N being the number of frames. */
  ghost predicate Contiguous(frames: multiset<CANMessage>) {
    forall k :: 0 <= k < |frames| ==> Carries(frames, k)
  }

  ghost predicate InSequence(ordered: seq<CANMessage>) {
    forall i :: 0 <= i < |ordered| ==> SequenceByte(ordered[i]) == i
  }

  /** The frames in the order of their sequence numbers. */
  ghost function Arranged(frames: multiset<CANMessage>): (ordered: seq<CANMessage>)
    requires Contiguous(frames)
    ensures |ordered| == |frames|
    ensures forall k :: 0 <= k < |ordered| ==> ordered[k] in frames && SequenceByte(ordered[k]) == k
  {
    seq(|frames|, k requires 0 <= k < |frames| =>
      assert Carries(frames, k);
      var f :| f in frames && SequenceByte(f) == k; f)
  }

  /** The payload bytes of the frame at position k: all but the header. */
  function Part(f: CANMessage, k: nat): bytes {
    From(f.data, if k == 0 then 3 else 1)
  }

  function Carried(ordered: seq<CANMessage>): bytes {
    if ordered == [] then [] else Carried(Init(ordered)) + Part(Last(ordered), |ordered| - 1)
  }

  function Decode(ordered: seq<CANMessage>): Result<bytes, TransportError>
    requires ordered != []
  {
    if |ordered[0].data| < 3 then Err(ShortHeader)
    else
      var total := FromLe16(ordered[0].data[1], ordered[0].data[2]);
      if |Carried(ordered)| < total then Err(IncompleteMessage) else Ok(Carried(ordered)[..total])
  }

  /** The verdict on a clean set of frames: it depends on which frames there are, and on nothing else. */
  ghost function Decide(frames: multiset<CANMessage>): Result<bytes, TransportError>
    requires |frames| > 0
  {
    if !DistinctSequences(frames) then Err(DuplicateSequence)
    else if !Contiguous(frames) then Err(MissingSequence)
    else Decode(Arranged(frames))
  }

  /** Position i holds the first frame that cannot belong to the message the first frame began. */
  ghost predicate FirstFaultAt(frames: seq<CANMessage>, i: nat) {
    && i < |frames|
    && FrameFault(frames[i], frames[0].arbitrationId).Some?
    && forall j :: 0 <= j < i ==> FrameFault(frames[j], frames[0].arbitrationId).None?
  }

  /** The specification of `reassemble`. */
  ghost function Reassembled(frames: seq<CANMessage>): Result<bytes, TransportError> {
    if frames == [] then Err(NoFrames)
    else if i: nat :| FirstFaultAt(frames, i) then Err(FrameFault(frames[i], frames[0].arbitrationId).value)
    else Decide(multiset(frames))
  }

  // ---------- The loops of reassemble ----------

  ghost predicate Sorted(fs: seq<CANMessage>) {
    forall i, j :: 0 <= i < j < |fs| ==> SequenceByte(fs[i]) <= SequenceByte(fs[j])
  }

  lemma {:induction false} SortedAppend(sorted: seq<CANMessage>, f: CANMessage)
    requires Sorted(sorted)
    requires forall x :: x in multiset(sorted) ==> SequenceByte(x) <= SequenceByte(f)
    ensures Sorted(sorted + [f])
  {
    forall i | 0 <= i < |sorted| ensures SequenceByte(sorted[i]) <= SequenceByte(f) {
      assert sorted[i] in multiset(sorted);
    }
  }

  lemma {:induction false} SortedInit(sorted: seq<CANMessage>)
    requires Sorted(sorted) && sorted != []
    ensures Sorted(Init(sorted)) && multiset(sorted) == multiset(Init(sorted)) + multiset{Last(sorted)}
    ensures forall x :: x in multiset(Init(sorted)) ==> SequenceByte(x) <= SequenceByte(Last(sorted))
  {
    assert sorted == Init(sorted) + [Last(sorted)];
  }

  function Inserted(sorted: seq<CANMessage>, f: CANMessage): (r: seq<CANMessage>)
    requires Sorted(sorted)
    ensures Sorted(r) && multiset(r) == multiset(sorted) + multiset{f}
  {
    if sorted == [] then [f]
    else
      SortedInit(sorted);
      if SequenceByte(Last(sorted)) <= SequenceByte(f) then
        SortedAppend(sorted, f);
        sorted + [f]
      else
        SortedAppend(Inserted(Init(sorted), f), Last(sorted));
        Inserted(Init(sorted), f) + [Last(sorted)]
  }

  /** `sorted(frames, key=lambda f: f.data[0])`; the library's algorithm is not modelled, its result is. */
  function SortedBySequence(frames: seq<CANMessage>): (ordered: seq<CANMessage>)
    ensures multiset(ordered) == multiset(frames) && Sorted(ordered)
  {
    if frames == [] then []
    else
      assert frames == Init(frames) + [Last(frames)];
      Inserted(SortedBySequence(Init(frames)), Last(frames))
  }

  function WithSequence(frames: seq<CANMessage>, k: int): seq<CANMessage> {
    if frames == [] then []
    else if SequenceByte(Last(frames)) == k then WithSequence(Init(frames), k) + [Last(frames)]
    else WithSequence(Init(frames), k)
  }

  lemma {:induction false} InsertedLast(sorted: seq<CANMessage>, f: CANMessage, k: int)
    requires Sorted(sorted)
    ensures WithSequence(Inserted(sorted, f), k) ==
            if SequenceByte(f) == k then WithSequence(sorted, k) + [f] else WithSequence(sorted, k)
  {
    if sorted == [] {
      assert Init([f]) == [];
    } else if SequenceByte(Last(sorted)) <= SequenceByte(f) {
      assert Init(sorted + [f]) == sorted;
    } else {
      SortedInit(sorted);
      InsertedLast(Init(sorted), f, k);
      assert Init(Inserted(sorted, f)) == Inserted(Init(sorted), f);
    }
  }

  /** The sort is stable: frames with one sequence byte stay in the order they came. */
  lemma {:induction false} SortIsStable(frames: seq<CANMessage>, k: int)
    ensures WithSequence(SortedBySequence(frames), k) == WithSequence(frames, k)
  {
    if frames != [] {
      SortIsStable(Init(frames), k);
      InsertedLast(SortedBySequence(Init(frames)), Last(frames), k);
    }
  }

  /** The first validation loop: nothing, or the defect of the first bad frame. */
  method CheckFrames(frames: seq<CANMessage>) returns (fault: Option<TransportError>)
    requires frames != []
    ensures fault.None? ==> Clean(multiset(frames)) && !exists i: nat :: FirstFaultAt(frames, i)
    ensures fault.Some? ==> exists i: nat :: FirstFaultAt(frames, i) && fault == FrameFault(frames[i], frames[0].arbitrationId)
  {
    var id := frames[0].arbitrationId;
    for i := 0 to |frames|
      invariant forall j :: 0 <= j < i ==> FrameFault(frames[j], id).None?
    {
      var f := frames[i];
      assert FrameFault(f, id).Some? ==> FirstFaultAt(frames, i);
      if f.arbitrationId != id {
        return Some(MixedIds);
      }
      if |f.data| == 0 {
        return Some(EmptyFrame);
      }
      if |f.data| > CAN_MAX_DATA {
        return Some(OversizedFrame);
      }
    }
    fault := None;
  }

  /** `len(set(xs)) != len(xs)` says that some value is repeated. */
  lemma {:induction false} RepeatedByCount(xs: seq<int>)
    ensures |set x | x in xs| <= |xs|
    ensures |set x | x in xs| == |xs| <==> forall i, j :: 0 <= i < j < |xs| ==> xs[i] != xs[j]
  {
    if xs == [] {
      assert (set x | x in xs) == {};
    } else {
      var before, last := Init(xs), Last(xs);
      RepeatedByCount(before);
      var seen := set x | x in before;
      assert forall x :: x in xs <==> x in before || x == last;
      assert (set x | x in xs) == seen + {last};
      if last in before {
        assert seen + {last} == seen;
        var i :| 0 <= i < |before| && before[i] == last;
        assert xs[i] == xs[|xs| - 1];
      } else {
        assert forall i :: 0 <= i < |before| ==> xs[i] == before[i] && xs[i] in before;
      }
    }
  }

  /** Distinct positions hold distinct sequence numbers exactly when the multiset is duplicate-free. */
  lemma {:induction false} DistinctPositions(fs: seq<CANMessage>)
    ensures DistinctSequences(multiset(fs)) <==>
            forall i, j :: 0 <= i < j < |fs| ==> SequenceByte(fs[i]) != SequenceByte(fs[j])
  {
    if forall i, j :: 0 <= i < j < |fs| ==> SequenceByte(fs[i]) != SequenceByte(fs[j]) {
      forall f | f in multiset(fs) ensures multiset(fs)[f] == 1 {
        var k :| 0 <= k < |fs| && fs[k] == f;
        CountOnce(fs, k);
      }
    }
    if DistinctSequences(multiset(fs)) {
      forall i, j | 0 <= i < j < |fs| ensures SequenceByte(fs[i]) != SequenceByte(fs[j]) {
        if SequenceByte(fs[i]) == SequenceByte(fs[j]) {
          assert fs[i] in multiset(fs) && fs[j] in multiset(fs);
          CountTwice(fs, i, j);
        }
      }
    }
  }

  /** Frames that stand in sequence are the arrangement of their own multiset. */
  lemma {:induction false} InSequenceVerdict(ordered: seq<CANMessage>)
    requires ordered != [] && InSequence(ordered)
    ensures DistinctSequences(multiset(ordered)) && Contiguous(multiset(ordered))
    ensures Arranged(multiset(ordered)) == ordered
    ensures Decide(multiset(ordered)) == Decode(ordered)
  {
    DistinctPositions(ordered);
    var ms := multiset(ordered);
    forall k | 0 <= k < |ms| ensures Carries(ms, k) {
      assert ordered[k] in ms;
    }
    forall k | 0 <= k < |ordered| ensures Arranged(ms)[k] == ordered[k] {
      assert ordered[k] in ms;
    }
  }

  /** Sorted, duplicate-free and contiguous frames stand in sequence; so out-of-sequence ones fail a check. */
  lemma {:induction false} SortedVerdict(ordered: seq<CANMessage>)
    requires forall i :: 0 <= i < |ordered| ==> SequenceByte(ordered[i]) >= 0
    requires Sorted(ordered)
    ensures DistinctSequences(multiset(ordered)) <==>
            forall i, j :: 0 <= i < j < |ordered| ==> SequenceByte(ordered[i]) != SequenceByte(ordered[j])
    ensures DistinctSequences(multiset(ordered)) && Contiguous(multiset(ordered)) ==> InSequence(ordered)
  {
    DistinctPositions(ordered);
    var ms := multiset(ordered);
    if DistinctSequences(ms) && Contiguous(ms) {
      for i := 0 to |ordered|
        invariant forall j :: 0 <= j < i ==> SequenceByte(ordered[j]) == j
      {
        assert Carries(ms, i);
        var f :| f in ms && SequenceByte(f) == i;
        var m :| 0 <= m < |ordered| && ordered[m] == f;
        assert i <= m;
        assert i > 0 ==> SequenceByte(ordered[i - 1]) < SequenceByte(ordered[i]);
      }
    }
  }

  /** The second check, on the sorted frames. */
  method CheckSequence(ordered: seq<CANMessage>) returns (fault: Option<TransportError>)
    requires ordered != [] && Clean(multiset(ordered)) && Sorted(ordered)
    ensures fault.None? ==> Decide(multiset(ordered)) == Decode(ordered)
    ensures fault.Some? ==> Decide(multiset(ordered)) == Err(fault.value)
  {
    assert forall i :: 0 <= i < |ordered| ==> ordered[i] in multiset(ordered);
    var sequences := seq(|ordered|, i requires 0 <= i < |ordered| => SequenceByte(ordered[i]));
    var expected := seq(|ordered|, i => i);
    SortedVerdict(ordered);
    if sequences != expected {
      assert exists i :: 0 <= i < |ordered| && sequences[i] != expected[i];
      RepeatedByCount(sequences);
      var distinct := set x | x in sequences;
      if |distinct| != |sequences| {
        return Some(DuplicateSequence);
      }
      forall i, j | 0 <= i < j < |ordered| ensures SequenceByte(ordered[i]) != SequenceByte(ordered[j]) {
        assert sequences[i] != sequences[j];
      }
      return Some(MissingSequence);
    }
    forall i | 0 <= i < |ordered| ensures SequenceByte(ordered[i]) == i {
      assert sequences[i] == expected[i];
    }
    InSequenceVerdict(ordered);
    fault := None;
  }

  /** The last loop: collect the bytes and cut them to the declared length. */
  method Join(ordered: seq<CANMessage>) returns (r: Result<bytes, TransportError>)
    requires ordered != []
    ensures r == Decode(ordered)
  {
    var first := ordered[0];
    if |first.data| < 3 {
      return Err(ShortHeader);
    }
    var total := FromLe16(first.data[1], first.data[2]);
    var payload := From(first.data, 3);
    assert Init(ordered[..1]) == [];
    for k := 1 to |ordered|
      invariant payload == Carried(ordered[..k])
    {
      payload := payload + From(ordered[k].data, 1);
      assert Init(ordered[..k + 1]) == ordered[..k];
    }
    assert ordered[..|ordered|] == ordered;
    if |payload| < total {
      return Err(IncompleteMessage);
    }
    return Ok(payload[..total]);
  }

  method Reassemble(frames: seq<CANMessage>) returns (r: Result<bytes, TransportError>)
    ensures r == Reassembled(frames)
  {
    if |frames| == 0 {
      return Err(NoFrames);
    }
    var fault := CheckFrames(frames);
    if fault.Some? {
      return Err(fault.value);
    }
    var ordered := SortedBySequence(frames);
    assert |ordered| == |multiset(ordered)| == |frames|;
    fault := CheckSequence(ordered);
    if fault.Some? {
      return Err(fault.value);
    }
    r := Join(ordered);
  }
}
