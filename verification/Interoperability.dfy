/** Exactly where the firmware's transport and the Python transport understand each other. */
module Interoperability {
  import opened Wrappers
  import opened Bytes
  import opened Can
  import opened Sequences
  import opened Firmware
  import opened FirmwareTheorems
  import Transport
  import TransportTheorems

  // ---------- The two frame formats ----------

  /** `fragment`'s frame, padded with zeros to eight bytes. */
  function PaddedFragment(payload: bytes, k: nat): CanData
    requires |payload| <= Transport.MAX_PAYLOAD && k < Transport.FragmentCount(|payload|)
  {
    TransportTheorems.ChunkLength(payload, k);
    Padded(Transport.FragmentAt(0, payload, k).data, CAN_MAX_DATA)
  }

  function FlagCleared(data: CanData): CanData {
    data[0 := SequenceOf(data[0])]
  }

  function AllCleared(frames: seq<CanData>): seq<CanData> {
    seq(|frames|, k requires 0 <= k < |frames| => FlagCleared(frames[k]))
  }

  lemma {:induction false} PaddedAppend(head: bytes, tail: bytes, n: nat)
    requires |tail| <= n
    ensures Padded(head + tail, |head| + n) == head + Padded(tail, n)
  {
  }

  /** The two formats differ in the sequence byte and nowhere else. */
  lemma {:induction false} FrameAgainstFragment(payload: bytes, k: nat)
    requires |payload| <= 1790 && k < Transport.FragmentCount(|payload|)
    ensures k <= 255 && PaddedFragment(payload, k) == FrameAt(payload, k)[0 := k]
  {
    TransportTheorems.ChunkLength(payload, k);
    var chunk := Transport.Chunk(payload, k);
    if k == 0 {
      PaddedAppend([0] + Le16(|payload|), chunk, FRAG_FIRST_DATA);
    } else {
      PaddedAppend([k], chunk, FRAG_DATA_BYTES);
    }
  }

  lemma {:induction false} SameFirst(data: CanData, x: byte, y: byte)
    ensures data[0 := x] == data[0 := y] <==> x == y
  {
    assert data[0 := x][0] == x && data[0 := y][0] == y;
  }

  lemma {:induction false} FrameAgrees(payload: bytes, k: nat)
    requires |payload| <= Transport.MAX_PAYLOAD && k < Transport.FragmentCount(|payload|)
    ensures FlagCleared(FrameAt(payload, k)) == PaddedFragment(payload, k) <==> k < FRAG_LAST_FLAG
  {
    FrameAgainstFragment(payload, k);
    SequenceWraps(payload, k);
    SameFirst(FrameAt(payload, k), SequenceOf(FrameAt(payload, k)[0]), k);
  }

  /** With the flag cleared, the firmware's frames are Python's, padded - for exactly the payloads up to 894 bytes. */
  lemma {:induction false} FramesAgree(payload: bytes)
    requires |payload| <= 1790
    ensures |Frames(payload)| == FragmentCount(|payload|)
    ensures (forall k :: 0 <= k < |Frames(payload)| ==> FlagCleared(Frames(payload)[k]) == PaddedFragment(payload, k))
            <==> |payload| <= 894
  {
    CountsAgree(|payload|);
    TransportTheorems.CountIsLeast(|payload|, 128);
    forall k | 0 <= k < |Frames(payload)|
      ensures FlagCleared(Frames(payload)[k]) == PaddedFragment(payload, k) <==> k < FRAG_LAST_FLAG
    {
      FrameAgrees(payload, k);
    }
    if |Frames(payload)| > 128 {
      assert FlagCleared(Frames(payload)[128]) != PaddedFragment(payload, 128);
    }
  }

  /** Padding adds nothing to a frame exactly when it is not the last, or the payload fills the last. */
  lemma {:induction false} ChunkFull(payload: bytes, k: nat)
    requires |payload| <= Transport.MAX_PAYLOAD && k < Transport.FragmentCount(|payload|)
    ensures PaddedFragment(payload, k) == Transport.FragmentAt(0, payload, k).data <==>
            k < Transport.FragmentCount(|payload|) - 1
            || |payload| == Transport.Capacity(Transport.FragmentCount(|payload|))
  {
    TransportTheorems.ChunkLength(payload, k);
    TransportTheorems.CountIsLeast(|payload|, k + 1);
    TransportTheorems.CountIsLeast(|payload|, k);
  }

  lemma {:induction false} FrameIdentical(payload: bytes, k: nat)
    requires |payload| <= Transport.MAX_PAYLOAD && k < Transport.FragmentCount(|payload|)
    ensures var n := Transport.FragmentCount(|payload|);
            FrameAt(payload, k) == Transport.FragmentAt(0, payload, k).data <==>
            k < n - 1 || (n > 128 && |payload| == Transport.Capacity(n))
  {
    var f, n := FrameAt(payload, k), Transport.FragmentCount(|payload|);
    FrameAgainstFragment(payload, k);
    ChunkFull(payload, k);
    assert f[0] == SequenceField(k == n - 1, k) by {
      FrameShape(payload, k);
    }
    SameFirst(f, f[0], k);
    assert f[0 := f[0]] == f;
  }

  /**
   The documentation asks both sides for the same bytes in every frame. They are the same exactly when the payload
   has more than 894 bytes, so that the flag coincides with bit 7 of the number, and fills its last frame.
   */
  lemma {:induction false} FramesIdenticalExactlyWhen(id: int, payload: bytes)
    requires |payload| <= 1790
    ensures Messages(id, Frames(payload)) == Transport.Fragments(id, payload)
            <==> |payload| > 894 && |payload| == Transport.Capacity(Transport.FragmentCount(|payload|))
  {
    var n := Transport.FragmentCount(|payload|);
    var ours, theirs := Messages(id, Frames(payload)), Transport.Fragments(id, payload);
    TransportTheorems.CountIsLeast(|payload|, 128);
    forall k | 0 <= k < n
      ensures ours[k] == theirs[k] <==> k < n - 1 || (n > 128 && |payload| == Transport.Capacity(n))
    {
      FrameIdentical(payload, k);
    }
    if ours == theirs {
      assert ours[n - 1] == theirs[n - 1];
    }
  }

  // ---------- Python reading firmware frames ----------

  ghost predicate IsPadded(frames: seq<CANMessage>, id: int, payload: bytes)
    requires |payload| <= Transport.MAX_PAYLOAD
  {
    && |frames| == Transport.FragmentCount(|payload|)
    && forall k :: 0 <= k < |frames| ==> frames[k] == CANMessage(id, PaddedFragment(payload, k))
  }

  lemma {:induction false} PaddedPart(payload: bytes, k: nat)
    requires |payload| <= Transport.MAX_PAYLOAD && k < Transport.FragmentCount(|payload|)
    ensures var part := From(PaddedFragment(payload, k), if k == 0 then 3 else 1);
            && Transport.Chunk(payload, k) <= part
            && (k < Transport.FragmentCount(|payload|) - 1 ==> part == Transport.Chunk(payload, k))
  {
    TransportTheorems.ChunkLength(payload, k);
    var chunk := Transport.Chunk(payload, k);
    if k == 0 {
      PaddedAppend([0] + Le16(|payload|), chunk, FRAG_FIRST_DATA);
    } else {
      PaddedAppend([k], chunk, FRAG_DATA_BYTES);
    }
  }

  lemma {:induction false} PartOfPadded(frames: seq<CANMessage>, id: int, payload: bytes, k: nat)
    requires |payload| <= Transport.MAX_PAYLOAD && IsPadded(frames, id, payload) && k < |frames|
    ensures Transport.Chunk(payload, k) <= Transport.Part(frames[k], k)
    ensures k < |frames| - 1 ==> Transport.Part(frames[k], k) == Transport.Chunk(payload, k)
  {
    PaddedPart(payload, k);
  }

  lemma {:induction false} PaddedCarried(frames: seq<CANMessage>, id: int, payload: bytes, m: nat)
    requires |payload| <= Transport.MAX_PAYLOAD && IsPadded(frames, id, payload) && m <= |frames|
    ensures Cut(Transport.Carried(frames[..m]), |payload|) == payload[..Min(Transport.Capacity(m), |payload|)]
    ensures m < |frames| ==> |Transport.Carried(frames[..m])| == Transport.Capacity(m)
  {
    if m > 0 {
      var part := Transport.Part(frames[m - 1], m - 1);
      PaddedCarried(frames, id, payload, m - 1);
      TransportTheorems.CarriedLast(frames, m);
      PartOfPadded(frames, id, payload, m - 1);
      ChunkStep(payload, m - 1, Transport.Carried(frames[..m - 1]), part);
    }
  }

  lemma {:induction false} PaddedDecodes(frames: seq<CANMessage>, id: int, payload: bytes)
    requires |payload| <= Transport.MAX_PAYLOAD && IsPadded(frames, id, payload)
    ensures Transport.Decode(frames) == Ok(payload)
  {
    PaddedCarried(frames, id, payload, |frames|);
    TransportTheorems.CountIsLeast(|payload|, |frames|);
    assert frames[..|frames|] == frames && payload[..|payload|] == payload;
    var first := PaddedFragment(payload, 0);
    assert frames[0].data == first;
    assert FromLe16(first[1], first[2]) == |payload| by {
      FrameAgainstFragment(payload, 0);
      FrameShape(payload, 0);
    }
  }

  lemma {:induction false} FullFramesAreClean(frames: seq<CANMessage>, id: int)
    requires forall k :: 0 <= k < |frames| ==> frames[k].arbitrationId == id && |frames[k].data| == CAN_MAX_DATA
    ensures Transport.Clean(multiset(frames))
  {
    forall f | f in multiset(frames) ensures f.arbitrationId == id && |f.data| == CAN_MAX_DATA {
      var k :| 0 <= k < |frames| && frames[k] == f;
    }
  }

  /** Padding is harmless: the declared length cuts it off. */
  lemma {:induction false} PaddedDelivery(frames: seq<CANMessage>, id: int, payload: bytes)
    requires |payload| <= 1790 && IsPadded(frames, id, payload)
    ensures Transport.Reassembled(frames) == Ok(payload)
  {
    forall k | 0 <= k < |frames| ensures Transport.SequenceByte(frames[k]) == k {
      FrameAgainstFragment(payload, k);
    }
    FullFramesAreClean(frames, id);
    TransportTheorems.SequentialVerdict(frames);
    PaddedDecodes(frames, id, payload);
  }

  /** Once bit 7 is cleared, Python reassembles what the firmware sent, padding and all. */
  lemma {:induction false} PythonReadsClearedFrames(id: int, payload: bytes)
    requires |payload| <= 894
    ensures Transport.Reassembled(Messages(id, AllCleared(Frames(payload)))) == Ok(payload)
  {
    FramesAgree(payload);
    PaddedDelivery(Messages(id, AllCleared(Frames(payload))), id, payload);
  }

  /** A last sequence number displaced by 128 leaves a number missing. */
  lemma {:induction false} DisplacedLast(frames: seq<CANMessage>)
    requires 1 <= |frames| <= FRAG_LAST_FLAG && Transport.Clean(multiset(frames))
    requires forall k :: 0 <= k < |frames| ==>
                           Transport.SequenceByte(frames[k]) == if k == |frames| - 1 then k + FRAG_LAST_FLAG else k
    ensures Transport.Reassembled(frames) == Err(Transport.MissingSequence)
  {
    var ms := multiset(frames);
    TransportTheorems.CleanVerdict(frames);
    Transport.DistinctPositions(frames);
    forall f | f in ms ensures Transport.SequenceByte(f) != |frames| - 1 {
      assert f in frames;
    }
    assert |ms| == |frames|;
    assert !Transport.Carries(ms, |frames| - 1);
  }

  lemma {:induction false} FirmwareSequences(id: int, payload: bytes)
    requires |payload| < 0x1_0000
    ensures var frames := Messages(id, Frames(payload));
            && Transport.Clean(multiset(frames))
            && forall k :: 0 <= k < |frames| ==> Transport.SequenceByte(frames[k]) == SequenceField(k == |frames| - 1, k)
  {
    var frames := Messages(id, Frames(payload));
    FullFramesAreClean(frames, id);
    forall k | 0 <= k < |frames| ensures Transport.SequenceByte(frames[k]) == SequenceField(k == |frames| - 1, k) {
      FrameShape(payload, k);
    }
  }

  lemma {:induction false} ShortMessagesMiss(id: int, payload: bytes)
    requires |payload| <= FRAG_FIRST_DATA + 127 * FRAG_DATA_BYTES
    ensures Transport.Reassembled(Messages(id, Frames(payload))) == Err(Transport.MissingSequence)
  {
    var frames := Messages(id, Frames(payload));
    assert 1 <= |frames| <= FRAG_LAST_FLAG by {
      TransportTheorems.CountIsLeast(|payload|, 128);
    }
    FirmwareSequences(id, payload);
    forall k | 0 <= k < |frames|
      ensures Transport.SequenceByte(frames[k]) == if k == |frames| - 1 then k + FRAG_LAST_FLAG else k
    {
      SequenceFieldBits(k == |frames| - 1, k);
    }
    DisplacedLast(frames);
  }

  lemma {:induction false} LongMessagesRepeat(id: int, payload: bytes)
    requires Transport.MAX_PAYLOAD < |payload| < 0x1_0000
    ensures Transport.Reassembled(Messages(id, Frames(payload))) == Err(Transport.DuplicateSequence)
  {
    var frames := Messages(id, Frames(payload));
    TransportTheorems.CountIsLeast(|payload|, 256);
    FirmwareSequences(id, payload);
    TransportTheorems.CleanVerdict(frames);
    Transport.DistinctPositions(frames);
    var twin := if |frames| == 257 then 128 else 0;
    assert Transport.SequenceByte(frames[twin]) == Transport.SequenceByte(frames[256]);
  }

  /**
   Python's verdict on the firmware's frames as they are, flag included. The flag displaces the last sequence
   number of every message up to 894 bytes; from 895 bytes on that number has bit 7 anyway, so the flag changes
   nothing; above 1790 bytes numbers repeat.
   */
  lemma {:induction false} PythonVerdictOnFirmwareFrames(id: int, payload: bytes)
    requires |payload| < 0x1_0000
    ensures Transport.Reassembled(Messages(id, Frames(payload))) ==
            if |payload| <= 894 then Err(Transport.MissingSequence)
            else if |payload| <= 1790 then Ok(payload)
            else Err(Transport.DuplicateSequence)
  {
    TransportTheorems.CountIsLeast(|payload|, 128);
    TransportTheorems.CountIsLeast(|payload|, 256);
    if |payload| <= FRAG_FIRST_DATA + 127 * FRAG_DATA_BYTES {
      ShortMessagesMiss(id, payload);
    } else if |payload| <= Transport.MAX_PAYLOAD {
      forall k | 0 <= k < |Frames(payload)| ensures Frames(payload)[k] == PaddedFragment(payload, k) {
        FrameAgainstFragment(payload, k);
        FrameShape(payload, k);
      }
      PaddedDelivery(Messages(id, Frames(payload)), id, payload);
    } else {
      LongMessagesRepeat(id, payload);
    }
  }

  // ---------- The firmware reading Python frames ----------

  /** A Python frame in the firmware driver's hands: its length, and its bytes in a zeroed buffer of eight. */
  function Received(f: CANMessage): WireFrame
    requires |f.data| <= CAN_MAX_DATA
  {
    WireFrame(Padded(f.data, CAN_MAX_DATA), |f.data|)
  }

  function ReceivedAll(frames: seq<CANMessage>): seq<WireFrame>
    requires forall i :: 0 <= i < |frames| ==> |frames[i].data| <= CAN_MAX_DATA
  {
    seq(|frames|, i requires 0 <= i < |frames| => Received(frames[i]))
  }

  lemma {:induction false} FragmentsFit(id: int, payload: bytes)
    requires |payload| <= Transport.MAX_PAYLOAD
    ensures forall i :: 0 <= i < |Transport.Fragments(id, payload)| ==> 1 <= |Transport.Fragments(id, payload)[i].data| <= CAN_MAX_DATA
  {
    forall i | 0 <= i < |Transport.Fragments(id, payload)|
      ensures 1 <= |Transport.Fragments(id, payload)[i].data| <= CAN_MAX_DATA
    {
      TransportTheorems.FragmentShape(id, payload, i);
    }
  }

  function PythonWire(id: int, payload: bytes): seq<WireFrame>
    requires |payload| <= Transport.MAX_PAYLOAD
  {
    FragmentsFit(id, payload);
    ReceivedAll(Transport.Fragments(id, payload))
  }

  lemma {:induction false} ReceivedHeader(f: WireFrame, id: int, payload: bytes)
    requires |payload| <= Transport.MAX_PAYLOAD
    requires |Transport.FragmentAt(id, payload, 0).data| <= CAN_MAX_DATA && f == Received(Transport.FragmentAt(id, payload, 0))
    ensures Declared(f) == |payload|
  {
    TransportTheorems.FragmentShape(id, payload, 0);
  }

  lemma {:induction false} ReceivedChunk(f: WireFrame, id: int, payload: bytes, k: nat)
    requires |payload| <= Transport.MAX_PAYLOAD && k < Transport.FragmentCount(|payload|) && k < FRAG_LAST_FLAG
    requires |Transport.FragmentAt(id, payload, k).data| <= CAN_MAX_DATA && f == Received(Transport.FragmentAt(id, payload, k))
    ensures CarriesChunk(f, payload, k)
  {
    TransportTheorems.ChunkLength(payload, k);
    var chunk := Transport.Chunk(payload, k);
    if k == 0 {
      PaddedAppend([0] + Le16(|payload|), chunk, FRAG_FIRST_DATA);
    } else {
      PaddedAppend([k], chunk, FRAG_DATA_BYTES);
      assert f.data[1..][..|chunk|] == chunk;
    }
  }

  lemma {:induction false} PythonOneMessage(wire: seq<WireFrame>, id: int, payload: bytes)
    requires |payload| <= TRANSPORT_MAX
    requires |wire| == Transport.FragmentCount(|payload|)
    requires forall k :: 0 <= k < |wire| ==> wire[k].data[0] == k
    requires forall k :: 0 <= k < |wire| ==> |Transport.FragmentAt(id, payload, k).data| <= CAN_MAX_DATA
    requires forall k :: 0 <= k < |wire| ==> wire[k] == Received(Transport.FragmentAt(id, payload, k))
    ensures OneMessage(wire) && Declared(wire[0]) == |payload| && CarriesPayload(wire, payload)
  {
    TransportTheorems.CountIsLeast(|payload|, 128);
    forall k | 0 <= k < |wire| ensures CarriesChunk(wire[k], payload, k) && (IsHeader(wire[k]) <==> k == 0) {
      ReceivedChunk(wire[k], id, payload, k);
    }
    ReceivedHeader(wire[0], id, payload);
  }

  lemma {:induction false} NeverDone(s: Reception, wire: seq<WireFrame>)
    requires Sound(s) && OneMessage(wire)
    requires forall k :: 0 <= k < |wire| ==> !IsFlagged(wire[k].data[0])
    ensures !Run(s, wire).complete
  {
    if |wire| == 1 {
      assert Init(wire) == [];
    } else {
      NeverDone(s, Init(wire));
    }
  }

  /**
   The firmware collects Python's frames correctly up to its buffer size, but never reports the message complete:
   `feed` returns true on none of the frames, exactly up to 894 bytes.
   */
  lemma {:induction false} FirmwareReadsPython(s: Reception, id: int, payload: bytes)
    requires Sound(s) && |payload| <= 1790
    ensures var wire := PythonWire(id, payload);
            && (|payload| <= 512 ==> Run(s, wire) == Reception(payload, |payload|, false))
            && ((forall k :: 0 <= k < |wire| ==> !IsFlagged(wire[k].data[0])) <==> |payload| <= 894)
  {
    var wire := PythonWire(id, payload);
    TransportTheorems.CountIsLeast(|payload|, 128);
    forall k | 0 <= k < |wire| ensures wire[k].data[0] == k {
      TransportTheorems.FragmentShape(id, payload, k);
    }
    if |wire| > 128 {
      assert IsFlagged(wire[128].data[0]);
    }
    if |payload| <= TRANSPORT_MAX {
      PythonOneMessage(wire, id, payload);
      StreamIsCut(s, wire);
      PayloadStreams(wire, payload);
      NeverDone(s, wire);
    }
  }

  // ---------- Beyond canonical frames ----------

  lemma {:induction false} SamePart(f: CANMessage, k: nat)
    requires 1 <= |f.data| <= CAN_MAX_DATA && Transport.SequenceByte(f) == k && 1 <= k < FRAG_LAST_FLAG
    ensures Carries(Received(f)) == Transport.Part(f, k)
  {
    assert Received(f).data[1..][..|f.data| - 1] == f.data[1..];
  }

  lemma {:induction false} Regroup(first: bytes, before: bytes, last: bytes)
    ensures first + before + last == first + (before + last)
  {
  }

  ghost predicate ShortNumbered(ordered: seq<CANMessage>) {
    && ordered != [] && Transport.InSequence(ordered) && |ordered| <= FRAG_LAST_FLAG
    && forall i :: 0 <= i < |ordered| ==> 1 <= |ordered[i].data| <= CAN_MAX_DATA
  }

  /** A frame behind the first adds the same bytes on both sides. */
  lemma {:induction false} SameAdded(ordered: seq<CANMessage>)
    requires ShortNumbered(ordered) && |ordered| > 1
    ensures ShortNumbered(Init(ordered))
    ensures Stream(ReceivedAll(ordered)) == Stream(ReceivedAll(Init(ordered))) + Carries(Received(Last(ordered)))
    ensures Transport.Carried(ordered) == Transport.Carried(Init(ordered)) + Carries(Received(Last(ordered)))
  {
    assert Transport.SequenceByte(Last(ordered)) == |ordered| - 1;
    SamePart(Last(ordered), |ordered| - 1);
    assert Init(ReceivedAll(ordered)) == ReceivedAll(Init(ordered));
    assert Last(ReceivedAll(ordered)) == Received(Last(ordered));
  }

  /** Behind the first frame, both sides see the same bytes. */
  lemma {:induction false} SameBehindFirst(ordered: seq<CANMessage>) returns (rest: bytes)
    requires ShortNumbered(ordered)
    ensures Stream(ReceivedAll(ordered)) == Carries(Received(ordered[0])) + rest
    ensures Transport.Carried(ordered) == Transport.Part(ordered[0], 0) + rest
  {
    if |ordered| == 1 {
      rest := [];
      assert Init(ordered) == [] && Init(ReceivedAll(ordered)) == [];
    } else {
      SameAdded(ordered);
      var middle := SameBehindFirst(Init(ordered));
      var added := Carries(Received(Last(ordered)));
      rest := middle + added;
      Regroup(Carries(Received(ordered[0])), middle, added);
      Regroup(Transport.Part(ordered[0], 0), middle, added);
    }
  }

  lemma {:induction false} SequentialMessage(ordered: seq<CANMessage>)
    requires ShortNumbered(ordered) && |ordered[0].data| >= 3
    ensures OneMessage(ReceivedAll(ordered))
    ensures Declared(ReceivedAll(ordered)[0]) == FromLe16(ordered[0].data[1], ordered[0].data[2])
  {
    var wire := ReceivedAll(ordered);
    forall i | 0 <= i < |wire| ensures SequenceOf(wire[i].data[0]) == i {
      assert Transport.SequenceByte(ordered[i]) == i;
    }
  }

  /** What acceptance says about frames in sequence. */
  lemma {:induction false} AcceptedInSequence(ordered: seq<CANMessage>, payload: bytes)
    requires Transport.InSequence(ordered) && Transport.Reassembled(ordered) == Ok(payload)
    ensures ordered != [] && Transport.Decode(ordered) == Ok(payload)
    ensures forall i :: 0 <= i < |ordered| ==> 1 <= |ordered[i].data| <= CAN_MAX_DATA
  {
    if !Transport.Clean(multiset(ordered)) {
      TransportTheorems.UncleanVerdict(ordered);
      assert false;
    }
    TransportTheorems.SequentialVerdict(ordered);
    assert forall i :: 0 <= i < |ordered| ==> ordered[i] in multiset(ordered);
  }

  // ---------- A first frame of any length ----------

  ghost predicate AllZero(b: bytes) {
    forall i :: 0 <= i < |b| ==> b[i] == 0
  }

  lemma {:induction false} UnmovedIsZero(z: nat, rest: bytes, m: nat, k: nat)
    requires z > 0 && k <= m <= |rest| && (Zeros(z) + rest)[..m] == rest[..m]
    ensures AllZero(rest[..k])
  {
    if k > 0 {
      UnmovedIsZero(z, rest, m, k - 1);
      var moved := Zeros(z) + rest;
      assert moved[..m][k - 1] == rest[..m][k - 1];
      assert k - 1 >= z ==> moved[k - 1] == rest[k - 1 - z] == rest[..k - 1][k - 1 - z];
    }
  }

  /** Zeros put in front go unnoticed exactly in front of zeros. */
  lemma {:induction false} ZerosInFront(z: nat, rest: bytes, m: nat)
    requires z > 0 && m <= |rest|
    ensures (Zeros(z) + rest)[..m] == rest[..m] <==> AllZero(rest[..m])
  {
    var moved := Zeros(z) + rest;
    if moved[..m] == rest[..m] {
      UnmovedIsZero(z, rest, m, m);
    }
    if AllZero(rest[..m]) {
      forall i | 0 <= i < m ensures moved[..m][i] == rest[..m][i] {
        assert i >= z ==> moved[i] == rest[i - z] == rest[..m][i - z];
      }
    }
  }

  /** The receiver takes five bytes from the first frame, zeros for those that did not arrive. */
  lemma {:induction false} HeaderPadded(first: CANMessage)
    requires FRAG_HEAD_BYTES <= |first.data| <= CAN_MAX_DATA && IsHeader(Received(first))
    ensures Carries(Received(first)) == Transport.Part(first, 0) + Zeros(CAN_MAX_DATA - |first.data|)
  {
  }

  /** Zeros between a head and what follows matter unless the cut comes first or all that follows is zero. */
  lemma {:induction false} CutAcrossZeros(head: bytes, z: nat, rest: bytes, n: nat)
    requires n <= |head + rest|
    ensures Cut(head + Zeros(z) + rest, n) == (head + rest)[..n] <==>
            z == 0 || n <= |head| || AllZero((head + rest)[..n][|head|..])
  {
    if n > |head| && z > 0 {
      var m := n - |head|;
      assert (head + rest)[..n] == head + rest[..m];
      assert head + Zeros(z) + rest == head + (Zeros(z) + rest);
      assert Cut(head + Zeros(z) + rest, n) == head + (Zeros(z) + rest)[..m];
      assert (head + rest[..m])[|head|..] == rest[..m];
      assert (head + (Zeros(z) + rest)[..m])[|head|..] == (Zeros(z) + rest)[..m];
      ZerosInFront(z, rest, m);
    } else if n <= |head| {
      assert Cut(head + Zeros(z) + rest, n) == head[..n] == (head + rest)[..n];
    } else {
      assert head + Zeros(z) + rest == head + rest;
    }
  }

  lemma {:induction false} TailIsZero(payload: bytes, h: nat)
    requires h <= |payload|
    ensures AllZero(payload[h..]) <==> forall i :: h <= i < |payload| ==> payload[i] == 0
  {
    if AllZero(payload[h..]) {
      forall i | h <= i < |payload| ensures payload[i] == 0 {
        assert payload[i] == payload[h..][i - h];
      }
    }
  }

  /**
   Any frames in sequence that Python accepts, canonical or not, at most 128 of them, with a payload that fits the
   buffer: the firmware holds the same payload if and only if the first frame holds five payload bytes, or all there
   are, or everything from the first byte it lacks on is zero. The firmware ignores that frame's length.
   */
  lemma {:induction false} FirmwareMatchesReassemble(s: Reception, ordered: seq<CANMessage>, payload: bytes)
    requires Sound(s) && Transport.InSequence(ordered) && |ordered| <= 128
    requires Transport.Reassembled(ordered) == Ok(payload) && |payload| <= 512
    ensures ordered != [] && |ordered[0].data| >= 3
    ensures forall i :: 0 <= i < |ordered| ==> |ordered[i].data| <= 8
    ensures var held := |ordered[0].data| - 3;
            Run(s, ReceivedAll(ordered)).contents == payload <==>
            held >= Min(5, |payload|) || forall i :: held <= i < |payload| ==> payload[i] == 0
  {
    AcceptedInSequence(ordered, payload);
    var rest := SameBehindFirst(ordered);
    SequentialMessage(ordered);
    StreamIsCut(s, ReceivedAll(ordered));
    var first := ordered[0];
    var head := Transport.Part(first, 0);
    HeaderPadded(first);
    CutAcrossZeros(head, CAN_MAX_DATA - |first.data|, rest, |payload|);
    if |head| <= |payload| {
      TailIsZero(payload, |head|);
    }
  }

  lemma {:induction false} PairCarries(f: CANMessage, g: CANMessage)
    ensures Transport.Carried([f, g]) == Transport.Part(f, 0) + Transport.Part(g, 1)
  {
    assert Init([f, g]) == [f] && Init([f]) == [];
    assert Transport.Carried([f]) == Transport.Carried([]) + Transport.Part(f, 0) == Transport.Part(f, 0);
    assert Last([f, g]) == g;
  }

  lemma {:induction false} PairIsClean(f: CANMessage, g: CANMessage)
    requires 1 <= |f.data| <= CAN_MAX_DATA && 1 <= |g.data| <= CAN_MAX_DATA && f.arbitrationId == g.arbitrationId
    ensures Transport.Clean(multiset([f, g]))
  {
  }

  lemma {:induction false} EmptyHeadDelivers(id: int, b: byte)
    ensures Transport.Reassembled([CANMessage(id, [0, 1, 0]), CANMessage(id, [1, b])]) == Ok([b])
  {
    var first, second := CANMessage(id, [0, 1, 0]), CANMessage(id, [1, b]);
    PairIsClean(first, second);
    TransportTheorems.SequentialVerdict([first, second]);
    PairCarries(first, second);
    assert Transport.Part(first, 0) == [] && Transport.Part(second, 1) == [b];
    assert Transport.Carried([first, second]) == [b] && [b][..1] == [b];
    assert FromLe16(1, 0) == 1;
  }

  /** The smallest failing messages: no payload byte in the first frame, and one that is not zero in the second. */
  lemma {:induction false} EmptyHeadIsMisread(s: Reception, id: int, b: byte)
    requires Sound(s) && b != 0
    ensures var ordered := [CANMessage(id, [0, 1, 0]), CANMessage(id, [1, b])];
            Transport.Reassembled(ordered) == Ok([b]) && Run(s, ReceivedAll(ordered)).contents != [b]
  {
    EmptyHeadDelivers(id, b);
    assert [b][0] == b;
    FirmwareMatchesReassemble(s, [CANMessage(id, [0, 1, 0]), CANMessage(id, [1, b])], [b]);
  }
}
