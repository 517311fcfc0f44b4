/** The firmware receiver over whole runs, its round trip, and exactly where it agrees with the Python side. */
module FirmwareTheorems {
  import opened Bytes
  import opened Can
  import opened Sequences
  import opened Firmware
  import Transport
  import TransportTheorems

  /** A receiver after a run of frames: no frames whatever make it overrun its buffer or the declared total. */
  function Run(s: Reception, frames: seq<WireFrame>): (r: Reception)
    requires Sound(s)
    ensures |r.contents| <= r.total && |r.contents| <= 512
  {
    if frames == [] then s else Fed(Run(s, Init(frames)), Last(frames))
  }

  // ---------- The streaming receiver against concatenate-and-cut ----------

  predicate IsHeader(f: WireFrame) {
    SequenceOf(f.data[0]) == 0
  }

  function Declared(f: WireFrame): u16 {
    FromLe16(f.data[1], f.data[2])
  }

  /** The payload bytes a frame has on the wire: five after a header, else what its length announces. */
  function Carries(f: WireFrame): bytes {
    if IsHeader(f) then f.data[FRAG_HEAD_BYTES..] else f.data[1..][..Admitted(f.dlc, FRAG_DATA_BYTES)]
  }

  function Stream(frames: seq<WireFrame>): bytes {
    if frames == [] then [] else Stream(Init(frames)) + Carries(Last(frames))
  }

  function Cut(data: bytes, n: nat): bytes {
    data[..Min(n, |data|)]
  }

  ghost predicate OneMessage(frames: seq<WireFrame>) {
    && frames != [] && IsHeader(frames[0])
    && forall i :: 1 <= i < |frames| ==> !IsHeader(frames[i])
  }

  lemma {:induction false} CutAppend(data: bytes, more: bytes, n: nat)
    ensures Cut(data + more, n) == Cut(data, n) + Cut(more, n - |Cut(data, n)|)
  {
  }

  /** One frame is one step of concatenate-and-cut. */
  lemma {:induction false} FedIsCut(s: Reception, stream: bytes, f: WireFrame)
    requires Sound(s)
    ensures IsHeader(f) ==> Fed(s, f).contents == Cut(Carries(f), Declared(f)) && Fed(s, f).total == Declared(f)
    ensures !IsHeader(f) && s.total <= TRANSPORT_MAX && s.contents == Cut(stream, s.total) ==>
              Fed(s, f).contents == Cut(stream + Carries(f), s.total) && Fed(s, f).total == s.total
  {
    if !IsHeader(f) {
      var room := s.total - |s.contents|;
      CutAppend(stream, Carries(f), s.total);
      assert f.data[1..][..Admitted(f.dlc, room)] == Cut(Carries(f), room);
    }
  }

  /**
   Frame by frame, in a fixed buffer, the receiver holds what concatenating all the frames since the header
   and cutting at the declared length gives - whatever it held before, in whatever order they came.
   */
  lemma {:induction false} StreamIsCut(s: Reception, frames: seq<WireFrame>)
    requires Sound(s) && OneMessage(frames) && Declared(frames[0]) <= 512
    ensures Run(s, frames).contents == Cut(Stream(frames), Declared(frames[0]))
    ensures Run(s, frames).total == Declared(frames[0])
  {
    if |frames| == 1 {
      assert Init(frames) == [] && [] + Carries(frames[0]) == Carries(frames[0]);
      FedIsCut(s, [], frames[0]);
    } else {
      StreamIsCut(s, Init(frames));
      FedIsCut(Run(s, Init(frames)), Stream(Init(frames)), Last(frames));
    }
  }

  // ---------- The sender's frames ----------

  function OnWire(frames: seq<CanData>): seq<WireFrame> {
    seq(|frames|, k requires 0 <= k < |frames| => WireFrame(frames[k], CAN_MAX_DATA))
  }

  /** Frame k holds its chunk behind the header, then zeros. */
  lemma {:induction false} FrameShape(payload: bytes, k: nat)
    requires |payload| < 0x1_0000 && k < Transport.FragmentCount(|payload|)
    ensures var f := FrameAt(payload, k);
            var last := k == Transport.FragmentCount(|payload|) - 1;
            && f[0] == SequenceField(last, k)
            && (k == 0 ==> FromLe16(f[1], f[2]) == |payload|)
            && (k == 0 ==> f[3..] == Padded(Transport.Chunk(payload, 0), FRAG_FIRST_DATA))
            && (k > 0 ==> f[1..] == Padded(Transport.Chunk(payload, k), FRAG_DATA_BYTES))
            && (!last ==> |Transport.Chunk(payload, k)| == if k == 0 then FRAG_FIRST_DATA else FRAG_DATA_BYTES)
  {
    TransportTheorems.ChunkLength(payload, k);
    if k == 0 {
      Le16RoundTrip(|payload|);
    }
  }

  /** Each frame of the sender, byte by byte: always eight bytes, zeros at the end, bit 7 set in the last one. */
  lemma {:induction false} FrameInBytes(payload: bytes, k: nat)
    requires |payload| < 0x1_0000
    ensures |Frames(payload)| <= k <==> 1 <= k && |payload| <= 7 * k - 2
    ensures k < |Frames(payload)| ==>
              var n, f, last := |payload|, Frames(payload)[k], k == |Frames(payload)| - 1;
              && f[0] == (if last && k % 256 < 128 then k % 256 + 128 else k % 256)
              && (k == 0 ==> f[1] == n % 256 && f[2] == n / 256)
              && (k == 0 ==> f[3..] == payload[..Min(5, n)] + Zeros(5 - Min(5, n)))
              && (k > 0 ==> f[1..] == payload[7 * k - 2..Min(7 * k + 5, n)] + Zeros(7 - (Min(7 * k + 5, n) - (7 * k - 2))))
  {
    TransportTheorems.CountIsLeast(|payload|, k);
    if k < |Frames(payload)| {
      FrameShape(payload, k);
    }
  }

  /** Sequence numbers 1 to 127 are told apart from 0 by their seven low bits, and carry no flag of their own. */
  lemma {:induction false} SequenceFieldBits(last: bool, k: nat)
    requires k < FRAG_LAST_FLAG
    ensures SequenceField(last, k) == if last then k + FRAG_LAST_FLAG else k
    ensures SequenceOf(SequenceField(last, k)) == k
    ensures IsFlagged(SequenceField(last, k)) <==> last
  {
  }

  /** Frame k carries chunk k of the payload; only the last frame may carry anything behind its chunk. */
  ghost predicate CarriesChunk(f: WireFrame, payload: bytes, k: nat)
    requires k < Transport.FragmentCount(|payload|)
  {
    && Transport.Chunk(payload, k) <= Carries(f)
    && (k < Transport.FragmentCount(|payload|) - 1 ==> Carries(f) == Transport.Chunk(payload, k))
  }

  ghost predicate CarriesPayload(wire: seq<WireFrame>, payload: bytes) {
    && |wire| == Transport.FragmentCount(|payload|)
    && forall k :: 0 <= k < |wire| ==> CarriesChunk(wire[k], payload, k)
  }

  /** Appending chunk k to a stream of the first k chunks makes a stream of k + 1. */
  lemma {:induction false} ChunkStep(payload: bytes, k: nat, stream: bytes, carried: bytes)
    requires k < Transport.FragmentCount(|payload|) && |stream| == Transport.Capacity(k)
    requires Cut(stream, |payload|) == payload[..Min(Transport.Capacity(k), |payload|)]
    requires Transport.Chunk(payload, k) <= carried
    requires k < Transport.FragmentCount(|payload|) - 1 ==> carried == Transport.Chunk(payload, k)
    ensures Cut(stream + carried, |payload|) == payload[..Min(Transport.Capacity(k + 1), |payload|)]
    ensures k + 1 < Transport.FragmentCount(|payload|) ==> |stream + carried| == Transport.Capacity(k + 1)
  {
    TransportTheorems.CountIsLeast(|payload|, k);
    assert stream == payload[..Transport.Capacity(k)];
    var chunk := Transport.Chunk(payload, k);
    TransportTheorems.ChunkExtends(payload, k);
    TransportTheorems.ChunkLength(payload, k);
    if k == Transport.FragmentCount(|payload|) - 1 {
      TransportTheorems.CountIsLeast(|payload|, k + 1);
      assert stream + chunk == payload[..|payload|];
      assert stream + chunk <= stream + carried;
    }
  }

  lemma {:induction false} ChunksStream(wire: seq<WireFrame>, payload: bytes, m: nat)
    requires CarriesPayload(wire, payload) && m <= |wire|
    ensures Cut(Stream(wire[..m]), |payload|) == payload[..Min(Transport.Capacity(m), |payload|)]
    ensures m < |wire| ==> |Stream(wire[..m])| == Transport.Capacity(m)
  {
    if m > 0 {
      ChunksStream(wire, payload, m - 1);
      assert Init(wire[..m]) == wire[..m - 1];
      assert CarriesChunk(wire[m - 1], payload, m - 1);
      ChunkStep(payload, m - 1, Stream(wire[..m - 1]), Carries(wire[m - 1]));
    }
  }

  lemma {:induction false} PayloadStreams(wire: seq<WireFrame>, payload: bytes)
    requires CarriesPayload(wire, payload)
    ensures Cut(Stream(wire), |payload|) == payload
  {
    ChunksStream(wire, payload, |wire|);
    TransportTheorems.CountIsLeast(|payload|, |wire|);
    assert wire[..|wire|] == wire && payload[..|payload|] == payload;
  }

  // ---------- Payloads of any length ----------

  /** A run of frames splits anywhere. */
  lemma {:induction false} RunSplits(s: Reception, frames: seq<WireFrame>, h: nat)
    requires Sound(s) && h <= |frames|
    ensures Sound(Run(s, frames[..h])) && Run(s, frames) == Run(Run(s, frames[..h]), frames[h..])
    decreases |frames|
  {
    if h == |frames| {
      assert frames[..h] == frames;
    } else {
      RunSplits(s, Init(frames), h);
      assert Init(frames)[..h] == frames[..h] && Init(frames)[h..] == Init(frames[h..]);
    }
  }

  /** How much of a declared total the buffer can take in whole frames: 509 = 5 + 72 * 7 is the last fill below 512. */
  function Kept(total: nat): nat {
    if total <= TRANSPORT_MAX then total else 509
  }

  ghost predicate AllFull(frames: seq<WireFrame>) {
    forall k :: 0 <= k < |frames| ==> frames[k].dlc == CAN_MAX_DATA
  }

  lemma {:induction false} FullStreamLength(frames: seq<WireFrame>)
    requires OneMessage(frames) && AllFull(frames)
    ensures |Stream(frames)| == 5 + 7 * (|frames| - 1)
  {
    if |frames| == 1 {
      assert Init(frames) == [];
    } else {
      FullStreamLength(Init(frames));
    }
  }

  lemma {:induction false} OverlongStep(s: Reception, stream: bytes, m: nat, f: WireFrame)
    requires Sound(s) && !IsHeader(f) && f.dlc == CAN_MAX_DATA && s.total > TRANSPORT_MAX
    requires m >= 1 && |stream| == 5 + 7 * (m - 1) && s.contents == Cut(stream, 509)
    ensures Fed(s, f).contents == Cut(stream + Carries(f), 509) && Fed(s, f).total == s.total
  {
    assert Carries(f) == f.data[1..];
    if m <= 72 {
      assert s.contents == stream;
      assert f.data[1..][..7] == f.data[1..];
    } else {
      assert |s.contents| == 509;
      assert Cut(stream + Carries(f), 509) == Cut(stream, 509);
    }
  }

  /** A message of full frames, whatever total it declares: chunks that would overrun the buffer are refused whole. */
  lemma {:induction false} FullFramesKept(s: Reception, frames: seq<WireFrame>)
    requires Sound(s) && OneMessage(frames) && AllFull(frames)
    ensures Run(s, frames).contents == Cut(Stream(frames), Kept(Declared(frames[0])))
    ensures Run(s, frames).total == Declared(frames[0])
  {
    var total := Declared(frames[0]);
    if total <= TRANSPORT_MAX {
      StreamIsCut(s, frames);
    } else if |frames| == 1 {
      assert Init(frames) == [] && [] + Carries(frames[0]) == Carries(frames[0]);
      FedIsCut(s, [], frames[0]);
    } else {
      var before := Init(frames);
      FullFramesKept(s, before);
      FullStreamLength(before);
      OverlongStep(Run(s, before), Stream(before), |before|, Last(frames));
    }
  }

  /** The payload with the zeros that fill its last frame. */
  function PaddedPayload(payload: bytes): bytes
    requires |payload| < 0x1_0000
  {
    Padded(payload, Transport.Capacity(Transport.FragmentCount(|payload|)))
  }

  /** Behind its sequence byte and length bytes, frame k holds its slice of the padded payload. */
  lemma {:induction false} FrameSlice(payload: bytes, k: nat)
    requires |payload| < 0x1_0000 && k < Transport.FragmentCount(|payload|)
    ensures |PaddedPayload(payload)| == Transport.Capacity(Transport.FragmentCount(|payload|))
    ensures Transport.Capacity(k + 1) <= |PaddedPayload(payload)|
    ensures FrameAt(payload, k)[if k == 0 then 3 else 1..] ==
            PaddedPayload(payload)[Transport.Capacity(k)..Transport.Capacity(k + 1)]
  {
    var n := Transport.FragmentCount(|payload|);
    TransportTheorems.CountIsLeast(|payload|, n);
    TransportTheorems.CountIsLeast(|payload|, k);
    TransportTheorems.ChunkLength(payload, k);
    FrameShape(payload, k);
  }

  lemma {:induction false} Remainder(q: nat, r: nat)
    requires r < FRAG_LAST_FLAG
    ensures (FRAG_LAST_FLAG * q + r) % FRAG_LAST_FLAG == r
  {
  }

  lemma {:induction false} WrapTwice(k: nat)
    ensures k % 256 % FRAG_LAST_FLAG == k % FRAG_LAST_FLAG
  {
    var q, r := k / 256, k % 256;
    assert k == FRAG_LAST_FLAG * (2 * q) + r;
    if r < FRAG_LAST_FLAG {
      Remainder(2 * q, r);
    } else {
      assert k == FRAG_LAST_FLAG * (2 * q + 1) + (r - FRAG_LAST_FLAG);
      Remainder(2 * q + 1, r - FRAG_LAST_FLAG);
    }
  }

  /** Seven bits number the frames, so every 128th frame reads as a header; the last one is always flagged. */
  lemma {:induction false} SequenceWraps(payload: bytes, k: nat)
    requires |payload| < 0x1_0000 && k < Transport.FragmentCount(|payload|)
    ensures SequenceOf(FrameAt(payload, k)[0]) == k % FRAG_LAST_FLAG
    ensures k == Transport.FragmentCount(|payload|) - 1 ==> IsFlagged(FrameAt(payload, k)[0])
  {
    FrameShape(payload, k);
    WrapTwice(k);
  }

  /** The last frame that reads as a header. */
  function LastHeader(payload: bytes): nat
    requires |payload| < 0x1_0000
  {
    (Transport.FragmentCount(|payload|) - 1) / FRAG_LAST_FLAG * FRAG_LAST_FLAG
  }

  lemma {:induction false} OnlyOneMultiple(n: nat, k: nat)
    requires n > 0
    ensures n / FRAG_LAST_FLAG * FRAG_LAST_FLAG <= n < n / FRAG_LAST_FLAG * FRAG_LAST_FLAG + FRAG_LAST_FLAG
    ensures n / FRAG_LAST_FLAG * FRAG_LAST_FLAG <= k <= n ==>
              (k % FRAG_LAST_FLAG == 0 <==> k == n / FRAG_LAST_FLAG * FRAG_LAST_FLAG)
  {
    var q := n / FRAG_LAST_FLAG;
    if q * FRAG_LAST_FLAG <= k <= n {
      Remainder(q, k - q * FRAG_LAST_FLAG);
    }
  }

  lemma {:induction false} TailHeaders(payload: bytes, k: nat)
    requires |payload| < 0x1_0000
    ensures LastHeader(payload) < |Frames(payload)|
    ensures LastHeader(payload) <= k < |Frames(payload)| ==>
              (IsHeader(OnWire(Frames(payload))[k]) <==> k == LastHeader(payload))
  {
    var n := Transport.FragmentCount(|payload|);
    if n > 1 {
      OnlyOneMultiple(n - 1, k);
    }
    if LastHeader(payload) <= k < n {
      SequenceWraps(payload, k);
    }
  }

  lemma {:induction false} TailIsOneMessage(payload: bytes)
    requires |payload| < 0x1_0000
    ensures LastHeader(payload) < |Frames(payload)|
    ensures OneMessage(OnWire(Frames(payload))[LastHeader(payload)..])
    ensures LastHeader(payload) == 0 <==> |payload| <= 894
  {
    var wire, h := OnWire(Frames(payload)), LastHeader(payload);
    TailHeaders(payload, h);
    TransportTheorems.CountIsLeast(|payload|, 128);
    forall i | 0 <= i < |wire[h..]| ensures IsHeader(wire[h..][i]) <==> i == 0 {
      TailHeaders(payload, h + i);
    }
  }

  /** Where in the padded payload the stream of the frames from header h on begins. */
  function StreamStart(h: nat): nat {
    if h == 0 then 0 else Transport.Capacity(h) + 2
  }

  lemma {:induction false} StreamLast(wire: seq<WireFrame>, h: nat, k: nat)
    requires h <= k < |wire|
    ensures Stream(wire[h..k + 1]) == Stream(wire[h..k]) + Carries(wire[k])
  {
    assert Init(wire[h..k + 1]) == wire[h..k];
  }

  lemma {:induction false} SliceJoin(data: bytes, a: nat, b: nat, c: nat)
    requires a <= b <= c <= |data|
    ensures data[a..b] + data[b..c] == data[a..c]
  {
  }

  lemma {:induction false} HeaderCarries(payload: bytes, h: nat)
    requires |payload| < 0x1_0000 && h < |Frames(payload)| && IsHeader(OnWire(Frames(payload))[h])
    ensures Transport.Capacity(h + 1) <= |PaddedPayload(payload)|
    ensures Carries(OnWire(Frames(payload))[h]) == PaddedPayload(payload)[StreamStart(h)..Transport.Capacity(h + 1)]
    ensures h > 0 ==> FrameAt(payload, h)[1] == PaddedPayload(payload)[Transport.Capacity(h)]
                      && FrameAt(payload, h)[2] == PaddedPayload(payload)[Transport.Capacity(h) + 1]
  {
    FrameSlice(payload, h);
    if h > 0 {
      var f := FrameAt(payload, h);
      assert f[1..][2..] == f[3..] && f[1..][0] == f[1] && f[1..][1] == f[2];
    }
  }

  lemma {:induction false} TailStreams(payload: bytes, m: nat)
    requires |payload| < 0x1_0000
    requires LastHeader(payload) < m <= |Frames(payload)|
    ensures Transport.Capacity(m) <= |PaddedPayload(payload)| && StreamStart(LastHeader(payload)) <= Transport.Capacity(m)
    ensures Stream(OnWire(Frames(payload))[LastHeader(payload)..m]) ==
            PaddedPayload(payload)[StreamStart(LastHeader(payload))..Transport.Capacity(m)]
  {
    var wire, h := OnWire(Frames(payload)), LastHeader(payload);
    var k := m - 1;
    TailHeaders(payload, k);
    StreamLast(wire, h, k);
    if k == h {
      assert wire[h..k] == [];
      HeaderCarries(payload, h);
    } else {
      TailStreams(payload, k);
      FrameSlice(payload, k);
      SliceJoin(PaddedPayload(payload), StreamStart(h), Transport.Capacity(k), Transport.Capacity(m));
    }
  }

  /** The last frame completes the reception, whatever came before it. */
  lemma {:induction false} LastCompletes(s: Reception, payload: bytes)
    requires Sound(s) && |payload| < 0x1_0000
    ensures Run(s, OnWire(Frames(payload))).complete && IsFlagged(Last(Frames(payload))[0])
  {
    var wire := OnWire(Frames(payload));
    assert Last(wire) == WireFrame(FrameAt(payload, |wire| - 1), CAN_MAX_DATA);
    SequenceWraps(payload, |wire| - 1);
  }

  lemma {:induction false} TailRun(s: Reception, wire: seq<WireFrame>, h: nat)
    requires Sound(s) && h < |wire| && OneMessage(wire[h..]) && AllFull(wire[h..])
    ensures Run(s, wire).contents == Cut(Stream(wire[h..]), Kept(Declared(wire[h])))
    ensures Run(s, wire).total == Declared(wire[h])
  {
    RunSplits(s, wire, h);
    FullFramesKept(Run(s, wire[..h]), wire[h..]);
  }

  lemma {:induction false} WholeTailStreams(payload: bytes)
    requires |payload| < 0x1_0000
    ensures LastHeader(payload) < |Frames(payload)| && StreamStart(LastHeader(payload)) <= |PaddedPayload(payload)|
    ensures Stream(OnWire(Frames(payload))[LastHeader(payload)..]) == PaddedPayload(payload)[StreamStart(LastHeader(payload))..]
  {
    var wire, h, padded := OnWire(Frames(payload)), LastHeader(payload), PaddedPayload(payload);
    var n := Transport.FragmentCount(|payload|);
    assert |wire| == n;
    assert h < n by {
      TailHeaders(payload, h);
    }
    assert |padded| == Transport.Capacity(n) by {
      FrameSlice(payload, 0);
    }
    TailStreams(payload, n);
    assert wire[h..n] == wire[h..] && padded[StreamStart(h)..|padded|] == padded[StreamStart(h)..];
  }

  lemma {:induction false} TailContents(s: Reception, payload: bytes)
    requires Sound(s) && |payload| < 0x1_0000
    ensures var r, h := Run(s, OnWire(Frames(payload))), LastHeader(payload);
            && h < |Frames(payload)| && StreamStart(h) <= |PaddedPayload(payload)|
            && IsHeader(OnWire(Frames(payload))[h])
            && r.total == Declared(OnWire(Frames(payload))[h])
            && r.contents == Cut(PaddedPayload(payload)[StreamStart(h)..], Kept(r.total))
  {
    TailHeaders(payload, LastHeader(payload));
    TailIsOneMessage(payload);
    WholeTailStreams(payload);
    TailRun(s, OnWire(Frames(payload)), LastHeader(payload));
  }

  /**
   What the receiver holds after the sender's frames, for every length the sender takes. Up to 512 bytes: the
   payload. From 513 to 894: its first 509 bytes. From 895 on the last frame numbered a multiple of 128 is taken
   for a new header: two payload bytes become the declared total, and what follows them the contents. In every
   case the last frame reports completion.
   */
  lemma {:induction false} ReceivedContents(s: Reception, payload: bytes)
    requires Sound(s) && |payload| < 0x1_0000
    ensures var r, padded, h := Run(s, OnWire(Frames(payload))), PaddedPayload(payload), LastHeader(payload);
            && r.complete && IsFlagged(Last(Frames(payload))[0])
            && (|payload| <= 512 ==> r.total == |payload| && r.contents == payload)
            && (512 < |payload| <= 894 ==> r.total == |payload| && r.contents == payload[..509])
            && (|payload| > 894 ==>
                && Transport.Capacity(h) + 2 <= |padded|
                && r.total == FromLe16(padded[Transport.Capacity(h)], padded[Transport.Capacity(h) + 1])
                && r.contents == Cut(padded[Transport.Capacity(h) + 2..], Kept(r.total)))
  {
    var h, padded := LastHeader(payload), PaddedPayload(payload);
    LastCompletes(s, payload);
    TailContents(s, payload);
    TailIsOneMessage(payload);
    FrameSlice(payload, h);
    if h == 0 {
      FrameShape(payload, 0);
      assert padded[0..] == padded == payload + padded[|payload|..];
    } else {
      HeaderCarries(payload, h);
    }
  }

  // ---------- Round trip ----------

  /**
   From any receiver state, feeding the sender's frames delivers the payload exactly when it fits the
   buffer; ReceivedContents says what is held otherwise.
   */
  lemma {:induction false} RoundTripIffFits(s: Reception, payload: bytes)
    requires Sound(s) && |payload| < 0x1_0000
    ensures Run(s, OnWire(Frames(payload))).contents == payload <==> |payload| <= 512
    ensures |payload| <= 512 ==> Run(s, OnWire(Frames(payload))) == Reception(payload, |payload|, true)
  {
    ReceivedContents(s, payload);
  }

  /** `battlock_reassembly_feed` returns true on the last frame and on no earlier one, up to 901 bytes. */
  lemma {:induction false} DoneExactlyOnLast(payload: bytes)
    requires |payload| < 0x1_0000
    ensures (forall k :: 0 <= k < |Frames(payload)| ==> (IsFlagged(Frames(payload)[k][0]) <==> k == |Frames(payload)| - 1))
            <==> |payload| <= 901
  {
    var n := |Frames(payload)|;
    TransportTheorems.CountIsLeast(|payload|, 129);
    forall k | 0 <= k < n
      ensures Frames(payload)[k][0] == SequenceField(k == n - 1, k)
      ensures k <= 128 ==> (IsFlagged(Frames(payload)[k][0]) <==> k == n - 1 || k == 128)
    {
      FrameShape(payload, k);
      if k < 128 {
        SequenceFieldBits(k == n - 1, k);
      }
    }
    if n > 129 {
      assert IsFlagged(Frames(payload)[128][0]);
    }
  }
}
