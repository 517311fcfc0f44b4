/** Several fragmented messages sharing one bus. */
module Interleaving {
  import opened Wrappers
  import opened Bytes
  import opened Can
  import opened Sequences
  import opened Transport
  import opened TransportTheorems

  // ---------- The bus over a whole log of operations ----------

  /** The queue, and everything received so far, after a log of operations on a new bus. */
  datatype BusHistory = BusHistory(queue: seq<CANMessage>, received: seq<CANMessage>)

  function RunBus(ops: seq<BusOp>): BusHistory {
    if ops == [] then BusHistory([], [])
    else
      var before, op := RunBus(Init(ops)), Last(ops);
      var got := if op.ReceiveOp? && Front(before.queue).Some? then [Front(before.queue).value] else [];
      BusHistory(QueueAfter(before.queue, op), before.received + got)
  }

  function SentBy(ops: seq<BusOp>): seq<CANMessage> {
    if ops == [] then []
    else if Last(ops).SendOp? then SentBy(Init(ops)) + [Last(ops).message]
    else SentBy(Init(ops))
  }

  /** Conservation: what was received, followed by what still waits, is what was sent, in order. */
  lemma {:induction false} BusConserves(ops: seq<BusOp>)
    ensures RunBus(ops).received + RunBus(ops).queue == SentBy(ops)
  {
    if ops != [] {
      BusConserves(Init(ops));
    }
  }

  // ---------- Interleavings ----------

  function WithId(frames: seq<CANMessage>, id: int): seq<CANMessage> {
    if frames == [] then []
    else if Last(frames).arbitrationId == id then WithId(Init(frames), id) + [Last(frames)]
    else WithId(Init(frames), id)
  }

  ghost predicate EndsWith(streams: seq<seq<CANMessage>>, k: int, f: CANMessage) {
    0 <= k < |streams| && streams[k] != [] && Last(streams[k]) == f
  }

  /** merged uses up every stream, taking each stream's frames in that stream's order. */
  ghost predicate Interleaves(streams: seq<seq<CANMessage>>, merged: seq<CANMessage>)
    decreases |merged|
  {
    if merged == [] then forall k :: 0 <= k < |streams| ==> streams[k] == []
    else exists k :: EndsWith(streams, k, Last(merged)) && Interleaves(streams[k := Init(streams[k])], Init(merged))
  }

  ghost predicate Tagged(streams: seq<seq<CANMessage>>, ids: seq<int>) {
    && |streams| == |ids|
    && (forall i, j :: 0 <= i < j < |ids| ==> ids[i] != ids[j])
    && (forall k, f :: 0 <= k < |streams| && f in streams[k] ==> f.arbitrationId == ids[k])
  }

  /** Selecting by identifier undoes any interleaving of streams with distinct identifiers. */
  lemma {:induction false} SelectionUndoesInterleaving(
    streams: seq<seq<CANMessage>>, ids: seq<int>, merged: seq<CANMessage>, k: nat)
    requires Tagged(streams, ids) && Interleaves(streams, merged) && k < |ids|
    ensures WithId(merged, ids[k]) == streams[k]
    decreases |merged|
  {
    if merged != [] {
      var f := Last(merged);
      var j :| EndsWith(streams, j, f) && Interleaves(streams[j := Init(streams[j])], Init(merged));
      var rest := streams[j := Init(streams[j])];
      assert f in streams[j];
      forall i, g | 0 <= i < |rest| && g in rest[i] ensures g in streams[i] {
      }
      SelectionUndoesInterleaving(rest, ids, Init(merged), k);
      assert streams[j] == Init(streams[j]) + [f];
    }
  }

  datatype Message = Message(id: int, payload: bytes)

  function StreamsOf(messages: seq<Message>): seq<seq<CANMessage>>
    requires forall m :: m in messages ==> |m.payload| <= MAX_PAYLOAD
  {
    seq(|messages|, k requires 0 <= k < |messages| => Fragments(messages[k].id, messages[k].payload))
  }

  /**
   Messages with distinct identifiers, fragmented and sent in any interleaving, with receives mixed in at
   any point: once the bus is empty, the frames received under each identifier give back that payload.
   */
  lemma {:induction false} InterleavedDelivery(messages: seq<Message>, ops: seq<BusOp>, k: nat)
    requires forall m :: m in messages ==> |m.payload| <= 1790
    requires forall i, j :: 0 <= i < j < |messages| ==> messages[i].id != messages[j].id
    requires Interleaves(StreamsOf(messages), SentBy(ops))
    requires RunBus(ops).queue == []
    requires k < |messages|
    ensures Reassembled(WithId(RunBus(ops).received, messages[k].id)) == Ok(messages[k].payload)
  {
    var streams := StreamsOf(messages);
    var ids := seq(|messages|, i requires 0 <= i < |messages| => messages[i].id);
    forall i, f: CANMessage | 0 <= i < |streams| && f in streams[i] ensures f.arbitrationId == ids[i] {
      DrawnFrameIs(messages[i].id, messages[i].payload, f);
    }
    BusConserves(ops);
    assert RunBus(ops).received == SentBy(ops);
    SelectionUndoesInterleaving(streams, ids, SentBy(ops), k);
    RoundTrip(messages[k].id, messages[k].payload);
  }
}
