/**
 The firmware's transport: the streaming receiver of hardware/battlock_protocol.h and the sender
 `send_payload` of hardware/battery.ino. Both work in place, on a fixed buffer and on one reused frame.
 */
module Firmware {
  import opened Bytes
  import opened Can
  import Transport

  const FRAG_LAST_FLAG := 0x80
  const FRAG_HEAD_BYTES := 3
  const FRAG_FIRST_DATA := 5
  const FRAG_DATA_BYTES := 7
  const TRANSPORT_MAX := 512

  type u16 = x: int | 0 <= x < 0x1_0000

  /** The eight data bytes of a classic CAN frame; the driver zeroes those beyond the received length. */
  type CanData = b: bytes | |b| == CAN_MAX_DATA witness [0, 0, 0, 0, 0, 0, 0, 0]

  datatype WireFrame = WireFrame(data: CanData, dlc: byte)

  /** `b & ~FRAG_LAST_FLAG` */
  function SequenceOf(b: byte): byte {
    b % FRAG_LAST_FLAG
  }

  /** `(b & FRAG_LAST_FLAG) != 0` */
  predicate IsFlagged(b: byte) {
    b >= FRAG_LAST_FLAG
  }

  /** `(uint8_t)((last ? FRAG_LAST_FLAG : 0) | i)`: the index is cut to eight bits. */
  function SequenceField(last: bool, i: nat): byte {
    var low := i % 256;
    if last && low < FRAG_LAST_FLAG then low + FRAG_LAST_FLAG else low
  }

  /** `battlock_fragment_count`, whose result is a uint16_t. */
  function FragmentCount(len: u16): u16 {
    if len <= FRAG_FIRST_DATA then 1
    else (1 + (len - FRAG_FIRST_DATA + FRAG_DATA_BYTES - 1) / FRAG_DATA_BYTES) % 0x1_0000
  }

  /** The sixteen bits suffice: the firmware counts as the Python side does. */
  lemma {:induction false} CountsAgree(len: u16)
    ensures FragmentCount(len) == Transport.FragmentCount(len)
  {
    assert (len + 1) / 7 < 9363;
  }

  // ---------- The receiver ----------

  /** What a receiver holds: buffer[..len], and the two other fields. */
  datatype Reception = Reception(contents: bytes, total: u16, complete: bool)

  ghost predicate Sound(s: Reception) {
    |s.contents| <= s.total && |s.contents| <= TRANSPORT_MAX
  }

  /** How many bytes a continuation frame can add, given the room left up to the declared total. */
  function Admitted(dlc: byte, room: nat): nat {
    Min(Min(if dlc > 1 then dlc - 1 else 0, FRAG_DATA_BYTES), room)
  }

  function Fed(s: Reception, f: WireFrame): (r: Reception)
    requires Sound(s)
    ensures Sound(r)
  {
    if SequenceOf(f.data[0]) == 0 then
      var total := FromLe16(f.data[1], f.data[2]);
      Reception(f.data[FRAG_HEAD_BYTES..][..Min(FRAG_FIRST_DATA, total)], total, IsFlagged(f.data[0]))
    else
      var n := Admitted(f.dlc, s.total - |s.contents|);
      s.(contents := if |s.contents| + n <= TRANSPORT_MAX then s.contents + f.data[1..][..n] else s.contents,
         complete := s.complete || IsFlagged(f.data[0]))
  }

  class BattLockReassembly {
    const buffer: array<byte>
    var len: u16
    var total: u16
    var complete: bool

    ghost predicate Valid()
      reads this, buffer
    {
      buffer.Length == TRANSPORT_MAX && len <= TRANSPORT_MAX && Sound(View())
    }

    ghost function View(): Reception
      requires len <= buffer.Length
      reads this, buffer
    {
      Reception(buffer[..len], total, complete)
    }

    /** A static receiver starts zeroed. */
    constructor ()
      ensures Valid() && fresh(buffer) && View() == Reception([], 0, false)
    {
      buffer := new byte[TRANSPORT_MAX];
      len, total, complete := 0, 0, false;
    }

    /** `battlock_reassembly_init`: the buffer keeps its bytes, none of them counts any longer. */
    method Init()
      requires Valid()
      modifies this
      ensures Valid() && View() == Reception([], 0, false)
      ensures buffer[..] == old(buffer[..])
    {
      len, total, complete := 0, 0, false;
    }

    /** Copies data[from..from+chunk] behind the bytes held; every write is inside the buffer. */
    method Append(data: CanData, from: nat, chunk: nat)
      requires Valid() && from + chunk <= CAN_MAX_DATA
      requires len + chunk <= total && len + chunk <= TRANSPORT_MAX
      modifies this, buffer
      ensures Valid() && View() == Reception(old(buffer[..len]) + data[from..][..chunk], old(total), old(complete))
    {
      for j := 0 to chunk
        invariant len == old(len) && total == old(total) && complete == old(complete)
        invariant buffer[..len + j] == old(buffer[..len]) + data[from..][..j]
      {
        buffer[len + j] := data[from + j];
        assert buffer[..len + j + 1] == buffer[..len + j] + [data[from..][j]];
      }
      len := len + chunk;
    }

    /** `battlock_reassembly_feed` */
    method Feed(data: CanData, dlc: byte) returns (done: bool)
      requires Valid()
      modifies this, buffer
      ensures Valid() && View() == Fed(old(View()), WireFrame(data, dlc))
      ensures done == IsFlagged(data[0])
    {
      if SequenceOf(data[0]) == 0 {
        len := 0;
        total := FromLe16(data[1], data[2]);
        complete := false;
        var chunk := FRAG_FIRST_DATA;
        if chunk > total {
          chunk := total;
        }
        if len + chunk <= TRANSPORT_MAX {
          Append(data, FRAG_HEAD_BYTES, chunk);
        }
      } else {
        var chunk := if dlc > 1 then dlc - 1 else 0;
        if chunk > FRAG_DATA_BYTES {
          chunk := FRAG_DATA_BYTES;
        }
        if len + chunk > total {
          chunk := total - len;
        }
        if len + chunk <= TRANSPORT_MAX {
          Append(data, 1, chunk);
        }
      }
      if IsFlagged(data[0]) {
        complete := true;
        return true;
      }
      return false;
    }
  }

  // ---------- The sender ----------

  /** A CAN controller: `accepts` says which of the transmissions asked of it succeed. */
  class CanPort {
    const accepts: nat -> bool
    var attempts: nat
    var sent: seq<CANMessage>

    constructor (accepts: nat -> bool)
      ensures this.accepts == accepts && attempts == 0 && sent == []
    {
      this.accepts := accepts;
      attempts, sent := 0, [];
    }

    method CanSend(id: int, data: bytes) returns (ok: bool)
      modifies this
      ensures ok == accepts(old(attempts)) && attempts == old(attempts) + 1
      ensures sent == old(sent) + if ok then [CANMessage(id, data)] else []
    {
      ok := accepts(attempts);
      attempts := attempts + 1;
      if ok {
        sent := sent + [CANMessage(id, data)];
      }
    }
  }

  function Padded(data: bytes, n: nat): (r: bytes)
    ensures |data| <= n ==> |r| == n
  {
    data + Zeros(if |data| <= n then n - |data| else 0)
  }

  function FrameAt(payload: bytes, k: nat): CanData
    requires |payload| < 0x1_0000 && k < Transport.FragmentCount(|payload|)
  {
    var field := SequenceField(k == Transport.FragmentCount(|payload|) - 1, k);
    [field] + if k == 0 then Le16(|payload|) + Padded(Transport.Chunk(payload, k), FRAG_FIRST_DATA)
              else Padded(Transport.Chunk(payload, k), FRAG_DATA_BYTES)
  }

  function Frames(payload: bytes): seq<CanData>
    requires |payload| < 0x1_0000
  {
    seq(Transport.FragmentCount(|payload|), k requires 0 <= k < Transport.FragmentCount(|payload|) => FrameAt(payload, k))
  }

  function Messages(id: int, frames: seq<CanData>): seq<CANMessage> {
    seq(|frames|, k requires 0 <= k < |frames| => CANMessage(id, frames[k]))
  }

  /** How many of the next n transmissions succeed before the first that does not. */
  function Accepted(accepts: nat -> bool, start: nat, n: nat): (k: nat)
    ensures k <= n
    ensures forall i :: start <= i < start + k ==> accepts(i)
    ensures k < n ==> !accepts(start + k)
    decreases n
  {
    if n == 0 || !accepts(start) then 0 else 1 + Accepted(accepts, start + 1, n - 1)
  }

  /** The inner loops of `send_payload`: payload bytes from off, then zeros, fill the frame from `at` on. */
  method Fill(frame: array<byte>, at: nat, payload: bytes, off: nat)
    requires frame.Length == CAN_MAX_DATA && at <= CAN_MAX_DATA && off <= |payload|
    modifies frame
    ensures frame[..] == old(frame[..at]) + Padded(payload[off..Min(off + CAN_MAX_DATA - at, |payload|)], CAN_MAX_DATA - at)
  {
    for j := at to CAN_MAX_DATA
      invariant frame[..at] == old(frame[..at])
      invariant forall m :: at <= m < j ==> frame[m] == if off + m - at < |payload| then payload[off + m - at] else 0
    {
      frame[j] := if off + j - at < |payload| then payload[off + j - at] else 0;
    }
  }

  method PrepareFirst(frame: array<byte>, payload: bytes, chunks: u16)
    requires frame.Length == CAN_MAX_DATA && |payload| < 0x1_0000 && chunks == FragmentCount(|payload|)
    modifies frame
    ensures frame[..] == FrameAt(payload, 0)
  {
    CountsAgree(|payload|);
    frame[0], frame[1], frame[2] := 0, |payload| % 256, |payload| / 256 % 256;
    Fill(frame, FRAG_HEAD_BYTES, payload, 0);
    if chunks == 1 {
      frame[0] := FRAG_LAST_FLAG;
    }
  }

  /** While a frame is still to be sent, the 16-bit offset has not wrapped. */
  lemma {:induction false} CapacityFits(len: u16, i: nat)
    requires 1 <= i < Transport.FragmentCount(len)
    ensures Transport.Capacity(i) < len
  {
  }

  method PrepareNext(frame: array<byte>, payload: bytes, i: nat, chunks: u16, off: u16)
    requires frame.Length == CAN_MAX_DATA && |payload| < 0x1_0000 && chunks == FragmentCount(|payload|)
    requires 1 <= i < chunks && off == Transport.Capacity(i)
    modifies frame
    ensures frame[..] == FrameAt(payload, i)
  {
    CountsAgree(|payload|);
    CapacityFits(|payload|, i);
    frame[0] := SequenceField(i == chunks - 1, i);
    Fill(frame, 1, payload, off);
  }

  /** `off += FRAG_DATA_BYTES` in sixteen bits: it does not wrap while a frame is still to be sent. */
  function Advanced(off: u16, ghost len: u16, ghost i: nat): (r: u16)
    requires i >= 1 && off == Transport.Capacity(i)
    ensures i + 1 < Transport.FragmentCount(len) ==> r == Transport.Capacity(i + 1)
  {
    (off + FRAG_DATA_BYTES) % 0x1_0000
  }

  /** Sends the frame for position i of `all`, the first i having been sent after `base`. */
  method SendNext(port: CanPort, frame: array<byte>, id: int,
                  ghost base: seq<CANMessage>, ghost all: seq<CANMessage>, ghost i: nat)
    returns (ok: bool)
    requires i < |all| && all[i] == CANMessage(id, frame[..])
    requires port.sent == base + all[..i]
    modifies port
    ensures ok == port.accepts(old(port.attempts)) && port.attempts == old(port.attempts) + 1
    ensures port.sent == base + all[..if ok then i + 1 else i]
  {
    ok := port.CanSend(id, frame[..]);
    assert base + all[..i] + [all[i]] == base + all[..i + 1];
  }

  /** `send_payload`: the frames go out in order until the controller refuses one. */
  method SendPayload(port: CanPort, id: int, payload: bytes) returns (ok: bool)
    requires |payload| < 0x1_0000
    modifies port
    ensures var all := Messages(id, Frames(payload));
            var n := Accepted(port.accepts, old(port.attempts), |all|);
            port.sent == old(port.sent) + all[..n] && (ok <==> n == |all|)
  {
    ghost var all := Messages(id, Frames(payload));
    assert |all| == FragmentCount(|payload|) by {
      CountsAgree(|payload|);
    }
    var frame := new byte[CAN_MAX_DATA];
    var chunks := FragmentCount(|payload|);
    PrepareFirst(frame, payload, chunks);
    assert all[..0] == [];
    ok := SendNext(port, frame, id, port.sent, all, 0);
    if !ok || chunks == 1 {
      return;
    }
    var off: u16 := FRAG_FIRST_DATA;
    for i := 1 to chunks
      invariant ok && (i < chunks ==> off == Transport.Capacity(i))
      invariant port.attempts == old(port.attempts) + i && port.sent == old(port.sent) + all[..i]
      invariant forall k :: old(port.attempts) <= k < port.attempts ==> port.accepts(k)
    {
      PrepareNext(frame, payload, i, chunks, off);
      ok := SendNext(port, frame, id, old(port.sent), all, i);
      if !ok {
        return;
      }
      off := Advanced(off, |payload|, i);
    }
  }
}
