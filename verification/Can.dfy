/** CAN frames, their identifiers (can/can_ids.py) and the in-memory bus (can/transport.py). */
module Can {
  import opened Wrappers
  import opened Bytes

  datatype CANMessage = CANMessage(arbitrationId: int, data: bytes)

  const AUTH_REQUEST := 0x100
  const NONCE := 0x101
  const SIGNATURE := 0x102
  const CERTIFICATE := 0x104
  const SESSION_ID := 0x105
  const BATTERY_STATUS_A := 0x200
  const BATTERY_STATUS_B := 0x201
  const BATTERY_STATUS_C := 0x202
  const BATTERY_STATUS := BATTERY_STATUS_A
  const CAN_MAX_DATA := 8

  /** What can be done to a bus. */
  datatype BusOp = SendOp(message: CANMessage) | ReceiveOp

  function QueueAfter(queue: seq<CANMessage>, op: BusOp): seq<CANMessage> {
    match op
    case SendOp(message) => queue + [message]
    case ReceiveOp => if queue == [] then [] else queue[1..]
  }

  /** What a receive on a bus with this queue returns. */
  function Front(queue: seq<CANMessage>): Option<CANMessage> {
    if queue == [] then None else Some(queue[0])
  }

  /** The FIFO bus of the software simulation. */
  class CANBus {
    var queue: seq<CANMessage>

    constructor ()
      ensures queue == []
    {
      queue := [];
    }

    method Send(message: CANMessage)
      modifies this
      ensures queue == QueueAfter(old(queue), SendOp(message))
    {
      queue := queue + [message];
    }

    method Receive() returns (r: Option<CANMessage>)
      modifies this
      ensures r == Front(old(queue)) && queue == QueueAfter(old(queue), ReceiveOp)
    {
      if |queue| == 0 {
        return None;
      }
      r := Some(queue[0]);
      queue := queue[1..];
    }
  }
}
