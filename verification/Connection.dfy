/** A WebSocket connection as its callers see it: a bounded send queue and a closed flag. The interleavings of
    writers, pump and closers are in the module SendQueue. */
module Connection {
  type Byte = b: int | 0 <= b < 256
  type Frame = seq<Byte>

  const SEND_BUFFER: nat := 256

  datatype WriteResult = Sent | SendFull | ConnClosed

  class Conn {
    const id: string
    var send: seq<Frame>
    var closed: bool

    constructor (id: string)
      ensures this.id == id && send == [] && !closed
    {
      this.id := id;
      send, closed := [], false;
    }

    predicate Accepts()
      reads this
    {
      !closed && |send| < SEND_BUFFER
    }

    // The queue after a Write of `data`.
    function Queued(data: Frame): seq<Frame>
      reads this
    {
      if Accepts() then send + [data] else send
    }

    method Write(data: Frame) returns (r: WriteResult)
      modifies this`send
      ensures send == old(Queued(data))
      ensures send == if r == Sent then old(send) + [data] else old(send)
      ensures r == if closed then ConnClosed else if |old(send)| < 256 then Sent else SendFull
    {
      if closed { return ConnClosed; }
      if |send| < SEND_BUFFER {
        send := send + [data];
        return Sent;
      }
      return SendFull;
    }

    method Close()
      modifies this`closed
      ensures closed
    {
      closed := true;
    }
  }
}
