/**
 * The slice of a smoltcp TCP socket the request framer touches: its state in
 * the TCP state machine, the bytes waiting to be received, and the bytes queued
 * for sending. Segment handling, retransmission and timers belong to the
 * network stack and are not modelled, so nothing here drains the transmit
 * queue.
 */
module Tcp {
  import opened Base

  /** The states of RFC 793's TCP state machine, as smoltcp names them; `Listen` carries its port. */
  datatype Phase =
    | Closed | Listen(port: nat) | SynSent | SynReceived | Established
    | FinWait1 | FinWait2 | CloseWait | Closing | LastAck | TimeWait
  {

    /**
     * The state `close()` leads to: a listener or an unanswered connect closes
     * at once, a connection sends its FIN, and a socket already closing is left
     * as it is.
     */
    function AfterClose(): (p: Phase)
      ensures !p.Listen? && !p.Established? && !p.CloseWait? && !p.SynSent? && !p.SynReceived?
      ensures p.Closed? <==> Closed? || Listen? || SynSent?
      ensures p.FinWait1? <==> SynReceived? || Established? || FinWait1?
      ensures p.LastAck? <==> CloseWait? || LastAck?
    {
      match this
      case Listen(_) => Closed
      case SynSent => Closed
      case SynReceived => FinWait1
      case Established => FinWait1
      case CloseWait => LastAck
      case _ => this
    }
  }

  /** `rx` is the receive queue, `tx` the transmit queue. */
  datatype Socket = Socket(phase: Phase, rx: seq<Byte>, tx: seq<Byte>) {

    /** `is_open()`: neither closed nor in TIME-WAIT. */
    predicate IsOpen() {
      !phase.Closed? && !phase.TimeWait?
    }

    /** `may_send()`: only ESTABLISHED and CLOSE-WAIT take data to send. */
    predicate MaySend() {
      phase.Established? || phase.CloseWait?
    }

    /** `can_recv()`: received bytes are waiting. */
    predicate CanRecv() {
      rx != []
    }

    /**
     * `listen(port)` on a socket that is not open: the socket is reset, which
     * empties both queues, and listens on `port`. The port is never 0 and the
     * socket is not open, so the call cannot fail.
     */
    function Listen(port: nat): (s: Socket)
      requires !IsOpen() && port > 0
      ensures s.IsOpen() && !s.CanRecv() && !s.MaySend()
      ensures s == Socket(Phase.Listen(port), [], [])
    {
      Socket(Phase.Listen(port), [], [])
    }

    /**
     * `send_slice(data)`: `None` is its `InvalidState` error, returned in every
     * state that may not send; otherwise the bytes join the transmit queue.
     */
    function SendSlice(data: seq<Byte>): (r: Option<Socket>)
      ensures r.Some? <==> MaySend()
      ensures r.Some? ==> r.value.tx == tx + data && r.value.phase == phase && r.value.rx == rx
    {
      if MaySend() then Some(this.(tx := tx + data)) else None
    }

    /** `close()`: request an orderly close. */
    function Close(): (s: Socket)
      ensures s.phase == phase.AfterClose()
      ensures s.rx == rx && s.tx == tx
    {
      this.(phase := phase.AfterClose())
    }

    /** `abort()`: drop the connection at once; the queues are left to the next `listen`. */
    function Abort(): (s: Socket)
      ensures s.phase == Closed && !s.IsOpen()
      ensures s.rx == rx && s.tx == tx
    {
      this.(phase := Closed)
    }

    /**
     * `recv_slice` into a slice of `room` bytes: takes the first
     * `min(|rx|, room)` waiting bytes, keeping the rest for later.
     */
    function Recv(room: nat): (r: (Socket, seq<Byte>))
      ensures |r.1| == if |rx| < room then |rx| else room
      ensures r.1 + r.0.rx == rx
      ensures r.0.phase == phase && r.0.tx == tx
    {
      var n := if |rx| < room then |rx| else room;
      (this.(rx := rx[n..]), rx[..n])
    }
  }
}
