/** Properties of the request framer that relate several calls or several connection states. */
module FramerLemmas {
  import opened Base
  import opened Http
  import opened Tcp
  import opened Framer

  /**
   * Bytes beyond the cursor never influence a call: two connections that have
   * received the same bytes behave identically on the same socket, whatever
   * stale contents the rest of their buffers hold.
   */
  lemma StaleBytesIgnored(c1: Connection, c2: Connection, sock: Socket, parse: Parser, page: seq<Byte>)
    requires c1.Valid() && c2.Valid()
    requires c1.handle == c2.handle && c1.Received() == c2.Received()
    ensures var r1 := Handler(c1, sock, parse, page);
      var r2 := Handler(c2, sock, parse, page);
      && r1.sock == r2.sock && r1.posted == r2.posted
      && r1.conn.index == r2.conn.index
      && r1.conn.buffer[..r1.conn.index] == r2.conn.buffer[..r2.conn.index]
  {
    if sock.IsOpen() && sock.CanRecv() {
      var i1 := Receive(c1, sock);
      var i2 := Receive(c2, sock);
      assert i1.1 == i2.1 && i1.0.Received() == i2.0.Received();
    }
  }

  /**
   * After `reset` (as on link loss) nothing of the interrupted request
   * survives: the next call re-listens, which empties both socket queues, so
   * it sends nothing, calls no POST handler and leaves the cursor at 0.
   */
  lemma ResetLeavesNoResidue(conn: Connection, sock: Socket, parse: Parser, page: seq<Byte>)
    requires conn.Valid()
    ensures var (c, s) := Reset(conn, sock);
      Handler(c, s, parse, page) == Outcome(conn.(index := 0), Socket(Listen(HttpPort), [], []), None)
  {
  }

  /**
   * A full buffer whose contents are not a complete request stalls: the call
   * reads nothing and changes nothing, so the connection waits until the peer
   * or the stack closes it rather than writing past the buffer.
   */
  lemma FullBufferStalls(conn: Connection, sock: Socket, parse: Parser, page: seq<Byte>)
    requires conn.Valid() && conn.index == BufferSize && sock.IsOpen()
    requires !RequestComplete(conn.Received(), parse)
    ensures Handler(conn, sock, parse, page) == Outcome(conn, sock, None)
  {
  }

  /** A request that is exactly `GET / HTTP/1.0` and an empty line. */
  const GetRoot: seq<Byte> := AsciiBytes("GET / HTTP/1.0\r\n\r\n")

  /** A head parser that recognises `GetRoot` at the start of its input and waits for more otherwise. */
  function ParseGetRoot(input: seq<Byte>): ParseStatus {
    if GetRoot <= input then Complete(RequestHead(|GetRoot|, Some("GET"), Some(Root), [])) else Partial
  }

  /**
   * The halt of the code as written. A `GET /` on an established connection is
   * answered and the socket moves to FIN-WAIT-1, where it is still open and
   * still receives. If the client then sends a second `GET /` (a pipelined
   * request in a later segment), the next call finds it complete, and the
   * first `send_slice` is refused in FIN-WAIT-1, so its `unwrap()` halts the
   * device. `Handler` answers it without sending anything more.
   */
  lemma PipelinedRequestHalts(conn: Connection, page: seq<Byte>)
    requires conn.Valid() && conn.index == 0
    ensures ParserContract(ParseGetRoot)
    ensures var first := Handler(conn, Socket(Established, GetRoot, []), ParseGetRoot, page);
      var next := first.sock.(rx := GetRoot);
      && HandlerAsWritten(conn, Socket(Established, GetRoot, []), ParseGetRoot, page) == Step(first)
      && first.sock == Socket(FinWait1, [], Status200 + page) && first.conn.index == 0
      && HandlerAsWritten(first.conn, next, ParseGetRoot, page) == Halt
      && Handler(first.conn, next, ParseGetRoot, page) == Outcome(first.conn, first.sock, None)
  {
  }
}
