/**
 * One `TcpConnection` of the firmware: a 1024-byte request buffer with a write
 * cursor, bound to one TCP socket, that accumulates a request across any number
 * of segments and answers it once the head and the declared body are in.
 */
module Framer {
  import opened Base
  import opened Http
  import opened Tcp

  const BufferSize: nat := 1024
  const HttpPort: nat := 80

  const Status200: seq<Byte> := AsciiBytes("HTTP/1.0 200 OK\r\n\r\n")
  const Status404: seq<Byte> := AsciiBytes("HTTP/1.0 404 Not Found\r\n\r\n")
  const Root: string := "/"
  const Post: string := "POST"

  /** `handle` names the connection's socket; `buffer[..index]` are the bytes received so far. */
  datatype Connection = Connection(handle: nat, buffer: seq<Byte>, index: nat) {

    /** The buffer has its fixed size and the cursor stays within it. */
    ghost predicate Valid() {
      |buffer| == BufferSize && index <= BufferSize
    }

    /** The accumulated, not yet answered request bytes. */
    function Received(): seq<Byte>
      requires index <= |buffer|
    {
      buffer[..index]
    }
  }

  /** The state of a connection and its socket after a call, and what was passed to the POST handler, if anything. */
  datatype Outcome = Outcome(conn: Connection, sock: Socket, posted: Option<seq<Byte>>)

  /** One call of the code as written: it returns with an outcome, or a failed `unwrap()` halts the device. */
  datatype Step = Step(outcome: Outcome) | Halt

  /** `buffer` with `data` copied in at `at`. */
  function Write(buffer: seq<Byte>, at: nat, data: seq<Byte>): (r: seq<Byte>)
    requires at + |data| <= |buffer|
    ensures |r| == |buffer|
    ensures r[..at] == buffer[..at] && r[at..at + |data|] == data
    ensures r[at + |data|..] == buffer[at + |data|..]
  {
    buffer[..at] + data + buffer[at + |data|..]
  }

  /** A request is complete once the head parses and the bytes after it cover the declared body. */
  ghost predicate RequestComplete(received: seq<Byte>, parse: Parser) {
    && parse(received).Complete?
    && parse(received).head.headLen + ContentLength(parse(received).head.headers) <= |received|
  }

  /** `reset`: abort the socket and drop whatever was accumulated. */
  function Reset(conn: Connection, sock: Socket): (r: (Connection, Socket))
    ensures r.0.index == 0 && r.0.handle == conn.handle && r.0.buffer == conn.buffer
    ensures !r.1.IsOpen() && r.1.rx == sock.rx && r.1.tx == sock.tx
  {
    (conn.(index := 0), sock.Abort())
  }

  /**
   * The first step of `handler`: a socket that is not open is put back to
   * listening on port 80, which empties its queues, with the cursor at 0.
   */
  function Relisten(conn: Connection, sock: Socket): (r: (Connection, Socket))
    requires conn.Valid()
    ensures r.0.Valid() && r.0.handle == conn.handle && r.0.buffer == conn.buffer
    ensures r.1.IsOpen()
    ensures sock.IsOpen() ==> r == (conn, sock)
    ensures !sock.IsOpen() ==>
      && r.0.index == 0 && r.1.phase == Listen(HttpPort)
      && r.1.rx == [] && r.1.tx == []
  {
    if sock.IsOpen() then (conn, sock)
    else (conn.(index := 0), sock.Listen(HttpPort))
  }

  /**
   * `recv_slice` into `buffer[index..]`: as many waiting bytes as fit are
   * appended to the received bytes, the cursor advances by that many, and
   * nothing else in the buffer or the socket changes.
   */
  function Receive(conn: Connection, sock: Socket): (r: (Connection, Socket))
    requires conn.Valid()
    ensures var n := if |sock.rx| < BufferSize - conn.index then |sock.rx| else BufferSize - conn.index;
      && r.0.Valid() && r.0.handle == conn.handle
      && r.0.index == conn.index + n
      && r.0.Received() == conn.Received() + sock.rx[..n]
      && r.0.buffer[r.0.index..] == conn.buffer[r.0.index..]
      && r.1.rx == sock.rx[n..]
      && r.1.phase == sock.phase && r.1.tx == sock.tx
  {
    var (s, data) := sock.Recv(BufferSize - conn.index);
    (conn.(buffer := Write(conn.buffer, conn.index, data), index := conn.index + |data|), s)
  }

  /**
   * `TcpConnection::handler`: one poll of one connection. `parse` is the head
   * parser, `page` the bundled page; a `Some` in `posted` is the single call of
   * the POST handler with the request body. A send the socket refuses is
   * skipped (the code as written halts there instead: `HandlerAsWritten`).
   */
  function Handler(conn: Connection, sock: Socket, parse: Parser, page: seq<Byte>): (r: Outcome)
    requires conn.Valid()
    // the cursor stays within the buffer and the connection keeps its socket
    ensures r.conn.Valid() && r.conn.handle == conn.handle
    // a socket that is not open is re-listened, which leaves nothing to receive
    ensures !sock.IsOpen() ==> r == Outcome(conn.(index := 0), sock.Listen(HttpPort), None)
    // an open socket with nothing waiting: nothing happens
    ensures sock.IsOpen() && !sock.CanRecv() ==> r == Outcome(conn, sock, None)
    // no response before the head and the whole declared body are in, whether
    // the parser reported an incomplete head or an error
    ensures var (c, s) := Receive(conn, sock);
      sock.IsOpen() && sock.CanRecv() && !RequestComplete(c.Received(), parse) ==> r == Outcome(c, s, None)
    // a complete request is answered, routed on its path, and the connection starts over
    ensures var (c, s) := Receive(conn, sock);
      sock.IsOpen() && sock.CanRecv() && RequestComplete(c.Received(), parse) ==>
        var head := parse(c.Received()).head;
        var body := c.Received()[head.headLen..head.headLen + ContentLength(head.headers)];
        && r.conn.index == 0 && r.conn.buffer == c.buffer
        && r.sock.phase == s.phase.AfterClose() && r.sock.rx == s.rx
        && (head.path == Some(Root) ==>
              && r.sock.tx == s.tx + (if s.MaySend() then Status200 + page else [])
              && r.posted == if head.verb == Some(Post) then Some(body) else None)
        && (head.path != Some(Root) ==>
              && r.sock.tx == s.tx + (if s.MaySend() then Status404 else [])
              && r.posted == None)
  {
    var (c1, s1) := Relisten(conn, sock);
    if !s1.CanRecv() then Outcome(c1, s1, None)
    else Answer(Receive(c1, s1), parse, page)
  }

  /**
   * The rest of `handler`, once bytes were taken in: parse, wait for the
   * declared body, then answer and close.
   */
  function Answer(received: (Connection, Socket), parse: Parser, page: seq<Byte>): (r: Outcome)
    requires received.0.Valid()
    ensures r.conn.Valid() && r.conn.handle == received.0.handle
  {
    var (c, s) := received;
    match parse(c.buffer[..c.index])
    case Complete(head) =>
      var contentLength := ContentLength(head.headers);
      if c.index < head.headLen + contentLength then Outcome(c, s, None)
      else
        var content := c.Received()[head.headLen..head.headLen + contentLength];
        if head.path == Some(Root) then
          var posted := if head.verb == Some(Post) then Some(content) else None;
          var status := s.SendSlice(Status200).GetOr(s);
          Outcome(c.(index := 0), status.SendSlice(page).GetOr(status).Close(), posted)
        else
          Outcome(c.(index := 0), s.SendSlice(Status404).GetOr(s).Close(), None)
    case _ => Outcome(c, s, None)
  }

  /**
   * `handler` as the code is written: every `send_slice(..).unwrap()` halts
   * the device when the socket refuses the data. It halts exactly when a
   * complete request is found on a socket that may not send (one already
   * closing after an earlier answer); otherwise it does what `Handler` does.
   */
  function HandlerAsWritten(conn: Connection, sock: Socket, parse: Parser, page: seq<Byte>): (r: Step)
    requires conn.Valid()
    ensures r.Halt? <==>
      && sock.IsOpen() && sock.CanRecv() && !sock.MaySend()
      && RequestComplete(Receive(conn, sock).0.Received(), parse)
    ensures r.Step? ==> r.outcome == Handler(conn, sock, parse, page)
  {
    var (c1, s1) := Relisten(conn, sock);
    if !s1.CanRecv() then Step(Outcome(c1, s1, None))
    else AnswerAsWritten(Receive(c1, s1), parse, page)
  }

  /** `Answer` with the sends unwrapped: a refused send halts before the POST handler runs. */
  function AnswerAsWritten(received: (Connection, Socket), parse: Parser, page: seq<Byte>): (r: Step)
    requires received.0.Valid()
    ensures r.Halt? <==> !received.1.MaySend() && RequestComplete(received.0.Received(), parse)
    ensures r.Step? ==> r.outcome == Answer(received, parse, page)
  {
    var (c, s) := received;
    match parse(c.buffer[..c.index])
    case Complete(head) =>
      var contentLength := ContentLength(head.headers);
      if c.index < head.headLen + contentLength then Step(Outcome(c, s, None))
      else
        var content := c.Received()[head.headLen..head.headLen + contentLength];
        if head.path == Some(Root) then
          var status := s.SendSlice(Status200);
          if status.None? then Halt
          else
            var sent := status.value.SendSlice(page);
            if sent.None? then Halt
            else
              var posted := if head.verb == Some(Post) then Some(content) else None;
              Step(Outcome(c.(index := 0), sent.value.Close(), posted))
        else
          var status := s.SendSlice(Status404);
          if status.None? then Halt
          else Step(Outcome(c.(index := 0), status.value.Close(), None))
    case _ => Step(Outcome(c, s, None))
  }
}
