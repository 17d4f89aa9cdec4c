/**
 * Completion detection does not depend on how a request is cut into TCP
 * segments: delivering it in any number of chunks, one poll per chunk, ends in
 * exactly the state reached by delivering it in one piece.
 */
module Fragmentation {
  import opened Base
  import opened Http
  import opened Tcp
  import opened Framer

  /** A connection, its socket, and every body passed to the POST handler so far. */
  datatype Trace = Trace(conn: Connection, sock: Socket, posted: seq<seq<Byte>>)

  /** A chunk arrives on the socket, then the connection is polled once. */
  function Feed(t: Trace, chunk: seq<Byte>, parse: Parser, page: seq<Byte>): (r: Trace)
    requires t.conn.Valid()
    ensures r.conn.Valid() && r.conn.handle == t.conn.handle
    ensures |t.posted| <= |r.posted| <= |t.posted| + 1
  {
    var o := Handler(t.conn, t.sock.(rx := t.sock.rx + chunk), parse, page);
    Trace(o.conn, o.sock, t.posted + if o.posted.Some? then [o.posted.value] else [])
  }

  /** Chunks arrive one per poll, in order. */
  function Deliver(t: Trace, chunks: seq<seq<Byte>>, parse: Parser, page: seq<Byte>): (r: Trace)
    requires t.conn.Valid()
    ensures r.conn.Valid() && r.conn.handle == t.conn.handle
    ensures |t.posted| <= |r.posted| <= |t.posted| + |chunks|
    decreases |chunks|
  {
    if chunks == [] then t
    else Deliver(Feed(t, chunks[0], parse, page), chunks[1..], parse, page)
  }

  /** `request` is exactly one request: its head parses and the declared body ends at its last byte. */
  ghost predicate OneRequest(request: seq<Byte>, parse: Parser) {
    && parse(request).Complete?
    && parse(request).head.headLen + ContentLength(parse(request).head.headers) == |request|
  }

  /** An open socket with nothing waiting. */
  ghost predicate Idle(t: Trace) {
    t.sock.IsOpen() && t.sock.rx == []
  }

  lemma FeedNothing(t: Trace, parse: Parser, page: seq<Byte>)
    requires t.conn.Valid() && Idle(t)
    ensures Feed(t, [], parse, page) == t
  {
    assert t.sock.(rx := t.sock.rx + []) == t.sock;
  }

  lemma {:induction false} DeliverNothing(t: Trace, chunks: seq<seq<Byte>>, parse: Parser, page: seq<Byte>)
    requires t.conn.Valid() && Idle(t) && Flatten(chunks) == []
    ensures Deliver(t, chunks, parse, page) == t
    decreases |chunks|
  {
    if chunks != [] {
      assert chunks[0] == [] && Flatten(chunks[1..]) == [];
      FeedNothing(t, parse, page);
      DeliverNothing(t, chunks[1..], parse, page);
    }
  }

  /** No proper prefix of a single request is a complete request. */
  lemma PrefixIncomplete(request: seq<Byte>, j: nat, parse: Parser)
    requires ParserContract(parse) && OneRequest(request, parse) && j < |request|
    ensures !RequestComplete(request[..j], parse)
  {
  }

  /** The bytes of `request` from the cursor on, as a chunk on an established connection. */
  ghost predicate Midway(t: Trace, request: seq<Byte>) {
    && t.conn.Valid() && t.sock.phase == Established && t.sock.rx == []
    && t.conn.index <= |request| <= BufferSize
    && t.conn.Received() == request[..t.conn.index]
  }

  /** Taking in a chunk that fits stores it at the cursor and drains the socket. */
  lemma ReceiveFits(conn: Connection, sock: Socket)
    requires conn.Valid() && conn.index + |sock.rx| <= BufferSize
    ensures Receive(conn, sock)
      == (conn.(buffer := Write(conn.buffer, conn.index, sock.rx), index := conn.index + |sock.rx|), sock.(rx := []))
  {
    assert sock.rx[..|sock.rx|] == sock.rx;
  }

  /** Without a complete request, answering changes nothing. */
  lemma AnswerIncomplete(c: Connection, s: Socket, parse: Parser, page: seq<Byte>)
    requires c.Valid() && !RequestComplete(c.Received(), parse)
    ensures Answer((c, s), parse, page) == Outcome(c, s, None)
  {
  }

  /** A chunk that leaves the request unfinished only moves the cursor and stores the bytes. */
  lemma FeedPartial(t: Trace, chunk: seq<Byte>, request: seq<Byte>, parse: Parser, page: seq<Byte>)
    requires ParserContract(parse) && OneRequest(request, parse) && Midway(t, request)
    requires chunk != [] && t.conn.index + |chunk| < |request|
    requires chunk == request[t.conn.index..t.conn.index + |chunk|]
    ensures var r := Feed(t, chunk, parse, page);
      && Midway(r, request)
      && r.conn.index == t.conn.index + |chunk|
      && r.conn.buffer[r.conn.index..] == t.conn.buffer[r.conn.index..]
      && r.sock == t.sock && r.posted == t.posted
  {
    var i := t.conn.index;
    var j := i + |chunk|;
    var sock := t.sock.(rx := chunk);
    assert t.sock.(rx := t.sock.rx + chunk) == sock;
    var c := t.conn.(buffer := Write(t.conn.buffer, i, chunk), index := j);
    ReceiveFits(t.conn, sock);
    assert sock.(rx := []) == t.sock;
    HandlerOnOpen(t.conn, sock, parse, page);
    assert c.Received() == request[..j] by {
      assert c.Received() == t.conn.Received() + chunk;
    }
    PrefixIncomplete(request, j, parse);
    AnswerIncomplete(c, t.sock, parse, page);
  }

  /** Taking in the rest of the request fills the buffer up to its end and drains the socket. */
  lemma ReceiveRest(conn: Connection, sock: Socket, request: seq<Byte>)
    requires conn.Valid() && conn.index <= |request| <= BufferSize
    requires conn.Received() == request[..conn.index] && sock.rx == request[conn.index..]
    ensures Receive(conn, sock)
      == (Connection(conn.handle, request + conn.buffer[|request|..], |request|), sock.(rx := []))
  {
    var (c, s) := Receive(conn, sock);
    assert c.Received() == request;
    assert c.buffer == c.buffer[..|request|] + c.buffer[|request|..];
  }

  /** On an open socket with bytes waiting, a poll is the answer to what it takes in. */
  lemma HandlerOnOpen(conn: Connection, sock: Socket, parse: Parser, page: seq<Byte>)
    requires conn.Valid() && sock.IsOpen() && sock.CanRecv()
    ensures Handler(conn, sock, parse, page) == Answer(Receive(conn, sock), parse, page)
  {
  }

  /** Feeding the rest of the request in one chunk. */
  lemma FeedRest(t: Trace, request: seq<Byte>, parse: Parser, page: seq<Byte>)
    requires Midway(t, request) && t.conn.index < |request|
    ensures var rest := request[t.conn.index..];
      var received := (Connection(t.conn.handle, request + t.conn.buffer[|request|..], |request|), t.sock);
      var o := Answer(received, parse, page);
      Feed(t, rest, parse, page)
        == Trace(o.conn, o.sock, t.posted + if o.posted.Some? then [o.posted.value] else [])
  {
    var rest := request[t.conn.index..];
    var sock := t.sock.(rx := rest);
    assert t.sock.(rx := t.sock.rx + rest) == sock;
    ReceiveRest(t.conn, sock, request);
    assert sock.(rx := []) == t.sock;
    HandlerOnOpen(t.conn, sock, parse, page);
  }

  /**
   * Two polls that together take in the rest of the request end where one
   * poll taking it all in ends.
   */
  lemma FeedRemainder(t: Trace, u: Trace, request: seq<Byte>, parse: Parser, page: seq<Byte>)
    requires Midway(t, request) && Midway(u, request)
    requires t.conn.index <= u.conn.index < |request| && t.conn.handle == u.conn.handle
    requires u.conn.buffer[u.conn.index..] == t.conn.buffer[u.conn.index..]
    requires u.sock == t.sock && u.posted == t.posted
    ensures Feed(u, request[u.conn.index..], parse, page) == Feed(t, request[t.conn.index..], parse, page)
  {
    FeedRest(t, request, parse, page);
    FeedRest(u, request, parse, page);
    assert u.conn.buffer[|request|..] == t.conn.buffer[|request|..];
  }

  /** The poll that takes in the last byte of the request answers it and leaves the socket open but closing. */
  lemma FeedLast(t: Trace, request: seq<Byte>, parse: Parser, page: seq<Byte>)
    requires ParserContract(parse) && OneRequest(request, parse)
    requires Midway(t, request) && t.conn.index < |request|
    ensures Idle(Feed(t, request[t.conn.index..], parse, page))
  {
  }

  /** The first chunk of a split of `request[i..]` is the next piece of the request; the others are the rest. */
  lemma FlattenFirst(chunks: seq<seq<Byte>>, request: seq<Byte>, i: nat)
    requires chunks != [] && i <= |request| && Flatten(chunks) == request[i..]
    ensures i + |chunks[0]| <= |request|
    ensures chunks[0] == request[i..i + |chunks[0]|]
    ensures Flatten(chunks[1..]) == request[i + |chunks[0]|..]
  {
  }

  /** A chunk that completes the request, then nothing more. */
  lemma DeliverLast(t: Trace, chunks: seq<seq<Byte>>, request: seq<Byte>, parse: Parser, page: seq<Byte>)
    requires ParserContract(parse) && OneRequest(request, parse) && Midway(t, request)
    requires chunks != [] && chunks[0] == request[t.conn.index..] && chunks[0] != []
    requires Flatten(chunks[1..]) == []
    ensures Deliver(t, chunks, parse, page) == Feed(t, request[t.conn.index..], parse, page)
  {
    FeedLast(t, request, parse, page);
    DeliverNothing(Feed(t, chunks[0], parse, page), chunks[1..], parse, page);
  }

  lemma {:induction false} DeliverRemainder(t: Trace, chunks: seq<seq<Byte>>, request: seq<Byte>, parse: Parser, page: seq<Byte>)
    requires ParserContract(parse) && OneRequest(request, parse) && Midway(t, request)
    requires Flatten(chunks) == request[t.conn.index..]
    ensures Deliver(t, chunks, parse, page) == Feed(t, request[t.conn.index..], parse, page)
    decreases |chunks|
  {
    if chunks == [] {
      FeedNothing(t, parse, page);
    } else {
      var chunk := chunks[0];
      FlattenFirst(chunks, request, t.conn.index);
      if chunk == [] {
        FeedNothing(t, parse, page);
        DeliverRemainder(t, chunks[1..], request, parse, page);
      } else if t.conn.index + |chunk| < |request| {
        var u := Feed(t, chunk, parse, page);
        FeedPartial(t, chunk, request, parse, page);
        DeliverRemainder(u, chunks[1..], request, parse, page);
        FeedRemainder(t, u, request, parse, page);
      } else {
        DeliverLast(t, chunks, request, parse, page);
      }
    }
  }

  /**
   * Fragmentation invariance: however a single request of at most 1024 bytes is
   * split into segments (empty ones included), delivering them one per poll to
   * an established connection with an empty buffer ends in the same connection
   * state, the same bytes sent and the same POST handler calls as delivering
   * the request in one segment.
   */
  lemma FragmentationInvariant(t: Trace, chunks: seq<seq<Byte>>, request: seq<Byte>, parse: Parser, page: seq<Byte>)
    requires ParserContract(parse) && OneRequest(request, parse) && |request| <= BufferSize
    requires t.conn.Valid() && t.conn.index == 0
    requires t.sock.phase == Established && t.sock.rx == []
    requires Flatten(chunks) == request
    ensures Deliver(t, chunks, parse, page) == Deliver(t, [request], parse, page)
  {
    DeliverRemainder(t, chunks, request, parse, page);
    assert Flatten([request]) == request;
    DeliverRemainder(t, [request], request, parse, page);
  }

  /** The routing a non-empty single request gets when it arrives on an established connection's trace. */
  ghost predicate Answered(r: Trace, t: Trace, request: seq<Byte>, parse: Parser, page: seq<Byte>)
    requires OneRequest(request, parse)
  {
    var head := parse(request).head;
    var body := request[head.headLen..];
    && r.conn.index == 0 && r.sock.phase == FinWait1 && r.sock.rx == []
    && (head.path == Some(Root) ==>
          && r.sock.tx == t.sock.tx + Status200 + page
          && r.posted == t.posted + if head.verb == Some(Post) then [body] else [])
    && (head.path != Some(Root) ==>
          r.sock.tx == t.sock.tx + Status404 && r.posted == t.posted)
  }

  lemma FeedAnswered(t: Trace, request: seq<Byte>, parse: Parser, page: seq<Byte>)
    requires OneRequest(request, parse) && 0 < |request| <= BufferSize
    requires t.conn.Valid() && t.conn.index == 0
    requires t.sock.phase == Established && t.sock.rx == []
    ensures Answered(Feed(t, request, parse, page), t, request, parse, page)
  {
    var c := Connection(t.conn.handle, request + t.conn.buffer[|request|..], |request|);
    var o := Answer((c, t.sock), parse, page);
    assert Midway(t, request);
    assert Feed(t, request, parse, page)
      == Trace(o.conn, o.sock, t.posted + if o.posted.Some? then [o.posted.value] else []) by {
      FeedRest(t, request, parse, page);
      assert request[t.conn.index..] == request;
    }
    assert c.Received() == request;
    var head := parse(request).head;
    assert request[head.headLen..head.headLen + ContentLength(head.headers)] == request[head.headLen..];
    AnswerRoutes(c, t.sock, parse, page);
  }

  /**
   * However it is split, a non-empty single request ends answered: the cursor
   * is back at 0, the socket is in FIN-WAIT-1, `/` gets the 200 status line and the
   * page and, for a POST, exactly one POST handler call with the body; any
   * other path gets the 404 status line and no call.
   */
  lemma DeliveredRequestAnswered(t: Trace, chunks: seq<seq<Byte>>, request: seq<Byte>, parse: Parser, page: seq<Byte>)
    requires ParserContract(parse) && OneRequest(request, parse) && 0 < |request| <= BufferSize
    requires t.conn.Valid() && t.conn.index == 0
    requires t.sock.phase == Established && t.sock.rx == []
    requires Flatten(chunks) == request
    ensures Answered(Deliver(t, chunks, parse, page), t, request, parse, page)
  {
    DeliverRemainder(t, chunks, request, parse, page);
    assert request[t.conn.index..] == request;
    FeedAnswered(t, request, parse, page);
  }

  /** How a complete request is answered, read off the answer step alone. */
  lemma AnswerRoutes(c: Connection, s: Socket, parse: Parser, page: seq<Byte>)
    requires c.Valid() && RequestComplete(c.Received(), parse)
    ensures var r := Answer((c, s), parse, page);
      var head := parse(c.Received()).head;
      var body := c.Received()[head.headLen..head.headLen + ContentLength(head.headers)];
      && r.conn.index == 0 && r.sock.phase == s.phase.AfterClose() && r.sock.rx == s.rx
      && (head.path == Some(Root) ==>
            && r.sock.tx == s.tx + (if s.MaySend() then Status200 + page else [])
            && r.posted == if head.verb == Some(Post) then Some(body) else None)
      && (head.path != Some(Root) ==>
            r.sock.tx == s.tx + (if s.MaySend() then Status404 else []) && r.posted == None)
  {
  }
}
