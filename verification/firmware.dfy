/**
 * The firmware's main loop over one explicit device state: link supervision
 * with its reset of every socket, the network stack's tick, DHCP handling, and
 * one poll of each TCP connection in slot order, with the LED driven by the
 * POST bodies the connections hand over.
 */
module Firmware {
  import opened Base
  import opened Http
  import opened Tcp
  import opened Framer
  import Dhcp
  import Command

  /** Number of TCP connection slots; the socket set holds these plus the DHCP socket. */
  const NumTcpSockets: nat := 3

  /** The DHCP client socket as far as the loop acts on it: `reset()` restarts discovery. */
  datatype DhcpClient = Discovering | Leased(config: Dhcp.Config)

  /** A connection together with the socket its handle names. */
  datatype Slot = Slot(conn: Connection, sock: Socket)

  datatype Device = Device(
    iface: Dhcp.Interface,
    dhcp: DhcpClient,
    slots: seq<Slot>,
    led: Command.Level)

  /** What the network stack's poll works on: the DHCP socket and the TCP sockets in slot order. */
  datatype SocketSet = SocketSet(dhcp: DhcpClient, tcp: seq<Socket>)

  /**
   * A fixed number of slots, every cursor within its buffer, and slot `i`
   * bound for good to socket handle `i + 1` (handle 0 is the DHCP socket,
   * added first).
   */
  ghost predicate Valid(d: Device) {
    && |d.slots| == NumTcpSockets
    && forall i :: 0 <= i < |d.slots| ==> d.slots[i].conn.Valid() && d.slots[i].conn.handle == i + 1
  }

  /** Every connection's `reset`, in slot order. */
  function ResetAll(slots: seq<Slot>): (r: seq<Slot>)
    ensures |r| == |slots|
    ensures forall i :: 0 <= i < |slots| ==>
      (r[i].conn, r[i].sock) == Reset(slots[i].conn, slots[i].sock)
  {
    if slots == [] then []
    else
      var (c, s) := Reset(slots[0].conn, slots[0].sock);
      [Slot(c, s)] + ResetAll(slots[1..])
  }

  /**
   * What the loop does when the link is down, before it reconnects: the DHCP
   * socket restarts and every connection is aborted with its cursor at 0;
   * addresses and the LED are untouched.
   */
  function LinkLoss(d: Device): (r: Device)
    ensures r.dhcp == Discovering && r.iface == d.iface && r.led == d.led
    ensures |r.slots| == |d.slots|
    ensures forall i :: 0 <= i < |d.slots| ==>
      && r.slots[i].conn.index == 0 && !r.slots[i].sock.IsOpen()
      && r.slots[i].conn.handle == d.slots[i].conn.handle
      && r.slots[i].conn.buffer == d.slots[i].conn.buffer
    ensures Valid(d) ==> Valid(r)
  {
    Device(d.iface, Discovering, ResetAll(d.slots), d.led)
  }

  /** The bodies the connections hand to the POST handler in one pass, in slot order. */
  function Posts(slots: seq<Slot>, parse: Parser, page: seq<Byte>): seq<seq<Byte>>
    requires forall i :: 0 <= i < |slots| ==> slots[i].conn.Valid()
  {
    if slots == [] then []
    else
      var o := Handler(slots[0].conn, slots[0].sock, parse, page);
      (if o.posted.Some? then [o.posted.value] else []) + Posts(slots[1..], parse, page)
  }

  /**
   * One poll of every connection in slot order. Each slot ends exactly as its
   * own `handler` call leaves it, unaffected by the others, and the LED ends as
   * the POST handler leaves it after the bodies of this pass, in slot order.
   */
  function ServeAll(slots: seq<Slot>, led: Command.Level, parse: Parser, page: seq<Byte>): (r: (seq<Slot>, Command.Level))
    requires forall i :: 0 <= i < |slots| ==> slots[i].conn.Valid()
    ensures |r.0| == |slots|
    ensures forall i :: 0 <= i < |slots| ==>
      var o := Handler(slots[i].conn, slots[i].sock, parse, page);
      r.0[i] == Slot(o.conn, o.sock)
    ensures r.1 == Command.OnPosts(led, Posts(slots, parse, page))
  {
    if slots == [] then ([], led)
    else
      var o := Handler(slots[0].conn, slots[0].sock, parse, page);
      var level := if o.posted.Some? then Command.OnPost(led, o.posted.value) else led;
      var (rest, final) := ServeAll(slots[1..], level, parse, page);
      var later := Posts(slots[1..], parse, page);
      var mine := if o.posted.Some? then [o.posted.value] else [];
      assert Posts(slots, parse, page) == mine + later;
      assert final == Command.OnPosts(led, mine + later) by {
        if o.posted.Some? {
          assert (mine + later)[0] == o.posted.value && (mine + later)[1..] == later;
        } else {
          assert mine + later == later;
        }
      }
      ([Slot(o.conn, o.sock)] + rest, final)
  }

  /**
   * One iteration of the main loop. `linkUp` is the link state at the top of
   * the iteration (the reconnect loop then runs until it is up), `poll` the
   * network stack's tick, `event` what the DHCP socket's `poll()` reports.
   * The device invariant is kept, and the interface's addressing reflects
   * the DHCP event.
   */
  function Iteration(
    d: Device, linkUp: bool, poll: SocketSet -> SocketSet, event: Option<Dhcp.Event>,
    parse: Parser, page: seq<Byte>): (r: Device)
    requires Valid(d)
    requires forall s :: |poll(s).tcp| == |s.tcp|
    ensures Valid(r)
    ensures event.Some? ==> Dhcp.Reflects(r.iface, event.value)
    ensures event.None? ==> r.iface == d.iface
  {
    var d1 := if linkUp then d else LinkLoss(d);
    var polled := poll(SocketSet(d1.dhcp, seq(|d1.slots|, i requires 0 <= i < |d1.slots| => d1.slots[i].sock)));
    var slots := seq(|d1.slots|, i requires 0 <= i < |d1.slots| => Slot(d1.slots[i].conn, polled.tcp[i]));
    var iface := Dhcp.Handle(d1.iface, event);
    var (served, led) := ServeAll(slots, d1.led, parse, page);
    Device(iface, polled.dhcp, served, led)
  }

  /**
   * The stack's tick never revives a closed socket: it accepts no connection
   * until `listen` is called on it.
   */
  ghost predicate KeepsClosed(poll: SocketSet -> SocketSet) {
    forall s: SocketSet, i :: 0 <= i < |s.tcp| && i < |poll(s).tcp| && s.tcp[i].phase.Closed? ==>
      poll(s).tcp[i].phase.Closed?
  }

  /** Connections whose sockets are not open hand nothing to the POST handler. */
  lemma {:induction false} NothingPosted(slots: seq<Slot>, parse: Parser, page: seq<Byte>)
    requires forall i :: 0 <= i < |slots| ==> slots[i].conn.Valid() && !slots[i].sock.IsOpen()
    ensures Posts(slots, parse, page) == []
  {
    if slots != [] {
      NothingPosted(slots[1..], parse, page);
    }
  }

  /**
   * After a link loss no connection keeps anything of an interrupted request:
   * in that iteration every connection re-listens on port 80 with both queues
   * empty and its cursor at 0, nothing is sent, no POST handler runs and the
   * LED keeps its level.
   */
  lemma LinkLossLeavesNoResidue(
    d: Device, poll: SocketSet -> SocketSet, event: Option<Dhcp.Event>, parse: Parser, page: seq<Byte>)
    requires Valid(d)
    requires forall s :: |poll(s).tcp| == |s.tcp|
    requires KeepsClosed(poll)
    ensures var r := Iteration(d, false, poll, event, parse, page);
      && r.led == d.led
      && forall i :: 0 <= i < |r.slots| ==>
        r.slots[i] == Slot(d.slots[i].conn.(index := 0), Socket(Listen(HttpPort), [], []))
  {
    var d1 := LinkLoss(d);
    var polled := poll(SocketSet(d1.dhcp, seq(|d1.slots|, i requires 0 <= i < |d1.slots| => d1.slots[i].sock)));
    var slots := seq(|d1.slots|, i requires 0 <= i < |d1.slots| => Slot(d1.slots[i].conn, polled.tcp[i]));
    assert forall i :: 0 <= i < |slots| ==> slots[i].conn.Valid() && !slots[i].sock.IsOpen();
    NothingPosted(slots, parse, page);
  }
}
