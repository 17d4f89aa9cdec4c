/**
 * `dhcp_handler`: the interface's address list and default IPv4 route follow
 * the latest event reported by the DHCP client socket.
 */
module Dhcp {
  import opened Base

  datatype Ipv4Address = Ipv4Address(a: Byte, b: Byte, c: Byte, d: Byte)
  datatype Ipv4Cidr = Ipv4Cidr(address: Ipv4Address, prefixLen: nat)

  /** An interface address; the interface may in general hold IPv6 ones too. */
  datatype IpCidr = Ipv4(v4: Ipv4Cidr) | Ipv6(octets: seq<Byte>, prefixLen: nat)

  /** The part of a lease the handler uses: the address and the optional router. */
  datatype Config = Config(address: Ipv4Cidr, router: Option<Ipv4Address>)

  datatype Event = Configured(config: Config) | Deconfigured

  /** The interface's address list and its default IPv4 route. */
  datatype Interface = Interface(addrs: seq<IpCidr>, defaultRoute: Option<Ipv4Address>)

  /** The addressing an event calls for: the lease's address alone and its router, or nothing at all. */
  ghost predicate Reflects(iface: Interface, event: Event) {
    match event
    case Configured(config) =>
      && |iface.addrs| == 1 && iface.addrs[0] == Ipv4(config.address)
      && iface.defaultRoute == config.router
    case Deconfigured() => iface.addrs == [] && iface.defaultRoute == None
  }

  /** `add_default_ipv4_route`: the router replaces any previous default route. */
  function AddDefaultRoute(iface: Interface, router: Ipv4Address): Interface {
    iface.(defaultRoute := Some(router))
  }

  /** `remove_default_ipv4_route`. */
  function RemoveDefaultRoute(iface: Interface): Interface {
    iface.(defaultRoute := None)
  }

  /**
   * One call of `dhcp_handler` with what `poll()` returned: no event leaves the
   * interface alone; `Configured` clears the addresses, adds the leased one and
   * installs or removes the default route; `Deconfigured` clears both.
   */
  function Handle(iface: Interface, event: Option<Event>): (r: Interface)
    ensures event == None ==> r == iface
    ensures event.Some? ==> Reflects(r, event.value)
  {
    match event
    case None => iface
    case Some(Configured(config)) =>
      var cleared := iface.(addrs := []);
      var addressed := cleared.(addrs := cleared.addrs + [Ipv4(config.address)]);
      if config.router.Some? then AddDefaultRoute(addressed, config.router.value)
      else RemoveDefaultRoute(addressed)
    case Some(Deconfigured) =>
      RemoveDefaultRoute(iface.(addrs := []))
  }

  /** Each event fixes the addressing completely, so the earlier state does not matter. */
  lemma HandleForgetsHistory(i1: Interface, i2: Interface, event: Event)
    ensures Handle(i1, Some(event)) == Handle(i2, Some(event))
  {
  }

  /** Handling the same event twice is the same as handling it once. */
  lemma HandleIdempotent(iface: Interface, event: Option<Event>)
    ensures Handle(Handle(iface, event), event) == Handle(iface, event)
  {
  }
}
