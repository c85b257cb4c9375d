/**
 * Interfaces as declared and as resolved, and `InterfaceRuntime::new`
 * (src/interface/interface.rs).
 */
module Interface {
  import opened Wrappers
  import opened Network
  import Mac

  /** A declared interface: an optional MTU and the name of its network. */
  datatype InterfaceConfig = InterfaceConfig(mtu: Option<nat>, network: string)

  /**
   * A resolved interface. `ip` is the allocated address in integer form
   * (the Rust field holds its dotted text); the prefix length is not kept.
   */
  datatype InterfaceRuntime = InterfaceRuntime(
    mtu: Option<nat>,
    mac: Option<string>,
    ip: Option<nat>,
    network: Option<string>)

  /** The new interface and its network after any allocation. */
  datatype Created = Created(iface: InterfaceRuntime, network: NetworkRuntime)

  /**
   * `InterfaceRuntime::new`: allocate an address only on an unmanaged
   * network, copy the MTU and the network name, and attach a MAC generated
   * from `draw`. The network is threaded through explicitly in place of the
   * shared, locked `NetworkRuntime`.
   */
  function New(config: InterfaceConfig, network: NetworkRuntime, draw: Mac.MacDraw): (r: Created)
    requires Allocatable(network)
    ensures r.iface.mtu == config.mtu
    ensures r.iface.network == Some(config.network)
    ensures r.iface.mac == Some(Mac.GenerateMac(draw))
    ensures network.ManagedNet? ==> r.iface.ip.None? && r.network == network
    ensures network.UnmanagedNet? ==>
      && r.iface.ip.Some?
      && r.iface.ip.value !in network.addresses.value
      && r.network == network.(addresses := Some(network.addresses.value + {r.iface.ip.value}))
    ensures network.UnmanagedNet? ==>
      && r.iface.ip == Some(AssignAddress(network).lease.value.address)
      && r.network == AssignAddress(network).network
    ensures Reserved(network) && network.UnmanagedNet? ==> r.iface.ip != network.gateway
    ensures Reserved(network) ==> Reserved(r.network)
  {
    match network
    case ManagedNet(_) =>
      Created(InterfaceRuntime(config.mtu, Some(Mac.GenerateMac(draw)), None, Some(config.network)), network)
    case UnmanagedNet(_, _, _) =>
      var assignment := AssignAddress(network);
      Created(InterfaceRuntime(config.mtu, Some(Mac.GenerateMac(draw)), Some(assignment.lease.value.address), Some(config.network)),
              assignment.network)
  }
}
