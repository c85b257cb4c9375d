/**
 * Route tables as declared and as resolved (src/route_table/route_table.rs).
 * The resolution pass itself is in module RouteResolution.
 */
module RouteTable {
  import opened Network

  /** A next-hop reference: an interface of some instance, by name. */
  datatype InstanceInterface = InstanceInterface(instance: string, interface: string)

  /**
   * A declared route table, scoped to the instance named `instance`: each
   * destination network name maps to its ordered next-hops.
   */
  datatype RouteTableConfig = RouteTableConfig(routes: map<string, seq<InstanceInterface>>, instance: string)

  /** A resolved route table: destination subnet to next-hop addresses. */
  datatype RouteTableRuntime = RouteTableRuntime(routes: map<Subnet, seq<nat>>)
}
