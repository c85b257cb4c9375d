/**
 * The declared configuration and its `Object` impls for networks,
 * instances and route tables (src/config/config.rs and the impls in
 * src/network/network.rs, src/instance/instance.rs,
 * src/route_table/route_table.rs).
 */
module Config {
  import opened Wrappers
  import Store
  import opened Network
  import opened Interface
  import opened Instance
  import opened RouteTable

  datatype UserConfig = UserConfig(userName: string, keyPath: string, baseDirectory: string)

  datatype Config = Config(
    userConfig: UserConfig,
    networks: map<string, NetworkConfig>,
    instances: map<string, InstanceConfig>,
    interfaces: map<string, InterfaceConfig>,
    routeTables: map<string, RouteTableConfig>)

  /** `Config::new`: the user settings as given and nothing declared yet. */
  function New(userConfig: UserConfig): (c: Config)
    ensures c.userConfig == userConfig
    ensures c.networks == map[] && c.instances == map[]
    ensures c.interfaces == map[] && c.routeTables == map[]
  {
    Config(userConfig, map[], map[], map[], map[])
  }

  /** `Object::get` of the config for networks. */
  function GetNetwork(c: Config, name: string): (r: Option<NetworkConfig>)
    ensures r.Some? <==> name in c.networks
    ensures r.Some? ==> r.value == c.networks[name]
  {
    Store.Get(c.networks, name)
  }

  /** `Object::add` of the config for networks; nothing else changes. */
  function AddNetwork(c: Config, name: string, value: NetworkConfig): (r: Config)
    ensures GetNetwork(r, name) == Some(value)
    ensures forall k :: k != name ==> GetNetwork(r, k) == GetNetwork(c, k)
    ensures r == c.(networks := r.networks)
  {
    c.(networks := Store.Add(c.networks, name, value))
  }

  /** `Object::get` of the config for instances. */
  function GetInstance(c: Config, name: string): (r: Option<InstanceConfig>)
    ensures r.Some? <==> name in c.instances
    ensures r.Some? ==> r.value == c.instances[name]
  {
    Store.Get(c.instances, name)
  }

  /** `Object::add` of the config for instances; nothing else changes. */
  function AddInstance(c: Config, name: string, value: InstanceConfig): (r: Config)
    ensures GetInstance(r, name) == Some(value)
    ensures forall k :: k != name ==> GetInstance(r, k) == GetInstance(c, k)
    ensures r == c.(instances := r.instances)
  {
    c.(instances := Store.Add(c.instances, name, value))
  }

  /** `Object::get` of the config for route tables. */
  function GetRouteTable(c: Config, name: string): (r: Option<RouteTableConfig>)
    ensures r.Some? <==> name in c.routeTables
    ensures r.Some? ==> r.value == c.routeTables[name]
  {
    Store.Get(c.routeTables, name)
  }

  /** `Object::add` of the config for route tables; nothing else changes. */
  function AddRouteTable(c: Config, name: string, value: RouteTableConfig): (r: Config)
    ensures GetRouteTable(r, name) == Some(value)
    ensures forall k :: k != name ==> GetRouteTable(r, k) == GetRouteTable(c, k)
    ensures r == c.(routeTables := r.routeTables)
  {
    c.(routeTables := Store.Add(c.routeTables, name, value))
  }

  /**
   * The networks projection `Runtime::build` starts from: every declared
   * network resolved by `NetworkRuntime::new`.
   */
  function ProjectNetworks(c: Config): (r: map<string, NetworkRuntime>)
    ensures r.Keys == c.networks.Keys
    ensures forall name :: name in r ==> r[name] == Network.New(c.networks[name])
  {
    map name | name in c.networks :: Network.New(c.networks[name])
  }
}
