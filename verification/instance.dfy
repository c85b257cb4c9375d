/**
 * Instances as declared and as resolved, the declared-to-resolved
 * projection, and the `Object` impl of an instance for its interfaces
 * (src/instance/instance.rs, src/interface/interface.rs).
 */
module Instance {
  import opened Wrappers
  import Store
  import opened Interface
  import opened RouteTable

  /** A declared instance, owning its declared interfaces by name. */
  datatype InstanceConfig = InstanceConfig(
    vcpu: nat,
    memory: nat,
    image: string,
    interfaces: map<string, InterfaceConfig>)

  /** A resolved instance: resolved interfaces and route tables by name. */
  datatype InstanceRuntime = InstanceRuntime(
    vcpu: nat,
    memory: nat,
    image: string,
    interfaces: map<string, InterfaceRuntime>,
    routeTables: map<string, RouteTableRuntime>)

  /** `Object::get` of an instance for its interfaces. */
  function GetInterface(c: InstanceConfig, name: string): (r: Option<InterfaceConfig>)
    ensures r.Some? <==> name in c.interfaces
    ensures r.Some? ==> r.value == c.interfaces[name]
  {
    Store.Get(c.interfaces, name)
  }

  /** `Object::add` of an instance for its interfaces; nothing else changes. */
  function AddInterface(c: InstanceConfig, name: string, value: InterfaceConfig): (r: InstanceConfig)
    ensures GetInterface(r, name) == Some(value)
    ensures forall k :: k != name ==> GetInterface(r, k) == GetInterface(c, k)
    ensures r.vcpu == c.vcpu && r.memory == c.memory && r.image == c.image
  {
    c.(interfaces := Store.Add(c.interfaces, name, value))
  }

  /**
   * `From<InstanceConfig> for InstanceRuntime`: keep the scalar fields,
   * start with no resolved interfaces and no route tables.
   */
  function FromConfig(c: InstanceConfig): (r: InstanceRuntime)
    ensures r.vcpu == c.vcpu && r.memory == c.memory && r.image == c.image
    ensures r.interfaces == map[] && r.routeTables == map[]
  {
    InstanceRuntime(c.vcpu, c.memory, c.image, map[], map[])
  }

  /**
   * `From<&Config> for HashMap<String, InstanceRuntime>`, given the
   * config's instance map: every declared instance, projected.
   */
  function Project(instances: map<string, InstanceConfig>): (r: map<string, InstanceRuntime>)
    ensures r.Keys == instances.Keys
    ensures forall name :: name in r ==> r[name] == FromConfig(instances[name])
  {
    map name | name in instances :: FromConfig(instances[name])
  }
}
