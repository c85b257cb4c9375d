# virt-rs resolution core, modelled in Dafny

virt-rs provisions a small topology of virtual machines from a declared
configuration. It has networks, instances, interfaces and route tables.
This project models the part of it that resolves a declared `Config` into a
`Runtime`, plus the pure decision logic of its two backends:

- **Network** (`network.dfy`): `NetworkConfig::new`, `NetworkRuntime::new`
  (gateway = network base + 1, reserved up front) and
  `NetworkRuntime::assign_address`. The allocator's first-free scan upward
  from base + 1 is proved fresh, deterministic, never the gateway, and
  dense on a fresh network.
- **Interface and MAC** (`interface.dfy`, `mac.dfy`):
  - `InterfaceRuntime::new` allocates only on unmanaged networks.
  - `unset_bit` clears one bit.
  - `generate_mac_address` renders six drawn octets as `xx:xx:xx:xx:xx:xx`.
    The first octet has bit 0 cleared. A parser for the rendered text gives
    the round trip.
- **Keyed store** (`store.dfy`, `config.dfy`, `instance.dfy`): the
  `Object` trait's `get`/`get_mut`/`add` over a name-keyed map, its impls
  for networks, instances, route tables and interfaces, `Config::new`, and
  the config-to-runtime projection of instances.
- **Route tables** (`route_table.dfy`, `route_resolution.dfy`):
  `RouteTableRuntime::configure` as a best-effort fold, checked against a
  reference reading (`HopsTo`). Dangling destinations and next-hops are
  dropped. A table is stored on its owner only when some route resolved.
  Nothing else changes.
- **Build pipeline** (`runtime.dfy`): `Runtime::build` as projection, then
  the interface pass (allocator state threaded through), then the route
  pass. The allocation invariant `Sound` holds after every step:
  - every gateway stays reserved;
  - every resolved address is recorded on its network;
  - no two interfaces on one network share an address.
- **LXD backend** (`lxd.dfy`, `text.dfy`):
  - the `lxc` argument vector each `LxdCommands` variant builds, proved
    decodable back to the command's meaning;
  - the exit-status rule;
  - `run` and `destroy` as functions producing the trace of commands issued
    against a backend oracle.
- **Hypervisor helpers** (`virt.dfy`): the version split of
  `show_hypervisor_info` and the per-interface device choice of the domain
  template.
- **The Simulate scenario** (`simulate.dfy`): the configuration built in
  `main.rs` resolves to 10.0.0.2 and 10.0.1.2.

Modelling decisions:

- **Addresses and subnets.**
  - An IPv4 address is its 32-bit integer form held as an unbounded `nat`.
  - A subnet is (address, prefix length). Its network base is the address
    with the host bits cleared (`Subnet.Base`).
  - `InterfaceRuntime.ip` holds the integer, not the dotted text.
  - The text appears only where the backends print it (`Text.Ipv4Text`).
- **One consistent revision.** The source files come from different
  revisions of the program.
  - `Config` carries `route_tables`, `InstanceRuntime` carries
    `route_tables`, and `InstanceConfig` carries `interfaces`.
  - A route's next-hop address is the next-hop interface's resolved `ip`;
    an interface without one contributes nothing.
  - A destination's subnet exists only for an unmanaged network, so a
    managed destination is skipped like an undeclared one.
- **The interface pass.** `InterfaceRuntime::configure` and the
  `HashMap::from(&Config)` projection of networks are not part of this
  model.
  - `Runtime.ConfigureInterfaces` stands in for the first: a fold of
    `InterfaceRuntime::new` over an enumeration of every declared
    (instance, interface) slot.
  - `Config.ProjectNetworks` stands in for the second: `NetworkRuntime::new`
    of every declared network.
  - An interface naming an undeclared network makes `build` fail with an
    error.
- **HashMap iteration order** is a parameter: a sequence that enumerates
  the keys (`Store.Enumerates`). No property depends on which order it is.
- **Randomness.** The `k`-th interface resolved takes `rng(k)`: six values
  drawn from `0..255`.
- **Shared state.** `Arc<Mutex<…>>` values are plain values. The
  allocator's network is threaded through explicitly.
- **Panics and backend outcomes.**
  - A `.unwrap()` the resolution code relies on is a precondition.
  - In the LXD backend, a `None` unwrapped while building arguments is a
    `Panicked` outcome.
  - The `lxc` process is an oracle from argument vector to exit status and
    stderr, or spawn error.
- **The MAC.** The source clears bit 0 of the first octet, the multicast
  bit, and nothing else; it does not set the locally-administered bit. The
  model follows the code.
- **`lxc network create`** always passes `ipv4.address={gateway}/24`,
  whatever the subnet's prefix length. The model keeps that.
- **Device choice.** The domain template reads `interface.managed`, which
  the `InterfaceRuntime` of this revision does not have. Rendering a
  missing field is falsy, so every device renders as an `ethernet` device
  (`Virt.DevicesAllEthernet`). `Virt.DeviceFor` states the choice for an
  arbitrary value.
- **Simulate values.** `InstanceConfig::new` takes `memory: u16`
  (src/instance/instance.rs:11,16), so the `"2GB"` that `main.rs` passes at
  lines 81-82 does not type-check. `InstanceConfig` declares no `routes`
  field, so `host1.routes = …` at main.rs:87 does not compile against it.
  The scenario uses memory 2 and leaves the route out. It is otherwise
  built as `main.rs` builds it: `Config::new`, then each network, host and
  interface added under its name.

## Model

| member | source | states |
|---|---|---|
| Network.Base | src/network/network.rs:81 | the network base lies within one block below the written address: `base <= addr < base + 2^(32-prefix)` |
| Network.BaseAligned | src/network/network.rs:81 | the network base is a multiple of the block size `2^(32-prefix)`: the host bits are cleared, so with `Network.Base` it is the largest such multiple not above the address |
| Network.NewConfig | src/network/network.rs:24-43 | `NetworkConfig::new` keeps its argument unchanged, the managed name or the unmanaged subnet included |
| Network.New | src/network/network.rs:77-102 | a managed network resolves to `Managed{name}` with the same name; an unmanaged one keeps its subnet, gets gateway base + 1, and has exactly the gateway in its assigned set, so `Reserved` holds |
| Network.FirstFree | src/network/network.rs:110-118 | the scan stops at an address at or above its start that is not assigned, and every address it passed is assigned |
| Network.FirstFreeUnique | src/network/network.rs:108-118 | any address with the first-free property is the one the scan returns, so the scan is deterministic |
| Network.AssignAddress | src/network/network.rs:103-122 | on an unmanaged network, the returned address is above the base and was not assigned; every address between base + 1 and it was assigned; the prefix length is the subnet's; and the assigned set gains exactly that address. A managed network gives `None` and is unchanged |
| Network.AssignPreservesReserved | src/network/network.rs:86-115 | allocation keeps the gateway recorded and reserved |
| Network.AssignNeverGateway | src/network/network.rs:86-118 | the gateway is never handed out |
| Network.AssignMany | src/network/network.rs:103-122 | `k` calls in a row on an unmanaged network give `k` addresses; a managed network gives none and is unchanged |
| Network.AssignManyFresh | src/network/network.rs:110-118 | repeated calls never repeat an address and never return one assigned before (the gateway included); afterwards the assigned set is the old set plus exactly the addresses returned |
| Network.AssignFromFresh | src/network/network.rs:81-118 | on a freshly resolved network the i-th call returns base + 2 + i |
| Network.AssignFromPrefix | src/network/network.rs:108-118 | with base + 1 … base + 1 + m assigned, the next `k` calls return base + 2 + m … base + 1 + m + k in order |
| Store.Get | src/object/object.rs:2 | `get` returns the stored value exactly when the name is present, and `None` otherwise |
| Store.GetMut | src/object/object.rs:3 | `get_mut` on an undeclared name gives `None`; otherwise a write through it changes only that name's entry |
| Store.Add | src/object/object.rs:4 | after `add(name, v)`, `get(name)` is `v`, every other name reads as before, and the key set gains `name` |
| Store.AddOverwrites | src/network/network.rs:53-54 | a later `add` under the same name replaces the earlier value |
| Store.AddCommutes | src/network/network.rs:53-54 | `add`s under different names commute |
| Config.New | src/config/config.rs:23-31 | `Config::new` stores the user settings unchanged and starts with no networks, instances, interfaces or route tables |
| Config.GetNetwork | src/network/network.rs:47-49 | the network impl's `get` returns the stored network exactly when the name is declared |
| Config.AddNetwork | src/network/network.rs:53-55 | the network impl's `add` makes `get(name)` return the value, leaves every other name and every other field of the config alone |
| Config.GetInstance | src/instance/instance.rs:26-28 | the instance impl's `get` returns the stored instance exactly when the name is declared |
| Config.AddInstance | src/instance/instance.rs:32-34 | the instance impl's `add` makes `get(name)` return the value, leaves every other name and every other field alone |
| Config.GetRouteTable | src/route_table/route_table.rs:32-34 | the route-table impl's `get` returns the stored table exactly when the name is declared |
| Config.AddRouteTable | src/route_table/route_table.rs:38-40 | the route-table impl's `add` makes `get(name)` return the value, leaves every other name and every other field alone |
| Config.ProjectNetworks | src/runtime/runtime.rs:15 | the projected network map has the declared key set and holds `NetworkRuntime::new` of each declaration |
| Instance.GetInterface | src/interface/interface.rs:23-25 | an instance's interface `get` returns the stored interface exactly when the name is declared |
| Instance.AddInterface | src/interface/interface.rs:29-31 | an instance's interface `add` makes `get(name)` return the value, leaves every other interface, vcpu, memory and image alone |
| Instance.FromConfig | src/instance/instance.rs:45-58 | `InstanceRuntime::from` keeps vcpu, memory and image and starts with no interfaces and no route tables |
| Instance.Project | src/instance/instance.rs:60-67 | the projected instance map has exactly the declared key set and holds `InstanceRuntime::from` of each declaration |
| Interface.New | src/interface/interface.rs:43-61 | the MTU is copied, the network is `Some(config.network)`, and the MAC is `Some` of the generated MAC. On a managed network `ip` is `None` and the network is untouched. On an unmanaged one `ip` is exactly the address `assign_address` returns and the network is the one it leaves, so the address is fresh, now assigned, and never the gateway, and the gateway stays reserved |
| Mac.UnsetBit | src/interface/interface.rs:83-88 | `Ok` exactly for bit numbers 0..7, with that bit cleared, every other bit unchanged and the result at most `b`; otherwise `Err` with the range message |
| Mac.UnsetBitIdempotent | src/interface/interface.rs:85 | clearing the same bit twice is clearing it once |
| Mac.UnsetBitArithmetic | src/interface/interface.rs:85 | clearing bit n subtracts 2^n when it was set and nothing otherwise |
| Mac.EvenAfterUnset | src/interface/interface.rs:69-74 | clearing bit 0 rounds the octet down to even |
| Mac.HexUpper | src/interface/interface.rs:78 | `{:02X}` renders every octet as exactly two characters |
| Mac.ToLower | src/interface/interface.rs:80 | lowercasing keeps the length and maps every character through ASCII lowercasing |
| Mac.MacOctets | src/interface/interface.rs:67-74 | the six octets: the first is the first draw with bit 0 cleared (even), the rest are the draws, all below 255 |
| Mac.GenerateMac | src/interface/interface.rs:64-81 | the MAC is 17 characters, with ':' exactly at positions 2, 5, 8, 11 and 14 and a lowercase hex digit everywhere else |
| Mac.RenderChars | src/interface/interface.rs:75-78 | the rendering before lowercasing has length 3·n − 1, with the colon and the two uppercase hex digits of each octet at their positions |
| Mac.MacChars | src/interface/interface.rs:75-80 | every character of the MAC is the lowercase of the expected uppercase rendering |
| Mac.GenerateMacRoundTrip | src/interface/interface.rs:64-81 | parsing the generated MAC gives back exactly the six octets, so the text determines the octets |
| Text.Decimal | src/lxd_manager/lxd_manager.rs:154 | `{}` of a number is a non-empty digit string with no leading zero (except "0") and no '.' or '/' |
| Text.DecimalRoundTrip | src/lxd_manager/lxd_manager.rs:154 | the digits' value is the number printed |
| Text.DecimalInjective | src/lxd_manager/lxd_manager.rs:264 | different numbers print differently |
| Text.Ipv4Text | src/lxd_manager/lxd_manager.rs:214 | the dotted form of an address contains no '/' |
| Text.Ipv4TextRoundTrip | src/lxd_manager/lxd_manager.rs:268 | parsing the dotted form of a 32-bit address gives the address back |
| Text.SplitFirstUnique | src/lxd_manager/lxd_manager.rs:214 | `a/b` with no '/' in `a` splits in one way only |
| RouteResolution.DestinationSubnet | src/route_table/route_table.rs:55 | a destination has a subnet exactly when it names a declared unmanaged network, and it is that network's subnet |
| RouteResolution.NextHopAddress | src/route_table/route_table.rs:57-58 | a next-hop resolves only when its instance and interface are declared, and then to that interface's address; a declared next-hop always resolves to its interface's `ip`, `None` included |
| RouteResolution.ResolveNextHops | src/route_table/route_table.rs:56-64 | a destination yields at most one address per declared next-hop |
| RouteResolution.ResolveNextHopsMembers | src/route_table/route_table.rs:56-61 | an address is collected exactly when some declared next-hop resolves to it |
| RouteResolution.ResolveNextHopsAppend | src/route_table/route_table.rs:56-61 | next-hops are resolved in declared order: resolving `a + b` is resolving `a` then `b` |
| RouteResolution.DanglingNextHopDropped | src/route_table/route_table.rs:57-58 | a next-hop that does not resolve is dropped silently and the others are unaffected |
| RouteResolution.AddHops | src/route_table/route_table.rs:61 | `entry(s).or_insert(..).push(..)` appends to subnet `s` only, and creates `s` only when something is pushed |
| RouteResolution.AddDestination | src/route_table/route_table.rs:54-61 | one destination step: a destination without a subnet (undeclared or managed network) leaves the map as it was; otherwise only its own subnet's entry may change, and no entry is removed |
| RouteResolution.AddDestinationLookup | src/route_table/route_table.rs:54-61 | one destination appends its next-hops under its subnet, and nothing when its network is unknown or managed |
| RouteResolution.ResolveRoutes | src/route_table/route_table.rs:54-66 | the destination loop never removes a subnet and only appends: each entry it starts with is a prefix of that entry afterwards |
| RouteResolution.ResolveRoutesNoEmpty | src/route_table/route_table.rs:54-61 | the destination loop only ever pushes onto an entry it creates, so no subnet is stored with an empty list |
| RouteResolution.ResolveRoutesLookup | src/route_table/route_table.rs:54-61 | after the destination loop each subnet holds what it held before followed by its destinations' next-hops, in destination order |
| RouteResolution.ResolveRoutesSpec | src/route_table/route_table.rs:54-66 | the destination fold gives each subnet exactly the next-hops of its destinations, in order, and never an empty entry |
| RouteResolution.ResolvedTableContents | src/route_table/route_table.rs:53-66 | a resolved table holds subnet `s` exactly when its destinations collect something for `s`, and then exactly that |
| RouteResolution.SameInterfacesSameRoutes | src/route_table/route_table.rs:51 | route resolution reads nothing of the instances but their interfaces, so the per-table snapshot sees what the interface pass produced |
| RouteResolution.SameInterfacesSameHops | src/route_table/route_table.rs:57-58 | next-hop resolution reads only the interfaces |
| RouteResolution.ResolveRoutesAddresses | src/route_table/route_table.rs:56-61 | every address put in a route is some resolved interface's address |
| RouteResolution.ConfigureTable | src/route_table/route_table.rs:50-73 | one table changes only its owner's route tables and only under its own name; a table with an unknown owner changes nothing |
| RouteResolution.ConfigureRoutes | src/route_table/route_table.rs:49-75 | the route pass keeps the instance names and every interface map; instances owning no visited table are unchanged; unvisited tables are unchanged; any new table is a visited table of that instance |
| RouteResolution.ConfigureRoutesStoresTable | src/route_table/route_table.rs:67-72 | a table is stored on its owner, under its name, exactly when at least one route resolved, and then holds exactly the resolved routes |
| RouteResolution.ConfigureRoutesResolved | src/route_table/route_table.rs:49-75 | after the route pass every stored route points at a resolved interface address |
| Runtime.ResolveSlot | src/interface/interface.rs:43-61 | one interface resolution fails exactly when its network is undeclared. Otherwise the interface is placed on its owner with its declared MTU and network. Only that slot changes, and networks only gain addresses |
| Runtime.ConfigureInterfaces | src/runtime/runtime.rs:17 | the interface pass fails exactly when some interface names an undeclared network; otherwise instance names are kept and networks only gain assigned addresses |
| Runtime.ConfigureInterfacesPlaces | src/runtime/runtime.rs:17 | after the interface pass exactly the visited slots are added, each matching its declaration, and nothing else changes |
| Runtime.ResolveSlotSound | src/interface/interface.rs:43-61 | resolving one interface keeps the allocation invariant: gateways reserved, addresses recorded, no address shared on a network |
| Runtime.ConfigureInterfacesSound | src/runtime/runtime.rs:17 | the whole interface pass keeps the allocation invariant |
| Runtime.SoundSameInterfaces | src/runtime/runtime.rs:18 | the invariant depends only on interfaces, so the route pass cannot break it |
| Runtime.Initial | src/runtime/runtime.rs:15-16 | both maps are projected from the config before any interface is resolved, and the projection satisfies the invariant |
| Runtime.Build | src/runtime/runtime.rs:14-23 | `build` fails exactly when an interface names an undeclared network; otherwise instance names are the declared ones, gateways stay reserved, and networks only gain addresses |
| Runtime.BuildFails | src/runtime/runtime.rs:14-23 | over an enumeration of every declared interface, `build` fails exactly when some declared interface names an undeclared network |
| Runtime.BuildStages | src/runtime/runtime.rs:15-22 | `build` is the route pass applied to exactly the result of the interface pass over the projected config (`mid`). The networks returned are those after the interface pass. In between, the invariant holds, scalar fields are kept, every declared interface is resolved, and no table is stored yet |
| Runtime.BuildSound | src/runtime/runtime.rs:14-23 | a built runtime keeps vcpu, memory, image and interface names. Every interface matches its declaration. The allocation invariant holds and every route points at a resolved address |
| Runtime.BuildRoutes | src/runtime/runtime.rs:18 | after `build` an instance holds only tables it owns, and holds a table exactly when some route of it resolved, with exactly the resolved routes |
| Lxd.Argv | src/lxd_manager/lxd_manager.rs:143-288 | creating a managed network is refused with "Cannot create managed network"; a missing gateway, ip, mac or mtu is an unwrap panic; anything else spawns `lxc` |
| Lxd.Status | src/lxd_manager/lxd_manager.rs:157-170 | a command completes exactly when `lxc` ran and exited successfully; an unsuccessful exit fails with its stderr, a spawn error with that error |
| Lxd.ArgvDecodes | src/lxd_manager/lxd_manager.rs:143-288 | every argument vector decodes back to what the command means, so no two meanings share a vector |
| Lxd.LaunchDecodes | src/lxd_manager/lxd_manager.rs:149-156 | the launch arguments carry the image, name, `limits.cpu` and `limits.memory` |
| Lxd.CreateNetworkDecodes | src/lxd_manager/lxd_manager.rs:209-215 | the network-create arguments carry `ipv4.address={gateway}/24`, whatever the subnet's prefix, and `ipv4.dhcp.gateway={gateway}` |
| Lxd.CidrDecodes | src/lxd_manager/lxd_manager.rs:214 | `ipv4.address={gateway}/24` reads back as the gateway and 24 |
| Lxd.AttachDecodes | src/lxd_manager/lxd_manager.rs:260-273 | the attach arguments carry `eth{idx}`, `name`, `ipv4.address`, `hwaddr`, `mtu` and `host_name={instance}_{intf}` |
| Lxd.DeviceNamesDistinct | src/lxd_manager/lxd_manager.rs:264 | different indices give different device names |
| Lxd.Execute | src/lxd_manager/lxd_manager.rs:44-78 | commands are issued in order up to the first one that does not complete, and the run's outcome is that command's; it completes exactly when all did |
| Lxd.ExecuteAppend | src/lxd_manager/lxd_manager.rs:44-78 | running `a + b` is running `a` and, only if it completed, then `b` |
| Lxd.Attaches | src/lxd_manager/lxd_manager.rs:54-75 | one instance's attaches name interfaces that have an ip, with indices idx, idx + 1, …; an interface is attached exactly when it has an ip |
| Lxd.AttachesSkip | src/lxd_manager/lxd_manager.rs:59-61 | an interface without an ip is skipped and consumes no index |
| Lxd.RunAttaches | src/lxd_manager/lxd_manager.rs:55-75 | the interface loop issues at most one command per interface, every one an attach to this instance, and a failed loop has issued at least one command; `Lxd.RunAttachesExecutes` pins the rest |
| Lxd.RunAttachesExecutes | src/lxd_manager/lxd_manager.rs:55-75 | the interface loop issues exactly the attach plan, stopping at the first failure |
| Lxd.Run | src/lxd_manager/lxd_manager.rs:44-79 | with at least one instance, the first command `run` issues is the launch of the first instance in iteration order, with its runtime config, and a failed run has issued at least one command; `Lxd.RunExecutesPlan` pins the rest |
| Lxd.RunExecutesPlan | src/lxd_manager/lxd_manager.rs:44-79 | `run` issues exactly the launch-then-attaches plan and aborts at the first failing launch or attach |
| Lxd.PlanWellOrdered | src/lxd_manager/lxd_manager.rs:44-77 | each instance's launch comes before its attaches, attach indices restart at 1 and rise by one, and an instance's attaches end before the next launch |
| Lxd.RunWellOrdered | src/lxd_manager/lxd_manager.rs:44-79 | what `run` actually issues, even when aborted, is well ordered |
| Lxd.PlanCommands | src/lxd_manager/lxd_manager.rs:44-75 | the plan holds only launches of visited instances with their config and attaches of their interfaces that have an ip |
| Lxd.PlanCovers | src/lxd_manager/lxd_manager.rs:44-75 | every visited instance is launched and each of its interfaces with an ip is attached |
| Lxd.Destroy | src/lxd_manager/lxd_manager.rs:80-114 | `destroy` issues one delete per instance whatever the earlier deletes returned, and always succeeds |
| Virt.Decode | src/virt_manager/virt_manager.rs:45-48 | the split gives minor and release below 1000 and `major*1000000 + minor*1000 + release` equal to the packed version |
| Virt.DecodeEncode | src/virt_manager/virt_manager.rs:45-48 | packing a valid version and splitting it gives the version back |
| Virt.DecodeUnique | src/virt_manager/virt_manager.rs:45-48 | the split is the only valid version that packs to the number |
| Virt.DeviceFor | src/virt_manager/virt_manager.rs:171-179 | a truthy `managed` gives a `network` device with that source; anything else gives an `ethernet` device targeting the interface key |
| Virt.Devices | src/virt_manager/virt_manager.rs:170-181 | one device per interface, in iteration order, each chosen by its `managed` field |
| Virt.DevicesAllEthernet | src/virt_manager/virt_manager.rs:170-181 | with no `managed` field on the resolved interface, every interface renders as an `ethernet` device named by its key |
| Simulate.Slash24Base | src/network/network.rs:81 | a /24 subnet written at a multiple of 256 has that address as its base |
| Simulate.FirstInterfaceOnFresh24 | src/network/network.rs:108-115 | the first interface on a fresh /24 gets base + 2 and the network records base + 1 and base + 2 |
| Simulate.BuildTwoOnFresh | src/runtime/runtime.rs:14-23 | two interfaces on two different fresh networks get base + 2 on each, and each of those networks records exactly its gateway and that address |
| Simulate.ScenarioDeclares | src/main.rs:62-111 | the configuration built by `Config::new` and the `add` calls declares exactly `mgmt` (managed `default`), `net1` (10.0.0.0/24) and `net2` (10.0.1.0/24), and the hosts `host1` and `host2` with one `eth0` each, on `net1` and `net2`, mtu 1500 |
| Simulate.SimulateBuild | src/main.rs:61-118 | for every iteration order of the scenario's interfaces, the Simulate configuration builds: host1.eth0 gets 10.0.0.2, host2.eth0 gets 10.0.1.2, the gateways .1 are kept, and the managed network is untouched |

## Left out

- Running processes, logging and libvirt: `Command::new("lxc")`, `log::info!`, `Connect`, `Domain::create_xml`, `genisoimage` and `create_instance`. The `lxc` process is a parameter (`Lxd.Backend`); the rest has no logical content here.
- `sleep` between LXD commands: timing only.
- `Arc<Mutex<…>>` locking: the code is sequential, so every entity is a plain value.
- `rand::thread_rng`: the drawn octets are a parameter, and no uniqueness of MACs is claimed because the code has none.
- CIDR parsing and printing by `ipnet`: a subnet is held parsed. The `subnet.parse().unwrap()` panic on malformed text is not modelled.
- File I/O, YAML loading and serialisation, CLI parsing and printing (main.rs outside the Simulate arm): I/O only.
- The commented-out network create and delete loops of `run` and `destroy`: they never run. `CreateNetwork` and `DestroyNetwork` are still modelled as commands.
- `std::str::from_utf8(..).unwrap()` on stderr: stderr is text in the model, so that panic is not modelled.
- The remainder of the domain template and the cloud-init user data: fixed text with no decision in it.
- Network.New: does not model the u32 overflow of `u32::from_be_bytes(..) + 1` at src/network/network.rs:81, which panics in debug builds and wraps to 0.0.0.0 in release builds for 255.255.255.255/32. The model gives that network the gateway 2^32.
- Network.AssignAddress: does not model the u32 wrap of `first_address += 1` past 255.255.255.255, because addresses are unbounded `nat` and the scan always stays within the finite assigned set plus one.
- Runtime.Build: does not model the `HashMap::from` for networks and `InterfaceRuntime::configure` bodies, which are not part of this model; they are stood in for by `Config.ProjectNetworks` and `Runtime.ConfigureInterfaces`.
- Lxd.ArgvDecodes: stated for addresses below 2^32 (`Lxd.Fits`), the range of `Ipv4Addr`.
- Simulate.SimulateBuild: leaves out the route that main.rs:87 assigns to `host1.routes`, because `InstanceConfig` has no `routes` field (src/instance/instance.rs:9-13), and uses memory 2 for the `"2GB"` at main.rs:81-82, because `InstanceConfig::new` takes `memory: u16`.
