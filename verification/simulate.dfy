/**
 * The `simulate` command of src/main.rs as a concrete scenario: a managed
 * management network, two unmanaged /24 networks and two hosts with one
 * interface each, resolved by `build`.
 */
module Simulate {
  import opened Wrappers
  import opened Network
  import opened Interface
  import opened Instance
  import opened RouteTable
  import opened Config
  import Cfg = Config
  import opened RouteResolution
  import opened Runtime
  import Mac

  const Net1Base: nat := 167772160   // 10.0.0.0
  const Net2Base: nat := 167772416   // 10.0.1.0

  /**
   * The configuration `simulate` builds, step by step as main.rs does:
   * `Config::new`, each network and host added under its name, and each
   * host's interface added to it. The host memory is 2 and no route is set
   * (see README).
   */
  function Scenario(): Config {
    var c := Cfg.New(UserConfig("ubuntu", "/home/alex/.ssh/id_rsa", "/var/lib/libvirt/images"));
    var host1 := AddInterface(InstanceConfig(1, 2, "ubuntu", map[]), "eth0", InterfaceConfig(Some(1500), "net1"));
    var host2 := AddInterface(InstanceConfig(1, 2, "ubuntu", map[]), "eth0", InterfaceConfig(Some(1500), "net2"));
    var c := AddNetwork(c, "mgmt", NewConfig(Managed("default")));
    var c := AddNetwork(c, "net1", NewConfig(Unmanaged(Subnet(Net1Base, 24))));
    var c := AddNetwork(c, "net2", NewConfig(Unmanaged(Subnet(Net2Base, 24))));
    var c := AddInstance(c, "host1", host1);
    AddInstance(c, "host2", host2)
  }

  /** What the scenario declares, spelled out. */
  lemma ScenarioDeclares()
    ensures Scenario().networks == map[
      "mgmt" := NetworkConfig(Managed("default")),
      "net1" := NetworkConfig(Unmanaged(Subnet(Net1Base, 24))),
      "net2" := NetworkConfig(Unmanaged(Subnet(Net2Base, 24)))]
    ensures Scenario().instances == map[
      "host1" := InstanceConfig(1, 2, "ubuntu", map["eth0" := InterfaceConfig(Some(1500), "net1")]),
      "host2" := InstanceConfig(1, 2, "ubuntu", map["eth0" := InterfaceConfig(Some(1500), "net2")])]
    ensures Scenario().interfaces == map[] && Scenario().routeTables == map[]
  {
  }

  lemma Slash24Base(addr: nat)
    requires addr % 256 == 0
    ensures Subnet(addr, 24).Base() == addr
  {
    assert Pow2(8) == 256 by {
      assert Pow2(1) == 2 && Pow2(2) == 4 && Pow2(3) == 8 && Pow2(4) == 16;
      assert Pow2(5) == 32 && Pow2(6) == 64 && Pow2(7) == 128;
    }
  }

  /** A fresh /24 network hands its first interface base + 2. */
  lemma FirstInterfaceOnFresh24(base: nat, config: InterfaceConfig, draw: Mac.MacDraw)
    requires base % 256 == 0
    ensures var n := UnmanagedNet(Subnet(base, 24), Some({base + 1}), Some(base + 1));
      var created := Interface.New(config, n, draw);
      && created.iface.ip == Some(base + 2)
      && created.network == UnmanagedNet(Subnet(base, 24), Some({base + 1, base + 2}), Some(base + 1))
  {
    Slash24Base(base);
    var n := UnmanagedNet(Subnet(base, 24), Some({base + 1}), Some(base + 1));
    var a := AssignAddress(n);
    var addr := a.lease.value.address;
    FirstFreeUnique({base + 1}, base + 1, base + 2);
    assert addr == FirstFree({base + 1}, base + 1);
    var created := Interface.New(config, n, draw);
    assert created.iface.ip == Some(addr);
    assert created.network == a.network;
    assert a.network.addresses == Some({base + 1} + {base + 2});
    assert {base + 1} + {base + 2} == {base + 1, base + 2};
  }

  /** Each host's interface is declared, on its own network. */
  lemma ScenarioSlots()
    ensures Declared(Scenario(), Slot("host1", "eth0")) && Declared(Scenario(), Slot("host2", "eth0"))
    ensures DeclaredConfig(Scenario(), Slot("host1", "eth0")).network == "net1"
    ensures DeclaredConfig(Scenario(), Slot("host2", "eth0")).network == "net2"
    ensures "net1" in Scenario().networks && "net2" in Scenario().networks
  {
    ScenarioDeclares();
  }

  lemma Slash24Aligned()
    ensures Net1Base % 256 == 0 && Net2Base % 256 == 0
  {
    assert Net1Base == 256 * 655360;
    assert Net2Base == 256 * 655361;
  }

  /** The networks as `build` first resolves them: each /24 holds only its gateway. */
  lemma InitialNetworks()
    ensures Initial(Scenario()).networks == map["mgmt" := ManagedNet("default"), "net1" := Fresh(Net1Base), "net2" := Fresh(Net2Base)]
  {
    ScenarioDeclares();
    InitialNetworksOf(Scenario());
  }

  /** Any configuration declaring the scenario's three networks resolves them so. */
  lemma InitialNetworksOf(c: Config)
    requires c.networks == map[
      "mgmt" := NetworkConfig(Managed("default")),
      "net1" := NetworkConfig(Unmanaged(Subnet(Net1Base, 24))),
      "net2" := NetworkConfig(Unmanaged(Subnet(Net2Base, 24)))]
    ensures Initial(c).networks == map["mgmt" := ManagedNet("default"), "net1" := Fresh(Net1Base), "net2" := Fresh(Net2Base)]
  {
    Slash24Base(Net1Base);
    Slash24Base(Net2Base);
    var nets := Initial(c).networks;
    assert nets.Keys == {"mgmt", "net1", "net2"};
    assert nets["mgmt"] == ManagedNet("default");
    assert nets["net1"] == Fresh(Net1Base);
    assert nets["net2"] == Fresh(Net2Base);
  }

  /** The scenario declares no route tables, so no table has destinations. */
  function NoDests(table: string): seq<string> {
    []
  }

  /** A /24 network as `NetworkRuntime::new` leaves it, and after its first interface. */
  function Fresh(base: nat): NetworkRuntime {
    UnmanagedNet(Subnet(base, 24), Some({base + 1}), Some(base + 1))
  }

  function Used(base: nat): NetworkRuntime {
    UnmanagedNet(Subnet(base, 24), Some({base + 1, base + 2}), Some(base + 1))
  }

  /** Resolving an interface on a fresh /24 network gives it base + 2. */
  lemma ResolveOnFresh(c: Config, st: Runtime, s: Slot, draw: Mac.MacDraw, base: nat)
    requires Declared(c, s) && s.instance in st.instances && AllReserved(st.networks)
    requires base % 256 == 0
    requires DeclaredConfig(c, s).network in st.networks && st.networks[DeclaredConfig(c, s).network] == Fresh(base)
    ensures var r := ResolveSlot(c, st, s, draw);
      && r.Ok?
      && At(r.value.instances, s.instance, s.interface).ip == Some(base + 2)
      && r.value.networks == st.networks[DeclaredConfig(c, s).network := Used(base)]
  {
    FirstInterfaceOnFresh24(base, DeclaredConfig(c, s), draw);
  }

  /** The interface pass over two slots is two resolution steps. */
  lemma ConfigureTwo(c: Config, st: Runtime, a: Slot, b: Slot, rng: nat -> Mac.MacDraw)
    requires Declared(c, a) && Declared(c, b) && a.instance in st.instances && b.instance in st.instances
    requires AllReserved(st.networks)
    requires ResolveSlot(c, st, a, rng(0)).Ok?
    ensures ConfigureInterfaces(c, st, [a, b], rng, 0) == ResolveSlot(c, ResolveSlot(c, st, a, rng(0)).value, b, rng(1))
  {
    var s1 := ResolveSlot(c, st, a, rng(0)).value;
    assert [a, b][1..] == [b];
    assert [b][1..] == [];
    match ResolveSlot(c, s1, b, rng(1))
    case Err(_) =>
    case Ok(s2) => assert ConfigureInterfaces(c, s2, [], rng, 2) == Ok(s2);
  }

  /** Without route tables, `build` returns the interface pass's state as it is. */
  lemma BuildWithoutTables(c: Config, slots: seq<Slot>, rng: nat -> Mac.MacDraw)
    requires forall s :: s in slots ==> Declared(c, s)
    ensures ConfigureInterfaces(c, Initial(c), slots, rng, 0).Ok? ==>
      Build(c, slots, rng, [], NoDests) == ConfigureInterfaces(c, Initial(c), slots, rng, 0)
  {
    var r := ConfigureInterfaces(c, Initial(c), slots, rng, 0);
    if r.Ok? {
      assert ConfigureRoutes(c, r.value.networks, r.value.instances, [], NoDests) == r.value.instances;
    }
  }

  /** Resolution leaves every other placed interface as it was. */
  lemma ResolveKeeps(c: Config, st: Runtime, s: Slot, draw: Mac.MacDraw, other: Slot)
    requires Declared(c, s) && s.instance in st.instances && AllReserved(st.networks)
    requires ResolveSlot(c, st, s, draw).Ok?
    requires Placed(st.instances, other.instance, other.interface) && other != s
    ensures var r := ResolveSlot(c, st, s, draw).value;
      && Placed(r.instances, other.instance, other.interface)
      && At(r.instances, other.instance, other.interface) == At(st.instances, other.instance, other.interface)
  {
    var r := ResolveSlot(c, st, s, draw).value;
    assert Placed(r.instances, other.instance, other.interface);
  }

  /**
   * Slots `a` and `b` are distinct declared interfaces of known instances,
   * on two distinct networks that are fresh /24s at `base1` and `base2`.
   */
  ghost predicate FreshPair(c: Config, st: Runtime, a: Slot, b: Slot, base1: nat, base2: nat) {
    && Declared(c, a) && Declared(c, b) && a.instance in st.instances && b.instance in st.instances
    && a != b && AllReserved(st.networks)
    && base1 % 256 == 0 && base2 % 256 == 0
    && DeclaredConfig(c, a).network != DeclaredConfig(c, b).network
    && DeclaredConfig(c, a).network in st.networks && st.networks[DeclaredConfig(c, a).network] == Fresh(base1)
    && DeclaredConfig(c, b).network in st.networks && st.networks[DeclaredConfig(c, b).network] == Fresh(base2)
  }

  /**
   * `a` holds base1 + 2 and `b` holds base2 + 2, and the networks are
   * `networks`.
   */
  ghost predicate TwoResolved(rt: Runtime, a: Slot, b: Slot, base1: nat, base2: nat, networks: map<string, NetworkRuntime>) {
    && Placed(rt.instances, a.instance, a.interface) && At(rt.instances, a.instance, a.interface).ip == Some(base1 + 2)
    && Placed(rt.instances, b.instance, b.interface) && At(rt.instances, b.instance, b.interface).ip == Some(base2 + 2)
    && rt.networks == networks
  }

  /**
   * Two interfaces on two distinct fresh /24 networks: the pass gives each
   * base + 2 and records exactly that address on its network.
   */
  lemma TwoOnFresh(c: Config, st: Runtime, a: Slot, b: Slot, rng: nat -> Mac.MacDraw, base1: nat, base2: nat)
    requires FreshPair(c, st, a, b, base1, base2)
    ensures var r := ConfigureInterfaces(c, st, [a, b], rng, 0);
      && r.Ok?
      && TwoResolved(r.value, a, b, base1, base2, st.networks[DeclaredConfig(c, a).network := Used(base1)][DeclaredConfig(c, b).network := Used(base2)])
  {
    ResolveOnFresh(c, st, a, rng(0), base1);
    var s1 := ResolveSlot(c, st, a, rng(0)).value;
    assert s1.networks[DeclaredConfig(c, b).network] == Fresh(base2);
    ResolveOnFresh(c, s1, b, rng(1), base2);
    ResolveKeeps(c, s1, b, rng(1), a);
    ConfigureTwo(c, st, a, b, rng);
  }

  /** `build` over two interfaces on two distinct fresh /24 networks and no route tables. */
  lemma BuildTwoOnFresh(c: Config, a: Slot, b: Slot, rng: nat -> Mac.MacDraw, base1: nat, base2: nat)
    requires FreshPair(c, Initial(c), a, b, base1, base2)
    ensures var r := Build(c, [a, b], rng, [], NoDests);
      && r.Ok?
      && TwoResolved(r.value, a, b, base1, base2, Initial(c).networks[DeclaredConfig(c, a).network := Used(base1)][DeclaredConfig(c, b).network := Used(base2)])
  {
    TwoOnFresh(c, Initial(c), a, b, rng, base1, base2);
    BuildWithoutTables(c, [a, b], rng);
  }

  const Host1: Slot := Slot("host1", "eth0")
  const Host2: Slot := Slot("host2", "eth0")

  /**
   * What `simulate` resolves to: host1.eth0 gets 10.0.0.2 on net1 and
   * host2.eth0 gets 10.0.1.2 on net2; each network keeps its gateway .1
   * and has exactly the gateway and that interface assigned, and the
   * management network is left as it is.
   */
  ghost predicate SimulateResolved(r: Result<Runtime, BuildError>) {
    && r.Ok?
    && Placed(r.value.instances, "host1", "eth0") && At(r.value.instances, "host1", "eth0").ip == Some(Net1Base + 2)
    && Placed(r.value.instances, "host2", "eth0") && At(r.value.instances, "host2", "eth0").ip == Some(Net2Base + 2)
    && r.value.networks == map["mgmt" := ManagedNet("default"), "net1" := Used(Net1Base), "net2" := Used(Net2Base)]
  }

  /** The scenario's interfaces are exactly host1.eth0 and host2.eth0. */
  lemma ScenarioInterfaces()
    ensures forall s :: Declared(Scenario(), s) <==> s == Host1 || s == Host2
  {
    ScenarioDeclares();
  }

  /** `i` is one of two positions. */
  predicate OneOf(i: int, ia: int, ib: int) {
    i == ia || i == ib
  }

  /** A duplicate-free sequence holding exactly two values lists them in one of two orders. */
  lemma TwoOrders<T>(s: seq<T>, a: T, b: T)
    requires a != b && Store.Distinct(s)
    requires forall x :: x in s <==> x == a || x == b
    ensures s == [a, b] || s == [b, a]
  {
    assert a in s && b in s;
    var ia :| 0 <= ia < |s| && s[ia] == a;
    var ib :| 0 <= ib < |s| && s[ib] == b;
    assert ia != ib;
    forall i | 0 <= i < |s|
      ensures OneOf(i, ia, ib)
    {
      assert s[i] in s;
    }
    var k := if ia != 0 && ib != 0 then 0 else if ia != 1 && ib != 1 then 1 else 2;
    assert !OneOf(k, ia, ib);
    assert |s| <= k;
    assert s[0] in s && s[1] in s;
  }

  /** Resolving host1 and then host2. */
  lemma SimulateBuildForward(rng: nat -> Mac.MacDraw)
    ensures SimulateResolved(Build(Scenario(), [Host1, Host2], rng, [], NoDests))
  {
    var c := Scenario();
    InitialNetworks();
    ScenarioSlots();
    Slash24Aligned();
    assert FreshPair(c, Initial(c), Host1, Host2, Net1Base, Net2Base);
    BuildTwoOnFresh(c, Host1, Host2, rng, Net1Base, Net2Base);
    UpdateTwo(Initial(c).networks, "mgmt", "net1", "net2", ManagedNet("default"), Fresh(Net1Base), Fresh(Net2Base), Used(Net1Base), Used(Net2Base));
  }

  /** Resolving host2 and then host1 gives the same result. */
  lemma SimulateBuildBackward(rng: nat -> Mac.MacDraw)
    ensures SimulateResolved(Build(Scenario(), [Host2, Host1], rng, [], NoDests))
  {
    var c := Scenario();
    InitialNetworks();
    ScenarioSlots();
    Slash24Aligned();
    assert FreshPair(c, Initial(c), Host2, Host1, Net2Base, Net1Base);
    BuildTwoOnFresh(c, Host2, Host1, rng, Net2Base, Net1Base);
    UpdateSwap(Initial(c).networks, "net2", "net1", Used(Net2Base), Used(Net1Base));
    UpdateTwo(Initial(c).networks, "mgmt", "net1", "net2", ManagedNet("default"), Fresh(Net1Base), Fresh(Net2Base), Used(Net1Base), Used(Net2Base));
  }

  /**
   * `simulate` resolves the same way whatever order the instance and
   * interface maps are walked in.
   */
  lemma SimulateBuild(slots: seq<Slot>, rng: nat -> Mac.MacDraw)
    requires EnumeratesInterfaces(Scenario(), slots)
    ensures forall s :: s in slots ==> Declared(Scenario(), s)
    ensures SimulateResolved(Build(Scenario(), slots, rng, [], NoDests))
  {
    ScenarioInterfaces();
    TwoOrders(slots, Host1, Host2);
    if slots == [Host1, Host2] {
      SimulateBuildForward(rng);
    } else {
      SimulateBuildBackward(rng);
    }
  }

  /** Overwriting two entries of a three-entry map. */
  lemma UpdateTwo<K, V>(m: map<K, V>, k1: K, k2: K, k3: K, v1: V, v2: V, v3: V, w2: V, w3: V)
    requires k1 != k2 && k1 != k3 && k2 != k3
    requires m == map[k1 := v1, k2 := v2, k3 := v3]
    ensures m[k2 := w2][k3 := w3] == map[k1 := v1, k2 := w2, k3 := w3]
  {
  }

  /** Updates under distinct keys commute. */
  lemma UpdateSwap<K, V>(m: map<K, V>, k1: K, k2: K, v1: V, v2: V)
    requires k1 != k2
    ensures m[k1 := v1][k2 := v2] == m[k2 := v2][k1 := v1]
  {
  }
}
