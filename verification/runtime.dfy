/**
 * The resolution pipeline, `Runtime::build` (src/runtime/runtime.rs), and
 * the interface pass it runs first, `InterfaceRuntime::configure`, modelled
 * as a fold of `InterfaceRuntime::new` over the declared interfaces with
 * the owning instance named explicitly.
 */
module Runtime {
  import opened Wrappers
  import Store
  import opened Network
  import Mac
  import opened Interface
  import opened Instance
  import opened RouteTable
  import opened Config
  import opened RouteResolution

  /** A declared interface, named by its owning instance and its own name. */
  datatype Slot = Slot(instance: string, interface: string)

  /** The one fatal resolution error: an interface names an undeclared network. */
  datatype BuildError = UnknownNetwork(instance: string, interface: string, network: string)

  /** The resolved model: instances and networks by name. */
  datatype Runtime = Runtime(instances: map<string, InstanceRuntime>, networks: map<string, NetworkRuntime>)

  /** `s` names an interface declared on a declared instance. */
  ghost predicate Declared(c: Config, s: Slot) {
    s.instance in c.instances && s.interface in c.instances[s.instance].interfaces
  }

  function DeclaredConfig(c: Config, s: Slot): InterfaceConfig
    requires Declared(c, s)
  {
    c.instances[s.instance].interfaces[s.interface]
  }

  /** `slots` is one iteration order over all declared interfaces: each exactly once. */
  ghost predicate EnumeratesInterfaces(c: Config, slots: seq<Slot>) {
    Store.Distinct(slots) && forall s :: s in slots <==> Declared(c, s)
  }

  /** Interface `f` of instance `i` has been resolved. */
  predicate Placed(instances: map<string, InstanceRuntime>, i: string, f: string) {
    i in instances && f in instances[i].interfaces
  }

  function At(instances: map<string, InstanceRuntime>, i: string, f: string): InterfaceRuntime
    requires Placed(instances, i, f)
  {
    instances[i].interfaces[f]
  }

  ghost predicate AllReserved(networks: map<string, NetworkRuntime>) {
    forall n :: n in networks ==> Reserved(networks[n])
  }

  /**
   * A resolved interface agrees with its network: it names a known network,
   * has an address exactly when that network is unmanaged, and the address
   * is recorded as assigned there and is not the gateway.
   */
  ghost predicate SoundInterface(x: InterfaceRuntime, networks: map<string, NetworkRuntime>) {
    && x.network.Some? && x.network.value in networks
    && (x.ip.None? <==> networks[x.network.value].ManagedNet?)
    && (x.ip.Some? ==>
          var n := networks[x.network.value];
          && n.UnmanagedNet? && n.addresses.Some?
          && x.ip.value in n.addresses.value
          && n.gateway != x.ip)
  }

  /** No two resolved interfaces on the same network share an address. */
  ghost predicate DistinctAddresses(instances: map<string, InstanceRuntime>) {
    forall i1, f1, i2, f2 ::
      && Placed(instances, i1, f1) && Placed(instances, i2, f2)
      && (i1 != i2 || f1 != f2)
      && At(instances, i1, f1).network == At(instances, i2, f2).network
      && At(instances, i1, f1).ip.Some?
      ==> At(instances, i1, f1).ip != At(instances, i2, f2).ip
  }

  /** The allocation invariant of a (partially) resolved model. */
  ghost predicate Sound(st: Runtime) {
    && AllReserved(st.networks)
    && (forall i, f :: Placed(st.instances, i, f) ==> SoundInterface(At(st.instances, i, f), st.networks))
    && DistinctAddresses(st.instances)
  }

  /**
   * How networks may change during resolution: same names, managed ones
   * untouched, unmanaged ones keep subnet and gateway and only gain
   * assigned addresses.
   */
  ghost predicate Evolves(before: map<string, NetworkRuntime>, after: map<string, NetworkRuntime>) {
    && before.Keys == after.Keys
    && forall n :: n in before ==>
      && (before[n].ManagedNet? ==> after[n] == before[n])
      && (before[n].UnmanagedNet? ==>
            && after[n].UnmanagedNet?
            && after[n].subnet == before[n].subnet
            && after[n].gateway == before[n].gateway
            && (before[n].addresses.Some? ==> after[n].addresses.Some? && before[n].addresses.value <= after[n].addresses.value))
  }

  /** The resolved interface carries its declaration's MTU and network, and a MAC. */
  predicate Matches(x: InterfaceRuntime, config: InterfaceConfig) {
    x.mtu == config.mtu && x.network == Some(config.network) && x.mac.Some?
  }

  /**
   * One step of the interface pass: look up the interface's network (an
   * undeclared one is fatal), run `InterfaceRuntime::new` against it, and
   * store the result in the owner's interface map.
   */
  function ResolveSlot(c: Config, st: Runtime, s: Slot, draw: Mac.MacDraw): (r: Result<Runtime, BuildError>)
    requires Declared(c, s) && s.instance in st.instances
    requires AllReserved(st.networks)
    ensures r.Err? <==> DeclaredConfig(c, s).network !in st.networks
    ensures r.Ok? ==>
      && r.value.instances.Keys == st.instances.Keys
      && AllReserved(r.value.networks)
      && Evolves(st.networks, r.value.networks)
      && Placed(r.value.instances, s.instance, s.interface)
      && Matches(At(r.value.instances, s.instance, s.interface), DeclaredConfig(c, s))
      && (forall i :: i in st.instances ==> r.value.instances[i] == st.instances[i].(interfaces := r.value.instances[i].interfaces))
      && (forall i, f :: i in st.instances ==>
            (Placed(r.value.instances, i, f) <==> Placed(st.instances, i, f) || Slot(i, f) == s))
      && (forall i, f :: Placed(st.instances, i, f) && Slot(i, f) != s ==> At(r.value.instances, i, f) == At(st.instances, i, f))
  {
    var config := DeclaredConfig(c, s);
    if config.network !in st.networks then Err(UnknownNetwork(s.instance, s.interface, config.network))
    else
      var created := Interface.New(config, st.networks[config.network], draw);
      var owner := st.instances[s.instance];
      Ok(Runtime(st.instances[s.instance := owner.(interfaces := owner.interfaces[s.interface := created.iface])],
                 st.networks[config.network := created.network]))
  }

  /** Network evolution composes. */
  lemma EvolvesTransitive(a: map<string, NetworkRuntime>, b: map<string, NetworkRuntime>, c: map<string, NetworkRuntime>)
    requires Evolves(a, b) && Evolves(b, c)
    ensures Evolves(a, c)
  {
  }

  /**
   * The interface pass over the iteration order `slots`; the k-th interface
   * resolved draws its MAC octets from `rng(k)`. The first interface whose
   * network is undeclared aborts the whole pass.
   */
  function ConfigureInterfaces(c: Config, st: Runtime, slots: seq<Slot>, rng: nat -> Mac.MacDraw, k: nat): (r: Result<Runtime, BuildError>)
    requires forall s :: s in slots ==> Declared(c, s) && s.instance in st.instances
    requires AllReserved(st.networks)
    ensures r.Err? <==> exists s :: s in slots && DeclaredConfig(c, s).network !in st.networks
    ensures r.Ok? ==>
      && r.value.instances.Keys == st.instances.Keys
      && AllReserved(r.value.networks)
      && Evolves(st.networks, r.value.networks)
    decreases |slots|
  {
    if slots == [] then Ok(st)
    else
      match ResolveSlot(c, st, slots[0], rng(k))
      case Err(e) => Err(e)
      case Ok(next) =>
        assert forall s :: s in slots[1..] ==> s in slots;
        var r := ConfigureInterfaces(c, next, slots[1..], rng, k + 1);
        assert r.Err? <==> exists s :: s in slots && DeclaredConfig(c, s).network !in st.networks by {
          assert forall s :: s in slots ==> s == slots[0] || s in slots[1..];
          assert next.networks.Keys == st.networks.Keys;
        }
        if r.Ok? then EvolvesTransitive(st.networks, next.networks, r.value.networks); r else r
  }

  /**
   * What the interface pass does to the instances: their scalar fields and
   * route tables are untouched, exactly the slots visited are added to the
   * interface maps, each carries its declaration's MTU and network and a
   * MAC, and interfaces not visited are left as they were.
   */
  lemma {:induction false} ConfigureInterfacesPlaces(c: Config, st: Runtime, slots: seq<Slot>, rng: nat -> Mac.MacDraw, k: nat)
    requires forall s :: s in slots ==> Declared(c, s) && s.instance in st.instances
    requires AllReserved(st.networks)
    ensures var r := ConfigureInterfaces(c, st, slots, rng, k);
      r.Ok? ==>
      && (forall i :: i in st.instances ==> r.value.instances[i] == st.instances[i].(interfaces := r.value.instances[i].interfaces))
      && (forall i, f :: i in st.instances ==>
            (Placed(r.value.instances, i, f) <==> Placed(st.instances, i, f) || Slot(i, f) in slots))
      && (forall s :: s in slots ==> Matches(At(r.value.instances, s.instance, s.interface), DeclaredConfig(c, s)))
      && (forall i, f :: Placed(st.instances, i, f) && Slot(i, f) !in slots ==> At(r.value.instances, i, f) == At(st.instances, i, f))
    decreases |slots|
  {
    var r := ConfigureInterfaces(c, st, slots, rng, k);
    if slots != [] && r.Ok? {
      var s0 := slots[0];
      var step := ResolveSlot(c, st, s0, rng(k));
      var next := step.value;
      var rest := slots[1..];
      assert forall s :: s in rest ==> s in slots;
      assert forall s :: s in slots ==> s == s0 || s in rest;
      ConfigureInterfacesPlaces(c, next, rest, rng, k + 1);
      assert r == ConfigureInterfaces(c, next, rest, rng, k + 1);
      forall s | s in slots
        ensures Matches(At(r.value.instances, s.instance, s.interface), DeclaredConfig(c, s))
      {
        if s !in rest {
          assert s == s0;
          assert At(r.value.instances, s.instance, s.interface) == At(next.instances, s.instance, s.interface);
        }
      }
      forall i, f | i in st.instances
        ensures Placed(r.value.instances, i, f) <==> Placed(st.instances, i, f) || Slot(i, f) in slots
      {
        assert Placed(next.instances, i, f) <==> Placed(st.instances, i, f) || Slot(i, f) == s0;
      }
      forall i, f | Placed(st.instances, i, f) && Slot(i, f) !in slots
        ensures At(r.value.instances, i, f) == At(st.instances, i, f)
      {
        assert Slot(i, f) != s0 && Slot(i, f) !in rest;
        assert At(next.instances, i, f) == At(st.instances, i, f);
      }
    }
  }

  /** An interface stays sound while its networks only evolve. */
  lemma SoundUnderEvolves(x: InterfaceRuntime, before: map<string, NetworkRuntime>, after: map<string, NetworkRuntime>)
    requires SoundInterface(x, before) && Evolves(before, after)
    ensures SoundInterface(x, after)
  {
  }

  /**
   * One step keeps the allocation invariant: the new address was not
   * assigned before, so it differs from every address already handed out,
   * and it is never the gateway.
   */
  lemma ResolveSlotSound(c: Config, st: Runtime, s: Slot, draw: Mac.MacDraw)
    requires Declared(c, s) && s.instance in st.instances
    requires Sound(st)
    ensures var r := ResolveSlot(c, st, s, draw); r.Ok? ==> Sound(r.value)
  {
    var r := ResolveSlot(c, st, s, draw);
    if r.Ok? {
      var config := DeclaredConfig(c, s);
      var net := st.networks[config.network];
      var created := Interface.New(config, net, draw);
      var st' := r.value;
      assert st'.networks == st.networks[config.network := created.network];
      assert At(st'.instances, s.instance, s.interface) == created.iface;
      forall i, f | Placed(st'.instances, i, f)
        ensures SoundInterface(At(st'.instances, i, f), st'.networks)
      {
        if Slot(i, f) != s {
          SoundUnderEvolves(At(st.instances, i, f), st.networks, st'.networks);
        }
      }
      forall i1, f1, i2, f2 |
        && Placed(st'.instances, i1, f1) && Placed(st'.instances, i2, f2)
        && (i1 != i2 || f1 != f2)
        && At(st'.instances, i1, f1).network == At(st'.instances, i2, f2).network
        && At(st'.instances, i1, f1).ip.Some?
        ensures At(st'.instances, i1, f1).ip != At(st'.instances, i2, f2).ip
      {
        if Slot(i1, f1) == s {
          var y := At(st.instances, i2, f2);
          assert y.network == Some(config.network);
          if y.ip.Some? {
            assert y.ip.value in net.addresses.value;
          }
        } else if Slot(i2, f2) == s {
          var y := At(st.instances, i1, f1);
          assert y.network == Some(config.network);
          assert y.ip.value in net.addresses.value;
        }
      }
    }
  }

  /** The whole interface pass keeps the allocation invariant. */
  lemma {:induction false} ConfigureInterfacesSound(c: Config, st: Runtime, slots: seq<Slot>, rng: nat -> Mac.MacDraw, k: nat)
    requires forall s :: s in slots ==> Declared(c, s) && s.instance in st.instances
    requires Sound(st)
    ensures var r := ConfigureInterfaces(c, st, slots, rng, k); r.Ok? ==> Sound(r.value)
    decreases |slots|
  {
    var r := ConfigureInterfaces(c, st, slots, rng, k);
    if slots != [] && r.Ok? {
      var next := ResolveSlot(c, st, slots[0], rng(k)).value;
      ResolveSlotSound(c, st, slots[0], rng(k));
      assert forall s :: s in slots[1..] ==> s in slots;
      ConfigureInterfacesSound(c, next, slots[1..], rng, k + 1);
    }
  }

  /** The route pass reads interfaces only, so it cannot disturb the allocation invariant. */
  lemma SoundSameInterfaces(a: map<string, InstanceRuntime>, b: map<string, InstanceRuntime>, networks: map<string, NetworkRuntime>)
    requires SameInterfaces(a, b) && Sound(Runtime(a, networks))
    ensures Sound(Runtime(b, networks))
  {
    assert forall i, f :: Placed(b, i, f) <==> Placed(a, i, f);
    assert forall i, f :: Placed(b, i, f) ==> At(b, i, f) == At(a, i, f);
  }

  /** The model `build` starts from: every declared instance and network, resolved on its own. */
  function Initial(c: Config): (st: Runtime)
    ensures st.instances.Keys == c.instances.Keys && st.networks.Keys == c.networks.Keys
    ensures Sound(st)
  {
    var st := Runtime(Project(c.instances), ProjectNetworks(c));
    assert forall i, f :: !Placed(st.instances, i, f);
    st
  }

  /**
   * `Runtime::build`: resolve the networks and instances, run the
   * interface pass (in order `slots`, MACs from `rng`) and then the route
   * pass (tables in order `tables`, destinations of table t in order
   * `dests(t)`) against the networks the interface pass left behind.
   */
  function Build(c: Config, slots: seq<Slot>, rng: nat -> Mac.MacDraw, tables: seq<string>, dests: string -> seq<string>): (r: Result<Runtime, BuildError>)
    requires forall s :: s in slots ==> Declared(c, s)
    requires TablesDeclared(c, tables, dests)
    ensures r.Err? <==> exists s :: s in slots && DeclaredConfig(c, s).network !in c.networks
    ensures r.Ok? ==>
      && r.value.instances.Keys == c.instances.Keys
      && AllReserved(r.value.networks)
      && Evolves(ProjectNetworks(c), r.value.networks)
  {
    var st := Initial(c);
    match ConfigureInterfaces(c, st, slots, rng, 0)
    case Err(e) => Err(e)
    case Ok(mid) => Ok(Runtime(ConfigureRoutes(c, mid.networks, mid.instances, tables, dests), mid.networks))
  }

  /** The interface pass when every declared interface is visited once. */
  ghost predicate Every(c: Config, slots: seq<Slot>, tables: seq<string>, dests: string -> seq<string>) {
    && EnumeratesInterfaces(c, slots)
    && Store.Enumerates(tables, c.routeTables.Keys)
    && (forall t :: t in tables ==> Store.Enumerates(dests(t), c.routeTables[t].routes.Keys))
  }

  /** Visiting every declared table with its declared destinations satisfies the route pass. */
  lemma EveryTableDeclared(c: Config, slots: seq<Slot>, tables: seq<string>, dests: string -> seq<string>)
    requires Every(c, slots, tables, dests)
    ensures forall s :: s in slots ==> Declared(c, s)
    ensures TablesDeclared(c, tables, dests)
  {
  }

  /**
   * `build` fails exactly when some declared interface names an
   * undeclared network, whatever the iteration orders.
   */
  lemma BuildFails(c: Config, slots: seq<Slot>, rng: nat -> Mac.MacDraw, tables: seq<string>, dests: string -> seq<string>)
    requires Every(c, slots, tables, dests)
    ensures TablesDeclared(c, tables, dests)
    ensures Build(c, slots, rng, tables, dests).Err? <==>
      exists i, f :: i in c.instances && f in c.instances[i].interfaces && c.instances[i].interfaces[f].network !in c.networks
  {
    EveryTableDeclared(c, slots, tables, dests);
    var r := Build(c, slots, rng, tables, dests);
    if r.Err? {
      var s :| s in slots && DeclaredConfig(c, s).network !in c.networks;
      assert s.instance in c.instances && s.interface in c.instances[s.instance].interfaces;
    }
    if exists i, f :: i in c.instances && f in c.instances[i].interfaces && c.instances[i].interfaces[f].network !in c.networks {
      var i, f :| i in c.instances && f in c.instances[i].interfaces && c.instances[i].interfaces[f].network !in c.networks;
      assert Declared(c, Slot(i, f));
      assert Slot(i, f) in slots;
    }
  }

  /** The two passes of a successful `build`, with what the interface pass established. */
  lemma BuildStages(c: Config, slots: seq<Slot>, rng: nat -> Mac.MacDraw, tables: seq<string>, dests: string -> seq<string>)
    returns (mid: Runtime)
    requires Every(c, slots, tables, dests)
    requires Build(c, slots, rng, tables, dests).Ok?
    ensures TablesDeclared(c, tables, dests)
    ensures ConfigureInterfaces(c, Initial(c), slots, rng, 0) == Ok(mid)
    ensures Build(c, slots, rng, tables, dests) == Ok(Runtime(ConfigureRoutes(c, mid.networks, mid.instances, tables, dests), mid.networks))
    ensures mid.instances.Keys == c.instances.Keys
    ensures Sound(mid)
    ensures forall i :: i in mid.instances ==>
      && mid.instances[i].vcpu == c.instances[i].vcpu
      && mid.instances[i].memory == c.instances[i].memory
      && mid.instances[i].image == c.instances[i].image
      && mid.instances[i].routeTables == map[]
      && mid.instances[i].interfaces.Keys == c.instances[i].interfaces.Keys
    ensures forall i, f :: Placed(mid.instances, i, f) ==> Matches(At(mid.instances, i, f), c.instances[i].interfaces[f])
  {
    EveryTableDeclared(c, slots, tables, dests);
    var st := Initial(c);
    mid := ConfigureInterfaces(c, st, slots, rng, 0).value;
    ConfigureInterfacesPlaces(c, st, slots, rng, 0);
    ConfigureInterfacesSound(c, st, slots, rng, 0);
    forall i | i in mid.instances
      ensures mid.instances[i].vcpu == c.instances[i].vcpu && mid.instances[i].memory == c.instances[i].memory
      ensures mid.instances[i].image == c.instances[i].image && mid.instances[i].routeTables == map[]
      ensures mid.instances[i].interfaces.Keys == c.instances[i].interfaces.Keys
    {
      assert mid.instances[i] == st.instances[i].(interfaces := mid.instances[i].interfaces);
      forall f ensures f in mid.instances[i].interfaces <==> f in c.instances[i].interfaces {
        assert Placed(mid.instances, i, f) <==> Slot(i, f) in slots;
        assert Slot(i, f) in slots <==> Declared(c, Slot(i, f));
      }
    }
    forall i, f | Placed(mid.instances, i, f)
      ensures Matches(At(mid.instances, i, f), c.instances[i].interfaces[f])
    {
      assert Slot(i, f) in slots;
    }
  }

  /**
   * A successful `build` keeps every instance's declared resources and
   * gives it exactly its declared interfaces, each with its declared MTU
   * and network and a MAC; no two interfaces on one network share an
   * address, none holds a gateway, and every route points at a resolved
   * interface address.
   */
  lemma BuildSound(c: Config, slots: seq<Slot>, rng: nat -> Mac.MacDraw, tables: seq<string>, dests: string -> seq<string>)
    requires Every(c, slots, tables, dests)
    ensures TablesDeclared(c, tables, dests)
    ensures var r := Build(c, slots, rng, tables, dests);
      r.Ok? ==>
        && (forall i :: i in r.value.instances ==>
              && r.value.instances[i].vcpu == c.instances[i].vcpu
              && r.value.instances[i].memory == c.instances[i].memory
              && r.value.instances[i].image == c.instances[i].image
              && r.value.instances[i].interfaces.Keys == c.instances[i].interfaces.Keys)
        && (forall i, f :: Placed(r.value.instances, i, f) ==> Matches(At(r.value.instances, i, f), c.instances[i].interfaces[f]))
        && Sound(r.value)
        && RoutesResolved(r.value.instances)
  {
    EveryTableDeclared(c, slots, tables, dests);
    if Build(c, slots, rng, tables, dests).Ok? {
      var mid := BuildStages(c, slots, rng, tables, dests);
      var fin := ConfigureRoutes(c, mid.networks, mid.instances, tables, dests);
      assert SameInterfaces(mid.instances, fin);
      SoundSameInterfaces(mid.instances, fin, mid.networks);
      assert RoutesResolved(mid.instances);
      ConfigureRoutesResolved(c, mid.networks, mid.instances, tables, dests);
      assert forall i, f :: Placed(fin, i, f) ==> Placed(mid.instances, i, f) && At(fin, i, f) == At(mid.instances, i, f);
    }
  }

  /**
   * In a successful `build`, route tables sit only on their owners, and
   * each declared table sits on its (declared) owner exactly when at least
   * one of its routes resolved, holding that resolution.
   */
  lemma BuildRoutes(c: Config, slots: seq<Slot>, rng: nat -> Mac.MacDraw, tables: seq<string>, dests: string -> seq<string>)
    requires Every(c, slots, tables, dests)
    ensures TablesDeclared(c, tables, dests)
    ensures var r := Build(c, slots, rng, tables, dests);
      r.Ok? ==>
        && (forall i, t :: i in r.value.instances && t in r.value.instances[i].routeTables ==>
              t in c.routeTables && c.routeTables[t].instance == i)
        && (forall t :: t in c.routeTables && c.routeTables[t].instance in r.value.instances ==>
              var owner := r.value.instances[c.routeTables[t].instance];
              var routes := ResolveRoutes(map[], c.routeTables[t].routes, dests(t), r.value.networks, r.value.instances);
              && (t in owner.routeTables <==> |routes| > 0)
              && (t in owner.routeTables ==> owner.routeTables[t] == RouteTableRuntime(routes)))
  {
    EveryTableDeclared(c, slots, tables, dests);
    if Build(c, slots, rng, tables, dests).Ok? {
      var mid := BuildStages(c, slots, rng, tables, dests);
      var fin := ConfigureRoutes(c, mid.networks, mid.instances, tables, dests);
      assert SameInterfaces(mid.instances, fin);
      forall t | t in c.routeTables && c.routeTables[t].instance in fin
        ensures var owner := fin[c.routeTables[t].instance];
          var routes := ResolveRoutes(map[], c.routeTables[t].routes, dests(t), mid.networks, fin);
          && (t in owner.routeTables <==> |routes| > 0)
          && (t in owner.routeTables ==> owner.routeTables[t] == RouteTableRuntime(routes))
      {
        assert t in tables;
        ConfigureRoutesStoresTable(c, mid.networks, mid.instances, tables, dests, t);
        SameInterfacesSameRoutes(map[], c.routeTables[t].routes, dests(t), mid.networks, mid.instances, fin);
      }
    }
  }
}
