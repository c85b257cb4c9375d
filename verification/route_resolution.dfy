/**
 * Route-table resolution, `RouteTableRuntime::configure`
 * (src/route_table/route_table.rs): a best-effort pass that turns each
 * declared route table into destination-subnet to next-hop-address lists
 * and stores it on the owning instance. References that do not resolve
 * are dropped, never reported.
 */
module RouteResolution {
  import opened Wrappers
  import Store
  import opened Network
  import opened Interface
  import opened Instance
  import opened RouteTable
  import opened Config

  /**
   * The subnet a destination network name routes to: only a declared
   * unmanaged network has one.
   */
  function DestinationSubnet(networks: map<string, NetworkRuntime>, d: string): (r: Option<Subnet>)
    ensures r.Some? <==> d in networks && networks[d].UnmanagedNet?
    ensures r.Some? ==> r.value == networks[d].subnet
  {
    if d in networks && networks[d].UnmanagedNet? then Some(networks[d].subnet) else None
  }

  /**
   * The address a next-hop reference resolves to: the resolved address of
   * that interface of that instance, if both are declared and it has one.
   */
  function NextHopAddress(instances: map<string, InstanceRuntime>, h: InstanceInterface): (r: Option<nat>)
    ensures r.Some? ==> h.instance in instances && h.interface in instances[h.instance].interfaces
    ensures r.Some? ==> instances[h.instance].interfaces[h.interface].ip == r
    ensures h.instance in instances && h.interface in instances[h.instance].interfaces ==>
      r == instances[h.instance].interfaces[h.interface].ip
  {
    if h.instance in instances && h.interface in instances[h.instance].interfaces
    then instances[h.instance].interfaces[h.interface].ip
    else None
  }

  /** The contribution of one next-hop: its address, or nothing if it does not resolve. */
  function HopAddress(instances: map<string, InstanceRuntime>, h: InstanceInterface): seq<nat> {
    match NextHopAddress(instances, h)
    case Some(a) => [a]
    case None => []
  }

  /**
   * The next-hop loop for one destination: the addresses of the next-hops
   * that resolve, in declared order; the others are skipped.
   */
  function ResolveNextHops(instances: map<string, InstanceRuntime>, hops: seq<InstanceInterface>): (r: seq<nat>)
    ensures |r| <= |hops|
  {
    if hops == [] then []
    else HopAddress(instances, hops[0]) + ResolveNextHops(instances, hops[1..])
  }

  /** The resolved next-hops are exactly the addresses of the next-hops that resolve. */
  lemma {:induction false} ResolveNextHopsMembers(instances: map<string, InstanceRuntime>, hops: seq<InstanceInterface>)
    ensures forall a :: a in ResolveNextHops(instances, hops) <==> exists h :: h in hops && NextHopAddress(instances, h) == Some(a)
  {
    if hops != [] {
      ResolveNextHopsMembers(instances, hops[1..]);
      assert forall a :: a in HopAddress(instances, hops[0]) <==> NextHopAddress(instances, hops[0]) == Some(a);
      assert forall h :: h in hops[1..] ==> h in hops;
      assert forall h :: h in hops ==> h == hops[0] || h in hops[1..];
    }
  }

  /** Next-hop resolution distributes over concatenation. */
  lemma {:induction false} ResolveNextHopsAppend(instances: map<string, InstanceRuntime>, a: seq<InstanceInterface>, b: seq<InstanceInterface>)
    ensures ResolveNextHops(instances, a + b) == ResolveNextHops(instances, a) + ResolveNextHops(instances, b)
  {
    if a == [] {
      assert a + b == b;
    } else {
      assert (a + b)[0] == a[0];
      assert (a + b)[1..] == a[1..] + b;
      ResolveNextHopsAppend(instances, a[1..], b);
      var head := HopAddress(instances, a[0]);
      assert ResolveNextHops(instances, a + b) == head + ResolveNextHops(instances, a[1..] + b);
      assert ResolveNextHops(instances, a) == head + ResolveNextHops(instances, a[1..]);
    }
  }

  /**
   * A next-hop that does not resolve is dropped without affecting the
   * next-hops around it.
   */
  lemma DanglingNextHopDropped(instances: map<string, InstanceRuntime>, a: seq<InstanceInterface>, h: InstanceInterface, b: seq<InstanceInterface>)
    requires NextHopAddress(instances, h).None?
    ensures ResolveNextHops(instances, a + [h] + b) == ResolveNextHops(instances, a + b)
  {
    assert [h][1..] == [];
    assert ResolveNextHops(instances, [h]) == [];
    ResolveNextHopsAppend(instances, a, [h]);
    assert ResolveNextHops(instances, a + [h]) == ResolveNextHops(instances, a);
    ResolveNextHopsAppend(instances, a + [h], b);
    ResolveNextHopsAppend(instances, a, b);
  }

  /** The list stored under `s`, empty when there is none. */
  function Lookup(routes: map<Subnet, seq<nat>>, s: Subnet): seq<nat> {
    if s in routes then routes[s] else []
  }

  /** `routes.entry(s).or_insert(Vec::new()).push(..)` once per address of `hops`. */
  function AddHops(routes: map<Subnet, seq<nat>>, s: Subnet, hops: seq<nat>): (r: map<Subnet, seq<nat>>)
    ensures Lookup(r, s) == Lookup(routes, s) + hops
    ensures forall t :: t != s ==> Lookup(r, t) == Lookup(routes, t)
    ensures r.Keys == if hops == [] then routes.Keys else routes.Keys + {s}
  {
    if hops == [] then routes else routes[s := Lookup(routes, s) + hops]
  }

  /**
   * One iteration of the destination loop: a destination whose network
   * has a subnet appends its resolved next-hops under that subnet; any
   * other destination changes nothing.
   */
  function AddDestination(
    acc: map<Subnet, seq<nat>>,
    table: map<string, seq<InstanceInterface>>,
    d: string,
    networks: map<string, NetworkRuntime>,
    instances: map<string, InstanceRuntime>): (r: map<Subnet, seq<nat>>)
    requires d in table
    ensures DestinationSubnet(networks, d).None? ==> r == acc
    ensures forall t :: DestinationSubnet(networks, d) != Some(t) ==> Lookup(r, t) == Lookup(acc, t)
    ensures acc.Keys <= r.Keys
  {
    match DestinationSubnet(networks, d)
    case None => acc
    case Some(s) => AddHops(acc, s, ResolveNextHops(instances, table[d]))
  }

  /** One destination step keeps non-empty entries and appends only under its own subnet. */
  lemma AddDestinationLookup(
    acc: map<Subnet, seq<nat>>,
    table: map<string, seq<InstanceInterface>>,
    d: string,
    networks: map<string, NetworkRuntime>,
    instances: map<string, InstanceRuntime>,
    s: Subnet)
    requires d in table && NoEmptyEntry(acc)
    ensures NoEmptyEntry(AddDestination(acc, table, d, networks, instances))
    ensures Lookup(AddDestination(acc, table, d, networks, instances), s) == Lookup(acc, s) +
      (if DestinationSubnet(networks, d) == Some(s) then ResolveNextHops(instances, table[d]) else [])
  {
    if DestinationSubnet(networks, d) != Some(s) {
      assert Lookup(acc, s) + [] == Lookup(acc, s);
    }
  }

  /**
   * The destination loop of one table: fold the destinations, in the given
   * iteration order, into `acc`.
   */
  function ResolveRoutes(
    acc: map<Subnet, seq<nat>>,
    table: map<string, seq<InstanceInterface>>,
    dests: seq<string>,
    networks: map<string, NetworkRuntime>,
    instances: map<string, InstanceRuntime>): (r: map<Subnet, seq<nat>>)
    requires forall d :: d in dests ==> d in table
    ensures acc.Keys <= r.Keys
    ensures forall t :: t in acc ==> acc[t] <= r[t]
    decreases |dests|
  {
    if dests == [] then acc
    else
      ResolveRoutes(AddDestination(acc, table, dests[0], networks, instances), table, dests[1..], networks, instances)
  }

  /**
   * Reference reading of a resolved table: the list under subnet `s` is
   * the concatenation, in destination order, of the resolved next-hops of
   * every destination whose network has subnet `s`.
   */
  function HopsTo(
    s: Subnet,
    table: map<string, seq<InstanceInterface>>,
    dests: seq<string>,
    networks: map<string, NetworkRuntime>,
    instances: map<string, InstanceRuntime>): seq<nat>
    requires forall d :: d in dests ==> d in table
    decreases |dests|
  {
    if dests == [] then []
    else
      (if DestinationSubnet(networks, dests[0]) == Some(s) then ResolveNextHops(instances, table[dests[0]]) else [])
      + HopsTo(s, table, dests[1..], networks, instances)
  }

  /** No subnet is stored with an empty list. */
  ghost predicate NoEmptyEntry(routes: map<Subnet, seq<nat>>) {
    forall s :: s in routes ==> routes[s] != []
  }

  /** The destination fold never stores an empty list. */
  lemma {:induction false} ResolveRoutesNoEmpty(
    acc: map<Subnet, seq<nat>>,
    table: map<string, seq<InstanceInterface>>,
    dests: seq<string>,
    networks: map<string, NetworkRuntime>,
    instances: map<string, InstanceRuntime>)
    requires forall d :: d in dests ==> d in table
    requires NoEmptyEntry(acc)
    ensures NoEmptyEntry(ResolveRoutes(acc, table, dests, networks, instances))
    decreases |dests|
  {
    if dests != [] {
      var acc' := AddDestination(acc, table, dests[0], networks, instances);
      assert ResolveRoutes(acc, table, dests, networks, instances) == ResolveRoutes(acc', table, dests[1..], networks, instances);
      AddDestinationLookup(acc, table, dests[0], networks, instances, Subnet(0, 0));
      ResolveRoutesNoEmpty(acc', table, dests[1..], networks, instances);
    }
  }

  /** Each subnet collects, after what it held, exactly its destinations' next-hops in order. */
  lemma {:induction false} ResolveRoutesLookup(
    acc: map<Subnet, seq<nat>>,
    table: map<string, seq<InstanceInterface>>,
    dests: seq<string>,
    networks: map<string, NetworkRuntime>,
    instances: map<string, InstanceRuntime>,
    s: Subnet)
    requires forall d :: d in dests ==> d in table
    requires NoEmptyEntry(acc)
    ensures Lookup(ResolveRoutes(acc, table, dests, networks, instances), s)
         == Lookup(acc, s) + HopsTo(s, table, dests, networks, instances)
    decreases |dests|
  {
    if dests == [] {
      assert Lookup(acc, s) + [] == Lookup(acc, s);
    } else {
      var d, rest := dests[0], dests[1..];
      var acc' := AddDestination(acc, table, d, networks, instances);
      var here := if DestinationSubnet(networks, d) == Some(s) then ResolveNextHops(instances, table[d]) else [];
      ResolveRoutesUnfold(acc, table, dests, networks, instances);
      HopsToUnfold(s, table, dests, networks, instances);
      AddDestinationLookup(acc, table, d, networks, instances, s);
      ResolveRoutesLookup(acc', table, rest, networks, instances, s);
      ConcatAssoc(Lookup(acc, s), here, HopsTo(s, table, rest, networks, instances));
    }
  }

  /** One step of the destination fold. */
  lemma ResolveRoutesUnfold(
    acc: map<Subnet, seq<nat>>,
    table: map<string, seq<InstanceInterface>>,
    dests: seq<string>,
    networks: map<string, NetworkRuntime>,
    instances: map<string, InstanceRuntime>)
    requires dests != [] && forall d :: d in dests ==> d in table
    ensures ResolveRoutes(acc, table, dests, networks, instances)
         == ResolveRoutes(AddDestination(acc, table, dests[0], networks, instances), table, dests[1..], networks, instances)
  {
  }

  /** One step of the reference reading. */
  lemma HopsToUnfold(
    s: Subnet,
    table: map<string, seq<InstanceInterface>>,
    dests: seq<string>,
    networks: map<string, NetworkRuntime>,
    instances: map<string, InstanceRuntime>)
    requires dests != [] && forall d :: d in dests ==> d in table
    ensures HopsTo(s, table, dests, networks, instances)
         == (if DestinationSubnet(networks, dests[0]) == Some(s) then ResolveNextHops(instances, table[dests[0]]) else [])
            + HopsTo(s, table, dests[1..], networks, instances)
  {
  }

  lemma ConcatAssoc<T>(a: seq<T>, b: seq<T>, c: seq<T>)
    ensures (a + b) + c == a + (b + c)
  {
  }



  /**
   * The destination fold agrees with the reference reading: each subnet
   * collects exactly its destinations' next-hops, in order, and a subnet
   * appears only when something was collected for it.
   */
  lemma ResolveRoutesSpec(
    acc: map<Subnet, seq<nat>>,
    table: map<string, seq<InstanceInterface>>,
    dests: seq<string>,
    networks: map<string, NetworkRuntime>,
    instances: map<string, InstanceRuntime>,
    s: Subnet)
    requires forall d :: d in dests ==> d in table
    requires NoEmptyEntry(acc)
    ensures var r := ResolveRoutes(acc, table, dests, networks, instances);
      && NoEmptyEntry(r)
      && Lookup(r, s) == Lookup(acc, s) + HopsTo(s, table, dests, networks, instances)
      && (s in r <==> Lookup(r, s) != [])
  {
    ResolveRoutesNoEmpty(acc, table, dests, networks, instances);
    ResolveRoutesLookup(acc, table, dests, networks, instances, s);
  }

  /** A resolved table from scratch has an entry exactly for the subnets that collected a next-hop. */
  lemma ResolvedTableContents(
    table: map<string, seq<InstanceInterface>>,
    dests: seq<string>,
    networks: map<string, NetworkRuntime>,
    instances: map<string, InstanceRuntime>,
    s: Subnet)
    requires forall d :: d in dests ==> d in table
    ensures var r := ResolveRoutes(map[], table, dests, networks, instances);
      && (s in r <==> HopsTo(s, table, dests, networks, instances) != [])
      && (s in r ==> r[s] == HopsTo(s, table, dests, networks, instances))
  {
    ResolveRoutesSpec(map[], table, dests, networks, instances, s);
  }

  /** Same instances, each with the same resolved interfaces. */
  ghost predicate SameInterfaces(a: map<string, InstanceRuntime>, b: map<string, InstanceRuntime>) {
    a.Keys == b.Keys && forall i :: i in a ==> a[i].interfaces == b[i].interfaces
  }

  /** Route resolution reads nothing of the instances but their interfaces. */
  lemma {:induction false} SameInterfacesSameRoutes(
    acc: map<Subnet, seq<nat>>,
    table: map<string, seq<InstanceInterface>>,
    dests: seq<string>,
    networks: map<string, NetworkRuntime>,
    a: map<string, InstanceRuntime>,
    b: map<string, InstanceRuntime>)
    requires forall d :: d in dests ==> d in table
    requires SameInterfaces(a, b)
    ensures ResolveRoutes(acc, table, dests, networks, a) == ResolveRoutes(acc, table, dests, networks, b)
    decreases |dests|
  {
    if dests != [] {
      SameInterfacesSameHops(table[dests[0]], a, b);
      var acc' := AddDestination(acc, table, dests[0], networks, a);
      assert acc' == AddDestination(acc, table, dests[0], networks, b);
      SameInterfacesSameRoutes(acc', table, dests[1..], networks, a, b);
    }
  }

  lemma {:induction false} SameInterfacesSameHops(hops: seq<InstanceInterface>, a: map<string, InstanceRuntime>, b: map<string, InstanceRuntime>)
    requires SameInterfaces(a, b)
    ensures ResolveNextHops(a, hops) == ResolveNextHops(b, hops)
  {
    if hops != [] {
      assert NextHopAddress(a, hops[0]) == NextHopAddress(b, hops[0]);
      SameInterfacesSameHops(hops[1..], a, b);
    }
  }

  /** `a` is the resolved address of some interface of some instance. */
  ghost predicate IsInterfaceAddress(instances: map<string, InstanceRuntime>, a: nat) {
    exists i, f :: i in instances && f in instances[i].interfaces && instances[i].interfaces[f].ip == Some(a)
  }

  /** Every address in the map is some interface's resolved address. */
  ghost predicate AddressesResolved(routes: map<Subnet, seq<nat>>, instances: map<string, InstanceRuntime>) {
    forall s, a :: s in routes && a in routes[s] ==> IsInterfaceAddress(instances, a)
  }

  /** Resolution only ever adds addresses that belong to resolved interfaces. */
  lemma {:induction false} ResolveRoutesAddresses(
    acc: map<Subnet, seq<nat>>,
    table: map<string, seq<InstanceInterface>>,
    dests: seq<string>,
    networks: map<string, NetworkRuntime>,
    instances: map<string, InstanceRuntime>)
    requires forall d :: d in dests ==> d in table
    requires AddressesResolved(acc, instances)
    ensures AddressesResolved(ResolveRoutes(acc, table, dests, networks, instances), instances)
    decreases |dests|
  {
    if dests != [] {
      var d := dests[0];
      var acc' := AddDestination(acc, table, d, networks, instances);
      forall s, a | s in acc' && a in acc'[s]
        ensures IsInterfaceAddress(instances, a)
      {
        if a !in Lookup(acc, s) {
          var hops := ResolveNextHops(instances, table[d]);
          assert a in hops;
          ResolveNextHopsMembers(instances, table[d]);
          var h :| h in table[d] && NextHopAddress(instances, h) == Some(a);
          assert instances[h.instance].interfaces[h.interface].ip == Some(a);
        }
      }
      ResolveRoutesAddresses(acc', table, dests[1..], networks, instances);
    }
  }

  /** Every address of every stored route table is some interface's resolved address. */
  ghost predicate RoutesResolved(instances: map<string, InstanceRuntime>) {
    forall i, t :: i in instances && t in instances[i].routeTables ==>
      AddressesResolved(instances[i].routeTables[t].routes, instances)
  }

  /** Every name in `tables` is a declared route table whose destinations cover `dests` of it. */
  ghost predicate TablesDeclared(c: Config, tables: seq<string>, dests: string -> seq<string>) {
    forall t :: t in tables ==> t in c.routeTables && (forall d :: d in dests(t) ==> d in c.routeTables[t].routes)
  }

  /**
   * One iteration of the table loop: resolve table `t` against the current
   * instances and store it on its owner, under its own name, if the owner
   * is known and at least one route resolved.
   */
  function ConfigureTable(
    c: Config,
    networks: map<string, NetworkRuntime>,
    instances: map<string, InstanceRuntime>,
    t: string,
    dests: seq<string>): (r: map<string, InstanceRuntime>)
    requires t in c.routeTables && forall d :: d in dests ==> d in c.routeTables[t].routes
    ensures r.Keys == instances.Keys
    ensures forall i :: i in r ==> r[i] == instances[i].(routeTables := r[i].routeTables)
    ensures forall i :: i in r && i != c.routeTables[t].instance ==> r[i] == instances[i]
    ensures forall i, u :: i in r && u != t ==>
      (u in r[i].routeTables <==> u in instances[i].routeTables)
      && (u in r[i].routeTables ==> r[i].routeTables[u] == instances[i].routeTables[u])
    ensures forall i, u :: i in r && u in r[i].routeTables && u !in instances[i].routeTables ==>
      u == t && c.routeTables[t].instance == i
  {
    var table := c.routeTables[t];
    if table.instance in instances then
      var routes := ResolveRoutes(map[], table.routes, dests, networks, instances);
      if |routes| > 0 then
        var owner := instances[table.instance];
        instances[table.instance := owner.(routeTables := owner.routeTables[t := RouteTableRuntime(routes)])]
      else instances
    else instances
  }

  /**
   * `RouteTableRuntime::configure`: the table loop over the declared route
   * tables in the iteration order `tables`, with `dests(t)` the iteration
   * order of table `t`'s destinations. Only route tables change, and only
   * on the instances that own a table; interfaces are read, never written.
   */
  function ConfigureRoutes(
    c: Config,
    networks: map<string, NetworkRuntime>,
    instances: map<string, InstanceRuntime>,
    tables: seq<string>,
    dests: string -> seq<string>): (r: map<string, InstanceRuntime>)
    requires TablesDeclared(c, tables, dests)
    ensures r.Keys == instances.Keys
    ensures forall i :: i in r ==> r[i] == instances[i].(routeTables := r[i].routeTables)
    ensures forall i :: i in r && (forall t :: t in tables ==> c.routeTables[t].instance != i) ==> r[i] == instances[i]
    ensures forall i, t :: i in r && t !in tables ==>
      (t in r[i].routeTables <==> t in instances[i].routeTables)
      && (t in r[i].routeTables ==> r[i].routeTables[t] == instances[i].routeTables[t])
    ensures forall i, t :: i in r && t in r[i].routeTables && t !in instances[i].routeTables ==>
      t in tables && c.routeTables[t].instance == i
    decreases |tables|
  {
    if tables == [] then instances
    else
      var next := ConfigureTable(c, networks, instances, tables[0], dests(tables[0]));
      assert forall u :: u in tables[1..] ==> u in tables;
      assert forall u :: u in tables ==> u == tables[0] || u in tables[1..];
      ConfigureRoutes(c, networks, next, tables[1..], dests)
  }

  /**
   * With each table visited once, a table lands on its owner exactly when
   * at least one of its routes resolved, and what lands is its resolution
   * against the interfaces as they were before the pass.
   */
  lemma {:induction false} ConfigureRoutesStoresTable(
    c: Config,
    networks: map<string, NetworkRuntime>,
    instances: map<string, InstanceRuntime>,
    tables: seq<string>,
    dests: string -> seq<string>,
    t: string)
    requires TablesDeclared(c, tables, dests) && Store.Distinct(tables) && t in tables
    requires c.routeTables[t].instance in instances
    requires t !in instances[c.routeTables[t].instance].routeTables
    ensures var owner := c.routeTables[t].instance;
      var r := ConfigureRoutes(c, networks, instances, tables, dests);
      var routes := ResolveRoutes(map[], c.routeTables[t].routes, dests(t), networks, instances);
      && (t in r[owner].routeTables <==> |routes| > 0)
      && (t in r[owner].routeTables ==> r[owner].routeTables[t] == RouteTableRuntime(routes))
    decreases |tables|
  {
    var next := ConfigureTable(c, networks, instances, tables[0], dests(tables[0]));
    assert SameInterfaces(instances, next);
    assert forall u :: u in tables[1..] ==> u in tables;
    if tables[0] == t {
      assert t !in tables[1..] by {
        forall k | 0 <= k < |tables[1..]| ensures tables[1..][k] != t {
          assert tables[1..][k] == tables[k + 1];
        }
      }
    } else {
      assert Store.Distinct(tables[1..]) by {
        forall i, j | 0 <= i < j < |tables[1..]| ensures tables[1..][i] != tables[1..][j] {
          assert tables[1..][i] == tables[i + 1] && tables[1..][j] == tables[j + 1];
        }
      }
      ConfigureRoutesStoresTable(c, networks, next, tables[1..], dests, t);
      SameInterfacesSameRoutes(map[], c.routeTables[t].routes, dests(t), networks, next, instances);
    }
  }

  /** The route pass keeps every stored route pointing at resolved interface addresses. */
  lemma {:induction false} ConfigureRoutesResolved(
    c: Config,
    networks: map<string, NetworkRuntime>,
    instances: map<string, InstanceRuntime>,
    tables: seq<string>,
    dests: string -> seq<string>)
    requires TablesDeclared(c, tables, dests)
    requires RoutesResolved(instances)
    ensures RoutesResolved(ConfigureRoutes(c, networks, instances, tables, dests))
    decreases |tables|
  {
    if tables != [] {
      var t := tables[0];
      var next := ConfigureTable(c, networks, instances, t, dests(t));
      var table := c.routeTables[t];
      if table.instance in instances {
        assert AddressesResolved(map[], instances);
        ResolveRoutesAddresses(map[], table.routes, dests(t), networks, instances);
      }
      assert SameInterfaces(instances, next);
      forall i, u | i in next && u in next[i].routeTables
        ensures AddressesResolved(next[i].routeTables[u].routes, next)
      {
        forall s, a | s in next[i].routeTables[u].routes && a in next[i].routeTables[u].routes[s]
          ensures IsInterfaceAddress(next, a)
        {
          assert IsInterfaceAddress(instances, a);
          var j, f :| j in instances && f in instances[j].interfaces && instances[j].interfaces[f].ip == Some(a);
          assert next[j].interfaces[f].ip == Some(a);
        }
      }
      ConfigureRoutesResolved(c, networks, next, tables[1..], dests);
    }
  }
}
