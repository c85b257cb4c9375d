/**
 * Networks as declared and as resolved, and the per-network address
 * allocator (src/network/network.rs).
 *
 * An IPv4 address is its 32-bit integer form, held as an unbounded `nat`;
 * a subnet is an address together with a prefix length, as `ipnet` parses
 * `"10.0.0.0/24"`. The text of the subnet (parsing and printing) is not
 * modelled.
 */
module Network {
  import opened Wrappers

  /** 2 raised to `n`. */
  function Pow2(n: nat): (r: nat)
    ensures r >= 1
  {
    if n == 0 then 1 else 2 * Pow2(n - 1)
  }

  type PrefixLen = p: nat | p <= 32

  /** A parsed CIDR subnet: the address as written and its prefix length. */
  datatype Subnet = Subnet(addr: nat, prefixLen: PrefixLen) {

    /** Number of addresses in one block of this prefix length. */
    function BlockSize(): nat {
      Pow2(32 - prefixLen)
    }

    /**
     * `network()`: the address with its host bits cleared, i.e. the largest
     * multiple of the block size that does not exceed `addr`.
     */
    function Base(): (b: nat)
      ensures b <= addr < b + BlockSize()
    {
      var size := BlockSize();
      ModRange(addr, size);
      addr - addr % size
    }
  }

  /** The remainder of `x` by `m` lies below both `m` and `x` + 1. */
  lemma ModRange(x: nat, m: nat)
    requires m > 0
    ensures 0 <= x % m < m && x % m <= x
  {
    assert x == (x / m) * m + x % m;
    MultipleBounds(x / m, m);
  }

  /**
   * The remainder is unique: writing `x` as `k * m + r` with `0 <= r < m`
   * forces `r` to be `x % m`.
   */
  lemma {:induction false} ModUnique(x: int, m: int, k: int, r: int)
    requires m > 0 && x == k * m + r && 0 <= r < m
    ensures x % m == r
  {
    var q, r' := x / m, x % m;
    assert x == q * m + r';
    MultipleBounds(k - q, m);
    assert (k - q) * m == r' - r;
  }

  /** A non-zero multiple of `m` is at least `m` away from zero. */
  lemma MultipleBounds(d: int, m: int)
    requires m > 0
    ensures d >= 1 ==> d * m >= m
    ensures d <= -1 ==> d * m <= -m
  {
    if d >= 1 {
      assert d * m == (d - 1) * m + m;
    } else if d <= -1 {
      assert d * m == (d + 1) * m - m;
    }
  }

  /** `network()` clears the host bits: the base is a multiple of the block size. */
  lemma BaseAligned(s: Subnet)
    ensures s.Base() % s.BlockSize() == 0
  {
    var size := s.BlockSize();
    assert s.addr == (s.addr / size) * size + s.addr % size;
    ModUnique(s.Base(), size, s.addr / size, 0);
  }

  /** The type tag of a declared network. */
  datatype NetworkTypeConfig =
    | Managed(name: string)
    | Unmanaged(subnet: Subnet)

  datatype NetworkConfig = NetworkConfig(networkType: NetworkTypeConfig)

  /** `NetworkConfig::new`: wraps the type tag, keeping its payload as given. */
  function NewConfig(networkType: NetworkTypeConfig): (c: NetworkConfig)
    ensures c.networkType == networkType
    ensures c.networkType.Managed? ==> c.networkType.name == networkType.name
    ensures c.networkType.Unmanaged? ==> c.networkType.subnet == networkType.subnet
  {
    match networkType
    case Unmanaged(subnet) => NetworkConfig(Unmanaged(subnet))
    case Managed(name) => NetworkConfig(Managed(name))
  }

  /**
   * A resolved network. The Rust `NetworkRuntime` struct has the single
   * field `network_type`; its two variants are the constructors here.
   * `addresses` is the key set of the `BTreeMap<u32, Ipv4Addr>` (the value
   * stored under each key is the key's own address form).
   */
  datatype NetworkRuntime =
    | ManagedNet(name: string)
    | UnmanagedNet(subnet: Subnet, addresses: Option<set<nat>>, gateway: Option<nat>)

  /** What `assign_address` needs in order not to panic on `unwrap`. */
  predicate Allocatable(n: NetworkRuntime) {
    n.UnmanagedNet? ==> n.addresses.Some?
  }

  /**
   * The state a resolved network keeps: an unmanaged network has its
   * gateway recorded and reserved in its addresses set.
   */
  predicate Reserved(n: NetworkRuntime) {
    n.UnmanagedNet? ==> n.addresses.Some? && n.gateway.Some? && n.gateway.value in n.addresses.value
  }

  /** `NetworkRuntime::new`: resolve a declared network. */
  function New(config: NetworkConfig): (n: NetworkRuntime)
    ensures config.networkType.Managed? ==> n == ManagedNet(config.networkType.name)
    ensures config.networkType.Unmanaged? ==>
      && n.UnmanagedNet?
      && n.subnet == config.networkType.subnet
      && n.gateway == Some(n.subnet.Base() + 1)
      && n.addresses == Some({n.subnet.Base() + 1})
    ensures Reserved(n)
  {
    match config.networkType
    case Unmanaged(subnet) =>
      var firstAddress := subnet.Base() + 1;
      UnmanagedNet(subnet, Some({firstAddress}), Some(firstAddress))
    case Managed(name) =>
      ManagedNet(name)
  }

  /**
   * The scan of `assign_address`: the first integer at or above `from`
   * that is not in `s`. Each step past an assigned address drops it from
   * the set, which is what bounds the scan.
   */
  function FirstFree(s: set<nat>, from: nat): (r: nat)
    ensures r >= from && r !in s
    ensures forall x :: from <= x < r ==> x in s
    decreases s
  {
    if from !in s then from else FirstFree(s - {from}, from + 1)
  }

  /** The first-free property pins down a single address. */
  lemma FirstFreeUnique(s: set<nat>, from: nat, r: nat)
    requires r >= from && r !in s
    requires forall x :: from <= x < r ==> x in s
    ensures r == FirstFree(s, from)
  {
  }

  /** An address handed out together with the subnet's prefix length. */
  datatype Lease = Lease(address: nat, prefixLen: PrefixLen)

  /** The result of `assign_address` and the network as it is afterwards. */
  datatype Assignment = Assignment(lease: Option<Lease>, network: NetworkRuntime)

  /**
   * `assign_address`: scan upward from the network base + 1 for the first
   * address not yet assigned, record it, and return it with the prefix
   * length. A managed network gives `None` and is left alone.
   */
  function AssignAddress(n: NetworkRuntime): (r: Assignment)
    requires Allocatable(n)
    ensures n.ManagedNet? ==> r.lease.None? && r.network == n
    ensures n.UnmanagedNet? ==>
      && r.lease.Some?
      && r.lease.value.address !in n.addresses.value
      && r.lease.value.address > n.subnet.Base()
      && (forall x :: n.subnet.Base() < x < r.lease.value.address ==> x in n.addresses.value)
      && r.lease.value.prefixLen == n.subnet.prefixLen
      && r.network == n.(addresses := Some(n.addresses.value + {r.lease.value.address}))
  {
    match n
    case UnmanagedNet(subnet, addresses, gateway) =>
      var address := FirstFree(addresses.value, subnet.Base() + 1);
      Assignment(Some(Lease(address, subnet.prefixLen)),
                 n.(addresses := Some(addresses.value + {address})))
    case ManagedNet(_) =>
      Assignment(None, n)
  }

  /** Allocation keeps the gateway reserved. */
  lemma AssignPreservesReserved(n: NetworkRuntime)
    requires Reserved(n)
    ensures Reserved(AssignAddress(n).network)
  {
  }

  /** The gateway is never handed out: it is reserved before any scan. */
  lemma AssignNeverGateway(n: NetworkRuntime)
    requires Reserved(n) && n.UnmanagedNet?
    ensures AssignAddress(n).lease.value.address != n.gateway.value
  {
  }

  /** The addresses occurring in `s`. */
  function Elements(s: seq<nat>): set<nat> {
    set x | x in s
  }

  /**
   * `k` calls of `assign_address` in a row: the addresses returned, in
   * call order, and the network afterwards.
   */
  function AssignMany(n: NetworkRuntime, k: nat): (r: (seq<nat>, NetworkRuntime))
    requires Allocatable(n)
    ensures Allocatable(r.1)
    ensures n.UnmanagedNet? ==> |r.0| == k
    ensures n.ManagedNet? ==> r == ([], n)
    decreases k
  {
    if k == 0 then ([], n)
    else
      var a := AssignAddress(n);
      if a.lease.None? then ([], n)
      else
        var rest := AssignMany(a.network, k - 1);
        ([a.lease.value.address] + rest.0, rest.1)
  }

  /**
   * Repeated allocation never repeats an address and never returns one
   * that was assigned before the first call (the gateway among them);
   * afterwards the assigned set is the old set plus exactly the addresses
   * returned.
   */
  lemma {:induction false} AssignManyFresh(n: NetworkRuntime, k: nat)
    requires Allocatable(n) && n.UnmanagedNet?
    ensures var r := AssignMany(n, k);
      && (forall i, j :: 0 <= i < j < |r.0| ==> r.0[i] != r.0[j])
      && (forall i :: 0 <= i < |r.0| ==> r.0[i] !in n.addresses.value)
      && r.1.UnmanagedNet?
      && r.1.subnet == n.subnet && r.1.gateway == n.gateway
      && r.1.addresses == Some(n.addresses.value + Elements(r.0))
    decreases k
  {
    if k > 0 {
      var a := AssignAddress(n);
      var addr := a.lease.value.address;
      AssignManyFresh(a.network, k - 1);
      var rest := AssignMany(a.network, k - 1);
      var r := AssignMany(n, k);
      assert r.0 == [addr] + rest.0;
      assert r.1 == rest.1;
      forall i | 0 <= i < |r.0|
        ensures r.0[i] !in n.addresses.value
      {
        if i > 0 { assert r.0[i] == rest.0[i - 1]; }
      }
      forall i, j | 0 <= i < j < |r.0|
        ensures r.0[i] != r.0[j]
      {
        assert r.0[j] == rest.0[j - 1];
        if i > 0 { assert r.0[i] == rest.0[i - 1]; }
      }
      assert Elements(r.0) == {addr} + Elements(rest.0);
      assert a.network.addresses.value == n.addresses.value + {addr};
      assert rest.1.addresses.value == a.network.addresses.value + Elements(rest.0);
      assert r.1.addresses.value == n.addresses.value + Elements(r.0);
      assert r.1.UnmanagedNet?;
      assert r.1.subnet == n.subnet;
      assert r.1.gateway == n.gateway;
    } else {
      assert Elements([]) == {};
      assert n.addresses.value + {} == n.addresses.value;
    }
  }

  /**
   * On a freshly resolved unmanaged network the scan is deterministic and
   * dense: the i-th call returns base + 2 + i (the gateway holds base + 1).
   */
  lemma {:induction false} AssignFromFresh(subnet: Subnet, k: nat)
    ensures AssignMany(New(NetworkConfig(Unmanaged(subnet))), k).0
         == seq(k, i => subnet.Base() + 2 + i)
  {
    var b := subnet.Base();
    assert New(NetworkConfig(Unmanaged(subnet))) == Filled(subnet, 0) by {
      assert Range(b + 1, b + 2) == {b + 1};
    }
    AssignFromPrefix(subnet, 0, k);
  }

  /** The network after the gateway and `m` interfaces have been allocated. */
  function Filled(subnet: Subnet, m: nat): NetworkRuntime {
    UnmanagedNet(subnet, Some(Range(subnet.Base() + 1, subnet.Base() + 2 + m)), Some(subnet.Base() + 1))
  }

  /** The integers from `lo` up to but excluding `hi`. */
  function Range(lo: nat, hi: nat): (r: set<nat>)
    ensures forall x :: x in r <==> lo <= x < hi
    decreases hi - lo
  {
    if lo >= hi then {} else {lo} + Range(lo + 1, hi)
  }

  lemma {:induction false} AssignFromPrefix(subnet: Subnet, m: nat, k: nat)
    ensures AssignMany(Filled(subnet, m), k).0 == seq(k, i => subnet.Base() + 2 + m + i)
    decreases k
  {
    var b := subnet.Base();
    if k > 0 {
      var n := Filled(subnet, m);
      var a := AssignAddress(n);
      var addr := a.lease.value.address;
      assert addr == b + 2 + m by {
        FirstFreeUnique(n.addresses.value, b + 1, b + 2 + m);
      }
      assert a.network == Filled(subnet, m + 1) by {
        var s1 := n.addresses.value + {addr};
        assert s1 == Range(b + 1, b + 2 + (m + 1));
      }
      AssignFromPrefix(subnet, m + 1, k - 1);
      var rest := AssignMany(a.network, k - 1);
      assert AssignMany(n, k).0 == [addr] + rest.0;
      assert [addr] + rest.0 == seq(k, i => b + 2 + m + i);
    }
  }
}
