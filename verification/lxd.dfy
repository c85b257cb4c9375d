/**
 * The LXD backend (src/lxd_manager/lxd_manager.rs): the `lxc` argument
 * vectors each `LxdCommands` variant builds, the success rule applied to
 * the process result, and `run`/`destroy` as functions that produce the
 * trace of commands issued against a backend oracle standing in for the
 * `lxc` process.
 */
module Lxd {
  import opened Wrappers
  import opened Network
  import opened Interface
  import opened Instance
  import opened Text

  /** `LxdCommands`, with the shared runtime values held by value. */
  datatype LxdCommand =
    | LaunchInstance(name: string, config: InstanceRuntime)
    | CreateNetwork(name: string, network: NetworkRuntime)
    | DestroyInstance(name: string)
    | DestroyNetwork(name: string)
    | AttachInterface(name: string, iface: InterfaceRuntime, instance: string, idx: nat)

  /** What spawning `lxc` with some arguments gave back. */
  datatype Process =
    | Exited(success: bool, stderr: string)
    | SpawnFailed(error: string)

  /** The outside world: the process result for each argument vector. */
  type Backend = seq<string> -> Process

  /**
   * What `command()` does before any process runs: spawn `lxc` with an
   * argument vector, refuse with an error, or panic on an `unwrap` of `None`.
   */
  datatype Invocation =
    | Invoke(argv: seq<string>)
    | Refuse(error: string)
    | Abort(reason: string)

  /** How a command, or a whole run, ended. */
  datatype Outcome =
    | Completed
    | Failed(error: string)
    | Panicked(reason: string)

  const ManagedNetworkError := "Cannot create managed network"

  /** `key=value`. */
  function Setting(key: string, value: string): string {
    key + "=" + value
  }

  /** The argument vector each command builds, the program name first. */
  function Argv(cmd: LxdCommand): (r: Invocation)
    ensures r.Refuse? <==> cmd.CreateNetwork? && cmd.network.ManagedNet?
    ensures r.Refuse? ==> r.error == ManagedNetworkError
    ensures r.Abort? <==>
      || (cmd.CreateNetwork? && cmd.network.UnmanagedNet? && cmd.network.gateway.None?)
      || (cmd.AttachInterface? && (cmd.iface.ip.None? || cmd.iface.mac.None? || cmd.iface.mtu.None?))
    ensures r.Invoke? ==> |r.argv| >= 3 && r.argv[0] == "lxc"
  {
    match cmd
    case LaunchInstance(name, config) =>
      Invoke(["lxc", "launch", config.image, name, "--vm",
              "-c", Setting("limits.cpu", Decimal(config.vcpu)),
              "-c", Setting("limits.memory", Decimal(config.memory))])
    case DestroyInstance(name) =>
      Invoke(["lxc", "delete", name, "--force"])
    case CreateNetwork(name, network) =>
      if network.ManagedNet? then Refuse(ManagedNetworkError)
      else if network.gateway.None? then Abort("gateway is None")
      else
        var gateway := Ipv4Text(network.gateway.value);
        Invoke(["lxc", "network", "create", name, "--type", "bridge",
                Setting("ipv4.address", gateway + "/24"),
                Setting("ipv4.dhcp.gateway", gateway)])
    case DestroyNetwork(name) =>
      Invoke(["lxc", "network", "delete", name])
    case AttachInterface(name, iface, instance, idx) =>
      if iface.ip.None? then Abort("ip is None")
      else if iface.mac.None? then Abort("mac is None")
      else if iface.mtu.None? then Abort("mtu is None")
      else
        Invoke(["lxc", "config", "device", "add", instance, "eth" + Decimal(idx), "nic",
                Setting("name", name),
                "nictype=routed",
                Setting("ipv4.address", Ipv4Text(iface.ip.value)),
                Setting("hwaddr", iface.mac.value),
                Setting("mtu", Decimal(iface.mtu.value)),
                "ipv4.gateway=none",
                "ipv6.gateway=none",
                Setting("host_name", instance + "_" + name)])
  }

  /**
   * The outcome of one `command()`: a refusal or panic happens without
   * spawning anything; otherwise the command succeeds exactly when the
   * process exits successfully, and its stderr (or the spawn error) is the
   * error.
   */
  function Status(cmd: LxdCommand, backend: Backend): (o: Outcome)
    ensures o == Completed <==> Argv(cmd).Invoke? && backend(Argv(cmd).argv).Exited? && backend(Argv(cmd).argv).success
    ensures Argv(cmd).Refuse? ==> o == Failed(ManagedNetworkError)
    ensures o.Panicked? <==> Argv(cmd).Abort?
    ensures Argv(cmd).Invoke? && backend(Argv(cmd).argv).Exited? && !backend(Argv(cmd).argv).success ==>
      o == Failed(backend(Argv(cmd).argv).stderr)
    ensures Argv(cmd).Invoke? && backend(Argv(cmd).argv).SpawnFailed? ==> o == Failed(backend(Argv(cmd).argv).error)
  {
    match Argv(cmd)
    case Refuse(e) => Failed(e)
    case Abort(reason) => Panicked(reason)
    case Invoke(argv) =>
      match backend(argv)
      case Exited(success, stderr) => if success then Completed else Failed(stderr)
      case SpawnFailed(e) => Failed(e)
  }

  /** What an `lxc` argument vector asks for, read back from the text. */
  datatype Request =
    | Launch(image: string, name: string, cpus: nat, memory: nat)
    | Delete(name: string)
    | NetworkCreate(name: string, address: nat, prefixLen: nat, dhcpGateway: nat)
    | NetworkDelete(name: string)
    | DeviceAdd(instance: string, device: nat, nicName: string, address: nat, hwaddr: string, mtu: nat, hostName: string)

  /** The value of argument `arg` if it reads `key=value`. */
  function Field(arg: string, key: string): (r: Option<string>)
    ensures r.Some? ==> arg == Setting(key, r.value)
  {
    var prefix := key + "=";
    if |prefix| <= |arg| && arg[..|prefix|] == prefix then
      assert arg == prefix + arg[|prefix|..];
      Some(arg[|prefix|..])
    else None
  }

  lemma FieldSetting(key: string, value: string)
    ensures Field(Setting(key, value), key) == Some(value)
  {
    var prefix := key + "=";
    assert Setting(key, value) == prefix + value;
    assert (prefix + value)[..|prefix|] == prefix;
  }

  function NumberField(arg: string, key: string): Option<nat> {
    match Field(arg, key)
    case Some(v) => Number(v)
    case None => None
  }

  function AddressField(arg: string, key: string): Option<nat> {
    match Field(arg, key)
    case Some(v) => ParseIpv4(v)
    case None => None
  }

  /** `ipv4.address=A/P` as the address and the prefix length. */
  function CidrField(arg: string, key: string): Option<(nat, nat)> {
    match Field(arg, key)
    case None => None
    case Some(v) =>
      match SplitFirst(v, '/')
      case None => None
      case Some((a, p)) =>
        match (ParseIpv4(a), Number(p))
        case (Some(address), Some(prefixLen)) => Some((address, prefixLen))
        case _ => None
  }

  /** The `N` of a device name `ethN`. */
  function DeviceIndex(device: string): Option<nat> {
    if |device| >= 3 && device[..3] == "eth" then Number(device[3..]) else None
  }

  /** Read an argument vector back as the request it makes of `lxc`. */
  function Decode(argv: seq<string>): Option<Request> {
    if |argv| < 3 || argv[0] != "lxc" then None
    else if argv[1] == "launch" then
      if |argv| == 9 && argv[4] == "--vm" && argv[5] == "-c" && argv[7] == "-c" then
        match (NumberField(argv[6], "limits.cpu"), NumberField(argv[8], "limits.memory"))
        case (Some(cpus), Some(memory)) => Some(Launch(argv[2], argv[3], cpus, memory))
        case _ => None
      else None
    else if argv[1] == "delete" then
      if |argv| == 4 && argv[3] == "--force" then Some(Delete(argv[2])) else None
    else if argv[1] == "network" && argv[2] == "create" then
      if |argv| == 8 && argv[4] == "--type" && argv[5] == "bridge" then
        match (CidrField(argv[6], "ipv4.address"), AddressField(argv[7], "ipv4.dhcp.gateway"))
        case (Some((address, prefixLen)), Some(gateway)) => Some(NetworkCreate(argv[3], address, prefixLen, gateway))
        case _ => None
      else None
    else if argv[1] == "network" && argv[2] == "delete" then
      if |argv| == 4 then Some(NetworkDelete(argv[3])) else None
    else if argv[1] == "config" && argv[2] == "device" then
      if |argv| == 15 && argv[3] == "add" && argv[6] == "nic" && argv[8] == "nictype=routed"
         && argv[12] == "ipv4.gateway=none" && argv[13] == "ipv6.gateway=none" then
        match (DeviceIndex(argv[5]), Field(argv[7], "name"), AddressField(argv[9], "ipv4.address"),
               Field(argv[10], "hwaddr"), NumberField(argv[11], "mtu"), Field(argv[14], "host_name"))
        case (Some(device), Some(nic), Some(address), Some(hwaddr), Some(mtu), Some(hostName)) =>
          Some(DeviceAdd(argv[4], device, nic, address, hwaddr, mtu, hostName))
        case _ => None
      else None
    else None
  }

  /** Every address a command renders fits in 32 bits, as an `Ipv4Addr` does. */
  predicate Fits(cmd: LxdCommand) {
    && (cmd.CreateNetwork? && cmd.network.UnmanagedNet? && cmd.network.gateway.Some? ==> cmd.network.gateway.value < 4294967296)
    && (cmd.AttachInterface? && cmd.iface.ip.Some? ==> cmd.iface.ip.value < 4294967296)
  }

  /**
   * What each command is meant to ask of `lxc`: note that a bridge is
   * always created with prefix length 24, whatever the network's subnet,
   * and that the attached device is `eth` followed by the index.
   */
  function Meaning(cmd: LxdCommand): Option<Request> {
    match cmd
    case LaunchInstance(name, config) => Some(Launch(config.image, name, config.vcpu, config.memory))
    case DestroyInstance(name) => Some(Delete(name))
    case CreateNetwork(name, network) =>
      if network.ManagedNet? || network.gateway.None? then None
      else Some(NetworkCreate(name, network.gateway.value, 24, network.gateway.value))
    case DestroyNetwork(name) => Some(NetworkDelete(name))
    case AttachInterface(name, iface, instance, idx) =>
      if iface.ip.None? || iface.mac.None? || iface.mtu.None? then None
      else Some(DeviceAdd(instance, idx, name, iface.ip.value, iface.mac.value, iface.mtu.value, instance + "_" + name))
  }

  /**
   * The argument vector of every command that reaches `lxc` reads back as
   * exactly what the command means: nothing is lost or garbled by the
   * formatting, whatever the names involved.
   */
  lemma ArgvDecodes(cmd: LxdCommand)
    requires Argv(cmd).Invoke? && Fits(cmd)
    ensures Meaning(cmd).Some?
    ensures Decode(Argv(cmd).argv) == Meaning(cmd)
  {
    match cmd
    case LaunchInstance(name, config) => LaunchDecodes(name, config);
    case DestroyInstance(name) =>
    case CreateNetwork(name, network) => CreateNetworkDecodes(name, network);
    case DestroyNetwork(name) =>
    case AttachInterface(name, iface, instance, idx) => AttachDecodes(name, iface, instance, idx);
  }

  lemma LaunchDecodes(name: string, config: InstanceRuntime)
    ensures Decode(Argv(LaunchInstance(name, config)).argv) == Meaning(LaunchInstance(name, config))
  {
    FieldSetting("limits.cpu", Decimal(config.vcpu));
    FieldSetting("limits.memory", Decimal(config.memory));
    NumberDecimal(config.vcpu);
    NumberDecimal(config.memory);
  }

  lemma CreateNetworkDecodes(name: string, network: NetworkRuntime)
    requires network.UnmanagedNet? && network.gateway.Some? && network.gateway.value < 4294967296
    ensures Decode(Argv(CreateNetwork(name, network)).argv) == Meaning(CreateNetwork(name, network))
  {
    var gw := network.gateway.value;
    var a6 := Setting("ipv4.address", Ipv4Text(gw) + "/24");
    var a7 := Setting("ipv4.dhcp.gateway", Ipv4Text(gw));
    assert Argv(CreateNetwork(name, network)).argv == ["lxc", "network", "create", name, "--type", "bridge", a6, a7];
    CidrDecodes(gw);
    FieldSetting("ipv4.dhcp.gateway", Ipv4Text(gw));
    Ipv4TextRoundTrip(gw);
    DecodeNetworkCreate(name, a6, a7, gw, gw);
  }

  lemma DecodeNetworkCreate(name: string, a6: string, a7: string, address: nat, gateway: nat)
    requires CidrField(a6, "ipv4.address") == Some((address, 24))
    requires AddressField(a7, "ipv4.dhcp.gateway") == Some(gateway)
    ensures Decode(["lxc", "network", "create", name, "--type", "bridge", a6, a7]) == Some(NetworkCreate(name, address, 24, gateway))
  {
    var argv := ["lxc", "network", "create", name, "--type", "bridge", a6, a7];
    assert argv[1] == "network" && argv[2] == "create";
    assert "network" != "launch" by { assert "network"[0] != "launch"[0]; }
    assert "network" != "delete" by { assert "network"[0] != "delete"[0]; }
  }

  lemma CidrDecodes(gw: nat)
    requires gw < 4294967296
    ensures CidrField(Setting("ipv4.address", Ipv4Text(gw) + "/24"), "ipv4.address") == Some((gw, 24))
  {
    var text := Ipv4Text(gw);
    FieldSetting("ipv4.address", text + "/24");
    assert text + "/24" == text + ['/'] + "24";
    SplitFirstAt(text, '/', "24");
    Ipv4TextRoundTrip(gw);
    assert DigitsValue("2") == 2;
    assert "24"[..1] == "2";
    assert Number("24") == Some(24);
  }

  lemma DecodeDeviceAdd(instance: string, device: string, a7: string, a9: string, a10: string, a11: string, a14: string,
                        idx: nat, nic: string, address: nat, hwaddr: string, mtu: nat, hostName: string)
    requires DeviceIndex(device) == Some(idx) && Field(a7, "name") == Some(nic)
    requires AddressField(a9, "ipv4.address") == Some(address) && Field(a10, "hwaddr") == Some(hwaddr)
    requires NumberField(a11, "mtu") == Some(mtu) && Field(a14, "host_name") == Some(hostName)
    ensures Decode(["lxc", "config", "device", "add", instance, device, "nic", a7, "nictype=routed", a9, a10, a11,
                    "ipv4.gateway=none", "ipv6.gateway=none", a14])
         == Some(DeviceAdd(instance, idx, nic, address, hwaddr, mtu, hostName))
  {
    var argv := ["lxc", "config", "device", "add", instance, device, "nic", a7, "nictype=routed", a9, a10, a11,
                 "ipv4.gateway=none", "ipv6.gateway=none", a14];
    assert argv[1] == "config" && argv[2] == "device";
    assert "config" != "launch" by { assert "config"[0] != "launch"[0]; }
    assert "config" != "delete" by { assert "config"[0] != "delete"[0]; }
    assert "config" != "network" by { assert "config"[0] != "network"[0]; }
  }

  lemma AttachDecodes(name: string, iface: InterfaceRuntime, instance: string, idx: nat)
    requires iface.ip.Some? && iface.mac.Some? && iface.mtu.Some? && iface.ip.value < 4294967296
    ensures Decode(Argv(AttachInterface(name, iface, instance, idx)).argv) == Meaning(AttachInterface(name, iface, instance, idx))
  {
    var device := "eth" + Decimal(idx);
    assert device[..3] == "eth" && device[3..] == Decimal(idx);
    NumberDecimal(idx);
    assert DeviceIndex(device) == Some(idx);
    FieldSetting("name", name);
    FieldSetting("ipv4.address", Ipv4Text(iface.ip.value));
    Ipv4TextRoundTrip(iface.ip.value);
    FieldSetting("hwaddr", iface.mac.value);
    FieldSetting("mtu", Decimal(iface.mtu.value));
    NumberDecimal(iface.mtu.value);
    FieldSetting("host_name", instance + "_" + name);
    DecodeDeviceAdd(instance, device, Setting("name", name), Setting("ipv4.address", Ipv4Text(iface.ip.value)),
                    Setting("hwaddr", iface.mac.value), Setting("mtu", Decimal(iface.mtu.value)),
                    Setting("host_name", instance + "_" + name),
                    idx, name, iface.ip.value, iface.mac.value, iface.mtu.value, instance + "_" + name);
  }

  /** Distinct attach indices name distinct devices. */
  lemma DeviceNamesDistinct(i: nat, j: nat)
    requires i != j
    ensures "eth" + Decimal(i) != "eth" + Decimal(j)
  {
    if "eth" + Decimal(i) == "eth" + Decimal(j) {
      assert Decimal(i) == ("eth" + Decimal(i))[3..];
      DecimalInjective(i, j);
    }
  }

  /** The commands issued, in order, and how the run ended. */
  datatype Trace = Trace(issued: seq<LxdCommand>, outcome: Outcome)

  /**
   * Reference semantics of a command list under abort-on-first-error:
   * issue commands in order and stop right after the first one that does
   * not complete.
   */
  function Execute(cmds: seq<LxdCommand>, backend: Backend): (t: Trace)
    ensures |t.issued| <= |cmds| && t.issued == cmds[..|t.issued|]
    ensures forall j :: 0 <= j < |t.issued| - 1 ==> Status(t.issued[j], backend) == Completed
    ensures t.outcome == Completed <==> t.issued == cmds && forall j :: 0 <= j < |cmds| ==> Status(cmds[j], backend) == Completed
    ensures t.outcome != Completed ==> |t.issued| > 0 && Status(t.issued[|t.issued| - 1], backend) == t.outcome
  {
    if cmds == [] then Trace([], Completed)
    else
      var o := Status(cmds[0], backend);
      if o != Completed then Trace([cmds[0]], o)
      else
        var rest := Execute(cmds[1..], backend);
        assert forall j :: 0 < j < |cmds| ==> cmds[j] == cmds[1..][j - 1];
        Trace([cmds[0]] + rest.issued, rest.outcome)
  }

  /** Executing two lists in a row is executing their concatenation. */
  lemma {:induction false} ExecuteAppend(a: seq<LxdCommand>, b: seq<LxdCommand>, backend: Backend)
    ensures Execute(a + b, backend) ==
      var ta := Execute(a, backend);
      if ta.outcome != Completed then ta
      else var tb := Execute(b, backend); Trace(a + tb.issued, tb.outcome)
  {
    if a == [] {
      assert a + b == b;
    } else {
      assert (a + b)[0] == a[0];
      assert (a + b)[1..] == a[1..] + b;
      var o := Status(a[0], backend);
      if o != Completed {
        assert Execute(a + b, backend) == Trace([a[0]], o);
        assert Execute(a, backend) == Trace([a[0]], o);
      } else {
        ExecuteAppend(a[1..], b, backend);
        var rest := Execute(a[1..], backend);
        var joined := Execute(a[1..] + b, backend);
        assert Execute(a + b, backend) == Trace([a[0]] + joined.issued, joined.outcome);
        assert Execute(a, backend) == Trace([a[0]] + rest.issued, rest.outcome);
        if rest.outcome == Completed {
          var tb := Execute(b, backend);
          assert joined == Trace(a[1..] + tb.issued, tb.outcome);
          assert [a[0]] + (a[1..] + tb.issued) == a + tb.issued;
        } else {
          assert joined == rest;
        }
      }
    }
  }

  /**
   * The interface loop of `run` for one instance, as planned: the
   * interfaces in iteration order `names`, those without an address
   * skipped, the others attached as `eth{idx}` with `idx` counting up from
   * its starting value by one per attached interface only.
   */
  function Attaches(instance: string, ifaces: map<string, InterfaceRuntime>, names: seq<string>, idx: nat): (r: seq<LxdCommand>)
    requires forall n :: n in names ==> n in ifaces
    ensures |r| <= |names|
    ensures forall j :: 0 <= j < |r| ==>
      && r[j].AttachInterface? && r[j].instance == instance && r[j].idx == idx + j
      && r[j].name in ifaces && r[j].iface == ifaces[r[j].name] && r[j].iface.ip.Some?
    ensures forall n :: n in NamesOf(r) <==> n in names && ifaces[n].ip.Some?
    decreases |names|
  {
    if names == [] then []
    else
      var n := names[0];
      assert forall m :: m in names ==> m == n || m in names[1..];
      if ifaces[n].ip.None? then Attaches(instance, ifaces, names[1..], idx)
      else
        var rest := Attaches(instance, ifaces, names[1..], idx + 1);
        var r := [AttachInterface(n, ifaces[n], instance, idx)] + rest;
        assert forall j :: 0 < j < |r| ==> r[j] == rest[j - 1];
        assert NamesOf(r) == [n] + NamesOf(rest);
        r
  }

  /** The names the commands of `cmds` carry, in order. */
  function NamesOf(cmds: seq<LxdCommand>): (r: seq<string>)
    ensures |r| == |cmds| && forall j :: 0 <= j < |cmds| ==> r[j] == cmds[j].name
  {
    seq(|cmds|, j requires 0 <= j < |cmds| => cmds[j].name)
  }

  /** An interface without an address neither appears nor shifts the numbering of the others. */
  lemma {:induction false} AttachesSkip(instance: string, ifaces: map<string, InterfaceRuntime>, a: seq<string>, n: string, b: seq<string>, idx: nat)
    requires forall m :: m in a + [n] + b ==> m in ifaces
    requires ifaces[n].ip.None?
    ensures Attaches(instance, ifaces, a + [n] + b, idx) == Attaches(instance, ifaces, a + b, idx)
    decreases |a|
  {
    if a == [] {
      assert [n] + b == a + [n] + b;
      assert ([n] + b)[1..] == b;
      assert a + b == b;
    } else {
      assert (a + [n] + b)[0] == a[0] && (a + b)[0] == a[0];
      assert (a + [n] + b)[1..] == a[1..] + [n] + b;
      assert (a + b)[1..] == a[1..] + b;
      var next := if ifaces[a[0]].ip.None? then idx else idx + 1;
      AttachesSkip(instance, ifaces, a[1..], n, b, next);
    }
  }

  /** Everything `run` does for one instance: launch it, then attach its addressed interfaces from eth1. */
  function InstancePlan(name: string, config: InstanceRuntime, names: seq<string>): seq<LxdCommand>
    requires forall n :: n in names ==> n in config.interfaces
  {
    [LaunchInstance(name, config)] + Attaches(name, config.interfaces, names, 1)
  }

  /** The iteration orders `run` may use: every name in an order is a key of its map. */
  ghost predicate Orders(instances: map<string, InstanceRuntime>, order: seq<string>, ifaceOrder: string -> seq<string>) {
    forall i :: i in order ==> i in instances && forall n :: n in ifaceOrder(i) ==> n in instances[i].interfaces
  }

  /** The whole command plan of `run` when nothing fails. */
  function Plan(instances: map<string, InstanceRuntime>, order: seq<string>, ifaceOrder: string -> seq<string>): seq<LxdCommand>
    requires Orders(instances, order, ifaceOrder)
    decreases |order|
  {
    if order == [] then []
    else
      assert forall i :: i in order[1..] ==> i in order;
      InstancePlan(order[0], instances[order[0]], ifaceOrder(order[0])) + Plan(instances, order[1..], ifaceOrder)
  }

  /**
   * The interface loop of `run` as written: skip an interface without an
   * address, otherwise issue its attach and stop at the first error,
   * counting `idx` up only after a successful attach.
   */
  function RunAttaches(instance: string, ifaces: map<string, InterfaceRuntime>, names: seq<string>, idx: nat, backend: Backend): (t: Trace)
    requires forall n :: n in names ==> n in ifaces
    ensures |t.issued| <= |names|
    ensures forall j :: 0 <= j < |t.issued| ==> t.issued[j].AttachInterface? && t.issued[j].instance == instance
    ensures t.outcome != Completed ==> |t.issued| > 0
    decreases |names|
  {
    if names == [] then Trace([], Completed)
    else
      var n := names[0];
      if ifaces[n].ip.None? then RunAttaches(instance, ifaces, names[1..], idx, backend)
      else
        var cmd := AttachInterface(n, ifaces[n], instance, idx);
        var o := Status(cmd, backend);
        if o != Completed then Trace([cmd], o)
        else
          var rest := RunAttaches(instance, ifaces, names[1..], idx + 1, backend);
          var issued := [cmd] + rest.issued;
          assert forall j :: 1 <= j < |issued| ==> issued[j] == rest.issued[j - 1];
          Trace(issued, rest.outcome)
  }

  /**
   * `LxdManager::run`: for each instance in iteration order `order`, launch
   * it and then run its interface loop (its interfaces in order
   * `ifaceOrder(name)`, `idx` starting at 1); the first failure ends the run.
   */
  function Run(instances: map<string, InstanceRuntime>, order: seq<string>, ifaceOrder: string -> seq<string>, backend: Backend): (t: Trace)
    requires Orders(instances, order, ifaceOrder)
    ensures order != [] ==> |t.issued| > 0 && t.issued[0] == LaunchInstance(order[0], instances[order[0]])
    ensures t.outcome != Completed ==> |t.issued| > 0
    decreases |order|
  {
    if order == [] then Trace([], Completed)
    else
      var name := order[0];
      var launch := LaunchInstance(name, instances[name]);
      var o := Status(launch, backend);
      if o != Completed then Trace([launch], o)
      else
        var attaches := RunAttaches(name, instances[name].interfaces, ifaceOrder(name), 1, backend);
        if attaches.outcome != Completed then Trace([launch] + attaches.issued, attaches.outcome)
        else
          assert forall i :: i in order[1..] ==> i in order;
          var rest := Run(instances, order[1..], ifaceOrder, backend);
          Trace([launch] + attaches.issued + rest.issued, rest.outcome)
  }

  lemma {:induction false} RunAttachesExecutes(instance: string, ifaces: map<string, InterfaceRuntime>, names: seq<string>, idx: nat, backend: Backend)
    requires forall n :: n in names ==> n in ifaces
    ensures RunAttaches(instance, ifaces, names, idx, backend) == Execute(Attaches(instance, ifaces, names, idx), backend)
    decreases |names|
  {
    if names != [] {
      assert forall m :: m in names[1..] ==> m in names;
      var n := names[0];
      if ifaces[n].ip.None? {
        RunAttachesExecutes(instance, ifaces, names[1..], idx, backend);
      } else {
        RunAttachesExecutes(instance, ifaces, names[1..], idx + 1, backend);
        var cmds := Attaches(instance, ifaces, names, idx);
        assert cmds[0] == AttachInterface(n, ifaces[n], instance, idx);
        assert cmds[1..] == Attaches(instance, ifaces, names[1..], idx + 1);
      }
    }
  }

  /** One instance's block followed by the rest, under abort-on-first-error. */
  lemma ExecuteBlock(launch: LxdCommand, attaches: seq<LxdCommand>, rest: seq<LxdCommand>, backend: Backend)
    ensures Execute([launch] + attaches + rest, backend) ==
      if Status(launch, backend) != Completed then Trace([launch], Status(launch, backend))
      else
        var ta := Execute(attaches, backend);
        if ta.outcome != Completed then Trace([launch] + ta.issued, ta.outcome)
        else
          var tr := Execute(rest, backend);
          Trace([launch] + attaches + tr.issued, tr.outcome)
  {
    assert [launch] + attaches + rest == [launch] + (attaches + rest);
    ExecuteAppend([launch], attaches + rest, backend);
    ExecuteSingle(launch, backend);
    if Status(launch, backend) == Completed {
      ExecuteAppend(attaches, rest, backend);
      var ta := Execute(attaches, backend);
      if ta.outcome == Completed {
        var tr := Execute(rest, backend);
        assert [launch] + (attaches + tr.issued) == [launch] + attaches + tr.issued;
      }
    }
  }

  lemma ExecuteSingle(cmd: LxdCommand, backend: Backend)
    ensures Execute([cmd], backend) == Trace([cmd], Status(cmd, backend))
  {
    assert [cmd][1..] == [];
  }

  /**
   * `run` as written issues exactly the plan under abort-on-first-error:
   * its trace is a prefix of the plan, every command but the last in it
   * succeeded, and it is the whole plan exactly when the run completes.
   */
  lemma {:induction false} RunExecutesPlan(instances: map<string, InstanceRuntime>, order: seq<string>, ifaceOrder: string -> seq<string>, backend: Backend)
    requires Orders(instances, order, ifaceOrder)
    ensures Run(instances, order, ifaceOrder, backend) == Execute(Plan(instances, order, ifaceOrder), backend)
    decreases |order|
  {
    if order != [] {
      assert forall i :: i in order[1..] ==> i in order;
      var name := order[0];
      var config := instances[name];
      var launch := LaunchInstance(name, config);
      var attaches := Attaches(name, config.interfaces, ifaceOrder(name), 1);
      var rest := Plan(instances, order[1..], ifaceOrder);
      RunAttachesExecutes(name, config.interfaces, ifaceOrder(name), 1, backend);
      RunExecutesPlan(instances, order[1..], ifaceOrder, backend);
      assert Plan(instances, order, ifaceOrder) == [launch] + attaches + rest;
      ExecuteBlock(launch, attaches, rest, backend);
    }
  }

  /** The instance whose interfaces are being attached, and how many so far. */
  datatype Cursor = Cursor(instance: string, attached: nat)

  /**
   * The command order `run` promises, as a predicate that reads a command
   * list left to right: an attach only follows the launch of its own
   * instance or an attach to it, and the attaches after a launch are
   * numbered 1, 2, 3, ... with no gap.
   */
  predicate WellOrdered(cmds: seq<LxdCommand>, cur: Option<Cursor>)
    decreases |cmds|
  {
    cmds == [] ||
    match cmds[0]
    case LaunchInstance(name, _) => WellOrdered(cmds[1..], Some(Cursor(name, 0)))
    case AttachInterface(_, _, instance, idx) =>
      && cur.Some? && cur.value.instance == instance && idx == cur.value.attached + 1
      && WellOrdered(cmds[1..], Some(Cursor(instance, idx)))
    case _ => false
  }

  lemma {:induction false} WellOrderedPrefix(cmds: seq<LxdCommand>, cur: Option<Cursor>, k: nat)
    requires k <= |cmds| && WellOrdered(cmds, cur)
    ensures WellOrdered(cmds[..k], cur)
    decreases k
  {
    if k > 0 {
      assert cmds[..k][0] == cmds[0];
      assert cmds[..k][1..] == cmds[1..][..k - 1];
      match cmds[0]
      case LaunchInstance(name, _) => WellOrderedPrefix(cmds[1..], Some(Cursor(name, 0)), k - 1);
      case AttachInterface(_, _, instance, idx) => WellOrderedPrefix(cmds[1..], Some(Cursor(instance, idx)), k - 1);
    }
  }

  /** A list that starts with a launch (or is empty) does not depend on what came before. */
  lemma FreshStart(cmds: seq<LxdCommand>, cur: Option<Cursor>)
    requires WellOrdered(cmds, None) && (cmds == [] || cmds[0].LaunchInstance?)
    ensures WellOrdered(cmds, cur)
  {
  }

  /** `a` attaches to `instance` with indices counting up from `idx`. */
  predicate AttachRun(a: seq<LxdCommand>, instance: string, idx: nat) {
    forall j :: 0 <= j < |a| ==> a[j].AttachInterface? && a[j].instance == instance && a[j].idx == idx + j
  }

  lemma {:induction false} AttachRunWellOrdered(a: seq<LxdCommand>, instance: string, idx: nat, rest: seq<LxdCommand>)
    requires idx >= 1 && AttachRun(a, instance, idx)
    requires WellOrdered(rest, None) && (rest == [] || rest[0].LaunchInstance?)
    ensures WellOrdered(a + rest, Some(Cursor(instance, idx - 1)))
    decreases |a|
  {
    if a == [] {
      assert a + rest == rest;
      FreshStart(rest, Some(Cursor(instance, idx - 1)));
    } else {
      assert AttachRun(a[1..], instance, idx + 1);
      AttachRunWellOrdered(a[1..], instance, idx + 1, rest);
      assert (a + rest)[0] == a[0];
      assert (a + rest)[1..] == a[1..] + rest;
    }
  }

  /** A launch followed by a list that is well ordered for a fresh cursor on it. */
  lemma LaunchWellOrdered(name: string, config: InstanceRuntime, tail: seq<LxdCommand>)
    requires WellOrdered(tail, Some(Cursor(name, 0)))
    ensures WellOrdered([LaunchInstance(name, config)] + tail, None)
  {
    assert ([LaunchInstance(name, config)] + tail)[1..] == tail;
  }

  /** One instance's block, launch and attaches, in front of a well-ordered rest. */
  lemma BlockWellOrdered(name: string, config: InstanceRuntime, attaches: seq<LxdCommand>, rest: seq<LxdCommand>)
    requires AttachRun(attaches, name, 1)
    requires WellOrdered(rest, None) && (rest == [] || rest[0].LaunchInstance?)
    ensures WellOrdered([LaunchInstance(name, config)] + attaches + rest, None)
  {
    AttachRunWellOrdered(attaches, name, 1, rest);
    LaunchWellOrdered(name, config, attaches + rest);
    assert [LaunchInstance(name, config)] + attaches + rest == [LaunchInstance(name, config)] + (attaches + rest);
  }

  /** The plan of `run` is well ordered. */
  lemma {:induction false} PlanWellOrdered(instances: map<string, InstanceRuntime>, order: seq<string>, ifaceOrder: string -> seq<string>)
    requires Orders(instances, order, ifaceOrder)
    ensures var p := Plan(instances, order, ifaceOrder); WellOrdered(p, None) && (p == [] || p[0].LaunchInstance?)
    decreases |order|
  {
    if order != [] {
      assert forall i :: i in order[1..] ==> i in order;
      var name := order[0];
      var rest := Plan(instances, order[1..], ifaceOrder);
      PlanWellOrdered(instances, order[1..], ifaceOrder);
      var attaches := Attaches(name, instances[name].interfaces, ifaceOrder(name), 1);
      assert AttachRun(attaches, name, 1);
      BlockWellOrdered(name, instances[name], attaches, rest);
      var p := Plan(instances, order, ifaceOrder);
      assert p == [LaunchInstance(name, instances[name])] + attaches + rest;
    }
  }

  /**
   * Whatever the backend does, the commands `run` issues are well ordered:
   * every attach comes after its own instance's launch, with no other
   * launch in between, and the devices of each instance are eth1, eth2, ...
   * in the order attached.
   */
  lemma RunWellOrdered(instances: map<string, InstanceRuntime>, order: seq<string>, ifaceOrder: string -> seq<string>, backend: Backend)
    requires Orders(instances, order, ifaceOrder)
    ensures WellOrdered(Run(instances, order, ifaceOrder, backend).issued, None)
  {
    var p := Plan(instances, order, ifaceOrder);
    RunExecutesPlan(instances, order, ifaceOrder, backend);
    PlanWellOrdered(instances, order, ifaceOrder);
    var t := Execute(p, backend);
    WellOrderedPrefix(p, None, |t.issued|);
  }

  /** Every command of the plan launches a known instance or attaches one of its addressed interfaces. */
  lemma {:induction false} PlanCommands(instances: map<string, InstanceRuntime>, order: seq<string>, ifaceOrder: string -> seq<string>)
    requires Orders(instances, order, ifaceOrder)
    ensures forall c :: c in Plan(instances, order, ifaceOrder) ==>
      || (c.LaunchInstance? && c.name in order && c.config == instances[c.name])
      || (c.AttachInterface? && c.instance in order && c.name in instances[c.instance].interfaces
          && c.iface == instances[c.instance].interfaces[c.name] && c.iface.ip.Some?)
    decreases |order|
  {
    if order != [] {
      assert forall i :: i in order[1..] ==> i in order;
      PlanCommands(instances, order[1..], ifaceOrder);
      var name := order[0];
      var a := Attaches(name, instances[name].interfaces, ifaceOrder(name), 1);
      forall c | c in a
        ensures c.AttachInterface? && c.instance == name && c.name in instances[name].interfaces
        ensures c.iface == instances[name].interfaces[c.name] && c.iface.ip.Some?
      {
        var j :| 0 <= j < |a| && a[j] == c;
      }
    }
  }

  /**
   * The plan launches every instance of the order with its resolved
   * configuration, and attaches every addressed interface of it.
   */
  lemma {:induction false} PlanCovers(instances: map<string, InstanceRuntime>, order: seq<string>, ifaceOrder: string -> seq<string>, i: string)
    requires Orders(instances, order, ifaceOrder) && i in order
    ensures LaunchInstance(i, instances[i]) in Plan(instances, order, ifaceOrder)
    ensures forall f :: f in ifaceOrder(i) && instances[i].interfaces[f].ip.Some? ==>
      exists k :: AttachInterface(f, instances[i].interfaces[f], i, k) in Plan(instances, order, ifaceOrder)
    decreases |order|
  {
    assert forall j :: j in order[1..] ==> j in order;
    var p := Plan(instances, order, ifaceOrder);
    var rest := Plan(instances, order[1..], ifaceOrder);
    if order[0] == i {
      var a := Attaches(i, instances[i].interfaces, ifaceOrder(i), 1);
      assert p == [LaunchInstance(i, instances[i])] + a + rest;
      forall f | f in ifaceOrder(i) && instances[i].interfaces[f].ip.Some?
        ensures exists k :: AttachInterface(f, instances[i].interfaces[f], i, k) in p
      {
        assert f in NamesOf(a);
        var j :| 0 <= j < |a| && NamesOf(a)[j] == f;
        assert a[j] == AttachInterface(f, instances[i].interfaces[f], i, 1 + j);
        assert a[j] in p;
      }
    } else {
      PlanCovers(instances, order[1..], ifaceOrder, i);
      assert forall c :: c in rest ==> c in p;
    }
  }

  /**
   * `LxdManager::destroy`: one delete per instance in iteration order,
   * each issued whatever the earlier ones returned (failures are only
   * logged), and the result is always success. Since nothing `lxc`
   * returns changes what is issued, no backend is consulted.
   */
  function Destroy(order: seq<string>): (t: Trace)
    ensures t.outcome == Completed
    ensures |t.issued| == |order| && forall j :: 0 <= j < |order| ==> t.issued[j] == DestroyInstance(order[j])
  {
    if order == [] then Trace([], Completed)
    else
      var cmd := DestroyInstance(order[0]);
      var rest := Destroy(order[1..]);
      Trace([cmd] + rest.issued, Completed)
  }
}
