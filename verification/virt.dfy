/**
 * The pure parts of the libvirt backend (src/virt_manager/virt_manager.rs):
 * the split of the hypervisor version number, and the choice of device
 * element for each interface in the domain template.
 */
module Virt {
  import opened Wrappers
  import opened Interface
  import Text

  /** A hypervisor version as `show_hypervisor_info` prints it. */
  datatype Version = Version(major: nat, minor: nat, release: nat)

  /** A version whose minor and release parts each fit in three decimal digits. */
  predicate Valid(v: Version) {
    v.minor < 1000 && v.release < 1000
  }

  /** libvirt's packed form: major * 1000000 + minor * 1000 + release. */
  function Encode(v: Version): nat {
    v.major * 1000000 + v.minor * 1000 + v.release
  }

  /**
   * The split in `show_hypervisor_info`: divide off the major part, keep
   * the remainder, and split that into minor and release.
   */
  function Decode(packed: nat): (v: Version)
    ensures Valid(v)
    ensures Encode(v) == packed
  {
    var major := packed / 1000000;
    var rest := packed % 1000000;
    Version(major, rest / 1000, rest % 1000)
  }

  /** Packing a valid version and splitting it again gives the version back. */
  lemma DecodeEncode(v: Version)
    requires Valid(v)
    ensures Decode(Encode(v)) == v
  {
    var low := v.minor * 1000 + v.release;
    assert (v.major * 1000000 + low) / 1000000 == v.major;
    assert (v.major * 1000000 + low) % 1000000 == low;
    assert low / 1000 == v.minor && low % 1000 == v.release;
  }

  /** The valid version a packed number stands for is unique. */
  lemma DecodeUnique(packed: nat, v: Version)
    requires Valid(v) && Encode(v) == packed
    ensures Decode(packed) == v
  {
    DecodeEncode(v);
  }

  /** A value as the template engine sees it when it looks up a field. */
  datatype Value =
    | Missing
    | Null
    | Bool(b: bool)
    | Number(n: nat)
    | Str(s: string)

  /** Truthiness of `{{#if}}`: absent, null, false, zero and the empty string are false. */
  predicate Truthy(v: Value) {
    match v
    case Missing => false
    case Null => false
    case Bool(b) => b
    case Number(n) => n != 0
    case Str(s) => s != ""
  }

  /** The `<interface>` element of the template, by kind. */
  datatype Device =
    | NetworkDevice(source: Value)
    | EthernetDevice(target: string)

  /**
   * The element chosen for interface `key` whose `managed` field reads
   * `managed`: attached to the named libvirt network when that field is
   * truthy, otherwise an ethernet device whose target is the interface's key.
   */
  function DeviceFor(key: string, managed: Value): (d: Device)
    ensures d.NetworkDevice? <==> Truthy(managed)
    ensures d.NetworkDevice? ==> d.source == managed
    ensures d.EthernetDevice? ==> d.target == key
  {
    if Truthy(managed) then NetworkDevice(managed) else EthernetDevice(key)
  }

  function OptionString(o: Option<string>): Value {
    match o
    case Some(s) => Str(s)
    case None => Null
  }

  /**
   * Field lookup on a resolved interface as it serialises: `mtu`, `mac`,
   * `ip` and `network`; any other name is absent.
   */
  function FieldOf(iface: InterfaceRuntime, field: string): Value {
    if field == "mtu" then (match iface.mtu case Some(n) => Number(n) case None => Null)
    else if field == "mac" then OptionString(iface.mac)
    else if field == "ip" then (match iface.ip case Some(a) => Str(Text.Ipv4Text(a)) case None => Null)
    else if field == "network" then OptionString(iface.network)
    else Missing
  }

  /** The devices of one instance, its interfaces in iteration order `order`. */
  function Devices(ifaces: map<string, InterfaceRuntime>, order: seq<string>): (r: seq<Device>)
    requires forall k :: k in order ==> k in ifaces
    ensures |r| == |order|
    ensures forall j :: 0 <= j < |order| ==> r[j] == DeviceFor(order[j], FieldOf(ifaces[order[j]], "managed"))
  {
    seq(|order|, j requires 0 <= j < |order| => DeviceFor(order[j], FieldOf(ifaces[order[j]], "managed")))
  }

  /**
   * The resolved interface has no `managed` field, so the `{{#if}}` never
   * holds and every interface renders as an ethernet device named by its key.
   */
  lemma DevicesAllEthernet(ifaces: map<string, InterfaceRuntime>, order: seq<string>)
    requires forall k :: k in order ==> k in ifaces
    ensures forall j :: 0 <= j < |order| ==> Devices(ifaces, order)[j] == EthernetDevice(order[j])
  {
    forall j | 0 <= j < |order|
      ensures Devices(ifaces, order)[j] == EthernetDevice(order[j])
    {
      assert "managed" != "mtu" && "managed" != "mac" && "managed" != "ip" && "managed" != "network" by {
        assert "managed"[1] == 'a' && "mtu"[1] == 't' && "mac"[1] == 'a' && "ip"[0] == 'i' && "network"[0] == 'n';
        assert |"managed"| != |"mac"|;
      }
    }
  }
}
