/**
  Probe fan-out of the MAX! Cube discovery: which datagrams the host sends, and where.

  Each eligible network interface (up and not loopback) contributes, for each of its
  addresses, the all-hosts multicast group followed by the address's subnet broadcast
  address when it has one. Every destination receives the same fixed probe on the
  discovery port.
 */
module Probe {
  import opened Wrappers

  /** An IP address, kept opaque: only its identity matters to discovery. */
  datatype InetAddress = InetAddress(host: string)

  /** The all-hosts multicast group every probe goes to. */
  const AllHostsMulticast := InetAddress("224.0.0.1")

  /** The UDP port of the exchange, used in both directions. */
  const DiscoveryPort := 23272

  /** The fixed probe, one char per byte: nineteen bytes, the eighth a NUL. */
  const ProbePayload: string := "eQ3Max*\0**********I"

  /** One configured address of an interface; `broadcast` is None where Java gives null. */
  datatype InterfaceAddress = InterfaceAddress(address: InetAddress, broadcast: Option<InetAddress>)

  datatype NetworkInterface = NetworkInterface(
    displayName: string,
    loopback: bool,
    up: bool,
    addresses: seq<InterfaceAddress>)

  datatype Datagram = Datagram(payload: string, destination: InetAddress, port: int)

  /** An interface the fan-out uses: neither loopback nor down. */
  predicate Eligible(ni: NetworkInterface) {
    !ni.loopback && ni.up
  }

  /** The two-slot destination array filled for each interface address. */
  function BroadcastSlots(ia: InterfaceAddress): seq<Option<InetAddress>> {
    [Some(AllHostsMulticast), ia.broadcast]
  }

  /** The non-null slots, in order: the `bc != null` filter of the innermost loop. */
  function Present(slots: seq<Option<InetAddress>>): (r: seq<InetAddress>)
    ensures |r| <= |slots|
    ensures forall a :: a in r <==> Some(a) in slots
  {
    if slots == [] then []
    else
      var last := slots[|slots| - 1];
      Present(slots[..|slots| - 1]) + (if last.Some? then [last.value] else [])
  }

  /** Destinations of one interface address: the multicast group, then the broadcast address if any. */
  function AddressTargets(ia: InterfaceAddress): (r: seq<InetAddress>)
    ensures r == [AllHostsMulticast] + (if ia.broadcast.Some? then [ia.broadcast.value] else [])
  {
    var slots := BroadcastSlots(ia);
    assert slots[..1] == [Some(AllHostsMulticast)] && slots[..1][..0] == [];
    Present(slots)
  }

  /** Destinations of a list of addresses, address by address. */
  function AddressesTargets(addrs: seq<InterfaceAddress>): seq<InetAddress> {
    if addrs == [] then []
    else AddressesTargets(addrs[..|addrs| - 1]) + AddressTargets(addrs[|addrs| - 1])
  }

  /** Destinations of one interface: nothing when it is loopback or down. */
  function InterfaceTargets(ni: NetworkInterface): seq<InetAddress> {
    if Eligible(ni) then AddressesTargets(ni.addresses) else []
  }

  /** Every destination of the fan-out, in the order the probes are sent. */
  function Destinations(ifaces: seq<NetworkInterface>): seq<InetAddress> {
    if ifaces == [] then []
    else Destinations(ifaces[..|ifaces| - 1]) + InterfaceTargets(ifaces[|ifaces| - 1])
  }

  /** The probe datagram for one destination. */
  function ProbeTo(d: InetAddress): Datagram {
    Datagram(ProbePayload, d, DiscoveryPort)
  }

  /** The probes for a list of destinations, in the same order. */
  function Probes(ds: seq<InetAddress>): seq<Datagram> {
    seq(|ds|, k requires 0 <= k < |ds| => ProbeTo(ds[k]))
  }

  /** Every probe carries the fixed payload to the discovery port, one per destination, in order. */
  lemma ProbesCarryPayload(ds: seq<InetAddress>)
    ensures |Probes(ds)| == |ds|
    ensures forall k :: 0 <= k < |ds| ==>
      Probes(ds)[k].payload == ProbePayload && Probes(ds)[k].port == DiscoveryPort &&
      Probes(ds)[k].destination == ds[k]
  {
  }

  // ----- lemmas -----

  /** The probe is nineteen chars long and starts with the reply magic "eQ3Max". */
  lemma ProbePayloadShape()
    ensures |ProbePayload| == 19 && ProbePayload[..6] == "eQ3Max" && ProbePayload[7] == '\0'
    ensures ProbePayload[18] == 'I'
  {
    assert ProbePayload == "eQ3Max*\0**********I";
  }

  /** Probes of a prefix are a prefix of the probes. */
  lemma ProbesPrefix(a: seq<InetAddress>, b: seq<InetAddress>)
    requires a <= b
    ensures Probes(a) <= Probes(b)
  {
    var pa, pb := Probes(a), Probes(b);
    assert pa == pb[..|pa|] by {
      forall k | 0 <= k < |pa| ensures pa[k] == pb[k] {
        assert a[k] == b[k];
      }
    }
  }

  /** Extending the prefix by one interface extends the destinations by that interface's. */
  lemma DestinationsSnoc(ifaces: seq<NetworkInterface>, i: nat)
    requires i < |ifaces|
    ensures Destinations(ifaces[..i + 1]) == Destinations(ifaces[..i]) + InterfaceTargets(ifaces[i])
  {
    assert ifaces[..i + 1][..i] == ifaces[..i];
  }

  /** Extending the prefix by one slot adds that slot's address, if it has one. */
  lemma PresentSnoc(slots: seq<Option<InetAddress>>, k: nat)
    requires k < |slots|
    ensures Present(slots[..k + 1]) == Present(slots[..k]) + (if slots[k].Some? then [slots[k].value] else [])
  {
    assert slots[..k + 1][..k] == slots[..k];
  }

  /** Destinations of a prefix of the interfaces are a prefix of the destinations. */
  lemma {:induction false} DestinationsPrefix(ifaces: seq<NetworkInterface>, i: nat)
    requires i <= |ifaces|
    ensures Destinations(ifaces[..i]) <= Destinations(ifaces)
    decreases |ifaces|
  {
    if i < |ifaces| {
      var init := ifaces[..|ifaces| - 1];
      assert ifaces[..i] == init[..i];
      DestinationsPrefix(init, i);
    } else {
      assert ifaces[..i] == ifaces;
    }
  }

  /** The fan-out over two lists of interfaces is the fan-out over each, one after the other. */
  lemma {:induction false} DestinationsAppend(a: seq<NetworkInterface>, b: seq<NetworkInterface>)
    ensures Destinations(a + b) == Destinations(a) + Destinations(b)
    decreases |b|
  {
    if b == [] {
      assert a + b == a;
    } else {
      var ab, init := a + b, b[..|b| - 1];
      var t := InterfaceTargets(b[|b| - 1]);
      assert ab[..|ab| - 1] == a + init && ab[|ab| - 1] == b[|b| - 1];
      assert Destinations(ab) == Destinations(a + init) + t;
      assert Destinations(b) == Destinations(init) + t;
      DestinationsAppend(a, init);
      AppendAssociative(Destinations(a), Destinations(init), t);
    }
  }

  /**
    Concatenation of destination lists is associative. Kept apart from the inductive step
    above, whose context makes the solver slow to find it.
   */
  lemma AppendAssociative(x: seq<InetAddress>, y: seq<InetAddress>, z: seq<InetAddress>)
    ensures x + y + z == x + (y + z)
  {
  }

  /** Keeps the eligible interfaces, in order. */
  function EligibleOnly(ifaces: seq<NetworkInterface>): (r: seq<NetworkInterface>)
    ensures forall ni :: ni in r <==> ni in ifaces && Eligible(ni)
  {
    if ifaces == [] then []
    else
      var last := ifaces[|ifaces| - 1];
      EligibleOnly(ifaces[..|ifaces| - 1]) + (if Eligible(last) then [last] else [])
  }

  /** Loopback and down interfaces contribute nothing: dropping them leaves the fan-out unchanged. */
  lemma {:induction false} SkippedInterfacesContributeNothing(ifaces: seq<NetworkInterface>)
    ensures Destinations(EligibleOnly(ifaces)) == Destinations(ifaces)
    decreases |ifaces|
  {
    if ifaces != [] {
      var init, last := ifaces[..|ifaces| - 1], ifaces[|ifaces| - 1];
      SkippedInterfacesContributeNothing(init);
      var kept := if Eligible(last) then [last] else [];
      DestinationsAppend(EligibleOnly(init), kept);
      if Eligible(last) {
        assert Destinations([last]) == InterfaceTargets(last) by {
          assert [last][..0] == [];
        }
      }
    }
  }

  /** Every destination of a list of addresses is a target of one of them. */
  lemma {:induction false} AddressesTargetsSound(addrs: seq<InterfaceAddress>, d: InetAddress)
    requires d in AddressesTargets(addrs)
    ensures exists j :: 0 <= j < |addrs| && d in AddressTargets(addrs[j])
    decreases |addrs|
  {
    var init, last := addrs[..|addrs| - 1], AddressTargets(addrs[|addrs| - 1]);
    assert AddressesTargets(addrs) == AddressesTargets(init) + last;
    if d !in last {
      AddressesTargetsSound(init, d);
      var j :| 0 <= j < |init| && d in AddressTargets(init[j]);
      assert addrs[j] == init[j];
    }
  }

  /** Every target of every address in the list is a destination of the list. */
  lemma {:induction false} AddressesTargetsComplete(addrs: seq<InterfaceAddress>, j: int, d: InetAddress)
    requires 0 <= j < |addrs| && d in AddressTargets(addrs[j])
    ensures d in AddressesTargets(addrs)
    decreases |addrs|
  {
    var init, last := addrs[..|addrs| - 1], AddressTargets(addrs[|addrs| - 1]);
    assert AddressesTargets(addrs) == AddressesTargets(init) + last;
    if j < |init| {
      assert init[j] == addrs[j];
      AddressesTargetsComplete(init, j, d);
      assert d in AddressesTargets(init);
    } else {
      assert d in last;
    }
  }

  /** Every destination of the fan-out is a destination of one of the interfaces. */
  lemma {:induction false} DestinationsSound(ifaces: seq<NetworkInterface>, d: InetAddress)
    requires d in Destinations(ifaces)
    ensures exists i :: 0 <= i < |ifaces| && d in InterfaceTargets(ifaces[i])
    decreases |ifaces|
  {
    var init, last := ifaces[..|ifaces| - 1], InterfaceTargets(ifaces[|ifaces| - 1]);
    assert Destinations(ifaces) == Destinations(init) + last;
    if d !in last {
      DestinationsSound(init, d);
      var i :| 0 <= i < |init| && d in InterfaceTargets(init[i]);
      assert ifaces[i] == init[i];
    }
  }

  /** Every destination of every interface is a destination of the fan-out. */
  lemma {:induction false} DestinationsComplete(ifaces: seq<NetworkInterface>, i: int, d: InetAddress)
    requires 0 <= i < |ifaces| && d in InterfaceTargets(ifaces[i])
    ensures d in Destinations(ifaces)
    decreases |ifaces|
  {
    var init, last := ifaces[..|ifaces| - 1], InterfaceTargets(ifaces[|ifaces| - 1]);
    assert Destinations(ifaces) == Destinations(init) + last;
    if i < |init| {
      assert init[i] == ifaces[i];
      DestinationsComplete(init, i, d);
      assert d in Destinations(init);
    } else {
      assert d in last;
    }
  }

  /**
    Address `j` of interface `i` yields `d`: the interface is eligible and `d` is the multicast
    group or that address's broadcast address.
   */
  ghost predicate Yields(ifaces: seq<NetworkInterface>, i: int, j: int, d: InetAddress) {
    && 0 <= i < |ifaces| && Eligible(ifaces[i]) && 0 <= j < |ifaces[i].addresses|
    && (d == AllHostsMulticast || ifaces[i].addresses[j].broadcast == Some(d))
  }

  /** A destination is probed exactly when some address of some eligible interface yields it. */
  lemma DestinationsMembership(ifaces: seq<NetworkInterface>, d: InetAddress)
    ensures d in Destinations(ifaces) <==> exists i, j :: Yields(ifaces, i, j, d)
  {
    if d in Destinations(ifaces) {
      DestinationsSound(ifaces, d);
      var i :| 0 <= i < |ifaces| && d in InterfaceTargets(ifaces[i]);
      AddressesTargetsSound(ifaces[i].addresses, d);
      var j :| 0 <= j < |ifaces[i].addresses| && d in AddressTargets(ifaces[i].addresses[j]);
      assert Yields(ifaces, i, j, d);
    }
    if i, j :| Yields(ifaces, i, j, d) {
      assert d in AddressTargets(ifaces[i].addresses[j]);
      AddressesTargetsComplete(ifaces[i].addresses, j, d);
      DestinationsComplete(ifaces, i, d);
    }
  }

  /** Number of addresses on eligible interfaces. */
  function EligibleAddressCount(ifaces: seq<NetworkInterface>): nat {
    if ifaces == [] then 0
    else
      var last := ifaces[|ifaces| - 1];
      EligibleAddressCount(ifaces[..|ifaces| - 1]) + (if Eligible(last) then |last.addresses| else 0)
  }

  /** Number of addresses with a broadcast address in a list of addresses. */
  function BroadcastCount(addrs: seq<InterfaceAddress>): (n: nat)
    ensures n <= |addrs|
  {
    if addrs == [] then 0
    else BroadcastCount(addrs[..|addrs| - 1]) + (if addrs[|addrs| - 1].broadcast.Some? then 1 else 0)
  }

  /** Number of addresses with a broadcast address on eligible interfaces. */
  function EligibleBroadcastCount(ifaces: seq<NetworkInterface>): nat {
    if ifaces == [] then 0
    else
      var last := ifaces[|ifaces| - 1];
      EligibleBroadcastCount(ifaces[..|ifaces| - 1]) + (if Eligible(last) then BroadcastCount(last.addresses) else 0)
  }

  lemma {:induction false} AddressesTargetsCount(addrs: seq<InterfaceAddress>)
    ensures |AddressesTargets(addrs)| == |addrs| + BroadcastCount(addrs)
    decreases |addrs|
  {
    if addrs != [] {
      AddressesTargetsCount(addrs[..|addrs| - 1]);
    }
  }

  /**
    Each eligible address yields one destination, plus one more when it has a broadcast
    address: so between one and two destinations per eligible address.
   */
  lemma {:induction false} DestinationsCount(ifaces: seq<NetworkInterface>)
    ensures |Destinations(ifaces)| == EligibleAddressCount(ifaces) + EligibleBroadcastCount(ifaces)
    ensures EligibleAddressCount(ifaces) <= |Destinations(ifaces)| <= 2 * EligibleAddressCount(ifaces)
    decreases |ifaces|
  {
    if ifaces != [] {
      var last := ifaces[|ifaces| - 1];
      DestinationsCount(ifaces[..|ifaces| - 1]);
      AddressesTargetsCount(last.addresses);
    }
  }
}
