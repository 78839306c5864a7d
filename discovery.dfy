/**
  One run of the MAX! Cube discovery against the host's network stack.

  The stack is a `Host` object. Its fields are the two socket handles the run opens and
  closes, and logs of what went out (`sent`) and what came in (`received`). Every call
  into the network is a `Host` method whose outcome the environment chooses: any call that
  can throw in `discoverIp` may here fail, and the contracts of the run hold whatever
  those outcomes are.
 */
module Discovery {
  import opened Wrappers
  import opened Probe
  import opened Reply

  /** A socket handle: null until the socket is created, then open until it is closed. */
  datatype SocketState = Null | Open | Closed

  /** A datagram that reached the receive socket: its source and its bytes as chars. */
  datatype ReplyDatagram = ReplyDatagram(sender: InetAddress, data: string)

  /** A network call that threw out of the run. A failed send is not one: it is caught on the spot. */
  datatype Fault =
    | OpenSendFailed
    | BroadcastRefused
    | EnumerationFailed
    | LoopbackQueryFailed
    | UpQueryFailed
    | BindFailed
    | ReuseRefused
    | ReceiveFailed

  /** A fault that ends the run before any probe is sent. */
  predicate BeforeFanOut(f: Fault) {
    f == OpenSendFailed || f == BroadcastRefused || f == EnumerationFailed
  }

  /** A fault that ends the run inside the fan-out: a loopback or up query. */
  predicate InFanOut(f: Fault) {
    f == LoopbackQueryFailed || f == UpQueryFailed
  }

  /** A fault that ends the run once the receiving socket is bound. */
  predicate AfterBind(f: Fault) {
    f == ReuseRefused || f == ReceiveFailed
  }

  class Host {
    /** What interface enumeration reports when it succeeds. */
    const interfaces: seq<NetworkInterface>

    /** The sending socket, broadcast-enabled once open. */
    var sendSocket: SocketState
    /** The receiving socket, bound to the discovery port. */
    var receiveSocket: SocketState
    /** Every datagram handed to the sending socket, in order, whether or not the send failed. */
    var sent: seq<Datagram>
    /** Every datagram the receiving socket delivered, in order. */
    var received: seq<ReplyDatagram>
    /**
      Every network call that threw, in order. The `substring` that throws on a reply too short
      for its fields is not a network call and is not logged: that reply still yields its sender.
     */
    ghost var faults: seq<Fault>
    /** Whether the sending socket was already closed when the receiving socket was last bound. */
    ghost var sendClosedAtBind: bool

    constructor (interfaces: seq<NetworkInterface>)
      ensures this.interfaces == interfaces
      ensures sendSocket == Null && receiveSocket == Null && sent == [] && received == []
      ensures faults == [] && !sendClosedAtBind
    {
      this.interfaces := interfaces;
      sendSocket, receiveSocket := Null, Null;
      sent, received := [], [];
      faults, sendClosedAtBind := [], false;
    }

    // ----- the network, as the run sees it -----

    /** Creates the sending socket; fails (the handle stays null) when the stack refuses. */
    method OpenSendSocket() returns (ok: bool)
      requires sendSocket == Null
      modifies this
      ensures sendSocket == (if ok then Open else Null)
      ensures ok ==> faults == old(faults)
      ensures !ok ==> faults == old(faults) + [OpenSendFailed]
      ensures receiveSocket == old(receiveSocket) && sent == old(sent) && received == old(received)
      ensures sendClosedAtBind == old(sendClosedAtBind)
    {
      ok :| true;
      if ok {
        sendSocket := Open;
      } else {
        faults := faults + [OpenSendFailed];
      }
    }

    /** Turns on broadcast for the sending socket; may fail. */
    method EnableBroadcast() returns (ok: bool)
      requires sendSocket == Open
      modifies this
      ensures ok ==> faults == old(faults)
      ensures !ok ==> faults == old(faults) + [BroadcastRefused]
      ensures sendSocket == old(sendSocket) && receiveSocket == old(receiveSocket)
      ensures sent == old(sent) && received == old(received) && sendClosedAtBind == old(sendClosedAtBind)
    {
      ok :| true;
      if !ok {
        faults := faults + [BroadcastRefused];
      }
    }

    /**
      Lists the network interfaces, or fails. A host without interfaces never gets a list:
      the JDK answers null (and `hasMoreElements` throws) or throws itself.
     */
    method GetNetworkInterfaces() returns (r: Option<seq<NetworkInterface>>)
      modifies this
      ensures r.Some? ==> r.value == interfaces && interfaces != []
      ensures r.Some? ==> faults == old(faults)
      ensures r.None? ==> faults == old(faults) + [EnumerationFailed]
      ensures sendSocket == old(sendSocket) && receiveSocket == old(receiveSocket)
      ensures sent == old(sent) && received == old(received) && sendClosedAtBind == old(sendClosedAtBind)
    {
      var fails: bool :| true;
      if fails || interfaces == [] {
        r := None;
        faults := faults + [EnumerationFailed];
      } else {
        r := Some(interfaces);
      }
    }

    /** Asks whether an interface is a loopback interface, or fails. */
    method IsLoopback(ni: NetworkInterface) returns (r: Option<bool>)
      modifies this
      ensures r.Some? ==> r.value == ni.loopback
      ensures r.Some? ==> faults == old(faults)
      ensures r.None? ==> faults == old(faults) + [LoopbackQueryFailed]
      ensures sendSocket == old(sendSocket) && receiveSocket == old(receiveSocket)
      ensures sent == old(sent) && received == old(received) && sendClosedAtBind == old(sendClosedAtBind)
    {
      var fails: bool :| true;
      if fails {
        r := None;
        faults := faults + [LoopbackQueryFailed];
      } else {
        r := Some(ni.loopback);
      }
    }

    /** Asks whether an interface is up, or fails. */
    method IsUp(ni: NetworkInterface) returns (r: Option<bool>)
      modifies this
      ensures r.Some? ==> r.value == ni.up
      ensures r.Some? ==> faults == old(faults)
      ensures r.None? ==> faults == old(faults) + [UpQueryFailed]
      ensures sendSocket == old(sendSocket) && receiveSocket == old(receiveSocket)
      ensures sent == old(sent) && received == old(received) && sendClosedAtBind == old(sendClosedAtBind)
    {
      var fails: bool :| true;
      if fails {
        r := None;
        faults := faults + [UpQueryFailed];
      } else {
        r := Some(ni.up);
      }
    }

    /** Hands a datagram to the sending socket; the send itself may fail, which is caught. */
    method Send(d: Datagram) returns (ok: bool)
      requires sendSocket == Open
      modifies this
      ensures sent == old(sent) + [d]
      ensures sendSocket == old(sendSocket) && receiveSocket == old(receiveSocket) && received == old(received)
      ensures faults == old(faults) && sendClosedAtBind == old(sendClosedAtBind)
    {
      ok :| true;
      sent := sent + [d];
    }

    /** Closes the sending socket; closing it again is harmless. */
    method CloseSendSocket()
      requires sendSocket != Null
      modifies this
      ensures sendSocket == Closed
      ensures receiveSocket == old(receiveSocket) && sent == old(sent) && received == old(received)
      ensures faults == old(faults) && sendClosedAtBind == old(sendClosedAtBind)
    {
      sendSocket := Closed;
    }

    /**
      Creates the receiving socket bound to the discovery port; fails when the port cannot be
      bound. Notes whether the sending socket was closed by then.
     */
    method BindReceiveSocket() returns (ok: bool)
      requires receiveSocket == Null
      modifies this
      ensures receiveSocket == (if ok then Open else Null)
      ensures ok ==> faults == old(faults)
      ensures !ok ==> faults == old(faults) + [BindFailed]
      ensures sendClosedAtBind == (if ok then old(sendSocket) == Closed else old(sendClosedAtBind))
      ensures sendSocket == old(sendSocket) && sent == old(sent) && received == old(received)
    {
      ok :| true;
      if ok {
        receiveSocket := Open;
        sendClosedAtBind := sendSocket == Closed;
      } else {
        faults := faults + [BindFailed];
      }
    }

    /** Turns on address reuse for the receiving socket; may fail. */
    method EnableReuseAddress() returns (ok: bool)
      requires receiveSocket == Open
      modifies this
      ensures ok ==> faults == old(faults)
      ensures !ok ==> faults == old(faults) + [ReuseRefused]
      ensures sendSocket == old(sendSocket) && receiveSocket == old(receiveSocket)
      ensures sent == old(sent) && received == old(received) && sendClosedAtBind == old(sendClosedAtBind)
    {
      ok :| true;
      if !ok {
        faults := faults + [ReuseRefused];
      }
    }

    /** Waits for one datagram on the receiving socket; fails, or returns what arrived. */
    method Receive() returns (r: Option<ReplyDatagram>)
      requires receiveSocket == Open
      modifies this
      ensures received == old(received) + (if r.Some? then [r.value] else [])
      ensures r.Some? ==> faults == old(faults)
      ensures r.None? ==> faults == old(faults) + [ReceiveFailed]
      ensures sendSocket == old(sendSocket) && receiveSocket == old(receiveSocket) && sent == old(sent)
      ensures sendClosedAtBind == old(sendClosedAtBind)
    {
      var fails: bool :| true;
      if fails {
        r := None;
        faults := faults + [ReceiveFailed];
      } else {
        var sender: InetAddress :| true;
        var data: string :| true;
        r := Some(ReplyDatagram(sender, data));
        received := received + [r.value];
      }
    }

    /** Closes the receiving socket. */
    method CloseReceiveSocket()
      requires receiveSocket != Null
      modifies this
      ensures receiveSocket == Closed
      ensures sendSocket == old(sendSocket) && sent == old(sent) && received == old(received)
      ensures faults == old(faults) && sendClosedAtBind == old(sendClosedAtBind)
    {
      receiveSocket := Closed;
    }

    // ----- the discovery run -----

    /**
      The test `isLoopback() || !isUp()` that skips an interface, negated: Some(true) for an
      interface to probe, None exactly when one of the queries throws (`isUp` is asked only of
      an interface that is not loopback).
     */
    method QueryEligible(ni: NetworkInterface) returns (r: Option<bool>)
      modifies this
      ensures r.Some? ==> r.value == Eligible(ni)
      ensures r.Some? <==> faults == old(faults)
      // a failure is one query that threw; `isUp` is asked only of an interface that is not loopback
      ensures r.None? ==>
        faults == old(faults) + [LoopbackQueryFailed] || (!ni.loopback && faults == old(faults) + [UpQueryFailed])
      ensures sendSocket == old(sendSocket) && receiveSocket == old(receiveSocket)
      ensures sent == old(sent) && received == old(received) && sendClosedAtBind == old(sendClosedAtBind)
    {
      var loopback := IsLoopback(ni);
      if loopback.None? {
        return None;
      }
      if loopback.value {
        return Some(false);
      }
      var up := IsUp(ni);
      if up.None? {
        return None;
      }
      return Some(up.value);
    }

    /**
      The fan-out: probes every destination of every eligible interface, in order. A failed
      send is ignored and the loops go on; a failed loopback or up query throws out of the
      whole fan-out (`ok` false) after the probes already sent.
     */
    method SendProbes(ifaces: seq<NetworkInterface>) returns (ok: bool, ghost reached: nat)
      requires sendSocket == Open
      modifies this
      ensures sendSocket == Open && receiveSocket == old(receiveSocket) && received == old(received)
      ensures sendClosedAtBind == old(sendClosedAtBind)
      ensures ok <==> faults == old(faults)
      ensures reached <= |ifaces| && sent == old(sent) + Probes(Destinations(ifaces[..reached]))
      ensures ok ==> reached == |ifaces| && sent == old(sent) + Probes(Destinations(ifaces))
      // a failure ends the loop at the interface whose query threw, before its probes
      ensures !ok ==>
        reached < |ifaces| &&
        (faults == old(faults) + [LoopbackQueryFailed] ||
         (!ifaces[reached].loopback && faults == old(faults) + [UpQueryFailed]))
    {
      ok := true;
      var i := 0;
      while i < |ifaces|
        invariant 0 <= i <= |ifaces| && ok && faults == old(faults)
        invariant sendSocket == Open && receiveSocket == old(receiveSocket) && received == old(received)
        invariant sendClosedAtBind == old(sendClosedAtBind)
        invariant sent == old(sent) + Probes(Destinations(ifaces[..i]))
      {
        var queried := ProbeInterface(ifaces[i]);
        if !queried {
          ok := false;
          break;
        }
        FanOutStep(ifaces, i, old(sent));
        i := i + 1;
      }
      reached := i;
      assert ok ==> ifaces[..i] == ifaces;
    }

    /**
      One pass of the interface loop: skip the interface unless it is eligible, else probe
      its addresses. Fails, sending nothing, exactly when the loopback or up query throws.
     */
    method ProbeInterface(ni: NetworkInterface) returns (ok: bool)
      requires sendSocket == Open
      modifies this
      ensures sendSocket == Open && receiveSocket == old(receiveSocket) && received == old(received)
      ensures sendClosedAtBind == old(sendClosedAtBind)
      ensures ok <==> faults == old(faults)
      ensures !ok ==>
        faults == old(faults) + [LoopbackQueryFailed] || (!ni.loopback && faults == old(faults) + [UpQueryFailed])
      ensures sent == old(sent) + (if ok then Probes(InterfaceTargets(ni)) else [])
    {
      var eligible := QueryEligible(ni);
      if eligible.None? {
        return false;
      }
      if eligible.value {
        ProbeAddresses(ni.addresses);
      }
      ok := true;
    }

    /** The loop over the addresses of one eligible interface. */
    method ProbeAddresses(addrs: seq<InterfaceAddress>)
      requires sendSocket == Open
      modifies this
      ensures sendSocket == Open && receiveSocket == old(receiveSocket) && received == old(received)
      ensures faults == old(faults) && sendClosedAtBind == old(sendClosedAtBind)
      ensures sent == old(sent) + Probes(AddressesTargets(addrs))
    {
      var j := 0;
      while j < |addrs|
        invariant 0 <= j <= |addrs|
        invariant sendSocket == Open && receiveSocket == old(receiveSocket) && received == old(received)
        invariant faults == old(faults) && sendClosedAtBind == old(sendClosedAtBind)
        invariant sent == old(sent) + Probes(AddressesTargets(addrs[..j]))
      {
        ProbeAddress(addrs[j]);
        AddressStep(addrs, j, old(sent));
        j := j + 1;
      }
      assert addrs[..j] == addrs;
    }

    /**
      The innermost loop, for one address: fill the two-slot destination array with the
      multicast group and the broadcast address, and probe each slot that is not null.
     */
    method ProbeAddress(ia: InterfaceAddress)
      requires sendSocket == Open
      modifies this
      ensures sendSocket == Open && receiveSocket == old(receiveSocket) && received == old(received)
      ensures faults == old(faults) && sendClosedAtBind == old(sendClosedAtBind)
      ensures sent == old(sent) + Probes(AddressTargets(ia))
    {
      var broadcast := new Option<InetAddress>[2];
      broadcast[0] := Some(AllHostsMulticast);
      broadcast[1] := ia.broadcast;
      ghost var slots := broadcast[..];
      assert slots == BroadcastSlots(ia);
      for k := 0 to 2
        modifies this
        invariant sendSocket == Open && receiveSocket == old(receiveSocket) && received == old(received)
        invariant faults == old(faults) && sendClosedAtBind == old(sendClosedAtBind)
        invariant sent == old(sent) + Probes(Present(slots[..k]))
      {
        PresentSnoc(slots, k);
        if broadcast[k].Some? {
          ProbesSnoc(old(sent), Present(slots[..k]), broadcast[k].value);
          var _ := Send(ProbeTo(broadcast[k].value));
        }
      }
      assert slots[..2] == slots;
    }

    /**
      The first half of the `try` block of `discoverIp`: open the sending socket, enable
      broadcast, enumerate the interfaces and send the probes. The first network call that throws
      ends it; `fault` names that call, and nothing is done after it.
     */
    method Announce() returns (ok: bool, ghost probed: nat, ghost fault: Option<Fault>)
      requires sendSocket == Null && receiveSocket == Null
      modifies this
      ensures receiveSocket == Null && received == old(received) && sendClosedAtBind == old(sendClosedAtBind)
      ensures sendSocket == if fault == Some(OpenSendFailed) then Null else Open
      ensures ok <==> fault.None?
      ensures probed <= |interfaces| && sent == old(sent) + Probes(Destinations(interfaces[..probed]))
      ensures fault.None? ==> faults == old(faults) && probed == |interfaces| && interfaces != []
      ensures fault.Some? ==>
        faults == old(faults) + [fault.value] && (BeforeFanOut(fault.value) || InFanOut(fault.value))
      ensures fault.Some? && BeforeFanOut(fault.value) ==> sent == old(sent)
      ensures fault.Some? && InFanOut(fault.value) ==> probed < |interfaces|
    {
      probed, fault := 0, None;
      assert interfaces[..0] == [];
      ok := OpenSendSocket();
      if !ok { fault := Some(OpenSendFailed); return; }
      ok := EnableBroadcast();
      if !ok { fault := Some(BroadcastRefused); return; }
      var found := GetNetworkInterfaces();
      if found.None? { ok, fault := false, Some(EnumerationFailed); return; }
      ok, probed := SendProbes(found.value);
      if !ok {
        fault := Some(if faults == old(faults) + [LoopbackQueryFailed] then LoopbackQueryFailed else UpQueryFailed);
      }
    }

    /**
      The second half of the `try` block: close the sending socket, bind the receiving one,
      wait for one reply and check it. The first network call that throws ends it; `fault` names
      that call. A reply that passes the magic check but is too short for its fields still
      yields its sender.
     */
    method AwaitReply() returns (ip: Option<InetAddress>, ghost reply: Option<ReplyDatagram>, ghost fault: Option<Fault>)
      requires sendSocket == Open && receiveSocket == Null
      modifies this
      ensures sendSocket == Closed && sent == old(sent)
      ensures receiveSocket == if fault.None? || AfterBind(fault.value) then Open else Null
      ensures receiveSocket != Null ==> sendClosedAtBind
      ensures received == old(received) + (if reply.Some? then [reply.value] else [])
      ensures fault.None? ==> faults == old(faults) && reply.Some?
      ensures fault.Some? ==>
        faults == old(faults) + [fault.value] && reply.None? && (fault.value == BindFailed || AfterBind(fault.value))
      ensures ip.Some? <==> reply.Some? && CheckReply(ReceiveBuffer(reply.value.data)).Cube?
      ensures ip.Some? ==> ip.value == reply.value.sender
    {
      ip, reply, fault := None, None, None;
      CloseSendSocket();
      var ok := BindReceiveSocket();
      if !ok { fault := Some(BindFailed); return; }
      ok := EnableReuseAddress();
      if !ok { fault := Some(ReuseRefused); return; }
      var datagram := Receive();
      reply := datagram;
      if datagram.None? { fault := Some(ReceiveFailed); return; }
      match CheckReply(ReceiveBuffer(datagram.value.data))
      case NotCube =>
      case Cube(_) =>
        // the address is taken before the fields are read, so a too-short reply keeps it
        ip := Some(datagram.value.sender);
    }

    /**
      One run of `discoverIp`: the `try` block, then the `finally` block that closes whichever
      sockets were created. The first network call that throws ends the run with no address; a
      reply too short for its fields still yields its sender. Whatever happens, both sockets
      end closed.
     */
    method Discover() returns (ip: Option<InetAddress>, ghost probed: nat, ghost reply: Option<ReplyDatagram>,
                               ghost fault: Option<Fault>)
      requires sendSocket == Null && receiveSocket == Null
      modifies this
      ensures sendSocket != Open && receiveSocket != Open
      ensures probed <= |interfaces| && sent == old(sent) + Probes(Destinations(interfaces[..probed]))
      ensures received == old(received) + (if reply.Some? then [reply.value] else [])
      // a reply is awaited and received exactly when no network call throws, and only after the full fan-out
      ensures reply.Some? <==> faults == old(faults)
      ensures reply.Some? ==> probed == |interfaces| && interfaces != []
      // the receiving socket is bound only once the sending socket is closed
      ensures receiveSocket != Null ==> sendClosedAtBind && sendSocket == Closed
      // the first network call that throws ends the run: at most one fault, and nothing after it
      ensures faults == old(faults) + (if fault.Some? then [fault.value] else [])
      ensures reply.Some? <==> fault.None?
      ensures sendSocket == Null <==> fault == Some(OpenSendFailed)
      ensures fault.Some? && BeforeFanOut(fault.value) ==> sent == old(sent)
      ensures fault.Some? && InFanOut(fault.value) ==> probed < |interfaces|
      ensures fault.None? || !(BeforeFanOut(fault.value) || InFanOut(fault.value)) ==> probed == |interfaces|
      ensures receiveSocket != Null <==> fault.None? || AfterBind(fault.value)
      ensures ip.Some? <==> reply.Some? && CheckReply(ReceiveBuffer(reply.value.data)).Cube?
      ensures ip.Some? ==> ip.value == reply.value.sender
    {
      // try
      ip, reply := None, None;
      var ok;
      ok, probed, fault := Announce();
      if ok {
        ip, reply, fault := AwaitReply();
      }
      // finally
      if receiveSocket != Null {
        CloseReceiveSocket();
      }
      if sendSocket != Null {
        CloseSendSocket();
      }
    }
  }

  /**
    Appending one destination appends its probe to the log. Kept apart from the loop in
    `ProbeAddress`, whose context makes the solver slow to find it.
   */
  lemma ProbesSnoc(base: seq<Datagram>, ds: seq<InetAddress>, d: InetAddress)
    ensures base + Probes(ds) + [ProbeTo(d)] == base + Probes(ds + [d])
  {
    var l, r := Probes(ds) + [ProbeTo(d)], Probes(ds + [d]);
    assert l == r;
    assert base + Probes(ds) + [ProbeTo(d)] == base + l;
  }

  /** One more interface done: its probes follow those of the interfaces before it. */
  lemma FanOutStep(ifaces: seq<NetworkInterface>, i: nat, base: seq<Datagram>)
    requires i < |ifaces|
    ensures base + Probes(Destinations(ifaces[..i])) + Probes(InterfaceTargets(ifaces[i]))
      == base + Probes(Destinations(ifaces[..i + 1]))
  {
    var done, next := Destinations(ifaces[..i]), InterfaceTargets(ifaces[i]);
    DestinationsSnoc(ifaces, i);
    ProbesAppend(done, next);
    assert base + Probes(done) + Probes(next) == base + (Probes(done) + Probes(next));
  }

  /** One more address done: its probes follow those of the addresses before it. */
  lemma AddressStep(addrs: seq<InterfaceAddress>, j: nat, base: seq<Datagram>)
    requires j < |addrs|
    ensures base + Probes(AddressesTargets(addrs[..j])) + Probes(AddressTargets(addrs[j]))
      == base + Probes(AddressesTargets(addrs[..j + 1]))
  {
    var done, next := AddressesTargets(addrs[..j]), AddressTargets(addrs[j]);
    assert addrs[..j + 1][..j] == addrs[..j];
    ProbesAppend(done, next);
    assert base + Probes(done) + Probes(next) == base + (Probes(done) + Probes(next));
  }

  /** The probes of two lists of destinations, one after the other. */
  lemma ProbesAppend(a: seq<InetAddress>, b: seq<InetAddress>)
    ensures Probes(a + b) == Probes(a) + Probes(b)
  {
    var l, r := Probes(a + b), Probes(a) + Probes(b);
    forall k | 0 <= k < |l| ensures l[k] == r[k] {
      if k < |a| {
        assert r[k] == Probes(a)[k];
      } else {
        assert r[k] == Probes(b)[k - |a|];
      }
    }
  }

  /** The probes sent before an aborted fan-out are a prefix of the full fan-out. */
  lemma AbortedFanOutIsPrefix(ifaces: seq<NetworkInterface>, i: nat)
    requires i <= |ifaces|
    ensures Probes(Destinations(ifaces[..i])) <= Probes(Destinations(ifaces))
  {
    DestinationsPrefix(ifaces, i);
    ProbesPrefix(Destinations(ifaces[..i]), Destinations(ifaces));
  }
}
