# MAX! Cube discovery, modelled in Dafny

`MaxCubeDiscover.discoverIp()` from the openHAB MAX! Cube binding looks for a MAX! Cube LAN
gateway. It sends a fixed UDP probe, `"eQ3Max*\0**********I"`, from one sending socket on an
ephemeral port to port 23272 at several destinations. For each address of an eligible network interface (up and
not loopback) the probe goes to the all-hosts multicast group 224.0.0.1 and then to the
address's subnet broadcast address, when it has one.
The method then binds port 23272 and waits for one reply. If the trimmed reply text starts
with `eQ3Max`, the method returns the sender's address.

The project has four modules:

- `Wrappers` (`wrappers.dfy`): `Option`, which stands in for Java's `null`.
- `Probe` (`probe.dfy`): the fan-out rule as pure functions over an abstract list of
  interfaces. `Destinations` gives the ordered destination list and `Probes` the datagrams
  sent. Lemmas cover membership, skipped interfaces, counts and the payload.
- `Reply` (`reply.dfy`): the reply check as pure functions. `ReceiveBuffer` is the
  15000-char buffer the datagram is decoded into. `Trim` is Java's `String.trim`.
  `CheckReply` is the `startsWith` test followed by the two `substring` calls. Lemmas cover
  trimming, the round trip and a few concrete replies.
- `Discovery` (`discovery.dfy`): the method itself, as a `Host` class.
  - Its fields are the two socket handles (null, open or closed) and logs of the datagrams
    sent and received.
  - Two ghost fields record what the run cannot observe directly: `faults` lists every network
    call that threw, in order, and `sendClosedAtBind` says whether the sending socket was already
    closed when the receiving socket was bound. A failed send is caught on the spot and is
    not a fault.
  - Each network call is a method whose success the environment chooses.
  - `SendProbes` is the `while` over the interfaces, and `ProbeInterface` is its body.
    `ProbeAddresses` is the `for` over one interface's addresses, and `ProbeAddress` is the
    `for` over the two-slot destination array.
  - `Discover` is the whole method. The `try` block is split in two: `Announce` (open the
    sending socket, enumerate the interfaces, send the probes) and `AwaitReply` (close it,
    bind the receiving socket, wait for one reply, check it). Each returns at the first network
    call that throws and names it in a ghost `fault`. The `substring` that throws on a reply
    too short for its fields is not a network call: it is caught after the sender's address
    has been taken, so that reply still yields its address and no fault. `Discover` runs `AwaitReply` only when
    `Announce` succeeded, then does the `finally` closes.

Two details of the code are easy to misread:

- The probe literal `"eQ3Max*\0**********I"` is 19 bytes long, because `\0` is a single
  NUL char.
- `trim` strips chars at or below the space from both ends of the decoded buffer. This
  covers the unused zero bytes at the end and any padding in front.

The method returns only the IP address. The name and RF address it parses are kept in
locals and never returned. `CheckReply` still computes them, so that their positions can be
stated.

## Model

| member | source | states |
|---|---|---|
| Probe.Eligible | bundles/binding/org.openhab.binding.maxcube/src/main/java/org/openhab/binding/maxcube/internal/MaxCubeDiscover.java:58-60 | an interface is probed only when it is up and not loopback, the negation of the skip test; `EligibleOnly` and `SkippedInterfacesContributeNothing` state what this means for the fan-out |
| Probe.BroadcastSlots | bundles/binding/org.openhab.binding.maxcube/src/main/java/org/openhab/binding/maxcube/internal/MaxCubeDiscover.java:63-65 | the two-slot array: 224.0.0.1 in slot 0, the address's broadcast address (possibly null) in slot 1; `AddressTargets` states the destinations it yields |
| Probe.AddressesTargets | bundles/binding/org.openhab.binding.maxcube/src/main/java/org/openhab/binding/maxcube/internal/MaxCubeDiscover.java:62-83 | the destinations of an address list, address by address; `AddressesTargetsSound`, `AddressesTargetsComplete` and `AddressesTargetsCount` state its meaning |
| Probe.InterfaceTargets | bundles/binding/org.openhab.binding.maxcube/src/main/java/org/openhab/binding/maxcube/internal/MaxCubeDiscover.java:58-83 | the destinations of one interface, none when it is skipped; its meaning is stated through `DestinationsMembership` |
| Probe.Destinations | bundles/binding/org.openhab.binding.maxcube/src/main/java/org/openhab/binding/maxcube/internal/MaxCubeDiscover.java:54-84 | the ordered destination list of the whole fan-out; `DestinationsMembership` (which addresses) and `DestinationsCount` (how many) state its meaning |
| Probe.ProbeTo | bundles/binding/org.openhab.binding.maxcube/src/main/java/org/openhab/binding/maxcube/internal/MaxCubeDiscover.java:71 | the datagram for one destination: the fixed payload to port 23272 |
| Probe.Probes | bundles/binding/org.openhab.binding.maxcube/src/main/java/org/openhab/binding/maxcube/internal/MaxCubeDiscover.java:67-72 | one probe per destination, in order; `ProbesCarryPayload` states its contents |
| Probe.Present | bundles/binding/org.openhab.binding.maxcube/src/main/java/org/openhab/binding/maxcube/internal/MaxCubeDiscover.java:67-69 | the `bc != null` filter keeps exactly the non-null slots, and never more addresses than slots |
| Probe.AddressTargets | bundles/binding/org.openhab.binding.maxcube/src/main/java/org/openhab/binding/maxcube/internal/MaxCubeDiscover.java:63-69 | one address is probed at 224.0.0.1 first, then at its broadcast address when it has one, and nowhere else |
| Probe.ProbesCarryPayload | bundles/binding/org.openhab.binding.maxcube/src/main/java/org/openhab/binding/maxcube/internal/MaxCubeDiscover.java:51-72 | one probe per destination, in order; each carries the fixed payload to port 23272 and to its destination |
| Probe.ProbePayloadShape | bundles/binding/org.openhab.binding.maxcube/src/main/java/org/openhab/binding/maxcube/internal/MaxCubeDiscover.java:51 | the payload is 19 chars: it starts with `eQ3Max`, its eighth char is NUL and it ends in `I` |
| Probe.EligibleOnly | bundles/binding/org.openhab.binding.maxcube/src/main/java/org/openhab/binding/maxcube/internal/MaxCubeDiscover.java:58-60 | keeps exactly the interfaces that are up and not loopback |
| Probe.SkippedInterfacesContributeNothing | bundles/binding/org.openhab.binding.maxcube/src/main/java/org/openhab/binding/maxcube/internal/MaxCubeDiscover.java:55-60 | dropping loopback and down interfaces leaves the destination list unchanged |
| Probe.DestinationsAppend | bundles/binding/org.openhab.binding.maxcube/src/main/java/org/openhab/binding/maxcube/internal/MaxCubeDiscover.java:55-84 | the fan-out over two runs of interfaces is the first run's destinations followed by the second's |
| Probe.DestinationsPrefix | bundles/binding/org.openhab.binding.maxcube/src/main/java/org/openhab/binding/maxcube/internal/MaxCubeDiscover.java:55-84 | the destinations of the first i interfaces are a prefix of the full destination list |
| Probe.AddressesTargetsSound | bundles/binding/org.openhab.binding.maxcube/src/main/java/org/openhab/binding/maxcube/internal/MaxCubeDiscover.java:62-69 | each destination of an address list comes from one of its addresses |
| Probe.AddressesTargetsComplete | bundles/binding/org.openhab.binding.maxcube/src/main/java/org/openhab/binding/maxcube/internal/MaxCubeDiscover.java:62-69 | each target of each address is a destination of the list |
| Probe.DestinationsSound | bundles/binding/org.openhab.binding.maxcube/src/main/java/org/openhab/binding/maxcube/internal/MaxCubeDiscover.java:54-84 | each destination of the fan-out comes from one of the interfaces |
| Probe.DestinationsComplete | bundles/binding/org.openhab.binding.maxcube/src/main/java/org/openhab/binding/maxcube/internal/MaxCubeDiscover.java:54-84 | each destination of each interface is probed |
| Probe.DestinationsMembership | bundles/binding/org.openhab.binding.maxcube/src/main/java/org/openhab/binding/maxcube/internal/MaxCubeDiscover.java:54-84 | an address is probed if and only if some address of some eligible interface yields it, as 224.0.0.1 or as its broadcast address |
| Probe.BroadcastCount | bundles/binding/org.openhab.binding.maxcube/src/main/java/org/openhab/binding/maxcube/internal/MaxCubeDiscover.java:65 | no more addresses have a broadcast address than there are addresses |
| Probe.AddressesTargetsCount | bundles/binding/org.openhab.binding.maxcube/src/main/java/org/openhab/binding/maxcube/internal/MaxCubeDiscover.java:62-69 | an address list yields one destination per address, plus one per broadcast address |
| Probe.DestinationsCount | bundles/binding/org.openhab.binding.maxcube/src/main/java/org/openhab/binding/maxcube/internal/MaxCubeDiscover.java:54-84 | the fan-out has exactly as many destinations as eligible addresses plus eligible broadcast addresses, so between one and two per eligible address |
| Reply.TrimStart | bundles/binding/org.openhab.binding.maxcube/src/main/java/org/openhab/binding/maxcube/internal/MaxCubeDiscover.java:101 | finds the first char above the space, with only padding before it |
| Reply.TrimEnd | bundles/binding/org.openhab.binding.maxcube/src/main/java/org/openhab/binding/maxcube/internal/MaxCubeDiscover.java:101 | finds the end of the last char above the space, with only padding after it |
| Reply.Trim | bundles/binding/org.openhab.binding.maxcube/src/main/java/org/openhab/binding/maxcube/internal/MaxCubeDiscover.java:101 | the result is a slice of the input with only padding outside it, and it neither starts nor ends with padding |
| Reply.TrimmedAtUnique | bundles/binding/org.openhab.binding.maxcube/src/main/java/org/openhab/binding/maxcube/internal/MaxCubeDiscover.java:101 | any slice with only padding outside it and no padding at its ends is what `Trim` returns |
| Reply.TrimIdempotent | bundles/binding/org.openhab.binding.maxcube/src/main/java/org/openhab/binding/maxcube/internal/MaxCubeDiscover.java:101 | trimming twice is trimming once |
| Reply.TrimIgnoresPadding | bundles/binding/org.openhab.binding.maxcube/src/main/java/org/openhab/binding/maxcube/internal/MaxCubeDiscover.java:101 | padding added before and after the text does not change what trimming gives |
| Reply.ReceiveBuffer | bundles/binding/org.openhab.binding.maxcube/src/main/java/org/openhab/binding/maxcube/internal/MaxCubeDiscover.java:93-101 | the decoded buffer is always 15000 chars: the datagram followed by padding, or the datagram cut at 15000 |
| Reply.ReceiveBufferTrim | bundles/binding/org.openhab.binding.maxcube/src/main/java/org/openhab/binding/maxcube/internal/MaxCubeDiscover.java:93-101 | the buffer's unused zero bytes never reach the trimmed message |
| Reply.CheckReply | bundles/binding/org.openhab.binding.maxcube/src/main/java/org/openhab/binding/maxcube/internal/MaxCubeDiscover.java:101-114 | a reply is a cube reply if and only if its trimmed text starts with `eQ3Max`; its fields are unreadable if and only if that text is shorter than 18 chars; otherwise the name is the 8 chars from 0 and the RF address the 10 chars from 8 |
| Reply.ReplyRoundTrip | bundles/binding/org.openhab.binding.maxcube/src/main/java/org/openhab/binding/maxcube/internal/MaxCubeDiscover.java:101-107 | a reply built from a name starting with `eQ3Max`, a 10-char RF address and any tail that does not end in padding reads back as that name and RF address |
| Reply.LeadingPaddingAccepted | bundles/binding/org.openhab.binding.maxcube/src/main/java/org/openhab/binding/maxcube/internal/MaxCubeDiscover.java:101-103 | padding in front of a reply does not change the verdict or the fields |
| Reply.ExampleReplyParsed | bundles/binding/org.openhab.binding.maxcube/src/main/java/org/openhab/binding/maxcube/internal/MaxCubeDiscover.java:101-107 | the datagram `eQ3Max01ABCDEFGHIJ` is a cube named `eQ3Max01` with RF address `ABCDEFGHIJ` |
| Reply.ShortReplyAccepted | bundles/binding/org.openhab.binding.maxcube/src/main/java/org/openhab/binding/maxcube/internal/MaxCubeDiscover.java:103-107 | the datagram `eQ3Max` alone passes the magic check, but its fields cannot be read |
| Reply.EmptyReplyRejected | bundles/binding/org.openhab.binding.maxcube/src/main/java/org/openhab/binding/maxcube/internal/MaxCubeDiscover.java:101-114 | an empty datagram leaves an all-zero buffer that trims to nothing and is rejected |
| Reply.ProbeEchoAccepted | bundles/binding/org.openhab.binding.maxcube/src/main/java/org/openhab/binding/maxcube/internal/MaxCubeDiscover.java:51-107 | the probe itself passes the reply check, as a cube named `eQ3Max*` plus NUL with RF address `**********` |
| Discovery.Host.constructor | bundles/binding/org.openhab.binding.maxcube/src/main/java/org/openhab/binding/maxcube/internal/MaxCubeDiscover.java:43-44 | both socket handles start null, nothing has been sent or received and no call has failed |
| Discovery.Host.OpenSendSocket | bundles/binding/org.openhab.binding.maxcube/src/main/java/org/openhab/binding/maxcube/internal/MaxCubeDiscover.java:48 | the send handle is open on success and still null on failure, which is logged as a fault; nothing else changes |
| Discovery.Host.EnableBroadcast | bundles/binding/org.openhab.binding.maxcube/src/main/java/org/openhab/binding/maxcube/internal/MaxCubeDiscover.java:49 | a refusal is logged as a fault; nothing else changes |
| Discovery.Host.GetNetworkInterfaces | bundles/binding/org.openhab.binding.maxcube/src/main/java/org/openhab/binding/maxcube/internal/MaxCubeDiscover.java:54 | on success, returns the host's interfaces, which are never an empty list; on failure a fault is logged, and a host with no interfaces always fails |
| Discovery.Host.IsLoopback | bundles/binding/org.openhab.binding.maxcube/src/main/java/org/openhab/binding/maxcube/internal/MaxCubeDiscover.java:58 | on success, returns the interface's loopback flag; on failure a fault is logged |
| Discovery.Host.IsUp | bundles/binding/org.openhab.binding.maxcube/src/main/java/org/openhab/binding/maxcube/internal/MaxCubeDiscover.java:58 | on success, returns the interface's up flag; on failure a fault is logged |
| Discovery.Host.Send | bundles/binding/org.openhab.binding.maxcube/src/main/java/org/openhab/binding/maxcube/internal/MaxCubeDiscover.java:71-72 | the datagram is logged as sent on an open socket, whether or not the send fails; a failed send is not a fault |
| Discovery.Host.CloseSendSocket | bundles/binding/org.openhab.binding.maxcube/src/main/java/org/openhab/binding/maxcube/internal/MaxCubeDiscover.java:87 | the send handle ends closed, also when it was closed already |
| Discovery.Host.BindReceiveSocket | bundles/binding/org.openhab.binding.maxcube/src/main/java/org/openhab/binding/maxcube/internal/MaxCubeDiscover.java:89 | the receive handle is open on success, noting whether the send socket was closed by then; on failure it stays null and a fault is logged |
| Discovery.Host.EnableReuseAddress | bundles/binding/org.openhab.binding.maxcube/src/main/java/org/openhab/binding/maxcube/internal/MaxCubeDiscover.java:90 | a refusal is logged as a fault; nothing else changes |
| Discovery.Host.Receive | bundles/binding/org.openhab.binding.maxcube/src/main/java/org/openhab/binding/maxcube/internal/MaxCubeDiscover.java:93-95 | on success the datagram that arrived is logged as received; on failure nothing is received and a fault is logged |
| Discovery.Host.CloseReceiveSocket | bundles/binding/org.openhab.binding.maxcube/src/main/java/org/openhab/binding/maxcube/internal/MaxCubeDiscover.java:122-125 | the receive handle ends closed |
| Discovery.Host.QueryEligible | bundles/binding/org.openhab.binding.maxcube/src/main/java/org/openhab/binding/maxcube/internal/MaxCubeDiscover.java:58-60 | returns no answer exactly when one query throws, and then exactly one fault is logged: the loopback query's, or the up query's for an interface that is not loopback (`isUp` is never asked of a loopback interface); otherwise the answer is whether the interface is up and not loopback |
| Discovery.Host.SendProbes | bundles/binding/org.openhab.binding.maxcube/src/main/java/org/openhab/binding/maxcube/internal/MaxCubeDiscover.java:53-84 | succeeds exactly when no interface query throws. The datagrams sent are the probes for the destinations of the interfaces reached, in order; on success every interface is reached, so the probes for the whole fan-out are sent. On failure the loop stopped at an interface it had not finished, before its probes, and exactly one query fault was logged, the up query's only for an interface that is not loopback |
| Discovery.Host.ProbeInterface | bundles/binding/org.openhab.binding.maxcube/src/main/java/org/openhab/binding/maxcube/internal/MaxCubeDiscover.java:56-83 | succeeds exactly when its queries do not throw. On success exactly the probes for the interface's destinations are sent (none for a skipped interface); on failure nothing is sent and exactly one query fault is logged, the up query's only when the interface is not loopback |
| Discovery.Host.ProbeAddresses | bundles/binding/org.openhab.binding.maxcube/src/main/java/org/openhab/binding/maxcube/internal/MaxCubeDiscover.java:62-83 | exactly the probes for every address's destinations are sent, in order, despite failed sends, and no fault is logged |
| Discovery.Host.ProbeAddress | bundles/binding/org.openhab.binding.maxcube/src/main/java/org/openhab/binding/maxcube/internal/MaxCubeDiscover.java:63-82 | exactly the probes for 224.0.0.1 and the broadcast address, if any, are sent, despite failed sends, and no fault is logged |
| Discovery.Host.Announce | bundles/binding/org.openhab.binding.maxcube/src/main/java/org/openhab/binding/maxcube/internal/MaxCubeDiscover.java:47-84 | stops at the first network call that throws and logs exactly that one fault: opening the socket (which then stays null), enabling broadcast, the enumeration (nothing sent in these three cases) or an interface query (the fan-out stopped short). With no fault the interface list was non-empty, the whole fan-out was sent and the send socket is open |
| Discovery.Host.AwaitReply | bundles/binding/org.openhab.binding.maxcube/src/main/java/org/openhab/binding/maxcube/internal/MaxCubeDiscover.java:86-116 | closes the send socket first, then stops at the first network call that throws and logs exactly that one fault: the bind (the receive socket stays null), the reuse option or the receive (the socket stays open). With no fault a reply was received; an address is returned if and only if its trimmed text starts with `eQ3Max`, and it is the reply's sender |
| Discovery.Host.Discover | bundles/binding/org.openhab.binding.maxcube/src/main/java/org/openhab/binding/maxcube/internal/MaxCubeDiscover.java:43-138 | both sockets end not open on every path. At most one fault is logged, and it is the returned `fault`. A reply is received if and only if no network call throws, and then the interface list was non-empty and the whole fan-out was sent. The send socket stays null only when opening it threw; a fault before the fan-out means nothing was sent, one inside it means the fan-out stopped short, and any later fault or none means it was complete. The receive socket is bound exactly when no fault or a fault after the bind occurred, and only after the send socket was closed. An address is returned if and only if a reply arrived whose trimmed text starts with `eQ3Max` (short replies included), and it is the reply's sender |
| Discovery.AbortedFanOutIsPrefix | bundles/binding/org.openhab.binding.maxcube/src/main/java/org/openhab/binding/maxcube/internal/MaxCubeDiscover.java:54-84 | the probes sent by a fan-out cut short by a failing query are a prefix of those the full fan-out sends |

## Left out

- Socket I/O is not modelled: sending and receiving datagrams, `setBroadcast`, `setReuseAddress`, binding and interface enumeration. Each is a `Host` method that succeeds or fails as the environment chooses; nothing checks what the OS does with a datagram.
- Discovery.Host.EnableBroadcast and Discovery.Host.EnableReuseAddress: only their possible failure is modelled, not the socket option they set.
- Name resolution is not modelled. `InetAddress.getByName("224.0.0.1")` is the constant `AllHostsMulticast`, and `getHostAddress()` formatting is left out. Addresses are opaque values, and the returned address stands for its textual form.
- Logging and `Utils.getStackTrace` are left out; they do not affect the result.
- Charset decoding is not modelled. Bytes are chars one for one, as in ASCII.
- Discovery.Host.Receive always returns. A run that blocks forever in the receive at MaxCubeDiscover.java:95, which has no timeout, is not modelled; the contracts describe only runs whose receive returns or throws.
- The run abstracts the interface enumeration as a list. An interface removed or changed while the run is iterating is not modelled.
- Discovery.Host.Discover: the name and RF address are not part of the result, because the Java method returns only the IP address. Their positions are stated on `Reply.CheckReply`.
