/**
 * Packets as their protocols lay them out, built field by field (as tests/packet_builders.py does),
 * and what each of them carries. `PacketsFound` shows that the walker finds exactly that.
 */
module Packets {
  import opened Bytes
  import opened Framewalk

  /** A VLAN tag: its ethertype and its control word. */
  datatype Tag = Tag(tpid: nat, tci: bytes)

  datatype Frame = Frame(dst: bytes, src: bytes, tags: seq<Tag>, net: Net)

  datatype Net =
    | Ip4(tos: byte, ident: bytes, frag: nat, ttl: byte, checksum: nat, src: bytes, dst: bytes,
          options: bytes, body: Body)
    | Ip6(flow: bytes, hops: byte, src: bytes, dst: bytes, extensions: seq<Extension>, body: Body)
    | Arp(hardware: bytes, operation: bytes, sender: bytes, senderIp: bytes, target: bytes, targetIp: bytes)
    | Mpls(labels: seq<bytes>, labelled: Net)
    | Pppoe(session: bytes, inside: Net)
    | OtherNet(etype: nat, payload: bytes)

  /** An IPv6 extension header, after its next-header byte. */
  datatype Extension = Extension(kind: byte, second: byte, data: bytes)

  /** A neighbour discovery option; its length counts eights. */
  datatype NdOption = NdOption(kind: byte, data: bytes)

  datatype Body =
    | TcpSegment(sport: nat, dport: nat, numbers: bytes, low: nat, flags: byte, window: bytes,
                 checksum: nat, urgent: bytes, options: bytes, payload: bytes)
    | UdpDatagram(sport: nat, dport: nat, checksum: nat, payload: bytes)
    | VxlanTunnel(sport: nat, checksum: nat, flags: byte, vni: bytes, inner: Frame)
    | GeneveTunnel(sport: nat, checksum: nat, version: nat, flags: byte, vni: bytes, geneveOptions: bytes,
                   carried: Carried)
    | IcmpMessage(kind: byte, code: byte, checksum: nat, rest: bytes, payload: bytes)
    | IcmpError(kind: byte, code: byte, checksum: nat, rest: bytes, quoted: Net)
    | Icmp6Message(kind: byte, code: byte, checksum: nat, rest: bytes, payload: bytes)
    | Icmp6Error(kind: byte, code: byte, checksum: nat, rest: bytes, quoted: Net)
    | Discovery(kind: byte, code: byte, checksum: nat, rest: bytes, own: bytes, choices: seq<NdOption>)
    | IpTunnel(quoted: Net)
    | GreTunnel(fields: GreFields, carried: Carried)
    | OtherBody(proto: byte, payload: bytes)

  /** The optional GRE fields: checksum and offset, key, sequence number. */
  datatype GreFields = GreFields(checked: bool, keyed: bool, numbered: bool, spare: nat, words: bytes)

  datatype Carried = Bridged(frame: Frame) | Routed(net: Net)

  // --- what goes on the wire ----------------------------------------------------------------

  function Two(v: nat): (r: bytes)
    requires v <= 0xFFFF
    ensures |r| == 2
  {
    [v / 256, v % 256]
  }

  function Ethertype(n: Net): nat {
    match n
    case Ip4(_, _, _, _, _, _, _, _, _) => ETH_IPV4
    case Ip6(_, _, _, _, _, _) => ETH_IPV6
    case Arp(_, _, _, _, _, _) => ETH_ARP
    case Mpls(_, _) => 0x8847
    case Pppoe(_, _) => ETH_PPPOE_SESSION
    case OtherNet(etype, _) => etype
  }

  function Protocol(b: Body): byte {
    match b
    case TcpSegment(_, _, _, _, _, _, _, _, _, _) => 6
    case UdpDatagram(_, _, _, _) => 17
    case VxlanTunnel(_, _, _, _, _) => 17
    case GeneveTunnel(_, _, _, _, _, _, _) => 17
    case IcmpMessage(_, _, _, _, _) => 1
    case IcmpError(_, _, _, _, _) => 1
    case Icmp6Message(_, _, _, _, _) => 58
    case Icmp6Error(_, _, _, _, _) => 58
    case Discovery(_, _, _, _, _, _) => 58
    case IpTunnel(quoted) => if quoted.Ip4? then 4 else 41
    case GreTunnel(_, _) => 47
    case OtherBody(proto, _) => proto
  }

  predicate KnownProtocol(p: byte) { p == 1 || p == 4 || p == 6 || p == 17 || p == 41 || p == 47 || p == 58 }

  predicate KnownEthertype(e: nat) {
    e in ETH_VLAN || e == ETH_IPV4 || e == ETH_IPV6 || e == ETH_ARP || e == ETH_RARP || e in ETH_MPLS
    || e == ETH_PPPOE_SESSION || e == ETH_TRANSPARENT_BRIDGING
  }

  /** The size a field must have. */
  predicate FrameFits(p: Frame)
    decreases p, 0
  {
    |p.dst| == 6 && |p.src| == 6 && TagsFit(p.tags) && NetFits(p.net)
  }

  predicate TagsFit(tags: seq<Tag>) {
    forall i :: 0 <= i < |tags| ==> tags[i].tpid in ETH_VLAN && |tags[i].tci| == 2
  }

  predicate NetFits(n: Net)
    decreases n, 0
  {
    match n
    case Ip4(_, ident, frag, _, checksum, src, dst, options, body) =>
      && |ident| == 2 && frag <= 0xFFFF && checksum <= 0xFFFF && |src| == 4 && |dst| == 4
      && |options| % 4 == 0 && |options| <= 40
      && BodyFits(body) && 20 + |options| + |BodyBytes(body)| <= 0xFFFF
    case Ip6(flow, _, src, dst, extensions, body) =>
      && |flow| == 4 && flow[0] / 16 == 6 && |src| == 16 && |dst| == 16 && ExtensionsFit(extensions)
      && BodyFits(body) && Protocol(body) !in IPV6_EXTENSIONS
      && |ExtensionBytes(extensions, Protocol(body))| + |BodyBytes(body)| <= 0xFFFF
    case Arp(hardware, operation, sender, senderIp, target, targetIp) =>
      |hardware| == 2 && |operation| == 2 && |sender| == 6 && |senderIp| == 4 && |target| == 6 && |targetIp| == 4
    case Mpls(labels, labelled) => LabelsFit(labels) && IsIp(labelled) && NetFits(labelled)
    case Pppoe(session, inside) => |session| == 6 && IsIp(inside) && NetFits(inside)
    case OtherNet(etype, _) => etype <= 0xFFFF && !KnownEthertype(etype)
  }

  predicate IsIp(n: Net) { n.Ip4? || n.Ip6? }

  /** Only the last label is marked as the bottom of the stack. */
  predicate LabelsFit(labels: seq<bytes>) {
    && |labels| > 0
    && forall i :: 0 <= i < |labels| ==> |labels[i]| == 4 && (labels[i][2] % 2 == 1 <==> i == |labels| - 1)
  }

  predicate OptionFits(o: NdOption) { (|o.data| + 2) % 8 == 0 && |o.data| + 2 <= 255 * 8 }

  predicate ChoicesFit(choices: seq<NdOption>) { forall i :: 0 <= i < |choices| ==> OptionFits(choices[i]) }

  /** What a discovery message holds before its options. */
  function FieldsSize(kind: byte): nat {
    if kind == 133 then 0 else if kind == 134 then 8 else if kind == 137 then 32 else 16
  }

  predicate ExtensionsFit(extensions: seq<Extension>) {
    forall i :: 0 <= i < |extensions| ==> ExtensionFits(extensions[i])
  }

  /** Its length byte gives its length: in words for an AH, in double words for the rest. */
  predicate ExtensionFits(e: Extension) {
    if e.kind == 44 then |e.data| == 6 && U16(e.data, 0) / 8 == 0
    else if e.kind == 51 then |e.data| + 2 == (e.second as int + 2) * 4
    else e.kind in IPV6_EXTENSIONS && |e.data| + 2 == (e.second as int + 1) * 8
  }

  predicate BodyFits(b: Body)
    decreases b, 0
  {
    match b
    case TcpSegment(sport, dport, numbers, low, _, window, checksum, urgent, options, _) =>
      && sport <= 0xFFFF && dport <= 0xFFFF && |numbers| == 8 && low < 16 && |window| == 2
      && checksum <= 0xFFFF && |urgent| == 2 && |options| % 4 == 0 && |options| <= 40
    case UdpDatagram(sport, dport, checksum, payload) =>
      && sport <= 0xFFFF && dport <= 0xFFFF && dport != VXLAN_PORT && dport != GENEVE_PORT
      && checksum <= 0xFFFF && 8 + |payload| <= 0xFFFF
    case VxlanTunnel(sport, checksum, flags, vni, inner) =>
      && sport <= 0xFFFF && checksum <= 0xFFFF && (flags / 8) % 2 == 1 && |vni| == 7
      && FrameFits(inner) && 16 + |FrameBytes(inner)| <= 0xFFFF
    case GeneveTunnel(sport, checksum, version, _, vni, options, carried) =>
      && sport <= 0xFFFF && checksum <= 0xFFFF && version < 4 && |vni| == 4
      && |options| % 4 == 0 && |options| / 4 < 64
      && CarriedFits(carried) && 16 + |options| + |CarriedBytes(carried)| <= 0xFFFF
    case IcmpMessage(kind, _, checksum, rest, _) =>
      checksum <= 0xFFFF && |rest| == 4 && kind !in ICMP_ERRORS
    case IcmpError(kind, _, checksum, rest, quoted) =>
      checksum <= 0xFFFF && |rest| == 4 && kind in ICMP_ERRORS && quoted.Ip4? && NetFits(quoted)
    case Icmp6Message(kind, _, checksum, rest, _) =>
      checksum <= 0xFFFF && |rest| == 4 && kind !in ICMPV6_ERRORS && !(133 <= kind <= 137)
    case Icmp6Error(kind, _, checksum, rest, quoted) =>
      checksum <= 0xFFFF && |rest| == 4 && kind in ICMPV6_ERRORS && quoted.Ip6? && NetFits(quoted)
    case Discovery(kind, _, checksum, rest, fields, choices) =>
      && checksum <= 0xFFFF && |rest| == 4 && 133 <= kind <= 137 && |fields| == FieldsSize(kind) && ChoicesFit(choices)
    case IpTunnel(quoted) => IsIp(quoted) && NetFits(quoted)
    case GreTunnel(fields, carried) => GreFits(fields) && CarriedFits(carried)
    case OtherBody(proto, _) => !KnownProtocol(proto)
  }

  predicate GreFits(g: GreFields) {
    && g.spare < 0x1000 && g.spare % 8 == 0
    && |g.words| == (if g.checked then 4 else 0) + (if g.keyed then 4 else 0) + (if g.numbered then 4 else 0)
  }

  predicate CarriedFits(c: Carried)
    decreases c, 0
  {
    match c
    case Bridged(frame) => FrameFits(frame)
    case Routed(net) => NetFits(net)
  }

  function FrameBytes(p: Frame): bytes
    requires FrameFits(p)
    decreases p, 2
  {
    p.dst + (p.src + TaggedBytes(p.tags, p.net))
  }

  /** The tags, the ethertype, and what it announces. */
  function TaggedBytes(tags: seq<Tag>, n: Net): bytes
    requires TagsFit(tags) && NetFits(n)
    decreases n, 3, |tags|
  {
    if |tags| == 0 then Two(Ethertype(n)) + NetBytes(n)
    else Two(tags[0].tpid) + (tags[0].tci + TaggedBytes(tags[1..], n))
  }

  function Ip4Header(n: Net): (r: bytes)
    requires n.Ip4? && NetFits(n)
    ensures |r| == 20 + |n.options|
    decreases n, 1
  {
    [0x45 + |n.options| / 4, n.tos] + Two(20 + |n.options| + |BodyBytes(n.body)|) + n.ident + Two(n.frag)
    + [n.ttl, Protocol(n.body)] + Two(n.checksum) + n.src + n.dst + n.options
  }

  function Ip6Header(n: Net): (r: bytes)
    requires n.Ip6? && NetFits(n)
    ensures |r| == 40
    decreases n, 1
  {
    n.flow + Two(|ExtensionBytes(n.extensions, Protocol(n.body))| + |BodyBytes(n.body)|)
    + [FirstHeader(n.extensions, Protocol(n.body)), n.hops] + n.src + n.dst
  }

  function FirstHeader(extensions: seq<Extension>, proto: byte): byte {
    if |extensions| == 0 then proto else extensions[0].kind
  }

  function ExtensionBytes(extensions: seq<Extension>, proto: byte): bytes
    decreases |extensions|
  {
    if |extensions| == 0 then []
    else [FirstHeader(extensions[1..], proto), extensions[0].second] + extensions[0].data
         + ExtensionBytes(extensions[1..], proto)
  }

  function NetBytes(n: Net): bytes
    requires NetFits(n)
    decreases n, 2
  {
    match n
    case Ip4(_, _, _, _, _, _, _, _, body) => Ip4Header(n) + BodyBytes(body)
    case Ip6(_, _, _, _, extensions, body) =>
      Ip6Header(n) + (ExtensionBytes(extensions, Protocol(body)) + BodyBytes(body))
    case Arp(hardware, operation, sender, senderIp, target, targetIp) =>
      hardware + Two(ETH_IPV4) + [6, 4] + operation + sender + senderIp + target + targetIp
    case Mpls(labels, labelled) => Concat(labels) + NetBytes(labelled)
    case Pppoe(session, inside) => session + Two(if inside.Ip4? then 0x0021 else 0x0057) + NetBytes(inside)
    case OtherNet(_, payload) => payload
  }

  function ChoiceBytes(choices: seq<NdOption>): bytes
    requires ChoicesFit(choices)
    decreases |choices|
  {
    if |choices| == 0 then []
    else [choices[0].kind, (|choices[0].data| + 2) / 8] + choices[0].data + ChoiceBytes(choices[1..])
  }

  function UdpHeader(sport: nat, dport: nat, length: nat, checksum: nat): (r: bytes)
    requires sport <= 0xFFFF && dport <= 0xFFFF && length <= 0xFFFF && checksum <= 0xFFFF
    ensures |r| == 8
  {
    Two(sport) + Two(dport) + Two(length) + Two(checksum)
  }

  function IcmpHeader(kind: byte, code: byte, checksum: nat, rest: bytes): (r: bytes)
    requires checksum <= 0xFFFF && |rest| == 4
    ensures |r| == 8
  {
    [kind, code] + Two(checksum) + rest
  }

  function GreFlags(g: GreFields): (r: nat)
    requires GreFits(g)
    ensures r <= 0xFFFF
  {
    (if g.checked then 0x8000 else 0) + (if g.keyed then 0x2000 else 0) + (if g.numbered then 0x1000 else 0)
    + g.spare
  }

  function BodyBytes(b: Body): bytes
    requires BodyFits(b)
    decreases b, 2
  {
    match b
    case TcpSegment(sport, dport, numbers, low, flags, window, checksum, urgent, options, payload) =>
      Two(sport) + Two(dport) + numbers + [0x50 + |options| / 4 * 16 + low, flags] + window + Two(checksum)
      + urgent + options + payload
    case UdpDatagram(sport, dport, checksum, payload) =>
      UdpHeader(sport, dport, 8 + |payload|, checksum) + payload
    case VxlanTunnel(sport, checksum, flags, vni, inner) =>
      UdpHeader(sport, VXLAN_PORT, 16 + |FrameBytes(inner)|, checksum) + ([flags] + vni + FrameBytes(inner))
    case GeneveTunnel(sport, checksum, version, flags, vni, options, carried) =>
      UdpHeader(sport, GENEVE_PORT, 16 + |options| + |CarriedBytes(carried)|, checksum)
      + ([version * 64 + |options| / 4, flags] + Two(CarriedType(carried)) + vni + options + CarriedBytes(carried))
    case IcmpMessage(kind, code, checksum, rest, payload) => IcmpHeader(kind, code, checksum, rest) + payload
    case IcmpError(kind, code, checksum, rest, quoted) => IcmpHeader(kind, code, checksum, rest) + NetBytes(quoted)
    case Icmp6Message(kind, code, checksum, rest, payload) => IcmpHeader(kind, code, checksum, rest) + payload
    case Icmp6Error(kind, code, checksum, rest, quoted) => IcmpHeader(kind, code, checksum, rest) + NetBytes(quoted)
    case Discovery(kind, code, checksum, rest, fields, choices) =>
      IcmpHeader(kind, code, checksum, rest) + (fields + ChoiceBytes(choices))
    case IpTunnel(quoted) => NetBytes(quoted)
    case GreTunnel(fields, carried) =>
      Two(GreFlags(fields)) + Two(CarriedType(carried)) + fields.words + CarriedBytes(carried)
    case OtherBody(_, payload) => payload
  }

  function CarriedType(c: Carried): (r: nat)
    requires CarriedFits(c)
    ensures r <= 0xFFFF
    decreases c, 1
  {
    match c
    case Bridged(_) => ETH_TRANSPARENT_BRIDGING
    case Routed(net) => assert NetFits(net) && (net.OtherNet? ==> net.etype <= 0xFFFF); Ethertype(net)
  }

  function CarriedBytes(c: Carried): bytes
    requires CarriedFits(c)
    decreases c, 2
  {
    match c
    case Bridged(frame) => FrameBytes(frame)
    case Routed(net) => NetBytes(net)
  }

  // --- what a packet carries ------------------------------------------------------------------

  /** A checksummed stretch of bytes: where in it the checksum is, and the pseudo-header addresses. */
  datatype Check = Check(segment: bytes, at: int, pseudo: bytes)

  /** Addresses and checksums from the outside in, and the innermost transport header's ports. */
  datatype Carries = Carries(addresses: seq<(Kind, bytes)>, checks: seq<Check>, transport: Transport := NoTransport)

  const NOTHING := Carries([], [])

  function And(a: Carries, b: Carries): Carries {
    Carries(a.addresses + b.addresses, a.checks + b.checks,
            if b.transport == NoTransport then a.transport else b.transport)
  }

  function FrameCarries(p: Frame): Carries
    requires FrameFits(p)
    decreases p, 2
  {
    And(Carries([(Mac, p.dst), (Mac, p.src)], []), NetCarries(p.net))
  }

  function NetCarries(n: Net): Carries
    requires NetFits(n)
    decreases n, 2
  {
    match n
    case Ip4(_, _, frag, _, _, src, dst, _, body) =>
      And(Carries([(V4, src), (V4, dst)], [Check(Ip4Header(n), 10, [])]),
          if frag % 0x2000 != 0 then NOTHING else BodyCarries(body, src + dst, true))
    case Ip6(_, _, src, dst, _, body) =>
      And(Carries([(V6, src), (V6, dst)], []), BodyCarries(body, src + dst, false))
    case Arp(_, _, sender, senderIp, target, targetIp) =>
      Carries([(Mac, sender), (V4, senderIp), (Mac, target), (V4, targetIp)], [])
    case Mpls(_, labelled) => NetCarries(labelled)
    case Pppoe(_, inside) => NetCarries(inside)
    case OtherNet(_, _) => NOTHING
  }

  /** The addresses in a discovery message's fields. */
  function FieldsCarry(kind: byte, fields: bytes): seq<(Kind, bytes)>
    requires |fields| == FieldsSize(kind)
  {
    if kind == 135 || kind == 136 then [(V6, fields)]
    else if kind == 137 then [(V6, fields[..16]), (V6, fields[16..])]
    else []
  }

  /** And in its options: link-layer addresses, and prefixes. */
  function ChoicesCarry(choices: seq<NdOption>): seq<(Kind, bytes)>
    requires ChoicesFit(choices)
    decreases |choices|
  {
    if |choices| == 0 then []
    else
      var o := choices[0];
      (if o.kind == 1 || o.kind == 2 then [(Mac, o.data[..6])]
       else if o.kind == 3 && |o.data| >= 30 then [(V6, o.data[14..30])] else [])
      + ChoicesCarry(choices[1..])
  }

  function BodyCarries(b: Body, pseudo: bytes, ipv4: bool): Carries
    requires BodyFits(b)
    decreases b, 2
  {
    match b
    case TcpSegment(_, _, _, _, _, _, _, _, _, _) =>
      Carries([], [Check(BodyBytes(b), 16, pseudo)], Tcp(b.sport, b.dport))
    case UdpDatagram(_, _, checksum, _) => UdpCheck(b, checksum, pseudo, ipv4)
    case VxlanTunnel(_, checksum, _, _, inner) => And(UdpCheck(b, checksum, pseudo, ipv4), FrameCarries(inner))
    case GeneveTunnel(_, checksum, _, _, _, _, carried) =>
      And(UdpCheck(b, checksum, pseudo, ipv4), CarriedCarries(carried))
    case IcmpMessage(_, _, _, _, _) => Carries([], [Check(BodyBytes(b), 2, [])], Icmp)
    case IcmpError(_, _, _, _, quoted) => And(Carries([], [Check(BodyBytes(b), 2, [])], Icmp), NetCarries(quoted))
    case Icmp6Message(_, _, _, _, _) => Carries([], [Check(BodyBytes(b), 2, pseudo)], Icmpv6)
    case Icmp6Error(_, _, _, _, quoted) =>
      And(Carries([], [Check(BodyBytes(b), 2, pseudo)], Icmpv6), NetCarries(quoted))
    case Discovery(kind, _, _, _, fields, choices) =>
      Carries(FieldsCarry(kind, fields) + ChoicesCarry(choices), [Check(BodyBytes(b), 2, pseudo)], Icmpv6)
    case IpTunnel(quoted) => NetCarries(quoted)
    case GreTunnel(fields, carried) =>
      And(Carries([], if fields.checked then [Check(BodyBytes(b), 4, [])] else []), CarriedCarries(carried))
    case OtherBody(_, _) => NOTHING
  }

  function UdpPorts(b: Body): Transport {
    match b
    case UdpDatagram(sport, dport, _, _) => Udp(sport, dport)
    case VxlanTunnel(sport, _, _, _, _) => Udp(sport, VXLAN_PORT)
    case GeneveTunnel(sport, _, _, _, _, _, _) => Udp(sport, GENEVE_PORT)
    case _ => NoTransport
  }

  /** Over IPv4 a UDP checksum of zero is none. */
  function UdpCheck(b: Body, checksum: nat, pseudo: bytes, ipv4: bool): Carries
    requires BodyFits(b)
    decreases b, 3
  {
    Carries([], if ipv4 && checksum == 0 then [] else [Check(BodyBytes(b), 6, pseudo)], UdpPorts(b))
  }

  function CarriedCarries(c: Carried): Carries
    requires CarriedFits(c)
    decreases c, 2
  {
    match c
    case Bridged(frame) => FrameCarries(frame)
    case Routed(net) => NetCarries(net)
  }

  /** The innermost bytes that are no header. */
  function FramePayload(p: Frame): bytes
    requires FrameFits(p)
    decreases p, 2
  {
    NetPayload(p.net)
  }

  function NetPayload(n: Net): bytes
    requires NetFits(n)
    decreases n, 2
  {
    match n
    case Ip4(_, _, frag, _, _, _, _, _, body) => if frag % 0x2000 != 0 then BodyBytes(body) else BodyPayload(body)
    case Ip6(_, _, _, _, _, body) => BodyPayload(body)
    case Arp(_, _, _, _, _, _) => []
    case Mpls(_, labelled) => NetPayload(labelled)
    case Pppoe(_, inside) => NetPayload(inside)
    case OtherNet(_, payload) => payload
  }

  function BodyPayload(b: Body): bytes
    requires BodyFits(b)
    decreases b, 2
  {
    match b
    case TcpSegment(_, _, _, _, _, _, _, _, _, payload) => payload
    case UdpDatagram(_, _, _, payload) => payload
    case VxlanTunnel(_, _, _, _, inner) => FramePayload(inner)
    case GeneveTunnel(_, _, _, _, _, _, carried) => CarriedPayload(carried)
    case IcmpMessage(_, _, _, _, payload) => payload
    case IcmpError(_, _, _, _, quoted) => NetPayload(quoted)
    case Icmp6Message(_, _, _, _, payload) => payload
    case Icmp6Error(_, _, _, _, quoted) => NetPayload(quoted)
    case Discovery(_, _, _, _, fields, choices) => fields + ChoiceBytes(choices)
    case IpTunnel(quoted) => NetPayload(quoted)
    case GreTunnel(_, carried) => CarriedPayload(carried)
    case OtherBody(_, payload) => payload
  }

  function CarriedPayload(c: Carried): bytes
    requires CarriedFits(c)
    decreases c, 2
  {
    match c
    case Bridged(frame) => FramePayload(frame)
    case Routed(net) => NetPayload(net)
  }

  /** How many tunnels deep it goes. */
  function FrameDepth(p: Frame): nat
    decreases p, 1
  {
    NetDepth(p.net)
  }

  function NetDepth(n: Net): nat
    decreases n, 1
  {
    match n
    case Ip4(_, _, _, _, _, _, _, _, body) => BodyDepth(body)
    case Ip6(_, _, _, _, _, body) => BodyDepth(body)
    case Mpls(_, labelled) => NetDepth(labelled)
    case Pppoe(_, inside) => NetDepth(inside)
    case _ => 0
  }

  function BodyDepth(b: Body): nat
    decreases b, 1
  {
    match b
    case VxlanTunnel(_, _, _, _, inner) => 1 + FrameDepth(inner)
    case GeneveTunnel(_, _, _, _, _, _, carried) => 1 + CarriedDepth(carried)
    case IcmpError(_, _, _, _, quoted) => 1 + NetDepth(quoted)
    case Icmp6Error(_, _, _, _, quoted) => 1 + NetDepth(quoted)
    case IpTunnel(quoted) => 1 + NetDepth(quoted)
    case GreTunnel(_, carried) => 1 + CarriedDepth(carried)
    case _ => 0
  }

  function CarriedDepth(c: Carried): nat
    decreases c, 1
  {
    match c
    case Bridged(frame) => FrameDepth(frame)
    case Routed(net) => NetDepth(net)
  }
}
