/** The header walker: one object that appends to its finds as it descends a frame. */
module Walker {
  import opened Bytes
  import opened Checksums
  import opened Framewalk

  class HeaderWalker {
    const f: bytes
    var addresses: seq<(nat, Kind)>
    var scopes: seq<Scope>
    var payloadStart: nat
    var transport: Transport

    constructor (frame: bytes)
      ensures f == frame && Found() == EMPTY
    {
      f := frame;
      addresses, scopes, payloadStart, transport := [], [], 0, NoTransport;
    }

    function Found(): Layout
      reads this
    {
      Layout(addresses, scopes, payloadStart, transport)
    }

    method Address(off: nat, k: Kind)
      modifies this
      ensures Found() == WithAddress(f, old(Found()), off, k)
    {
      if Has(f, off, Size(k)) {
        addresses := addresses + [(off, k)];
      }
    }

    method EndHeader(off: nat)
      modifies this
      ensures Found() == HeaderEnd(f, old(Found()), off)
    {
      payloadStart := Min(off, |f|);
    }

    method AddScope(s: Scope)
      modifies this
      ensures Found() == WithScope(f, old(Found()), s)
    {
      scopes := scopes + [s];
    }

    // --- link layer ---

    method Link(linktype: int)
      requires Found() == EMPTY
      modifies this
      ensures Found() == Walk(f, linktype)
    {
      if linktype == 1 {
        EthernetHeader(0, 0);
      } else if linktype == 113 {
        SllHeader();
      } else if linktype == 276 {
        Sll2Header();
      } else if linktype in {12, 14, 101} {
        RawIpPacket(0, 0);
      } else if linktype in {0, 108} {
        LoopbackHeader(linktype);
      }
    }

    method EthernetHeader(off: nat, depth: nat)
      modifies this
      ensures Found() == Ethernet(f, old(Found()), off, depth)
      decreases Levels(depth), 6, 0
    {
      hide Good, Placed, Ethertype, HeaderEnd, WithAddress;
      if depth > MAX_DEPTH || !Has(f, off, 14) { return; }
      Address(off, Mac);
      Address(off + 6, Mac);
      EndHeader(off + 14);
      EtherPayload(U16(f, off + 12), off + 14, depth);
    }

    method SllHeader()
      modifies this
      ensures Found() == Sll(f, old(Found()))
    {
      if !Has(f, 0, 16) { return; }
      if U16(f, 4) == 6 { Address(6, Mac); }
      EndHeader(16);
      EtherPayload(U16(f, 14), 16, 0);
    }

    method Sll2Header()
      modifies this
      ensures Found() == Sll2(f, old(Found()))
    {
      if !Has(f, 0, 20) { return; }
      if f[11] == 6 { Address(12, Mac); }
      EndHeader(20);
      EtherPayload(U16(f, 0), 20, 0);
    }

    method LoopbackHeader(linktype: int)
      modifies this
      ensures Found() == Loopback(f, old(Found()), linktype)
    {
      if !Has(f, 0, 4) { return; }
      var families := Families(f, linktype);
      EndHeader(4);
      if 2 in families {
        Ipv4Packet(4, 0);
      } else if exists family :: family in families && family in {10, 24, 28, 30} {
        Ipv6Packet(4, 0);
      }
    }

    method RawIpPacket(off: nat, depth: nat)
      modifies this
      ensures Found() == RawIp(f, old(Found()), off, depth)
      decreases Levels(depth), 3, 0
    {
      if !Has(f, off, 1) { return; }
      var version := f[off] / 16;
      if version == 4 {
        Ipv4Packet(off, depth);
      } else if version == 6 {
        Ipv6Packet(off, depth);
      }
    }

    method EtherPayload(etherType: nat, offset: nat, depth: nat)
      modifies this
      ensures Found() == Ethertype(f, old(Found()), etherType, offset, depth)
      decreases Levels(depth), 5, 0
    {
      hide Good, Placed, Ipv4, Ipv6, Arp, Mpls, Pppoe, HeaderEnd;
      var etype, off := etherType, offset;
      while etype in ETH_VLAN && Has(f, off, 4)
        invariant Ethertype(f, Found(), etype, off, depth) == Ethertype(f, old(Found()), etherType, offset, depth)
        decreases Left(f, off)
      {
        etype := U16(f, off + 2);
        off := off + 4;
        EndHeader(off);
      }
      if etype == ETH_IPV4 {
        Ipv4Packet(off, depth);
      } else if etype == ETH_IPV6 {
        Ipv6Packet(off, depth);
      } else if etype in {ETH_ARP, ETH_RARP} {
        ArpMessage(off);
      } else if etype in ETH_MPLS {
        MplsStack(off, depth);
      } else if etype == ETH_PPPOE_SESSION {
        PppoeSession(off, depth);
      }
    }

    method MplsStack(offset: nat, depth: nat)
      modifies this
      ensures Found() == Mpls(f, old(Found()), offset, depth)
      decreases Levels(depth), 4, 0
    {
      hide Good, Placed, RawIp, HeaderEnd;
      var off := offset;
      while Has(f, off, 4)
        invariant Mpls(f, Found(), off, depth) == Mpls(f, old(Found()), offset, depth)
        decreases Left(f, off)
      {
        var bottom := f[off + 2] % 2;
        off := off + 4;
        EndHeader(off);
        if bottom == 1 {
          RawIpPacket(off, depth);
          return;
        }
      }
    }

    method PppoeSession(off: nat, depth: nat)
      modifies this
      ensures Found() == Pppoe(f, old(Found()), off, depth)
      decreases Levels(depth), 4, 0
    {
      hide Good, Placed, Ipv4, Ipv6, HeaderEnd;
      if !Has(f, off, 8) { return; }
      var protocol := U16(f, off + 6);
      EndHeader(off + 8);
      if protocol == 0x0021 {
        Ipv4Packet(off + 8, depth);
      } else if protocol == 0x0057 {
        Ipv6Packet(off + 8, depth);
      }
    }

    method ArpMessage(off: nat)
      modifies this
      ensures Found() == Arp(f, old(Found()), off)
    {
      hide Good, Placed, HeaderEnd, WithAddress;
      if !Has(f, off, 8) { return; }
      var hlen: nat, plen: nat := f[off + 4], f[off + 5];
      EndHeader(off + 8 + 2 * (hlen + plen));
      if hlen != 6 || plen != 4 || U16(f, off + 2) != ETH_IPV4 { return; }
      Address(off + 8, Mac);
      Address(off + 14, V4);
      Address(off + 18, Mac);
      Address(off + 24, V4);
      ghost var ends, l := off + 8 + 2 * (hlen + plen), old(Found());
      ghost var l1 := WithAddress(f, l, off + 8, Mac);
      ghost var l2 := WithAddress(f, l1, off + 14, V4);
      ghost var l3 := WithAddress(f, l2, off + 18, Mac);
      HeaderEndThenAddress(f, l, ends, off + 8, Mac);
      HeaderEndThenAddress(f, l1, ends, off + 14, V4);
      HeaderEndThenAddress(f, l2, ends, off + 18, Mac);
      HeaderEndThenAddress(f, l3, ends, off + 24, V4);
    }

    // --- network layer ---

    method Ipv4Packet(off: nat, depth: nat)
      modifies this
      ensures Found() == Ipv4(f, old(Found()), off, depth)
      decreases Levels(depth), 2, 0
    {
      hide Good, Placed, TransportLayer, HeaderEnd, WithScope, WithAddress;
      if depth > MAX_DEPTH || !Has(f, off, 20) || f[off] / 16 != 4 { return; }
      var ihl := HeaderLength(f, off);
      if ihl < 20 { return; }
      var total := U16(f, off + 2);
      var end := if total >= ihl then Min(off + total, |f|) else |f|;
      Address(off + 12, V4);
      Address(off + 16, V4);
      var own := Scope(off + 10, off, off + ihl, []);
      if Has(f, off, ihl) {
        AddScope(own);
        ScopeThenAddress(f, old(Found()), own, off + 12, V4);
        ScopeThenAddress(f, WithAddress(f, old(Found()), off + 12, V4), own, off + 16, V4);
      }
      EndHeader(off + ihl);
      assert Found() == Ipv4Header(f, old(Found()), off) && end == Ipv4End(f, off);
      hide Ipv4Header, Ipv4End;
      if U16(f, off + 6) % 0x2000 != 0 { return; }
      var pseudo: seq<(nat, nat)> := [(off + 12, 4), (off + 16, 4)];
      Payload(f[off + 9], off + ihl, end, pseudo, depth, true);
    }

    method Ipv6Packet(off: nat, depth: nat)
      modifies this
      ensures Found() == Ipv6(f, old(Found()), off, depth)
      decreases Levels(depth), 2, 0
    {
      hide Good, Placed, TransportLayer, HeaderEnd, WithAddress;
      if depth > MAX_DEPTH || !Has(f, off, 40) || f[off] / 16 != 6 { return; }
      var payload := U16(f, off + 4);
      var end := if payload != 0 then Min(off + 40 + payload, |f|) else |f|;
      Address(off + 8, V6);
      Address(off + 24, V6);
      var next: nat, cur: nat := f[off + 6], off + 40;
      EndHeader(cur);
      ghost var all := SkipExtensions(f, Found(), next, cur);
      while next in IPV6_EXTENSIONS
        invariant SkipExtensions(f, Found(), next, cur) == all
        decreases Left(f, cur)
      {
        if next == 44 {
          if !Has(f, cur, 8) { return; }
          var fragmentOffset := U16(f, cur + 2) / 8;
          next := f[cur];
          cur := cur + 8;
          EndHeader(cur);
          if fragmentOffset != 0 { return; }
        } else {
          if !Has(f, cur, 2) { return; }
          var length: nat := if next == 51 then (f[cur + 1] as int + 2) * 4 else (f[cur + 1] as int + 1) * 8;
          next := f[cur];
          cur := cur + length;
          EndHeader(cur);
        }
      }
      var pseudo: seq<(nat, nat)> := [(off + 8, 16), (off + 24, 16)];
      Payload(next, cur, end, pseudo, depth, false);
    }

    // --- transport and tunnels ---

    method Payload(proto: nat, off: nat, end: nat, pseudo: seq<(nat, nat)>, depth: nat, ipv4: bool)
      requires depth <= MAX_DEPTH
      modifies this
      ensures Found() == TransportLayer(f, old(Found()), proto, off, end, pseudo, depth, ipv4)
      decreases Levels(depth), 1, 0
    {
      if proto == 6 {
        TcpSegment(off, end, pseudo);
      } else if proto == 17 {
        UdpDatagram(off, end, pseudo, depth, ipv4);
      } else if proto == 1 {
        IcmpMessage(off, end, depth);
      } else if proto == 58 {
        Icmpv6Message(off, end, pseudo, depth);
      } else if proto == 4 {
        Ipv4Packet(off, depth + 1);
      } else if proto == 41 {
        Ipv6Packet(off, depth + 1);
      } else if proto == 47 {
        GrePacket(off, end, depth);
      }
    }

    method TcpSegment(off: nat, end: nat, pseudo: seq<(nat, nat)>)
      modifies this
      ensures Found() == TcpHeader(f, old(Found()), off, end, pseudo)
    {
      if !Has(f, off, 20) { return; }
      AddScope(Scope(off + 16, off, end, pseudo));
      EndHeader(off + Max((f[off + 12] / 16) as int * 4, 20));
      transport := Tcp(U16(f, off), U16(f, off + 2));
    }

    method UdpDatagram(off: nat, end: nat, pseudo: seq<(nat, nat)>, depth: nat, ipv4: bool)
      requires depth <= MAX_DEPTH
      modifies this
      ensures Found() == UdpHeader(f, old(Found()), off, end, pseudo, depth, ipv4)
      decreases Levels(depth), 0, 0
    {
      hide Good, Placed, Ethernet, Ethertype, HeaderEnd, WithScope;
      if !Has(f, off, 8) { return; }
      if !(ipv4 && U16(f, off + 6) == 0) {
        AddScope(Scope(off + 6, off, end, pseudo));
      }
      EndHeader(off + 8);
      var sport, dport := U16(f, off), U16(f, off + 2);
      transport := Udp(sport, dport);
      if dport == VXLAN_PORT && Has(f, off + 8, 8) && f[off + 8] / 8 % 2 == 1 {
        EndHeader(off + 16);
        EthernetHeader(off + 16, depth + 1);
      } else if dport == GENEVE_PORT && Has(f, off + 8, 8) {
        var inner := off + 16 + (f[off + 8] % 64) as int * 4;
        EndHeader(inner);
        var protocol := U16(f, off + 10);
        if protocol == ETH_TRANSPARENT_BRIDGING {
          EthernetHeader(inner, depth + 1);
        } else {
          EtherPayload(protocol, inner, depth + 1);
        }
      }
    }

    method IcmpMessage(off: nat, end: nat, depth: nat)
      requires depth <= MAX_DEPTH
      modifies this
      ensures Found() == IcmpHeader(f, old(Found()), off, end, depth)
      decreases Levels(depth), 0, 0
    {
      hide Good, Placed, Ipv4, HeaderEnd, WithScope;
      if !Has(f, off, 8) { return; }
      AddScope(Scope(off + 2, off, end, []));
      EndHeader(off + 8);
      transport := Icmp;
      if f[off] in ICMP_ERRORS {
        Ipv4Packet(off + 8, depth + 1);
      }
    }

    method Icmpv6Message(off: nat, end: nat, pseudo: seq<(nat, nat)>, depth: nat)
      requires depth <= MAX_DEPTH
      modifies this
      ensures Found() == Icmpv6Header(f, old(Found()), off, end, pseudo, depth)
      decreases Levels(depth), 0, 0
    {
      hide Good, Placed, Ipv6, HeaderEnd, WithScope, WithAddress, NdOptions;
      if !Has(f, off, 8) { return; }
      AddScope(Scope(off + 2, off, end, pseudo));
      EndHeader(off + 8);
      transport := Icmpv6;
      var kind := f[off];
      if kind in ICMPV6_ERRORS {
        Ipv6Packet(off + 8, depth + 1);
      } else if kind == 133 {
        NdOptionList(off + 8, end);
      } else if kind == 134 {
        NdOptionList(off + 16, end);
      } else if kind == 135 || kind == 136 {
        Address(off + 8, V6);
        NdOptionList(off + 24, end);
      } else if kind == 137 {
        Address(off + 8, V6);
        Address(off + 24, V6);
        NdOptionList(off + 40, end);
      }
    }

    method NdOptionList(start: nat, end: nat)
      modifies this
      ensures Found() == NdOptions(f, old(Found()), start, end)
    {
      hide Good, Placed, WithAddress;
      var cur: nat := start;
      while cur + 2 <= end && Has(f, cur, 2)
        invariant NdOptions(f, Found(), cur, end) == NdOptions(f, old(Found()), start, end)
        decreases Left(f, cur)
      {
        var kind, length: nat := f[cur], f[cur + 1] as int * 8;
        if length == 0 { return; }
        if kind in {1, 2} && length >= 8 {
          Address(cur + 2, Mac);
        } else if kind == 3 && length >= 32 {
          Address(cur + 16, V6);
        }
        cur := cur + length;
      }
    }

    method GrePacket(off: nat, end: nat, depth: nat)
      requires depth <= MAX_DEPTH
      modifies this
      ensures Found() == Gre(f, old(Found()), off, end, depth)
      decreases Levels(depth), 0, 0
    {
      hide Good, Placed, Ethernet, Ethertype, HeaderEnd, WithScope;
      if !Has(f, off, 4) { return; }
      var flags := U16(f, off);
      if flags % 8 != 0 { return; }
      var cur: nat := off + 4;
      if flags / 0x8000 % 2 == 1 {
        if Has(f, off + 4, 2) {
          AddScope(Scope(off + 4, off, end, []));
        }
        cur := cur + 4;
      }
      if flags / 0x2000 % 2 == 1 { cur := cur + 4; }
      if flags / 0x1000 % 2 == 1 { cur := cur + 4; }
      EndHeader(cur);
      var protocol := U16(f, off + 2);
      if protocol == ETH_TRANSPARENT_BRIDGING {
        EthernetHeader(cur, depth + 1);
      } else {
        EtherPayload(protocol, cur, depth + 1);
      }
    }
  }

  /** `walk`: the layout of a frame, or nothing for a link type the walker does not know. */
  method WalkFrame(f: bytes, linktype: int) returns (known: bool, l: Layout)
    ensures known <==> linktype in LINKTYPES
    ensures l == if known then Walk(f, linktype) else EMPTY
    ensures Placed(|f|, l)
  {
    if linktype !in LINKTYPES { return false, EMPTY; }
    var walker := new HeaderWalker(f);
    walker.Link(linktype);
    return true, walker.Found();
  }
}
