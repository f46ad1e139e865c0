/**
 * The walker finds what is there: for a packet built as its protocols say, at any nesting the
 * walker descends to, its finds read back as the packet's own addresses, checksums and payload.
 */
module PacketsFound {
  import opened Bytes
  import opened Checksums
  import opened Packets
  import W = Framewalk

  // --- reading a layout back ----------------------------------------------------------------

  predicate At(f: bytes, off: nat, b: bytes) { off + |b| <= |f| && f[off..off + |b|] == b }

  function ReadAddress(f: bytes, a: (nat, W.Kind)): (W.Kind, bytes) { (a.1, Slice(f, a.0, a.0 + W.Size(a.1))) }

  function ReadCheck(f: bytes, s: Scope): Check {
    Check(Slice(f, s.start, s.end), s.at - s.start, PseudoBytes(f, s.pseudo))
  }

  function Report(f: bytes, l: W.Layout): Carries {
    Carries(seq(|l.addresses|, i requires 0 <= i < |l.addresses| => ReadAddress(f, l.addresses[i])),
            seq(|l.scopes|, i requires 0 <= i < |l.scopes| => ReadCheck(f, l.scopes[i])),
            l.transport)
  }

  /** From `l` to `r`, the walker has found just these, and now stands at the payload. */
  predicate Found(f: bytes, l: W.Layout, r: W.Layout, c: Carries, payload: bytes) {
    Report(f, r) == And(Report(f, l), c) && At(f, r.payloadStart, payload)
  }

  lemma AtParts(f: bytes, off: nat, a: bytes, b: bytes)
    requires At(f, off, a + b)
    ensures At(f, off, a) && At(f, off + |a|, b)
  {
    assert f[off..off + |a|] == (a + b)[..|a|];
    assert f[off + |a|..off + |a| + |b|] == (a + b)[|a|..];
  }

  lemma AtByte(f: bytes, off: nat, b: bytes)
    requires At(f, off, b)
    ensures forall i :: 0 <= i < |b| ==> f[off + i] == b[i]
  {
    forall i | 0 <= i < |b| ensures f[off + i] == b[i] {
      assert f[off..off + |b|][i] == b[i];
    }
  }

  lemma AtTwo(f: bytes, off: nat, v: nat)
    requires v <= 0xFFFF && At(f, off, Two(v))
    ensures U16(f, off) == v
  {
    AtByte(f, off, Two(v));
    assert f[off + 0] == v / 256 && f[off + 1] == v % 256;
  }

  lemma AtSlice(f: bytes, off: nat, b: bytes)
    requires At(f, off, b)
    ensures Slice(f, off, off + |b|) == b
  {
  }

  lemma AndIsAssociative(a: Carries, b: Carries, c: Carries)
    ensures And(And(a, b), c) == And(a, And(b, c))
    ensures And(a, NOTHING) == a && And(NOTHING, a) == a
  {
  }

  lemma AddressFound(f: bytes, l: W.Layout, off: nat, k: W.Kind, text: bytes)
    requires At(f, off, text) && |text| == W.Size(k)
    ensures Report(f, W.WithAddress(f, l, off, k)) == And(Report(f, l), Carries([(k, text)], []))
  {
    AtSlice(f, off, text);
    assert ReadAddress(f, (off, k)) == (k, text);
  }

  lemma ScopeFound(f: bytes, l: W.Layout, s: Scope)
    ensures Report(f, W.WithScope(f, l, s)) == And(Report(f, l), Carries([], [ReadCheck(f, s)]))
  {
  }

  lemma HeaderEndFound(f: bytes, l: W.Layout, off: nat)
    ensures Report(f, W.HeaderEnd(f, l, off)) == Report(f, l)
    ensures off <= |f| ==> W.HeaderEnd(f, l, off).payloadStart == off
  {
  }

  // --- IPv4 ---------------------------------------------------------------------------------

  lemma Ip4Fields(f: bytes, off: nat, n: Net)
    requires n.Ip4? && NetFits(n) && At(f, off, NetBytes(n))
    ensures BodyFits(n.body) && At(f, off, Ip4Header(n)) && At(f, off + 20 + |n.options|, BodyBytes(n.body))
    ensures W.Has(f, off, 20) && f[off] / 16 == 4 && W.HeaderLength(f, off) == 20 + |n.options|
    ensures U16(f, off + 2) == 20 + |n.options| + |BodyBytes(n.body)| && U16(f, off + 6) == n.frag
    ensures f[off + 9] == Protocol(n.body) && At(f, off + 12, n.src) && At(f, off + 16, n.dst)
  {
    var h := Ip4Header(n);
    AtParts(f, off, h, BodyBytes(n.body));
    AtByte(f, off, h);
    hide BodyBytes;
    assert f[off + 0] == h[0] == 0x45 + |n.options| / 4;
    assert f[off + 2] == h[2] && f[off + 3] == h[3] && f[off + 6] == h[6] && f[off + 7] == h[7] && f[off + 9] == h[9];
    assert h[12..16] == n.src && h[16..20] == n.dst;
    assert f[off + 12..off + 16] == f[off..off + |h|][12..16];
    assert f[off + 16..off + 20] == f[off..off + |h|][16..20];
  }

  lemma Ip4HeaderParts(f: bytes, l: W.Layout, off: nat)
    requires W.Has(f, off, 20) && W.HeaderLength(f, off) >= 20 && W.Has(f, off, W.HeaderLength(f, off))
    ensures W.Ipv4Header(f, l, off) ==
            W.HeaderEnd(f, W.WithAddress(f, W.WithAddress(f, W.WithScope(f, l, W.Ipv4Scope(f, off)), off + 12, W.V4),
                                         off + 16, W.V4), off + W.HeaderLength(f, off))
  {
    hide W.WithScope, W.WithAddress, W.HeaderEnd;
  }

  lemma Ip4HeaderFound(f: bytes, l: W.Layout, off: nat, n: Net)
    requires n.Ip4? && NetFits(n) && At(f, off, NetBytes(n))
    requires W.Has(f, off, 20) && W.HeaderLength(f, off) == 20 + |n.options|
    ensures var r := W.Ipv4Header(f, l, off);
            && Report(f, r) == And(Report(f, l), Carries([(W.V4, n.src), (W.V4, n.dst)], [Check(Ip4Header(n), 10, [])]))
            && r.payloadStart == off + 20 + |n.options|
  {
    Ip4Fields(f, off, n);
    AtSlice(f, off, Ip4Header(n));
    var s := W.Ipv4Scope(f, off);
    assert ReadCheck(f, s) == Check(Ip4Header(n), 10, []);
    hide Report, ReadCheck, W.WithAddress, W.HeaderEnd, W.WithScope, W.Ipv4Header, NetFits, NetBytes, Ip4Header;
    var l1 := W.WithScope(f, l, s);
    var l2 := W.WithAddress(f, l1, off + 12, W.V4);
    Ip4HeaderParts(f, l, off);
    ScopeFound(f, l, s);
    AddressFound(f, l1, off + 12, W.V4, n.src);
    AddressFound(f, l2, off + 16, W.V4, n.dst);
    HeaderEndFound(f, W.WithAddress(f, l2, off + 16, W.V4), off + 20 + |n.options|);
  }

  lemma PseudoStep(f: bytes, a: nat, text: bytes, rest: seq<(nat, nat)>)
    requires At(f, a, text)
    ensures PseudoBytes(f, [(a, |text|)] + rest) == text + PseudoBytes(f, rest)
  {
    hide At, Slice, PseudoBytes;
    AtSlice(f, a, text);
    PseudoCons(f, (a, |text|), rest);
  }

  lemma PseudoCons(f: bytes, p: (nat, nat), rest: seq<(nat, nat)>)
    ensures PseudoBytes(f, [p] + rest) == Slice(f, p.0, p.0 + p.1) + PseudoBytes(f, rest)
  {
    hide Slice;
    assert ([p] + rest)[1..] == rest;
  }

  lemma PairOfAddresses(f: bytes, a: nat, b: nat, src: bytes, dst: bytes)
    requires At(f, a, src) && At(f, b, dst)
    ensures PseudoBytes(f, [(a, |src|), (b, |dst|)]) == src + dst
  {
    NoPseudo(f);
    hide At, PseudoBytes;
    var first: seq<(nat, nat)>, second: seq<(nat, nat)>, none: seq<(nat, nat)> := [(a, |src|)], [(b, |dst|)], [];
    PseudoStep(f, b, dst, none);
    PseudoStep(f, a, src, second);
    assert second + none == second && first + second == [(a, |src|), (b, |dst|)];
    assert dst + [] == dst;
  }

  lemma NoPseudo(f: bytes)
    ensures PseudoBytes(f, []) == []
  {
  }

  // --- transport ----------------------------------------------------------------------------

  /** A checksummed header: its scope, its end, and what it says of the transport. */
  lemma CheckFound(f: bytes, l: W.Layout, s: Scope, segment: bytes, ends: nat, t: W.Transport)
    requires t != W.NoTransport
    requires At(f, s.start, segment) && s.end == s.start + |segment| && ends <= |f|
    ensures var r := W.WithTransport(f, W.HeaderEnd(f, W.WithScope(f, l, s), ends), ends, t);
            && Report(f, r) ==
               And(Report(f, l), Carries([], [Check(segment, s.at - s.start, PseudoBytes(f, s.pseudo))], t))
            && r.payloadStart == ends
  {
    AtSlice(f, s.start, segment);
    assert ReadCheck(f, s) == Check(segment, s.at - s.start, PseudoBytes(f, s.pseudo));
    ScopeFound(f, l, s);
    hide Report, ReadCheck, At, PseudoBytes, W.HeaderEnd, W.WithScope, W.WithTransport;
    HeaderEndFound(f, W.WithScope(f, l, s), ends);
    TransportFound(f, W.HeaderEnd(f, W.WithScope(f, l, s), ends), ends, t);
    AndIsAssociative(Report(f, l), Carries([], [ReadCheck(f, s)]), Carries([], [], t));
  }

  lemma TcpFields(f: bytes, off: nat, b: Body)
    requires b.TcpSegment? && BodyFits(b) && At(f, off, BodyBytes(b))
    ensures W.Has(f, off, 20) && Max((f[off + 12] / 16) as int * 4, 20) == 20 + |b.options|
    ensures U16(f, off) == b.sport && U16(f, off + 2) == b.dport
    ensures At(f, off + 20 + |b.options|, b.payload)
  {
    TcpParts(b);
    hide BodyBytes, Two, At;
    var ports, end := Two(b.sport) + Two(b.dport) + b.numbers, b.window + Two(b.checksum) + b.urgent + b.options;
    TcpHeaderLaid(f, off, ports, TcpOffset(b), b.flags, end, b.payload);
    PortsLaid(f, off, b.sport, b.dport, b.numbers);
  }

  lemma PortsLaid(f: bytes, off: nat, sport: nat, dport: nat, numbers: bytes)
    requires sport <= 0xFFFF && dport <= 0xFFFF && At(f, off, Two(sport) + Two(dport) + numbers)
    ensures off + 4 <= |f| && U16(f, off) == sport && U16(f, off + 2) == dport
  {
    AtParts(f, off, Two(sport) + Two(dport), numbers);
    AtParts(f, off, Two(sport), Two(dport));
    AtTwo(f, off, sport);
    AtTwo(f, off + 2, dport);
  }

  function TcpOffset(b: Body): (offset: byte)
    requires b.TcpSegment? && BodyFits(b)
    ensures offset as int / 16 * 4 == 20 + |b.options|
  {
    0x50 + |b.options| / 4 * 16 + b.low
  }

  lemma TcpParts(b: Body)
    requires b.TcpSegment? && BodyFits(b)
    ensures var ports := Two(b.sport) + Two(b.dport) + b.numbers;
            var end := b.window + Two(b.checksum) + b.urgent + b.options;
            && |ports| == 12 && |end| == 6 + |b.options| && b.sport <= 0xFFFF && b.dport <= 0xFFFF
            && BodyBytes(b) == (ports + [TcpOffset(b), b.flags] + end) + b.payload
  {
  }

  lemma TcpHeaderLaid(f: bytes, off: nat, ports: bytes, offset: byte, flags: byte, end: bytes, payload: bytes)
    requires |ports| == 12 && At(f, off, (ports + [offset, flags] + end) + payload)
    ensures off + 14 + |end| <= |f| && f[off + 12] == offset && At(f, off, ports) && At(f, off + 14 + |end|, payload)
  {
    AtParts(f, off, ports + [offset, flags] + end, payload);
    AtParts(f, off, ports + [offset, flags], end);
    AtParts(f, off, ports, [offset, flags]);
    AtByte(f, off + 12, [offset, flags]);
    assert f[off + 12 + 0] == offset;
  }

  lemma TcpFound(f: bytes, l: W.Layout, off: nat, end: nat, pseudo: seq<(nat, nat)>, b: Body)
    requires b.TcpSegment? && BodyFits(b) && At(f, off, BodyBytes(b)) && end == off + |BodyBytes(b)|
    ensures Found(f, l, W.TcpHeader(f, l, off, end, pseudo),
                  Carries([], [Check(BodyBytes(b), 16, PseudoBytes(f, pseudo))], W.Tcp(b.sport, b.dport)), b.payload)
  {
    TcpFields(f, off, b);
    var ends := off + 20 + |b.options|;
    CheckFound(f, l, Scope(off + 16, off, end, pseudo), BodyBytes(b), ends, W.Tcp(U16(f, off), U16(f, off + 2)));
    hide Report, BodyBytes, BodyFits, At, W.HeaderEnd, W.WithScope, W.WithTransport, U16;
    assert off + Max((f[off + 12] / 16) as int * 4, 20) == ends;
  }

  lemma TransportFound(f: bytes, l: W.Layout, off: nat, t: W.Transport)
    requires t != W.NoTransport
    ensures Report(f, W.WithTransport(f, l, off, t)) == And(Report(f, l), Carries([], [], t))
  {
  }

  /** The fields of a UDP header, and what follows it. */
  lemma UdpFields(f: bytes, off: nat, sport: nat, dport: nat, length: nat, checksum: nat, rest: bytes)
    requires sport <= 0xFFFF && dport <= 0xFFFF && length <= 0xFFFF && checksum <= 0xFFFF
    requires At(f, off, UdpHeader(sport, dport, length, checksum) + rest)
    ensures W.Has(f, off, 8) && U16(f, off) == sport && U16(f, off + 2) == dport && U16(f, off + 6) == checksum
    ensures At(f, off + 8, rest)
  {
    var h := UdpHeader(sport, dport, length, checksum);
    AtParts(f, off, h, rest);
    AtByte(f, off, h);
    assert f[off + 0] == h[0] && f[off + 1] == h[1] && f[off + 2] == h[2] && f[off + 3] == h[3];
    assert f[off + 6] == h[6] && f[off + 7] == h[7];
  }

  lemma UdpScopeFound(f: bytes, l: W.Layout, off: nat, end: nat, pseudo: seq<(nat, nat)>, ipv4: bool, b: Body,
                      checksum: nat, t: W.Transport)
    requires BodyFits(b) && At(f, off, BodyBytes(b)) && end == off + |BodyBytes(b)| && W.Has(f, off, 8)
    requires U16(f, off + 6) == checksum && t == UdpPorts(b) != W.NoTransport
    ensures var r := W.WithTransport(f, W.HeaderEnd(f, W.UdpScope(f, l, off, end, pseudo, ipv4), off + 8), off + 8, t);
            && Report(f, r) == And(Report(f, l), UdpCheck(b, checksum, PseudoBytes(f, pseudo), ipv4))
            && r.payloadStart == off + 8
  {
    hide Report, BodyBytes, BodyFits, At, W.HeaderEnd, W.WithScope, W.WithTransport, U16, PseudoBytes;
    if ipv4 && checksum == 0 {
      HeaderEndFound(f, l, off + 8);
      TransportFound(f, W.HeaderEnd(f, l, off + 8), off + 8, t);
    } else {
      CheckFound(f, l, Scope(off + 6, off, end, pseudo), BodyBytes(b), off + 8, t);
    }
  }

  lemma IcmpFields(f: bytes, off: nat, kind: byte, code: byte, checksum: nat, rest: bytes, payload: bytes)
    requires checksum <= 0xFFFF && |rest| == 4 && At(f, off, IcmpHeader(kind, code, checksum, rest) + payload)
    ensures W.Has(f, off, 8) && f[off] == kind && At(f, off + 8, payload)
  {
    var h := IcmpHeader(kind, code, checksum, rest);
    AtParts(f, off, h, payload);
    AtByte(f, off, h);
    assert f[off + 0] == h[0];
  }

  // --- every nesting ------------------------------------------------------------------------

  /** One find after another. */
  lemma FoundThen(f: bytes, l: W.Layout, m: W.Layout, r: W.Layout, c: Carries, d: Carries, payload: bytes)
    requires Report(f, m) == And(Report(f, l), c) && Found(f, m, r, d, payload)
    ensures Found(f, l, r, And(c, d), payload)
  {
    hide Report, At;
    AndIsAssociative(Report(f, l), c, d);
  }

  lemma AtEnds(f: bytes, off: nat, b: bytes)
    requires At(f, off, b)
    ensures off + |b| <= |f|
  {
  }

  lemma Ip4Unfolds(f: bytes, l: W.Layout, off: nat, depth: nat)
    requires depth <= W.MAX_DEPTH && W.Has(f, off, 20) && f[off] / 16 == 4 && W.HeaderLength(f, off) >= 20
    ensures W.Ipv4(f, l, off, depth) ==
            var l1, ihl := W.Ipv4Header(f, l, off), W.HeaderLength(f, off);
            if U16(f, off + 6) % 0x2000 != 0 then l1
            else W.TransportLayer(f, l1, f[off + 9], off + ihl, W.Ipv4End(f, off), [(off + 12, 4), (off + 16, 4)],
                                  depth, true)
  {
    hide W.Ipv4Header, W.TransportLayer, W.Ipv4End;
  }

  lemma Ip4Found(f: bytes, l: W.Layout, off: nat, depth: nat, n: Net)
    requires n.Ip4? && NetFits(n) && At(f, off, NetBytes(n)) && depth + NetDepth(n) <= W.MAX_DEPTH
    ensures Found(f, l, W.Ipv4(f, l, off, depth), NetCarries(n), NetPayload(n))
    decreases n, 1
  {
    hide Report, At, Two, NetFits, NetBytes, Ip4Header, BodyDepth, W.HeaderLength, W.Has, W.Ipv4,
      W.Ipv4Header, W.Ipv4End, U16, BodyBytes, BodyFits,
      BodyCarries, BodyPayload, W.TransportLayer, PseudoBytes;
    var ihl, body := 20 + |n.options|, n.body;
    Ip4Fields(f, off, n);
    Ip4HeaderFound(f, l, off, n);
    Ip4Unfolds(f, l, off, depth);
    var l1 := W.Ipv4Header(f, l, off);
    var c := Carries([(W.V4, n.src), (W.V4, n.dst)], [Check(Ip4Header(n), 10, [])]);
    if n.frag % 0x2000 != 0 {
      AndIsAssociative(c, NOTHING, NOTHING);
    } else {
      var end := W.Ipv4End(f, off);
      Ip4Ends(f, off, n);
      var pseudo: seq<(nat, nat)> := [(off + 12, 4), (off + 16, 4)];
      Ip4Pseudo(f, off, n);
      BodyFound(f, l1, off + ihl, end, pseudo, depth, true, body, n.src + n.dst);
      FoundThen(f, l, l1, W.TransportLayer(f, l1, Protocol(body), off + ihl, end, pseudo, depth, true), c,
                BodyCarries(body, n.src + n.dst, true), BodyPayload(body));
    }
  }

  lemma Ip4Ends(f: bytes, off: nat, n: Net)
    requires n.Ip4? && NetFits(n) && At(f, off, NetBytes(n)) && W.Has(f, off, 20)
    ensures W.Ipv4End(f, off) == off + 20 + |n.options| + |BodyBytes(n.body)|
  {
    Ip4Fields(f, off, n);
    AtEnds(f, off + 20 + |n.options|, BodyBytes(n.body));
    hide At, NetFits, NetBytes, BodyBytes, U16;
  }

  lemma Ip4Pseudo(f: bytes, off: nat, n: Net)
    requires n.Ip4? && NetFits(n) && At(f, off, NetBytes(n))
    ensures PseudoBytes(f, [(off + 12, 4), (off + 16, 4)]) == n.src + n.dst
  {
    Ip4Fields(f, off, n);
    assert |n.src| == 4 && |n.dst| == 4;
    hide At, NetFits, NetBytes, BodyBytes, U16, PseudoBytes;
    PairOfAddresses(f, off + 12, off + 16, n.src, n.dst);
  }

  /** What carries a body: its place, and the addresses its checksum also covers. */
  predicate Carrying(f: bytes, l: W.Layout, off: nat, end: nat, pseudo: seq<(nat, nat)>, depth: nat, b: Body,
                     text: bytes)
  {
    && BodyFits(b) && At(f, off, BodyBytes(b)) && (b.OtherBody? || end == off + |BodyBytes(b)|)
    && PseudoBytes(f, pseudo) == text && depth + BodyDepth(b) <= W.MAX_DEPTH && l.payloadStart == off
  }

  lemma BodyFound(f: bytes, l: W.Layout, off: nat, end: nat, pseudo: seq<(nat, nat)>, depth: nat, ipv4: bool,
                  b: Body, text: bytes)
    requires Carrying(f, l, off, end, pseudo, depth, b, text)
    ensures BodyFits(b) && Found(f, l, W.TransportLayer(f, l, Protocol(b), off, end, pseudo, depth, ipv4),
                                 BodyCarries(b, text, ipv4), BodyPayload(b))
    decreases b, 3
  {
    hide Found, Carrying, BodyFits, BodyCarries, BodyPayload, Protocol, W.TransportLayer;
    if b.TcpSegment? || b.UdpDatagram? || b.VxlanTunnel? || b.GeneveTunnel? {
      PortsFound(f, l, off, end, pseudo, depth, ipv4, b, text);
    } else if IsIcmp(b) {
      MessageFound(f, l, off, end, pseudo, depth, ipv4, b, text);
    } else {
      PortlessFound(f, l, off, end, pseudo, depth, ipv4, b, text);
    }
  }

  lemma PortlessFound(f: bytes, l: W.Layout, off: nat, end: nat, pseudo: seq<(nat, nat)>, depth: nat, ipv4: bool,
                      b: Body, text: bytes)
    requires Carrying(f, l, off, end, pseudo, depth, b, text) && (b.IpTunnel? || b.GreTunnel? || b.OtherBody?)
    ensures BodyFits(b) && Found(f, l, W.TransportLayer(f, l, Protocol(b), off, end, pseudo, depth, ipv4),
                                 BodyCarries(b, text, ipv4), BodyPayload(b))
    decreases b, 2
  {
    assert BodyFits(b);
    hide Found, Carrying, BodyFits, BodyBytes, BodyDepth, NetCarries, CarriedCarries, NetPayload, CarriedPayload,
      W.Gre, W.Ipv4, W.Ipv6;
    if b.IpTunnel? {
      TunnelFound(f, l, off, end, pseudo, depth, b, text);
    } else if b.GreTunnel? {
      GreFound(f, l, off, end, pseudo, depth, b, text, ipv4);
    } else {
      NotKnown(b);
      OtherFound(f, l, off, end, pseudo, depth, b, text);
    }
  }

  lemma NotKnown(b: Body)
    requires b.OtherBody? && BodyFits(b)
    ensures !KnownProtocol(b.proto)
  {
  }

  lemma PortsFound(f: bytes, l: W.Layout, off: nat, end: nat, pseudo: seq<(nat, nat)>, depth: nat, ipv4: bool,
                   b: Body, text: bytes)
    requires Carrying(f, l, off, end, pseudo, depth, b, text)
    requires b.TcpSegment? || b.UdpDatagram? || b.VxlanTunnel? || b.GeneveTunnel?
    ensures BodyFits(b) && Found(f, l, W.TransportLayer(f, l, Protocol(b), off, end, pseudo, depth, ipv4),
                                 BodyCarries(b, text, ipv4), BodyPayload(b))
    decreases b, 2
  {
    assert BodyFits(b);
    hide Found, Carrying, BodyFits, BodyBytes, BodyDepth, UdpCheck, FrameCarries, CarriedCarries, FramePayload,
      CarriedPayload, W.TcpHeader, W.UdpHeader;
    if b.TcpSegment? {
      TcpBodyFound(f, l, off, end, pseudo, depth, b, text);
    } else if b.UdpDatagram? {
      UdpFound(f, l, off, end, pseudo, depth, ipv4, b, text);
    } else if b.VxlanTunnel? {
      VxlanFound(f, l, off, end, pseudo, depth, ipv4, b, text);
    } else {
      GeneveFound(f, l, off, end, pseudo, depth, ipv4, b, text);
    }
  }

  lemma MessageFound(f: bytes, l: W.Layout, off: nat, end: nat, pseudo: seq<(nat, nat)>, depth: nat, ipv4: bool,
                     b: Body, text: bytes)
    requires Carrying(f, l, off, end, pseudo, depth, b, text) && IsIcmp(b)
    ensures BodyFits(b) && Found(f, l, W.TransportLayer(f, l, Protocol(b), off, end, pseudo, depth, ipv4),
                                 BodyCarries(b, text, ipv4), BodyPayload(b))
    decreases b, 2
  {
    assert BodyFits(b);
    hide Found, Carrying, BodyFits, BodyCarries, BodyPayload, W.IcmpHeader, W.Icmpv6Header;
    if b.IcmpMessage? || b.IcmpError? {
      IcmpFound(f, l, off, end, pseudo, depth, b, text, ipv4);
    } else if b.Discovery? {
      DiscoveryFound(f, l, off, end, pseudo, depth, b, text, ipv4);
    } else {
      Icmp6Found(f, l, off, end, pseudo, depth, b, text, ipv4);
    }
  }

  lemma TcpBodyFound(f: bytes, l: W.Layout, off: nat, end: nat, pseudo: seq<(nat, nat)>, depth: nat, b: Body,
                     text: bytes)
    requires Carrying(f, l, off, end, pseudo, depth, b, text) && b.TcpSegment?
    ensures Found(f, l, W.TcpHeader(f, l, off, end, pseudo),
                  Carries([], [Check(BodyBytes(b), 16, text)], W.Tcp(b.sport, b.dport)), b.payload)
  {
    TcpFound(f, l, off, end, pseudo, b);
  }

  lemma OtherFound(f: bytes, l: W.Layout, off: nat, end: nat, pseudo: seq<(nat, nat)>, depth: nat, b: Body, text: bytes)
    requires Carrying(f, l, off, end, pseudo, depth, b, text) && b.OtherBody?
    ensures Found(f, l, l, NOTHING, b.payload)
  {
    AndIsAssociative(Report(f, l), NOTHING, NOTHING);
  }

  // --- UDP and its tunnels --------------------------------------------------------------------

  function UdpFront(f: bytes, l: W.Layout, off: nat, end: nat, pseudo: seq<(nat, nat)>, ipv4: bool): W.Layout
    requires W.Has(f, off, 8)
  {
    W.WithTransport(f, W.HeaderEnd(f, W.UdpScope(f, l, off, end, pseudo, ipv4), off + 8), off + 8,
                    W.Udp(U16(f, off), U16(f, off + 2)))
  }

  lemma UdpUnfolds(f: bytes, l: W.Layout, off: nat, end: nat, pseudo: seq<(nat, nat)>, depth: nat, ipv4: bool)
    requires depth <= W.MAX_DEPTH && W.Has(f, off, 8)
    ensures var m, dport := UdpFront(f, l, off, end, pseudo, ipv4), U16(f, off + 2);
            && (dport != W.VXLAN_PORT && dport != W.GENEVE_PORT ==>
                  W.UdpHeader(f, l, off, end, pseudo, depth, ipv4) == m)
            && (dport == W.VXLAN_PORT && W.Has(f, off + 8, 8) && (f[off + 8] / 8) % 2 == 1 ==>
                  W.UdpHeader(f, l, off, end, pseudo, depth, ipv4) ==
                  W.Ethernet(f, W.HeaderEnd(f, m, off + 16), off + 16, depth + 1))
            && (dport == W.GENEVE_PORT && W.Has(f, off + 8, 8) ==>
                  W.UdpHeader(f, l, off, end, pseudo, depth, ipv4) ==
                  var inner := off + 16 + (f[off + 8] % 64) as int * 4;
                  Descend(f, W.HeaderEnd(f, m, inner), U16(f, off + 10), inner, depth + 1))
  {
    hide W.UdpScope, W.HeaderEnd, W.WithTransport, W.Ethernet, W.Ethertype, U16;
  }

  /** Into an Ethernet frame, or whatever the ethertype announces. */
  function Descend(f: bytes, l: W.Layout, etype: nat, off: nat, depth: nat): W.Layout {
    if etype == W.ETH_TRANSPARENT_BRIDGING then W.Ethernet(f, l, off, depth) else W.Ethertype(f, l, etype, off, depth)
  }

  lemma UdpLaid(f: bytes, off: nat, b: Body)
    requires b.UdpDatagram? && BodyFits(b) && At(f, off, BodyBytes(b))
    ensures W.Has(f, off, 8) && U16(f, off + 6) == b.checksum
    ensures U16(f, off + 2) == b.dport && W.Udp(U16(f, off), U16(f, off + 2)) == UdpPorts(b)
    ensures b.dport != W.VXLAN_PORT && b.dport != W.GENEVE_PORT && At(f, off + 8, b.payload)
  {
    UdpFields(f, off, b.sport, b.dport, 8 + |b.payload|, b.checksum, b.payload);
  }

  lemma UdpFound(f: bytes, l: W.Layout, off: nat, end: nat, pseudo: seq<(nat, nat)>, depth: nat, ipv4: bool,
                 b: Body, text: bytes)
    requires Carrying(f, l, off, end, pseudo, depth, b, text) && b.UdpDatagram?
    ensures Found(f, l, W.UdpHeader(f, l, off, end, pseudo, depth, ipv4), UdpCheck(b, b.checksum, text, ipv4),
                  b.payload)
  {
    hide Report, At, BodyFits, BodyBytes, UdpCheck, U16, W.UdpHeader, W.UdpScope, W.HeaderEnd, W.WithTransport,
      PseudoBytes;
    UdpLaid(f, off, b);
    UdpScopeFound(f, l, off, end, pseudo, ipv4, b, b.checksum, W.Udp(U16(f, off), U16(f, off + 2)));
    UdpUnfolds(f, l, off, end, pseudo, depth, ipv4);
  }

  lemma VxlanLaid(f: bytes, off: nat, b: Body)
    requires b.VxlanTunnel? && BodyFits(b) && At(f, off, BodyBytes(b))
    ensures W.Has(f, off, 16) && U16(f, off + 6) == b.checksum
    ensures U16(f, off + 2) == W.VXLAN_PORT && W.Udp(U16(f, off), U16(f, off + 2)) == UdpPorts(b)
    ensures (f[off + 8] / 8) % 2 == 1 && FrameFits(b.inner) && At(f, off + 16, FrameBytes(b.inner))
  {
    var head, inner := [b.flags] + b.vni, FrameBytes(b.inner);
    assert (b.flags / 8) % 2 == 1 && |head| == 8;
    assert BodyBytes(b) == UdpHeader(b.sport, W.VXLAN_PORT, 16 + |inner|, b.checksum) + (head + inner);
    UdpFields(f, off, b.sport, W.VXLAN_PORT, 16 + |inner|, b.checksum, head + inner);
    hide BodyFits, BodyBytes, FrameBytes, FrameFits, UdpHeader, U16;
    AtParts(f, off + 8, head, inner);
    AtByte(f, off + 8, head);
    assert f[off + 8 + 0] == b.flags;
  }

  lemma VxlanFound(f: bytes, l: W.Layout, off: nat, end: nat, pseudo: seq<(nat, nat)>, depth: nat, ipv4: bool,
                   b: Body, text: bytes)
    requires Carrying(f, l, off, end, pseudo, depth, b, text) && b.VxlanTunnel?
    ensures BodyFits(b) && FrameFits(b.inner)
    ensures Found(f, l, W.UdpHeader(f, l, off, end, pseudo, depth, ipv4),
                  And(UdpCheck(b, b.checksum, text, ipv4), FrameCarries(b.inner)), FramePayload(b.inner))
    decreases b, 1
  {
    hide Report, At, BodyFits, BodyBytes, FrameFits, FrameBytes, FrameCarries, FramePayload, UdpFront, UdpCheck, U16,
      PseudoBytes, W.UdpHeader, W.Ethernet, W.HeaderEnd;
    VxlanLaid(f, off, b);
    UdpFrontFound(f, l, off, end, pseudo, ipv4, b, b.checksum);
    UdpUnfolds(f, l, off, end, pseudo, depth, ipv4);
    var m := UdpFront(f, l, off, end, pseudo, ipv4);
    var m' := W.HeaderEnd(f, m, off + 16);
    HeaderEndFound(f, m, off + 16);
    FrameFound(f, m', off + 16, depth + 1, b.inner);
    FoundThen(f, l, m', W.Ethernet(f, m', off + 16, depth + 1), UdpCheck(b, b.checksum, text, ipv4),
              FrameCarries(b.inner), FramePayload(b.inner));
  }

  lemma UdpFrontFound(f: bytes, l: W.Layout, off: nat, end: nat, pseudo: seq<(nat, nat)>, ipv4: bool, b: Body,
                      checksum: nat)
    requires BodyFits(b) && At(f, off, BodyBytes(b)) && end == off + |BodyBytes(b)| && W.Has(f, off, 8)
    requires U16(f, off + 6) == checksum && W.Udp(U16(f, off), U16(f, off + 2)) == UdpPorts(b)
    ensures var m := UdpFront(f, l, off, end, pseudo, ipv4);
            && Report(f, m) == And(Report(f, l), UdpCheck(b, checksum, PseudoBytes(f, pseudo), ipv4))
            && m.payloadStart == off + 8
  {
    hide Report, At, BodyFits, BodyBytes, UdpCheck, U16, W.UdpScope, W.HeaderEnd, W.WithTransport, PseudoBytes;
    UdpScopeFound(f, l, off, end, pseudo, ipv4, b, checksum, W.Udp(U16(f, off), U16(f, off + 2)));
  }

  lemma GeneveLaid(f: bytes, off: nat, b: Body)
    requires b.GeneveTunnel? && BodyFits(b) && At(f, off, BodyBytes(b))
    ensures W.Has(f, off, 16) && U16(f, off + 6) == b.checksum
    ensures U16(f, off + 2) == W.GENEVE_PORT && W.Udp(U16(f, off), U16(f, off + 2)) == UdpPorts(b)
    ensures CarriedFits(b.carried) && (f[off + 8] % 64) as int * 4 == |b.geneveOptions|
    ensures U16(f, off + 10) == CarriedType(b.carried)
    ensures At(f, off + 16 + |b.geneveOptions|, CarriedBytes(b.carried))
  {
    hide BodyFits, BodyBytes, CarriedFits, CarriedBytes, CarriedType, UdpHeader, U16, Two, At;
    GeneveBytes(b);
    LowBits(b.version, |b.geneveOptions|);
    var first: byte := b.version * 64 + |b.geneveOptions| / 4;
    var etype, inner := CarriedType(b.carried), CarriedBytes(b.carried);
    var head := [first, b.flags] + Two(etype) + (b.vni + b.geneveOptions);
    UdpFields(f, off, b.sport, W.GENEVE_PORT, 16 + |b.geneveOptions| + |inner|, b.checksum, head + inner);
    AtParts(f, off + 8, head, inner);
    AtEnds(f, off + 8, head);
    GeneveFields(f, off + 8, first, b.flags, etype, b.vni + b.geneveOptions);
  }

  lemma LowBits(version: nat, length: nat)
    requires length % 4 == 0 && length < 256
    ensures (version * 64 + length / 4) % 64 * 4 == length
  {
  }

  lemma GeneveBytes(b: Body)
    requires b.GeneveTunnel? && BodyFits(b)
    ensures b.version < 4 && |b.geneveOptions| % 4 == 0 && |b.geneveOptions| < 256 && CarriedFits(b.carried)
    ensures b.sport <= 0xFFFF && b.checksum <= 0xFFFF && |b.vni| == 4
    ensures 16 + |b.geneveOptions| + |CarriedBytes(b.carried)| <= 0xFFFF
    ensures var inner := CarriedBytes(b.carried);
            BodyBytes(b) == UdpHeader(b.sport, W.GENEVE_PORT, 16 + |b.geneveOptions| + |inner|, b.checksum)
                            + (([b.version * 64 + |b.geneveOptions| / 4, b.flags] + Two(CarriedType(b.carried))
                                + (b.vni + b.geneveOptions)) + inner)
  {
    var inner := CarriedBytes(b.carried);
    var start := [b.version * 64 + |b.geneveOptions| / 4, b.flags] + Two(CarriedType(b.carried));
    assert start + b.vni + b.geneveOptions + inner == (start + (b.vni + b.geneveOptions)) + inner;
  }

  lemma GeneveFound(f: bytes, l: W.Layout, off: nat, end: nat, pseudo: seq<(nat, nat)>, depth: nat, ipv4: bool,
                    b: Body, text: bytes)
    requires Carrying(f, l, off, end, pseudo, depth, b, text) && b.GeneveTunnel?
    ensures BodyFits(b) && CarriedFits(b.carried)
    ensures Found(f, l, W.UdpHeader(f, l, off, end, pseudo, depth, ipv4),
                  And(UdpCheck(b, b.checksum, text, ipv4), CarriedCarries(b.carried)), CarriedPayload(b.carried))
    decreases b, 1
  {
    hide Report, At, BodyFits, BodyBytes, CarriedFits, CarriedBytes, CarriedType, CarriedCarries, CarriedPayload,
      UdpFront, UdpCheck, U16, PseudoBytes, W.UdpHeader, Descend, W.HeaderEnd;
    GeneveLaid(f, off, b);
    UdpFrontFound(f, l, off, end, pseudo, ipv4, b, b.checksum);
    UdpUnfolds(f, l, off, end, pseudo, depth, ipv4);
    var start := off + 16 + |b.geneveOptions|;
    var m := UdpFront(f, l, off, end, pseudo, ipv4);
    var m' := W.HeaderEnd(f, m, start);
    AtEnds(f, start, CarriedBytes(b.carried));
    HeaderEndFound(f, m, start);
    CarriedFound(f, m', start, depth + 1, b.carried);
    FoundThen(f, l, m', Descend(f, m', CarriedType(b.carried), start, depth + 1), UdpCheck(b, b.checksum, text, ipv4),
              CarriedCarries(b.carried), CarriedPayload(b.carried));
  }

  lemma GeneveFields(f: bytes, off: nat, first: byte, flags: byte, etype: nat, rest: bytes)
    requires etype <= 0xFFFF && At(f, off, [first, flags] + Two(etype) + rest)
    ensures off + 4 <= |f| && f[off] == first && U16(f, off + 2) == etype
  {
    AtParts(f, off, [first, flags] + Two(etype), rest);
    AtParts(f, off, [first, flags], Two(etype));
    AtByte(f, off, [first, flags]);
    AtTwo(f, off + 2, etype);
    assert f[off + 0] == first;
  }

  lemma CarriedFound(f: bytes, l: W.Layout, off: nat, depth: nat, c: Carried)
    requires CarriedFits(c) && At(f, off, CarriedBytes(c)) && depth + CarriedDepth(c) <= W.MAX_DEPTH
    requires l.payloadStart == off
    ensures Found(f, l, Descend(f, l, CarriedType(c), off, depth), CarriedCarries(c), CarriedPayload(c))
    decreases c, 2
  {
    hide Found, At, W.Ethernet, W.Ethertype;
    match c
    case Bridged(frame) => FrameFound(f, l, off, depth, frame);
    case Routed(net) =>
      assert NetFits(net) && Ethertype(net) != W.ETH_TRANSPARENT_BRIDGING;
      NetFound(f, l, off, depth, net);
  }

  // --- ICMP, and the packets that errors quote --------------------------------------------------

  function IcmpFront(f: bytes, l: W.Layout, off: nat, end: nat, pseudo: seq<(nat, nat)>, t: W.Transport): W.Layout {
    W.WithTransport(f, W.HeaderEnd(f, W.WithScope(f, l, Scope(off + 2, off, end, pseudo)), off + 8), off + 8, t)
  }

  lemma IcmpFrontFound(f: bytes, l: W.Layout, off: nat, end: nat, pseudo: seq<(nat, nat)>, t: W.Transport, b: Body)
    requires BodyFits(b) && At(f, off, BodyBytes(b)) && end == off + |BodyBytes(b)| && W.Has(f, off, 8)
    requires t != W.NoTransport
    ensures var m := IcmpFront(f, l, off, end, pseudo, t);
            && Report(f, m) == And(Report(f, l), Carries([], [Check(BodyBytes(b), 2, PseudoBytes(f, pseudo))], t))
            && m.payloadStart == off + 8
  {
    hide Report, At, BodyFits, BodyBytes, U16, W.WithScope, W.HeaderEnd, W.WithTransport, PseudoBytes;
    CheckFound(f, l, Scope(off + 2, off, end, pseudo), BodyBytes(b), off + 8, t);
  }

  predicate IsIcmp(b: Body) {
    b.IcmpMessage? || b.IcmpError? || b.Icmp6Message? || b.Icmp6Error? || b.Discovery?
  }

  lemma IcmpLaid(f: bytes, off: nat, b: Body)
    requires IsIcmp(b) && BodyFits(b) && At(f, off, BodyBytes(b))
    ensures W.Has(f, off, 8) && f[off] == b.kind
    ensures b.IcmpMessage? ==> b.kind !in W.ICMP_ERRORS && At(f, off + 8, b.payload)
    ensures b.Icmp6Message? ==> b.kind !in W.ICMPV6_ERRORS && !(133 <= b.kind <= 137) && At(f, off + 8, b.payload)
    ensures b.Discovery? ==>
              && 133 <= b.kind <= 137 && |b.own| == FieldsSize(b.kind) && ChoicesFit(b.choices)
              && At(f, off + 8, b.own + ChoiceBytes(b.choices))
    ensures b.IcmpError? ==>
              && b.kind in W.ICMP_ERRORS && b.quoted.Ip4? && NetFits(b.quoted)
              && At(f, off + 8, NetBytes(b.quoted))
    ensures b.Icmp6Error? ==>
              && b.kind in W.ICMPV6_ERRORS && b.quoted.Ip6? && NetFits(b.quoted)
              && At(f, off + 8, NetBytes(b.quoted))
  {
    var payload :=
      if b.IcmpMessage? || b.Icmp6Message? then b.payload
      else if b.Discovery? then b.own + ChoiceBytes(b.choices)
      else NetBytes(b.quoted);
    assert b.checksum <= 0xFFFF && |b.rest| == 4;
    assert BodyBytes(b) == IcmpHeader(b.kind, b.code, b.checksum, b.rest) + payload;
    IcmpFields(f, off, b.kind, b.code, b.checksum, b.rest, payload);
  }

  lemma IcmpUnfolds(f: bytes, l: W.Layout, off: nat, end: nat, depth: nat)
    requires depth <= W.MAX_DEPTH && W.Has(f, off, 8)
    ensures var m := IcmpFront(f, l, off, end, [], W.Icmp);
            W.IcmpHeader(f, l, off, end, depth) ==
            if f[off] in W.ICMP_ERRORS then W.Ipv4(f, m, off + 8, depth + 1) else m
  {
    hide W.WithScope, W.HeaderEnd, W.WithTransport, W.Ipv4;
  }

  lemma Icmp6Unfolds(f: bytes, l: W.Layout, off: nat, end: nat, pseudo: seq<(nat, nat)>, depth: nat)
    requires depth <= W.MAX_DEPTH && W.Has(f, off, 8) && !(133 <= f[off] <= 137)
    ensures var m := IcmpFront(f, l, off, end, pseudo, W.Icmpv6);
            W.Icmpv6Header(f, l, off, end, pseudo, depth) ==
            if f[off] in W.ICMPV6_ERRORS then W.Ipv6(f, m, off + 8, depth + 1) else m
  {
    hide W.WithScope, W.HeaderEnd, W.WithTransport, W.Ipv6, W.NdOptions, W.WithAddress;
  }

  lemma IcmpFound(f: bytes, l: W.Layout, off: nat, end: nat, pseudo: seq<(nat, nat)>, depth: nat, b: Body, text: bytes,
                  ipv4: bool)
    requires Carrying(f, l, off, end, pseudo, depth, b, text) && (b.IcmpMessage? || b.IcmpError?)
    ensures BodyFits(b) && Found(f, l, W.IcmpHeader(f, l, off, end, depth), BodyCarries(b, text, ipv4), BodyPayload(b))
    decreases b, 1
  {
    hide Report, At, BodyFits, BodyBytes, NetFits, NetBytes, NetCarries, NetPayload, PseudoBytes, IcmpFront,
      W.IcmpHeader, W.Ipv4;
    IcmpLaid(f, off, b);
    var none: seq<(nat, nat)> := [];
    var m := IcmpFront(f, l, off, end, none, W.Icmp);
    NoPseudo(f);
    IcmpFrontFound(f, l, off, end, none, W.Icmp, b);
    IcmpUnfolds(f, l, off, end, depth);
    if b.IcmpError? {
      Ip4Found(f, m, off + 8, depth + 1, b.quoted);
      FoundThen(f, l, m, W.Ipv4(f, m, off + 8, depth + 1), Carries([], [Check(BodyBytes(b), 2, [])], W.Icmp),
                NetCarries(b.quoted), NetPayload(b.quoted));
    }
  }

  lemma Icmp6Found(f: bytes, l: W.Layout, off: nat, end: nat, pseudo: seq<(nat, nat)>, depth: nat, b: Body, text: bytes,
                   ipv4: bool)
    requires Carrying(f, l, off, end, pseudo, depth, b, text) && (b.Icmp6Message? || b.Icmp6Error?)
    ensures BodyFits(b)
    ensures Found(f, l, W.Icmpv6Header(f, l, off, end, pseudo, depth), BodyCarries(b, text, ipv4), BodyPayload(b))
    decreases b, 1
  {
    hide Report, At, BodyFits, BodyBytes, NetFits, NetBytes, NetCarries, NetPayload, PseudoBytes, IcmpFront,
      W.Icmpv6Header, W.Ipv6;
    IcmpLaid(f, off, b);
    IcmpFrontFound(f, l, off, end, pseudo, W.Icmpv6, b);
    KindsApart(b);
    Icmp6Unfolds(f, l, off, end, pseudo, depth);
    if b.Icmp6Error? {
      var m := IcmpFront(f, l, off, end, pseudo, W.Icmpv6);
      Ip6Found(f, m, off + 8, depth + 1, b.quoted);
      FoundThen(f, l, m, W.Ipv6(f, m, off + 8, depth + 1), Carries([], [Check(BodyBytes(b), 2, text)], W.Icmpv6),
                NetCarries(b.quoted), NetPayload(b.quoted));
    }
  }

  lemma KindsApart(b: Body)
    requires (b.Icmp6Message? || b.Icmp6Error?) && BodyFits(b)
    ensures !(133 <= b.kind <= 137)
  {
  }

  // --- neighbour discovery ----------------------------------------------------------------------

  lemma OptionFields(f: bytes, cur: nat, o: NdOption, rest: bytes)
    requires OptionFits(o) && At(f, cur, [o.kind, (|o.data| + 2) / 8] + o.data + rest)
    ensures W.Has(f, cur, 2) && f[cur] == o.kind && f[cur + 1] as int * 8 == |o.data| + 2
    ensures At(f, cur + 2, o.data) && At(f, cur + 2 + |o.data|, rest)
    ensures o.kind in {1, 2} ==> At(f, cur + 2, o.data[..6])
    ensures o.kind == 3 && |o.data| >= 30 ==> At(f, cur + 16, o.data[14..30])
  {
    var size: byte := (|o.data| + 2) / 8;
    AtParts(f, cur, [o.kind, size] + o.data, rest);
    AtParts(f, cur, [o.kind, size], o.data);
    AtByte(f, cur, [o.kind, size]);
    assert f[cur + 0] == o.kind && f[cur + 1] == size;
    hide OptionFits;
    if o.kind in {1, 2} {
      AtPiece(f, cur + 2, o.data, 0, 6);
    } else if o.kind == 3 && |o.data| >= 30 {
      AtPiece(f, cur + 2, o.data, 14, 30);
    }
  }

  lemma AtPiece(f: bytes, off: nat, b: bytes, lo: nat, hi: nat)
    requires lo <= hi <= |b| && At(f, off, b)
    ensures At(f, off + lo, b[lo..hi])
  {
    hide At;
    assert b == b[..lo] + (b[lo..hi] + b[hi..]);
    AtParts(f, off, b[..lo], b[lo..hi] + b[hi..]);
    AtParts(f, off + lo, b[lo..hi], b[hi..]);
  }

  function WithOption(f: bytes, l: W.Layout, cur: nat, kind: byte, length: nat): W.Layout {
    if kind in {1, 2} then W.WithAddress(f, l, cur + 2, W.Mac)
    else if kind == 3 && length >= 32 then W.WithAddress(f, l, cur + 16, W.V6)
    else l
  }

  lemma NdStep(f: bytes, l: W.Layout, cur: nat, end: nat)
    requires cur + 2 <= end && W.Has(f, cur, 2) && f[cur + 1] != 0
    ensures var length := f[cur + 1] as int * 8;
            W.NdOptions(f, l, cur, end) == W.NdOptions(f, WithOption(f, l, cur, f[cur], length), cur + length, end)
  {
    hide W.WithAddress;
  }

  lemma ChoicesSplit(choices: seq<NdOption>)
    requires ChoicesFit(choices) && |choices| > 0
    ensures OptionFits(choices[0]) && ChoicesFit(choices[1..])
    ensures var o := choices[0];
            ChoiceBytes(choices) == [o.kind, (|o.data| + 2) / 8] + o.data + ChoiceBytes(choices[1..])
    ensures ChoicesFit([choices[0]]) && ChoicesCarry(choices) == ChoicesCarry([choices[0]]) + ChoicesCarry(choices[1..])
  {
    assert [choices[0]][1..] == [] && ChoicesCarry([]) == [];
  }

  lemma NoChoices(f: bytes, l: W.Layout, cur: nat)
    ensures ChoiceBytes([]) == [] && ChoicesCarry([]) == [] && W.NdOptions(f, l, cur, cur) == l
  {
  }

  lemma {:induction false} ChoicesFound(f: bytes, l: W.Layout, cur: nat, end: nat, choices: seq<NdOption>)
    requires ChoicesFit(choices) && At(f, cur, ChoiceBytes(choices)) && end == cur + |ChoiceBytes(choices)|
    ensures var r := W.NdOptions(f, l, cur, end);
            && Report(f, r) == And(Report(f, l), Carries(ChoicesCarry(choices), [])) && r.payloadStart == l.payloadStart
    decreases |choices|
  {
    hide Report, At, ChoicesFit, ChoiceBytes, ChoicesCarry, OptionFits, W.NdOptions, WithOption;
    if |choices| == 0 {
      assert choices == [];
      NoChoices(f, l, cur);
      AndIsAssociative(Report(f, l), NOTHING, NOTHING);
    } else {
      ChoicesSplit(choices);
      var o, rest := choices[0], ChoiceBytes(choices[1..]);
      OptionFields(f, cur, o, rest);
      NdStep(f, l, cur, end);
      OptionFound(f, l, cur, o);
      ChoicesFound(f, WithOption(f, l, cur, o.kind, |o.data| + 2), cur + 2 + |o.data|, end, choices[1..]);
      AndIsAssociative(Report(f, l), Carries(ChoicesCarry([o]), []), Carries(ChoicesCarry(choices[1..]), []));
    }
  }

  lemma OptionFound(f: bytes, l: W.Layout, cur: nat, o: NdOption)
    requires OptionFits(o)
    requires o.kind in {1, 2} ==> At(f, cur + 2, o.data[..6])
    requires o.kind == 3 && |o.data| >= 30 ==> At(f, cur + 16, o.data[14..30])
    ensures var r := WithOption(f, l, cur, o.kind, |o.data| + 2);
            && Report(f, r) == And(Report(f, l), Carries(ChoicesCarry([o]), [])) && r.payloadStart == l.payloadStart
  {
    hide Report, At, W.WithAddress;
    assert [o][1..] == [] && ChoicesCarry([]) == [];
    if o.kind in {1, 2} {
      AddressFound(f, l, cur + 2, W.Mac, o.data[..6]);
    } else if o.kind == 3 && |o.data| >= 30 {
      AddressFound(f, l, cur + 16, W.V6, o.data[14..30]);
    } else {
      AndIsAssociative(Report(f, l), NOTHING, NOTHING);
    }
  }

  /** The message's own addresses, and where its options begin. */
  function WithFields(f: bytes, l: W.Layout, off: nat, kind: byte): W.Layout {
    if kind == 135 || kind == 136 then W.WithAddress(f, l, off + 8, W.V6)
    else if kind == 137 then W.WithAddress(f, W.WithAddress(f, l, off + 8, W.V6), off + 24, W.V6)
    else l
  }

  lemma DiscoveryUnfolds(f: bytes, l: W.Layout, off: nat, end: nat, pseudo: seq<(nat, nat)>, depth: nat)
    requires depth <= W.MAX_DEPTH && W.Has(f, off, 8) && 133 <= f[off] <= 137
    ensures var m := IcmpFront(f, l, off, end, pseudo, W.Icmpv6);
            W.Icmpv6Header(f, l, off, end, pseudo, depth) ==
            W.NdOptions(f, WithFields(f, m, off, f[off]), off + 8 + FieldsSize(f[off]), end)
  {
    hide W.WithScope, W.HeaderEnd, W.WithTransport, W.Ipv6, W.NdOptions, W.WithAddress;
  }

  lemma FieldsFound(f: bytes, l: W.Layout, off: nat, kind: byte, fields: bytes)
    requires |fields| == FieldsSize(kind) && At(f, off + 8, fields)
    ensures var r := WithFields(f, l, off, kind);
            && Report(f, r) == And(Report(f, l), Carries(FieldsCarry(kind, fields), []))
            && r.payloadStart == l.payloadStart
  {
    if kind == 135 || kind == 136 {
      AddressFound(f, l, off + 8, W.V6, fields);
    } else if kind == 137 {
      assert fields == fields[..16] + fields[16..];
      AtParts(f, off + 8, fields[..16], fields[16..]);
      hide Report, At;
      AddressFound(f, l, off + 8, W.V6, fields[..16]);
      AddressFound(f, W.WithAddress(f, l, off + 8, W.V6), off + 24, W.V6, fields[16..]);
      AndIsAssociative(Report(f, l), Carries([(W.V6, fields[..16])], []), Carries([(W.V6, fields[16..])], []));
    } else {
      AndIsAssociative(Report(f, l), NOTHING, NOTHING);
    }
  }

  lemma DiscoveryFound(f: bytes, l: W.Layout, off: nat, end: nat, pseudo: seq<(nat, nat)>, depth: nat, b: Body,
                       text: bytes, ipv4: bool)
    requires Carrying(f, l, off, end, pseudo, depth, b, text) && b.Discovery?
    ensures BodyFits(b)
    ensures Found(f, l, W.Icmpv6Header(f, l, off, end, pseudo, depth), BodyCarries(b, text, ipv4), BodyPayload(b))
  {
    hide Report, At, BodyFits, BodyBytes, ChoiceBytes, ChoicesFit, ChoicesCarry, FieldsCarry, PseudoBytes, IcmpFront,
      W.Icmpv6Header, W.NdOptions, WithFields;
    IcmpLaid(f, off, b);
    IcmpFrontFound(f, l, off, end, pseudo, W.Icmpv6, b);
    DiscoveryUnfolds(f, l, off, end, pseudo, depth);
    DiscoveryEnds(off, b);
    var m := IcmpFront(f, l, off, end, pseudo, W.Icmpv6);
    AtParts(f, off + 8, b.own, ChoiceBytes(b.choices));
    FieldsFound(f, m, off, b.kind, b.own);
    ChoicesFound(f, WithFields(f, m, off, b.kind), off + 8 + |b.own|, end, b.choices);
    AndIsAssociative(Report(f, m), Carries(FieldsCarry(b.kind, b.own), []), Carries(ChoicesCarry(b.choices), []));
    AndIsAssociative(Report(f, l), Carries([], [Check(BodyBytes(b), 2, text)], W.Icmpv6),
                     Carries(FieldsCarry(b.kind, b.own) + ChoicesCarry(b.choices), []));
  }

  lemma DiscoveryEnds(off: nat, b: Body)
    requires b.Discovery? && BodyFits(b)
    ensures ChoicesFit(b.choices) && |BodyBytes(b)| == 8 + |b.own| + |ChoiceBytes(b.choices)|
  {
    hide ChoicesFit, ChoiceBytes;
  }

  // --- IP in IP, and GRE ------------------------------------------------------------------------

  lemma TunnelFound(f: bytes, l: W.Layout, off: nat, end: nat, pseudo: seq<(nat, nat)>, depth: nat, b: Body,
                    text: bytes)
    requires Carrying(f, l, off, end, pseudo, depth, b, text) && b.IpTunnel?
    ensures b.quoted.Ip4? ==> Found(f, l, W.Ipv4(f, l, off, depth + 1), NetCarries(b.quoted), NetPayload(b.quoted))
    ensures !b.quoted.Ip4? ==> Found(f, l, W.Ipv6(f, l, off, depth + 1), NetCarries(b.quoted), NetPayload(b.quoted))
    decreases b, 1
  {
    assert BodyFits(b);
    hide Found, At, PseudoBytes, W.Ipv4, W.Ipv6;
    if b.quoted.Ip4? {
      Ip4Found(f, l, off, depth + 1, b.quoted);
    } else {
      Ip6Found(f, l, off, depth + 1, b.quoted);
    }
  }

  lemma GreLaid(f: bytes, off: nat, b: Body)
    requires b.GreTunnel? && BodyFits(b) && At(f, off, BodyBytes(b))
    ensures GreFits(b.fields) && CarriedFits(b.carried)
    ensures W.Has(f, off, 4) && U16(f, off) == GreFlags(b.fields) && U16(f, off + 2) == CarriedType(b.carried)
    ensures At(f, off + 4 + |b.fields.words|, CarriedBytes(b.carried))
  {
    var flags, etype := GreFlags(b.fields), CarriedType(b.carried);
    var words, inner := b.fields.words, CarriedBytes(b.carried);
    assert BodyBytes(b) == (Two(flags) + Two(etype) + words) + inner;
    hide BodyBytes, Two;
    AtParts(f, off, Two(flags) + Two(etype) + words, inner);
    AtParts(f, off, Two(flags) + Two(etype), words);
    AtParts(f, off, Two(flags), Two(etype));
    AtTwo(f, off, flags);
    AtTwo(f, off + 2, etype);
  }

  lemma GreEnds(g: GreFields, off: nat)
    requires GreFits(g)
    ensures GreFlags(g) % 8 == 0 && (GreFlags(g) / 0x8000 % 2 == 1 <==> g.checked)
    ensures W.GreEnd(off, GreFlags(g)) == off + 4 + |g.words|
  {
    FlagBits(if g.checked then 1 else 0, if g.keyed then 1 else 0, if g.numbered then 1 else 0, g.spare);
  }

  lemma FlagBits(checked: nat, keyed: nat, numbered: nat, spare: nat)
    requires checked <= 1 && keyed <= 1 && numbered <= 1 && spare < 0x1000 && spare % 8 == 0
    ensures var flags := checked * 0x8000 + keyed * 0x2000 + numbered * 0x1000 + spare;
            && flags % 8 == 0 && flags / 0x8000 == checked && flags / 0x2000 % 2 == keyed
            && flags / 0x1000 % 2 == numbered
  {
    var flags := checked * 0x8000 + keyed * 0x2000 + numbered * 0x1000 + spare;
    assert flags / 0x1000 == checked * 8 + keyed * 2 + numbered;
    assert flags / 0x2000 == checked * 4 + keyed;
  }

  lemma GreUnfolds(f: bytes, l: W.Layout, off: nat, end: nat, depth: nat)
    requires depth <= W.MAX_DEPTH && W.Has(f, off, 4) && U16(f, off) % 8 == 0
    ensures var cur := W.GreEnd(off, U16(f, off));
            W.Gre(f, l, off, end, depth) ==
            Descend(f, W.HeaderEnd(f, W.GreScope(f, l, off, end), cur), U16(f, off + 2), cur, depth + 1)
  {
    hide W.GreScope, W.HeaderEnd, W.Ethernet, W.Ethertype, W.GreEnd, U16;
  }

  lemma GreScopeFound(f: bytes, l: W.Layout, off: nat, end: nat, b: Body, ends: nat)
    requires b.GreTunnel? && BodyFits(b) && At(f, off, BodyBytes(b)) && end == off + |BodyBytes(b)|
    requires W.Has(f, off, 4) && U16(f, off) == GreFlags(b.fields) && off + 4 + |b.fields.words| <= ends <= |f|
    ensures var m := W.HeaderEnd(f, W.GreScope(f, l, off, end), ends);
            && Report(f, m) ==
               And(Report(f, l), Carries([], if b.fields.checked then [Check(BodyBytes(b), 4, [])] else []))
            && m.payloadStart == ends
  {
    GreEnds(b.fields, off);
    var s := Scope(off + 4, off, end, []);
    HeaderEndFound(f, W.GreScope(f, l, off, end), ends);
    if b.fields.checked {
      AtSlice(f, off, BodyBytes(b));
      assert ReadCheck(f, s) == Check(BodyBytes(b), 4, []);
      ScopeFound(f, l, s);
    } else {
      AndIsAssociative(Report(f, l), NOTHING, NOTHING);
    }
    hide Report, ReadCheck, At, BodyBytes, GreFlags, W.HeaderEnd, W.WithScope;
  }

  lemma GreFound(f: bytes, l: W.Layout, off: nat, end: nat, pseudo: seq<(nat, nat)>, depth: nat, b: Body, text: bytes,
                 ipv4: bool)
    requires Carrying(f, l, off, end, pseudo, depth, b, text) && b.GreTunnel?
    ensures BodyFits(b) && Found(f, l, W.Gre(f, l, off, end, depth), BodyCarries(b, text, ipv4), BodyPayload(b))
    decreases b, 1
  {
    hide Report, At, BodyFits, BodyBytes, GreFits, GreFlags, CarriedFits, CarriedType, CarriedBytes, CarriedCarries,
      CarriedPayload, W.Gre, W.GreScope, W.GreEnd, Descend, W.HeaderEnd, U16, PseudoBytes;
    var cur := off + 4 + |b.fields.words|;
    GreLaid(f, off, b);
    GreEnds(b.fields, off);
    GreUnfolds(f, l, off, end, depth);
    AtEnds(f, cur, CarriedBytes(b.carried));
    GreScopeFound(f, l, off, end, b, cur);
    var m := W.HeaderEnd(f, W.GreScope(f, l, off, end), cur);
    CarriedFound(f, m, cur, depth + 1, b.carried);
    FoundThen(f, l, m, Descend(f, m, CarriedType(b.carried), cur, depth + 1),
              Carries([], if b.fields.checked then [Check(BodyBytes(b), 4, [])] else []),
              CarriedCarries(b.carried), CarriedPayload(b.carried));
  }

  // --- IPv6 ---------------------------------------------------------------------------------------

  lemma Ip6Fields(f: bytes, off: nat, n: Net)
    requires n.Ip6? && NetFits(n) && At(f, off, NetBytes(n))
    ensures BodyFits(n.body) && ExtensionsFit(n.extensions) && Protocol(n.body) !in W.IPV6_EXTENSIONS
    ensures W.Has(f, off, 40) && f[off] / 16 == 6 && f[off + 6] == FirstHeader(n.extensions, Protocol(n.body))
    ensures U16(f, off + 4) == |ExtensionBytes(n.extensions, Protocol(n.body))| + |BodyBytes(n.body)|
    ensures At(f, off + 8, n.src) && At(f, off + 24, n.dst)
    ensures At(f, off + 40, ExtensionBytes(n.extensions, Protocol(n.body)) + BodyBytes(n.body))
  {
    var h, rest := Ip6Header(n), ExtensionBytes(n.extensions, Protocol(n.body)) + BodyBytes(n.body);
    AtParts(f, off, h, rest);
    AtByte(f, off, h);
    assert f[off + 0] == h[0] == n.flow[0];
    assert f[off + 4] == h[4] && f[off + 5] == h[5] && f[off + 6] == h[6];
    assert h[8..24] == n.src && h[24..40] == n.dst;
    assert f[off + 8..off + 24] == f[off..off + |h|][8..24];
    assert f[off + 24..off + 40] == f[off..off + |h|][24..40];
  }

  lemma ExtensionFields(f: bytes, cur: nat, e: Extension, next: byte, rest: bytes)
    requires ExtensionFits(e) && At(f, cur, [next, e.second] + e.data + rest)
    ensures W.Has(f, cur, 2) && f[cur] == next && f[cur + 1] == e.second && At(f, cur + 2 + |e.data|, rest)
    ensures e.kind == 44 ==> W.Has(f, cur, 8) && U16(f, cur + 2) == U16(e.data, 0)
  {
    AtParts(f, cur, [next, e.second] + e.data, rest);
    AtParts(f, cur, [next, e.second], e.data);
    AtByte(f, cur, [next, e.second]);
    AtByte(f, cur + 2, e.data);
    assert f[cur + 0] == next;
    assert e.kind == 44 ==> f[cur + 2 + 0] == e.data[0] && f[cur + 2 + 1] == e.data[1];
  }

  lemma SkipStep(f: bytes, l: W.Layout, cur: nat, e: Extension)
    requires ExtensionFits(e) && W.Has(f, cur, 2) && f[cur + 1] == e.second
    requires e.kind == 44 ==> W.Has(f, cur, 8) && U16(f, cur + 2) == U16(e.data, 0)
    ensures var end := cur + 2 + |e.data|;
            W.SkipExtensions(f, l, e.kind, cur) == W.SkipExtensions(f, W.HeaderEnd(f, l, end), f[cur], end)
  {
    hide W.HeaderEnd, U16;
  }

  /** The extension headers are passed over, and the walker stands at the transport header. */
  lemma {:induction false} ExtensionsPassed(f: bytes, l: W.Layout, cur: nat, extensions: seq<Extension>, proto: byte,
                                            rest: bytes)
    requires ExtensionsFit(extensions) && proto !in W.IPV6_EXTENSIONS && l.payloadStart == cur
    requires At(f, cur, ExtensionBytes(extensions, proto) + rest)
    ensures var r := W.SkipExtensions(f, l, FirstHeader(extensions, proto), cur);
            && r.Go? && r.next == proto && r.cur == cur + |ExtensionBytes(extensions, proto)| == r.l.payloadStart
            && Report(f, r.l) == Report(f, l) && At(f, r.cur, rest)
    decreases |extensions|
  {
    if |extensions| == 0 {
      assert ExtensionBytes(extensions, proto) + rest == rest;
    } else {
      var e, tail := extensions[0], extensions[1..];
      var next := FirstHeader(tail, proto);
      var more := ExtensionBytes(tail, proto) + rest;
      assert ExtensionBytes(extensions, proto) + rest == [next, e.second] + e.data + more;
      assert ExtensionFits(e);
      ExtensionFields(f, cur, e, next, more);
      AtEnds(f, cur + 2 + |e.data|, more);
      HeaderEndFound(f, l, cur + 2 + |e.data|);
      assert FirstHeader(extensions, proto) == e.kind;
      SkipStep(f, l, cur, e);
      hide Report, At, W.HeaderEnd, U16, W.SkipExtensions, ExtensionFits;
      ExtensionsPassed(f, W.HeaderEnd(f, l, cur + 2 + |e.data|), cur + 2 + |e.data|, tail, proto, rest);
    }
  }

  lemma Ip6Unfolds(f: bytes, l: W.Layout, off: nat, depth: nat)
    requires depth <= W.MAX_DEPTH && W.Has(f, off, 40) && f[off] / 16 == 6
    ensures var l1 := W.HeaderEnd(f, W.WithAddress(f, W.WithAddress(f, l, off + 8, W.V6), off + 24, W.V6), off + 40);
            W.Ipv6(f, l, off, depth) ==
            match W.SkipExtensions(f, l1, f[off + 6], off + 40)
            case Stop(l2) => l2
            case Go(l2, next, cur) =>
              W.TransportLayer(f, l2, next, cur, W.Ipv6End(f, off), [(off + 8, 16), (off + 24, 16)], depth, false)
  {
    hide W.WithAddress, W.HeaderEnd, W.SkipExtensions, W.TransportLayer, W.Ipv6End;
  }

  lemma Ip6AddressesFound(f: bytes, l: W.Layout, off: nat, n: Net)
    requires n.Ip6? && NetFits(n) && At(f, off + 8, n.src) && At(f, off + 24, n.dst)
    ensures var r := W.HeaderEnd(f, W.WithAddress(f, W.WithAddress(f, l, off + 8, W.V6), off + 24, W.V6), off + 40);
            && Report(f, r) == And(Report(f, l), Carries([(W.V6, n.src), (W.V6, n.dst)], []))
            && r.payloadStart == off + 40
  {
    AtEnds(f, off + 24, n.dst);
    var l1 := W.WithAddress(f, l, off + 8, W.V6);
    AddressFound(f, l, off + 8, W.V6, n.src);
    AddressFound(f, l1, off + 24, W.V6, n.dst);
    HeaderEndFound(f, W.WithAddress(f, l1, off + 24, W.V6), off + 40);
    hide Report, At, W.WithAddress, W.HeaderEnd;
  }

  lemma Ip6Found(f: bytes, l: W.Layout, off: nat, depth: nat, n: Net)
    requires n.Ip6? && NetFits(n) && At(f, off, NetBytes(n)) && depth + NetDepth(n) <= W.MAX_DEPTH
    ensures Found(f, l, W.Ipv6(f, l, off, depth), NetCarries(n), NetPayload(n))
    decreases n, 1
  {
    hide Report, At, NetFits, NetBytes, BodyFits, BodyBytes, ExtensionsFit, ExtensionBytes, FirstHeader, BodyCarries,
      BodyPayload, PseudoBytes, U16, W.Ipv6, W.Ipv6End, W.SkipExtensions, W.WithAddress, W.HeaderEnd, W.TransportLayer;
    var body, proto := n.body, Protocol(n.body);
    Ip6Fields(f, off, n);
    Ip6AddressesFound(f, l, off, n);
    Ip6Unfolds(f, l, off, depth);
    var l1 := W.HeaderEnd(f, W.WithAddress(f, W.WithAddress(f, l, off + 8, W.V6), off + 24, W.V6), off + 40);
    ExtensionsPassed(f, l1, off + 40, n.extensions, proto, BodyBytes(body));
    var pseudo: seq<(nat, nat)> := [(off + 8, 16), (off + 24, 16)];
    Ip6Ends(f, off, n);
    var end := W.Ipv6End(f, off);
    var skipped := W.SkipExtensions(f, l1, f[off + 6], off + 40);
    BodyFound(f, skipped.l, skipped.cur, end, pseudo, depth, false, body, n.src + n.dst);
    FoundThen(f, l, skipped.l, W.TransportLayer(f, skipped.l, proto, skipped.cur, end, pseudo, depth, false),
              Carries([(W.V6, n.src), (W.V6, n.dst)], []), BodyCarries(body, n.src + n.dst, false), BodyPayload(body));
  }

  lemma Ip6Ends(f: bytes, off: nat, n: Net)
    requires n.Ip6? && NetFits(n) && At(f, off, NetBytes(n)) && W.Has(f, off, 40)
    ensures var extensions := ExtensionBytes(n.extensions, Protocol(n.body));
            n.body.OtherBody? || W.Ipv6End(f, off) == off + 40 + |extensions| + |BodyBytes(n.body)|
    ensures PseudoBytes(f, [(off + 8, 16), (off + 24, 16)]) == n.src + n.dst
  {
    Ip6Fields(f, off, n);
    assert |n.src| == 16 && |n.dst| == 16;
    if !n.body.OtherBody? {
      BodiesAreNotEmpty(n.body);
    }
    AtEnds(f, off + 40, ExtensionBytes(n.extensions, Protocol(n.body)) + BodyBytes(n.body));
    hide At, NetFits, NetBytes, BodyFits, BodyBytes, ExtensionsFit, ExtensionBytes, U16, PseudoBytes;
    PairOfAddresses(f, off + 8, off + 24, n.src, n.dst);
  }

  lemma BodiesAreNotEmpty(b: Body)
    requires BodyFits(b) && !b.OtherBody?
    ensures |BodyBytes(b)| > 0
  {
    if b.IpTunnel? {
      assert NetFits(b.quoted) && |NetBytes(b.quoted)| >= 20;
    }
  }

  // --- link layer -----------------------------------------------------------------------------------

  lemma ArpFound(f: bytes, l: W.Layout, off: nat, n: Net)
    requires n.Arp? && NetFits(n) && At(f, off, NetBytes(n))
    ensures Found(f, l, W.Arp(f, l, off), NetCarries(n), [])
  {
    var head := n.hardware + Two(W.ETH_IPV4) + [6, 4] + n.operation;
    var sender, target := n.sender + n.senderIp, n.target + n.targetIp;
    assert NetBytes(n) == head + (sender + target);
    AtParts(f, off, head, sender + target);
    AtByte(f, off, head);
    assert f[off + 2] == head[2] && f[off + 3] == head[3] && f[off + 4] == head[4] && f[off + 5] == head[5];
    AtParts(f, off + 8, sender, target);
    AtParts(f, off + 8, n.sender, n.senderIp);
    AtParts(f, off + 18, n.target, n.targetIp);
    AtEnds(f, off + 24, n.targetIp);
    hide Report, At, NetBytes, W.WithAddress, W.HeaderEnd;
    ArpAddressesFound(f, l, off, n);
  }

  lemma HardwareAndIpFound(f: bytes, l: W.Layout, off: nat, mac: bytes, ip: bytes)
    requires |mac| == 6 && |ip| == 4 && At(f, off, mac) && At(f, off + 6, ip)
    ensures Report(f, W.WithAddress(f, W.WithAddress(f, l, off, W.Mac), off + 6, W.V4)) ==
            And(Report(f, l), Carries([(W.Mac, mac), (W.V4, ip)], []))
  {
    hide Report, At, W.WithAddress;
    AddressFound(f, l, off, W.Mac, mac);
    AddressFound(f, W.WithAddress(f, l, off, W.Mac), off + 6, W.V4, ip);
  }

  lemma ArpAddressesFound(f: bytes, l: W.Layout, off: nat, n: Net)
    requires n.Arp? && NetFits(n)
    requires At(f, off + 8, n.sender) && At(f, off + 14, n.senderIp)
    requires At(f, off + 18, n.target) && At(f, off + 24, n.targetIp)
    ensures var l1 := W.WithAddress(f, W.WithAddress(f, l, off + 8, W.Mac), off + 14, W.V4);
            var r := W.HeaderEnd(f, W.WithAddress(f, W.WithAddress(f, l1, off + 18, W.Mac), off + 24, W.V4), off + 28);
            Found(f, l, r, NetCarries(n), [])
  {
    assert |n.sender| == 6 && |n.senderIp| == 4 && |n.target| == 6 && |n.targetIp| == 4;
    AtEnds(f, off + 24, n.targetIp);
    hide Report, At, NetFits, W.WithAddress, W.HeaderEnd;
    NothingIsAt(f, off + 28);
    var l1 := W.WithAddress(f, W.WithAddress(f, l, off + 8, W.Mac), off + 14, W.V4);
    HardwareAndIpFound(f, l, off + 8, n.sender, n.senderIp);
    HardwareAndIpFound(f, l1, off + 18, n.target, n.targetIp);
    HeaderEndFound(f, W.WithAddress(f, W.WithAddress(f, l1, off + 18, W.Mac), off + 24, W.V4), off + 28);
    AndIsAssociative(Report(f, l), Carries([(W.Mac, n.sender), (W.V4, n.senderIp)], []),
                     Carries([(W.Mac, n.target), (W.V4, n.targetIp)], []));
  }

  lemma NothingIsAt(f: bytes, off: nat)
    ensures off <= |f| ==> At(f, off, [])
  {
  }

  lemma RawIpFound(f: bytes, l: W.Layout, off: nat, depth: nat, n: Net)
    requires IsIp(n) && NetFits(n) && At(f, off, NetBytes(n)) && depth + NetDepth(n) <= W.MAX_DEPTH
    ensures Found(f, l, W.RawIp(f, l, off, depth), NetCarries(n), NetPayload(n))
    decreases n, 2
  {
    hide Found, At, NetFits, NetBytes, NetCarries, NetPayload, W.Ipv4, W.Ipv6;
    if n.Ip4? {
      Ip4Fields(f, off, n);
      Ip4Found(f, l, off, depth, n);
    } else {
      Ip6Fields(f, off, n);
      Ip6Found(f, l, off, depth, n);
    }
  }

  lemma Grouped(a: bytes, b: bytes, c: bytes)
    ensures (a + b) + c == a + (b + c)
  {
  }

  lemma LabelLaid(f: bytes, off: nat, labels: seq<bytes>, below: bytes)
    requires LabelsFit(labels) && At(f, off, Concat(labels) + below)
    ensures |labels| > 0 && W.Has(f, off, 4) && (f[off + 2] % 2 == 1 <==> |labels| == 1)
    ensures |labels| > 1 ==> LabelsFit(labels[1..]) && At(f, off + 4, Concat(labels[1..]) + below)
    ensures |labels| == 1 ==> At(f, off + 4, below)
  {
    hide LabelsFit, Concat;
    LabelsSplit(labels);
    var label0, more := labels[0], Concat(labels[1..]);
    Grouped(label0, more, below);
    AtParts(f, off, label0, more + below);
    AtByte(f, off, label0);
    assert f[off + 2] == label0[2];
    if |labels| == 1 {
      assert more + below == below;
    }
  }

  lemma LabelsSplit(labels: seq<bytes>)
    requires LabelsFit(labels)
    ensures |labels| > 0 && |labels[0]| == 4 && (labels[0][2] % 2 == 1 <==> |labels| == 1)
    ensures Concat(labels) == labels[0] + Concat(labels[1..])
    ensures if |labels| == 1 then Concat(labels[1..]) == [] else LabelsFit(labels[1..])
  {
  }

  /** Down the label stack to its bottom. */
  lemma MplsFound(f: bytes, l: W.Layout, off: nat, depth: nat, labels: seq<bytes>, n: Net)
    requires LabelsFit(labels) && IsIp(n) && NetFits(n) && At(f, off, Concat(labels) + NetBytes(n))
    requires depth + NetDepth(n) <= W.MAX_DEPTH
    ensures Found(f, l, W.Mpls(f, l, off, depth), NetCarries(n), NetPayload(n))
    decreases n, 3, |labels|
  {
    hide Report, At, LabelsFit, Concat, NetFits, NetBytes, NetCarries, NetPayload, W.HeaderEnd, W.RawIp;
    LabelLaid(f, off, labels, NetBytes(n));
    HeaderEndFound(f, l, off + 4);
    var l1 := W.HeaderEnd(f, l, off + 4);
    if |labels| <= 1 {
      RawIpFound(f, l1, off + 4, depth, n);
    } else {
      MplsFound(f, l1, off + 4, depth, labels[1..], n);
    }
  }

  lemma PppoeFound(f: bytes, l: W.Layout, off: nat, depth: nat, n: Net)
    requires n.Pppoe? && NetFits(n) && At(f, off, NetBytes(n)) && depth + NetDepth(n) <= W.MAX_DEPTH
    ensures Found(f, l, W.Pppoe(f, l, off, depth), NetCarries(n), NetPayload(n))
    decreases n, 2
  {
    var protocol: nat, inner := if n.inside.Ip4? then 0x0021 else 0x0057, NetBytes(n.inside);
    assert NetBytes(n) == n.session + Two(protocol) + inner && NetFits(n.inside) && IsIp(n.inside);
    AtParts(f, off, n.session + Two(protocol), inner);
    AtParts(f, off, n.session, Two(protocol));
    AtTwo(f, off + 6, protocol);
    HeaderEndFound(f, l, off + 8);
    var l1 := W.HeaderEnd(f, l, off + 8);
    hide Report, At, NetFits, NetBytes, W.HeaderEnd, W.Ipv4, W.Ipv6, U16;
    if n.inside.Ip4? {
      Ip4Found(f, l1, off + 8, depth, n.inside);
    } else {
      Ip6Found(f, l1, off + 8, depth, n.inside);
    }
  }

  lemma MplsLaid(n: Net)
    requires n.Mpls? && NetFits(n)
    ensures LabelsFit(n.labels) && IsIp(n.labelled) && NetFits(n.labelled)
    ensures NetBytes(n) == Concat(n.labels) + NetBytes(n.labelled) && NetDepth(n) == NetDepth(n.labelled)
    ensures NetCarries(n) == NetCarries(n.labelled) && NetPayload(n) == NetPayload(n.labelled)
  {
  }

  lemma EthertypeUnfolds(f: bytes, l: W.Layout, n: Net, off: nat, depth: nat)
    requires n.OtherNet? ==> !KnownEthertype(n.etype)
    ensures W.Ethertype(f, l, Ethertype(n), off, depth) ==
            match n
            case Ip4(_, _, _, _, _, _, _, _, _) => W.Ipv4(f, l, off, depth)
            case Ip6(_, _, _, _, _, _) => W.Ipv6(f, l, off, depth)
            case Arp(_, _, _, _, _, _) => W.Arp(f, l, off)
            case Mpls(_, _) => W.Mpls(f, l, off, depth)
            case Pppoe(_, _) => W.Pppoe(f, l, off, depth)
            case OtherNet(_, _) => l
  {
    hide W.Ipv4, W.Ipv6, W.Arp, W.Mpls, W.Pppoe, W.HeaderEnd;
  }

  lemma NetFound(f: bytes, l: W.Layout, off: nat, depth: nat, n: Net)
    requires NetFits(n) && At(f, off, NetBytes(n)) && depth + NetDepth(n) <= W.MAX_DEPTH && l.payloadStart == off
    ensures Found(f, l, W.Ethertype(f, l, Ethertype(n), off, depth), NetCarries(n), NetPayload(n))
    decreases n, 4
  {
    assert n.OtherNet? ==> NetBytes(n) == n.payload == NetPayload(n) && NetCarries(n) == NOTHING;
    assert n.OtherNet? ==> !KnownEthertype(n.etype);
    assert n.Arp? ==> NetPayload(n) == [];
    hide Report, At, NetFits, NetBytes, NetCarries, NetPayload, NetDepth, Ethertype, KnownEthertype,
      W.Ethertype, W.Ipv4, W.Ipv6, W.Arp, W.Mpls, W.Pppoe;
    EthertypeUnfolds(f, l, n, off, depth);
    if n.Ip4? {
      Ip4Found(f, l, off, depth, n);
    } else if n.Ip6? {
      Ip6Found(f, l, off, depth, n);
    } else if n.Arp? {
      ArpFound(f, l, off, n);
    } else if n.Mpls? {
      MplsLaid(n);
      MplsFound(f, l, off, depth, n.labels, n.labelled);
    } else if n.Pppoe? {
      PppoeFound(f, l, off, depth, n);
    } else {
      AndIsAssociative(Report(f, l), NOTHING, NOTHING);
    }
  }

  /** Through any VLAN tags. */
  lemma TaggedFound(f: bytes, l: W.Layout, off: nat, depth: nat, tags: seq<Tag>, n: Net)
    requires TagsFit(tags) && NetFits(n) && At(f, off, TaggedBytes(tags, n))
    requires depth + NetDepth(n) <= W.MAX_DEPTH && l.payloadStart == off + 2
    ensures W.Has(f, off, 2)
    ensures Found(f, l, W.Ethertype(f, l, U16(f, off), off + 2, depth), NetCarries(n), NetPayload(n))
    decreases n, 5, |tags|
  {
    if |tags| == 0 {
      AtParts(f, off, Two(Ethertype(n)), NetBytes(n));
      AtTwo(f, off, Ethertype(n));
      hide Found, At, W.Ethertype, NetBytes;
      NetFound(f, l, off + 2, depth, n);
    } else {
      var rest := TaggedBytes(tags[1..], n);
      AtParts(f, off, Two(tags[0].tpid), tags[0].tci + rest);
      AtTwo(f, off, tags[0].tpid);
      AtParts(f, off + 2, tags[0].tci, rest);
      var l1 := W.HeaderEnd(f, l, off + 6);
      TagStep(f, l, off, depth, tags[0].tpid);
      hide Report, W.Ethertype, W.HeaderEnd, NetBytes, TaggedBytes;
      TagHeader(f, l, off, rest, n, tags[1..]);
      TaggedFound(f, l1, off + 4, depth, tags[1..], n);
    }
  }

  lemma TaggedIsLong(tags: seq<Tag>, n: Net)
    requires TagsFit(tags) && NetFits(n)
    ensures |TaggedBytes(tags, n)| >= 2
  {
  }

  lemma TagHeader(f: bytes, l: W.Layout, off: nat, rest: bytes, n: Net, tags: seq<Tag>)
    requires TagsFit(tags) && NetFits(n) && rest == TaggedBytes(tags, n) && At(f, off + 4, rest)
    ensures off + 6 <= |f| && Report(f, W.HeaderEnd(f, l, off + 6)) == Report(f, l)
    ensures W.HeaderEnd(f, l, off + 6).payloadStart == off + 6
  {
    TaggedIsLong(tags, n);
    HeaderEndFound(f, l, off + 6);
  }

  lemma TagStep(f: bytes, l: W.Layout, off: nat, depth: nat, tpid: nat)
    requires tpid in W.ETH_VLAN && off + 6 <= |f|
    ensures W.Ethertype(f, l, tpid, off + 2, depth) ==
            W.Ethertype(f, W.HeaderEnd(f, l, off + 6), U16(f, off + 4), off + 6, depth)
  {
    hide W.HeaderEnd, U16;
  }

  lemma FrameFound(f: bytes, l: W.Layout, off: nat, depth: nat, p: Frame)
    requires FrameFits(p) && At(f, off, FrameBytes(p)) && depth + FrameDepth(p) <= W.MAX_DEPTH
    ensures Found(f, l, W.Ethernet(f, l, off, depth), FrameCarries(p), FramePayload(p))
    decreases p, 3
  {
    var rest := TaggedBytes(p.tags, p.net);
    AtParts(f, off, p.dst, p.src + rest);
    AtParts(f, off + 6, p.src, rest);
    var l1 := W.WithAddress(f, l, off, W.Mac);
    var l2 := W.WithAddress(f, l1, off + 6, W.Mac);
    TagHeader(f, l2, off + 8, rest, p.net, p.tags);
    AddressFound(f, l, off, W.Mac, p.dst);
    AddressFound(f, l1, off + 6, W.Mac, p.src);
    var l3 := W.HeaderEnd(f, l2, off + 14);
    FrameUnfolds(f, l, off, depth);
    hide Report, At, W.Ethernet, W.Ethertype, W.WithAddress, W.HeaderEnd, NetBytes, TaggedBytes, NetCarries,
      NetPayload, U16;
    TaggedFound(f, l3, off + 12, depth, p.tags, p.net);
    FoundThen(f, l, l3, W.Ethertype(f, l3, U16(f, off + 12), off + 14, depth),
              Carries([(W.Mac, p.dst), (W.Mac, p.src)], []), NetCarries(p.net), NetPayload(p.net));
  }

  lemma FrameUnfolds(f: bytes, l: W.Layout, off: nat, depth: nat)
    requires depth <= W.MAX_DEPTH && W.Has(f, off, 14)
    ensures W.Ethernet(f, l, off, depth) ==
            W.Ethertype(f, W.HeaderEnd(f, W.WithAddress(f, W.WithAddress(f, l, off, W.Mac), off + 6, W.Mac), off + 14),
                        U16(f, off + 12), off + 14, depth)
  {
    hide W.WithAddress, W.HeaderEnd, W.Ethertype, U16;
  }

  /**
   * The walk of an Ethernet frame, padded or not: its addresses in order, its checksums with the
   * bytes they cover and the addresses they add, and its payload.
   */
  lemma WalkFindsThePacket(p: Frame, padding: bytes)
    requires FrameFits(p) && FrameDepth(p) <= W.MAX_DEPTH
    ensures var f := FrameBytes(p) + padding; var r := W.Walk(f, 1);
            Report(f, r) == FrameCarries(p) && At(f, r.payloadStart, FramePayload(p))
  {
    var f := FrameBytes(p) + padding;
    assert f[0..0 + |FrameBytes(p)|] == FrameBytes(p);
    FrameFound(f, W.EMPTY, 0, 0, p);
    hide FrameBytes, W.Ethernet, FrameCarries, FramePayload;
    assert |W.EMPTY.addresses| == 0 && |W.EMPTY.scopes| == 0;
    assert Report(f, W.EMPTY).addresses == [] && Report(f, W.EMPTY).checks == [];
    AndIsAssociative(FrameCarries(p), NOTHING, NOTHING);
  }

  // --- the other link types -----------------------------------------------------------------------

  lemma FoundFromNothing(f: bytes, r: W.Layout, c: Carries, payload: bytes)
    requires Found(f, W.EMPTY, r, c, payload)
    ensures Report(f, r) == c && At(f, r.payloadStart, payload)
  {
    assert |W.EMPTY.addresses| == 0 && |W.EMPTY.scopes| == 0;
    assert Report(f, W.EMPTY).addresses == [] && Report(f, W.EMPTY).checks == [];
    AndIsAssociative(c, NOTHING, NOTHING);
  }

  lemma WalkFindsRawIp(n: Net, padding: bytes, linktype: int)
    requires IsIp(n) && NetFits(n) && NetDepth(n) <= W.MAX_DEPTH && linktype in {12, 14, 101}
    ensures var f := NetBytes(n) + padding; var r := W.Walk(f, linktype);
            Report(f, r) == NetCarries(n) && At(f, r.payloadStart, NetPayload(n))
  {
    var f := NetBytes(n) + padding;
    assert f[0..0 + |NetBytes(n)|] == NetBytes(n);
    RawIpWalk(f, linktype);
    hide Report, NetFits, NetBytes, NetCarries, NetPayload, NetDepth, IsIp, W.RawIp, W.Walk;
    RawIpFound(f, W.EMPTY, 0, 0, n);
    FoundFromNothing(f, W.RawIp(f, W.EMPTY, 0, 0), NetCarries(n), NetPayload(n));
  }

  lemma RawIpWalk(f: bytes, linktype: int)
    requires linktype in {12, 14, 101}
    ensures W.Walk(f, linktype) == W.RawIp(f, W.EMPTY, 0, 0)
  {
    hide W.RawIp;
  }

  /** BSD loopback: the address family in network order, or, for type 0, in either. */
  predicate FamilyOf(family: bytes, n: Net, linktype: int) {
    var known: set<byte> := if n.Ip4? then {2} else {10, 24, 28, 30};
    && linktype in {0, 108} && |family| == 4
    && ((family[3] in known && family[..3] == [0, 0, 0])
        || (linktype == 0 && family[0] in known && family[1..] == [0, 0, 0]))
  }

  lemma FamilyRead(f: bytes, family: bytes, n: Net, linktype: int)
    requires IsIp(n) && FamilyOf(family, n, linktype) && At(f, 0, family)
    ensures W.Has(f, 0, 4) && (2 in W.Families(f, linktype) <==> n.Ip4?)
    ensures n.Ip6? ==> exists v :: v in W.Families(f, linktype) && v in {10, 24, 28, 30}
  {
    AtByte(f, 0, family);
    assert f[0 + 0] == family[0] && f[0 + 1] == family[1] && f[0 + 2] == family[2] && f[0 + 3] == family[3];
    if family[3] != 0 {
      assert family[..3][0] == 0 && family[..3][1] == 0 && family[..3][2] == 0;
      assert W.FamilyBig(f) == family[3] as int;
      assert W.FamilyBig(f) in W.Families(f, linktype);
    } else {
      assert family[1..][0] == 0 && family[1..][1] == 0 && family[1..][2] == 0;
      assert W.FamilyLittle(f) == family[0] as int;
      assert W.FamilyLittle(f) in W.Families(f, linktype);
    }
  }

  lemma WalkFindsLoopback(family: bytes, n: Net, padding: bytes, linktype: int)
    requires IsIp(n) && NetFits(n) && NetDepth(n) <= W.MAX_DEPTH && FamilyOf(family, n, linktype)
    ensures var f := family + NetBytes(n) + padding; var r := W.Walk(f, linktype);
            Report(f, r) == NetCarries(n) && At(f, r.payloadStart, NetPayload(n))
  {
    hide Report, NetFits, NetBytes, NetCarries, NetPayload, W.Families, W.Ipv4, W.Ipv6, W.HeaderEnd, W.Loopback;
    var f := family + NetBytes(n) + padding;
    assert f[0..0 + 4] == family && f[4..4 + |NetBytes(n)|] == NetBytes(n);
    FamilyRead(f, family, n, linktype);
    hide FamilyOf, At;
    LoopbackFound(f, n, linktype);
    FoundFromNothing(f, W.Loopback(f, W.EMPTY, linktype), NetCarries(n), NetPayload(n));
  }

  lemma LoopbackFound(f: bytes, n: Net, linktype: int)
    requires IsIp(n) && NetFits(n) && NetDepth(n) <= W.MAX_DEPTH && At(f, 4, NetBytes(n))
    requires W.Has(f, 0, 4) && (2 in W.Families(f, linktype) <==> n.Ip4?)
    requires n.Ip6? ==> exists v :: v in W.Families(f, linktype) && v in {10, 24, 28, 30}
    ensures Found(f, W.EMPTY, W.Loopback(f, W.EMPTY, linktype), NetCarries(n), NetPayload(n))
  {
    hide Report, At, NetFits, NetBytes, NetCarries, NetPayload, W.Families, W.Ipv4, W.Ipv6, W.HeaderEnd;
    HeaderEndFound(f, W.EMPTY, 4);
    var l1 := W.HeaderEnd(f, W.EMPTY, 4);
    if n.Ip4? {
      Ip4Found(f, l1, 4, 0, n);
    } else {
      Ip6Found(f, l1, 4, 0, n);
    }
  }

  lemma EthertypeIsShort(n: Net)
    requires NetFits(n)
    ensures Ethertype(n) <= 0xFFFF
  {
  }

  /** A cooked header: the sender's link address, when its length is right, and then the packet. */
  lemma CookedFound(f: bytes, at: nat, known: bool, off: nat, address: bytes, n: Net)
    requires NetFits(n) && NetDepth(n) <= W.MAX_DEPTH && |address| == 6
    requires At(f, at, address) && At(f, off, NetBytes(n))
    ensures var l1 := if known then W.WithAddress(f, W.EMPTY, at, W.Mac) else W.EMPTY;
            var r := W.Ethertype(f, W.HeaderEnd(f, l1, off), Ethertype(n), off, 0);
            && Report(f, r) == And(Carries(if known then [(W.Mac, address)] else [], []), NetCarries(n))
            && At(f, r.payloadStart, NetPayload(n))
  {
    AtEnds(f, off, NetBytes(n));
    hide Report, At, NetFits, NetBytes, NetCarries, NetPayload, Ethertype, W.Ethertype, W.WithAddress, W.HeaderEnd;
    var l := W.EMPTY;
    var l1 := if known then W.WithAddress(f, l, at, W.Mac) else l;
    var l2 := W.HeaderEnd(f, l1, off);
    var own := Carries(if known then [(W.Mac, address)] else [], []);
    if known {
      AddressFound(f, l, at, W.Mac, address);
    } else {
      AndIsAssociative(Report(f, l), NOTHING, NOTHING);
    }
    HeaderEndFound(f, l1, off);
    NetFound(f, l2, off, 0, n);
    FoundThen(f, l, l2, W.Ethertype(f, l2, Ethertype(n), off, 0), own, NetCarries(n), NetPayload(n));
    FoundFromNothing(f, W.Ethertype(f, l2, Ethertype(n), off, 0), And(own, NetCarries(n)), NetPayload(n));
  }

  /** Linux cooked v1: four bytes, the length, the address, its padding, and the ethertype. */
  function CookedHeader(head: bytes, length: nat, address: bytes, spare: bytes, etype: nat): bytes
    requires length <= 0xFFFF && etype <= 0xFFFF
  {
    head + (Two(length) + (address + (spare + Two(etype))))
  }

  lemma WalkFindsCooked(head: bytes, length: nat, address: bytes, spare: bytes, n: Net, padding: bytes)
    requires |head| == 4 && length <= 0xFFFF && |address| == 6 && |spare| == 2
    requires NetFits(n) && NetDepth(n) <= W.MAX_DEPTH
    ensures var f := CookedHeader(head, length, address, spare, Ethertype(n)) + (NetBytes(n) + padding);
            var r := W.Walk(f, 113);
            && Report(f, r) == And(Carries(if length == 6 then [(W.Mac, address)] else [], []), NetCarries(n))
            && At(f, r.payloadStart, NetPayload(n))
  {
    hide Report, NetFits, NetBytes, NetCarries, NetPayload, Ethertype, U16, Two, W.Ethertype, W.WithAddress,
      W.HeaderEnd;
    EthertypeIsShort(n);
    var header, rest := CookedHeader(head, length, address, spare, Ethertype(n)), NetBytes(n) + padding;
    var f := header + rest;
    assert f[0..0 + |f|] == f;
    hide At;
    AtParts(f, 0, header, rest);
    AtParts(f, 16, NetBytes(n), padding);
    AtParts(f, 0, head, Two(length) + (address + (spare + Two(Ethertype(n)))));
    AtParts(f, 4, Two(length), address + (spare + Two(Ethertype(n))));
    AtParts(f, 6, address, spare + Two(Ethertype(n)));
    AtParts(f, 12, spare, Two(Ethertype(n)));
    AtTwo(f, 4, length);
    AtTwo(f, 14, Ethertype(n));
    AtEnds(f, 16, NetBytes(n));
    CookedFound(f, 6, length == 6, 16, address, n);
  }

  /** Linux cooked v2: the ethertype, nine bytes, the length, the address and its padding. */
  function Cooked2Header(etype: nat, middle: bytes, length: byte, address: bytes, spare: bytes): bytes
    requires etype <= 0xFFFF
  {
    Two(etype) + (middle + ([length] + (address + spare)))
  }

  lemma WalkFindsCooked2(middle: bytes, length: byte, address: bytes, spare: bytes, n: Net, padding: bytes)
    requires |middle| == 9 && |address| == 6 && |spare| == 2
    requires NetFits(n) && NetDepth(n) <= W.MAX_DEPTH
    ensures var f := Cooked2Header(Ethertype(n), middle, length, address, spare) + (NetBytes(n) + padding);
            var r := W.Walk(f, 276);
            && Report(f, r) == And(Carries(if length == 6 then [(W.Mac, address)] else [], []), NetCarries(n))
            && At(f, r.payloadStart, NetPayload(n))
  {
    hide Report, NetFits, NetBytes, NetCarries, NetPayload, Ethertype, U16, Two, W.Ethertype, W.WithAddress,
      W.HeaderEnd;
    EthertypeIsShort(n);
    var header, rest := Cooked2Header(Ethertype(n), middle, length, address, spare), NetBytes(n) + padding;
    var f := header + rest;
    assert f[0..0 + |f|] == f;
    hide At;
    AtParts(f, 0, header, rest);
    AtParts(f, 20, NetBytes(n), padding);
    AtParts(f, 0, Two(Ethertype(n)), middle + ([length] + (address + spare)));
    AtParts(f, 2, middle, [length] + (address + spare));
    AtParts(f, 11, [length], address + spare);
    AtParts(f, 12, address, spare);
    AtTwo(f, 0, Ethertype(n));
    AtByte(f, 11, [length]);
    assert f[11 + 0] == length;
    AtEnds(f, 20, NetBytes(n));
    CookedFound(f, 12, length == 6, 20, address, n);
  }
}
