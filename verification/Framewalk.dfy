/**
 * What the header walker of backend/framewalk.py finds in a frame, as functions from the
 * layout gathered so far to the layout after a header. The contracts say where the finds lie;
 * `Walker` (Walker.dfy) is the walker itself.
 */
module Framewalk {
  import opened Bytes
  import opened Checksums

  const ETH_IPV4 := 0x0800
  const ETH_ARP := 0x0806
  const ETH_RARP := 0x8035
  const ETH_IPV6 := 0x86DD
  const ETH_VLAN := {0x8100, 0x88A8, 0x9100}
  const ETH_MPLS := {0x8847, 0x8848}
  const ETH_PPPOE_SESSION := 0x8864
  const ETH_TRANSPARENT_BRIDGING := 0x6558
  const VXLAN_PORT := 4789
  const GENEVE_PORT := 6081
  const ICMP_ERRORS := {3, 4, 5, 11, 12}
  const ICMPV6_ERRORS := {1, 2, 3, 4}
  const IPV6_EXTENSIONS := {0, 43, 44, 51, 60}
  const LINKTYPES := {0, 1, 12, 14, 101, 108, 113, 276}
  const MAX_DEPTH := 8

  datatype Kind = Mac | V4 | V6

  function Size(k: Kind): nat {
    match k
    case Mac => 6
    case V4 => 4
    case V6 => 16
  }

  datatype Transport = NoTransport | Tcp(sport: nat, dport: nat) | Udp(sport: nat, dport: nat) | Icmp | Icmpv6

  datatype Layout = Layout(addresses: seq<(nat, Kind)>, scopes: seq<Scope>, payloadStart: nat, transport: Transport)

  const EMPTY := Layout([], [], 0, NoTransport)

  // --- where finds may lie ---------------------------------------------------------

  /** The finds of a frame of `n` bytes: in it, in order, apart, and outermost scope first. */
  ghost predicate Placed(n: nat, l: Layout) {
    && AddressesPlaced(n, l.addresses)
    && ScopesPlaced(n, l.scopes)
    && Apart(l.addresses, l.scopes)
    && l.payloadStart <= n
  }

  ghost predicate AddressesPlaced(n: nat, a: seq<(nat, Kind)>) {
    && (forall i :: 0 <= i < |a| ==> a[i].0 + Size(a[i].1) <= n)
    && forall i, j :: 0 <= i < j < |a| ==> a[i].0 + Size(a[i].1) <= a[j].0
  }

  ghost predicate ScopesPlaced(n: nat, scopes: seq<Scope>) {
    && (forall i :: 0 <= i < |scopes| ==> ScopePlaced(n, scopes[i]))
    && OutsideIn(scopes)
  }

  predicate ScopePlaced(n: nat, s: Scope) {
    && Inside(s, n) && (s.at - s.start) % 2 == 0 && s.end <= n
    && PseudoPlaced(s.start, s.pseudo)
  }

  /** Pseudo-header bytes: whole addresses, all in front of the transport header. */
  predicate PseudoPlaced(start: nat, pseudo: seq<(nat, nat)>) {
    forall k :: 0 <= k < |pseudo| ==> pseudo[k].0 + pseudo[k].1 <= start && pseudo[k].1 % 2 == 0
  }

  /** No address shares a byte with a checksum field. */
  ghost predicate Apart(a: seq<(nat, Kind)>, scopes: seq<Scope>) {
    forall i, k :: 0 <= i < |a| && 0 <= k < |scopes| ==>
      a[i].0 + Size(a[i].1) <= scopes[k].at || scopes[k].at + 2 <= a[i].0
  }

  /** Everything found so far ends by `off`. */
  ghost predicate Behind(l: Layout, off: nat) {
    && (forall i :: 0 <= i < |l.addresses| ==> l.addresses[i].0 + Size(l.addresses[i].1) <= off)
    && (forall k :: 0 <= k < |l.scopes| ==> l.scopes[k].at + 2 <= off)
    && l.payloadStart <= off
  }

  ghost predicate Good(n: nat, l: Layout, off: nat) { Placed(n, l) && Behind(l, off) }

  ghost predicate ScopesBehind(l: Layout, off: nat) {
    forall k :: 0 <= k < |l.scopes| ==> l.scopes[k].at + 2 <= off
  }

  /** What a transport header needs of the pseudo header handed to it. */
  ghost predicate PseudoReady(l: Layout, pseudo: seq<(nat, nat)>, off: nat) {
    PseudoPlaced(off, pseudo) && ScopesBehind(l, Lowest(off, pseudo))
  }

  // --- one find at a time ------------------------------------------------------------

  predicate Has(f: bytes, off: nat, length: nat) { off + length <= |f| }

  function WithAddress(f: bytes, l: Layout, off: nat, k: Kind): (r: Layout)
    ensures Good(|f|, l, off) ==> Good(|f|, r, off + Size(k))
    ensures r.payloadStart == l.payloadStart
    ensures r.scopes == l.scopes
  {
    if Has(f, off, Size(k)) then l.(addresses := l.addresses + [(off, k)]) else l
  }

  function HeaderEnd(f: bytes, l: Layout, off: nat): (r: Layout)
    ensures Good(|f|, l, off) ==> Good(|f|, r, off) && Placed(|f|, r) && l.payloadStart <= r.payloadStart
    ensures r.scopes == l.scopes
  {
    l.(payloadStart := Min(off, |f|))
  }

  /** A scope whose header starts where everything found so far has ended. */
  function WithScope(f: bytes, l: Layout, s: Scope): (r: Layout)
    ensures Good(|f|, l, s.start) && ScopePlaced(|f|, s) && ScopesBehind(l, Lowest(s.start, s.pseudo)) ==>
              Good(|f|, r, s.at + 2)
    ensures Good(|f|, l, s.start) && ScopePlaced(|f|, s) && s.pseudo == [] ==> Good(|f|, r, s.at + 2)
    ensures r.payloadStart == l.payloadStart
  {
    l.(scopes := l.scopes + [s])
  }

  lemma ScopeThenAddress(f: bytes, l: Layout, s: Scope, off: nat, k: Kind)
    ensures WithAddress(f, WithScope(f, l, s), off, k) == WithScope(f, WithAddress(f, l, off, k), s)
  {
  }

  lemma HeaderEndThenAddress(f: bytes, l: Layout, ends: nat, off: nat, k: Kind)
    ensures WithAddress(f, HeaderEnd(f, l, ends), off, k) == HeaderEnd(f, WithAddress(f, l, off, k), ends)
  {
  }

  function WithTransport(f: bytes, l: Layout, off: nat, t: Transport): (r: Layout)
    ensures Good(|f|, l, off) ==> Good(|f|, r, off) && Placed(|f|, r)
    ensures r.payloadStart == l.payloadStart
  {
    l.(transport := t)
  }

  lemma Later(n: nat, l: Layout, a: nat, b: nat)
    ensures Good(n, l, a) && a <= b ==> Good(n, l, b)
  {
  }

  // --- link layer ----------------------------------------------------------------------

  function Levels(depth: nat): nat { if depth <= MAX_DEPTH + 1 then MAX_DEPTH + 2 - depth else 0 }

  function Left(f: bytes, off: nat): nat { if off <= |f| then |f| - off else 0 }

  function Walk(f: bytes, linktype: int): (r: Layout)
    ensures Placed(|f|, r)
  {
    if linktype == 1 then Ethernet(f, EMPTY, 0, 0)
    else if linktype == 113 then Sll(f, EMPTY)
    else if linktype == 276 then Sll2(f, EMPTY)
    else if linktype in {12, 14, 101} then RawIp(f, EMPTY, 0, 0)
    else if linktype in {0, 108} then Loopback(f, EMPTY, linktype)
    else EMPTY
  }

  function Ethernet(f: bytes, l: Layout, off: nat, depth: nat): (r: Layout)
    ensures Good(|f|, l, off) ==> Placed(|f|, r) && l.payloadStart <= r.payloadStart
    decreases Levels(depth), 6, 0
  {
    if depth > MAX_DEPTH || !Has(f, off, 14) then l
    else
      var l1 := WithAddress(f, WithAddress(f, l, off, Mac), off + 6, Mac);
      Later(|f|, l1, off + 12, off + 14);
      Ethertype(f, HeaderEnd(f, l1, off + 14), U16(f, off + 12), off + 14, depth)
  }

  function Sll(f: bytes, l: Layout): (r: Layout)
    ensures Good(|f|, l, 0) ==> Placed(|f|, r) && l.payloadStart <= r.payloadStart
  {
    if !Has(f, 0, 16) then l
    else
      Later(|f|, l, 0, 6);
      var l1 := if U16(f, 4) == 6 then WithAddress(f, l, 6, Mac) else l;
      Later(|f|, l1, 6, 16);
      Later(|f|, l1, 12, 16);
      Ethertype(f, HeaderEnd(f, l1, 16), U16(f, 14), 16, 0)
  }

  function Sll2(f: bytes, l: Layout): (r: Layout)
    ensures Good(|f|, l, 0) ==> Placed(|f|, r) && l.payloadStart <= r.payloadStart
  {
    if !Has(f, 0, 20) then l
    else
      Later(|f|, l, 0, 12);
      var l1 := if f[11] == 6 then WithAddress(f, l, 12, Mac) else l;
      Later(|f|, l1, 12, 20);
      Later(|f|, l1, 18, 20);
      Ethertype(f, HeaderEnd(f, l1, 20), U16(f, 0), 20, 0)
  }

  /** The address family of a loopback header, big-endian or little-endian. */
  function FamilyBig(f: bytes): int
    requires Has(f, 0, 4)
  {
    U16(f, 0) * 0x10000 + U16(f, 2)
  }

  function FamilyLittle(f: bytes): int
    requires Has(f, 0, 4)
  {
    f[0] as int + f[1] as int * 0x100 + f[2] as int * 0x10000 + f[3] as int * 0x1000000
  }

  function Families(f: bytes, linktype: int): set<int>
    requires Has(f, 0, 4)
  {
    if linktype == 108 then {FamilyBig(f)} else {FamilyBig(f), FamilyLittle(f)}
  }

  function Loopback(f: bytes, l: Layout, linktype: int): (r: Layout)
    ensures Good(|f|, l, 0) ==> Placed(|f|, r) && l.payloadStart <= r.payloadStart
  {
    if !Has(f, 0, 4) then l
    else
      Later(|f|, l, 0, 4);
      var l1 := HeaderEnd(f, l, 4);
      if 2 in Families(f, linktype) then Ipv4(f, l1, 4, 0)
      else if exists family :: family in Families(f, linktype) && family in {10, 24, 28, 30} then Ipv6(f, l1, 4, 0)
      else l1
  }

  function RawIp(f: bytes, l: Layout, off: nat, depth: nat): (r: Layout)
    ensures Good(|f|, l, off) ==> Placed(|f|, r) && l.payloadStart <= r.payloadStart
    decreases Levels(depth), 3, 0
  {
    if !Has(f, off, 1) then l
    else if f[off] / 16 == 4 then Ipv4(f, l, off, depth)
    else if f[off] / 16 == 6 then Ipv6(f, l, off, depth)
    else l
  }

  function Ethertype(f: bytes, l: Layout, etype: nat, off: nat, depth: nat): (r: Layout)
    ensures Good(|f|, l, off) ==> Placed(|f|, r) && l.payloadStart <= r.payloadStart
    decreases Levels(depth), 5, Left(f, off)
  {
    if etype in ETH_VLAN && Has(f, off, 4) then
      Later(|f|, l, off, off + 4);
      Ethertype(f, HeaderEnd(f, l, off + 4), U16(f, off + 2), off + 4, depth)
    else if etype == ETH_IPV4 then Ipv4(f, l, off, depth)
    else if etype == ETH_IPV6 then Ipv6(f, l, off, depth)
    else if etype in {ETH_ARP, ETH_RARP} then Arp(f, l, off)
    else if etype in ETH_MPLS then Mpls(f, l, off, depth)
    else if etype == ETH_PPPOE_SESSION then Pppoe(f, l, off, depth)
    else l
  }

  function Mpls(f: bytes, l: Layout, off: nat, depth: nat): (r: Layout)
    ensures Good(|f|, l, off) ==> Placed(|f|, r) && l.payloadStart <= r.payloadStart
    decreases Levels(depth), 4, Left(f, off)
  {
    if !Has(f, off, 4) then l
    else
      Later(|f|, l, off, off + 4);
      var l1 := HeaderEnd(f, l, off + 4);
      if f[off + 2] % 2 == 1 then RawIp(f, l1, off + 4, depth) else Mpls(f, l1, off + 4, depth)
  }

  function Pppoe(f: bytes, l: Layout, off: nat, depth: nat): (r: Layout)
    ensures Good(|f|, l, off) ==> Placed(|f|, r) && l.payloadStart <= r.payloadStart
    decreases Levels(depth), 4, 0
  {
    if !Has(f, off, 8) then l
    else
      Later(|f|, l, off, off + 8);
      var l1 := HeaderEnd(f, l, off + 8);
      if U16(f, off + 6) == 0x0021 then Ipv4(f, l1, off + 8, depth)
      else if U16(f, off + 6) == 0x0057 then Ipv6(f, l1, off + 8, depth)
      else l1
  }

  function Arp(f: bytes, l: Layout, off: nat): (r: Layout)
    ensures Good(|f|, l, off) ==> Placed(|f|, r) && l.payloadStart <= r.payloadStart
  {
    if !Has(f, off, 8) then l
    else
      var hlen: nat, plen: nat := f[off + 4], f[off + 5];
      var ends := off + 8 + 2 * (hlen + plen);
      if hlen != 6 || plen != 4 || U16(f, off + 2) != ETH_IPV4 then
        Later(|f|, l, off, ends);
        HeaderEnd(f, l, ends)
      else
        Later(|f|, l, off, off + 8);
        var l1 := WithAddress(f, WithAddress(f, l, off + 8, Mac), off + 14, V4);
        HeaderEnd(f, WithAddress(f, WithAddress(f, l1, off + 18, Mac), off + 24, V4), ends)
  }

  // --- network layer ---------------------------------------------------------------------

  function HeaderLength(f: bytes, off: nat): nat
    requires Has(f, off, 1)
  {
    (f[off] % 16) as int * 4
  }

  /** Where an IPv4 packet ends in the captured bytes. */
  function Ipv4End(f: bytes, off: nat): (end: nat)
    requires Has(f, off, 20)
    ensures end <= |f|
  {
    var total := U16(f, off + 2);
    if total >= HeaderLength(f, off) then Min(off + total, |f|) else |f|
  }

  /** The IPv4 header checksum; it covers the header and reads no pseudo header. */
  function Ipv4Scope(f: bytes, off: nat): Scope
    requires Has(f, off, 1)
  {
    Scope(off + 10, off, off + HeaderLength(f, off), [])
  }

  function Ipv4OwnScope(f: bytes, l: Layout, off: nat): (r: Layout)
    requires Has(f, off, 20) && HeaderLength(f, off) >= 20
    ensures Good(|f|, l, off) ==> Good(|f|, r, off + 12)
    ensures r.payloadStart == l.payloadStart
    ensures r.scopes == if Has(f, off, HeaderLength(f, off)) then l.scopes + [Ipv4Scope(f, off)] else l.scopes
  {
    hide Good;
    Later(|f|, l, off, off + 12);
    if Has(f, off, HeaderLength(f, off)) then WithScope(f, l, Ipv4Scope(f, off)) else l
  }

  /** The parts of an IPv4 header: its own checksum, its two addresses, and where it ends. */
  function Ipv4Header(f: bytes, l: Layout, off: nat): (r: Layout)
    requires Has(f, off, 20) && HeaderLength(f, off) >= 20
    ensures Good(|f|, l, off) ==>
              Good(|f|, r, off + HeaderLength(f, off)) && Placed(|f|, r) && l.payloadStart <= r.payloadStart
    ensures r.scopes == if Has(f, off, HeaderLength(f, off)) then l.scopes + [Ipv4Scope(f, off)] else l.scopes
  {
    hide Good, Placed, WithAddress, HeaderEnd, Ipv4OwnScope;
    var ihl := HeaderLength(f, off);
    var l1 := Ipv4OwnScope(f, l, off);
    var l2 := WithAddress(f, WithAddress(f, l1, off + 12, V4), off + 16, V4);
    Later(|f|, l2, off + 20, off + ihl);
    HeaderEnd(f, l2, off + ihl)
  }

  function Ipv4(f: bytes, l: Layout, off: nat, depth: nat): (r: Layout)
    ensures Good(|f|, l, off) ==> Placed(|f|, r) && l.payloadStart <= r.payloadStart
    decreases Levels(depth), 2, 1
  {
    hide Good, Placed, PseudoReady, Ipv4Body, Ipv4Header;
    GoodIsPlaced(|f|, l, off);
    if depth > MAX_DEPTH || !Has(f, off, 20) || f[off] / 16 != 4 || HeaderLength(f, off) < 20 then l
    else
      var l1 := Ipv4Header(f, l, off);
      Ipv4PseudoReady(|f|, l, l1, off, off + HeaderLength(f, off));
      Ipv4Body(f, l1, off, depth)
  }

  function Ipv4Pseudo(off: nat): seq<(nat, nat)> { [(off + 12, 4), (off + 16, 4)] }

  /** What follows an IPv4 header, unless the packet is a later fragment. */
  function Ipv4Body(f: bytes, l: Layout, off: nat, depth: nat): (r: Layout)
    requires depth <= MAX_DEPTH && Has(f, off, 20)
    ensures Good(|f|, l, off + HeaderLength(f, off)) && PseudoReady(l, Ipv4Pseudo(off), off + HeaderLength(f, off)) ==>
              Placed(|f|, r) && l.payloadStart <= r.payloadStart
    decreases Levels(depth), 2, 0
  {
    hide Good, Placed, PseudoReady, TransportLayer, Ipv4End;
    var next := off + HeaderLength(f, off);
    GoodIsPlaced(|f|, l, next);
    if U16(f, off + 6) % 0x2000 != 0 then l
    else TransportLayer(f, l, f[off + 9], next, Ipv4End(f, off), Ipv4Pseudo(off), depth, true)
  }

  lemma GoodIsPlaced(n: nat, l: Layout, off: nat)
    ensures Good(n, l, off) ==> Placed(n, l)
  {
  }

  lemma Ipv4PseudoReady(n: nat, l: Layout, r: Layout, off: nat, next: nat)
    requires off + 20 <= next
    requires r.scopes == l.scopes || (|r.scopes| > 0 && r.scopes == l.scopes + [r.scopes[|r.scopes| - 1]]
                                     && r.scopes[|r.scopes| - 1].at == off + 10)
    ensures Good(n, l, off) ==> PseudoReady(r, Ipv4Pseudo(off), next)
  {
    var pseudo := Ipv4Pseudo(off);
    assert Lowest(next, pseudo[1..]) == off + 16;
    assert Lowest(next, pseudo) == off + 12;
  }

  datatype Extensions = Stop(l: Layout) | Go(l: Layout, next: nat, cur: nat)

  /** The IPv6 extension headers from `cur`, up to a transport header or the end of what can be read. */
  function SkipExtensions(f: bytes, l: Layout, next: nat, cur: nat): (r: Extensions)
    ensures Good(|f|, l, cur) ==> Placed(|f|, r.l) && l.payloadStart <= r.l.payloadStart
    ensures r.Go? ==> cur <= r.cur && (Good(|f|, l, cur) ==> Good(|f|, r.l, r.cur))
    ensures r.l.scopes == l.scopes
    decreases Left(f, cur)
  {
    hide Good, Placed, HeaderEnd;
    GoodIsPlaced(|f|, l, cur);
    if next !in IPV6_EXTENSIONS then Go(l, next, cur)
    else if next == 44 then
      if !Has(f, cur, 8) then Stop(l)
      else
        Later(|f|, l, cur, cur + 8);
        var l1 := HeaderEnd(f, l, cur + 8);
        if U16(f, cur + 2) / 8 != 0 then Stop(l1) else SkipExtensions(f, l1, f[cur], cur + 8)
    else if !Has(f, cur, 2) then Stop(l)
    else
      var length: nat := if next == 51 then (f[cur + 1] as int + 2) * 4 else (f[cur + 1] as int + 1) * 8;
      Later(|f|, l, cur, cur + length);
      SkipExtensions(f, HeaderEnd(f, l, cur + length), f[cur], cur + length)
  }

  /** Where an IPv6 packet ends in the captured bytes; a zero payload length says nothing. */
  function Ipv6End(f: bytes, off: nat): (end: nat)
    requires Has(f, off, 40)
    ensures end <= |f|
  {
    var payload := U16(f, off + 4);
    if payload != 0 then Min(off + 40 + payload, |f|) else |f|
  }

  function Ipv6(f: bytes, l: Layout, off: nat, depth: nat): (r: Layout)
    ensures Good(|f|, l, off) ==> Placed(|f|, r) && l.payloadStart <= r.payloadStart
    decreases Levels(depth), 2, 0
  {
    hide Good, Placed, PseudoReady, TransportLayer, SkipExtensions, WithAddress, HeaderEnd;
    GoodIsPlaced(|f|, l, off);
    if depth > MAX_DEPTH || !Has(f, off, 40) || f[off] / 16 != 6 then l
    else
      Later(|f|, l, off, off + 8);
      var l1 := HeaderEnd(f, WithAddress(f, WithAddress(f, l, off + 8, V6), off + 24, V6), off + 40);
      match SkipExtensions(f, l1, f[off + 6], off + 40)
      case Stop(l2) => l2
      case Go(l2, next, cur) =>
        Ipv6PseudoReady(|f|, l, l2, off, cur);
        TransportLayer(f, l2, next, cur, Ipv6End(f, off), [(off + 8, 16), (off + 24, 16)], depth, false)
  }

  lemma Ipv6PseudoReady(n: nat, l: Layout, r: Layout, off: nat, next: nat)
    requires off + 40 <= next && r.scopes == l.scopes
    ensures Good(n, l, off) ==> PseudoReady(r, [(off + 8, 16), (off + 24, 16)], next)
  {
    var pseudo: seq<(nat, nat)> := [(off + 8, 16), (off + 24, 16)];
    assert Lowest(next, pseudo[1..]) == off + 24;
    assert Lowest(next, pseudo) == off + 8;
  }

  // --- transport and tunnels -----------------------------------------------------------------

  function TransportLayer(f: bytes, l: Layout, proto: nat, off: nat, end: nat, pseudo: seq<(nat, nat)>,
                          depth: nat, ipv4: bool): (r: Layout)
    requires depth <= MAX_DEPTH
    ensures Good(|f|, l, off) && PseudoReady(l, pseudo, off) && end <= |f| ==>
              Placed(|f|, r) && l.payloadStart <= r.payloadStart
    decreases Levels(depth), 1, 0
  {
    if proto == 6 then TcpHeader(f, l, off, end, pseudo)
    else if proto == 17 then UdpHeader(f, l, off, end, pseudo, depth, ipv4)
    else if proto == 1 then IcmpHeader(f, l, off, end, depth)
    else if proto == 58 then Icmpv6Header(f, l, off, end, pseudo, depth)
    else if proto == 4 then Ipv4(f, l, off, depth + 1)
    else if proto == 41 then Ipv6(f, l, off, depth + 1)
    else if proto == 47 then Gre(f, l, off, end, depth)
    else l
  }

  /** A transport header with its checksum at `at`: where it ends, and what it is. */
  function ScopedHeader(f: bytes, l: Layout, off: nat, at: nat, end: nat, pseudo: seq<(nat, nat)>, ends: nat,
                        t: Transport): (r: Layout)
    requires off <= at && (at - off) % 2 == 0 && at + 2 <= ends && Has(f, at, 2)
    ensures Good(|f|, l, off) && PseudoReady(l, pseudo, off) && end <= |f| ==>
              Good(|f|, r, ends) && Placed(|f|, r) && l.payloadStart <= r.payloadStart
  {
    var l1 := WithScope(f, l, Scope(at, off, end, pseudo));
    Later(|f|, l1, at + 2, ends);
    WithTransport(f, HeaderEnd(f, l1, ends), ends, t)
  }

  lemma NothingIsReady(n: nat, l: Layout, off: nat)
    ensures Good(n, l, off) ==> PseudoReady(l, [], off)
  {
  }

  function TcpHeader(f: bytes, l: Layout, off: nat, end: nat, pseudo: seq<(nat, nat)>): (r: Layout)
    ensures Good(|f|, l, off) && PseudoReady(l, pseudo, off) && end <= |f| ==>
              Placed(|f|, r) && l.payloadStart <= r.payloadStart
  {
    if !Has(f, off, 20) then l
    else
      var ends := off + Max((f[off + 12] / 16) as int * 4, 20);
      ScopedHeader(f, l, off, off + 16, end, pseudo, ends, Tcp(U16(f, off), U16(f, off + 2)))
  }

  /** A zero checksum over IPv4 is none at all: there is nothing to repair. */
  function UdpScope(f: bytes, l: Layout, off: nat, end: nat, pseudo: seq<(nat, nat)>, ipv4: bool): (r: Layout)
    requires Has(f, off, 8)
    ensures Good(|f|, l, off) && PseudoReady(l, pseudo, off) && end <= |f| ==> Good(|f|, r, off + 8)
    ensures r.payloadStart == l.payloadStart
  {
    hide Good;
    Later(|f|, l, off, off + 8);
    if ipv4 && U16(f, off + 6) == 0 then l
    else
      var s := Scope(off + 6, off, end, pseudo);
      Later(|f|, WithScope(f, l, s), off + 8, off + 8);
      WithScope(f, l, s)
  }

  function UdpHeader(f: bytes, l: Layout, off: nat, end: nat, pseudo: seq<(nat, nat)>, depth: nat, ipv4: bool)
      : (r: Layout)
    requires depth <= MAX_DEPTH
    ensures Good(|f|, l, off) && PseudoReady(l, pseudo, off) && end <= |f| ==>
              Placed(|f|, r) && l.payloadStart <= r.payloadStart
    decreases Levels(depth), 0, 0
  {
    hide Good, Ethernet, Ethertype, UdpScope, PseudoReady, Placed, WithScope, WithAddress, HeaderEnd, WithTransport;
    if !Has(f, off, 8) then l
    else
      var l1 := UdpScope(f, l, off, end, pseudo, ipv4);
      var sport, dport := U16(f, off), U16(f, off + 2);
      var l2 := WithTransport(f, HeaderEnd(f, l1, off + 8), off + 8, Udp(sport, dport));
      if dport == VXLAN_PORT && Has(f, off + 8, 8) && (f[off + 8] / 8) % 2 == 1 then
        Later(|f|, l2, off + 8, off + 16);
        Ethernet(f, HeaderEnd(f, l2, off + 16), off + 16, depth + 1)
      else if dport == GENEVE_PORT && Has(f, off + 8, 8) then
        var inner := off + 16 + (f[off + 8] % 64) as int * 4;
        Later(|f|, l2, off + 8, inner);
        var l3 := HeaderEnd(f, l2, inner);
        if U16(f, off + 10) == ETH_TRANSPARENT_BRIDGING then Ethernet(f, l3, inner, depth + 1)
        else Ethertype(f, l3, U16(f, off + 10), inner, depth + 1)
      else l2
  }

  function IcmpHeader(f: bytes, l: Layout, off: nat, end: nat, depth: nat): (r: Layout)
    requires depth <= MAX_DEPTH
    ensures Good(|f|, l, off) && end <= |f| ==> Placed(|f|, r) && l.payloadStart <= r.payloadStart
    decreases Levels(depth), 0, 0
  {
    hide Good, Ipv4, Placed, PseudoReady, ScopedHeader;
    GoodIsPlaced(|f|, l, off);
    if !Has(f, off, 8) then l
    else
      NothingIsReady(|f|, l, off);
      var l1 := ScopedHeader(f, l, off, off + 2, end, [], off + 8, Icmp);
      if f[off] in ICMP_ERRORS then Ipv4(f, l1, off + 8, depth + 1) else l1
  }

  function Icmpv6Header(f: bytes, l: Layout, off: nat, end: nat, pseudo: seq<(nat, nat)>, depth: nat): (r: Layout)
    requires depth <= MAX_DEPTH
    ensures Good(|f|, l, off) && PseudoReady(l, pseudo, off) && end <= |f| ==>
              Placed(|f|, r) && l.payloadStart <= r.payloadStart
    decreases Levels(depth), 0, 0
  {
    hide Good, Ipv6, Discovery, Placed, PseudoReady, ScopedHeader;
    GoodIsPlaced(|f|, l, off);
    if !Has(f, off, 8) then l
    else
      var l1 := ScopedHeader(f, l, off, off + 2, end, pseudo, off + 8, Icmpv6);
      if f[off] in ICMPV6_ERRORS then Ipv6(f, l1, off + 8, depth + 1) else Discovery(f, l1, f[off], off + 8, end)
  }

  /** What a neighbour discovery message names behind its first eight bytes, and its options. */
  function Discovery(f: bytes, l: Layout, kind: byte, off: nat, end: nat): (r: Layout)
    ensures Good(|f|, l, off) ==> Placed(|f|, r) && l.payloadStart <= r.payloadStart
  {
    hide Good, NdOptions, Placed, WithAddress;
    GoodIsPlaced(|f|, l, off);
    if kind == 133 then NdOptions(f, l, off, end)
    else if kind == 134 then
      Later(|f|, l, off, off + 8);
      NdOptions(f, l, off + 8, end)
    else if kind == 135 || kind == 136 then NdOptions(f, WithAddress(f, l, off, V6), off + 16, end)
    else if kind == 137 then
      NdOptions(f, WithAddress(f, WithAddress(f, l, off, V6), off + 16, V6), off + 32, end)
    else l
  }

  /** The link-layer and prefix options of IPv6 neighbour discovery. */
  function NdOptions(f: bytes, l: Layout, cur: nat, end: nat): (r: Layout)
    ensures Good(|f|, l, cur) ==> Placed(|f|, r) && l.payloadStart <= r.payloadStart
    decreases Left(f, cur)
  {
    hide Good, Placed, WithAddress;
    GoodIsPlaced(|f|, l, cur);
    if !(cur + 2 <= end && Has(f, cur, 2)) then l
    else
      var kind, length: nat := f[cur], f[cur + 1] as int * 8;
      if length == 0 then l
      else if kind in {1, 2} && length >= 8 then
        Later(|f|, l, cur, cur + 2);
        var l1 := WithAddress(f, l, cur + 2, Mac);
        Later(|f|, l1, cur + 8, cur + length);
        NdOptions(f, l1, cur + length, end)
      else if kind == 3 && length >= 32 then
        Later(|f|, l, cur, cur + 16);
        var l1 := WithAddress(f, l, cur + 16, V6);
        Later(|f|, l1, cur + 32, cur + length);
        NdOptions(f, l1, cur + length, end)
      else
        Later(|f|, l, cur, cur + length);
        NdOptions(f, l, cur + length, end)
  }

  /** Where a GRE header with these flags ends. */
  function GreEnd(off: nat, flags: nat): nat {
    off + 4 + (if flags / 0x8000 % 2 == 1 then 4 else 0) + (if flags / 0x2000 % 2 == 1 then 4 else 0)
    + (if flags / 0x1000 % 2 == 1 then 4 else 0)
  }

  function GreScope(f: bytes, l: Layout, off: nat, end: nat): (r: Layout)
    requires Has(f, off, 4)
    ensures Good(|f|, l, off) && end <= |f| ==> Good(|f|, r, GreEnd(off, U16(f, off)))
    ensures r.payloadStart == l.payloadStart
  {
    hide Good;
    var cur := GreEnd(off, U16(f, off));
    Later(|f|, l, off, cur);
    if U16(f, off) / 0x8000 % 2 == 1 && Has(f, off + 4, 2) then
      var s := Scope(off + 4, off, end, []);
      Later(|f|, WithScope(f, l, s), off + 6, cur);
      WithScope(f, l, s)
    else l
  }

  function Gre(f: bytes, l: Layout, off: nat, end: nat, depth: nat): (r: Layout)
    requires depth <= MAX_DEPTH
    ensures Good(|f|, l, off) && end <= |f| ==> Placed(|f|, r) && l.payloadStart <= r.payloadStart
    decreases Levels(depth), 0, 0
  {
    hide Good, Ethernet, Ethertype, GreScope, Placed, WithScope, WithAddress, HeaderEnd, WithTransport;
    if !Has(f, off, 4) || U16(f, off) % 8 != 0 then l
    else
      var flags, cur := U16(f, off), GreEnd(off, U16(f, off));
      var l1 := GreScope(f, l, off, end);
      var l2 := HeaderEnd(f, l1, cur);
      if U16(f, off + 2) == ETH_TRANSPARENT_BRIDGING then Ethernet(f, l2, cur, depth + 1)
      else Ethertype(f, l2, U16(f, off + 2), cur, depth + 1)
  }
}
