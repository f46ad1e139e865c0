/**
 * Frames cut short by the snapshot length: what the walker finds in the first bytes of a frame,
 * against what it finds in the whole of it.
 */
module Cutting {
  import opened Bytes
  import opened Checksums
  import opened Framewalk
  import opened Rewalk

  // --- how far the walker asks ----------------------------------------------------------------

  /** The target of a redirect stands right behind the first eight bytes of its message. */
  ghost predicate Redirected(r: Layout, at: nat) { exists k :: 0 <= k < |r.scopes| && r.scopes[k].at + 6 == at }

  /** The address `gap` bytes before this one, of the same kind. */
  predicate SecondOfPair(r: Layout, j: nat, gap: nat)
    requires j < |r.addresses|
  {
    j > 0 && r.addresses[j - 1].1 == r.addresses[j].1 && r.addresses[j - 1].0 + gap == r.addresses[j].0
  }

  predicate FirstOfPair(r: Layout, j: nat, gap: nat)
    requires j < |r.addresses|
  {
    j + 1 < |r.addresses| && r.addresses[j + 1].1 == r.addresses[j].1 && r.addresses[j].0 + gap == r.addresses[j + 1].0
  }

  /**
   * Up to which byte a frame has to go on for the j-th address to be found: the 14 bytes of an
   * Ethernet header, the 20 of an IPv4 and the 40 of an IPv6 header, and the address itself in ARP
   * and in neighbour discovery. The pairs of the first three are told by their distance.
   */
  ghost function Asked(r: Layout, j: nat): nat
    requires j < |r.addresses|
  {
    var at := r.addresses[j].0;
    match r.addresses[j].1
    case Mac => if FirstOfPair(r, j, 6) then at + 14 else if SecondOfPair(r, j, 6) then at + 8 else at + 6
    case V4 => if !SecondOfPair(r, j, 4) && FirstOfPair(r, j, 4) then at + 8 else at + 4
    case V6 => if !SecondOfPair(r, j, 16) && FirstOfPair(r, j, 16) && !Redirected(r, at) then at + 32 else at + 16
  }

  /** The cooked headers ask for 16 and 20 bytes, whether their address is used or not. */
  ghost function AskedOf(linktype: int, r: Layout, j: nat): nat
    requires j < |r.addresses|
  {
    if linktype == 113 && r.addresses[j].0 < 16 then 16
    else if linktype == 276 && r.addresses[j].0 < 20 then 20
    else Asked(r, j)
  }

  lemma AskedIsBehind(r: Layout, j: nat)
    requires j < |r.addresses|
    ensures Asked(r, j) >= r.addresses[j].0 + Size(r.addresses[j].1)
  {
  }

  // --- a layout and its cut -------------------------------------------------------------------

  /** The same finds, as far as the frame goes on. */
  function CutLayout(l: Layout, n: nat): Layout {
    l.(scopes := CutAll(l.scopes, n), payloadStart := Min(l.payloadStart, n))
  }

  /** `q` has the scopes of `r` up to some point, cut, and no fewer than `l`. */
  ghost predicate ScopesCut(n: nat, l: Layout, r: Layout, q: Layout) {
    && |l.scopes| <= |q.scopes| <= |r.scopes| && l.scopes <= r.scopes
    && q.scopes == CutAll(r.scopes[..|q.scopes|], n)
  }

  /**
   * Walking on from `l`, the whole frame gives `r` and its first `n` bytes give `q`: fewer
   * addresses, and exactly those asked for within `n`.
   */
  ghost predicate Part(n: nat, l: Layout, r: Layout, q: Layout) {
    && l.addresses <= q.addresses <= r.addresses && ScopesCut(n, l, r, q)
    && forall j :: |l.addresses| <= j < |r.addresses| ==> (j < |q.addresses| <==> Asked(r, j) <= n)
  }

  lemma CutOfPrefix(a: seq<Scope>, b: seq<Scope>, n: nat)
    requires a <= b
    ensures CutAll(b[..|a|], n) == CutAll(a, n)
  {
    assert b[..|a|] == a;
  }

  lemma NothingMore(n: nat, l: Layout)
    ensures Part(n, l, l, CutLayout(l, n))
  {
    CutOfPrefix(l.scopes, l.scopes, n);
  }

  /** Addresses behind `next` are not asked for before it. */
  lemma LaterAsked(n: nat, m: Layout, r: Layout, next: nat)
    requires Adds(m, r, next) && n <= next
    ensures forall j :: |m.addresses| <= j < |r.addresses| ==> Asked(r, j) > n
  {
    forall j | |m.addresses| <= j < |r.addresses| ensures Asked(r, j) > n {
      AskedIsBehind(r, j);
    }
  }

  /** The cut frame ends within the header: none of its addresses is found, nor any later one. */
  lemma Stopped(n: nat, l: Layout, r: Layout, q: Layout)
    requires l.addresses <= r.addresses && l.scopes <= r.scopes
    requires q.addresses == l.addresses && q.scopes == CutAll(l.scopes, n)
    requires forall j :: |l.addresses| <= j < |r.addresses| ==> Asked(r, j) > n
    ensures Part(n, l, r, q)
  {
    hide Asked;
    CutOfPrefix(l.scopes, r.scopes, n);
  }

  /** The cut frame holds the header: its addresses are found, and later ones as they may be. */
  lemma GoesOn(n: nat, l: Layout, m: Layout, r: Layout, q: Layout)
    requires Part(n, m, r, q) && l.addresses <= m.addresses && l.scopes <= m.scopes
    requires forall j :: |l.addresses| <= j < |m.addresses| ==> Asked(r, j) <= n
    ensures Part(n, l, r, q)
  {
    hide Asked;
  }

  lemma AddsMore(l: Layout, m: Layout, off: nat)
    requires Adds(l, m, off)
    ensures l.addresses <= m.addresses && l.scopes <= m.scopes
  {
  }

  // --- one find at a time -----------------------------------------------------------------------

  lemma CutAddress(f: bytes, n: nat, l: Layout, at: nat, k: Kind)
    requires n <= |f|
    ensures at + Size(k) <= n ==>
              WithAddress(f[..n], CutLayout(l, n), at, k) == CutLayout(WithAddress(f, l, at, k), n)
    ensures at + Size(k) > n ==> WithAddress(f[..n], CutLayout(l, n), at, k) == CutLayout(l, n)
  {
  }

  lemma CutEnd(f: bytes, n: nat, l: Layout, ends: nat)
    requires n <= |f|
    ensures HeaderEnd(f[..n], CutLayout(l, n), ends) == CutLayout(HeaderEnd(f, l, ends), n)
  {
  }

  lemma CutScope(f: bytes, n: nat, l: Layout, s: Scope)
    requires n <= |f|
    ensures WithScope(f[..n], CutLayout(l, n), Cut(s, n)) == CutLayout(WithScope(f, l, s), n)
  {
    assert CutAll(l.scopes + [s], n) == CutAll(l.scopes, n) + [Cut(s, n)];
  }

  lemma CutWord(f: bytes, n: nat, i: nat)
    requires n <= |f| && i + 2 <= n
    ensures U16(f[..n], i) == U16(f, i)
  {
  }

  lemma CutTransport(f: bytes, n: nat, l: Layout, off: nat, t: Transport)
    requires n <= |f|
    ensures WithTransport(f[..n], CutLayout(l, n), off, t) == CutLayout(WithTransport(f, l, off, t), n)
  {
  }

  /** Two addresses and the end of their header. */
  function Pair(f: bytes, l: Layout, a: nat, b: nat, k: Kind, ends: nat): Layout {
    HeaderEnd(f, WithAddress(f, WithAddress(f, l, a, k), b, k), ends)
  }

  lemma CutPair(f: bytes, n: nat, l: Layout, a: nat, b: nat, k: Kind, ends: nat)
    requires n <= |f| && a + Size(k) <= n && b + Size(k) <= n
    ensures Pair(f[..n], CutLayout(l, n), a, b, k, ends) == CutLayout(Pair(f, l, a, b, k, ends), n)
  {
    hide WithAddress, HeaderEnd, CutLayout;
    CutAddress(f, n, l, a, k);
    CutAddress(f, n, WithAddress(f, l, a, k), b, k);
    CutEnd(f, n, WithAddress(f, WithAddress(f, l, a, k), b, k), ends);
  }

  lemma PairLaid(f: bytes, l: Layout, a: nat, b: nat, k: Kind, ends: nat)
    requires Has(f, a, Size(k)) && Has(f, b, Size(k))
    ensures Pair(f, l, a, b, k, ends).addresses == l.addresses + [(a, k), (b, k)]
    ensures Pair(f, l, a, b, k, ends).scopes == l.scopes
  {
  }

  /** How far the two addresses of a header are asked for. */
  lemma PairAsked(l: Layout, m: Layout, r: Layout, off: nat, a: nat, k: Kind, next: nat)
    requires Passed(l, off) && Adds(m, r, next) && m.addresses == l.addresses + [(a, k), (a + Size(k), k)]
    requires off <= a && a + 2 * Size(k) <= next
    requires k == Mac ==> a + 2 * Size(k) < next
    requires k != Mac ==> off < a
    requires k == V6 ==> !Redirected(r, a)
    ensures var n0 := |l.addresses|;
            Asked(r, n0) == a + (if k == Mac then 14 else if k == V4 then 8 else 32)
            && Asked(r, n0 + 1) == a + (if k == Mac then 14 else 2 * Size(k))
  {
    hide Redirected;
    var n0 := |l.addresses|;
    assert r.addresses[n0] == m.addresses[n0] && r.addresses[n0 + 1] == m.addresses[n0 + 1];
    if n0 > 0 {
      assert r.addresses[n0 - 1] == l.addresses[n0 - 1];
    }
  }

  // --- link layer -----------------------------------------------------------------------------

  lemma {:induction false} EthernetCut(f: bytes, n: nat, l: Layout, off: nat, depth: nat)
    requires n <= |f| && Passed(l, off)
    ensures Part(n, l, Ethernet(f, l, off, depth), Ethernet(f[..n], CutLayout(l, n), off, depth))
    decreases Levels(depth), 6, 0
  {
    hide Ethertype, WithAddress, HeaderEnd, Steps, Adds, Passed, Part, Asked, CutLayout, U16, OffFinds;
    NothingMore(n, l);
    if depth <= MAX_DEPTH && Has(f, off, 14) {
      var m := Pair(f, l, off, off + 6, Mac, off + 14);
      var r := Ethertype(f, m, U16(f, off + 12), off + 14, depth);
      PairLaid(f, l, off, off + 6, Mac, off + 14);
      EthernetLaid(f, l, off);
      EthertypeAgain(f, f, m, U16(f, off + 12), off + 14, depth);
      StepThen(l, m, r, off, off + 14);
      AddsMore(l, r, off);
      PairAsked(l, m, r, off, off, Mac, off + 14);
      if off + 14 <= n {
        CutPair(f, n, l, off, off + 6, Mac, off + 14);
        CutWord(f, n, off + 12);
        EthertypeCut(f, n, m, U16(f, off + 12), off + 14, depth);
        GoesOn(n, l, m, r, Ethernet(f[..n], CutLayout(l, n), off, depth));
      } else {
        LaterAsked(n, m, r, off + 14);
        CutFinds(n, l);
        Stopped(n, l, r, CutLayout(l, n));
      }
    }
  }

  lemma CutFinds(n: nat, l: Layout)
    ensures CutLayout(l, n).addresses == l.addresses && CutLayout(l, n).scopes == CutAll(l.scopes, n)
  {
  }

  /** A header without finds is cut: nothing behind it is asked for. */
  lemma StoppedHere(n: nat, l: Layout, r: Layout, next: nat)
    requires Adds(l, r, next) && n <= next
    ensures Part(n, l, r, CutLayout(l, n))
  {
    hide Asked, Part, CutLayout;
    LaterAsked(n, l, r, next);
    AddsMore(l, r, next);
    CutFinds(n, l);
    Stopped(n, l, r, CutLayout(l, n));
  }

  /** And one that is whole adds nothing itself. */
  lemma GoesOnFrom(n: nat, l: Layout, m: Layout, r: Layout, q: Layout)
    requires Part(n, m, r, q) && m.addresses == l.addresses && l.scopes <= m.scopes
    ensures Part(n, l, r, q)
  {
    hide Asked;
    GoesOn(n, l, m, r, q);
  }

  lemma {:induction false} EthertypeCut(f: bytes, n: nat, l: Layout, etype: nat, off: nat, depth: nat)
    requires n <= |f| && Passed(l, off)
    ensures Part(n, l, Ethertype(f, l, etype, off, depth), Ethertype(f[..n], CutLayout(l, n), etype, off, depth))
    decreases Levels(depth), 5, Left(f, off)
  {
    hide Ipv4, Ipv6, Arp, Mpls, Pppoe, HeaderEnd, Steps, Adds, Passed, OffFinds, Part, Asked, CutLayout, U16;
    if etype in ETH_VLAN && Has(f, off, 4) {
      var m := HeaderEnd(f, l, off + 4);
      var r := Ethertype(f, m, U16(f, off + 2), off + 4, depth);
      EndLaid(f, l, off, off + 4);
      EndKeepsFinds(f, l, off + 4);
      EthertypeAgain(f, f, m, U16(f, off + 2), off + 4, depth);
      StepThen(l, m, r, off, off + 4);
      if off + 4 <= n {
        CutEnd(f, n, l, off + 4);
        CutWord(f, n, off + 2);
        EthertypeCut(f, n, m, U16(f, off + 2), off + 4, depth);
        GoesOnFrom(n, l, m, r, Ethertype(f[..n], CutLayout(l, n), etype, off, depth));
      } else {
        EndAdds(f, l, off + 4, r, off + 4);
        StoppedHere(n, l, r, off + 4);
      }
    }
    else if etype == ETH_IPV4 { Ipv4Cut(f, n, l, off, depth); }
    else if etype == ETH_IPV6 { Ipv6Cut(f, n, l, off, depth); }
    else if etype in {ETH_ARP, ETH_RARP} { ArpCut(f, n, l, off); }
    else if etype in ETH_MPLS { MplsCut(f, n, l, off, depth); }
    else if etype == ETH_PPPOE_SESSION { PppoeCut(f, n, l, off, depth); }
    else { NothingMore(n, l); }
  }

  /** What is added behind a header's end is added behind what was before it. */
  lemma EndAdds(f: bytes, l: Layout, ends: nat, r: Layout, next: nat)
    requires Adds(HeaderEnd(f, l, ends), r, next)
    ensures Adds(l, r, next)
  {
  }

  lemma {:induction false} MplsCut(f: bytes, n: nat, l: Layout, off: nat, depth: nat)
    requires n <= |f| && Passed(l, off)
    ensures Part(n, l, Mpls(f, l, off, depth), Mpls(f[..n], CutLayout(l, n), off, depth))
    decreases Levels(depth), 4, Left(f, off)
  {
    hide RawIp, HeaderEnd, Steps, Adds, Passed, OffFinds, Part, Asked, CutLayout;
    NothingMore(n, l);
    if Has(f, off, 4) {
      var m, r := HeaderEnd(f, l, off + 4), Mpls(f, l, off, depth);
      EndLaid(f, l, off, off + 4);
      EndKeepsFinds(f, l, off + 4);
      if f[off + 2] % 2 == 1 {
        RawIpAgain(f, f, m, off + 4, depth);
      } else {
        MplsAgain(f, f, m, off + 4, depth);
      }
      StepThen(l, m, r, off, off + 4);
      if off + 4 <= n {
        CutEnd(f, n, l, off + 4);
        if f[off + 2] % 2 == 1 {
          RawIpCut(f, n, m, off + 4, depth);
        } else {
          MplsCut(f, n, m, off + 4, depth);
        }
        GoesOnFrom(n, l, m, r, Mpls(f[..n], CutLayout(l, n), off, depth));
      } else {
        EndAdds(f, l, off + 4, r, off + 4);
        StoppedHere(n, l, r, off + 4);
      }
    }
  }

  lemma {:induction false} RawIpCut(f: bytes, n: nat, l: Layout, off: nat, depth: nat)
    requires n <= |f| && Passed(l, off)
    ensures Part(n, l, RawIp(f, l, off, depth), RawIp(f[..n], CutLayout(l, n), off, depth))
    decreases Levels(depth), 3, 0
  {
    hide Ipv4, Ipv6, Adds, Passed, Part, Asked, CutLayout, Alike;
    NothingMore(n, l);
    if Has(f, off, 1) {
      RawIpAgain(f, f, l, off, depth);
      if off + 1 <= n {
        Ipv4Cut(f, n, l, off, depth);
        Ipv6Cut(f, n, l, off, depth);
      } else {
        StoppedHere(n, l, RawIp(f, l, off, depth), off);
      }
    }
  }

  lemma {:induction false} PppoeCut(f: bytes, n: nat, l: Layout, off: nat, depth: nat)
    requires n <= |f| && Passed(l, off)
    ensures Part(n, l, Pppoe(f, l, off, depth), Pppoe(f[..n], CutLayout(l, n), off, depth))
    decreases Levels(depth), 4, 0
  {
    hide Ipv4, Ipv6, HeaderEnd, Steps, Adds, Passed, OffFinds, Part, Asked, CutLayout, U16;
    NothingMore(n, l);
    if Has(f, off, 8) {
      var m, r := HeaderEnd(f, l, off + 8), Pppoe(f, l, off, depth);
      EndLaid(f, l, off, off + 8);
      EndKeepsFinds(f, l, off + 8);
      Ipv4Again(f, f, m, off + 8, depth);
      Ipv6Again(f, f, m, off + 8, depth);
      Nothing(f, f, m, off + 8);
      StepThen(l, m, r, off, off + 8);
      if off + 8 <= n {
        CutEnd(f, n, l, off + 8);
        CutWord(f, n, off + 6);
        Ipv4Cut(f, n, m, off + 8, depth);
        Ipv6Cut(f, n, m, off + 8, depth);
        NothingMore(n, m);
        GoesOnFrom(n, l, m, r, Pppoe(f[..n], CutLayout(l, n), off, depth));
      } else {
        EndAdds(f, l, off + 8, r, off + 8);
        StoppedHere(n, l, r, off + 8);
      }
    }
  }

  // --- ARP, whose addresses are asked for one by one ------------------------------------------------

  function ArpAddresses(off: nat): seq<(nat, Kind)> {
    [(off + 8, Mac), (off + 14, V4), (off + 18, Mac), (off + 24, V4)]
  }

  /** How many of the four the first `n` bytes hold. */
  function ArpHeld(off: nat, n: nat): nat {
    if n < off + 14 then 0 else if n < off + 18 then 1 else if n < off + 24 then 2 else if n < off + 28 then 3 else 4
  }

  predicate EthernetArp(f: bytes, off: nat)
    requires Has(f, off, 8)
  {
    f[off + 4] == 6 && f[off + 5] == 4 && U16(f, off + 2) == ETH_IPV4
  }

  lemma ArpFound(f: bytes, l: Layout, off: nat)
    requires Has(f, off, 8)
    ensures Arp(f, l, off).scopes == l.scopes
    ensures Arp(f, l, off).addresses ==
            l.addresses + (if EthernetArp(f, off) then ArpAddresses(off)[..ArpHeld(off, |f|)] else [])
  {
  }

  lemma ArpAsked(l: Layout, r: Layout, off: nat, held: nat)
    requires Passed(l, off) && held <= 4 && r.addresses == l.addresses + ArpAddresses(off)[..held]
    ensures forall i: nat :: i < held ==>
              Asked(r, |l.addresses| + i) == ArpAddresses(off)[i].0 + Size(ArpAddresses(off)[i].1)
  {
    hide Redirected;
    var n0 := |l.addresses|;
    forall i: nat | i < held ensures Asked(r, n0 + i) == ArpAddresses(off)[i].0 + Size(ArpAddresses(off)[i].1) {
      assert r.addresses[n0 + i] == ArpAddresses(off)[i];
      if i > 0 { assert r.addresses[n0 + i - 1] == ArpAddresses(off)[i - 1]; }
      if i + 1 < held { assert r.addresses[n0 + i + 1] == ArpAddresses(off)[i + 1]; }
      if i == 0 && n0 > 0 { assert r.addresses[n0 - 1] == l.addresses[n0 - 1]; }
    }
  }

  lemma ArpHeldIs(off: nat, n: nat, i: nat)
    requires i < 4
    ensures i < ArpHeld(off, n) <==> ArpAddresses(off)[i].0 + Size(ArpAddresses(off)[i].1) <= n
  {
  }

  /** As many of the four as the frame holds, and as many of those as the cut frame holds. */
  lemma ArpPart(n: nat, l: Layout, r: Layout, q: Layout, off: nat, held: nat)
    requires Passed(l, off) && ArpHeld(off, n) <= held <= 4
    requires r.addresses == l.addresses + ArpAddresses(off)[..held] && r.scopes == l.scopes
    requires q.addresses == l.addresses + ArpAddresses(off)[..ArpHeld(off, n)] && q.scopes == CutAll(l.scopes, n)
    ensures Part(n, l, r, q)
  {
    ArpAsked(l, r, off, held);
    hide Passed, Asked, ArpAddresses, ArpHeld, Part;
    forall j | |l.addresses| <= j < |r.addresses| ensures j < |q.addresses| <==> Asked(r, j) <= n {
      var i: nat := j - |l.addresses|;
      assert Asked(r, |l.addresses| + i) == ArpAddresses(off)[i].0 + Size(ArpAddresses(off)[i].1);
      ArpHeldIs(off, n, i);
    }
    PartIs(n, l, r, q);
  }

  lemma ArpCut(f: bytes, n: nat, l: Layout, off: nat)
    requires n <= |f| && Passed(l, off)
    ensures Part(n, l, Arp(f, l, off), Arp(f[..n], CutLayout(l, n), off))
  {
    hide Passed, Part, ArpAddresses, CutLayout, U16;
    NothingMore(n, l);
    if Has(f, off, 8) {
      var r, q := Arp(f, l, off), Arp(f[..n], CutLayout(l, n), off);
      ArpFound(f, l, off);
      CutFinds(n, l);
      if off + 8 <= n {
        ArpFound(f[..n], CutLayout(l, n), off);
        CutWord(f, n, off + 2);
      }
      hide Arp;
      if EthernetArp(f, off) {
        ArpPart(n, l, r, q, off, ArpHeld(off, |f|));
      } else {
        PartIs(n, l, r, q);
      }
    }
  }

  // --- network layer ----------------------------------------------------------------------------

  lemma Ipv4HeaderIs(f: bytes, l: Layout, off: nat)
    requires Has(f, off, 20) && HeaderLength(f, off) >= 20
    ensures Ipv4Header(f, l, off) ==
            Pair(f, if Has(f, off, HeaderLength(f, off)) then WithScope(f, l, Ipv4Scope(f, off)) else l,
                 off + 12, off + 16, V4, off + HeaderLength(f, off))
  {
    hide WithAddress, WithScope, HeaderEnd;
  }

  lemma Ipv4Pair(f: bytes, l: Layout, off: nat)
    requires Has(f, off, 20) && HeaderLength(f, off) >= 20
    ensures Ipv4Header(f, l, off).addresses == l.addresses + [(off + 12, V4), (off + 16, V4)]
    ensures l.scopes <= Ipv4Header(f, l, off).scopes && Ipv4Header(f, l, off).transport == l.transport
  {
  }

  /** The cut frame holds the whole header. */
  lemma Ipv4HeaderCut(f: bytes, n: nat, l: Layout, off: nat)
    requires n <= |f| && Has(f, off, 20) && HeaderLength(f, off) >= 20 && off + HeaderLength(f, off) <= n
    ensures HeaderLength(f[..n], off) == HeaderLength(f, off)
    ensures Ipv4Header(f[..n], CutLayout(l, n), off) == CutLayout(Ipv4Header(f, l, off), n)
  {
    hide WithAddress, WithScope, HeaderEnd, CutLayout, Pair, Ipv4Header, Good, Placed;
    Ipv4HeaderIs(f, l, off);
    Ipv4HeaderIs(f[..n], CutLayout(l, n), off);
    var s := Ipv4Scope(f, off);
    assert Cut(s, n) == s == Ipv4Scope(f[..n], off);
    CutScope(f, n, l, s);
    CutPair(f, n, WithScope(f, l, s), off + 12, off + 16, V4, off + HeaderLength(f, off));
  }

  lemma Ipv4EndCut(f: bytes, n: nat, off: nat)
    requires n <= |f| && off + 20 <= n
    ensures Ipv4End(f[..n], off) == Min(Ipv4End(f, off), n)
  {
  }

  /** Nothing is found behind the end of a frame. */
  lemma TransportBeyond(g: bytes, l: Layout, proto: nat, off: nat, end: nat, pseudo: seq<(nat, nat)>, depth: nat,
                        ipv4: bool)
    requires depth <= MAX_DEPTH && |g| <= off
    ensures TransportLayer(g, l, proto, off, end, pseudo, depth, ipv4) == l
  {
  }

  lemma {:induction false} Ipv4Cut(f: bytes, n: nat, l: Layout, off: nat, depth: nat)
    requires n <= |f| && Passed(l, off)
    ensures Part(n, l, Ipv4(f, l, off, depth), Ipv4(f[..n], CutLayout(l, n), off, depth))
    decreases Levels(depth), 2, 1
  {
    hide Ipv4Body, Ipv4Header, Steps, Adds, Passed, OffFinds, Part, Asked, CutLayout, Alike;
    NothingMore(n, l);
    var r := Ipv4(f, l, off, depth);
    if depth <= MAX_DEPTH && Has(f, off, 20) && f[off] / 16 == 4 && HeaderLength(f, off) >= 20 {
      var m, next := Ipv4Header(f, l, off), off + HeaderLength(f, off);
      Ipv4Laid(f, l, off);
      Ipv4Pair(f, l, off);
      Ipv4BodyAgain(f, f, m, off, depth);
      StepThen(l, m, r, off + 8, next);
      AddsMore(m, r, next);
      PairAsked(l, m, r, off, off + 12, V4, next);
      if next <= n {
        Ipv4HeaderCut(f, n, l, off);
        Ipv4BodyCut(f, n, m, off, depth);
        GoesOn(n, l, m, r, Ipv4(f[..n], CutLayout(l, n), off, depth));
      } else if off + 20 <= n {
        ShortIpv4(f, n, l, off, depth);
      } else {
        LaterAsked(n, m, r, next);
        CutFinds(n, l);
        Stopped(n, l, r, CutLayout(l, n));
      }
    }
  }

  /** The fixed part of the header is there, its options are not: both addresses, and no more. */
  lemma ShortIpv4(f: bytes, n: nat, l: Layout, off: nat, depth: nat)
    requires n <= |f| && Passed(l, off) && depth <= MAX_DEPTH && off + 20 <= n && f[off] / 16 == 4
    requires HeaderLength(f, off) >= 20 && n < off + HeaderLength(f, off)
    ensures Part(n, l, Ipv4(f, l, off, depth), Ipv4(f[..n], CutLayout(l, n), off, depth))
  {
    hide Ipv4Body, Ipv4Header, Steps, Adds, Passed, OffFinds, Asked, CutLayout, Alike, Good, Placed;
    var g, k, next := f[..n], CutLayout(l, n), off + HeaderLength(f, off);
    var m, r, q := Ipv4Header(f, l, off), Ipv4(f, l, off, depth), Ipv4(g, k, off, depth);
    ShortQ(f, n, l, off, depth);
    Ipv4Laid(f, l, off);
    Ipv4Pair(f, l, off);
    Ipv4BodyAgain(f, f, m, off, depth);
    StepThen(l, m, r, off + 8, next);
    AddsMore(m, r, next);
    PairAsked(l, m, r, off, off + 12, V4, next);
    LaterAsked(n, m, r, next);
    CutOfPrefix(l.scopes, r.scopes, n);
  }

  lemma ShortQ(f: bytes, n: nat, l: Layout, off: nat, depth: nat)
    requires n <= |f| && depth <= MAX_DEPTH && off + 20 <= n && f[off] / 16 == 4
    requires HeaderLength(f, off) >= 20 && n < off + HeaderLength(f, off)
    ensures var q := Ipv4(f[..n], CutLayout(l, n), off, depth);
            q.addresses == l.addresses + [(off + 12, V4), (off + 16, V4)] && q.scopes == CutAll(l.scopes, n)
  {
    hide Ipv4Body, Ipv4Header, CutLayout, Good, Placed;
    var g, k := f[..n], CutLayout(l, n);
    CutFinds(n, l);
    Ipv4Pair(g, k, off);
    ShortHeaderScopes(g, k, off);
    ShortBody(g, Ipv4Header(g, k, off), off, depth);
  }

  lemma ShortHeaderScopes(g: bytes, k: Layout, off: nat)
    requires Has(g, off, 20) && HeaderLength(g, off) >= 20 && !Has(g, off, HeaderLength(g, off))
    ensures Ipv4Header(g, k, off).scopes == k.scopes
  {
  }

  lemma ShortBody(g: bytes, k: Layout, off: nat, depth: nat)
    requires depth <= MAX_DEPTH && Has(g, off, 20) && |g| <= off + HeaderLength(g, off)
    ensures Ipv4Body(g, k, off, depth) == k
  {
    hide TransportLayer;
    TransportBeyond(g, k, g[off + 9], off + HeaderLength(g, off), Ipv4End(g, off), Ipv4Pseudo(off), depth, true);
  }

  lemma {:induction false} Ipv4BodyCut(f: bytes, n: nat, l: Layout, off: nat, depth: nat)
    requires n <= |f| && depth <= MAX_DEPTH && off + 20 <= n && Passed(l, off + HeaderLength(f, off))
    ensures Part(n, l, Ipv4Body(f, l, off, depth), Ipv4Body(f[..n], CutLayout(l, n), off, depth))
    decreases Levels(depth), 2, 0
  {
    hide TransportLayer, Passed, Part, CutLayout, U16;
    var next := off + HeaderLength(f, off);
    NothingMore(n, l);
    CutWord(f, n, off + 6);
    Ipv4EndCut(f, n, off);
    TransportCut(f, n, l, f[off + 9], next, Ipv4End(f, off), Ipv4Pseudo(off), depth, true);
  }

  /** The cut frame's walk over extension headers: the same, or stopped in front of what is cut. */
  lemma {:induction false} SkipCut(f: bytes, n: nat, l: Layout, next: nat, cur: nat)
    requires n <= |f|
    ensures var x, y := SkipExtensions(f, l, next, cur), SkipExtensions(f[..n], CutLayout(l, n), next, cur);
            && SameFinds(l, x.l) && SameFinds(CutLayout(l, n), y.l) && (x.Go? ==> cur <= x.cur)
            && (y.Go? ==> x == Go(x.l, y.next, y.cur) && y.l == CutLayout(x.l, n))
            && (y.Stop? && x.Go? ==> n < x.cur)
    decreases Left(f, cur)
  {
    hide HeaderEnd, U16, CutLayout;
    var g := f[..n];
    if next in IPV6_EXTENSIONS && Has(f, cur, if next == 44 then 8 else 2) {
      var length := if next == 44 then 8 else if next == 51 then (f[cur + 1] as int + 2) * 4
                    else (f[cur + 1] as int + 1) * 8;
      var m := HeaderEnd(f, l, cur + length);
      EndKeepsFinds(f, l, cur + length);
      EndKeepsFinds(g, CutLayout(l, n), cur + length);
      CutEnd(f, n, l, cur + length);
      SkipCut(f, n, m, f[cur], cur + length);
      if next == 44 && cur + 8 <= n { CutWord(f, n, cur + 2); }
    }
  }

  lemma Ipv6EndCut(f: bytes, n: nat, off: nat)
    requires n <= |f| && off + 40 <= n
    ensures Ipv6End(f[..n], off) == Min(Ipv6End(f, off), n)
  {
  }

  /** No checksum lies in an IPv6 header, so its source is no redirect's target. */
  lemma NoRedirect(l: Layout, m: Layout, r: Layout, off: nat)
    requires Passed(l, off) && m.scopes == l.scopes && Adds(m, r, off + 40)
    ensures !Redirected(r, off + 8)
  {
    forall k | 0 <= k < |r.scopes| ensures r.scopes[k].at + 6 != off + 8 {
      if k < |l.scopes| { assert r.scopes[k] == l.scopes[k]; }
    }
  }

  lemma {:induction false} Ipv6Cut(f: bytes, n: nat, l: Layout, off: nat, depth: nat)
    requires n <= |f| && Passed(l, off)
    ensures Part(n, l, Ipv6(f, l, off, depth), Ipv6(f[..n], CutLayout(l, n), off, depth))
    decreases Levels(depth), 2, 0
  {
    hide TransportLayer, SkipExtensions, WithAddress, HeaderEnd, Steps, Adds, Passed, OffFinds, Part, Asked, CutLayout,
      U16, Alike, Redirected;
    NothingMore(n, l);
    if depth <= MAX_DEPTH && Has(f, off, 40) && f[off] / 16 == 6 {
      var m := Pair(f, l, off + 8, off + 24, V6, off + 40);
      var r := Ipv6(f, l, off, depth);
      PairLaid(f, l, off + 8, off + 24, V6, off + 40);
      Ipv6Laid(f, l, off);
      Ipv6Behind(f, m, off, depth);
      StepThen(l, m, r, off + 8, off + 40);
      AddsMore(m, r, off + 40);
      NoRedirect(l, m, r, off);
      PairAsked(l, m, r, off, off + 8, V6, off + 40);
      if off + 40 <= n {
        CutPair(f, n, l, off + 8, off + 24, V6, off + 40);
        Ipv6BehindCut(f, n, m, off, depth);
        GoesOn(n, l, m, r, Ipv6(f[..n], CutLayout(l, n), off, depth));
      } else {
        LaterAsked(n, m, r, off + 40);
        CutFinds(n, l);
        Stopped(n, l, r, CutLayout(l, n));
      }
    }
  }

  /** What follows the fixed IPv6 header. */
  function Ipv6Rest(f: bytes, m: Layout, off: nat, depth: nat): Layout
    requires depth <= MAX_DEPTH && Has(f, off, 40)
  {
    match SkipExtensions(f, m, f[off + 6], off + 40)
    case Stop(l) => l
    case Go(l, next, cur) =>
      TransportLayer(f, l, next, cur, Ipv6End(f, off), [(off + 8, 16), (off + 24, 16)], depth, false)
  }

  lemma Ipv6Behind(f: bytes, m: Layout, off: nat, depth: nat)
    requires depth <= MAX_DEPTH && Has(f, off, 40)
    ensures Adds(m, Ipv6Rest(f, m, off, depth), off + 40)
  {
    hide TransportLayer, SkipExtensions, Adds, Passed, Alike, U16;
    var x, r := SkipExtensions(f, m, f[off + 6], off + 40), Ipv6Rest(f, m, off, depth);
    var pseudo: seq<(nat, nat)> := [(off + 8, 16), (off + 24, 16)];
    SkipAgain(f, f, m, f[off + 6], off + 40, r);
    if x.Go? {
      TransportAgain(f, f, x.l, x.next, x.cur, Ipv6End(f, off), pseudo, depth, false);
      SkippedAdds(m, x.l, r, off + 40, x.cur);
    } else {
      AddsNothing(r, off + 40);
      SkippedAdds(m, x.l, r, off + 40, off + 40);
    }
  }

  lemma {:induction false} Ipv6BehindCut(f: bytes, n: nat, m: Layout, off: nat, depth: nat)
    requires n <= |f| && depth <= MAX_DEPTH && off + 40 <= n && Passed(m, off + 40)
    ensures Part(n, m, Ipv6Rest(f, m, off, depth), Ipv6Rest(f[..n], CutLayout(m, n), off, depth))
    decreases Levels(depth), 1, 1
  {
    hide TransportLayer, SkipExtensions, Adds, Passed, Alike, U16, Part, CutLayout, Asked;
    var g := f[..n];
    var x, y := SkipExtensions(f, m, f[off + 6], off + 40), SkipExtensions(g, CutLayout(m, n), f[off + 6], off + 40);
    var r, q := Ipv6Rest(f, m, off, depth), Ipv6Rest(g, CutLayout(m, n), off, depth);
    var pseudo: seq<(nat, nat)> := [(off + 8, 16), (off + 24, 16)];
    SkipCut(f, n, m, f[off + 6], off + 40);
    Ipv6EndCut(f, n, off);
    if y.Go? {
      PassedLater(m, off + 40, x.cur);
      SameFindsPassed(m, x.l, x.cur);
      TransportCut(f, n, x.l, x.next, x.cur, Ipv6End(f, off), pseudo, depth, false);
      GoesOnFrom(n, m, x.l, r, q);
    } else {
      CutFinds(n, m);
      if x.Go? {
        TransportAgain(f, f, x.l, x.next, x.cur, Ipv6End(f, off), pseudo, depth, false);
        LaterAsked(n, x.l, r, x.cur);
        AddsMore(x.l, r, x.cur);
      }
      Stopped(n, m, r, q);
    }
  }

  // --- transport and tunnels -----------------------------------------------------------------

  lemma {:induction false} TransportCut(f: bytes, n: nat, l: Layout, proto: nat, off: nat, end: nat,
                                        pseudo: seq<(nat, nat)>, depth: nat, ipv4: bool)
    requires n <= |f| && depth <= MAX_DEPTH && Passed(l, off)
    ensures Part(n, l, TransportLayer(f, l, proto, off, end, pseudo, depth, ipv4),
                 TransportLayer(f[..n], CutLayout(l, n), proto, off, Min(end, n), pseudo, depth, ipv4))
    decreases Levels(depth), 1, 0
  {
    hide TcpHeader, UdpHeader, IcmpHeader, Icmpv6Header, Ipv4, Ipv6, Gre, Passed, Part, CutLayout;
    if proto == 6 { TcpCut(f, n, l, off, end, pseudo); }
    else if proto == 17 { UdpCut(f, n, l, off, end, pseudo, depth, ipv4); }
    else if proto == 1 { IcmpCut(f, n, l, off, end, depth); }
    else if proto == 58 { Icmpv6Cut(f, n, l, off, end, pseudo, depth); }
    else if proto == 4 { Ipv4Cut(f, n, l, off, depth + 1); }
    else if proto == 41 { Ipv6Cut(f, n, l, off, depth + 1); }
    else if proto == 47 { GreCut(f, n, l, off, end, depth); }
    else { NothingMore(n, l); }
  }

  lemma ScopedCut(f: bytes, n: nat, l: Layout, off: nat, at: nat, end: nat, pseudo: seq<(nat, nat)>, ends: nat,
                  t: Transport)
    requires n <= |f| && off <= at && (at - off) % 2 == 0 && at + 2 <= ends && at + 2 <= n
    ensures ScopedHeader(f[..n], CutLayout(l, n), off, at, Min(end, n), pseudo, ends, t) ==
            CutLayout(ScopedHeader(f, l, off, at, end, pseudo, ends, t), n)
  {
    hide WithScope, HeaderEnd, WithTransport, CutLayout, Good, Placed;
    var s := Scope(at, off, end, pseudo);
    CutScope(f, n, l, s);
    CutEnd(f, n, WithScope(f, l, s), ends);
    CutTransport(f, n, HeaderEnd(f, WithScope(f, l, s), ends), ends, t);
  }

  lemma ScopedAdds(f: bytes, l: Layout, off: nat, at: nat, end: nat, pseudo: seq<(nat, nat)>, ends: nat, t: Transport)
    requires off <= at && (at - off) % 2 == 0 && at + 2 <= ends && Has(f, at, 2)
    ensures var m := ScopedHeader(f, l, off, at, end, pseudo, ends, t);
            m.addresses == l.addresses && l.scopes <= m.scopes && m.scopes == l.scopes + [Scope(at, off, end, pseudo)]
  {
  }

  /** A header that only adds checksums is cut off: what follows is not asked for. */
  lemma StoppedInside(n: nat, l: Layout, m: Layout, r: Layout, next: nat)
    requires m.addresses == l.addresses && l.scopes <= m.scopes && Adds(m, r, next) && n <= next
    ensures Part(n, l, r, CutLayout(l, n))
  {
    hide Asked, Part, CutLayout;
    LaterAsked(n, m, r, next);
    AddsMore(m, r, next);
    CutFinds(n, l);
    Stopped(n, l, r, CutLayout(l, n));
  }

  lemma TcpCut(f: bytes, n: nat, l: Layout, off: nat, end: nat, pseudo: seq<(nat, nat)>)
    requires n <= |f|
    ensures Part(n, l, TcpHeader(f, l, off, end, pseudo), TcpHeader(f[..n], CutLayout(l, n), off, Min(end, n), pseudo))
  {
    hide ScopedHeader, Part, CutLayout, U16;
    NothingMore(n, l);
    if Has(f, off, 20) {
      var r := TcpHeader(f, l, off, end, pseudo);
      var ends, t := off + Max((f[off + 12] / 16) as int * 4, 20), Tcp(U16(f, off), U16(f, off + 2));
      ScopedAdds(f, l, off, off + 16, end, pseudo, ends, t);
      if off + 20 <= n {
        ScopedCut(f, n, l, off, off + 16, end, pseudo, ends, t);
        CutWord(f, n, off);
        CutWord(f, n, off + 2);
        NothingMore(n, r);
        GoesOnFrom(n, l, r, r, CutLayout(r, n));
      } else {
        CutFinds(n, l);
        Stopped(n, l, r, CutLayout(l, n));
      }
    }
  }

  lemma UdpLayoutCut(f: bytes, n: nat, l: Layout, off: nat, end: nat, pseudo: seq<(nat, nat)>, ipv4: bool)
    requires n <= |f| && off + 8 <= n
    ensures UdpLayout(f[..n], CutLayout(l, n), off, Min(end, n), pseudo, ipv4) ==
            CutLayout(UdpLayout(f, l, off, end, pseudo, ipv4), n)
  {
    hide WithScope, HeaderEnd, WithTransport, CutLayout, U16, Good, Placed;
    CutWord(f, n, off);
    CutWord(f, n, off + 2);
    CutWord(f, n, off + 6);
    var m := UdpScope(f, l, off, end, pseudo, ipv4);
    CutScope(f, n, l, Scope(off + 6, off, end, pseudo));
    CutEnd(f, n, m, off + 8);
    CutTransport(f, n, HeaderEnd(f, m, off + 8), off + 8, Udp(U16(f, off), U16(f, off + 2)));
  }

  lemma UdpFinds(f: bytes, l: Layout, off: nat, end: nat, pseudo: seq<(nat, nat)>, ipv4: bool)
    requires Has(f, off, 8)
    ensures var m := UdpLayout(f, l, off, end, pseudo, ipv4); m.addresses == l.addresses && l.scopes <= m.scopes
  {
  }

  lemma {:induction false} UdpInnerCut(f: bytes, n: nat, m: Layout, dport: nat, off: nat, depth: nat)
    requires n <= |f| && depth <= MAX_DEPTH && off + 8 <= n && Passed(m, off + 8)
    ensures Part(n, m, UdpInner(f, m, dport, off, depth), UdpInner(f[..n], CutLayout(m, n), dport, off, depth))
    decreases Levels(depth), 0, 0
  {
    hide Ethernet, Ethertype, HeaderEnd, Steps, Adds, Passed, Alike, OffFinds, Part, Asked, CutLayout, U16;
    NothingMore(n, m);
    if Has(f, off + 8, 8) && (dport == VXLAN_PORT || dport == GENEVE_PORT) {
      var r, q := UdpInner(f, m, dport, off, depth), UdpInner(f[..n], CutLayout(m, n), dport, off, depth);
      var inner := if dport == VXLAN_PORT then off + 16 else off + 16 + (f[off + 8] % 64) as int * 4;
      var k := HeaderEnd(f, m, inner);
      EndLaid(f, m, off + 8, inner);
      EndKeepsFinds(f, m, inner);
      StepPassedOn(m, k, off + 8, inner);
      EthernetAgain(f, f, k, inner, depth + 1);
      EthertypeAgain(f, f, k, U16(f, off + 10), inner, depth + 1);
      if off + 16 <= n {
        CutEnd(f, n, m, inner);
        CutWord(f, n, off + 10);
        EthernetCut(f, n, k, inner, depth + 1);
        EthertypeCut(f, n, k, U16(f, off + 10), inner, depth + 1);
        if !(dport == VXLAN_PORT && (f[off + 8] / 8) % 2 == 0) {
          GoesOnFrom(n, m, k, r, q);
        }
      } else if !(dport == VXLAN_PORT && (f[off + 8] / 8) % 2 == 0) {
        StoppedInside(n, m, k, r, inner);
      }
    }
  }

  lemma {:induction false} UdpCut(f: bytes, n: nat, l: Layout, off: nat, end: nat, pseudo: seq<(nat, nat)>,
                                  depth: nat, ipv4: bool)
    requires n <= |f| && depth <= MAX_DEPTH && Passed(l, off)
    ensures Part(n, l, UdpHeader(f, l, off, end, pseudo, depth, ipv4),
                 UdpHeader(f[..n], CutLayout(l, n), off, Min(end, n), pseudo, depth, ipv4))
    decreases Levels(depth), 0, 1
  {
    NothingMore(n, l);
    if Has(f, off, 8) {
      UdpIsInner(f, l, off, end, pseudo, depth, ipv4);
      UdpLaid(f, l, off, end, pseudo, ipv4);
      UdpFinds(f, l, off, end, pseudo, ipv4);
      var m, r := UdpLayout(f, l, off, end, pseudo, ipv4), UdpHeader(f, l, off, end, pseudo, depth, ipv4);
      ClosedUdp(f, m, off, depth);
      if off + 8 <= n {
        UdpIsInner(f[..n], CutLayout(l, n), off, Min(end, n), pseudo, depth, ipv4);
        ClosedUdp(f[..n], CutLayout(m, n), off, depth);
      }
      hide UdpHeader, UdpInner, UdpLayout, Steps, Adds, Passed, OffFinds, U16, Closed, Part, Asked, Alike;
      UdpInnerAgain(f, f, m, U16(f, off + 2), off, depth);
      if off + 8 <= n {
        UdpLayoutCut(f, n, l, off, end, pseudo, ipv4);
        CutWord(f, n, off + 2);
        if Closed(m) {
          ClosedCut(m, n);
          NothingMore(n, m);
        } else {
          StepPassedOn(l, m, off, off + 8);
          UdpInnerCut(f, n, m, U16(f, off + 2), off, depth);
        }
        GoesOnFrom(n, l, m, r, UdpHeader(f[..n], CutLayout(l, n), off, Min(end, n), pseudo, depth, ipv4));
      } else {
        StoppedInside(n, l, m, r, off + 8);
      }
    }
  }

  lemma ClosedCut(m: Layout, n: nat)
    ensures Closed(CutLayout(m, n)) <==> Closed(m)
  {
  }

  lemma {:induction false} IcmpCut(f: bytes, n: nat, l: Layout, off: nat, end: nat, depth: nat)
    requires n <= |f| && depth <= MAX_DEPTH && Passed(l, off)
    ensures Part(n, l, IcmpHeader(f, l, off, end, depth),
                 IcmpHeader(f[..n], CutLayout(l, n), off, Min(end, n), depth))
    decreases Levels(depth), 0, 1
  {
    hide Ipv4, ScopedHeader, Steps, Adds, Passed, Alike, OffFinds, Part, Asked, CutLayout;
    NothingMore(n, l);
    if Has(f, off, 8) {
      var m, r := ScopedHeader(f, l, off, off + 2, end, [], off + 8, Icmp), IcmpHeader(f, l, off, end, depth);
      ScopedLaid(f, l, off, off + 2, end, [], off + 8, Icmp);
      ScopedAdds(f, l, off, off + 2, end, [], off + 8, Icmp);
      Ipv4Again(f, f, m, off + 8, depth + 1);
      Nothing(f, f, m, off + 8);
      StepPassedOn(l, m, off, off + 8);
      if off + 8 <= n {
        ScopedCut(f, n, l, off, off + 2, end, [], off + 8, Icmp);
        Ipv4Cut(f, n, m, off + 8, depth + 1);
        NothingMore(n, m);
        GoesOnFrom(n, l, m, r, IcmpHeader(f[..n], CutLayout(l, n), off, Min(end, n), depth));
      } else {
        StoppedInside(n, l, m, r, off + 8);
      }
    }
  }

  lemma {:induction false} Icmpv6Cut(f: bytes, n: nat, l: Layout, off: nat, end: nat, pseudo: seq<(nat, nat)>,
                                     depth: nat)
    requires n <= |f| && depth <= MAX_DEPTH && Passed(l, off)
    ensures Part(n, l, Icmpv6Header(f, l, off, end, pseudo, depth),
                 Icmpv6Header(f[..n], CutLayout(l, n), off, Min(end, n), pseudo, depth))
    decreases Levels(depth), 0, 1
  {
    hide Ipv6, Discovery, ScopedHeader, Steps, Adds, Passed, Alike, OffFinds, Part, Asked, CutLayout, Far;
    NothingMore(n, l);
    if Has(f, off, 8) {
      var m := ScopedHeader(f, l, off, off + 2, end, pseudo, off + 8, Icmpv6);
      var r := Icmpv6Header(f, l, off, end, pseudo, depth);
      ScopedLaid(f, l, off, off + 2, end, pseudo, off + 8, Icmpv6);
      ScopedAdds(f, l, off, off + 2, end, pseudo, off + 8, Icmpv6);
      Ipv6Again(f, f, m, off + 8, depth + 1);
      DiscoveryAgain(f, f, m, f[off], off + 8, end);
      StepPassedOn(l, m, off, off + 8);
      if off + 8 <= n {
        ScopedCut(f, n, l, off, off + 2, end, pseudo, off + 8, Icmpv6);
        Ipv6Cut(f, n, m, off + 8, depth + 1);
        PassedFar(l, m, off);
        assert m.scopes[|l.scopes|].at + 6 == off + 8;
        DiscoveryCut(f, n, m, f[off], off + 8, end);
        GoesOnFrom(n, l, m, r, Icmpv6Header(f[..n], CutLayout(l, n), off, Min(end, n), pseudo, depth));
      } else {
        StoppedInside(n, l, m, r, off + 8);
      }
    }
  }

  /** Every address ends eight bytes before `off`. */
  ghost predicate Far(l: Layout, off: nat) {
    forall k :: 0 <= k < |l.addresses| ==> l.addresses[k].0 + Size(l.addresses[k].1) + 8 <= off
  }

  lemma PassedFar(l: Layout, m: Layout, off: nat)
    requires Passed(l, off) && m.addresses == l.addresses
    ensures Far(m, off + 8)
  {
  }

  // --- neighbour discovery ----------------------------------------------------------------------

  /** The first two bytes of an option hold no address. */
  lemma {:induction false} NdAdds(f: bytes, l: Layout, cur: nat, end: nat)
    ensures var r := NdOptions(f, l, cur, end);
            && l.addresses <= r.addresses && r.scopes == l.scopes
            && forall j :: |l.addresses| <= j < |r.addresses| ==> cur + 2 <= r.addresses[j].0
    decreases Left(f, cur)
  {
    hide Good, Placed;
    if cur + 2 <= end && Has(f, cur, 2) {
      var kind, length: nat := f[cur], f[cur + 1] as int * 8;
      if length > 0 {
        var m := if kind in {1, 2} && length >= 8 then WithAddress(f, l, cur + 2, Mac)
                 else if kind == 3 && length >= 32 then WithAddress(f, l, cur + 16, V6)
                 else l;
        NdAdds(f, m, cur + length, end);
      }
    }
  }

  /** One address standing alone: nothing of its kind right before it or behind it. */
  lemma AloneAsked(l: Layout, m: Layout, r: Layout, off: nat, at: nat, k: Kind, next: nat)
    requires Passed(l, off) && off <= at && m.addresses == l.addresses + [(at, k)] && m.addresses <= r.addresses
    requires at + Size(k) <= next && k != V4
    requires k == Mac ==> off < at
    requires forall j :: |m.addresses| <= j < |r.addresses| ==> next < r.addresses[j].0
    ensures Asked(r, |l.addresses|) == at + Size(k)
  {
    hide Redirected;
    var n0 := |l.addresses|;
    assert r.addresses[n0] == m.addresses[n0];
    if n0 > 0 { assert r.addresses[n0 - 1] == l.addresses[n0 - 1]; }
  }

  /** The cut frame goes on behind a lone address: it is found, and what comes behind it may be. */
  lemma OneHeld(n: nat, l: Layout, m: Layout, at: nat, k: Kind, r: Layout, q: Layout, next: nat)
    requires OneAdded(l, m, at, k) && Part(n, m, r, q) && at + Size(k) <= next <= n
    requires |m.addresses| > |l.addresses| ==> Asked(r, |l.addresses|) == at + Size(k)
    ensures Part(n, l, r, q)
  {
    hide Asked, Part;
    GoesOn(n, l, m, r, q);
  }

  predicate OneAdded(l: Layout, m: Layout, at: nat, k: Kind) {
    m.scopes == l.scopes && (m.addresses == l.addresses || m.addresses == l.addresses + [(at, k)])
  }

  /** The cut frame ends before the next thing: it may hold the address, and finds nothing else. */
  lemma OneAtMost(n: nat, l: Layout, m: Layout, at: nat, k: Kind, r: Layout, q: Layout, next: nat)
    requires OneAdded(l, m, at, k) && m.addresses <= r.addresses && r.scopes == l.scopes && n < next
    requires forall j :: |m.addresses| <= j < |r.addresses| ==> next < r.addresses[j].0
    requires |m.addresses| > |l.addresses| ==> Asked(r, |l.addresses|) == at + Size(k)
    requires q.scopes == CutAll(l.scopes, n)
    requires q.addresses == if at + Size(k) <= n then m.addresses else l.addresses
    ensures Part(n, l, r, q)
  {
    forall j | |m.addresses| <= j < |r.addresses| ensures Asked(r, j) > n { AskedIsBehind(r, j); }
    hide Asked, Part;
    PartIs(n, l, r, q);
  }

  lemma NdBeyond(g: bytes, l: Layout, cur: nat, end: nat)
    requires |g| < cur + 2
    ensures NdOptions(g, l, cur, end) == l
  {
  }

  lemma {:induction false} NdCut(f: bytes, n: nat, l: Layout, cur: nat, end: nat)
    requires n <= |f| && Passed(l, cur)
    ensures Part(n, l, NdOptions(f, l, cur, end), NdOptions(f[..n], CutLayout(l, n), cur, Min(end, n)))
    decreases Left(f, cur), 2
  {
    hide Passed, Part, Asked, CutLayout, WithAddress, Steps, OffFinds, Good, Placed, Adds, Alike;
    NothingMore(n, l);
    NdAdds(f, l, cur, end);
    if cur + 2 <= end && Has(f, cur, 2) && f[cur + 1] != 0 {
      if cur + 2 <= n {
        NdOptionCut(f, n, l, cur, end);
      } else {
        NdStopped(f, n, l, cur, end);
      }
    }
  }

  lemma NdStopped(f: bytes, n: nat, l: Layout, cur: nat, end: nat)
    requires n <= |f| && n < cur + 2
    ensures Part(n, l, NdOptions(f, l, cur, end), CutLayout(l, n))
  {
    NdAdds(f, l, cur, end);
    CutFinds(n, l);
    hide NdOptions, Part, CutLayout;
    var r := NdOptions(f, l, cur, end);
    forall j | |l.addresses| <= j < |r.addresses| ensures Asked(r, j) > n { AskedIsBehind(r, j); }
    hide Asked;
    Stopped(n, l, r, CutLayout(l, n));
  }

  /** The layout behind an option's own address. */
  function WithOption(f: bytes, l: Layout, cur: nat, kind: byte, length: nat): Layout {
    if kind in {1, 2} && length >= 8 then WithAddress(f, l, cur + 2, Mac)
    else if kind == 3 && length >= 32 then WithAddress(f, l, cur + 16, V6)
    else l
  }

  lemma NdStep(f: bytes, l: Layout, cur: nat, end: nat)
    requires cur + 2 <= end && Has(f, cur, 2) && f[cur + 1] != 0
    ensures var length: nat := f[cur + 1] as int * 8;
            NdOptions(f, l, cur, end) == NdOptions(f, WithOption(f, l, cur, f[cur], length), cur + length, end)
  {
    hide WithAddress;
  }

  lemma OptionPassed(f: bytes, l: Layout, cur: nat, kind: byte, length: nat)
    requires Passed(l, cur) && length >= 8
    ensures Passed(WithOption(f, l, cur, kind, length), cur + length)
  {
  }

  lemma {:induction false} NdOptionCut(f: bytes, n: nat, l: Layout, cur: nat, end: nat)
    requires n <= |f| && Passed(l, cur) && cur + 2 <= n && cur + 2 <= end && f[cur + 1] != 0
    ensures Part(n, l, NdOptions(f, l, cur, end), NdOptions(f[..n], CutLayout(l, n), cur, Min(end, n)))
    decreases Left(f, cur), 1
  {
    hide NdOptions, Passed, Part, Asked, CutLayout, WithAddress;
    var g, k, kind, length: nat := f[..n], CutLayout(l, n), f[cur], f[cur + 1] as int * 8;
    var r, q, next := NdOptions(f, l, cur, end), NdOptions(g, k, cur, Min(end, n)), cur + length;
    NdStep(f, l, cur, end);
    NdStep(g, k, cur, Min(end, n));
    var m := WithOption(f, l, cur, kind, length);
    NdAdds(f, m, next, end);
    if n < next + 2 { NdBeyond(g, WithOption(g, k, cur, kind, length), next, Min(end, n)); }
    CutFinds(n, l);
    if kind in {1, 2} && length >= 8 {
      NdOneCut(f, n, l, cur, end, cur + 2, Mac);
    } else if kind == 3 && length >= 32 {
      NdOneCut(f, n, l, cur, end, cur + 16, V6);
    } else {
      PassedLater(l, cur, next);
      NdCut(f, n, l, next, end);
    }
  }

  lemma {:induction false} NdOneCut(f: bytes, n: nat, l: Layout, cur: nat, end: nat, at: nat, kd: Kind)
    requires n <= |f| && Passed(l, cur) && cur + 2 <= n && cur + 2 <= end && f[cur + 1] != 0
    requires cur + 2 <= at && at + Size(kd) <= cur + f[cur + 1] as int * 8 && kd != V4
    requires WithOption(f, l, cur, f[cur], f[cur + 1] as int * 8) == WithAddress(f, l, at, kd)
    requires WithOption(f[..n], CutLayout(l, n), cur, f[cur], f[cur + 1] as int * 8) ==
             WithAddress(f[..n], CutLayout(l, n), at, kd)
    ensures Part(n, l, NdOptions(f, l, cur, end), NdOptions(f[..n], CutLayout(l, n), cur, Min(end, n)))
    decreases Left(f, cur), 0
  {
    hide NdOptions, Passed, Part, Asked, CutLayout, WithAddress, WithOption;
    var g, k, next: nat := f[..n], CutLayout(l, n), cur + f[cur + 1] as int * 8;
    var r, q := NdOptions(f, l, cur, end), NdOptions(g, k, cur, Min(end, n));
    NdStep(f, l, cur, end);
    NdStep(g, k, cur, Min(end, n));
    var m := WithAddress(f, l, at, kd);
    NdAdds(f, m, next, end);
    OptionPassed(f, l, cur, f[cur], f[cur + 1] as int * 8);
    WithOne(f, l, at, kd);
    WithOne(g, k, at, kd);
    CutFinds(n, l);
    if |m.addresses| > |l.addresses| {
      AloneAsked(l, m, r, cur, at, kd, next);
    }
    CutAddress(f, n, l, at, kd);
    if next <= n {
      NdCut(f, n, m, next, end);
      OneHeld(n, l, m, at, kd, r, q, next);
    } else {
      NdBeyond(g, WithAddress(g, k, at, kd), next, Min(end, n));
      CutFinds(n, m);
      OneAtMost(n, l, m, at, kd, r, q, next);
    }
  }

  lemma WithOne(f: bytes, l: Layout, at: nat, k: Kind)
    ensures var m := WithAddress(f, l, at, k);
            && m.scopes == l.scopes
            && m.addresses == if Has(f, at, Size(k)) then l.addresses + [(at, k)] else l.addresses
  {
  }

  /** A message about one neighbour, and about two. */
  lemma {:induction false} DiscoveryCut(f: bytes, n: nat, l: Layout, kind: byte, off: nat, end: nat)
    requires n <= |f| && Passed(l, off) && Far(l, off) && off <= n
    requires exists k :: 0 <= k < |l.scopes| && l.scopes[k].at + 6 == off
    ensures Part(n, l, Discovery(f, l, kind, off, end), Discovery(f[..n], CutLayout(l, n), kind, off, Min(end, n)))
  {
    hide NdOptions, Passed, Part, Asked, CutLayout, WithAddress, Far, Good, Placed;
    NothingMore(n, l);
    if kind == 133 {
      NdCut(f, n, l, off, end);
    } else if kind == 134 {
      PassedLater(l, off, off + 8);
      NdCut(f, n, l, off + 8, end);
    } else if kind == 135 || kind == 136 {
      NeighbourCut(f, n, l, off, end);
    } else if kind == 137 {
      RedirectCut(f, n, l, off, end);
    }
  }

  lemma {:induction false} NeighbourCut(f: bytes, n: nat, l: Layout, off: nat, end: nat)
    requires n <= |f| && Passed(l, off)
    ensures Part(n, l, NdOptions(f, WithAddress(f, l, off, V6), off + 16, end),
                 NdOptions(f[..n], WithAddress(f[..n], CutLayout(l, n), off, V6), off + 16, Min(end, n)))
  {
    var g, k, m := f[..n], CutLayout(l, n), WithAddress(f, l, off, V6);
    AddressSteps(f, l, off, V6);
    StepPassedOn(l, m, off, off + 16);
    hide NdOptions, Passed, Part, Asked, CutLayout, WithAddress, Steps, OffFinds;
    var r, q := NdOptions(f, m, off + 16, end), NdOptions(g, WithAddress(g, k, off, V6), off + 16, Min(end, n));
    NdAdds(f, m, off + 16, end);
    WithOne(f, l, off, V6);
    WithOne(g, k, off, V6);
    CutFinds(n, l);
    if |m.addresses| > |l.addresses| { AloneAsked(l, m, r, off, off, V6, off + 16); }
    CutAddress(f, n, l, off, V6);
    if off + 16 <= n {
      NdCut(f, n, m, off + 16, end);
      OneHeld(n, l, m, off, V6, r, q, off + 16);
    } else {
      NdBeyond(g, WithAddress(g, k, off, V6), off + 16, Min(end, n));
      OneAtMost(n, l, m, off, V6, r, q, off + 16);
    }
  }

  /** The two addresses of a redirect are asked for one by one, although they stand side by side. */
  lemma RedirectAsked(l: Layout, r: Layout, off: nat, j: nat)
    requires Passed(l, off) && Far(l, off) && exists k :: 0 <= k < |r.scopes| && r.scopes[k].at + 6 == off
    requires l.addresses <= r.addresses && |l.addresses| <= j < |r.addresses|
    requires r.addresses[|l.addresses|] == (off, V6)
    requires |r.addresses| > |l.addresses| + 1 ==> r.addresses[|l.addresses| + 1] == (off + 16, V6)
    requires forall i :: |l.addresses| + 2 <= i < |r.addresses| ==> off + 34 <= r.addresses[i].0
    ensures j == |l.addresses| ==> Asked(r, j) == off + 16
    ensures j == |l.addresses| + 1 ==> Asked(r, j) == off + 32
    ensures j > |l.addresses| + 1 ==> Asked(r, j) > off + 34
  {
    AskedIsBehind(r, j);
    if |l.addresses| > 0 { assert r.addresses[|l.addresses| - 1] == l.addresses[|l.addresses| - 1]; }
  }

  /** The address part of a redirect. */
  function Redirect(f: bytes, l: Layout, off: nat): Layout {
    WithAddress(f, WithAddress(f, l, off, V6), off + 16, V6)
  }

  lemma RedirectFound(f: bytes, l: Layout, off: nat)
    ensures Redirect(f, l, off).scopes == l.scopes
    ensures Redirect(f, l, off).addresses ==
            l.addresses + (if Has(f, off, 32) then [(off, V6), (off + 16, V6)]
                           else if Has(f, off, 16) then [(off, V6)] else [])
    ensures Passed(l, off) ==> Passed(Redirect(f, l, off), off + 32)
  {
  }

  lemma RedirectWhole(f: bytes, n: nat, l: Layout, off: nat)
    requires n <= |f| && off + 32 <= n
    ensures Redirect(f[..n], CutLayout(l, n), off) == CutLayout(Redirect(f, l, off), n)
  {
    hide WithAddress, CutLayout;
    CutAddress(f, n, l, off, V6);
    CutAddress(f, n, WithAddress(f, l, off, V6), off + 16, V6);
  }

  lemma {:induction false} RedirectCut(f: bytes, n: nat, l: Layout, off: nat, end: nat)
    requires n <= |f| && Passed(l, off) && Far(l, off) && off <= n
    requires exists k :: 0 <= k < |l.scopes| && l.scopes[k].at + 6 == off
    ensures Part(n, l, NdOptions(f, Redirect(f, l, off), off + 32, end),
                 NdOptions(f[..n], Redirect(f[..n], CutLayout(l, n), off), off + 32, Min(end, n)))
  {
    hide NdOptions, Passed, Part, Asked, CutLayout, Redirect, Far;
    var g, k, m := f[..n], CutLayout(l, n), Redirect(f, l, off);
    var r, q := NdOptions(f, m, off + 32, end), NdOptions(g, Redirect(g, k, off), off + 32, Min(end, n));
    RedirectFound(f, l, off);
    RedirectFound(g, k, off);
    NdAdds(f, m, off + 32, end);
    CutFinds(n, l);
    if off + 32 <= n {
      RedirectWhole(f, n, l, off);
      NdCut(f, n, m, off + 32, end);
      forall j | |l.addresses| <= j < |m.addresses| ensures Asked(r, j) <= n {
        assert r.addresses[j] == m.addresses[j];
        RedirectAsked(l, r, off, j);
      }
      GoesOn(n, l, m, r, q);
    } else {
      NdBeyond(g, Redirect(g, k, off), off + 32, Min(end, n));
      if |f| < off + 34 { NdBeyond(f, m, off + 32, end); }
      forall j | |l.addresses| <= j < |r.addresses| ensures j < |q.addresses| <==> Asked(r, j) <= n {
        RedirectAsked(l, r, off, j);
      }
      CutOfPrefix(l.scopes, r.scopes, n);
      PartIs(n, l, r, q);
    }
  }

  lemma PartIs(n: nat, l: Layout, r: Layout, q: Layout)
    requires l.addresses <= q.addresses <= r.addresses && l.scopes <= r.scopes && q.scopes == CutAll(l.scopes, n)
    requires forall j :: |l.addresses| <= j < |r.addresses| ==> (j < |q.addresses| <==> Asked(r, j) <= n)
    ensures Part(n, l, r, q)
  {
    hide Asked;
    CutOfPrefix(l.scopes, r.scopes, n);
  }

  // --- GRE ------------------------------------------------------------------------------------------

  lemma GreScopeCut(f: bytes, n: nat, l: Layout, off: nat, end: nat)
    requires n <= |f| && off + 4 <= n && GreEnd(off, U16(f, off)) <= n
    ensures GreScope(f[..n], CutLayout(l, n), off, Min(end, n)) == CutLayout(GreScope(f, l, off, end), n)
  {
    hide WithScope, CutLayout, Good, Placed, U16;
    CutWord(f, n, off);
    CutScope(f, n, l, Scope(off + 4, off, end, []));
  }

  lemma GreFinds(f: bytes, l: Layout, off: nat, end: nat)
    requires Has(f, off, 4)
    ensures GreScope(f, l, off, end).addresses == l.addresses && l.scopes <= GreScope(f, l, off, end).scopes
    ensures |f| < GreEnd(off, U16(f, off)) && !Has(f, off + 4, 2) ==> GreScope(f, l, off, end) == l
  {
  }

  lemma EthertypeBeyond(g: bytes, l: Layout, etype: nat, off: nat, depth: nat)
    requires |g| <= off
    ensures Ethertype(g, l, etype, off, depth) == l && Ethernet(g, l, off, depth) == l
  {
  }

  /** Where a frame is cut between a GRE checksum and the end of the GRE header. */
  lemma ShortGre(f: bytes, n: nat, l: Layout, off: nat, end: nat, depth: nat)
    requires n <= |f| && depth <= MAX_DEPTH && off + 4 <= n && U16(f, off) % 8 == 0
    requires n <= GreEnd(off, U16(f, off)) && Passed(l, off)
    ensures Part(n, l, Gre(f, l, off, end, depth), Gre(f[..n], CutLayout(l, n), off, Min(end, n), depth))
  {
    var g, k, cur := f[..n], CutLayout(l, n), GreEnd(off, U16(f, off));
    var m, r := HeaderEnd(f, GreScope(f, l, off, end), cur), Gre(f, l, off, end, depth);
    var q := Gre(g, k, off, Min(end, n), depth);
    GreLaid(f, l, off, end);
    GreFinds(f, l, off, end);
    EndKeepsFinds(f, GreScope(f, l, off, end), cur);
    CutWord(f, n, off);
    CutWord(f, n, off + 2);
    var mg := HeaderEnd(g, GreScope(g, k, off, Min(end, n)), cur);
    EthertypeBeyond(g, mg, U16(f, off + 2), cur, depth + 1);
    ShortGreScopes(f, n, l, off, end);
    EndKeepsFinds(g, GreScope(g, k, off, Min(end, n)), cur);
    assert q == mg;
    hide Gre, GreScope, GreEnd, HeaderEnd, Ethernet, Ethertype, Passed, Part, Asked, CutLayout, U16, Steps, OffFinds,
      Adds, Alike;
    GreBehind(f, l, off, end, depth);
    LaterAsked(n, m, r, cur);
    AddsMore(m, r, cur);
    ShortGrePart(n, l, m, r, q);
  }

  /** The cut frame has the checksum, or it has not. */
  lemma ShortGreScopes(f: bytes, n: nat, l: Layout, off: nat, end: nat)
    requires n <= |f| && off + 4 <= n
    ensures var a, b := GreScope(f, l, off, end), GreScope(f[..n], CutLayout(l, n), off, Min(end, n));
            && b.addresses == l.addresses && (b.scopes == CutAll(a.scopes, n) || b.scopes == CutAll(l.scopes, n))
  {
    hide CutLayout, Good, Placed;
    CutWord(f, n, off);
    CutFinds(n, l);
    var s := Scope(off + 4, off, end, []);
    assert CutAll(l.scopes + [s], n) == CutAll(l.scopes, n) + [Cut(s, n)];
  }

  lemma ShortGrePart(n: nat, l: Layout, m: Layout, r: Layout, q: Layout)
    requires m.addresses == l.addresses == q.addresses && l.scopes <= m.scopes <= r.scopes
    requires m.addresses <= r.addresses && forall j :: |m.addresses| <= j < |r.addresses| ==> Asked(r, j) > n
    requires q.scopes == CutAll(m.scopes, n) || q.scopes == CutAll(l.scopes, n)
    ensures Part(n, l, r, q)
  {
    hide Asked;
    CutOfPrefix(m.scopes, r.scopes, n);
    CutOfPrefix(l.scopes, r.scopes, n);
  }

  lemma GreBehind(f: bytes, l: Layout, off: nat, end: nat, depth: nat)
    requires depth <= MAX_DEPTH && Has(f, off, 4) && U16(f, off) % 8 == 0
    ensures Adds(HeaderEnd(f, GreScope(f, l, off, end), GreEnd(off, U16(f, off))), Gre(f, l, off, end, depth),
                 GreEnd(off, U16(f, off)))
  {
    hide Ethernet, Ethertype, GreScope, GreEnd, HeaderEnd, Adds, Passed, Alike, U16;
    var cur := GreEnd(off, U16(f, off));
    var m := HeaderEnd(f, GreScope(f, l, off, end), cur);
    EthernetAgain(f, f, m, cur, depth + 1);
    EthertypeAgain(f, f, m, U16(f, off + 2), cur, depth + 1);
  }

  lemma {:induction false} GreCut(f: bytes, n: nat, l: Layout, off: nat, end: nat, depth: nat)
    requires n <= |f| && depth <= MAX_DEPTH && Passed(l, off)
    ensures Part(n, l, Gre(f, l, off, end, depth), Gre(f[..n], CutLayout(l, n), off, Min(end, n), depth))
    decreases Levels(depth), 0, 1
  {
    hide Ethernet, Ethertype, GreScope, GreEnd, HeaderEnd, Steps, Adds, Passed, Alike, OffFinds, U16, Part, Asked,
      CutLayout;
    NothingMore(n, l);
    if Has(f, off, 4) {
      var r, q := Gre(f, l, off, end, depth), Gre(f[..n], CutLayout(l, n), off, Min(end, n), depth);
      if off + 4 <= n {
        CutWord(f, n, off);
        CutWord(f, n, off + 2);
      }
      if U16(f, off) % 8 == 0 {
        var cur := GreEnd(off, U16(f, off));
        var m := HeaderEnd(f, GreScope(f, l, off, end), cur);
        GreLaid(f, l, off, end);
        GreFinds(f, l, off, end);
        EndKeepsFinds(f, GreScope(f, l, off, end), cur);
        GreBehind(f, l, off, end, depth);
        StepPassedOn(l, m, off, cur);
        if cur <= n {
          GreScopeCut(f, n, l, off, end);
          CutEnd(f, n, GreScope(f, l, off, end), cur);
          EthernetCut(f, n, m, cur, depth + 1);
          EthertypeCut(f, n, m, U16(f, off + 2), cur, depth + 1);
          GoesOnFrom(n, l, m, r, q);
        } else if off + 4 <= n {
          ShortGre(f, n, l, off, end, depth);
        } else {
          StoppedInside(n, l, m, r, cur);
        }
      }
    }
  }

  // --- the whole frame --------------------------------------------------------------------------

  lemma SllCut(f: bytes, n: nat, at: nat, ends: nat, known: bool, etype: nat, q: Layout, linktype: int)
    requires n <= |f| && at + 6 <= ends <= |f|
    requires (linktype == 113 && at == 6 && ends == 16) || (linktype == 276 && at == 12 && ends == 20)
    requires var m := HeaderEnd(f, if known then WithAddress(f, EMPTY, at, Mac) else EMPTY, ends);
             q == if ends <= n then Ethertype(f[..n], CutLayout(m, n), etype, ends, 0) else CutLayout(EMPTY, n)
    ensures var m := HeaderEnd(f, if known then WithAddress(f, EMPTY, at, Mac) else EMPTY, ends);
            PartOf(linktype, n, Ethertype(f, m, etype, ends, 0), q)
  {
    hide Ethertype, Adds, Passed, Asked, CutLayout, Alike, Part;
    var m := HeaderEnd(f, if known then WithAddress(f, EMPTY, at, Mac) else EMPTY, ends);
    var r := Ethertype(f, m, etype, ends, 0);
    NothingPassed();
    SllLaid(f, EMPTY, at, ends, known);
    StepPassedOn(EMPTY, m, 0, ends);
    EthertypeAgain(f, f, m, etype, ends, 0);
    AddsMore(m, r, ends);
    assert |m.addresses| > 0 ==> r.addresses[0] == (at, Mac);
    SllLater(m, r, ends);
    if ends <= n {
      EthertypeCut(f, n, m, etype, ends, 0);
      PartHasAll(n, m, r, q);
    } else {
      LaterAsked(n, m, r, ends);
      CutFinds(n, EMPTY);
    }
  }

  lemma SllLater(m: Layout, r: Layout, ends: nat)
    requires Adds(m, r, ends)
    ensures forall j :: |m.addresses| <= j < |r.addresses| ==> ends <= r.addresses[j].0
  {
  }

  lemma PartHasAll(n: nat, m: Layout, r: Layout, q: Layout)
    requires Part(n, m, r, q)
    ensures m.addresses <= q.addresses <= r.addresses && |q.scopes| <= |r.scopes|
    ensures q.scopes == CutAll(r.scopes[..|q.scopes|], n)
    ensures forall j :: |m.addresses| <= j < |r.addresses| ==> (j < |q.addresses| <==> Asked(r, j) <= n)
  {
    hide Asked;
  }

  /** Of all a whole frame gives, its first `n` bytes give exactly what is asked for within them. */
  ghost predicate PartOf(linktype: int, n: nat, r: Layout, q: Layout) {
    && q.addresses <= r.addresses
    && |q.scopes| <= |r.scopes| && q.scopes == CutAll(r.scopes[..|q.scopes|], n)
    && forall j :: 0 <= j < |r.addresses| ==> (j < |q.addresses| <==> AskedOf(linktype, r, j) <= n)
  }

  lemma PartIsPartOf(linktype: int, n: nat, r: Layout, q: Layout)
    requires Part(n, EMPTY, r, q) && linktype != 113 && linktype != 276
    ensures PartOf(linktype, n, r, q)
  {
    hide Asked;
    PartHasAll(n, EMPTY, r, q);
  }

  lemma LoopbackCut(f: bytes, n: nat, l: Layout, linktype: int)
    requires n <= |f| && Passed(l, 0)
    ensures Part(n, l, Loopback(f, l, linktype), Loopback(f[..n], CutLayout(l, n), linktype))
  {
    hide Ipv4, Ipv6, Families, HeaderEnd, Steps, Adds, Passed, Alike, OffFinds, Part, Asked, CutLayout;
    NothingMore(n, l);
    if Has(f, 0, 4) {
      var m, r := HeaderEnd(f, l, 4), Loopback(f, l, linktype);
      EndLaid(f, l, 0, 4);
      EndKeepsFinds(f, l, 4);
      Ipv4Again(f, f, m, 4, 0);
      Ipv6Again(f, f, m, 4, 0);
      Nothing(f, f, m, 4);
      StepThen(l, m, r, 0, 4);
      if 4 <= n {
        CutEnd(f, n, l, 4);
        CutFamilies(f, n, linktype);
        Ipv4Cut(f, n, m, 4, 0);
        Ipv6Cut(f, n, m, 4, 0);
        NothingMore(n, m);
        GoesOnFrom(n, l, m, r, Loopback(f[..n], CutLayout(l, n), linktype));
      } else {
        EndAdds(f, l, 4, r, 4);
        StoppedHere(n, l, r, 4);
      }
    }
  }

  lemma CutFamilies(f: bytes, n: nat, linktype: int)
    requires 4 <= n <= |f|
    ensures Families(f[..n], linktype) == Families(f, linktype)
  {
    assert FamilyBig(f[..n]) == FamilyBig(f) && FamilyLittle(f[..n]) == FamilyLittle(f);
  }

  lemma EmptyCut(n: nat)
    ensures CutLayout(EMPTY, n) == EMPTY
  {
    assert CutAll([], n) == [];
  }

  /**
   * For every frame, link type and number of bytes captured: the addresses found in the first `n`
   * bytes are the first ones of the whole frame's, and they are exactly those the walker asks for
   * within `n`; the checksums are the first ones too, covering what is there of their coverage.
   */
  lemma CutWalk(f: bytes, n: nat, linktype: int)
    requires n <= |f|
    ensures PartOf(linktype, n, Walk(f, linktype), Walk(f[..n], linktype))
  {
    hide Part, PartOf, CutLayout, Ethernet, RawIp, Loopback, Ethertype, Passed, WithAddress, HeaderEnd, U16;
    EmptyCut(n);
    NothingPassed();
    if linktype == 1 {
      EthernetCut(f, n, EMPTY, 0, 0);
      PartIsPartOf(linktype, n, Walk(f, linktype), Walk(f[..n], linktype));
    } else if linktype in {12, 14, 101} {
      RawIpCut(f, n, EMPTY, 0, 0);
      PartIsPartOf(linktype, n, Walk(f, linktype), Walk(f[..n], linktype));
    } else if linktype in {0, 108} {
      LoopbackCut(f, n, EMPTY, linktype);
      PartIsPartOf(linktype, n, Walk(f, linktype), Walk(f[..n], linktype));
    } else if linktype == 113 {
      CookedCut(f, n);
    } else if linktype == 276 {
      Cooked2Cut(f, n);
    } else {
      NothingCut(linktype, n);
    }
  }

  lemma NothingCut(linktype: int, n: nat)
    ensures PartOf(linktype, n, EMPTY, EMPTY)
  {
    assert CutAll([], n) == [];
  }

  lemma CookedCut(f: bytes, n: nat)
    requires n <= |f|
    ensures PartOf(113, n, Walk(f, 113), Walk(f[..n], 113))
  {
    hide PartOf, CutLayout, Ethertype, U16;
    EmptyCut(n);
    NothingCut(113, n);
    if Has(f, 0, 16) {
      var known := U16(f, 4) == 6;
      if 16 <= n {
        CutWord(f, n, 4);
        CutWord(f, n, 14);
        CutAddress(f, n, EMPTY, 6, Mac);
        CutEnd(f, n, if known then WithAddress(f, EMPTY, 6, Mac) else EMPTY, 16);
      }
      SllCut(f, n, 6, 16, known, U16(f, 14), Walk(f[..n], 113), 113);
    }
  }

  lemma Cooked2Cut(f: bytes, n: nat)
    requires n <= |f|
    ensures PartOf(276, n, Walk(f, 276), Walk(f[..n], 276))
  {
    hide PartOf, CutLayout, Ethertype, U16;
    EmptyCut(n);
    NothingCut(276, n);
    if Has(f, 0, 20) {
      var known := f[11] == 6;
      if 20 <= n {
        CutWord(f, n, 0);
        CutAddress(f, n, EMPTY, 12, Mac);
        CutEnd(f, n, if known then WithAddress(f, EMPTY, 12, Mac) else EMPTY, 20);
      }
      SllCut(f, n, 12, 20, known, U16(f, 0), Walk(f[..n], 276), 276);
    }
  }
}
