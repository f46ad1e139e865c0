/**
 * Walking a frame again after it was edited: the walker decides nothing by the bytes of the
 * addresses and checksums it finds, nor by the payload of TCP and of plain UDP, so a frame that
 * differs only there has the same layout.
 */
module Rewalk {
  import opened Bytes
  import opened Checksums
  import opened Framewalk

  // --- what was found, and where ------------------------------------------------------------

  /** Byte `i` is in no address and in no checksum of the layout. */
  ghost predicate OffFinds(i: int, l: Layout) {
    && (forall k :: 0 <= k < |l.addresses| ==> !(l.addresses[k].0 <= i < l.addresses[k].0 + Size(l.addresses[k].1)))
    && OffFields(i, l.scopes)
  }

  /** A transport whose payload the walker does not look into. */
  predicate Closed(l: Layout) {
    l.transport.Tcp? || (l.transport.Udp? && l.transport.dport != VXLAN_PORT && l.transport.dport != GENEVE_PORT)
  }

  /** The frames agree off the finds and such a payload, and no checksum has become zero. */
  ghost predicate Alike(f: bytes, g: bytes, l: Layout) {
    && |f| == |g|
    && (forall i :: 0 <= i < |f| && OffFinds(i, l) && (Closed(l) ==> i < l.payloadStart) ==> f[i] == g[i])
    && forall k :: 0 <= k < |l.scopes| && l.scopes[k].at + 2 <= |f| && U16(f, l.scopes[k].at) != 0 ==>
                     U16(g, l.scopes[k].at) != 0
  }

  /** `r` is `l` with finds added from `off` on, and no payload closed before it. */
  ghost predicate Adds(l: Layout, r: Layout, off: nat) {
    && l.addresses <= r.addresses && l.scopes <= r.scopes
    && (!Closed(l) && Closed(r) ==> off <= r.payloadStart)
    && (forall k :: |l.addresses| <= k < |r.addresses| ==> off <= r.addresses[k].0)
    && forall k :: |l.scopes| <= k < |r.scopes| ==> off <= r.scopes[k].at
  }

  /** Everything found ends by `off`, and there is more to look into. */
  ghost predicate Passed(l: Layout, off: nat) {
    && !Closed(l)
    && (forall k :: 0 <= k < |l.addresses| ==> l.addresses[k].0 + Size(l.addresses[k].1) <= off)
    && forall k :: 0 <= k < |l.scopes| ==> l.scopes[k].at + 2 <= off
  }

  /** A header from `off` to `next`: what it adds lies in it. */
  ghost predicate Steps(l: Layout, m: Layout, off: nat, next: nat) {
    off <= next && Adds(l, m, off) && (!Closed(l) ==> !Closed(m)) && (Passed(l, off) ==> Passed(m, next))
  }

  /** Walking on from `l` finds `rf` in the one frame, and the same in any frame alike. */
  ghost predicate Again(f: bytes, g: bytes, l: Layout, off: nat, rf: Layout, rg: Layout) {
    Adds(l, rf, off) && (Passed(l, off) && Alike(f, g, rf) ==> rg == rf)
  }

  lemma AddsThrough(l: Layout, m: Layout, r: Layout, off: nat, next: nat)
    requires Adds(l, m, off) && Adds(m, r, next) && off <= next && (!Closed(l) ==> !Closed(m))
    ensures Adds(l, r, off)
  {
  }

  lemma Nothing(f: bytes, g: bytes, l: Layout, off: nat)
    ensures Again(f, g, l, off, l, l)
  {
  }

  lemma SameHere(f: bytes, g: bytes, r: Layout, i: nat)
    requires Alike(f, g, r) && i < |f| && OffFinds(i, r) && (Closed(r) ==> i < r.payloadStart)
    ensures f[i] == g[i]
  {
  }

  /** A byte of a header, off its own finds, is off all finds: later ones lie behind the header. */
  lemma SameByte(f: bytes, g: bytes, m: Layout, r: Layout, next: nat, i: nat)
    requires Alike(f, g, r) && Adds(m, r, next) && Passed(m, next) && i < next && i < |f| && OffFinds(i, m)
    ensures f[i] == g[i]
  {
    forall k | 0 <= k < |r.addresses| ensures !(r.addresses[k].0 <= i < r.addresses[k].0 + Size(r.addresses[k].1)) {
      if k < |m.addresses| { assert r.addresses[k] == m.addresses[k]; }
    }
    forall k | 0 <= k < |r.scopes| ensures !InField(i, r.scopes[k]) {
      if k < |m.scopes| { assert r.scopes[k] == m.scopes[k]; }
    }
  }

  lemma SameWord(f: bytes, g: bytes, m: Layout, r: Layout, next: nat, i: nat)
    requires Alike(f, g, r) && Adds(m, r, next) && Passed(m, next) && i + 2 <= next && i + 2 <= |f|
    requires OffFinds(i, m) && OffFinds(i + 1, m)
    ensures U16(f, i) == U16(g, i)
  {
    hide OffFinds, Adds, Passed;
    SameByte(f, g, m, r, next, i);
    SameByte(f, g, m, r, next, i + 1);
  }

  // --- one find at a time ---------------------------------------------------------------------

  lemma AddressSteps(f: bytes, l: Layout, at: nat, k: Kind)
    ensures Steps(l, WithAddress(f, l, at, k), at, at + Size(k))
    ensures forall i :: Passed(l, at) && at + Size(k) <= i ==> OffFinds(i, WithAddress(f, l, at, k))
  {
  }

  lemma EndSteps(f: bytes, l: Layout, off: nat, ends: nat, next: nat)
    requires off <= next
    ensures Steps(l, HeaderEnd(f, l, ends), off, next)
  {
  }

  lemma StepsOn(l: Layout, m: Layout, r: Layout, a: nat, b: nat, c: nat)
    requires Steps(l, m, a, b) && Steps(m, r, b, c)
    ensures Steps(l, r, a, c)
  {
    hide Passed;
    AddsThrough(l, m, r, a, b);
  }

  lemma OffBehind(l: Layout, off: nat, i: nat)
    requires Passed(l, off) && off <= i
    ensures OffFinds(i, l)
  {
  }

  lemma OffAddress(f: bytes, l: Layout, at: nat, k: Kind, i: nat)
    requires OffFinds(i, l) && !(at <= i < at + Size(k))
    ensures OffFinds(i, WithAddress(f, l, at, k))
  {
  }

  lemma OffTheRest(l: Layout, m: Layout, i: nat)
    requires OffFinds(i, l) && m.addresses == l.addresses && m.scopes == l.scopes
    ensures OffFinds(i, m)
  {
  }

  /** Where the finds go depends on the frame's length alone. */
  lemma SameLengthSameFinds(f: bytes, g: bytes)
    requires |f| == |g|
    ensures forall l, at, k :: WithAddress(g, l, at, k) == WithAddress(f, l, at, k)
    ensures forall l, ends :: HeaderEnd(g, l, ends) == HeaderEnd(f, l, ends)
    ensures forall l, s :: WithScope(g, l, s) == WithScope(f, l, s)
    ensures forall l, off, t :: WithTransport(g, l, off, t) == WithTransport(f, l, off, t)
  {
  }

  lemma StepThen(l: Layout, m: Layout, r: Layout, off: nat, next: nat)
    requires Steps(l, m, off, next) && Adds(m, r, next)
    ensures Adds(l, r, off) && (Passed(l, off) ==> Passed(m, next))
  {
    hide Passed;
    AddsThrough(l, m, r, off, next);
  }

  // --- link layer -----------------------------------------------------------------------------

  lemma EthernetLaid(f: bytes, l: Layout, off: nat)
    ensures var m := HeaderEnd(f, WithAddress(f, WithAddress(f, l, off, Mac), off + 6, Mac), off + 14);
            Steps(l, m, off, off + 14) && (Passed(l, off) ==> OffFinds(off + 12, m) && OffFinds(off + 13, m))
  {
    hide WithAddress, HeaderEnd, Steps, Passed, OffFinds;
    var l1 := WithAddress(f, l, off, Mac);
    var l2 := WithAddress(f, l1, off + 6, Mac);
    AddressSteps(f, l, off, Mac);
    AddressSteps(f, l1, off + 6, Mac);
    EndSteps(f, l2, off + 12, off + 14, off + 14);
    StepsOn(l, l1, l2, off, off + 6, off + 12);
    StepsOn(l, l2, HeaderEnd(f, l2, off + 14), off, off + 12, off + 14);
    if Passed(l, off) {
      StepPassed(l, l2, off, off + 12);
      EndKeepsOff(f, l2, off + 14, off + 12);
    }
  }

  lemma StepPassed(l: Layout, m: Layout, off: nat, next: nat)
    requires Steps(l, m, off, next) && Passed(l, off)
    ensures Passed(m, next)
  {
  }

  lemma EndKeepsOff(f: bytes, l: Layout, ends: nat, off: nat)
    requires Passed(l, off)
    ensures forall i: nat :: off <= i ==> OffFinds(i, HeaderEnd(f, l, ends))
  {
  }

  lemma {:induction false} EthernetAgain(f: bytes, g: bytes, l: Layout, off: nat, depth: nat)
    requires |f| == |g|
    ensures Again(f, g, l, off, Ethernet(f, l, off, depth), Ethernet(g, l, off, depth))
    decreases Levels(depth), 6, 0
  {
    hide Ethertype, WithAddress, HeaderEnd, Steps, Adds, Passed, Alike, OffFinds, U16;
    if depth > MAX_DEPTH || !Has(f, off, 14) {
      Nothing(f, g, l, off);
    } else {
      SameLengthSameFinds(f, g);
      var m := HeaderEnd(f, WithAddress(f, WithAddress(f, l, off, Mac), off + 6, Mac), off + 14);
      var r := Ethertype(f, m, U16(f, off + 12), off + 14, depth);
      EthernetLaid(f, l, off);
      EthertypeAgain(f, g, m, U16(f, off + 12), off + 14, depth);
      StepThen(l, m, r, off, off + 14);
      if Passed(l, off) && Alike(f, g, r) {
        SameWord(f, g, m, r, off + 14, off + 12);
      }
    }
  }

  lemma SllLaid(f: bytes, l: Layout, at: nat, ends: nat, known: bool)
    requires at + 6 <= ends
    ensures var m := HeaderEnd(f, if known then WithAddress(f, l, at, Mac) else l, ends);
            && Steps(l, m, 0, ends)
            && forall i: nat :: Passed(l, 0) && (i < at || at + 6 <= i) ==> OffFinds(i, m)
  {
    hide WithAddress, HeaderEnd, Adds, Passed, OffFinds;
    var m := if known then WithAddress(f, l, at, Mac) else l;
    var r := HeaderEnd(f, m, ends);
    PassedLater(l, 0, at);
    EndKeepsFinds(f, m, ends);
    if known {
      AddressSteps(f, l, at, Mac);
      EndSteps(f, m, at + 6, ends, ends);
      StepsOn(l, m, r, at, at + 6, ends);
      AddsEarlier(l, r, 0, at);
    } else {
      EndSteps(f, l, 0, ends, ends);
    }
    forall i: nat | Passed(l, 0) && (i < at || at + 6 <= i)
      ensures OffFinds(i, r)
    {
      OffBehind(l, 0, i);
      if known { OffAddress(f, l, at, Mac, i); }
      OffTheRest(m, r, i);
    }
  }

  lemma SllAgain(f: bytes, g: bytes, l: Layout)
    requires |f| == |g|
    ensures Again(f, g, l, 0, Sll(f, l), Sll(g, l))
  {
    hide Ethertype, WithAddress, HeaderEnd, Steps, Adds, Passed, Alike, OffFinds, U16;
    if !Has(f, 0, 16) {
      Nothing(f, g, l, 0);
    } else {
      SameLengthSameFinds(f, g);
      var m := HeaderEnd(f, if U16(f, 4) == 6 then WithAddress(f, l, 6, Mac) else l, 16);
      var r := Ethertype(f, m, U16(f, 14), 16, 0);
      SllLaid(f, l, 6, 16, U16(f, 4) == 6);
      EthertypeAgain(f, g, m, U16(f, 14), 16, 0);
      StepThen(l, m, r, 0, 16);
      if Passed(l, 0) && Alike(f, g, r) {
        SameWord(f, g, m, r, 16, 4);
        SameWord(f, g, m, r, 16, 14);
      }
    }
  }

  lemma Sll2Again(f: bytes, g: bytes, l: Layout)
    requires |f| == |g|
    ensures Again(f, g, l, 0, Sll2(f, l), Sll2(g, l))
  {
    hide Ethertype, WithAddress, HeaderEnd, Steps, Adds, Passed, Alike, OffFinds, U16;
    if !Has(f, 0, 20) {
      Nothing(f, g, l, 0);
    } else {
      SameLengthSameFinds(f, g);
      var m := HeaderEnd(f, if f[11] == 6 then WithAddress(f, l, 12, Mac) else l, 20);
      var r := Ethertype(f, m, U16(f, 0), 20, 0);
      SllLaid(f, l, 12, 20, f[11] == 6);
      EthertypeAgain(f, g, m, U16(f, 0), 20, 0);
      StepThen(l, m, r, 0, 20);
      if Passed(l, 0) && Alike(f, g, r) {
        SameByte(f, g, m, r, 20, 11);
        SameWord(f, g, m, r, 20, 0);
      }
    }
  }

  /** A header without finds. */
  lemma EndLaid(f: bytes, l: Layout, off: nat, next: nat)
    requires off <= next
    ensures Steps(l, HeaderEnd(f, l, next), off, next)
    ensures forall i: nat :: Passed(l, off) && off <= i ==> OffFinds(i, HeaderEnd(f, l, next))
  {
    hide Steps, Passed, OffFinds, HeaderEnd;
    EndSteps(f, l, off, next, next);
    if Passed(l, off) {
      EndKeepsOff(f, l, next, off);
    }
  }

  lemma SameFamilies(f: bytes, g: bytes, linktype: int)
    requires |f| == |g| && Has(f, 0, 4) && f[0] == g[0] && f[1] == g[1] && f[2] == g[2] && f[3] == g[3]
    ensures Families(f, linktype) == Families(g, linktype)
  {
    assert FamilyBig(f) == FamilyBig(g);
    assert FamilyLittle(f) == FamilyLittle(g);
  }

  lemma LoopbackAgain(f: bytes, g: bytes, l: Layout, linktype: int)
    requires |f| == |g|
    ensures Again(f, g, l, 0, Loopback(f, l, linktype), Loopback(g, l, linktype))
  {
    hide Ipv4, Ipv6, Families, HeaderEnd, Steps, Adds, Passed, Alike, OffFinds, U16;
    if !Has(f, 0, 4) {
      Nothing(f, g, l, 0);
    } else {
      SameLengthSameFinds(f, g);
      var m, r := HeaderEnd(f, l, 4), Loopback(f, l, linktype);
      EndLaid(f, l, 0, 4);
      Ipv4Again(f, g, m, 4, 0);
      Ipv6Again(f, g, m, 4, 0);
      Nothing(f, g, m, 4);
      StepThen(l, m, r, 0, 4);
      if Passed(l, 0) && Alike(f, g, r) {
        SameByte(f, g, m, r, 4, 0);
        SameByte(f, g, m, r, 4, 1);
        SameByte(f, g, m, r, 4, 2);
        SameByte(f, g, m, r, 4, 3);
        SameFamilies(f, g, linktype);
      }
    }
  }

  lemma {:induction false} RawIpAgain(f: bytes, g: bytes, l: Layout, off: nat, depth: nat)
    requires |f| == |g|
    ensures Again(f, g, l, off, RawIp(f, l, off, depth), RawIp(g, l, off, depth))
    decreases Levels(depth), 3, 0
  {
    hide Ipv4, Ipv6, Steps, Adds, Passed, Alike, OffFinds;
    Nothing(f, g, l, off);
    AddsNothing(l, off + 8);
    if Has(f, off, 1) {
      var r := RawIp(f, l, off, depth);
      Ipv4Again(f, g, l, off, depth);
      Ipv6Again(f, g, l, off, depth);
      if Passed(l, off) && Alike(f, g, r) {
        OffBehind(l, off, off);
        PassedLater(l, off, off + 8);
        SameByte(f, g, l, r, off + 8, off);
      }
    }
  }

  lemma AddsNothing(l: Layout, off: nat)
    ensures Adds(l, l, off)
  {
  }

  lemma {:induction false} EthertypeAgain(f: bytes, g: bytes, l: Layout, etype: nat, off: nat, depth: nat)
    requires |f| == |g|
    ensures Again(f, g, l, off, Ethertype(f, l, etype, off, depth), Ethertype(g, l, etype, off, depth))
    decreases Levels(depth), 5, Left(f, off)
  {
    hide Ipv4, Ipv6, Arp, Mpls, Pppoe, HeaderEnd, Steps, Adds, Passed, Alike, OffFinds, U16;
    if etype in ETH_VLAN && Has(f, off, 4) {
      SameLengthSameFinds(f, g);
      var m := HeaderEnd(f, l, off + 4);
      var r := Ethertype(f, m, U16(f, off + 2), off + 4, depth);
      EndLaid(f, l, off, off + 4);
      EthertypeAgain(f, g, m, U16(f, off + 2), off + 4, depth);
      StepThen(l, m, r, off, off + 4);
      if Passed(l, off) && Alike(f, g, r) {
        SameWord(f, g, m, r, off + 4, off + 2);
      }
    }
    else if etype == ETH_IPV4 { Ipv4Again(f, g, l, off, depth); }
    else if etype == ETH_IPV6 { Ipv6Again(f, g, l, off, depth); }
    else if etype in {ETH_ARP, ETH_RARP} { ArpAgain(f, g, l, off); }
    else if etype in ETH_MPLS { MplsAgain(f, g, l, off, depth); }
    else if etype == ETH_PPPOE_SESSION { PppoeAgain(f, g, l, off, depth); }
    else { Nothing(f, g, l, off); }
  }

  lemma {:induction false} MplsAgain(f: bytes, g: bytes, l: Layout, off: nat, depth: nat)
    requires |f| == |g|
    ensures Again(f, g, l, off, Mpls(f, l, off, depth), Mpls(g, l, off, depth))
    decreases Levels(depth), 4, Left(f, off)
  {
    hide RawIp, HeaderEnd, Steps, Adds, Passed, Alike, OffFinds;
    if !Has(f, off, 4) {
      Nothing(f, g, l, off);
    } else {
      SameLengthSameFinds(f, g);
      var m, r := HeaderEnd(f, l, off + 4), Mpls(f, l, off, depth);
      EndLaid(f, l, off, off + 4);
      if f[off + 2] % 2 == 1 {
        RawIpAgain(f, g, m, off + 4, depth);
      } else {
        MplsAgain(f, g, m, off + 4, depth);
      }
      StepThen(l, m, r, off, off + 4);
      if Passed(l, off) && Alike(f, g, r) {
        SameByte(f, g, m, r, off + 4, off + 2);
      }
    }
  }

  lemma {:induction false} PppoeAgain(f: bytes, g: bytes, l: Layout, off: nat, depth: nat)
    requires |f| == |g|
    ensures Again(f, g, l, off, Pppoe(f, l, off, depth), Pppoe(g, l, off, depth))
    decreases Levels(depth), 4, 0
  {
    hide Ipv4, Ipv6, HeaderEnd, Steps, Adds, Passed, Alike, OffFinds, U16;
    if !Has(f, off, 8) {
      Nothing(f, g, l, off);
    } else {
      SameLengthSameFinds(f, g);
      var m, r := HeaderEnd(f, l, off + 8), Pppoe(f, l, off, depth);
      EndLaid(f, l, off, off + 8);
      Ipv4Again(f, g, m, off + 8, depth);
      Ipv6Again(f, g, m, off + 8, depth);
      Nothing(f, g, m, off + 8);
      StepThen(l, m, r, off, off + 8);
      if Passed(l, off) && Alike(f, g, r) {
        SameWord(f, g, m, r, off + 8, off + 6);
      }
    }
  }

  lemma ArpLaid(f: bytes, l: Layout, off: nat)
    ensures Adds(l, Arp(f, l, off), off) && (Closed(Arp(f, l, off)) <==> Closed(l))
    ensures forall i: nat :: Passed(l, off) && off <= i < off + 8 ==> OffFinds(i, Arp(f, l, off))
  {
    var r := Arp(f, l, off);
    ArpFinds(f, l, off);
    forall i: nat | Passed(l, off) && off <= i < off + 8 ensures OffFinds(i, r) {
      OffBehind(l, off, i);
      hide Arp;
      forall k | 0 <= k < |r.addresses|
        ensures !(r.addresses[k].0 <= i < r.addresses[k].0 + Size(r.addresses[k].1))
      {
        if k < |l.addresses| { assert r.addresses[k] == l.addresses[k]; }
      }
    }
  }

  lemma ArpFinds(f: bytes, l: Layout, off: nat)
    ensures var r := Arp(f, l, off);
            && l.addresses <= r.addresses && r.scopes == l.scopes && r.transport == l.transport
            && forall k :: |l.addresses| <= k < |r.addresses| ==> off + 8 <= r.addresses[k].0
  {
  }

  lemma ArpAgain(f: bytes, g: bytes, l: Layout, off: nat)
    requires |f| == |g|
    ensures Again(f, g, l, off, Arp(f, l, off), Arp(g, l, off))
  {
    hide WithAddress, HeaderEnd, Adds, Passed, Alike, OffFinds, U16, Closed;
    var r := Arp(f, l, off);
    ArpLaid(f, l, off);
    if Has(f, off, 8) && Passed(l, off) && Alike(f, g, r) {
      SameLengthSameFinds(f, g);
      NotClosed(l, off);
      SameHere(f, g, r, off + 2);
      SameHere(f, g, r, off + 3);
      SameHere(f, g, r, off + 4);
      SameHere(f, g, r, off + 5);
      WordOf(f, g, off + 2);
    }
  }

  lemma NotClosed(l: Layout, off: nat)
    requires Passed(l, off)
    ensures !Closed(l)
  {
  }

  // --- network layer ----------------------------------------------------------------------------

  lemma Ipv4Laid(f: bytes, l: Layout, off: nat)
    requires Has(f, off, 20) && HeaderLength(f, off) >= 20
    ensures Steps(l, Ipv4Header(f, l, off), off + 8, off + HeaderLength(f, off))
    ensures Passed(l, off) ==> Passed(l, off + 8)
    ensures forall i: nat :: Passed(l, off) && off <= i < off + 10 ==> OffFinds(i, Ipv4Header(f, l, off))
  {
  }

  /** The words of an IPv4 header that say how its packet goes on. */
  predicate SameIpv4(f: bytes, g: bytes, off: nat)
    requires |f| == |g| && Has(f, off, 20)
  {
    f[off] == g[off] && U16(f, off + 2) == U16(g, off + 2) && U16(f, off + 6) == U16(g, off + 6)
    && f[off + 9] == g[off + 9]
  }

  lemma {:induction false} Ipv4Again(f: bytes, g: bytes, l: Layout, off: nat, depth: nat)
    requires |f| == |g|
    ensures Again(f, g, l, off, Ipv4(f, l, off, depth), Ipv4(g, l, off, depth))
    ensures Adds(l, Ipv4(f, l, off, depth), off + 8)
    decreases Levels(depth), 2, 1
  {
    hide Ipv4Body, Ipv4Header, Steps, Adds, Passed, Alike, OffFinds, U16;
    Nothing(f, g, l, off);
    AddsNothing(l, off + 8);
    if depth <= MAX_DEPTH && Has(f, off, 20) {
      var r := Ipv4(f, l, off, depth);
      if f[off] / 16 == 4 && HeaderLength(f, off) >= 20 {
        var m, next := Ipv4Header(f, l, off), off + HeaderLength(f, off);
        Ipv4Laid(f, l, off);
        Ipv4BodyAgain(f, g, m, off, depth);
        StepThen(l, m, r, off + 8, next);
        AddsEarlier(l, r, off, off + 8);
        if Passed(l, off) && Alike(f, g, r) {
          Ipv4Bytes(f, g, m, r, off, next);
          SameIpv4Header(f, g, l, off);
        }
      } else if Passed(l, off) && Alike(f, g, r) {
        OffBehind(l, off, off);
        PassedLater(l, off, off + 8);
        SameByte(f, g, l, r, off + 8, off);
      }
    }
  }

  lemma AddsEarlier(l: Layout, r: Layout, early: nat, off: nat)
    requires Adds(l, r, off) && early <= off
    ensures Adds(l, r, early)
  {
  }

  lemma Ipv4Bytes(f: bytes, g: bytes, m: Layout, r: Layout, off: nat, next: nat)
    requires Alike(f, g, r) && Adds(m, r, next) && Passed(m, next)
    requires off + 20 <= next && |f| == |g| && Has(f, off, 20)
    requires forall i: nat :: off <= i < off + 10 ==> OffFinds(i, m)
    ensures SameIpv4(f, g, off)
  {
    hide Alike, Adds, OffFinds, U16, Passed;
    SameByte(f, g, m, r, next, off);
    SameWord(f, g, m, r, next, off + 2);
    SameWord(f, g, m, r, next, off + 6);
    SameByte(f, g, m, r, next, off + 9);
  }

  lemma SameIpv4Header(f: bytes, g: bytes, l: Layout, off: nat)
    requires |f| == |g| && Has(f, off, 20) && f[off] == g[off] && HeaderLength(f, off) >= 20
    ensures Ipv4Header(g, l, off) == Ipv4Header(f, l, off)
  {
    hide WithAddress, HeaderEnd, WithScope;
    SameLengthSameFinds(f, g);
  }

  lemma {:induction false} Ipv4BodyAgain(f: bytes, g: bytes, l: Layout, off: nat, depth: nat)
    requires |f| == |g| && depth <= MAX_DEPTH && Has(f, off, 20)
    ensures Adds(l, Ipv4Body(f, l, off, depth), off + HeaderLength(f, off))
    ensures SameIpv4(f, g, off) && Passed(l, off + HeaderLength(f, off)) && Alike(f, g, Ipv4Body(f, l, off, depth)) ==>
              Ipv4Body(g, l, off, depth) == Ipv4Body(f, l, off, depth)
    decreases Levels(depth), 2, 0
  {
    hide TransportLayer, Adds, Passed, Alike, U16;
    var next := off + HeaderLength(f, off);
    AddsNothing(l, next);
    TransportAgain(f, g, l, f[off + 9], next, Ipv4End(f, off), Ipv4Pseudo(off), depth, true);
  }

  // The headers skipped hold no finds: what they read is in front of whatever is found next.

  /** Nothing was found between the two layouts. */
  predicate SameFinds(l: Layout, m: Layout) {
    m.addresses == l.addresses && m.scopes == l.scopes && m.transport == l.transport
  }

  lemma SkippedByte(f: bytes, g: bytes, l: Layout, x: Extensions, r: Layout, cur: nat, i: nat)
    requires SameFinds(l, x.l) && Passed(l, cur) && cur <= i < |f|
    requires Alike(f, g, r) && if x.Go? then i < x.cur && Adds(x.l, r, x.cur) else r == x.l
    ensures f[i] == g[i]
  {
    hide Alike, Adds, OffFinds, Passed;
    OffBehind(l, cur, i);
    OffTheRest(l, x.l, i);
    NotClosed(l, cur);
    if x.Go? {
      PassedLater(l, cur, x.cur);
      SameFindsPassed(l, x.l, x.cur);
      SameByte(f, g, x.l, r, x.cur, i);
    } else {
      SameHere(f, g, r, i);
    }
  }

  lemma SameFindsPassed(l: Layout, m: Layout, off: nat)
    requires SameFinds(l, m)
    ensures Passed(l, off) ==> Passed(m, off)
  {
  }

  lemma {:induction false} SkipAgain(f: bytes, g: bytes, l: Layout, next: nat, cur: nat, r: Layout)
    requires |f| == |g|
    ensures var x := SkipExtensions(f, l, next, cur);
            && SameFinds(l, x.l) && (x.Go? ==> cur <= x.cur)
            && (Passed(l, cur) && Alike(f, g, r) && (if x.Go? then Adds(x.l, r, x.cur) else r == x.l) ==>
                SkipExtensions(g, l, next, cur) == x)
    decreases Left(f, cur)
  {
    hide Alike, Adds, OffFinds, Passed, HeaderEnd, U16;
    if next in IPV6_EXTENSIONS && Has(f, cur, if next == 44 then 8 else 2) {
      var x := SkipExtensions(f, l, next, cur);
      var length := if next == 44 then 8 else if next == 51 then (f[cur + 1] as int + 2) * 4
                    else (f[cur + 1] as int + 1) * 8;
      var m := HeaderEnd(f, l, cur + length);
      SameLengthSameFinds(f, g);
      EndLaid(f, l, cur, cur + length);
      StepPassedOn(l, m, cur, cur + length);
      EndKeepsFinds(f, l, cur + length);
      SkipAgain(f, g, m, f[cur], cur + length, r);
      if Passed(l, cur) && Alike(f, g, r) && if x.Go? then Adds(x.l, r, x.cur) else r == x.l {
        SkippedByte(f, g, l, x, r, cur, cur);
        SkippedByte(f, g, l, x, r, cur, cur + 1);
        if next == 44 {
          SkippedByte(f, g, l, x, r, cur, cur + 2);
          SkippedByte(f, g, l, x, r, cur, cur + 3);
          WordOf(f, g, cur + 2);
        }
      }
    }
  }

  lemma StepPassedOn(l: Layout, m: Layout, off: nat, next: nat)
    requires Steps(l, m, off, next)
    ensures Passed(l, off) ==> Passed(m, next)
  {
  }

  lemma EndKeepsFinds(f: bytes, l: Layout, ends: nat)
    ensures SameFinds(l, HeaderEnd(f, l, ends))
  {
  }

  lemma WordOf(f: bytes, g: bytes, i: nat)
    requires |f| == |g| && i + 2 <= |f| && f[i] == g[i] && f[i + 1] == g[i + 1]
    ensures U16(f, i) == U16(g, i)
  {
  }

  lemma Ipv6Laid(f: bytes, l: Layout, off: nat)
    ensures var m := HeaderEnd(f, WithAddress(f, WithAddress(f, l, off + 8, V6), off + 24, V6), off + 40);
            && Steps(l, m, off + 8, off + 40)
            && forall i: nat :: Passed(l, off) && off <= i < off + 8 ==> OffFinds(i, m)
    ensures Passed(l, off) ==> Passed(l, off + 8)
  {
  }

  lemma Ipv6Bytes(f: bytes, g: bytes, m: Layout, r: Layout, off: nat)
    requires Alike(f, g, r) && Adds(m, r, off + 40) && Passed(m, off + 40) && |f| == |g| && Has(f, off, 40)
    requires forall i: nat :: off <= i < off + 8 ==> OffFinds(i, m)
    ensures f[off] == g[off] && U16(f, off + 4) == U16(g, off + 4) && f[off + 6] == g[off + 6]
  {
    hide Alike, Adds, OffFinds, U16, Passed;
    SameByte(f, g, m, r, off + 40, off);
    SameWord(f, g, m, r, off + 40, off + 4);
    SameByte(f, g, m, r, off + 40, off + 6);
  }

  lemma {:induction false} Ipv6Again(f: bytes, g: bytes, l: Layout, off: nat, depth: nat)
    requires |f| == |g|
    ensures Again(f, g, l, off, Ipv6(f, l, off, depth), Ipv6(g, l, off, depth))
    ensures Adds(l, Ipv6(f, l, off, depth), off + 8)
    decreases Levels(depth), 2, 0
  {
    hide TransportLayer, SkipExtensions, WithAddress, HeaderEnd, Steps, Adds, Passed, Alike, OffFinds, U16;
    Nothing(f, g, l, off);
    AddsNothing(l, off + 8);
    if depth <= MAX_DEPTH && Has(f, off, 40) {
      var r := Ipv6(f, l, off, depth);
      if f[off] / 16 == 6 {
        SameLengthSameFinds(f, g);
        var m := HeaderEnd(f, WithAddress(f, WithAddress(f, l, off + 8, V6), off + 24, V6), off + 40);
        var x := SkipExtensions(f, m, f[off + 6], off + 40);
        var pseudo: seq<(nat, nat)> := [(off + 8, 16), (off + 24, 16)];
        Ipv6Laid(f, l, off);
        SkipAgain(f, g, m, f[off + 6], off + 40, r);
        if x.Go? {
          TransportAgain(f, g, x.l, x.next, x.cur, Ipv6End(f, off), pseudo, depth, false);
          SkippedAdds(m, x.l, r, off + 40, x.cur);
        } else {
          AddsNothing(r, off + 40);
          SkippedAdds(m, x.l, r, off + 40, off + 40);
        }
        StepThen(l, m, r, off + 8, off + 40);
        AddsEarlier(l, r, off, off + 8);
        if Passed(l, off) && Alike(f, g, r) {
          Ipv6Bytes(f, g, m, r, off);
        }
      } else if Passed(l, off) && Alike(f, g, r) {
        OffBehind(l, off, off);
        PassedLater(l, off, off + 8);
        SameByte(f, g, l, r, off + 8, off);
      }
    }
  }

  lemma SkippedAdds(m: Layout, x: Layout, r: Layout, off: nat, cur: nat)
    requires SameFinds(m, x) && Adds(x, r, cur) && off <= cur
    ensures Adds(m, r, off)
    ensures Passed(m, off) ==> Passed(x, cur)
  {
  }

  // --- transport and tunnels -----------------------------------------------------------------

  lemma {:induction false} TransportAgain(f: bytes, g: bytes, l: Layout, proto: nat, off: nat, end: nat,
                                          pseudo: seq<(nat, nat)>, depth: nat, ipv4: bool)
    requires |f| == |g| && depth <= MAX_DEPTH
    ensures Again(f, g, l, off, TransportLayer(f, l, proto, off, end, pseudo, depth, ipv4),
                  TransportLayer(g, l, proto, off, end, pseudo, depth, ipv4))
    decreases Levels(depth), 1, 0
  {
    hide TcpHeader, UdpHeader, IcmpHeader, Icmpv6Header, Ipv4, Ipv6, Gre, Adds, Passed, Alike;
    if proto == 6 { TcpAgain(f, g, l, off, end, pseudo); }
    else if proto == 17 { UdpAgain(f, g, l, off, end, pseudo, depth, ipv4); }
    else if proto == 1 { IcmpAgain(f, g, l, off, end, depth); }
    else if proto == 58 { Icmpv6Again(f, g, l, off, end, pseudo, depth); }
    else if proto == 4 { Ipv4Again(f, g, l, off, depth + 1); }
    else if proto == 41 { Ipv6Again(f, g, l, off, depth + 1); }
    else if proto == 47 { GreAgain(f, g, l, off, end, depth); }
    else { Nothing(f, g, l, off); }
  }

  lemma ScopedLaid(f: bytes, l: Layout, off: nat, at: nat, end: nat, pseudo: seq<(nat, nat)>, ends: nat, t: Transport)
    requires off <= at && (at - off) % 2 == 0 && at + 2 <= ends && Has(f, at, 2)
    ensures var m := ScopedHeader(f, l, off, at, end, pseudo, ends, t);
            && Adds(l, m, off) && m.payloadStart == Min(ends, |f|) && m.transport == t
            && (!Closed(m) ==> Steps(l, m, off, ends))
            && forall i: nat :: Passed(l, off) && off <= i && !(at <= i < at + 2) ==> OffFinds(i, m)
  {
  }

  lemma SameScoped(f: bytes, g: bytes, l: Layout, off: nat, at: nat, end: nat, pseudo: seq<(nat, nat)>, ends: nat,
                   t: Transport)
    requires |f| == |g| && off <= at && (at - off) % 2 == 0 && at + 2 <= ends && Has(f, at, 2)
    ensures ScopedHeader(g, l, off, at, end, pseudo, ends, t) == ScopedHeader(f, l, off, at, end, pseudo, ends, t)
  {
    hide WithScope, HeaderEnd, WithTransport;
    SameLengthSameFinds(f, g);
  }

  lemma TcpAgain(f: bytes, g: bytes, l: Layout, off: nat, end: nat, pseudo: seq<(nat, nat)>)
    requires |f| == |g|
    ensures Again(f, g, l, off, TcpHeader(f, l, off, end, pseudo), TcpHeader(g, l, off, end, pseudo))
  {
    hide ScopedHeader, Adds, Passed, Alike, OffFinds, U16, Steps;
    if !Has(f, off, 20) {
      Nothing(f, g, l, off);
    } else {
      var r := TcpHeader(f, l, off, end, pseudo);
      var ends, t := off + Max((f[off + 12] / 16) as int * 4, 20), Tcp(U16(f, off), U16(f, off + 2));
      ScopedLaid(f, l, off, off + 16, end, pseudo, ends, t);
      if Passed(l, off) && Alike(f, g, r) {
        SameHere(f, g, r, off);
        SameHere(f, g, r, off + 1);
        SameHere(f, g, r, off + 2);
        SameHere(f, g, r, off + 3);
        SameHere(f, g, r, off + 12);
        WordOf(f, g, off);
        WordOf(f, g, off + 2);
        SameScoped(f, g, l, off, off + 16, end, pseudo, ends, t);
      }
    }
  }

  function UdpLayout(f: bytes, l: Layout, off: nat, end: nat, pseudo: seq<(nat, nat)>, ipv4: bool): Layout
    requires Has(f, off, 8)
  {
    WithTransport(f, HeaderEnd(f, UdpScope(f, l, off, end, pseudo, ipv4), off + 8), off + 8,
                  Udp(U16(f, off), U16(f, off + 2)))
  }

  lemma UdpLaid(f: bytes, l: Layout, off: nat, end: nat, pseudo: seq<(nat, nat)>, ipv4: bool)
    requires Has(f, off, 8)
    ensures var m := UdpLayout(f, l, off, end, pseudo, ipv4);
            && Adds(l, m, off) && m.payloadStart == off + 8 && m.transport == Udp(U16(f, off), U16(f, off + 2))
            && (!Closed(m) ==> Steps(l, m, off, off + 8))
            && (forall i: nat :: Passed(l, off) && off <= i && !(off + 6 <= i < off + 8) ==> OffFinds(i, m))
            && if ipv4 && U16(f, off + 6) == 0 then
                 forall i: nat :: Passed(l, off) && off <= i ==> OffFinds(i, m)
               else exists k :: 0 <= k < |m.scopes| && m.scopes[k].at == off + 6
  {
    var m := UdpLayout(f, l, off, end, pseudo, ipv4);
    if !(ipv4 && U16(f, off + 6) == 0) {
      assert m.scopes[|l.scopes|].at == off + 6;
    }
  }

  /** The eight bytes of a UDP header, but for its checksum. */
  lemma UdpSameByte(f: bytes, g: bytes, m: Layout, r: Layout, off: nat, i: nat)
    requires Alike(f, g, r) && Adds(m, r, off + 8) && m.payloadStart == off + 8 && off <= i < off + 8 <= |f|
    requires OffFinds(i, m) && if Closed(m) then r == m else Passed(m, off + 8)
    ensures f[i] == g[i]
  {
    hide Alike, Adds, Passed, OffFinds;
    if Closed(m) {
      SameHere(f, g, m, i);
    } else {
      SameByte(f, g, m, r, off + 8, i);
    }
  }

  /** A zero checksum was found to be none and is left alone; another one is not made zero. */
  lemma UdpSameLayout(f: bytes, g: bytes, l: Layout, r: Layout, off: nat, end: nat, pseudo: seq<(nat, nat)>, ipv4: bool)
    requires |f| == |g| && Has(f, off, 8) && Passed(l, off) && Alike(f, g, r)
    requires var m := UdpLayout(f, l, off, end, pseudo, ipv4);
             Adds(m, r, off + 8) && if Closed(m) then r == m else Passed(m, off + 8)
    ensures UdpLayout(g, l, off, end, pseudo, ipv4) == UdpLayout(f, l, off, end, pseudo, ipv4)
    ensures U16(g, off + 2) == U16(f, off + 2)
  {
    hide UdpLayout, Adds, Passed, Alike, OffFinds, U16, Closed, Steps;
    var m := UdpLayout(f, l, off, end, pseudo, ipv4);
    UdpLaid(f, l, off, end, pseudo, ipv4);
    UdpNotZeroed(f, g, m, r, off);
    UdpSameByte(f, g, m, r, off, off);
    UdpSameByte(f, g, m, r, off, off + 1);
    UdpSameByte(f, g, m, r, off, off + 2);
    UdpSameByte(f, g, m, r, off, off + 3);
    WordOf(f, g, off);
    WordOf(f, g, off + 2);
    if ipv4 && U16(f, off + 6) == 0 {
      UdpSameByte(f, g, m, r, off, off + 6);
      UdpSameByte(f, g, m, r, off, off + 7);
      WordOf(f, g, off + 6);
    }
    SameUdp(f, g, l, off, end, pseudo, ipv4);
  }

  lemma UdpNotZeroed(f: bytes, g: bytes, m: Layout, r: Layout, off: nat)
    requires |f| == |g| && Has(f, off, 8) && Alike(f, g, r) && Adds(m, r, off + 8)
    ensures (exists k :: 0 <= k < |m.scopes| && m.scopes[k].at == off + 6) && U16(f, off + 6) != 0 ==>
              U16(g, off + 6) != 0
  {
    if k :| 0 <= k < |m.scopes| && m.scopes[k].at == off + 6 {
      assert r.scopes[k] == m.scopes[k];
    }
  }

  lemma SameUdp(f: bytes, g: bytes, l: Layout, off: nat, end: nat, pseudo: seq<(nat, nat)>, ipv4: bool)
    requires |f| == |g| && Has(f, off, 8) && U16(f, off) == U16(g, off) && U16(f, off + 2) == U16(g, off + 2)
    requires ipv4 ==> (U16(f, off + 6) == 0 <==> U16(g, off + 6) == 0)
    ensures UdpLayout(g, l, off, end, pseudo, ipv4) == UdpLayout(f, l, off, end, pseudo, ipv4)
  {
    hide WithScope, HeaderEnd, WithTransport, U16;
    SameLengthSameFinds(f, g);
  }

  /** What a tunnel's own header says: eight bytes behind the UDP header. */
  lemma TunnelBytes(f: bytes, g: bytes, m: Layout, n: Layout, r: Layout, off: nat, inner: nat)
    requires Alike(f, g, r) && Adds(n, r, inner) && off + 16 <= inner && Has(f, off + 8, 8) && |f| == |g|
    requires Passed(m, off + 8) && SameFinds(m, n)
    ensures f[off + 8] == g[off + 8] && U16(f, off + 10) == U16(g, off + 10)
  {
    hide Alike, Adds, Passed, OffFinds, U16;
    PassedLater(m, off + 8, inner);
    SameFindsPassed(m, n, inner);
    OffBehind(m, off + 8, off + 8);
    OffBehind(m, off + 8, off + 10);
    OffBehind(m, off + 8, off + 11);
    OffTheRest(m, n, off + 8);
    OffTheRest(m, n, off + 10);
    OffTheRest(m, n, off + 11);
    SameByte(f, g, n, r, inner, off + 8);
    SameWord(f, g, n, r, inner, off + 10);
  }

  /** What is behind the UDP header: a tunnelled frame or packet, or nothing the walker reads. */
  function UdpInner(f: bytes, m: Layout, dport: nat, off: nat, depth: nat): Layout
    requires depth <= MAX_DEPTH && Has(f, off, 8)
  {
    if dport == VXLAN_PORT && Has(f, off + 8, 8) && (f[off + 8] / 8) % 2 == 1 then
      Ethernet(f, HeaderEnd(f, m, off + 16), off + 16, depth + 1)
    else if dport == GENEVE_PORT && Has(f, off + 8, 8) then
      var inner := off + 16 + (f[off + 8] % 64) as int * 4;
      var n := HeaderEnd(f, m, inner);
      if U16(f, off + 10) == ETH_TRANSPARENT_BRIDGING then Ethernet(f, n, inner, depth + 1)
      else Ethertype(f, n, U16(f, off + 10), inner, depth + 1)
    else m
  }

  lemma ClosedUdp(f: bytes, m: Layout, off: nat, depth: nat)
    requires depth <= MAX_DEPTH && Has(f, off, 8) && m.transport.Udp?
    ensures Closed(m) ==> UdpInner(f, m, m.transport.dport, off, depth) == m
  {
  }

  lemma UdpIsInner(f: bytes, l: Layout, off: nat, end: nat, pseudo: seq<(nat, nat)>, depth: nat, ipv4: bool)
    requires depth <= MAX_DEPTH && Has(f, off, 8)
    ensures UdpHeader(f, l, off, end, pseudo, depth, ipv4) ==
            UdpInner(f, UdpLayout(f, l, off, end, pseudo, ipv4), U16(f, off + 2), off, depth)
  {
    hide Ethernet, Ethertype, UdpScope, HeaderEnd, WithTransport, U16;
  }

  lemma {:induction false} UdpInnerAgain(f: bytes, g: bytes, m: Layout, dport: nat, off: nat, depth: nat)
    requires |f| == |g| && depth <= MAX_DEPTH && Has(f, off, 8)
    ensures Again(f, g, m, off + 8, UdpInner(f, m, dport, off, depth), UdpInner(g, m, dport, off, depth))
    decreases Levels(depth), 0, 0
  {
    hide Ethernet, Ethertype, HeaderEnd, Steps, Adds, Passed, Alike, OffFinds, U16;
    Nothing(f, g, m, off + 8);
    AddsNothing(m, off + 16);
    if Has(f, off + 8, 8) && (dport == VXLAN_PORT || dport == GENEVE_PORT) {
      var r := UdpInner(f, m, dport, off, depth);
      var inner := if dport == VXLAN_PORT then off + 16 else off + 16 + (f[off + 8] % 64) as int * 4;
      var n := HeaderEnd(f, m, inner);
      SameLengthSameFinds(f, g);
      EndLaid(f, m, off + 8, inner);
      EndKeepsFinds(f, m, inner);
      EthernetAgain(f, g, n, inner, depth + 1);
      EthertypeAgain(f, g, n, U16(f, off + 10), inner, depth + 1);
      if dport == VXLAN_PORT && (f[off + 8] / 8) % 2 == 0 {
        if Passed(m, off + 8) && Alike(f, g, r) { TunnelBytes(f, g, m, m, r, off, off + 16); }
      } else {
        StepThen(m, n, r, off + 8, inner);
        if Passed(m, off + 8) && Alike(f, g, r) { TunnelBytes(f, g, m, n, r, off, inner); }
      }
    }
  }

  lemma {:induction false} UdpAgain(f: bytes, g: bytes, l: Layout, off: nat, end: nat, pseudo: seq<(nat, nat)>,
                                    depth: nat, ipv4: bool)
    requires |f| == |g| && depth <= MAX_DEPTH
    ensures Again(f, g, l, off, UdpHeader(f, l, off, end, pseudo, depth, ipv4),
                  UdpHeader(g, l, off, end, pseudo, depth, ipv4))
    decreases Levels(depth), 0, 1
  {
    if !Has(f, off, 8) {
      Nothing(f, g, l, off);
    } else {
      UdpIsInner(f, l, off, end, pseudo, depth, ipv4);
      UdpIsInner(g, l, off, end, pseudo, depth, ipv4);
      UdpLaid(f, l, off, end, pseudo, ipv4);
      var m, r := UdpLayout(f, l, off, end, pseudo, ipv4), UdpHeader(f, l, off, end, pseudo, depth, ipv4);
      ClosedUdp(f, m, off, depth);
      ClosedUdp(g, m, off, depth);
      hide UdpHeader, UdpInner, UdpLayout, Steps, Adds, Passed, Alike, OffFinds, U16, Closed;
      UdpInnerAgain(f, g, m, U16(f, off + 2), off, depth);
      AddsNothing(m, off + 8);
      if !Closed(m) {
        StepThen(l, m, r, off, off + 8);
      }
      if Passed(l, off) && Alike(f, g, r) {
        UdpSameLayout(f, g, l, r, off, end, pseudo, ipv4);
      }
    }
  }

  lemma {:induction false} IcmpAgain(f: bytes, g: bytes, l: Layout, off: nat, end: nat, depth: nat)
    requires |f| == |g| && depth <= MAX_DEPTH
    ensures Again(f, g, l, off, IcmpHeader(f, l, off, end, depth), IcmpHeader(g, l, off, end, depth))
    decreases Levels(depth), 0, 1
  {
    hide Ipv4, ScopedHeader, Steps, Adds, Passed, Alike, OffFinds;
    if !Has(f, off, 8) {
      Nothing(f, g, l, off);
    } else {
      var m, r := ScopedHeader(f, l, off, off + 2, end, [], off + 8, Icmp), IcmpHeader(f, l, off, end, depth);
      ScopedLaid(f, l, off, off + 2, end, [], off + 8, Icmp);
      SameScoped(f, g, l, off, off + 2, end, [], off + 8, Icmp);
      Ipv4Again(f, g, m, off + 8, depth + 1);
      Nothing(f, g, m, off + 8);
      StepThen(l, m, r, off, off + 8);
      if Passed(l, off) && Alike(f, g, r) {
        SameByte(f, g, m, r, off + 8, off);
      }
    }
  }

  lemma {:induction false} Icmpv6Again(f: bytes, g: bytes, l: Layout, off: nat, end: nat, pseudo: seq<(nat, nat)>,
                                       depth: nat)
    requires |f| == |g| && depth <= MAX_DEPTH
    ensures Again(f, g, l, off, Icmpv6Header(f, l, off, end, pseudo, depth),
                  Icmpv6Header(g, l, off, end, pseudo, depth))
    decreases Levels(depth), 0, 1
  {
    hide Ipv6, Discovery, ScopedHeader, Steps, Adds, Passed, Alike, OffFinds;
    if !Has(f, off, 8) {
      Nothing(f, g, l, off);
    } else {
      var m := ScopedHeader(f, l, off, off + 2, end, pseudo, off + 8, Icmpv6);
      var r := Icmpv6Header(f, l, off, end, pseudo, depth);
      ScopedLaid(f, l, off, off + 2, end, pseudo, off + 8, Icmpv6);
      SameScoped(f, g, l, off, off + 2, end, pseudo, off + 8, Icmpv6);
      Ipv6Again(f, g, m, off + 8, depth + 1);
      DiscoveryAgain(f, g, m, f[off], off + 8, end);
      StepThen(l, m, r, off, off + 8);
      if Passed(l, off) && Alike(f, g, r) {
        SameByte(f, g, m, r, off + 8, off);
      }
    }
  }

  lemma DiscoveryAgain(f: bytes, g: bytes, l: Layout, kind: byte, off: nat, end: nat)
    requires |f| == |g|
    ensures Again(f, g, l, off, Discovery(f, l, kind, off, end), Discovery(g, l, kind, off, end))
  {
    hide NdOptions, WithAddress, Steps, Adds, Passed, Alike;
    SameLengthSameFinds(f, g);
    Nothing(f, g, l, off);
    var l1, r := WithAddress(f, l, off, V6), Discovery(f, l, kind, off, end);
    AddressSteps(f, l, off, V6);
    if kind == 133 {
      NdAgain(f, g, l, off, end);
    } else if kind == 134 {
      NdAgain(f, g, l, off + 8, end);
      AddsEarlier(l, r, off, off + 8);
      PassedLater(l, off, off + 8);
    } else if kind == 135 || kind == 136 {
      NdAgain(f, g, l1, off + 16, end);
      StepThen(l, l1, r, off, off + 16);
    } else if kind == 137 {
      var l2 := WithAddress(f, l1, off + 16, V6);
      AddressSteps(f, l1, off + 16, V6);
      StepsOn(l, l1, l2, off, off + 16, off + 32);
      NdAgain(f, g, l2, off + 32, end);
      StepThen(l, l2, r, off, off + 32);
    }
  }

  lemma PassedLater(l: Layout, off: nat, later: nat)
    requires off <= later
    ensures Passed(l, off) ==> Passed(l, later)
  {
  }

  lemma NdLaid(f: bytes, l: Layout, cur: nat, at: nat, k: Kind, next: nat)
    requires cur + 2 <= at && at + Size(k) <= next
    ensures var m := WithAddress(f, l, at, k);
            Steps(l, m, cur, next) && (Passed(l, cur) ==> OffFinds(cur, m) && OffFinds(cur + 1, m))
  {
  }

  lemma {:induction false} NdAgain(f: bytes, g: bytes, l: Layout, cur: nat, end: nat)
    requires |f| == |g|
    ensures Again(f, g, l, cur, NdOptions(f, l, cur, end), NdOptions(g, l, cur, end))
    decreases Left(f, cur)
  {
    hide WithAddress, Steps, Adds, Passed, Alike, OffFinds;
    Nothing(f, g, l, cur);
    if cur + 2 <= end && Has(f, cur, 2) {
      SameLengthSameFinds(f, g);
      var r, kind, length: nat := NdOptions(f, l, cur, end), f[cur], f[cur + 1] as int * 8;
      var m := if kind in {1, 2} && length >= 8 then WithAddress(f, l, cur + 2, Mac)
               else if kind == 3 && length >= 32 then WithAddress(f, l, cur + 16, V6)
               else l;
      var next := if length == 0 then cur + 2 else cur + length;
      if kind in {1, 2} && length >= 8 {
        NdLaid(f, l, cur, cur + 2, Mac, next);
      } else if kind == 3 && length >= 32 {
        NdLaid(f, l, cur, cur + 16, V6, next);
      } else {
        NoNdLaid(l, cur, next);
      }
      if length == 0 {
        AddsNothing(l, next);
      } else {
        NdAgain(f, g, m, cur + length, end);
      }
      StepThen(l, m, r, cur, next);
      if Passed(l, cur) && Alike(f, g, r) {
        SameByte(f, g, m, r, next, cur);
        SameByte(f, g, m, r, next, cur + 1);
      }
    }
  }

  lemma NoNdLaid(l: Layout, cur: nat, next: nat)
    requires cur <= next
    ensures Steps(l, l, cur, next) && (Passed(l, cur) ==> OffFinds(cur, l) && OffFinds(cur + 1, l))
  {
  }

  lemma GreLaid(f: bytes, l: Layout, off: nat, end: nat)
    requires Has(f, off, 4)
    ensures var m, cur := HeaderEnd(f, GreScope(f, l, off, end), GreEnd(off, U16(f, off))), GreEnd(off, U16(f, off));
            && Steps(l, m, off, cur) && off + 4 <= cur
            && forall i: nat :: Passed(l, off) && off <= i < off + 4 ==> OffFinds(i, m)
  {
  }

  lemma SameGreScope(f: bytes, g: bytes, l: Layout, off: nat, end: nat)
    requires |f| == |g| && Has(f, off, 4) && U16(f, off) == U16(g, off)
    ensures GreScope(g, l, off, end) == GreScope(f, l, off, end)
  {
    hide WithScope, U16;
    SameLengthSameFinds(f, g);
  }

  lemma {:induction false} GreAgain(f: bytes, g: bytes, l: Layout, off: nat, end: nat, depth: nat)
    requires |f| == |g| && depth <= MAX_DEPTH
    ensures Again(f, g, l, off, Gre(f, l, off, end, depth), Gre(g, l, off, end, depth))
    decreases Levels(depth), 0, 1
  {
    hide Ethernet, Ethertype, GreScope, GreEnd, HeaderEnd, Steps, Adds, Passed, Alike, OffFinds, U16;
    Nothing(f, g, l, off);
    AddsNothing(l, off + 4);
    if Has(f, off, 4) {
      var r := Gre(f, l, off, end, depth);
      if U16(f, off) % 8 != 0 {
        if Passed(l, off) && Alike(f, g, r) {
          OffBehind(l, off, off);
          OffBehind(l, off, off + 1);
          PassedLater(l, off, off + 4);
          SameWord(f, g, l, r, off + 4, off);
        }
      } else {
        SameLengthSameFinds(f, g);
        var cur := GreEnd(off, U16(f, off));
        var m := HeaderEnd(f, GreScope(f, l, off, end), cur);
        GreLaid(f, l, off, end);
        EthernetAgain(f, g, m, cur, depth + 1);
        EthertypeAgain(f, g, m, U16(f, off + 2), cur, depth + 1);
        StepThen(l, m, r, off, cur);
        if Passed(l, off) && Alike(f, g, r) {
          SameWord(f, g, m, r, cur, off);
          SameWord(f, g, m, r, cur, off + 2);
          SameGreScope(f, g, l, off, end);
        }
      }
    }
  }

  // --- the whole frame --------------------------------------------------------------------------

  lemma SameLength(f: bytes, g: bytes, l: Layout)
    requires Alike(f, g, l)
    ensures |f| == |g|
  {
  }

  lemma NothingPassed()
    ensures Passed(EMPTY, 0)
  {
  }

  /**
   * Two frames of one length that agree off the finds of the first, and off the payload of TCP and
   * plain UDP, are walked to one layout, provided no checksum was made zero.
   */
  lemma WalkAgain(f: bytes, g: bytes, linktype: int)
    requires Alike(f, g, Walk(f, linktype))
    ensures Walk(g, linktype) == Walk(f, linktype)
  {
    hide Alike, Ethernet, Sll, Sll2, RawIp, Loopback;
    SameLength(f, g, Walk(f, linktype));
    NothingPassed();
    if linktype == 1 { EthernetAgain(f, g, EMPTY, 0, 0); }
    else if linktype == 113 { SllAgain(f, g, EMPTY); }
    else if linktype == 276 { Sll2Again(f, g, EMPTY); }
    else if linktype in {12, 14, 101} { RawIpAgain(f, g, EMPTY, 0, 0); }
    else if linktype in {0, 108} { LoopbackAgain(f, g, EMPTY, linktype); }
  }
}
