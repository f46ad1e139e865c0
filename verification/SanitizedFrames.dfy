/**
 * Sanitized frames seen by whoever reads them next: walked again they have the original's layout,
 * and a packet built field by field shows its own addresses' stand-ins in their places.
 */
module SanitizedFrames {
  import opened Bytes
  import opened Checksums
  import opened Framewalk
  import opened Anonymize
  import opened Optional
  import opened Rewriter
  import opened Rewalk
  import Cutting
  import P = Packets
  import PacketsFound

  /** Located fields touch no header: each of their bytes is a walked address's, or payload. */
  ghost predicate FieldsOffHeaders(frame: bytes, linktype: int, fields: seq<Field>) {
    forall i :: 0 <= i < |frame| && InLocated(i, frame, fields) ==>
      var l := Walk(frame, linktype);
      InAddress(i, l.addresses) || (Closed(l) && l.payloadStart <= i && OffFields(i, l.scopes))
  }

  lemma OffFindsIs(i: int, l: Layout)
    ensures OffFinds(i, l) <==> !InAddress(i, l.addresses) && OffFields(i, l.scopes)
  {
  }

  lemma HeaderBytesStay(s: Secrets, keep: Keep, o: Options, linktype: int, frame: bytes, packet: Option<Packet>, i: nat)
    requires FieldsOffHeaders(frame, linktype, FieldsOf(packet)) && i < |frame|
    requires OffFinds(i, Walk(frame, linktype))
    requires Closed(Walk(frame, linktype)) ==> i < Walk(frame, linktype).payloadStart
    ensures Repaired(s, keep, o, linktype, frame, packet)[i] == frame[i]
  {
    var l := Walk(frame, linktype);
    hide Walk, Repaired, InAddress, OffFields, InSelected, InLocated, OffFinds;
    OffFindsIs(i, l);
    SelectedIsAddress(i, o, l.addresses);
    OnlyNamedBytesChange(s, keep, o, linktype, frame, packet, i);
  }

  lemma ChecksumsNotZeroed(s: Secrets, keep: Keep, o: Options, linktype: int, frame: bytes, packet: Option<Packet>,
                           k: nat)
    requires FieldsOffHeaders(frame, linktype, FieldsOf(packet)) && k < |Walk(frame, linktype).scopes|
    ensures Inside(Walk(frame, linktype).scopes[k], |frame|)
    ensures var at := Walk(frame, linktype).scopes[k].at;
            U16(frame, at) != 0 ==> U16(Repaired(s, keep, o, linktype, frame, packet), at) != 0
  {
    var l := Walk(frame, linktype);
    WalkPlaced(frame, linktype);
    FieldsOffThisChecksum(frame, linktype, FieldsOf(packet), k);
    hide Walk, Repaired, Edited, Residual, FieldsOff, FieldsOffHeaders, Placed, Inputs;
    SanitizingKeepsChecksums(s, keep, o, linktype, frame, packet, k);
    FieldBytesStay(s, keep, o, linktype, frame, packet, k);
  }

  lemma FieldsOffThisChecksum(frame: bytes, linktype: int, fields: seq<Field>, k: nat)
    requires FieldsOffHeaders(frame, linktype, fields) && k < |Walk(frame, linktype).scopes|
    ensures FieldsOff(frame, fields, Walk(frame, linktype).scopes[k])
  {
    var l := Walk(frame, linktype);
    WalkPlaced(frame, linktype);
    hide Walk, InLocated, InAddress, Placed;
    forall i | 0 <= i < |frame| && InField(i, l.scopes[k]) ensures !InLocated(i, frame, fields) {
      AddressOffField(|frame|, l, k, i);
    }
  }

  /**
   * A sanitized frame is dissected as the original was: the same headers, the same addresses and
   * checksums in the same places, the same transport and the same payload start, at any depth of
   * tunnelling -- unless a field was located where the walker reads.
   */
  lemma SanitizedHasTheLayout(s: Secrets, keep: Keep, o: Options, linktype: int, frame: bytes, packet: Option<Packet>)
    requires FieldsOffHeaders(frame, linktype, FieldsOf(packet))
    ensures Walk(Repaired(s, keep, o, linktype, frame, packet), linktype) == Walk(frame, linktype)
  {
    var l, r := Walk(frame, linktype), Repaired(s, keep, o, linktype, frame, packet);
    hide Walk, Repaired, OffFinds, FieldsOffHeaders, Closed;
    forall i | 0 <= i < |frame| && OffFinds(i, l) && (Closed(l) ==> i < l.payloadStart) ensures frame[i] == r[i] {
      HeaderBytesStay(s, keep, o, linktype, frame, packet, i);
    }
    forall k | 0 <= k < |l.scopes| && l.scopes[k].at + 2 <= |frame| && U16(frame, l.scopes[k].at) != 0
      ensures U16(r, l.scopes[k].at) != 0
    {
      ChecksumsNotZeroed(s, keep, o, linktype, frame, packet, k);
    }
    WalkAgain(frame, r, linktype);
  }

  /** A field located on a header moves what follows: a tagged frame whose tag type is replaced. */
  lemma HeaderFieldsMoveTheLayout(s: Secrets, keep: Keep)
    ensures var frame: bytes := Zeros(12) + [0x81, 0x00, 0, 0, 0, 0];
            var field := Field([0x81, 0x00], 12, 2, 0, ValueField(Some([0, 0])));
            var r := Repaired(s, keep, Options(false, false, false), 1, frame, Some(Packet(frame, [field])));
            Walk(r, 1).payloadStart == 14 && Walk(frame, 1).payloadStart == 18
  {
    var frame: bytes := Zeros(12) + [0x81, 0x00, 0, 0, 0, 0];
    var field := Field([0x81, 0x00], 12, 2, 0, ValueField(Some([0, 0])));
    var o := Options(false, false, false);
    TagWalk(frame);
    hide Walk, Placed, EditAddresses, EditFields;
    assert frame[12..14] == [0x81, 0x00];
    ValueFieldWritten(s, keep, 1, frame, field);
    var edited := Edited(s, keep, o, 1, frame, Some(Packet(frame, [field])));
    assert edited == Splice(frame, 12, [0, 0]) && edited[12] == 0 && frame[12] == 0x81;
    TagWalk(edited);
  }

  /** A frame of two addresses, one type word and four bytes. */
  lemma TagWalk(frame: bytes)
    requires |frame| == 18 && U16(frame, 12) in {0, 0x8100} && U16(frame, 16) == 0
    ensures Walk(frame, 1) == Layout([(0, Mac), (6, Mac)], [], if U16(frame, 12) == 0 then 14 else 18, NoTransport)
  {
    var l := WithAddress(frame, WithAddress(frame, EMPTY, 0, Mac), 6, Mac);
    assert l.addresses == [(0, Mac), (6, Mac)];
    var m := HeaderEnd(frame, l, 14);
    assert Walk(frame, 1) == Ethertype(frame, m, U16(frame, 12), 14, 0);
    if U16(frame, 12) == 0x8100 {
      assert Ethertype(frame, m, 0x8100, 14, 0) == Ethertype(frame, HeaderEnd(frame, m, 18), 0, 18, 0);
    }
  }

  // --- a packet built, sanitized and read back ------------------------------------------------

  /** What becomes of one address. */
  function Shown(s: Secrets, keep: Keep, o: Options, a: (Kind, bytes)): (Kind, bytes) {
    if Selected(o, a.0) && |a.1| == Size(a.0) then (a.0, PureAddress(s, keep, a.0, a.1)) else a
  }

  /** No located field covers a byte of this address. */
  ghost predicate Uncovered(frame: bytes, fields: seq<Field>, a: (nat, Kind)) {
    forall i: nat :: a.0 <= i < a.0 + Size(a.1) ==> !InLocated(i, frame, fields)
  }

  /** Addresses do not overlap: a byte of one that is not replaced is in none that is. */
  lemma UnselectedByte(n: nat, o: Options, l: Layout, k: nat, i: nat)
    requires Placed(n, l) && k < |l.addresses| && i < Size(l.addresses[k].1) && !Selected(o, l.addresses[k].1)
    ensures !InSelected(l.addresses[k].0 + i, o, l.addresses)
  {
    var a := l.addresses;
    forall j | 0 <= j < |a| && Selected(o, a[j].1) ensures !(a[j].0 <= a[k].0 + i < a[j].0 + Size(a[j].1)) {
      assert j < k ==> a[j].0 + Size(a[j].1) <= a[k].0;
      assert k < j ==> a[k].0 + Size(a[k].1) <= a[j].0;
    }
  }

  /** Each walked address reads, in the sanitized frame, as its stand-in or as it was. */
  lemma AddressShown(s: Secrets, keep: Keep, o: Options, linktype: int, frame: bytes, packet: Option<Packet>, k: nat)
    requires k < |Walk(frame, linktype).addresses|
    requires Uncovered(frame, FieldsOf(packet), Walk(frame, linktype).addresses[k])
    ensures var a, r := Walk(frame, linktype).addresses[k], Repaired(s, keep, o, linktype, frame, packet);
            PacketsFound.ReadAddress(r, a) == Shown(s, keep, o, PacketsFound.ReadAddress(frame, a))
  {
    hide Walk, Repaired, Placed, PureAddress, Selected, Uncovered, StandInAt, Shown, PacketsFound.ReadAddress;
    var l, r := Walk(frame, linktype), Repaired(s, keep, o, linktype, frame, packet);
    var a := l.addresses[k];
    WalkPlaced(frame, linktype);
    AddressInside(|frame|, l, k);
    var raw := frame[a.0..a.0 + Size(a.1)];
    ShownIs(s, keep, o, frame, a);
    ReadsAs(frame, a, raw);
    var shown := if Selected(o, a.1) then StandInAt(s, keep, frame, a) else raw;
    forall i: nat | i < |shown| ensures r[a.0 + i] == shown[i] {
      ByteShown(s, keep, o, linktype, frame, packet, k, i);
    }
    ReadsAs(r, a, shown);
  }

  lemma ShownIs(s: Secrets, keep: Keep, o: Options, frame: bytes, a: (nat, Kind))
    requires a.0 + Size(a.1) <= |frame|
    ensures var raw := frame[a.0..a.0 + Size(a.1)];
            Shown(s, keep, o, (a.1, raw)) == (a.1, if Selected(o, a.1) then StandInAt(s, keep, frame, a) else raw)
  {
    hide PureAddress, Selected;
  }

  lemma AddressInside(n: nat, l: Layout, k: nat)
    requires Placed(n, l) && k < |l.addresses|
    ensures l.addresses[k].0 + Size(l.addresses[k].1) <= n
  {
  }

  lemma ByteShown(s: Secrets, keep: Keep, o: Options, linktype: int, frame: bytes, packet: Option<Packet>, k: nat,
                  i: nat)
    requires k < |Walk(frame, linktype).addresses|
    requires Uncovered(frame, FieldsOf(packet), Walk(frame, linktype).addresses[k])
    requires i < Size(Walk(frame, linktype).addresses[k].1)
    ensures var a := Walk(frame, linktype).addresses[k];
            && a.0 + Size(a.1) <= |frame|
            && Repaired(s, keep, o, linktype, frame, packet)[a.0 + i] ==
               if Selected(o, a.1) then StandInAt(s, keep, frame, a)[i] else frame[a.0 + i]
  {
    var l := Walk(frame, linktype);
    WalkPlaced(frame, linktype);
    AddressInside(|frame|, l, k);
    hide Walk, Repaired, Placed, InLocated, InSelected, OffFields, StandInAt, Selected;
    assert !InLocated(l.addresses[k].0 + i, frame, FieldsOf(packet));
    if Selected(o, l.addresses[k].1) {
      EveryAddressIsReplaced(s, keep, o, linktype, frame, packet, k, i);
    } else {
      UnselectedByte(|frame|, o, l, k, i);
      AddressOffFields(|frame|, l, k, i);
      OnlyNamedBytesChange(s, keep, o, linktype, frame, packet, l.addresses[k].0 + i);
    }
  }

  lemma ReadsAs(buf: bytes, a: (nat, Kind), b: bytes)
    requires a.0 + Size(a.1) <= |buf| && |b| == Size(a.1) && forall i: nat :: i < |b| ==> buf[a.0 + i] == b[i]
    ensures PacketsFound.ReadAddress(buf, a) == (a.1, b)
  {
    assert buf[a.0..a.0 + Size(a.1)] == b;
  }

  /**
   * An Ethernet frame built field by field and sanitized, read back by the walker: the addresses are
   * the packet's own, in order, each chosen one as its stand-in and every other as it was, unless a
   * located field covers it; each checksum is as right or as wrong as the packet's; the innermost
   * ports are the packet's.
   */
  lemma SanitizedPacket(s: Secrets, keep: Keep, o: Options, p: P.Frame, padding: bytes, packet: Option<Packet>)
    requires P.FrameFits(p) && P.FrameDepth(p) <= MAX_DEPTH
    requires FieldsOffHeaders(P.FrameBytes(p) + padding, 1, FieldsOf(packet))
    ensures var frame := P.FrameBytes(p) + padding;
            var r := Repaired(s, keep, o, 1, frame, packet);
            var l, own := Walk(r, 1), P.FrameCarries(p);
            && |l.addresses| == |own.addresses| && |l.scopes| == |own.checks| && l.transport == own.transport
            && (forall k :: 0 <= k < |l.addresses| && Uncovered(frame, FieldsOf(packet), l.addresses[k]) ==>
                  PacketsFound.ReadAddress(r, l.addresses[k]) == Shown(s, keep, o, own.addresses[k]))
            && (forall k :: 0 <= k < |l.scopes| ==>
                  && PacketsFound.ReadCheck(frame, l.scopes[k]) == own.checks[k]
                  && Inside(l.scopes[k], |frame|) && Residual(r, l.scopes[k]) == Residual(frame, l.scopes[k]))
  {
    var frame := P.FrameBytes(p) + padding;
    var l, r := Walk(frame, 1), Repaired(s, keep, o, 1, frame, packet);
    hide Walk, Repaired, P.FrameFits, P.FrameDepth, P.FrameBytes, P.FrameCarries, P.FramePayload, FieldsOffHeaders,
      PacketsFound.ReadAddress, PacketsFound.ReadCheck, Shown, Residual, Uncovered;
    PacketsFound.WalkFindsThePacket(p, padding);
    SanitizedHasTheLayout(s, keep, o, 1, frame, packet);
    forall k | 0 <= k < |l.addresses| && Uncovered(frame, FieldsOf(packet), l.addresses[k])
      ensures PacketsFound.ReadAddress(r, l.addresses[k]) ==
              Shown(s, keep, o, PacketsFound.Report(frame, l).addresses[k])
    {
      AddressShown(s, keep, o, 1, frame, packet, k);
    }
    forall k | 0 <= k < |l.scopes|
      ensures Inside(l.scopes[k], |frame|) && Residual(r, l.scopes[k]) == Residual(frame, l.scopes[k])
    {
      FieldsOffThisChecksum(frame, 1, FieldsOf(packet), k);
      SanitizingKeepsChecksums(s, keep, o, 1, frame, packet, k);
    }
  }

  // --- frames cut short ---------------------------------------------------------------------------

  lemma CutSplice(buf: bytes, at: nat, patch: bytes, n: nat)
    requires at + |patch| <= n <= |buf|
    ensures Splice(buf[..n], at, patch) == Splice(buf, at, patch)[..n]
  {
  }

  lemma CutEditAddress(s: Secrets, keep: Keep, o: Options, frame: bytes, e: Editing, a: (nat, Kind), n: nat)
    requires |e.edited| == |frame| && a.0 + Size(a.1) <= n <= |frame|
    ensures EditAddress(s, keep, o, frame[..n], e.(edited := e.edited[..n]), a) ==
            (var r := EditAddress(s, keep, o, frame, e, a); r.(edited := r.edited[..n]))
  {
    hide PureAddress, Splice, Selected;
    var size := Size(a.1);
    assert frame[..n][a.0..a.0 + size] == frame[a.0..a.0 + size];
    CutSplice(e.edited, a.0, PureAddress(s, keep, a.1, frame[a.0..a.0 + size]), n);
  }

  lemma {:induction false} CutEditAddresses(s: Secrets, keep: Keep, o: Options, frame: bytes, a: seq<(nat, Kind)>,
                                            n: nat)
    requires n <= |frame| && AddressesInside(a, n) && AddressesInside(a, |frame|)
    ensures EditAddresses(s, keep, o, frame[..n], a) ==
            (var r := EditAddresses(s, keep, o, frame, a); r.(edited := r.edited[..n]))
    decreases |a|
  {
    hide EditAddress;
    if |a| > 0 {
      var last := |a| - 1;
      CutEditAddresses(s, keep, o, frame, a[..last], n);
      CutEditAddress(s, keep, o, frame, EditAddresses(s, keep, o, frame, a[..last]), a[last], n);
    }
  }

  /** A field that covers nothing behind `n` is located in the cut frame where it is in the whole. */
  lemma CutLocate(field: Field, frame: bytes, n: nat)
    requires n <= |frame| && forall i :: n <= i < |frame| ==> !Covers(field, frame, i)
    ensures Locate(field, frame[..n]) == Locate(field, frame)
  {
    var at, end := field.position, field.position + field.length;
    if 0 <= at < end <= n {
      assert frame[..n][at..end] == frame[at..end];
    } else if Locate(field, frame).Some? {
      assert Covers(field, frame, end - 1);
    }
  }

  lemma CutTarget(o: Options, frame: bytes, placed: set<(nat, nat)>, field: Field, n: nat)
    requires n <= |frame| && Locate(field, frame[..n]) == Locate(field, frame)
    ensures Target(o, frame[..n], placed, field) == Target(o, frame, placed, field)
  {
    hide Selected;
    if Locate(field, frame).Some? {
      var (at, length) := Locate(field, frame).value;
      assert frame[..n][at..at + length] == frame[at..at + length] == field.raw;
    }
  }

  lemma CutEditField(s: Secrets, keep: Keep, o: Options, frame: bytes, e: Editing, field: Field, n: nat)
    requires |e.edited| == |frame| && n <= |frame| && forall i :: n <= i < |frame| ==> !Covers(field, frame, i)
    ensures EditField(s, keep, o, frame[..n], e.(edited := e.edited[..n]), field) ==
            (var r := EditField(s, keep, o, frame, e, field); r.(edited := r.edited[..n]))
  {
    hide PureAddress, Splice, Target, Covers, Locate;
    CutLocate(field, frame, n);
    CutTarget(o, frame, e.placed, field, n);
    var target := Target(o, frame, e.placed, field);
    if target.Some? {
      var (at, length) := target.value;
      LocatedInside(field, frame[..n]);
      assert frame[..n][at..at + length] == frame[at..at + length];
      match field.use
      case AddressField(kind, _) =>
        CutSplice(e.edited, at, PureAddress(s, keep, kind, frame[at..at + length]), n);
      case ValueField(replacement) =>
        CutSplice(e.edited, at, replacement.value, n);
    }
  }

  lemma LocatedInside(field: Field, frame: bytes)
    ensures Locate(field, frame).Some? ==> Locate(field, frame).value.0 + Locate(field, frame).value.1 <= |frame|
  {
  }

  lemma {:induction false} CutEditFields(s: Secrets, keep: Keep, o: Options, frame: bytes, e: Editing,
                                         fields: seq<Field>, n: nat)
    requires |e.edited| == |frame| && n <= |frame| && forall i :: n <= i < |frame| ==> !InLocated(i, frame, fields)
    ensures EditFields(s, keep, o, frame[..n], e.(edited := e.edited[..n]), fields) ==
            (var r := EditFields(s, keep, o, frame, e, fields); r.(edited := r.edited[..n]))
    decreases |fields|
  {
    hide EditField, Covers;
    if |fields| > 0 {
      var last := |fields| - 1;
      forall i | n <= i < |frame|
        ensures !InLocated(i, frame, fields[..last]) && !Covers(fields[last], frame, i)
      {
        LocatedByLast(i, frame, fields);
      }
      CutEditFields(s, keep, o, frame, e, fields[..last], n);
      CutEditField(s, keep, o, frame, EditFields(s, keep, o, frame, e, fields[..last]), fields[last], n);
    }
  }

  /** The cut frame has all the addresses and checksums of the whole one. */
  ghost predicate NothingLost(frame: bytes, n: nat, linktype: int)
    requires n <= |frame|
  {
    && |Walk(frame[..n], linktype).addresses| == |Walk(frame, linktype).addresses|
    && |Walk(frame[..n], linktype).scopes| == |Walk(frame, linktype).scopes|
  }

  lemma NothingLostIs(frame: bytes, n: nat, linktype: int)
    requires n <= |frame| && NothingLost(frame, n, linktype)
    ensures Walk(frame[..n], linktype).addresses == Walk(frame, linktype).addresses
    ensures Walk(frame[..n], linktype).scopes == CutAll(Walk(frame, linktype).scopes, n)
  {
    Cutting.CutWalk(frame, n, linktype);
    hide Walk, Cutting.AskedOf;
    var r, q := Walk(frame, linktype), Walk(frame[..n], linktype);
    assert r.scopes[..|q.scopes|] == r.scopes;
  }

  lemma CutInside(frame: bytes, n: nat, linktype: int)
    requires n <= |frame| && NothingLost(frame, n, linktype)
    ensures AddressesInside(Walk(frame, linktype).addresses, n)
    ensures AddressesInside(Walk(frame, linktype).addresses, |frame|)
  {
    hide Walk, NothingLost;
    NothingLostIs(frame, n, linktype);
    WalkedInside(frame[..n], linktype);
  }

  lemma CutEdited(s: Secrets, keep: Keep, o: Options, linktype: int, frame: bytes, packet: Option<Packet>, n: nat)
    requires n <= |frame| && NothingLost(frame, n, linktype)
    requires forall i :: n <= i < |frame| ==> !InLocated(i, frame, FieldsOf(packet))
    ensures Edited(s, keep, o, linktype, frame[..n], packet) == Edited(s, keep, o, linktype, frame, packet)[..n]
  {
    hide Walk, NothingLost, InLocated, AddressesInside, EditAddresses, EditFields, Placed;
    NothingLostIs(frame, n, linktype);
    CutInside(frame, n, linktype);
    var a := Walk(frame, linktype).addresses;
    CutEditAddresses(s, keep, o, frame, a, n);
    if packet.Some? {
      assert FieldsOf(packet) == packet.value.fields;
      CutEditFields(s, keep, o, frame, EditAddresses(s, keep, o, frame, a), packet.value.fields, n);
    }
  }

  lemma NoneBehind(i: int, o: Options, a: seq<(nat, Kind)>, n: nat)
    requires AddressesInside(a, n) && n <= i
    ensures !InSelected(i, o, a)
  {
  }

  lemma EditedTail(s: Secrets, keep: Keep, o: Options, linktype: int, frame: bytes, packet: Option<Packet>, n: nat)
    requires n <= |frame| && NothingLost(frame, n, linktype)
    requires forall i :: n <= i < |frame| ==> !InLocated(i, frame, FieldsOf(packet))
    ensures Edited(s, keep, o, linktype, frame, packet)[n..] == frame[n..]
  {
    hide Walk, NothingLost, InLocated, Edited, InSelected, AddressesInside;
    CutInside(frame, n, linktype);
    var e := Edited(s, keep, o, linktype, frame, packet);
    forall i | n <= i < |frame| ensures e[i] == frame[i] {
      NoneBehind(i, o, Walk(frame, linktype).addresses, n);
      EditsStay(s, keep, o, linktype, frame, packet, i);
    }
  }

  lemma CutScopesFit(frame: bytes, n: nat, linktype: int)
    requires n <= |frame| && NothingLost(frame, n, linktype)
    ensures AllInside(Walk(frame, linktype).scopes, n)
    ensures var l := Walk(frame, linktype);
            forall i :: 0 <= i < |l.scopes| ==> PseudoWithin(l.scopes[i].pseudo, n)
  {
    NothingLostIs(frame, n, linktype);
    WalkPlaced(frame[..n], linktype);
    hide Walk, NothingLost;
    var l, q := Walk(frame, linktype), Walk(frame[..n], linktype);
    forall i | 0 <= i < |l.scopes| ensures Inside(l.scopes[i], n) && PseudoWithin(l.scopes[i].pseudo, n) {
      assert q.scopes[i] == Cut(l.scopes[i], n) && ScopePlaced(n, q.scopes[i]);
    }
  }

  /**
   * Sanitizing a frame cut short gives what cutting the sanitized frame gives, checksums and all, as
   * long as the cut frame still shows every address and checksum and no field lies behind the cut.
   */
  lemma SanitizingCommutesWithCutting(s: Secrets, keep: Keep, o: Options, linktype: int, frame: bytes,
                                      packet: Option<Packet>, n: nat)
    requires n <= |frame| && NothingLost(frame, n, linktype)
    requires forall i :: n <= i < |frame| ==> !InLocated(i, frame, FieldsOf(packet))
    ensures Repaired(s, keep, o, linktype, frame[..n], packet) == Repaired(s, keep, o, linktype, frame, packet)[..n]
  {
    hide Walk, NothingLost, InLocated, Edited, Refreshed, Placed, PseudoWithin, FieldsOf, Cut;
    NothingLostIs(frame, n, linktype);
    CutEdited(s, keep, o, linktype, frame, packet, n);
    EditedTail(s, keep, o, linktype, frame, packet, n);
    CutScopesFit(frame, n, linktype);
    var e := Edited(s, keep, o, linktype, frame, packet);
    assert e == e[..n] + e[n..] && frame == frame[..n] + frame[n..];
    RefreshedOfCut(frame, e, Walk(frame, linktype).scopes, n);
  }

  /**
   * What is left of a packet cut short: of its addresses in order, the walker finds exactly those it
   * asks for within the captured bytes, each reading as the packet has it.
   */
  lemma CutPacket(p: P.Frame, padding: bytes, n: nat)
    requires P.FrameFits(p) && P.FrameDepth(p) <= MAX_DEPTH && n <= |P.FrameBytes(p) + padding|
    ensures var frame := P.FrameBytes(p) + padding;
            var r, q, own := Walk(frame, 1), Walk(frame[..n], 1), P.FrameCarries(p);
            && |q.addresses| <= |own.addresses| == |r.addresses|
            && (forall j :: 0 <= j < |q.addresses| ==>
                  PacketsFound.ReadAddress(frame[..n], q.addresses[j]) == own.addresses[j])
            && forall j :: 0 <= j < |r.addresses| ==> (j < |q.addresses| <==> Cutting.AskedOf(1, r, j) <= n)
  {
    var frame := P.FrameBytes(p) + padding;
    PacketsFound.WalkFindsThePacket(p, padding);
    Cutting.CutWalk(frame, n, 1);
    WalkPlaced(frame[..n], 1);
    hide Walk, P.FrameFits, P.FrameDepth, P.FrameBytes, P.FrameCarries, P.FramePayload, Cutting.AskedOf,
      PacketsFound.ReadAddress;
    var r, q := Walk(frame, 1), Walk(frame[..n], 1);
    forall j | 0 <= j < |q.addresses|
      ensures PacketsFound.ReadAddress(frame[..n], q.addresses[j]) == PacketsFound.Report(frame, r).addresses[j]
    {
      AddressInside(n, q, j);
      ReadsInFront(frame, n, q.addresses[j]);
    }
  }

  lemma ReadsInFront(frame: bytes, n: nat, a: (nat, Kind))
    requires n <= |frame| && a.0 + Size(a.1) <= n
    ensures PacketsFound.ReadAddress(frame[..n], a) == PacketsFound.ReadAddress(frame, a)
  {
    assert frame[..n][a.0..a.0 + Size(a.1)] == frame[a.0..a.0 + Size(a.1)];
  }

  /**
   * An Ethernet frame of 34 bytes, an IPv4 header without a body, captured up to byte 30: the source
   * address is there whole, it is not found, and it stays as it was.
   */
  lemma ShortHeaderLeavesItsSource(s: Secrets, keep: Keep, o: Options)
    ensures var frame: bytes := Zeros(12) + [8, 0] + [0x45, 0, 0, 20, 0, 0, 0, 0, 64, 255, 0, 0]
                                + [10, 0, 0, 1] + [10, 0, 0, 2];
            && Walk(frame, 1).addresses == [(0, Mac), (6, Mac), (26, V4), (30, V4)]
            && Walk(frame[..30], 1).addresses == [(0, Mac), (6, Mac)]
            && Repaired(s, keep, o, 1, frame[..30], None)[26..30] == frame[26..30]
  {
    hide Walk, Repaired;
    var frame: bytes := Zeros(12) + [8, 0] + [0x45, 0, 0, 20, 0, 0, 0, 0, 64, 255, 0, 0]
                        + [10, 0, 0, 1] + [10, 0, 0, 2];
    BareIpv4Frame(frame);
    ShortIpv4Frame(frame[..30]);
    SourceStays(s, keep, o, frame[..30]);
    assert frame[..30][26..30] == frame[26..30];
  }

  lemma BareIpv4Frame(frame: bytes)
    requires |frame| == 34 && U16(frame, 12) == 0x0800 && frame[14] == 0x45 && frame[23] == 255 && U16(frame, 20) == 0
    ensures Walk(frame, 1).addresses == [(0, Mac), (6, Mac), (26, V4), (30, V4)]
  {
    var l := HeaderEnd(frame, WithAddress(frame, WithAddress(frame, EMPTY, 0, Mac), 6, Mac), 14);
    assert l.addresses == [(0, Mac), (6, Mac)];
    IntoIpv4(frame, l);
    BareIpv4(frame, l, 14);
  }

  lemma IntoIpv4(frame: bytes, l: Layout)
    requires |frame| >= 14 && U16(frame, 12) == 0x0800
    requires l == HeaderEnd(frame, WithAddress(frame, WithAddress(frame, EMPTY, 0, Mac), 6, Mac), 14)
    ensures Walk(frame, 1) == Ipv4(frame, l, 14, 0)
  {
    hide Ipv4, HeaderEnd, WithAddress, Placed, Good;
    assert Walk(frame, 1) == Ethertype(frame, l, 0x0800, 14, 0);
  }

  lemma BareIpv4(frame: bytes, l: Layout, off: nat)
    requires |frame| == off + 20 && frame[off] == 0x45 && frame[off + 9] == 255 && U16(frame, off + 6) == 0
    ensures Ipv4(frame, l, off, 0).addresses == l.addresses + [(off + 12, V4), (off + 16, V4)]
  {
    assert HeaderLength(frame, off) == 20;
    Cutting.Ipv4Pair(frame, l, off);
    hide Ipv4Header, Placed, Good, TcpHeader, UdpHeader, IcmpHeader, Icmpv6Header, Gre;
    assert Ipv4(frame, l, off, 0) == Ipv4Body(frame, Ipv4Header(frame, l, off), off, 0);
  }

  lemma ShortIpv4Frame(frame: bytes)
    requires |frame| == 30 && U16(frame, 12) == 0x0800
    ensures Walk(frame, 1).addresses == [(0, Mac), (6, Mac)] && Walk(frame, 1).scopes == []
  {
    var l := HeaderEnd(frame, WithAddress(frame, WithAddress(frame, EMPTY, 0, Mac), 6, Mac), 14);
    assert l.addresses == [(0, Mac), (6, Mac)];
    IntoIpv4(frame, l);
  }

  lemma SourceStays(s: Secrets, keep: Keep, o: Options, frame: bytes)
    requires |frame| == 30 && Walk(frame, 1).addresses == [(0, Mac), (6, Mac)] && Walk(frame, 1).scopes == []
    ensures Repaired(s, keep, o, 1, frame, None)[26..30] == frame[26..30]
  {
    hide Walk, Repaired;
    forall i | 26 <= i < 30 ensures Repaired(s, keep, o, 1, frame, None)[i] == frame[i] {
      OnlyNamedBytesChange(s, keep, o, 1, frame, None, i);
    }
  }
}
