/**
 * One frame sanitized (backend/sanitizer.py, `_FrameRewriter.rewrite`): header addresses, then
 * the fields tshark located, then the checksums both disturbed.
 */
module Rewriter {
  import opened Bytes
  import opened Checksums
  import opened Framewalk
  import opened Anonymize
  import Walker
  import opened Optional

  datatype Options = Options(ips: bool, macs: bool, stripPayload: bool)

  /**
   * A field as tshark reports it: its bytes, where it says they are, and what they are to
   * become -- the stand-in of the address it shows, or a given replacement.
   */
  datatype Field = Field(raw: bytes, position: int, length: int, bitmask: nat, use: Use)
  datatype Use = AddressField(kind: Kind, shown: Option<bytes>) | ValueField(replacement: Option<bytes>)

  datatype Packet = Packet(frameRaw: bytes, fields: seq<Field>)

  /** `_locate`: the reported position, confirmed against the frame's own bytes. */
  function Locate(field: Field, frame: bytes): (r: Option<(nat, nat)>)
    ensures r.Some? ==> 0 < r.value.1 && r.value.0 + r.value.1 <= |frame|
                        && frame[r.value.0..r.value.0 + r.value.1] == field.raw
  {
    if field.bitmask != 0 || field.length <= 0 || field.position < 0 || field.position + field.length > |frame| then
      None
    else if frame[field.position..field.position + field.length] != field.raw then None
    else Some((field.position, field.length))
  }

  predicate Selected(o: Options, k: Kind) { if k == Mac then o.macs else o.ips }

  function PureAddress(s: Secrets, keep: Keep, k: Kind, raw: bytes): (r: bytes)
    requires |raw| == Size(k)
    ensures |r| == Size(k)
  {
    match k
    case Mac => PureMac(s, keep, raw)
    case V4 => PureIpv4(s, keep, raw)
    case V6 => PureIpv6(s, keep, raw)
  }

  // --- the edits, one after another ------------------------------------------------------------

  datatype Editing = Editing(edited: bytes, placed: set<(nat, nat)>)

  predicate AddressesInside(a: seq<(nat, Kind)>, n: nat) {
    forall i :: 0 <= i < |a| ==> a[i].0 + Size(a[i].1) <= n
  }

  function EditAddress(s: Secrets, keep: Keep, o: Options, frame: bytes, e: Editing, a: (nat, Kind)): (r: Editing)
    requires |e.edited| == |frame| && a.0 + Size(a.1) <= |frame|
    ensures |r.edited| == |frame|
  {
    if !Selected(o, a.1) then e
    else
      var size := Size(a.1);
      Editing(Splice(e.edited, a.0, PureAddress(s, keep, a.1, frame[a.0..a.0 + size])), e.placed + {(a.0, size)})
  }

  function EditAddresses(s: Secrets, keep: Keep, o: Options, frame: bytes, a: seq<(nat, Kind)>): (r: Editing)
    requires AddressesInside(a, |frame|)
    ensures |r.edited| == |frame|
  {
    if |a| == 0 then Editing(frame, {})
    else EditAddress(s, keep, o, frame, EditAddresses(s, keep, o, frame, a[..|a| - 1]), a[|a| - 1])
  }

  /** Where a field's edit goes, if it makes one. */
  function Target(o: Options, frame: bytes, placed: set<(nat, nat)>, field: Field): (r: Option<(nat, nat)>)
    ensures r.Some? ==> r == Locate(field, frame)
    ensures r.Some? && field.use.AddressField? ==> r.value.1 == Size(field.use.kind)
    ensures r.Some? && field.use.ValueField? ==>
              field.use.replacement.Some? && |field.use.replacement.value| == r.value.1
  {
    match field.use
    case AddressField(kind, shown) =>
      if !Selected(o, kind) || shown.None? || Locate(field, frame).None? then None
      else
        var (at, length) := Locate(field, frame).value;
        if (at, length) in placed || length != Size(kind) || frame[at..at + length] != shown.value then None
        else Some((at, length))
    case ValueField(replacement) =>
      if Locate(field, frame).None? then None
      else
        var (at, length) := Locate(field, frame).value;
        if replacement.None? || |replacement.value| != length then None else Some((at, length))
  }

  function EditField(s: Secrets, keep: Keep, o: Options, frame: bytes, e: Editing, field: Field): (r: Editing)
    requires |e.edited| == |frame|
    ensures |r.edited| == |frame|
  {
    match Target(o, frame, e.placed, field)
    case None => e
    case Some((at, length)) =>
      match field.use
      case AddressField(kind, _) =>
        Editing(Splice(e.edited, at, PureAddress(s, keep, kind, frame[at..at + length])), e.placed + {(at, length)})
      case ValueField(replacement) => e.(edited := Splice(e.edited, at, replacement.value))
  }

  function EditFields(s: Secrets, keep: Keep, o: Options, frame: bytes, e: Editing, fields: seq<Field>): (r: Editing)
    requires |e.edited| == |frame|
    ensures |r.edited| == |frame|
    decreases |fields|
  {
    if |fields| == 0 then e
    else EditField(s, keep, o, frame, EditFields(s, keep, o, frame, e, fields[..|fields| - 1]), fields[|fields| - 1])
  }

  /** The frame with every edit made and no checksum repaired yet. */
  function Edited(s: Secrets, keep: Keep, o: Options, linktype: int, frame: bytes, packet: Option<Packet>): (r: bytes)
    ensures |r| == |frame|
  {
    var e := EditAddresses(s, keep, o, frame, Walk(frame, linktype).addresses);
    match packet
    case None => e.edited
    case Some(p) => EditFields(s, keep, o, frame, e, p.fields).edited
  }

  /** The frame with its checksums repaired, whole. */
  function Repaired(s: Secrets, keep: Keep, o: Options, linktype: int, frame: bytes, packet: Option<Packet>): (r: bytes)
    ensures |r| == |frame|
  {
    var edited := Edited(s, keep, o, linktype, frame, packet);
    if edited == frame then frame else Refreshed(frame, edited, Walk(frame, linktype).scopes)
  }

  predicate Disagrees(frame: bytes, packet: Option<Packet>) { packet.Some? && packet.value.frameRaw != frame }

  /** `rewrite`: nothing when tshark and the reader disagree about the frame's bytes. */
  function Rewritten(s: Secrets, keep: Keep, o: Options, linktype: int, frame: bytes, packet: Option<Packet>)
    : (r: Option<bytes>)
    ensures r.Some? ==> |r.value| <= |frame| && (!o.stripPayload ==> |r.value| == |frame|)
  {
    if Disagrees(frame, packet) then None
    else
      var whole := Repaired(s, keep, o, linktype, frame, packet);
      var keepTo := Walk(frame, linktype).payloadStart;
      Some(if o.stripPayload && keepTo < |whole| then whole[..keepTo] else whole)
  }

  // --- the rewriter ----------------------------------------------------------------------------

  class FrameRewriter {
    const options: Options
    const linktype: int
    const mapper: AddressMapper

    constructor (secrets: Secrets, keep: Keep, options: Options, linktype: int)
      ensures Valid() && this.options == options && this.linktype == linktype
      ensures mapper.secrets == secrets && mapper.keep == keep && fresh(mapper)
    {
      this.options, this.linktype := options, linktype;
      mapper := new AddressMapper(secrets, keep);
    }

    ghost predicate Valid()
      reads this, mapper
    {
      mapper.Valid()
    }

    method StandInOf(k: Kind, raw: bytes) returns (r: bytes)
      requires Valid() && |raw| == Size(k)
      modifies mapper
      ensures Valid() && r == PureAddress(mapper.secrets, mapper.keep, k, raw)
    {
      match k
      case Mac => r := mapper.Mac(raw);
      case V4 => r := mapper.Ipv4(raw);
      case V6 => r := mapper.Ipv6(raw);
    }

    method Write(edited: array<byte>, at: nat, patch: bytes)
      requires at + |patch| <= edited.Length
      modifies edited
      ensures edited[..] == Splice(old(edited[..]), at, patch)
    {
      forall i | 0 <= i < |patch| { edited[at + i] := patch[i]; }
    }

    method ApplyAddresses(frame: bytes, edited: array<byte>, addresses: seq<(nat, Kind)>)
      returns (placed: set<(nat, nat)>)
      requires Valid() && edited[..] == frame && AddressesInside(addresses, |frame|)
      modifies mapper, edited
      ensures Valid()
      ensures Editing(edited[..], placed) == EditAddresses(mapper.secrets, mapper.keep, options, frame, addresses)
    {
      hide Splice, PureAddress, EditAddress, AddressMapper.Valid;
      placed := {};
      for i := 0 to |addresses|
        invariant Valid()
        invariant Editing(edited[..], placed) ==
                  EditAddresses(mapper.secrets, mapper.keep, options, frame, addresses[..i])
      {
        assert addresses[..i + 1][..i] == addresses[..i];
        placed := ApplyAddress(frame, edited, placed, addresses[i]);
      }
      assert addresses[..|addresses|] == addresses;
    }

    method ApplyAddress(frame: bytes, edited: array<byte>, placed: set<(nat, nat)>, a: (nat, Kind))
      returns (placed': set<(nat, nat)>)
      requires Valid() && edited.Length == |frame| && a.0 + Size(a.1) <= |frame|
      modifies mapper, edited
      ensures Valid()
      ensures Editing(edited[..], placed') ==
              EditAddress(mapper.secrets, mapper.keep, options, frame, Editing(old(edited[..]), placed), a)
    {
      hide Splice, PureAddress, AddressMapper.Valid;
      if !Selected(options, a.1) { return placed; }
      var size := Size(a.1);
      var standIn := StandInOf(a.1, frame[a.0..a.0 + size]);
      Write(edited, a.0, standIn);
      return placed + {(a.0, size)};
    }

    method ApplyField(frame: bytes, edited: array<byte>, placed: set<(nat, nat)>, field: Field)
      returns (placed': set<(nat, nat)>)
      requires Valid() && edited.Length == |frame|
      modifies mapper, edited
      ensures Valid()
      ensures Editing(edited[..], placed') ==
              EditField(mapper.secrets, mapper.keep, options, frame, Editing(old(edited[..]), placed), field)
    {
      hide Splice, PureAddress, Target, AddressMapper.Valid;
      var target := Target(options, frame, placed, field);
      if target == None { return placed; }
      var (at, length) := target.value;
      match field.use
      case AddressField(kind, _) =>
        var standIn := StandInOf(kind, frame[at..at + length]);
        Write(edited, at, standIn);
        return placed + {(at, length)};
      case ValueField(replacement) =>
        Write(edited, at, replacement.value);
        return placed;
    }

    method ApplyFields(frame: bytes, edited: array<byte>, placed: set<(nat, nat)>, fields: seq<Field>)
      requires Valid() && edited.Length == |frame|
      modifies mapper, edited
      ensures Valid()
      ensures edited[..] ==
              EditFields(mapper.secrets, mapper.keep, options, frame, Editing(old(edited[..]), placed), fields).edited
    {
      hide EditField, AddressMapper.Valid;
      ghost var start := Editing(edited[..], placed);
      var placed' := placed;
      for i := 0 to |fields|
        invariant Valid()
        invariant Editing(edited[..], placed') ==
                  EditFields(mapper.secrets, mapper.keep, options, frame, start, fields[..i])
      {
        assert fields[..i + 1][..i] == fields[..i];
        placed' := ApplyField(frame, edited, placed', fields[i]);
      }
      assert fields[..|fields|] == fields;
    }

    method Rewrite(frame: bytes, packet: Option<Packet>) returns (r: Option<bytes>)
      requires Valid() && linktype in LINKTYPES
      modifies mapper
      ensures Valid()
      ensures r == Rewritten(mapper.secrets, mapper.keep, options, linktype, frame, packet)
    {
      hide Edited, Refreshed, Walk, Placed, AddressMapper.Valid;
      var known, layout := Walker.WalkFrame(frame, linktype);
      PlacedInside(|frame|, layout);
      if packet.Some? && packet.value.frameRaw != frame {
        return None;
      }
      var edited := EditedCopy(frame, layout.addresses, packet);
      if edited[..] != frame {
        RefreshChecksums(frame, edited, layout.scopes);
      }
      if options.stripPayload && layout.payloadStart < edited.Length {
        return Some(edited[..layout.payloadStart]);
      }
      return Some(edited[..]);
    }

    /** A copy of the frame with the header addresses and the located fields rewritten. */
    method EditedCopy(frame: bytes, addresses: seq<(nat, Kind)>, packet: Option<Packet>) returns (edited: array<byte>)
      requires Valid() && AddressesInside(addresses, |frame|) && addresses == Walk(frame, linktype).addresses
      modifies mapper
      ensures Valid() && fresh(edited)
      ensures edited[..] == Edited(mapper.secrets, mapper.keep, options, linktype, frame, packet)
    {
      hide EditAddresses, EditFields, Walk, AddressMapper.Valid;
      edited := new byte[|frame|](i requires 0 <= i < |frame| => frame[i]);
      assert edited[..] == frame;
      var placed := ApplyAddresses(frame, edited, addresses);
      if packet.Some? {
        ApplyFields(frame, edited, placed, packet.value.fields);
      }
    }
  }

  lemma PlacedInside(n: nat, l: Layout)
    requires Placed(n, l)
    ensures AddressesInside(l.addresses, n) && l.payloadStart <= n && AllInside(l.scopes, n) && OutsideIn(l.scopes)
    ensures forall i :: 0 <= i < |l.scopes| ==> l.scopes[i].start <= l.scopes[i].at && PseudoOffField(l.scopes[i])
  {
  }

  // --- what a rewrite may touch -------------------------------------------------------------------

  ghost predicate InAddress(i: int, a: seq<(nat, Kind)>) {
    exists k :: 0 <= k < |a| && a[k].0 <= i < a[k].0 + Size(a[k].1)
  }

  /** In an address of a kind that is being replaced. */
  ghost predicate InSelected(i: int, o: Options, a: seq<(nat, Kind)>) {
    exists k :: 0 <= k < |a| && Selected(o, a[k].1) && a[k].0 <= i < a[k].0 + Size(a[k].1)
  }

  lemma SelectedIsAddress(i: int, o: Options, a: seq<(nat, Kind)>)
    ensures InSelected(i, o, a) ==> InAddress(i, a)
  {
  }

  predicate Covers(field: Field, frame: bytes, i: int) {
    var spot := Locate(field, frame);
    spot.Some? && spot.value.0 <= i < spot.value.0 + spot.value.1
  }

  ghost predicate InLocated(i: int, frame: bytes, fields: seq<Field>) {
    exists k :: 0 <= k < |fields| && Covers(fields[k], frame, i)
  }

  function FieldsOf(packet: Option<Packet>): seq<Field> { if packet.Some? then packet.value.fields else [] }

  lemma {:induction false} AddressEditsStay(s: Secrets, keep: Keep, o: Options, frame: bytes, a: seq<(nat, Kind)>,
                                            i: int)
    requires AddressesInside(a, |frame|) && 0 <= i < |frame| && !InSelected(i, o, a)
    ensures EditAddresses(s, keep, o, frame, a).edited[i] == frame[i]
    decreases |a|
  {
    if |a| > 0 {
      hide PureAddress;
      var n := |a| - 1;
      assert forall k :: 0 <= k < n ==> a[..n][k] == a[k];
      AddressEditsStay(s, keep, o, frame, a[..n], i);
      assert Selected(o, a[n].1) ==> !(a[n].0 <= i < a[n].0 + Size(a[n].1));
    }
  }

  lemma {:induction false} FieldEditsStay(s: Secrets, keep: Keep, o: Options, frame: bytes, e: Editing,
                                          fields: seq<Field>, i: int)
    requires |e.edited| == |frame| && 0 <= i < |frame| && !InLocated(i, frame, fields)
    ensures EditFields(s, keep, o, frame, e, fields).edited[i] == e.edited[i]
    decreases |fields|
  {
    if |fields| > 0 {
      hide PureAddress, Target, Locate;
      var n := |fields| - 1;
      assert forall k :: 0 <= k < n ==> fields[..n][k] == fields[k];
      FieldEditsStay(s, keep, o, frame, e, fields[..n], i);
      assert !Covers(fields[n], frame, i);
    }
  }

  lemma WalkedInside(frame: bytes, linktype: int)
    ensures AddressesInside(Walk(frame, linktype).addresses, |frame|)
  {
    hide Walk;
    PlacedInside(|frame|, Walk(frame, linktype));
  }

  /** Where no field was located, the edits are those of the addresses. */
  lemma EditedOffFields(s: Secrets, keep: Keep, o: Options, linktype: int, frame: bytes, packet: Option<Packet>, i: int)
    requires 0 <= i < |frame| && !InLocated(i, frame, FieldsOf(packet))
    ensures AddressesInside(Walk(frame, linktype).addresses, |frame|)
    ensures Edited(s, keep, o, linktype, frame, packet)[i] ==
            EditAddresses(s, keep, o, frame, Walk(frame, linktype).addresses).edited[i]
  {
    hide Walk, Placed, EditAddresses, EditFields, Covers, AddressesInside;
    WalkedInside(frame, linktype);
    if packet.Some? {
      var e := EditAddresses(s, keep, o, frame, Walk(frame, linktype).addresses);
      FieldEditsStay(s, keep, o, frame, e, packet.value.fields, i);
    }
  }

  lemma EditsStay(s: Secrets, keep: Keep, o: Options, linktype: int, frame: bytes, packet: Option<Packet>, i: int)
    requires 0 <= i < |frame|
    requires !InSelected(i, o, Walk(frame, linktype).addresses) && !InLocated(i, frame, FieldsOf(packet))
    ensures Edited(s, keep, o, linktype, frame, packet)[i] == frame[i]
  {
    hide Walk, Placed, EditAddresses, Edited, InLocated, InSelected, AddressesInside;
    EditedOffFields(s, keep, o, linktype, frame, packet, i);
    AddressEditsStay(s, keep, o, frame, Walk(frame, linktype).addresses, i);
  }

  /** A rewritten frame differs only in walked addresses of the chosen kinds, located fields and checksum fields. */
  lemma OnlyNamedBytesChange(s: Secrets, keep: Keep, o: Options, linktype: int, frame: bytes, packet: Option<Packet>,
                             i: int)
    requires 0 <= i < |frame|
    requires !InSelected(i, o, Walk(frame, linktype).addresses) && !InLocated(i, frame, FieldsOf(packet))
    requires OffFields(i, Walk(frame, linktype).scopes)
    ensures Repaired(s, keep, o, linktype, frame, packet)[i] == frame[i]
  {
    hide Walk, Placed, Edited, Refreshed;
    var l := Walk(frame, linktype);
    PlacedInside(|frame|, l);
    EditsStay(s, keep, o, linktype, frame, packet, i);
    RefreshedTouchesFields(frame, Edited(s, keep, o, linktype, frame, packet), l.scopes);
  }

  /** No located field lies on this checksum: what tshark reports there is other bytes. */
  ghost predicate FieldsOff(frame: bytes, fields: seq<Field>, scope: Scope) {
    forall i :: 0 <= i < |frame| && InField(i, scope) ==> !InLocated(i, frame, fields)
  }

  lemma FieldBytesStay(s: Secrets, keep: Keep, o: Options, linktype: int, frame: bytes, packet: Option<Packet>, k: nat)
    requires k < |Walk(frame, linktype).scopes|
    requires FieldsOff(frame, FieldsOf(packet), Walk(frame, linktype).scopes[k])
    ensures Inside(Walk(frame, linktype).scopes[k], |frame|)
    ensures var at := Walk(frame, linktype).scopes[k].at;
            U16(Edited(s, keep, o, linktype, frame, packet), at) == U16(frame, at)
  {
    var l := Walk(frame, linktype);
    hide Walk, Edited, Covers;
    var scope := l.scopes[k];
    assert Inside(scope, |frame|) by { PlacedInside(|frame|, l); }
    forall i | InField(i, scope)
      ensures !InSelected(i, o, l.addresses)
    {
      AddressOffField(|frame|, l, k, i);
      SelectedIsAddress(i, o, l.addresses);
    }
    assert InField(scope.at, scope) && InField(scope.at + 1, scope);
    EditsStay(s, keep, o, linktype, frame, packet, scope.at);
    EditsStay(s, keep, o, linktype, frame, packet, scope.at + 1);
  }

  lemma AddressOffField(n: nat, l: Layout, k: nat, i: int)
    requires Placed(n, l) && k < |l.scopes| && InField(i, l.scopes[k])
    ensures !InAddress(i, l.addresses)
  {
  }

  /** The checksum value the edits leave in the k-th field: the frame's own, unless a field lay there. */
  function LeftInField(s: Secrets, keep: Keep, o: Options, linktype: int, frame: bytes, packet: Option<Packet>, k: nat)
    : nat
    requires k < |Walk(frame, linktype).scopes| && Inside(Walk(frame, linktype).scopes[k], |frame|)
  {
    U16(Edited(s, keep, o, linktype, frame, packet), Walk(frame, linktype).scopes[k].at)
  }

  /** Nothing edited, nothing to repair: the frame settles as it is. */
  lemma UneditedSettles(frame: bytes, scope: Scope)
    requires Inside(scope, |frame|)
    ensures Settled(frame, frame, frame, scope)
  {
  }

  /**
   * Sanitizing keeps a checksum as right or as wrong as it was, at any depth of tunnelling: the
   * rewritten frame has the original's residual if and only if the edits left the checksum's own
   * value as it was, mod 0xFFFF. A field located on the checksum is all that can change that value.
   * And a checksum whose inputs moved is not left at zero.
   */
  lemma SanitizingKeepsChecksums(s: Secrets, keep: Keep, o: Options, linktype: int, frame: bytes,
                                 packet: Option<Packet>, k: nat)
    requires k < |Walk(frame, linktype).scopes|
    ensures var scope := Walk(frame, linktype).scopes[k];
            var r := Repaired(s, keep, o, linktype, frame, packet);
            && Inside(scope, |frame|)
            && (Residual(r, scope) == Residual(frame, scope) <==>
                Same(LeftInField(s, keep, o, linktype, frame, packet, k), U16(frame, scope.at)))
            && (FieldsOff(frame, FieldsOf(packet), scope) ==> Residual(r, scope) == Residual(frame, scope))
            && Settled(frame, Edited(s, keep, o, linktype, frame, packet), r, scope)
  {
    var l := Walk(frame, linktype);
    var edited := Edited(s, keep, o, linktype, frame, packet);
    PlacedInside(|frame|, l);
    if FieldsOff(frame, FieldsOf(packet), l.scopes[k]) {
      FieldBytesStay(s, keep, o, linktype, frame, packet, k);
    }
    UneditedSettles(frame, l.scopes[k]);
    hide Walk, Edited, Placed, Refreshed, FieldsOff, Residual, Settled;
    RefreshKeepsResiduals(frame, edited, l.scopes, k);
  }

  /**
   * What a receiver makes of a segment, uncaptured tail and all. One it would accept stays
   * acceptable exactly when its checksum's value was left, mod 0xFFFF, and not everything summed is
   * zero; in particular when the value itself was left. One it would reject is then rejected still,
   * unless all it summed was zero.
   */
  lemma SanitizingKeepsVerdicts(s: Secrets, keep: Keep, o: Options, linktype: int, frame: bytes,
                                packet: Option<Packet>, k: nat, fixed: bytes, tail: bytes)
    requires k < |Walk(frame, linktype).scopes| && |fixed| % 2 == 0
    requires Walk(frame, linktype).scopes[k].at + 2 <= Walk(frame, linktype).scopes[k].end
    ensures Inside(Walk(frame, linktype).scopes[k], |frame|)
    ensures var scope := Walk(frame, linktype).scopes[k];
            var was := Received(frame, scope, fixed, tail);
            var is' := Received(Repaired(s, keep, o, linktype, frame, packet), scope, fixed, tail);
            var left := LeftInField(s, keep, o, linktype, frame, packet, k);
            && (Accepts(was) ==> (Accepts(is') <==> Same(left, U16(frame, scope.at)) && Rfc1071Sum(is') != 0))
            && (Accepts(was) && left == U16(frame, scope.at) ==> Accepts(is'))
            && (Same(left, U16(frame, scope.at)) && Rfc1071Sum(was) != 0 && Accepts(is') ==> Accepts(was))
  {
    var l, scope := Walk(frame, linktype), Walk(frame, linktype).scopes[k];
    var r := Repaired(s, keep, o, linktype, frame, packet);
    SanitizingKeepsChecksums(s, keep, o, linktype, frame, packet, k);
    PlacedScopeCovers(|frame|, l, k, frame);
    PlacedScopeCovers(|frame|, l, k, r);
    hide Walk, Repaired, Placed, Residual, Settled, Received, Accepts, Edited, Same, FieldsOff;
    VerdictKept(frame, Edited(s, keep, o, linktype, frame, packet), r, scope, fixed, tail);
  }

  lemma PlacedScopeCovers(n: nat, l: Layout, k: nat, buf: bytes)
    requires Placed(n, l) && k < |l.scopes| && |buf| == n && l.scopes[k].at + 2 <= l.scopes[k].end
    ensures Covering(l.scopes[k], buf)
  {
    assert ScopePlaced(n, l.scopes[k]);
    PseudoLength(buf, l.scopes[k].pseudo);
  }

  lemma {:induction false} PseudoLength(buf: bytes, pseudo: seq<(nat, nat)>)
    requires forall k :: 0 <= k < |pseudo| ==> pseudo[k].0 + pseudo[k].1 <= |buf| && pseudo[k].1 % 2 == 0
    ensures |PseudoBytes(buf, pseudo)| % 2 == 0
  {
    hide Slice;
    if |pseudo| > 0 {
      PseudoLength(buf, pseudo[1..]);
      SliceLength(buf, pseudo[0].0, pseudo[0].1);
      EvenSum(pseudo[0].1, |PseudoBytes(buf, pseudo[1..])|);
    }
  }

  lemma SliceLength(buf: bytes, lo: nat, n: nat)
    requires lo + n <= |buf|
    ensures |Slice(buf, lo, lo + n)| == n
  {
  }

  lemma EvenSum(a: nat, b: nat)
    requires a % 2 == 0 && b % 2 == 0
    ensures (a + b) % 2 == 0
  {
  }

  // --- fields on checksums ----------------------------------------------------------------------

  /** The same located spots with other contents, each as long as what stands there. */
  ghost predicate Fills(fields: seq<Field>, filled: seq<Field>) {
    && |filled| == |fields|
    && forall k :: 0 <= k < |fields| ==>
         && filled[k] == fields[k].(use := filled[k].use) && filled[k].use.ValueField?
         && filled[k].use.replacement.Some? && |filled[k].use.replacement.value| == |fields[k].raw|
  }

  /** What stands in a spot, but for byte `i` of the frame, which becomes `v`. */
  function WithByte(field: Field, i: int, v: byte): (r: Field)
    ensures r == field.(use := r.use) && r.use.ValueField? && r.use.replacement.Some?
    ensures |r.use.replacement.value| == |field.raw|
  {
    var raw, at := field.raw, i - field.position;
    field.(use := ValueField(Some(if 0 <= at < |raw| then raw[at := v] else raw)))
  }

  function WithByteEverywhere(fields: seq<Field>, i: int, v: byte): (r: seq<Field>)
    ensures |r| == |fields| && forall k :: 0 <= k < |r| ==> r[k] == WithByte(fields[k], i, v)
  {
    seq(|fields|, k requires 0 <= k < |fields| => WithByte(fields[k], i, v))
  }

  lemma UseIsNoPlace(frame: bytes, a: Field, b: Field, i: int)
    requires b == a.(use := b.use)
    ensures Locate(b, frame) == Locate(a, frame) && (Covers(b, frame, i) <==> Covers(a, frame, i))
  {
  }

  /** Where other contents are located is where the old ones were. */
  lemma FilledInSamePlaces(frame: bytes, fields: seq<Field>, filled: seq<Field>, i: int)
    requires Fills(fields, filled)
    ensures InLocated(i, frame, filled) <==> InLocated(i, frame, fields)
  {
    hide Covers;
    forall k | 0 <= k < |fields| ensures Covers(filled[k], frame, i) <==> Covers(fields[k], frame, i) {
      UseIsNoPlace(frame, fields[k], filled[k], i);
    }
  }

  /** One such field leaves a byte as it is, as the frame's, or, where the byte is `i`, as `v`. */
  lemma ByteWritten(s: Secrets, keep: Keep, o: Options, frame: bytes, e: Editing, field: Field, i: int, v: byte,
                    j: int)
    requires |e.edited| == |frame| && 0 <= j < |frame|
    ensures EditField(s, keep, o, frame, e, WithByte(field, i, v)).edited[j] ==
            if !Covers(field, frame, j) then e.edited[j] else if j == i then v else frame[j]
  {
    var w := WithByte(field, i, v);
    UseIsNoPlace(frame, field, w, j);
    if Locate(field, frame).Some? {
      var (at, length) := Locate(field, frame).value;
      var patch := w.use.replacement.value;
      assert EditField(s, keep, o, frame, e, w).edited == Splice(e.edited, at, patch);
      if at <= j < at + length {
        assert Splice(e.edited, at, patch)[at..at + length][j - at] == patch[j - at];
        assert frame[at..at + length][j - at] == field.raw[j - at];
      }
    }
  }

  lemma {:induction false} BytesWritten(s: Secrets, keep: Keep, o: Options, frame: bytes, e: Editing,
                                        fields: seq<Field>, i: int, v: byte, j: int)
    requires |e.edited| == |frame| && 0 <= j < |frame|
    ensures EditFields(s, keep, o, frame, e, WithByteEverywhere(fields, i, v)).edited[j] ==
            if !InLocated(j, frame, fields) then e.edited[j] else if j == i then v else frame[j]
    decreases |fields|
  {
    hide WithByte, Covers, EditField;
    var all := WithByteEverywhere(fields, i, v);
    if |fields| > 0 {
      var n := |fields| - 1;
      assert all[..n] == WithByteEverywhere(fields[..n], i, v);
      var before := EditFields(s, keep, o, frame, e, all[..n]);
      BytesWritten(s, keep, o, frame, e, fields[..n], i, v, j);
      ByteWritten(s, keep, o, frame, before, fields[n], i, v, j);
      LocatedByLast(j, frame, fields);
    }
  }

  lemma LocatedByLast(j: int, frame: bytes, fields: seq<Field>)
    requires |fields| > 0
    ensures InLocated(j, frame, fields) <==>
            InLocated(j, frame, fields[..|fields| - 1]) || Covers(fields[|fields| - 1], frame, j)
  {
    hide Covers;
    var front := fields[..|fields| - 1];
    forall k | 0 <= k < |front| ensures front[k] == fields[k] {}
  }

  /** The whole edit with one byte of the located spots made `v` and the rest as it stood. */
  lemma OneByteWritten(s: Secrets, keep: Keep, o: Options, linktype: int, frame: bytes, fields: seq<Field>, i: int,
                       v: byte, j: int)
    requires 0 <= j < |frame| && !InAddress(j, Walk(frame, linktype).addresses)
    ensures Edited(s, keep, o, linktype, frame, Some(Packet(frame, WithByteEverywhere(fields, i, v))))[j] ==
            if j == i && InLocated(j, frame, fields) then v else frame[j]
  {
    hide Walk, Placed, EditAddresses, EditFields, InLocated, InAddress, InSelected, AddressesInside;
    WalkedInside(frame, linktype);
    var a := Walk(frame, linktype).addresses;
    SelectedIsAddress(j, o, a);
    AddressEditsStay(s, keep, o, frame, a, j);
    BytesWritten(s, keep, o, frame, EditAddresses(s, keep, o, frame, a), fields, i, v, j);
  }

  /** Another value for a byte. */
  function Next(b: byte): (r: byte)
    ensures r != b
  {
    if b == 255 then 0 else b + 1
  }

  lemma OtherWord(a: bytes, b: bytes, at: nat, i: nat)
    requires |a| == |b| && at + 2 <= |a| && at <= i < at + 2 && b[i] == Next(a[i])
    requires forall j :: at <= j < at + 2 && j != i ==> b[j] == a[j]
    ensures !Same(U16(b, at), U16(a, at))
  {
  }

  /**
   * Which fields may be located: whatever is written into the located spots, the checksum keeps its
   * residual, if and only if no located spot touches a byte of the checksum.
   */
  lemma ChecksumsKeptWhateverIsWritten(s: Secrets, keep: Keep, o: Options, linktype: int, frame: bytes,
                                       fields: seq<Field>, k: nat)
    requires k < |Walk(frame, linktype).scopes|
    ensures Inside(Walk(frame, linktype).scopes[k], |frame|)
    ensures var scope := Walk(frame, linktype).scopes[k];
            FieldsOff(frame, fields, scope) <==>
            forall filled: seq<Field> :: Fills(fields, filled) ==>
              Residual(Repaired(s, keep, o, linktype, frame, Some(Packet(frame, filled))), scope) ==
              Residual(frame, scope)
  {
    var l, scope := Walk(frame, linktype), Walk(frame, linktype).scopes[k];
    PlacedInside(|frame|, l);
    hide Walk, Repaired, Residual, Placed, InLocated, Edited, Same, Fills;
    if FieldsOff(frame, fields, scope) {
      forall filled: seq<Field> | Fills(fields, filled)
        ensures Residual(Repaired(s, keep, o, linktype, frame, Some(Packet(frame, filled))), scope) ==
                Residual(frame, scope)
      {
        forall i | 0 <= i < |frame| && InField(i, scope) ensures !InLocated(i, frame, filled) {
          FilledInSamePlaces(frame, fields, filled, i);
        }
        SanitizingKeepsChecksums(s, keep, o, linktype, frame, Some(Packet(frame, filled)), k);
      }
    } else {
      var i :| 0 <= i < |frame| && InField(i, scope) && InLocated(i, frame, fields);
      OneByteMisleads(s, keep, o, linktype, frame, fields, k, i);
    }
  }

  lemma OneByteMisleads(s: Secrets, keep: Keep, o: Options, linktype: int, frame: bytes, fields: seq<Field>, k: nat,
                        i: nat)
    requires k < |Walk(frame, linktype).scopes| && Inside(Walk(frame, linktype).scopes[k], |frame|)
    requires i < |frame| && InField(i, Walk(frame, linktype).scopes[k]) && InLocated(i, frame, fields)
    ensures var scope := Walk(frame, linktype).scopes[k];
            var filled := WithByteEverywhere(fields, i, Next(frame[i]));
            && Fills(fields, filled)
            && Residual(Repaired(s, keep, o, linktype, frame, Some(Packet(frame, filled))), scope) !=
               Residual(frame, scope)
  {
    hide Walk, Repaired, Residual, Placed, InLocated, Edited, InAddress, Same, WithByteEverywhere, Next, U16;
    var l, scope := Walk(frame, linktype), Walk(frame, linktype).scopes[k];
    var v := Next(frame[i]);
    var filled := WithByteEverywhere(fields, i, v);
    var packet := Some(Packet(frame, filled));
    KeptExactly(s, keep, o, linktype, frame, packet, k);
    WalkPlaced(frame, linktype);
    forall j: int | scope.at <= j < scope.at + 2
      ensures Edited(s, keep, o, linktype, frame, packet)[j] == if j == i then v else frame[j]
    {
      AddressOffField(|frame|, l, k, j);
      OneByteWritten(s, keep, o, linktype, frame, fields, i, v, j);
    }
    OtherWord(frame, Edited(s, keep, o, linktype, frame, packet), scope.at, i);
  }

  lemma KeptExactly(s: Secrets, keep: Keep, o: Options, linktype: int, frame: bytes, packet: Option<Packet>, k: nat)
    requires k < |Walk(frame, linktype).scopes|
    ensures var scope := Walk(frame, linktype).scopes[k];
            && Inside(scope, |frame|)
            && (Residual(Repaired(s, keep, o, linktype, frame, packet), scope) == Residual(frame, scope) <==>
                Same(U16(Edited(s, keep, o, linktype, frame, packet), scope.at), U16(frame, scope.at)))
  {
    hide Walk, Repaired, Residual, Edited, FieldsOff, Settled, Same, U16;
    SanitizingKeepsChecksums(s, keep, o, linktype, frame, packet, k);
  }

  lemma WalkPlaced(frame: bytes, linktype: int)
    ensures Placed(|frame|, Walk(frame, linktype))
  {
    hide Walk, Placed;
  }

  /**
   * A 20-byte IPv4 header with checksum 0x1234, and a field located on that checksum and replaced by
   * 0x0001: the sanitized header's checksum is wrong by another amount.
   */
  lemma FieldOnAChecksumIsKept(s: Secrets, keep: Keep)
    ensures var frame: bytes := [0x45, 0, 0, 20, 0, 0, 0, 0, 64, 255, 0x12, 0x34, 10, 0, 0, 1, 10, 0, 0, 2];
            var field := Field([0x12, 0x34], 10, 2, 0, ValueField(Some([0, 1])));
            var o := Options(false, false, false);
            var scope := Scope(10, 0, 20, []);
            && Walk(frame, 101).scopes == [scope]
            && Residual(Repaired(s, keep, o, 101, frame, Some(Packet(frame, [field]))), scope) != Residual(frame, scope)
  {
    hide Walk, Repaired, Residual, Edited, Locate;
    var frame: bytes := [0x45, 0, 0, 20, 0, 0, 0, 0, 64, 255, 0x12, 0x34, 10, 0, 0, 1, 10, 0, 0, 2];
    BareHeaderMisled(s, keep, frame);
  }

  lemma BareHeaderMisled(s: Secrets, keep: Keep, frame: bytes)
    requires |frame| == 20 && frame[0] == 0x45 && frame[6] == frame[7] == 0 && frame[9] == 255
    requires frame[10] == 0x12 && frame[11] == 0x34
    ensures var field := Field([0x12, 0x34], 10, 2, 0, ValueField(Some([0, 1])));
            var r := Repaired(s, keep, Options(false, false, false), 101, frame, Some(Packet(frame, [field])));
            var scope := Scope(10, 0, 20, []);
            Walk(frame, 101).scopes == [scope] && Residual(r, scope) != Residual(frame, scope)
  {
    hide Walk, Placed, Repaired, Residual, Edited;
    var field := Field([0x12, 0x34], 10, 2, 0, ValueField(Some([0, 1])));
    BareHeaderWalk(frame);
    assert frame[10..12] == [0x12, 0x34];
    KeptExactly(s, keep, Options(false, false, false), 101, frame, Some(Packet(frame, [field])), 0);
    ValueFieldWritten(s, keep, 101, frame, field);
    assert U16(Splice(frame, 10, [0, 1]), 10) == 1;
  }

  /** With no address chosen, a located value is all that is written. */
  lemma ValueFieldWritten(s: Secrets, keep: Keep, linktype: int, frame: bytes, field: Field)
    requires field.bitmask == 0 && field.use.ValueField? && field.use.replacement.Some?
    requires 0 < field.length == |field.raw| == |field.use.replacement.value|
    requires 0 <= field.position && field.position + field.length <= |frame|
    requires frame[field.position..field.position + field.length] == field.raw
    ensures Edited(s, keep, Options(false, false, false), linktype, frame, Some(Packet(frame, [field]))) ==
            Splice(frame, field.position, field.use.replacement.value)
  {
    hide Walk, Placed, EditAddresses, EditFields, Splice, AddressesInside;
    var o := Options(false, false, false);
    WalkedInside(frame, linktype);
    NothingSelected(s, keep, frame, Walk(frame, linktype).addresses);
    OneValueField(s, keep, o, frame, Editing(frame, {}), field);
  }

  lemma BareHeaderWalk(frame: bytes)
    requires |frame| == 20 && frame[0] == 0x45 && frame[9] == 255 && U16(frame, 6) == 0
    ensures Walk(frame, 101).scopes == [Scope(10, 0, 20, [])]
  {
    assert HeaderLength(frame, 0) == 20;
    assert Walk(frame, 101) == Ipv4(frame, EMPTY, 0, 0);
    assert Ipv4(frame, EMPTY, 0, 0) == Ipv4Body(frame, Ipv4Header(frame, EMPTY, 0), 0, 0);
  }

  lemma {:induction false} NothingSelected(s: Secrets, keep: Keep, frame: bytes, a: seq<(nat, Kind)>)
    requires AddressesInside(a, |frame|)
    ensures EditAddresses(s, keep, Options(false, false, false), frame, a) == Editing(frame, {})
    decreases |a|
  {
    if |a| > 0 {
      NothingSelected(s, keep, frame, a[..|a| - 1]);
    }
  }

  lemma OneValueField(s: Secrets, keep: Keep, o: Options, frame: bytes, e: Editing, field: Field)
    requires |e.edited| == |frame| && field.bitmask == 0 && field.use.ValueField? && field.use.replacement.Some?
    requires 0 < field.length == |field.raw| == |field.use.replacement.value|
    requires 0 <= field.position && field.position + field.length <= |frame|
    requires frame[field.position..field.position + field.length] == field.raw
    ensures EditFields(s, keep, o, frame, e, [field]).edited ==
            Splice(e.edited, field.position, field.use.replacement.value)
  {
    assert [field][..0] == [];
    assert EditFields(s, keep, o, frame, e, []) == e;
  }

  /** `patch` stands at `at`. */
  predicate Stands(buf: bytes, at: nat, patch: bytes) { at + |patch| <= |buf| && buf[at..at + |patch|] == patch }

  /** What becomes of the k-th address. */
  function StandInAt(s: Secrets, keep: Keep, frame: bytes, a: (nat, Kind)): (r: bytes)
    requires a.0 + Size(a.1) <= |frame|
    ensures |r| == Size(a.1)
  {
    PureAddress(s, keep, a.1, frame[a.0..a.0 + Size(a.1)])
  }

  /** The first pass writes each selected header address's stand-in where the address stood. */
  lemma {:induction false} AddressesAreWritten(s: Secrets, keep: Keep, o: Options, frame: bytes,
                                               a: seq<(nat, Kind)>, k: nat)
    requires AddressesPlaced(|frame|, a) && k < |a| && Selected(o, a[k].1)
    ensures AddressesInside(a, |frame|)
    ensures Stands(EditAddresses(s, keep, o, frame, a).edited, a[k].0, StandInAt(s, keep, frame, a[k]))
    decreases |a|
  {
    var n := |a| - 1;
    FrontPlaced(|frame|, a, k);
    LastEdit(s, keep, o, frame, a);
    hide EditAddress, EditAddresses, AddressesPlaced, AddressesInside, Selected, Stands, StandInAt;
    var before := EditAddresses(s, keep, o, frame, a[..n]);
    if k < n {
      assert a[..n][k] == a[k];
      AddressesAreWritten(s, keep, o, frame, a[..n], k);
      EditKeepsEarlier(s, keep, o, frame, before, a[n], a[k].0, StandInAt(s, keep, frame, a[k]));
    } else {
      EditWrites(s, keep, o, frame, before, a[n]);
    }
  }

  lemma LastEdit(s: Secrets, keep: Keep, o: Options, frame: bytes, a: seq<(nat, Kind)>)
    requires AddressesInside(a, |frame|) && |a| > 0 && AddressesInside(a[..|a| - 1], |frame|)
    requires a[|a| - 1].0 + Size(a[|a| - 1].1) <= |frame|
    ensures EditAddresses(s, keep, o, frame, a) ==
            EditAddress(s, keep, o, frame, EditAddresses(s, keep, o, frame, a[..|a| - 1]), a[|a| - 1])
  {
  }

  lemma EditKeepsEarlier(s: Secrets, keep: Keep, o: Options, frame: bytes, e: Editing, a: (nat, Kind), at: nat,
                         patch: bytes)
    requires |e.edited| == |frame| && a.0 + Size(a.1) <= |frame| && at + |patch| <= a.0
    requires Stands(e.edited, at, patch)
    ensures Stands(EditAddress(s, keep, o, frame, e, a).edited, at, patch)
  {
    var r := EditAddress(s, keep, o, frame, e, a).edited;
    assert r[at..at + |patch|] == e.edited[at..at + |patch|];
  }

  lemma EditWrites(s: Secrets, keep: Keep, o: Options, frame: bytes, e: Editing, a: (nat, Kind))
    requires |e.edited| == |frame| && a.0 + Size(a.1) <= |frame| && Selected(o, a.1)
    ensures Stands(EditAddress(s, keep, o, frame, e, a).edited, a.0, StandInAt(s, keep, frame, a))
  {
  }

  lemma FrontPlaced(n: nat, a: seq<(nat, Kind)>, k: nat)
    requires AddressesPlaced(n, a) && k < |a|
    ensures AddressesInside(a, n) && AddressesInside(a[..|a| - 1], n) && AddressesPlaced(n, a[..|a| - 1])
    ensures a[|a| - 1].0 + Size(a[|a| - 1].1) <= n && a[k].0 + Size(a[k].1) <= n
    ensures k < |a| - 1 ==> a[k].0 + Size(a[k].1) <= a[|a| - 1].0
  {
  }

  lemma AddressByteEdited(s: Secrets, keep: Keep, o: Options, linktype: int, frame: bytes, packet: Option<Packet>,
                          k: nat, i: nat)
    requires k < |Walk(frame, linktype).addresses| && Selected(o, Walk(frame, linktype).addresses[k].1)
    requires i < Size(Walk(frame, linktype).addresses[k].1)
    requires !InLocated(Walk(frame, linktype).addresses[k].0 + i, frame, FieldsOf(packet))
    ensures var a := Walk(frame, linktype).addresses[k];
            && a.0 + Size(a.1) <= |frame|
            && Edited(s, keep, o, linktype, frame, packet)[a.0 + i] == StandInAt(s, keep, frame, a)[i]
  {
    hide Walk, Placed, EditAddresses, Edited, Selected, AddressesPlaced, InLocated, StandInAt, Stands;
    var l := Walk(frame, linktype);
    var a := l.addresses[k];
    WalkedPlaced(frame, linktype);
    WalkedInside(frame, linktype);
    AddressesAreWritten(s, keep, o, frame, l.addresses, k);
    StandsByte(EditAddresses(s, keep, o, frame, l.addresses).edited, a.0, StandInAt(s, keep, frame, a), i);
    EditedOffFields(s, keep, o, linktype, frame, packet, a.0 + i);
  }

  lemma WalkedPlaced(frame: bytes, linktype: int)
    ensures AddressesPlaced(|frame|, Walk(frame, linktype).addresses)
  {
    hide Walk, AddressesPlaced;
  }

  lemma StandsByte(buf: bytes, at: nat, patch: bytes, i: nat)
    requires Stands(buf, at, patch) && i < |patch|
    ensures buf[at + i] == patch[i]
  {
    assert buf[at..at + |patch|][i] == buf[at + i];
  }

  lemma AddressOffFields(n: nat, l: Layout, k: nat, i: nat)
    requires Placed(n, l) && k < |l.addresses| && i < Size(l.addresses[k].1)
    ensures l.addresses[k].0 + i < n && OffFields(l.addresses[k].0 + i, l.scopes)
  {
    forall m | 0 <= m < |l.scopes| ensures !InField(l.addresses[k].0 + i, l.scopes[m]) {
      if InField(l.addresses[k].0 + i, l.scopes[m]) {
        AddressOffField(n, l, m, l.addresses[k].0 + i);
      }
    }
  }

  /**
   * Header addresses really are replaced, in the frame as it is written: each byte of a selected
   * address that no located field covers is the stand-in's byte, unless it was cut off with the
   * payload.
   */
  lemma EveryAddressIsReplaced(s: Secrets, keep: Keep, o: Options, linktype: int, frame: bytes,
                               packet: Option<Packet>, k: nat, i: nat)
    requires k < |Walk(frame, linktype).addresses| && Selected(o, Walk(frame, linktype).addresses[k].1)
    requires i < Size(Walk(frame, linktype).addresses[k].1)
    requires !InLocated(Walk(frame, linktype).addresses[k].0 + i, frame, FieldsOf(packet))
    ensures var a := Walk(frame, linktype).addresses[k];
            && a.0 + Size(a.1) <= |frame|
            && Repaired(s, keep, o, linktype, frame, packet)[a.0 + i] == StandInAt(s, keep, frame, a)[i]
            && var r := Rewritten(s, keep, o, linktype, frame, packet);
               (r.Some? && a.0 + i < |r.value| ==> r.value[a.0 + i] == StandInAt(s, keep, frame, a)[i])
  {
    var l := Walk(frame, linktype);
    var edited := Edited(s, keep, o, linktype, frame, packet);
    PlacedInside(|frame|, l);
    AddressByteEdited(s, keep, o, linktype, frame, packet, k, i);
    AddressOffFields(|frame|, l, k, i);
    hide Walk, Placed, Edited, Refreshed, StandInAt, Selected, InLocated, OffFields;
    RefreshedTouchesFields(frame, edited, l.scopes);
  }
}
