/**
 * Same-length keyed stand-ins for names (backend/anonymize.py, `Pseudonyms`), and the DNS
 * wire-format names of backend/sanitizer.py that are rewritten with them.
 */
module Pseudonyms {
  import opened Bytes
  import opened Anonymize

  // --- letters ------------------------------------------------------------------------------

  /** `bytes.lower()`: ASCII capitals only. */
  function LowerAscii(b: byte): byte { if 0x41 <= b <= 0x5A then b + 32 else b }

  /** `str.lower()` on a Latin-1 character, which also lowers the accented capitals. */
  function LowerLatin(b: byte): byte {
    if 0x41 <= b <= 0x5A || (0xC0 <= b <= 0xDE && b != 0xD7) then b + 32 else b
  }

  function Lowered(word: bytes): (r: bytes)
    ensures |r| == |word| && forall i :: 0 <= i < |r| ==> r[i] == LowerAscii(word[i])
  {
    seq(|word|, i requires 0 <= i < |word| => LowerAscii(word[i]))
  }

  /** The text a label is keyed on. */
  function TextOf(word: bytes): (r: bytes)
    ensures |r| == |word| && forall i :: 0 <= i < |r| ==> r[i] == LowerLatin(word[i])
  {
    seq(|word|, i requires 0 <= i < |word| => LowerLatin(word[i]))
  }

  /** One byte of a stand-in, of its original's class; bytes of no class are kept. */
  function StandIn(b: byte, pick: byte): byte {
    if 0x61 <= b <= 0x7A then 0x61 + pick % 26
    else if 0x41 <= b <= 0x5A then 0x41 + pick % 26
    else if 0x30 <= b <= 0x39 then 0x30 + pick % 10
    else if b >= 0x80 then 0x61 + pick % 26
    else b
  }

  function Applied(template: bytes, stream: bytes): (r: bytes)
    requires |template| <= |stream|
    ensures |r| == |template| && forall i :: 0 <= i < |r| ==> r[i] == StandIn(template[i], stream[i])
  {
    seq(|template|, i requires 0 <= i < |template| => StandIn(template[i], stream[i]))
  }

  // --- the keyed stream -----------------------------------------------------------------------

  /** The digests of counters below `n`, end to end. */
  function Digests(s: Secrets, text: bytes, n: nat): (r: bytes)
    ensures |r| == 32 * n
  {
    if n == 0 then [] else Digests(s, text, n - 1) + s.nameDigest(text, n - 1)
  }

  function StreamOf(s: Secrets, text: bytes, length: nat): (r: bytes)
    ensures |r| == length
  {
    Digests(s, text, (length + 31) / 32)[..length]
  }

  /** `_stream`: digests of successive counters until there are enough bytes. */
  method Stream(s: Secrets, text: bytes, length: nat) returns (r: bytes)
    ensures r == StreamOf(s, text, length)
  {
    var out, counter := [], 0;
    while |out| < length
      invariant 0 <= counter <= (length + 31) / 32
      invariant out == Digests(s, text, counter)
      decreases length - |out|
    {
      out := out + s.nameDigest(text, counter);
      counter := counter + 1;
    }
    r := out[..length];
  }

  /** `_apply`: the template's bytes replaced where they stand. */
  method Apply(template: bytes, stream: bytes) returns (r: bytes)
    requires |template| <= |stream|
    ensures r == Applied(template, stream)
  {
    r := template;
    for i := 0 to |template|
      invariant |r| == |template|
      invariant forall k :: 0 <= k < i ==> r[k] == StandIn(template[k], stream[k])
      invariant forall k :: i <= k < |template| ==> r[k] == template[k]
    {
      r := r[i := StandIn(template[i], stream[i])];
    }
  }

  // --- labels -----------------------------------------------------------------------------------

  // "arpa", "in-addr" and "ip6"
  const STRUCTURAL_LABELS: set<bytes> := {
    [0x61, 0x72, 0x70, 0x61], [0x69, 0x6E, 0x2D, 0x61, 0x64, 0x64, 0x72], [0x69, 0x70, 0x36]
  }

  function PureLabel(s: Secrets, word: bytes): (r: bytes)
    ensures |r| == |word|
  {
    if TextOf(word) in STRUCTURAL_LABELS then word
    else Applied(Lowered(word), StreamOf(s, TextOf(word), |word|))
  }

  /** Labels equal but for case differ, once lowered as bytes, only in bytes that become letters. */
  lemma TemplatesAgree(a: bytes, b: bytes, stream: bytes)
    requires TextOf(a) == TextOf(b) && |a| <= |stream|
    ensures |a| == |b| && Applied(Lowered(a), stream) == Applied(Lowered(b), stream)
  {
    assert |TextOf(a)| == |TextOf(b)|;
    forall i | 0 <= i < |a|
      ensures StandIn(Lowered(a)[i], stream[i]) == StandIn(Lowered(b)[i], stream[i])
    {
      assert TextOf(a)[i] == TextOf(b)[i];
    }
  }

  /**
   * Labels that read the same in lower case get the same stand-in -- accented letters
   * included, though their bytes are lowered differently -- except the structural ones, which
   * are returned with the case they came in.
   */
  lemma LabelDependsOnItsText(s: Secrets, a: bytes, b: bytes)
    requires TextOf(a) == TextOf(b)
    ensures PureLabel(s, a) == PureLabel(s, b) <==> TextOf(a) !in STRUCTURAL_LABELS || a == b
  {
    TemplatesAgree(a, b, StreamOf(s, TextOf(a), |a|));
  }

  /** What a stand-in keeps of the original: the class of every ASCII byte, and its place. */
  lemma ClassesAreKept(s: Secrets, word: bytes, i: nat)
    requires i < |word| && TextOf(word) !in STRUCTURAL_LABELS
    ensures var b, r := word[i], PureLabel(s, word)[i];
            && (0x30 <= b <= 0x39 ==> 0x30 <= r <= 0x39)
            && (0x41 <= b <= 0x5A || 0x61 <= b <= 0x7A || b >= 0x80 ==> 0x61 <= r <= 0x7A)
            && (b < 0x30 || 0x39 < b < 0x41 || 0x5A < b < 0x61 || 0x7A < b < 0x80 ==> r == b)
  {
  }

  class Names {
    const secrets: Secrets
    var labels: Cache

    ghost predicate Valid()
      reads this
    {
      && |labels| <= CACHE_LIMIT
      && forall text :: text in labels ==>
           && text !in STRUCTURAL_LABELS
           && forall word :: TextOf(word) == text ==> labels[text] == PureLabel(secrets, word)
    }

    constructor (secrets: Secrets)
      ensures Valid() && this.secrets == secrets && labels == map[]
    {
      this.secrets := secrets;
      labels := map[];
    }

    method Label(word: bytes) returns (r: bytes)
      requires Valid()
      modifies this
      ensures Valid() && r == PureLabel(secrets, word)
    {
      var text := TextOf(word);
      if text in STRUCTURAL_LABELS { return word; }
      if text in labels { return labels[text]; }
      var stream := Stream(secrets, text, |word|);
      r := Apply(Lowered(word), stream);
      forall other | TextOf(other) == text
        ensures r == PureLabel(secrets, other)
      {
        LabelDependsOnItsText(secrets, word, other);
      }
      if |labels| < CACHE_LIMIT { labels := labels[text := r]; }
    }

    /** `hostname`: all labels but the last are replaced. */
    method Hostname(name: bytes) returns (r: bytes)
      requires Valid()
      modifies this
      ensures Valid() && r == PureHostname(secrets, name)
    {
      hide PureLabel, SplitDots, JoinDots;
      var parts := SplitDots(name);
      if |parts| == 1 {
        r := Label(name);
        return;
      }
      var mapped: seq<bytes> := [];
      for i := 0 to |parts| - 1
        invariant Valid() && |mapped| == i
        invariant forall k :: 0 <= k < i ==> mapped[k] == MapPart(secrets, parts[k])
      {
        var one := parts[i];
        if |one| > 0 { one := Label(one); }
        mapped := mapped + [one];
      }
      assert mapped == MapParts(secrets, parts[..|parts| - 1]);
      r := JoinDots(mapped + [parts[|parts| - 1]]);
    }

    /** `_map_dns_labels`: the labels are found by one scan, then replaced where they stand. */
    method DnsLabels(segment: bytes) returns (r: DnsName)
      requires Valid()
      modifies this
      ensures Valid() && r == PureDns(secrets, segment)
    {
      var spots: seq<(nat, nat)> := [];
      var terminated, i := false, 0;
      while i < |segment|
        invariant 0 <= i <= |segment|
        invariant !terminated && ScanFrom(segment, 0, []) == ScanFrom(segment, i, spots)
        invariant SpotsFit(spots, i)
        decreases |segment| - i
      {
        var length: nat := segment[i];
        if length == 0 { terminated := true; break; }
        if length >= 0x40 { break; }
        if i + 1 + length > |segment| { return Malformed; }
        spots := spots + [(i + 1, length)];
        i := i + 1 + length;
      }
      if |spots| == 0 { return if terminated || i < |segment| then Rewritten(segment) else Malformed; }
      var out := RewriteLabels(segment, spots, LastKept(spots, terminated));
      return Rewritten(out);
    }

    method RewriteLabel(segment: bytes, front: bytes, spot: (nat, nat)) returns (out: bytes)
      requires Valid() && |front| == |segment| && spot.0 + spot.1 <= |segment|
      modifies this
      ensures Valid() && out == Splice(front, spot.0, PureLabel(secrets, segment[spot.0..spot.0 + spot.1]))
    {
      hide PureLabel, Splice, Valid;
      var standIn := Label(segment[spot.0..spot.0 + spot.1]);
      out := Splice(front, spot.0, standIn);
    }

    method RewriteLabels(segment: bytes, spots: seq<(nat, nat)>, kept: nat) returns (out: bytes)
      requires Valid() && SpotsFit(spots, |segment|)
      modifies this
      ensures Valid() && out == RewriteSpots(secrets, segment, spots, kept)
    {
      hide PureLabel, Splice, Valid;
      out := segment;
      for k := 0 to |spots|
        invariant Valid() && out == RewriteSpots(secrets, segment, spots[..k], kept)
      {
        assert spots[..k + 1][..k] == spots[..k];
        if k != kept {
          out := RewriteLabel(segment, out, spots[k]);
        }
      }
      assert spots[..|spots|] == spots;
    }
  }

  // --- dotted names ---------------------------------------------------------------------------------

  const DOT: byte := 0x2E

  /** `name.split(b".")`. */
  function SplitDots(name: bytes): (parts: seq<bytes>)
    ensures |parts| >= 1
  {
    if |name| == 0 then [[]]
    else if name[0] == DOT then [[]] + SplitDots(name[1..])
    else
      var rest := SplitDots(name[1..]);
      [[name[0]] + rest[0]] + rest[1..]
  }

  /** `b".".join(parts)`. */
  function JoinDots(parts: seq<bytes>): bytes {
    if |parts| == 0 then [] else if |parts| == 1 then parts[0] else parts[0] + [DOT] + JoinDots(parts[1..])
  }

  function MapPart(s: Secrets, part: bytes): (r: bytes)
    ensures |r| == |part|
  {
    if |part| == 0 then part else PureLabel(s, part)
  }

  function MapParts(s: Secrets, parts: seq<bytes>): (r: seq<bytes>)
    ensures |r| == |parts| && forall i :: 0 <= i < |r| ==> r[i] == MapPart(s, parts[i])
  {
    seq(|parts|, i requires 0 <= i < |parts| => MapPart(s, parts[i]))
  }

  function PureHostname(s: Secrets, name: bytes): bytes {
    var parts := SplitDots(name);
    if |parts| == 1 then PureLabel(s, name)
    else JoinDots(MapParts(s, parts[..|parts| - 1]) + [parts[|parts| - 1]])
  }

  predicate DotFree(parts: seq<bytes>) { forall i :: 0 <= i < |parts| ==> DOT !in parts[i] }

  lemma {:induction false} SplitIsDotFree(name: bytes)
    ensures DotFree(SplitDots(name)) && JoinDots(SplitDots(name)) == name
  {
    if |name| > 0 {
      SplitIsDotFree(name[1..]);
      var rest := SplitDots(name[1..]);
      if name[0] != DOT && |rest| > 1 {
        assert SplitDots(name)[1..] == rest[1..];
        assert [name[0]] + (rest[0] + [DOT] + JoinDots(rest[1..])) == [name[0]] + rest[0] + [DOT] + JoinDots(rest[1..]);
      }
    }
  }

  lemma {:induction false} SplitConcat(a: bytes, b: bytes)
    ensures SplitDots(a + [DOT] + b) == SplitDots(a) + SplitDots(b)
    decreases |a|
  {
    var all := a + [DOT] + b;
    if |a| == 0 {
      assert all[1..] == b;
    } else {
      assert all[1..] == a[1..] + [DOT] + b;
      SplitConcat(a[1..], b);
    }
  }

  lemma {:induction false} JoinConcat(x: seq<bytes>, y: seq<bytes>)
    requires |x| > 0 && |y| > 0
    ensures JoinDots(x + y) == JoinDots(x) + [DOT] + JoinDots(y)
    decreases |x|
  {
    if |x| == 1 {
      assert (x + y)[1..] == y;
    } else {
      assert (x + y)[1..] == x[1..] + y;
      JoinConcat(x[1..], y);
      assert x[0] + [DOT] + (JoinDots(x[1..]) + [DOT] + JoinDots(y)) == JoinDots(x) + [DOT] + JoinDots(y);
    }
  }

  lemma SplitDotFree(part: bytes)
    requires DOT !in part
    ensures SplitDots(part) == [part]
  {
    if |part| > 0 {
      SplitDotFree(part[1..]);
      assert [part[0]] + part[1..] == part;
    }
  }

  lemma {:induction false} SplitOfJoin(parts: seq<bytes>)
    requires |parts| > 0 && DotFree(parts)
    ensures SplitDots(JoinDots(parts)) == parts
  {
    SplitDotFree(parts[0]);
    if |parts| > 1 {
      SplitConcat(parts[0], JoinDots(parts[1..]));
      SplitOfJoin(parts[1..]);
    }
  }

  lemma MapPartDotFree(s: Secrets, part: bytes)
    requires DOT !in part
    ensures DOT !in MapPart(s, part)
  {
    var r := MapPart(s, part);
    forall i | 0 <= i < |r|
      ensures r[i] != DOT
    {
      assert part[i] != DOT;
    }
  }

  /** A hostname's stand-in label by label: every label but the last mapped, the last kept. */
  function MappedLabels(s: Secrets, parts: seq<bytes>): (r: seq<bytes>)
    requires |parts| > 0
    ensures |r| == |parts|
  {
    MapParts(s, parts[..|parts| - 1]) + [parts[|parts| - 1]]
  }

  lemma HostnameJoins(s: Secrets, name: bytes)
    requires |SplitDots(name)| > 1
    ensures PureHostname(s, name) == JoinDots(MappedLabels(s, SplitDots(name)))
  {
  }

  /**
   * A name of two or more labels keeps its dots, the length of each label and its last label;
   * each other label becomes its own stand-in.
   */
  lemma HostnameKeepsShape(s: Secrets, name: bytes)
    requires |SplitDots(name)| > 1
    ensures SplitDots(PureHostname(s, name)) == MappedLabels(s, SplitDots(name))
    ensures |PureHostname(s, name)| == |name|
  {
    hide PureLabel, SplitDots, JoinDots;
    var parts := SplitDots(name);
    var mapped := MappedLabels(s, parts);
    HostnameJoins(s, name);
    SplitIsDotFree(name);
    forall i | 0 <= i < |mapped|
      ensures DOT !in mapped[i] && |mapped[i]| == |parts[i]|
    {
      MapPartDotFree(s, parts[i]);
    }
    SplitOfJoin(mapped);
    JoinLength(parts, mapped);
  }

  lemma {:induction false} JoinLength(a: seq<bytes>, b: seq<bytes>)
    requires |a| == |b| && forall i :: 0 <= i < |a| ==> |a[i]| == |b[i]|
    ensures |JoinDots(a)| == |JoinDots(b)|
  {
    if |a| > 1 {
      forall i | 0 <= i < |a| - 1
        ensures |a[1..][i]| == |b[1..][i]|
      {
        assert a[1..][i] == a[i + 1] && b[1..][i] == b[i + 1];
      }
      JoinLength(a[1..], b[1..]);
    }
  }

  /** The image every name ending in "." and this suffix has at its end. */
  function SuffixImage(s: Secrets, suffix: bytes): bytes { JoinDots(MappedLabels(s, SplitDots(suffix))) }

  /** Names that share a dotted suffix share its image, whatever comes before it. */
  lemma SuffixesMatch(s: Secrets, front: bytes, suffix: bytes)
    ensures |PureHostname(s, front + [DOT] + suffix)| == |front| + 1 + |suffix|
    ensures PureHostname(s, front + [DOT] + suffix)[|front|..] == [DOT] + SuffixImage(s, suffix)
    ensures |SplitDots(suffix)| > 1 ==> SuffixImage(s, suffix) == PureHostname(s, suffix)
    ensures |SplitDots(suffix)| == 1 ==> SuffixImage(s, suffix) == suffix
  {
    hide PureLabel, SplitDots, JoinDots, MapPart;
    var name := front + [DOT] + suffix;
    var a, b := SplitDots(front), SplitDots(suffix);
    SplitConcat(front, suffix);
    SplitIsDotFree(front);
    SplitIsDotFree(suffix);
    var head := MapParts(s, a);
    assert (a + b)[..|a + b| - 1] == a + b[..|b| - 1];
    assert MappedLabels(s, a + b) == head + MappedLabels(s, b);
    HostnameJoins(s, name);
    JoinConcat(head, MappedLabels(s, b));
    JoinLength(a, head);
    HostnameKeepsShape(s, name);
    if |b| > 1 { HostnameJoins(s, suffix); } else { OneLabelImage(s, b); }
  }

  lemma OneLabelImage(s: Secrets, parts: seq<bytes>)
    requires |parts| == 1
    ensures JoinDots(MappedLabels(s, parts)) == JoinDots(parts)
  {
    assert MappedLabels(s, parts) == parts;
  }

  // --- DNS wire format (RFC 1035 sections 3.1 and 4.1.4) ------------------------------------------------

  datatype DnsName = Malformed | Rewritten(segment: bytes)

  /** The labels of a name, where the scan stopped, and whether a zero octet stopped it. */
  datatype Scan = Overrun | Scanned(spots: seq<(nat, nat)>, stop: nat, terminated: bool)

  function ScanFrom(segment: bytes, i: nat, spots: seq<(nat, nat)>): Scan
    decreases |segment| - i
  {
    if i >= |segment| then Scanned(spots, i, false)
    else
      var length: nat := segment[i];
      if length == 0 then Scanned(spots, i, true)
      else if length >= 0x40 then Scanned(spots, i, false)
      else if i + 1 + length > |segment| then Overrun
      else ScanFrom(segment, i + 1 + length, spots + [(i + 1, length)])
  }

  predicate SpotsFit(spots: seq<(nat, nat)>, end: nat) {
    forall k :: 0 <= k < |spots| ==> spots[k].0 + spots[k].1 <= end
  }

  /** The index of the label that is kept: the last one of a complete name of several. */
  function LastKept(spots: seq<(nat, nat)>, terminated: bool): nat {
    if terminated && |spots| > 1 then |spots| - 1 else |spots|
  }

  function RewriteSpots(s: Secrets, segment: bytes, spots: seq<(nat, nat)>, kept: nat): (r: bytes)
    requires SpotsFit(spots, |segment|)
    ensures |r| == |segment|
  {
    if |spots| == 0 then segment
    else
      var n := |spots| - 1;
      var front := RewriteSpots(s, segment, spots[..n], kept);
      if n == kept then front
      else
        var start, length := spots[n].0, spots[n].1;
        Splice(front, start, PureLabel(s, segment[start..start + length]))
  }

  lemma {:induction false} ScanFits(segment: bytes, i: nat, spots: seq<(nat, nat)>)
    requires i <= |segment| && SpotsFit(spots, i)
    ensures var r := ScanFrom(segment, i, spots);
            r.Scanned? ==> SpotsFit(r.spots, r.stop) && i <= r.stop <= |segment|
    decreases |segment| - i
  {
    if i < |segment| {
      var length: nat := segment[i];
      if 0 < length < 0x40 && i + 1 + length <= |segment| {
        ScanFits(segment, i + 1 + length, spots + [(i + 1, length)]);
      }
    }
  }

  function PureDns(s: Secrets, segment: bytes): DnsName {
    ScanFits(segment, 0, []);
    match ScanFrom(segment, 0, [])
    case Overrun => Malformed
    case Scanned(spots, stop, terminated) =>
      if |spots| == 0 then
        if terminated || stop < |segment| then Rewritten(segment) else Malformed
      else Rewritten(RewriteSpots(s, segment, spots, LastKept(spots, terminated)))
  }

  ghost predicate OffSpots(i: nat, spots: seq<(nat, nat)>) {
    forall k :: 0 <= k < |spots| ==> i < spots[k].0 || spots[k].0 + spots[k].1 <= i
  }

  lemma {:induction false} OnlySpotsChange(s: Secrets, segment: bytes, spots: seq<(nat, nat)>, kept: nat, i: nat)
    requires SpotsFit(spots, |segment|) && i < |segment| && OffSpots(i, spots)
    ensures RewriteSpots(s, segment, spots, kept)[i] == segment[i]
    decreases |spots|
  {
    hide PureLabel, Splice;
    if |spots| > 0 {
      var n := |spots| - 1;
      assert OffSpots(i, spots[..n]);
      OnlySpotsChange(s, segment, spots[..n], kept, i);
      assert i < spots[n].0 || spots[n].0 + spots[n].1 <= i;
    }
  }

  /** Two buffers that agree at every length octet scan alike. */
  lemma {:induction false} ScansAlike(a: bytes, b: bytes, i: nat, spots: seq<(nat, nat)>)
    requires |a| == |b| && i <= |a| && ScanFrom(a, i, spots).Scanned?
    requires forall k :: i <= k < |a| && OffSpots(k, ScanFrom(a, i, spots).spots) ==> a[k] == b[k]
    requires SpotsFit(spots, i)
    ensures ScanFrom(b, i, spots) == ScanFrom(a, i, spots)
    decreases |a| - i
  {
    if i < |a| {
      SpotsGrow(a, i, spots);
      assert a[i] == b[i];
      var length: nat := a[i];
      if 0 < length < 0x40 && i + 1 + length <= |a| {
        ScansAlike(a, b, i + 1 + length, spots + [(i + 1, length)]);
      }
    }
  }

  /** The octet being read is in none of the labels found before or after it. */
  lemma {:induction false} SpotsGrow(a: bytes, i: nat, spots: seq<(nat, nat)>)
    requires i < |a| && ScanFrom(a, i, spots).Scanned? && SpotsFit(spots, i)
    ensures OffSpots(i, ScanFrom(a, i, spots).spots)
  {
    LaterSpots(a, i, spots);
  }

  lemma {:induction false} LaterSpots(a: bytes, i: nat, spots: seq<(nat, nat)>)
    requires i <= |a| && ScanFrom(a, i, spots).Scanned?
    ensures var r := ScanFrom(a, i, spots).spots;
            && spots <= r
            && forall k :: |spots| <= k < |r| ==> i < r[k].0
    decreases |a| - i
  {
    if i < |a| {
      var length: nat := a[i];
      if 0 < length < 0x40 && i + 1 + length <= |a| {
        LaterSpots(a, i + 1 + length, spots + [(i + 1, length)]);
      }
    }
  }

  /** A rewritten wire-format name has the same labels in the same places: only label bytes differ. */
  lemma DnsKeepsStructure(s: Secrets, segment: bytes)
    requires PureDns(s, segment).Rewritten?
    ensures var out := PureDns(s, segment).segment;
            && |out| == |segment|
            && ScanFrom(out, 0, []) == ScanFrom(segment, 0, [])
            && forall i :: 0 <= i < |segment| && OffSpots(i, ScanFrom(segment, 0, []).spots) ==> out[i] == segment[i]
  {
    ScanFits(segment, 0, []);
    var scan := ScanFrom(segment, 0, []);
    var out := PureDns(s, segment).segment;
    forall i | 0 <= i < |segment| && OffSpots(i, scan.spots)
      ensures out[i] == segment[i]
    {
      if |scan.spots| > 0 {
        OnlySpotsChange(s, segment, scan.spots, LastKept(scan.spots, scan.terminated), i);
      }
    }
    ScansAlike(segment, out, 0, []);
  }
}
