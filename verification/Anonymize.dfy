/**
 * The stand-ins of backend/anonymize.py: pure functions of the key and the original, behind
 * bounded caches that must never change an answer.
 */
module Anonymize {
  import opened Bytes
  import opened PrefixMap

  const CACHE_LIMIT := 200_000

  type Digest = d: bytes | |d| == 32 witness Zeros(32)

  /** What the key fixes: the prefix map, and the keyed hashes of MAC addresses and names. */
  datatype Secrets = Secrets(prefix: Keyed, macDigest: bytes -> Digest, nameDigest: (bytes, nat) -> Digest)

  // --- addresses ------------------------------------------------------------------------

  /** The networks kept as they are: base address and prefix length. */
  const IPV4_ALWAYS_KEPT: seq<(nat, nat)> := [(0x00000000, 32), (0x7F000000, 8), (0xE0000000, 4), (0xF0000000, 4)]
  const IPV4_PRIVATE: seq<(nat, nat)> := [
    (0x0A000000, 8), (0xAC100000, 12), (0xC0A80000, 16), (0xA9FE0000, 16), (0x64400000, 10)]
  const IPV6_ALWAYS_KEPT: seq<(nat, nat)> := [
    (0, 128), (1, 128), (0xFF000000_00000000_00000000_00000000, 8)]
  const IPV6_PRIVATE: seq<(nat, nat)> := [
    (0xFE800000_00000000_00000000_00000000, 10), (0xFC000000_00000000_00000000_00000000, 7)]
  const IPV4_MAPPED_PREFIX: bytes := [0, 0, 0, 0, 0, 0, 0, 0, 0, 0, 0xFF, 0xFF]

  predicate InRanges(value: nat, bits: nat, ranges: seq<(nat, nat)>) {
    exists i :: 0 <= i < |ranges| && ranges[i].1 <= bits
      && Shr(value, bits - ranges[i].1) == Shr(ranges[i].0, bits - ranges[i].1)
  }

  datatype Keep = Keep(privateNets: bool, vendor: bool)

  function PureIpv4(s: Secrets, keep: Keep, raw: bytes): (r: bytes)
    requires |raw| == 4
    ensures |r| == 4
  {
    var value := BigEndian(raw);
    if InRanges(value, 32, IPV4_ALWAYS_KEPT) then raw
    else if keep.privateNets && InRanges(value, 32, IPV4_PRIVATE) then raw
    else Packed(Mapped(s.prefix, value, 32), 4)
  }

  function PureIpv6(s: Secrets, keep: Keep, raw: bytes): (r: bytes)
    requires |raw| == 16
    ensures |r| == 16
  {
    if raw[..12] == IPV4_MAPPED_PREFIX then raw[..12] + PureIpv4(s, keep, raw[12..])
    else
      var value := BigEndian(raw);
      if InRanges(value, 128, IPV6_ALWAYS_KEPT) then raw
      else if keep.privateNets && InRanges(value, 128, IPV6_PRIVATE) then raw
      else Packed(Mapped(s.prefix, value, 128), 16)
  }

  function PureMac(s: Secrets, keep: Keep, raw: bytes): (r: bytes)
    requires |raw| == 6
    ensures |r| == 6
  {
    if raw[0] % 2 == 1 || raw == Zeros(6) then raw
    else
      var digest := s.macDigest(raw);
      if keep.vendor then raw[..3] + digest[..3]
      else [LocalByte(digest[0])] + digest[1..6]
  }

  /** `(b & 0xFC) | 0x02`: unicast and locally administered. */
  function LocalByte(b: byte): (r: byte)
    ensures r % 4 == 2
  {
    b / 4 * 4 + 2
  }

  lemma {:induction false} BytesHaveWidth(raw: bytes)
    ensures HasWidth(BigEndian(raw), 8 * |raw|)
  {
    if |raw| > 0 {
      var front := raw[..|raw| - 1];
      BytesHaveWidth(front);
      var x := BigEndian(raw);
      assert x / 2 / 2 / 2 / 2 / 2 / 2 / 2 / 2 == BigEndian(front);
      ShrEight(x, 8 * |front|);
    }
  }

  lemma ShrEight(x: nat, n: nat)
    ensures Shr(x, n + 8) == Shr(x / 2 / 2 / 2 / 2 / 2 / 2 / 2 / 2, n)
  {
    assert Shr(x, n + 8) == Shr(x / 2, n + 7) == Shr(x / 2 / 2, n + 6);
    assert Shr(x / 2 / 2, n + 6) == Shr(x / 2 / 2 / 2, n + 5) == Shr(x / 2 / 2 / 2 / 2, n + 4);
    var y := x / 2 / 2 / 2 / 2;
    assert Shr(y, n + 4) == Shr(y / 2, n + 3) == Shr(y / 2 / 2, n + 2);
    assert Shr(y / 2 / 2, n + 2) == Shr(y / 2 / 2 / 2, n + 1) == Shr(y / 2 / 2 / 2 / 2, n);
  }

  lemma {:induction false} WidthFitsBytes(x: nat, n: nat)
    requires HasWidth(x, 8 * n)
    ensures x < Pow256(n)
  {
    if n > 0 {
      ShrEight(x, 8 * (n - 1));
      WidthFitsBytes(x / 256, n - 1);
    }
  }

  /** A mapped address written out and read back is the mapped number. */
  lemma StandInReads(s: Secrets, raw: bytes)
    requires |raw| <= 16
    ensures HasWidth(BigEndian(raw), 8 * |raw|)
    ensures BigEndian(Packed(Mapped(s.prefix, BigEndian(raw), 8 * |raw|), |raw|))
         == Mapped(s.prefix, BigEndian(raw), 8 * |raw|)
  {
    BytesHaveWidth(raw);
    Permutation(s.prefix, BigEndian(raw), 8 * |raw|);
    WidthFitsBytes(Mapped(s.prefix, BigEndian(raw), 8 * |raw|), |raw|);
    PackedReads(Mapped(s.prefix, BigEndian(raw), 8 * |raw|), |raw|);
  }

  predicate Replaced4(keep: Keep, raw: bytes)
    requires |raw| == 4
  {
    && !InRanges(BigEndian(raw), 32, IPV4_ALWAYS_KEPT)
    && !(keep.privateNets && InRanges(BigEndian(raw), 32, IPV4_PRIVATE))
  }

  /** Any two replaced IPv4 addresses share exactly as long a prefix as their stand-ins. */
  lemma SubnetsStaySubnets(s: Secrets, keep: Keep, a: bytes, b: bytes, length: nat)
    requires |a| == 4 && |b| == 4 && length <= 32 && Replaced4(keep, a) && Replaced4(keep, b)
    ensures SharePrefix(BigEndian(a), BigEndian(b), 32, length) <==>
            SharePrefix(BigEndian(PureIpv4(s, keep, a)), BigEndian(PureIpv4(s, keep, b)), 32, length)
  {
    StandInReads(s, a);
    StandInReads(s, b);
    PrefixesArePreserved(s.prefix, BigEndian(a), BigEndian(b), 32, length);
  }

  predicate Replaced6(keep: Keep, raw: bytes)
    requires |raw| == 16
  {
    && raw[..12] != IPV4_MAPPED_PREFIX
    && !InRanges(BigEndian(raw), 128, IPV6_ALWAYS_KEPT)
    && !(keep.privateNets && InRanges(BigEndian(raw), 128, IPV6_PRIVATE))
  }

  /** And so do any two replaced IPv6 addresses, byte for byte and bit for bit. */
  lemma Ipv6SubnetsStaySubnets(s: Secrets, keep: Keep, a: bytes, b: bytes, length: nat)
    requires |a| == 16 && |b| == 16 && length <= 128 && Replaced6(keep, a) && Replaced6(keep, b)
    ensures SharePrefix(BigEndian(a), BigEndian(b), 128, length) <==>
            SharePrefix(BigEndian(PureIpv6(s, keep, a)), BigEndian(PureIpv6(s, keep, b)), 128, length)
  {
    hide Mapped, InRanges, Shr, BigEndian, SharePrefix, Packed;
    StandInReads(s, a);
    StandInReads(s, b);
    PrefixesArePreserved(s.prefix, BigEndian(a), BigEndian(b), 128, length);
  }

  /** In either notation an IPv4 address has one stand-in. */
  lemma MappedAddressAgrees(s: Secrets, keep: Keep, raw: bytes)
    requires |raw| == 4
    ensures PureIpv6(s, keep, IPV4_MAPPED_PREFIX + raw) == IPV4_MAPPED_PREFIX + PureIpv4(s, keep, raw)
  {
    assert (IPV4_MAPPED_PREFIX + raw)[..12] == IPV4_MAPPED_PREFIX && (IPV4_MAPPED_PREFIX + raw)[12..] == raw;
  }

  /** A replaced device address never looks like a vendor's, unless the vendor half is kept. */
  lemma StandInMacIsLocal(s: Secrets, keep: Keep, raw: bytes)
    requires |raw| == 6 && raw[0] % 2 == 0 && raw != Zeros(6)
    ensures keep.vendor ==> PureMac(s, keep, raw)[..3] == raw[..3]
    ensures !keep.vendor ==> PureMac(s, keep, raw)[0] % 4 == 2
  {
  }

  type Cache = map<bytes, bytes>

  function Remember(cache: Cache, raw: bytes, standIn: bytes): (r: Cache)
    ensures |cache| <= CACHE_LIMIT ==> |r| <= CACHE_LIMIT
  {
    if |cache| < CACHE_LIMIT then cache[raw := standIn] else cache
  }

  class AddressMapper {
    const secrets: Secrets
    const keep: Keep
    var ipv4: Cache
    var ipv6: Cache
    var mac: Cache

    /** Whatever is remembered is what the pure map answers, and no cache outgrows its limit. */
    ghost predicate Valid()
      reads this
    {
      && |ipv4| <= CACHE_LIMIT && |ipv6| <= CACHE_LIMIT && |mac| <= CACHE_LIMIT
      && (forall raw :: raw in ipv4 ==> |raw| == 4 && ipv4[raw] == PureIpv4(secrets, keep, raw))
      && (forall raw :: raw in ipv6 ==> |raw| == 16 && ipv6[raw] == PureIpv6(secrets, keep, raw))
      && (forall raw :: raw in mac ==> |raw| == 6 && mac[raw] == PureMac(secrets, keep, raw))
    }

    constructor (secrets: Secrets, keep: Keep)
      ensures Valid() && this.secrets == secrets && this.keep == keep
      ensures ipv4 == map[] && ipv6 == map[] && mac == map[]
    {
      this.secrets, this.keep := secrets, keep;
      ipv4, ipv6, mac := map[], map[], map[];
    }

    method Ipv4(raw: bytes) returns (r: bytes)
      requires Valid() && |raw| == 4
      modifies this`ipv4
      ensures Valid() && r == PureIpv4(secrets, keep, raw)
      ensures forall k :: k in old(ipv4) ==> k in ipv4
    {
      if raw in ipv4 { return ipv4[raw]; }
      r := MapIpv4(raw);
      ipv4 := Remember(ipv4, raw, r);
    }

    method MapIpv4(raw: bytes) returns (r: bytes)
      requires |raw| == 4
      ensures r == PureIpv4(secrets, keep, raw)
    {
      var value := BigEndian(raw);
      if InRanges(value, 32, IPV4_ALWAYS_KEPT) { return raw; }
      if keep.privateNets && InRanges(value, 32, IPV4_PRIVATE) { return raw; }
      BytesHaveWidth(raw);
      var mapped := Map(secrets.prefix, value, 32);
      r := Packed(mapped, 4);
    }

    method Ipv6(raw: bytes) returns (r: bytes)
      requires Valid() && |raw| == 16
      modifies this`ipv4, this`ipv6
      ensures Valid() && r == PureIpv6(secrets, keep, raw)
    {
      if raw in ipv6 { return ipv6[raw]; }
      r := MapIpv6(raw);
      ipv6 := Remember(ipv6, raw, r);
    }

    method MapIpv6(raw: bytes) returns (r: bytes)
      requires Valid() && |raw| == 16
      modifies this`ipv4
      ensures Valid() && r == PureIpv6(secrets, keep, raw)
    {
      if raw[..12] == IPV4_MAPPED_PREFIX {
        var inner := Ipv4(raw[12..]);
        return raw[..12] + inner;
      }
      var value := BigEndian(raw);
      if InRanges(value, 128, IPV6_ALWAYS_KEPT) { return raw; }
      if keep.privateNets && InRanges(value, 128, IPV6_PRIVATE) { return raw; }
      BytesHaveWidth(raw);
      var mapped := Map(secrets.prefix, value, 128);
      r := Packed(mapped, 16);
    }

    method Mac(raw: bytes) returns (r: bytes)
      requires Valid() && |raw| == 6
      modifies this`mac
      ensures Valid() && r == PureMac(secrets, keep, raw)
    {
      if raw in mac { return mac[raw]; }
      r := PureMac(secrets, keep, raw);
      mac := Remember(mac, raw, r);
    }
  }
}
