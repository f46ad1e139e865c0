/** Bytes, big-endian integers and Python-style slices. */
module Bytes {
  type byte = x: int | 0 <= x < 256
  type bytes = seq<byte>

  function Min(a: int, b: int): int { if a < b then a else b }

  function Max(a: int, b: int): int { if a < b then b else a }

  /** `int.from_bytes(s, "big")`. */
  function BigEndian(s: bytes): nat {
    if |s| == 0 then 0 else BigEndian(s[..|s| - 1]) * 256 + s[|s| - 1]
  }

  /** `s[lo:hi]` for non-negative bounds: clamped to the buffer, empty when the bounds cross. */
  function Slice(s: bytes, lo: nat, hi: nat): bytes {
    var top := Min(hi, |s|);
    if lo < top then s[lo..top] else []
  }

  /** Two bytes, most significant first. */
  function U16(s: bytes, i: nat): (r: nat)
    requires i + 2 <= |s|
    ensures r <= 0xFFFF
  {
    (s[i] as int) * 256 + s[i + 1] as int
  }

  /** The buffer with a big-endian 16-bit value written at `i`. */
  function WithU16(s: bytes, i: nat, v: nat): (r: bytes)
    requires i + 2 <= |s| && v <= 0xFFFF
    ensures |r| == |s| && U16(r, i) == v
    ensures forall k :: 0 <= k < |s| && !(i <= k < i + 2) ==> r[k] == s[k]
  {
    s[i := v / 256][i + 1 := v % 256]
  }

  /** `s[at:at + len(patch)] = patch`, inside the buffer. */
  function Splice(s: bytes, at: nat, patch: bytes): (r: bytes)
    requires at + |patch| <= |s|
    ensures |r| == |s|
    ensures forall k :: 0 <= k < |s| && !(at <= k < at + |patch|) ==> r[k] == s[k]
    ensures r[at..at + |patch|] == patch
  {
    s[..at] + patch + s[at + |patch|..]
  }

  function Zeros(n: nat): (r: bytes)
    ensures |r| == n
  {
    seq(n, _ => 0)
  }

  function Concat(parts: seq<bytes>): bytes {
    if |parts| == 0 then [] else parts[0] + Concat(parts[1..])
  }

  lemma {:induction false} ConcatAppend(a: seq<bytes>, b: seq<bytes>)
    ensures Concat(a + b) == Concat(a) + Concat(b)
  {
    if |a| == 0 {
      assert a + b == b;
    } else {
      ConcatAppend(a[1..], b);
      assert (a + b)[1..] == a[1..] + b;
      assert a[0] + (Concat(a[1..]) + Concat(b)) == (a[0] + Concat(a[1..])) + Concat(b);
    }
  }

  lemma ConcatSnoc(a: seq<bytes>, x: bytes)
    ensures Concat(a + [x]) == Concat(a) + x
  {
    ConcatAppend(a, [x]);
    assert Concat([x]) == x + Concat([]);
  }

  // --- fixed-width integers --------------------------------------------------------------

  function Pow256(width: nat): nat { if width == 0 then 1 else 256 * Pow256(width - 1) }

  /** `n` in `width` bytes, most significant first. */
  function Packed(n: nat, width: nat): (r: bytes)
    ensures |r| == width
  {
    if width == 0 then [] else Packed(n / 256, width - 1) + [n % 256]
  }

  lemma {:induction false} PackedReads(n: nat, width: nat)
    requires n < Pow256(width)
    ensures BigEndian(Packed(n, width)) == n
  {
    if width > 0 {
      PackedReads(n / 256, width - 1);
      assert Packed(n, width)[..width - 1] == Packed(n / 256, width - 1);
    }
  }

  lemma {:induction false} ReadPacks(s: bytes)
    ensures BigEndian(s) < Pow256(|s|) && Packed(BigEndian(s), |s|) == s
  {
    if |s| > 0 {
      ReadPacks(s[..|s| - 1]);
    }
  }

  lemma PowersOf256()
    ensures Pow256(4) == 0x1_0000_0000 && Pow256(8) == 0x1_0000_0000_0000_0000
  {
    assert Pow256(2) == 0x10000;
    assert Pow256(4) == 0x1_0000_0000;
    assert Pow256(6) == 0x1_0000_0000_0000;
  }
}
