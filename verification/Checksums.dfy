/**
 * The incremental checksum repair of backend/framewalk.py, and the one's-complement
 * arithmetic (RFC 1071, RFC 1624) it rests on.
 */
module Checksums {
  import opened Bytes

  /** Equality of one's-complement sums: 0x0000 and 0xFFFF are the same number. */
  predicate Same(a: int, b: int) { a % 0xFFFF == b % 0xFFFF }

  /** One's-complement addition of two 16-bit sums, reduced. */
  function Add(a: int, b: int): nat { (a + b) % 0xFFFF }

  // --- the sum -----------------------------------------------------------------

  function Padded(data: bytes): (r: bytes)
    ensures |r| % 2 == 0
  {
    if |data| % 2 == 1 then data + [0] else data
  }

  /** `_ones_sum`: one reduction mod 0xFFFF of the padded data taken as a single number. */
  function OnesSum(data: bytes): nat {
    BigEndian(Padded(data)) % 0xFFFF
  }

  function Weight(i: nat): nat { if i % 2 == 0 then 256 else 1 }

  /** What the checksum defines: each byte at its place in a 16-bit word, words added up. */
  function WordSum(data: bytes): nat {
    if |data| == 0 then 0
    else WordSum(data[..|data| - 1]) + data[|data| - 1] * Weight(|data| - 1)
  }

  lemma ShiftByOneWord(x: nat, y: nat)
    ensures Same(x * 0x10000 + y, x + y)
  {
    assert x * 0x10000 + y == (x + y) + x * 0xFFFF;
    ModDrop(x + y, x);
  }

  lemma ModDrop(a: int, k: int)
    ensures (a + k * 0xFFFF) % 0xFFFF == a % 0xFFFF
  {
    var q, r := a / 0xFFFF, a % 0xFFFF;
    assert a + k * 0xFFFF == (q + k) * 0xFFFF + r;
  }

  lemma SameSum(a: int, b: int, c: int, d: int)
    requires Same(a, b) && Same(c, d)
    ensures Same(a + c, b + d) && Same(a - c, b - d)
  {
    var k, m := a / 0xFFFF - b / 0xFFFF, c / 0xFFFF - d / 0xFFFF;
    assert a == b + k * 0xFFFF && c == d + m * 0xFFFF;
    ModDrop(b + d, k + m);
    ModDrop(b - d, k - m);
    assert a + c == b + d + (k + m) * 0xFFFF;
    assert a - c == b - d + (k - m) * 0xFFFF;
  }

  lemma {:induction false} BigEndianIsWordSum(data: bytes)
    requires |data| % 2 == 0
    ensures Same(BigEndian(data), WordSum(data))
  {
    if |data| != 0 {
      var n := |data|;
      var front := data[..n - 2];
      assert data[..n - 1][..n - 2] == front;
      BigEndianIsWordSum(front);
      var word: int := U16(data, n - 2);
      assert BigEndian(data) == BigEndian(front) * 0x10000 + word;
      assert WordSum(data) == WordSum(front) + word;
      ShiftByOneWord(BigEndian(front), word);
      SameSum(BigEndian(front), WordSum(front), word, word);
    }
  }

  /** The integer reading and the word-by-word definition agree on every buffer, odd ones included. */
  lemma OnesSumIsWordSum(data: bytes)
    ensures OnesSum(data) == WordSum(data) % 0xFFFF
  {
    BigEndianIsWordSum(Padded(data));
    if |data| % 2 == 1 {
      assert Padded(data)[..|data|] == data;
    }
  }

  lemma {:induction false} WordSumConcat(a: bytes, b: bytes)
    requires |a| % 2 == 0
    ensures WordSum(a + b) == WordSum(a) + WordSum(b)
  {
    if |b| == 0 {
      assert a + b == a;
    } else {
      WordSumConcat(a, b[..|b| - 1]);
      assert (a + b)[..|a + b| - 1] == a + b[..|b| - 1];
    }
  }

  /** Sums of equally long fronts differ by the same amount whatever follows them. */
  lemma {:induction false} WordSumTail(a: bytes, b: bytes, tail: bytes)
    requires |a| == |b|
    ensures WordSum(a + tail) - WordSum(a) == WordSum(b + tail) - WordSum(b)
  {
    if |tail| == 0 {
      assert a + tail == a && b + tail == b;
    } else {
      var front := tail[..|tail| - 1];
      WordSumTail(a, b, front);
      assert (a + tail)[..|a + tail| - 1] == a + front;
      assert (b + tail)[..|b + tail| - 1] == b + front;
    }
  }

  lemma {:induction false} WordSumZero(data: bytes)
    ensures WordSum(data) == 0 <==> forall i :: 0 <= i < |data| ==> data[i] == 0
  {
    if |data| != 0 {
      var front := data[..|data| - 1];
      WordSumZero(front);
      assert forall i :: 0 <= i < |front| ==> front[i] == data[i];
    }
  }

  // --- RFC 1071's end-around carry ---------------------------------------------

  function FoldCarries(total: nat): nat
    decreases total
  {
    if total / 0x10000 == 0 then total else FoldCarries(total % 0x10000 + total / 0x10000)
  }

  /** The reference sum: 16-bit words with the carries folded back in. */
  function Rfc1071Sum(data: bytes): nat { FoldCarries(WordSum(Padded(data))) }

  lemma {:induction false} FoldKeepsValue(total: nat)
    ensures FoldCarries(total) <= 0xFFFF && Same(FoldCarries(total), total)
    ensures FoldCarries(total) == 0 <==> total == 0
    decreases total
  {
    if total / 0x10000 != 0 {
      var hi, lo := total / 0x10000, total % 0x10000;
      FoldKeepsValue(lo + hi);
      ShiftByOneWord(hi, lo);
    }
  }

  lemma WordSumPadded(data: bytes)
    ensures WordSum(Padded(data)) == WordSum(data)
  {
    if |data| % 2 == 1 {
      assert Padded(data)[..|data|] == data;
    }
  }

  /** `_ones_sum` is the end-around-carry sum, with 0xFFFF written as 0. */
  lemma OnesSumIsRfc1071(data: bytes)
    ensures Rfc1071Sum(data) <= 0xFFFF
    ensures OnesSum(data) == if Rfc1071Sum(data) == 0xFFFF then 0 else Rfc1071Sum(data)
    ensures Rfc1071Sum(data) == 0 <==> forall i :: 0 <= i < |data| ==> data[i] == 0
  {
    WordSumPadded(data);
    FoldKeepsValue(WordSum(data));
    OnesSumIsWordSum(data);
    WordSumZero(data);
  }

  lemma WordSumNextWord(words: bytes, i: nat)
    requires i + 2 <= |words| && i % 2 == 0
    ensures WordSum(words[..i + 2]) == WordSum(words[..i]) + U16(words, i)
  {
    assert words[..i + 2][..i + 1] == words[..i + 1] && words[..i + 1][..i] == words[..i];
    assert WordSum(words[..i + 2]) == WordSum(words[..i + 1]) + words[i + 1];
  }

  /** The tests' reference checksum loop. */
  method OnesComplementChecksum(data: bytes) returns (checksum: nat)
    ensures checksum == 0xFFFF - Rfc1071Sum(data)
    ensures Same(checksum + OnesSum(data), 0)
  {
    hide WordSum, Padded, U16, OnesSum;
    var words := Padded(data);
    EmptySum(words);
    var total, i := 0, 0;
    while i < |words|
      invariant 0 <= i <= |words| && i % 2 == 0
      invariant total == WordSum(words[..i])
    {
      WordSumNextWord(words, i);
      total := total + U16(words, i);
      i := i + 2;
    }
    assert words[..i] == words;
    while total / 0x10000 != 0
      invariant 0 <= total && FoldCarries(total) == Rfc1071Sum(data)
      decreases total
    {
      total := total % 0x10000 + total / 0x10000;
    }
    OnesSumIsRfc1071(data);
    checksum := 0xFFFF - total;
  }

  lemma EmptySum(words: bytes)
    ensures WordSum(words[..0]) == 0
  {
  }

  // --- scopes and residuals ----------------------------------------------------

  /** One checksum: where it is, the bytes it covers, and the pseudo-header bytes that feed it. */
  datatype Scope = Scope(at: nat, start: nat, end: nat, pseudo: seq<(nat, nat)>)

  /** `buffer[rel:rel + 2] = b"\x00\x00"`, which also grows a buffer that ends before `rel + 2`. */
  function ZeroField(cover: bytes, rel: nat): bytes {
    cover[..Min(rel, |cover|)] + [0, 0] + cover[Min(rel + 2, |cover|)..]
  }

  function Cover(buf: bytes, s: Scope): bytes
    requires s.start <= s.at
  {
    ZeroField(Slice(buf, s.start, s.end), s.at - s.start)
  }

  function PseudoBytes(buf: bytes, pseudo: seq<(nat, nat)>): bytes {
    if |pseudo| == 0 then []
    else Slice(buf, pseudo[0].0, pseudo[0].0 + pseudo[0].1) + PseudoBytes(buf, pseudo[1..])
  }

  /** Everything a checksum depends on except its own two bytes. */
  function Inputs(buf: bytes, s: Scope): (bytes, bytes)
    requires s.start <= s.at
  {
    (Cover(buf, s), PseudoBytes(buf, s.pseudo))
  }

  function SumOf(inputs: (bytes, bytes)): nat {
    Add(OnesSum(inputs.0), OnesSum(inputs.1))
  }

  /** How wrong a checksum is: 0 for a right one, and the thing a rewrite must not change. */
  function Residual(buf: bytes, s: Scope): nat
    requires s.start <= s.at && s.at + 2 <= |buf|
  {
    Add(SumOf(Inputs(buf, s)), U16(buf, s.at))
  }

  predicate Inside(s: Scope, n: nat) { s.start <= s.at && s.at + 2 <= n }

  ghost predicate AllInside(scopes: seq<Scope>, n: nat) {
    forall i :: 0 <= i < |scopes| ==> Inside(scopes[i], n)
  }

  /** The first byte a checksum with this coverage start and pseudo header reads. */
  function Lowest(start: nat, pseudo: seq<(nat, nat)>): nat {
    if |pseudo| == 0 then start else Min(pseudo[0].0, Lowest(start, pseudo[1..]))
  }

  /** The checksum of `outer` lies before everything `inner` covers or reads. */
  predicate Before(outer: Scope, inner: Scope) { outer.at + 2 <= Lowest(inner.start, inner.pseudo) }

  /** The order in which the walker lists its scopes: outermost first. */
  ghost predicate OutsideIn(scopes: seq<Scope>) {
    forall i, j :: 0 <= i < j < |scopes| ==> Before(scopes[i], scopes[j])
  }

  predicate InField(i: int, s: Scope) { s.at <= i < s.at + 2 }

  ghost predicate OffFields(i: int, scopes: seq<Scope>) {
    forall k :: 0 <= k < |scopes| ==> !InField(i, scopes[k])
  }

  // --- the repair --------------------------------------------------------------

  /** RFC 1624 section 3, equation 3, in modular form. */
  function Updated(checksum: nat, oldSum: nat, newSum: nat): nat
    requires checksum <= 0xFFFF
  {
    0xFFFF - ((0xFFFF - checksum) as int + newSum - oldSum) % 0xFFFF
  }

  lemma UpdatedBalances(checksum: nat, oldSum: nat, newSum: nat)
    requires checksum <= 0xFFFF
    ensures 1 <= Updated(checksum, oldSum, newSum) <= 0xFFFF
    ensures Add(newSum, Updated(checksum, oldSum, newSum)) == Add(oldSum, checksum)
  {
    var x := (0xFFFF - checksum) + newSum - oldSum;
    var q, r := x / 0xFFFF, x % 0xFFFF;
    assert x == q * 0xFFFF + r;
    assert newSum + (0xFFFF - r) == oldSum + checksum + q * 0xFFFF;
    ModDrop(oldSum + checksum, q);
  }

  function RefreshOne(original: bytes, edited: bytes, s: Scope): (r: bytes)
    requires |original| == |edited| && s.start <= s.at
    ensures |r| == |edited|
  {
    if s.at + 2 > |edited| || Inputs(original, s) == Inputs(edited, s) then edited
    else
      var v := Updated(U16(edited, s.at), SumOf(Inputs(original, s)), SumOf(Inputs(edited, s)));
      UpdatedBalances(U16(edited, s.at), SumOf(Inputs(original, s)), SumOf(Inputs(edited, s)));
      WithU16(edited, s.at, v)
  }

  function Refreshed(original: bytes, edited: bytes, scopes: seq<Scope>): (r: bytes)
    requires |original| == |edited|
    requires forall i :: 0 <= i < |scopes| ==> scopes[i].start <= scopes[i].at
    ensures |r| == |edited|
    decreases |scopes|
  {
    if |scopes| == 0 then edited
    else
      var last := |scopes| - 1;
      Refreshed(original, RefreshOne(original, edited, scopes[last]), scopes[..last])
  }

  method Rfc1624(checksum: nat, oldSum: nat, newSum: nat) returns (updated: nat)
    requires checksum <= 0xFFFF
    ensures updated == Updated(checksum, oldSum, newSum) && 1 <= updated <= 0xFFFF
  {
    var folded: int := ((0xFFFF - checksum) as int + newSum - oldSum) % 0xFFFF;
    updated := 0xFFFF - folded;
  }

  /** One round of the loop: the coverage compared, and the field rewritten where it stands. */
  method RefreshScope(original: bytes, edited: array<byte>, s: Scope)
    requires |original| == edited.Length && s.start <= s.at
    modifies edited
    ensures edited[..] == RefreshOne(original, old(edited[..]), s)
  {
    hide OnesSum, Updated;
    if s.at + 2 > edited.Length { return; }
    var rel := s.at - s.start;
    var coverBefore := ZeroField(Slice(original, s.start, s.end), rel);
    var coverAfter := ZeroField(Slice(edited[..], s.start, s.end), rel);
    var pseudoBefore := PseudoBytes(original, s.pseudo);
    var pseudoAfter := PseudoBytes(edited[..], s.pseudo);
    if coverBefore == coverAfter && pseudoBefore == pseudoAfter { return; }
    var oldSum := Add(OnesSum(coverBefore), OnesSum(pseudoBefore));
    var newSum := Add(OnesSum(coverAfter), OnesSum(pseudoAfter));
    var updated := Rfc1624(U16(edited[..], s.at), oldSum, newSum);
    edited[s.at] := updated / 256;
    edited[s.at + 1] := updated % 256;
    assert edited[..] == WithU16(old(edited[..]), s.at, updated);
  }

  /** `refresh_checksums`: the scopes innermost first, each checksum repaired where it stands. */
  method RefreshChecksums(original: bytes, edited: array<byte>, scopes: seq<Scope>)
    requires |original| == edited.Length
    requires forall i :: 0 <= i < |scopes| ==> scopes[i].start <= scopes[i].at
    modifies edited
    ensures edited[..] == Refreshed(original, old(edited[..]), scopes)
  {
    hide RefreshOne;
    var k := |scopes|;
    assert scopes[..k] == scopes;
    while k > 0
      invariant 0 <= k <= |scopes|
      invariant Refreshed(original, edited[..], scopes[..k]) == Refreshed(original, old(edited[..]), scopes)
    {
      k := k - 1;
      assert scopes[..k + 1][..k] == scopes[..k];
      RefreshScope(original, edited, scopes[k]);
    }
  }

  // --- what the repair keeps -----------------------------------------------------

  lemma RefreshOneTouchesItsField(original: bytes, edited: bytes, s: Scope)
    requires |original| == |edited| && s.start <= s.at
    ensures forall i :: 0 <= i < |edited| && !InField(i, s) ==> RefreshOne(original, edited, s)[i] == edited[i]
  {
  }

  lemma SliceUnchanged(a: bytes, b: bytes, lo: nat, hi: nat)
    requires |a| == |b|
    requires forall i :: lo <= i < |a| ==> a[i] == b[i]
    ensures Slice(a, lo, hi) == Slice(b, lo, hi)
  {
  }

  lemma {:induction false} PseudoUnchanged(a: bytes, b: bytes, start: nat, pseudo: seq<(nat, nat)>)
    requires |a| == |b|
    requires forall i :: Lowest(start, pseudo) <= i < |a| ==> a[i] == b[i]
    ensures PseudoBytes(a, pseudo) == PseudoBytes(b, pseudo)
    ensures Lowest(start, pseudo) <= start
  {
    if |pseudo| != 0 {
      SliceUnchanged(a, b, pseudo[0].0, pseudo[0].0 + pseudo[0].1);
      PseudoUnchanged(a, b, start, pseudo[1..]);
    }
  }

  lemma LowestIsLow(start: nat, pseudo: seq<(nat, nat)>)
    ensures Lowest(start, pseudo) <= start
  {
  }

  lemma FieldUnchanged(a: bytes, b: bytes, at: nat, s: Scope)
    requires |a| == |b| && at + 2 <= s.at && Inside(s, |a|)
    requires forall i :: 0 <= i < |a| && !InField(i, s) ==> a[i] == b[i]
    ensures U16(a, at) == U16(b, at)
  {
    assert !InField(at, s) && !InField(at + 1, s);
  }

  /** Coverage is read with the checksum's own bytes zeroed, so writing them changes no input. */
  lemma OwnFieldIsNoInput(a: bytes, b: bytes, s: Scope)
    requires |a| == |b| && Inside(s, |a|)
    requires forall i :: 0 <= i < |a| && !InField(i, s) ==> a[i] == b[i]
    ensures Cover(a, s) == Cover(b, s)
  {
    var x, y, rel := Slice(a, s.start, s.end), Slice(b, s.start, s.end), s.at - s.start;
    assert |x| == |y|;
    assert forall i :: 0 <= i < |x| && !(rel <= i < rel + 2) ==> x[i] == y[i];
    assert x[..Min(rel, |x|)] == y[..Min(rel, |y|)];
    assert x[Min(rel + 2, |x|)..] == y[Min(rel + 2, |y|)..];
  }

  ghost predicate PseudoOffField(s: Scope) {
    forall k :: 0 <= k < |s.pseudo| ==> s.pseudo[k].0 + s.pseudo[k].1 <= s.at || s.at + 2 <= s.pseudo[k].0
  }

  lemma {:induction false} PseudoOffFieldUnchanged(a: bytes, b: bytes, at: nat, pseudo: seq<(nat, nat)>)
    requires |a| == |b|
    requires forall i :: 0 <= i < |a| && !(at <= i < at + 2) ==> a[i] == b[i]
    requires forall k :: 0 <= k < |pseudo| ==> pseudo[k].0 + pseudo[k].1 <= at || at + 2 <= pseudo[k].0
    ensures PseudoBytes(a, pseudo) == PseudoBytes(b, pseudo)
  {
    if |pseudo| != 0 {
      var p, n := pseudo[0].0, pseudo[0].1;
      assert Slice(a, p, p + n) == Slice(b, p, p + n);
      PseudoOffFieldUnchanged(a, b, at, pseudo[1..]);
    }
  }

  /** The residual the original's inputs leave with the checksum value the edits put there. */
  function Expected(original: bytes, edited: bytes, s: Scope): nat
    requires |original| == |edited| && Inside(s, |edited|)
  {
    Add(SumOf(Inputs(original, s)), U16(edited, s.at))
  }

  /** Either nothing the checksum depends on moved and it stays as edited, or it is not zero. */
  predicate Settled(original: bytes, edited: bytes, r: bytes, s: Scope)
    requires |original| == |edited| == |r| && Inside(s, |r|)
  {
    (Inputs(r, s) == Inputs(original, s) && U16(r, s.at) == U16(edited, s.at)) || U16(r, s.at) != 0
  }

  /**
   * One repair: the residual is what the original's inputs leave with the value found in the
   * field, so it is the original's exactly when the edits put an equal sum there; and a value
   * the repair writes is never 0x0000.
   */
  lemma RefreshOneRestores(original: bytes, edited: bytes, s: Scope)
    requires |original| == |edited| && Inside(s, |edited|) && PseudoOffField(s)
    ensures var r := RefreshOne(original, edited, s);
            && Residual(r, s) == Expected(original, edited, s)
            && Settled(original, edited, r, s)
    ensures Residual(RefreshOne(original, edited, s), s) == Residual(original, s)
            <==> Same(U16(edited, s.at), U16(original, s.at))
  {
    var r := RefreshOne(original, edited, s);
    if Inputs(original, s) != Inputs(edited, s) {
      RefreshOneTouchesItsField(original, edited, s);
      OwnFieldIsNoInput(r, edited, s);
      PseudoOffFieldUnchanged(r, edited, s.at, s.pseudo);
      UpdatedBalances(U16(edited, s.at), SumOf(Inputs(original, s)), SumOf(Inputs(edited, s)));
    }
    ExpectedIsOriginal(original, edited, s);
  }

  lemma ExpectedIsOriginal(original: bytes, edited: bytes, s: Scope)
    requires |original| == |edited| && Inside(s, |edited|)
    ensures Expected(original, edited, s) == Residual(original, s) <==> Same(U16(edited, s.at), U16(original, s.at))
  {
    hide SumOf, Inputs, U16;
    var sum, x, y := SumOf(Inputs(original, s)), U16(edited, s.at), U16(original, s.at);
    if Same(x, y) {
      SameSum(sum, sum, x, y);
    }
    if Same(sum + x, sum + y) {
      SameSum(sum + x, sum + y, sum, sum);
    }
  }

  lemma {:induction false} RefreshedTouchesFields(original: bytes, edited: bytes, scopes: seq<Scope>)
    requires |original| == |edited|
    requires AllInside(scopes, |edited|)
    ensures forall i :: 0 <= i < |edited| && OffFields(i, scopes) ==>
              Refreshed(original, edited, scopes)[i] == edited[i]
    decreases |scopes|
  {
    if |scopes| != 0 {
      var last := |scopes| - 1;
      var e := RefreshOne(original, edited, scopes[last]);
      RefreshOneTouchesItsField(original, edited, scopes[last]);
      RefreshedTouchesFields(original, e, scopes[..last]);
      forall i | 0 <= i < |edited| && OffFields(i, scopes)
        ensures Refreshed(original, edited, scopes)[i] == edited[i]
      {
        assert !InField(i, scopes[last]);
        assert OffFields(i, scopes[..last]);
      }
    }
  }

  /** Bytes from `from` on are untouched when every checksum field ends by `from`. */
  lemma RefreshedKeepsTail(original: bytes, edited: bytes, scopes: seq<Scope>, from: nat)
    requires |original| == |edited| && AllInside(scopes, |edited|)
    requires forall i :: 0 <= i < |scopes| ==> scopes[i].at + 2 <= from
    ensures forall i :: from <= i < |edited| ==> Refreshed(original, edited, scopes)[i] == edited[i]
  {
    RefreshedTouchesFields(original, edited, scopes);
    forall i | from <= i < |edited|
      ensures Refreshed(original, edited, scopes)[i] == edited[i]
    {
      assert OffFields(i, scopes);
    }
  }

  lemma InputsIgnoreFront(a: bytes, b: bytes, s: Scope)
    requires |a| == |b| && Inside(s, |a|)
    requires forall i :: Lowest(s.start, s.pseudo) <= i < |a| ==> a[i] == b[i]
    ensures Inputs(a, s) == Inputs(b, s) && U16(a, s.at) == U16(b, s.at)
  {
    PseudoUnchanged(a, b, s.start, s.pseudo);
    SliceUnchanged(a, b, s.start, s.end);
  }

  lemma SameFieldSameTarget(original: bytes, a: bytes, b: bytes, r: bytes, s: Scope)
    requires |original| == |a| == |b| == |r| && Inside(s, |r|) && U16(a, s.at) == U16(b, s.at)
    ensures Expected(original, a, s) == Expected(original, b, s)
    ensures Settled(original, a, r, s) == Settled(original, b, r, s)
  {
  }

  /** Nothing an inner repair writes is part of an outer checksum. */
  lemma InnerRepairMissesOuter(original: bytes, edited: bytes, s: Scope, outer: Scope)
    requires |original| == |edited| && Inside(s, |edited|) && Inside(outer, |edited|) && Before(outer, s)
    ensures U16(RefreshOne(original, edited, s), outer.at) == U16(edited, outer.at)
  {
    RefreshOneTouchesItsField(original, edited, s);
    LowestIsLow(s.start, s.pseudo);
    hide RefreshOne;
    FieldUnchanged(RefreshOne(original, edited, s), edited, outer.at, s);
  }

  /**
   * The repair of a whole list, after any same-length edits: each scope of an outside-in list has
   * the residual that the original's inputs leave with the value the edits put in its own field
   * -- although repairing an inner checksum changes the bytes outer ones cover -- and no checksum
   * whose coverage moved is left at 0x0000.
   */
  lemma {:induction false} RefreshSettlesAll(original: bytes, edited: bytes, scopes: seq<Scope>)
    requires |original| == |edited| && OutsideIn(scopes) && AllInside(scopes, |edited|)
    requires forall i :: 0 <= i < |scopes| ==> PseudoOffField(scopes[i])
    ensures forall k :: 0 <= k < |scopes| ==>
              && Residual(Refreshed(original, edited, scopes), scopes[k]) == Expected(original, edited, scopes[k])
              && Settled(original, edited, Refreshed(original, edited, scopes), scopes[k])
    decreases |scopes|
  {
    hide Residual, RefreshOne, Lowest, U16, Expected, Settled, Before, Same;
    if |scopes| != 0 {
      var last := |scopes| - 1;
      var s, outer := scopes[last], scopes[..last];
      var e := RefreshOne(original, edited, s);
      RefreshOneRestores(original, edited, s);
      RefreshSettlesAll(original, e, outer);
      var r := Refreshed(original, e, outer);
      LastOutlastsOuter(original, e, scopes);
      SameInputsSameResidual(r, e, s);
      SameInputsSettled(original, edited, e, r, s);
      forall k | 0 <= k < |scopes|
        ensures Residual(r, scopes[k]) == Expected(original, edited, scopes[k])
        ensures Settled(original, edited, r, scopes[k])
      {
        if k < last {
          assert scopes[k] == outer[k];
          InnerRepairMissesOuter(original, edited, s, scopes[k]);
          SameFieldSameTarget(original, e, edited, r, scopes[k]);
        }
      }
    }
  }

  /** So a residual is kept exactly when the edits left its own checksum value as it was, mod 0xFFFF. */
  lemma RefreshKeepsResiduals(original: bytes, edited: bytes, scopes: seq<Scope>, k: nat)
    requires |original| == |edited| && OutsideIn(scopes) && AllInside(scopes, |edited|) && k < |scopes|
    requires forall i :: 0 <= i < |scopes| ==> PseudoOffField(scopes[i])
    ensures var r, s := Refreshed(original, edited, scopes), scopes[k];
            && (Residual(r, s) == Residual(original, s) <==> Same(U16(edited, s.at), U16(original, s.at)))
            && Settled(original, edited, r, s)
  {
    hide Residual, Refreshed, U16, Expected, Settled, Same;
    RefreshSettlesAll(original, edited, scopes);
    ExpectedIsOriginal(original, edited, scopes[k]);
  }

  lemma SameInputsSettled(original: bytes, edited: bytes, e: bytes, r: bytes, s: Scope)
    requires |original| == |edited| == |e| == |r| && Inside(s, |r|) && Settled(original, edited, e, s)
    requires Inputs(r, s) == Inputs(e, s) && U16(r, s.at) == U16(e, s.at)
    ensures Settled(original, edited, r, s)
  {
  }

  lemma SameInputsSameResidual(a: bytes, b: bytes, s: Scope)
    requires |a| == |b| && Inside(s, |a|)
    requires Inputs(a, s) == Inputs(b, s) && U16(a, s.at) == U16(b, s.at)
    ensures Residual(a, s) == Residual(b, s)
  {
  }

  /** Repairs of the outer scopes leave the innermost one as it is. */
  lemma LastOutlastsOuter(original: bytes, e: bytes, scopes: seq<Scope>)
    requires |scopes| > 0 && |original| == |e| && OutsideIn(scopes) && AllInside(scopes, |e|)
    ensures var last := |scopes| - 1;
            var r := Refreshed(original, e, scopes[..last]);
            && Inputs(r, scopes[last]) == Inputs(e, scopes[last])
            && U16(r, scopes[last].at) == U16(e, scopes[last].at)
  {
    hide Refreshed, Inputs, Lowest, U16;
    var last := |scopes| - 1;
    var s, outer := scopes[last], scopes[..last];
    forall i | 0 <= i < |outer|
      ensures outer[i].at + 2 <= Lowest(s.start, s.pseudo)
    {
      assert Before(scopes[i], scopes[last]);
    }
    RefreshedKeepsTail(original, e, outer, Lowest(s.start, s.pseudo));
    InputsIgnoreFront(Refreshed(original, e, outer), e, s);
  }

  // --- what a receiver sees --------------------------------------------------------

  /**
   * Everything a receiver adds up: the pseudo header's addresses and its `fixed` rest, then the
   * covered bytes with the checksum in place, then the `tail` the snapshot length cut off.
   */
  function Received(buf: bytes, s: Scope, fixed: bytes, tail: bytes): bytes {
    (PseudoBytes(buf, s.pseudo) + fixed) + (Slice(buf, s.start, s.end) + tail)
  }

  predicate Accepts(data: bytes) { Rfc1071Sum(data) == 0xFFFF }

  /** A scope whose field lies on a word boundary inside what it covers. */
  predicate Covering(s: Scope, buf: bytes) {
    && s.start <= s.at && (s.at - s.start) % 2 == 0 && s.at + 2 <= s.end <= |buf|
    && |PseudoBytes(buf, s.pseudo)| % 2 == 0
  }

  lemma CoverSum(buf: bytes, s: Scope)
    requires Covering(s, buf)
    ensures WordSum(Slice(buf, s.start, s.end)) == WordSum(Cover(buf, s)) + U16(buf, s.at)
  {
    hide U16, WordSum, Cover, Slice, PseudoBytes;
    CoverPieces(buf, s);
    var all, rel := Slice(buf, s.start, s.end), s.at - s.start;
    ThreePieces(all[..rel], all[rel..rel + 2], all[rel + 2..]);
    ThreePieces(all[..rel], [0, 0], all[rel + 2..]);
    FieldOf(buf, s);
  }

  lemma CoverPieces(buf: bytes, s: Scope)
    requires Covering(s, buf)
    ensures var all, rel := Slice(buf, s.start, s.end), s.at - s.start;
            && rel + 2 <= |all|
            && all == all[..rel] + (all[rel..rel + 2] + all[rel + 2..])
            && Cover(buf, s) == all[..rel] + ([0, 0] + all[rel + 2..])
  {
    hide PseudoBytes;
  }

  lemma ThreePieces(front: bytes, field: bytes, back: bytes)
    requires |front| % 2 == 0 && |field| == 2
    ensures WordSum(front + (field + back)) == WordSum(front) + U16(field, 0) + WordSum(back)
  {
    hide U16, WordSum;
    WordSumConcat(front, field + back);
    WordSumConcat(field, back);
    PairSum(field);
  }

  lemma FieldOf(buf: bytes, s: Scope)
    requires Covering(s, buf)
    ensures U16(Slice(buf, s.start, s.end)[s.at - s.start..s.at - s.start + 2], 0) == U16(buf, s.at)
    ensures U16([0, 0], 0) == 0
  {
    hide PseudoBytes;
    var rel := s.at - s.start;
    var all := Slice(buf, s.start, s.end);
    assert all[rel..rel + 2][0] == buf[s.at] && all[rel..rel + 2][1] == buf[s.at + 1];
  }

  lemma PairSum(pair: bytes)
    requires |pair| == 2
    ensures WordSum(pair) == U16(pair, 0)
  {
    assert pair[..1][..0] == [];
    assert WordSum(pair[..1]) == pair[0] as int * 256;
  }

  lemma ReceivedSum(buf: bytes, s: Scope, fixed: bytes, tail: bytes)
    requires Covering(s, buf) && |fixed| % 2 == 0
    ensures WordSum(Received(buf, s, fixed, tail)) ==
            WordSum(Cover(buf, s)) + WordSum(PseudoBytes(buf, s.pseudo)) + U16(buf, s.at) + WordSum(fixed)
            + (WordSum(Slice(buf, s.start, s.end) + tail) - WordSum(Slice(buf, s.start, s.end)))
  {
    hide WordSum, Cover, PseudoBytes, Slice, U16;
    CoverSum(buf, s);
    WordSumConcat(PseudoBytes(buf, s.pseudo) + fixed, Slice(buf, s.start, s.end) + tail);
    WordSumConcat(PseudoBytes(buf, s.pseudo), fixed);
  }

  /** The residual is what the whole sum is, up to the parts no edit can reach. */
  lemma ResidualIsInputSum(buf: bytes, s: Scope)
    requires Inside(s, |buf|)
    ensures Same(Residual(buf, s), WordSum(Cover(buf, s)) + WordSum(PseudoBytes(buf, s.pseudo)) + U16(buf, s.at))
  {
    hide OnesSum, WordSum, Inputs, Cover, PseudoBytes, U16;
    var c, p := Cover(buf, s), PseudoBytes(buf, s.pseudo);
    assert Inputs(buf, s) == (c, p) by { InputsAre(buf, s); }
    OnesSumIsWordSum(c);
    OnesSumIsWordSum(p);
    AddSame(OnesSum(c), WordSum(c), OnesSum(p), WordSum(p));
    AddSame(SumOf((c, p)), WordSum(c) + WordSum(p), U16(buf, s.at), U16(buf, s.at));
  }

  lemma InputsAre(buf: bytes, s: Scope)
    requires s.start <= s.at
    ensures Inputs(buf, s) == (Cover(buf, s), PseudoBytes(buf, s.pseudo))
  {
  }

  lemma AddSame(a: int, b: int, c: int, d: int)
    requires Same(a, b) && Same(c, d)
    ensures Same(Add(a, c), b + d)
  {
    SameSum(a, b, c, d);
  }

  lemma SameBack(a: int, b: int, c: int)
    requires Same(a, b)
    ensures Same(a + c, b + c)
  {
    SameSum(a, b, c, c);
  }

  /** Residuals are equal exactly when everything a receiver adds up is, mod 0xFFFF. */
  lemma ResidualsAreSums(original: bytes, r: bytes, s: Scope, fixed: bytes, tail: bytes)
    requires |original| == |r| && Covering(s, original) && Covering(s, r) && |fixed| % 2 == 0
    ensures Residual(r, s) == Residual(original, s) <==>
            Same(WordSum(Received(original, s, fixed, tail)), WordSum(Received(r, s, fixed, tail)))
  {
    hide Residual, WordSum, Received, U16, Cover, PseudoBytes, Slice;
    var o', r' := Received(original, s, fixed, tail), Received(r, s, fixed, tail);
    ReceivedSum(original, s, fixed, tail);
    ReceivedSum(r, s, fixed, tail);
    SlicesSameLength(original, r, s);
    WordSumTail(Slice(original, s.start, s.end), Slice(r, s.start, s.end), tail);
    ResidualIsInputSum(original, s);
    ResidualIsInputSum(r, s);
    ResidualSmall(original, s);
    ResidualSmall(r, s);
    var x := WordSum(Cover(original, s)) + WordSum(PseudoBytes(original, s.pseudo)) + U16(original, s.at);
    var y := WordSum(Cover(r, s)) + WordSum(PseudoBytes(r, s.pseudo)) + U16(r, s.at);
    assert WordSum(o') - x == WordSum(r') - y;
    if Same(x, y) { SameBack(x, y, WordSum(o') - x); }
    if Same(WordSum(o'), WordSum(r')) { SameBack(WordSum(o'), WordSum(r'), x - WordSum(o')); }
  }

  lemma ResidualSmall(buf: bytes, s: Scope)
    requires Inside(s, |buf|)
    ensures Residual(buf, s) % 0xFFFF == Residual(buf, s)
  {
  }

  /**
   * A checksum a receiver would accept still verifies after a repair exactly when the edits left
   * its value as it was, mod 0xFFFF, and something summed is not zero -- which it is when the
   * value itself stays; one it would reject is then still rejected, unless all it summed was zero.
   * Whatever fixed pseudo-header fields and uncaptured bytes also enter the sum.
   */
  lemma VerdictKept(original: bytes, edited: bytes, r: bytes, s: Scope, fixed: bytes, tail: bytes)
    requires |original| == |edited| == |r| && Covering(s, original) && Covering(s, r) && |fixed| % 2 == 0
    requires Residual(r, s) == Residual(original, s) <==> Same(U16(edited, s.at), U16(original, s.at))
    requires Settled(original, edited, r, s)
    ensures var o', r' := Received(original, s, fixed, tail), Received(r, s, fixed, tail);
            var same := Same(U16(edited, s.at), U16(original, s.at));
            && (Accepts(o') ==> (Accepts(r') <==> same && Rfc1071Sum(r') != 0))
            && (U16(edited, s.at) == U16(original, s.at) && Accepts(o') ==> Accepts(r'))
            && (same && Rfc1071Sum(o') != 0 && Accepts(r') ==> Accepts(o'))
  {
    hide Residual, WordSum, Received, Rfc1071Sum, U16, Cover, PseudoBytes, Slice, Inputs;
    var o', r' := Received(original, s, fixed, tail), Received(r, s, fixed, tail);
    ResidualsAreSums(original, r, s, fixed, tail);
    FoldedVerdict(o', r');
    if U16(edited, s.at) == U16(original, s.at) && Accepts(o') && !Accepts(r') {
      ZeroSumMeansZeroField(r, s, fixed, tail);
      SumsUnmoved(original, edited, r, s, fixed, tail);
      ZeroSums(o', r');
    }
  }

  /** A field left at zero, where it stood at zero, belongs to a segment nothing happened to. */
  lemma SumsUnmoved(original: bytes, edited: bytes, r: bytes, s: Scope, fixed: bytes, tail: bytes)
    requires |original| == |edited| == |r| && Covering(s, original) && Covering(s, r) && |fixed| % 2 == 0
    requires Settled(original, edited, r, s) && U16(r, s.at) == 0 && U16(edited, s.at) == U16(original, s.at)
    ensures WordSum(Received(r, s, fixed, tail)) == WordSum(Received(original, s, fixed, tail))
  {
    hide WordSum, Received, U16, Cover, PseudoBytes, Slice, Inputs;
    InputsAre(original, s);
    InputsAre(r, s);
    ReceivedSum(original, s, fixed, tail);
    ReceivedSum(r, s, fixed, tail);
    SlicesSameLength(original, r, s);
    WordSumTail(Slice(original, s.start, s.end), Slice(r, s.start, s.end), tail);
  }

  lemma SlicesSameLength(a: bytes, b: bytes, s: Scope)
    requires |a| == |b|
    ensures |Slice(a, s.start, s.end)| == |Slice(b, s.start, s.end)|
  {
  }

  lemma FoldedVerdict(a: bytes, b: bytes)
    ensures Same(WordSum(a), WordSum(b)) ==>
              Rfc1071Sum(a) == Rfc1071Sum(b)
              || (Rfc1071Sum(a) == 0 && Rfc1071Sum(b) == 0xFFFF) || (Rfc1071Sum(a) == 0xFFFF && Rfc1071Sum(b) == 0)
    ensures Rfc1071Sum(a) == Rfc1071Sum(b) ==> Same(WordSum(a), WordSum(b))
  {
    hide WordSum, FoldCarries, Padded;
    WordSumPadded(a);
    WordSumPadded(b);
    FoldKeepsValue(WordSum(a));
    FoldKeepsValue(WordSum(b));
    if Same(WordSum(a), WordSum(b)) {
      SameSmall(Rfc1071Sum(a), Rfc1071Sum(b));
    }
  }

  lemma SameSmall(a: nat, b: nat)
    requires Same(a, b) && a <= 0xFFFF && b <= 0xFFFF
    ensures a == b || (a == 0 && b == 0xFFFF) || (a == 0xFFFF && b == 0)
  {
  }

  lemma ZeroSums(a: bytes, b: bytes)
    requires WordSum(a) == WordSum(b)
    ensures Rfc1071Sum(a) == Rfc1071Sum(b)
  {
    WordSumPadded(a);
    WordSumPadded(b);
  }

  lemma ZeroSumMeansZeroField(r: bytes, s: Scope, fixed: bytes, tail: bytes)
    requires Covering(s, r) && |fixed| % 2 == 0
    requires Rfc1071Sum(Received(r, s, fixed, tail)) == 0
    ensures U16(r, s.at) == 0
  {
    hide Rfc1071Sum, OnesSum, PseudoBytes;
    var all := Received(r, s, fixed, tail);
    OnesSumIsRfc1071(all);
    var skip := |PseudoBytes(r, s.pseudo)| + |fixed| + (s.at - s.start);
    assert all[skip] == r[s.at] && all[skip + 1] == r[s.at + 1];
  }

  // --- frames cut short ----------------------------------------------------------------------------

  /** A scope as it is found in the first `n` bytes. */
  function Cut(s: Scope, n: nat): Scope { s.(end := Min(s.end, n)) }

  function CutAll(scopes: seq<Scope>, n: nat): (r: seq<Scope>)
    ensures |r| == |scopes|
    ensures forall i :: 0 <= i < |r| ==> r[i] == Cut(scopes[i], n)
    ensures AllInside(scopes, n) ==> forall i :: 0 <= i < |r| ==> r[i].start <= r[i].at
  {
    seq(|scopes|, i requires 0 <= i < |scopes| => Cut(scopes[i], n))
  }

  /** The covered bytes that are cut off. */
  function CutOff(buf: bytes, s: Scope, n: nat): bytes
    requires n <= |buf|
  {
    if s.end > n then Slice(buf, n, s.end) else []
  }

  predicate PseudoWithin(pseudo: seq<(nat, nat)>, n: nat) {
    forall k :: 0 <= k < |pseudo| ==> pseudo[k].0 + pseudo[k].1 <= n
  }

  lemma CutCover(buf: bytes, s: Scope, n: nat)
    requires n <= |buf| && Inside(s, n)
    ensures Cover(buf, s) == Cover(buf[..n], Cut(s, n)) + CutOff(buf, s, n)
  {
    hide Slice, ZeroField;
    CutSlice(buf, s.start, s.end, n);
    if s.end > n {
      ZeroFieldAppend(Slice(buf[..n], s.start, n), Slice(buf, n, s.end), s.at - s.start);
    } else {
      assert Cover(buf, s) + [] == Cover(buf, s);
    }
  }

  lemma CutSlice(buf: bytes, lo: nat, hi: nat, n: nat)
    requires lo <= n <= |buf|
    ensures hi > n ==> Slice(buf, lo, hi) == Slice(buf[..n], lo, n) + Slice(buf, n, hi)
    ensures |Slice(buf[..n], lo, n)| == n - lo
    ensures hi <= n ==> Slice(buf, lo, hi) == Slice(buf[..n], lo, hi)
  {
  }

  lemma ZeroFieldAppend(front: bytes, tail: bytes, rel: nat)
    requires rel + 2 <= |front|
    ensures ZeroField(front + tail, rel) == ZeroField(front, rel) + tail
  {
  }

  lemma {:induction false} CutPseudo(buf: bytes, pseudo: seq<(nat, nat)>, n: nat)
    requires n <= |buf| && PseudoWithin(pseudo, n)
    ensures PseudoBytes(buf[..n], pseudo) == PseudoBytes(buf, pseudo)
  {
    if |pseudo| > 0 {
      CutPseudo(buf, pseudo[1..], n);
      assert Slice(buf[..n], pseudo[0].0, pseudo[0].0 + pseudo[0].1) ==
             Slice(buf, pseudo[0].0, pseudo[0].0 + pseudo[0].1);
    }
  }

  lemma SumOfIsWordSums(c: bytes, p: bytes)
    ensures Same(SumOf((c, p)), WordSum(c) + WordSum(p))
  {
    hide WordSum, OnesSum;
    OnesSumIsWordSum(c);
    OnesSumIsWordSum(p);
    AddSame(OnesSum(c), WordSum(c), OnesSum(p), WordSum(p));
  }

  /** A tail that both covers have makes no difference to what the edits changed. */
  lemma TailChangesNothing(c: bytes, d: bytes, tail: bytes, p: bytes, q: bytes)
    requires |c| == |d|
    ensures Same(SumOf((d + tail, q)) - SumOf((c + tail, p)), SumOf((d, q)) - SumOf((c, p)))
  {
    hide WordSum, SumOf;
    WordSumTail(c, d, tail);
    SumOfIsWordSums(c, p);
    SumOfIsWordSums(d, q);
    SumOfIsWordSums(c + tail, p);
    SumOfIsWordSums(d + tail, q);
    SameSum(SumOf((d, q)), WordSum(d) + WordSum(q), SumOf((c, p)), WordSum(c) + WordSum(p));
    SameSum(SumOf((d + tail, q)), WordSum(d + tail) + WordSum(q),
            SumOf((c + tail, p)), WordSum(c + tail) + WordSum(p));
  }

  lemma UpdatedByChange(checksum: nat, oldSum: nat, newSum: nat, oldSum': nat, newSum': nat)
    requires checksum <= 0xFFFF && Same(newSum - oldSum, newSum' - oldSum')
    ensures Updated(checksum, oldSum, newSum) == Updated(checksum, oldSum', newSum')
  {
    SameBack(newSum - oldSum, newSum' - oldSum', 0xFFFF - checksum);
  }

  lemma CutInputs(buf: bytes, s: Scope, n: nat)
    requires n <= |buf| && Inside(s, n) && PseudoWithin(s.pseudo, n)
    ensures Inputs(buf, s) == (Cover(buf[..n], Cut(s, n)) + CutOff(buf, s, n), PseudoBytes(buf[..n], s.pseudo))
    ensures Inputs(buf[..n], Cut(s, n)) == (Cover(buf[..n], Cut(s, n)), PseudoBytes(buf[..n], s.pseudo))
  {
    CutCover(buf, s, n);
    CutPseudo(buf, s.pseudo, n);
  }

  lemma CoverLength(a: bytes, b: bytes, s: Scope)
    requires |a| == |b| && s.start <= s.at
    ensures |Cover(a, s)| == |Cover(b, s)|
  {
  }

  lemma SameCutOff(a: bytes, b: bytes, s: Scope, n: nat)
    requires |a| == |b| && n <= |a| && a[n..] == b[n..]
    ensures CutOff(a, s, n) == CutOff(b, s, n)
  {
    assert forall i :: n <= i < |a| ==> a[i] == a[n..][i - n] && b[i] == b[n..][i - n];
  }

  /** One repair of the first `n` bytes is the first `n` bytes of the repair. */
  lemma RefreshOneOfCut(original: bytes, edited: bytes, s: Scope, n: nat)
    requires |original| == |edited| && n <= |edited| && original[n..] == edited[n..]
    requires Inside(s, n) && PseudoWithin(s.pseudo, n)
    ensures RefreshOne(original[..n], edited[..n], Cut(s, n)) == RefreshOne(original, edited, s)[..n]
    ensures RefreshOne(original, edited, s)[n..] == edited[n..]
  {
    hide SumOf, Cover, CutOff, PseudoBytes, Updated, Inputs, PseudoWithin;
    var t := Cut(s, n);
    CutInputs(original, s, n);
    CutInputs(edited, s, n);
    SameCutOff(original, edited, s, n);
    CoverLength(original[..n], edited[..n], t);
    var c, d, tail := Cover(original[..n], t), Cover(edited[..n], t), CutOff(original, s, n);
    var p, q := PseudoBytes(original[..n], s.pseudo), PseudoBytes(edited[..n], s.pseudo);
    assert c + tail == d + tail <==> c == d by {
      assert (c + tail)[..|c|] == c && (d + tail)[..|d|] == d;
    }
    TailChangesNothing(c, d, tail, p, q);
    UpdatedByChange(U16(edited, s.at), SumOf((c + tail, p)), SumOf((d + tail, q)), SumOf((c, p)), SumOf((d, q)));
  }

  /**
   * The repair of a frame cut short is the repair of the whole frame cut short: the incremental
   * update needs none of the bytes a checksum covers but the snapshot length left out.
   */
  lemma {:induction false} RefreshedOfCut(original: bytes, edited: bytes, scopes: seq<Scope>, n: nat)
    requires |original| == |edited| && n <= |edited| && original[n..] == edited[n..]
    requires AllInside(scopes, n) && forall i :: 0 <= i < |scopes| ==> PseudoWithin(scopes[i].pseudo, n)
    ensures Refreshed(original[..n], edited[..n], CutAll(scopes, n)) == Refreshed(original, edited, scopes)[..n]
    decreases |scopes|
  {
    hide RefreshOne, Cut, PseudoWithin;
    if |scopes| > 0 {
      var last := |scopes| - 1;
      RefreshOneOfCut(original, edited, scopes[last], n);
      var e := RefreshOne(original, edited, scopes[last]);
      RefreshedOfCut(original, e, scopes[..last], n);
      assert CutAll(scopes, n)[..last] == CutAll(scopes[..last], n);
    }
  }
}
