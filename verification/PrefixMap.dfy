/**
 * The prefix-preserving map of backend/anonymize.py (Crypto-PAn): one batch of cipher blocks
 * per address, against the recursive definition bit by bit.
 */
module PrefixMap {

  const BLOCK_BITS: nat := 128

  /** `x >> n`. */
  function Shr(x: nat, n: nat): nat
    decreases n
  {
    if n == 0 then x else Shr(x / 2, n - 1)
  }

  /** `x << n`. */
  function Shl(x: nat, n: nat): nat { if n == 0 then x else 2 * Shl(x, n - 1) }

  /** `x & ((1 << n) - 1)`. */
  function Low(x: nat, n: nat): nat
    decreases n
  {
    if n == 0 then 0 else 2 * Low(x / 2, n - 1) + x % 2
  }

  predicate HasWidth(x: nat, bits: nat) { Shr(x, bits) == 0 }

  function XorBit(a: nat, b: nat): (r: nat)
    requires a <= 1 && b <= 1
    ensures r <= 1
  {
    if a == b then 0 else 1
  }

  /** The block cipher under the map's key, on 128-bit blocks, and the encrypted pad. */
  datatype Keyed = Keyed(aes: nat -> nat, pad: nat)

  /** The top bit of a 128-bit block. */
  function TopBit(block: nat): (b: nat)
    ensures b <= 1
  {
    Shr(block, BLOCK_BITS - 1) % 2
  }

  /** The bit that flips the bit after `prefix`, a `position`-bit number. */
  function Flip(k: Keyed, prefix: nat, position: nat): (b: nat)
    requires position <= BLOCK_BITS
    ensures b <= 1
  {
    var rest := BLOCK_BITS - position;
    TopBit(k.aes(Shl(prefix, rest) + Low(k.pad, rest)))
  }

  /** The definition: each output bit is the input bit flipped by a function of the bits before it. */
  function Mapped(k: Keyed, address: nat, bits: nat): nat
    requires bits <= BLOCK_BITS
  {
    if bits == 0 then 0
    else 2 * Mapped(k, address / 2, bits - 1) + XorBit(address % 2, Flip(k, address / 2, bits - 1))
  }

  /** All the flips of an address, as one number. */
  function Flips(k: Keyed, address: nat, bits: nat): nat
    requires bits <= BLOCK_BITS
  {
    if bits == 0 then 0 else 2 * Flips(k, address / 2, bits - 1) + Flip(k, address / 2, bits - 1)
  }

  /** `a ^ b`. */
  function Xor(a: nat, b: nat): nat {
    if a == 0 && b == 0 then 0 else 2 * Xor(a / 2, b / 2) + XorBit(a % 2, b % 2)
  }

  // --- shifts ---------------------------------------------------------------------------

  lemma {:induction false} ShrSum(x: nat, a: nat, b: nat)
    ensures Shr(x, a + b) == Shr(Shr(x, a), b)
    decreases a
  {
    if a > 0 { ShrSum(x / 2, a - 1, b); }
  }

  lemma {:induction false} ShrOfShl(x: nat, n: nat)
    ensures Shr(Shl(x, n), n) == x
  {
    if n > 0 { ShrOfShl(x, n - 1); }
  }

  lemma ShrOnce(x: nat, n: nat)
    ensures Shr(x, n + 1) == Shr(x, n) / 2
  {
    ShrSum(x, n, 1);
    assert Shr(Shr(x, n), 1) == Shr(Shr(x, n) / 2, 0);
  }

  // --- the batched loop -------------------------------------------------------------------

  /** `(aligned & keep) | (pad & ~keep)`: the address's first bits, then the pad's. */
  function Block(aligned: nat, pad: nat, position: nat): nat
    requires position <= BLOCK_BITS
  {
    var rest := BLOCK_BITS - position;
    Shl(Shr(aligned, rest), rest) + Low(pad, rest)
  }

  lemma BlockIsPrefix(k: Keyed, address: nat, bits: nat, position: nat)
    requires position <= bits <= BLOCK_BITS
    ensures Block(Shl(address, BLOCK_BITS - bits), k.pad, position)
         == Shl(Shr(address, bits - position), BLOCK_BITS - position) + Low(k.pad, BLOCK_BITS - position)
  {
    var m, d := BLOCK_BITS - bits, bits - position;
    ShrSum(Shl(address, m), m, d);
    ShrOfShl(address, m);
    assert m + d == BLOCK_BITS - position;
  }

  lemma FlipsStep(k: Keyed, address: nat, bits: nat, position: nat, drop: nat)
    requires position < bits <= BLOCK_BITS && drop == bits - position
    ensures Flips(k, Shr(address, drop - 1), position + 1) ==
            Flips(k, Shr(address, drop), position) * 2
            + TopBit(k.aes(Block(Shl(address, BLOCK_BITS - bits), k.pad, position)))
  {
    hide TopBit, Shl, Low, Shr, Block;
    BlockIsPrefix(k, address, bits, position);
    ShrOnce(address, drop - 1);
  }

  lemma {:induction false} XorOfFlips(k: Keyed, address: nat, bits: nat)
    requires bits <= BLOCK_BITS && HasWidth(address, bits)
    ensures Xor(address, Flips(k, address, bits)) == Mapped(k, address, bits)
  {
    hide Flip;
    if bits > 0 {
      XorOfFlips(k, address / 2, bits - 1);
    }
  }

  /** One cipher call over a batch of blocks. */
  function Encrypted(k: Keyed, blocks: seq<nat>): (out: seq<nat>)
    ensures |out| == |blocks| && forall i :: 0 <= i < |blocks| ==> out[i] == k.aes(blocks[i])
  {
    seq(|blocks|, i requires 0 <= i < |blocks| => k.aes(blocks[i]))
  }

  /** One block for each bit of the address. */
  method Blocks(k: Keyed, address: nat, bits: nat) returns (blocks: seq<nat>)
    requires bits <= BLOCK_BITS
    ensures |blocks| == bits
    ensures forall i :: 0 <= i < bits ==> blocks[i] == Block(Shl(address, BLOCK_BITS - bits), k.pad, i)
  {
    hide Block, Shl;
    var aligned := Shl(address, BLOCK_BITS - bits);
    blocks := [];
    for position := 0 to bits
      invariant |blocks| == position
      invariant forall i :: 0 <= i < position ==> blocks[i] == Block(aligned, k.pad, i)
    {
      blocks := blocks + [Block(aligned, k.pad, position)];
    }
  }

  lemma NoFlipsYet(k: Keyed, address: nat, bits: nat)
    requires bits <= BLOCK_BITS
    ensures Shr(address, 0) == address && Flips(k, Shr(address, bits), 0) == 0
  {
  }

  /** `map`: one block per bit, all encrypted in one call, the top bits collected. */
  method Map(k: Keyed, address: nat, bits: nat) returns (r: nat)
    requires bits <= BLOCK_BITS && HasWidth(address, bits)
    ensures r == Mapped(k, address, bits)
  {
    hide Mapped, TopBit, Shl, Shr, Flips, Block, Xor, HasWidth, Encrypted;
    NoFlipsYet(k, address, bits);
    XorOfFlips(k, address, bits);
    var blocks := Blocks(k, address, bits);
    var out := Encrypted(k, blocks);
    var flips, position := 0, 0;
    ghost var drop := bits;
    while position < bits
      invariant 0 <= position <= bits && drop == bits - position
      invariant flips == Flips(k, Shr(address, drop), position)
    {
      FlipsStep(k, address, bits, position, drop);
      flips := flips * 2 + TopBit(out[position]);
      position, drop := position + 1, drop - 1;
    }
    r := Xor(address, flips);
  }

  // --- prefixes and permutation ---------------------------------------------------------------

  /** The map of the first bits of an address is the first bits of its map. */
  lemma {:induction false} MappedPrefix(k: Keyed, address: nat, bits: nat, drop: nat)
    requires drop <= bits <= BLOCK_BITS
    ensures Shr(Mapped(k, address, bits), drop) == Mapped(k, Shr(address, drop), bits - drop)
    decreases drop
  {
    if drop > 0 { MappedPrefix(k, address / 2, bits - 1, drop - 1); }
  }

  /** The inverse: every flip can be computed from the bits already recovered. */
  function Unmapped(k: Keyed, image: nat, bits: nat): nat
    requires bits <= BLOCK_BITS
  {
    if bits == 0 then 0
    else
      var prefix := Unmapped(k, image / 2, bits - 1);
      2 * prefix + XorBit(image % 2, Flip(k, prefix, bits - 1))
  }

  lemma {:induction false} UnmappedMapped(k: Keyed, x: nat, bits: nat)
    requires bits <= BLOCK_BITS && HasWidth(x, bits)
    ensures Unmapped(k, Mapped(k, x, bits), bits) == x
    ensures HasWidth(Mapped(k, x, bits), bits)
  {
    hide Flip;
    if bits > 0 {
      UnmappedMapped(k, x / 2, bits - 1);
      var y, front := Mapped(k, x, bits), Mapped(k, x / 2, bits - 1);
      assert y == 2 * front + XorBit(x % 2, Flip(k, x / 2, bits - 1));
      assert y / 2 == front && y % 2 == XorBit(x % 2, Flip(k, x / 2, bits - 1));
      assert Unmapped(k, y, bits) == 2 * (x / 2) + XorBit(y % 2, Flip(k, x / 2, bits - 1));
    }
  }

  lemma {:induction false} MappedUnmapped(k: Keyed, y: nat, bits: nat)
    requires bits <= BLOCK_BITS && HasWidth(y, bits)
    ensures Mapped(k, Unmapped(k, y, bits), bits) == y
    ensures HasWidth(Unmapped(k, y, bits), bits)
  {
    hide Flip;
    if bits > 0 {
      MappedUnmapped(k, y / 2, bits - 1);
      var x, front := Unmapped(k, y, bits), Unmapped(k, y / 2, bits - 1);
      assert x == 2 * front + XorBit(y % 2, Flip(k, front, bits - 1));
      assert x / 2 == front && x % 2 == XorBit(y % 2, Flip(k, front, bits - 1));
      assert Mapped(k, x, bits) == 2 * (y / 2) + XorBit(x % 2, Flip(k, front, bits - 1));
    }
  }

  /** The map is a permutation of the addresses of each width. */
  lemma Permutation(k: Keyed, x: nat, bits: nat)
    requires bits <= BLOCK_BITS && HasWidth(x, bits)
    ensures Unmapped(k, Mapped(k, x, bits), bits) == x && HasWidth(Mapped(k, x, bits), bits)
    ensures Mapped(k, Unmapped(k, x, bits), bits) == x && HasWidth(Unmapped(k, x, bits), bits)
  {
    UnmappedMapped(k, x, bits);
    MappedUnmapped(k, x, bits);
  }

  predicate SharePrefix(x: nat, y: nat, bits: nat, length: nat)
    requires length <= bits
  {
    Shr(x, bits - length) == Shr(y, bits - length)
  }

  /** Two addresses share their first `length` bits exactly when their stand-ins do. */
  lemma PrefixesArePreserved(k: Keyed, x: nat, y: nat, bits: nat, length: nat)
    requires length <= bits <= BLOCK_BITS && HasWidth(x, bits) && HasWidth(y, bits)
    ensures SharePrefix(x, y, bits, length) <==>
            SharePrefix(Mapped(k, x, bits), Mapped(k, y, bits), bits, length)
  {
    hide Mapped, Unmapped, Shr;
    var drop := bits - length;
    MappedPrefix(k, x, bits, drop);
    MappedPrefix(k, y, bits, drop);
    ShrSum(x, drop, length);
    ShrSum(y, drop, length);
    Permutation(k, Shr(x, drop), length);
    Permutation(k, Shr(y, drop), length);
  }
}
