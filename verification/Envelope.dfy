/**
 * The sealed-object format of backend/crypto.py: an 84-byte header wrapping the data key, then
 * length-prefixed chunks authenticated with their index, then a zero-length terminator.
 */
module Envelope {
  import opened Bytes
  import opened Optional

  const MAGIC: bytes := [0x50, 0x43, 0x41, 0x50, 0x45, 0x4E, 0x43, 0x01]
  const KEK_ID_LEN := 16
  const NONCE_LEN := 12
  const TAG_LEN := 16
  const DEK_LEN := 32
  const HEADER_LEN := 84
  const CHUNK_SIZE := 0x10000
  const MAX_INDEX := 0x1_0000_0000_0000_0000

  // --- the ideal cipher --------------------------------------------------------------------

  /** AES-256-GCM as (key, nonce, text, associated data), and SHA-256's first 16 bytes. */
  datatype Crypto = Crypto(
    enc: (bytes, bytes, bytes, bytes) -> bytes,
    dec: (bytes, bytes, bytes, bytes) -> Option<bytes>,
    kekId: bytes -> bytes)

  function ChunkAad(index: nat): bytes { MAGIC + Packed(index, 8) }

  /** Decryption undoes encryption, opens nothing else, and ties a chunk to one index. */
  ghost predicate Ideal(c: Crypto) {
    && (forall k, n, p, d :: |c.enc(k, n, p, d)| == |p| + TAG_LEN && c.dec(k, n, c.enc(k, n, p, d), d) == Some(p))
    && (forall k, n, x, d :: c.dec(k, n, x, d).Some? ==> x == c.enc(k, n, c.dec(k, n, x, d).value, d))
    && (forall k, n, x, i: nat, j: nat ::
          i < MAX_INDEX && j < MAX_INDEX && c.dec(k, n, x, ChunkAad(i)).Some? && c.dec(k, n, x, ChunkAad(j)).Some?
          ==> i == j)
    && (forall k :: |c.kekId(k)| == KEK_ID_LEN)
  }

  function ToyTag(d: bytes): (t: bytes)
    ensures |t| == TAG_LEN
  {
    (d + Zeros(TAG_LEN))[..TAG_LEN]
  }

  function Toy(): Crypto {
    Crypto((k, n, p, d) => p + ToyTag(d),
           (k, n, x, d) => if |x| >= TAG_LEN && x[|x| - TAG_LEN..] == ToyTag(d) then Some(x[..|x| - TAG_LEN])
                           else None,
           k => (k + Zeros(KEK_ID_LEN))[..KEK_ID_LEN])
  }

  lemma ToyTagOfIndex(i: nat, j: nat)
    requires i < MAX_INDEX && j < MAX_INDEX && ToyTag(ChunkAad(i)) == ToyTag(ChunkAad(j))
    ensures i == j
  {
    assert ToyTag(ChunkAad(i))[8..] == Packed(i, 8) && ToyTag(ChunkAad(j))[8..] == Packed(j, 8);
    PowersOf256();
    PackedReads(i, 8);
    PackedReads(j, 8);
  }

  /** The assumptions on the cipher are consistent: some cipher meets them, and tells keys apart. */
  lemma AnIdealCipherExists()
    ensures Ideal(Toy())
    ensures exists k, k' :: Toy().kekId(k) != Toy().kekId(k')
  {
    var c := Toy();
    assert c.kekId([1])[0] != c.kekId([2])[0];
    forall k, n, p, d
      ensures |c.enc(k, n, p, d)| == |p| + TAG_LEN && c.dec(k, n, c.enc(k, n, p, d), d) == Some(p)
    {
      var x := p + ToyTag(d);
      assert x[|x| - TAG_LEN..] == ToyTag(d) && x[..|x| - TAG_LEN] == p;
    }
    forall k, n, x, i: nat, j: nat
      | i < MAX_INDEX && j < MAX_INDEX && c.dec(k, n, x, ChunkAad(i)).Some? && c.dec(k, n, x, ChunkAad(j)).Some?
      ensures i == j
    {
      ToyTagOfIndex(i, j);
    }
  }

  // --- the header -----------------------------------------------------------------------------

  datatype Error = NotEncrypted | WrongKey | Truncated | ChunkTooLong | ChunkRejected | IndexOverflow

  datatype Unwrapped = Dek(dek: bytes) | Refused(why: Error)

  function HeaderForDek(c: Crypto, kek: bytes, dek: bytes, nonce: bytes): bytes {
    MAGIC + c.kekId(kek) + nonce + c.enc(kek, nonce, dek, MAGIC + c.kekId(kek))
  }

  function UnwrapDek(c: Crypto, kek: bytes, header: bytes): Unwrapped {
    if |header| < HEADER_LEN || !(MAGIC <= header) then Refused(NotEncrypted)
    else
      var id, nonce, wrapped := header[8..24], header[24..36], header[36..84];
      if id != c.kekId(kek) then Refused(WrongKey)
      else match c.dec(kek, nonce, wrapped, MAGIC + id) case None => Refused(WrongKey) case Some(dek) => Dek(dek)
  }

  lemma HeaderOpens(c: Crypto, kek: bytes, dek: bytes, nonce: bytes)
    requires Ideal(c) && |dek| == DEK_LEN && |nonce| == NONCE_LEN
    ensures |HeaderForDek(c, kek, dek, nonce)| == HEADER_LEN
    ensures UnwrapDek(c, kek, HeaderForDek(c, kek, dek, nonce)) == Dek(dek)
    ensures forall other :: c.kekId(other) != c.kekId(kek) ==>
              UnwrapDek(c, other, HeaderForDek(c, kek, dek, nonce)) == Refused(WrongKey)
  {
    var h := HeaderForDek(c, kek, dek, nonce);
    assert |c.enc(kek, nonce, dek, MAGIC + c.kekId(kek))| == 48;
    assert h[8..24] == c.kekId(kek) && h[24..36] == nonce;
    assert h[36..84] == c.enc(kek, nonce, dek, MAGIC + c.kekId(kek));
  }

  // --- chunks ------------------------------------------------------------------------------------

  /** The nonce drawn for each record; `os.urandom` makes every such function possible. */
  type Draw = nat -> bytes

  ghost predicate Drawn(draw: Draw) { forall i :: |draw(i)| == NONCE_LEN }

  function SealOne(c: Crypto, dek: bytes, index: nat, text: bytes, nonce: bytes): bytes {
    Packed(|text|, 4) + nonce + c.enc(dek, nonce, text, ChunkAad(index))
  }

  /** The body from record `index` on: one record for each non-empty chunk, then the terminator. */
  function SealFrom(c: Crypto, dek: bytes, index: nat, chunks: seq<bytes>, draw: Draw): bytes
    decreases |chunks|
  {
    if |chunks| == 0 then SealOne(c, dek, index, [], draw(index))
    else if |chunks[0]| == 0 then SealFrom(c, dek, index, chunks[1..], draw)
    else SealOne(c, dek, index, chunks[0], draw(index)) + SealFrom(c, dek, index + 1, chunks[1..], draw)
  }

  function NonEmpty(chunks: seq<bytes>): seq<bytes> {
    if |chunks| == 0 then []
    else (if |chunks[0]| == 0 then [] else [chunks[0]]) + NonEmpty(chunks[1..])
  }

  predicate Sized(chunks: seq<bytes>) { forall i :: 0 <= i < |chunks| ==> |chunks[i]| <= CHUNK_SIZE }

  /** The chunks handed out before the stream ended, and whether it ended cleanly. */
  datatype Opened = Clean(chunks: seq<bytes>) | Broken(chunks: seq<bytes>, why: Error)

  function Prepend(text: bytes, r: Opened): Opened { r.(chunks := [text] + r.chunks) }

  /** One record read from the front of `data`: why it cannot be, the terminator, or a chunk. */
  datatype Record = Bad(why: Error) | Terminator | Chunk(text: bytes, used: nat)

  function ReadRecord(c: Crypto, dek: bytes, index: nat, data: bytes): (r: Record)
    ensures r.Chunk? ==> 0 < r.used <= |data|
  {
    if |data| < 4 then Bad(Truncated)
    else
      var length := BigEndian(data[..4]);
      if length > CHUNK_SIZE then Bad(ChunkTooLong)
      else if |data| < 32 + length then Bad(Truncated)
      else if index >= MAX_INDEX then Bad(IndexOverflow)
      else
        match c.dec(dek, data[4..16], data[16..32 + length], ChunkAad(index))
        case None => Bad(ChunkRejected)
        case Some(text) => if length == 0 then Terminator else Chunk(text, 32 + length)
  }

  function OpenFrom(c: Crypto, dek: bytes, index: nat, data: bytes): Opened
    decreases |data|
  {
    match ReadRecord(c, dek, index, data)
    case Bad(why) => Broken([], why)
    case Terminator => Clean([])
    case Chunk(text, used) => Prepend(text, OpenFrom(c, dek, index + 1, data[used..]))
  }

  function Open(c: Crypto, kek: bytes, file: bytes): Opened {
    match UnwrapDek(c, kek, Slice(file, 0, HEADER_LEN))
    case Refused(why) => Broken([], why)
    case Dek(dek) => OpenFrom(c, dek, 0, if |file| < HEADER_LEN then [] else file[HEADER_LEN..])
  }

  function SealFile(c: Crypto, kek: bytes, dek: bytes, headerNonce: bytes, chunks: seq<bytes>, draw: Draw): bytes {
    HeaderForDek(c, kek, dek, headerNonce) + SealFrom(c, dek, 0, chunks, draw)
  }

  // --- sealing and opening, as they run -------------------------------------------------------------

  method SealChunks(c: Crypto, kek: bytes, dek: bytes, headerNonce: bytes, chunks: seq<bytes>, draw: Draw)
    returns (out: bytes)
    ensures out == SealFile(c, kek, dek, headerNonce, chunks, draw)
  {
    out := HeaderForDek(c, kek, dek, headerNonce);
    var index := 0;
    for i := 0 to |chunks|
      invariant index >= 0
      invariant out + SealFrom(c, dek, index, chunks[i..], draw) == SealFile(c, kek, dek, headerNonce, chunks, draw)
    {
      assert chunks[i..][0] == chunks[i] && chunks[i..][1..] == chunks[i + 1..];
      if |chunks[i]| == 0 { continue; }
      ghost var was := out;
      var one := SealOne(c, dek, index, chunks[i], draw(index));
      out := out + one;
      index := index + 1;
      assert was + (one + SealFrom(c, dek, index, chunks[i + 1..], draw))
          == out + SealFrom(c, dek, index, chunks[i + 1..], draw);
    }
    out := out + SealOne(c, dek, index, [], draw(index));
  }

  /** One turn of the reading loop: the length, the nonce, the body, then authentication. */
  method ReadNext(c: Crypto, dek: bytes, index: nat, file: bytes, pos: nat) returns (r: Record)
    requires pos <= |file|
    ensures r == ReadRecord(c, dek, index, file[pos..])
  {
    ghost var rest := file[pos..];
    var lengthRaw := Slice(file, pos, pos + 4);
    if |lengthRaw| < 4 { return Bad(Truncated); }
    assert lengthRaw == rest[..4];
    var length := BigEndian(lengthRaw);
    if length > CHUNK_SIZE { return Bad(ChunkTooLong); }
    var nonce := Slice(file, pos + 4, pos + 16);
    var body := Slice(file, pos + 16, pos + 32 + length);
    if |nonce| < NONCE_LEN || |body| < length + TAG_LEN { return Bad(Truncated); }
    if index >= MAX_INDEX { return Bad(IndexOverflow); }
    assert nonce == rest[4..16] && body == rest[16..32 + length];
    var text := c.dec(dek, nonce, body, ChunkAad(index));
    if text == None { return Bad(ChunkRejected); }
    return if length == 0 then Terminator else Chunk(text.value, 32 + length);
  }

  /** `open_stream`: the file read front to back, chunks handed out as they authenticate. */
  method OpenStream(c: Crypto, kek: bytes, file: bytes) returns (r: Opened)
    ensures r == Open(c, kek, file)
  {
    hide ReadRecord;
    var unwrapped := UnwrapDek(c, kek, Slice(file, 0, HEADER_LEN));
    if unwrapped.Refused? { return Broken([], unwrapped.why); }
    var dek := unwrapped.dek;
    var pos, index := HEADER_LEN, 0;
    var yielded: seq<bytes> := [];
    while true
      invariant HEADER_LEN <= pos <= |file| && index >= 0
      invariant Open(c, kek, file) == Joined(yielded, OpenFrom(c, dek, index, file[pos..]))
      decreases |file| - pos
    {
      var record := ReadNext(c, dek, index, file, pos);
      match record
      case Bad(why) => return Broken(yielded, why);
      case Terminator => return Clean(yielded);
      case Chunk(text, used) =>
        JoinPrepend(yielded, text, OpenFrom(c, dek, index + 1, file[pos..][used..]));
        assert file[pos..][used..] == file[pos + used..];
        yielded := yielded + [text];
        pos, index := pos + used, index + 1;
    }
  }

  lemma JoinPrepend(front: seq<bytes>, text: bytes, r: Opened)
    ensures Joined(front, Prepend(text, r)) == Joined(front + [text], r)
  {
  }

  function Joined(front: seq<bytes>, r: Opened): Opened { r.(chunks := front + r.chunks) }

  // --- what opening undoes ----------------------------------------------------------------------------

  lemma RecordReads(c: Crypto, dek: bytes, index: nat, text: bytes, nonce: bytes, rest: bytes)
    requires Ideal(c) && |nonce| == NONCE_LEN && |text| <= CHUNK_SIZE && index < MAX_INDEX
    ensures |SealOne(c, dek, index, text, nonce)| == 32 + |text|
    ensures ReadRecord(c, dek, index, SealOne(c, dek, index, text, nonce) + rest) ==
            if |text| == 0 then Terminator else Chunk(text, 32 + |text|)
  {
    var body := c.enc(dek, nonce, text, ChunkAad(index));
    var data := SealOne(c, dek, index, text, nonce) + rest;
    assert |body| == |text| + TAG_LEN;
    assert data[..4] == Packed(|text|, 4) && data[4..16] == nonce && data[16..32 + |text|] == body;
    PowersOf256();
    PackedReads(|text|, 4);
  }

  /** Opening a sealed body gives back its chunks, and ignores whatever follows the terminator. */
  lemma {:induction false} BodyOpens(c: Crypto, dek: bytes, index: nat, chunks: seq<bytes>, draw: Draw, rest: bytes)
    requires Ideal(c) && Drawn(draw) && Sized(chunks) && index + |chunks| < MAX_INDEX
    ensures OpenFrom(c, dek, index, SealFrom(c, dek, index, chunks, draw) + rest) == Clean(NonEmpty(chunks))
    decreases |chunks|
  {
    hide ReadRecord, SealOne;
    if |chunks| == 0 {
      RecordReads(c, dek, index, [], draw(index), rest);
    } else if |chunks[0]| == 0 {
      BodyOpens(c, dek, index, chunks[1..], draw, rest);
    } else {
      var one := SealOne(c, dek, index, chunks[0], draw(index));
      var tail := SealFrom(c, dek, index + 1, chunks[1..], draw) + rest;
      assert SealFrom(c, dek, index, chunks, draw) + rest == one + tail;
      RecordReads(c, dek, index, chunks[0], draw(index), tail);
      assert (one + tail)[|one|..] == tail;
      BodyOpens(c, dek, index + 1, chunks[1..], draw, rest);
    }
  }

  /** A sealed object opens under its master key to exactly the chunks that went in. */
  lemma FileOpens(c: Crypto, kek: bytes, dek: bytes, headerNonce: bytes, chunks: seq<bytes>, draw: Draw)
    requires Ideal(c) && Drawn(draw) && Sized(chunks) && |chunks| < MAX_INDEX
    requires |dek| == DEK_LEN && |headerNonce| == NONCE_LEN
    ensures Open(c, kek, SealFile(c, kek, dek, headerNonce, chunks, draw)) == Clean(NonEmpty(chunks))
  {
    var h, body := HeaderForDek(c, kek, dek, headerNonce), SealFrom(c, dek, 0, chunks, draw);
    HeaderOpens(c, kek, dek, headerNonce);
    assert Slice(h + body, 0, HEADER_LEN) == h && (h + body)[HEADER_LEN..] == body;
    BodyOpens(c, dek, 0, chunks, draw, []);
    assert body + [] == body;
  }

  lemma {:induction false} NonEmptyKeepsText(chunks: seq<bytes>)
    ensures Concat(NonEmpty(chunks)) == Concat(chunks)
  {
    if |chunks| != 0 {
      NonEmptyKeepsText(chunks[1..]);
      if |chunks[0]| != 0 {
        assert ([chunks[0]] + NonEmpty(chunks[1..]))[1..] == NonEmpty(chunks[1..]);
      } else {
        assert NonEmpty(chunks) == NonEmpty(chunks[1..]);
      }
    }
  }

  // --- truncation --------------------------------------------------------------------------------------

  /** A cut anywhere inside a record leaves it unreadable. */
  lemma CutRecord(c: Crypto, dek: bytes, index: nat, text: bytes, nonce: bytes, cut: nat)
    requires Ideal(c) && |nonce| == NONCE_LEN && |text| <= CHUNK_SIZE
    requires cut < |SealOne(c, dek, index, text, nonce)|
    ensures ReadRecord(c, dek, index, SealOne(c, dek, index, text, nonce)[..cut]) == Bad(Truncated)
  {
    var data := SealOne(c, dek, index, text, nonce)[..cut];
    if cut >= 4 {
      assert data[..4] == Packed(|text|, 4);
      PowersOf256();
      PackedReads(|text|, 4);
    }
  }

  /** Every strict prefix of a sealed body is refused as truncated. */
  lemma {:induction false} TruncationIsRefused(c: Crypto, dek: bytes, index: nat, chunks: seq<bytes>, draw: Draw,
                                               cut: nat)
    requires Ideal(c) && Drawn(draw) && Sized(chunks) && index + |chunks| < MAX_INDEX
    requires cut < |SealFrom(c, dek, index, chunks, draw)|
    ensures OpenFrom(c, dek, index, SealFrom(c, dek, index, chunks, draw)[..cut]).Broken?
    decreases |chunks|
  {
    hide ReadRecord, SealOne;
    if |chunks| == 0 {
      CutRecord(c, dek, index, [], draw(index), cut);
    } else if |chunks[0]| == 0 {
      TruncationIsRefused(c, dek, index, chunks[1..], draw, cut);
    } else {
      var one := SealOne(c, dek, index, chunks[0], draw(index));
      var tail := SealFrom(c, dek, index + 1, chunks[1..], draw);
      var data := (one + tail)[..cut];
      if cut < |one| {
        assert data == one[..cut];
        CutRecord(c, dek, index, chunks[0], draw(index), cut);
      } else {
        var rest := tail[..cut - |one|];
        assert data == one + rest;
        RecordReads(c, dek, index, chunks[0], draw(index), rest);
        assert (one + rest)[|one|..] == rest;
        TruncationIsRefused(c, dek, index + 1, chunks[1..], draw, cut - |one|);
      }
    }
  }

  lemma TruncatedFileIsRefused(c: Crypto, kek: bytes, dek: bytes, headerNonce: bytes, chunks: seq<bytes>, draw: Draw,
                               cut: nat)
    requires Ideal(c) && Drawn(draw) && Sized(chunks) && |chunks| < MAX_INDEX
    requires |dek| == DEK_LEN && |headerNonce| == NONCE_LEN
    requires cut < |SealFile(c, kek, dek, headerNonce, chunks, draw)|
    ensures Open(c, kek, SealFile(c, kek, dek, headerNonce, chunks, draw)[..cut]).Broken?
  {
    var h, body := HeaderForDek(c, kek, dek, headerNonce), SealFrom(c, dek, 0, chunks, draw);
    HeaderOpens(c, kek, dek, headerNonce);
    var data := (h + body)[..cut];
    if cut < HEADER_LEN {
      assert |Slice(data, 0, HEADER_LEN)| < HEADER_LEN;
    } else {
      assert Slice(data, 0, HEADER_LEN) == h && data[HEADER_LEN..] == body[..cut - HEADER_LEN];
      TruncationIsRefused(c, dek, 0, chunks, draw, cut - HEADER_LEN);
    }
  }

  // --- rearrangement -------------------------------------------------------------------------------------

  /** The records of one sealed object: those of its chunks, and the terminator as the last one. */
  function RecordAt(c: Crypto, dek: bytes, chunks: seq<bytes>, draw: Draw, j: nat): bytes {
    SealOne(c, dek, j, if j < |chunks| then chunks[j] else [], draw(j))
  }

  function Assembled(c: Crypto, dek: bytes, chunks: seq<bytes>, draw: Draw, order: seq<nat>): bytes {
    if |order| == 0 then []
    else RecordAt(c, dek, chunks, draw, order[0]) + Assembled(c, dek, chunks, draw, order[1..])
  }

  /** `order` runs through the records from `from` to the terminator, in place. */
  predicate InPlace(order: seq<nat>, from: nat, n: nat)
    requires from <= n
  {
    |order| > n - from && forall k :: 0 <= k <= n - from ==> order[k] == from + k
  }

  lemma MisplacedRecord(c: Crypto, dek: bytes, index: nat, j: nat, text: bytes, nonce: bytes, rest: bytes)
    requires Ideal(c) && |nonce| == NONCE_LEN && |text| <= CHUNK_SIZE
    requires index < MAX_INDEX && j < MAX_INDEX && index != j
    ensures ReadRecord(c, dek, index, SealOne(c, dek, j, text, nonce) + rest) == Bad(ChunkRejected)
  {
    var body := c.enc(dek, nonce, text, ChunkAad(j));
    var data := SealOne(c, dek, j, text, nonce) + rest;
    assert |body| == |text| + TAG_LEN;
    assert data[..4] == Packed(|text|, 4) && data[4..16] == nonce && data[16..32 + |text|] == body;
    PowersOf256();
    PackedReads(|text|, 4);
    assert c.dec(dek, nonce, body, ChunkAad(j)).Some?;
  }

  /**
   * Swaps, drops and repeats: a stream put together from an object's own records, in any
   * order and any number, opens cleanly if and only if every record up to the terminator
   * stands at its own place.
   */
  lemma {:induction false} OnlyInPlaceOpens(c: Crypto, dek: bytes, chunks: seq<bytes>, draw: Draw, order: seq<nat>,
                                            from: nat)
    requires Ideal(c) && Drawn(draw) && Sized(chunks) && |chunks| < MAX_INDEX && from <= |chunks|
    requires forall i :: 0 <= i < |chunks| ==> |chunks[i]| > 0
    requires forall i :: 0 <= i < |order| ==> order[i] <= |chunks|
    ensures OpenFrom(c, dek, from, Assembled(c, dek, chunks, draw, order)).Clean? <==> InPlace(order, from, |chunks|)
    decreases |order|
  {
    hide ReadRecord, SealOne;
    var n := |chunks|;
    if |order| == 0 {
      NothingToRead(c, dek, from);
    } else {
      var j, rest := order[0], Assembled(c, dek, chunks, draw, order[1..]);
      var text := if j < n then chunks[j] else [];
      var one := SealOne(c, dek, j, text, draw(j));
      if j != from {
        MisplacedRecord(c, dek, from, j, text, draw(j), rest);
      } else {
        RecordReads(c, dek, from, text, draw(j), rest);
        if j < n {
          assert (one + rest)[|one|..] == rest;
          OnlyInPlaceOpens(c, dek, chunks, draw, order[1..], from + 1);
          InPlaceTail(order, from, n);
        }
      }
    }
  }

  lemma NothingToRead(c: Crypto, dek: bytes, index: nat)
    ensures ReadRecord(c, dek, index, []) == Bad(Truncated)
  {
  }

  lemma InPlaceTail(order: seq<nat>, from: nat, n: nat)
    requires |order| > 0 && from < n && order[0] == from
    ensures InPlace(order, from, n) <==> InPlace(order[1..], from + 1, n)
  {
    if InPlace(order[1..], from + 1, n) {
      forall k | 0 <= k <= n - from
        ensures order[k] == from + k
      {
        if k > 0 { assert order[1..][k - 1] == from + 1 + (k - 1); }
      }
    }
  }

  // --- nothing else opens ------------------------------------------------------------------------------------

  /** The draw that gives `first` at `index` and `rest` elsewhere. */
  function DrawWith(index: nat, first: bytes, rest: Draw): Draw { i => if i == index then first else rest(i) }

  lemma {:induction false} SealIgnoresEarlierDraws(c: Crypto, dek: bytes, index: nat, chunks: seq<bytes>,
                                                   a: Draw, b: Draw)
    requires forall i :: i >= index ==> a(i) == b(i)
    ensures SealFrom(c, dek, index, chunks, a) == SealFrom(c, dek, index, chunks, b)
    decreases |chunks|
  {
    if |chunks| != 0 {
      if |chunks[0]| == 0 {
        SealIgnoresEarlierDraws(c, dek, index, chunks[1..], a, b);
      } else {
        SealIgnoresEarlierDraws(c, dek, index + 1, chunks[1..], a, b);
      }
    }
  }

  lemma ReadIsSealed(c: Crypto, dek: bytes, index: nat, data: bytes)
    requires Ideal(c) && !ReadRecord(c, dek, index, data).Bad?
    ensures index < MAX_INDEX && |data| >= 32
    ensures var r := ReadRecord(c, dek, index, data);
            var text := if r.Chunk? then r.text else [];
            var used := if r.Chunk? then r.used else 32;
            && |text| <= CHUNK_SIZE && (r.Chunk? ==> |text| > 0) && used <= |data|
            && data[..used] == SealOne(c, dek, index, text, data[4..16])
  {
    var length := BigEndian(data[..4]);
    var body := data[16..32 + length];
    var text := c.dec(dek, data[4..16], body, ChunkAad(index)).value;
    assert body == c.enc(dek, data[4..16], text, ChunkAad(index));
    assert |text| == length;
    ReadPacks(data[..4]);
    assert data[..32 + length] == data[..4] + data[4..16] + body;
    assert length == 0 ==> text == [];
  }

  /**
   * The converse of the round trip: whatever opens cleanly is the seal of the very chunks it
   * opened to, under some nonces, and then bytes that are never read.
   */
  lemma {:induction false} OnlySealedOpens(c: Crypto, dek: bytes, index: nat, data: bytes)
    returns (draw: Draw, rest: bytes)
    requires Ideal(c) && OpenFrom(c, dek, index, data).Clean?
    ensures Drawn(draw) && Sized(OpenFrom(c, dek, index, data).chunks)
    ensures data == SealFrom(c, dek, index, OpenFrom(c, dek, index, data).chunks, draw) + rest
    decreases |data|
  {
    hide ReadRecord, SealOne;
    ReadIsSealed(c, dek, index, data);
    var nonce := data[4..16];
    match ReadRecord(c, dek, index, data)
    case Terminator =>
      draw, rest := i => nonce, data[32..];
      assert data == data[..32] + rest;
    case Chunk(text, used) =>
      var later, tail := OnlySealedOpens(c, dek, index + 1, data[used..]);
      draw, rest := DrawWith(index, nonce, later), tail;
      var chunks := OpenFrom(c, dek, index, data).chunks;
      assert chunks[1..] == OpenFrom(c, dek, index + 1, data[used..]).chunks;
      SealIgnoresEarlierDraws(c, dek, index + 1, chunks[1..], draw, later);
      assert data == data[..used] + data[used..];
      assert draw(index) == nonce;
  }
}
