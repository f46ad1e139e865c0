/** Sealing a chunk at a time, and the upload path of backend/capture.py built on it. */
module Sealing {
  import opened Bytes
  import opened Envelope
  import opened Optional

  /** The records of a body without its terminator, and the index the next one takes. */
  function Records(c: Crypto, dek: bytes, texts: seq<bytes>, draw: Draw): bytes {
    if |texts| == 0 then []
    else
      var front := texts[..|texts| - 1];
      Records(c, dek, front, draw) + SealOne(c, dek, |front|, texts[|front|], draw(|front|))
  }

  lemma {:induction false} SealFromRecords(c: Crypto, dek: bytes, done: seq<bytes>, more: seq<bytes>, draw: Draw)
    requires forall i :: 0 <= i < |more| ==> |more[i]| > 0
    ensures Records(c, dek, done, draw) + SealFrom(c, dek, |done|, more, draw)
         == Records(c, dek, done + more, draw) + SealOne(c, dek, |done + more|, [], draw(|done + more|))
    decreases |more|
  {
    hide SealOne;
    if |more| == 0 {
      assert done + more == done;
    } else {
      var next := done + [more[0]];
      assert next[..|done|] == done && next + more[1..] == done + more;
      SealFromRecords(c, dek, next, more[1..], draw);
      var one := SealOne(c, dek, |done|, more[0], draw(|done|));
      assert Records(c, dek, next, draw) == Records(c, dek, done, draw) + one;
      assert SealFrom(c, dek, |done|, more, draw) == one + SealFrom(c, dek, |next|, more[1..], draw);
    }
  }

  lemma WholeBody(c: Crypto, dek: bytes, texts: seq<bytes>, draw: Draw)
    requires forall i :: 0 <= i < |texts| ==> |texts[i]| > 0
    ensures SealFrom(c, dek, 0, texts, draw)
         == Records(c, dek, texts, draw) + SealOne(c, dek, |texts|, [], draw(|texts|))
  {
    SealFromRecords(c, dek, [], texts, draw);
    assert [] + texts == texts;
    assert Records(c, dek, [], draw) == [];
  }

  /** What a sealed object being written has to remember: its key, its next record's number, whether it ended. */
  class Sealer {
    const c: Crypto
    const dek: bytes
    const draw: Draw
    const header: bytes
    var index: nat
    var finished: bool
    ghost var texts: seq<bytes>
    ghost var emitted: bytes

    ghost predicate Valid()
      reads this
    {
      && index == |texts| && (forall i :: 0 <= i < |texts| ==> 0 < |texts[i]|)
      && emitted == Records(c, dek, texts, draw)
                    + (if finished then SealOne(c, dek, index, [], draw(index)) else [])
    }

    constructor (c: Crypto, kek: bytes, dek: bytes, headerNonce: bytes, draw: Draw)
      ensures Valid() && !finished && texts == [] && emitted == []
      ensures this.c == c && this.dek == dek && this.draw == draw
      ensures header == HeaderForDek(c, kek, dek, headerNonce)
    {
      this.c, this.dek, this.draw := c, dek, draw;
      header := HeaderForDek(c, kek, dek, headerNonce);
      index, finished := 0, false;
      texts, emitted := [], [];
    }

    method Seal(text: bytes) returns (ok: bool, out: bytes)
      requires Valid()
      modifies this
      ensures Valid() && finished == old(finished)
      ensures ok == !old(finished)
      ensures texts == old(texts) + (if ok && |text| > 0 then [text] else [])
      ensures emitted == old(emitted) + out
    {
      hide SealOne;
      if finished { return false, []; }
      if |text| == 0 { return true, []; }
      out := SealOne(c, dek, index, text, draw(index));
      index := index + 1;
      assert (texts + [text])[..|texts|] == texts;
      texts, emitted := texts + [text], emitted + out;
      return true, out;
    }

    method Finish() returns (ok: bool, out: bytes)
      requires Valid()
      modifies this
      ensures Valid() && finished && texts == old(texts)
      ensures ok == !old(finished)
      ensures emitted == old(emitted) + out
      ensures ok ==> emitted == SealFrom(c, dek, 0, texts, draw)
    {
      hide SealOne, Records;
      if finished { return false, []; }
      finished := true;
      out := SealOne(c, dek, index, [], draw(index));
      emitted := emitted + out;
      WholeBody(c, dek, texts, draw);
      return true, out;
    }
  }

  // --- uploads ------------------------------------------------------------------------------

  const PCAP_MAGICS: set<bytes> := {
    [0xA1, 0xB2, 0xC3, 0xD4], [0xD4, 0xC3, 0xB2, 0xA1], [0xA1, 0xB2, 0x3C, 0x4D], [0x4D, 0x3C, 0xB2, 0xA1],
    [0x0A, 0x0D, 0x0D, 0x0A]
  }

  /** What the whole body has to be, however it is cut into reads. */
  predicate Acceptable(body: bytes, maxBytes: int) {
    4 <= |body| <= maxBytes && body[..4] in PCAP_MAGICS
  }

  datatype HeaderCheck = NotYet | Known | Unknown

  function CheckHeader(head: bytes): HeaderCheck {
    if |head| < 4 then NotYet else if head[..4] in PCAP_MAGICS then Known else Unknown
  }

  /** Where the checks stand after the bytes `b`: counted, within the limit, and the magic seen or awaited. */
  predicate Admitted(b: bytes, total: nat, head: bytes, checked: bool, maxBytes: int) {
    && total == |b| && (total <= maxBytes || total == 0)
    && if checked then 4 <= |b| && b[..4] in PCAP_MAGICS else head == b && |b| < 4
  }

  /** The size check and the header check of one non-empty read. */
  method AdmitRead(ghost b: bytes, total: nat, head: bytes, checked: bool, chunk: bytes, maxBytes: int)
    returns (refused: Option<Upload>, total': nat, head': bytes, checked': bool)
    requires Admitted(b, total, head, checked, maxBytes) && |chunk| > 0
    ensures refused.None? ==> Admitted(b + chunk, total', head', checked', maxBytes)
    ensures refused.Some? ==> !refused.value.Stored? && (|b + chunk| > maxBytes || CheckHeader(b + chunk) == Unknown)
  {
    total', head', checked' := total + |chunk|, head, checked;
    if total' > maxBytes { return Some(TooLarge), total', head', checked'; }
    if !checked {
      head' := head + chunk;
      var check := CheckHeader(head');
      if check == Unknown { return Some(NotACapture), total', head', checked'; }
      checked' := check == Known;
    } else {
      assert (b + chunk)[..4] == b[..4];
    }
    refused := None;
  }

  datatype Upload = Stored(file: bytes, total: nat) | TooLarge | NotACapture | Empty | TooShort

  /** One body read cut into pieces no longer than CHUNK_SIZE, each sealed and written. */
  method WriteChunk(sealer: Sealer, file: bytes, chunk: bytes) returns (out: bytes)
    requires sealer.Valid() && !sealer.finished && Sized(sealer.texts)
    requires file == sealer.header + sealer.emitted
    modifies sealer
    ensures sealer.Valid() && !sealer.finished && Sized(sealer.texts)
    ensures out == sealer.header + sealer.emitted
    ensures Concat(sealer.texts) == old(Concat(sealer.texts)) + chunk
    ensures |sealer.texts| <= old(|sealer.texts|) + |chunk|
  {
    hide SealOne, Records, Concat;
    out := file;
    var i := 0;
    while i < |chunk|
      invariant 0 <= i <= |chunk|
      invariant sealer.Valid() && !sealer.finished && Sized(sealer.texts)
      invariant out == sealer.header + sealer.emitted
      invariant Concat(sealer.texts) == old(Concat(sealer.texts)) + chunk[..i]
      invariant |sealer.texts| <= old(|sealer.texts|) + i
    {
      var part := Slice(chunk, i, i + CHUNK_SIZE);
      ConcatSnoc(sealer.texts, part);
      assert chunk[..i] + part == chunk[..i + |part|];
      ghost var was := sealer.emitted;
      var ok, piece := sealer.Seal(part);
      assert (sealer.header + was) + piece == sealer.header + (was + piece);
      out := out + piece;
      i := i + |part|;
    }
    assert chunk[..i] == chunk;
  }

  /** The body reads in turn: checked, cut, sealed and written, until one is refused. */
  method ReceiveBody(sealer: Sealer, chunks: seq<bytes>, maxBytes: int)
    returns (refused: Option<Upload>, file: bytes, total: nat, checked: bool)
    requires sealer.Valid() && !sealer.finished && sealer.texts == [] && sealer.emitted == []
    modifies sealer
    ensures refused.Some? ==> !refused.value.Stored? && !Acceptable(Concat(chunks), maxBytes)
    ensures refused.None? ==>
              && sealer.Valid() && !sealer.finished && file == sealer.header + sealer.emitted
              && Sized(sealer.texts) && Concat(sealer.texts) == Concat(chunks) && |sealer.texts| <= total
              && exists head :: Admitted(Concat(chunks), total, head, checked, maxBytes)
  {
    assert Concat(chunks[..0]) == [] && Concat(sealer.texts) == [] && Sized(sealer.texts);
    assert Admitted(Concat(chunks[..0]), 0, [], false, maxBytes);
    hide Concat, SealOne, Records, Acceptable, Admitted, Sized, CheckHeader, Sealer.Valid;
    file, total, checked := sealer.header, 0, false;
    var head: bytes := [];
    for k := 0 to |chunks|
      invariant sealer.Valid() && !sealer.finished && Sized(sealer.texts)
      invariant file == sealer.header + sealer.emitted
      invariant Concat(sealer.texts) == Concat(chunks[..k]) && |sealer.texts| <= total
      invariant Admitted(Concat(chunks[..k]), total, head, checked, maxBytes)
    {
      var chunk := chunks[k];
      assert chunks[..k + 1] == chunks[..k] + [chunk];
      ConcatSnoc(chunks[..k], chunk);
      if |chunk| == 0 {
        assert Concat(chunks[..k]) + chunk == Concat(chunks[..k]);
        continue;
      }
      refused, total, head, checked := AdmitRead(Concat(chunks[..k]), total, head, checked, chunk, maxBytes);
      if refused.Some? {
        PrefixDecides(chunks, k + 1, maxBytes);
        return;
      }
      file := WriteChunk(sealer, file, chunk);
    }
    assert chunks[..|chunks|] == chunks;
    refused := None;
  }

  /**
   * `_write_sealed_upload` with a vault: the body is stored exactly when it is acceptable,
   * and what is stored is its seal.
   */
  method WriteSealedUpload(c: Crypto, kek: bytes, dek: bytes, headerNonce: bytes, draw: Draw,
                           chunks: seq<bytes>, maxBytes: int) returns (r: Upload, ghost texts: seq<bytes>)
    ensures r.Stored? <==> Acceptable(Concat(chunks), maxBytes)
    ensures r.Stored? ==> r.total == |Concat(chunks)|
    ensures r.Stored? ==> Sized(texts) && Concat(texts) == Concat(chunks) && |texts| <= |Concat(chunks)|
    ensures r.Stored? ==> r.file == SealFile(c, kek, dek, headerNonce, texts, draw)
  {
    hide Concat, SealOne, Records, HeaderForDek, SealFrom, NonEmpty;
    var sealer := new Sealer(c, kek, dek, headerNonce, draw);
    texts := [];
    var refused, file, total, checked := ReceiveBody(sealer, chunks, maxBytes);
    if refused.Some? { return refused.value, []; }
    if total == 0 { return Empty, []; }
    if !checked { return TooShort, []; }
    texts := sealer.texts;
    ghost var emitted := sealer.emitted;
    var ok, last := sealer.Finish();
    assert (sealer.header + emitted) + last == sealer.header + (emitted + last);
    r := Stored(file + last, total);
  }

  lemma PrefixOfBody(chunks: seq<bytes>, k: nat)
    requires k <= |chunks|
    ensures |Concat(chunks[..k])| <= |Concat(chunks)|
    ensures Concat(chunks)[..|Concat(chunks[..k])|] == Concat(chunks[..k])
  {
    ConcatAppend(chunks[..k], chunks[k..]);
    assert chunks == chunks[..k] + chunks[k..];
  }

  /** Too many bytes, or a wrong magic, in a prefix is too many, or a wrong magic, in the whole. */
  lemma PrefixDecides(chunks: seq<bytes>, k: nat, maxBytes: int)
    requires k <= |chunks|
    requires |Concat(chunks[..k])| > maxBytes || CheckHeader(Concat(chunks[..k])) == Unknown
    ensures !Acceptable(Concat(chunks), maxBytes)
  {
    PrefixOfBody(chunks, k);
    var part, body := Concat(chunks[..k]), Concat(chunks);
    if |part| >= 4 {
      assert body[..4] == body[..|part|][..4];
    }
  }

  /** What a stored upload holds: it opens to the body, whatever reads it arrived in. */
  lemma StoredUploadOpens(c: Crypto, kek: bytes, dek: bytes, headerNonce: bytes, draw: Draw, chunks: seq<bytes>,
                          texts: seq<bytes>)
    requires Ideal(c) && Drawn(draw) && |dek| == DEK_LEN && |headerNonce| == NONCE_LEN
    requires Sized(texts) && Concat(texts) == Concat(chunks) && |texts| < MAX_INDEX
    ensures var r := Open(c, kek, SealFile(c, kek, dek, headerNonce, texts, draw));
            r.Clean? && Concat(r.chunks) == Concat(chunks)
  {
    FileOpens(c, kek, dek, headerNonce, texts, draw);
    NonEmptyKeepsText(texts);
  }
}
