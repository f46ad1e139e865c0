/**
 * Classic pcap read in chunks with a compacting buffer (backend/sanitizer.py, `_PcapReader`),
 * against reading the whole file at once.
 */
module Pcap {
  import opened Bytes
  import opened Framewalk

  const GLOBAL_HEADER_LEN := 24
  const RECORD_HEADER_LEN := 16
  const MAX_RECORD_BYTES := 1024 * 1024

  datatype Endian = Big | Little

  function Reversed(s: bytes): (r: bytes)
    ensures |r| == |s|
  {
    if |s| == 0 then [] else Reversed(s[1..]) + [s[0]]
  }

  lemma {:induction false} ReversedTwice(s: bytes)
    ensures Reversed(Reversed(s)) == s
  {
    if |s| > 0 {
      ReversedTwice(s[1..]);
      ReversedSnoc(Reversed(s[1..]), s[0]);
    }
  }

  lemma {:induction false} ReversedSnoc(s: bytes, b: byte)
    ensures Reversed(s + [b]) == [b] + Reversed(s)
  {
    if |s| > 0 {
      assert (s + [b])[1..] == s[1..] + [b];
      ReversedSnoc(s[1..], b);
    } else {
      assert s + [b] == [b];
    }
  }

  /** `int.from_bytes(s, endian)`. */
  function FromBytes(s: bytes, e: Endian): nat { if e == Big then BigEndian(s) else BigEndian(Reversed(s)) }

  /** `n.to_bytes(4, endian)`. */
  function ToBytes(n: nat, e: Endian): (r: bytes)
    ensures |r| == 4
  {
    if e == Big then Packed(n, 4) else Reversed(Packed(n, 4))
  }

  lemma ToBytesReads(n: nat, e: Endian)
    requires n < 0x1_0000_0000
    ensures FromBytes(ToBytes(n, e), e) == n
  {
    PowersOf256();
    PackedReads(n, 4);
    ReversedTwice(Packed(n, 4));
  }

  // --- the file ------------------------------------------------------------------------------

  datatype Error = NotPcap | Pcapng | TooShort | UnknownLinktype | CutHeader | CutRecord | NotARecord
                 | LostStep | MoreFrames | ToolFailed | BytesDisagree

  const PCAP_MAGICS: map<bytes, Endian> := map[
    [0xA1, 0xB2, 0xC3, 0xD4] := Big, [0xD4, 0xC3, 0xB2, 0xA1] := Little,
    [0xA1, 0xB2, 0x3C, 0x4D] := Big, [0x4D, 0x3C, 0xB2, 0xA1] := Little]
  const PCAPNG_MAGIC: bytes := [0x0A, 0x0D, 0x0D, 0x0A]

  datatype Header = Header(raw: bytes, endian: Endian, linktype: nat) | BadHeader(why: Error)

  function ReadHeader(raw: bytes): (h: Header)
    requires |raw| == GLOBAL_HEADER_LEN
    ensures h.Header? ==> h.raw == raw && h.linktype in LINKTYPES
  {
    if raw[..4] !in PCAP_MAGICS then BadHeader(if raw[..4] == PCAPNG_MAGIC then Pcapng else NotPcap)
    else
      var e := PCAP_MAGICS[raw[..4]];
      // The top six bits of the link-type field are not part of the type.
      var linktype := FromBytes(raw[20..24], e) % 0x04000000;
      if linktype !in LINKTYPES then BadHeader(UnknownLinktype) else Header(raw, e, linktype)
  }

  datatype Record = Record(header: bytes, data: bytes)

  /** The records of a capture, and why reading stopped. */
  datatype Records = Records(records: seq<Record>, stop: Stop)
  datatype Stop = AtEnd | Bad(why: Error)

  datatype Next = End | Got(record: Record, used: nat) | Broken(why: Error)

  function Included(header: bytes, e: Endian): nat
    requires |header| == RECORD_HEADER_LEN
  {
    FromBytes(header[8..12], e)
  }

  /** One record read off the front. */
  function NextOf(s: bytes, e: Endian): (r: Next)
    ensures r.Got? ==> 0 < r.used <= |s| && |r.record.header| == RECORD_HEADER_LEN
                       && |r.record.data| <= MAX_RECORD_BYTES
                       && |r.record.data| == Included(r.record.header, e)
                       && s[..r.used] == r.record.header + r.record.data
  {
    if |s| == 0 then End
    else if |s| < RECORD_HEADER_LEN then Broken(CutHeader)
    else
      var header := s[..RECORD_HEADER_LEN];
      var length := Included(header, e);
      if length > MAX_RECORD_BYTES then Broken(NotARecord)
      else if |s| < RECORD_HEADER_LEN + length then Broken(CutRecord)
      else Got(Record(header, s[RECORD_HEADER_LEN..RECORD_HEADER_LEN + length]), RECORD_HEADER_LEN + length)
  }

  function RecordsOf(s: bytes, e: Endian): Records
    decreases |s|
  {
    match NextOf(s, e)
    case End => Records([], AtEnd)
    case Broken(why) => Records([], Bad(why))
    case Got(record, used) =>
      var rest := RecordsOf(s[used..], e);
      Records([record] + rest.records, rest.stop)
  }

  // --- the chunked reader -----------------------------------------------------------------------

  class PcapReader {
    /** What the source has still to produce; `chunks()` is exhausted when it is empty. */
    var chunks: seq<bytes>
    var buf: bytes
    var pos: nat

    constructor (chunks: seq<bytes>)
      ensures Valid() && Ahead() == Concat(chunks)
    {
      this.chunks, buf, pos := chunks, [], 0;
    }

    ghost predicate Valid()
      reads this
    {
      pos <= |buf|
    }

    /** Everything not yet handed out: the rest of the buffer, then the chunks to come. */
    ghost function Ahead(): bytes
      requires Valid()
      reads this
    {
      buf[pos..] + Concat(chunks)
    }

    /** `_fill`: read until `need` bytes are buffered, dropping consumed ones when they pile up. */
    method Fill(need: nat) returns (ok: bool)
      requires Valid()
      modifies this
      ensures Valid() && Ahead() == old(Ahead())
      ensures ok ==> |buf| - pos >= need
      ensures !ok ==> |buf| - pos < need && buf[pos..] == Ahead()
    {
      while |buf| - pos < need
        invariant Valid() && Ahead() == old(Ahead())
        decreases |chunks|
      {
        if |chunks| == 0 { return false; }
        var chunk := chunks[0];
        chunks := chunks[1..];
        assert buf[pos..] + (chunk + Concat(chunks)) == (buf[pos..] + chunk) + Concat(chunks);
        assert (buf + chunk)[pos..] == buf[pos..] + chunk;
        if pos > MAX_RECORD_BYTES {
          buf := buf[pos..];
          pos := 0;
        }
        buf := buf + chunk;
      }
      return true;
    }

    method Take(n: nat) returns (out: bytes)
      requires Valid() && n <= |buf| - pos
      modifies this`pos
      ensures Valid() && out == old(Ahead())[..n] && Ahead() == old(Ahead())[n..]
      ensures |buf| - pos == old(|buf| - pos) - n
    {
      out := buf[pos..pos + n];
      assert buf[pos..] == out + buf[pos + n..];
      pos := pos + n;
    }

    method GlobalHeader() returns (h: Header)
      requires Valid()
      modifies this
      ensures Valid()
      ensures |old(Ahead())| < GLOBAL_HEADER_LEN ==> h == BadHeader(TooShort)
      ensures |old(Ahead())| >= GLOBAL_HEADER_LEN ==>
                h == ReadHeader(old(Ahead())[..GLOBAL_HEADER_LEN]) && Ahead() == old(Ahead())[GLOBAL_HEADER_LEN..]
    {
      var ok := Fill(GLOBAL_HEADER_LEN);
      if !ok { return BadHeader(TooShort); }
      var raw := Take(GLOBAL_HEADER_LEN);
      h := ReadHeader(raw);
    }

    /** One turn of `records()`. */
    method NextRecord(e: Endian) returns (r: Next)
      requires Valid()
      modifies this
      ensures Valid() && r == NextOf(old(Ahead()), e)
      ensures r.Got? ==> Ahead() == old(Ahead())[r.used..]
      ensures r.End? ==> Ahead() == old(Ahead())
    {
      ghost var s := Ahead();
      var ok := Fill(RECORD_HEADER_LEN);
      if !ok { return if |buf| > pos then Broken(CutHeader) else End; }
      var header := Take(RECORD_HEADER_LEN);
      var length := Included(header, e);
      if length > MAX_RECORD_BYTES { return Broken(NotARecord); }
      ok := Fill(length);
      if !ok { return Broken(CutRecord); }
      var data := Take(length);
      assert data == s[RECORD_HEADER_LEN..RECORD_HEADER_LEN + length];
      assert s[RECORD_HEADER_LEN..][length..] == s[RECORD_HEADER_LEN + length..];
      return Got(Record(header, data), RECORD_HEADER_LEN + length);
    }
  }

  // --- writing records back -----------------------------------------------------------------------

  /** The record written for `data`: the same header with a new included length. */
  function Rewrite(record: Record, data: bytes, e: Endian): Record
    requires |record.header| == RECORD_HEADER_LEN
  {
    Record(record.header[..8] + ToBytes(|data|, e) + record.header[12..], data)
  }

  function Written(records: seq<Record>): bytes {
    if |records| == 0 then [] else records[0].header + records[0].data + Written(records[1..])
  }

  lemma {:induction false} WrittenSnoc(records: seq<Record>, r: Record)
    ensures Written(records + [r]) == Written(records) + (r.header + r.data)
  {
    if |records| == 0 {
      assert records + [r] == [r] && Written([r]) == r.header + r.data + Written([]);
    } else {
      assert (records + [r])[1..] == records[1..] + [r];
      WrittenSnoc(records[1..], r);
    }
  }

  predicate WellFormed(r: Record, e: Endian) {
    |r.header| == RECORD_HEADER_LEN && |r.data| <= MAX_RECORD_BYTES && Included(r.header, e) == |r.data|
  }

  lemma RewriteIsWellFormed(record: Record, data: bytes, e: Endian)
    requires |record.header| == RECORD_HEADER_LEN && |data| <= MAX_RECORD_BYTES
    ensures var r := Rewrite(record, data, e);
            && WellFormed(r, e) && r.data == data
            && r.header[..8] == record.header[..8] && r.header[12..] == record.header[12..]
  {
    ToBytesReads(|data|, e);
    assert Rewrite(record, data, e).header[8..12] == ToBytes(|data|, e);
  }

  /** Written records read back as themselves. */
  lemma {:induction false} WrittenReads(records: seq<Record>, e: Endian)
    requires forall i :: 0 <= i < |records| ==> WellFormed(records[i], e)
    ensures RecordsOf(Written(records), e) == Records(records, AtEnd)
  {
    if |records| > 0 {
      var r, rest := records[0], Written(records[1..]);
      var s := Written(records);
      assert s[..RECORD_HEADER_LEN] == r.header;
      assert s[RECORD_HEADER_LEN..RECORD_HEADER_LEN + |r.data|] == r.data;
      assert s[RECORD_HEADER_LEN + |r.data|..] == rest;
      WrittenReads(records[1..], e);
      assert [r] + records[1..] == records;
    }
  }

  lemma {:induction false} ReadRecordsAreWellFormed(s: bytes, e: Endian, i: nat)
    requires i < |RecordsOf(s, e).records|
    ensures WellFormed(RecordsOf(s, e).records[i], e)
    decreases |s|
  {
    hide NextOf;
    var next := NextOf(s, e);
    if i > 0 { ReadRecordsAreWellFormed(s[next.used..], e, i - 1); }
  }
}
