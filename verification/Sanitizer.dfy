/**
 * The whole sanitize (backend/sanitizer.py): the capture reader and tshark's packets kept in
 * step by frame number, each frame rewritten, each record written back.
 */
module Sanitizer {
  import opened Bytes
  import opened Framewalk
  import opened Anonymize
  import opened Rewriter
  import opened Pcap
  import opened Optional

  /** What tshark's output holds, in order; an unreadable item ends the run. */
  datatype Item = Reported(number: int, packet: Packet) | Unnumbered | Unreadable

  /** Frame numbers strictly increasing within 1..n, every item readable. */
  ghost predicate InStep(items: seq<Item>, n: int) {
    && (forall k :: 0 <= k < |items| ==> items[k].Reported? && 1 <= items[k].number <= n)
    && forall j, k :: 0 <= j < k < |items| ==> items[j].number < items[k].number
  }

  /** The packet tshark reported for a frame. */
  function PacketOf(items: seq<Item>, index: int): Option<Packet> {
    if |items| == 0 then None
    else if items[0].Reported? && items[0].number == index then Some(items[0].packet)
    else PacketOf(items[1..], index)
  }

  lemma {:induction false} PacketOfIs(items: seq<Item>, index: int, k: nat)
    requires k < |items| && items[k].Reported? && items[k].number == index
    requires forall j :: 0 <= j < k ==> items[j].Reported? && items[j].number != index
    ensures PacketOf(items, index) == Some(items[k].packet)
  {
    if k > 0 { PacketOfIs(items[1..], index, k - 1); }
  }

  lemma {:induction false} PacketOfNone(items: seq<Item>, index: int)
    requires forall j :: 0 <= j < |items| ==> items[j].Reported? && items[j].number != index
    ensures PacketOf(items, index) == None
  {
    if |items| > 0 { PacketOfNone(items[1..], index); }
  }

  class TsharkPass {
    const reported: seq<Item>
    const toolOk: bool
    var next: nat
    var pending: Option<(int, Packet)>
    var exhausted: bool
    ghost var asked: nat

    constructor (reported: seq<Item>, toolOk: bool)
      ensures Valid() && asked == 0 && this.reported == reported && this.toolOk == toolOk
    {
      this.reported, this.toolOk := reported, toolOk;
      next, pending, exhausted, asked := 0, None, false, 0;
    }

    /** How many items have been handed to their records. */
    ghost function Given(): nat
      reads this
    {
      if pending.Some? && next > 0 then next - 1 else next
    }

    ghost predicate Valid()
      reads this
    {
      && next <= |reported| && (pending.Some? ==> next > 0)
      && (exhausted ==> next == |reported| && pending == None)
      && InStep(reported[..Given()], asked)
      && (pending.Some? ==> reported[next - 1] == Reported(pending.value.0, pending.value.1) && asked < pending.value.0)
      // The next item is fetched as soon as the frame after the last one given is asked for.
      && (pending == None && !exhausted ==> asked == if next == 0 then 0 else reported[next - 1].number)
    }

    method Advance() returns (ok: bool)
      requires next <= |reported| && pending == None
      modifies this`next, this`pending, this`exhausted
      ensures ok && old(next) == |reported| ==> exhausted && pending == None && next == old(next)
      ensures ok && old(next) < |reported| ==>
                && exhausted == old(exhausted) && next == old(next) + 1
                && pending.Some? && reported[old(next)] == Reported(pending.value.0, pending.value.1)
      ensures !ok ==> old(next) < |reported| && !reported[old(next)].Reported?
    {
      if next == |reported| {
        exhausted := true;
        return true;
      }
      var item := reported[next];
      next := next + 1;
      if !item.Reported? { return false; }
      pending := Some((item.number, item.packet));
      return true;
    }

    /** `packet_for`: is this frame yours? */
    method PacketFor(index: nat) returns (ok: bool, packet: Option<Packet>)
      requires Valid() && index == asked + 1
      modifies this
      ensures ok ==> Valid() && asked == index && old(Given()) <= Given()
      ensures ok && packet.Some? ==>
                && Given() == old(Given()) + 1
                && reported[old(Given())] == Reported(index, packet.value)
      ensures ok && packet.None? ==> Given() == old(Given())
      ensures !ok ==> forall n :: !InStep(reported, n)
    {
      ghost var given := Given();
      if pending.None? && !exhausted {
        ok := Advance();
        if !ok { NotInStep(reported, given); return false, None; }
      }
      if pending.None? {
        asked := index;
        InStepLonger(reported[..given], asked - 1, asked);
        return true, None;
      }
      var number := pending.value.0;
      if number < index {
        StaleNumber(reported, next - 1, asked);
        return false, None;
      }
      if number > index {
        asked := index;
        InStepLonger(reported[..given], asked - 1, asked);
        return true, None;
      }
      packet := Some(pending.value.1);
      pending := None;
      asked := index;
      assert reported[..next] == reported[..given] + [reported[given]];
      return true, packet;
    }

    /** `finish`: nothing may be left over on tshark's side, and its process must report success. */
    method Finish() returns (ok: bool)
      requires Valid()
      modifies this
      ensures ok <==> InStep(reported, old(asked)) && toolOk
      ensures ok ==> old(Given()) == |reported|
    {
      ghost var given := Given();
      if pending.None? && !exhausted {
        ok := Advance();
        if !ok { NotInStep(reported, given); return false; }
      }
      if pending.Some? {
        BeyondTheEnd(reported, next - 1, asked, given);
        return false;
      }
      assert reported[..|reported|] == reported;
      return toolOk;
    }
  }

  lemma NotInStep(items: seq<Item>, k: nat)
    requires k < |items| && !items[k].Reported?
    ensures forall n :: !InStep(items, n)
  {
  }

  lemma InStepLonger(items: seq<Item>, n: int, m: int)
    requires InStep(items, n) && n <= m
    ensures InStep(items, m)
  {
  }

  /** A number no greater than the last frame given cannot be in step. */
  lemma StaleNumber(items: seq<Item>, k: nat, asked: nat)
    requires k < |items| && items[k].Reported? && items[k].number <= asked
    requires asked == if k == 0 then 0 else (if items[k - 1].Reported? then items[k - 1].number else 0)
    ensures forall n :: !InStep(items, n)
  {
  }

  lemma BeyondTheEnd(items: seq<Item>, k: nat, asked: nat, given: nat)
    requires k < |items| && items[k].Reported?
    requires items[k].number > asked
             || asked == if k == 0 then 0 else (if items[k - 1].Reported? then items[k - 1].number else 0)
    ensures !InStep(items, asked)
  {
  }

  // --- one record after another -----------------------------------------------------------------

  datatype Job = Job(secrets: Secrets, keep: Keep, options: Options)

  /** The packet for a frame; without a tshark pass there is none. */
  function PacketAt(items: Option<seq<Item>>, index: int): Option<Packet> {
    if items.None? then None else PacketOf(items.value, index)
  }

  function SanitizedData(job: Job, linktype: int, data: bytes, packet: Option<Packet>): Option<bytes> {
    Rewritten(job.secrets, job.keep, job.options, linktype, data, packet)
  }

  /** `r` is what record `i` becomes. */
  predicate Becomes(job: Job, h: Header, record: Record, packet: Option<Packet>, r: Record)
    requires h.Header?
  {
    && |record.header| == RECORD_HEADER_LEN
    && SanitizedData(job, h.linktype, record.data, packet).Some?
    && r == Rewrite(record, SanitizedData(job, h.linktype, record.data, packet).value, h.endian)
  }

  /** Everything about a capture and a tshark run that a sanitize can trip over. */
  ghost predicate Sanitizable(file: bytes, items: Option<seq<Item>>, toolOk: bool) {
    && |file| >= GLOBAL_HEADER_LEN && ReadHeader(file[..GLOBAL_HEADER_LEN]).Header?
    && var h := ReadHeader(file[..GLOBAL_HEADER_LEN]);
       var all := RecordsOf(file[GLOBAL_HEADER_LEN..], h.endian);
       && all.stop == AtEnd
       && (items.Some? ==> InStep(items.value, |all.records|) && toolOk)
       && forall i :: 0 <= i < |all.records| ==> !Disagrees(all.records[i].data, PacketAt(items, i + 1))
  }

  lemma {:induction false} PacketOfPrefix(items: seq<Item>, n: nat, index: int)
    requires n <= |items|
    ensures PacketOf(items[..n], index).Some? ==> PacketOf(items, index) == PacketOf(items[..n], index)
  {
    if n > 0 {
      assert items[..n][1..] == items[1..][..n - 1];
      PacketOfPrefix(items[1..], n - 1, index);
    }
  }

  /** Giving the next item changes what is known only about its own frame. */
  lemma GivenOne(items: seq<Item>, given: nat, index: int, last: nat)
    requires given < |items| && InStep(items[..given], last) && last < index
    requires items[given].Reported? && items[given].number == index
    ensures PacketOf(items[..given + 1], index) == Some(items[given].packet)
    ensures forall i :: i != index ==> PacketOf(items[..given + 1], i) == PacketOf(items[..given], i)
  {
    PacketOfIs(items[..given + 1], index, given);
    forall i | i != index
      ensures PacketOf(items[..given + 1], i) == PacketOf(items[..given], i)
    {
      assert items[..given + 1] == items[..given] + [items[given]];
      PacketOfSnoc(items[..given], items[given], i);
    }
  }

  lemma {:induction false} PacketOfSnoc(items: seq<Item>, item: Item, i: int)
    requires item.Reported? && item.number != i
    ensures PacketOf(items + [item], i) == PacketOf(items, i)
  {
    if |items| > 0 {
      assert (items + [item])[1..] == items[1..] + [item];
      PacketOfSnoc(items[1..], item, i);
    }
  }

  lemma NoneGiven(items: seq<Item>, last: nat, index: int)
    requires InStep(items, last) && last < index
    ensures PacketOf(items, index) == None
  {
    PacketOfNone(items, index);
  }

  /** One frame's packet, and what is known afterwards about every frame asked for so far. */
  method AskFor(pass: TsharkPass, index: nat) returns (ok: bool, packet: Option<Packet>)
    requires pass.Valid() && index == pass.asked + 1
    modifies pass
    ensures ok ==> pass.Valid() && pass.asked == index
    ensures ok ==> packet == PacketOf(pass.reported[..pass.Given()], index)
    ensures ok ==> forall i :: 0 <= i < index ==>
              PacketOf(pass.reported[..pass.Given()], i) == old(PacketOf(pass.reported[..pass.Given()], i))
    ensures !ok ==> forall n :: !InStep(pass.reported, n)
  {
    ghost var given, last := pass.Given(), pass.asked;
    assert InStep(pass.reported[..given], last);
    ok, packet := pass.PacketFor(index);
    if ok {
      if packet.Some? {
        GivenOne(pass.reported, given, index, last);
      } else {
        NoneGiven(pass.reported[..given], last, index);
      }
    }
  }

  // --- the stream -------------------------------------------------------------------------------------

  /** `front` has been read off `s`, and `rest` is what is left. */
  ghost predicate ReadSoFar(s: bytes, e: Endian, front: seq<Record>, rest: bytes) {
    RecordsOf(s, e) == Records(front + RecordsOf(rest, e).records, RecordsOf(rest, e).stop)
  }

  lemma ReadOneMore(s: bytes, e: Endian, front: seq<Record>, rest: bytes)
    requires ReadSoFar(s, e, front, rest) && NextOf(rest, e).Got?
    ensures ReadSoFar(s, e, front + [NextOf(rest, e).record], rest[NextOf(rest, e).used..])
    ensures |front| < |RecordsOf(s, e).records| && RecordsOf(s, e).records[|front|] == NextOf(rest, e).record
  {
    var record, used := NextOf(rest, e).record, NextOf(rest, e).used;
    var later := RecordsOf(rest[used..], e).records;
    assert front + ([record] + later) == (front + [record]) + later;
  }

  lemma ReadToTheEnd(s: bytes, e: Endian, front: seq<Record>, rest: bytes)
    requires ReadSoFar(s, e, front, rest) && !NextOf(rest, e).Got?
    ensures RecordsOf(s, e).records == front
    ensures RecordsOf(s, e).stop == if NextOf(rest, e).End? then AtEnd else Bad(NextOf(rest, e).why)
  {
    assert front + [] == front;
  }

  /** The records written so far, and the packets each was written with. */
  ghost predicate WrittenSoFar(job: Job, h: Header, front: seq<Record>, used: seq<Option<Packet>>, written: seq<Record>)
    requires h.Header?
  {
    && |used| == |front| == |written|
    && forall i :: 0 <= i < |front| ==> Becomes(job, h, front[i], used[i], written[i])
  }

  /** What the first `given` items say about each of the first frames. */
  ghost predicate UsedFrom(items: Option<seq<Item>>, given: nat, used: seq<Option<Packet>>) {
    && (items.Some? ==> given <= |items.value|)
    && forall i :: 0 <= i < |used| ==>
      used[i] == if items.None? then None else PacketOf(items.value[..given], i + 1)
  }

  /** One record: its packet asked for, its frame rewritten. */
  method SanitizeRecord(rewriter: FrameRewriter, tshark: TsharkPass?, ghost items: Option<seq<Item>>, record: Record,
                        index: nat, ghost used: seq<Option<Packet>>)
    returns (ok: bool, data: bytes, packet: Option<Packet>)
    requires rewriter.Valid() && rewriter.linktype in LINKTYPES && |used| + 1 == index
    requires tshark == null <==> items.None?
    requires tshark != null ==> tshark.Valid() && tshark.asked + 1 == index && Some(tshark.reported) == items
    requires UsedFrom(items, if tshark == null then 0 else tshark.Given(), used)
    modifies rewriter.mapper, tshark
    ensures rewriter.Valid()
    ensures ok ==> tshark != null ==> tshark.Valid() && tshark.asked == index
    ensures ok ==> UsedFrom(items, if tshark == null then 0 else tshark.Given(), used + [packet])
    ensures ok ==> Rewritten(rewriter.mapper.secrets, rewriter.mapper.keep, rewriter.options, rewriter.linktype,
                             record.data, packet) == Some(data)
    ensures !ok ==> (items.Some? && forall n :: !InStep(items.value, n))
                    || Disagrees(record.data, PacketAt(items, index))
  {
    hide Rewritten, AddressMapper.Valid;
    packet := None;
    data := [];
    if tshark != null {
      ok, packet := AskFor(tshark, index);
      if !ok { return; }
      PacketOfPrefix(tshark.reported, tshark.Given(), index);
    }
    var r := rewriter.Rewrite(record.data, packet);
    RewriteFailsOnlyOnDisagreement(rewriter.mapper.secrets, rewriter.mapper.keep, rewriter.options, rewriter.linktype,
                                   record.data, packet);
    if r.None? { return false, [], packet; }
    return true, r.value, packet;
  }

  lemma RewriteFailsOnlyOnDisagreement(s: Secrets, keep: Keep, o: Options, linktype: int, frame: bytes,
                                       packet: Option<Packet>)
    ensures Rewritten(s, keep, o, linktype, frame, packet).None? <==> Disagrees(frame, packet)
  {
  }

  lemma NothingRead(body: bytes, e: Endian)
    ensures ReadSoFar(body, e, [], body)
  {
    assert [] + RecordsOf(body, e).records == RecordsOf(body, e).records;
  }

  lemma NextIsShorter(s: bytes, e: Endian)
    ensures NextOf(s, e).Got? ==>
              && 0 < NextOf(s, e).used <= |s| && |NextOf(s, e).record.header| == RECORD_HEADER_LEN
              && |NextOf(s, e).record.data| <= MAX_RECORD_BYTES
  {
  }

  lemma OneMoreBecomes(job: Job, h: Header, record: Record, packet: Option<Packet>, data: bytes)
    requires h.Header? && |record.header| == RECORD_HEADER_LEN
    requires SanitizedData(job, h.linktype, record.data, packet) == Some(data)
    ensures Becomes(job, h, record, packet, Rewrite(record, data, h.endian))
    ensures !Disagrees(record.data, packet)
  {
  }

  /** The output is the header and, for every record, what it becomes. */
  ghost predicate IsSanitized(job: Job, file: bytes, items: Option<seq<Item>>, out: bytes, written: seq<Record>) {
    && |file| >= GLOBAL_HEADER_LEN && ReadHeader(file[..GLOBAL_HEADER_LEN]).Header?
    && var h := ReadHeader(file[..GLOBAL_HEADER_LEN]);
       var records := RecordsOf(file[GLOBAL_HEADER_LEN..], h.endian).records;
       && |written| == |records|
       && (forall i :: 0 <= i < |records| ==> Becomes(job, h, records[i], PacketAt(items, i + 1), written[i]))
       && out == h.raw + Written(written)
  }

  /** Why the records loop gave up. */
  ghost predicate Stuck(body: bytes, e: Endian, items: Option<seq<Item>>) {
    || RecordsOf(body, e).stop != AtEnd
    || (items.Some? && forall n :: !InStep(items.value, n))
    || exists i :: 0 <= i < |RecordsOf(body, e).records|
                   && Disagrees(RecordsOf(body, e).records[i].data, PacketAt(items, i + 1))
  }

  /** The reader, the rewriter and the tshark pass as they stand after the records in `front`. */
  ghost predicate Going(job: Job, h: Header, body: bytes, items: Option<seq<Item>>, reader: PcapReader,
                        rewriter: FrameRewriter, tshark: TsharkPass?, front: seq<Record>, used: seq<Option<Packet>>)
    requires h.Header?
    reads reader, rewriter, rewriter.mapper, tshark
  {
    && reader.Valid() && rewriter.Valid() && rewriter.linktype == h.linktype && rewriter.options == job.options
    && rewriter.mapper.secrets == job.secrets && rewriter.mapper.keep == job.keep
    && (tshark == null <==> items.None?)
    && (tshark != null ==> tshark.Valid() && tshark.asked == |front| && Some(tshark.reported) == items)
    && ReadSoFar(body, h.endian, front, reader.Ahead())
    && |used| == |front| && UsedFrom(items, if tshark == null then 0 else tshark.Given(), used)
  }

  /** One turn of the records loop: the next record and what it becomes, or the end, or a failure. */
  method SanitizeNext(job: Job, h: Header, reader: PcapReader, rewriter: FrameRewriter, tshark: TsharkPass?,
                      ghost items: Option<seq<Item>>, ghost body: bytes,
                      ghost front: seq<Record>, ghost used: seq<Option<Packet>>, index: nat)
    returns (next: Next, ok: bool, data: bytes, ghost packet: Option<Packet>)
    requires h.Header? && h.linktype in LINKTYPES && index == |front| + 1
    requires Going(job, h, body, items, reader, rewriter, tshark, front, used)
    modifies reader, rewriter.mapper, tshark
    ensures !ok ==> Stuck(body, h.endian, items)
    ensures ok ==> !next.Broken?
    ensures ok && next.End? ==>
              RecordsOf(body, h.endian) == Records(front, AtEnd)
              && Going(job, h, body, items, reader, rewriter, tshark, front, used)
    ensures ok && next.Got? ==>
              && |next.record.header| == RECORD_HEADER_LEN
              && Remaining(reader) < old(Remaining(reader))
              && SanitizedData(job, h.linktype, next.record.data, packet) == Some(data)
              && Going(job, h, body, items, reader, rewriter, tshark, front + [next.record], used + [packet])
  {
    hide RecordsOf, NextOf, InStep, Disagrees, ReadSoFar, UsedFrom, Stuck, Rewritten, AddressMapper.Valid,
      TsharkPass.Given;
    ghost var rest := reader.Ahead();
    data, packet := [], None;
    next := reader.NextRecord(h.endian);
    NextIsShorter(rest, h.endian);
    if !next.Got? {
      ReadToTheEnd(body, h.endian, front, rest);
      ok := next.End?;
      if !ok { StuckReading(body, h.endian, items); } else { EmptyRest(rest, h.endian); }
      return;
    }
    ReadOneMore(body, h.endian, front, rest);
    ok, data, packet := SanitizeRecord(rewriter, tshark, items, next.record, index, used);
    if !ok {
      StuckAt(body, h.endian, items, index - 1);
    }
  }

  /** Every record in turn, until the capture ends or something does not fit. */
  method SanitizeRecords(job: Job, h: Header, reader: PcapReader, rewriter: FrameRewriter, tshark: TsharkPass?,
                         ghost items: Option<seq<Item>>, ghost body: bytes)
    returns (ok: bool, out: bytes, ghost front: seq<Record>, ghost used: seq<Option<Packet>>,
             ghost written: seq<Record>)
    requires h.Header? && h.linktype in LINKTYPES
    requires Going(job, h, body, items, reader, rewriter, tshark, [], [])
    modifies reader, rewriter.mapper, tshark
    ensures !ok ==> Stuck(body, h.endian, items)
    ensures ok ==> RecordsOf(body, h.endian) == Records(front, AtEnd)
    ensures ok ==> Going(job, h, body, items, reader, rewriter, tshark, front, used)
    ensures ok ==> WrittenSoFar(job, h, front, used, written) && out == h.raw + Written(written)
  {
    hide RecordsOf, Becomes, Rewrite, Written, Stuck, Going, SanitizedData, Remaining;
    front, used, written := [], [], [];
    out := h.raw;
    NothingWritten(h.raw);
    var index := 0;
    while true
      invariant index == |front|
      invariant Going(job, h, body, items, reader, rewriter, tshark, front, used)
      invariant WrittenSoFar(job, h, front, used, written) && out == h.raw + Written(written)
      decreases Remaining(reader)
    {
      index := index + 1;
      var next, data;
      ghost var packet;
      next, ok, data, packet := SanitizeNext(job, h, reader, rewriter, tshark, items, body, front, used, index);
      if !ok || next.End? { return; }
      var one := Rewrite(next.record, data, h.endian);
      WrittenOneMore(h.raw, written, one);
      OneMoreBecomes(job, h, next.record, packet, data);
      out := out + (one.header + one.data);
      front, used, written := front + [next.record], used + [packet], written + [one];
    }
  }

  ghost function Remaining(reader: PcapReader): nat
    reads reader
  {
    if reader.Valid() then |reader.Ahead()| else 0
  }

  lemma EmptyRest(rest: bytes, e: Endian)
    requires NextOf(rest, e).End?
    ensures rest == []
  {
  }

  lemma NothingWritten(raw: bytes)
    ensures raw == raw + Written([])
  {
  }

  lemma WrittenOneMore(raw: bytes, written: seq<Record>, one: Record)
    ensures (raw + Written(written)) + (one.header + one.data) == raw + Written(written + [one])
  {
    WrittenSnoc(written, one);
  }

  lemma StuckReading(body: bytes, e: Endian, items: Option<seq<Item>>)
    requires RecordsOf(body, e).stop != AtEnd
    ensures Stuck(body, e, items)
  {
  }

  lemma StuckAt(body: bytes, e: Endian, items: Option<seq<Item>>, i: nat)
    requires i < |RecordsOf(body, e).records|
    requires (items.Some? && forall n :: !InStep(items.value, n))
             || Disagrees(RecordsOf(body, e).records[i].data, PacketAt(items, i + 1))
    ensures Stuck(body, e, items)
  {
  }

  lemma StuckIsNotSanitizable(file: bytes, items: Option<seq<Item>>, toolOk: bool)
    requires |file| >= GLOBAL_HEADER_LEN && ReadHeader(file[..GLOBAL_HEADER_LEN]).Header?
    requires Stuck(file[GLOBAL_HEADER_LEN..], ReadHeader(file[..GLOBAL_HEADER_LEN]).endian, items)
    ensures !Sanitizable(file, items, toolOk)
  {
  }

  lemma AllSanitized(job: Job, file: bytes, items: Option<seq<Item>>, toolOk: bool, out: bytes, front: seq<Record>,
                     used: seq<Option<Packet>>, written: seq<Record>)
    requires |file| >= GLOBAL_HEADER_LEN && ReadHeader(file[..GLOBAL_HEADER_LEN]).Header?
    requires var h := ReadHeader(file[..GLOBAL_HEADER_LEN]);
             && RecordsOf(file[GLOBAL_HEADER_LEN..], h.endian) == Records(front, AtEnd)
             && WrittenSoFar(job, h, front, used, written) && out == h.raw + Written(written)
    requires items.Some? ==> InStep(items.value, |front|) && toolOk
    requires UsedFrom(items, if items.None? then 0 else |items.value|, used)
    ensures Sanitizable(file, items, toolOk) && IsSanitized(job, file, items, out, written)
  {
    hide Written, Rewrite, RecordsOf, InStep, Disagrees, ReadHeader;
    assert items.Some? ==> items.value[..|items.value|] == items.value;
    forall i | 0 <= i < |front|
      ensures used[i] == PacketAt(items, i + 1) && !Disagrees(front[i].data, PacketAt(items, i + 1))
    {
      BecomesAgrees(job, ReadHeader(file[..GLOBAL_HEADER_LEN]), front[i], used[i], written[i]);
    }
  }

  lemma BecomesAgrees(job: Job, h: Header, record: Record, packet: Option<Packet>, r: Record)
    requires h.Header? && Becomes(job, h, record, packet, r)
    ensures !Disagrees(record.data, packet)
  {
  }

  /**
   * `stream_sanitized_pcap`: it finishes exactly when the capture is whole, tshark's frame
   * numbers are strictly increasing within the capture's, and no packet disagrees with its
   * frame; and then each record is its own frame rewritten with its own packet, in order.
   */
  method StreamSanitized(job: Job, chunks: seq<bytes>, items: Option<seq<Item>>, toolOk: bool)
    returns (ok: bool, out: bytes, ghost written: seq<Record>)
    ensures ok <==> Sanitizable(Concat(chunks), items, toolOk)
    ensures ok ==> IsSanitized(job, Concat(chunks), items, out, written)
  {
    hide RecordsOf, InStep, Concat, AddressMapper.Valid, WrittenSoFar, Stuck, IsSanitized, Written;
    ghost var file := Concat(chunks);
    out, written := [], [];
    var reader := new PcapReader(chunks);
    var h := reader.GlobalHeader();
    if h.BadHeader? { return false, out, written; }
    ghost var body := reader.Ahead();
    var rewriter := new FrameRewriter(job.secrets, job.keep, job.options, h.linktype);
    var tshark: TsharkPass? := null;
    if items.Some? { tshark := new TsharkPass(items.value, toolOk); }
    NothingRead(body, h.endian);
    ghost var front, used;
    ok, out, front, used, written := SanitizeRecords(job, h, reader, rewriter, tshark, items, body);
    if !ok {
      StuckIsNotSanitizable(file, items, toolOk);
      return;
    }
    if tshark != null {
      ok := tshark.Finish();
      if !ok { return; }
    }
    AllSanitized(job, file, items, toolOk, out, front, used, written);
  }

  /** What a reader of the output sees of one record. */
  predicate Kept(job: Job, h: Header, before: Record, after: Record)
    requires h.Header?
  {
    && |before.header| == RECORD_HEADER_LEN && WellFormed(after, h.endian)
    && after.header[..8] == before.header[..8] && after.header[12..] == before.header[12..]
    && |after.data| <= |before.data| && (!job.options.stripPayload ==> |after.data| == |before.data|)
  }

  lemma BecomesKept(job: Job, h: Header, record: Record, packet: Option<Packet>, r: Record)
    requires h.Header? && Becomes(job, h, record, packet, r) && WellFormed(record, h.endian)
    ensures Kept(job, h, record, r)
  {
    hide Rewritten;
    var data := SanitizedData(job, h.linktype, record.data, packet).value;
    RewrittenLength(job, h.linktype, record.data, packet);
    RewriteIsWellFormed(record, data, h.endian);
  }

  lemma RewrittenLength(job: Job, linktype: int, data: bytes, packet: Option<Packet>)
    requires SanitizedData(job, linktype, data, packet).Some?
    ensures var r := SanitizedData(job, linktype, data, packet).value;
            |r| <= |data| && (!job.options.stripPayload ==> |r| == |data|)
  {
  }

  /**
   * The sanitized file is a capture of its own: the same global header, and one record for
   * each of the original's, in order, with its timestamp and original-length bytes, and an
   * included length that is the length of its data.
   */
  lemma SanitizedReadsBack(job: Job, file: bytes, items: Option<seq<Item>>, out: bytes, written: seq<Record>)
    requires IsSanitized(job, file, items, out, written)
    ensures |out| >= GLOBAL_HEADER_LEN && out[..GLOBAL_HEADER_LEN] == file[..GLOBAL_HEADER_LEN]
    ensures var h := ReadHeader(file[..GLOBAL_HEADER_LEN]);
            var records := RecordsOf(file[GLOBAL_HEADER_LEN..], h.endian).records;
            && RecordsOf(out[GLOBAL_HEADER_LEN..], h.endian) == Records(written, AtEnd)
            && |written| == |records|
            && forall i :: 0 <= i < |records| ==> Kept(job, h, records[i], written[i])
  {
    var h := ReadHeader(file[..GLOBAL_HEADER_LEN]);
    var body := file[GLOBAL_HEADER_LEN..];
    assert out[..GLOBAL_HEADER_LEN] == h.raw && out[GLOBAL_HEADER_LEN..] == Written(written);
    hide RecordsOf, Becomes, Kept, Written, ReadHeader;
    forall i | 0 <= i < |written|
      ensures Kept(job, h, RecordsOf(body, h.endian).records[i], written[i]) && WellFormed(written[i], h.endian)
    {
      ReadRecordsAreWellFormed(body, h.endian, i);
      BecomesKept(job, h, RecordsOf(body, h.endian).records[i], PacketAt(items, i + 1), written[i]);
      KeptIsWellFormed(job, h, RecordsOf(body, h.endian).records[i], written[i]);
    }
    WrittenReads(written, h.endian);
  }

  lemma KeptIsWellFormed(job: Job, h: Header, before: Record, after: Record)
    requires h.Header? && Kept(job, h, before, after)
    ensures WellFormed(after, h.endian)
  {
  }
}
