/**
 * Cutting tshark's JSON array into packets as it arrives (backend/sanitizer.py,
 * `_json_packets`), against cutting the whole stream at once.
 */
module JsonPackets {
  import opened Bytes

  // "\n  {" and "\n  }"
  const OPENING: bytes := [0x0A, 0x20, 0x20, 0x7B]
  const CLOSING: bytes := [0x0A, 0x20, 0x20, 0x7D]

  predicate At(s: bytes, marker: bytes, i: nat) { i + |marker| <= |s| && s[i..i + |marker|] == marker }

  /** `s.find(marker, from)`, with the length standing for "not found". */
  function Find(s: bytes, marker: bytes, from: nat): (i: nat)
    requires |marker| == 4
    ensures i <= |s| || i == from
    ensures i < |s| ==> from <= i && i + 4 <= |s| && At(s, marker, i)
    ensures forall k :: from <= k < |s| && At(s, marker, k) ==> i <= k
    decreases |s| - from
  {
    if from >= |s| then Max(from, |s|) else if At(s, marker, from) then from else Find(s, marker, from + 1)
  }

  predicate Found(s: bytes, marker: bytes, from: nat)
    requires |marker| == 4
  {
    Find(s, marker, from) < |s|
  }

  /** The packets of a stream, and whether it ends inside one. */
  datatype Cut = Cut(packets: seq<bytes>, inside: bool)

  function Then(packet: bytes, rest: Cut): Cut { Cut([packet] + rest.packets, rest.inside) }

  /** The whole stream cut on its markers: outside a packet, or inside one that has just opened. */
  function Outside(s: bytes): Cut
    decreases |s|, 0
  {
    if Found(s, OPENING, 0) then Inside(s[Find(s, OPENING, 0) + 3..]) else Cut([], false)
  }

  function Inside(s: bytes): Cut
    decreases |s|, 1
  {
    if Found(s, CLOSING, 0) then
      var end := Find(s, CLOSING, 0) + 4;
      Then(s[..end], Outside(s[end..]))
    else Cut([], true)
  }

  // --- searching in pieces -------------------------------------------------------------------

  lemma AtTail(s: bytes, marker: bytes, drop: nat, i: nat)
    requires drop <= |s|
    ensures At(s[drop..], marker, i) <==> At(s, marker, drop + i)
  {
    if drop + i + |marker| <= |s| {
      assert s[drop..][i..i + |marker|] == s[drop + i..drop + i + |marker|];
    }
  }

  lemma AtFront(s: bytes, more: bytes, marker: bytes, i: nat)
    requires i + |marker| <= |s|
    ensures At(s + more, marker, i) <==> At(s, marker, i)
  {
    assert (s + more)[i..i + |marker|] == s[i..i + |marker|];
  }

  /** The first match is what it is: the least position at which the marker stands. */
  lemma FindIs(s: bytes, marker: bytes, from: nat, i: nat)
    requires |marker| == 4 && from <= i && At(s, marker, i)
    requires forall k :: from <= k < i ==> !At(s, marker, k)
    ensures Find(s, marker, from) == i
  {
  }

  /** A match seen in the part that has arrived is the match in the whole stream. */
  lemma FoundStays(s: bytes, more: bytes, marker: bytes)
    requires |marker| == 4 && Found(s, marker, 0)
    ensures Find(s + more, marker, 0) == Find(s, marker, 0)
  {
    var i := Find(s, marker, 0);
    AtFront(s, more, marker, i);
    forall k | 0 <= k < i
      ensures !At(s + more, marker, k)
    {
      AtFront(s, more, marker, k);
    }
    FindIs(s + more, marker, 0, i);
  }

  /** Searching from `from` is searching what is left after dropping that much. */
  lemma FindInTail(s: bytes, marker: bytes, from: nat)
    requires |marker| == 4 && from <= |s|
    ensures Find(s[from..], marker, 0) + from == Find(s, marker, from)
    ensures Found(s[from..], marker, 0) <==> Found(s, marker, from)
  {
    hide At;
    var t := s[from..];
    if Found(t, marker, 0) {
      var i := Find(t, marker, 0);
      AtTail(s, marker, from, i);
      forall k | from <= k < from + i
        ensures !At(s, marker, k)
      {
        AtTail(s, marker, from, k - from);
      }
      FindIs(s, marker, from, from + i);
    } else if Found(s, marker, from) {
      AtTail(s, marker, from, Find(s, marker, from) - from);
    }
  }

  /** Bytes in which no opening marker can start may be dropped: the cut does not change. */
  lemma DropBeforeOpening(s: bytes, drop: nat)
    requires drop <= |s|
    requires forall k :: 0 <= k < drop ==> !At(s, OPENING, k)
    ensures Outside(s[drop..]) == Outside(s)
  {
    hide At, Find, Inside;
    var t := s[drop..];
    if Found(s, OPENING, 0) {
      var i := Find(s, OPENING, 0);
      AtTail(s, OPENING, drop, i - drop);
      forall k | 0 <= k < i - drop
        ensures !At(t, OPENING, k)
      {
        AtTail(s, OPENING, drop, k);
      }
      FindIs(t, OPENING, 0, i - drop);
      assert t[i - drop + 3..] == s[i + 3..];
    } else if Found(t, OPENING, 0) {
      AtTail(s, OPENING, drop, Find(t, OPENING, 0));
    }
  }

  // --- the reading loop ------------------------------------------------------------------------

  datatype End = Complete | EndedInside | TooLarge

  function Join(front: seq<bytes>, rest: Cut): Cut { Cut(front + rest.packets, rest.inside) }

  /** What is still to come: the buffer and the reads after it, outside a packet or inside one. */
  function Rest(inPacket: bool, bytes': bytes): Cut { if inPacket then Inside(bytes') else Outside(bytes') }

  lemma JoinThen(front: seq<bytes>, packet: bytes, rest: Cut)
    ensures Join(front, Then(packet, rest)) == Join(front + [packet], rest)
  {
  }

  /** Nothing but the last four bytes of what has arrived can belong to an opening marker. */
  lemma KeepFour(buf: bytes, scan: nat, more: bytes)
    requires scan <= |buf| && !Found(buf, OPENING, scan)
    ensures var keep := Max(scan, |buf| - 4);
            Outside(buf[keep..] + more) == Outside(buf[scan..] + more)
  {
    hide Outside, Found, At;
    var keep := Max(scan, |buf| - 4);
    var s := buf[scan..] + more;
    NoOpeningYet(buf, scan, more);
    DropBeforeOpening(s, keep - scan);
    assert s[keep - scan..] == buf[keep..] + more;
  }

  /** An opening that is not in the buffer starts, at the earliest, four bytes before its end. */
  lemma NoOpeningYet(buf: bytes, scan: nat, more: bytes)
    requires scan <= |buf| && !Found(buf, OPENING, scan)
    ensures forall k :: 0 <= k < Max(scan, |buf| - 4) - scan ==> !At(buf[scan..] + more, OPENING, k)
  {
    FindInTail(buf, OPENING, scan);
    forall k | 0 <= k < Max(scan, |buf| - 4) - scan
      ensures !At(buf[scan..] + more, OPENING, k)
    {
      AtFront(buf[scan..], more, OPENING, k);
    }
  }

  lemma OpeningArrived(buf: bytes, scan: nat, more: bytes)
    requires scan <= |buf| && Found(buf, OPENING, scan)
    ensures Outside(buf[scan..] + more) == Inside(buf[Find(buf, OPENING, scan) + 3..] + more)
  {
    hide Find, At, Inside;
    FindInTail(buf, OPENING, scan);
    FoundStays(buf[scan..], more, OPENING);
    var i := Find(buf, OPENING, scan);
    assert (buf[scan..] + more)[i - scan + 3..] == buf[i + 3..] + more;
  }

  lemma ClosingArrived(buf: bytes, start: nat, more: bytes)
    requires start <= |buf| && Found(buf, CLOSING, start)
    ensures var end := Find(buf, CLOSING, start) + 4;
            && end <= |buf|
            && Inside(buf[start..] + more) == Then(buf[start..end], Outside(buf[end..] + more))
  {
    hide Find, At, Outside;
    FindInTail(buf, CLOSING, start);
    FoundStays(buf[start..], more, CLOSING);
    var end := Find(buf, CLOSING, start) + 4;
    var s := buf[start..] + more;
    assert s[..end - start] == buf[start..end] && s[end - start..] == buf[end..] + more;
  }

  /** A packet still open after `buf` is longer than `buf`, or never closes. */
  lemma OpenPacketIsLonger(buf: bytes, more: bytes)
    requires !Found(buf, CLOSING, 0)
    ensures var rest := Inside(buf + more);
            (|rest.packets| == 0 && rest.inside) || (|rest.packets| > 0 && |rest.packets[0]| > |buf|)
  {
    var s := buf + more;
    if Found(s, CLOSING, 0) {
      var i := Find(s, CLOSING, 0);
      if i + 4 <= |buf| { AtFront(buf, more, CLOSING, i); }
    }
  }

  /** The marker that would end this state has not arrived. */
  predicate Waiting(inPacket: bool, buf: bytes) {
    if inPacket then !Found(buf, CLOSING, 0) else !Found(buf, OPENING, 0)
  }

  lemma StillWaiting(buf: bytes, scan: nat, keep: nat)
    requires scan <= keep <= |buf| && !Found(buf, OPENING, scan)
    ensures !Found(buf[keep..], OPENING, 0)
  {
    FindInTail(buf, OPENING, keep);
  }

  /** One pass over the buffer: every packet that has arrived whole. */
  method TakePackets(buf: bytes, inPacket: bool, packets: seq<bytes>, ghost more: bytes)
    returns (packets': seq<bytes>, rest: bytes, inPacket': bool)
    ensures Join(packets', Rest(inPacket', rest + more)) == Join(packets, Rest(inPacket, buf + more))
    ensures packets <= packets'
    ensures Waiting(inPacket', rest) && (!inPacket' ==> |rest| <= 4)
  {
    hide Outside, Inside, Find, At;
    packets' := packets;
    var scan, start := 0, if inPacket then 0 else -1;
    assert buf[0..] == buf;
    while true
      invariant 0 <= scan <= |buf| && -1 <= start <= |buf| && (start < 0 || scan <= start)
      invariant packets <= packets'
      invariant Join(packets, Rest(inPacket, buf + more)) ==
                Join(packets', Rest(start >= 0, buf[if start >= 0 then start else scan..] + more))
      decreases |buf| - scan
    {
      if start < 0 {
        var opening := Find(buf, OPENING, scan);
        if opening >= |buf| { break; }
        OpeningArrived(buf, scan, more);
        start := opening + 3;
      }
      var closing := Find(buf, CLOSING, start);
      if closing >= |buf| {
        FindInTail(buf, CLOSING, start);
        return packets', buf[start..], true;
      }
      ClosingArrived(buf, start, more);
      JoinThen(packets', buf[start..closing + 4], Outside(buf[closing + 4..] + more));
      packets' := packets' + [buf[start..closing + 4]];
      scan := closing + 4;
      start := -1;
    }
    KeepFour(buf, scan, more);
    StillWaiting(buf, scan, Max(scan, |buf| - 4));
    return packets', buf[Max(scan, |buf| - 4)..], false;
  }

  predicate Fits(packets: seq<bytes>, limit: nat) { forall i :: 0 <= i < |packets| ==> |packets[i]| <= limit }

  /**
   * `_json_packets`: for every way of cutting the stream into reads, the packets handed out
   * are those of the whole stream; and when each fits the limit, reading fails exactly when
   * the stream ends inside a packet.
   */
  method ReadPackets(chunks: seq<bytes>, limit: nat) returns (packets: seq<bytes>, end: End)
    requires limit >= 4
    ensures packets <= Outside(Concat(chunks)).packets
    ensures end != TooLarge ==> packets == Outside(Concat(chunks)).packets
    ensures end == Complete ==> !Outside(Concat(chunks)).inside
    ensures end == EndedInside ==> Outside(Concat(chunks)).inside
    ensures Fits(Outside(Concat(chunks)).packets, limit) ==>
              && packets == Outside(Concat(chunks)).packets
              && (end == Complete <==> !Outside(Concat(chunks)).inside)
  {
    ghost var whole := Outside(Concat(chunks));
    var buf: bytes, inPacket := [], false;
    packets := [];
    assert chunks[0..] == chunks && [] + Concat(chunks) == Concat(chunks);
    assert Concat(chunks[|chunks|..]) == [];
    hide Find, At, Outside, Inside, Concat;
    for i := 0 to |chunks|
      invariant Waiting(inPacket, buf)
      invariant Join(packets, Rest(inPacket, buf + Concat(chunks[i..]))) == whole
    {
      ghost var later := Concat(chunks[i + 1..]);
      ConcatFront(chunks, i);
      assert buf + (chunks[i] + later) == (buf + chunks[i]) + later;
      buf := buf + chunks[i];
      packets, buf, inPacket := TakePackets(buf, inPacket, packets, later);
      if |buf| > limit {
        OpenPacketIsLonger(buf, later);
        FirstTooLong(packets, Rest(inPacket, buf + later), limit);
        return packets, TooLarge;
      }
    }
    assert buf + [] == buf;
    NothingMore(inPacket, buf);
    return packets, if inPacket then EndedInside else Complete;
  }

  lemma NothingMore(inPacket: bool, buf: bytes)
    requires Waiting(inPacket, buf)
    ensures Rest(inPacket, buf) == Cut([], inPacket)
  {
  }

  lemma FirstTooLong(packets: seq<bytes>, rest: Cut, limit: nat)
    requires (|rest.packets| == 0 && rest.inside) || (|rest.packets| > 0 && |rest.packets[0]| > limit)
    ensures packets <= Join(packets, rest).packets
    ensures Fits(Join(packets, rest).packets, limit) ==> Join(packets, rest) == Cut(packets, true)
  {
    if |rest.packets| > 0 {
      assert Join(packets, rest).packets[|packets|] == rest.packets[0];
    }
  }

  lemma ConcatFront(chunks: seq<bytes>, i: nat)
    requires i < |chunks|
    ensures Concat(chunks[i..]) == chunks[i] + Concat(chunks[i + 1..])
  {
    assert chunks[i..][1..] == chunks[i + 1..];
  }
}
