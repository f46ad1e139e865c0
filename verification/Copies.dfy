/**
 * Repeat sightings of a packet on several interfaces (backend/packet_parser.py,
 * `find_interface_copies`): the detector that forgets old packets against the one that never
 * does, and what its marks say.
 */
module Copies {
  import opened Optional

  type Key = seq<string>

  const WINDOW: real := 1.0
  const TRANSLATED: nat := 0x8000_0000

  /** One line of the pass, after the skips: an IP packet sighted on an interface. */
  datatype Sighting = Sighting(number: nat, when': real, iface: string, src: string, dst: string,
                               rest: Key, natKey: Option<Key>)
  /** An instance of a packet: when it was last seen, its first frame, the interfaces it was on. */
  datatype Instance = Instance(last: real, first: nat, ifaces: set<string>, src: string, dst: string)

  datatype Mark = NoMark | Exact(first: nat) | Nat(first: nat)

  function KeyOf(s: Sighting): Key { [s.src, s.dst] + s.rest }

  /** `x | TRANSLATED` and `x & ~TRANSLATED` on a 32-bit word. */
  function WithBit(x: nat): nat { if x / TRANSLATED % 2 == 1 then x else x + TRANSLATED }

  function WithoutBit(x: nat): nat { if x / TRANSLATED % 2 == 1 then x - TRANSLATED else x }

  function Word(m: Mark): nat {
    match m
    case NoMark => 0
    case Exact(first) => first
    case Nat(first) => WithBit(first)
  }

  /** `original` and `translated`, read back from the word. */
  function OriginalOf(word: nat): nat { WithoutBit(word) }

  predicate TranslatedOf(word: nat) { word / TRANSLATED % 2 == 1 }

  /** What a mark means survives its packing exactly for first frames below 2^31. */
  lemma WordsDecode(m: Mark)
    requires m != NoMark && m.first < 0x1_0000_0000
    ensures (OriginalOf(Word(m)) == m.first && TranslatedOf(Word(m)) == m.Nat?) <==> m.first < TRANSLATED
  {
    if m.first < TRANSLATED {
      assert (m.first + TRANSLATED) / TRANSLATED == 1;
    }
  }

  // --- one sighting ------------------------------------------------------------------------

  type Table = map<Key, Instance>

  datatype State = State(seen: Table, natSeen: Table)

  function Lookup(t: Table, k: Option<Key>): Option<Instance> {
    if k.Some? && k.value in t then Some(t[k.value]) else None
  }

  /** Seen moments ago, and not on this interface. */
  predicate Fresh(i: Option<Instance>, s: Sighting) {
    i.Some? && s.when' - i.value.last <= WINDOW && s.iface !in i.value.ifaces
  }

  /** One address translated and the other kept. */
  predicate OneSideTranslated(i: Instance, s: Sighting) {
    (s.src, s.dst) != (i.src, i.dst) && (s.src == i.src || s.dst == i.dst)
  }

  function Again(i: Instance, s: Sighting): Instance { i.(last := s.when', ifaces := i.ifaces + {s.iface}) }

  function First(s: Sighting): Instance { Instance(s.when', s.number, {s.iface}, s.src, s.dst) }

  function MarkOf(st: State, s: Sighting): Mark {
    var seen, nats := Lookup(st.seen, Some(KeyOf(s))), Lookup(st.natSeen, s.natKey);
    if Fresh(seen, s) then Exact(seen.value.first)
    else if Fresh(nats, s) && OneSideTranslated(nats.value, s) then Nat(nats.value.first)
    else NoMark
  }

  function Next(st: State, s: Sighting): State {
    match MarkOf(st, s)
    case Exact(_) => st.(seen := st.seen[KeyOf(s) := Again(st.seen[KeyOf(s)], s)])
    case Nat(_) => st.(natSeen := st.natSeen[s.natKey.value := Again(st.natSeen[s.natKey.value], s)])
    case NoMark =>
      State(st.seen[KeyOf(s) := First(s)],
            if s.natKey.Some? then st.natSeen[s.natKey.value := First(s)] else st.natSeen)
  }

  // --- the detector that never forgets --------------------------------------------------------

  function StateAfter(rows: seq<Sighting>): State {
    if |rows| == 0 then State(map[], map[]) else Next(StateAfter(rows[..|rows| - 1]), rows[|rows| - 1])
  }

  /** The mark of each sighting. */
  function Marks(rows: seq<Sighting>): (m: seq<Mark>)
    ensures |m| == |rows|
  {
    if |rows| == 0 then []
    else Marks(rows[..|rows| - 1]) + [MarkOf(StateAfter(rows[..|rows| - 1]), rows[|rows| - 1])]
  }

  // --- forgetting -------------------------------------------------------------------------------

  /** The dictionary rebuilt with what is still inside the window. */
  function Pruned(t: Table, now: real): Table { map k | k in t && now - t[k].last <= WINDOW :: t[k] }

  /** Frames come in the order of their numbers; their times may do as they like. */
  ghost predicate InOrder(rows: seq<Sighting>) {
    forall i, j :: 0 <= i < j < |rows| ==> rows[i].number < rows[j].number
  }

  /** The words of a capture's frames, by frame number: `originals`. */
  function Packed(rows: seq<Sighting>, marks: seq<Mark>): seq<nat>
    requires |rows| == |marks|
  {
    if |rows| == 0 then [0]
    else
      var n := |rows| - 1;
      WithMark(Packed(rows[..n], marks[..n]), rows[n].number, marks[n])
  }

  /** Zeros appended until there is a word for this frame. */
  function Grown(words: seq<nat>, number: nat): (r: seq<nat>)
    ensures |r| > number && |r| >= |words| && words <= r
    ensures forall i :: |words| <= i < |r| ==> r[i] == 0
  {
    if number < |words| then words else words + seq(number + 1 - |words|, _ => 0)
  }

  function Count(marks: seq<Mark>): nat {
    if |marks| == 0 then 0
    else Count(marks[..|marks| - 1]) + (if marks[|marks| - 1] == NoMark then 0 else 1)
  }

  /** The words after one more sighting and its mark. */
  function WithMark(words: seq<nat>, number: nat, m: Mark): seq<nat> {
    var grown := Grown(words, number);
    if m == NoMark then grown else grown[number := Word(m)]
  }

  /** One line of the pass: matched, translated, or the start of a new instance. */
  method Sight(seen: Table, natSeen: Table, originals: seq<nat>, count: nat, s: Sighting)
    returns (seen': Table, natSeen': Table, originals': seq<nat>, count': nat)
    ensures State(seen', natSeen') == Next(State(seen, natSeen), s)
    ensures originals' == WithMark(originals, s.number, MarkOf(State(seen, natSeen), s))
    ensures count' == count + (if MarkOf(State(seen, natSeen), s) == NoMark then 0 else 1)
  {
    seen', natSeen', count' := seen, natSeen, count;
    originals' := Grown(originals, s.number);
    var key := KeyOf(s);
    var state, nats := Lookup(seen, Some(key)), Lookup(natSeen, s.natKey);
    if Fresh(state, s) {
      originals' := originals'[s.number := state.value.first];
      count' := count + 1;
      seen' := seen[key := Again(state.value, s)];
    } else if Fresh(nats, s) && OneSideTranslated(nats.value, s) {
      originals' := originals'[s.number := WithBit(nats.value.first)];
      count' := count + 1;
      natSeen' := natSeen[s.natKey.value := Again(nats.value, s)];
    } else {
      seen' := seen[key := First(s)];
      if s.natKey.Some? { natSeen' := natSeen[s.natKey.value := First(s)]; }
    }
  }

  // --- the detector that forgets --------------------------------------------------------------

  predicate PruneDue(lines: nat, every: nat)
    requires every > 0
  {
    lines % every == 0
  }

  /** Its tables: everything outside the window dropped after every so many lines. */
  function KeptAfter(rows: seq<Sighting>, every: nat): State
    requires every > 0
  {
    if |rows| == 0 then State(map[], map[])
    else
      var s := rows[|rows| - 1];
      var st := Next(KeptAfter(rows[..|rows| - 1], every), s);
      if PruneDue(|rows|, every) then State(Pruned(st.seen, s.when'), Pruned(st.natSeen, s.when')) else st
  }

  /** Its marks. */
  function KeptMarks(rows: seq<Sighting>, every: nat): (m: seq<Mark>)
    requires every > 0
    ensures |m| == |rows|
  {
    if |rows| == 0 then []
    else
      var front := rows[..|rows| - 1];
      KeptMarks(front, every) + [MarkOf(KeptAfter(front, every), rows[|rows| - 1])]
  }

  /** The pass: two tables, an array of words, a counter, and the tables rebuilt every so many lines. */
  method FindInterfaceCopies(rows: seq<Sighting>, pruneEvery: nat) returns (originals: seq<nat>, count: nat)
    requires pruneEvery > 0
    ensures originals == Packed(rows, KeptMarks(rows, pruneEvery)) && count == Count(KeptMarks(rows, pruneEvery))
  {
    originals, count := [0], 0;
    var seen: Table, natSeen: Table := map[], map[];
    assert rows[..0] == [];
    NothingSeen(pruneEvery);
    assert Follows(rows[..0], pruneEvery, State(seen, natSeen), originals, count);
    hide Follows;
    for i := 0 to |rows|
      invariant Follows(rows[..i], pruneEvery, State(seen, natSeen), originals, count)
    {
      KeptSnoc(rows, i, pruneEvery, State(seen, natSeen), originals, count);
      seen, natSeen, originals, count := Sight(seen, natSeen, originals, count, rows[i]);
      if PruneDue(i + 1, pruneEvery) {
        seen := Pruned(seen, rows[i].when');
        natSeen := Pruned(natSeen, rows[i].when');
      }
    }
    assert rows[..|rows|] == rows;
    Followed(rows, pruneEvery, State(seen, natSeen), originals, count);
  }

  /** The pass's variables after these lines. */
  ghost predicate Follows(rows: seq<Sighting>, every: nat, st: State, originals: seq<nat>, count: nat)
    requires every > 0
  {
    && st == KeptAfter(rows, every) && originals == Packed(rows, KeptMarks(rows, every))
    && count == Count(KeptMarks(rows, every))
  }

  lemma Followed(rows: seq<Sighting>, every: nat, st: State, originals: seq<nat>, count: nat)
    requires every > 0 && Follows(rows, every, st, originals, count)
    ensures originals == Packed(rows, KeptMarks(rows, every)) && count == Count(KeptMarks(rows, every))
  {
  }

  lemma NothingSeen(every: nat)
    requires every > 0
    ensures KeptAfter([], every) == State(map[], map[]) && KeptMarks([], every) == []
    ensures Packed([], []) == [0] && Count([]) == 0
  {
  }

  lemma KeptSnoc(rows: seq<Sighting>, i: nat, every: nat, st: State, originals: seq<nat>, count: nat)
    requires i < |rows| && every > 0 && Follows(rows[..i], every, st, originals, count)
    ensures var m, next := MarkOf(st, rows[i]), Next(st, rows[i]);
            Follows(rows[..i + 1], every,
                    if PruneDue(i + 1, every) then
                      State(Pruned(next.seen, rows[i].when'), Pruned(next.natSeen, rows[i].when'))
                    else next,
                    WithMark(originals, rows[i].number, m), count + (if m == NoMark then 0 else 1))
  {
    hide MarkOf, Next, Pruned, WithMark, PruneDue;
    assert rows[..i + 1][..i] == rows[..i];
    assert KeptMarks(rows[..i + 1], every)[..i] == KeptMarks(rows[..i], every);
  }

  // --- when forgetting shows --------------------------------------------------------------------

  function Times(rows: seq<Sighting>): (t: seq<real>)
    ensures |t| == |rows|
  {
    seq(|rows|, i requires 0 <= i < |rows| => rows[i].when')
  }

  /** Once a line has aged out of the window, it stays out: no clock is set back across it. */
  ghost predicate StaysOut(times: seq<real>) {
    forall i, j, k :: 0 <= i < j < k < |times| && times[j] - times[i] > WINDOW ==> times[k] - times[i] > WINDOW
  }

  lemma OrderedTimesStayOut(times: seq<real>)
    requires forall i, j :: 0 <= i < j < |times| ==> times[i] <= times[j]
    ensures StaysOut(times)
  {
  }

  /** Some line had this time, and some later one had it outside its window. */
  ghost predicate Aged(rows: seq<Sighting>, n: nat, x: real)
    requires n <= |rows|
  {
    exists i, j :: 0 <= i < j < n && rows[i].when' == x && rows[j].when' - rows[i].when' > WINDOW
  }

  ghost predicate Dated(rows: seq<Sighting>, n: nat, x: real)
    requires n <= |rows|
  {
    exists i :: 0 <= i < n && rows[i].when' == x
  }

  /** After `n` lines the pruned table has lost only what had aged out. */
  ghost predicate LostAged(pruned: Table, full: Table, rows: seq<Sighting>, n: nat)
    requires n <= |rows|
  {
    && (forall k :: k in pruned ==> k in full && pruned[k] == full[k])
    && (forall k :: k in full ==> Dated(rows, n, full[k].last))
    && forall k :: k in full && k !in pruned ==> Aged(rows, n, full[k].last)
  }

  ghost predicate LostOnlyAged(pruned: State, full: State, rows: seq<Sighting>, n: nat)
    requires n <= |rows|
  {
    LostAged(pruned.seen, full.seen, rows, n) && LostAged(pruned.natSeen, full.natSeen, rows, n)
  }

  lemma AgedIsNotFresh(rows: seq<Sighting>, n: nat, x: real)
    requires n < |rows| && StaysOut(Times(rows)) && Aged(rows, n, x)
    ensures rows[n].when' - x > WINDOW
  {
    var i, j :| 0 <= i < j < n && rows[i].when' == x && rows[j].when' - rows[i].when' > WINDOW;
    var t := Times(rows);
    assert t[j] - t[i] > WINDOW;
    assert t[n] - t[i] > WINDOW;
  }

  lemma OneLineOlder(rows: seq<Sighting>, n: nat, x: real)
    requires n < |rows|
    ensures Dated(rows, n, x) ==> Dated(rows, n + 1, x)
    ensures Aged(rows, n, x) ==> Aged(rows, n + 1, x)
    ensures Dated(rows, n + 1, rows[n].when')
    ensures Dated(rows, n + 1, x) && rows[n].when' - x > WINDOW ==> Aged(rows, n + 1, x)
  {
    if Dated(rows, n, x) {
      var i :| 0 <= i < n && rows[i].when' == x;
      assert 0 <= i < n + 1;
    }
    if Aged(rows, n, x) {
      var i, j :| 0 <= i < j < n && rows[i].when' == x && rows[j].when' - rows[i].when' > WINDOW;
      assert 0 <= i < j < n + 1;
    }
    if Dated(rows, n + 1, x) && rows[n].when' - x > WINDOW {
      var i :| 0 <= i < n + 1 && rows[i].when' == x;
      assert 0 <= i < n < n + 1;
    }
  }

  lemma LostFreshNothing(pruned: Table, full: Table, rows: seq<Sighting>, n: nat, k: Option<Key>)
    requires n < |rows| && StaysOut(Times(rows)) && LostAged(pruned, full, rows, n)
    ensures Fresh(Lookup(pruned, k), rows[n]) <==> Fresh(Lookup(full, k), rows[n])
    ensures Fresh(Lookup(full, k), rows[n]) ==> Lookup(pruned, k) == Lookup(full, k)
  {
    if k.Some? && k.value in full && k.value !in pruned {
      AgedIsNotFresh(rows, n, full[k.value].last);
    }
  }

  lemma LostAgedNext(pruned: Table, full: Table, rows: seq<Sighting>, n: nat, k: Key, i: Instance)
    requires n < |rows| && LostAged(pruned, full, rows, n) && i.last == rows[n].when'
    ensures LostAged(pruned, full, rows, n + 1) && LostAged(pruned[k := i], full[k := i], rows, n + 1)
  {
    hide Dated, Aged;
    forall y | y in full
      ensures Dated(rows, n + 1, full[y].last) && (y !in pruned ==> Aged(rows, n + 1, full[y].last))
    {
      OneLineOlder(rows, n, full[y].last);
    }
    OneLineOlder(rows, n, i.last);
  }

  lemma LostAgedPruned(pruned: Table, full: Table, rows: seq<Sighting>, n: nat)
    requires n < |rows| && LostAged(pruned, full, rows, n + 1)
    ensures LostAged(Pruned(pruned, rows[n].when'), full, rows, n + 1)
  {
    hide Dated, Aged;
    forall y | y in full && y !in Pruned(pruned, rows[n].when') ensures Aged(rows, n + 1, full[y].last) {
      OneLineOlder(rows, n, full[y].last);
    }
  }

  /** What was forgotten could not have matched, and what is learned is learned by both. */
  lemma ForgettingIsHarmless(pruned: State, full: State, rows: seq<Sighting>, n: nat)
    requires n < |rows| && StaysOut(Times(rows)) && LostOnlyAged(pruned, full, rows, n)
    ensures MarkOf(pruned, rows[n]) == MarkOf(full, rows[n])
    ensures LostOnlyAged(Next(pruned, rows[n]), Next(full, rows[n]), rows, n + 1)
  {
    var s := rows[n];
    hide LostAged, StaysOut;
    var k := KeyOf(s);
    LostFreshNothing(pruned.seen, full.seen, rows, n, Some(k));
    LostFreshNothing(pruned.natSeen, full.natSeen, rows, n, s.natKey);
    var seen, nats := Lookup(full.seen, Some(k)), Lookup(full.natSeen, s.natKey);
    LostAgedNext(pruned.seen, full.seen, rows, n, k, if seen.Some? then Again(seen.value, s) else First(s));
    LostAgedNext(pruned.seen, full.seen, rows, n, k, First(s));
    if s.natKey.Some? {
      LostAgedNext(pruned.natSeen, full.natSeen, rows, n, s.natKey.value,
                   if nats.Some? then Again(nats.value, s) else First(s));
      LostAgedNext(pruned.natSeen, full.natSeen, rows, n, s.natKey.value, First(s));
    } else {
      LostAgedNext(pruned.natSeen, full.natSeen, rows, n, k, First(s));
    }
  }

  /** Then forgetting at any interval changes no mark. */
  lemma {:induction false} PruningIsInvisible(rows: seq<Sighting>, n: nat, every: nat)
    requires StaysOut(Times(rows)) && every > 0 && n <= |rows|
    ensures KeptMarks(rows[..n], every) == Marks(rows[..n])
    ensures LostOnlyAged(KeptAfter(rows[..n], every), StateAfter(rows[..n]), rows, n)
    decreases n
  {
    hide LostOnlyAged, StaysOut, MarkOf, Next, Pruned, PruneDue;
    if n == 0 {
      NothingLost(rows);
      assert rows[..0] == [];
    } else {
      var pruned, full := KeptAfter(rows[..n - 1], every), StateAfter(rows[..n - 1]);
      assert rows[..n][..n - 1] == rows[..n - 1] && rows[..n][n - 1] == rows[n - 1];
      PruningIsInvisible(rows, n - 1, every);
      ForgettingIsHarmless(pruned, full, rows, n - 1);
      PrunedState(Next(pruned, rows[n - 1]), Next(full, rows[n - 1]), rows, n - 1);
    }
  }

  lemma NothingLost(rows: seq<Sighting>)
    ensures LostOnlyAged(State(map[], map[]), State(map[], map[]), rows, 0)
  {
  }

  lemma PrunedState(pruned: State, full: State, rows: seq<Sighting>, n: nat)
    requires n < |rows| && LostOnlyAged(pruned, full, rows, n + 1)
    ensures LostOnlyAged(State(Pruned(pruned.seen, rows[n].when'), Pruned(pruned.natSeen, rows[n].when')), full,
                         rows, n + 1)
  {
    hide LostAged, Pruned;
    LostAgedPruned(pruned.seen, full.seen, rows, n);
    LostAgedPruned(pruned.natSeen, full.natSeen, rows, n);
  }

  /** Lines with these times: one packet at `i` and, on another interface, at `k`; others between. */
  function Witness(times: seq<real>, i: nat, k: nat): (rows: seq<Sighting>)
    ensures Times(rows) == times
  {
    var rows := seq(|times|, x requires 0 <= x < |times| =>
      if x == i || x == k then Sighting(x + 1, times[x], if x == i then "i1" else "i2", "a", "b", [], None)
      else Sighting(x + 1, times[x], "i1", "c", "d", [], None));
    assert Times(rows) == times;
    rows
  }

  const TWICE: Key := ["a", "b"]

  lemma WitnessKeys(times: seq<real>, i: nat, k: nat)
    ensures var rows := Witness(times, i, k);
            forall x :: 0 <= x < |rows| ==>
              && rows[x].natKey == None && rows[x].when' == times[x] && rows[x].number == x + 1
              && (KeyOf(rows[x]) == TWICE <==> x == i || x == k)
              && (x == i || x == k ==> rows[x].iface == if x == i then "i1" else "i2")
  {
    assert ["c", "d"][0] != ["a", "b"][0];
  }

  /** A line without a translation key touches its own entry alone, and makes it if it was not there. */
  lemma EntriesAfter(st: State, s: Sighting, key: Key)
    requires s.natKey == None
    ensures key != KeyOf(s) ==> Lookup(Next(st, s).seen, Some(key)) == Lookup(st.seen, Some(key))
    ensures key == KeyOf(s) && key !in st.seen ==> Lookup(Next(st, s).seen, Some(key)) == Some(First(s))
  {
  }

  lemma {:induction false} FirstSightingKept(times: seq<real>, i: nat, k: nat, n: nat)
    requires i < k < |times| && n <= k
    ensures var rows := Witness(times, i, k);
            Lookup(StateAfter(rows[..n]).seen, Some(TWICE)) == if n <= i then None else Some(First(rows[i]))
    decreases n
  {
    hide Witness, Lookup, Next, First;
    var rows := Witness(times, i, k);
    NothingHeld();
    if n == 0 {
      assert rows[..0] == [];
    } else {
      FirstSightingKept(times, i, k, n - 1);
      WitnessKeys(times, i, k);
      assert rows[..n][..n - 1] == rows[..n - 1] && rows[..n][n - 1] == rows[n - 1];
      EntriesAfter(StateAfter(rows[..n - 1]), rows[n - 1], TWICE);
      Absent(StateAfter(rows[..n - 1]).seen);
    }
  }

  lemma Absent(t: Table)
    ensures Lookup(t, Some(TWICE)) == None <==> TWICE !in t
  {
  }

  lemma NothingHeld()
    ensures Lookup(map[], Some(TWICE)) == None
  {
  }

  lemma PrunedEntry(t: Table, now: real)
    ensures var e := Lookup(t, Some(TWICE));
            Lookup(Pruned(t, now), Some(TWICE)) == if e.Some? && now - e.value.last > WINDOW then None else e
  {
  }

  lemma DueAfter(n: nat, j: nat)
    requires n > 0
    ensures n <= j ==> !PruneDue(n, j + 1)
    ensures n == j + 1 ==> PruneDue(n, j + 1)
  {
  }

  /** With tables rebuilt after line `j`, the first sighting is held until then and never again. */
  lemma {:induction false} FirstSightingDropped(times: seq<real>, i: nat, j: nat, k: nat, n: nat)
    requires i < j < k < |times| && n <= k && times[j] - times[i] > WINDOW
    ensures var rows := Witness(times, i, k);
            Lookup(KeptAfter(rows[..n], j + 1).seen, Some(TWICE)) == if i < n <= j then Some(First(rows[i])) else None
    decreases n
  {
    hide Witness, Lookup, Next, Pruned, PruneDue;
    var rows := Witness(times, i, k);
    NothingHeld();
    if n == 0 {
      assert rows[..0] == [];
    } else {
      FirstSightingDropped(times, i, j, k, n - 1);
      WitnessKeys(times, i, k);
      assert rows[..n][..n - 1] == rows[..n - 1] && rows[..n][n - 1] == rows[n - 1];
      var st := KeptAfter(rows[..n - 1], j + 1);
      EntriesAfter(st, rows[n - 1], TWICE);
      Absent(st.seen);
      PrunedEntry(Next(st, rows[n - 1]).seen, rows[n - 1].when');
      DueAfter(n, j);
    }
  }

  /** Where some time does not stay out, some packets at those times lose a copy at some interval. */
  lemma ForgettingShows(times: seq<real>, i: nat, j: nat, k: nat)
    requires i < j < k < |times| && times[j] - times[i] > WINDOW && times[k] - times[i] <= WINDOW
    ensures var rows := Witness(times, i, k);
            Marks(rows)[k] == Exact(i + 1) && KeptMarks(rows, j + 1)[k] == NoMark
  {
    hide Witness, StateAfter, KeptAfter, Marks, KeptMarks;
    var rows := Witness(times, i, k);
    FirstSightingKept(times, i, k, k);
    FirstSightingDropped(times, i, j, k, k);
    WitnessKeys(times, i, k);
    MarkAt(rows, k);
    KeptMarkAt(rows, k, j + 1);
  }

  /**
   * Exactly: forgetting changes no mark, whatever the packets and the interval, if and only if no
   * line's time comes back into a window it has left.
   */
  lemma PruningIsInvisibleExactly(times: seq<real>)
    ensures StaysOut(times) <==>
            forall rows, every: nat :: Times(rows) == times && every > 0 ==> KeptMarks(rows, every) == Marks(rows)
  {
    if StaysOut(times) {
      forall rows, every: nat | Times(rows) == times && every > 0 ensures KeptMarks(rows, every) == Marks(rows) {
        PruningIsInvisible(rows, |rows|, every);
        assert rows[..|rows|] == rows;
      }
    } else {
      var i, j, k :| 0 <= i < j < k < |times| && times[j] - times[i] > WINDOW && times[k] - times[i] <= WINDOW;
      ForgettingShows(times, i, j, k);
      var rows := Witness(times, i, k);
      assert KeptMarks(rows, j + 1)[k] != Marks(rows)[k];
      assert Times(rows) == times && KeptMarks(rows, j + 1) != Marks(rows);
    }
  }

  /** The next line's mark, its word and the count. */
  lemma MarksSnoc(rows: seq<Sighting>, i: nat)
    requires i < |rows|
    ensures Marks(rows[..i + 1]) == Marks(rows[..i]) + [MarkOf(StateAfter(rows[..i]), rows[i])]
    ensures StateAfter(rows[..i + 1]) == Next(StateAfter(rows[..i]), rows[i])
    ensures var m := MarkOf(StateAfter(rows[..i]), rows[i]);
            && Packed(rows[..i + 1], Marks(rows[..i + 1])) ==
               WithMark(Packed(rows[..i], Marks(rows[..i])), rows[i].number, m)
            && Count(Marks(rows[..i + 1])) == Count(Marks(rows[..i])) + (if m == NoMark then 0 else 1)
  {
    assert rows[..i + 1][..i] == rows[..i];
    assert Marks(rows[..i + 1])[..i] == Marks(rows[..i]);
  }

  // --- what the marks say ---------------------------------------------------------------------------

  function TableOf(st: State, nat': bool): Table { if nat' then st.natSeen else st.seen }

  function KeyIn(nat': bool, s: Sighting): Option<Key> { if nat' then s.natKey else Some(KeyOf(s)) }

  predicate CopyOf(nat': bool, m: Mark, first: nat) { m == if nat' then Nat(first) else Exact(first) }

  /** Line `j` is the first frame of this instance: unmarked, and on one of its interfaces. */
  predicate IsRoot(nat': bool, rows: seq<Sighting>, marks: seq<Mark>, j: nat, i: Instance, k: Key)
    requires |marks| == |rows|
  {
    && j < |rows| && rows[j].number == i.first && marks[j] == NoMark
    && rows[j].iface in i.ifaces && KeyIn(nat', rows[j]) == Some(k)
    && rows[j].src == i.src && rows[j].dst == i.dst
  }

  /** Every instance has its first frame among the lines, and holds the interface of each of its copies. */
  ghost predicate Traced(nat': bool, rows: seq<Sighting>, marks: seq<Mark>, t: Table)
    requires |marks| == |rows|
  {
    forall k :: k in t ==> TracedEntry(nat', rows, marks, t[k], k)
  }

  /** Marks point backwards. */
  ghost predicate Backwards(rows: seq<Sighting>, marks: seq<Mark>)
    requires |marks| == |rows|
  {
    forall i :: 0 <= i < |rows| && marks[i] != NoMark ==> marks[i].first < rows[i].number
  }

  /** One more line of the forgetting detector: its mark, and its tables after a prune or without. */
  lemma KeptStep(rows: seq<Sighting>, every: nat)
    requires every > 0 && |rows| > 0
    ensures var n := |rows| - 1;
            var st := KeptAfter(rows[..n], every);
            var next := Next(st, rows[n]);
            && KeptMarks(rows, every) == KeptMarks(rows[..n], every) + [MarkOf(st, rows[n])]
            && (KeptAfter(rows, every) == next
                || KeptAfter(rows, every) ==
                   State(Pruned(next.seen, rows[n].when'), Pruned(next.natSeen, rows[n].when')))
  {
    hide MarkOf, Next, Pruned, PruneDue;
  }

  /** Dropping entries leaves the rest traced. */
  lemma PrunedIsTraced(nat': bool, rows: seq<Sighting>, marks: seq<Mark>, t: Table, now: real)
    requires |marks| == |rows| && Traced(nat', rows, marks, t)
    ensures Traced(nat', rows, marks, Pruned(t, now))
  {
    hide TracedEntry;
  }

  ghost predicate AllTraced(rows: seq<Sighting>, marks: seq<Mark>, st: State)
    requires |marks| == |rows|
  {
    Traced(false, rows, marks, st.seen) && Traced(true, rows, marks, st.natSeen) && Backwards(rows, marks)
  }

  lemma {:induction false} InstancesAreTraced(rows: seq<Sighting>, every: nat)
    requires InOrder(rows) && every > 0
    ensures AllTraced(rows, KeptMarks(rows, every), KeptAfter(rows, every))
    decreases |rows|
  {
    hide KeptMarks, KeptAfter, Traced, Next, MarkOf, Backwards, Pruned, InOrder;
    if |rows| == 0 {
      assert rows == [];
      NothingSeen(every);
      NothingTraced();
    } else {
      var n := |rows| - 1;
      var front, s := rows[..n], rows[n];
      var st, marks := KeptAfter(front, every), KeptMarks(front, every);
      FrontInOrder(rows);
      InstancesAreTraced(front, every);
      KeptStep(rows, every);
      assert rows == front + [s];
      MarkIsBackwards(front, marks, st, s);
      TracedNext(false, front, marks, st, s);
      TracedNext(true, front, marks, st, s);
      BackwardsNext(front, marks, MarkOf(st, s), s);
      PrunedIsTraced(false, rows, KeptMarks(rows, every), Next(st, s).seen, s.when');
      PrunedIsTraced(true, rows, KeptMarks(rows, every), Next(st, s).natSeen, s.when');
    }
  }

  lemma NothingTraced()
    ensures AllTraced([], [], State(map[], map[]))
  {
  }

  lemma BackwardsNext(front: seq<Sighting>, marks: seq<Mark>, m: Mark, s: Sighting)
    requires |marks| == |front| && Backwards(front, marks) && (m != NoMark ==> m.first < s.number)
    ensures Backwards(front + [s], marks + [m])
  {
  }

  lemma FrontInOrder(rows: seq<Sighting>)
    requires InOrder(rows) && |rows| > 0
    ensures InOrder(rows[..|rows| - 1])
    ensures After(rows[..|rows| - 1], rows[|rows| - 1])
  {
  }

  ghost predicate After(front: seq<Sighting>, s: Sighting) {
    forall i :: 0 <= i < |front| ==> front[i].number < s.number
  }

  lemma MarkIsBackwards(front: seq<Sighting>, marks: seq<Mark>, st: State, s: Sighting)
    requires |marks| == |front| && Traced(false, front, marks, st.seen) && Traced(true, front, marks, st.natSeen)
    requires After(front, s)
    ensures MarkOf(st, s) != NoMark ==> MarkOf(st, s).first < s.number
  {
    if MarkOf(st, s).Exact? {
      var j: nat :| IsRoot(false, front, marks, j, st.seen[KeyOf(s)], KeyOf(s));
    } else if MarkOf(st, s).Nat? {
      var j: nat :| IsRoot(true, front, marks, j, st.natSeen[s.natKey.value], s.natKey.value);
    }
  }

  /** An entry of the next table is an old instance, perhaps seen again, or the sighting's own. */
  predicate Continues(old': Table, new': Table, k: Key) {
    && k in old' && k in new' && new'[k].first == old'[k].first && old'[k].ifaces <= new'[k].ifaces
    && new'[k].src == old'[k].src && new'[k].dst == old'[k].dst
  }

  lemma NextEntry(nat': bool, st: State, s: Sighting, k: Key)
    requires k in TableOf(Next(st, s), nat')
    ensures Continues(TableOf(st, nat'), TableOf(Next(st, s), nat'), k)
            || (TableOf(Next(st, s), nat')[k] == First(s) && MarkOf(st, s) == NoMark && KeyIn(nat', s) == Some(k))
  {
  }

  ghost predicate TracedEntry(nat': bool, rows: seq<Sighting>, marks: seq<Mark>, i: Instance, k: Key)
    requires |marks| == |rows|
  {
    && (exists j: nat :: IsRoot(nat', rows, marks, j, i, k))
    && (forall n :: 0 <= n < |rows| && CopyOf(nat', marks[n], i.first) ==> rows[n].iface in i.ifaces)
  }

  lemma ContinuedEntry(nat': bool, front: seq<Sighting>, marks: seq<Mark>, st: State, s: Sighting, k: Key)
    requires |marks| == |front| && Traced(nat', front, marks, TableOf(st, nat')) && InOrder(front)
    requires Continues(TableOf(st, nat'), TableOf(Next(st, s), nat'), k)
    ensures TracedEntry(nat', front + [s], marks + [MarkOf(st, s)], TableOf(Next(st, s), nat')[k], k)
  {
    var m := MarkOf(st, s);
    var rows, all := front + [s], marks + [m];
    var i, i' := TableOf(st, nat')[k], TableOf(Next(st, s), nat')[k];
    var j: nat :| IsRoot(nat', front, marks, j, i, k);
    if CopyOf(nat', m, i.first) { LastCopyIsIn(nat', front, marks, st, s, k, j); }
    hide Next, MarkOf;
    assert IsRoot(nat', rows, all, j, i', k);
    forall n | 0 <= n < |rows| && CopyOf(nat', all[n], i'.first)
      ensures rows[n].iface in i'.ifaces
    {
      if n < |front| { assert CopyOf(nat', marks[n], i.first); }
    }
  }

  lemma OwnEntry(nat': bool, front: seq<Sighting>, marks: seq<Mark>, m: Mark, s: Sighting, k: Key)
    requires |marks| == |front| && Backwards(front, marks) && After(front, s)
    requires m == NoMark && KeyIn(nat', s) == Some(k)
    ensures TracedEntry(nat', front + [s], marks + [m], First(s), k)
  {
    var rows, all := front + [s], marks + [m];
    assert IsRoot(nat', rows, all, |front|, First(s), k);
    forall n | 0 <= n < |front|
      ensures !CopyOf(nat', all[n], s.number)
    {
      assert all[n] == marks[n];
    }
  }

  /** One more sighting keeps a table traced. */
  lemma TracedNext(nat': bool, front: seq<Sighting>, marks: seq<Mark>, st: State, s: Sighting)
    requires |marks| == |front| && Traced(nat', front, marks, TableOf(st, nat')) && InOrder(front) && After(front, s)
    requires Backwards(front, marks)
    ensures Traced(nat', front + [s], marks + [MarkOf(st, s)], TableOf(Next(st, s), nat'))
  {
    hide Next, MarkOf, Continues, First;
    forall k | k in TableOf(Next(st, s), nat')
      ensures TracedEntry(nat', front + [s], marks + [MarkOf(st, s)], TableOf(Next(st, s), nat')[k], k)
    {
      NextEntry(nat', st, s, k);
      if Continues(TableOf(st, nat'), TableOf(Next(st, s), nat'), k) {
        ContinuedEntry(nat', front, marks, st, s, k);
      } else {
        OwnEntry(nat', front, marks, MarkOf(st, s), s, k);
      }
    }
  }

  /** A line marked as a copy of an instance's first frame was matched to that very instance. */
  lemma LastCopyIsIn(nat': bool, front: seq<Sighting>, marks: seq<Mark>, st: State, s: Sighting, k: Key, j: nat)
    requires |marks| == |front| && Traced(nat', front, marks, TableOf(st, nat')) && InOrder(front)
    requires k in TableOf(st, nat') && IsRoot(nat', front, marks, j, TableOf(st, nat')[k], k)
    requires CopyOf(nat', MarkOf(st, s), TableOf(st, nat')[k].first)
    ensures k in TableOf(Next(st, s), nat') && s.iface in TableOf(Next(st, s), nat')[k].ifaces
  {
    var t := TableOf(st, nat');
    var k' := KeyIn(nat', s).value;
    var j': nat :| IsRoot(nat', front, marks, j', t[k'], k');
    assert j == j';
  }

  lemma PrefixInOrder(rows: seq<Sighting>, n: nat)
    requires InOrder(rows) && n <= |rows|
    ensures InOrder(rows[..n])
  {
  }

  /** The mark of a line depends on the lines up to it. */
  lemma {:induction false} MarksOfPrefix(rows: seq<Sighting>, n: nat)
    requires n <= |rows|
    ensures Marks(rows[..n]) == Marks(rows)[..n]
    decreases |rows|
  {
    if n < |rows| {
      var front := rows[..|rows| - 1];
      MarksOfPrefix(front, n);
      assert front[..n] == rows[..n];
      assert Marks(rows)[..n] == Marks(front)[..n];
    } else {
      assert rows[..n] == rows;
    }
  }

  lemma MarkAt(rows: seq<Sighting>, i: nat)
    requires i < |rows|
    ensures Marks(rows)[i] == MarkOf(StateAfter(rows[..i]), rows[i])
  {
    MarksOfPrefix(rows, i + 1);
    MarksSnoc(rows, i);
  }

  lemma {:induction false} KeptMarkAt(rows: seq<Sighting>, i: nat, every: nat)
    requires i < |rows| && every > 0
    ensures KeptMarks(rows, every)[i] == MarkOf(KeptAfter(rows[..i], every), rows[i])
    decreases |rows|
  {
    hide MarkOf, KeptAfter;
    if i < |rows| - 1 {
      KeptMarkAt(rows[..|rows| - 1], i, every);
      assert rows[..|rows| - 1][..i] == rows[..i];
    }
  }

  lemma {:induction false} KeptMarksOfPrefix(rows: seq<Sighting>, n: nat, every: nat)
    requires n <= |rows| && every > 0
    ensures KeptMarks(rows[..n], every) == KeptMarks(rows, every)[..n]
    decreases |rows|
  {
    hide MarkOf, KeptAfter;
    if n < |rows| {
      var front := rows[..|rows| - 1];
      KeptMarksOfPrefix(front, n, every);
      assert front[..n] == rows[..n];
      assert KeptMarks(rows, every)[..n] == KeptMarks(front, every)[..n];
    } else {
      assert rows[..n] == rows;
    }
  }

  /** The frame of the mark, unmarked itself, on another interface, and the same packet but for NAT. */
  predicate IsOriginalOf(rows: seq<Sighting>, marks: seq<Mark>, j: nat, i: nat)
    requires j < i < |rows| == |marks|
  {
    var m := marks[i];
    && m != NoMark && rows[j].number == m.first && marks[j] == NoMark && rows[j].iface != rows[i].iface
    && (m.Exact? ==> KeyOf(rows[j]) == KeyOf(rows[i]))
    && (m.Nat? ==> rows[j].natKey == rows[i].natKey && rows[j].natKey.Some?
                   && (rows[j].src == rows[i].src) != (rows[j].dst == rows[i].dst))
  }

  /** The state before a marked line, and its traced instances. */
  lemma BeforeLine(rows: seq<Sighting>, every: nat, i: nat)
    requires InOrder(rows) && every > 0 && i < |rows|
    ensures var marks, st := KeptMarks(rows, every)[..i], KeptAfter(rows[..i], every);
            && AllTraced(rows[..i], marks, st) && KeptMarks(rows, every)[i] == MarkOf(st, rows[i])
  {
    hide MarkOf, KeptAfter, AllTraced, KeptMarks;
    KeptMarkAt(rows, i, every);
    KeptMarksOfPrefix(rows, i, every);
    PrefixInOrder(rows, i);
    InstancesAreTraced(rows[..i], every);
  }

  /**
   * A mark points to an earlier frame that is itself unmarked and was seen on another
   * interface; an exact copy has that frame's addresses and headers, a translated one exactly
   * one of its addresses. At any interval of forgetting, and whatever the times.
   */
  lemma {:induction false} MarkedIsACopy(rows: seq<Sighting>, every: nat, i: nat)
    requires InOrder(rows) && every > 0 && i < |rows| && KeptMarks(rows, every)[i] != NoMark
    ensures exists j :: 0 <= j < i && IsOriginalOf(rows, KeptMarks(rows, every), j, i)
  {
    hide KeptMarks, KeptAfter;
    var all := KeptMarks(rows, every);
    var front, marks, st, s := rows[..i], all[..i], KeptAfter(rows[..i], every), rows[i];
    BeforeLine(rows, every, i);
    var nat' := MarkOf(st, s).Nat?;
    var k := KeyIn(nat', s).value;
    var t := TableOf(st, nat');
    assert k in t && TracedEntry(nat', front, marks, t[k], k);
    var j: nat :| IsRoot(nat', front, marks, j, t[k], k);
    assert IsOriginalOf(rows, all, j, i);
  }

  /** Two exact copies of one original are never on one interface, nor are two translated ones. */
  lemma CopiesAreOnDifferentInterfaces(rows: seq<Sighting>, every: nat, i: nat, k: nat)
    requires InOrder(rows) && every > 0 && i < k < |rows|
    requires KeptMarks(rows, every)[i] != NoMark && KeptMarks(rows, every)[k] == KeptMarks(rows, every)[i]
    ensures rows[i].iface != rows[k].iface
  {
    hide KeptMarks, KeptAfter;
    var front, marks, st, s := rows[..k], KeptMarks(rows, every)[..k], KeptAfter(rows[..k], every), rows[k];
    BeforeLine(rows, every, k);
    var nat' := MarkOf(st, s).Nat?;
    var t, key := TableOf(st, nat'), KeyIn(nat', s).value;
    assert key in t && TracedEntry(nat', front, marks, t[key], key);
    assert CopyOf(nat', marks[i], t[key].first);
    assert front[i].iface in t[key].ifaces;
  }

  // --- the packed words -----------------------------------------------------------------------------

  function WordAt(words: seq<nat>, number: nat): nat { if number < |words| then words[number] else 0 }

  /** Packing puts nothing where there is no line. */
  lemma {:induction false} PackedElsewhere(rows: seq<Sighting>, marks: seq<Mark>, number: nat)
    requires |marks| == |rows| && forall i :: 0 <= i < |rows| ==> rows[i].number != number
    ensures WordAt(Packed(rows, marks), number) == 0
    decreases |rows|
  {
    hide WithMark, WordAt;
    if |rows| == 0 {
      assert WordAt([0], number) == 0 by { NoWords(number); }
    } else {
      var n := |rows| - 1;
      PackedElsewhere(rows[..n], marks[..n], number);
      WordsGrow(Packed(rows[..n], marks[..n]), rows[n].number, marks[n], number);
    }
  }

  lemma {:induction false} PackedAt(rows: seq<Sighting>, marks: seq<Mark>, i: nat)
    requires InOrder(rows) && |marks| == |rows| && i < |rows|
    ensures WordAt(Packed(rows, marks), rows[i].number) == Word(marks[i])
    decreases |rows|
  {
    hide WithMark, WordAt, InOrder;
    var n := |rows| - 1;
    var front := rows[..n];
    FrontInOrder(rows);
    NotInFront(front, rows[n]);
    WordsGrow(Packed(front, marks[..n]), rows[n].number, marks[n], rows[i].number);
    if i < n {
      PackedAt(front, marks[..n], i);
    } else {
      PackedElsewhere(front, marks[..n], rows[n].number);
    }
  }

  lemma NoWords(number: nat)
    ensures WordAt([0], number) == 0
  {
  }

  lemma NotInFront(front: seq<Sighting>, s: Sighting)
    requires After(front, s)
    ensures forall i :: 0 <= i < |front| ==> front[i].number != s.number
  {
  }

  lemma WordsGrow(words: seq<nat>, number: nat, m: Mark, other: nat)
    ensures other != number ==> WordAt(WithMark(words, number, m), other) == WordAt(words, other)
    ensures other == number ==>
              WordAt(WithMark(words, number, m), other) == if m == NoMark then WordAt(words, other) else Word(m)
  {
  }

  /** A frame that is on no line has no word. */
  lemma NoLineNoWord(rows: seq<Sighting>, every: nat, number: nat)
    requires every > 0 && forall i :: 0 <= i < |rows| ==> rows[i].number != number
    ensures WordAt(Packed(rows, KeptMarks(rows, every)), number) == 0
  {
    hide KeptMarks, Packed, WordAt;
    PackedElsewhere(rows, KeptMarks(rows, every), number);
  }

  /** The word of a frame is its line's mark packed. */
  lemma WordIsMark(rows: seq<Sighting>, every: nat, i: nat)
    requires InOrder(rows) && every > 0 && i < |rows|
    ensures WordAt(Packed(rows, KeptMarks(rows, every)), rows[i].number) == Word(KeptMarks(rows, every)[i])
  {
    hide KeptMarks, Packed, WordAt, InOrder;
    PackedAt(rows, KeptMarks(rows, every), i);
  }

  function Marked(rows: seq<Sighting>, marks: seq<Mark>): set<nat>
    requires |marks| == |rows|
  {
    set i: nat | i < |rows| && marks[i] != NoMark :: rows[i].number
  }

  /** `count` is the number of marked frames. */
  lemma CountIsMarked(rows: seq<Sighting>, every: nat)
    requires InOrder(rows) && every > 0
    ensures Count(KeptMarks(rows, every)) == |Marked(rows, KeptMarks(rows, every))|
  {
    hide KeptMarks, Count, InOrder, Marked;
    MarkedAreCounted(rows, KeptMarks(rows, every));
  }

  /** One more line puts its own number among the marked ones, or nothing. */
  lemma MarkedSnoc(rows: seq<Sighting>, marks: seq<Mark>)
    requires |marks| == |rows| > 0
    ensures var n := |rows| - 1;
            Marked(rows, marks) == Marked(rows[..n], marks[..n]) +
                                   (if marks[n] == NoMark then {} else {rows[n].number})
  {
    var n := |rows| - 1;
    var before := Marked(rows[..n], marks[..n]);
    forall x | x in before ensures x in Marked(rows, marks) {
      var i: nat :| i < n && marks[..n][i] != NoMark && rows[..n][i].number == x;
      assert marks[i] != NoMark && rows[i].number == x;
    }
    forall x | x in Marked(rows, marks) ensures x in before || (marks[n] != NoMark && x == rows[n].number) {
      var i: nat :| i < |rows| && marks[i] != NoMark && rows[i].number == x;
      assert i < n ==> marks[..n][i] != NoMark && rows[..n][i].number == x;
    }
  }

  lemma {:induction false} MarkedAreCounted(rows: seq<Sighting>, marks: seq<Mark>)
    requires InOrder(rows) && |marks| == |rows|
    ensures Count(marks) == |Marked(rows, marks)|
    decreases |rows|
  {
    hide InOrder;
    if |rows| == 0 {
      assert Marked(rows, marks) == {};
    } else {
      var n := |rows| - 1;
      FrontInOrder(rows);
      MarkedAreCounted(rows[..n], marks[..n]);
      MarkedSnoc(rows, marks);
      NotAmongFront(rows, marks);
    }
  }

  lemma NotAmongFront(rows: seq<Sighting>, marks: seq<Mark>)
    requires InOrder(rows) && |marks| == |rows| > 0
    ensures rows[|rows| - 1].number !in Marked(rows[..|rows| - 1], marks[..|rows| - 1])
  {
  }

  /**
   * Reading the array back: an unmarked frame has no word, and a marked one is reported as a copy
   * of exactly the frame it was matched to if and only if that frame is below 2^31. Frames from
   * 2^32 on are not read.
   */
  lemma MarksReadBack(rows: seq<Sighting>, every: nat, i: nat)
    requires InOrder(rows) && every > 0 && i < |rows|
    requires forall k :: 0 <= k < |rows| ==> rows[k].number < 0x1_0000_0000
    ensures var word, m := WordAt(Packed(rows, KeptMarks(rows, every)), rows[i].number), KeptMarks(rows, every)[i];
            if m == NoMark then word == 0
            else (OriginalOf(word) == m.first && TranslatedOf(word) == m.Nat?) <==> m.first < TRANSLATED
  {
    hide KeptMarks, Packed, WordAt, OriginalOf, TranslatedOf;
    WordIsMark(rows, every, i);
    if KeptMarks(rows, every)[i] != NoMark {
      MarkedIsACopy(rows, every, i);
      WordsDecode(KeptMarks(rows, every)[i]);
    }
  }

  /**
   * Frames 2^31 + 5 and 2^31 + 6, one packet on two interfaces: at any interval the pass reports
   * the second as a translated copy of frame 5.
   */
  lemma HugeFrameNumbersMisread(every: nat)
    requires every > 0
    ensures var rows := [Sighting(TRANSLATED + 5, 0.0, "i1", "a", "b", [], None),
                         Sighting(TRANSLATED + 6, 0.0, "i2", "a", "b", [], None)];
            var word := WordAt(Packed(rows, KeptMarks(rows, every)), TRANSLATED + 6);
            OriginalOf(word) == 5 && TranslatedOf(word)
  {
    var first := Sighting(TRANSLATED + 5, 0.0, "i1", "a", "b", [], None);
    var copy := Sighting(TRANSLATED + 6, 0.0, "i2", "a", "b", [], None);
    var rows := [first, copy];
    KeptMarkAt(rows, 1, every);
    assert rows[..1] == [first] && [first][..0] == [];
    NothingSeen(every);
    KeptStep([first], every);
    hide KeptMarks, KeptAfter, Packed, WordAt;
    assert MarkOf(KeptAfter([first], every), copy) == Exact(TRANSLATED + 5);
    WordIsMark(rows, every, 1);
  }
}
