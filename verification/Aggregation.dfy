/**
 * The statistics tables (backend/packet_parser.py): the protocol hierarchy, and conversations with
 * their endpoints. What is added up, row by row, against what it should come to.
 */
module Aggregation {
  import opened Copies
  import opened Optional

  // --- protocol hierarchy -------------------------------------------------------------------

  datatype Node = Node(frames: nat, bytes: int, children: Tree)

  type Tree = map<string, Node>

  /** One line: the colon-separated layers of a packet, and its length. */
  datatype Packet = Packet(protocols: string, length: int)

  /** `protocols.split(":")`. */
  function Layers(protocols: string): (r: seq<string>)
    ensures |r| > 0
  {
    if |protocols| == 0 then [""]
    else if protocols[0] == ':' then [""] + Layers(protocols[1..])
    else
      var rest := Layers(protocols[1..]);
      [[protocols[0]] + rest[0]] + rest[1..]
  }

  /** `setdefault` and the two additions, at every layer on the way down. */
  function Insert(t: Tree, layers: seq<string>, length: int): Tree
    decreases |layers|
  {
    if |layers| == 0 then t
    else
      var entry := if layers[0] in t then t[layers[0]] else Node(0, 0, map[]);
      t[layers[0] := Node(entry.frames + 1, entry.bytes + length, Insert(entry.children, layers[1..], length))]
  }

  datatype Totals = Totals(present: bool, frames: nat, bytes: int)

  /** What the tree holds at a path. */
  function Lookup(t: Tree, path: seq<string>): Totals
    requires |path| > 0
    decreases |path|
  {
    if path[0] !in t then Totals(false, 0, 0)
    else if |path| == 1 then Totals(true, t[path[0]].frames, t[path[0]].bytes)
    else Lookup(t[path[0]].children, path[1..])
  }

  function Plus(x: Totals, length: int): Totals { Totals(true, x.frames + 1, x.bytes + length) }

  lemma {:induction false} InsertAddsAlongThePath(t: Tree, layers: seq<string>, length: int, path: seq<string>)
    requires |path| > 0
    ensures Lookup(Insert(t, layers, length), path) ==
            if path <= layers then Plus(Lookup(t, path), length) else Lookup(t, path)
    decreases |path|
  {
    if |layers| > 0 && path[0] == layers[0] {
      assert path <= layers <==> path[1..] <= layers[1..];
      if |path| > 1 {
        var entry := if layers[0] in t then t[layers[0]] else Node(0, 0, map[]);
        InsertAddsAlongThePath(entry.children, layers[1..], length, path[1..]);
      }
    }
  }

  /** The totals over the lines whose layers begin with the path. */
  function Under(rows: seq<Packet>, path: seq<string>): Totals {
    if |rows| == 0 then Totals(false, 0, 0)
    else
      var before, p := Under(rows[..|rows| - 1], path), rows[|rows| - 1];
      if p.protocols != "" && path <= Layers(p.protocols) then Plus(before, p.length) else before
  }

  /** A node for every path that some packet takes, holding the totals of those that do. */
  method ProtocolHierarchy(rows: seq<Packet>) returns (root: Tree)
    ensures forall path :: |path| > 0 ==> Lookup(root, path) == Under(rows, path)
  {
    root := map[];
    for i := 0 to |rows|
      invariant forall path :: |path| > 0 ==> Lookup(root, path) == Under(rows[..i], path)
    {
      assert rows[..i + 1][..i] == rows[..i];
      if rows[i].protocols == "" {
        continue;
      }
      forall path: seq<string> | |path| > 0
        ensures Lookup(Insert(root, Layers(rows[i].protocols), rows[i].length), path) == Under(rows[..i + 1], path)
      {
        InsertAddsAlongThePath(root, Layers(rows[i].protocols), rows[i].length, path);
      }
      root := Insert(root, Layers(rows[i].protocols), rows[i].length);
    }
    assert rows[..|rows|] == rows;
  }

  // --- conversations ------------------------------------------------------------------------

  datatype Row = Row(src: string, dst: string, length: int, number: Option<nat>)

  /** Python's `<=` on strings. */
  predicate Le(a: string, b: string) {
    |a| == 0 || (|b| > 0 && (a[0] < b[0] || (a[0] == b[0] && Le(a[1..], b[1..]))))
  }

  lemma {:induction false} LeIsTotal(a: string, b: string)
    ensures Le(a, b) || Le(b, a)
    ensures Le(a, b) && Le(b, a) ==> a == b
  {
    if |a| > 0 && |b| > 0 && a[0] == b[0] {
      LeIsTotal(a[1..], b[1..]);
      assert a == [a[0]] + a[1..] && b == [b[0]] + b[1..];
    }
  }

  function PairOf(r: Row): (string, string) { if Le(r.src, r.dst) then (r.src, r.dst) else (r.dst, r.src) }

  /** Both directions of a conversation fall under one pair. */
  lemma PairIgnoresDirection(r: Row)
    ensures PairOf(r) == PairOf(r.(src := r.dst, dst := r.src))
  {
    LeIsTotal(r.src, r.dst);
  }

  /** What the second pass knows of copies: the words of the first, if it found any. */
  datatype Sightings = Sightings(words: seq<nat>, count: nat)

  function NumbersOf(rows: seq<Row>): set<nat> {
    set r | r in rows && r.number.Some? :: r.number.value
  }

  /** An exact copy of a frame that was counted. */
  predicate Repeats(kept: seq<Row>, s: Sightings, r: Row) {
    && s.count > 0 && r.number.Some?
    && var word := WordAt(s.words, r.number.value);
       OriginalOf(word) != 0 && !TranslatedOf(word) && OriginalOf(word) in NumbersOf(kept)
  }

  /** The rows that count. */
  function Kept(rows: seq<Row>, s: Sightings): seq<Row> {
    if |rows| == 0 then []
    else
      var before, r := Kept(rows[..|rows| - 1], s), rows[|rows| - 1];
      if r.src == "" || r.dst == "" || Repeats(before, s, r) then before else before + [r]
  }

  /** No exact copy of a counted packet is counted again. */
  lemma {:induction false} CopiesCountOnce(rows: seq<Row>, s: Sightings, i: nat, j: nat)
    requires i < j < |Kept(rows, s)| && s.count > 0
    requires Kept(rows, s)[i].number.Some? && Kept(rows, s)[j].number.Some?
    ensures var word := WordAt(s.words, Kept(rows, s)[j].number.value);
            OriginalOf(word) == Kept(rows, s)[i].number.value && OriginalOf(word) != 0 ==> TranslatedOf(word)
    decreases |rows|
  {
    var before := Kept(rows[..|rows| - 1], s);
    if j < |before| {
      CopiesCountOnce(rows[..|rows| - 1], s, i, j);
    } else {
      assert before[i] in before && Kept(rows, s)[i] == before[i];
      assert before[i].number.value in NumbersOf(before);
    }
  }

  // --- the two passes together ------------------------------------------------------------------

  /** What the first pass leaves for the second. */
  function FirstPass(lines: seq<Sighting>, every: nat): Sightings
    requires every > 0
  {
    var marks := KeptMarks(lines, every);
    Sightings(Packed(lines, marks), Count(marks))
  }

  /** The frame is on a line the first pass marked as an exact copy. */
  ghost predicate MarkedExact(lines: seq<Sighting>, every: nat, number: nat)
    requires every > 0
  {
    exists i :: 0 <= i < |lines| && lines[i].number == number && KeptMarks(lines, every)[i].Exact?
  }

  predicate Addressed(r: Row) { r.src != "" && r.dst != "" }

  /** The rows with two addresses that were not marked. */
  ghost function Unmarked(rows: seq<Row>, lines: seq<Sighting>, every: nat): seq<Row>
    requires every > 0
  {
    if |rows| == 0 then []
    else
      var before, r := Unmarked(rows[..|rows| - 1], lines, every), rows[|rows| - 1];
      if Addressed(r) && !(r.number.Some? && MarkedExact(lines, every, r.number.value)) then before + [r] else before
  }

  /** Rows come by frame number, as lines do. */
  ghost predicate Numbered(rows: seq<Row>) {
    && (forall i :: 0 <= i < |rows| ==> rows[i].number.Some?)
    && forall i, j :: 0 <= i < j < |rows| ==> rows[i].number.value < rows[j].number.value
  }

  /** The second pass reads the whole capture: every line of the first is among its rows. */
  ghost predicate ReadsAll(rows: seq<Row>, lines: seq<Sighting>) {
    forall i :: 0 <= i < |lines| ==>
      exists k :: 0 <= k < |rows| && rows[k].number == Some(lines[i].number) && Addressed(rows[k])
  }

  ghost predicate SmallNumbers(lines: seq<Sighting>) {
    forall i :: 0 <= i < |lines| ==> 0 < lines[i].number < TRANSLATED
  }

  lemma {:induction false} UnmarkedHas(rows: seq<Row>, lines: seq<Sighting>, every: nat, k: nat)
    requires every > 0 && k < |rows| && Addressed(rows[k])
    requires rows[k].number.Some? && !MarkedExact(lines, every, rows[k].number.value)
    ensures rows[k] in Unmarked(rows, lines, every)
    decreases |rows|
  {
    hide MarkedExact, Addressed;
    if k < |rows| - 1 {
      UnmarkedHas(rows[..|rows| - 1], lines, every, k);
    }
  }

  /** An original is on one line only, and that line has no mark. */
  lemma OriginalNotMarked(lines: seq<Sighting>, every: nat, j: nat)
    requires Copies.InOrder(lines) && every > 0 && j < |lines| && KeptMarks(lines, every)[j] == NoMark
    ensures !MarkedExact(lines, every, lines[j].number)
  {
    hide KeptMarks;
  }

  /** The word of a marked frame names a frame that is counted before it. */
  lemma OriginalIsKept(rows: seq<Row>, n: nat, lines: seq<Sighting>, every: nat, i: nat)
    requires Copies.InOrder(lines) && every > 0 && Numbered(rows) && ReadsAll(rows, lines) && n < |rows| && i < |lines|
    requires rows[n].number == Some(lines[i].number) && KeptMarks(lines, every)[i].Exact?
    ensures KeptMarks(lines, every)[i].first in NumbersOf(Unmarked(rows[..n], lines, every))
    ensures exists j :: 0 <= j < |lines| && lines[j].number == KeptMarks(lines, every)[i].first
  {
    var marks := KeptMarks(lines, every);
    MarkedIsACopy(lines, every, i);
    var j :| 0 <= j < i && IsOriginalOf(lines, marks, j, i);
    OriginalNotMarked(lines, every, j);
    assert lines[j].number < lines[i].number;
    hide KeptMarks, IsOriginalOf, MarkedExact, Unmarked;
    var k :| 0 <= k < |rows| && rows[k].number == Some(lines[j].number) && Addressed(rows[k]);
    assert k < n;
    assert rows[..n][k] == rows[k];
    UnmarkedHas(rows[..n], lines, every, k);
  }

  lemma MarkedIsCounted(marks: seq<Mark>, i: nat)
    requires i < |marks| && marks[i] != NoMark
    ensures Count(marks) > 0
    decreases |marks|
  {
    if i < |marks| - 1 { MarkedIsCounted(marks[..|marks| - 1], i); }
  }

  lemma WordOfMark(m: Mark)
    requires m != NoMark ==> 0 < m.first < TRANSLATED
    ensures OriginalOf(Word(m)) == (if m == NoMark then 0 else m.first)
    ensures TranslatedOf(Word(m)) == m.Nat?
  {
    if m != NoMark { WordsDecode(m); }
  }

  /** One row: it repeats a counted frame exactly when the first pass marked it as an exact copy. */
  lemma RepeatsIsMarked(rows: seq<Row>, n: nat, lines: seq<Sighting>, every: nat)
    requires Copies.InOrder(lines) && every > 0 && SmallNumbers(lines)
    requires Numbered(rows) && ReadsAll(rows, lines) && n < |rows|
    ensures Repeats(Unmarked(rows[..n], lines, every), FirstPass(lines, every), rows[n]) <==>
            MarkedExact(lines, every, rows[n].number.value)
  {
    var marks, number := KeptMarks(lines, every), rows[n].number.value;
    hide KeptMarks, Packed, Count, WordAt, Word, OriginalOf, TranslatedOf, Copies.InOrder, Numbered, ReadsAll, Unmarked;
    if i: nat :| i < |lines| && lines[i].number == number {
      WordIsMark(lines, every, i);
      OnlyLine(lines, every, number, i);
      if marks[i] != NoMark {
        MarkedIsCounted(marks, i);
        OriginalIsALine(lines, every, i);
      }
      WordOfMark(marks[i]);
      if marks[i].Exact? {
        OriginalIsKept(rows, n, lines, every, i);
      }
    } else {
      NoLineNoWord(lines, every, number);
      WordOfMark(NoMark);
      assert Word(NoMark) == 0 by { NoMarkNoWord(); }
    }
  }

  lemma NoMarkNoWord()
    ensures Word(NoMark) == 0
  {
  }

  lemma OnlyLine(lines: seq<Sighting>, every: nat, number: nat, i: nat)
    requires Copies.InOrder(lines) && every > 0 && i < |lines| && lines[i].number == number
    ensures MarkedExact(lines, every, number) <==> KeptMarks(lines, every)[i].Exact?
  {
    hide KeptMarks;
  }

  lemma OriginalIsALine(lines: seq<Sighting>, every: nat, i: nat)
    requires Copies.InOrder(lines) && every > 0 && SmallNumbers(lines)
    requires i < |lines| && KeptMarks(lines, every)[i] != NoMark
    ensures 0 < KeptMarks(lines, every)[i].first < TRANSLATED
  {
    MarkedIsACopy(lines, every, i);
    hide KeptMarks;
    var j :| 0 <= j < i && IsOriginalOf(lines, KeptMarks(lines, every), j, i);
    assert lines[j].number == KeptMarks(lines, every)[i].first;
  }

  lemma {:induction false} CountedUpTo(rows: seq<Row>, n: nat, lines: seq<Sighting>, every: nat)
    requires Copies.InOrder(lines) && every > 0 && SmallNumbers(lines)
    requires Numbered(rows) && ReadsAll(rows, lines) && n <= |rows|
    ensures Kept(rows[..n], FirstPass(lines, every)) == Unmarked(rows[..n], lines, every)
    decreases n
  {
    hide Repeats, FirstPass, MarkedExact, Copies.InOrder, SmallNumbers, ReadsAll;
    if n > 0 {
      CountedUpTo(rows, n - 1, lines, every);
      RepeatsIsMarked(rows, n - 1, lines, every);
      assert rows[..n][..n - 1] == rows[..n - 1];
    }
  }

  /**
   * The two passes agree: over a whole capture whose frames are below 2^31, the rows counted are
   * exactly those with two addresses that the first pass did not mark as exact copies.
   */
  lemma CountedAreUnmarked(rows: seq<Row>, lines: seq<Sighting>, every: nat)
    requires Copies.InOrder(lines) && every > 0 && SmallNumbers(lines)
    requires Numbered(rows) && ReadsAll(rows, lines)
    ensures Kept(rows, FirstPass(lines, every)) == Unmarked(rows, lines, every)
  {
    CountedUpTo(rows, |rows|, lines, every);
    assert rows[..|rows|] == rows;
  }

  datatype Tally = Tally(packets: int, bytes: int)

  const NOTHING := Tally(0, 0)

  function Added(t: Tally, length: int): Tally { Tally(t.packets + 1, t.bytes + length) }

  function Sum(t: Tally, u: Tally): Tally { Tally(t.packets + u.packets, t.bytes + u.bytes) }

  datatype Flow = Flow(ab: Tally, ba: Tally)

  datatype Conversation = Conversation(a: string, b: string, flow: Flow)

  datatype Endpoint = Endpoint(address: string, tally: Tally)

  /** The rows from one address to another. */
  function Directed(rows: seq<Row>, src: string, dst: string): Tally {
    if |rows| == 0 then NOTHING
    else
      var before, r := Directed(rows[..|rows| - 1], src, dst), rows[|rows| - 1];
      if r.src == src && r.dst == dst then Added(before, r.length) else before
  }

  /** The rows an address sends, and those it receives: a row to itself is both. */
  function Touching(rows: seq<Row>, address: string): Tally {
    if |rows| == 0 then NOTHING
    else
      var before, r := Touching(rows[..|rows| - 1], address), rows[|rows| - 1];
      var sent := if r.src == address then Added(before, r.length) else before;
      if r.dst == address then Added(sent, r.length) else sent
  }

  function All(rows: seq<Row>): Tally {
    if |rows| == 0 then NOTHING else Added(All(rows[..|rows| - 1]), rows[|rows| - 1].length)
  }

  function Expected(rows: seq<Row>, pair: (string, string)): Flow {
    Flow(Directed(rows, pair.0, pair.1),
         if pair.0 == pair.1 then NOTHING else Directed(rows, pair.1, pair.0))
  }

  predicate Distinct<T(==)>(s: seq<T>) { forall i, j :: 0 <= i < j < |s| ==> s[i] != s[j] }

  // --- conservation ---------------------------------------------------------------------------

  function SumOfPairs(pairs: seq<(string, string)>, rows: seq<Row>): Tally {
    if |pairs| == 0 then NOTHING
    else
      var f := Expected(rows, pairs[|pairs| - 1]);
      Sum(SumOfPairs(pairs[..|pairs| - 1], rows), Sum(f.ab, f.ba))
  }

  function SumOfAddresses(addresses: seq<string>, rows: seq<Row>): Tally {
    if |addresses| == 0 then NOTHING
    else Sum(SumOfAddresses(addresses[..|addresses| - 1], rows), Touching(rows, addresses[|addresses| - 1]))
  }

  /** The row's own direction of the pair's entry, one up. */
  function Counting(flow: Flow, r: Row, forward: bool): Flow {
    if forward then flow.(ab := Added(flow.ab, r.length)) else flow.(ba := Added(flow.ba, r.length))
  }

  lemma ExpectedNext(rows: seq<Row>, r: Row, p: (string, string))
    requires Le(p.0, p.1)
    ensures Le(PairOf(r).0, PairOf(r).1)
    ensures Expected(rows + [r], p) ==
            if PairOf(r) == p then Counting(Expected(rows, p), r, r.src == p.0) else Expected(rows, p)
  {
    LeIsTotal(r.src, r.dst);
    LeIsTotal(p.0, p.1);
    assert (rows + [r])[..|rows|] == rows;
  }

  lemma {:induction false} OneMoreRow(pairs: seq<(string, string)>, rows: seq<Row>)
    requires |rows| > 0 && Distinct(pairs)
    requires forall i :: 0 <= i < |pairs| ==> Le(pairs[i].0, pairs[i].1)
    ensures var before, r := SumOfPairs(pairs, rows[..|rows| - 1]), rows[|rows| - 1];
            SumOfPairs(pairs, rows) == if PairOf(r) in pairs then Added(before, r.length) else before
    decreases |pairs|
  {
    hide Expected, Le, PairOf;
    if |pairs| > 0 {
      var front, pair, r := pairs[..|pairs| - 1], pairs[|pairs| - 1], rows[|rows| - 1];
      var before := rows[..|rows| - 1];
      OneMoreRow(front, rows);
      assert rows == before + [r] && pairs == front + [pair];
      ExpectedNext(before, r, pair);
      assert PairOf(r) in pairs <==> PairOf(r) in front || PairOf(r) == pair;
      assert PairOf(r) == pair ==> PairOf(r) !in front;
    }
  }

  lemma {:induction false} OneMoreTouch(addresses: seq<string>, rows: seq<Row>)
    requires |rows| > 0 && Distinct(addresses)
    ensures var before, r := SumOfAddresses(addresses, rows[..|rows| - 1]), rows[|rows| - 1];
            var sent := if r.src in addresses then Added(before, r.length) else before;
            SumOfAddresses(addresses, rows) == if r.dst in addresses then Added(sent, r.length) else sent
    decreases |addresses|
  {
    if |addresses| > 0 {
      var front, x, r := addresses[..|addresses| - 1], addresses[|addresses| - 1], rows[|rows| - 1];
      OneMoreTouch(front, rows);
      var before := rows[..|rows| - 1];
      assert SumOfAddresses(addresses, rows) == Sum(SumOfAddresses(front, rows), Touching(rows, x));
      assert SumOfAddresses(addresses, before) == Sum(SumOfAddresses(front, before), Touching(before, x));
      hide SumOfAddresses;
      assert addresses == front + [x];
      assert r.src in addresses <==> r.src in front || r.src == x;
      assert r.dst in addresses <==> r.dst in front || r.dst == x;
      assert x !in front;
    }
  }

  lemma {:induction false} NoRows(pairs: seq<(string, string)>, addresses: seq<string>)
    ensures SumOfPairs(pairs, []) == NOTHING && SumOfAddresses(addresses, []) == NOTHING
    decreases |pairs| + |addresses|
  {
    if |pairs| > 0 {
      NoRows(pairs[..|pairs| - 1], addresses);
    }
    if |addresses| > 0 {
      NoRows(pairs, addresses[..|addresses| - 1]);
    }
  }

  /** Over any table with one entry for each pair seen, the packets add up to the rows. */
  lemma {:induction false} PairsConserve(pairs: seq<(string, string)>, rows: seq<Row>)
    requires Distinct(pairs) && forall i :: 0 <= i < |pairs| ==> Le(pairs[i].0, pairs[i].1)
    requires forall i :: 0 <= i < |rows| ==> PairOf(rows[i]) in pairs
    ensures SumOfPairs(pairs, rows) == All(rows)
    decreases |rows|
  {
    if |rows| == 0 {
      assert rows == [];
      NoRows(pairs, []);
    } else {
      var front, r := rows[..|rows| - 1], rows[|rows| - 1];
      assert forall i :: 0 <= i < |front| ==> front[i] == rows[i];
      assert PairOf(r) in pairs;
      PairsConserve(pairs, front);
      OneMoreRow(pairs, rows);
      hide SumOfPairs, Le, Distinct, PairOf;
    }
  }

  predicate Covers(addresses: seq<string>, rows: seq<Row>) {
    forall i :: 0 <= i < |rows| ==> rows[i].src in addresses && rows[i].dst in addresses
  }

  lemma CoversLast(addresses: seq<string>, rows: seq<Row>)
    requires Covers(addresses, rows) && |rows| > 0
    ensures Covers(addresses, rows[..|rows| - 1])
    ensures rows[|rows| - 1].src in addresses && rows[|rows| - 1].dst in addresses
  {
  }

  /** And over its endpoints to twice the rows. */
  lemma {:induction false} EndpointsConserve(addresses: seq<string>, rows: seq<Row>)
    requires Distinct(addresses) && Covers(addresses, rows)
    ensures SumOfAddresses(addresses, rows) == Sum(All(rows), All(rows))
    decreases |rows|
  {
    hide SumOfAddresses, Touching, Distinct, Covers;
    if |rows| == 0 {
      assert rows == [];
      NoRows([], addresses);
      assert All(rows) == NOTHING;
      assert SumOfAddresses(addresses, rows) == Sum(All(rows), All(rows));
    } else {
      var front, length := rows[..|rows| - 1], rows[|rows| - 1].length;
      CoversLast(addresses, rows);
      EndpointsConserve(addresses, front);
      OneMoreTouch(addresses, rows);
      assert SumOfAddresses(addresses, rows) == Added(Added(SumOfAddresses(addresses, front), length), length);
      assert All(rows) == Added(All(front), length);
      hide All;
      assert SumOfAddresses(addresses, rows) == Sum(All(rows), All(rows));
    }
  }

  // --- the pass -------------------------------------------------------------------------------

  /** The byte per frame, grown as needed: `counted`. */
  function Marked(counted: seq<bool>, number: nat): (r: seq<bool>)
    ensures |r| > number && r[number]
    ensures |r| >= |counted|
    ensures forall n :: 0 <= n < |r| && n != number ==> (r[n] <==> n < |counted| && counted[n])
  {
    var grown := if number >= |counted| then counted + seq(number + 1 - |counted|, _ => false) else counted;
    grown[number := true]
  }

  ghost predicate Counts(counted: seq<bool>, kept: seq<Row>) {
    forall n :: (0 <= n < |counted| && counted[n]) <==> n in NumbersOf(kept)
  }

  lemma CountsNext(counted: seq<bool>, kept: seq<Row>, r: Row)
    requires Counts(counted, kept) && r.number.Some?
    ensures Counts(Marked(counted, r.number.value), kept + [r])
  {
    var more := Marked(counted, r.number.value);
    forall n ensures (0 <= n < |more| && more[n]) <==> n in NumbersOf(kept + [r]) {
      NumbersNext(kept, r, n);
    }
  }

  lemma NumbersNext(kept: seq<Row>, r: Row, n: int)
    ensures n in NumbersOf(kept + [r]) <==> n in NumbersOf(kept) || r.number == Some(n)
  {
    assert r in kept + [r];
    assert forall x :: x in kept + [r] <==> x in kept || x == r;
  }

  /** Which rows count. */
  method Counted(rows: seq<Row>, s: Sightings) returns (kept: seq<Row>)
    ensures kept == Kept(rows, s)
  {
    kept := [];
    var counted: seq<bool> := [];
    for i := 0 to |rows|
      invariant kept == Kept(rows[..i], s)
      invariant s.count > 0 ==> Counts(counted, kept)
    {
      assert rows[..i + 1][..i] == rows[..i];
      var r := rows[i];
      if r.src == "" || r.dst == "" {
        continue;
      }
      if s.count > 0 && r.number.Some? {
        var word := WordAt(s.words, r.number.value);
        var original := OriginalOf(word);
        if original != 0 && !TranslatedOf(word) && original < |counted| && counted[original] {
          continue;
        }
        CountsNext(counted, kept, r);
        counted := Marked(counted, r.number.value);
      } else if s.count > 0 {
        forall n ensures n in NumbersOf(kept + [r]) <==> n in NumbersOf(kept) {
          NumbersNext(kept, r, n);
        }
      }
      kept := kept + [r];
    }
    assert rows[..|rows|] == rows;
  }

  /** The tables, in the order their keys were first seen. */
  datatype Tables = Tables(pairs: map<(string, string), Flow>, order: seq<(string, string)>,
                           endpoints: map<string, Tally>, addresses: seq<string>)

  /** Every entry holds what its rows come to, and there is one for each pair and address seen. */
  ghost predicate Fits(t: Tables, rows: seq<Row>) {
    && FitsPairs(t.pairs, t.order, rows) && FitsEndpoints(t.endpoints, t.addresses, rows)
  }

  ghost predicate FitsPairs(pairs: map<(string, string), Flow>, order: seq<(string, string)>, rows: seq<Row>) {
    Listed(pairs, order) && Pairs(pairs.Keys, rows) && PairTotals(pairs, rows)
  }

  ghost predicate FitsEndpoints(endpoints: map<string, Tally>, addresses: seq<string>, rows: seq<Row>) {
    Listed(endpoints, addresses) && Ends(endpoints.Keys, rows) && EndTotals(endpoints, rows)
  }

  /** The keys of a dictionary in their order. */
  ghost predicate Listed<K, V>(m: map<K, V>, order: seq<K>) { Distinct(order) && m.Keys == set k | k in order }

  predicate Pairs(keys: set<(string, string)>, rows: seq<Row>) {
    && (forall p :: p in keys ==> Le(p.0, p.1))
    && forall i :: 0 <= i < |rows| ==> PairOf(rows[i]) in keys
  }

  predicate Ends(keys: set<string>, rows: seq<Row>) {
    forall i :: 0 <= i < |rows| ==> rows[i].src in keys && rows[i].dst in keys
  }

  ghost predicate PairTotals(pairs: map<(string, string), Flow>, rows: seq<Row>) {
    forall p: (string, string) :: Le(p.0, p.1) ==>
      Expected(rows, p) == if p in pairs then pairs[p] else Flow(NOTHING, NOTHING)
  }

  ghost predicate EndTotals(endpoints: map<string, Tally>, rows: seq<Row>) {
    forall x :: Touching(rows, x) == if x in endpoints then endpoints[x] else NOTHING
  }

  function Seen<T(==)>(order: seq<T>, x: T, known: bool): seq<T> { if known then order else order + [x] }

  lemma TouchingNext(rows: seq<Row>, r: Row, x: string)
    ensures var sent := if r.src == x then Added(Touching(rows, x), r.length) else Touching(rows, x);
            Touching(rows + [r], x) == if r.dst == x then Added(sent, r.length) else sent
  {
    assert (rows + [r])[..|rows|] == rows;
  }

  lemma ListedNext<K, V>(m: map<K, V>, order: seq<K>, k: K, v: V)
    requires Listed(m, order)
    ensures Listed(m[k := v], Seen(order, k, k in m))
  {
    var more := Seen(order, k, k in m);
    assert k in m <==> k in order;
    assert forall x :: x in more <==> x in order || x == k;
  }

  lemma PairsNext(keys: set<(string, string)>, rows: seq<Row>, r: Row)
    requires Pairs(keys, rows)
    ensures Pairs(keys + {PairOf(r)}, rows + [r])
  {
    LeIsTotal(r.src, r.dst);
  }

  lemma EndsNext(keys: set<string>, rows: seq<Row>, r: Row)
    requires Ends(keys, rows)
    ensures Ends(keys + {r.src} + {r.dst}, rows + [r])
  {
  }

  lemma PairTotalsNext(pairs: map<(string, string), Flow>, rows: seq<Row>, r: Row, flow: Flow)
    requires PairTotals(pairs, rows)
    requires flow == if PairOf(r) in pairs then pairs[PairOf(r)] else Flow(NOTHING, NOTHING)
    ensures PairTotals(pairs[PairOf(r) := Counting(flow, r, r.src == PairOf(r).0)], rows + [r])
  {
    hide Expected, Le, PairOf, Counting;
    var more := pairs[PairOf(r) := Counting(flow, r, r.src == PairOf(r).0)];
    forall p: (string, string) | Le(p.0, p.1)
      ensures Expected(rows + [r], p) == if p in more then more[p] else Flow(NOTHING, NOTHING)
    {
      ExpectedNext(rows, r, p);
    }
  }

  /** One row into the pair table. */
  method AddToPairs(pairs: map<(string, string), Flow>, order: seq<(string, string)>, ghost rows: seq<Row>, r: Row)
      returns (pairs': map<(string, string), Flow>, order': seq<(string, string)>)
    requires FitsPairs(pairs, order, rows)
    ensures FitsPairs(pairs', order', rows + [r])
  {
    var key := PairOf(r);
    var conv := if key in pairs then pairs[key] else Flow(NOTHING, NOTHING);
    PairTotalsNext(pairs, rows, r, conv);
    PairsNext(pairs.Keys, rows, r);
    hide PairTotals, Pairs, Listed, Seen, PairOf;
    order' := Seen(order, key, key in pairs);
    if r.src == key.0 {
      conv := conv.(ab := Added(conv.ab, r.length));
    } else {
      conv := conv.(ba := Added(conv.ba, r.length));
    }
    pairs' := pairs[key := conv];
    ListedNext(pairs, order, key, conv);
    assert pairs'.Keys == pairs.Keys + {key};
  }

  lemma EndTotalsNext(endpoints: map<string, Tally>, rows: seq<Row>, r: Row,
                      once: map<string, Tally>, twice: map<string, Tally>)
    requires EndTotals(endpoints, rows)
    requires once == CountedAt(endpoints, r.src, r.length) && twice == CountedAt(once, r.dst, r.length)
    ensures EndTotals(twice, rows + [r])
  {
    hide Touching;
    forall x ensures Touching(rows + [r], x) == if x in twice then twice[x] else NOTHING {
      TouchingNext(rows, r, x);
    }
  }

  function CountedAt(endpoints: map<string, Tally>, x: string, length: int): map<string, Tally> {
    endpoints[x := Added(if x in endpoints then endpoints[x] else NOTHING, length)]
  }

  /** One row into the endpoint table, once for each end. */
  method AddToEndpoints(endpoints: map<string, Tally>, addresses: seq<string>, ghost rows: seq<Row>, r: Row)
      returns (endpoints': map<string, Tally>, addresses': seq<string>)
    requires FitsEndpoints(endpoints, addresses, rows)
    ensures FitsEndpoints(endpoints', addresses', rows + [r])
  {
    var ep := if r.src in endpoints then endpoints[r.src] else NOTHING;
    var once := endpoints[r.src := Added(ep, r.length)];
    var order := Seen(addresses, r.src, r.src in endpoints);
    ep := if r.dst in once then once[r.dst] else NOTHING;
    endpoints' := once[r.dst := Added(ep, r.length)];
    addresses' := Seen(order, r.dst, r.dst in once);
    EndTotalsNext(endpoints, rows, r, once, endpoints');
    EndsNext(endpoints.Keys, rows, r);
    hide EndTotals, Ends, Listed, Seen, Added;
    ListedNext(endpoints, addresses, r.src, once[r.src]);
    ListedNext(once, order, r.dst, endpoints'[r.dst]);
    assert endpoints'.Keys == endpoints.Keys + {r.src} + {r.dst};
  }

  function ConversationsOf(t: Tables): seq<Conversation>
    requires forall p :: p in t.order ==> p in t.pairs
  {
    seq(|t.order|, i requires 0 <= i < |t.order| => Conversation(t.order[i].0, t.order[i].1, t.pairs[t.order[i]]))
  }

  function EndpointsOf(t: Tables): seq<Endpoint>
    requires forall x :: x in t.addresses ==> x in t.endpoints
  {
    seq(|t.addresses|, i requires 0 <= i < |t.addresses| => Endpoint(t.addresses[i], t.endpoints[t.addresses[i]]))
  }

  function PacketsIn(conversations: seq<Conversation>): Tally {
    if |conversations| == 0 then NOTHING
    else
      var flow := conversations[|conversations| - 1].flow;
      Sum(PacketsIn(conversations[..|conversations| - 1]), Sum(flow.ab, flow.ba))
  }

  function PacketsAt(endpoints: seq<Endpoint>): Tally {
    if |endpoints| == 0 then NOTHING
    else Sum(PacketsAt(endpoints[..|endpoints| - 1]), endpoints[|endpoints| - 1].tally)
  }

  lemma {:induction false} PacketsAreTheSum(conversations: seq<Conversation>, order: seq<(string, string)>,
                                            rows: seq<Row>)
    requires |conversations| == |order|
    requires forall i :: 0 <= i < |order| ==> conversations[i].flow == Expected(rows, order[i])
    ensures PacketsIn(conversations) == SumOfPairs(order, rows)
  {
    if |order| > 0 {
      PacketsAreTheSum(conversations[..|order| - 1], order[..|order| - 1], rows);
    }
  }

  lemma {:induction false} TalliesAreTheSum(endpoints: seq<Endpoint>, addresses: seq<string>, rows: seq<Row>)
    requires |endpoints| == |addresses|
    requires forall i :: 0 <= i < |addresses| ==> endpoints[i].tally == Touching(rows, addresses[i])
    ensures PacketsAt(endpoints) == SumOfAddresses(addresses, rows)
  {
    if |addresses| > 0 {
      TalliesAreTheSum(endpoints[..|addresses| - 1], addresses[..|addresses| - 1], rows);
    }
  }

  /** Each pair once, ordered, with what its rows come to in each direction. */
  predicate IsPairTable(conversations: seq<Conversation>, rows: seq<Row>) {
    && (forall i :: 0 <= i < |conversations| ==>
          var c := conversations[i]; c.flow == Expected(rows, (c.a, c.b)) && Le(c.a, c.b))
    && forall i, j :: 0 <= i < j < |conversations| ==>
         (conversations[i].a, conversations[i].b) != (conversations[j].a, conversations[j].b)
  }

  predicate IsEndTable(endpoints: seq<Endpoint>, rows: seq<Row>) {
    && (forall i :: 0 <= i < |endpoints| ==> endpoints[i].tally == Touching(rows, endpoints[i].address))
    && forall i, j :: 0 <= i < j < |endpoints| ==> endpoints[i].address != endpoints[j].address
  }

  /**
   * The two tables: each pair once, with the counted rows of each direction; each address once,
   * with the rows it sent and received; and nothing lost or counted twice on the way.
   */
  method GetConversations(rows: seq<Row>, s: Sightings)
      returns (conversations: seq<Conversation>, endpoints: seq<Endpoint>)
    ensures IsPairTable(conversations, Kept(rows, s)) && IsEndTable(endpoints, Kept(rows, s))
    ensures PacketsIn(conversations) == All(Kept(rows, s))
    ensures PacketsAt(endpoints) == Sum(All(Kept(rows, s)), All(Kept(rows, s)))
  {
    var kept := Counted(rows, s);
    var t := Tables(map[], [], map[], []);
    hide Kept, FitsPairs, FitsEndpoints, IsPairTable, IsEndTable, PacketsIn, PacketsAt, All;
    NothingFits();
    for i := 0 to |kept|
      invariant Fits(t, kept[..i])
    {
      assert kept[..i] + [kept[i]] == kept[..i + 1];
      var pairs, order := AddToPairs(t.pairs, t.order, kept[..i], kept[i]);
      var ends, addresses := AddToEndpoints(t.endpoints, t.addresses, kept[..i], kept[i]);
      t := Tables(pairs, order, ends, addresses);
    }
    assert kept[..|kept|] == kept;
    InOrder(t, kept);
    conversations, endpoints := ConversationsOf(t), EndpointsOf(t);
    PairsReported(t, kept);
    EndsReported(t, kept);
  }

  lemma InOrder(t: Tables, rows: seq<Row>)
    requires Fits(t, rows)
    ensures forall p :: p in t.order <==> p in t.pairs
    ensures forall x :: x in t.addresses <==> x in t.endpoints
  {
  }

  lemma PairsListed(t: Tables, rows: seq<Row>)
    requires FitsPairs(t.pairs, t.order, rows) && forall p :: p in t.order <==> p in t.pairs
    ensures Distinct(t.order) && forall i :: 0 <= i < |t.order| ==> Le(t.order[i].0, t.order[i].1)
    ensures forall i :: 0 <= i < |t.order| ==> t.pairs[t.order[i]] == Expected(rows, t.order[i])
    ensures forall i :: 0 <= i < |rows| ==> PairOf(rows[i]) in t.order
  {
    hide Expected, Le, PairOf;
    forall i | 0 <= i < |t.order|
      ensures Le(t.order[i].0, t.order[i].1) && t.pairs[t.order[i]] == Expected(rows, t.order[i])
    {
      assert t.order[i] in t.pairs;
    }
  }

  /** What the finished tables say, as the lists that are returned. */
  lemma PairsReported(t: Tables, rows: seq<Row>)
    requires FitsPairs(t.pairs, t.order, rows) && forall p :: p in t.order <==> p in t.pairs
    ensures var c := ConversationsOf(t); IsPairTable(c, rows) && PacketsIn(c) == All(rows)
  {
    hide FitsPairs, Expected, All, PacketsIn, Le, PairOf;
    PairsListed(t, rows);
    PairsConserve(t.order, rows);
    PacketsAreTheSum(ConversationsOf(t), t.order, rows);
  }

  lemma EndsReported(t: Tables, rows: seq<Row>)
    requires FitsEndpoints(t.endpoints, t.addresses, rows) && forall x :: x in t.addresses <==> x in t.endpoints
    ensures var e := EndpointsOf(t); IsEndTable(e, rows) && PacketsAt(e) == Sum(All(rows), All(rows))
  {
    hide Touching, All, PacketsAt;
    forall i | 0 <= i < |t.addresses| ensures t.endpoints[t.addresses[i]] == Touching(rows, t.addresses[i]) {
      assert t.addresses[i] in t.endpoints;
    }
    assert Covers(t.addresses, rows);
    hide EndTotals, Ends, Listed, Covers;
    EndpointsConserve(t.addresses, rows);
    TalliesAreTheSum(EndpointsOf(t), t.addresses, rows);
  }

  lemma NothingFits()
    ensures Fits(Tables(map[], [], map[], []), [])
  {
  }
}
