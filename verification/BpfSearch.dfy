/**
 * The search over one protocol and two port slots, its verdicts, and what each verdict
 * justifies about every packet.
 */
module BpfSearch {
  import opened Bpf
  import opened BpfSoundness
  import opened Optional

  function PortsOf(c: Constraint): set<nat> {
    if |c| == 0 then {} else c[0].ports + PortsOf(c[1..])
  }

  function Candidates(cs: seq<Constraint>): set<nat> {
    if |cs| == 0 then {} else PortsOf(cs[0]) + Candidates(cs[1..])
  }

  predicate HoldsByAlternative(a: Alternative, proto: Proto, src: Option<nat>, dst: Option<nat>) {
    && (a.proto == None || a.proto == Some(proto))
    && ((a.slots.src && src.Some? && src.value in a.ports) || (a.slots.dst && dst.Some? && dst.value in a.ports))
  }

  /** `_holds`, with `None` standing for some port no constraint names. */
  predicate HoldsAt(c: Constraint, proto: Proto, src: Option<nat>, dst: Option<nat>) {
    exists i :: 0 <= i < |c| && HoldsByAlternative(c[i], proto, src, dst)
  }

  predicate AllHoldAt(cs: seq<Constraint>, proto: Proto, src: Option<nat>, dst: Option<nat>) {
    forall i :: 0 <= i < |cs| ==> HoldsAt(cs[i], proto, src, dst)
  }

  predicate Listable(v: Option<nat>, candidates: set<nat>) { v == None || v.value in candidates }

  /** What the search decides: some protocol and two values of the candidate list meet everything. */
  ghost predicate Searchable(cs: seq<Constraint>) {
    exists proto: Proto, src: Option<nat>, dst: Option<nat> ::
      Listable(src, Candidates(cs)) && Listable(dst, Candidates(cs)) && AllHoldAt(cs, proto, src, dst)
  }

  ghost predicate Satisfiable(cs: seq<Constraint>) {
    |cs| == 0 || |Candidates(cs)| > MAX_CANDIDATE_PORTS || Searchable(cs)
  }

  method Listed(s: set<nat>) returns (r: seq<Option<nat>>)
    ensures forall v :: v in r <==> Listable(v, s)
  {
    r := [None];
    var rest := s;
    while rest != {}
      invariant rest <= s
      invariant forall v :: v in r <==> Listable(v, s - rest)
      decreases |rest|
    {
      var p :| p in rest;
      rest := rest - {p};
      r := r + [Some(p)];
    }
    assert s - rest == s;
  }

  /** `_satisfiable`: every protocol against every pair of values, the order being immaterial. */
  method Search(cs: seq<Constraint>) returns (found: bool)
    ensures found <==> Satisfiable(cs)
  {
    if |cs| == 0 { return true; }
    var candidates := Candidates(cs);
    if |candidates| > MAX_CANDIDATE_PORTS { return true; }
    var values := Listed(candidates);
    var protos := [Tcp, Udp, Sctp];
    for i := 0 to |protos|
      invariant forall k, src, dst :: 0 <= k < i && src in values && dst in values ==>
                  !AllHoldAt(cs, protos[k], src, dst)
    {
      for j := 0 to |values|
        invariant forall m, dst :: 0 <= m < j && dst in values ==> !AllHoldAt(cs, protos[i], values[m], dst)
      {
        for k := 0 to |values|
          invariant forall m :: 0 <= m < k ==> !AllHoldAt(cs, protos[i], values[j], values[m])
        {
          if AllHoldAt(cs, protos[i], values[j], values[k]) { return true; }
        }
      }
    }
    forall proto: Proto, src: Option<nat>, dst: Option<nat> | Listable(src, candidates) && Listable(dst, candidates)
      ensures !AllHoldAt(cs, proto, src, dst)
    {
      var k := if proto == Tcp then 0 else if proto == Udp then 1 else 2;
      assert protos[k] == proto && src in values && dst in values;
    }
    return false;
  }

  // --- the small model stands for every packet ---------------------------------------------

  ghost predicate MeetsAll(cs: seq<Constraint>, p: Packet) {
    forall i :: 0 <= i < |cs| ==> Met(cs[i], p)
  }

  function Seen(port: nat, candidates: set<nat>): Option<nat> {
    if port in candidates then Some(port) else None
  }

  lemma {:induction false} PortsOfHas(c: Constraint, i: nat)
    requires i < |c|
    ensures c[i].ports <= PortsOf(c)
  {
    if i > 0 { PortsOfHas(c[1..], i - 1); }
  }

  lemma {:induction false} CandidatesHas(cs: seq<Constraint>, i: nat)
    requires i < |cs|
    ensures PortsOf(cs[i]) <= Candidates(cs)
  {
    if i > 0 { CandidatesHas(cs[1..], i - 1); }
  }

  /** A packet and what the search sees of it meet the same constraints. */
  lemma SeenIsEnough(cs: seq<Constraint>, i: nat, p: Packet)
    requires i < |cs| && p.Ported?
    ensures Met(cs[i], p) <==> HoldsAt(cs[i], p.proto, Seen(p.src, Candidates(cs)), Seen(p.dst, Candidates(cs)))
  {
    var c, all := cs[i], Candidates(cs);
    CandidatesHas(cs, i);
    forall k | 0 <= k < |c|
      ensures Meets(c[k], p) <==> HoldsByAlternative(c[k], p.proto, Seen(p.src, all), Seen(p.dst, all))
    {
      PortsOfHas(c, k);
    }
  }

  /** The search misses no packet, whatever its ports: constraints it refutes nothing can meet. */
  lemma RefutedMeansUnmet(cs: seq<Constraint>, p: Packet)
    requires !Satisfiable(cs)
    ensures !MeetsAll(cs, p)
  {
    if MeetsAll(cs, p) {
      assert Met(cs[0], p);
      var src, dst := Seen(p.src, Candidates(cs)), Seen(p.dst, Candidates(cs));
      forall i | 0 <= i < |cs|
        ensures HoldsAt(cs[i], p.proto, src, dst)
      {
        SeenIsEnough(cs, i, p);
      }
      assert Listable(src, Candidates(cs)) && Listable(dst, Candidates(cs)) && AllHoldAt(cs, p.proto, src, dst);
    }
  }

  predicate SixteenBit(p: Packet) { p.Ported? && p.src < 0x10000 && p.dst < 0x10000 }

  function UpTo(n: nat): (s: set<nat>)
    ensures forall x: nat :: x in s <==> x < n
    ensures |s| == n
  {
    if n == 0 then {} else UpTo(n - 1) + {n - 1}
  }

  /** Sixty-four named ports leave one of the first sixty-five unnamed. */
  lemma UnnamedPort(candidates: set<nat>) returns (port: nat)
    requires |candidates| <= MAX_CANDIDATE_PORTS
    ensures port <= MAX_CANDIDATE_PORTS && port !in candidates
  {
    var all := UpTo(MAX_CANDIDATE_PORTS + 1);
    if all <= candidates {
      SubsetSize(all, candidates);
      assert false;
    }
    port :| port in all && port !in candidates;
  }

  lemma SubsetSize(a: set<nat>, b: set<nat>)
    requires a <= b
    ensures |a| <= |b|
  {
    assert b == a + (b - a);
  }

  predicate InRange(cs: seq<Constraint>) { forall p :: p in Candidates(cs) ==> p < 0x10000 }

  /** The search succeeds exactly when some packet a wire can carry meets everything. */
  ghost predicate DecidedExactly(cs: seq<Constraint>) {
    Satisfiable(cs) <==> exists p: Packet :: (SixteenBit(p) && MeetsAll(cs, p))
  }

  /** The search is exact on ports a packet can carry: about 65 values stand for all 65,536. */
  lemma SearchIsExact(cs: seq<Constraint>)
    requires |Candidates(cs)| <= MAX_CANDIDATE_PORTS && InRange(cs)
    ensures DecidedExactly(cs)
  {
    if p: Packet :| SixteenBit(p) && MeetsAll(cs, p) {
      if !Satisfiable(cs) { RefutedMeansUnmet(cs, p); }
    }
    if Satisfiable(cs) {
      var other := UnnamedPort(Candidates(cs));
      if |cs| == 0 {
        assert SixteenBit(Ported(Tcp, 0, 0)) && MeetsAll(cs, Ported(Tcp, 0, 0));
      } else {
        var proto: Proto, src: Option<nat>, dst: Option<nat> :|
          Listable(src, Candidates(cs)) && Listable(dst, Candidates(cs)) && AllHoldAt(cs, proto, src, dst);
        var p := Ported(proto, if src == None then other else src.value, if dst == None then other else dst.value);
        forall i | 0 <= i < |cs|
          ensures Met(cs[i], p)
        {
          SeenIsEnough(cs, i, p);
          assert HoldsAt(cs[i], proto, src, dst);
        }
        assert SixteenBit(p) && MeetsAll(cs, p);
      }
    }
  }

  function ClipAlternative(a: Alternative): Alternative {
    a.(ports := set p | p in a.ports && p < 0x10000)
  }

  function Clip(c: Constraint): (r: Constraint)
    ensures |r| == |c|
    ensures forall i :: 0 <= i < |c| ==> r[i] == ClipAlternative(c[i])
  {
    if |c| == 0 then [] else [ClipAlternative(c[0])] + Clip(c[1..])
  }

  function ClipAll(cs: seq<Constraint>): (r: seq<Constraint>)
    ensures |r| == |cs|
    ensures forall i :: 0 <= i < |cs| ==> r[i] == Clip(cs[i])
  {
    if |cs| == 0 then [] else [Clip(cs[0])] + ClipAll(cs[1..])
  }

  lemma {:induction false} ClipPorts(c: Constraint)
    ensures PortsOf(Clip(c)) == set p | p in PortsOf(c) && p < 0x10000
  {
    if |c| != 0 {
      ClipPorts(c[1..]);
      assert Clip(c)[1..] == Clip(c[1..]);
    }
  }

  lemma {:induction false} ClipCandidates(cs: seq<Constraint>)
    ensures Candidates(ClipAll(cs)) == set p | p in Candidates(cs) && p < 0x10000
  {
    if |cs| != 0 {
      ClipPorts(cs[0]);
      ClipCandidates(cs[1..]);
      assert ClipAll(cs)[1..] == ClipAll(cs[1..]);
    }
  }

  lemma ClipMeets(c: Constraint, p: Packet)
    requires SixteenBit(p)
    ensures Met(Clip(c), p) <==> Met(c, p)
  {
    if Met(c, p) {
      var i :| 0 <= i < |c| && Meets(c[i], p);
      assert Meets(Clip(c)[i], p);
    }
  }

  /**
   * With at most 64 ports below 65536 named, and any number above: a real packet meets the list
   * exactly when the search succeeds on the list with the ports above 65535 dropped.
   */
  lemma SearchIsExactOnceClipped(cs: seq<Constraint>)
    requires |Candidates(ClipAll(cs))| <= MAX_CANDIDATE_PORTS
    ensures Satisfiable(ClipAll(cs)) <==> exists p: Packet :: (SixteenBit(p) && MeetsAll(cs, p))
  {
    var clipped := ClipAll(cs);
    ClipCandidates(cs);
    SearchIsExact(clipped);
    forall p: Packet | SixteenBit(p)
      ensures MeetsAll(clipped, p) <==> MeetsAll(cs, p)
    {
      forall i | 0 <= i < |cs|
        ensures Met(clipped[i], p) <==> Met(cs[i], p)
      {
        ClipMeets(cs[i], p);
      }
    }
  }

  // --- when the search is exact -------------------------------------------------------------

  /** The constraint that one of these ports is at either end, over any protocol. */
  function Naming(ports: set<nat>): Constraint { [Alternative(ports, Slots(true, true), None)] }

  lemma NamingIsMet(ports: set<nat>, p: Packet)
    ensures Met(Naming(ports), p) <==> p.Ported? && (p.src in ports || p.dst in ports)
  {
    assert Meets(Naming(ports)[0], p) <==> p.Ported? && (p.src in ports || p.dst in ports);
  }

  lemma NamingCandidates(ports: set<nat>)
    ensures PortsOf(Naming(ports)) == ports
  {
    assert Naming(ports)[1..] == [];
  }

  lemma CandidatesOfMore(c: Constraint, cs: seq<Constraint>)
    ensures Candidates([c] + cs) == PortsOf(c) + Candidates(cs)
  {
    assert ([c] + cs)[1..] == cs;
  }

  lemma CandidatesOfTwo(a: set<nat>, b: set<nat>)
    ensures Candidates([Naming(a), Naming(b)]) == a + b
  {
    NamingCandidates(a);
    NamingCandidates(b);
    CandidatesOfMore(Naming(b), []);
    CandidatesOfMore(Naming(a), [Naming(b)]);
    assert [Naming(b)] + [] == [Naming(b)] && [Naming(a)] + [Naming(b)] == [Naming(a), Naming(b)];
  }

  /** Three constraints over disjoint ports are met by no packet, which has two. */
  lemma ThreeAreNotMet(a: set<nat>, b: set<nat>, c: set<nat>, rest: seq<Constraint>, p: Packet)
    requires a !! b && b !! c && a !! c
    ensures !MeetsAll([Naming(a), Naming(b), Naming(c)] + rest, p)
  {
    var cs := [Naming(a), Naming(b), Naming(c)] + rest;
    NamingIsMet(a, p);
    NamingIsMet(b, p);
    NamingIsMet(c, p);
    if !Met(cs[0], p) {
      UnmetFails(cs, 0, p);
    } else if !Met(cs[1], p) {
      UnmetFails(cs, 1, p);
    } else {
      UnmetFails(cs, 2, p);
    }
  }

  lemma UnmetFails(cs: seq<Constraint>, i: nat, p: Packet)
    requires i < |cs| && !Met(cs[i], p)
    ensures !MeetsAll(cs, p)
  {
  }

  /** One port beyond 65535 asked for, and that same port found by the search. */
  lemma OutOfRangeMisleads(bad: nat, named: set<nat>)
    requires bad in named && bad >= 0x10000
    ensures var cs := [Naming({bad}), Naming(named)];
            && Candidates(cs) == named && Satisfiable(cs)
            && !exists p: Packet :: (SixteenBit(p) && MeetsAll(cs, p))
  {
    var cs := [Naming({bad}), Naming(named)];
    CandidatesOfTwo({bad}, named);
    assert {bad} + named == named;
    var src: Option<nat>, dst: Option<nat> := Some(bad), Some(bad);
    assert forall i :: 0 <= i < 2 ==> HoldsByAlternative(cs[i][0], Tcp, src, dst);
    assert Listable(src, Candidates(cs)) && Listable(dst, Candidates(cs)) && AllHoldAt(cs, Tcp, src, dst);
    forall p: Packet | SixteenBit(p) ensures !MeetsAll(cs, p) {
      NamingIsMet({bad}, p);
      UnmetFails(cs, 0, p);
    }
  }

  /** Three ports asked for at once, which no packet has, among more ports than the search tries. */
  lemma TooManyMislead(a: nat, b: nat, c: nat, named: set<nat>)
    requires a != b && b != c && a != c && {a, b, c} <= named && |named| > MAX_CANDIDATE_PORTS
    ensures var cs := [Naming({a}), Naming({b}), Naming({c}), Naming(named)];
            && Candidates(cs) == named && Satisfiable(cs) && forall p: Packet :: !MeetsAll(cs, p)
  {
    var cs := [Naming({a}), Naming({b}), Naming({c}), Naming(named)];
    NamingCandidates({a});
    NamingCandidates({b});
    CandidatesOfTwo({c}, named);
    CandidatesOfMore(Naming({b}), [Naming({c}), Naming(named)]);
    CandidatesOfMore(Naming({a}), [Naming({b}), Naming({c}), Naming(named)]);
    assert cs == [Naming({a})] + [Naming({b}), Naming({c}), Naming(named)];
    assert [Naming({b}), Naming({c}), Naming(named)] == [Naming({b})] + [Naming({c}), Naming(named)];
    assert {a} + ({b} + ({c} + named)) == named;
    assert cs == [Naming({a}), Naming({b}), Naming({c})] + [Naming(named)];
    forall p: Packet ensures !MeetsAll(cs, p) {
      ThreeAreNotMet({a}, {b}, {c}, [Naming(named)], p);
    }
  }

  lemma ThreeOf(named: set<nat>) returns (a: nat, b: nat, c: nat)
    requires |named| > 2
    ensures a != b && b != c && a != c && {a, b, c} <= named
  {
    a :| a in named;
    var most := named - {a};
    assert |most| > 1;
    b :| b in most;
    assert |most - {b}| > 0;
    c :| c in most - {b};
  }

  /** What the search needs of the ports a filter names. */
  predicate Tryable(named: set<nat>) {
    |named| <= MAX_CANDIDATE_PORTS && forall port :: port in named ==> port < 0x10000
  }

  /**
   * Whatever ports are named: every list that names them is decided exactly if and only if they
   * are at most 64 and all of 16 bits.
   */
  lemma WhenTheSearchIsExact(named: set<nat>)
    ensures Tryable(named) <==>
            forall cs: seq<Constraint> :: Candidates(cs) == named ==> DecidedExactly(cs)
  {
    if Tryable(named) {
      forall cs: seq<Constraint> | Candidates(cs) == named ensures DecidedExactly(cs) {
        SearchIsExact(cs);
      }
    } else if |named| > MAX_CANDIDATE_PORTS {
      var a, b, c := ThreeOf(named);
      TooManyMislead(a, b, c, named);
      assert !DecidedExactly([Naming({a}), Naming({b}), Naming({c}), Naming(named)]);
    } else {
      var bad :| bad in named && bad >= 0x10000;
      OutOfRangeMisleads(bad, named);
      assert !DecidedExactly([Naming({bad}), Naming(named)]);
    }
  }

  /** `port 70000 and port 80` passes the search, though no packet has a port 70000. */
  lemma OutOfRangePortsPass()
    ensures var cs := [Naming({70000}), Naming({80})];
            Satisfiable(cs) && !exists p: Packet :: (SixteenBit(p) && MeetsAll(cs, p))
  {
    var cs := [Naming({70000}), Naming({80})];
    var src: Option<nat>, dst: Option<nat> := Some(70000), Some(80);
    CandidatesOfTwo({70000}, {80});
    assert HoldsByAlternative(cs[0][0], Tcp, src, dst) && HoldsByAlternative(cs[1][0], Tcp, src, dst);
    assert Listable(src, Candidates(cs)) && Listable(dst, Candidates(cs)) && AllHoldAt(cs, Tcp, src, dst);
    forall p: Packet | SixteenBit(p) ensures !MeetsAll(cs, p) {
      NamingIsMet({70000}, p);
      UnmetFails(cs, 0, p);
    }
  }

  lemma NothingToClip(ports: set<nat>)
    requires forall port :: port in ports ==> port < 0x10000
    ensures Clip(Naming(ports)) == Naming(ports)
  {
    assert ClipAlternative(Naming(ports)[0]).ports == ports;
  }

  /** A wide range and two ports outside it: one packet cannot have all three. */
  lemma WideRangePasses(range: set<nat>, a: nat, b: nat)
    requires |range| > MAX_CANDIDATE_PORTS && a != b && a !in range && b !in range
    requires a < 0x10000 && b < 0x10000 && forall port :: port in range ==> port < 0x10000
    ensures var cs := [Naming(range), Naming({a}), Naming({b})];
            && Satisfiable(cs) && InRange(cs) && ClipAll(cs) == cs && forall p: Packet :: !MeetsAll(cs, p)
  {
    var cs := [Naming(range), Naming({a}), Naming({b})];
    NamingCandidates(range);
    CandidatesOfTwo({a}, {b});
    CandidatesOfMore(Naming(range), [Naming({a}), Naming({b})]);
    assert cs == [Naming(range)] + [Naming({a}), Naming({b})];
    SubsetSize(range, Candidates(cs));
    hide Candidates;
    NothingToClip(range);
    NothingToClip({a});
    NothingToClip({b});
    assert ClipAll(cs) == cs;
    forall p: Packet ensures !MeetsAll(cs, p) {
      ThreeAreNotMet(range, {a}, {b}, [], p);
      assert cs == cs + [];
    }
  }

  lemma {:induction false} RangeSize(lo: nat, more: nat)
    ensures |PortsBetween(lo, lo + more)| == more + 1
    decreases more
  {
    if more == 0 {
      assert PortsBetween(lo + 1, lo) == {};
    } else {
      RangeSize(lo + 1, more - 1);
    }
  }

  /**
   * `portrange 1-65 and port 100 and port 200` passes it too: its 67 ports are more than are tried,
   * all of them are of 16 bits, and no packet has three ports.
   */
  lemma SixtyFivePortsPass()
    ensures var cs := [Naming(PortsBetween(1, 65)), Naming({100}), Naming({200})];
            && Satisfiable(cs) && InRange(cs) && ClipAll(cs) == cs && forall p: Packet :: !MeetsAll(cs, p)
  {
    hide PortsBetween, Satisfiable, InRange, MeetsAll, ClipAll;
    RangeSize(1, 64);
    WideRangePasses(PortsBetween(1, 65), 100, 200);
  }

  // --- disjoint services ------------------------------------------------------------------------

  predicate PairwiseDisjoint(sets: seq<set<nat>>) {
    forall i, j :: 0 <= i < j < |sets| ==> sets[i] !! sets[j]
  }

  method AreDisjoint(sets: seq<set<nat>>) returns (r: bool)
    ensures r <==> PairwiseDisjoint(sets)
  {
    for i := 0 to |sets|
      invariant forall k, j :: 0 <= k < i && k < j < |sets| ==> sets[k] !! sets[j]
    {
      for j := i + 1 to |sets|
        invariant forall m :: i < m < j ==> sets[i] !! sets[m]
      {
        if !(sets[i] !! sets[j]) { return false; }
      }
    }
    return true;
  }

  ghost predicate DisjointPorts(cs: seq<Constraint>) {
    forall i, j :: 0 <= i < j < |cs| ==> PortsOf(cs[i]) !! PortsOf(cs[j])
  }

  lemma MetNamesAPort(c: Constraint, p: Packet)
    requires Met(c, p)
    ensures p.Ported? && (p.src in PortsOf(c) || p.dst in PortsOf(c))
  {
    var i :| 0 <= i < |c| && Meets(c[i], p);
    PortsOfHas(c, i);
  }

  /** Two slots: constraints over disjoint ports that one packet meets are exactly two, one at each end. */
  lemma DisjointMeansOppositeEnds(cs: seq<Constraint>, p: Packet)
    requires DisjointPorts(cs) && |cs| >= 2 && MeetsAll(cs, p)
    ensures |cs| == 2 && p.Ported?
    ensures (p.src in PortsOf(cs[0]) && p.dst in PortsOf(cs[1])) || (p.src in PortsOf(cs[1]) && p.dst in PortsOf(cs[0]))
  {
    MetNamesAPort(cs[0], p);
    MetNamesAPort(cs[1], p);
    assert PortsOf(cs[0]) !! PortsOf(cs[1]);
    if |cs| > 2 {
      assert PortsOf(cs[0]) !! PortsOf(cs[2]) && PortsOf(cs[1]) !! PortsOf(cs[2]);
      MetNamesAPort(cs[2], p);
    }
  }

  // --- verdicts -------------------------------------------------------------------------------------

  datatype Verdict = Quiet | MatchesNothing | CrossServiceOnly

  predicate Negates(tokens: seq<Token>) { "not" in tokens || "!" in tokens }

  function PortSets(cs: seq<Constraint>): seq<set<nat>> {
    if |cs| == 0 then []
    else (if PortsOf(cs[0]) != {} then [PortsOf(cs[0])] else []) + PortSets(cs[1..])
  }

  ghost function Check(tokens: seq<Token>): Verdict {
    if |tokens| == 0 || Negates(tokens) then Quiet
    else
      var cs := Collect(tokens);
      if |cs| < 2 then Quiet
      else if !Satisfiable(cs) then MatchesNothing
      else if |PortSets(cs)| >= 2 && PairwiseDisjoint(PortSets(cs)) then CrossServiceOnly
      else Quiet
  }

  /** `structural_check`, from the token list on. */
  method StructuralCheck(tokens: seq<Token>) returns (v: Verdict)
    ensures v == Check(tokens)
  {
    if |tokens| == 0 || Negates(tokens) { return Quiet; }
    var cs := Collect(tokens);
    if |cs| < 2 { return Quiet; }
    var met := Search(cs);
    if !met { return MatchesNothing; }
    var sets := PortSets(cs);
    if |sets| >= 2 {
      var apart := AreDisjoint(sets);
      if apart { return CrossServiceOnly; }
    }
    return Quiet;
  }

  lemma FilterMeetsAll(how: Reading, e: Expr, p: Packet)
    requires Faithful(e, p) && Holds(how, e)
    ensures MeetsAll(Collect(Flat(e)), p)
  {
    var cs := Collect(Flat(e));
    forall i | 0 <= i < |cs|
      ensures Met(cs[i], p)
    {
      CollectIsImplied(how, e, p, cs[i]);
    }
  }

  /**
   * "This filter cannot match any packet" is true of every packet, whatever the primitives the
   * check cannot read mean, and whichever way a chain mixing `and` with `or` is read.
   */
  lemma MatchesNothingIsSound(how: Reading, e: Expr, p: Packet)
    requires Check(Flat(e)) == MatchesNothing && Faithful(e, p)
    ensures !Holds(how, e)
  {
    if Holds(how, e) {
      FilterMeetsAll(how, e, p);
      RefutedMeansUnmet(Collect(Flat(e)), p);
    }
  }

  predicate NamesPorts(c: Constraint) { |c| > 0 && forall i :: 0 <= i < |c| ==> c[i].ports != {} }

  lemma ParsedNamesPorts(tokens: seq<Token>)
    requires ParseAlternative(tokens).Some?
    ensures ParseAlternative(tokens).value.ports != {}
  {
    var t := StripParens(tokens);
    var last := t[|t| - 1];
    if PortRange(last).Some? { RangeNamesPorts(last); }
  }

  lemma RangeNamesPorts(s: string)
    requires PortRange(s).Some?
    ensures PortRange(s).value != {}
  {
    var dash := DashAt(s);
    assert Number(s[..dash]) in PortRange(s).value;
  }

  lemma {:induction false} CollectedNamePorts(tokens: seq<Token>, c: Constraint)
    requires c in Collect(tokens)
    ensures NamesPorts(c)
    decreases |tokens|
  {
    hide ParseAlternative;
    var t := StripParens(tokens);
    var groups := SplitTopLevel(t, OR_TOKENS).value;
    if |groups| > 1 {
      ParseAllEach(groups, 0);
      forall i | 0 <= i < |c|
        ensures c[i].ports != {}
      {
        ParseAllEach(groups, i);
        ParsedNamesPorts(groups[i]);
      }
    } else {
      var parts := SplitTopLevel(t, AND_TOKENS).value;
      if |parts| > 1 {
        var i := CollectAllHas(t, parts, c);
        CollectedNamePorts(parts[i], c);
      } else {
        ParsedNamesPorts(t);
      }
    }
  }

  lemma {:induction false} AllNamedSets(cs: seq<Constraint>)
    requires forall i :: 0 <= i < |cs| ==> PortsOf(cs[i]) != {}
    ensures |PortSets(cs)| == |cs| && forall i :: 0 <= i < |cs| ==> PortSets(cs)[i] == PortsOf(cs[i])
  {
    if |cs| != 0 { AllNamedSets(cs[1..]); }
  }

  /**
   * "This filter matches only traffic between these services": any packet it matches meets
   * exactly two constraints, one with its source port and the other with its destination port.
   */
  lemma CrossServiceIsSound(how: Reading, e: Expr, p: Packet)
    requires Check(Flat(e)) == CrossServiceOnly && Faithful(e, p) && Holds(how, e)
    ensures var cs := Collect(Flat(e));
            && |cs| == 2 && p.Ported?
            && ((p.src in PortsOf(cs[0]) && p.dst in PortsOf(cs[1]))
                || (p.src in PortsOf(cs[1]) && p.dst in PortsOf(cs[0])))
  {
    var cs := Collect(Flat(e));
    forall i | 0 <= i < |cs|
      ensures PortsOf(cs[i]) != {}
    {
      CollectedNamePorts(Flat(e), cs[i]);
      PortsOfHas(cs[i], 0);
    }
    AllNamedSets(cs);
    forall i, j | 0 <= i < j < |cs|
      ensures PortsOf(cs[i]) !! PortsOf(cs[j])
    {
      assert PortSets(cs)[i] !! PortSets(cs)[j];
    }
    FilterMeetsAll(how, e, p);
    DisjointMeansOppositeEnds(cs, p);
  }
}
