/**
 * What a filter means, and why the constraints collected from its tokens are implied by it.
 * Both readings of a chain that mixes `and` with `or` are covered.
 */
module BpfSoundness {
  import opened Bpf
  import opened Optional

  /** A packet as the check sees it: one of the port-carrying protocols, or anything else. */
  datatype Packet = Ported(proto: Proto, src: nat, dst: nat) | Portless

  datatype Op = And(tok: Token) | Or(tok: Token)

  /**
   * A filter read against one packet: a chain of terms, each a primitive that carries whether
   * it holds of that packet, or a bracketed filter.
   */
  datatype Expr = One(t: Term) | More(rest: Expr, op: Op, t: Term)
  datatype Term = Prim(words: seq<Token>, holds: bool) | Group(e: Expr)

  /** `or` binding loosest, or `and` and `or` at one precedence, left to right as in pcap-filter(7). */
  datatype Reading = OrLoosest | LeftToRight

  function Flat(e: Expr): seq<Token> {
    match e
    case One(t) => FlatTerm(t)
    case More(rest, op, t) => Flat(rest) + [op.tok] + FlatTerm(t)
  }

  function FlatTerm(t: Term): seq<Token> {
    match t
    case Prim(words, _) => words
    case Group(e) => [OPEN] + Flat(e) + [CLOSE]
  }

  /** The finished disjuncts of a chain, and the one in progress. */
  function Value(how: Reading, e: Expr): (bool, bool)
    decreases e, 0
  {
    match e
    case One(t) => (false, TermHolds(how, t))
    case More(rest, op, t) =>
      var (done, last) := Value(how, rest);
      if op.And? then (done, last && TermHolds(how, t))
      else if how == OrLoosest then (done || last, TermHolds(how, t))
      else (done, last || TermHolds(how, t))
  }

  predicate Holds(how: Reading, e: Expr)
    decreases e, 1
  {
    Value(how, e).0 || Value(how, e).1
  }

  predicate TermHolds(how: Reading, t: Term)
    decreases t, 2
  {
    match t
    case Prim(_, holds) => holds
    case Group(e) => Holds(how, e)
  }

  predicate Meets(a: Alternative, p: Packet) {
    && p.Ported? && (a.proto == None || a.proto == Some(p.proto))
    && ((a.slots.src && p.src in a.ports) || (a.slots.dst && p.dst in a.ports))
  }

  predicate Met(c: Constraint, p: Packet) { exists i :: 0 <= i < |c| && Meets(c[i], p) }

  predicate Operator(tok: Token) { tok in OR_TOKENS || tok in AND_TOKENS }

  predicate Plain(words: seq<Token>) {
    |words| > 0 && forall i :: 0 <= i < |words| ==> words[i] != OPEN && words[i] != CLOSE && !Operator(words[i])
  }

  /** Primitives are operator-free, and those the check can read hold only of packets that meet them. */
  predicate Faithful(e: Expr, p: Packet) {
    match e
    case One(t) => FaithfulTerm(t, p)
    case More(rest, op, t) =>
      && Faithful(rest, p) && FaithfulTerm(t, p)
      && (match op case And(tok) => tok in AND_TOKENS case Or(tok) => tok in OR_TOKENS)
  }

  predicate FaithfulTerm(t: Term, p: Packet) {
    match t
    case Prim(words, holds) =>
      Plain(words) && (holds && ParseBare(words).Some? ==> Meets(ParseBare(words).value, p))
    case Group(e) => Faithful(e, p)
  }

  // --- running over well-bracketed tokens ------------------------------------------------

  lemma {:induction false} SplitRunConcat(s: Split, a: seq<Token>, b: seq<Token>, ops: set<Token>)
    ensures SplitRun(s, a + b, ops) == SplitRun(SplitRun(s, a, ops), b, ops)
    decreases |a|
  {
    if |a| == 0 {
      assert a + b == b;
    } else {
      assert (a + b)[1..] == a[1..] + b;
      SplitRunConcat(SplitStep(s, a[0], ops), a[1..], b, ops);
    }
  }

  lemma {:induction false} DepthConcat(d: nat, a: seq<Token>, b: seq<Token>)
    ensures DepthAfter(d, a + b) ==
            match DepthAfter(d, a) case None => None case Some(x) => DepthAfter(x, b)
    decreases |a|
  {
    if |a| == 0 {
      assert a + b == b;
    } else {
      assert (a + b)[1..] == a[1..] + b;
      if a[0] == OPEN {
        DepthConcat(d + 1, a[1..], b);
      } else if a[0] != CLOSE {
        DepthConcat(d, a[1..], b);
      } else if d != 0 {
        DepthConcat(d - 1, a[1..], b);
      }
    }
  }

  predicate Splits(ops: set<Token>) { ops == OR_TOKENS || ops == AND_TOKENS }

  /** Words change neither the depth nor, at any depth, the parts. */
  lemma {:induction false} PlainRun(s: Split, words: seq<Token>, ops: set<Token>)
    requires s.Splitting? && Splits(ops)
    requires forall i :: 0 <= i < |words| ==> words[i] != OPEN && words[i] != CLOSE && !Operator(words[i])
    ensures SplitRun(s, words, ops) == Splitting(s.done, s.part + words, s.depth)
    ensures DepthAfter(s.depth, words) == Some(s.depth)
    decreases |words|
  {
    if |words| == 0 {
      assert s.part + words == s.part;
    } else {
      PlainRun(SplitStep(s, words[0], ops), words[1..], ops);
      assert s.part + words == s.part + [words[0]] + words[1..];
    }
  }

  lemma {:induction false} TermRun(s: Split, t: Term, p: Packet, ops: set<Token>)
    requires s.Splitting? && Splits(ops) && FaithfulTerm(t, p)
    ensures SplitRun(s, FlatTerm(t), ops) == Splitting(s.done, s.part + FlatTerm(t), s.depth)
    ensures DepthAfter(s.depth, FlatTerm(t)) == Some(s.depth)
    decreases t
  {
    match t
    case Prim(words, _) => PlainRun(s, words, ops);
    case Group(e) =>
      var inside := Splitting(s.done, s.part + [OPEN], s.depth + 1);
      BracketRun(s, [OPEN], ops);
      DeepRun(inside, e, p, ops);
      var after := Splitting(s.done, s.part + [OPEN] + Flat(e), s.depth + 1);
      BracketRun(after, [CLOSE], ops);
      SplitRunConcat(s, [OPEN], Flat(e), ops);
      SplitRunConcat(s, [OPEN] + Flat(e), [CLOSE], ops);
      DepthConcat(s.depth, [OPEN], Flat(e));
      DepthConcat(s.depth, [OPEN] + Flat(e), [CLOSE]);
      assert s.part + FlatTerm(t) == s.part + [OPEN] + Flat(e) + [CLOSE];
  }

  lemma BracketRun(s: Split, one: seq<Token>, ops: set<Token>)
    requires |one| == 1
    ensures SplitRun(s, one, ops) == SplitStep(s, one[0], ops)
    ensures s.Splitting? && one[0] == OPEN ==> DepthAfter(s.depth, one) == Some(s.depth + 1)
    ensures s.Splitting? && one[0] == CLOSE && s.depth > 0 ==> DepthAfter(s.depth, one) == Some(s.depth - 1)
  {
    assert one[1..] == [];
    assert SplitRun(s, one, ops) == SplitRun(SplitStep(s, one[0], ops), one[1..], ops);
  }

  /** Inside brackets nothing splits. */
  lemma {:induction false} DeepRun(s: Split, e: Expr, p: Packet, ops: set<Token>)
    requires s.Splitting? && s.depth > 0 && Splits(ops) && Faithful(e, p)
    ensures SplitRun(s, Flat(e), ops) == Splitting(s.done, s.part + Flat(e), s.depth)
    ensures DepthAfter(s.depth, Flat(e)) == Some(s.depth)
    decreases e
  {
    match e
    case One(t) => TermRun(s, t, p, ops);
    case More(rest, op, t) =>
      DeepRun(s, rest, p, ops);
      var s1 := Splitting(s.done, s.part + Flat(rest), s.depth);
      var s2 := Splitting(s.done, s.part + Flat(rest) + [op.tok], s.depth);
      BracketRun(s1, [op.tok], ops);
      DepthStep(s.depth, op.tok);
      TermRun(s2, t, p, ops);
      SplitRunConcat(s, Flat(rest), [op.tok], ops);
      SplitRunConcat(s, Flat(rest) + [op.tok], FlatTerm(t), ops);
      DepthConcat(s.depth, Flat(rest), [op.tok]);
      DepthConcat(s.depth, Flat(rest) + [op.tok], FlatTerm(t));
      assert s.part + Flat(e) == s.part + Flat(rest) + [op.tok] + FlatTerm(t);
  }

  lemma DepthStep(d: nat, tok: Token)
    requires tok != OPEN && tok != CLOSE
    ensures DepthAfter(d, [tok]) == Some(d)
  {
    assert [tok][1..] == [];
    assert DepthAfter(d, [tok]) == DepthAfter(d, [tok][1..]);
  }

  // --- splitting a chain at its own operators ----------------------------------------------

  /** The sub-chains between the operators of `ops`: the finished ones and the last. */
  function Chains(e: Expr, ops: set<Token>): (seq<Expr>, Expr) {
    match e
    case One(_) => ([], e)
    case More(rest, op, t) =>
      var (done, last) := Chains(rest, ops);
      if op.tok in ops then (done + [last], One(t)) else (done, More(last, op, t))
  }

  function FlatAll(es: seq<Expr>): seq<seq<Token>> {
    seq(|es|, i requires 0 <= i < |es| => Flat(es[i]))
  }

  lemma {:induction false} ChainRun(e: Expr, p: Packet, ops: set<Token>)
    requires Faithful(e, p) && Splits(ops)
    ensures var (done, last) := Chains(e, ops);
            SplitRun(Splitting([], [], 0), Flat(e), ops) == Splitting(FlatAll(done), Flat(last), 0)
    decreases e
  {
    var start := Splitting([], [], 0);
    match e
    case One(t) =>
      TermRun(start, t, p, ops);
      assert [] + Flat(e) == Flat(e);
    case More(rest, op, t) =>
      ChainRun(rest, p, ops);
      var (done, last) := Chains(rest, ops);
      var s1 := Splitting(FlatAll(done), Flat(last), 0);
      BracketRun(s1, [op.tok], ops);
      SplitRunConcat(start, Flat(rest), [op.tok], ops);
      SplitRunConcat(start, Flat(rest) + [op.tok], FlatTerm(t), ops);
      var s2 := SplitStep(s1, op.tok, ops);
      TermRun(s2, t, p, ops);
      if op.tok in ops {
        assert FlatAll(done + [last]) == FlatAll(done) + [Flat(last)];
        assert [] + FlatTerm(t) == FlatTerm(t);
      }
  }

  function AllChains(e: Expr, ops: set<Token>): seq<Expr> {
    Chains(e, ops).0 + [Chains(e, ops).1]
  }

  /** The splitter cuts a filter's tokens exactly between the filter's own top-level operators. */
  lemma SplitIsChains(e: Expr, p: Packet, ops: set<Token>)
    requires Faithful(e, p) && Splits(ops)
    ensures SplitTopLevel(Flat(e), ops) == Some(FlatAll(AllChains(e, ops)))
  {
    ChainRun(e, p, ops);
    var (done, last) := Chains(e, ops);
    assert FlatAll(done + [last]) == FlatAll(done) + [Flat(last)];
  }

  // --- stripping -----------------------------------------------------------------------------

  function FirstTerm(e: Expr): Term {
    match e case One(t) => t case More(rest, _, _) => FirstTerm(rest)
  }

  function AfterFirst(e: Expr): seq<Token> {
    match e case One(_) => [] case More(rest, op, t) => AfterFirst(rest) + [op.tok] + FlatTerm(t)
  }

  lemma {:induction false} FlatFromFirst(e: Expr, p: Packet)
    requires Faithful(e, p)
    ensures Flat(e) == FlatTerm(FirstTerm(e)) + AfterFirst(e)
    ensures FaithfulTerm(FirstTerm(e), p)
    ensures e.More? ==> |AfterFirst(e)| >= 2
    decreases e
  {
    match e
    case One(t) =>
    case More(rest, op, t) =>
      FlatFromFirst(rest, p);
      TermNotEmpty(t, p);
  }

  lemma TermNotEmpty(t: Term, p: Packet)
    requires FaithfulTerm(t, p)
    ensures |FlatTerm(t)| > 0
  {
  }

  /** A chain of two or more terms keeps its outer brackets: the first one closes before the end. */
  lemma ChainIsNotWrapped(e: Expr, p: Packet)
    requires Faithful(e, p) && e.More?
    ensures StripParens(Flat(e)) == Flat(e)
  {
    FlatFromFirst(e, p);
    var first, after, all := FirstTerm(e), AfterFirst(e), Flat(e);
    if |all| >= 2 && all[0] == OPEN {
      TermNotEmpty(first, p);
      assert all[0] == FlatTerm(first)[0];
      match first
      case Prim(_, _) =>
      case Group(g) =>
        var tail := after[..|after| - 1];
        assert all[1..|all| - 1] == Flat(g) + ([CLOSE] + tail);
        DepthOfChain(g, p);
        DepthConcat(0, Flat(g), [CLOSE] + tail);
        assert !Wrapped(all);
    }
  }

  lemma DepthOfChain(e: Expr, p: Packet)
    requires Faithful(e, p)
    ensures DepthAfter(0, Flat(e)) == Some(0)
  {
    match e
    case One(t) => TermRun(Splitting([], [], 0), t, p, OR_TOKENS);
    case More(rest, op, t) =>
      DepthOfChain(rest, p);
      DepthStep(0, op.tok);
      TermRun(Splitting([], [], 0), t, p, OR_TOKENS);
      DepthConcat(0, Flat(rest), [op.tok]);
      DepthConcat(0, Flat(rest) + [op.tok], FlatTerm(t));
  }

  /** Brackets around a whole filter come off. */
  lemma GroupStrips(e: Expr, p: Packet)
    requires Faithful(e, p)
    ensures StripParens(Flat(One(Group(e)))) == StripParens(Flat(e))
  {
    var all := Flat(One(Group(e)));
    assert all == [OPEN] + Flat(e) + [CLOSE];
    assert all[1..|all| - 1] == Flat(e);
    DepthOfChain(e, p);
  }

  // --- reading one port term -------------------------------------------------------------------

  predicate StartsUnlikeAnOperator(tok: Token) { |tok| > 0 && tok[0] !in {'a', 'o', '|', '&'} }

  lemma NotAnOperator(tok: Token)
    requires StartsUnlikeAnOperator(tok)
    ensures !Operator(tok)
  {
    assert forall op :: op in {"or", "||", "and", "&&"} ==> op[0] in {'a', 'o', '|', '&'};
  }

  lemma PortWord(tok: Token)
    requires tok in {"tcp", "udp", "sctp", "src", "dst", "port", "portrange"} || (|tok| > 0 && IsDigit(tok[0]))
    ensures StartsUnlikeAnOperator(tok)
  {
  }

  lemma PortValue(word: Token, value: Token)
    requires IsDigits(value) || PortRange(value).Some?
    ensures |value| > 0 && IsDigit(value[0])
  {
  }

  /** A term the check reads as ports is free of operators: at most four fixed words. */
  lemma PortTermIsPlain(tokens: seq<Token>, i: nat)
    requires ParseBare(tokens).Some? && i < |tokens|
    ensures !Operator(tokens[i])
  {
    hide PortRange, IsDigits;
    var proto := ProtoOf(tokens[0]);
    var rest := if proto == None then tokens else tokens[1..];
    var term := if rest[0] == "src" || rest[0] == "dst" then rest[1..] else rest;
    assert |term| == 2 && term[0] in {"port", "portrange"};
    PortValue(term[0], term[1]);
    var n := |tokens|;
    assert term[1] == tokens[n - 1] && term[0] == tokens[n - 2];
    assert n > 2 ==> tokens[0] in {"tcp", "udp", "sctp", "src", "dst"};
    assert n > 3 ==> tokens[1] in {"src", "dst"};
    assert n <= 4;
    PortWord(tokens[i]);
    NotAnOperator(tokens[i]);
  }

  lemma GroupHolds(how: Reading, g: Expr)
    ensures Holds(how, One(Group(g))) == Holds(how, g)
  {
    assert TermHolds(how, Group(g)) == Holds(how, g);
  }

  /** A whole chain read as one port term is that term, and it means what the packet must meet. */
  lemma {:induction false} TermIsMet(how: Reading, e: Expr, p: Packet)
    requires Faithful(e, p) && Holds(how, e) && ParseAlternative(Flat(e)).Some?
    ensures Meets(ParseAlternative(Flat(e)).value, p)
    decreases e
  {
    hide ParseBare, Meets;
    PortTermIsOne(e, p);
    match e.t
    case Prim(words, holds) =>
      PrimIsBare(words);
      assert TermHolds(how, e.t);
      assert Flat(e) == words && holds;
    case Group(g) =>
      GroupStrips(g, p);
      GroupHolds(how, g);
      TermIsMet(how, g, p);
  }

  lemma PrimIsBare(words: seq<Token>)
    requires Plain(words)
    ensures StripParens(words) == words
  {
  }

  lemma PortTermIsOne(e: Expr, p: Packet)
    requires Faithful(e, p) && ParseAlternative(Flat(e)).Some?
    ensures e.One?
  {
    if e.More? {
      hide ParseBare;
      ChainIsNotWrapped(e, p);
      assert Flat(e)[|Flat(e.rest)|] == e.op.tok;
      PortTermIsPlain(Flat(e), |Flat(e.rest)|);
    }
  }

  // --- disjunctions ---------------------------------------------------------------------------

  lemma {:induction false} ParseAllEach(groups: seq<seq<Token>>, i: nat)
    requires ParseAll(groups).Some? && i < |groups|
    ensures |ParseAll(groups).value| == |groups|
    ensures ParseAlternative(groups[i]) == Some(ParseAll(groups).value[i])
  {
    if i > 0 { ParseAllEach(groups[1..], i - 1); }
    if |groups| > 1 { ParseAllEach(groups[1..], 0); }
  }

  lemma {:induction false} ChainsFaithful(e: Expr, p: Packet, ops: set<Token>)
    requires Faithful(e, p)
    ensures forall i :: 0 <= i < |AllChains(e, ops)| ==> Faithful(AllChains(e, ops)[i], p)
    decreases e
  {
    match e
    case One(_) =>
    case More(rest, op, t) =>
      ChainsFaithful(rest, p, ops);
      var (done, last) := Chains(rest, ops);
      assert AllChains(rest, ops)[|done|] == last;
      forall i | 0 <= i < |AllChains(e, ops)|
        ensures Faithful(AllChains(e, ops)[i], p)
      {
        if i < |done| { assert AllChains(rest, ops)[i] == done[i]; }
      }
  }

  /** A chain of single terms joined by `or` holds, in either reading, only if one of them does. */
  lemma {:induction false} SomeDisjunctHolds(how: Reading, e: Expr, p: Packet) returns (i: nat)
    requires Faithful(e, p) && Holds(how, e)
    requires forall k :: 0 <= k < |AllChains(e, OR_TOKENS)| ==> AllChains(e, OR_TOKENS)[k].One?
    ensures i < |AllChains(e, OR_TOKENS)| && Holds(how, AllChains(e, OR_TOKENS)[i])
    decreases e
  {
    match e
    case One(_) => i := 0;
    case More(rest, op, t) =>
      var (done, last) := Chains(rest, OR_TOKENS);
      assert AllChains(e, OR_TOKENS)[|AllChains(e, OR_TOKENS)| - 1].One?;
      assert op.Or?;
      if TermHolds(how, t) {
        i := |AllChains(e, OR_TOKENS)| - 1;
      } else {
        forall k | 0 <= k < |AllChains(rest, OR_TOKENS)|
          ensures AllChains(rest, OR_TOKENS)[k].One?
        {
          assert AllChains(rest, OR_TOKENS)[k] == AllChains(e, OR_TOKENS)[k];
        }
        i := SomeDisjunctHolds(how, rest, p);
        assert AllChains(rest, OR_TOKENS)[i] == AllChains(e, OR_TOKENS)[i];
      }
  }

  lemma DisjunctionIsMet(how: Reading, e: Expr, p: Packet, c: Constraint)
    requires Faithful(e, p) && Holds(how, e)
    requires ParseAll(FlatAll(AllChains(e, OR_TOKENS))) == Some(c)
    ensures Met(c, p)
  {
    var chains := AllChains(e, OR_TOKENS);
    ChainsFaithful(e, p, OR_TOKENS);
    forall k | 0 <= k < |chains|
      ensures chains[k].One?
    {
      ParseAllEach(FlatAll(chains), k);
      PortTermIsOne(chains[k], p);
    }
    var i := SomeDisjunctHolds(how, e, p);
    ParseAllEach(FlatAll(chains), i);
    TermIsMet(how, chains[i], p);
  }

  // --- conjunctions ---------------------------------------------------------------------------

  predicate AllAnd(e: Expr) {
    match e case One(_) => true case More(rest, op, _) => op.And? && AllAnd(rest)
  }

  function Terms(e: Expr): seq<Expr> {
    match e case One(_) => [e] case More(rest, _, t) => Terms(rest) + [One(t)]
  }

  lemma {:induction false} OneDisjunctIsAllAnd(e: Expr, p: Packet)
    requires Faithful(e, p) && |AllChains(e, OR_TOKENS)| == 1
    ensures AllAnd(e)
    decreases e
  {
    if e.More? {
      assert e.op.tok !in OR_TOKENS;
      OneDisjunctIsAllAnd(e.rest, p);
    }
  }

  lemma {:induction false} AllAndChains(e: Expr, p: Packet)
    requires Faithful(e, p) && AllAnd(e)
    ensures AllChains(e, AND_TOKENS) == Terms(e) && Chains(e, AND_TOKENS).1.One?
    decreases e
  {
    match e
    case One(_) =>
    case More(rest, op, t) => AllAndChains(rest, p);
  }

  /** Both readings make a pure `and` chain the conjunction of its terms. */
  lemma {:induction false} EveryConjunctHolds(how: Reading, e: Expr, p: Packet, i: nat)
    requires Faithful(e, p) && AllAnd(e) && i < |Terms(e)|
    ensures !Value(how, e).0
    ensures Holds(how, e) ==> Holds(how, Terms(e)[i])
    ensures Faithful(Terms(e)[i], p) && Terms(e)[i].One?
    ensures |Flat(Terms(e)[i])| <= |Flat(e)| && (e.More? ==> |Flat(Terms(e)[i])| < |Flat(e)|)
    decreases e
  {
    match e
    case One(_) =>
    case More(rest, op, t) =>
      EveryConjunctHolds(how, rest, p, if i < |Terms(rest)| then i else 0);
  }

  lemma {:induction false} CollectAllHas(whole: seq<Token>, parts: seq<seq<Token>>, c: Constraint) returns (i: nat)
    requires forall k :: 0 <= k < |parts| ==> |parts[k]| < |whole|
    requires c in CollectAll(whole, parts)
    ensures i < |parts| && c in Collect(parts[i])
    decreases |parts|
  {
    if c in Collect(parts[0]) {
      i := 0;
    } else {
      i := CollectAllHas(whole, parts[1..], c);
      i := i + 1;
    }
  }

  lemma MetByOne(a: Alternative, p: Packet)
    requires Meets(a, p)
    ensures Met([a], p)
  {
    assert [a][0] == a;
  }

  lemma CollectOfStripped(a: seq<Token>, b: seq<Token>)
    requires StripParens(a) == StripParens(b)
    ensures Collect(a) == Collect(b)
  {
  }

  // --- the soundness of collecting ---------------------------------------------------------------

  /** Whatever its primitives mean, a filter that holds of a packet meets every constraint collected from it. */
  lemma {:induction false} CollectIsImplied(how: Reading, e: Expr, p: Packet, c: Constraint)
    requires Faithful(e, p) && Holds(how, e) && c in Collect(Flat(e))
    ensures Met(c, p)
    decreases |Flat(e)|
  {
    hide ParseBare, Met, Meets;
    match e
    case One(Group(g)) =>
      GroupStrips(g, p);
      CollectOfStripped(Flat(e), Flat(g));
      GroupHolds(how, g);
      CollectIsImplied(how, g, p, c);
    case One(Prim(words, _)) =>
      PrimIsBare(words);
      SplitIsChains(e, p, OR_TOKENS);
      SplitIsChains(e, p, AND_TOKENS);
      TermIsMet(how, e, p);
      MetByOne(ParseAlternative(words).value, p);
    case More(rest, op, t) =>
      ChainIsNotWrapped(e, p);
      SplitIsChains(e, p, OR_TOKENS);
      SplitIsChains(e, p, AND_TOKENS);
      var ors := AllChains(e, OR_TOKENS);
      if |ors| > 1 {
        DisjunctionIsMet(how, e, p, c);
      } else {
        ConjunctionIsMet(how, e, p, c);
      }
  }

  lemma {:induction false} ConjunctionIsMet(how: Reading, e: Expr, p: Packet, c: Constraint)
    requires Faithful(e, p) && Holds(how, e) && e.More? && |AllChains(e, OR_TOKENS)| == 1
    requires c in Collect(Flat(e))
    ensures Met(c, p)
    decreases |Flat(e)|, 0
  {
    ChainIsNotWrapped(e, p);
    SplitIsChains(e, p, OR_TOKENS);
    SplitIsChains(e, p, AND_TOKENS);
    OneDisjunctIsAllAnd(e, p);
    AllAndChains(e, p);
    var parts := FlatAll(Terms(e));
    forall k | 0 <= k < |parts|
      ensures |parts[k]| < |Flat(e)|
    {
      EveryConjunctHolds(how, e, p, k);
    }
    var i := CollectAllHas(Flat(e), parts, c);
    EveryConjunctHolds(how, e, p, i);
    CollectIsImplied(how, Terms(e)[i], p, c);
  }
}
