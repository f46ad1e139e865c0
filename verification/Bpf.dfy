/**
 * The structural filter check of backend/bpf.py: splitting, stripping and flattening a token
 * list into port constraints, and the small search that says whether one packet can meet them.
 */
module Bpf {
  import opened Optional

  type Token = string

  const OPEN: Token := "("
  const CLOSE: Token := ")"
  const OR_TOKENS: set<Token> := {"or", "||"}
  const AND_TOKENS: set<Token> := {"and", "&&"}
  const MAX_CANDIDATE_PORTS := 64

  datatype Proto = Tcp | Udp | Sctp

  datatype Slots = Slots(src: bool, dst: bool)

  /** One port-shaped term; without a protocol it rides on any of the three. */
  datatype Alternative = Alternative(ports: set<nat>, slots: Slots, proto: Option<Proto>)

  /** A packet meets a constraint by meeting one of its alternatives. */
  type Constraint = seq<Alternative>

  // --- splitting and stripping ---------------------------------------------------------

  /** The splitter after some tokens: the finished parts, the part in progress, the depth. */
  datatype Split = Unbalanced | Splitting(done: seq<seq<Token>>, part: seq<Token>, depth: nat)

  function SplitStep(s: Split, tok: Token, operators: set<Token>): Split {
    match s
    case Unbalanced => Unbalanced
    case Splitting(done, part, depth) =>
      if tok == OPEN then Splitting(done, part + [tok], depth + 1)
      else if tok == CLOSE then
        if depth == 0 then Unbalanced else Splitting(done, part + [tok], depth - 1)
      else if depth == 0 && tok in operators then Splitting(done + [part], [], depth)
      else Splitting(done, part + [tok], depth)
  }

  function SplitRun(s: Split, tokens: seq<Token>, operators: set<Token>): Split
    decreases |tokens|
  {
    if |tokens| == 0 then s else SplitRun(SplitStep(s, tokens[0], operators), tokens[1..], operators)
  }

  /** Tokens held by finished parts, counting the operator that closed each. */
  function Held(parts: seq<seq<Token>>): nat {
    if |parts| == 0 then 0 else Held(parts[..|parts| - 1]) + |parts[|parts| - 1]| + 1
  }

  lemma {:induction false} SplitKeepsTokens(s: Split, tokens: seq<Token>, operators: set<Token>)
    requires s.Splitting?
    ensures var r := SplitRun(s, tokens, operators);
            r.Splitting? ==> Held(r.done) + |r.part| == Held(s.done) + |s.part| + |tokens|
    decreases |tokens|
  {
    if |tokens| != 0 {
      var next := SplitStep(s, tokens[0], operators);
      if next.Splitting? {
        assert (s.done + [s.part])[..|s.done|] == s.done;
        SplitKeepsTokens(next, tokens[1..], operators);
      } else {
        UnbalancedStays(tokens[1..], operators);
      }
    }
  }

  lemma {:induction false} PartsFit(parts: seq<seq<Token>>)
    ensures |parts| <= Held(parts)
    ensures forall i :: 0 <= i < |parts| ==> |parts[i]| < Held(parts)
  {
    if |parts| != 0 { PartsFit(parts[..|parts| - 1]); }
  }

  function SplitTopLevel(tokens: seq<Token>, operators: set<Token>): (r: Option<seq<seq<Token>>>)
    ensures r.Some? ==> |r.value| >= 1
    ensures r.Some? && |r.value| > 1 ==> forall i :: 0 <= i < |r.value| ==> |r.value[i]| < |tokens|
  {
    var s := SplitRun(Splitting([], [], 0), tokens, operators);
    SplitKeepsTokens(Splitting([], [], 0), tokens, operators);
    PartsFit(if s.Splitting? then s.done else []);
    if s.Unbalanced? || s.depth != 0 then None else Some(s.done + [s.part])
  }

  /** `_split_top_level`: one pass with a depth counter, appending to the last part. */
  method SplitTokens(tokens: seq<Token>, operators: set<Token>) returns (r: Option<seq<seq<Token>>>)
    ensures r == SplitTopLevel(tokens, operators)
  {
    var parts: seq<seq<Token>> := [[]];
    var depth := 0;
    for i := 0 to |tokens|
      invariant |parts| >= 1 && depth >= 0
      invariant SplitRun(Splitting(parts[..|parts| - 1], parts[|parts| - 1], depth), tokens[i..], operators)
             == SplitRun(Splitting([], [], 0), tokens, operators)
    {
      var tok := tokens[i];
      assert tokens[i..][0] == tok && tokens[i..][1..] == tokens[i + 1..];
      if tok == OPEN {
        depth := depth + 1;
      } else if tok == CLOSE {
        depth := depth - 1;
        if depth < 0 {
          UnbalancedStays(tokens[i + 1..], operators);
          return None;
        }
      } else if depth == 0 && tok in operators {
        assert (parts + [[]])[..|parts|] == parts[..|parts| - 1] + [parts[|parts| - 1]];
        parts := parts + [[]];
        continue;
      }
      ghost var before := parts;
      parts := parts[|parts| - 1 := parts[|parts| - 1] + [tok]];
      assert parts[..|parts| - 1] == before[..|parts| - 1];
    }
    assert parts[..|parts| - 1] + [parts[|parts| - 1]] == parts;
    r := if depth != 0 then None else Some(parts);
  }

  lemma {:induction false} UnbalancedStays(tokens: seq<Token>, operators: set<Token>)
    ensures SplitRun(Unbalanced, tokens, operators) == Unbalanced
  {
    if |tokens| != 0 {
      UnbalancedStays(tokens[1..], operators);
    }
  }

  /** The depth after `tokens`, or nothing once a bracket closes that was never opened. */
  function DepthAfter(depth: nat, tokens: seq<Token>): Option<nat>
    decreases |tokens|
  {
    if |tokens| == 0 then Some(depth)
    else if tokens[0] == OPEN then DepthAfter(depth + 1, tokens[1..])
    else if tokens[0] == CLOSE then
      if depth == 0 then None else DepthAfter(depth - 1, tokens[1..])
    else DepthAfter(depth, tokens[1..])
  }

  predicate Wrapped(tokens: seq<Token>) {
    && |tokens| >= 2 && tokens[0] == OPEN && tokens[|tokens| - 1] == CLOSE
    && DepthAfter(0, tokens[1..|tokens| - 1]) == Some(0)
  }

  function StripParens(tokens: seq<Token>): (r: seq<Token>)
    ensures !Wrapped(r) && |r| <= |tokens|
    decreases |tokens|
  {
    if Wrapped(tokens) then StripParens(tokens[1..|tokens| - 1]) else tokens
  }

  /** `_strip_parens`: brackets come off only while the last one closes the first. */
  method StripTokens(tokens: seq<Token>) returns (r: seq<Token>)
    ensures r == StripParens(tokens)
  {
    r := tokens;
    while |r| >= 2 && r[0] == OPEN && r[|r| - 1] == CLOSE
      invariant StripParens(r) == StripParens(tokens)
      decreases |r|
    {
      var inner := r[1..|r| - 1];
      var depth := 0;
      for i := 0 to |inner|
        invariant depth >= 0 && DepthAfter(depth, inner[i..]) == DepthAfter(0, inner)
      {
        assert inner[i..][0] == inner[i] && inner[i..][1..] == inner[i + 1..];
        if inner[i] == OPEN {
          depth := depth + 1;
        } else if inner[i] == CLOSE {
          depth := depth - 1;
          if depth < 0 { return; }
        }
      }
      if depth != 0 { return; }
      r := inner;
    }
  }

  // --- one port term ---------------------------------------------------------------------

  predicate IsDigit(c: char) { '0' <= c <= '9' }

  predicate IsDigits(s: string) { |s| > 0 && forall i :: 0 <= i < |s| ==> IsDigit(s[i]) }

  function DigitValue(c: char): (d: nat)
    requires IsDigit(c)
    ensures d <= 9
  {
    (c as int - '0' as int) as nat
  }

  function Number(s: string): nat
    requires forall i :: 0 <= i < |s| ==> IsDigit(s[i])
  {
    if |s| == 0 then 0 else Number(s[..|s| - 1]) * 10 + DigitValue(s[|s| - 1])
  }

  function PortsBetween(lo: nat, hi: nat): (r: set<nat>)
    ensures forall p: nat :: p in r <==> lo <= p <= hi
    decreases if lo <= hi then hi - lo + 1 else 0
  {
    if lo > hi then {} else {lo} + PortsBetween(lo + 1, hi)
  }

  /** Where the dash of an `A-B` range is, or the length when there is none. */
  function DashAt(s: string): (i: nat)
    ensures i <= |s| && (i < |s| ==> s[i] == '-') && '-' !in s[..i]
  {
    if |s| == 0 || s[0] == '-' then 0 else 1 + DashAt(s[1..])
  }

  function PortRange(s: string): Option<set<nat>> {
    var dash := DashAt(s);
    if dash < |s| && IsDigits(s[..dash]) && IsDigits(s[dash + 1..]) then
      var lo, hi := Number(s[..dash]), Number(s[dash + 1..]);
      if lo <= hi && hi - lo <= MAX_CANDIDATE_PORTS then Some(PortsBetween(lo, hi)) else None
    else None
  }

  function ProtoOf(tok: Token): Option<Proto> {
    if tok == "tcp" then Some(Tcp) else if tok == "udp" then Some(Udp)
    else if tok == "sctp" then Some(Sctp) else None
  }

  const UNTRACKED_LAYERS: set<Token> := {"ip", "ip6", "arp", "rarp", "ether", "vlan", "mpls"}

  /** `[proto] [src|dst] port N` or `... portrange A-B`, after the brackets are off. */
  function ParseBare(tokens: seq<Token>): Option<Alternative> {
    if |tokens| == 0 || tokens[0] in UNTRACKED_LAYERS then None
    else
      var proto := ProtoOf(tokens[0]);
      var rest := if proto == None then tokens else tokens[1..];
      if |rest| == 0 then None
      else
        var slots := if rest[0] == "src" then Slots(true, false)
                     else if rest[0] == "dst" then Slots(false, true) else Slots(true, true);
        var term := if rest[0] == "src" || rest[0] == "dst" then rest[1..] else rest;
        if |term| != 2 then None
        else if term[0] == "port" && IsDigits(term[1]) then Some(Alternative({Number(term[1])}, slots, proto))
        else if term[0] == "portrange" && PortRange(term[1]).Some? then
          Some(Alternative(PortRange(term[1]).value, slots, proto))
        else None
  }

  function ParseAlternative(tokens: seq<Token>): Option<Alternative> { ParseBare(StripParens(tokens)) }

  // --- flattening ------------------------------------------------------------------------------

  function ParseAll(groups: seq<seq<Token>>): Option<Constraint> {
    if |groups| == 0 then Some([])
    else
      var first, rest := ParseAlternative(groups[0]), ParseAll(groups[1..]);
      if first.Some? && rest.Some? then Some([first.value] + rest.value) else None
  }

  /** The constraints a filter joined by `and` amounts to: nested chains are opened up, other parts dropped. */
  function Collect(tokens: seq<Token>): seq<Constraint>
    decreases |tokens|, 1, 0
  {
    var t := StripParens(tokens);
    if |t| == 0 then []
    else
      match SplitTopLevel(t, OR_TOKENS)
      case None => []
      case Some(groups) =>
        if |groups| > 1 then
          (match ParseAll(groups) case None => [] case Some(c) => [c])
        else
          match SplitTopLevel(t, AND_TOKENS)
          case None => []
          case Some(parts) =>
            if |parts| > 1 then CollectAll(t, parts)
            else match ParseAlternative(t) case None => [] case Some(a) => [[a]]
  }

  function CollectAll(whole: seq<Token>, parts: seq<seq<Token>>): seq<Constraint>
    requires forall i :: 0 <= i < |parts| ==> |parts[i]| < |whole|
    decreases |whole|, 0, |parts|
  {
    if |parts| == 0 then [] else Collect(parts[0]) + CollectAll(whole, parts[1..])
  }
}
