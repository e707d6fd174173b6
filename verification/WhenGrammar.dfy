/**
 * The grammar's recognizer and its theory: what it accepts, that the grammar is
 * unambiguous, and what the accepted trees mean.
 */
module WhenGrammar {
  import opened WhenSyntax

  datatype Parsed<+D> = Fail | Done(tree: D, rest: seq<Token>)

  /** The token list derives from Or inside the parser's limits. */
  predicate Derives(d: OrD, tokens: seq<Token>, max: nat) {
    YieldOr(d) == tokens && WithinOr(d, max, max)
  }

  // ----- Recognizer: the parser's walk over the remaining tokens -----------

  function LeadingNots(ts: seq<Token>): (k: nat)
    ensures k <= |ts| && ts[..k] == Nots(k)
    ensures k < |ts| ==> ts[k] != Not
  {
    if |ts| > 0 && ts[0] == Not then
      var k := LeadingNots(ts[1..]);
      assert ts[..k + 1] == [Not] + ts[1..][..k];
      k + 1
    else 0
  }

  function RecognizeOr(ts: seq<Token>, depth: nat, max: nat): (r: Parsed<OrD>)
    ensures r.Done? ==> |r.rest| < |ts|
    decreases |ts|, 5
  {
    match RecognizeAnd(ts, depth, max)
    case Fail => Fail
    case Done(a, rest) => MoreDisjuncts(OneAnd(a), rest, depth, max)
  }

  function MoreDisjuncts(left: OrD, ts: seq<Token>, depth: nat, max: nat): (r: Parsed<OrD>)
    ensures r.Done? ==> |r.rest| <= |ts|
    decreases |ts|, 4
  {
    if |ts| == 0 || ts[0] != Or then Done(left, ts) else
    match RecognizeAnd(ts[1..], depth, max)
    case Fail => Fail
    case Done(a, rest) => MoreDisjuncts(MoreOr(left, a), rest, depth, max)
  }

  function RecognizeAnd(ts: seq<Token>, depth: nat, max: nat): (r: Parsed<AndD>)
    ensures r.Done? ==> |r.rest| < |ts|
    decreases |ts|, 3
  {
    match RecognizeUnary(ts, depth, max)
    case Fail => Fail
    case Done(u, rest) => MoreConjuncts(OneUnary(u), rest, depth, max)
  }

  function MoreConjuncts(left: AndD, ts: seq<Token>, depth: nat, max: nat): (r: Parsed<AndD>)
    ensures r.Done? ==> |r.rest| <= |ts|
    decreases |ts|, 2
  {
    if |ts| == 0 || ts[0] != And then Done(left, ts) else
    match RecognizeUnary(ts[1..], depth, max)
    case Fail => Fail
    case Done(u, rest) => MoreConjuncts(MoreAnd(left, u), rest, depth, max)
  }

  function RecognizeUnary(ts: seq<Token>, depth: nat, max: nat): (r: Parsed<UnaryD>)
    ensures r.Done? ==> |r.rest| < |ts|
    decreases |ts|, 1
  {
    var k := LeadingNots(ts);
    if k > max then Fail else
    match RecognizePrimary(ts[k..], depth, max)
    case Fail => Fail
    case Done(p, rest) => Done(UnaryD(k, p), rest)
  }

  function RecognizePrimary(ts: seq<Token>, depth: nat, max: nat): (r: Parsed<PrimaryD>)
    ensures r.Done? ==> |r.rest| < |ts|
    decreases |ts|, 0
  {
    if depth > max || |ts| == 0 then Fail
    else if ts[0].Identifier? then Done(Name(ts[0].name), ts[1..])
    else if ts[0] == LParen then
      match RecognizeOr(ts[1..], depth + 1, max)
      case Fail => Fail
      case Done(o, rest) => if |rest| > 0 && rest[0] == RParen then Done(Paren(o), rest[1..]) else Fail
    else Fail
  }

  // ----- Soundness ----------------------------------------------------------

  lemma Reassociate(left: seq<Token>, op: Token, right: seq<Token>, rest: seq<Token>, ts: seq<Token>)
    requires |ts| > 0 && ts[0] == op && ts[1..] == right + rest
    ensures left + [op] + right + rest == left + ts
  {
  }

  lemma {:induction false} OrSound(ts: seq<Token>, depth: nat, max: nat)
    requires RecognizeOr(ts, depth, max).Done?
    ensures var r := RecognizeOr(ts, depth, max);
      YieldOr(r.tree) + r.rest == ts && WithinOr(r.tree, max - depth, max)
    decreases |ts|, 5
  {
    AndSound(ts, depth, max);
    var a := RecognizeAnd(ts, depth, max);
    DisjunctsSound(OneAnd(a.tree), a.rest, depth, max);
  }

  lemma {:induction false} DisjunctsSound(left: OrD, ts: seq<Token>, depth: nat, max: nat)
    requires MoreDisjuncts(left, ts, depth, max).Done? && WithinOr(left, max - depth, max)
    ensures var r := MoreDisjuncts(left, ts, depth, max);
      YieldOr(r.tree) + r.rest == YieldOr(left) + ts && WithinOr(r.tree, max - depth, max)
    decreases |ts|, 4
  {
    if |ts| == 0 || ts[0] != Or {
    } else {
      AndSound(ts[1..], depth, max);
      var a := RecognizeAnd(ts[1..], depth, max);
      DisjunctsSound(MoreOr(left, a.tree), a.rest, depth, max);
      Reassociate(YieldOr(left), Or, YieldAnd(a.tree), a.rest, ts);
    }
  }

  lemma {:induction false} AndSound(ts: seq<Token>, depth: nat, max: nat)
    requires RecognizeAnd(ts, depth, max).Done?
    ensures var r := RecognizeAnd(ts, depth, max);
      YieldAnd(r.tree) + r.rest == ts && WithinAnd(r.tree, max - depth, max)
    decreases |ts|, 3
  {
    UnarySound(ts, depth, max);
    var u := RecognizeUnary(ts, depth, max);
    ConjunctsSound(OneUnary(u.tree), u.rest, depth, max);
  }

  lemma {:induction false} ConjunctsSound(left: AndD, ts: seq<Token>, depth: nat, max: nat)
    requires MoreConjuncts(left, ts, depth, max).Done? && WithinAnd(left, max - depth, max)
    ensures var r := MoreConjuncts(left, ts, depth, max);
      YieldAnd(r.tree) + r.rest == YieldAnd(left) + ts && WithinAnd(r.tree, max - depth, max)
    decreases |ts|, 2
  {
    if |ts| == 0 || ts[0] != And {
    } else {
      UnarySound(ts[1..], depth, max);
      var u := RecognizeUnary(ts[1..], depth, max);
      ConjunctsSound(MoreAnd(left, u.tree), u.rest, depth, max);
      Reassociate(YieldAnd(left), And, YieldUnary(u.tree), u.rest, ts);
    }
  }

  lemma {:induction false} UnarySound(ts: seq<Token>, depth: nat, max: nat)
    requires RecognizeUnary(ts, depth, max).Done?
    ensures var r := RecognizeUnary(ts, depth, max);
      YieldUnary(r.tree) + r.rest == ts && WithinUnary(r.tree, max - depth, max)
    decreases |ts|, 1
  {
    var k := LeadingNots(ts);
    PrimarySound(ts[k..], depth, max);
    var p := RecognizePrimary(ts[k..], depth, max);
    assert ts == ts[..k] + ts[k..];
    assert Nots(k) + YieldPrimary(p.tree) + p.rest == Nots(k) + (YieldPrimary(p.tree) + p.rest);
  }

  lemma {:induction false} PrimarySound(ts: seq<Token>, depth: nat, max: nat)
    requires RecognizePrimary(ts, depth, max).Done?
    ensures var r := RecognizePrimary(ts, depth, max);
      YieldPrimary(r.tree) + r.rest == ts && WithinPrimary(r.tree, max - depth, max)
    decreases |ts|, 0
  {
    if ts[0] == LParen {
      OrSound(ts[1..], depth + 1, max);
      var o := RecognizeOr(ts[1..], depth + 1, max);
      assert o.rest == [RParen] + o.rest[1..];
      assert [LParen] + YieldOr(o.tree) + [RParen] + o.rest[1..]
          == [LParen] + (YieldOr(o.tree) + o.rest);
    }
  }

  // ----- Completeness -------------------------------------------------------

  lemma {:induction false} LeadingNotsOf(n: nat, tail: seq<Token>)
    requires |tail| > 0 && tail[0] != Not
    ensures LeadingNots(Nots(n) + tail) == n && (Nots(n) + tail)[n..] == tail
  {
    if n == 0 {
      assert Nots(0) + tail == tail;
    } else {
      LeadingNotsOf(n - 1, tail);
      assert Nots(n) + tail == [Not] + (Nots(n - 1) + tail);
      assert (Nots(n) + tail)[n..] == (Nots(n - 1) + tail)[n - 1..];
    }
  }

  lemma {:induction false} PrimaryComplete(d: PrimaryD, rest: seq<Token>, depth: nat, max: nat)
    requires WithinPrimary(d, max - depth, max)
    ensures RecognizePrimary(YieldPrimary(d) + rest, depth, max) == Done(d, rest)
    decreases d
  {
    match d
    case Name(n) =>
      assert ([Identifier(n)] + rest)[1..] == rest;
    case Paren(o) =>
      var after := [RParen] + rest;
      OrComplete(o, after, depth + 1, max);
      assert YieldPrimary(d) + rest == [LParen] + (YieldOr(o) + after);
      assert after[1..] == rest;
      assert MoreDisjuncts(o, after, depth + 1, max) == Done(o, after);
  }

  lemma {:induction false} UnaryComplete(d: UnaryD, rest: seq<Token>, depth: nat, max: nat)
    requires WithinUnary(d, max - depth, max)
    ensures RecognizeUnary(YieldUnary(d) + rest, depth, max) == Done(d, rest)
    decreases d
  {
    var tail := YieldPrimary(d.primary) + rest;
    assert YieldUnary(d) + rest == Nots(d.nots) + tail;
    LeadingNotsOf(d.nots, tail);
    PrimaryComplete(d.primary, rest, depth, max);
  }

  /** Reading a whole conjunction leaves the parser in the conjunction loop with it in hand. */
  lemma {:induction false} AndComplete(d: AndD, rest: seq<Token>, depth: nat, max: nat)
    requires WithinAnd(d, max - depth, max)
    ensures RecognizeAnd(YieldAnd(d) + rest, depth, max) == MoreConjuncts(d, rest, depth, max)
    decreases d
  {
    match d
    case OneUnary(u) =>
      UnaryComplete(u, rest, depth, max);
    case MoreAnd(l, r) =>
      var tail := [And] + (YieldUnary(r) + rest);
      assert YieldAnd(d) + rest == YieldAnd(l) + tail;
      AndComplete(l, tail, depth, max);
      UnaryComplete(r, rest, depth, max);
      assert tail[1..] == YieldUnary(r) + rest;
  }

  lemma {:induction false} OrComplete(d: OrD, rest: seq<Token>, depth: nat, max: nat)
    requires WithinOr(d, max - depth, max) && (|rest| == 0 || rest[0] != And)
    ensures RecognizeOr(YieldOr(d) + rest, depth, max) == MoreDisjuncts(d, rest, depth, max)
    decreases d
  {
    match d
    case OneAnd(a) =>
      AndComplete(a, rest, depth, max);
    case MoreOr(l, r) =>
      var tail := [Or] + (YieldAnd(r) + rest);
      assert YieldOr(d) + rest == YieldOr(l) + tail;
      OrComplete(l, tail, depth, max);
      AndComplete(r, rest, depth, max);
      assert tail[1..] == YieldAnd(r) + rest;
  }

  /** The recognizer finds a derivation of the whole list exactly when there is one, and it is that one. */
  lemma RecognizesExactly(tokens: seq<Token>, d: OrD, max: nat)
    ensures RecognizeOr(tokens, 0, max) == Done(d, []) <==> Derives(d, tokens, max)
  {
    if RecognizeOr(tokens, 0, max) == Done(d, []) {
      OrSound(tokens, 0, max);
      assert YieldOr(d) + [] == YieldOr(d);
    }
    if Derives(d, tokens, max) {
      OrComplete(d, [], 0, max);
      assert YieldOr(d) + [] == tokens;
    }
  }

  // ----- Unambiguity --------------------------------------------------------

  function NeedOr(d: OrD): nat {
    match d
    case OneAnd(a) => NeedAnd(a)
    case MoreOr(l, r) => Larger(NeedOr(l), NeedAnd(r))
  }

  function NeedAnd(d: AndD): nat {
    match d
    case OneUnary(u) => NeedUnary(u)
    case MoreAnd(l, r) => Larger(NeedAnd(l), NeedUnary(r))
  }

  function NeedUnary(d: UnaryD): nat {
    Larger(d.nots, match d.primary case Name(_) => 0 case Paren(o) => NeedOr(o) + 1)
  }

  function Larger(a: nat, b: nat): nat { if a < b then b else a }

  lemma {:induction false} NeedSuffices(d: OrD, depth: nat, max: nat)
    requires NeedOr(d) <= depth <= max
    ensures WithinOr(d, depth, max)
    decreases d
  {
    match d
    case OneAnd(a) => NeedSufficesAnd(a, depth, max);
    case MoreOr(l, r) => NeedSuffices(l, depth, max); NeedSufficesAnd(r, depth, max);
  }

  lemma {:induction false} NeedSufficesAnd(d: AndD, depth: nat, max: nat)
    requires NeedAnd(d) <= depth <= max
    ensures WithinAnd(d, depth, max)
    decreases d
  {
    match d
    case OneUnary(u) => NeedSufficesUnary(u, depth, max);
    case MoreAnd(l, r) => NeedSufficesAnd(l, depth, max); NeedSufficesUnary(r, depth, max);
  }

  lemma {:induction false} NeedSufficesUnary(d: UnaryD, depth: nat, max: nat)
    requires NeedUnary(d) <= depth <= max
    ensures WithinUnary(d, depth, max)
    decreases d
  {
    match d.primary
    case Name(_) =>
    case Paren(o) => NeedSuffices(o, depth - 1, max);
  }

  /** Even without limits a token list has at most one derivation, so at most one tree. */
  lemma Unambiguous(d: OrD, e: OrD)
    requires YieldOr(d) == YieldOr(e)
    ensures d == e
  {
    var max := Larger(NeedOr(d), NeedOr(e));
    NeedSuffices(d, max, max);
    NeedSuffices(e, max, max);
    RecognizesExactly(YieldOr(d), d, max);
    RecognizesExactly(YieldOr(d), e, max);
  }

  // ----- Meaning ------------------------------------------------------------

  /** A disjunction holds when one of its conjunctions does, in any context. */
  lemma {:induction false} DisjunctionReading(d: OrD, ctx: string -> bool)
    ensures Evaluate(AstOr(d), ctx) <==> exists a | a in Disjuncts(d) :: Evaluate(AstAnd(a), ctx)
  {
    match d
    case OneAnd(a) =>
      assert a in Disjuncts(d);
    case MoreOr(l, r) =>
      DisjunctionReading(l, ctx);
      assert r in Disjuncts(d);
      assert forall a | a in Disjuncts(l) :: a in Disjuncts(d);
  }

  /** A conjunction holds when all of its operands do. */
  lemma {:induction false} ConjunctionReading(d: AndD, ctx: string -> bool)
    ensures Evaluate(AstAnd(d), ctx) <==> forall u | u in Conjuncts(d) :: Evaluate(AstUnary(u), ctx)
  {
    match d
    case OneUnary(u) =>
      assert u in Conjuncts(d);
    case MoreAnd(l, r) =>
      ConjunctionReading(l, ctx);
      assert r in Conjuncts(d);
      assert forall u | u in Conjuncts(l) :: u in Conjuncts(d);
  }

  /** "true" and "false" are constants; every other name is looked up. */
  lemma IdentifierReading(name: string, ctx: string -> bool)
    ensures Evaluate(Id("true"), ctx) && !Evaluate(Id("false"), ctx)
    ensures name !in {"true", "false"} ==> (Evaluate(Id(name), ctx) <==> ctx(name))
  {
  }

  /** A run of "!" negates exactly when it is odd. */
  lemma {:induction false} NegationReading(n: nat, a: Ast, ctx: string -> bool)
    ensures Evaluate(Negate(n, a), ctx) <==> Evaluate(a, ctx) == (n % 2 == 0)
  {
    if n > 0 {
      NegationReading(n - 1, a, ctx);
    }
  }
}
