/**
 * The parser and printer of "when" expressions as the server runs them:
 * mutually recursive methods over a shared index, proved against the grammar.
 */
module WhenParser {
  import opened Wrappers
  import opened Text
  import opened WhenSyntax
  import opened WhenGrammar
  import opened WhenTokenizer

  /** The parser's closure state: the token list and the shared index. */
  class Parser {
    const tokens: seq<Token>
    var index: nat

    constructor (tokens: seq<Token>)
      ensures this.tokens == tokens && index == 0
    {
      this.tokens := tokens;
      index := 0;
    }

    method ParsePrimary(depth: nat) returns (r: Option<Ast>)
      requires index <= |tokens|
      modifies this
      ensures old(index) <= index <= |tokens|
      ensures match RecognizePrimary(tokens[old(index)..], depth, MAX_DEPTH)
        case Fail => r == None
        case Done(d, rest) => r == Some(AstPrimary(d)) && tokens[index..] == rest
      decreases |tokens| - index, 0
    {
      if depth > MAX_DEPTH {
        return None;
      }
      if index >= |tokens| {
        return None;
      }
      var token := tokens[index];
      ghost var start := tokens[index..];
      if token.Identifier? {
        index := index + 1;
        assert start[1..] == tokens[index..];
        return Some(Id(token.name));
      }
      if token.LParen? {
        index := index + 1;
        assert start[1..] == tokens[index..];
        var expressionNode := ParseOr(depth + 1);
        if expressionNode.None? || index >= |tokens| || !tokens[index].RParen? {
          return None;
        }
        ghost var close := tokens[index..];
        index := index + 1;
        assert close[1..] == tokens[index..];
        return expressionNode;
      }
      return None;
    }

    method ParseUnary(depth: nat) returns (r: Option<Ast>)
      requires index <= |tokens|
      modifies this
      ensures old(index) <= index <= |tokens|
      ensures match RecognizeUnary(tokens[old(index)..], depth, MAX_DEPTH)
        case Fail => r == None
        case Done(d, rest) => r == Some(AstUnary(d)) && tokens[index..] == rest
      decreases |tokens| - index, 1
    {
      hide RecognizePrimary, LeadingNots, Negate, AstPrimary;
      var notCount := 0;
      while index < |tokens| && tokens[index].Not?
        invariant index == old(index) + notCount <= |tokens| && notCount <= MAX_DEPTH
        invariant LeadingNots(tokens[old(index)..]) == notCount + LeadingNots(tokens[index..])
        decreases |tokens| - index
      {
        OneMoreNot(tokens[index..], tokens[index + 1..]);
        index := index + 1;
        notCount := notCount + 1;
        if notCount > MAX_DEPTH {
          return None;
        }
      }
      NoMoreNots(tokens[index..]);
      assert tokens[old(index)..][notCount..] == tokens[index..];
      ghost var k := notCount;
      var primary := ParsePrimary(depth);
      if primary.None? {
        return None;
      }
      var node := primary.value;
      while notCount > 0
        invariant Negate(notCount, node) == Negate(k, primary.value)
        modifies {}
      {
        NegateInside(notCount, node);
        node := NotNode(node);
        notCount := notCount - 1;
      }
      NoNegation(node);
      return Some(node);
    }

    method ParseAnd(depth: nat) returns (r: Option<Ast>)
      requires index <= |tokens|
      modifies this
      ensures old(index) <= index <= |tokens|
      ensures match RecognizeAnd(tokens[old(index)..], depth, MAX_DEPTH)
        case Fail => r == None
        case Done(d, rest) => r == Some(AstAnd(d)) && tokens[index..] == rest
      decreases |tokens| - index, 2
    {
      hide RecognizeUnary, MoreConjuncts;
      ghost var found := RecognizeAnd(tokens[index..], depth, MAX_DEPTH);
      ghost var u := RecognizeUnary(tokens[index..], depth, MAX_DEPTH);
      r := ParseUnary(depth);
      if r.None? {
        return;
      }
      ghost var left := OneUnary(u.tree);
      while index < |tokens| && tokens[index].And?
        invariant old(index) < index <= |tokens|
        invariant r == Some(AstAnd(left))
        invariant found == MoreConjuncts(left, tokens[index..], depth, MAX_DEPTH)
        decreases |tokens| - index
      {
        AnotherConjunct(left, tokens[index..], tokens[index + 1..], depth);
        index := index + 1;
        u := RecognizeUnary(tokens[index..], depth, MAX_DEPTH);
        var right := ParseUnary(depth);
        if right.None? {
          return None;
        }
        r := Some(AndNode(r.value, right.value));
        left := MoreAnd(left, u.tree);
      }
      NoMoreConjuncts(left, tokens[index..], depth);
    }

    method ParseOr(depth: nat) returns (r: Option<Ast>)
      requires index <= |tokens|
      modifies this
      ensures old(index) <= index <= |tokens|
      ensures match RecognizeOr(tokens[old(index)..], depth, MAX_DEPTH)
        case Fail => r == None
        case Done(d, rest) => r == Some(AstOr(d)) && tokens[index..] == rest
      decreases |tokens| - index, 3
    {
      hide RecognizeAnd, MoreDisjuncts;
      ghost var found := RecognizeOr(tokens[index..], depth, MAX_DEPTH);
      ghost var a := RecognizeAnd(tokens[index..], depth, MAX_DEPTH);
      r := ParseAnd(depth);
      if r.None? {
        return;
      }
      ghost var left := OneAnd(a.tree);
      while index < |tokens| && tokens[index].Or?
        invariant old(index) < index <= |tokens|
        invariant r == Some(AstOr(left))
        invariant found == MoreDisjuncts(left, tokens[index..], depth, MAX_DEPTH)
        decreases |tokens| - index
      {
        AnotherDisjunct(left, tokens[index..], tokens[index + 1..], depth);
        index := index + 1;
        a := RecognizeAnd(tokens[index..], depth, MAX_DEPTH);
        var right := ParseAnd(depth);
        if right.None? {
          return None;
        }
        r := Some(OrNode(r.value, right.value));
        left := MoreOr(left, a.tree);
      }
      NoMoreDisjuncts(left, tokens[index..], depth);
    }
  }

  lemma OneMoreNot(ts: seq<Token>, after: seq<Token>)
    requires |ts| > 0 && ts[0] == Not && ts[1..] == after
    ensures LeadingNots(ts) == 1 + LeadingNots(after)
  {
  }

  lemma NoMoreNots(ts: seq<Token>)
    requires |ts| == 0 || ts[0] != Not
    ensures LeadingNots(ts) == 0
  {
  }

  lemma AnotherConjunct(left: AndD, ts: seq<Token>, after: seq<Token>, depth: nat)
    requires |ts| > 0 && ts[0] == And && ts[1..] == after
    ensures var u := RecognizeUnary(after, depth, MAX_DEPTH);
      MoreConjuncts(left, ts, depth, MAX_DEPTH) ==
        if u.Fail? then Fail else MoreConjuncts(MoreAnd(left, u.tree), u.rest, depth, MAX_DEPTH)
  {
  }

  lemma NoMoreConjuncts(left: AndD, ts: seq<Token>, depth: nat)
    requires |ts| == 0 || ts[0] != And
    ensures MoreConjuncts(left, ts, depth, MAX_DEPTH) == Done(left, ts)
  {
  }

  lemma NoMoreDisjuncts(left: OrD, ts: seq<Token>, depth: nat)
    requires |ts| == 0 || ts[0] != Or
    ensures MoreDisjuncts(left, ts, depth, MAX_DEPTH) == Done(left, ts)
  {
  }

  lemma AnotherDisjunct(left: OrD, ts: seq<Token>, after: seq<Token>, depth: nat)
    requires |ts| > 0 && ts[0] == Or && ts[1..] == after
    ensures var a := RecognizeAnd(after, depth, MAX_DEPTH);
      MoreDisjuncts(left, ts, depth, MAX_DEPTH) ==
        if a.Fail? then Fail else MoreDisjuncts(MoreOr(left, a.tree), a.rest, depth, MAX_DEPTH)
  {
  }

  lemma NoNegation(a: Ast)
    ensures Negate(0, a) == a
  {
  }

  lemma {:induction false} NegateInside(n: nat, a: Ast)
    requires n > 0
    ensures Negate(n, a) == Negate(n - 1, NotNode(a))
  {
    if n > 1 {
      NegateInside(n - 1, a);
    }
  }

  /** `d` is a derivation of the text's tokens inside the depth limits. */
  predicate ParsesAs(expression: string, d: OrD) {
    Tokens(expression).Some? && Derives(d, Tokens(expression).value, MAX_DEPTH)
  }

  /** The tree of the text's derivation, if it has one. */
  ghost function WhenTree(expression: string): Option<Ast> {
    if d :| ParsesAs(expression, d) then Some(AstOr(d)) else None
  }

  /** A text has at most one derivation, so the tree does not depend on which one is picked. */
  lemma WhenTreeIsUnique(expression: string, d: OrD)
    requires ParsesAs(expression, d)
    ensures WhenTree(expression) == Some(AstOr(d))
  {
    var e :| ParsesAs(expression, e) && WhenTree(expression) == Some(AstOr(e));
    Unambiguous(d, e);
  }

  method ParseKeybindingWhenExpression(expression: string) returns (r: Option<Ast>)
    ensures r == WhenTree(expression)
  {
    var tokens := TokenizeWhenExpression(expression);
    if tokens.None? || |tokens.value| == 0 {
      forall d | ParsesAs(expression, d) ensures false {
        RecognizesExactly([], d, MAX_DEPTH);
      }
      return None;
    }
    var parser := new Parser(tokens.value);
    assert tokens.value[0..] == tokens.value;
    var ast := parser.ParseOr(0);
    ghost var found := RecognizeOr(tokens.value, 0, MAX_DEPTH);
    forall d | ParsesAs(expression, d) ensures found == Done(d, []) {
      RecognizesExactly(tokens.value, d, MAX_DEPTH);
    }
    if ast.None? || parser.index != |tokens.value| {
      return None;
    }
    RecognizesExactly(tokens.value, found.tree, MAX_DEPTH);
    WhenTreeIsUnique(expression, found.tree);
    return ast;
  }

  // ----- Printing and reading back -------------------------------------------

  function EncodeWhenAst(node: Ast): string {
    match node
    case Id(name) => name
    case NotNode(n) => "!(" + EncodeWhenAst(n) + ")"
    case AndNode(l, r) => "(" + EncodeWhenAst(l) + " && " + EncodeWhenAst(r) + ")"
    case OrNode(l, r) => "(" + EncodeWhenAst(l) + " || " + EncodeWhenAst(r) + ")"
  }

  /** Every name in the tree is an identifier of the language. */
  predicate LexicallyValid(node: Ast) {
    match node
    case Id(name) => IsIdentifier(name)
    case NotNode(n) => LexicallyValid(n)
    case AndNode(l, r) => LexicallyValid(l) && LexicallyValid(r)
    case OrNode(l, r) => LexicallyValid(l) && LexicallyValid(r)
  }

  function Height(node: Ast): nat {
    match node
    case Id(_) => 0
    case NotNode(n) => 1 + Height(n)
    case AndNode(l, r) => 1 + Larger(Height(l), Height(r))
    case OrNode(l, r) => 1 + Larger(Height(l), Height(r))
  }

  function Single(u: UnaryD): OrD { OneAnd(OneUnary(u)) }

  function Both(u: UnaryD, v: UnaryD): OrD { OneAnd(MoreAnd(OneUnary(u), v)) }

  function Either(u: UnaryD, v: UnaryD): OrD { MoreOr(OneAnd(OneUnary(u)), OneUnary(v)) }

  /** The derivation of the printed form. */
  function Printed(node: Ast): UnaryD {
    match node
    case Id(name) => UnaryD(0, Name(name))
    case NotNode(n) => UnaryD(1, Paren(Single(Printed(n))))
    case AndNode(l, r) => UnaryD(0, Paren(Both(Printed(l), Printed(r))))
    case OrNode(l, r) => UnaryD(0, Paren(Either(Printed(l), Printed(r))))
  }

  /** What the three bracketed shapes of printed text spell, stand for and need. */
  lemma Shapes(u: UnaryD, v: UnaryD, depth: int, max: nat)
    ensures YieldOr(Single(u)) == YieldUnary(u)
    ensures YieldOr(Both(u, v)) == YieldUnary(u) + [And] + YieldUnary(v)
    ensures YieldOr(Either(u, v)) == YieldUnary(u) + [Or] + YieldUnary(v)
    ensures AstOr(Single(u)) == AstUnary(u)
    ensures AstOr(Both(u, v)) == AndNode(AstUnary(u), AstUnary(v))
    ensures AstOr(Either(u, v)) == OrNode(AstUnary(u), AstUnary(v))
    ensures WithinOr(Single(u), depth, max) <==> WithinUnary(u, depth, max)
    ensures WithinOr(Both(u, v), depth, max) <==> WithinUnary(u, depth, max) && WithinUnary(v, depth, max)
    ensures WithinOr(Either(u, v), depth, max) <==> WithinUnary(u, depth, max) && WithinUnary(v, depth, max)
  {
  }

  lemma NoNots(p: PrimaryD)
    ensures YieldUnary(UnaryD(0, p)) == YieldPrimary(p) && AstUnary(UnaryD(0, p)) == AstPrimary(p)
  {
  }

  lemma OneNot(p: PrimaryD)
    ensures YieldUnary(UnaryD(1, p)) == [Not] + YieldPrimary(p)
    ensures AstUnary(UnaryD(1, p)) == NotNode(AstPrimary(p))
  {
    assert Nots(1) == [Not] + Nots(0) == [Not];
    assert Negate(1, AstPrimary(p)) == NotNode(Negate(0, AstPrimary(p)));
  }

  lemma {:induction false} PrintedTree(node: Ast)
    ensures AstUnary(Printed(node)) == node
  {
    match node
    case Id(_) =>
    case NotNode(n) =>
      PrintedTree(n);
      OneNot(Printed(node).primary);
      Shapes(Printed(n), Printed(n), 0, 0);
    case AndNode(l, r) =>
      PrintedTree(l);
      PrintedTree(r);
      NoNots(Printed(node).primary);
      Shapes(Printed(l), Printed(r), 0, 0);
    case OrNode(l, r) =>
      PrintedTree(l);
      PrintedTree(r);
      NoNots(Printed(node).primary);
      Shapes(Printed(l), Printed(r), 0, 0);
  }

  /** The printed form needs exactly the tree's height in parentheses. */
  lemma {:induction false} PrintedDepth(node: Ast, depth: int, max: nat)
    requires max > 0 && depth >= -1
    ensures WithinUnary(Printed(node), depth, max) <==> Height(node) <= depth
  {
    if depth >= 0 {
      match node
      case Id(_) =>
      case NotNode(n) =>
        PrintedDepth(n, depth - 1, max);
        Shapes(Printed(n), Printed(n), depth - 1, max);
      case AndNode(l, r) =>
        PrintedDepth(l, depth - 1, max);
        PrintedDepth(r, depth - 1, max);
        Shapes(Printed(l), Printed(r), depth - 1, max);
      case OrNode(l, r) =>
        PrintedDepth(l, depth - 1, max);
        PrintedDepth(r, depth - 1, max);
        Shapes(Printed(l), Printed(r), depth - 1, max);
    }
  }

  /** Reading one more token in front of text whose tokens are known. */
  lemma ReadBefore(t: Token, rest: string, ts: seq<Token>, more: Option<seq<Token>>)
    requires !t.Identifier? && Tokens(rest) == Prepend(ts, more)
    ensures Tokens(Spelling(t) + rest) == Prepend([t] + ts, more)
  {
    TokenRead(t, rest);
    PrependTwice([t], ts, more);
  }

  /** The tokens of op right ")", surrounded by blanks. */
  lemma RightTokens(right: string, op: Token, rest: string, rs: seq<Token>)
    requires op == And || op == Or
    requires Tokens(right + (")" + rest)) == Prepend(rs, Tokens(")" + rest))
    ensures Tokens(" " + (Spelling(op) + (" " + (right + (")" + rest)))))
         == Prepend([op] + (rs + [RParen]), Tokens(rest))
  {
    var afterOp := right + (")" + rest);
    TokenRead(RParen, rest);
    PrependTwice(rs, [RParen], Tokens(rest));
    SkipBlank(" ", afterOp);
    ReadBefore(op, " " + afterOp, rs + [RParen], Tokens(rest));
    SkipBlank(" ", Spelling(op) + (" " + afterOp));
  }

  /** The tokens of "(" left tail, where tail is op right ")". */
  lemma PairTokens(left: string, tail: string, op: Token, ls: seq<Token>, rs: seq<Token>, more: Option<seq<Token>>)
    requires Tokens(tail) == Prepend([op] + (rs + [RParen]), more)
    requires Tokens(left + tail) == Prepend(ls, Tokens(tail))
    ensures Tokens("(" + (left + tail)) == Prepend([LParen] + (ls + [op] + rs) + [RParen], more)
  {
    PrependTwice(ls, [op] + (rs + [RParen]), more);
    ReadBefore(LParen, left + tail, ls + ([op] + (rs + [RParen])), more);
    assert [LParen] + (ls + ([op] + (rs + [RParen]))) == [LParen] + (ls + [op] + rs) + [RParen];
  }

  lemma {:induction false} PrintedTokens(node: Ast, rest: string)
    requires LexicallyValid(node) && (rest == "" || !IsIdentifierPart(rest[0]))
    ensures Tokens(EncodeWhenAst(node) + rest) == Prepend(YieldUnary(Printed(node)), Tokens(rest))
    decreases node
  {
    match node
    case Id(name) =>
      TokenRead(Identifier(name), rest);
      NoNots(Name(name));
    case NotNode(n) =>
      PrintedTokens(n, ")" + rest);
      NegationTokens(EncodeWhenAst(n), rest, YieldUnary(Printed(n)));
      Shapes(Printed(n), Printed(n), 0, 0);
      OneNot(Printed(node).primary);
    case AndNode(l, r) =>
      PrintedTokens(r, ")" + rest);
      PrintedTokens(l, AfterLeft(And, r, rest));
      PrintedPair(l, r, And, rest);
    case OrNode(l, r) =>
      PrintedTokens(r, ")" + rest);
      PrintedTokens(l, AfterLeft(Or, r, rest));
      PrintedPair(l, r, Or, rest);
  }

  /** The printed text behind a left operand. */
  function AfterLeft(op: Token, r: Ast, rest: string): string {
    " " + (Spelling(op) + (" " + (EncodeWhenAst(r) + (")" + rest))))
  }

  lemma PrintedPair(l: Ast, r: Ast, op: Token, rest: string)
    requires op == And || op == Or
    requires Tokens(EncodeWhenAst(r) + (")" + rest)) == Prepend(YieldUnary(Printed(r)), Tokens(")" + rest))
    requires var tail := AfterLeft(op, r, rest);
      Tokens(EncodeWhenAst(l) + tail) == Prepend(YieldUnary(Printed(l)), Tokens(tail))
    ensures var node := if op == And then AndNode(l, r) else OrNode(l, r);
      Tokens(EncodeWhenAst(node) + rest) == Prepend(YieldUnary(Printed(node)), Tokens(rest))
  {
    RightTokens(EncodeWhenAst(r), op, rest, YieldUnary(Printed(r)));
    PairTokens(EncodeWhenAst(l), AfterLeft(op, r, rest), op, YieldUnary(Printed(l)), YieldUnary(Printed(r)),
               Tokens(rest));
    PairText(l, r, op, rest);
  }

  lemma PairText(l: Ast, r: Ast, op: Token, rest: string)
    requires op == And || op == Or
    ensures var node := if op == And then AndNode(l, r) else OrNode(l, r);
      && EncodeWhenAst(node) + rest == "(" + (EncodeWhenAst(l) + AfterLeft(op, r, rest))
      && YieldUnary(Printed(node)) == [LParen] + (YieldUnary(Printed(l)) + [op] + YieldUnary(Printed(r))) + [RParen]
  {
    var left, right := EncodeWhenAst(l), EncodeWhenAst(r);
    var node := if op == And then AndNode(l, r) else OrNode(l, r);
    assert EncodeWhenAst(node) == "(" + left + (" " + Spelling(op) + " ") + right + ")";
    PairSpelling(left, right, Spelling(op), rest);
    assert YieldUnary(Printed(node)) == [LParen] + (YieldUnary(Printed(l)) + [op] + YieldUnary(Printed(r))) + [RParen] by {
      Shapes(Printed(l), Printed(r), 0, 0);
      NoNots(Printed(node).primary);
    }
  }

  lemma PairSpelling(left: string, right: string, op: string, rest: string)
    ensures "(" + left + (" " + op + " ") + right + ")" + rest
         == "(" + (left + (" " + (op + (" " + (right + (")" + rest))))))
  {
  }

  /** The tokens of "!(" text ")". */
  lemma NegationTokens(text: string, rest: string, ts: seq<Token>)
    requires Tokens(text + (")" + rest)) == Prepend(ts, Tokens(")" + rest))
    ensures Tokens("!(" + text + ")" + rest) == Prepend([Not] + ([LParen] + ts + [RParen]), Tokens(rest))
  {
    hide Tokens;
    var more := Tokens(rest);
    TokenRead(RParen, rest);
    PrependTwice(ts, [RParen], more);
    ReadBefore(LParen, text + (")" + rest), ts + [RParen], more);
    ReadBefore(Not, "(" + (text + (")" + rest)), [LParen] + (ts + [RParen]), more);
    assert "!(" + text + ")" + rest == "!" + ("(" + (text + (")" + rest)));
    assert [LParen] + (ts + [RParen]) == [LParen] + ts + [RParen];
  }

  /**
   * Printing a lexically valid tree and parsing the text gives the tree back when its
   * height is at most 64, and null when it is greater.
   */
  lemma RoundTrip(node: Ast)
    requires LexicallyValid(node)
    ensures WhenTree(EncodeWhenAst(node)) == if Height(node) <= MAX_DEPTH then Some(node) else None
  {
    var text, d := EncodeWhenAst(node), Single(Printed(node));
    PrintedTokens(node, "");
    Shapes(Printed(node), Printed(node), MAX_DEPTH, MAX_DEPTH);
    assert text + "" == text && YieldOr(d) + [] == YieldOr(d);
    PrintedDepth(node, MAX_DEPTH, MAX_DEPTH);
    PrintedTree(node);
    if Height(node) <= MAX_DEPTH {
      WhenTreeIsUnique(text, d);
    } else {
      forall e | ParsesAs(text, e) ensures false {
        Unambiguous(d, e);
      }
    }
  }
}
