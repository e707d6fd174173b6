/**
 * The "when" language of keybinding rules: tokenizer, depth-limited
 * recursive-descent parser, printer and evaluator.
 *
 * The parser is proved against a concrete grammar (derivation trees), not
 * against a restatement of itself.
 */
module WhenSyntax {

  /** MAX_WHEN_EXPRESSION_DEPTH. */
  const MAX_DEPTH: nat := 64

  datatype Token = Identifier(name: string) | Not | And | Or | LParen | RParen

  datatype Ast =
    | Id(name: string)
    | NotNode(node: Ast)
    | AndNode(left: Ast, right: Ast)
    | OrNode(left: Ast, right: Ast)

  // ----- The grammar -------------------------------------------------------
  //
  //   Or      := And ("||" And)*          (left-associated)
  //   And     := Unary ("&&" Unary)*
  //   Unary   := "!"* Primary
  //   Primary := identifier | "(" Or ")"

  datatype OrD = OneAnd(only: AndD) | MoreOr(init: OrD, last: AndD)
  datatype AndD = OneUnary(sole: UnaryD) | MoreAnd(front: AndD, back: UnaryD)
  datatype UnaryD = UnaryD(nots: nat, primary: PrimaryD)
  datatype PrimaryD = Name(name: string) | Paren(inner: OrD)

  function Nots(n: nat): seq<Token> {
    if n == 0 then [] else [Not] + Nots(n - 1)
  }

  function YieldOr(d: OrD): seq<Token> {
    match d
    case OneAnd(a) => YieldAnd(a)
    case MoreOr(l, r) => YieldOr(l) + [Or] + YieldAnd(r)
  }

  function YieldAnd(d: AndD): seq<Token> {
    match d
    case OneUnary(u) => YieldUnary(u)
    case MoreAnd(l, r) => YieldAnd(l) + [And] + YieldUnary(r)
  }

  function YieldUnary(d: UnaryD): seq<Token> {
    Nots(d.nots) + YieldPrimary(d.primary)
  }

  function YieldPrimary(d: PrimaryD): seq<Token> {
    match d
    case Name(n) => [Identifier(n)]
    case Paren(o) => [LParen] + YieldOr(o) + [RParen]
  }

  /** Parentheses nest at most `depth` deep and every run of "!" has at most `max` of them. */
  predicate WithinOr(d: OrD, depth: int, max: nat) {
    match d
    case OneAnd(a) => WithinAnd(a, depth, max)
    case MoreOr(l, r) => WithinOr(l, depth, max) && WithinAnd(r, depth, max)
  }

  predicate WithinAnd(d: AndD, depth: int, max: nat) {
    match d
    case OneUnary(u) => WithinUnary(u, depth, max)
    case MoreAnd(l, r) => WithinAnd(l, depth, max) && WithinUnary(r, depth, max)
  }

  predicate WithinUnary(d: UnaryD, depth: int, max: nat) {
    d.nots <= max && WithinPrimary(d.primary, depth, max)
  }

  predicate WithinPrimary(d: PrimaryD, depth: int, max: nat) {
    depth >= 0 && match d
      case Name(n) => true
      case Paren(o) => WithinOr(o, depth - 1, max)
  }

  // ----- The tree a derivation stands for ----------------------------------

  function Negate(n: nat, a: Ast): Ast {
    if n == 0 then a else NotNode(Negate(n - 1, a))
  }

  function AstOr(d: OrD): Ast {
    match d
    case OneAnd(a) => AstAnd(a)
    case MoreOr(l, r) => OrNode(AstOr(l), AstAnd(r))
  }

  function AstAnd(d: AndD): Ast {
    match d
    case OneUnary(u) => AstUnary(u)
    case MoreAnd(l, r) => AndNode(AstAnd(l), AstUnary(r))
  }

  function AstUnary(d: UnaryD): Ast {
    Negate(d.nots, AstPrimary(d.primary))
  }

  function AstPrimary(d: PrimaryD): Ast {
    match d
    case Name(n) => Id(n)
    case Paren(o) => AstOr(o)
  }

  // ----- Two readings of an expression --------------------------------------

  /** evaluateWhenNode of the terminal client; `ctx` is the truthiness of a context lookup. */
  predicate Evaluate(node: Ast, ctx: string -> bool) {
    match node
    case Id(name) => if name == "true" then true else if name == "false" then false else ctx(name)
    case NotNode(n) => !Evaluate(n, ctx)
    case AndNode(l, r) => Evaluate(l, ctx) && Evaluate(r, ctx)
    case OrNode(l, r) => Evaluate(l, ctx) || Evaluate(r, ctx)
  }

  /** The alternatives of a disjunction, in order. */
  function Disjuncts(d: OrD): seq<AndD> {
    match d
    case OneAnd(a) => [a]
    case MoreOr(l, r) => Disjuncts(l) + [r]
  }

  function Conjuncts(d: AndD): seq<UnaryD> {
    match d
    case OneUnary(u) => [u]
    case MoreAnd(l, r) => Conjuncts(l) + [r]
  }
}
