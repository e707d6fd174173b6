/**
 * The tokenizer of "when" expressions, proved to accept exactly the layouts of
 * token lists and to return those tokens.
 */
module WhenTokenizer {
  import opened Wrappers
  import opened Text
  import opened WhenSyntax

  // ----- Lexical structure --------------------------------------------------

  predicate IsIdentifierStart(c: char) { IsLetter(c) || c == '_' }

  predicate IsIdentifierPart(c: char) {
    IsIdentifierStart(c) || IsDigit(c) || c == '.' || c == '-'
  }

  predicate IsIdentifier(s: string) {
    |s| > 0 && IsIdentifierStart(s[0]) && forall i | 0 <= i < |s| :: IsIdentifierPart(s[i])
  }

  function Spelling(t: Token): string {
    match t
    case Identifier(n) => n
    case Not => "!"
    case And => "&&"
    case Or => "||"
    case LParen => "("
    case RParen => ")"
  }

  /** Text made of the tokens' spellings, with gaps[i] before token i and the last gap at the end. */
  function Layout(ts: seq<Token>, gaps: seq<string>): string
    requires |gaps| == |ts| + 1
  {
    if ts == [] then gaps[0] else gaps[0] + Spelling(ts[0]) + Layout(ts[1..], gaps[1..])
  }

  /** Gaps are white space, identifiers are well formed, and two identifiers never touch. */
  predicate ValidLayout(ts: seq<Token>, gaps: seq<string>) {
    && |gaps| == |ts| + 1
    && (forall i | 0 <= i < |gaps| :: IsBlank(gaps[i]))
    && (forall i | 0 <= i < |ts| && ts[i].Identifier? :: IsIdentifier(ts[i].name))
    && (forall i | 0 <= i < |ts| - 1 && ts[i].Identifier? && ts[i + 1].Identifier? :: gaps[i + 1] != "")
  }

  // ----- Tokens of a text ---------------------------------------------------

  /** Length of the longest identifier part at the front of `s`. */
  function PartLength(s: string): (n: nat)
    ensures n <= |s| && forall i | 0 <= i < n :: IsIdentifierPart(s[i])
    ensures n < |s| ==> !IsIdentifierPart(s[n])
  {
    if s != "" && IsIdentifierPart(s[0]) then 1 + PartLength(s[1..]) else 0
  }

  function Prepend(ts: seq<Token>, more: Option<seq<Token>>): Option<seq<Token>> {
    if more.None? then None else Some(ts + more.value)
  }

  function Tokens(s: string): Option<seq<Token>>
    decreases |s|
  {
    if s == "" then Some([])
    else if IsSpace(s[0]) then Tokens(s[1..])
    else if "&&" <= s then Prepend([And], Tokens(s[2..]))
    else if "||" <= s then Prepend([Or], Tokens(s[2..]))
    else if s[0] == '!' then Prepend([Not], Tokens(s[1..]))
    else if s[0] == '(' then Prepend([LParen], Tokens(s[1..]))
    else if s[0] == ')' then Prepend([RParen], Tokens(s[1..]))
    else if IsIdentifierStart(s[0]) then
      Prepend([Identifier(s[..PartLength(s)])], Tokens(s[PartLength(s)..]))
    else None
  }

  lemma PrependTwice(a: seq<Token>, b: seq<Token>, more: Option<seq<Token>>)
    ensures Prepend(a, Prepend(b, more)) == Prepend(a + b, more)
  {
    if more.Some? {
      assert a + (b + more.value) == a + b + more.value;
    }
  }

  lemma PrependNothing(more: Option<seq<Token>>)
    ensures Prepend([], more) == more
  {
    if more.Some? {
      assert [] + more.value == more.value;
    }
  }

  method TokenizeWhenExpression(expression: string) returns (r: Option<seq<Token>>)
    ensures r == Tokens(expression)
  {
    var tokens: seq<Token> := [];
    var index := 0;
    PrependNothing(Tokens(expression));
    assert expression[0..] == expression;
    while index < |expression|
      invariant index <= |expression|
      invariant Tokens(expression) == Prepend(tokens, Tokens(expression[index..]))
    {
      var current := expression[index];
      ghost var rest, before := expression[index..], tokens;
      if IsSpace(current) {
        index := index + 1;
        assert rest[1..] == expression[index..];
        continue;
      }
      var token, length;
      if "&&" <= expression[index..] {
        token, length := And, 2;
      } else if "||" <= expression[index..] {
        token, length := Or, 2;
      } else if current == '!' {
        token, length := Not, 1;
      } else if current == '(' {
        token, length := LParen, 1;
      } else if current == ')' {
        token, length := RParen, 1;
      } else if !IsIdentifierStart(current) {
        return None;
      } else {
        length := PartLength(expression[index..]);
        token := Identifier(expression[index..index + length]);
        assert length > 0 && rest[..length] == expression[index..index + length];
      }
      tokens := tokens + [token];
      index := index + length;
      assert rest[length..] == expression[index..];
      PrependTwice(before, [token], Tokens(rest[length..]));
    }
    assert tokens + [] == tokens;
    return Some(tokens);
  }

  // ----- What the tokenizer accepts ------------------------------------------

  lemma {:induction false} PartLengthOf(id: string, rest: string)
    requires forall i | 0 <= i < |id| :: IsIdentifierPart(id[i])
    requires rest == "" || !IsIdentifierPart(rest[0])
    ensures PartLength(id + rest) == |id|
  {
    if id == "" {
      assert id + rest == rest;
    } else {
      assert (id + rest)[1..] == id[1..] + rest;
      PartLengthOf(id[1..], rest);
    }
  }

  lemma {:induction false} SkipBlank(gap: string, rest: string)
    requires IsBlank(gap)
    ensures Tokens(gap + rest) == Tokens(rest)
  {
    if gap == "" {
      assert gap + rest == rest;
    } else {
      assert (gap + rest)[1..] == gap[1..] + rest;
      SkipBlank(gap[1..], rest);
    }
  }

  lemma IdentifierRead(name: string, rest: string)
    requires IsIdentifier(name) && (rest == "" || !IsIdentifierPart(rest[0]))
    ensures Tokens(name + rest) == Prepend([Identifier(name)], Tokens(rest))
  {
    var s := name + rest;
    PartLengthOf(name, rest);
    assert s[..|name|] == name && s[|name|..] == rest && s[0] == name[0];
    assert !("&&" <= s) && !("||" <= s);
  }

  /** A token's spelling is read back as that token, provided an identifier is not continued. */
  lemma TokenRead(t: Token, rest: string)
    requires t.Identifier? ==> IsIdentifier(t.name) && (rest == "" || !IsIdentifierPart(rest[0]))
    ensures Tokens(Spelling(t) + rest) == Prepend([t], Tokens(rest))
  {
    var s := Spelling(t) + rest;
    assert s[|Spelling(t)|..] == rest;
    match t
    case Identifier(name) => IdentifierRead(name, rest);
    case And =>
      assert s[0] == '&' && s[1] == '&';
      assert "&&" <= s;
    case Or =>
      assert s[0] == '|' && s[1] == '|';
      assert !("&&" <= s) && "||" <= s;
    case Not =>
      assert s[0] == '!';
    case LParen =>
      assert s[0] == '(';
    case RParen =>
      assert s[0] == ')';
  }

  /** Every layout of a token list is tokenized to that list. */
  lemma {:induction false} LayoutRead(ts: seq<Token>, gaps: seq<string>)
    requires ValidLayout(ts, gaps)
    ensures Tokens(Layout(ts, gaps)) == Some(ts)
  {
    if ts == [] {
      SkipBlank(gaps[0], "");
      assert gaps[0] + "" == gaps[0];
    } else {
      ValidRest(ts, gaps);
      LayoutRead(ts[1..], gaps[1..]);
      FirstTokenRead(gaps[0], ts[0], Layout(ts[1..], gaps[1..]), ts);
    }
  }

  lemma FirstTokenRead(gap: string, t: Token, rest: string, ts: seq<Token>)
    requires IsBlank(gap) && ts != [] && ts[0] == t && Tokens(rest) == Some(ts[1..])
    requires t.Identifier? ==> IsIdentifier(t.name) && (rest == "" || !IsIdentifierPart(rest[0]))
    ensures Tokens(gap + Spelling(t) + rest) == Some(ts)
  {
    TokenRead(t, rest);
    SkipBlank(gap, Spelling(t) + rest);
    assert gap + Spelling(t) + rest == gap + (Spelling(t) + rest);
    assert ts == [t] + ts[1..];
  }

  lemma ValidRest(ts: seq<Token>, gaps: seq<string>)
    requires ValidLayout(ts, gaps) && ts != []
    ensures ValidLayout(ts[1..], gaps[1..])
    ensures ts[0].Identifier? ==>
      var rest := Layout(ts[1..], gaps[1..]);
      IsIdentifier(ts[0].name) && (rest == "" || !IsIdentifierPart(rest[0]))
  {
  }

  /** Whatever the tokenizer accepts is a layout of the tokens it returns. */
  lemma {:induction false} ReadIsLayout(s: string) returns (gaps: seq<string>)
    requires Tokens(s).Some?
    ensures ValidLayout(Tokens(s).value, gaps) && Layout(Tokens(s).value, gaps) == s
    decreases |s|
  {
    if s == "" {
      gaps := [""];
      return;
    }
    hide Layout, ValidLayout;
    if IsSpace(s[0]) {
      var more := ReadIsLayout(s[1..]);
      gaps := more[0 := [s[0]] + more[0]];
      WidenGap(Tokens(s).value, more, [s[0]]);
      assert s == [s[0]] + s[1..];
    } else {
      var n := |Spelling(Tokens(s).value[0])|;
      assert Tokens(s).value[1..] == Tokens(s[n..]).value && s[..n] == Spelling(Tokens(s).value[0]);
      var more := ReadIsLayout(s[n..]);
      gaps := [""] + more;
      AddToken(Tokens(s).value, more, s, n);
    }
  }

  lemma WidenGap(ts: seq<Token>, gaps: seq<string>, blank: string)
    requires ValidLayout(ts, gaps) && IsBlank(blank)
    ensures ValidLayout(ts, gaps[0 := blank + gaps[0]])
    ensures Layout(ts, gaps[0 := blank + gaps[0]]) == blank + Layout(ts, gaps)
  {
  }

  lemma AddToken(ts: seq<Token>, more: seq<string>, s: string, n: nat)
    requires ts != [] && ValidLayout(ts[1..], more) && n <= |s|
    requires s[..n] == Spelling(ts[0]) && Layout(ts[1..], more) == s[n..]
    requires ts[0].Identifier? ==> IsIdentifier(ts[0].name) && (n < |s| ==> !IsIdentifierPart(s[n]))
    ensures ValidLayout(ts, [""] + more) && Layout(ts, [""] + more) == s
  {
  }
}
