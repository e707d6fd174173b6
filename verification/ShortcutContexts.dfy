/** The context of a rule, a text two rules share when they compete for the same key press. */
module ShortcutContexts {
  import opened Wrappers
  import opened Text
  import opened Shortcuts
  import WhenTokenizer

  function WhenText(rule: Rule): string { if rule.when.None? then "" else rule.when.value }

  function ShortcutContext(rule: Rule): Option<string> {
    var parsed := ParsedShortcut(rule.key);
    if parsed.None? then None else
    var encoded := EncodeShortcut(parsed.value);
    if encoded.None? then None else Some(encoded.value + "\0" + WhenText(rule))
  }

  predicate HasSameShortcutContext(left: Rule, right: Rule) {
    var l, r := ShortcutContext(left), ShortcutContext(right);
    l.Some? && r.Some? && l == r
  }

  predicate SameShortcutAndWhen(left: Rule, right: Rule) {
    && ParsedShortcut(left.key).Some?
    && ParsedShortcut(left.key) == ParsedShortcut(right.key)
    && WhenText(left) == WhenText(right)
  }

  /** The shortcut of a rule as it is printed. */
  function PrintedShortcut(rule: Rule): Option<string> {
    if ParsedShortcut(rule.key).None? then None else EncodeShortcut(ParsedShortcut(rule.key).value)
  }

  /** `a` is `b`, a NUL and some tail, and `v` is that tail, a NUL and `w`. */
  predicate Straddles(a: string, w: string, b: string, v: string) {
    |a| > |b| && a[..|b|] == b && a[|b|] == '\0' && v == a[|b| + 1..] + "\0" + w
  }

  /** The NUL of one context lies inside the printed shortcut of the other. */
  predicate ContextsStraddle(left: Rule, right: Rule) {
    var a, b := PrintedShortcut(left), PrintedShortcut(right);
    a.Some? && b.Some?
    && (Straddles(a.value, WhenText(left), b.value, WhenText(right)) || Straddles(b.value, WhenText(right), a.value, WhenText(left)))
  }

  lemma SameText(a: string, w: string, b: string, v: string)
    requires |a| > |b|
    ensures a + "\0" + w == b + "\0" + v <==> Straddles(a, w, b, v)
  {
    var s, t := a + "\0" + w, b + "\0" + v;
    if s == t {
      assert s[..|b|] == a[..|b|] && t[..|b|] == b && s[|b|] == a[|b|] && t[|b|] == '\0';
      assert s[|b| + 1..] == a[|b| + 1..] + "\0" + w && t[|b| + 1..] == v;
    }
  }

  lemma SameLength(a: string, w: string, b: string, v: string)
    requires |a| == |b|
    ensures a + "\0" + w == b + "\0" + v <==> a == b && w == v
  {
    var s, t := a + "\0" + w, b + "\0" + v;
    assert s[..|a|] == a && t[..|b|] == b && s[|a| + 1..] == w && t[|b| + 1..] == v;
  }

  /**
   * Two rules share a context exactly when their parsed shortcuts and their conditions agree, or
   * the contexts straddle each other's NUL.
   */
  lemma SameContextExactly(left: Rule, right: Rule)
    ensures HasSameShortcutContext(left, right) <==> SameShortcutAndWhen(left, right) || ContextsStraddle(left, right)
  {
    hide ParsedShortcut, EncodeShortcut, Straddles;
    var p, q := ParsedShortcut(left.key), ParsedShortcut(right.key);
    if p.Some? && q.Some? {
      var a := PrintedContext(left, p.value);
      var b := PrintedContext(right, q.value);
      if |a| == |b| {
        SameLength(a, WhenText(left), b, WhenText(right));
        NotStraddling(a, WhenText(left), b, WhenText(right));
        NotStraddling(b, WhenText(right), a, WhenText(left));
      } else if |a| > |b| {
        SameText(a, WhenText(left), b, WhenText(right));
        NotStraddling(b, WhenText(right), a, WhenText(left));
      } else {
        SameText(b, WhenText(right), a, WhenText(left));
        NotStraddling(a, WhenText(left), b, WhenText(right));
      }
    }
  }

  lemma NotStraddling(a: string, w: string, b: string, v: string)
    requires |a| <= |b|
    ensures !Straddles(a, w, b, v)
  {
  }

  /** A condition the compiler accepts: none at all, or one with tokens. */
  predicate ConditionTokenizes(rule: Rule) {
    rule.when.Some? ==> WhenTokenizer.Tokens(rule.when.value).Some?
  }

  /** Rules that compile share a context exactly when their parsed shortcuts and conditions agree. */
  lemma SameContextOfCompiled(left: Rule, right: Rule)
    requires ConditionTokenizes(left) && ConditionTokenizes(right)
    ensures HasSameShortcutContext(left, right) <==> SameShortcutAndWhen(left, right)
  {
    SameContextExactly(left, right);
    CompiledDoNotStraddle(left, right);
  }

  /** So do rules whose keys hold no NUL, whatever their conditions. */
  lemma SameContextOfPlainKeys(left: Rule, right: Rule)
    requires '\0' !in left.key && '\0' !in right.key
    ensures HasSameShortcutContext(left, right) <==> SameShortcutAndWhen(left, right)
  {
    SameContextExactly(left, right);
    if ParsedShortcut(left.key).Some? { PrintedLacksNul(left.key); }
    if ParsedShortcut(right.key).Some? { PrintedLacksNul(right.key); }
    if PrintedShortcut(left).Some? && PrintedShortcut(right).Some? {
      StraddlingHoldsNul(PrintedShortcut(left).value, WhenText(left), PrintedShortcut(right).value, WhenText(right));
      StraddlingHoldsNul(PrintedShortcut(right).value, WhenText(right), PrintedShortcut(left).value, WhenText(left));
    }
  }

  /** Printing adds no NUL. */
  lemma PrintedLacksNul(key: string)
    requires '\0' !in key && ParsedShortcut(key).Some?
    ensures EncodeShortcut(ParsedShortcut(key).value).Some? ==> '\0' !in EncodeShortcut(ParsedShortcut(key).value).value
  {
    var s := ParsedShortcut(key).value;
    ParsedKeyKeeps(key, '\0');
    ModifiersLackNul(s);
    JoinLacks(Modifiers(s) + [if s.key == " " then "space" else s.key], "+", '\0');
  }

  lemma ModifiersLackNul(s: Shortcut)
    ensures forall m | m in Modifiers(s) :: '\0' !in m
  {
  }

  /** A context is the printed shortcut, which can be read back, a NUL and the condition. */
  lemma PrintedContext(rule: Rule, s: Shortcut) returns (text: string)
    requires ParsedShortcut(rule.key) == Some(s)
    ensures ParsedShortcut(text) == Some(s) && EncodeShortcut(s) == Some(text)
    ensures ShortcutContext(rule) == Some(text + "\0" + WhenText(rule))
  {
    RoundTrip(rule.key);
    text := EncodeShortcut(s).value;
  }

  /** The condition of every rule that compiles is free of NUL: the tokenizer rejects it. */
  lemma {:induction false} TokenizedHasNoNul(s: string)
    requires WhenTokenizer.Tokens(s).Some?
    ensures '\0' !in s
    decreases |s|
  {
    if s != "" {
      var n :=
        if IsSpace(s[0]) then 1
        else if "&&" <= s || "||" <= s then 2
        else if s[0] == '!' || s[0] == '(' || s[0] == ')' then 1
        else WhenTokenizer.PartLength(s);
      assert WhenTokenizer.Tokens(s[n..]).Some?;
      TokenizedHasNoNul(s[n..]);
      assert s == s[..n] + s[n..];
      assert forall i | 0 <= i < n :: s[i] != '\0';
    }
  }

  /** Texts can straddle: the keys a NUL b and a, the second under the condition b NUL, which does not compile. */
  lemma StraddlingExample()
    ensures exists left, right :: ContextsStraddle(left, right) && !SameShortcutAndWhen(left, right)
  {
    hide ParsedShortcut, CanonicalKey, PrintedShortcut, Straddles;
    var left, right := Rule("a\0b", "x", None), Rule("a", "y", Some("b\0"));
    ExampleTexts();
    BareKey(left);
    BareKey(right);
    assert ContextsStraddle(left, right) && !SameShortcutAndWhen(left, right);
  }

  lemma ExampleTexts()
    ensures CanonicalKey("a") && CanonicalKey("a\0b") && Straddles("a\0b", "", "a", "b\0")
  {
    assert "a\0b"[2..] + "\0" + "" == "b\0";
  }

  /** Rules that compile never straddle. */
  lemma CompiledDoNotStraddle(left: Rule, right: Rule)
    requires ConditionTokenizes(left) && ConditionTokenizes(right)
    ensures !ContextsStraddle(left, right)
  {
    if left.when.Some? { TokenizedHasNoNul(left.when.value); }
    if right.when.Some? { TokenizedHasNoNul(right.when.value); }
    if PrintedShortcut(left).Some? && PrintedShortcut(right).Some? {
      StraddlingHoldsNul(PrintedShortcut(left).value, WhenText(left), PrintedShortcut(right).value, WhenText(right));
      StraddlingHoldsNul(PrintedShortcut(right).value, WhenText(right), PrintedShortcut(left).value, WhenText(left));
    }
  }

  lemma StraddlingHoldsNul(a: string, w: string, b: string, v: string)
    ensures Straddles(a, w, b, v) ==> '\0' in v && '\0' in a
  {
    if Straddles(a, w, b, v) {
      assert v[|a| - |b| - 1] == '\0';
    }
  }

  lemma BareKey(rule: Rule)
    requires CanonicalKey(rule.key) && rule.key != " "
    ensures PrintedShortcut(rule) == Some(rule.key)
    ensures ParsedShortcut(rule.key) == Some(Shortcut(rule.key, false, false, false, false, false))
  {
    var s := Shortcut(rule.key, false, false, false, false, false);
    CanonicalRoundTrip(s);
    assert Modifiers(s) == [] && Modifiers(s) + [KeyText(s)] == [rule.key];
    KeyTextKind(s);
  }
}
