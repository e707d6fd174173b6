/** Shortcut text: its parser, its printer, and the canonical form both agree on. */
module Shortcuts {
  import opened Wrappers
  import opened Text

  datatype Shortcut = Shortcut(
    key: string, metaKey: bool, ctrlKey: bool, shiftKey: bool, altKey: bool, modKey: bool)

  datatype Rule = Rule(key: string, command: string, when: Option<string>)

  // ----- Shortcut text --------------------------------------------------------

  function NormalizeKeyToken(token: string): string {
    if token == "space" then " " else if token == "esc" then "escape" else token
  }

  datatype TokenKind = Meta | Ctrl | Shift | Alt | Mod | Key

  function Kind(token: string): TokenKind {
    if token == "cmd" || token == "meta" then Meta
    else if token == "ctrl" || token == "control" then Ctrl
    else if token == "shift" then Shift
    else if token == "alt" || token == "option" then Alt
    else if token == "mod" then Mod
    else Key
  }

  /** A token names a modifier exactly when it is one of its names; every other token is a key. */
  lemma KindExactly(token: string)
    ensures Kind(token) == Meta <==> token in {"cmd", "meta"}
    ensures Kind(token) == Ctrl <==> token in {"ctrl", "control"}
    ensures Kind(token) == Shift <==> token == "shift"
    ensures Kind(token) == Alt <==> token in {"alt", "option"}
    ensures Kind(token) == Mod <==> token == "mod"
    ensures NormalizeKeyToken("space") == " " && NormalizeKeyToken("esc") == "escape"
    ensures token != "space" && token != "esc" ==> NormalizeKeyToken(token) == token
  {
  }

  function TrimAll(parts: seq<string>): seq<string> {
    seq(|parts|, i requires 0 <= i < |parts| => Trim(parts[i]))
  }

  function RawTokens(value: string): seq<string> {
    TrimAll(Split(Lower(value), "+"))
  }

  function DropTrailingEmpty(tokens: seq<string>): seq<string> {
    if tokens != [] && tokens[|tokens| - 1] == "" then DropTrailingEmpty(tokens[..|tokens| - 1]) else tokens
  }

  /** Trailing empty tokens mean the "+" key. */
  function ShortcutTokens(value: string): seq<string> {
    var raw := RawTokens(value);
    var kept := DropTrailingEmpty(raw);
    if |kept| < |raw| then kept + ["+"] else kept
  }

  /** Some token is of this kind. */
  predicate Has(tokens: seq<string>, kind: TokenKind) {
    tokens != [] && (Kind(tokens[|tokens| - 1]) == kind || Has(tokens[..|tokens| - 1], kind))
  }

  function Keys(tokens: seq<string>): seq<string> {
    if tokens == [] then []
    else (if Kind(tokens[0]) == Key then [tokens[0]] else []) + Keys(tokens[1..])
  }

  /** Exactly one token names a key; the others set their modifier; none is empty. */
  function ShortcutOf(tokens: seq<string>): Option<Shortcut> {
    if "" in tokens || |Keys(tokens)| != 1 then None
    else Some(Shortcut(NormalizeKeyToken(Keys(tokens)[0]),
                       Has(tokens, Meta), Has(tokens, Ctrl), Has(tokens, Shift), Has(tokens, Alt), Has(tokens, Mod)))
  }

  function ParsedShortcut(value: string): Option<Shortcut> {
    ShortcutOf(ShortcutTokens(value))
  }

  lemma {:induction false} KeysConcat(a: seq<string>, b: seq<string>)
    ensures Keys(a + b) == Keys(a) + Keys(b)
  {
    if a == [] {
      assert a + b == b;
    } else {
      assert (a + b)[1..] == a[1..] + b;
      KeysConcat(a[1..], b);
    }
  }

  lemma OneMore(tokens: seq<string>, token: string, kind: TokenKind)
    ensures Has(tokens + [token], kind) <==> Has(tokens, kind) || Kind(token) == kind
    ensures Keys(tokens + [token]) == Keys(tokens) + if Kind(token) == Key then [token] else []
  {
    assert (tokens + [token])[..|tokens|] == tokens;
    KeysConcat(tokens, [token]);
  }

  /** What the loop has read so far. */
  datatype Scan = Scan(keys: seq<string>, metaKey: bool, ctrlKey: bool, shiftKey: bool, altKey: bool, modKey: bool)

  function Scanned(tokens: seq<string>): Scan {
    Scan(Keys(tokens), Has(tokens, Meta), Has(tokens, Ctrl), Has(tokens, Shift), Has(tokens, Alt), Has(tokens, Mod))
  }

  function Noted(scan: Scan, token: string): Scan {
    match Kind(token)
    case Meta => scan.(metaKey := true)
    case Ctrl => scan.(ctrlKey := true)
    case Shift => scan.(shiftKey := true)
    case Alt => scan.(altKey := true)
    case Mod => scan.(modKey := true)
    case Key => scan.(keys := scan.keys + [token])
  }

  lemma ScannedMore(tokens: seq<string>, token: string)
    ensures Scanned(tokens + [token]) == Noted(Scanned(tokens), token)
  {
    OneMore(tokens, token, Meta);
    OneMore(tokens, token, Ctrl);
    OneMore(tokens, token, Shift);
    OneMore(tokens, token, Alt);
    OneMore(tokens, token, Mod);
    assert Keys(tokens) + [] == Keys(tokens);
  }

  /** A second key token spoils the whole text. */
  lemma TwoKeys(tokens: seq<string>, i: nat)
    requires i <= |tokens| && |Scanned(tokens[..i]).keys| > 1
    ensures ShortcutOf(tokens) == None
  {
    KeysConcat(tokens[..i], tokens[i..]);
    assert tokens == tokens[..i] + tokens[i..];
  }

  /** The token list: split at "+", trim, and read trailing empty tokens as the "+" key. */
  method SplitTokens(value: string) returns (tokens: seq<string>)
    ensures tokens == ShortcutTokens(value)
  {
    tokens := RawTokens(value);
    ghost var raw := tokens;
    var trailingEmptyCount := 0;
    while |tokens| > 0 && tokens[|tokens| - 1] == ""
      invariant |tokens| + trailingEmptyCount == |raw|
      invariant DropTrailingEmpty(tokens) == DropTrailingEmpty(raw)
      decreases |tokens|
    {
      trailingEmptyCount := trailingEmptyCount + 1;
      tokens := tokens[..|tokens| - 1];
    }
    if trailingEmptyCount > 0 {
      tokens := tokens + ["+"];
    }
  }

  method ParseKeybindingShortcut(value: string) returns (r: Option<Shortcut>)
    ensures r == ParsedShortcut(value)
  {
    var tokens := SplitTokens(value);
    if "" in tokens {
      return None;
    }
    if |tokens| == 0 {
      return None;
    }
    var key: Option<string> := None;
    var metaKey, ctrlKey, shiftKey, altKey, modKey := false, false, false, false, false;
    ghost var scan := Scanned([]);
    hide NormalizeKeyToken, Kind, Scanned, ShortcutOf, Keys, Has, ShortcutTokens;
    for i := 0 to |tokens|
      invariant scan == Scanned(tokens[..i]) && |scan.keys| <= 1
      invariant key == if scan.keys == [] then None else Some(NormalizeKeyToken(scan.keys[0]))
      invariant metaKey == scan.metaKey && ctrlKey == scan.ctrlKey && shiftKey == scan.shiftKey
      invariant altKey == scan.altKey && modKey == scan.modKey
    {
      var token := tokens[i];
      assert tokens[..i + 1] == tokens[..i] + [token];
      ScannedMore(tokens[..i], token);
      scan := Noted(scan, token);
      match Kind(token) {
        case Meta => metaKey := true;
        case Ctrl => ctrlKey := true;
        case Shift => shiftKey := true;
        case Alt => altKey := true;
        case Mod => modKey := true;
        case Key =>
          if key.Some? {
            TwoKeys(tokens, i + 1);
            return None;
          }
          key := Some(NormalizeKeyToken(token));
      }
    }
    assert tokens[..|tokens|] == tokens;
    ScannedIsShortcut(tokens);
    if key.None? {
      return None;
    }
    return Some(Shortcut(key.value, metaKey, ctrlKey, shiftKey, altKey, modKey));
  }

  lemma ScannedIsShortcut(tokens: seq<string>)
    requires "" !in tokens
    ensures var scan := Scanned(tokens);
      ShortcutOf(tokens) == if |scan.keys| != 1 then None
        else Some(Shortcut(NormalizeKeyToken(scan.keys[0]), scan.metaKey, scan.ctrlKey, scan.shiftKey, scan.altKey, scan.modKey))
  {
  }

  // ----- The printer and the canonical form ------------------------------------

  function Flag(on: bool, name: string): seq<string> { if on then [name] else [] }

  function Modifiers(s: Shortcut): seq<string> {
    Flag(s.modKey, "mod") + Flag(s.metaKey, "meta") + Flag(s.ctrlKey, "ctrl") + Flag(s.altKey, "alt")
    + Flag(s.shiftKey, "shift")
  }

  function EncodeShortcut(s: Shortcut): Option<string> {
    if s.key == "" then None
    else if s.key != "+" && '+' in s.key then None
    else Some(Join(Modifiers(s) + [if s.key == " " then "space" else s.key], "+"))
  }

  predicate Lowered(s: string) { forall c | c in s :: !IsUpper(c) }

  /** The keys a parsed shortcut can have. */
  predicate CanonicalKey(key: string) {
    || key == " "
    || key == "+"
    || (key != "" && '+' !in key && IsTrimmed(key) && Lowered(key) && Kind(key) == Key && key != "space" && key != "esc")
  }

  lemma {:induction false} TrimKeeps(s: string, c: char)
    requires c in Trim(s)
    ensures c in s
  {
    TrimLeftKeeps(s);
    TrimRightKeeps(TrimLeft(s));
  }

  lemma {:induction false} TrimLeftKeeps(s: string)
    ensures forall c | c in TrimLeft(s) :: c in s
  {
    if s != "" && IsSpace(s[0]) {
      TrimLeftKeeps(s[1..]);
    }
  }

  lemma {:induction false} TrimRightKeeps(s: string)
    ensures forall c | c in TrimRight(s) :: c in s
  {
    if s != "" && IsSpace(s[|s| - 1]) {
      TrimRightKeeps(s[..|s| - 1]);
    }
  }

  lemma {:induction false} DropIsPrefix(tokens: seq<string>)
    ensures DropTrailingEmpty(tokens) <= tokens
  {
    if tokens != [] && tokens[|tokens| - 1] == "" {
      DropIsPrefix(tokens[..|tokens| - 1]);
    }
  }

  lemma RawTokensPlain(value: string, token: string)
    requires token in RawTokens(value)
    ensures '+' !in token && IsTrimmed(token) && Lowered(token)
  {
    var text := Lower(value);
    var parts := Split(text, "+");
    JoinSplit(text, '+');
    var i :| 0 <= i < |parts| && token == Trim(parts[i]);
    TrimmedIsTrimmed(parts[i]);
    forall c | c in token ensures c != '+' && !IsUpper(c) {
      TrimKeeps(parts[i], c);
      if IsUpper(c) {
        assert c !in text;
        JoinedKeeps(parts, i, c);
      }
    }
  }

  lemma {:induction false} JoinedKeeps(parts: seq<string>, i: nat, c: char)
    requires i < |parts| && c in parts[i]
    ensures c in Join(parts, "+")
  {
    if i > 0 {
      JoinedKeeps(parts[1..], i - 1, c);
    }
  }

  lemma {:induction false} KeyIsToken(tokens: seq<string>, key: string)
    requires key in Keys(tokens)
    ensures key in tokens && Kind(key) == Key
  {
    if !(Kind(tokens[0]) == Key && key == tokens[0]) {
      KeyIsToken(tokens[1..], key);
    }
  }

  /** Whatever is parsed has a canonical key. */
  lemma ParsedIsCanonical(value: string)
    requires ParsedShortcut(value).Some?
    ensures CanonicalKey(ParsedShortcut(value).value.key)
  {
    var key := Keys(ShortcutTokens(value))[0];
    KeyTokenPlain(value, key);
    if key != "+" && key != "space" && key != "esc" {
      assert NormalizeKeyToken(key) == key;
    }
  }

  lemma KeyTokenPlain(value: string, key: string)
    requires "" !in ShortcutTokens(value) && key in Keys(ShortcutTokens(value))
    ensures key != "" && Kind(key) == Key
    ensures key == "+" || ('+' !in key && IsTrimmed(key) && Lowered(key))
  {
    KeyIsToken(ShortcutTokens(value), key);
    DropIsPrefix(RawTokens(value));
    if key != "+" {
      assert key in RawTokens(value);
      RawTokensPlain(value, key);
    }
  }

  /** A parsed key has no character the text lacks, unless it stands for a named key. */
  lemma ParsedKeyKeeps(value: string, c: char)
    requires ParsedShortcut(value).Some? && c !in value && !IsLower(c) && c != '+' && c != ' '
    ensures c !in ParsedShortcut(value).value.key
  {
    var key := Keys(ShortcutTokens(value))[0];
    KeyIsToken(ShortcutTokens(value), key);
    DropIsPrefix(RawTokens(value));
    if key != "+" {
      assert key in RawTokens(value);
      RawTokenKeeps(value, key, c);
    }
  }

  lemma RawTokenKeeps(value: string, token: string, c: char)
    requires token in RawTokens(value) && c !in value && !IsLower(c)
    ensures c !in token
  {
    var text := Lower(value);
    var parts := Split(text, "+");
    JoinSplit(text, '+');
    var i :| 0 <= i < |parts| && token == Trim(parts[i]);
    if c in token {
      TrimKeeps(parts[i], c);
      JoinedKeeps(parts, i, c);
    }
  }

  lemma FlagFacts(before: seq<string>, on: bool, name: string, kind: TokenKind)
    requires Kind(name) != Key && Keys(before) == []
    ensures Has(before + Flag(on, name), kind) <==> Has(before, kind) || (on && Kind(name) == kind)
    ensures Keys(before + Flag(on, name)) == []
  {
    if on {
      OneMore(before, name, kind);
    } else {
      assert before + [] == before;
    }
  }

  lemma ModifierFacts(s: Shortcut, kind: TokenKind)
    ensures Keys(Modifiers(s)) == []
    ensures Has(Modifiers(s), kind) <==>
      match kind
        case Meta => s.metaKey
        case Ctrl => s.ctrlKey
        case Shift => s.shiftKey
        case Alt => s.altKey
        case Mod => s.modKey
        case Key => false
  {
    var a := Flag(s.modKey, "mod");
    var b := a + Flag(s.metaKey, "meta");
    var c := b + Flag(s.ctrlKey, "ctrl");
    var d := c + Flag(s.altKey, "alt");
    FlagFacts([], s.modKey, "mod", kind);
    assert [] + a == a;
    FlagFacts(a, s.metaKey, "meta", kind);
    FlagFacts(b, s.ctrlKey, "ctrl", kind);
    FlagFacts(c, s.altKey, "alt", kind);
    FlagFacts(d, s.shiftKey, "shift", kind);
  }

  /** Text that splitting, lower-casing and trimming leave alone. */
  predicate PlainToken(m: string) {
    '+' !in m && Lower(m) == m && Trim(m) == m && m != ""
  }

  lemma ModifiersPlain(s: Shortcut)
    ensures forall m | m in Modifiers(s) :: PlainToken(m)
  {
    hide PlainToken;
    ModifierNamesPlain();
  }

  lemma ModifierNamesPlain()
    ensures forall m | m in ["mod", "meta", "ctrl", "alt", "shift"] :: PlainToken(m)
  {
  }

  /** The text of the key in a printed shortcut. */
  function KeyText(s: Shortcut): string { if s.key == " " then "space" else s.key }

  lemma KeyTextPlain(s: Shortcut)
    requires CanonicalKey(s.key) && s.key != "+"
    ensures PlainToken(KeyText(s)) && '+' !in s.key && s.key != ""
  {
  }

  lemma KeyTextKind(s: Shortcut)
    requires CanonicalKey(s.key)
    ensures Kind(KeyText(s)) == Key && KeyText(s) != "" && NormalizeKeyToken(KeyText(s)) == s.key
    ensures EncodeShortcut(s) == Some(Join(Modifiers(s) + [KeyText(s)], "+"))
  {
  }

  /** The tokens of the printed shortcut: its modifiers and its key. */
  lemma PrintedShortcutTokens(s: Shortcut)
    requires CanonicalKey(s.key)
    ensures ShortcutTokens(Join(Modifiers(s) + [KeyText(s)], "+")) == Modifiers(s) + [KeyText(s)]
  {
    ModifiersPlain(s);
    if s.key == "+" {
      PlusTokens(Modifiers(s));
    } else {
      KeyTextPlain(s);
      PlainTokens(Modifiers(s), KeyText(s));
    }
  }

  lemma PlusTokens(mods: seq<string>)
    requires forall m | m in mods :: PlainToken(m)
    ensures ShortcutTokens(Join(mods + ["+"], "+")) == mods + ["+"]
  {
    JoinPlus(mods);
    assert Lower("") == "" && Trim("") == "";
    TokensOf(mods + ["", ""]);
    TrailingDropped(mods);
  }

  lemma PlainTokens(mods: seq<string>, key: string)
    requires PlainToken(key) && forall m | m in mods :: PlainToken(m)
    ensures ShortcutTokens(Join(mods + [key], "+")) == mods + [key]
  {
    TokensOf(mods + [key]);
  }

  lemma TrailingDropped(mods: seq<string>)
    requires forall m | m in mods :: PlainToken(m)
    ensures DropTrailingEmpty(mods + ["", ""]) == mods
  {
    assert (mods + ["", ""])[..|mods| + 1] == mods + [""];
    assert (mods + [""])[..|mods|] == mods;
    assert DropTrailingEmpty(mods + ["", ""]) == DropTrailingEmpty(mods + [""]) == DropTrailingEmpty(mods);
    assert mods != [] ==> mods[|mods| - 1] in mods;
  }

  lemma {:induction false} JoinPlus(mods: seq<string>)
    ensures Join(mods + ["+"], "+") == Join(mods + ["", ""], "+")
  {
    if mods == [] {
      assert [] + ["+"] == ["+"] && [] + ["", ""] == ["", ""];
      assert ["", ""][1..] == [""];
    } else {
      JoinPlus(mods[1..]);
      assert (mods + ["+"])[1..] == mods[1..] + ["+"];
      assert (mods + ["", ""])[1..] == mods[1..] + ["", ""];
    }
  }

  lemma TokensOf(parts: seq<string>)
    requires parts != [] && forall p | p in parts :: '+' !in p && Lower(p) == p && Trim(p) == p
    ensures RawTokens(Join(parts, "+")) == parts
  {
    LowerJoin(parts, "+");
    assert LowerAll(parts) == parts;
    SplitJoin(parts, '+');
    assert TrimAll(parts) == parts;
  }

  lemma PrintedKind(s: Shortcut, kind: TokenKind)
    requires CanonicalKey(s.key)
    ensures Keys(Modifiers(s) + [KeyText(s)]) == [KeyText(s)]
    ensures Has(Modifiers(s) + [KeyText(s)], kind) <==> Has(Modifiers(s), kind) || kind == Key
  {
    KeyTextKind(s);
    ModifierFacts(s, kind);
    OneMore(Modifiers(s), KeyText(s), kind);
    assert [] + [KeyText(s)] == [KeyText(s)];
  }

  lemma PrintedMeans(s: Shortcut)
    requires CanonicalKey(s.key)
    ensures ShortcutOf(Modifiers(s) + [KeyText(s)]) == Some(s)
  {
    ModifiersPlain(s);
    KeyTextKind(s);
    PrintedFlag(s, Meta);
    PrintedFlag(s, Ctrl);
    PrintedFlag(s, Shift);
    PrintedFlag(s, Alt);
    PrintedFlag(s, Mod);
  }

  lemma PrintedFlag(s: Shortcut, kind: TokenKind)
    requires CanonicalKey(s.key) && kind != Key
    ensures Keys(Modifiers(s) + [KeyText(s)]) == [KeyText(s)]
    ensures Has(Modifiers(s) + [KeyText(s)], kind) <==>
      match kind
        case Meta => s.metaKey
        case Ctrl => s.ctrlKey
        case Shift => s.shiftKey
        case Alt => s.altKey
        case Mod => s.modKey
        case Key => false
  {
    PrintedKind(s, kind);
    ModifierFacts(s, kind);
  }

  lemma CanonicalRoundTrip(s: Shortcut)
    requires CanonicalKey(s.key)
    ensures EncodeShortcut(s).Some? && ParsedShortcut(EncodeShortcut(s).value) == Some(s)
  {
    KeyTextKind(s);
    PrintedShortcutTokens(s);
    PrintedMeans(s);
  }

  /** Parsing the printed form of a parsed shortcut gives it back. */
  lemma RoundTrip(value: string)
    requires ParsedShortcut(value).Some?
    ensures var s := ParsedShortcut(value).value;
      EncodeShortcut(s).Some? && ParsedShortcut(EncodeShortcut(s).value) == Some(s)
  {
    ParsedIsCanonical(value);
    CanonicalRoundTrip(ParsedShortcut(value).value);
  }
}
