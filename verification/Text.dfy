/**
 * Character classes and string operations shared by the modelled parsers:
 * white space, ASCII case, split, join and trim.
 */
module Text {

  /** The characters ECMAScript's `\s` and `trim` treat as white space. */
  predicate IsSpace(c: char) {
    || c == ' ' || '\t' <= c <= '\r' || c == '\U{00A0}' || c == '\U{1680}'
    || '\U{2000}' <= c <= '\U{200A}' || c == '\U{2028}' || c == '\U{2029}'
    || c == '\U{202F}' || c == '\U{205F}' || c == '\U{3000}' || c == '\U{FEFF}'
  }

  predicate IsUpper(c: char) { 'A' <= c <= 'Z' }

  predicate IsLower(c: char) { 'a' <= c <= 'z' }

  predicate IsDigit(c: char) { '0' <= c <= '9' }

  predicate IsLetter(c: char) { IsUpper(c) || IsLower(c) }

  // ----- Case and trimming ----------------------------------------------------

  function LowerChar(c: char): char {
    if IsUpper(c) then (c as int - 'A' as int + 'a' as int) as char else c
  }

  const UPPER_CASE: string := "ABCDEFGHIJKLMNOPQRSTUVWXYZ"
  const LOWER_CASE: string := "abcdefghijklmnopqrstuvwxyz"

  lemma LowerCharExactly(c: char)
    ensures forall k | 0 <= k < 26 :: UPPER_CASE[k] == c ==> LowerChar(c) == LOWER_CASE[k]
    ensures (forall k | 0 <= k < 26 :: UPPER_CASE[k] != c) ==> LowerChar(c) == c
  {
    assert IsUpper(c) ==> UPPER_CASE[c as int - 'A' as int] == c;
  }

  /** toLowerCase on the ASCII letters; other characters are left as they are. */
  function Lower(s: string): (r: string)
    ensures |r| == |s| && forall i | 0 <= i < |s| :: r[i] == LowerChar(s[i])
  {
    seq(|s|, i requires 0 <= i < |s| => LowerChar(s[i]))
  }

  function TrimLeft(s: string): string {
    if s != "" && IsSpace(s[0]) then TrimLeft(s[1..]) else s
  }

  function TrimRight(s: string): string {
    if s != "" && IsSpace(s[|s| - 1]) then TrimRight(s[..|s| - 1]) else s
  }

  function Trim(s: string): string { TrimRight(TrimLeft(s)) }

  predicate IsBlank(s: string) {
    forall i | 0 <= i < |s| :: IsSpace(s[i])
  }

  /** No white space at either end. */
  predicate IsTrimmed(s: string) {
    s == "" || (!IsSpace(s[0]) && !IsSpace(s[|s| - 1]))
  }

  lemma {:induction false} TrimLeftOf(pre: string, s: string)
    requires IsBlank(pre) && (s == "" || !IsSpace(s[0]))
    ensures TrimLeft(pre + s) == s
  {
    if pre == "" {
      assert pre + s == s;
    } else {
      assert (pre + s)[1..] == pre[1..] + s;
      TrimLeftOf(pre[1..], s);
    }
  }

  lemma {:induction false} TrimRightOf(s: string, post: string)
    requires IsBlank(post) && (s == "" || !IsSpace(s[|s| - 1]))
    ensures TrimRight(s + post) == s
  {
    if post == "" {
      assert s + post == s;
    } else {
      assert (s + post)[..|s + post| - 1] == s + post[..|post| - 1];
      TrimRightOf(s, post[..|post| - 1]);
    }
  }

  lemma TrimOf(pre: string, s: string, post: string)
    requires IsBlank(pre) && IsBlank(post) && s != "" && IsTrimmed(s)
    ensures Trim(pre + s + post) == s
  {
    assert pre + s + post == pre + (s + post);
    TrimLeftOf(pre, s + post);
    TrimRightOf(s, post);
  }

  lemma {:induction false} TrimmedIsTrimmed(s: string)
    ensures IsTrimmed(Trim(s))
  {
    TrimLeftResult(s);
    TrimRightResult(TrimLeft(s));
  }

  lemma {:induction false} TrimLeftResult(s: string)
    ensures TrimLeft(s) == "" || !IsSpace(TrimLeft(s)[0])
  {
    if s != "" && IsSpace(s[0]) {
      TrimLeftResult(s[1..]);
    }
  }

  lemma {:induction false} TrimRightResult(s: string)
    requires s == "" || !IsSpace(s[0])
    ensures IsTrimmed(TrimRight(s))
  {
    if s != "" && IsSpace(s[|s| - 1]) {
      TrimRightResult(s[..|s| - 1]);
    }
  }

  /** String.includes. */
  predicate Includes(value: string, query: string) {
    query <= value || (value != "" && Includes(value[1..], query))
  }

  ghost predicate Contains(value: string, part: string) {
    exists pre: string, post: string :: value == pre + part + post
  }

  lemma {:induction false} IncludesExactly(value: string, query: string)
    ensures Includes(value, query) <==> Contains(value, query)
  {
    if query <= value {
      assert value == "" + query + value[|query|..];
    } else {
      if value != "" {
        IncludesExactly(value[1..], query);
        if Contains(value[1..], query) {
          var pre, post :| value[1..] == pre + query + post;
          assert value == ([value[0]] + pre) + query + post;
        }
      }
      forall pre: string, post: string | value == pre + query + post
        ensures value != "" && Contains(value[1..], query)
      {
        ContainedBehind(value, pre, query, post);
      }
    }
  }

  lemma ContainedBehind(value: string, pre: string, query: string, post: string)
    requires value == pre + query + post && !(query <= value)
    ensures value != "" && Contains(value[1..], query)
  {
    assert value[|pre|..|pre| + |query|] == query;
    assert pre != "" && value[1..] == pre[1..] + query + post;
  }

  // ----- Decimal numbers --------------------------------------------------------

  predicate AllDecimal(s: string) { forall i | 0 <= i < |s| :: IsDigit(s[i]) }

  function DecimalValue(s: string): nat
    requires AllDecimal(s)
  {
    if s == "" then 0 else DecimalValue(s[..|s| - 1]) * 10 + (s[|s| - 1] as int - '0' as int)
  }

  const DIGITS: string := "0123456789"

  /** String(n): the decimal spelling of a number. */
  function Decimal(n: nat): string {
    if n < 10 then [DIGITS[n]] else Decimal(n / 10) + [DIGITS[n % 10]]
  }

  /** Digits only, and no zero in front. */
  predicate IsCanonicalDecimal(s: string) {
    s != "" && AllDecimal(s) && (|s| == 1 || s[0] != '0')
  }

  lemma DigitExactly(k: nat)
    requires k < 10
    ensures DIGITS[k] == ('0' as int + k) as char
  {
  }

  lemma DigitsExactly(c: char)
    requires IsDigit(c)
    ensures DIGITS[c as int - '0' as int] == c
  {
    DigitExactly(c as int - '0' as int);
  }

  lemma {:induction false} DecimalRead(n: nat)
    ensures IsCanonicalDecimal(Decimal(n)) && DecimalValue(Decimal(n)) == n
    ensures n > 0 ==> Decimal(n)[0] != '0'
  {
    DigitExactly(n % 10);
    if n < 10 {
      var s := Decimal(n);
      assert s == [DIGITS[n]] && s[..|s| - 1] == "";
    } else {
      DecimalRead(n / 10);
      var s := Decimal(n);
      assert s[..|s| - 1] == Decimal(n / 10);
    }
  }

  lemma DecimalOneMore(v: nat, d: nat)
    requires v > 0 && d < 10
    ensures Decimal(v * 10 + d) == Decimal(v) + [DIGITS[d]]
  {
    assert (v * 10 + d) / 10 == v && (v * 10 + d) % 10 == d;
  }

  lemma {:induction false} DecimalWritten(s: string)
    requires IsCanonicalDecimal(s)
    ensures Decimal(DecimalValue(s)) == s
    ensures s[0] != '0' ==> DecimalValue(s) > 0
  {
    hide Decimal, DIGITS;
    var front, last := s[..|s| - 1], s[|s| - 1];
    DigitsExactly(last);
    assert s == front + [last];
    if |s| > 1 {
      DecimalWritten(front);
      DecimalOneMore(DecimalValue(front), last as int - '0' as int);
    } else {
      assert front == "";
      DecimalDigit(last as int - '0' as int);
    }
  }

  lemma DecimalDigit(d: nat)
    requires d < 10
    ensures Decimal(d) == [DIGITS[d]]
  {
  }

  // ----- Split and join ---------------------------------------------------------

  /** String.split with a non-empty separator. */
  function Split(s: string, sep: string): (parts: seq<string>)
    requires sep != ""
    ensures |parts| >= 1
    decreases |s|
  {
    if s == "" then [""]
    else if sep <= s then [""] + Split(s[|sep|..], sep)
    else var rest := Split(s[1..], sep); [[s[0]] + rest[0]] + rest[1..]
  }

  function Join(parts: seq<string>, sep: string): string {
    if |parts| == 0 then ""
    else if |parts| == 1 then parts[0]
    else parts[0] + sep + Join(parts[1..], sep)
  }

  /** `sep` does not start inside `a` when `a` is followed by `b`. */
  predicate StartsNowhere(sep: string, a: string, b: string) {
    forall i | 0 <= i < |a| :: !(sep <= (a + b)[i..])
  }

  lemma StartsNowhereBehind(sep: string, a: string, b: string)
    requires StartsNowhere(sep, a, b) && a != ""
    ensures StartsNowhere(sep, a[1..], b) && !(sep <= a + b)
  {
    assert (a + b)[0..] == a + b;
    forall i | 0 <= i < |a[1..]| ensures !(sep <= (a[1..] + b)[i..]) {
      assert (a[1..] + b)[i..] == (a + b)[i + 1..];
    }
  }

  lemma {:induction false} SplitFirst(a: string, b: string, sep: string)
    requires sep != "" && StartsNowhere(sep, a, sep + b)
    ensures Split(a + sep + b, sep) == [a] + Split(b, sep)
  {
    hide StartsNowhere;
    var s := a + sep + b;
    assert s == a + (sep + b);
    if a == "" {
      assert s[|sep|..] == b && sep <= s;
    } else {
      StartsNowhereBehind(sep, a, sep + b);
      SplitFirst(a[1..], b, sep);
      assert s[1..] == a[1..] + sep + b && [a[0]] + a[1..] == a;
    }
  }

  lemma {:induction false} SplitNone(a: string, sep: string)
    requires sep != "" && StartsNowhere(sep, a, "")
    ensures Split(a, sep) == [a]
  {
    hide StartsNowhere;
    if a != "" {
      StartsNowhereBehind(sep, a, "");
      SplitNone(a[1..], sep);
      assert a + "" == a && [a[0]] + a[1..] == a;
    }
  }

  /** A single-character separator never starts inside text that does not contain it. */
  lemma CharStartsNowhere(c: char, a: string, b: string)
    requires c !in a
    ensures StartsNowhere([c], a, b)
  {
    forall i | 0 <= i < |a| ensures !([c] <= (a + b)[i..]) {
      assert (a + b)[i..][0] == a[i] && a[i] in a;
    }
  }

  /** Joining and splitting again. */
  lemma {:induction false} SplitJoin(parts: seq<string>, c: char)
    requires |parts| > 0 && forall p | p in parts :: c !in p
    ensures Split(Join(parts, [c]), [c]) == parts
  {
    if |parts| == 1 {
      CharStartsNowhere(c, parts[0], "");
      SplitNone(parts[0], [c]);
    } else {
      var rest := Join(parts[1..], [c]);
      SplitJoin(parts[1..], c);
      CharStartsNowhere(c, parts[0], [c] + rest);
      SplitFirst(parts[0], rest, [c]);
      assert parts == [parts[0]] + parts[1..];
    }
  }

  lemma JoinEmptyFirst(rest: seq<string>, sep: string)
    requires rest != []
    ensures Join([""] + rest, sep) == sep + Join(rest, sep)
  {
    assert ([""] + rest)[1..] == rest;
  }

  lemma JoinLongerFirst(x: char, rest: seq<string>, sep: string)
    requires rest != []
    ensures Join([[x] + rest[0]] + rest[1..], sep) == [x] + Join(rest, sep)
  {
    var parts := [[x] + rest[0]] + rest[1..];
    assert parts[1..] == rest[1..];
    if |rest| > 1 {
      assert [x] + (rest[0] + sep + Join(rest[1..], sep)) == ([x] + rest[0]) + sep + Join(rest[1..], sep);
    }
  }

  /** Splitting and joining again gives the text back. */
  lemma {:induction false} Rejoin(s: string, sep: string)
    requires sep != ""
    ensures Join(Split(s, sep), sep) == s
    decreases |s|
  {
    hide Join;
    if s == "" {
      JoinOne("", sep);
    } else if sep <= s {
      Rejoin(s[|sep|..], sep);
      JoinEmptyFirst(Split(s[|sep|..], sep), sep);
      assert s == sep + s[|sep|..];
    } else {
      Rejoin(s[1..], sep);
      JoinLongerFirst(s[0], Split(s[1..], sep), sep);
      assert s == [s[0]] + s[1..];
    }
  }

  lemma JoinOne(part: string, sep: string)
    ensures Join([part], sep) == part
  {
  }

  /** For a single character as separator, no part contains it. */
  lemma {:induction false} JoinSplit(s: string, c: char)
    ensures Join(Split(s, [c]), [c]) == s
    ensures forall p | p in Split(s, [c]) :: c !in p
  {
    hide Join;
    Rejoin(s, [c]);
    if s != "" {
      JoinSplit(s[1..], c);
      var rest := Split(s[1..], [c]);
      assert rest[0] in rest && forall p | p in rest[1..] :: p in rest;
      if s[0] == c {
        assert [c] <= s && s[|[c]|..] == s[1..];
      } else {
        assert !([c] <= s);
      }
    }
  }

  /** Joined text has no characters but those of its parts and the separator. */
  lemma {:induction false} JoinLacks(parts: seq<string>, sep: string, c: char)
    requires c !in sep && forall p | p in parts :: c !in p
    ensures c !in Join(parts, sep)
  {
    if |parts| > 1 {
      JoinLacks(parts[1..], sep, c);
    }
  }

  function LowerAll(parts: seq<string>): seq<string> {
    seq(|parts|, i requires 0 <= i < |parts| => Lower(parts[i]))
  }

  lemma LowerConcat(a: string, b: string)
    ensures Lower(a + b) == Lower(a) + Lower(b)
  {
  }

  lemma {:induction false} LowerJoin(parts: seq<string>, sep: string)
    requires Lower(sep) == sep
    ensures Lower(Join(parts, sep)) == Join(LowerAll(parts), sep)
  {
    if |parts| > 1 {
      LowerJoin(parts[1..], sep);
      LowerConcat(parts[0] + sep, Join(parts[1..], sep));
      LowerConcat(parts[0], sep);
      assert LowerAll(parts)[1..] == LowerAll(parts[1..]);
    }
  }
}
