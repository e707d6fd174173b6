/**
 * IPv6 text and the loopback test of the server's bind address. The parser is proved to read
 * every text form of section 2.2 of RFC 4291 back to the eight groups it denotes.
 */
module HostAddress {
  import opened Wrappers
  import opened Text

  // ----- Digits ---------------------------------------------------------------

  predicate IsHexDigit(c: char) { IsDigit(c) || 'a' <= c <= 'f' || 'A' <= c <= 'F' }

  function HexDigit(c: char): nat
    requires IsHexDigit(c)
  {
    if IsDigit(c) then c as int - '0' as int
    else if 'a' <= c <= 'f' then c as int - 'a' as int + 10
    else c as int - 'A' as int + 10
  }

  predicate AllHex(s: string) { forall i | 0 <= i < |s| :: IsHexDigit(s[i]) }

  function HexValue(s: string): nat
    requires AllHex(s)
  {
    if s == "" then 0 else HexValue(s[..|s| - 1]) * 16 + HexDigit(s[|s| - 1])
  }

  // ----- Bits -----------------------------------------------------------------

  function ToUint32(n: int): nat { n % 0x1_0000_0000 }

  function ToInt32(n: int): int {
    var u := ToUint32(n);
    if u < 0x8000_0000 then u else u - 0x1_0000_0000
  }

  function BitOr(x: nat, y: nat): nat {
    if x == 0 then y else if y == 0 then x
    else 2 * BitOr(x / 2, y / 2) + if x % 2 == 1 || y % 2 == 1 then 1 else 0
  }

  /** (first << 8) | second */
  function PackOctets(first: int, second: int): int {
    ToInt32(BitOr(ToUint32(first * 256), ToUint32(second)))
  }

  function Shifted(a: nat, k: nat): nat {
    if k == 0 then a else 2 * Shifted(a, k - 1)
  }

  lemma BitOrDoubled(x: nat, b: nat)
    ensures BitOr(2 * x, b) == 2 * BitOr(x, b / 2) + b % 2
  {
  }

  lemma {:induction false} BitOrApart(a: nat, b: nat, k: nat)
    requires b < Shifted(1, k)
    ensures BitOr(Shifted(a, k), b) == Shifted(a, k) + b
  {
    hide BitOr;
    if k == 0 {
      OrNothing(a);
    } else {
      BitOrApart(a, b / 2, k - 1);
      BitOrDoubled(Shifted(a, k - 1), b);
    }
  }

  lemma OrNothing(a: nat)
    ensures BitOr(a, 0) == a
  {
  }

  lemma ShiftedByOctet(a: nat)
    ensures Shifted(a, 8) == a * 256
  {
    assert Shifted(a, 1) == a * 2;
    assert Shifted(a, 3) == a * 8;
    assert Shifted(a, 5) == a * 32;
    assert Shifted(a, 7) == a * 128;
  }

  /** On octets the bit operations put one behind the other. */
  lemma PackedOctets(a: nat, b: nat)
    requires a <= 255 && b <= 255
    ensures PackOctets(a, b) == a * 256 + b
  {
    hide Shifted, BitOr;
    ShiftedByOctet(1);
    ShiftedByOctet(a);
    BitOrApart(a, b, 8);
  }

  // ----- The text forms of RFC 4291, section 2.2 --------------------------------

  predicate GroupText(s: string, group: int) {
    1 <= |s| <= 4 && AllHex(s) && HexValue(s) == group
  }

  predicate OctetText(s: string) {
    s != "" && AllDecimal(s) && DecimalValue(s) <= 255
  }

  /** d.d.d.d standing for two groups. */
  predicate QuadForm(s: string, groups: seq<int>, octets: seq<string>) {
    && |octets| == 4 && (forall i | 0 <= i < 4 :: OctetText(octets[i]))
    && s == Join(octets, ".")
    && groups == [DecimalValue(octets[0]) * 256 + DecimalValue(octets[1]),
                  DecimalValue(octets[2]) * 256 + DecimalValue(octets[3])]
  }

  /** Number(s) where that is an integer; None stands for every other value. */
  type Numbers = string -> Option<int>

  /** What is assumed of Number: it reads the octets of section 2.2. */
  ghost predicate ReadsOctets(number: Numbers) {
    forall s :: OctetText(s) ==> number(s) == Some(DecimalValue(s))
  }

  predicate OctetNumber(n: Option<int>) { n.Some? && n.value <= 255 }

  /** What the parser takes for a quad: four parts that Number reads as integers up to 255, and any more behind them. */
  predicate LooseForm(s: string, groups: seq<int>, octets: seq<string>, number: Numbers) {
    && |octets| >= 4 && (forall i | 0 <= i < 4 :: OctetNumber(number(octets[i])))
    && (forall p | p in octets :: '.' !in p && ':' !in p)
    && s == Join(octets, ".")
    && groups == [PackOctets(number(octets[0]).value, number(octets[1]).value),
                  PackOctets(number(octets[2]).value, number(octets[3]).value)]
  }

  /** Whether the last segment may be a dotted quad, and of which form. */
  datatype QuadRule = NoQuad | Strict | Loose(number: Numbers)

  ghost predicate QuadText(s: string, groups: seq<int>, quad: QuadRule) {
    match quad
    case NoQuad => false
    case Strict => exists octets :: QuadForm(s, groups, octets)
    case Loose(number) => exists octets :: LooseForm(s, groups, octets, number)
  }

  /** Colon-separated segments; the last may be a dotted quad when `quad` says so. */
  ghost predicate SegmentsText(segments: seq<string>, groups: seq<int>, quad: QuadRule) {
    if segments == [] then groups == []
    else if |segments| == 1 && QuadText(segments[0], groups, quad) then true
    else groups != [] && GroupText(segments[0], groups[0]) && SegmentsText(segments[1..], groups[1..], quad)
  }

  function Zeros(n: nat): seq<int> { seq(n, _ => 0) }

  /** x:x:x:x:x:x:x:x, or with a dotted-decimal tail. */
  ghost predicate FullForm(text: string, groups: seq<int>, segments: seq<string>, quad: QuadRule) {
    |groups| == 8 && SegmentsText(segments, groups, quad) && text == Join(segments, ":")
  }

  /** One "::" standing for one or more groups of zeros. */
  ghost predicate CompressedForm(text: string, groups: seq<int>, left: seq<string>, right: seq<string>, l: seq<int>, r: seq<int>,
                                 leftQuad: QuadRule, quad: QuadRule) {
    && SegmentsText(left, l, leftQuad) && SegmentsText(right, r, quad) && |l| + |r| < 8
    && text == Join(left, ":") + "::" + Join(right, ":")
    && groups == l + Zeros(8 - |l| - |r|) + r
  }

  /** `text` is one of the texts RFC 4291 allows for the address. */
  ghost predicate TextOf(text: string, groups: seq<int>) {
    || (exists segments :: FullForm(text, groups, segments, Strict))
    || (exists left, right, l, r :: CompressedForm(text, groups, left, right, l, r, NoQuad, Strict))
  }

  /** What the parser takes for a text of the address: loose quads, also in front of "::". */
  ghost predicate AcceptedOf(text: string, groups: seq<int>, number: Numbers) {
    || (exists segments :: FullForm(text, groups, segments, Loose(number)))
    || (exists left, right, l, r :: CompressedForm(text, groups, left, right, l, r, Loose(number), Loose(number)))
  }

  // ----- What the parser computes ------------------------------------------------

  function QuadGroups(segment: string, number: Numbers): Option<seq<int>> {
    var octets := Split(segment, ".");
    if |octets| < 4 then None else
    var w, x, y, z := number(octets[0]), number(octets[1]), number(octets[2]), number(octets[3]);
    if !OctetNumber(w) || !OctetNumber(x) || !OctetNumber(y) || !OctetNumber(z) then None
    else Some([PackOctets(w.value, x.value), PackOctets(y.value, z.value)])
  }

  function SegmentGroups(segment: string, isLast: bool, number: Numbers): Option<seq<int>> {
    if '.' in segment then (if isLast then QuadGroups(segment, number) else None)
    else if 1 <= |segment| <= 4 && AllHex(segment) then Some([HexValue(segment)])
    else None
  }

  function Concat(groups: Option<seq<int>>, more: Option<seq<int>>): Option<seq<int>> {
    if groups.None? || more.None? then None else Some(groups.value + more.value)
  }

  function SegmentsGroups(segments: seq<string>, number: Numbers): Option<seq<int>> {
    if segments == [] then Some([])
    else Concat(SegmentGroups(segments[0], |segments| == 1, number), SegmentsGroups(segments[1..], number))
  }

  function SideGroups(side: string, number: Numbers): Option<seq<int>> {
    if side == "" then Some([]) else SegmentsGroups(Split(side, ":"), number)
  }

  lemma ConcatTwice(a: seq<int>, b: Option<seq<int>>, c: Option<seq<int>>)
    ensures b.Some? ==> Concat(Some(a), Concat(b, c)) == Concat(Some(a + b.value), c)
    ensures b.None? ==> Concat(Some(a), Concat(b, c)) == None
  {
    if b.Some? && c.Some? {
      assert a + (b.value + c.value) == a + b.value + c.value;
    }
  }

  lemma ConcatEmpty(more: Option<seq<int>>)
    ensures Concat(Some([]), more) == more
  {
    if more.Some? {
      assert [] + more.value == more.value;
    }
  }

  method ParseIpv6Side(side: string, number: Numbers) returns (r: Option<seq<int>>)
    ensures r == SideGroups(side, number)
  {
    if side == "" {
      return Some([]);
    }
    var groups: seq<int> := [];
    var segments := Split(side, ":");
    assert segments[0..] == segments;
    ConcatEmpty(SegmentsGroups(segments, number));
    for index := 0 to |segments|
      invariant SideGroups(side, number) == Concat(Some(groups), SegmentsGroups(segments[index..], number))
    {
      var segment := segments[index];
      ConcatTwice(groups, SegmentGroups(segment, index == |segments| - 1, number), SegmentsGroups(segments[index + 1..], number));
      assert segments[index..][1..] == segments[index + 1..];
      var isLast := index == |segments| - 1;
      if '.' in segment {
        if index != |segments| - 1 {
          return None;
        }
        var octets := Split(segment, ".");
        if |octets| < 4 {
          return None;
        }
        var first, second, third, fourth := number(octets[0]), number(octets[1]), number(octets[2]), number(octets[3]);
        if !OctetNumber(first) || !OctetNumber(second) || !OctetNumber(third) || !OctetNumber(fourth) {
          return None;
        }
        groups := groups + [PackOctets(first.value, second.value), PackOctets(third.value, fourth.value)];
        continue;
      }
      if !(1 <= |segment| <= 4 && AllHex(segment)) {
        return None;
      }
      groups := groups + [HexValue(segment)];
    }
    assert groups + [] == groups;
    return Some(groups);
  }

  function Ipv6Groups(value: string, number: Numbers): (r: Option<seq<int>>)
    ensures r.Some? ==> |r.value| == 8
  {
    var parts := Split(value, "::");
    if |parts| > 2 then None else
    var left, right := SideGroups(parts[0], number), if |parts| == 2 then SideGroups(parts[1], number) else Some([]);
    if left.None? || right.None? then None
    else if |parts| == 1 then (if |left.value| == 8 then left else None)
    else if |left.value| + |right.value| < 8 then
      Some(left.value + Zeros(8 - |left.value| - |right.value|) + right.value)
    else None
  }

  method ParseIpv6Groups(value: string, number: Numbers) returns (r: Option<seq<int>>)
    ensures r == Ipv6Groups(value, number)
  {
    var parts := Split(value, "::");
    if |parts| > 2 {
      return None;
    }
    var left := ParseIpv6Side(parts[0], number);
    var right := ParseIpv6Side(if |parts| == 2 then parts[1] else "", number);
    if left.None? || right.None? {
      return None;
    }
    if |parts| == 1 {
      return if |left.value| == 8 then left else None;
    }
    var missing := 8 - |left.value| - |right.value|;
    return if missing > 0 then Some(left.value + Zeros(missing) + right.value) else None;
  }

  // ----- Every text form is read back --------------------------------------------

  lemma GroupRead(s: string, group: int, isLast: bool, number: Numbers)
    requires GroupText(s, group)
    ensures ':' !in s && SegmentGroups(s, isLast, number) == Some([group])
  {
  }

  lemma StrictIsLoose(s: string, groups: seq<int>, octets: seq<string>, number: Numbers)
    requires QuadForm(s, groups, octets) && ReadsOctets(number)
    ensures LooseForm(s, groups, octets, number)
  {
    forall p | p in octets ensures '.' !in p && ':' !in p {
      assert OctetText(p) && forall c | c in p :: IsDigit(c);
    }
    PackedOctets(DecimalValue(octets[0]), DecimalValue(octets[1]));
    PackedOctets(DecimalValue(octets[2]), DecimalValue(octets[3]));
  }

  /** `number` reads the quads this rule allows. */
  ghost predicate Reads(number: Numbers, quad: QuadRule) {
    match quad
    case NoQuad => true
    case Strict => ReadsOctets(number)
    case Loose(n) => n == number
  }

  lemma QuadRead(s: string, groups: seq<int>, quad: QuadRule, number: Numbers)
    requires QuadText(s, groups, quad) && Reads(number, quad)
    ensures ':' !in s && s != "" && SegmentGroups(s, true, number) == Some(groups)
  {
    if quad.Strict? {
      var octets :| QuadForm(s, groups, octets);
      StrictIsLoose(s, groups, octets, number);
      LooseRead(s, groups, octets, number);
    } else {
      var octets :| LooseForm(s, groups, octets, number);
      LooseRead(s, groups, octets, number);
    }
  }

  lemma LooseRead(s: string, groups: seq<int>, octets: seq<string>, number: Numbers)
    requires LooseForm(s, groups, octets, number)
    ensures ':' !in s && s != "" && SegmentGroups(s, true, number) == Some(groups)
  {
    SplitJoin(octets, '.');
    JoinLacks(octets, ".", ':');
    assert s == octets[0] + "." + Join(octets[1..], ".");
    assert s[|octets[0]|] == '.';
  }

  lemma {:induction false} SegmentsRead(segments: seq<string>, groups: seq<int>, quad: QuadRule, number: Numbers)
    requires SegmentsText(segments, groups, quad) && Reads(number, quad)
    ensures SegmentsGroups(segments, number) == Some(groups)
    ensures forall s | s in segments :: ':' !in s && s != ""
  {
    if segments != [] {
      assert segments == [segments[0]] + segments[1..];
      if |segments| == 1 && QuadText(segments[0], groups, quad) {
        QuadRead(segments[0], groups, quad, number);
        assert SegmentsGroups(segments[1..], number) == Some([]) && groups + [] == groups;
      } else {
        GroupRead(segments[0], groups[0], |segments| == 1, number);
        SegmentsRead(segments[1..], groups[1..], quad, number);
        assert groups == [groups[0]] + groups[1..];
      }
    }
  }

  lemma SideRead(segments: seq<string>, groups: seq<int>, quad: QuadRule, number: Numbers)
    requires SegmentsText(segments, groups, quad) && Reads(number, quad)
    ensures SideGroups(Join(segments, ":"), number) == Some(groups)
  {
    SegmentsRead(segments, groups, quad, number);
    if segments != [] {
      SplitJoin(segments, ':');
      assert segments[0] in segments;
      assert Join(segments, ":") != "";
    }
  }

  /** Every colon is followed by something that is not a colon. */
  predicate LoneColons(s: string) {
    forall i | 0 <= i < |s| && s[i] == ':' :: i + 1 < |s| && s[i + 1] != ':'
  }

  lemma {:induction false} JoinHasLoneColons(segments: seq<string>)
    requires forall s | s in segments :: ':' !in s && s != ""
    ensures LoneColons(Join(segments, ":"))
    ensures segments != [] ==> Join(segments, ":") != "" && Join(segments, ":")[0] != ':'
  {
    if |segments| >= 1 {
      assert segments[0] in segments && segments[0][0] in segments[0];
    }
    if |segments| > 1 {
      assert forall s | s in segments[1..] :: s in segments;
      JoinHasLoneColons(segments[1..]);
      var head, tail := segments[0], Join(segments[1..], ":");
      var s := head + ":" + tail;
      assert forall k | 0 <= k < |head| :: s[k] == head[k] && head[k] in head && s[k] != ':';
      forall i | 0 <= i < |s| && s[i] == ':' ensures i + 1 < |s| && s[i + 1] != ':' {
        if i > |head| {
          assert s[i] == tail[i - |head| - 1];
        }
      }
    }
  }

  lemma DoubleColonNowhere(a: string, b: string)
    requires LoneColons(a)
    ensures StartsNowhere("::", a, b)
  {
    forall i | 0 <= i < |a| ensures !("::" <= (a + b)[i..]) {
      var t := (a + b)[i..];
      assert t[0] == a[i];
      if a[i] == ':' {
        assert t[1] == a[i + 1];
      }
    }
  }

  /** Every text RFC 4291 allows for an address is parsed to that address. */
  lemma TextIsRead(text: string, groups: seq<int>, number: Numbers)
    requires TextOf(text, groups) && ReadsOctets(number)
    ensures Ipv6Groups(text, number) == Some(groups)
  {
    if segments :| FullForm(text, groups, segments, Strict) {
      FullRead(text, groups, segments, Strict, number);
    } else {
      var left, right, l, r :| CompressedForm(text, groups, left, right, l, r, NoQuad, Strict);
      CompressedRead(text, groups, left, right, l, r, NoQuad, Strict, number);
    }
  }

  lemma FullRead(text: string, groups: seq<int>, segments: seq<string>, quad: QuadRule, number: Numbers)
    requires FullForm(text, groups, segments, quad) && Reads(number, quad)
    ensures Ipv6Groups(text, number) == Some(groups)
  {
    SegmentsRead(segments, groups, quad, number);
    SideRead(segments, groups, quad, number);
    JoinHasLoneColons(segments);
    DoubleColonNowhere(text, "");
    SplitNone(text, "::");
  }

  lemma CompressedRead(text: string, groups: seq<int>, left: seq<string>, right: seq<string>, l: seq<int>, r: seq<int>,
                       leftQuad: QuadRule, quad: QuadRule, number: Numbers)
    requires CompressedForm(text, groups, left, right, l, r, leftQuad, quad)
    requires Reads(number, leftQuad) && Reads(number, quad)
    ensures Ipv6Groups(text, number) == Some(groups)
  {
    hide Split, SegmentsText, SegmentsGroups, SideGroups, LoneColons;
    var a, b := Join(left, ":"), Join(right, ":");
    SegmentsRead(left, l, leftQuad, number);
    SegmentsRead(right, r, quad, number);
    SideRead(left, l, leftQuad, number);
    SideRead(right, r, quad, number);
    JoinHasLoneColons(left);
    JoinHasLoneColons(right);
    SplitDouble(a, b);
  }

  lemma SplitDouble(a: string, b: string)
    requires LoneColons(a) && LoneColons(b)
    ensures Split(a + "::" + b, "::") == [a, b]
  {
    DoubleColonNowhere(a, "::" + b);
    SplitFirst(a, b, "::");
    DoubleColonNowhere(b, "");
    SplitNone(b, "::");
  }

  /** One way to read octets. */
  function PlainNumber(s: string): Option<int> {
    if AllDecimal(s) then Some(DecimalValue(s)) else None
  }

  /** So a text is a form of at most one address. */
  lemma OneAddressPerText(text: string, g1: seq<int>, g2: seq<int>)
    requires TextOf(text, g1) && TextOf(text, g2)
    ensures g1 == g2
  {
    TextIsRead(text, g1, PlainNumber);
    TextIsRead(text, g2, PlainNumber);
  }

  // ----- What else is accepted ---------------------------------------------------------

  lemma QuadIsText(s: string, groups: seq<int>, number: Numbers)
    requires QuadGroups(s, number) == Some(groups) && ':' !in s
    ensures QuadText(s, groups, Loose(number))
  {
    var octets := Split(s, ".");
    JoinSplit(s, '.');
    PartsLack(octets, ".", ':');
    assert LooseForm(s, groups, octets, number);
  }

  lemma {:induction false} SegmentsAreText(segments: seq<string>, number: Numbers)
    requires SegmentsGroups(segments, number).Some? && forall s | s in segments :: ':' !in s
    ensures SegmentsText(segments, SegmentsGroups(segments, number).value, Loose(number))
  {
    if segments != [] {
      assert segments[0] in segments && forall s | s in segments[1..] :: s in segments;
      var first, rest := SegmentGroups(segments[0], |segments| == 1, number).value, SegmentsGroups(segments[1..], number).value;
      SegmentsAreText(segments[1..], number);
      if '.' in segments[0] {
        QuadIsText(segments[0], first, number);
        assert first + [] == first;
      } else {
        assert (first + rest)[0] == first[0] && (first + rest)[1..] == rest;
      }
    }
  }

  lemma SideIsText(side: string, number: Numbers) returns (segments: seq<string>)
    requires SideGroups(side, number).Some?
    ensures SegmentsText(segments, SideGroups(side, number).value, Loose(number)) && Join(segments, ":") == side
  {
    if side == "" {
      segments := [];
    } else {
      segments := Split(side, ":");
      JoinSplit(side, ':');
      SegmentsAreText(segments, number);
    }
  }

  lemma {:induction false} PartsLack(parts: seq<string>, sep: string, c: char)
    requires c !in Join(parts, sep)
    ensures forall p | p in parts :: c !in p
  {
    if |parts| > 1 {
      var rest := Join(parts[1..], sep);
      assert forall d | d in rest :: d in parts[0] + sep + rest;
      PartsLack(parts[1..], sep, c);
      assert parts == [parts[0]] + parts[1..];
    }
  }

  lemma PartsOf(text: string)
    ensures var parts := Split(text, "::");
      && (|parts| == 1 ==> parts[0] == text)
      && (|parts| == 2 ==> text == parts[0] + "::" + parts[1])
  {
    hide Split;
    var parts := Split(text, "::");
    Rejoin(text, "::");
    if |parts| == 2 {
      assert parts[1..] == [parts[1]];
    }
  }

  /** The texts accepted for an address are exactly those of AcceptedOf. */
  lemma AcceptedExactly(text: string, groups: seq<int>, number: Numbers)
    ensures Ipv6Groups(text, number) == Some(groups) <==> AcceptedOf(text, groups, number)
  {
    if segments :| FullForm(text, groups, segments, Loose(number)) {
      FullRead(text, groups, segments, Loose(number), number);
    } else if left, right, l, r :| CompressedForm(text, groups, left, right, l, r, Loose(number), Loose(number)) {
      CompressedRead(text, groups, left, right, l, r, Loose(number), Loose(number), number);
    } else if Ipv6Groups(text, number) == Some(groups) {
      AcceptedIsForm(text, groups, number);
    }
  }

  lemma AcceptedIsForm(text: string, groups: seq<int>, number: Numbers)
    requires Ipv6Groups(text, number) == Some(groups)
    ensures AcceptedOf(text, groups, number)
  {
    hide Split, SegmentsText;
    PartsOf(text);
    var parts := Split(text, "::");
    var left := SideIsText(parts[0], number);
    if |parts| == 1 {
      assert FullForm(text, groups, left, Loose(number));
    } else {
      var right := SideIsText(parts[1], number);
      assert CompressedForm(text, groups, left, right, SideGroups(parts[0], number).value, SideGroups(parts[1], number).value, Loose(number), Loose(number));
    }
  }

  /** Text without a dot is accepted exactly when it is a form of the address it is parsed to. */
  lemma DotlessExactly(text: string, groups: seq<int>, number: Numbers)
    requires '.' !in text
    ensures Ipv6Groups(text, number) == Some(groups) <==> TextOf(text, groups)
  {
    AcceptedExactly(text, groups, number);
    if segments :| FullForm(text, groups, segments, Strict) {
      DotlessFull(text, groups, segments, Strict, Loose(number));
    }
    if segments :| FullForm(text, groups, segments, Loose(number)) {
      DotlessFull(text, groups, segments, Loose(number), Strict);
    }
    if left, right, l, r :| CompressedForm(text, groups, left, right, l, r, NoQuad, Strict) {
      DotlessCompressed(text, groups, left, right, l, r, NoQuad, Strict, Loose(number), Loose(number));
    }
    if left, right, l, r :| CompressedForm(text, groups, left, right, l, r, Loose(number), Loose(number)) {
      DotlessCompressed(text, groups, left, right, l, r, Loose(number), Loose(number), NoQuad, Strict);
    }
  }

  lemma DotlessFull(text: string, groups: seq<int>, segments: seq<string>, some: QuadRule, other: QuadRule)
    requires FullForm(text, groups, segments, some) && '.' !in text
    ensures FullForm(text, groups, segments, other)
  {
    DotlessSegments(segments, groups, some, other);
  }

  lemma DotlessCompressed(text: string, groups: seq<int>, left: seq<string>, right: seq<string>, l: seq<int>, r: seq<int>,
                          someLeft: QuadRule, some: QuadRule, otherLeft: QuadRule, other: QuadRule)
    requires CompressedForm(text, groups, left, right, l, r, someLeft, some) && '.' !in text
    ensures CompressedForm(text, groups, left, right, l, r, otherLeft, other)
  {
    assert forall c | c in Join(left, ":") || c in Join(right, ":") :: c in text;
    DotlessSegments(left, l, someLeft, otherLeft);
    DotlessSegments(right, r, some, other);
  }

  lemma QuadHasDot(s: string, groups: seq<int>, quad: QuadRule)
    requires QuadText(s, groups, quad)
    ensures '.' in s
  {
    var octets: seq<string>;
    if quad.Strict? {
      octets :| QuadForm(s, groups, octets);
    } else {
      octets :| LooseForm(s, groups, octets, quad.number);
    }
    assert Join(octets, ".")[|octets[0]|] == '.';
  }

  /** Without dots it does not matter which quads are allowed. */
  lemma {:induction false} DotlessSegments(segments: seq<string>, groups: seq<int>, some: QuadRule, other: QuadRule)
    requires SegmentsText(segments, groups, some) && '.' !in Join(segments, ":")
    ensures SegmentsText(segments, groups, other)
  {
    if segments != [] {
      PartsLack(segments, ":", '.');
      assert segments[0] in segments;
      forall quad: QuadRule ensures !QuadText(segments[0], groups, quad) {
        if QuadText(segments[0], groups, quad) {
          QuadHasDot(segments[0], groups, quad);
        }
      }
      if |segments| > 1 {
        assert Join(segments, ":") == segments[0] + ":" + Join(segments[1..], ":");
        assert forall c | c in Join(segments[1..], ":") :: c in Join(segments, ":");
      } else {
        assert segments[1..] == [];
      }
      DotlessSegments(segments[1..], groups[1..], some, other);
    }
  }

  // ----- The loopback test ------------------------------------------------------------

  /** Drops one "[" at the front and one "]" at the end. */
  function StripBrackets(s: string): string {
    StripClose(StripOpen(s))
  }

  function StripOpen(s: string): string {
    if s != "" && s[0] == '[' then s[1..] else s
  }

  function StripClose(s: string): string {
    if s != "" && s[|s| - 1] == ']' then s[..|s| - 1] else s
  }

  /** The text before the first '%'. */
  function BeforeZone(s: string): string {
    if s == "" || s[0] == '%' then "" else [s[0]] + BeforeZone(s[1..])
  }

  function Normalized(host: string): string {
    StripBrackets(Lower(Trim(host)))
  }

  predicate AllZero(groups: seq<int>) { forall g | g in groups :: g == 0 }

  /** `isIP` is the platform's address classifier: 4, 6 or 0; `number` is its Number. */
  predicate IsLoopbackHost(host: Option<string>, isIP: string -> int, number: Numbers) {
    host.Some? &&
    var normalized := Normalized(host.value);
    var address := BeforeZone(normalized);
    if normalized == "localhost" then true
    else if isIP(address) == 4 then "127." <= address
    else if isIP(address) != 6 then false
    else
      var groups := Ipv6Groups(address, number);
      if groups.None? then false
      else if AllZero(groups.value[..7]) && groups.value[7] == 1 then true
      else if !AllZero(groups.value[..5]) || groups.value[5] != 0xffff then false
      else ToUint32(groups.value[6]) / 256 == 0x7f
  }

  /** An address as one number. */
  function AddressValue(groups: seq<int>): int {
    if groups == [] then 0 else AddressValue(groups[..|groups| - 1]) * 0x1_0000 + groups[|groups| - 1]
  }

  /** ::1 of section 2.5.3, or an IPv4-mapped 127/8 of section 2.5.5.2: a claim about the value alone. */
  predicate LoopbackValue(value: int) {
    value == 1 || value / 0x100_0000 == 0xffff_7f
  }

  // ----- The test depends only on the address denoted ------------------------------------

  lemma {:induction false} HexBound(s: string)
    requires AllHex(s) && |s| <= 4
    ensures HexValue(s) < (if |s| == 0 then 1 else if |s| == 1 then 16 else if |s| == 2 then 0x100
                           else if |s| == 3 then 0x1000 else 0x1_0000)
  {
    if s != "" {
      HexBound(s[..|s| - 1]);
    }
  }

  lemma {:induction false} SegmentBounds(segments: seq<string>, groups: seq<int>, quad: QuadRule)
    requires SegmentsText(segments, groups, quad) && !quad.Loose?
    ensures forall g | g in groups :: 0 <= g < 0x1_0000
  {
    if segments != [] && !(|segments| == 1 && QuadText(segments[0], groups, quad)) {
      HexBound(segments[0]);
      SegmentBounds(segments[1..], groups[1..], quad);
      assert groups == [groups[0]] + groups[1..];
    }
  }

  lemma TextBounds(text: string, groups: seq<int>)
    requires TextOf(text, groups)
    ensures |groups| == 8 && forall g | g in groups :: 0 <= g < 0x1_0000
  {
    if segments :| FullForm(text, groups, segments, Strict) {
      SegmentBounds(segments, groups, Strict);
    } else {
      var left, right, l, r :| CompressedForm(text, groups, left, right, l, r, NoQuad, Strict);
      SegmentBounds(left, l, NoQuad);
      SegmentBounds(right, r, Strict);
    }
  }

  lemma ValueOf(groups: seq<int>, last: int)
    ensures AddressValue(groups + [last]) == AddressValue(groups) * 0x1_0000 + last
  {
  }

  lemma LoopbackByValue(g: seq<int>)
    requires |g| == 8 && forall x | x in g :: 0 <= x < 0x1_0000
    ensures (AllZero(g[..7]) && g[7] == 1) || (AllZero(g[..5]) && g[5] == 0xffff && g[6] / 256 == 0x7f)
       <==> LoopbackValue(AddressValue(g))
  {
    hide AddressValue, LoopbackValue, AllZero;
    assert g[..6] == g[..5] + [g[5]] && g[..7] == g[..6] + [g[6]] && g == g[..7] + [g[7]];
    ValueOf(g[..5], g[5]);
    ValueOf(g[..6], g[6]);
    ValueOf(g[..7], g[7]);
    assert forall x | x in g[..5] || x in g[..7] :: x in g;
    ZeroValue(g[..5]);
    ZeroValue(g[..7]);
    assert g[5] in g && g[6] in g && g[7] in g;
    Packed(AddressValue(g[..5]), g[5], g[6], g[7]);
  }

  /** The test on the last groups as a test on the number they are packed into. */
  lemma Packed(high: nat, x: nat, y: nat, z: nat)
    requires x < 0x1_0000 && y < 0x1_0000 && z < 0x1_0000
    ensures var upper := (high * 0x1_0000 + x) * 0x1_0000 + y;
      (upper == 0 && z == 1) || (high == 0 && x == 0xffff && y / 256 == 0x7f) <==> LoopbackValue(upper * 0x1_0000 + z)
  {
  }

  lemma {:induction false} ZeroValue(g: seq<int>)
    requires forall x | x in g :: 0 <= x
    ensures AddressValue(g) >= 0 && (AllZero(g) <==> AddressValue(g) == 0)
  {
    if g != [] {
      var front, last := g[..|g| - 1], g[|g| - 1];
      assert last in g && forall x | x in front :: x in g;
      ZeroValue(front);
      assert g == front + [last];
    }
  }

  lemma {:induction false} LowerHex(s: string)
    requires AllHex(s)
    ensures AllHex(Lower(s)) && HexValue(Lower(s)) == HexValue(s)
  {
    if s != "" {
      LowerHex(s[..|s| - 1]);
      assert Lower(s)[..|s| - 1] == Lower(s[..|s| - 1]);
    }
  }

  lemma {:induction false} LowerSegments(segments: seq<string>, groups: seq<int>, quad: QuadRule)
    requires SegmentsText(segments, groups, quad) && !quad.Loose?
    ensures SegmentsText(LowerAll(segments), groups, quad)
  {
    if segments != [] {
      if |segments| == 1 && QuadText(segments[0], groups, quad) {
        var octets :| QuadForm(segments[0], groups, octets);
        LowerJoin(octets, ".");
        forall i | 0 <= i < 4 ensures Lower(octets[i]) == octets[i] {
          assert OctetText(octets[i]);
        }
        assert LowerAll(octets) == octets;
      } else {
        LowerHex(segments[0]);
        LowerSegments(segments[1..], groups[1..], quad);
        assert LowerAll(segments)[1..] == LowerAll(segments[1..]);
      }
    }
  }

  /** Case does not matter. */
  lemma LowerText(text: string, groups: seq<int>)
    requires TextOf(text, groups)
    ensures TextOf(Lower(text), groups)
  {
    if segments :| FullForm(text, groups, segments, Strict) {
      LowerSegments(segments, groups, Strict);
      LowerJoin(segments, ":");
      assert FullForm(Lower(text), groups, LowerAll(segments), Strict);
    } else {
      var left, right, l, r :| CompressedForm(text, groups, left, right, l, r, NoQuad, Strict);
      LowerCompressed(text, groups, left, right, l, r);
    }
  }

  lemma LowerCompressed(text: string, groups: seq<int>, left: seq<string>, right: seq<string>, l: seq<int>, r: seq<int>)
    requires CompressedForm(text, groups, left, right, l, r, NoQuad, Strict)
    ensures CompressedForm(Lower(text), groups, LowerAll(left), LowerAll(right), l, r, NoQuad, Strict)
  {
    hide SegmentsText, Join;
    LowerSegments(left, l, NoQuad);
    LowerSegments(right, r, Strict);
    LowerJoin(left, ":");
    LowerJoin(right, ":");
    LowerConcat(Join(left, ":") + "::", Join(right, ":"));
    LowerConcat(Join(left, ":"), "::");
  }

  predicate AddressChar(c: char) { IsHexDigit(c) || c == ':' || c == '.' }

  lemma {:induction false} SegmentsLack(segments: seq<string>, groups: seq<int>, quad: QuadRule, c: char)
    requires SegmentsText(segments, groups, quad) && !quad.Loose? && !AddressChar(c)
    ensures forall s | s in segments :: c !in s
  {
    if segments != [] {
      assert segments == [segments[0]] + segments[1..];
      if |segments| == 1 && QuadText(segments[0], groups, quad) {
        var octets :| QuadForm(segments[0], groups, octets);
        forall p | p in octets ensures c !in p {
          assert OctetText(p) && forall d | d in p :: IsDigit(d);
        }
        JoinLacks(octets, ".", c);
      } else {
        assert forall d | d in segments[0] :: IsHexDigit(d);
        SegmentsLack(segments[1..], groups[1..], quad, c);
      }
    }
  }

  lemma TextLacks(text: string, groups: seq<int>, c: char)
    requires TextOf(text, groups) && !AddressChar(c)
    ensures c !in text
  {
    if segments :| FullForm(text, groups, segments, Strict) {
      SegmentsLack(segments, groups, Strict, c);
      JoinLacks(segments, ":", c);
    } else {
      var left, right, l, r :| CompressedForm(text, groups, left, right, l, r, NoQuad, Strict);
      SegmentsLack(left, l, NoQuad, c);
      SegmentsLack(right, r, Strict, c);
      JoinLacks(left, ":", c);
      JoinLacks(right, ":", c);
    }
  }

  lemma TextChars(text: string, groups: seq<int>)
    requires TextOf(text, groups)
    ensures text != "" && forall c | c in text :: AddressChar(c)
  {
    forall c | c in text ensures AddressChar(c) {
      if !AddressChar(c) {
        TextLacks(text, groups, c);
      }
    }
    TextIsRead(text, groups, PlainNumber);
    assert Ipv6Groups("", PlainNumber) == None by {
      assert Split("", "::") == [""];
    }
  }

  lemma {:induction false} BeforeZoneOf(a: string, zone: string)
    requires '%' !in a && (zone == "" || zone[0] == '%')
    ensures BeforeZone(a + zone) == a
  {
    if a == "" {
      assert a + zone == zone;
    } else {
      assert (a + zone)[1..] == a[1..] + zone;
      BeforeZoneOf(a[1..], zone);
    }
  }

  /** A host text around an address text: blanks, optional brackets, optional zone. */
  predicate Decorated(host: string, pre: string, open: string, text: string, zone: string, close: string, post: string) {
    && host == pre + (open + text + zone + close) + post
    && IsBlank(pre) && IsBlank(post)
    && (open == "" || open == "[") && (close == "" || close == "]")
    && (zone == "" || zone[0] == '%') && (forall c | c in zone :: !IsSpace(c))
  }

  /** Stripping the brackets leaves the address and what remains of the zone. */
  lemma StripDecoration(open: string, a: string, z: string, close: string) returns (rest: string)
    requires a != "" && a[0] != '[' && a[|a| - 1] != ']'
    requires (open == "" || open == "[") && (close == "" || close == "]") && (z == "" || z[0] == '%')
    ensures StripBrackets(open + a + z + close) == a + rest && (rest == "" || rest[0] == '%')
  {
    hide StripOpen, StripClose;
    assert open + a + z + close == open + (a + (z + close));
    OpenStripped(open, a + (z + close));
    if close == "]" {
      rest := z;
      assert a + (z + close) == (a + z) + "]";
      CloseStripped(a + z);
    } else if z != "" && z[|z| - 1] == ']' {
      rest := z[..|z| - 1];
      assert z == rest + "]" && a + (z + close) == (a + rest) + "]";
      CloseStripped(a + rest);
    } else {
      rest := z;
      assert a + (z + close) == a + z;
      NothingToClose(a, z);
    }
  }

  lemma OpenStripped(open: string, s: string)
    requires (open == "" || open == "[") && s != "" && s[0] != '['
    ensures StripOpen(open + s) == s
  {
  }

  lemma CloseStripped(s: string)
    ensures StripClose(s + "]") == s
  {
  }

  lemma NothingToClose(a: string, z: string)
    requires a != "" && a[|a| - 1] != ']' && (z == "" || z[|z| - 1] != ']')
    ensures StripClose(a + z) == a + z
  {
  }

  lemma CoreHasNoSpace(open: string, text: string, zone: string, close: string)
    requires (open == "" || open == "[") && (close == "" || close == "]")
    requires (forall c | c in text :: AddressChar(c)) && forall c | c in zone :: !IsSpace(c)
    ensures forall c | c in open + text + zone + close :: !IsSpace(c)
  {
  }

  lemma TrimmedCore(host: string, pre: string, open: string, text: string, zone: string, close: string, post: string)
    requires Decorated(host, pre, open, text, zone, close, post)
    requires text != "" && forall c | c in text :: AddressChar(c)
    ensures Lower(Trim(host)) == open + Lower(text) + Lower(zone) + close
  {
    hide Trim, Lower;
    var core := open + text + zone + close;
    CoreHasNoSpace(open, text, zone, close);
    assert core[0] in core && core[|core| - 1] in core;
    TrimOf(pre, core, post);
    LowerConcat(open + text + zone, close);
    LowerConcat(open + text, zone);
    LowerConcat(open, text);
  }

  lemma Undecorated(host: string, pre: string, open: string, text: string, zone: string, close: string, post: string,
                    groups: seq<int>)
    requires TextOf(text, groups) && Decorated(host, pre, open, text, zone, close, post)
    ensures var normalized := Normalized(host);
      BeforeZone(normalized) == Lower(text) && normalized != "localhost"
  {
    hide TextOf, StripBrackets, BeforeZone, Trim;
    var a := Lower(text);
    TextChars(text, groups);
    LowerText(text, groups);
    TextChars(a, groups);
    TextLacks(a, groups, '%');
    TrimmedCore(host, pre, open, text, zone, close, post);
    assert a[0] in a && a[|a| - 1] in a;
    var rest := StripDecoration(open, a, Lower(zone), close);
    BeforeZoneOf(a, rest);
    assert (a + rest)[0] == a[0] != 'l';
  }

  lemma ValueDecides(host: string, isIP: string -> int, number: Numbers, g: seq<int>)
    requires Normalized(host) != "localhost" && isIP(BeforeZone(Normalized(host))) == 6
    requires TextOf(BeforeZone(Normalized(host)), g) && ReadsOctets(number)
    ensures IsLoopbackHost(Some(host), isIP, number) <==> LoopbackValue(AddressValue(g))
  {
    hide TextOf, Ipv6Groups, AddressValue, LoopbackValue, Normalized, BeforeZone;
    TextIsRead(BeforeZone(Normalized(host)), g, number);
    TextBounds(BeforeZone(Normalized(host)), g);
    assert g[6] in g;
    LoopbackByValue(g);
  }

  /**
   * For IPv6 text the answer depends only on the address: true exactly for ::1 and the
   * IPv4-mapped loopback block, whatever text, case, brackets, zone or blanks are used.
   */
  lemma LoopbackDependsOnValue(host: string, pre: string, open: string, text: string, zone: string, close: string,
                               post: string, groups: seq<int>, isIP: string -> int, number: Numbers)
    requires TextOf(text, groups) && Decorated(host, pre, open, text, zone, close, post)
    requires isIP(Lower(text)) == 6 && ReadsOctets(number)
    ensures IsLoopbackHost(Some(host), isIP, number) <==> LoopbackValue(AddressValue(groups))
  {
    Undecorated(host, pre, open, text, zone, close, post, groups);
    LowerText(text, groups);
    ValueDecides(host, isIP, number, groups);
  }

  /** What the platform takes for IPv6 is one of the texts of section 2.2. */
  ghost predicate ClassifiesIpv6(isIP: string -> int) {
    forall s | isIP(s) == 6 :: exists g :: TextOf(s, g)
  }

  /**
   * What is decided for every host: "localhost", an IPv4 address beginning with 127, or a text of an
   * IPv6 address whose value is a loopback value.
   */
  lemma LoopbackExactly(host: string, isIP: string -> int, number: Numbers)
    requires ClassifiesIpv6(isIP) && ReadsOctets(number)
    ensures var address := BeforeZone(Normalized(host));
      IsLoopbackHost(Some(host), isIP, number) <==>
        || Normalized(host) == "localhost"
        || (isIP(address) == 4 && "127." <= address)
        || (isIP(address) == 6 && exists g :: TextOf(address, g) && LoopbackValue(AddressValue(g)))
  {
    hide TextOf, Normalized, BeforeZone, AddressValue, LoopbackValue;
    var address := BeforeZone(Normalized(host));
    if Normalized(host) != "localhost" && isIP(address) == 6 {
      var g :| TextOf(address, g);
      ValueDecides(host, isIP, number, g);
      forall other | TextOf(address, other) ensures other == g {
        OneAddressPerText(address, other, g);
      }
    }
  }
}
