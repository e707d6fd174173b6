/** base64url without padding (section 5 of RFC 4648), on ASCII text. */
module Base64Url {

  predicate IsAscii(s: string) { forall i | 0 <= i < |s| :: s[i] < '\U{0080}' }

  /** The character of a 6-bit group. */
  function Digit(n: nat): char
    requires n < 64
  {
    if n < 26 then ('A' as int + n) as char
    else if n < 52 then ('a' as int + n - 26) as char
    else if n < 62 then ('0' as int + n - 52) as char
    else if n == 62 then '-'
    else '_'
  }

  function Byte(c: char): (b: nat)
    requires c < '\U{0080}'
    ensures b < 128
  {
    c as int
  }

  function Encode(s: string): string
    requires IsAscii(s)
    decreases |s|
  {
    if |s| == 0 then ""
    else if |s| == 1 then Single(s[0])
    else if |s| == 2 then Pair(s[0], s[1])
    else Block(s[0], s[1], s[2]) + Encode(s[3..])
  }

  function Single(x: char): string
    requires x < '\U{0080}'
  {
    var a := Byte(x);
    [Digit(a / 4), Digit(a % 4 * 16)]
  }

  function Pair(x: char, y: char): string
    requires x < '\U{0080}' && y < '\U{0080}'
  {
    var a, b := Byte(x), Byte(y);
    [Digit(a / 4), Digit(a % 4 * 16 + b / 16), Digit(b % 16 * 4)]
  }

  function Block(x: char, y: char, z: char): string
    requires x < '\U{0080}' && y < '\U{0080}' && z < '\U{0080}'
  {
    var a, b, c := Byte(x), Byte(y), Byte(z);
    [Digit(a / 4), Digit(a % 4 * 16 + b / 16), Digit(b % 16 * 4 + c / 64), Digit(c % 64)]
  }

  const UPPER_CASE: string := "ABCDEFGHIJKLMNOPQRSTUVWXYZ"
  const LOWER_CASE: string := "abcdefghijklmnopqrstuvwxyz"
  const DIGITS: string := "0123456789"

  /** The alphabet is in the order of table 2. */
  lemma DigitExactly(n: nat)
    requires n < 64
    ensures Digit(n) == (UPPER_CASE + LOWER_CASE + DIGITS + "-_")[n]
  {
    if n < 26 {
      assert Digit(n) == UPPER_CASE[n];
    } else if n < 52 {
      assert Digit(n) == LOWER_CASE[n - 26];
    } else if n < 62 {
      assert Digit(n) == DIGITS[n - 52];
    }
  }

  function Bits(n: nat, digits: nat): string {
    if digits == 0 then "" else Bits(n / 64, digits - 1) + [Digit(n % 64)]
  }

  lemma TwoDigits(p: nat, q: nat)
    requires p < 64 && q < 64
    ensures Bits(p * 64 + q, 2) == [Digit(p), Digit(q)]
  {
    hide Digit, Bits;
    FirstDigit(p);
    OneDigit(p, q, 1);
  }

  lemma ThreeDigits(p: nat, q: nat, r: nat)
    requires p < 64 && q < 64 && r < 64
    ensures Bits((p * 64 + q) * 64 + r, 3) == [Digit(p), Digit(q), Digit(r)]
  {
    hide Digit, Bits;
    TwoDigits(p, q);
    OneDigit(p * 64 + q, r, 2);
  }

  lemma FourDigits(p: nat, q: nat, r: nat, s: nat)
    requires p < 64 && q < 64 && r < 64 && s < 64
    ensures Bits(((p * 64 + q) * 64 + r) * 64 + s, 4) == [Digit(p), Digit(q), Digit(r), Digit(s)]
  {
    hide Digit, Bits;
    ThreeDigits(p, q, r);
    OneDigit((p * 64 + q) * 64 + r, s, 3);
  }

  lemma FirstDigit(p: nat)
    requires p < 64
    ensures Bits(p, 1) == [Digit(p)]
  {
    assert Bits(p / 64, 0) == "";
  }

  lemma OneDigit(n: nat, d: nat, digits: nat)
    requires d < 64
    ensures Bits(n * 64 + d, digits + 1) == Bits(n, digits) + [Digit(d)]
  {
  }

  /** A block spells the bits of its characters in base 64; 16 and 8 bits are padded with zeros to 18 and 12. */
  lemma BlockBits(x: char, y: char, z: char)
    requires x < '\U{0080}' && y < '\U{0080}' && z < '\U{0080}'
    ensures Block(x, y, z) == Bits((Byte(x) * 256 + Byte(y)) * 256 + Byte(z), 4)
    ensures Pair(x, y) == Bits((Byte(x) * 256 + Byte(y)) * 4, 3)
    ensures Single(x) == Bits(Byte(x) * 16, 2)
  {
    hide Digit, Bits;
    var a, b, c := Byte(x), Byte(y), Byte(z);
    FourDigits(a / 4, a % 4 * 16 + b / 16, b % 16 * 4 + c / 64, c % 64);
    ThreeDigits(a / 4, a % 4 * 16 + b / 16, b % 16 * 4);
    TwoDigits(a / 4, a % 4 * 16);
  }

  function EncodedBits(s: string): string
    requires IsAscii(s) && s != ""
  {
    if |s| == 1 then Bits(Byte(s[0]) * 16, 2)
    else if |s| == 2 then Bits((Byte(s[0]) * 256 + Byte(s[1])) * 4, 3)
    else Bits((Byte(s[0]) * 256 + Byte(s[1])) * 256 + Byte(s[2]), 4) + Encode(s[3..])
  }

  /** From the k-th block of three characters on, the text is the spelling of that block and the rest. */
  lemma {:induction false} EncodeBits(s: string, k: nat)
    requires IsAscii(s) && 3 * k < |s|
    ensures 4 * k < |Encode(s)|
    ensures Encode(s)[4 * k..] == EncodedBits(s[3 * k..])
    decreases k
  {
    hide Bits, Digit;
    if k == 0 {
      assert s[0..] == s && Encode(s)[0..] == Encode(s);
      BlockBits(s[0], if |s| > 1 then s[1] else 'a', if |s| > 2 then s[2] else 'a');
    } else {
      EncodeBits(s[3..], k - 1);
      assert s[3..][3 * (k - 1)..] == s[3 * k..];
      assert Encode(s)[4..] == Encode(s[3..]);
      assert Encode(s)[4 * k..] == Encode(s)[4..][4 * (k - 1)..];
    }
  }

  lemma DigitInjective(m: nat, n: nat)
    requires m < 64 && n < 64 && Digit(m) == Digit(n)
    ensures m == n
  {
  }

  lemma BlockInjective(x: char, y: char, z: char, u: char, v: char, w: char)
    requires x < '\U{0080}' && y < '\U{0080}' && z < '\U{0080}'
    requires u < '\U{0080}' && v < '\U{0080}' && w < '\U{0080}'
    requires Block(x, y, z) == Block(u, v, w)
    ensures x == u && y == v && z == w
  {
    hide Digit;
    var a, b, c := Byte(x), Byte(y), Byte(z);
    var d, e, f := Byte(u), Byte(v), Byte(w);
    var p, q := Block(x, y, z), Block(u, v, w);
    assert p[0] == q[0] && p[1] == q[1] && p[2] == q[2] && p[3] == q[3];
    DigitInjective(a / 4, d / 4);
    DigitInjective(a % 4 * 16 + b / 16, d % 4 * 16 + e / 16);
    DigitInjective(b % 16 * 4 + c / 64, e % 16 * 4 + f / 64);
    DigitInjective(c % 64, f % 64);
  }

  lemma {:induction false} EncodedLength(s: string)
    requires IsAscii(s)
    ensures |Encode(s)| == |s| / 3 * 4 + (if |s| % 3 == 0 then 0 else |s| % 3 + 1)
    decreases |s|
  {
    if |s| >= 3 {
      EncodedLength(s[3..]);
    }
  }

  lemma {:induction false} EncodeInjective(s: string, t: string)
    requires IsAscii(s) && IsAscii(t) && Encode(s) == Encode(t)
    ensures s == t
    decreases |s|
  {
    EncodedLength(s);
    EncodedLength(t);
    assert |s| == |t|;
    if |s| >= 3 {
      var p, q := Block(s[0], s[1], s[2]), Block(t[0], t[1], t[2]);
      assert Encode(s)[..4] == p && Encode(t)[..4] == q;
      assert Encode(s)[4..] == Encode(s[3..]) && Encode(t)[4..] == Encode(t[3..]);
      BlockInjective(s[0], s[1], s[2], t[0], t[1], t[2]);
      EncodeInjective(s[3..], t[3..]);
      assert s == s[..3] + s[3..] && t == t[..3] + t[3..];
    } else if |s| == 2 {
      PairInjective(s[0], s[1], t[0], t[1]);
    } else if |s| == 1 {
      SingleInjective(s[0], t[0]);
    }
  }

  lemma SingleInjective(x: char, u: char)
    requires x < '\U{0080}' && u < '\U{0080}' && Single(x) == Single(u)
    ensures x == u
  {
  }

  lemma PairInjective(x: char, y: char, u: char, v: char)
    requires x < '\U{0080}' && y < '\U{0080}' && u < '\U{0080}' && v < '\U{0080}'
    requires Pair(x, y) == Pair(u, v)
    ensures x == u && y == v
  {
    hide Digit;
    var a, b, d, e, p, q := Byte(x), Byte(y), Byte(u), Byte(v), Pair(x, y), Pair(u, v);
    assert p[0] == q[0] && p[1] == q[1] && p[2] == q[2];
    DigitInjective(a / 4, d / 4);
    DigitInjective(a % 4 * 16 + b / 16, d % 4 * 16 + e / 16);
    DigitInjective(b % 16 * 4, e % 16 * 4);
  }

  /** '>' and '~' are the only ASCII characters whose low six bits are the value of "-". */
  predicate EndsInDash(c: char) { c == '>' || c == '~' }

  lemma DashOnlyLast(x: char, y: char, z: char)
    requires x < '\U{0080}' && y < '\U{0080}' && z < '\U{0080}'
    ensures '-' in Block(x, y, z) <==> EndsInDash(z)
  {
  }

  /** Encoded ASCII text contains "-" exactly when some third character is '>' or '~'. */
  lemma {:induction false} DashExactly(s: string)
    requires IsAscii(s)
    ensures '-' in Encode(s) <==> exists i | 0 <= i < |s| && i % 3 == 2 :: EndsInDash(s[i])
    decreases |s|
  {
    if |s| >= 3 {
      DashExactly(s[3..]);
      DashOnlyLast(s[0], s[1], s[2]);
      if '-' in Encode(s[3..]) {
        var i :| 0 <= i < |s[3..]| && i % 3 == 2 && EndsInDash(s[3..][i]);
        assert s[i + 3] == s[3..][i] && (i + 3) % 3 == 2;
      }
      if i :| 0 <= i < |s| && i % 3 == 2 && EndsInDash(s[i]) {
        if i >= 3 {
          assert s[3..][i - 3] == s[i] && (i - 3) % 3 == 2;
        }
      }
    } else {
      assert forall n: nat | n < 64 :: Digit(n) == '-' <==> n == 62;
      if |s| >= 1 {
        var a := Byte(s[0]);
        assert a / 4 < 32 && a % 4 * 16 != 62;
        if |s| == 2 {
          var b := Byte(s[1]);
          assert a % 4 * 16 + b / 16 != 62 && b % 16 * 4 != 62;
        }
      }
    }
  }
}
