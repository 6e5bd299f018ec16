/**
 * The string operations the logger relies on from Rust's standard library:
 * `str::trim`, `str::eq_ignore_ascii_case`, decimal rendering of integers and
 * `str::parse::<u8>`.
 */
module Text {
  import opened Wrappers

  /** Rust's `char::is_whitespace`: the characters with the Unicode White_Space property. */
  predicate IsWhitespace(c: char) {
    ('\t' <= c <= '\r') || c == ' ' || c == '\U{85}' || c == '\U{A0}' || c == '\U{1680}'
    || ('\U{2000}' <= c <= '\U{200A}') || c == '\U{2028}' || c == '\U{2029}'
    || c == '\U{202F}' || c == '\U{205F}' || c == '\U{3000}'
  }

  predicate AllWhitespace(s: string) {
    forall i :: 0 <= i < |s| ==> IsWhitespace(s[i])
  }

  /** Drops leading whitespace. */
  function TrimStart(s: string): string {
    if |s| > 0 && IsWhitespace(s[0]) then TrimStart(s[1..]) else s
  }

  /** Drops trailing whitespace. */
  function TrimEnd(s: string): string {
    if |s| > 0 && IsWhitespace(s[|s| - 1]) then TrimEnd(s[..|s| - 1]) else s
  }

  /** Rust's `str::trim`: drops whitespace at both ends. */
  function Trim(s: string): string {
    TrimEnd(TrimStart(s))
  }

  /** `TrimStart` keeps a suffix that does not start with whitespace and drops only whitespace. */
  lemma {:induction false} TrimStartShape(s: string)
    ensures |TrimStart(s)| <= |s| && TrimStart(s) == s[|s| - |TrimStart(s)|..]
    ensures AllWhitespace(s[..|s| - |TrimStart(s)|])
    ensures TrimStart(s) == [] || !IsWhitespace(TrimStart(s)[0])
  {
    if |s| > 0 && IsWhitespace(s[0]) {
      var r := TrimStart(s[1..]);
      TrimStartShape(s[1..]);
      assert s[..|s| - |r|] == [s[0]] + s[1..][..|s| - 1 - |r|];
    }
  }

  /** `TrimEnd` keeps a prefix that does not end with whitespace and drops only whitespace. */
  lemma {:induction false} TrimEndShape(s: string)
    ensures |TrimEnd(s)| <= |s| && TrimEnd(s) == s[..|TrimEnd(s)|]
    ensures AllWhitespace(s[|TrimEnd(s)|..])
    ensures TrimEnd(s) == [] || !IsWhitespace(TrimEnd(s)[|TrimEnd(s)| - 1])
  {
    if |s| > 0 && IsWhitespace(s[|s| - 1]) {
      var r := TrimEnd(s[..|s| - 1]);
      TrimEndShape(s[..|s| - 1]);
      assert s[|r|..] == s[..|s| - 1][|r|..] + [s[|s| - 1]];
    }
  }

  /**
   * Every string is its trimmed core surrounded by whitespace, and the core
   * neither starts nor ends with whitespace.
   */
  lemma TrimSplit(s: string) returns (pre: string, post: string)
    ensures s == pre + Trim(s) + post
    ensures AllWhitespace(pre) && AllWhitespace(post)
    ensures Trim(s) == [] || (!IsWhitespace(Trim(s)[0]) && !IsWhitespace(Trim(s)[|Trim(s)| - 1]))
  {
    var t := TrimStart(s);
    var r := TrimEnd(t);
    TrimStartShape(s);
    TrimEndShape(t);
    pre := s[..|s| - |t|];
    post := t[|r|..];
    assert s == pre + t;
    assert t == r + post;
    assert pre + (r + post) == pre + r + post;
    TrimEnds(s);
  }

  /** The trimmed core neither starts nor ends with whitespace. */
  lemma TrimEnds(s: string)
    ensures Trim(s) == [] || (!IsWhitespace(Trim(s)[0]) && !IsWhitespace(Trim(s)[|Trim(s)| - 1]))
  {
    var t := TrimStart(s);
    TrimStartShape(s);
    TrimEndShape(t);
  }

  /** A string that does not start with whitespace keeps its first character when trimmed. */
  lemma TrimKeepsFirst(s: string)
    requires s != [] && !IsWhitespace(s[0])
    ensures Trim(s) != [] && Trim(s)[0] == s[0]
  {
    assert TrimStart(s) == s;
    TrimEndShape(s);
  }

  lemma {:induction false} TrimStartPadded(pre: string, rest: string)
    requires AllWhitespace(pre)
    requires rest == [] || !IsWhitespace(rest[0])
    ensures TrimStart(pre + rest) == rest
  {
    if pre != [] {
      assert (pre + rest)[1..] == pre[1..] + rest;
      TrimStartPadded(pre[1..], rest);
    }
  }

  lemma {:induction false} TrimEndPadded(rest: string, post: string)
    requires AllWhitespace(post)
    requires rest == [] || !IsWhitespace(rest[|rest| - 1])
    ensures TrimEnd(rest + post) == rest
  {
    if post != [] {
      assert (rest + post)[..|rest + post| - 1] == rest + post[..|post| - 1];
      TrimEndPadded(rest, post[..|post| - 1]);
    }
  }

  /** Trimming removes exactly the surrounding whitespace: with `TrimSplit` this pins `Trim` down completely. */
  lemma TrimOfPadded(pre: string, w: string, post: string)
    requires AllWhitespace(pre) && AllWhitespace(post)
    requires w == [] || (!IsWhitespace(w[0]) && !IsWhitespace(w[|w| - 1]))
    ensures Trim(pre + w + post) == w
  {
    if w == [] {
      var blank := pre + post;
      assert pre + w + post == blank && blank + [] == blank;
      assert AllWhitespace(blank) by {
        forall i | 0 <= i < |blank| ensures IsWhitespace(blank[i]) {
          if i >= |pre| {
            assert blank[i] == post[i - |pre|];
          }
        }
      }
      TrimStartPadded(blank, []);
    } else {
      assert pre + w + post == pre + (w + post);
      TrimStartPadded(pre, w + post);
      TrimEndPadded(w, post);
    }
  }

  /** A string without surrounding whitespace is its own trim. */
  lemma TrimUnpadded(w: string)
    requires w == [] || (!IsWhitespace(w[0]) && !IsWhitespace(w[|w| - 1]))
    ensures Trim(w) == w
  {
    assert [] + w + [] == w;
    TrimOfPadded([], w, []);
  }

  /** Rust's `u8::to_ascii_lowercase` applied to a character. */
  function AsciiLower(c: char): char {
    if 'A' <= c <= 'Z' then (c as int + 32) as char else c
  }

  /** Rust's `str::eq_ignore_ascii_case`: same length, equal after ASCII lower-casing position by position. */
  predicate EqIgnoreAsciiCase(a: string, b: string) {
    |a| == |b| && forall i :: 0 <= i < |a| ==> AsciiLower(a[i]) == AsciiLower(b[i])
  }

  predicate IsDigit(c: char) {
    '0' <= c <= '9'
  }

  predicate AllDigits(s: string) {
    forall i :: 0 <= i < |s| ==> IsDigit(s[i])
  }

  function DigitChar(d: nat): (c: char)
    requires d < 10
    ensures IsDigit(c) && c as int - '0' as int == d
  {
    ('0' as int + d) as char
  }

  /** The value of a string of decimal digits, most significant first. */
  function DigitsValue(s: string): nat
    requires AllDigits(s)
  {
    if s == [] then 0 else DigitsValue(s[..|s| - 1]) * 10 + (s[|s| - 1] as int - '0' as int)
  }

  /** The decimal text of a natural number, without sign or leading zeros. */
  function NatToDecimal(n: nat): (s: string)
    ensures |s| > 0 && AllDigits(s)
    ensures |s| > 1 ==> s[0] != '0'
  {
    if n < 10 then [DigitChar(n)] else NatToDecimal(n / 10) + [DigitChar(n % 10)]
  }

  predicate AllZeros(s: string) {
    forall i :: 0 <= i < |s| ==> s[i] == '0'
  }

  /** Leading zeros do not change the value of a run of digits. */
  lemma {:induction false} LeadingZerosValue(z: string, d: string)
    requires AllZeros(z) && AllDigits(d)
    ensures AllDigits(z + d) && DigitsValue(z + d) == DigitsValue(d)
    decreases |z| + |d|
  {
    assert AllDigits(z + d);
    if d == [] {
      assert z + d == z;
      if z != [] {
        assert z[..|z| - 1] + [] == z[..|z| - 1];
        LeadingZerosValue(z[..|z| - 1], []);
      }
    } else {
      assert (z + d)[..|z + d| - 1] == z + d[..|d| - 1];
      LeadingZerosValue(z, d[..|d| - 1]);
    }
  }

  /** Every run of digits is some zeros followed by a run that does not start with '0'. */
  lemma {:induction false} StripLeadingZeros(s: string) returns (z: string, t: string)
    requires AllDigits(s)
    ensures s == z + t && AllZeros(z) && AllDigits(t)
    ensures t == [] || t[0] != '0'
  {
    if s != [] && s[0] == '0' {
      var z', t' := StripLeadingZeros(s[1..]);
      z, t := [s[0]] + z', t';
      assert s == [s[0]] + s[1..];
    } else {
      z, t := [], s;
    }
  }

  /** A run of digits that starts with a non-zero digit has a non-zero value. */
  lemma {:induction false} NonZeroLeadValue(t: string)
    requires AllDigits(t) && t != [] && t[0] != '0'
    ensures DigitsValue(t) >= 1
  {
    if |t| > 1 {
      NonZeroLeadValue(t[..|t| - 1]);
    }
  }

  /** A run of digits without a leading zero is the decimal text of its value. */
  lemma {:induction false} CanonicalDecimal(t: string)
    requires AllDigits(t) && t != [] && t[0] != '0'
    ensures t == NatToDecimal(DigitsValue(t))
  {
    var n := DigitsValue(t);
    if |t| > 1 {
      var u := t[..|t| - 1];
      CanonicalDecimal(u);
      NonZeroLeadValue(u);
      var d := t[|t| - 1] as int - '0' as int;
      assert n / 10 == DigitsValue(u) && n % 10 == d;
      assert t == u + [DigitChar(d)];
    }
  }

  /** A run of digits with a non-zero value is some zeros followed by the decimal text of that value. */
  lemma DecimalShape(digits: string) returns (zeros: string, n: nat)
    requires AllDigits(digits) && DigitsValue(digits) >= 1
    ensures AllZeros(zeros) && n == DigitsValue(digits)
    ensures digits == zeros + NatToDecimal(n)
  {
    var t;
    zeros, t := StripLeadingZeros(digits);
    LeadingZerosValue(zeros, t);
    n := DigitsValue(t);
    CanonicalDecimal(t);
  }

  /** The decimal text of an integer, with a leading '-' when negative. */
  function IntToDecimal(n: int): string {
    if n < 0 then "-" + NatToDecimal(-n) else NatToDecimal(n)
  }

  /** Reading back the decimal text of `n` gives `n`. */
  lemma {:induction false} DecimalRoundTrip(n: nat)
    ensures DigitsValue(NatToDecimal(n)) == n
  {
    if n >= 10 {
      var s := NatToDecimal(n);
      assert s[..|s| - 1] == NatToDecimal(n / 10);
      DecimalRoundTrip(n / 10);
    }
  }

  /**
   * Rust's `str::parse::<u8>`: an optional '+' (not alone) followed by one or
   * more ASCII digits whose value is at most 255; no whitespace, no '-'.
   */
  function ParseU8(s: string): (r: Option<int>)
    ensures r.Some? ==> 0 <= r.value <= 255 && |s| > 0
  {
    var digits := if |s| > 1 && s[0] == '+' then s[1..] else s;
    if digits == [] || !AllDigits(digits) then None
    else if DigitsValue(digits) > 255 then None
    else Some(DigitsValue(digits))
  }

  /** Text that parses as a `u8` is an optional '+' followed by digits of that value. */
  lemma ParseU8Digits(s: string) returns (sign: string, digits: string)
    requires ParseU8(s).Some?
    ensures sign == "" || sign == "+"
    ensures s == sign + digits && AllDigits(digits) && DigitsValue(digits) == ParseU8(s).value
  {
    if |s| > 1 && s[0] == '+' {
      sign, digits := "+", s[1..];
    } else {
      sign, digits := "", s;
    }
  }

  /** Every byte value's decimal text parses back to it. */
  lemma ParseU8Decimal(n: nat)
    requires n <= 255
    ensures ParseU8(NatToDecimal(n)) == Some(n)
  {
    DecimalRoundTrip(n);
  }
}
