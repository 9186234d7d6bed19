/** The two string built-ins the Random node applies to the service's reply:
    String.prototype.trim and parseInt with radix 10 (section 19.2.5 of
    ECMA-262). A string is a sequence of Unicode scalar values rather than
    of UTF-16 code units; every character either operation inspects lies in
    the Basic Multilingual Plane, so the two views agree on them. */
module JsStrings {
  import opened JsNumbers

  /** WhiteSpace or LineTerminator in ECMA-262: the characters trim removes
      and parseInt skips. The space separators (category Zs) are listed out. */
  predicate IsWhiteSpace(c: char)
  {
    var u := c as int;
    // TAB, VT, FF, SP, NBSP, ZWNBSP
    u == 0x09 || u == 0x0B || u == 0x0C || u == 0x20 || u == 0xA0 || u == 0xFEFF ||
    // the remaining space separators
    u == 0x1680 || (0x2000 <= u <= 0x200A) || u == 0x202F || u == 0x205F || u == 0x3000 ||
    // LF, CR, LINE SEPARATOR, PARAGRAPH SEPARATOR
    u == 0x0A || u == 0x0D || u == 0x2028 || u == 0x2029
  }

  predicate AllWhiteSpace(s: string)
  {
    forall i :: 0 <= i < |s| ==> IsWhiteSpace(s[i])
  }

  predicate IsDecimalDigit(c: char)
  {
    '0' <= c <= '9'
  }

  predicate AllDecimalDigits(s: string)
  {
    forall i :: 0 <= i < |s| ==> IsDecimalDigit(s[i])
  }

  /** Removes leading white space (TrimStart's contract is TrimStartSpec). */
  function TrimStart(s: string): string
  {
    if s == [] || !IsWhiteSpace(s[0]) then s else TrimStart(s[1..])
  }

  /** Removes trailing white space (TrimEnd's contract is TrimEndSpec). */
  function TrimEnd(s: string): string
  {
    if s == [] || !IsWhiteSpace(s[|s| - 1]) then s else TrimEnd(s[..|s| - 1])
  }

  /** String.prototype.trim: the result is no longer than s and neither
      starts nor ends with white space (TrimSpec says where it lies in s). */
  function Trim(s: string): (r: string)
    ensures |r| <= |s|
    ensures r != [] ==> !IsWhiteSpace(r[0]) && !IsWhiteSpace(r[|r| - 1])
  {
    TrimStartSpec(s);
    TrimEndSpec(TrimStart(s));
    TrimEnd(TrimStart(s))
  }

  /** The longest prefix of s made of decimal digits (its contract is
      DigitPrefixSpec). */
  function DigitPrefix(s: string): string
  {
    if s == [] || !IsDecimalDigit(s[0]) then [] else [s[0]] + DigitPrefix(s[1..])
  }

  /** The value of a decimal numeral, most significant digit first. */
  function DigitsValue(d: string): int
  {
    if d == [] then 0 else DigitsValue(d[..|d| - 1]) * 10 + (d[|d| - 1] as int - '0' as int)
  }

  /** parseInt(s, 10): skip leading white space, take an optional sign and then
      the longest run of decimal digits; NaN when that run is empty.
      The result is exact: the rounding of long numerals to the nearest
      double is not modelled. */
  function ParseInt(s: string): (r: JsNumber)
    ensures r.NaN? || (r.Finite? && r.value.Floor as real == r.value)
  {
    ParseSignedDigits(TrimStart(s))
  }

  /** The steps of parseInt after the white space is skipped. */
  function ParseSignedDigits(t: string): JsNumber
  {
    var negative := t != [] && t[0] == '-';
    var unsigned := if t != [] && (t[0] == '+' || t[0] == '-') then t[1..] else t;
    var digits := DigitPrefix(unsigned);
    if digits == [] then NaN
    else FromInt(if negative then -DigitsValue(digits) else DigitsValue(digits))
  }

  /** TrimStart gives the longest suffix of s that does not start with white
      space: what it drops is white space. */
  lemma {:induction false} TrimStartSpec(s: string)
    ensures var r := TrimStart(s);
            |r| <= |s| && r == s[|s| - |r|..] && AllWhiteSpace(s[..|s| - |r|]) &&
            (r != [] ==> !IsWhiteSpace(r[0]))
  {
    if s != [] && IsWhiteSpace(s[0]) {
      TrimStartSpec(s[1..]);
      var r := TrimStart(s);
      assert s[|s| - |r|..] == s[1..][|s| - 1 - |r|..];
    }
  }

  /** TrimEnd gives the longest prefix of s that does not end with white
      space: what it drops is white space. */
  lemma {:induction false} TrimEndSpec(s: string)
    ensures var r := TrimEnd(s);
            |r| <= |s| && r == s[..|r|] && AllWhiteSpace(s[|r|..]) &&
            (r != [] ==> !IsWhiteSpace(r[|r| - 1]))
  {
    if s != [] && IsWhiteSpace(s[|s| - 1]) {
      TrimEndSpec(s[..|s| - 1]);
      var r := TrimEnd(s);
      assert s[..|r|] == s[..|s| - 1][..|r|];
      assert forall i :: 0 <= i < |s| - 1 - |r| ==> s[|r|..][i] == s[..|s| - 1][|r|..][i];
    }
  }

  /** trim gives the longest infix of s that neither starts nor ends with
      white space, with only white space around it. */
  lemma TrimSpec(s: string)
    ensures var r := Trim(s);
            (exists a :: 0 <= a <= a + |r| <= |s| && r == s[a..a + |r|] &&
                         AllWhiteSpace(s[..a]) && AllWhiteSpace(s[a + |r|..])) &&
            (r != [] ==> !IsWhiteSpace(r[0]) && !IsWhiteSpace(r[|r| - 1]))
  {
    var t := TrimStart(s);
    TrimStartSpec(s);
    TrimEndSpec(t);
    TrimIsInfix(s, t, Trim(s));
  }

  /** A prefix of a suffix is an infix, and what lies around it is white
      space when what lies around each part is. */
  lemma TrimIsInfix(s: string, t: string, r: string)
    requires |t| <= |s| && t == s[|s| - |t|..] && AllWhiteSpace(s[..|s| - |t|])
    requires |r| <= |t| && r == t[..|r|] && AllWhiteSpace(t[|r|..])
    ensures var a := |s| - |t|;
            0 <= a <= a + |r| <= |s| && r == s[a..a + |r|] &&
            AllWhiteSpace(s[..a]) && AllWhiteSpace(s[a + |r|..])
  {
    assert s[|s| - |t| + |r|..] == t[|r|..];
  }

  /** DigitPrefix gives the longest prefix of s made of decimal digits. */
  lemma {:induction false} DigitPrefixSpec(s: string)
    ensures var r := DigitPrefix(s);
            |r| <= |s| && r == s[..|r|] && AllDecimalDigits(r) &&
            (|r| < |s| ==> !IsDecimalDigit(s[|r|]))
  {
    if s != [] && IsDecimalDigit(s[0]) {
      DigitPrefixSpec(s[1..]);
    }
  }

  /** parseInt yields NaN or an integer. */
  /** The decimal numeral of a natural number: no leading zero, no exponent. */
  function NatToDecimal(n: nat): (d: string)
    ensures d != [] && AllDecimalDigits(d)
    ensures DigitsValue(d) == n
  {
    var last := ['0' + (n % 10) as char];
    var d := if n < 10 then last else NatToDecimal(n / 10) + last;
    assert d[..|d| - 1] == (if n < 10 then [] else NatToDecimal(n / 10));
    d
  }

  /** The decimal numeral of an integer: a minus sign for negatives. */
  function IntToDecimal(k: int): (d: string)
    ensures d != [] && !IsWhiteSpace(d[0]) && !IsWhiteSpace(d[|d| - 1])
  {
    if k < 0 then "-" + NatToDecimal(-k) else NatToDecimal(k)
  }

  /** White space in front of a string that starts with something else is
      exactly what TrimStart removes. */
  lemma {:induction false} TrimStartOfPadded(w: string, x: string)
    requires AllWhiteSpace(w)
    requires x != [] && !IsWhiteSpace(x[0])
    ensures TrimStart(w + x) == x
  {
    if w != [] {
      assert (w + x)[1..] == w[1..] + x;
      TrimStartOfPadded(w[1..], x);
    }
  }

  /** White space after a string that ends with something else is exactly
      what TrimEnd removes. */
  lemma {:induction false} TrimEndOfPadded(x: string, w: string)
    requires AllWhiteSpace(w)
    requires x != [] && !IsWhiteSpace(x[|x| - 1])
    ensures TrimEnd(x + w) == x
  {
    if w != [] {
      assert (x + w)[..|x + w| - 1] == x + w[..|w| - 1];
      TrimEndOfPadded(x, w[..|w| - 1]);
    }
  }

  /** trim undoes white-space padding on both sides. */
  lemma TrimOfPadded(w1: string, t: string, w2: string)
    requires AllWhiteSpace(w1) && AllWhiteSpace(w2)
    requires t != [] && !IsWhiteSpace(t[0]) && !IsWhiteSpace(t[|t| - 1])
    ensures Trim(w1 + t + w2) == t
  {
    assert w1 + t + w2 == w1 + (t + w2);
    TrimStartOfPadded(w1, t + w2);
    TrimEndOfPadded(t, w2);
  }

  /** The digit run of a numeral followed by a non-digit is that numeral. */
  lemma {:induction false} DigitPrefixOfNumeral(d: string, rest: string)
    requires AllDecimalDigits(d)
    requires rest == [] || !IsDecimalDigit(rest[0])
    ensures DigitPrefix(d + rest) == d
  {
    if d != [] {
      assert (d + rest)[1..] == d[1..] + rest;
      DigitPrefixOfNumeral(d[1..], rest);
    }
  }

  /** A sign as parseInt accepts it: none, plus or minus. */
  predicate IsSign(sign: string)
  {
    sign == [] || sign == ['+'] || sign == ['-']
  }

  /** parseInt on white space, a sign, a non-empty digit run and anything that
      does not continue the run yields the signed value of the run. */
  lemma ParseIntOfNumeral(w: string, sign: string, d: string, rest: string)
    requires AllWhiteSpace(w) && IsSign(sign)
    requires d != [] && AllDecimalDigits(d)
    requires rest == [] || !IsDecimalDigit(rest[0])
    ensures ParseInt(w + sign + d + rest) == FromInt(if sign == ['-'] then -(DigitsValue(d) as int) else DigitsValue(d))
  {
    var x := sign + (d + rest);
    assert w + sign + d + rest == w + x;
    TrimStartOfPadded(w, x);
    SignedDigitsOfNumeral(sign, d, rest);
  }

  /** The sign-and-digits step of parseInt on a signed numeral. */
  lemma SignedDigitsOfNumeral(sign: string, d: string, rest: string)
    requires IsSign(sign)
    requires d != [] && AllDecimalDigits(d)
    requires rest == [] || !IsDecimalDigit(rest[0])
    ensures ParseSignedDigits(sign + (d + rest)) == FromInt(if sign == ['-'] then -(DigitsValue(d) as int) else DigitsValue(d))
  {
    DigitPrefixOfNumeral(d, rest);
    assert (sign + (d + rest))[|sign|..] == d + rest;
  }

  /** parseInt is NaN when, after the leading white space and an optional
      sign, no digit follows (and, when there is no sign, no sign either). */
  lemma ParseIntOfNoNumeral(w: string, sign: string, rest: string)
    requires AllWhiteSpace(w) && IsSign(sign)
    requires rest == [] || !IsDecimalDigit(rest[0])
    requires sign == [] ==> rest == [] || !(IsWhiteSpace(rest[0]) || rest[0] == '+' || rest[0] == '-')
    ensures ParseInt(w + sign + rest).NaN?
  {
    var x := sign + rest;
    assert w + sign + rest == w + x;
    if x == [] {
      assert w + x == w;
      TrimStartOfWhiteSpace(w);
    } else {
      TrimStartOfPadded(w, x);
      SignedDigitsOfNoNumeral(sign, rest);
    }
  }

  /** The sign-and-digits step of parseInt when no digit follows the sign. */
  lemma SignedDigitsOfNoNumeral(sign: string, rest: string)
    requires IsSign(sign)
    requires rest == [] || !IsDecimalDigit(rest[0])
    requires sign == [] ==> rest == [] || !(rest[0] == '+' || rest[0] == '-')
    ensures ParseSignedDigits(sign + rest).NaN?
  {
    assert DigitPrefix(rest) == [];
    assert (sign + rest)[|sign|..] == rest;
  }

  /** A string of white space trims to nothing. */
  lemma {:induction false} TrimStartOfWhiteSpace(w: string)
    requires AllWhiteSpace(w)
    ensures TrimStart(w) == []
  {
    if w != [] {
      TrimStartOfWhiteSpace(w[1..]);
    }
  }

  /** Reading back the decimal numeral of an integer, with any white-space
      padding, gives the same integer: parseInt(s.trim(), 10) inverts it. */
  lemma ParseIntOfDecimal(k: int, w1: string, w2: string)
    requires AllWhiteSpace(w1) && AllWhiteSpace(w2)
    ensures ParseInt(Trim(w1 + IntToDecimal(k) + w2)) == FromInt(k)
  {
    var d := IntToDecimal(k);
    TrimOfPadded(w1, d, w2);
    if k < 0 {
      SignedDigitsOfNumeral(['-'], NatToDecimal(-k), []);
      assert ['-'] + (NatToDecimal(-k) + []) == d;
    } else {
      SignedDigitsOfNumeral([], NatToDecimal(k), []);
      assert [] + (NatToDecimal(k) + []) == d;
    }
  }
}
