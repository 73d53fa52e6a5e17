/**
  The global `parseInt` of ECMAScript (section 19.2.5 of ECMA-262) called, as the
  submission form calls it, with the radix argument omitted; and the decimal
  numeral printer `ShowInt` that serves as its independent partner (a template
  literal such as `${response.status}` prints an integer this way).
*/
module JsParseInt {
  import opened Wrappers
  import opened JsString

  /** The value of `c` as a digit of any radix up to 36; 36 when `c` is no digit at all. */
  function DigitValue(c: char): (d: nat)
    ensures d <= 36
    ensures d < 10 <==> '0' <= c <= '9'
  {
    if '0' <= c <= '9' then c as int - '0' as int
    else if 'a' <= c <= 'z' then c as int - 'a' as int + 10
    else if 'A' <= c <= 'Z' then c as int - 'A' as int + 10
    else 36
  }

  predicate IsDigit(c: char, radix: nat) {
    DigitValue(c) < radix
  }

  /** Length of the longest prefix of `s` made of radix-`radix` digits. */
  function LeadingDigits(s: string, radix: nat): (n: nat)
    ensures n <= |s|
    ensures forall i :: 0 <= i < n ==> IsDigit(s[i], radix)
    ensures n < |s| ==> !IsDigit(s[n], radix)
  {
    if |s| > 0 && IsDigit(s[0], radix) then 1 + LeadingDigits(s[1..], radix) else 0
  }

  /** The mathematical value of the digit string `z`, most significant digit first. */
  function DigitsValue(z: string, radix: nat): nat {
    if z == [] then 0 else DigitsValue(z[..|z| - 1], radix) * radix + DigitValue(z[|z| - 1])
  }

  /**
    `parseInt(input)`; `None` stands for NaN. The steps of the standard: strip
    leading StrWhiteSpaceChar, take an optional sign, strip a "0x"/"0X" prefix
    and switch to radix 16 (the radix is undefined, hence 10 with prefix
    stripping enabled), then read the longest digit prefix; no digit gives NaN.
    A negative zero is returned as 0: both are falsy, which is all its callers use.
  */
  function ParseInt(input: string): Option<int> {
    ParseSigned(TrimStart(input))
  }

  /** The steps after white space is stripped: the sign, then the magnitude. */
  function ParseSigned(s: string): Option<int> {
    if |s| > 0 && s[0] == '-' then
      match ParseUnsigned(s[1..])
      case None => None
      case Some(m) => Some(-(m as int))
    else if |s| > 0 && s[0] == '+' then ParseUnsigned(s[1..])
    else ParseUnsigned(s)
  }

  predicate HasHexPrefix(s: string) {
    |s| >= 2 && s[0] == '0' && (s[1] == 'x' || s[1] == 'X')
  }

  /** The magnitude: radix 16 after a "0x" prefix, radix 10 otherwise. */
  function ParseUnsigned(s: string): Option<nat> {
    if HasHexPrefix(s) then ParseDigits(s[2..], 16) else ParseDigits(s, 10)
  }

  /** The value of the longest digit prefix of `s`, or NaN when there is none. */
  function ParseDigits(s: string, radix: nat): Option<nat> {
    var n := LeadingDigits(s, radix);
    if n == 0 then None else Some(DigitsValue(s[..n], radix))
  }

  function DecimalDigit(d: nat): (c: char)
    requires d < 10
    ensures '0' <= c <= '9' && DigitValue(c) == d
  {
    ('0' as int + d) as char
  }

  /** The decimal numeral of `n` without leading zeros. */
  function ShowNat(n: nat): (s: string)
    ensures |s| >= 1
    ensures forall i :: 0 <= i < |s| ==> '0' <= s[i] <= '9'
    ensures s[0] == '0' ==> n == 0 && |s| == 1
  {
    if n < 10 then [DecimalDigit(n)] else ShowNat(n / 10) + [DecimalDigit(n % 10)]
  }

  /** The decimal numeral of `n`, with a leading '-' when negative. */
  function ShowInt(n: int): (s: string)
    ensures |s| >= 1
    ensures s[0] == '-' <==> n < 0
  {
    if n < 0 then "-" + ShowNat(-n) else ShowNat(n)
  }

  /**
    `rest` cannot extend the numeral `ShowInt(n)` when appended to it: it is
    empty or starts with a non-decimal character, and when the numeral is "0"
    that character is not the 'x'/'X' that would make "0x" a hex prefix.
  */
  predicate EndsNumeral(n: int, rest: string) {
    rest == [] || (!IsDigit(rest[0], 10) && (n != 0 || (rest[0] != 'x' && rest[0] != 'X')))
  }

  lemma {:induction false} DigitsValueOfShowNat(n: nat)
    ensures DigitsValue(ShowNat(n), 10) == n
  {
    var z := ShowNat(n);
    if n >= 10 {
      assert z[..|z| - 1] == ShowNat(n / 10);
      DigitsValueOfShowNat(n / 10);
    }
  }

  lemma {:induction false} LeadingDigitsStopAtEnd(z: string, rest: string, radix: nat)
    requires forall i :: 0 <= i < |z| ==> IsDigit(z[i], radix)
    requires rest == [] || !IsDigit(rest[0], radix)
    ensures LeadingDigits(z + rest, radix) == |z|
  {
    if z != [] {
      assert (z + rest)[1..] == z[1..] + rest;
      LeadingDigitsStopAtEnd(z[1..], rest, radix);
    } else {
      assert z + rest == rest;
    }
  }

  /**
    Round trip: `parseInt` reads back every integer the decimal printer
    writes, whatever non-numeral text follows it ("12abc" gives 12, "-5" gives -5).
  */
  lemma ParseIntOfShowInt(n: int, rest: string)
    requires EndsNumeral(n, rest)
    ensures ParseInt(ShowInt(n) + rest) == Some(n)
  {
    if n < 0 {
      ParseIntOfShowNegative(n, rest);
    } else {
      ParseIntOfShowNonNegative(n, rest);
    }
  }

  lemma ParseIntOfShowNegative(n: int, rest: string)
    requires n < 0 && EndsNumeral(n, rest)
    ensures ParseInt(ShowInt(n) + rest) == Some(n)
  {
    ParseUnsignedOfShowNat(-n, rest);
    ParseIntOfMinus(n, rest);
  }

  /** A negative numeral is a '-' followed by the magnitude's numeral. */
  lemma NegativeNumeralSplits(n: int, rest: string)
    requires n < 0
    ensures var x := ShowInt(n) + rest;
      x != [] && x[0] == '-' && x[1..] == ShowNat(-n) + rest
  {
    assert ShowInt(n) == "-" + ShowNat(-n);
  }

  lemma ParseIntOfShowNonNegative(n: int, rest: string)
    requires n >= 0 && EndsNumeral(n, rest)
    ensures ParseInt(ShowInt(n) + rest) == Some(n)
  {
    var x := ShowNat(n) + rest;
    ParseUnsignedOfShowNat(n, rest);
    var d := ShowNat(n);
    assert '0' <= d[0] <= '9';
    assert x[0] == d[0];
    ParseSignedOfDigit(x, n);
    TrimStartKeepsNonWhiteSpace(x);
  }

  /** A '-' in front of a magnitude negates it. */
  lemma ParseIntOfMinus(n: int, rest: string)
    requires n < 0 && ParseUnsigned(ShowNat(-n) + rest) == Some(-n)
    ensures ParseInt(ShowInt(n) + rest) == Some(n)
  {
    NegativeNumeralSplits(n, rest);
    assert '-' !in StrWhiteSpace;
    TrimStartKeepsNonWhiteSpace(ShowInt(n) + rest);
  }

  lemma ParseSignedOfDigit(u: string, m: nat)
    requires u != [] && '0' <= u[0] <= '9'
    requires ParseUnsigned(u) == Some(m)
    ensures ParseSigned(u) == Some(m)
  {
  }

  lemma TrimStartKeepsNonWhiteSpace(x: string)
    requires x == [] || !IsStrWhiteSpace(x[0])
    ensures TrimStart(x) == x
  {
  }

  lemma ParseUnsignedOfShowNat(m: nat, rest: string)
    requires EndsNumeral(m, rest)
    ensures ParseUnsigned(ShowNat(m) + rest) == Some(m)
  {
    var digits := ShowNat(m);
    var unsigned := digits + rest;
    if |digits| >= 2 {
      assert unsigned[1] == digits[1];
    } else if |unsigned| >= 2 {
      assert unsigned[1] == rest[0];
    }
    assert !HasHexPrefix(unsigned);
    LeadingDigitsStopAtEnd(digits, rest, 10);
    assert unsigned[..|digits|] == digits;
    DigitsValueOfShowNat(m);
  }

  /** Leading white space (spaces, tabs, line breaks, no-break spaces) is skipped. */
  lemma ParseIntSkipsLeadingWhiteSpace(ws: string, s: string)
    requires IsBlank(ws)
    ensures ParseInt(ws + s) == ParseInt(s)
  {
    TrimStartSkipsBlankPrefix(ws, s);
  }

  /** Text that starts with neither white space, a sign nor a decimal digit is NaN. */
  lemma ParseIntWithoutDigitsIsNaN(s: string)
    requires s == [] || (!IsStrWhiteSpace(s[0]) && s[0] != '-' && s[0] != '+' && !IsDigit(s[0], 10))
    ensures ParseInt(s) == None
  {
    TrimStartKeepsNonWhiteSpace(s);
    assert ParseSigned(s) == ParseUnsigned(s);
    assert !HasHexPrefix(s);
    assert LeadingDigits(s, 10) == 0;
  }

  /** "12abc" reads as 12: only the numeric prefix counts. */
  lemma ParseIntOfNumericPrefix()
    ensures ParseInt("12abc") == Some(12)
  {
    TrimStartKeepsNonWhiteSpace("12abc");
    assert ParseSigned("12abc") == ParseUnsigned("12abc");
    TwelveDigitsOf("12abc");
  }

  /** The magnitude step on "12abc". */
  lemma TwelveDigitsOf(s: string)
    requires s == "12abc"
    ensures ParseUnsigned(s) == Some(12)
  {
    assert !HasHexPrefix(s);
    LeadingDigitsOfTwelve(s);
    assert s[..2] == "12";
    assert DigitsValue("12", 10) == 12;
  }

  /** The digit run of "12abc" stops at the letter. */
  lemma LeadingDigitsOfTwelve(s: string)
    requires s == "12abc"
    ensures LeadingDigits(s, 10) == 2
  {
    assert !IsDigit(s[2], 10);
    assert LeadingDigits(s[2..], 10) == 0;
    assert s[1..][1..] == s[2..];
  }

  /** "3.9" reads as 3: the decimal point ends the digits. */
  lemma ParseIntOfDecimal()
    ensures ParseInt("3.9") == Some(3)
  {
    assert ShowInt(3) == "3";
    ParseIntOfShowInt(3, ".9");
    assert "3" + ".9" == "3.9";
  }

  /** "abc" and "" are NaN. */
  lemma ParseIntOfNonNumeric()
    ensures ParseInt("abc") == None
    ensures ParseInt("") == None
  {
    var s := "abc";
    assert s[0] == 'a' && 'a' !in StrWhiteSpace && !IsDigit('a', 10);
    ParseIntWithoutDigitsIsNaN(s);
    ParseIntWithoutDigitsIsNaN("");
  }

  /** "0x1A" reads as 26: the hex prefix switches the radix to 16. */
  lemma ParseIntOfHexPrefix()
    ensures ParseInt("0x1A") == Some(26)
  {
    assert HasHexPrefix("0x1A");
    assert "0x1A"[2..] == "1A";
    assert DigitValue('1') == 1 && DigitValue('A') == 10;
    assert LeadingDigits("A", 16) == 1;
    assert LeadingDigits("1A", 16) == 2;
    assert "1A"[..2] == "1A" && "1A"[..1] == "1" && "1"[..0] == "";
    assert DigitsValue("1", 16) == 1;
    assert DigitsValue("1A", 16) == 26;
    assert ParseUnsigned("0x1A") == Some(26);
    ParseSignedOfDigit("0x1A", 26);
    TrimStartKeepsNonWhiteSpace("0x1A");
  }

  /** "0x" alone is NaN, although "0" is a digit: the prefix is stripped first. */
  lemma ParseIntOfBareHexPrefix()
    ensures ParseInt("0x") == None
  {
    assert HasHexPrefix("0x");
    assert "0x"[2..] == "";
    assert ParseUnsigned("0x") == None;
    TrimStartKeepsNonWhiteSpace("0x");
  }
}
