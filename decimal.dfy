/** Decimal renderings of integers as JavaScript writes them (`n.toString()` and template
    literals for integral numbers, `padStart` with `"0"`), with the parsers that read
    them back. */
module Decimal {
  import opened Options

  predicate IsDigit(c: char) { '0' <= c <= '9' }

  predicate IsDigits(s: string) {
    forall i :: 0 <= i < |s| ==> IsDigit(s[i])
  }

  function DigitChar(n: nat): (c: char)
    requires n < 10
    ensures IsDigit(c)
  {
    ['0', '1', '2', '3', '4', '5', '6', '7', '8', '9'][n]
  }

  function DigitValue(c: char): nat
    requires IsDigit(c)
  {
    c as int - '0' as int
  }

  lemma DigitRoundTrip(n: nat)
    requires n < 10
    ensures DigitValue(DigitChar(n)) == n
  {
  }

  /** The shortest decimal form of `n`: no leading zero unless `n` is 0. */
  function NatToString(n: nat): (s: string)
    ensures |s| >= 1 && IsDigits(s)
    ensures s[0] != '0' || n == 0
    ensures n < 10 <==> |s| == 1
  {
    if n < 10 then [DigitChar(n)] else NatToString(n / 10) + [DigitChar(n % 10)]
  }

  /** The value of a string of digits, most significant first. */
  function DigitsValue(s: string): nat
    requires IsDigits(s)
  {
    if s == [] then 0 else DigitsValue(s[..|s| - 1]) * 10 + DigitValue(s[|s| - 1])
  }

  lemma {:induction false} NatToStringRoundTrip(n: nat)
    ensures DigitsValue(NatToString(n)) == n
  {
    if n >= 10 {
      var s := NatToString(n);
      assert s[..|s| - 1] == NatToString(n / 10);
      NatToStringRoundTrip(n / 10);
      DigitRoundTrip(n % 10);
    } else {
      DigitRoundTrip(n);
    }
  }

  /** A leading zero does not change the value of a digit string. */
  lemma {:induction false} LeadingZero(s: string)
    requires IsDigits(s)
    ensures IsDigits(['0'] + s) && DigitsValue(['0'] + s) == DigitsValue(s)
  {
    if s != [] {
      var t := ['0'] + s;
      assert t[..|t| - 1] == ['0'] + s[..|s| - 1];
      LeadingZero(s[..|s| - 1]);
    }
  }

  /** `n.toString()` (or `${n}`) for an integral `n`. */
  function IntToString(i: int): (s: string)
    ensures |s| >= 1
    ensures i >= 0 ==> IsDigits(s)
    ensures i < 0 ==> s[0] == '-' && IsDigits(s[1..])
  {
    if i < 0 then "-" + NatToString(-i) else NatToString(i)
  }

  /** Reads back what `IntToString` writes: an optional minus sign, then at least one digit. */
  function ParseInt(s: string): (r: Option<int>)
  {
    if s != [] && s[0] == '-' then
      if |s| > 1 && IsDigits(s[1..]) then Some(0 - DigitsValue(s[1..])) else None
    else if s != [] && IsDigits(s) then Some(DigitsValue(s))
    else None
  }

  lemma IntToStringRoundTrip(i: int)
    ensures ParseInt(IntToString(i)) == Some(i)
  {
    if i < 0 {
      var n: nat := -i;
      assert IntToString(i) == "-" + NatToString(n);
      ParseNegative(NatToString(n));
      NatToStringRoundTrip(n);
    } else {
      var n: nat := i;
      assert IntToString(i) == NatToString(n);
      ParseDigits(NatToString(n));
      NatToStringRoundTrip(n);
    }
  }

  lemma ParseDigits(s: string)
    requires s != [] && IsDigits(s)
    ensures ParseInt(s) == Some(DigitsValue(s))
  {
    assert IsDigit(s[0]);
  }

  lemma ParseNegative(digits: string)
    requires digits != [] && IsDigits(digits)
    ensures ParseInt("-" + digits) == Some(0 - DigitsValue(digits))
  {
    var s := "-" + digits;
    assert s[0] == '-' && s[1..] == digits;
  }

  /** `s.padStart(width, c)`: `c` repeated in front of `s` up to `width` characters; a
      string already that long is left alone. */
  function PadStart(s: string, width: nat, c: char): (r: string)
    ensures |r| == if |s| >= width then |s| else width
    ensures r[|r| - |s|..] == s
    ensures forall i :: 0 <= i < |r| - |s| ==> r[i] == c
  {
    if |s| >= width then s else seq(width - |s|, _ => c) + s
  }

  /** `n.toString().padStart(2, "0")`, the two-digit fields of dates and times. */
  function Pad2(n: int): string
  {
    PadStart(IntToString(n), 2, '0')
  }

  lemma Pad2Digits(n: int)
    requires 0 <= n < 100
    ensures |Pad2(n)| == 2 && IsDigits(Pad2(n)) && DigitsValue(Pad2(n)) == n
  {
    NatToStringRoundTrip(n);
    if n < 10 {
      assert Pad2(n) == ['0'] + NatToString(n);
      LeadingZero(NatToString(n));
    } else {
      assert n / 10 < 10;
      assert |NatToString(n)| == 2;
    }
  }

  /** The whole of `s` when it holds no `sep`, otherwise the part before the first `sep`:
      element 0 of `s.split(sep)`. */
  function FirstField(s: string, sep: char): (r: string)
    ensures |r| <= |s| && r == s[..|r|]
    ensures sep !in r
    ensures |r| < |s| ==> s[|r|] == sep
  {
    if s == [] || s[0] == sep then [] else [s[0]] + FirstField(s[1..], sep)
  }

  lemma {:induction false} FirstFieldOf(a: string, sep: char, b: string)
    requires sep !in a
    ensures FirstField(a + [sep] + b, sep) == a
  {
    if a != [] {
      assert (a + [sep] + b)[1..] == a[1..] + [sep] + b;
      FirstFieldOf(a[1..], sep, b);
    }
  }

  /** `Number(s)` for the strings a date key's year field can be: the empty string is 0, a
      run of decimal digits is its value; `None` stands for `NaN`. Signs, white space and
      fractions never reach it and are not modelled. */
  function JsNumber(s: string): Option<int>
  {
    if s == [] then Some(0) else if IsDigits(s) then Some(DigitsValue(s)) else None
  }
}
