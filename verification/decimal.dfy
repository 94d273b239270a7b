/** Base-10 text of integers: what `fmt.Sprintf("%d", n)` prints, and the
    reading back that shows nothing is lost in printing. */
module Decimal {

  predicate IsDigit(c: char)
  {
    '0' <= c <= '9'
  }

  /** A non-empty run of digits. */
  predicate IsDigits(s: string)
  {
    |s| >= 1 && forall i :: 0 <= i < |s| ==> IsDigit(s[i])
  }

  /** Digits, optionally preceded by a minus sign. */
  predicate IsDecimal(s: string)
  {
    IsDigits(s) || (|s| >= 2 && s[0] == '-' && IsDigits(s[1..]))
  }

  /** The text `%d` prints: no leading zero unless the number is 0, and no
      minus sign in front of a zero digit, so no "-0". */
  predicate IsCanonical(s: string)
  {
    && IsDecimal(s)
    && (s[0] == '0' ==> s == "0")
    && (s[0] == '-' ==> s[1] != '0')
  }

  function DigitChar(d: nat): (c: char)
    requires d < 10
    ensures IsDigit(c)
  {
    ('0' as int + d) as char
  }

  function DigitValue(c: char): (d: nat)
    requires IsDigit(c)
    ensures d < 10
    ensures DigitChar(d) == c
  {
    c as int - '0' as int
  }

  /** The digits of `n`, most significant first, without leading zeros. */
  function Digits(n: nat): (s: string)
    ensures IsDigits(s)
    ensures s[0] == '0' ==> n == 0 && s == "0"
  {
    if n < 10 then [DigitChar(n)]
    else Digits(n / 10) + [DigitChar(n % 10)]
  }

  /** `%d`: a minus sign for negative numbers, then the digits of the
      magnitude. */
  function FormatInt(n: int): (s: string)
    ensures IsCanonical(s)
    ensures s[0] == '-' <==> n < 0
  {
    if n < 0 then "-" + Digits(-n) else Digits(n)
  }

  /** The value of a run of digits. */
  function ParseDigits(s: string): nat
    requires forall i :: 0 <= i < |s| ==> IsDigit(s[i])
  {
    if |s| == 0 then 0
    else ParseDigits(s[..|s| - 1]) * 10 + DigitValue(s[|s| - 1])
  }

  /** The value of a decimal text. */
  function ParseInt(s: string): int
    requires IsDecimal(s)
  {
    if s[0] == '-' then -(ParseDigits(s[1..]) as int) else ParseDigits(s)
  }

  lemma {:induction false} DigitsRoundTrip(n: nat)
    ensures ParseDigits(Digits(n)) == n
  {
    if n >= 10 {
      DigitsRoundTrip(n / 10);
      var s := Digits(n);
      assert s[..|s| - 1] == Digits(n / 10);
    }
  }

  /** Reading back what `%d` printed gives the number printed. */
  lemma FormatIntRoundTrip(n: int)
    ensures ParseInt(FormatInt(n)) == n
  {
    if n < 0 {
      DigitsRoundTrip(-n);
      assert FormatInt(n)[1..] == Digits(-n);
    } else {
      DigitsRoundTrip(n);
    }
  }

  /** Different numbers print differently. */
  lemma FormatIntInjective(a: int, b: int)
    requires FormatInt(a) == FormatInt(b)
    ensures a == b
  {
    FormatIntRoundTrip(a);
    FormatIntRoundTrip(b);
  }

  /** A run of digits with a non-zero first digit has a positive value. */
  lemma {:induction false} ParseDigitsPositive(s: string)
    requires IsDigits(s) && s[0] != '0'
    ensures ParseDigits(s) >= 1
  {
    if |s| > 1 {
      ParseDigitsPositive(s[..|s| - 1]);
    }
  }

  /** Printing the value of a run of digits without leading zeros gives the
      run back. */
  lemma {:induction false} ParseDigitsRoundTrip(s: string)
    requires IsDigits(s) && (s[0] == '0' ==> s == "0")
    ensures Digits(ParseDigits(s)) == s
  {
    var init, c := s[..|s| - 1], s[|s| - 1];
    var d := DigitValue(c);
    if |s| == 1 {
      assert ParseDigits(s) == d;
    } else {
      ParseDigitsPositive(init);
      ParseDigitsRoundTrip(init);
      var n := ParseDigits(s);
      assert n == ParseDigits(init) * 10 + d;
      assert n / 10 == ParseDigits(init) && n % 10 == d;
      assert s == init + [c];
    }
  }

  /** There is one canonical text per number, and `%d` prints it: any
      canonical text that reads back as `n` is `FormatInt(n)`. */
  lemma CanonicalTextIsUnique(s: string, n: int)
    requires IsCanonical(s) && ParseInt(s) == n
    ensures s == FormatInt(n)
  {
    if s[0] == '-' {
      var t := s[1..];
      ParseDigitsPositive(t);
      ParseDigitsRoundTrip(t);
      assert s == "-" + t;
    } else {
      ParseDigitsRoundTrip(s);
    }
  }
}
