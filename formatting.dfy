/** How the calculator prints money. An amount is floored to whole dollars
    and printed with a leading "$" in the en-US grouping of
    Number.prototype.toLocaleString (a "-" for a negative amount, then the
    digits in groups of three separated by commas). The job value prints
    "$50,000+" at the top of its range.
 */
module Formatting {
  import Calculation

  /** The label shown for a job value at or above the top of the range. */
  const TopJobValueLabel: string := "$50,000+"

  function DigitChar(d: int): (c: char)
    requires 0 <= d < 10
    ensures '0' <= c <= '9'
  {
    (48 + d) as char
  }

  predicate IsDigit(c: char) {
    '0' <= c <= '9'
  }

  /** Decimal digits of n without leading zeros ("0" for zero). */
  function Digits(n: nat): string
    decreases n
  {
    if n < 10 then [DigitChar(n)] else Digits(n / 10) + [DigitChar(n % 10)]
  }

  /** Exactly three digits, with leading zeros: one group after a comma. */
  function Pad3(n: nat): string
    requires n < 1000
  {
    [DigitChar(n / 100), DigitChar(n / 10 % 10), DigitChar(n % 10)]
  }

  /** n with its digits in groups of three, separated by commas. */
  function Grouped(n: nat): string
    decreases n
  {
    if n < 1000 then Digits(n) else Grouped(n / 1000) + "," + Pad3(n % 1000)
  }

  /** The en-US rendering of an integer by toLocaleString: a minus sign
      exactly when the integer is negative, then only digits and commas. */
  function LocaleString(n: int): (s: string)
    ensures |s| > 0 && (s[0] == '-' <==> n < 0)
    ensures forall i :: 0 < i < |s| ==> IsDigit(s[i]) || s[i] == ','
  {
    if n < 0 then (GroupedChars(-n); "-" + Grouped(-n))
    else (GroupedChars(n); Grouped(n))
  }

  /** Reading back a grouped numeral: digits accumulate, commas are skipped. */
  function Value(s: string): int
    decreases |s|
  {
    if s == [] then 0
    else if s[|s| - 1] == ',' then Value(s[..|s| - 1])
    else Value(s[..|s| - 1]) * 10 + (s[|s| - 1] as int - 48)
  }

  /** Reading back a rendered amount, sign included. */
  function ReadAmount(s: string): int {
    if |s| > 0 && s[0] == '-' then -Value(s[1..]) else Value(s)
  }

  lemma ValueAppendDigit(s: string, d: int)
    requires 0 <= d < 10
    ensures Value(s + [DigitChar(d)]) == Value(s) * 10 + d
  {
    assert (s + [DigitChar(d)])[..|s|] == s;
  }

  lemma ValueAppendComma(s: string)
    ensures Value(s + [',']) == Value(s)
  {
    assert (s + [','])[..|s|] == s;
  }

  lemma {:induction false} ValueOfDigits(n: nat)
    ensures Value(Digits(n)) == n
    decreases n
  {
    if n < 10 {
      ValueAppendDigit([], n);
      assert [] + [DigitChar(n)] == Digits(n);
    } else {
      ValueOfDigits(n / 10);
      ValueAppendDigit(Digits(n / 10), n % 10);
    }
  }

  lemma ValueOfGroup(s: string, k: nat)
    requires k < 1000
    ensures Value(s + "," + Pad3(k)) == Value(s) * 1000 + k
  {
    var c0, c1, c2 := DigitChar(k / 100), DigitChar(k / 10 % 10), DigitChar(k % 10);
    assert s + "," + Pad3(k) == s + [','] + [c0] + [c1] + [c2];
    ValueAppendComma(s);
    ValueAppendDigit(s + [','], k / 100);
    ValueAppendDigit(s + [','] + [c0], k / 10 % 10);
    ValueAppendDigit(s + [','] + [c0] + [c1], k % 10);
  }

  /** The grouped numeral reads back as the number it renders. */
  lemma {:induction false} ValueOfGrouped(n: nat)
    ensures Value(Grouped(n)) == n
    decreases n
  {
    if n < 1000 {
      ValueOfDigits(n);
    } else {
      ValueOfGrouped(n / 1000);
      ValueOfGroup(Grouped(n / 1000), n % 1000);
    }
  }

  /** A rendered amount holds only digits and commas after its sign. */
  lemma {:induction false} GroupedChars(n: nat)
    ensures |Grouped(n)| > 0 && IsDigit(Grouped(n)[0])
    ensures forall i :: 0 <= i < |Grouped(n)| ==> IsDigit(Grouped(n)[i]) || Grouped(n)[i] == ','
    decreases n
  {
    if n < 1000 {
      DigitsChars(n);
    } else {
      GroupedChars(n / 1000);
    }
  }

  lemma {:induction false} DigitsChars(n: nat)
    ensures |Digits(n)| > 0
    ensures forall i :: 0 <= i < |Digits(n)| ==> IsDigit(Digits(n)[i])
    decreases n
  {
    if n >= 10 {
      DigitsChars(n / 10);
    }
  }

  /** The en-US rendering reads back as the integer rendered, and never
      holds a '+'. */
  lemma LocaleStringFaithful(n: int)
    ensures ReadAmount(LocaleString(n)) == n
    ensures '+' !in LocaleString(n)
  {
    if n < 0 {
      ValueOfGrouped(-n);
      GroupedChars(-n);
      assert ("-" + Grouped(-n))[1..] == Grouped(-n);
    } else {
      ValueOfGrouped(n);
      GroupedChars(n);
    }
  }

  /** The currency rendering: a "$" followed by the whole-dollar part of
      the amount, fractions dropped (floor, also for negative amounts). The
      text after the "$" reads back as that whole-dollar figure and holds
      no '+'. */
  function FormatCurrency(val: real): (s: string)
    ensures |s| > 0 && s[0] == '$'
    ensures ReadAmount(s[1..]) == val.Floor
    ensures '+' !in s
  {
    LocaleStringFaithful(val.Floor);
    assert ("$" + LocaleString(val.Floor))[1..] == LocaleString(val.Floor);
    "$" + LocaleString(val.Floor)
  }

  /** A fractional part never changes what is shown. */
  lemma FormatCurrencyDropsFraction(n: int, frac: real)
    requires 0.0 <= frac < 1.0
    ensures FormatCurrency(n as real + frac) == FormatCurrency(n as real)
  {
    assert (n as real + frac).Floor == n;
  }

  /** The job value label: the open-ended top label exactly at or above
      50000, the plain currency rendering below it. */
  function FormatJobValue(value: int): (s: string)
    ensures s == TopJobValueLabel <==> value >= Calculation.MaxJobValue
    ensures value < Calculation.MaxJobValue ==> s == FormatCurrency(value as real)
  {
    if value >= 50000 then TopJobValueLabel else FormatCurrency(value as real)
  }

  /** The top label is the rendering of the top value with a '+' added. */
  lemma TopLabelIsMaxPlus()
    ensures TopJobValueLabel == FormatCurrency(Calculation.MaxJobValue as real) + "+"
  {
    assert Pad3(0) == "000";
    assert Digits(50) == "50";
    assert Grouped(50000) == "50,000";
  }
}
