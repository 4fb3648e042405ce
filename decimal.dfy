/** The decimal text of an integer, as Python's f-string formatting of an `int`
    produces it: an optional minus sign followed by the digits, with no leading
    zero except for the number zero itself. */
module DecimalText {

  predicate IsDigit(c: char) {
    '0' <= c <= '9'
  }

  predicate AllDigits(s: string) {
    forall i :: 0 <= i < |s| ==> IsDigit(s[i])
  }

  function DigitChar(d: nat): (c: char)
    requires d < 10
    ensures IsDigit(c)
  {
    (d + '0' as int) as char
  }

  function DigitValue(c: char): (d: nat)
    requires IsDigit(c)
    ensures d < 10
  {
    c as int - '0' as int
  }

  /** The digits of a natural number, most significant first. */
  function Digits(n: nat): (s: string)
    ensures |s| >= 1 && AllDigits(s)
    ensures |s| > 1 ==> s[0] != '0'
    ensures s[0] == '0' ==> n == 0
    decreases n
  {
    if n < 10 then [DigitChar(n)] else Digits(n / 10) + [DigitChar(n % 10)]
  }

  /** Python's `str(n)` for an integer `n`. */
  function Decimal(n: int): (s: string)
    ensures WellFormed(s)
    ensures (s[0] == '-') <==> n < 0
  {
    if n < 0 then "-" + Digits(-n) else Digits(n)
  }

  /** The shape of a decimal integer literal: a sign, then at least one digit. */
  predicate WellFormed(s: string) {
    if |s| > 0 && s[0] == '-' then |s| > 1 && AllDigits(s[1..]) else |s| > 0 && AllDigits(s)
  }

  /** The value a string of digits denotes. */
  function FromDigits(s: string): nat
    requires AllDigits(s)
  {
    if s == [] then 0 else FromDigits(s[..|s| - 1]) * 10 + DigitValue(s[|s| - 1])
  }

  /** The value a well-formed decimal literal denotes (the inverse of `Decimal`). */
  function ParseDecimal(s: string): int
    requires WellFormed(s)
  {
    if s[0] == '-' then -(FromDigits(s[1..]) as int) else FromDigits(s)
  }

  lemma {:induction false} DigitsRoundTrip(n: nat)
    ensures FromDigits(Digits(n)) == n
    decreases n
  {
    var s := Digits(n);
    if n >= 10 {
      DigitsRoundTrip(n / 10);
      assert s[..|s| - 1] == Digits(n / 10);
    }
  }

  /** Reading back the decimal text of `n` gives `n`. */
  lemma DecimalRoundTrip(n: int)
    ensures ParseDecimal(Decimal(n)) == n
  {
    if n < 0 {
      assert Decimal(n)[1..] == Digits(-n);
      DigitsRoundTrip(-n);
    } else {
      DigitsRoundTrip(n);
    }
  }

  /** Distinct integers have distinct decimal texts. */
  lemma DecimalInjective(a: int, b: int)
    ensures Decimal(a) == Decimal(b) <==> a == b
  {
    DecimalRoundTrip(a);
    DecimalRoundTrip(b);
  }
}
