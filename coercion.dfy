/** JavaScript's `Number(...)` applied to the `precio` and `stock` fields at the
    write boundary. A field arrives either as a number already or as the text
    of a numeric form input; only integers written in decimal are modelled. */
module Coercion {

  /** A numeric field as it reaches the store. */
  datatype NumInput = Num(n: int) | Text(s: string)

  predicate IsDigit(c: char) {
    '0' <= c <= '9'
  }

  predicate AllDigits(s: string) {
    forall i :: 0 <= i < |s| ==> IsDigit(s[i])
  }

  /** A decimal integer numeral: one or more digits, optionally after a '-'. */
  predicate IsNumeral(s: string) {
    (|s| > 0 && AllDigits(s)) || (|s| > 1 && s[0] == '-' && AllDigits(s[1..]))
  }

  /** The inputs whose conversion is a (non-NaN) integer in this model. */
  predicate Coercible(x: NumInput) {
    x.Num? || IsNumeral(x.s)
  }

  /** The value of a string of decimal digits, most significant first. */
  function DigitsValue(s: string): nat
    requires AllDigits(s)
  {
    if s == [] then 0 else 10 * DigitsValue(s[..|s| - 1]) + (s[|s| - 1] as int - '0' as int)
  }

  /** `Number(x)`: a number is kept, a numeral is read in base ten. */
  function ToNumber(x: NumInput): (r: int)
    requires Coercible(x)
    ensures x.Num? ==> r == x.n
    ensures x.Text? && x.s[0] != '-' ==> r >= 0
    ensures x.Text? && x.s[0] == '-' ==> r <= 0
  {
    match x
    case Num(n) => n
    case Text(s) => if s[0] == '-' then 0 - DigitsValue(s[1..]) as int else DigitsValue(s)
  }

  function DigitChar(d: nat): char
    requires d < 10
  {
    ('0' as int + d) as char
  }

  /** The shortest decimal digits of `n`, as a numeric input field shows it. */
  function Digits(n: nat): (s: string)
    ensures |s| > 0 && AllDigits(s)
  {
    if n < 10 then [DigitChar(n)] else Digits(n / 10) + [DigitChar(n % 10)]
  }

  /** The decimal text of `n`: `String(n)` for an integer. */
  function Decimal(n: int): (s: string)
    ensures IsNumeral(s)
  {
    if n < 0 then "-" + Digits(-n) else Digits(n)
  }

  lemma {:induction false} DigitsValueOfDigits(n: nat)
    ensures DigitsValue(Digits(n)) == n
  {
    if n >= 10 {
      DigitsValueOfDigits(n / 10);
      var s := Digits(n);
      assert s[..|s| - 1] == Digits(n / 10);
    }
  }

  /** Converting the text of a number gives the number back: `Number` stores the
      same value whether the field arrived as a number or as its decimal text. */
  lemma {:induction false} ToNumberOfDecimal(n: int)
    ensures Coercible(Text(Decimal(n)))
    ensures ToNumber(Text(Decimal(n))) == n == ToNumber(Num(n))
  {
    if n < 0 {
      DigitsValueOfDigits(-n);
      assert Decimal(n)[1..] == Digits(-n);
    } else {
      DigitsValueOfDigits(n);
      assert Digits(n)[0] != '-';
    }
  }
}
