/** Numbers in decimal and in lower-case hexadecimal, without leading zeros. */
module Numerals {
  import opened Wrappers

  type Base = b: nat | b == 10 || b == 16 witness 10

  const DIGITS := "0123456789abcdef"

  predicate IsDigit(c: char) {
    '0' <= c <= '9' || 'a' <= c <= 'f'
  }

  function DigitValue(c: char): int {
    if '0' <= c <= '9' then c as int - '0' as int else c as int - 'a' as int + 10
  }

  /** The value of a hexadecimal digit of either case. */
  function HexValue(c: char): (r: Option<nat>)
    ensures r.Some? ==> r.value < 16
  {
    if IsDigit(c) then Some(DigitValue(c))
    else if 'A' <= c <= 'F' then Some(c as int - 'A' as int + 10)
    else None
  }

  lemma DigitsAreDigits(n: nat)
    requires n < 16
    ensures HexValue(DIGITS[n]) == Some(n)
    ensures IsDigit(DIGITS[n]) && DigitValue(DIGITS[n]) == n && (n < 10 ==> '0' <= DIGITS[n] <= '9')
  {
  }

  function Numeral(n: nat, base: Base): (r: string)
    ensures r != "" && forall c <- r :: IsDigit(c) && (base == 10 ==> '0' <= c <= '9')
  {
    DigitsAreDigits(n % base);
    (if n < base then "" else Numeral(n / base, base)) + [DIGITS[n % base]]
  }

  function Value(digits: string, base: Base): int {
    if digits == "" then 0
    else base * Value(digits[..|digits| - 1], base) + DigitValue(digits[|digits| - 1])
  }

  lemma {:induction false} NumeralValue(n: nat, base: Base)
    ensures Value(Numeral(n, base), base) == n
  {
    var r := Numeral(n, base);
    DigitsAreDigits(n % base);
    assert r[..|r| - 1] == if n < base then "" else Numeral(n / base, base);
    if n >= base {
      NumeralValue(n / base, base);
    }
  }

  function Power(base: Base, k: nat): nat {
    if k == 0 then 1 else base * Power(base, k - 1)
  }

  lemma {:induction false} NumeralLength(n: nat, base: Base, k: nat)
    requires 1 <= k && n < Power(base, k)
    ensures |Numeral(n, base)| <= k
    decreases k
  {
    if n >= base {
      NumeralLength(n / base, base, k - 1);
    }
  }

  lemma DigitsContinue(p: string, x: string, q: string, y: string)
    requires p + x == q + y && |q| < |p| && forall c <- p :: IsDigit(c)
    ensures y != "" && IsDigit(y[0])
  {
    assert |p + x| == |q + y|;
    assert (q + y)[|q|] == (p + x)[|q|] == p[|q|];
  }

  /** A number ends where the digits end, and no two numbers are written alike. */
  lemma NumeralIsDelimited(a: nat, x: string, b: nat, y: string, base: Base)
    requires Numeral(a, base) + x == Numeral(b, base) + y
    requires (x == "" || !IsDigit(x[0])) && (y == "" || !IsDigit(y[0]))
    ensures a == b && x == y
  {
    var p, q := Numeral(a, base), Numeral(b, base);
    if |p| < |q| {
      DigitsContinue(q, y, p, x);
    }
    if |q| < |p| {
      DigitsContinue(p, x, q, y);
    }
    var s := p + x;
    assert s[..|p|] == p && s[..|q|] == q && s[|p|..] == x && s[|q|..] == y;
    NumeralValue(a, base);
    NumeralValue(b, base);
  }
}
