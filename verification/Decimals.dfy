/** Decimal numerals in ASCII digits. */
module Decimals {
  import opened Texts

  predicate IsDigit(c: Rune) { 0x30 <= c <= 0x39 }

  predicate AllDigits(t: Text) {
    t != [] ==> IsDigit(t[|t| - 1]) && AllDigits(t[..|t| - 1])
  }

  function Digit(d: nat): (c: Rune)
    requires d < 10
    ensures IsDigit(c)
  {
    0x30 + d as Rune
  }

  /** `str(n)` */
  function Decimal(n: nat): (t: Text)
    ensures t != [] && AllDigits(t)
  {
    if n < 10 then [Digit(n)] else Decimal(n / 10) + [Digit(n % 10)]
  }

  /** The value of a numeral. */
  function Value(t: Text): nat
    requires AllDigits(t)
  {
    if t == [] then 0 else 10 * Value(t[..|t| - 1]) + (t[|t| - 1] - 0x30) as nat
  }

  /** `int(text)` where `text.isdigit()`; other text addresses nothing. */
  function ParseIndex(t: Text): Option<nat> {
    if t != [] && AllDigits(t) then Some(Value(t)) else None
  }

  lemma {:induction false} DecimalRoundTrip(n: nat)
    ensures ParseIndex(Decimal(n)) == Some(n)
  {
    var t := Decimal(n);
    if n >= 10 {
      DecimalRoundTrip(n / 10);
      assert t[..|t| - 1] == Decimal(n / 10);
    } else {
      assert t[..|t| - 1] == [] && Value([]) == 0;
      assert (Digit(n) - 0x30) as nat == n;
    }
  }

  lemma {:induction false} DecimalInjective(m: nat, n: nat)
    requires Decimal(m) == Decimal(n)
    ensures m == n
  {
    DecimalRoundTrip(m);
    DecimalRoundTrip(n);
  }
}
