/** Decimal numerals, as `format!` prints unsigned integers. */
module Decimal {
  import opened Bytes

  predicate IsDigit(b: byte) {
    0x30 <= b <= 0x39
  }

  function Numeral(n: nat): (r: Str)
    ensures r != [] && forall i | 0 <= i < |r| :: IsDigit(r[i])
  {
    if n < 10 then [0x30 + n] else Numeral(n / 10) + [0x30 + n % 10]
  }

  function Value(s: Str): nat {
    if s == [] then 0
    else 10 * Value(s[..|s| - 1]) + (if s[|s| - 1] >= 0x30 then s[|s| - 1] - 0x30 else 0)
  }

  lemma {:induction false} ValueOfNumeral(n: nat)
    ensures Value(Numeral(n)) == n
  {
    if n >= 10 {
      ValueOfNumeral(n / 10);
      assert Numeral(n)[..|Numeral(n)| - 1] == Numeral(n / 10);
    } else {
      assert Numeral(n)[..0] == [];
    }
  }

  lemma NumeralIsInjective(m: nat, n: nat)
    requires Numeral(m) == Numeral(n)
    ensures m == n
  {
    ValueOfNumeral(m);
    ValueOfNumeral(n);
  }
}
