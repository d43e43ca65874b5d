/** Canonical decimal text, the form i32toa/u32toa/i64toa/u64toa write. */
module Decimal {
  import opened Json

  predicate IsDigit(c: byte) { '0' as int <= c <= '9' as int }

  function Digit(d: nat): byte
    requires d < 10
  {
    '0' as int + d
  }

  /** The decimal digits of n without leading zeros. */
  function Digits(n: nat): bytes {
    if n < 10 then [Digit(n)] else Digits(n / 10) + [Digit(n % 10)]
  }

  function IntText(n: int): bytes {
    if n < 0 then ['-' as int] + Digits(-n) else Digits(n)
  }

  /** The number a digit string denotes. */
  function ValueOf(ds: bytes): int {
    if ds == [] then 0 else 10 * ValueOf(ds[..|ds| - 1]) + (ds[|ds| - 1] - '0' as int)
  }

  lemma {:induction false} DigitsRoundTrip(n: nat)
    ensures ValueOf(Digits(n)) == n
    ensures Digits(n) != [] && forall i :: 0 <= i < |Digits(n)| ==> IsDigit(Digits(n)[i])
    ensures |Digits(n)| > 1 ==> Digits(n)[0] != '0' as int
    ensures n > 0 ==> Digits(n)[0] != '0' as int
  {
    if n < 10 {
      assert Digits(n)[..0] == [];
    } else {
      DigitsRoundTrip(n / 10);
      var ds := Digits(n);
      assert ds[..|ds| - 1] == Digits(n / 10);
    }
  }
}
