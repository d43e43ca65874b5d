/** ParseNumber of rapidjson/reader.h: the number grammar, the integer kinds, and the 32-bit
    arithmetic on exponents. What a double evaluates to is not modelled: its event keeps the text. */
module Numbers {
  import opened Json
  import opened Streams
  import opened Decimal

  datatype Error = ValueInvalid | MissFraction | MissExponent | TooBig

  datatype Outcome = Number(next: nat, event: Event) | Failed(error: Error)

  const MINUS: byte := '-' as int
  const PLUS: byte := '+' as int
  const ZERO: byte := '0' as int
  const POINT: byte := '.' as int

  predicate IsMinusOrDigit(c: byte) { c == MINUS || IsDigit(c) }

  predicate DigitAt(s: bytes, p: nat) { p < |s| && IsDigit(s[p]) }

  function DigitOf(s: bytes, p: nat): (d: nat)
    requires DigitAt(s, p)
    ensures d < 10
  {
    s[p] - ZERO
  }

  /** The end of the longest run of digits from p. */
  function DigitEnd(s: bytes, p: nat): (q: nat)
    ensures p <= q && !DigitAt(s, q) && (forall i :: p <= i < q ==> DigitAt(s, i))
    ensures p <= |s| ==> q <= |s|
    decreases if p <= |s| then |s| - p else 0
  {
    if DigitAt(s, p) then DigitEnd(s, p + 1) else p
  }

  predicate AllDigits(s: bytes, a: nat, b: nat) { b <= |s| && forall i :: a <= i < b ==> DigitAt(s, i) }

  /** The number that the digits from a to b form. */
  function Val(s: bytes, a: nat, b: nat): nat
    requires AllDigits(s, a, b)
    decreases b
  {
    if b <= a then 0 else 10 * Val(s, a, b - 1) + DigitOf(s, b - 1)
  }

  lemma {:induction false} ValIsValueOf(s: bytes, a: nat, b: nat)
    requires a <= b && AllDigits(s, a, b)
    ensures Val(s, a, b) == ValueOf(s[a..b])
    decreases b
  {
    if a < b {
      ValIsValueOf(s, a, b - 1);
      assert s[a..b][..b - a - 1] == s[a..b - 1];
    }
  }

  lemma {:induction false} ValGrows(s: bytes, a: nat, b: nat, c: nat)
    requires b <= c && AllDigits(s, a, c)
    ensures Val(s, a, b) <= Val(s, a, c)
    decreases c
  {
    if b < c { ValGrows(s, a, b, c - 1); }
  }

  // ----- section 6 of RFC 8259 -----

  function IntStart(s: bytes, p: nat): nat { if At(s, p, 0) == MINUS then p + 1 else p }

  /** The end of the integer part from a: a zero, or digits that start with another digit. */
  function IntEnd(s: bytes, a: nat): Option<nat> {
    if At(s, a, 0) == ZERO then Some(a + 1)
    else if DigitAt(s, a) then Some(DigitEnd(s, a))
    else None
  }

  predicate HasFraction(s: bytes, b: nat) { At(s, b, 0) == POINT }

  function FractionEnd(s: bytes, b: nat): nat { if HasFraction(s, b) then DigitEnd(s, b + 1) else b }

  predicate HasExponent(s: bytes, c: nat) { At(s, c, 0) == 'e' as int || At(s, c, 0) == 'E' as int }

  /** Where the exponent's digits start. */
  function ExponentStart(s: bytes, c: nat): nat {
    if At(s, c + 1, 0) == PLUS || At(s, c + 1, 0) == MINUS then c + 2 else c + 1
  }

  // ----- integers -----

  /** The largest magnitude that the 32-bit and the 64-bit digit loop accept. */
  function Limit32(minus: bool): nat { if minus then 0x8000_0000 else 0xFFFF_FFFF }
  function Limit64(minus: bool): nat { if minus then 0x8000_0000_0000_0000 else 0xFFFF_FFFF_FFFF_FFFF }

  /** The event of an integer literal: the tightest kind that has the number, or a double. */
  function IntegerEvent(minus: bool, n: nat, literal: bytes): Event {
    var value: int := if minus then -(n as int) else n;
    if n <= Limit32(minus) then Integer(if minus then Int32 else Uint32, value)
    else if n <= Limit64(minus) then Integer(if minus then Int64 else Uint64, value)
    else Double(literal)
  }

  // ----- fractions and exponents -----

  const INT_MIN := -0x8000_0000
  const INT_MAX := 0x7FFF_FFFF

  predicate FitsInt(x: int) { INT_MIN <= x <= INT_MAX }

  /** Where a fraction loop stands. */
  datatype Fraction = Fraction(pos: nat, significand: nat, expFrac: int, significandDigit: int)

  /** The loop that collects the significand in 64 bits as long as it stays below 2^53. */
  function FastFraction(s: bytes, f: Fraction): Fraction
    decreases if f.pos <= |s| then |s| - f.pos else 0
  {
    if !DigitAt(s, f.pos) || f.significand > 0x1F_FFFF_FFFF_FFFF then f
    else
      var i64 := f.significand * 10 + DigitOf(s, f.pos);
      FastFraction(s, Fraction(f.pos + 1, i64, f.expFrac - 1, f.significandDigit + if i64 != 0 then 1 else 0))
  }

  /** The loop that goes on in floating point, of which only the test d > 0.0 is kept. */
  function SlowFraction(s: bytes, p: nat, positive: bool, expFrac: int, significandDigit: int): int
    decreases if p <= |s| then |s| - p else 0
  {
    if !DigitAt(s, p) then expFrac
    else if significandDigit < 17 then
      var positive' := positive || DigitOf(s, p) > 0;
      SlowFraction(s, p + 1, positive', expFrac - 1, significandDigit + if positive' then 1 else 0)
    else SlowFraction(s, p + 1, positive, expFrac, significandDigit)
  }

  /** The decimal shift the digits of the fraction from p cause. */
  function ExpFrac(s: bytes, p: nat, significand: nat, significandDigit: int): int {
    var f := FastFraction(s, Fraction(p, significand, 0, significandDigit));
    SlowFraction(s, f.pos, f.significand > 0, f.expFrac, f.significandDigit)
  }

  /** C++ division, which truncates. */
  function TruncatedDiv(a: int, b: int): int
    requires b > 0
  {
    if a < 0 then -(-a / b) else a / b
  }

  function MaxExp(expFrac: int, minus: bool): int {
    if minus then TruncatedDiv(expFrac + 2147483639, 10) else 308 - expFrac
  }

  /** The exponent loop has seen more than its bound; the first digit is not tested. */
  predicate Stopped(exp: int, maxExp: int, a: nat, b: nat) { b > a + 1 && exp > maxExp }

  /** What the exponent loop makes of the digits from a to b: it stops to accumulate (or fails)
      as soon as the bound is passed. */
  function Accumulated(s: bytes, a: nat, b: nat, maxExp: int): nat
    requires a < b && AllDigits(s, a, b)
    decreases b
  {
    if b == a + 1 then DigitOf(s, a)
    else
      var exp := Accumulated(s, a, b - 1, maxExp);
      if Stopped(exp, maxExp, a, b - 1) then exp else exp * 10 + DigitOf(s, b - 1)
  }

  /** No number computed on the way leaves the range of int: the bound, every accumulated
      exponent, and the sum exp + expFrac that scales the significand in the end. */
  predicate ExponentFits(s: bytes, a: nat, b: nat, expFrac: int, minus: bool)
    requires a < b && AllDigits(s, a, b)
  {
    var maxExp := MaxExp(expFrac, minus);
    && FitsInt(expFrac + (if minus then 2147483639 else 0)) && FitsInt(maxExp)
    && (forall k :: a < k <= b ==> FitsInt(Accumulated(s, a, k, maxExp)))
    && (var exp: int := Accumulated(s, a, b, maxExp);
        if minus then FitsInt(-exp + expFrac) else Stopped(exp, maxExp, a, b) || FitsInt(exp + expFrac))
  }

  /** The smallest shift with which no exponent overflows. */
  function SafeShift(minus: bool): int { if minus then -2147483549 else -214748055 }

  lemma {:induction false} AccumulatedBound(s: bytes, a: nat, b: nat, maxExp: int)
    requires a < b && AllDigits(s, a, b) && maxExp >= 9
    ensures Accumulated(s, a, b, maxExp) <= maxExp * 10 + 9
    ensures !Stopped(Accumulated(s, a, b, maxExp), maxExp, a, b) ==> Accumulated(s, a, b, maxExp) <= maxExp
    decreases b
  {
    if b > a + 1 { AccumulatedBound(s, a, b - 1, maxExp); }
  }

  lemma SafeExponents(s: bytes, a: nat, b: nat, expFrac: int, minus: bool)
    requires a < b && AllDigits(s, a, b) && SafeShift(minus) <= expFrac <= 0
    ensures ExponentFits(s, a, b, expFrac, minus)
  {
    var maxExp := MaxExp(expFrac, minus);
    forall k | a < k <= b
      ensures FitsInt(Accumulated(s, a, k, maxExp))
    {
      AccumulatedBound(s, a, k, maxExp);
    }
    AccumulatedBound(s, a, b, maxExp);
  }

  /** Two exponents with which the loops overflow when the shift is too small. */
  const NINES: bytes := [0x39, 0x39]
  const TWO_TO_31: nat := 2147483648

  lemma NegativeOverflow(s: bytes, a: nat, b: nat, expFrac: int)
    requires a < b <= |s| && s[a..b] == NINES && INT_MIN <= expFrac < SafeShift(true)
    ensures AllDigits(s, a, b) && !ExponentFits(s, a, b, expFrac, true)
  {
    assert s[a] == s[a..b][0] && s[a + 1] == s[a..b][1];
    var maxExp := MaxExp(expFrac, true);
    assert Accumulated(s, a, a + 1, maxExp) == 9;
    assert Accumulated(s, a, b, maxExp) == 99;
  }

  lemma {:induction false} AccumulatedIsVal(s: bytes, a: nat, b: nat, c: nat, maxExp: int)
    requires a < b <= c && AllDigits(s, a, c) && Val(s, a, c - 1) <= maxExp
    ensures Accumulated(s, a, b, maxExp) == Val(s, a, b)
    decreases b
  {
    if b > a + 1 {
      AccumulatedIsVal(s, a, b - 1, c, maxExp);
      ValGrows(s, a, b - 1, c - 1);
    } else {
      assert Val(s, a, a) == 0;
    }
  }

  lemma DigitsVal(s: bytes, a: nat, b: nat, n: nat)
    requires n >= 10 && a <= b <= |s| && s[a..b] == Digits(n)
    ensures b > a + 1 && AllDigits(s, a, b) && Val(s, a, b) == n && Val(s, a, b - 1) == n / 10
  {
    DigitsRoundTrip(n);
    DigitsRoundTrip(n / 10);
    forall i | a <= i < b
      ensures DigitAt(s, i)
    {
      assert s[i] == s[a..b][i - a];
    }
    ValIsValueOf(s, a, b);
    ValIsValueOf(s, a, b - 1);
    assert s[a..b - 1] == Digits(n)[..|Digits(n)| - 1] == Digits(n / 10);
  }

  lemma PositiveOverflow(s: bytes, a: nat, b: nat, expFrac: int)
    requires a <= b <= |s| && s[a..b] == Digits(TWO_TO_31) && INT_MIN <= expFrac < SafeShift(false)
    ensures a < b && AllDigits(s, a, b) && !ExponentFits(s, a, b, expFrac, false)
  {
    hide Digits;
    DigitsVal(s, a, b, TWO_TO_31);
    AccumulatedIsVal(s, a, b, b, MaxExp(expFrac, false));
  }

  /** Exponents of any length are safe exactly down to this shift of the fraction. */
  lemma ExponentsSafeExactly(expFrac: int, minus: bool)
    requires INT_MIN <= expFrac <= 0
    ensures (forall s: bytes, a: nat, b: nat :: a < b && AllDigits(s, a, b) ==> ExponentFits(s, a, b, expFrac, minus))
            <==> SafeShift(minus) <= expFrac
  {
    hide Digits, ExponentFits;
    if SafeShift(minus) <= expFrac {
      forall s: bytes, a: nat, b: nat | a < b && AllDigits(s, a, b)
        ensures ExponentFits(s, a, b, expFrac, minus)
      {
        SafeExponents(s, a, b, expFrac, minus);
      }
    } else if minus {
      NegativeOverflow(NINES, 0, 2, expFrac);
    } else {
      var w := Digits(TWO_TO_31);
      assert w[0..|w|] == w;
      PositiveOverflow(w, 0, |w|, expFrac);
    }
  }

  lemma {:induction false} FastBound(s: bytes, f: Fraction)
    requires f.pos <= |s|
    ensures var r := FastFraction(s, f);
            && f.pos <= r.pos <= DigitEnd(s, f.pos) && r.expFrac == f.expFrac - (r.pos - f.pos)
            && DigitEnd(s, r.pos) == DigitEnd(s, f.pos)
    decreases |s| - f.pos
  {
    if DigitAt(s, f.pos) && f.significand <= 0x1F_FFFF_FFFF_FFFF {
      var i64 := f.significand * 10 + DigitOf(s, f.pos);
      FastBound(s, Fraction(f.pos + 1, i64, f.expFrac - 1, f.significandDigit + if i64 != 0 then 1 else 0));
    }
  }

  lemma {:induction false} SlowBound(s: bytes, p: nat, positive: bool, expFrac: int, significandDigit: int)
    requires p <= |s|
    ensures expFrac - (DigitEnd(s, p) - p) <= SlowFraction(s, p, positive, expFrac, significandDigit) <= expFrac
    decreases |s| - p
  {
    if DigitAt(s, p) {
      var positive' := positive || DigitOf(s, p) > 0;
      if significandDigit < 17 {
        SlowBound(s, p + 1, positive', expFrac - 1, significandDigit + if positive' then 1 else 0);
      } else {
        SlowBound(s, p + 1, positive, expFrac, significandDigit);
      }
    }
  }

  /** A fraction shifts by at most its length, so fractions of up to 214748055 digits are safe with
      every exponent, and of up to 2147483549 with every negative one. */
  lemma ShortFractionsAreSafe(s: bytes, p: nat, significand: nat, significandDigit: int, a: nat, b: nat, minus: bool)
    requires p <= |s| && DigitEnd(s, p) - p <= -SafeShift(minus)
    requires a < b && AllDigits(s, a, b)
    ensures ExponentFits(s, a, b, ExpFrac(s, p, significand, significandDigit), minus)
  {
    var f := Fraction(p, significand, 0, significandDigit);
    FastBound(s, f);
    var r := FastFraction(s, f);
    SlowBound(s, r.pos, r.significand > 0, r.expFrac, r.significandDigit);
    SafeExponents(s, a, b, ExpFrac(s, p, significand, significandDigit), minus);
  }

  /** The number n continued by the digits from a to b. */
  function Continued(n: nat, s: bytes, a: nat, b: nat): nat
    requires AllDigits(s, a, b)
    decreases b
  {
    if b <= a then n else 10 * Continued(n, s, a, b - 1) + DigitOf(s, b - 1)
  }

  lemma {:induction false} ContinuedOnce(n: nat, s: bytes, a: nat, b: nat)
    requires a < b && AllDigits(s, a, b)
    ensures Continued(n, s, a, b) == Continued(10 * n + DigitOf(s, a), s, a + 1, b)
    decreases b
  {
    if a + 1 < b { ContinuedOnce(n, s, a, b - 1); }
  }

  /** The 64-bit significand never overflows and is exact: it continues the integer part with the
      digits read, and the shift counts them. */
  lemma {:induction false} FastFractionIsExact(s: bytes, f: Fraction)
    requires f.pos <= |s| && f.significand <= UINT64_MAX
    ensures var r := FastFraction(s, f);
            && f.pos <= r.pos && AllDigits(s, f.pos, r.pos)
            && r.significand == Continued(f.significand, s, f.pos, r.pos) <= UINT64_MAX
            && r.expFrac == f.expFrac - (r.pos - f.pos)
            && (DigitAt(s, r.pos) ==> r.significand > 0x1F_FFFF_FFFF_FFFF)
    decreases |s| - f.pos
  {
    if DigitAt(s, f.pos) && f.significand <= 0x1F_FFFF_FFFF_FFFF {
      var i64 := f.significand * 10 + DigitOf(s, f.pos);
      var f' := Fraction(f.pos + 1, i64, f.expFrac - 1, f.significandDigit + if i64 != 0 then 1 else 0);
      FastFractionIsExact(s, f');
      ContinuedOnce(f.significand, s, f.pos, FastFraction(s, f').pos);
    }
  }

  /** The positive exponent loop fails exactly on exponents beyond its bound. */
  lemma {:induction false} StopsExactly(s: bytes, a: nat, b: nat, maxExp: int)
    requires a < b && AllDigits(s, a, b) && maxExp >= 9
    ensures Stopped(Accumulated(s, a, b, maxExp), maxExp, a, b) <==> Val(s, a, b) > maxExp
    ensures Val(s, a, b) <= maxExp ==> Accumulated(s, a, b, maxExp) == Val(s, a, b)
    ensures Val(s, a, b) >= Accumulated(s, a, b, maxExp)
    decreases b
  {
    assert Val(s, a, a) == 0;
    if b > a + 1 { StopsExactly(s, a, b - 1, maxExp); }
  }

  // ----- what a number text denotes -----

  /** The shift that the fraction at b causes; integers beyond 64 bits are doubles already, with
      more significant digits than a fraction could add to. */
  function Shift(s: bytes, a: nat, b: nat, minus: bool): int
    requires AllDigits(s, a, b)
  {
    if !HasFraction(s, b) || Val(s, a, b) > Limit64(minus) then 0
    else ExpFrac(s, b + 1, Val(s, a, b), b - a - 1)
  }

  /** A number without exponent, from p to c; its integer part is from a to b. */
  function ReadPlain(s: bytes, p: nat, a: nat, b: nat, c: nat, minus: bool, tooBig: bytes -> bool): Outcome
    requires AllDigits(s, a, b) && p <= c <= |s|
  {
    var event := if c == b then IntegerEvent(minus, Val(s, a, b), s[p..c]) else Double(s[p..c]);
    if event.Double? && tooBig(event.literal) then Failed(TooBig) else Number(c, event)
  }

  /** A number that starts at p and has its exponent at c. A positive exponent is refused beyond
      308 - shift. */
  function ReadExponent(s: bytes, p: nat, c: nat, shift: int, tooBig: bytes -> bool): Outcome
    requires p <= c
  {
    var d := ExponentStart(s, c);
    if !DigitAt(s, d) then Failed(MissExponent)
    else
      var e := DigitEnd(s, d);
      if (At(s, c + 1, 0) != MINUS && Val(s, d, e) > 308 - shift) || tooBig(s[p..e])
      then Failed(TooBig) else Number(e, Double(s[p..e]))
  }

  /** ParseNumber as the grammar has it: where the number ends and which event it gives.
      tooBig is the test d > max of the double that the text evaluates to. */
  function ReadNumber(s: bytes, p: nat, tooBig: bytes -> bool): Outcome {
    var a := IntStart(s, p);
    var minus := At(s, p, 0) == MINUS;
    match IntEnd(s, a)
    case None => Failed(ValueInvalid)
    case Some(b) =>
      if HasFraction(s, b) && !DigitAt(s, b + 1) then Failed(MissFraction)
      else
        var c := FractionEnd(s, b);
        if HasExponent(s, c) then ReadExponent(s, p, c, Shift(s, a, b, minus), tooBig)
        else ReadPlain(s, p, a, b, c, minus, tooBig)
  }

  // ----- runs of digits -----

  lemma {:induction false} RunIsEnd(s: bytes, a: nat, b: nat)
    requires a <= b && AllDigits(s, a, b) && !DigitAt(s, b)
    ensures DigitEnd(s, a) == b
    decreases b - a
  {
    if a < b { RunIsEnd(s, a + 1, b); }
  }

  function Pow10(n: nat): nat { if n == 0 then 1 else 10 * Pow10(n - 1) }

  lemma {:induction false} ValBelow(s: bytes, a: nat, b: nat)
    requires a <= b && AllDigits(s, a, b)
    ensures Val(s, a, b) < Pow10(b - a)
    decreases b
  {
    if a < b { ValBelow(s, a, b - 1); }
  }

  lemma {:induction false} PowGrows(m: nat, n: nat)
    requires m <= n
    ensures Pow10(m) <= Pow10(n)
  {
    if m < n { PowGrows(m, n - 1); }
  }

  lemma PowSeventeen()
    ensures Pow10(17) == 100000000000000000
  {
    assert Pow10(3) == 1000;
    assert Pow10(6) == 1000000;
    assert Pow10(9) == 1000000000;
    assert Pow10(12) == 1000000000000;
    assert Pow10(15) == 1000000000000000;
  }

  /** Numbers near the 64-bit limits have at least 18 digits. */
  lemma ManyDigits(s: bytes, a: nat, b: nat)
    requires a <= b && AllDigits(s, a, b) && Val(s, a, b) >= 922337203685477580
    ensures b - a >= 18
  {
    ValBelow(s, a, b);
    PowSeventeen();
    if b - a < 18 { PowGrows(b - a, 17); }
  }

  /** After 17 significant digits a fraction shifts nothing. */
  lemma {:induction false} SlowNothing(s: bytes, p: nat, expFrac: int, significandDigit: int)
    requires significandDigit >= 17
    ensures SlowFraction(s, p, true, expFrac, significandDigit) == expFrac
    decreases if p <= |s| then |s| - p else 0
  {
    if DigitAt(s, p) { SlowNothing(s, p + 1, expFrac, significandDigit); }
  }
}
