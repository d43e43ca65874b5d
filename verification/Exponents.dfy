/** How long the fraction of a number may be before the 32-bit arithmetic of ParseNumber
    (rapidjson/reader.h) leaves the range of int: the exact number of digits, over all number texts. */
module Exponents {
  import opened Json
  import opened Streams
  import opened Decimal
  import opened Numbers

  /** The number of digits behind the decimal point of the number at p. */
  function FractionLength(s: bytes, p: nat): nat {
    match IntEnd(s, IntStart(s, p))
    case None => 0
    case Some(b) => if HasFraction(s, b) then DigitEnd(s, b + 1) - (b + 1) else 0
  }

  /** The number at p has an exponent with a minus sign. */
  predicate HasNegativeExponent(s: bytes, p: nat) {
    match IntEnd(s, IntStart(s, p))
    case None => false
    case Some(b) => HasExponent(s, FractionEnd(s, b)) && At(s, FractionEnd(s, b) + 1, 0) == MINUS
  }

  /** In parsing the number at p the shift of the fraction fits int, and with an exponent everything
      computed from the two. */
  predicate NumberFits(s: bytes, p: nat) {
    var a := IntStart(s, p);
    match IntEnd(s, a)
    case None => true
    case Some(b) =>
      var c, shift := FractionEnd(s, b), Shift(s, a, b, At(s, p, 0) == MINUS);
      var d := ExponentStart(s, c);
      FitsInt(shift) &&
      (HasExponent(s, c) && DigitAt(s, d) ==> ExponentFits(s, d, DigitEnd(s, d), shift, At(s, c + 1, 0) == MINUS))
  }

  /** The longest safe fraction. */
  function DigitLimit(negative: bool): nat { -SafeShift(negative) }

  lemma ShiftBound(s: bytes, p: nat, significand: nat, significandDigit: int)
    requires p <= |s|
    ensures -(DigitEnd(s, p) - p) <= ExpFrac(s, p, significand, significandDigit) <= 0
  {
    var f := Fraction(p, significand, 0, significandDigit);
    FastBound(s, f);
    var r := FastFraction(s, f);
    SlowBound(s, r.pos, r.significand > 0, r.expFrac, r.significandDigit);
  }

  /** No number with such a fraction overflows. */
  lemma ShortNumberFits(s: bytes, p: nat)
    requires FractionLength(s, p) <= DigitLimit(HasNegativeExponent(s, p))
    ensures NumberFits(s, p)
  {
    hide ExponentFits, ExpFrac, Val;
    var a := IntStart(s, p);
    if b: nat :| IntEnd(s, a) == Some(b) {
      var c, shift := FractionEnd(s, b), Shift(s, a, b, At(s, p, 0) == MINUS);
      if HasFraction(s, b) { ShiftBound(s, b + 1, Val(s, a, b), b - a - 1); }
      var d := ExponentStart(s, c);
      if HasExponent(s, c) && DigitAt(s, d) {
        SafeExponents(s, d, DigitEnd(s, d), shift, At(s, c + 1, 0) == MINUS);
      }
    }
  }

  // ----- a fraction of zeros -----

  lemma {:induction false} ZerosShift(s: bytes, p: nat, q: nat, expFrac: int, significandDigit: int)
    requires p <= q <= |s| && (forall i :: p <= i < q ==> s[i] == ZERO) && !DigitAt(s, q)
    ensures FastFraction(s, Fraction(p, 0, expFrac, significandDigit)) ==
            Fraction(q, 0, expFrac - (q - p), significandDigit)
    decreases q - p
  {
    if p < q { ZerosShift(s, p + 1, q, expFrac - 1, significandDigit); }
  }

  /** 0.00...0e<w>, with n zeros behind the point. */
  function ZerosText(n: nat, w: bytes): bytes { [ZERO, POINT] + seq(n, _ => ZERO) + (['e' as int] + w) }

  /** An exponent that overflows with one digit too many. */
  function BadExponent(negative: bool): bytes { if negative then [MINUS] + NINES else Digits(TWO_TO_31) }

  lemma ZerosTextParts(n: nat, w: bytes)
    ensures var s := ZerosText(n, w);
            && |s| == 3 + n + |w| && s[0] == ZERO && s[1] == POINT && s[2 + n] == 'e' as int && s[3 + n..] == w
            && (forall i :: 2 <= i < 2 + n ==> s[i] == ZERO)
            && (forall i :: 0 <= i < |w| ==> s[3 + n + i] == w[i])
  {
  }

  lemma ZerosTextFraction(n: nat, w: bytes)
    ensures var s := ZerosText(n, w);
            && IntStart(s, 0) == 0 && IntEnd(s, 0) == Some(1) && HasFraction(s, 1)
            && DigitEnd(s, 2) == 2 + n && FractionEnd(s, 1) == 2 + n && HasExponent(s, 2 + n)
            && Shift(s, 0, 1, At(s, 0, 0) == MINUS) == 0 - n
  {
    var s := ZerosText(n, w);
    ZerosTextParts(n, w);
    RunIsEnd(s, 2, 2 + n);
    ZerosShift(s, 2, 2 + n, 0, 0);
    assert Val(s, 0, 1) == 0;
  }

  /** Where the digits of the exponent stand in it. */
  lemma ZerosTextExponent(n: nat, negative: bool)
    ensures var s := ZerosText(n, BadExponent(negative));
            var d := if negative then 4 + n else 3 + n;
            && d < |s| && AllDigits(s, d, |s|) && DigitEnd(s, d) == |s| && ExponentStart(s, 2 + n) == d
            && (At(s, 3 + n, 0) == MINUS) == negative
            && s[d..|s|] == if negative then NINES else Digits(TWO_TO_31)
  {
    var w := BadExponent(negative);
    var s := ZerosText(n, w);
    var d := if negative then 4 + n else 3 + n;
    ZerosTextParts(n, w);
    DigitsRoundTrip(TWO_TO_31);
    hide ZerosText, Digits;
    assert s[d..|s|] == s[3 + n..][d - 3 - n..];
    assert forall i :: d <= i < |s| ==> s[i] == s[d..|s|][i - d];
    RunIsEnd(s, d, |s|);
  }

  /** One digit more, and a number overflows. */
  lemma LongNumberOverflows(negative: bool)
    ensures var s := ZerosText(DigitLimit(negative) + 1, BadExponent(negative));
            && FractionLength(s, 0) == DigitLimit(negative) + 1 && HasNegativeExponent(s, 0) == negative
            && !NumberFits(s, 0)
  {
    var n := DigitLimit(negative) + 1;
    var s := ZerosText(n, BadExponent(negative));
    var d := if negative then 4 + n else 3 + n;
    ZerosTextFraction(n, BadExponent(negative));
    ZerosTextExponent(n, negative);
    hide ZerosText, BadExponent, Shift, Digits, ExponentFits, IntEnd, FractionEnd, DigitEnd, IntStart, ExponentStart;
    if negative {
      NegativeOverflow(s, d, |s|, 0 - n);
    } else {
      PositiveOverflow(s, d, |s|, 0 - n);
    }
  }

  /** Over all number texts of a sign of exponent: fractions of up to n digits are safe exactly up to this n. */
  lemma DigitLimitExactly(n: nat, negative: bool)
    ensures (forall s: bytes, p: nat :: FractionLength(s, p) <= n && HasNegativeExponent(s, p) == negative ==>
             NumberFits(s, p))
            <==> n <= DigitLimit(negative)
  {
    hide NumberFits, ZerosText, HasNegativeExponent;
    if n <= DigitLimit(negative) {
      forall s: bytes, p: nat | FractionLength(s, p) <= n && HasNegativeExponent(s, p) == negative
        ensures NumberFits(s, p)
      {
        ShortNumberFits(s, p);
      }
    } else {
      LongNumberOverflows(negative);
    }
  }
}
