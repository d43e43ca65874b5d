/** The numbers of section 6 of RFC 8259 by a grammar of their own, and ReadNumber taking exactly them. */
module NumberText {
  import opened Json
  import opened Decimal
  import N = Numbers

  // ----- the grammar -----

  predicate Has(s: bytes, p: nat, c: char) { p < |s| && s[p] == c as int }

  predicate HasDigit(s: bytes, p: nat) { p < |s| && '0' as int <= s[p] <= '9' as int }

  /** At least one digit from a to b. */
  predicate HasDigits(s: bytes, a: nat, b: nat) { a < b <= |s| && forall i :: a <= i < b ==> HasDigit(s, i) }

  predicate HasE(s: bytes, p: nat) { Has(s, p, 'e') || Has(s, p, 'E') }

  predicate HasSign(s: bytes, p: nat) { Has(s, p, '+') || Has(s, p, '-') }

  /** Behind the letter and the sign, if there is one. */
  function BehindE(s: bytes, c: nat): nat { if HasSign(s, c + 1) then c + 2 else c + 1 }

  /** A number from p to q: its integer part from a to b, its fraction to c and its exponent to q. */
  predicate IsNumber(s: bytes, p: nat, a: nat, b: nat, c: nat, q: nat) {
    && (a == p || (a == p + 1 && Has(s, p, '-')))
    && HasDigits(s, a, b) && (Has(s, a, '0') ==> b == a + 1)
    && (c == b || (Has(s, b, '.') && HasDigits(s, b + 1, c)))
    && (q == c || (HasE(s, c) && HasDigits(s, BehindE(s, c), q)))
  }

  /** Nothing behind it could belong to it; only a zero may have digits behind it. */
  predicate IsWhole(s: bytes, a: nat, b: nat, c: nat, q: nat) {
    && (c == b ==> !Has(s, b, '.'))
    && (q == c ==> !HasE(s, c))
    && (HasDigit(s, q) ==> q == b && Has(s, a, '0'))
  }

  /** The event of a number: an integer in the tightest of two kinds, or a double with the text. */
  predicate Tells(s: bytes, p: nat, a: nat, b: nat, q: nat, e: Event)
    requires p <= a < b <= q <= |s| && HasDigits(s, a, b)
  {
    var n: int := NatOf(s, a, b);
    if q != b then e == Double(s[p..q])
    else if a == p then
      if n < 0x1_0000_0000 then e == Integer(Uint32, n)
      else if n < 0x1_0000_0000_0000_0000 then e == Integer(Uint64, n)
      else e == Double(s[p..q])
    else
      if n <= 0x8000_0000 then e == Integer(Int32, -n)
      else if n <= 0x8000_0000_0000_0000 then e == Integer(Int64, -n)
      else e == Double(s[p..q])
  }

  /** The number that the digits from a to b form. */
  function NatOf(s: bytes, a: nat, b: nat): nat
    requires HasDigits(s, a, b)
  {
    NoneIsNegative(s, a, b);
    ValueOf(s[a..b])
  }

  lemma DigitsAre(s: bytes, a: nat, b: nat)
    ensures HasDigits(s, a, b) <==> a < b && N.AllDigits(s, a, b)
  {
    forall i: nat ensures HasDigit(s, i) <==> N.DigitAt(s, i) { }
  }

  lemma NoneIsNegative(s: bytes, a: nat, b: nat)
    requires HasDigits(s, a, b)
    ensures N.AllDigits(s, a, b) && ValueOf(s[a..b]) == N.Val(s, a, b)
  {
    DigitsAre(s, a, b);
    N.ValIsValueOf(s, a, b);
  }

  /** Behind the point at b zeros to z, and no zero at z if that is inside the digits to e. */
  predicate IsZeroRun(s: bytes, b: nat, z: nat, e: nat) {
    b < z <= e <= |s| && (forall i :: b < i < z ==> Has(s, i, '0')) && (z < e ==> !Has(s, z, '0'))
  }

  /** The digits of a fraction that count as decimal places: with an integer part of n digits the first 18 - n,
      behind a zero those up to the 17th behind the leading zeros. */
  ghost predicate IsShift(s: bytes, a: nat, b: nat, c: nat, places: nat)
    requires HasDigits(s, a, b)
  {
    if c == b then places == 0
    else if !Has(s, a, '0') then places == if b - a >= 18 then 0 else Min(18 - (b - a), c - b - 1)
    else exists z: nat ::
           IsZeroRun(s, b, z, c) && places == Min(z - b - 1 + 17, c - b - 1)
  }

  ghost predicate IsBeyond(s: bytes, a: nat, b: nat, c: nat, d: nat, q: nat)
    requires HasDigits(s, a, b) && HasDigits(s, d, q)
  {
    exists places: nat :: IsShift(s, a, b, c, places) && NatOf(s, d, q) > 308 + places
  }

  function Min(m: int, n: int): int { if m <= n then m else n }

  /** The number is refused: as a double it is too big, or an exponent without a minus sign lies beyond 308 and
      the decimal places. */
  ghost predicate IsTooBig(s: bytes, p: nat, a: nat, b: nat, c: nat, q: nat, tooBig: bytes -> bool)
    requires IsNumber(s, p, a, b, c, q)
  {
    || (Tells(s, p, a, b, q, Double(s[p..q])) && tooBig(s[p..q]))
    || (q > c && !Has(s, c + 1, '-') && IsBeyond(s, a, b, c, BehindE(s, c), q))
  }

  // ----- decimal places -----

  lemma {:induction false} SlowExactly(s: bytes, p: nat, e: nat, expFrac: int, digit: int)
    requires p <= e && N.AllDigits(s, p, e) && !N.DigitAt(s, e)
    ensures N.SlowFraction(s, p, true, expFrac, digit) == expFrac - (if digit >= 17 then 0 else Min(17 - digit, e - p))
    decreases e - p
  {
    if p < e { SlowExactly(s, p + 1, e, expFrac - if digit < 17 then 1 else 0,
                           if digit < 17 then digit + 1 else digit); }
  }

  /** Both loops, once a significant digit has been read. */
  lemma {:induction false} BothExactly(s: bytes, f: N.Fraction, e: nat, m: nat)
    requires f.pos <= e && N.AllDigits(s, f.pos, e) && !N.DigitAt(s, e)
    requires m >= 1 && f.significand >= N.Pow10(m - 1) && f.significandDigit <= m
    ensures var r := N.FastFraction(s, f);
            N.SlowFraction(s, r.pos, r.significand > 0, r.expFrac, r.significandDigit) ==
              f.expFrac - (if f.significandDigit >= 17 then 0 else Min(17 - f.significandDigit, e - f.pos))
    decreases e - f.pos
  {
    if f.pos < e && f.significand <= 0x1F_FFFF_FFFF_FFFF {
      Sixteen(m, f.significand);
      var i64 := f.significand * 10 + N.DigitOf(s, f.pos);
      BothExactly(s, N.Fraction(f.pos + 1, i64, f.expFrac - 1, f.significandDigit + 1), e, m + 1);
    } else {
      N.ValBelow(s, 0, 0);
      PowPositive(m - 1);
      SlowExactly(s, f.pos, e, f.expFrac, f.significandDigit);
    }
  }

  lemma {:induction false} PowPositive(n: nat)
    ensures N.Pow10(n) >= 1
  {
    if n > 0 { PowPositive(n - 1); }
  }

  lemma Sixteen(m: nat, n: nat)
    requires m >= 1 && N.Pow10(m - 1) <= n <= 0x1F_FFFF_FFFF_FFFF
    ensures m <= 16 && n >= 1 && n * 10 >= N.Pow10(m)
  {
    PowPositive(m - 1);
    N.PowSeventeen();
    if m > 16 { N.PowGrows(16, m - 1); }
  }

  lemma {:induction false} FirstDigitCounts(s: bytes, a: nat, b: nat)
    requires a < b && N.AllDigits(s, a, b) && s[a] != '0' as int
    ensures N.Val(s, a, b) >= N.Pow10(b - a - 1)
    decreases b
  {
    if a + 1 < b { FirstDigitCounts(s, a, b - 1); } else { assert N.Val(s, a, a) == 0; }
  }

  /** Zeros behind the point are read by the first loop. */
  lemma {:induction false} ZerosRead(s: bytes, p: nat, z: nat, expFrac: int)
    requires p <= z <= |s| && forall i :: p <= i < z ==> Has(s, i, '0')
    ensures N.FastFraction(s, N.Fraction(p, 0, expFrac, 0)) ==
            N.FastFraction(s, N.Fraction(z, 0, expFrac - (z - p), 0))
    decreases z - p
  {
    if p < z {
      assert Has(s, p, '0');
      ZerosRead(s, p + 1, z, expFrac - 1);
    }
  }

  lemma BehindZero(s: bytes, b: nat, z: nat, e: nat)
    requires b + 1 < e && IsZeroRun(s, b, z, e) && N.AllDigits(s, b + 1, e) && !N.DigitAt(s, e)
    ensures N.ExpFrac(s, b + 1, 0, 0) == -Min(z - b - 1 + 17, e - b - 1)
  {
    ZerosRead(s, b + 1, z, 0);
    var f := N.Fraction(z, 0, -(z - b - 1), 0);
    if z < e {
      assert N.Pow10(0) == 1;
      var d := N.DigitOf(s, z);
      BothExactly(s, N.Fraction(z + 1, d, f.expFrac - 1, 1), e, 1);
      assert N.FastFraction(s, f) == N.FastFraction(s, N.Fraction(z + 1, d, f.expFrac - 1, 1));
    } else {
      assert N.FastFraction(s, f) == f;
    }
  }

  lemma {:induction false} ZeroRun(s: bytes, b: nat, k: nat, e: nat) returns (z: nat)
    requires b < k <= e <= |s| && forall i :: b < i < k ==> Has(s, i, '0')
    ensures IsZeroRun(s, b, z, e)
    decreases e - k
  {
    if k < e && Has(s, k, '0') { z := ZeroRun(s, b, k + 1, e); } else { z := k; }
  }

  lemma ZeroRunUnique(s: bytes, b: nat, z: nat, y: nat, e: nat)
    requires IsZeroRun(s, b, z, e) && IsZeroRun(s, b, y, e)
    ensures z == y
  {
  }

  /** The shift is the count of decimal places. */
  lemma ShiftExactly(s: bytes, a: nat, b: nat, c: nat, places: nat, minus: bool)
    requires HasDigits(s, a, b) && (Has(s, a, '0') ==> b == a + 1) && c == N.FractionEnd(s, b)
    requires N.HasFraction(s, b) ==> c > b + 1
    ensures N.AllDigits(s, a, b) && (N.Shift(s, a, b, minus) == 0 - places <==> IsShift(s, a, b, c, places))
  {
    hide N.ExpFrac, N.FastFraction;
    DigitsAre(s, a, b);
    if N.HasFraction(s, b) {
      if Has(s, a, '0') {
        assert N.Val(s, a, a) == 0;
        var z := ZeroRun(s, b, b + 1, c);
        BehindZero(s, b, z, c);
        forall y: nat | IsZeroRun(s, b, y, c) ensures y == z { ZeroRunUnique(s, b, z, y, c); }
      } else {
        ShiftOfDigits(s, a, b, c, minus);
      }
    }
  }

  lemma ShiftOfDigits(s: bytes, a: nat, b: nat, c: nat, minus: bool)
    requires HasDigits(s, a, b) && !Has(s, a, '0') && c == N.FractionEnd(s, b) && N.HasFraction(s, b)
    ensures N.AllDigits(s, a, b) &&
            N.Shift(s, a, b, minus) == -(if b - a >= 18 then 0 else Min(18 - (b - a), c - b - 1))
  {
    DigitsAre(s, a, b);
    FirstDigitCounts(s, a, b);
    if N.Val(s, a, b) > N.Limit64(minus) {
      N.ManyDigits(s, a, b);
    } else {
      BothExactly(s, N.Fraction(b + 1, N.Val(s, a, b), 0, b - a - 1), c, b - a);
    }
  }

  // ----- numbers -----

  lemma RunEnds(s: bytes, a: nat, b: nat)
    requires HasDigits(s, a, b) && !HasDigit(s, b)
    ensures N.DigitEnd(s, a) == b
  {
    DigitsAre(s, a, b);
    N.RunIsEnd(s, a, b);
  }

  /** The integer part of the number at p is from a to b, its fraction to c. */
  predicate Starts(s: bytes, p: nat, a: nat, b: nat, c: nat) {
    && (a == p || (a == p + 1 && Has(s, p, '-')))
    && HasDigits(s, a, b) && (Has(s, a, '0') ==> b == a + 1)
    && (!Has(s, a, '0') ==> !HasDigit(s, b))
    && if Has(s, b, '.') then HasDigits(s, b + 1, c) && !HasDigit(s, c) else c == b
  }

  lemma StartsRead(s: bytes, p: nat, a: nat, b: nat, c: nat)
    requires Starts(s, p, a, b, c)
    ensures a == N.IntStart(s, p) && N.IntEnd(s, a) == Some(b) && c == N.FractionEnd(s, b)
    ensures N.HasFraction(s, b) ==> N.DigitAt(s, b + 1)
    ensures N.AllDigits(s, a, b)
  {
    assert HasDigit(s, a);
    DigitsAre(s, a, b);
    if !Has(s, a, '0') { RunEnds(s, a, b); }
    if Has(s, b, '.') {
      assert HasDigit(s, b + 1);
      RunEnds(s, b + 1, c);
    }
  }

  lemma ReadStarts(s: bytes, p: nat, a: nat, b: nat, c: nat)
    requires a == N.IntStart(s, p) && N.IntEnd(s, a) == Some(b) && c == N.FractionEnd(s, b)
    requires N.HasFraction(s, b) ==> N.DigitAt(s, b + 1)
    ensures Starts(s, p, a, b, c)
  {
    DigitsAre(s, a, b);
    DigitsAre(s, b + 1, c);
  }

  lemma PlainExactly(s: bytes, p: nat, a: nat, b: nat, c: nat, tooBig: bytes -> bool, e: Event)
    requires Starts(s, p, a, b, c) && !HasE(s, c)
    ensures N.AllDigits(s, a, b) && p < c <= |s| && IsNumber(s, p, a, b, c, c)
    ensures N.ReadPlain(s, p, a, b, c, a != p, tooBig) == N.Number(c, e) <==>
            Tells(s, p, a, b, c, e) && !IsTooBig(s, p, a, b, c, c, tooBig)
  {
    NoneIsNegative(s, a, b);
    var n := NatOf(s, a, b);
    hide NatOf, ValueOf;
    assert IsTooBig(s, p, a, b, c, c, tooBig) <==> Tells(s, p, a, b, c, Double(s[p..c])) && tooBig(s[p..c]);
  }

  lemma PlacesOf(s: bytes, a: nat, b: nat, c: nat, minus: bool) returns (places: nat)
    requires HasDigits(s, a, b) && (Has(s, a, '0') ==> b == a + 1) && c == N.FractionEnd(s, b)
    requires N.HasFraction(s, b) ==> c > b + 1
    ensures N.AllDigits(s, a, b) && N.Shift(s, a, b, minus) == 0 - places
    ensures forall m: nat :: IsShift(s, a, b, c, m) <==> m == places
  {
    DigitsAre(s, a, b);
    if c == b {
      places := 0;
    } else if !Has(s, a, '0') {
      places := if b - a >= 18 then 0 else Min(18 - (b - a), c - b - 1);
    } else {
      var z := ZeroRun(s, b, b + 1, c);
      places := Min(z - b - 1 + 17, c - b - 1);
    }
    assert IsShift(s, a, b, c, places);
    hide N.Shift, IsShift;
    forall m: nat ensures IsShift(s, a, b, c, m) <==> N.Shift(s, a, b, minus) == 0 - m {
      ShiftExactly(s, a, b, c, m, minus);
    }
  }

  lemma ExponentExactly(s: bytes, p: nat, a: nat, b: nat, c: nat, q: nat, tooBig: bytes -> bool, e: Event)
    requires Starts(s, p, a, b, c) && HasE(s, c)
    ensures N.AllDigits(s, a, b)
    ensures N.ReadExponent(s, p, c, N.Shift(s, a, b, a != p), tooBig) == N.Number(q, e) <==>
            && q > c && HasDigits(s, BehindE(s, c), q) && !HasDigit(s, q)
            && e == Double(s[p..q]) && !IsTooBig(s, p, a, b, c, q, tooBig)
  {
    StartsRead(s, p, a, b, c);
    var d := BehindE(s, c);
    assert d == N.ExponentStart(s, c);
    if HasDigits(s, d, q) && !HasDigit(s, q) {
      RunEnds(s, d, q);
      assert HasDigit(s, d);
    }
    if HasDigit(s, d) {
      var end := N.DigitEnd(s, d);
      DigitsAre(s, d, end);
      TooBigExactly(s, p, a, b, c, end, tooBig);
    }
    hide N.Shift, NatOf, N.Val, IsTooBig, HasDigits;
  }

  lemma TooBigExactly(s: bytes, p: nat, a: nat, b: nat, c: nat, q: nat, tooBig: bytes -> bool)
    requires Starts(s, p, a, b, c) && HasE(s, c) && HasDigits(s, BehindE(s, c), q)
    ensures N.AllDigits(s, a, b) && N.AllDigits(s, BehindE(s, c), q) && IsNumber(s, p, a, b, c, q)
    ensures IsTooBig(s, p, a, b, c, q, tooBig) <==>
            tooBig(s[p..q]) || (!Has(s, c + 1, '-') && N.Val(s, BehindE(s, c), q) > 308 - N.Shift(s, a, b, a != p))
  {
    TellsDouble(s, p, a, b, q);
    StartsRead(s, p, a, b, c);
    NoneIsNegative(s, BehindE(s, c), q);
    var places := PlacesOf(s, a, b, c, a != p);
    hide N.Shift, IsShift, ValueOf, Tells, HasDigits;
    var d := BehindE(s, c);
    assert IsBeyond(s, a, b, c, d, q) <==> NatOf(s, d, q) > 308 + places by {
      if NatOf(s, d, q) > 308 + places { assert IsShift(s, a, b, c, places); }
    }
  }

  /** p to q is a whole number that is not refused, and e its event. */
  ghost predicate IsRead(s: bytes, p: nat, a: nat, b: nat, c: nat, q: nat, e: Event, tooBig: bytes -> bool) {
    && IsNumber(s, p, a, b, c, q) && IsWhole(s, a, b, c, q) && Tells(s, p, a, b, q, e)
    && !IsTooBig(s, p, a, b, c, q, tooBig)
  }

  /** ReadNumber gives an event exactly for the numbers of the grammar that are not refused. */
  lemma NumberExactly(s: bytes, p: nat, q: nat, e: Event, tooBig: bytes -> bool)
    ensures N.ReadNumber(s, p, tooBig) == N.Number(q, e) <==>
            exists a: nat, b: nat, c: nat :: IsRead(s, p, a, b, c, q, e, tooBig)
  {
    if N.ReadNumber(s, p, tooBig) == N.Number(q, e) {
      var a := N.IntStart(s, p);
      var b := N.IntEnd(s, a).value;
      var c := N.FractionEnd(s, b);
      ReadIs(s, p, a, b, c, q, e, tooBig);
    }
    if a: nat, b: nat, c: nat :| IsRead(s, p, a, b, c, q, e, tooBig) { IsReadBack(s, p, a, b, c, q, e, tooBig); }
  }

  lemma ReadIs(s: bytes, p: nat, a: nat, b: nat, c: nat, q: nat, e: Event, tooBig: bytes -> bool)
    requires N.ReadNumber(s, p, tooBig) == N.Number(q, e)
    requires a == N.IntStart(s, p) && N.IntEnd(s, a) == Some(b) && c == N.FractionEnd(s, b)
    ensures IsRead(s, p, a, b, c, q, e, tooBig)
  {
    ReadStarts(s, p, a, b, c);
    hide N.Shift, NatOf, ValueOf, IsTooBig, N.ReadPlain, N.ReadExponent, Tells;
    StartsRead(s, p, a, b, c);
    if HasE(s, c) {
      ExponentExactly(s, p, a, b, c, q, tooBig, e);
      TellsDouble(s, p, a, b, q);
    } else {
      PlainEnds(s, p, a, b, c, a != p, tooBig);
      PlainExactly(s, p, a, b, c, tooBig, e);
    }
  }

  lemma PlainEnds(s: bytes, p: nat, a: nat, b: nat, c: nat, minus: bool, tooBig: bytes -> bool)
    requires N.AllDigits(s, a, b) && p <= c <= |s|
    ensures var r := N.ReadPlain(s, p, a, b, c, minus, tooBig); r.Number? ==> r.next == c
  {
  }

  lemma TellsDouble(s: bytes, p: nat, a: nat, b: nat, q: nat)
    requires p <= a < b < q <= |s| && HasDigits(s, a, b)
    ensures forall e :: Tells(s, p, a, b, q, e) <==> e == Double(s[p..q])
  {
  }

  lemma NumberStarts(s: bytes, p: nat, a: nat, b: nat, c: nat, q: nat)
    requires IsNumber(s, p, a, b, c, q) && IsWhole(s, a, b, c, q)
    ensures Starts(s, p, a, b, c) && c <= q && (q == c ==> !HasE(s, c))
    ensures q > c ==> HasE(s, c) && HasDigits(s, BehindE(s, c), q) && !HasDigit(s, q)
  {
  }

  lemma IsReadBack(s: bytes, p: nat, a: nat, b: nat, c: nat, q: nat, e: Event, tooBig: bytes -> bool)
    requires IsRead(s, p, a, b, c, q, e, tooBig)
    ensures N.ReadNumber(s, p, tooBig) == N.Number(q, e)
  {
    NumberStarts(s, p, a, b, c, q);
    hide N.Shift, NatOf, ValueOf, IsTooBig, N.ReadPlain, N.ReadExponent, Tells;
    StartsRead(s, p, a, b, c);
    if q > c {
      ExponentExactly(s, p, a, b, c, q, tooBig, e);
      TellsDouble(s, p, a, b, q);
    } else {
      PlainExactly(s, p, a, b, c, tooBig, e);
    }
  }

  // ----- errors -----

  /** The integer part of the number at p is from a to b. */
  predicate IsInteger(s: bytes, p: nat, a: nat, b: nat) {
    && a == (if Has(s, p, '-') then p + 1 else p)
    && HasDigits(s, a, b) && (if Has(s, a, '0') then b == a + 1 else !HasDigit(s, b))
  }

  lemma IntegerExactly(s: bytes, p: nat, a: nat, b: nat)
    ensures IsInteger(s, p, a, b) <==> a == N.IntStart(s, p) && N.IntEnd(s, a) == Some(b)
  {
    DigitsAre(s, a, b);
    if IsInteger(s, p, a, b) {
      assert HasDigit(s, a);
      if !Has(s, a, '0') { RunEnds(s, a, b); }
    }
  }

  lemma StartsExactly(s: bytes, p: nat, a: nat, b: nat, c: nat)
    ensures Starts(s, p, a, b, c) <==>
            IsInteger(s, p, a, b) && c == N.FractionEnd(s, b) && (Has(s, b, '.') ==> HasDigit(s, b + 1))
  {
    IntegerExactly(s, p, a, b);
    if Starts(s, p, a, b, c) { StartsRead(s, p, a, b, c); }
    if IsInteger(s, p, a, b) && c == N.FractionEnd(s, b) && (Has(s, b, '.') ==> HasDigit(s, b + 1)) {
      ReadStarts(s, p, a, b, c);
    }
  }

  /** A number fails at its integer part, its fraction or its exponent, exactly where no digit stands. */
  lemma FailsExactly(s: bytes, p: nat, tooBig: bytes -> bool)
    ensures N.ReadNumber(s, p, tooBig) == N.Failed(N.ValueInvalid) <==>
            !HasDigit(s, if Has(s, p, '-') then p + 1 else p)
    ensures N.ReadNumber(s, p, tooBig) == N.Failed(N.MissFraction) <==>
            exists a: nat, b: nat :: IsInteger(s, p, a, b) && Has(s, b, '.') && !HasDigit(s, b + 1)
    ensures N.ReadNumber(s, p, tooBig) == N.Failed(N.MissExponent) <==>
            exists a: nat, b: nat, c: nat :: Starts(s, p, a, b, c) && HasE(s, c) && !HasDigit(s, BehindE(s, c))
  {
    var a := N.IntStart(s, p);
    assert N.IntEnd(s, a).None? <==> !HasDigit(s, a);
    ErrorOf(s, p, tooBig);
    hide N.ReadNumber, N.IntStart, N.IntEnd, N.FractionEnd, IsInteger, Starts;
    forall x: nat, y: nat, z: nat
      ensures IsInteger(s, p, x, y) <==> x == a && N.IntEnd(s, a) == Some(y)
      ensures Starts(s, p, x, y, z) <==>
              IsInteger(s, p, x, y) && z == N.FractionEnd(s, y) && (Has(s, y, '.') ==> HasDigit(s, y + 1))
    {
      IntegerExactly(s, p, x, y);
      StartsExactly(s, p, x, y, z);
    }
    if N.IntEnd(s, a).Some? {
      var b := N.IntEnd(s, a).value;
      var c := N.FractionEnd(s, b);
      IntegerExactly(s, p, a, b);
      StartsExactly(s, p, a, b, c);
      assert Starts(s, p, a, b, c) <==> (Has(s, b, '.') ==> HasDigit(s, b + 1));
    }
  }

  lemma ErrorOf(s: bytes, p: nat, tooBig: bytes -> bool)
    ensures var r := N.ReadNumber(s, p, tooBig);
            match N.IntEnd(s, N.IntStart(s, p))
            case None => r == N.Failed(N.ValueInvalid)
            case Some(b) =>
              var c := N.FractionEnd(s, b);
              && r != N.Failed(N.ValueInvalid)
              && (r == N.Failed(N.MissFraction) <==> Has(s, b, '.') && !HasDigit(s, b + 1))
              && (r == N.Failed(N.MissExponent) <==>
                  (Has(s, b, '.') ==> HasDigit(s, b + 1)) && HasE(s, c) && !HasDigit(s, BehindE(s, c)))
  {
    hide N.Shift, N.Val;
  }
}
