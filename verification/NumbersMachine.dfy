/** ParseNumber as it runs: digit loops over 32-bit and 64-bit words that wrap around,
    and the two's-complement negation of the result. */
module NumbersMachine {
  import opened Json
  import opened Streams
  import opened Numbers

  /** i * 10 + digit on an unsigned word of 32 or 64 bits. */
  function Wrapped(i: nat, digit: nat, is64: bool): nat {
    if is64 then (i * 10 + digit) % 0x1_0000_0000_0000_0000 else (i * 10 + digit) % 0x1_0000_0000
  }

  /** static_cast<int32_t>(~i + 1) and static_cast<int64_t>(~i64 + 1). */
  function Negated(i: nat, is64: bool): int
    requires i <= if is64 then UINT64_MAX else UINT32_MAX
  {
    if is64 then
      var u := (UINT64_MAX - i + 1) % 0x1_0000_0000_0000_0000;
      if u > INT64_MAX then u - 0x1_0000_0000_0000_0000 else u
    else
      var u := (UINT32_MAX - i + 1) % 0x1_0000_0000;
      if u > INT32_MAX then u - 0x1_0000_0000 else u
  }

  function Limit(minus: bool, is64: bool): nat { if is64 then Limit64(minus) else Limit32(minus) }

  /** Up to its limit the negation gives the true value, the smallest integer included. */
  lemma NegatedIsMinus(i: nat, is64: bool)
    requires i <= Limit(true, is64)
    ensures Negated(i, is64) == -(i as int)
  {
  }

  lemma NoWrap(i: nat, digit: nat, minus: bool, is64: bool)
    requires i * 10 + digit <= Limit(minus, is64)
    ensures Wrapped(i, digit, is64) == i * 10 + digit
  {
  }

  /** The constants of the four digit loops. */
  function Tenth(minus: bool, is64: bool): nat {
    if is64 then (if minus then 0x0CCC_CCCC_CCCC_CCCC else 0x1999_9999_9999_9999)
    else if minus then 214748364 else 429496729
  }

  function Last(minus: bool): byte { if minus then '8' as int else '5' as int }

  lemma LimitDigits(minus: bool, is64: bool)
    ensures Tenth(minus, is64) * 10 + (Last(minus) - ZERO) == Limit(minus, is64)
    ensures IsDigitCode(Last(minus))
  {
  }

  predicate IsDigitCode(c: byte) { '0' as int <= c <= '9' as int }

  method PeekDigit(s: MemoryStream<byte>) returns (isDigit: bool)
    requires s.Valid() && s.end == 0
    ensures isDigit == DigitAt(s.text, s.pos)
  {
    var c := s.Peek();
    isDigit := '0' as int <= c <= '9' as int;
  }

  method Consume(s: MemoryStream<byte>, e: byte) returns (found: bool)
    requires s.Valid() && s.end == 0 && e != 0
    modifies s
    ensures s.Valid() && found == (At(s.text, old(s.pos), 0) == e)
    ensures s.pos == old(s.pos) + if found then 1 else 0
  {
    var c := s.Peek();
    found := c == e;
    if found { c := s.Take(); }
  }

  /** The digits from a to the stream's position, which end no run of digits too early. */
  ghost predicate Run(s: MemoryStream<byte>, a: nat)
    reads s
  {
    s.Valid() && s.end == 0 && a <= s.pos && AllDigits(s.text, a, s.pos)
  }

  /** A digit loop: it stops at a digit that its word has no room for, before anything wraps around. */
  method DigitLoop(s: MemoryStream<byte>, first: nat, digits: nat, minus: bool, is64: bool, ghost a: nat)
    returns (i: nat, significandDigit: nat, overflow: bool)
    requires Run(s, a) && digits == s.pos - a - 1 && first == Val(s.text, a, s.pos) <= Limit(minus, is64)
    modifies s
    ensures Run(s, a) && s.pos >= old(s.pos) && significandDigit == s.pos - a - 1
    ensures i == Val(s.text, a, s.pos) <= Limit(minus, is64)
    ensures overflow <==> DigitAt(s.text, s.pos)
    ensures overflow ==> i * 10 + DigitOf(s.text, s.pos) > Limit(minus, is64)
  {
    LimitDigits(minus, is64);
    hide Limit, Tenth, Last, Wrapped;
    i, significandDigit, overflow := first, digits, false;
    while true
      invariant Run(s, a) && s.pos >= old(s.pos) && significandDigit == s.pos - a - 1 &&
                i == Val(s.text, a, s.pos) <= Limit(minus, is64)
      decreases |s.text| - s.pos
    {
      var isDigit := PeekDigit(s);
      if !isDigit { return; }
      var c := s.Peek();
      if i >= Tenth(minus, is64) {
        if i != Tenth(minus, is64) || c > Last(minus) {
          overflow := true;
          return;
        }
      }
      c := s.Take();
      NoWrap(i, c - ZERO, minus, is64);
      i := Wrapped(i, c - ZERO, is64);
      significandDigit := significandDigit + 1;
    }
  }

  /** The rest of a run of digits. */
  method SkipDigits(s: MemoryStream<byte>)
    requires s.Valid() && s.end == 0
    modifies s
    ensures s.Valid() && s.pos == DigitEnd(s.text, old(s.pos))
  {
    while true
      invariant s.Valid() && DigitEnd(s.text, s.pos) == DigitEnd(s.text, old(s.pos))
      decreases |s.text| - s.pos
    {
      var isDigit := PeekDigit(s);
      if !isDigit { return; }
      var c := s.Take();
    }
  }

  datatype IntPart = IntPart(i: nat, use64bit: bool, useDouble: bool, significandDigit: nat)

  /** What the integer part from a to b leaves in the variables of ParseNumber. */
  ghost predicate Describes(r: IntPart, s: bytes, a: nat, b: nat, minus: bool) {
    && a < b && AllDigits(s, a, b)
    && (r.useDouble <==> Val(s, a, b) > Limit64(minus))
    && (!r.useDouble ==> r.i == Val(s, a, b) && r.significandDigit == b - a - 1)
    && (!r.useDouble ==> (r.use64bit <==> Val(s, a, b) > Limit32(minus)))
    && (r.useDouble ==> r.significandDigit >= 17)
  }

  /** The digit at the stream's position would lead beyond the limit, so the whole run does. */
  lemma RunExceeds(s: bytes, a: nat, b: nat, i: nat, limit: nat)
    requires a <= b && AllDigits(s, a, b) && i == Val(s, a, b) && DigitAt(s, b) && i * 10 + DigitOf(s, b) > limit
    ensures AllDigits(s, a, DigitEnd(s, b)) && DigitEnd(s, a) == DigitEnd(s, b) && Val(s, a, DigitEnd(s, b)) > limit
  {
    var e := DigitEnd(s, b);
    RunIsEnd(s, a, e);
    assert Val(s, a, b + 1) == 10 * i + DigitOf(s, b);
    ValGrows(s, a, b + 1, e);
  }

  /** From the first digit of the integer part, not a zero, on. */
  method ParseDigits(s: MemoryStream<byte>, minus: bool) returns (r: IntPart)
    requires s.Valid() && s.end == 0 && DigitAt(s.text, s.pos)
    modifies s
    ensures s.Valid() && s.pos == DigitEnd(s.text, old(s.pos)) && Describes(r, s.text, old(s.pos), s.pos, minus)
  {
    ghost var a := s.pos;
    var c := s.Take();
    assert Val(s.text, a, a) == 0;
    var i, significandDigit, overflow := DigitLoop(s, c - ZERO, 0, minus, false, a);
    if !overflow {
      RunIsEnd(s.text, a, s.pos);
      return IntPart(i, false, false, significandDigit);
    }
    RunExceeds(s.text, a, s.pos, i, Limit32(minus));
    i, significandDigit, overflow := DigitLoop(s, i, significandDigit, minus, true, a);
    if !overflow {
      RunIsEnd(s.text, a, s.pos);
      return IntPart(i, true, false, significandDigit);
    }
    RunExceeds(s.text, a, s.pos, i, Limit64(minus));
    ManyDigits(s.text, a, s.pos);
    SkipDigits(s);
    return IntPart(i, true, true, significandDigit);
  }

  /** The integer part. */
  method ParseIntPart(s: MemoryStream<byte>, minus: bool) returns (r: Option<IntPart>)
    requires s.Valid() && s.end == 0
    modifies s
    ensures s.Valid()
    ensures r.Some? <==> IntEnd(s.text, old(s.pos)).Some?
    ensures r.Some? ==>
            s.pos == IntEnd(s.text, old(s.pos)).value && Describes(r.value, s.text, old(s.pos), s.pos, minus)
  {
    var c := s.Peek();
    if c == ZERO {
      assert Val(s.text, s.pos, s.pos) == 0;
      c := s.Take();
      return Some(IntPart(0, false, false, 0));
    } else if '1' as int <= c <= '9' as int {
      var part := ParseDigits(s, minus);
      return Some(part);
    } else {
      return None;
    }
  }

  /** The fraction loop on a 64-bit significand. */
  method FastLoop(s: MemoryStream<byte>, i: nat, significandDigit: int) returns (f: Fraction)
    requires s.Valid() && s.end == 0 && i <= UINT64_MAX
    modifies s
    ensures s.Valid() && f == FastFraction(s.text, Fraction(old(s.pos), i, 0, significandDigit)) && s.pos == f.pos
  {
    ghost var start := Fraction(s.pos, i, 0, significandDigit);
    f := Fraction(s.pos, i, 0, significandDigit);
    while true
      invariant s.Valid() && s.pos == f.pos && f.significand <= UINT64_MAX
      invariant FastFraction(s.text, start) == FastFraction(s.text, f)
      decreases |s.text| - s.pos
    {
      var isDigit := PeekDigit(s);
      if !isDigit || f.significand > 0x1F_FFFF_FFFF_FFFF { return; }
      var c := s.Take();
      var i64 := Wrapped(f.significand, c - ZERO, true);
      f := Fraction(s.pos, i64, f.expFrac - 1, f.significandDigit + if i64 != 0 then 1 else 0);
    }
  }

  /** The fraction loop in floating point, of which only the sign of d is kept. */
  method SlowLoop(s: MemoryStream<byte>, positive: bool, shift: int, digits: int) returns (expFrac: int)
    requires s.Valid() && s.end == 0
    modifies s
    ensures s.Valid() && s.pos == DigitEnd(s.text, old(s.pos))
    ensures expFrac == SlowFraction(s.text, old(s.pos), positive, shift, digits)
  {
    ghost var p := s.pos;
    var isPositive, significandDigit := positive, digits;
    expFrac := shift;
    while true
      invariant s.Valid() && DigitEnd(s.text, s.pos) == DigitEnd(s.text, p)
      invariant SlowFraction(s.text, p, positive, shift, digits) ==
                SlowFraction(s.text, s.pos, isPositive, expFrac, significandDigit)
      decreases |s.text| - s.pos
    {
      var isDigit := PeekDigit(s);
      if !isDigit { return; }
      var c := s.Take();
      if significandDigit < 17 {
        isPositive := isPositive || c - ZERO > 0;
        expFrac := expFrac - 1;
        if isPositive { significandDigit := significandDigit + 1; }
      }
    }
  }

  /** The two loops over the digits of a fraction. */
  method ParseFraction(s: MemoryStream<byte>, r: IntPart) returns (expFrac: int)
    requires s.Valid() && s.end == 0 && (!r.useDouble ==> r.i <= UINT64_MAX) &&
             (r.useDouble ==> r.significandDigit >= 17)
    modifies s
    ensures s.Valid() && s.pos == DigitEnd(s.text, old(s.pos))
    ensures expFrac == if r.useDouble then 0 else ExpFrac(s.text, old(s.pos), r.i, r.significandDigit)
  {
    if r.useDouble {
      SlowNothing(s.text, s.pos, 0, r.significandDigit);
      expFrac := SlowLoop(s, true, 0, r.significandDigit);
    } else {
      FastBound(s.text, Fraction(s.pos, r.i, 0, r.significandDigit));
      var f := FastLoop(s, r.i, r.significandDigit);
      expFrac := SlowLoop(s, f.significand > 0, f.expFrac, f.significandDigit);
    }
  }

  /** The digits of an exponent; None when a positive exponent is too big. A negative one is no
      longer accumulated behind its bound, but its digits are consumed. */
  method ParseExponent(s: MemoryStream<byte>, minus: bool, expFrac: int) returns (r: Option<nat>)
    requires s.Valid() && s.end == 0 && DigitAt(s.text, s.pos)
    modifies s
    ensures s.Valid() && old(s.pos) < s.pos && AllDigits(s.text, old(s.pos), s.pos)
    ensures r.Some? ==>
            s.pos == DigitEnd(s.text, old(s.pos)) &&
            r.value == Accumulated(s.text, old(s.pos), s.pos, MaxExp(expFrac, minus))
    ensures r.None? ==> !minus
    ensures !minus ==>
            (r.None? <==>
             Stopped(Accumulated(s.text, old(s.pos), s.pos, MaxExp(expFrac, minus)), MaxExp(expFrac, minus), old(s.pos),
                     s.pos))
  {
    ghost var a := s.pos;
    var c := s.Take();
    var exp := c - ZERO;
    var maxExp := MaxExp(expFrac, minus);
    while true
      invariant Run(s, a) && a < s.pos && exp == Accumulated(s.text, a, s.pos, maxExp)
      invariant Stopped(exp, maxExp, a, s.pos) ==> minus && !DigitAt(s.text, s.pos)
      decreases |s.text| - s.pos
    {
      var isDigit := PeekDigit(s);
      if !isDigit {
        RunIsEnd(s.text, a, s.pos);
        return Some(exp);
      }
      c := s.Take();
      exp := exp * 10 + (c - ZERO);
      if exp > maxExp {
        if !minus { return None; }
        isDigit := PeekDigit(s);
        while isDigit
          invariant Run(s, a) && a + 1 < s.pos && exp > maxExp && exp == Accumulated(s.text, a, s.pos, maxExp)
          invariant isDigit == DigitAt(s.text, s.pos)
          decreases |s.text| - s.pos
        {
          c := s.Take();
          isDigit := PeekDigit(s);
        }
      }
    }
  }

  lemma ShiftIsSmall(s: bytes, p: nat, r: IntPart)
    requires p <= |s|
    ensures (if r.useDouble then 0 else ExpFrac(s, p, r.i, r.significandDigit)) <= 0
  {
    var f := Fraction(p, r.i, 0, r.significandDigit);
    FastBound(s, f);
    var g := FastFraction(s, f);
    SlowBound(s, g.pos, g.significand > 0, g.expFrac, g.significandDigit);
  }

  /** A positive exponent is refused exactly when the whole of it is too big. */
  lemma RefusedExactly(s: bytes, a: nat, b: nat, maxExp: int)
    requires a < b && AllDigits(s, a, b) && maxExp >= 9
    ensures Stopped(Accumulated(s, a, b, maxExp), maxExp, a, b) ==> Val(s, a, DigitEnd(s, a)) > maxExp
    ensures b == DigitEnd(s, a) && !Stopped(Accumulated(s, a, b, maxExp), maxExp, a, b) ==> Val(s, a, b) <= maxExp
  {
    StopsExactly(s, a, b, maxExp);
    InsideRun(s, a, b);
    ValGrows(s, a, b, DigitEnd(s, a));
  }

  lemma {:induction false} InsideRun(s: bytes, a: nat, b: nat)
    requires a <= b && AllDigits(s, a, b)
    ensures b <= DigitEnd(s, a) && AllDigits(s, a, DigitEnd(s, a))
    decreases b - a
  {
    if a < b { InsideRun(s, a + 1, b); }
  }

  /** Behind the letter e: what follows it in ParseNumber when there is an exponent. */
  method ParseExponentPart(s: MemoryStream<byte>, start: nat, expFrac: int, tooBig: bytes -> bool) returns (r: Outcome)
    requires s.Valid() && s.end == 0 && start < s.pos && expFrac <= 0
    modifies s
    ensures s.Valid() && r == ReadExponent(s.text, start, old(s.pos) - 1, expFrac, tooBig)
    ensures r.Number? ==> s.pos == r.next
  {
    hide Accumulated, Stopped, Val, AllDigits, DigitEnd;
    var expMinus := false;
    var found := Consume(s, PLUS);
    if !found { expMinus := Consume(s, MINUS); }
    found := PeekDigit(s);
    if !found { return Failed(MissExponent); }
    ghost var d := s.pos;
    var exp := ParseExponent(s, expMinus, expFrac);
    if !expMinus { RefusedExactly(s.text, d, s.pos, 308 - expFrac); }
    if exp.None? { return Failed(TooBig); }
    if tooBig(s.text[start..s.pos]) { return Failed(TooBig); }
    return Number(s.pos, Double(s.text[start..s.pos]));
  }

  /** The event of an integer, with the negation of its word. */
  method IntegerEventOf(part: IntPart, minus: bool, ghost s: bytes, ghost a: nat, ghost b: nat, ghost literal: bytes)
    returns (event: Event)
    requires Describes(part, s, a, b, minus) && !part.useDouble
    ensures event == IntegerEvent(minus, Val(s, a, b), literal)
  {
    if minus { NegatedIsMinus(part.i, part.use64bit); }
    var value: int := if minus then Negated(part.i, part.use64bit) else part.i;
    event := if part.use64bit then Integer(if minus then Int64 else Uint64, value)
             else Integer(if minus then Int32 else Uint32, value);
  }

  /** The fraction, if there is one; false when its digits are missing. */
  method ParseFractionPart(s: MemoryStream<byte>, part: IntPart, ghost a: nat, ghost minus: bool)
    returns (ok: bool, useDouble: bool, expFrac: int)
    requires s.Valid() && s.end == 0 && Describes(part, s.text, a, s.pos, minus)
    modifies s
    ensures s.Valid() && (!ok <==> HasFraction(s.text, old(s.pos)) && !DigitAt(s.text, old(s.pos) + 1))
    ensures ok ==> s.pos == FractionEnd(s.text, old(s.pos)) && useDouble == (part.useDouble || s.pos != old(s.pos))
    ensures ok ==> expFrac == Shift(s.text, a, old(s.pos), minus) <= 0
  {
    hide Val, AllDigits, DigitEnd, ExpFrac;
    useDouble, expFrac := part.useDouble, 0;
    var found := Consume(s, POINT);
    if found {
      found := PeekDigit(s);
      if !found { return false, useDouble, 0; }
      ShiftIsSmall(s.text, s.pos, part);
      expFrac := ParseFraction(s, part);
      useDouble := true;
    }
    ok := true;
  }

  /** ParseNumber: exactly what the grammar and the tight integer kinds say. */
  method ParseNumber(s: MemoryStream<byte>, tooBig: bytes -> bool) returns (r: Outcome)
    requires s.Valid() && s.end == 0
    modifies s
    ensures s.Valid() && r == ReadNumber(s.text, old(s.pos), tooBig)
    ensures r.Number? ==> s.pos == r.next
  {
    hide Val, AllDigits, DigitEnd, ExpFrac, ReadExponent;
    var start := s.pos;
    var minus := Consume(s, MINUS);
    ghost var a := s.pos;
    var part := ParseIntPart(s, minus);
    if part.None? { return Failed(ValueInvalid); }
    ghost var b := s.pos;
    var found, useDouble, expFrac := ParseFractionPart(s, part.value, a, minus);
    if !found { return Failed(MissFraction); }
    hide Shift, FractionEnd, HasFraction, IntegerEvent, Describes;
    found := Consume(s, 'e' as int);
    if !found { found := Consume(s, 'E' as int); }
    if found {
      r := ParseExponentPart(s, start, expFrac, tooBig);
      return;
    }
    var literal := s.text[start..s.pos];
    if useDouble {
      if tooBig(literal) { return Failed(TooBig); }
      return Number(s.pos, Double(literal));
    }
    var event := IntegerEventOf(part.value, minus, s.text, a, b, literal);
    return Number(s.pos, event);
  }
}
