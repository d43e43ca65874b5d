/** Section 7 of RFC 8259 as a table: the ways to spell a character in a string, written apart from the
    decoder, and the decoder accepting exactly them. */
module StringSpelling {
  import opened Json
  import opened Streams
  import opened Strings
  import E = Encodings

  // ----- the table -----

  /** The hexadecimal digit c, of either case, stands for d. */
  predicate IsHexDigit(c: byte, d: nat) {
    d < 16 && (c == "0123456789abcdef"[d] as int || c == "0123456789ABCDEF"[d] as int)
  }

  /** Four hexadecimal digits. */
  predicate HexSpells(w: bytes, u: nat) {
    && |w| == 4 && u < 0x1_0000
    && IsHexDigit(w[0], u / 0x1000) && IsHexDigit(w[1], u / 0x100 % 0x10)
    && IsHexDigit(w[2], u / 0x10 % 0x10) && IsHexDigit(w[3], u % 0x10)
  }

  /** The letter e behind a backslash stands for u. */
  predicate IsShort(e: byte, u: nat) {
    || (e == '"' as int && u == 0x22)    // quotation mark
    || (e == '\\' as int && u == 0x5C)   // reverse solidus
    || (e == '/' as int && u == 0x2F)    // solidus
    || (e == 'b' as int && u == 0x08)    // backspace
    || (e == 'f' as int && u == 0x0C)    // form feed
    || (e == 'n' as int && u == 0x0A)    // line feed
    || (e == 'r' as int && u == 0x0D)    // carriage return
    || (e == 't' as int && u == 0x09)    // tab
  }

  predicate HasShort(e: byte) {
    e == '"' as int || e == '\\' as int || e == '/' as int || e == 'b' as int ||
    e == 'f' as int || e == 'n' as int || e == 'r' as int || e == 't' as int
  }

  predicate StartsHex(w: bytes) { |w| >= 2 && w[0] == '\\' as int && w[1] == 'u' as int }

  /** An escape for u: two characters, six, or twelve for a surrogate pair. The code also takes six for a
      low surrogate on its own. */
  ghost predicate EscapeSpells(w: bytes, u: nat) {
    || (|w| == 2 && w[0] == '\\' as int && IsShort(w[1], u))
    || (|w| == 6 && StartsHex(w) && HexSpells(w[2..], u) && !(0xD800 <= u <= 0xDBFF))
    || (|w| == 12 && PairSpells(w, u))
  }

  ghost predicate PairSpells(w: bytes, u: nat)
    requires |w| == 12
  {
    && StartsHex(w) && StartsHex(w[6..])
    && exists high: nat, low: nat :: HexSpells(w[2..6], high) && HexSpells(w[8..], low) &&
         0xD800 <= high <= 0xDBFF && 0xDC00 <= low <= 0xDFFF &&
         u == 0x1_0000 + (high - 0xD800) * 0x400 + (low - 0xDC00)
  }

  /** A character that stands for itself: with validation the encoding of a code point, otherwise a byte. */
  ghost predicate PlainSpells(w: bytes, validate: bool) {
    if validate then exists u: nat :: E.IsScalar(u) && u >= 0x20 && u != 0x22 && u != 0x5C && w == E.Encode(u)
    else |w| == 1 && w[0] >= 0x20 && w[0] != 0x22 && w[0] != 0x5C
  }

  /** w in the text stands for the bytes `out`. */
  ghost predicate Spells(w: bytes, out: bytes, validate: bool) {
    (exists u: nat :: u <= E.MAX_CODEPOINT && EscapeSpells(w, u) && out == E.Encode(u)) ||
    (w == out && PlainSpells(w, validate))
  }

  /** A whole string: spellings, one behind the other. */
  ghost predicate SpellsAll(w: bytes, out: bytes, validate: bool)
    decreases |w|
  {
    (w == [] && out == []) ||
    exists k: nat, m: nat :: 0 < k <= |w| && m <= |out| &&
      Spells(w[..k], out[..m], validate) && SpellsAll(w[k..], out[m..], validate)
  }

  // ----- hexadecimal digits -----

  lemma DigitExactly(c: byte, d: nat)
    ensures HexValue(c) == Some(d) <==> IsHexDigit(c, d)
  {
  }

  /** Four digits of a number in base 16. */
  lemma HexDigits(d0: nat, d1: nat, d2: nat, d3: nat)
    requires d0 < 16 && d1 < 16 && d2 < 16 && d3 < 16
    ensures var u := ((d0 * 0x10 + d1) * 0x10 + d2) * 0x10 + d3;
            u < 0x1_0000 && u / 0x1000 == d0 && u / 0x100 % 0x10 == d1 && u / 0x10 % 0x10 == d2 && u % 0x10 == d3
  {
  }

  lemma HexDigitsBack(u: nat)
    requires u < 0x1_0000
    ensures (((u / 0x1000) * 0x10 + u / 0x100 % 0x10) * 0x10 + u / 0x10 % 0x10) * 0x10 + u % 0x10 == u
  {
  }

  lemma HexUnfolds(s: bytes, p: nat)
    ensures var h0, h1 := HexValue(At(s, p, 0)), HexValue(At(s, p + 1, 0));
            var h2, h3 := HexValue(At(s, p + 2, 0)), HexValue(At(s, p + 3, 0));
            Hex(s, p, 4) ==
              if h0.None? || h1.None? || h2.None? || h3.None? then None
              else Some(((h0.value * 0x10 + h1.value) * 0x10 + h2.value) * 0x10 + h3.value)
  {
    hide HexValue;
    assert Hex(s, p, 0) == Some(0);
    var h0, h1 := HexValue(At(s, p, 0)), HexValue(At(s, p + 1, 0));
    assert Hex(s, p, 1) == h0;
    assert Hex(s, p, 2) == if h0.None? || h1.None? then None else Some(h0.value * 0x10 + h1.value);
    assert Hex(s, p, 3).Some? ==> Hex(s, p, 2).Some?;
  }

  lemma HexExactly(s: bytes, p: nat, u: nat)
    ensures Hex(s, p, 4) == Some(u) <==> p + 4 <= |s| && HexSpells(s[p..p + 4], u)
  {
    hide Hex, HexSpells;
    if Hex(s, p, 4).Some? { HexIsSpelled(s, p); }
    if p + 4 <= |s| && HexSpells(s[p..p + 4], u) { SpelledHex(s, p, u); }
    if Hex(s, p, 4) == Some(u) { assert HexSpells(s[p..p + 4], u); }
  }

  lemma HexIsSpelled(s: bytes, p: nat)
    requires Hex(s, p, 4).Some?
    ensures p + 4 <= |s| && HexSpells(s[p..p + 4], Hex(s, p, 4).value)
  {
    hide *;
    var d0, d1, d2, d3 := FourValues(s, p);
    var w := s[p..p + 4];
    assert w[0] == s[p] && w[1] == s[p + 1] && w[2] == s[p + 2] && w[3] == s[p + 3];
    FourDigits(w, d0, d1, d2, d3);
  }

  lemma FourValues(s: bytes, p: nat) returns (d0: nat, d1: nat, d2: nat, d3: nat)
    requires Hex(s, p, 4).Some?
    ensures p + 4 <= |s| && d0 < 16 && d1 < 16 && d2 < 16 && d3 < 16
    ensures IsHexDigit(s[p], d0) && IsHexDigit(s[p + 1], d1) && IsHexDigit(s[p + 2], d2) && IsHexDigit(s[p + 3], d3)
    ensures Hex(s, p, 4).value == ((d0 * 0x10 + d1) * 0x10 + d2) * 0x10 + d3
  {
    hide *;
    HexUnfolds(s, p);
    DigitAt(s, p);
    DigitAt(s, p + 1);
    DigitAt(s, p + 2);
    DigitAt(s, p + 3);
    d0, d1 := HexValue(At(s, p, 0)).value, HexValue(At(s, p + 1, 0)).value;
    d2, d3 := HexValue(At(s, p + 2, 0)).value, HexValue(At(s, p + 3, 0)).value;
  }

  lemma FourDigits(w: bytes, d0: nat, d1: nat, d2: nat, d3: nat)
    requires |w| == 4 && d0 < 16 && d1 < 16 && d2 < 16 && d3 < 16
    requires IsHexDigit(w[0], d0) && IsHexDigit(w[1], d1) && IsHexDigit(w[2], d2) && IsHexDigit(w[3], d3)
    ensures HexSpells(w, ((d0 * 0x10 + d1) * 0x10 + d2) * 0x10 + d3)
  {
    hide IsHexDigit;
    HexDigits(d0, d1, d2, d3);
  }

  lemma DigitAt(s: bytes, p: nat)
    ensures var h := HexValue(At(s, p, 0)); h.Some? ==> p < |s| && h.value < 16 && IsHexDigit(s[p], h.value)
  {
    var h := HexValue(At(s, p, 0));
    if h.Some? { DigitExactly(At(s, p, 0), h.value); }
  }

  lemma SpelledHex(s: bytes, p: nat, u: nat)
    requires p + 4 <= |s| && HexSpells(s[p..p + 4], u)
    ensures Hex(s, p, 4) == Some(u)
  {
    HexUnfolds(s, p);
    hide HexValue, Hex, IsHexDigit;
    DigitExactly(s[p], u / 0x1000);
    DigitExactly(s[p + 1], u / 0x100 % 0x10);
    DigitExactly(s[p + 2], u / 0x10 % 0x10);
    DigitExactly(s[p + 3], u % 0x10);
    HexDigitsBack(u);
  }

  // ----- one round -----

  lemma ShortExactly(e: byte, u: nat)
    ensures Escape(e) != 0 && Escape(e) == u <==> IsShort(e, u)
    ensures Escape(e) != 0 <==> HasShort(e)
    ensures IsShort(e, u) ==> u < 0x80 && E.Encode(u) == [u]
  {
  }

  /** What an escape at p is, by its length. */
  lemma EscapeHas(s: bytes, p: nat, u: nat)
    requires At(s, p, 0) == BACKSLASH
    ensures p + 2 <= |s| && IsShort(s[p + 1], u) ==> EscapeRound(s, p) == Emit(p + 2, E.Encode(u))
    ensures p + 6 <= |s| && s[p + 1] == 'u' as int && HexSpells(s[p + 2..p + 6], u) && !IsHigh(u) ==>
              u <= E.MAX_CODEPOINT && EscapeRound(s, p) == Emit(p + 6, E.Encode(u))
  {
    hide Hex, HexSpells, E.Encode;
    if p + 2 <= |s| { ShortExactly(s[p + 1], u); }
    HexExactly(s, p + 2, u);
  }

  lemma PairHas(s: bytes, p: nat, high: nat, low: nat)
    requires At(s, p, 0) == BACKSLASH && p + 12 <= |s| && IsHigh(high) && IsLow(low)
    requires s[p + 1] == 'u' as int && s[p + 6] == BACKSLASH && s[p + 7] == 'u' as int
    requires HexSpells(s[p + 2..p + 6], high) && HexSpells(s[p + 8..p + 12], low)
    ensures PairValue(high, low) <= E.MAX_CODEPOINT && EscapeRound(s, p) == Emit(p + 12, E.Encode(PairValue(high, low)))
  {
    HexExactly(s, p + 2, high);
    HexExactly(s, p + 8, low);
    hide Hex, HexSpells, E.Encode;
  }

  lemma SpelledEscape(s: bytes, p: nat, q: nat, u: nat)
    requires p < q <= |s| && EscapeSpells(s[p..q], u)
    ensures s[p] == BACKSLASH && u <= E.MAX_CODEPOINT && EscapeRound(s, p) == Emit(q, E.Encode(u))
  {
    hide HexSpells, EscapeRound, E.Encode;
    var w := s[p..q];
    EscapeHas(s, p, u);
    if |w| == 2 {
      ShortExactly(w[1], u);
    } else if |w| == 6 {
      assert w[2..] == s[p + 2..p + 6];
    } else {
      var high: nat, low: nat :| HexSpells(w[2..6], high) && HexSpells(w[8..], low) &&
        0xD800 <= high <= 0xDBFF && 0xDC00 <= low <= 0xDFFF &&
        u == 0x1_0000 + (high - 0xD800) * 0x400 + (low - 0xDC00);
      assert w[2..6] == s[p + 2..p + 6] && w[8..] == s[p + 8..p + 12];
      assert w[6] == w[6..][0] && w[7] == w[6..][1];
      PairHas(s, p, high, low);
    }
  }

  lemma EscapeIsSpelled(s: bytes, p: nat) returns (u: nat)
    requires p < |s| && s[p] == BACKSLASH && EscapeRound(s, p).Emit?
    ensures var r := EscapeRound(s, p);
            p < r.next <= |s| && u <= E.MAX_CODEPOINT && EscapeSpells(s[p..r.next], u) && r.codeunits == E.Encode(u)
  {
    hide Hex, HexSpells, E.Encode;
    EscapeShrinks(s, p);
    var e, q := At(s, p + 1, 0), EscapeRound(s, p).next;
    var w := s[p..q];
    ShortExactly(e, Escape(e));
    if Escape(e) != 0 {
      u := Escape(e);
    } else {
      u := Hex(s, p + 2, 4).value;
      HexExactly(s, p + 2, u);
      assert w[2..6] == s[p + 2..p + 6];
      if IsHigh(u) {
        var high, low := u, Hex(s, p + 8, 4).value;
        HexExactly(s, p + 8, low);
        assert w[8..] == s[p + 8..p + 12] && w[6..][0] == s[p + 6] && w[6..][1] == s[p + 7];
        u := PairValue(high, low);
        assert PairSpells(w, u);
      }
    }
  }

  lemma EncodeStarts(u: nat)
    requires u <= E.MAX_CODEPOINT
    ensures |E.Encode(u)| > 0 && (if u < 0x80 then E.Encode(u) == [u] else E.Encode(u)[0] >= 0xC0)
  {
  }

  lemma PlainExactly(s: bytes, p: nat, q: nat, validate: bool)
    requires p < q <= |s|
    ensures PlainSpells(s[p..q], validate) <==> s[p] != BACKSLASH && NextRound(s, p, validate) == Emit(q, s[p..q])
  {
    hide E.Encode, E.Decode, EscapeRound;
    E.DecodeExactly(s, p);
    if validate {
      if u: nat :| E.IsScalar(u) && u >= 0x20 && u != 0x22 && u != 0x5C && s[p..q] == E.Encode(u) {
        EncodeStarts(u);
        assert E.HasAt(s, p, E.Encode(u));
        assert s[p] == E.Encode(u)[0];
      }
      if s[p] != BACKSLASH && NextRound(s, p, true) == Emit(q, s[p..q]) {
        var u := E.Decode(s, p).codepoint;
        EncodeStarts(u);
        assert s[p] == E.Encode(u)[0];
        assert s[p..q] == E.Encode(u);
      }
    } else {
      assert s[p..q][0] == s[p];
      assert q == p + 1 ==> s[p..q] == [s[p]];
    }
  }

  /** A round takes exactly the spellings of the table, and puts what they stand for. */
  lemma RoundExactly(s: bytes, p: nat, q: nat, out: bytes, validate: bool)
    requires p <= |s|
    ensures NextRound(s, p, validate) == Emit(q, out) <==> p < q <= |s| && Spells(s[p..q], out, validate)
  {
    hide EscapeSpells, EscapeRound, PlainSpells, E.Encode, E.Decode;
    if NextRound(s, p, validate) == Emit(q, out) {
      RoundShrinks(s, p, validate);
      if s[p] == BACKSLASH {
        var u := EscapeIsSpelled(s, p);
      } else {
        assert out == s[p..q];
        PlainExactly(s, p, q, validate);
      }
    }
    if p < q <= |s| && Spells(s[p..q], out, validate) {
      PlainExactly(s, p, q, validate);
      if u: nat :| u <= E.MAX_CODEPOINT && EscapeSpells(s[p..q], u) && out == E.Encode(u) {
        SpelledEscape(s, p, q, u);
      }
    }
  }

  // ----- whole strings -----

  /** A string is accepted exactly when it is made of spellings up to a quotation mark, and its bytes are
      what they stand for. */
  lemma {:induction false} StringExactly(s: bytes, p: nat, q: nat, str: bytes, validate: bool)
    requires p <= |s|
    ensures DecodeString(s, p, validate) == Done(q, str) <==>
            p < q <= |s| && s[q - 1] == QUOTE && SpellsAll(s[p..q - 1], str, validate)
    decreases |s| - p
  {
    if DecodeString(s, p, validate) == Done(q, str) { DecodedIsSpelled(s, p, q, str, validate); }
    if p < q <= |s| && s[q - 1] == QUOTE && SpellsAll(s[p..q - 1], str, validate) {
      SpelledIsDecoded(s, p, q, str, validate);
    }
  }

  lemma {:induction false} DecodedIsSpelled(s: bytes, p: nat, q: nat, str: bytes, validate: bool)
    requires p <= |s| && DecodeString(s, p, validate) == Done(q, str)
    ensures p < q <= |s| && s[q - 1] == QUOTE && SpellsAll(s[p..q - 1], str, validate)
    decreases |s| - p
  {
    hide NextRound, Spells;
    var r := NextRound(s, p, validate);
    if r.Emit? {
      RoundShrinks(s, p, validate);
      RoundExactly(s, p, r.next, r.codeunits, validate);
      var rest := str[|r.codeunits|..];
      DecodedIsSpelled(s, r.next, q, rest, validate);
      var w, k, m := s[p..q - 1], r.next - p, |r.codeunits|;
      assert w[..k] == s[p..r.next] && w[k..] == s[r.next..q - 1];
      assert str[..m] == r.codeunits && str[m..] == rest;
      assert Spells(w[..k], str[..m], validate) && SpellsAll(w[k..], str[m..], validate);
    } else {
      CloseInside(s, p, validate);
      assert s[p..p] == [];
    }
  }

  lemma {:induction false} SpelledIsDecoded(s: bytes, p: nat, q: nat, str: bytes, validate: bool)
    requires p < q <= |s| && s[q - 1] == QUOTE && SpellsAll(s[p..q - 1], str, validate)
    ensures DecodeString(s, p, validate) == Done(q, str)
    decreases q - p
  {
    hide NextRound, Spells, SpellsAll;
    if q == p + 1 {
      assert s[p..q - 1] == [];
      NothingSpelled(str, validate);
      ClosesHere(s, p, validate);
    } else {
      var w := s[p..q - 1];
      var k, m := FirstSpelling(w, str, validate);
      assert w[..k] == s[p..p + k] && w[k..] == s[p + k..q - 1];
      RoundExactly(s, p, p + k, str[..m], validate);
      SpelledIsDecoded(s, p + k, q, str[m..], validate);
      assert str[..m] + str[m..] == str;
    }
  }

  lemma ClosesHere(s: bytes, p: nat, validate: bool)
    requires p < |s| && s[p] == QUOTE
    ensures NextRound(s, p, validate) == Close
  {
  }

  lemma NothingSpelled(out: bytes, validate: bool)
    ensures SpellsAll([], out, validate) <==> out == []
  {
  }

  lemma FirstSpelling(w: bytes, out: bytes, validate: bool) returns (k: nat, m: nat)
    requires SpellsAll(w, out, validate) && w != []
    ensures 0 < k <= |w| && m <= |out| && Spells(w[..k], out[..m], validate) && SpellsAll(w[k..], out[m..], validate)
  {
    hide Spells;
    k, m :| 0 < k <= |w| && m <= |out| && Spells(w[..k], out[..m], validate) && SpellsAll(w[k..], out[m..], validate);
  }

  // ----- what is refused -----

  /** Every round that is no spelling and no closing quote has its error: for the end of the text, for a
      character that must be escaped or is no UTF-8, for an unknown escape, for missing digits, and for
      a surrogate without its pair. */
  lemma RefusedExactly(s: bytes, p: nat, validate: bool)
    requires p <= |s|
    ensures var c, e, r := At(s, p, 0), At(s, p + 1, 0), NextRound(s, p, validate);
            && (r == Close <==> c == QUOTE)
            && (r == Fail(MissQuotationMark, p) <==> c == 0)
            && (r == Fail(InvalidEncoding, p) <==>
                c != 0 && c != QUOTE && c != BACKSLASH &&
                forall q :: p < q <= |s| ==> !PlainSpells(s[p..q], validate))
            && (r == Fail(EscapeInvalid, p) <==> c == BACKSLASH && e != 'u' as int && !HasShort(e))
  {
    hide EscapeSpells, PlainSpells, Hex, E.Encode, E.Decode;
    ShortExactly(At(s, p + 1, 0), 0);
    var r := NextRound(s, p, validate);
    forall q | p < q <= |s|
      ensures PlainSpells(s[p..q], validate) <==> s[p] != BACKSLASH && r == Emit(q, s[p..q])
    {
      PlainExactly(s, p, q, validate);
    }
    if r.Emit? && At(s, p, 0) != BACKSLASH {
      RoundShrinks(s, p, validate);
      assert r.codeunits == s[p..r.next];
    }
  }

  /** Four hexadecimal digits for u stand at p. */
  predicate HexAt(s: bytes, p: nat, u: nat) { p + 4 <= |s| && HexSpells(s[p..p + 4], u) }

  ghost predicate HasHex(s: bytes, p: nat) { exists u: nat :: HexAt(s, p, u) }
  ghost predicate HasHigh(s: bytes, p: nat) { exists u: nat :: HexAt(s, p, u) && 0xD800 <= u <= 0xDBFF }
  ghost predicate HasLow(s: bytes, p: nat) { exists u: nat :: HexAt(s, p, u) && 0xDC00 <= u <= 0xDFFF }

  lemma HexMeans(s: bytes, p: nat)
    ensures HasHex(s, p) <==> Hex(s, p, 4).Some?
    ensures HasHigh(s, p) <==> Hex(s, p, 4).Some? && IsHigh(Hex(s, p, 4).value)
    ensures HasLow(s, p) <==> Hex(s, p, 4).Some? && IsLow(Hex(s, p, 4).value)
  {
    hide Hex, HexSpells;
    forall u: nat
      ensures HexAt(s, p, u) <==> Hex(s, p, 4) == Some(u)
    {
      HexExactly(s, p, u);
    }
    if Hex(s, p, 4).Some? { assert HexAt(s, p, Hex(s, p, 4).value); }
  }

  /** Behind a backslash and u: digits are missing exactly where four of them do not stand, for the first
      number or, behind a high surrogate and another such start, for the second; a surrogate is refused
      exactly where the second escape is missing or is no low one. */
  lemma BadHexExactly(s: bytes, p: nat, validate: bool)
    requires p + 1 < |s| && s[p] == BACKSLASH && s[p + 1] == 'u' as int
    ensures var again := p + 8 <= |s| && s[p + 6] == BACKSLASH && s[p + 7] == 'u' as int;
            && (NextRound(s, p, validate) == Fail(UnicodeEscapeInvalidHex, p) <==>
                !HasHex(s, p + 2) || (HasHigh(s, p + 2) && again && !HasHex(s, p + 8)))
            && (NextRound(s, p, validate) == Fail(UnicodeSurrogateInvalid, p) <==>
                HasHigh(s, p + 2) && (!again || (HasHex(s, p + 8) && !HasLow(s, p + 8))))
  {
    HexMeans(s, p + 2);
    HexMeans(s, p + 8);
    hide Hex, HasHex, HasHigh, HasLow, E.Encode;
  }

  /** Spellings from p to q, and no round from there. */
  ghost predicate BreaksOff(s: bytes, p: nat, q: nat, validate: bool, error: Error, offset: nat) {
    p <= q <= |s| && (exists str: bytes :: SpellsAll(s[p..q], str, validate)) &&
    NextRound(s, q, validate) == Fail(error, offset)
  }

  lemma {:induction false} BadBreaksOff(s: bytes, p: nat, validate: bool, error: Error, offset: nat) returns (q: nat)
    requires p <= |s| && DecodeString(s, p, validate) == Bad(error, offset)
    ensures BreaksOff(s, p, q, validate, error, offset)
    decreases |s| - p
  {
    hide NextRound, Spells;
    var r := NextRound(s, p, validate);
    if r.Fail? {
      q := p;
      assert SpellsAll(s[p..p], [], validate) by { NothingSpelled([], validate); assert s[p..p] == []; }
    } else {
      RoundShrinks(s, p, validate);
      RoundExactly(s, p, r.next, r.codeunits, validate);
      q := BadBreaksOff(s, r.next, validate, error, offset);
      var str :| SpellsAll(s[r.next..q], str, validate);
      OneMore(s, p, r.next, q, r.codeunits, str, validate);
    }
  }

  lemma OneMore(s: bytes, p: nat, m: nat, q: nat, out: bytes, str: bytes, validate: bool)
    requires p < m <= q <= |s| && Spells(s[p..m], out, validate) && SpellsAll(s[m..q], str, validate)
    ensures SpellsAll(s[p..q], out + str, validate)
  {
    hide Spells;
    var w, k, n := s[p..q], m - p, |out|;
    assert w[..k] == s[p..m] && w[k..] == s[m..q] && (out + str)[..n] == out && (out + str)[n..] == str;
    assert Spells(w[..k], (out + str)[..n], validate) && SpellsAll(w[k..], (out + str)[n..], validate);
  }

  lemma {:induction false} BrokenIsBad(s: bytes, p: nat, q: nat, str: bytes, validate: bool, error: Error, offset: nat)
    requires p <= q <= |s| && SpellsAll(s[p..q], str, validate) && NextRound(s, q, validate) == Fail(error, offset)
    ensures DecodeString(s, p, validate) == Bad(error, offset)
    decreases q - p
  {
    hide NextRound, Spells;
    if p < q {
      var w := s[p..q];
      var k, m := FirstSpelling(w, str, validate);
      hide SpellsAll;
      assert w[..k] == s[p..p + k] && w[k..] == s[p + k..q];
      RoundExactly(s, p, p + k, str[..m], validate);
      BrokenIsBad(s, p + k, q, str[m..], validate, error, offset);
    }
  }

  /** A string fails exactly where a round fails behind spellings, with the error and the offset of that round. */
  lemma FailsExactly(s: bytes, p: nat, validate: bool, error: Error, offset: nat)
    requires p <= |s|
    ensures DecodeString(s, p, validate) == Bad(error, offset) <==>
            exists q: nat :: BreaksOff(s, p, q, validate, error, offset)
  {
    hide DecodeString, SpellsAll, NextRound;
    if DecodeString(s, p, validate) == Bad(error, offset) { var q := BadBreaksOff(s, p, validate, error, offset); }
    if q: nat :| BreaksOff(s, p, q, validate, error, offset) {
      var str :| SpellsAll(s[p..q], str, validate);
      BrokenIsBad(s, p, q, str, validate, error, offset);
    }
  }
}
