/** ParseString of rapidjson/reader.h on UTF-8 text: what a quoted string denotes. */
module Strings {
  import opened Json
  import opened Streams
  import E = Encodings

  datatype Error =
    | MissQuotationMark
    | InvalidEncoding
    | EscapeInvalid
    | UnicodeEscapeInvalidHex
    | UnicodeSurrogateInvalid

  /** One round of the decoding loop: the closing quote, some bytes to put, or an error and its offset. */
  datatype Round = Close | Emit(next: nat, codeunits: bytes) | Fail(error: Error, offset: nat)

  const BACKSLASH: byte := 0x5C
  const QUOTE: byte := 0x22

  /** The table escape[256]. */
  function Escape(e: byte): byte {
    if e == QUOTE || e == '/' as int || e == BACKSLASH then e
    else if e == 'b' as int then 0x08
    else if e == 'f' as int then 0x0C
    else if e == 'n' as int then 0x0A
    else if e == 'r' as int then 0x0D
    else if e == 't' as int then 0x09
    else 0
  }

  function HexValue(c: byte): Option<nat> {
    if '0' as int <= c <= '9' as int then Some(c - '0' as int)
    else if 'A' as int <= c <= 'F' as int then Some(c - ('A' as int - 10))
    else if 'a' as int <= c <= 'f' as int then Some(c - ('a' as int - 10))
    else None
  }

  /** The first n of four hexadecimal digits at p. */
  function Hex(s: bytes, p: nat, n: nat): (r: Option<nat>)
    requires n <= 4
    ensures r.Some? ==>
            r.value < if n == 4 then 0x1_0000 else if n == 3 then 0x1000 else if n == 2 then 0x100
            else if n == 1 then 0x10 else 1
    ensures r.Some? && p <= |s| ==> p + n <= |s|
  {
    if n == 0 then Some(0)
    else
      var high, low := Hex(s, p, n - 1), HexValue(At(s, p + n - 1, 0));
      if high.None? || low.None? then None else Some(high.value * 0x10 + low.value)
  }

  predicate IsHigh(u: int) { 0xD800 <= u <= 0xDBFF }
  predicate IsLow(u: int) { 0xDC00 <= u <= 0xDFFF }

  /** The code point of a surrogate pair. */
  function PairValue(high: nat, low: nat): nat
    requires IsHigh(high) && IsLow(low)
  {
    (high - 0xD800) * 0x400 + (low - 0xDC00) + 0x1_0000
  }

  /** An escape: p is at its backslash. A low surrogate without a high one is encoded as it is. */
  function EscapeRound(s: bytes, p: nat): Round {
    var e := At(s, p + 1, 0);
    if Escape(e) != 0 then Emit(p + 2, [Escape(e)])
    else if e != 'u' as int then Fail(EscapeInvalid, p)
    else match Hex(s, p + 2, 4)
      case None => Fail(UnicodeEscapeInvalidHex, p)
      case Some(u) =>
        if !IsHigh(u) then Emit(p + 6, E.Encode(u))
        else if At(s, p + 6, 0) != BACKSLASH || At(s, p + 7, 0) != 'u' as int then Fail(UnicodeSurrogateInvalid, p)
        else match Hex(s, p + 8, 4)
          case None => Fail(UnicodeEscapeInvalidHex, p)
          case Some(u2) =>
            if IsLow(u2) then Emit(p + 12, E.Encode(PairValue(u, u2))) else Fail(UnicodeSurrogateInvalid, p)
  }

  /** One round of the loop of ParseStringToStream, source and target both UTF-8. */
  function NextRound(s: bytes, p: nat, validate: bool): Round {
    var c := At(s, p, 0);
    if c == BACKSLASH then EscapeRound(s, p)
    else if c == QUOTE then Close
    else if c == 0 then Fail(MissQuotationMark, p)
    else if c < 0x20 then Fail(InvalidEncoding, p)
    else if !validate then Emit(p + 1, [c])
    else
      var d := E.Decode(s, p);
      if d.ok && p + d.taken <= |s| then Emit(p + d.taken, s[p..p + d.taken]) else Fail(InvalidEncoding, p)
  }

  /** What is put never outgrows what was read: this is what lets the string be decoded in place. */
  lemma RoundShrinks(s: bytes, p: nat, validate: bool)
    requires p <= |s| && NextRound(s, p, validate).Emit?
    ensures var r := NextRound(s, p, validate); p < r.next <= |s| && 1 <= |r.codeunits| <= r.next - p
  {
    if At(s, p, 0) == BACKSLASH {
      EscapeShrinks(s, p);
    } else if validate {
      E.DecodeIsRfc(s, p);
    }
  }

  lemma EscapeShrinks(s: bytes, p: nat)
    requires p < |s| && EscapeRound(s, p).Emit?
    ensures var r := EscapeRound(s, p); p < r.next <= |s| && 1 <= |r.codeunits| <= r.next - p
  {
  }

  /** The rest of a string from p: its bytes and the position behind the closing quote. */
  datatype Decoded = Done(next: nat, str: bytes) | Bad(error: Error, offset: nat)

  function DecodeString(s: bytes, p: nat, validate: bool): Decoded
    requires p <= |s|
    decreases |s| - p
  {
    match NextRound(s, p, validate)
    case Close => Done(p + 1, [])
    case Fail(error, offset) => Bad(error, offset)
    case Emit(next, codeunits) =>
      RoundShrinks(s, p, validate);
      Prepend(codeunits, DecodeString(s, next, validate))
  }

  function Prepend(codeunits: bytes, d: Decoded): Decoded {
    if d.Done? then Done(d.next, codeunits + d.str) else d
  }

  lemma {:induction false} DecodeStringBounds(s: bytes, p: nat, validate: bool)
    requires p <= |s| && DecodeString(s, p, validate).Done?
    ensures var d := DecodeString(s, p, validate); p < d.next <= |s| && |d.str| < d.next - p
    decreases |s| - p
  {
    hide NextRound;
    if NextRound(s, p, validate).Emit? {
      RoundShrinks(s, p, validate);
      DecodeStringBounds(s, NextRound(s, p, validate).next, validate);
    } else {
      CloseInside(s, p, validate);
    }
  }

  lemma CloseInside(s: bytes, p: nat, validate: bool)
    requires p <= |s| && NextRound(s, p, validate).Close?
    ensures p < |s| && s[p] == QUOTE
  {
  }

  // ----- reading from memory -----

  /** The decode fails in a round that begins a sequence reaching past the terminator of the text. All
      bytes of a sequence are taken before it is refused. */
  predicate Overruns(s: bytes, p: nat)
    requires p <= |s|
    decreases |s| - p
  {
    match NextRound(s, p, true)
    case Close => false
    case Fail(_, _) => At(s, p, 0) != BACKSLASH && At(s, p, 0) >= 0x20 && p + E.Decode(s, p).taken > |s| + 1
    case Emit(next, _) =>
      RoundShrinks(s, p, true);
      Overruns(s, next)
  }

  /** Without the validating flag no sequence is taken as a whole. */
  predicate ReadsInside(s: bytes, p: nat, validate: bool)
    requires p <= |s|
  {
    validate ==> !Overruns(s, p)
  }

  /** What the memory of a text has at p: the null at its end. */
  lemma Reads(memory: bytes, text: bytes, p: nat)
    requires Terminates(memory, text) && p <= |text|
    ensures p < |memory| && memory[p] == At(text, p, 0)
  {
  }

  /** F0 in front of the terminator: four bytes are taken, two of them from behind it. */
  lemma LeadByteOverruns(text: bytes)
    requires text == [0xF0]
    ensures Overruns(text, 0) && DecodeString(text, 0, true) == Bad(InvalidEncoding, 0)
    ensures E.Decode(text, 0).taken == 4 > |text| + 1
  {
    LeadByteTakesFour(text);
    hide E.Decode;
    assert NextRound(text, 0, true) == Fail(InvalidEncoding, 0);
    hide NextRound;
  }

  lemma LeadByteTakesFour(text: bytes)
    requires text == [0xF0]
    ensures E.Decode(text, 0).taken == 4 && !E.Decode(text, 0).ok
  {
    E.TypeMeans(0xF0);
    E.NullIsNoTail();
    hide E.InRange, E.GetRange, E.LeadBits, E.AddBits;
  }

  /** Only a sequence cut off by the terminator can do it: the last byte or the last but one begins it. */
  lemma {:induction false} OverrunsAtTheEnd(s: bytes, p: nat)
    requires p <= |s| && Overruns(s, p)
    ensures |s| > p && (s[|s| - 1] >= 0xE0 || (|s| > 1 && s[|s| - 2] >= 0xF0))
    decreases |s| - p
  {
    if NextRound(s, p, true).Emit? {
      RoundShrinks(s, p, true);
      OverrunsAtTheEnd(s, NextRound(s, p, true).next);
    } else {
      LongSequence(s, p);
    }
  }

  lemma LongSequence(s: bytes, p: nat)
    requires p < |s|
    ensures E.Decode(s, p).taken > 2 ==> s[p] >= 0xE0
    ensures E.Decode(s, p).taken > 3 ==> s[p] >= 0xF0
    ensures E.Decode(s, p).taken <= 4
  {
    hide E.InRange, E.LeadBits, E.AddBits;
    E.TypeMeans(s[p]);
  }

  // ----- well-formed strings -----

  /** A \u escape that denotes a surrogate on its own. */
  predicate IsLoneSurrogate(s: bytes, p: nat) {
    At(s, p, 0) == BACKSLASH && At(s, p + 1, 0) == 'u' as int &&
    Hex(s, p + 2, 4).Some? && IsLow(Hex(s, p + 2, 4).value)
  }

  /** No round of the loop meets a lone surrogate. */
  predicate NoLoneSurrogate(s: bytes, p: nat)
    requires p <= |s|
    decreases |s| - p
  {
    var r := NextRound(s, p, true);
    if !r.Emit? then true
    else
      RoundShrinks(s, p, true);
      !IsLoneSurrogate(s, p) && NoLoneSurrogate(s, r.next)
  }

  /** With validation every round puts the encoding of one code point. */
  lemma RoundIsEncode(s: bytes, p: nat) returns (u: nat)
    requires p <= |s| && NextRound(s, p, true).Emit?
    ensures u <= E.MAX_CODEPOINT && NextRound(s, p, true).codeunits == E.Encode(u)
    ensures E.IsScalar(u) <==> !IsLoneSurrogate(s, p)
  {
    var c, e := At(s, p, 0), At(s, p + 1, 0);
    if c != BACKSLASH {
      E.DecodeExactly(s, p);
      u := E.Decode(s, p).codepoint;
    } else if Escape(e) != 0 {
      u := Escape(e);
    } else if !IsHigh(Hex(s, p + 2, 4).value) {
      u := Hex(s, p + 2, 4).value;
    } else {
      u := PairValue(Hex(s, p + 2, 4).value, Hex(s, p + 8, 4).value);
    }
  }

  lemma {:induction false} WellFormedShift(a: bytes, s: bytes, p: nat)
    requires p <= |s|
    ensures E.WellFormed(a + s, |a| + p) == E.WellFormed(s, p)
    decreases |s| - p
  {
    var t := a + s;
    assert E.SequenceLength(t, |a| + p) == E.SequenceLength(s, p) by {
      assert forall i: nat {:trigger t[|a| + i]} :: i < |s| ==> t[|a| + i] == s[i];
    }
    hide E.SequenceLength;
    if p < |s| && E.SequenceLength(s, p) > 0 {
      SequenceInside(s, p);
      WellFormedShift(a, s, p + E.SequenceLength(s, p));
    }
  }

  lemma SequenceInside(s: bytes, p: nat)
    ensures p <= |s| ==> p + E.SequenceLength(s, p) <= |s|
  {
  }

  lemma WellFormedEncode(u: nat, rest: bytes)
    requires u <= E.MAX_CODEPOINT
    ensures E.WellFormed(E.Encode(u) + rest, 0) <==> E.IsScalar(u) && E.WellFormed(rest, 0)
  {
    var w := E.Encode(u);
    E.EncodeShort(u);
    assert (w + rest)[0..0 + |w|] == w;
    E.EncodeIsSequence(w + rest, 0, u);
    WellFormedShift(w, rest, 0);
  }

  /** With the validating flag an accepted string is well-formed UTF-8 exactly when no lone
      low surrogate was escaped in it. */
  lemma {:induction false} ValidatedStrings(s: bytes, p: nat)
    requires p <= |s| && DecodeString(s, p, true).Done?
    ensures E.WellFormed(DecodeString(s, p, true).str, 0) <==> NoLoneSurrogate(s, p)
    decreases |s| - p
  {
    hide NextRound, IsLoneSurrogate, E.Encode, E.WellFormed;
    var r := NextRound(s, p, true);
    if r.Emit? {
      RoundShrinks(s, p, true);
      var u := RoundIsEncode(s, p);
      ValidatedStrings(s, r.next);
      WellFormedEncode(u, DecodeString(s, r.next, true).str);
    } else {
      NothingIsWellFormed();
    }
  }

  lemma NothingIsWellFormed()
    ensures E.WellFormed([], 0)
  {
  }

  /** An escaped low surrogate is let through, although what it leaves is not UTF-8. */
  lemma LoneSurrogateIsLetThrough()
    ensures var s: bytes := [BACKSLASH, 'u' as int, 'D' as int, 'C' as int, '0' as int, '0' as int, QUOTE];
            && DecodeString(s, 0, true) == Done(7, [0xED, 0xB0, 0x80])
            && !E.WellFormed([0xED, 0xB0, 0x80], 0)
  {
    var s: bytes := [BACKSLASH, 'u' as int, 'D' as int, 'C' as int, '0' as int, '0' as int, QUOTE];
    assert Hex(s, 2, 0) == Some(0);
    assert Hex(s, 2, 1) == Some(0xD);
    assert Hex(s, 2, 2) == Some(0xDC);
    assert Hex(s, 2, 3) == Some(0xDC0);
    assert Hex(s, 2, 4) == Some(0xDC00);
    assert NextRound(s, 0, true) == Emit(6, [0xED, 0xB0, 0x80]);
    assert NextRound(s, 6, true) == Close;
    assert DecodeString(s, 6, true) == Done(7, []);
  }
}
