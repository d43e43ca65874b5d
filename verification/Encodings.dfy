/** UTF-8, UTF-16 and transcoding between them (rapidjson/encodings.h).
    Shifts and masks are written as division and remainder; an `or` of disjoint bits as a sum. */
module Encodings {
  import opened Json
  import opened Streams

  /** A UTF-16 code unit. */
  type unit16 = x: int | 0 <= x < 0x1_0000

  /** What one Decode does: its verdict, the code point it leaves, and how often it called Take. */
  datatype Decoded = Decoded(ok: bool, codepoint: nat, taken: nat)

  const MAX_CODEPOINT := 0x10FFFF

  predicate IsSurrogate(u: int) { 0xD800 <= u <= 0xDFFF }

  /** A Unicode scalar value. */
  predicate IsScalar(u: int) { 0 <= u <= MAX_CODEPOINT && !IsSurrogate(u) }

  predicate Between(b: int, lo: int, hi: int) { lo <= b <= hi }

  // ----- UTF-8 -----

  /** UTF8::Encode. The source asserts the bound. */
  function Encode(u: nat): bytes
    requires u <= MAX_CODEPOINT
  {
    if u <= 0x7F then [u]
    else if u <= 0x7FF then [0xC0 + u / 0x40, 0x80 + u % 0x40]
    else if u <= 0xFFFF then [0xE0 + u / 0x1000, 0x80 + u / 0x40 % 0x40, 0x80 + u % 0x40]
    else [0xF0 + u / 0x4_0000, 0x80 + u / 0x1000 % 0x40, 0x80 + u / 0x40 % 0x40, 0x80 + u % 0x40]
  }

  /** The table of GetRange, row by row. */
  function GetRange(c: byte): bv8 {
    if c < 0x80 then 0
    else if c < 0x90 then 0x10
    else if c < 0xA0 then 0x40
    else if c < 0xC0 then 0x20
    else if c < 0xC2 then 8
    else if c < 0xE0 then 2
    else if c == 0xE0 then 10
    else if c == 0xED then 4
    else if c < 0xF0 then 3
    else if c == 0xF0 then 11
    else if c < 0xF4 then 6
    else if c == 0xF4 then 5
    else 8
  }

  /** RAPIDJSON_TRANS: does the type of c meet the mask? */
  predicate InRange(c: byte, mask: bv8) { GetRange(c) & mask != 0 }

  /** The bits of a first byte that belong to the code point: (0xFF >> type) & c. */
  function LeadBits(c: byte): nat {
    var kind := GetRange(c);
    if kind == 2 then c % 0x40
    else if kind == 3 then c % 0x20
    else if kind == 4 then c % 0x10
    else if kind == 5 then c % 8
    else if kind == 6 then c % 4
    else 0
  }

  /** RAPIDJSON_COPY: six more bits. */
  function AddBits(codepoint: nat, c: byte): nat { codepoint * 0x40 + c % 0x40 }

  /** UTF8::Decode on the text from p. All bytes of a sequence are taken before it is refused. */
  function Decode(s: bytes, p: nat): Decoded {
    var c, c1, c2, c3 := At(s, p, 0), At(s, p + 1, 0), At(s, p + 2, 0), At(s, p + 3, 0);
    var kind, u1 := GetRange(c), AddBits(LeadBits(c), c1);
    var u2 := AddBits(u1, c2);
    var u3 := AddBits(u2, c3);
    if c < 0x80 then Decoded(true, c, 1)
    else if kind == 2 then Decoded(InRange(c1, 0x70), u1, 2)
    else if kind == 3 then Decoded(InRange(c1, 0x70) && InRange(c2, 0x70), u2, 3)
    else if kind == 4 then Decoded(InRange(c1, 0x50) && InRange(c2, 0x70), u2, 3)
    else if kind == 5 then Decoded(InRange(c1, 0x10) && InRange(c2, 0x70) && InRange(c3, 0x70), u3, 4)
    else if kind == 6 then Decoded(InRange(c1, 0x70) && InRange(c2, 0x70) && InRange(c3, 0x70), u3, 4)
    else if kind == 10 then Decoded(InRange(c1, 0x20) && InRange(c2, 0x70), u2, 3)
    else if kind == 11 then Decoded(InRange(c1, 0x60) && InRange(c2, 0x70) && InRange(c3, 0x70), u3, 4)
    else Decoded(false, LeadBits(c), 1)
  }

  // ----- RFC 3629 -----

  predicate Tail(b: int) { Between(b, 0x80, 0xBF) }

  predicate TwoBytes(b0: int, b1: int) { Between(b0, 0xC2, 0xDF) && Tail(b1) }

  predicate ThreeBytes(b0: int, b1: int, b2: int) {
    || (b0 == 0xE0 && Between(b1, 0xA0, 0xBF) && Tail(b2))
    || (Between(b0, 0xE1, 0xEC) && Tail(b1) && Tail(b2))
    || (b0 == 0xED && Between(b1, 0x80, 0x9F) && Tail(b2))
    || (Between(b0, 0xEE, 0xEF) && Tail(b1) && Tail(b2))
  }

  predicate FourBytes(b0: int, b1: int, b2: int, b3: int) {
    || (b0 == 0xF0 && Between(b1, 0x90, 0xBF) && Tail(b2) && Tail(b3))
    || (Between(b0, 0xF1, 0xF3) && Tail(b1) && Tail(b2) && Tail(b3))
    || (b0 == 0xF4 && Between(b1, 0x80, 0x8F) && Tail(b2) && Tail(b3))
  }

  /** The length of the UTF8-char of section 4 of RFC 3629 at p; 0 when there is none. */
  function SequenceLength(s: bytes, p: nat): nat {
    if p + 1 <= |s| && s[p] <= 0x7F then 1
    else if p + 2 <= |s| && TwoBytes(s[p], s[p + 1]) then 2
    else if p + 3 <= |s| && ThreeBytes(s[p], s[p + 1], s[p + 2]) then 3
    else if p + 4 <= |s| && FourBytes(s[p], s[p + 1], s[p + 2], s[p + 3]) then 4
    else 0
  }

  /** Section 3 of RFC 3629: the number that the x bits of the sequence form. */
  function CharNumber(s: bytes, p: nat): int
    requires SequenceLength(s, p) > 0
  {
    var n := SequenceLength(s, p);
    if n == 1 then s[p] as int
    else if n == 2 then 0x40 * (s[p] as int - 0xC0) + (s[p + 1] as int - 0x80)
    else if n == 3 then
      0x1000 * (s[p] as int - 0xE0) + 0x40 * (s[p + 1] as int - 0x80) + (s[p + 2] as int - 0x80)
    else
      0x4_0000 * (s[p] as int - 0xF0) + 0x1000 * (s[p + 1] as int - 0x80) + 0x40 * (s[p + 2] as int - 0x80)
      + (s[p + 3] as int - 0x80)
  }

  /** What a mask of the table means as a range of bytes. */
  lemma MaskMeans(c: byte)
    ensures InRange(c, 0x70) <==> Tail(c)
    ensures InRange(c, 0x50) <==> Between(c, 0x80, 0x9F)
    ensures InRange(c, 0x10) <==> Between(c, 0x80, 0x8F)
    ensures InRange(c, 0x20) <==> Between(c, 0xA0, 0xBF)
    ensures InRange(c, 0x60) <==> Between(c, 0x90, 0xBF)
  {
  }

  /** What the type of a first byte means. */
  lemma TypeMeans(c: byte)
    ensures GetRange(c) == 2 <==> Between(c, 0xC2, 0xDF)
    ensures GetRange(c) == 3 <==> Between(c, 0xE1, 0xEC) || Between(c, 0xEE, 0xEF)
    ensures GetRange(c) == 4 <==> c == 0xED
    ensures GetRange(c) == 5 <==> c == 0xF4
    ensures GetRange(c) == 6 <==> Between(c, 0xF1, 0xF3)
    ensures GetRange(c) == 10 <==> c == 0xE0
    ensures GetRange(c) == 11 <==> c == 0xF0
    ensures GetRange(c) == 2 ==> LeadBits(c) == c - 0xC0
    ensures GetRange(c) == 3 || c == 0xED || c == 0xE0 ==> LeadBits(c) == c - 0xE0
    ensures GetRange(c) == 6 || c == 0xF4 || c == 0xF0 ==> LeadBits(c) == c - 0xF0
  {
  }

  /** Decode accepts exactly the sequences of RFC 3629, takes all their bytes and gives their number. */
  lemma DecodeIsRfc(s: bytes, p: nat)
    requires p < |s|
    ensures Decode(s, p).ok <==> SequenceLength(s, p) > 0
    ensures Decode(s, p).ok ==> Decode(s, p).taken == SequenceLength(s, p) && Decode(s, p).codepoint == CharNumber(s, p)
  {
    hide InRange, GetRange, LeadBits;
    var c, c1, c2, c3 := At(s, p, 0), At(s, p + 1, 0), At(s, p + 2, 0), At(s, p + 3, 0);
    TypeMeans(c);
    MaskMeans(c1);
    MaskMeans(c2);
    MaskMeans(c3);
  }

  // ----- text with a terminator -----

  lemma NullIsNoTail()
    ensures !InRange(0, 0x70) && !InRange(0, 0x50) && !InRange(0, 0x10) && !InRange(0, 0x20) && !InRange(0, 0x60)
  {
  }

  /** What lies behind the terminator of a text never matters for the verdict, although it may be
      read: up to two bytes of it. */
  lemma DecodeUpToNull(text: bytes, memory: bytes, p: nat)
    requires p < |text| && Terminates(memory, text)
    ensures var d := Decode(memory, p);
            && d.ok == Decode(text, p).ok && 1 <= d.taken == Decode(text, p).taken && p + d.taken <= |text| + 3
            && (d.ok ==>
                d == Decode(text, p) && p + d.taken <= |text| && memory[p..p + d.taken] == text[p..p + d.taken])
  {
    hide InRange, GetRange, LeadBits, AddBits;
    NullIsNoTail();
    assert forall i :: 0 <= i < |text| ==> memory[i] == text[i];
    var n := Decode(text, p).taken;
    if Decode(text, p).ok {
      assert memory[p..p + n] == memory[..|text|][p..p + n];
    }
  }

  // ----- decoding undoes encoding -----

  predicate HasAt<Ch(==)>(s: seq<Ch>, p: nat, w: seq<Ch>) { p + |w| <= |s| && s[p..p + |w|] == w }

  /** Six-bit digits and the number they form. */
  lemma Sextets(x0: nat, x1: nat, x2: nat, x3: nat)
    requires x1 < 0x40 && x2 < 0x40 && x3 < 0x40
    ensures var u := 0x4_0000 * x0 + 0x1000 * x1 + 0x40 * x2 + x3;
            && u / 0x4_0000 == x0 && u / 0x1000 % 0x40 == x1 && u / 0x40 % 0x40 == x2 && u % 0x40 == x3
            && (x0 == 0 ==> u / 0x1000 == x1 && (x1 == 0 ==> u / 0x40 == x2))
  {
    var u := 0x4_0000 * x0 + 0x1000 * x1 + 0x40 * x2 + x3;
    assert u / 0x40 == 0x1000 * x0 + 0x40 * x1 + x2;
    assert u / 0x1000 == 0x40 * x0 + x1;
  }

  lemma SextetsOf(u: nat)
    ensures u == 0x4_0000 * (u / 0x4_0000) + 0x1000 * (u / 0x1000 % 0x40) + 0x40 * (u / 0x40 % 0x40) + u % 0x40
  {
    assert u / 0x40 / 0x40 == u / 0x1000;
    assert u / 0x1000 / 0x40 == u / 0x4_0000;
  }

  lemma EncodedTwo(u: nat)
    requires 0x7F < u <= 0x7FF
    ensures var w := Encode(u);
            |w| == 2 && TwoBytes(w[0], w[1]) && 0x40 * (w[0] as int - 0xC0) + (w[1] as int - 0x80) == u
  {
  }

  lemma EncodedThree(u: nat)
    requires 0x7FF < u <= 0xFFFF
    ensures var w := Encode(u);
            && |w| == 3 && w[0] >= 0xE0
            && 0x1000 * (w[0] as int - 0xE0) + 0x40 * (w[1] as int - 0x80) + (w[2] as int - 0x80) == u
            && (ThreeBytes(w[0], w[1], w[2]) <==> !IsSurrogate(u))
            && w[0] < 0xF0
  {
    SextetsOf(u);
  }

  lemma EncodedFour(u: nat)
    requires 0xFFFF < u <= MAX_CODEPOINT
    ensures var w := Encode(u);
            && |w| == 4 && w[0] >= 0xF0 && FourBytes(w[0], w[1], w[2], w[3])
            && 0x4_0000 * (w[0] as int - 0xF0) + 0x1000 * (w[1] as int - 0x80) + 0x40 * (w[2] as int - 0x80)
               + (w[3] as int - 0x80) == u
  {
    SextetsOf(u);
  }

  lemma EncodeIsSequence(s: bytes, p: nat, u: nat)
    requires u <= MAX_CODEPOINT && HasAt(s, p, Encode(u))
    ensures IsScalar(u) ==> SequenceLength(s, p) == |Encode(u)| && CharNumber(s, p) == u
    ensures IsSurrogate(u) ==> SequenceLength(s, p) == 0
  {
    if u > 0x7F {
      hide Encode;
      if u <= 0x7FF { EncodedTwo(u); } else if u <= 0xFFFF { EncodedThree(u); } else { EncodedFour(u); }
    }
    var w := Encode(u);
    var t := s[p..p + |w|];
    assert t[0] == s[p] && (|w| > 1 ==> t[1] == s[p + 1]) && (|w| > 2 ==> t[2] == s[p + 2]) &&
      (|w| > 3 ==> t[3] == s[p + 3]);
  }

  lemma TwoIsEncode(b0: byte, b1: byte)
    requires TwoBytes(b0, b1)
    ensures var u := 0x40 * (b0 as int - 0xC0) + (b1 as int - 0x80); IsScalar(u) && Encode(u) == [b0, b1]
  {
    Sextets(0, 0, b0 as int - 0xC0, b1 as int - 0x80);
  }

  lemma ThreeIsEncode(b0: byte, b1: byte, b2: byte)
    requires ThreeBytes(b0, b1, b2)
    ensures var u := 0x1000 * (b0 as int - 0xE0) + 0x40 * (b1 as int - 0x80) + (b2 as int - 0x80);
            IsScalar(u) && Encode(u) == [b0, b1, b2]
  {
    Sextets(0, b0 as int - 0xE0, b1 as int - 0x80, b2 as int - 0x80);
  }

  lemma FourIsEncode(b0: byte, b1: byte, b2: byte, b3: byte)
    requires FourBytes(b0, b1, b2, b3)
    ensures var u :=
            0x4_0000 * (b0 as int - 0xF0) + 0x1000 * (b1 as int - 0x80) + 0x40 * (b2 as int - 0x80) +
            (b3 as int - 0x80);
            IsScalar(u) && Encode(u) == [b0, b1, b2, b3]
  {
    Sextets(b0 as int - 0xF0, b1 as int - 0x80, b2 as int - 0x80, b3 as int - 0x80);
  }

  /** A sequence of RFC 3629 is the encoding of its number: there are no overlong forms. */
  lemma SequenceIsEncode(s: bytes, p: nat)
    requires SequenceLength(s, p) > 0
    ensures IsScalar(CharNumber(s, p)) && HasAt(s, p, Encode(CharNumber(s, p)))
    ensures |Encode(CharNumber(s, p))| == SequenceLength(s, p)
  {
    hide IsScalar, TwoBytes, ThreeBytes, FourBytes, HasAt;
    var n, u := SequenceLength(s, p), CharNumber(s, p);
    if n == 1 {
      OneIsEncode(s[p]);
    } else {
      hide Encode;
      if n == 2 {
        TwoIsEncode(s[p], s[p + 1]);
      } else if n == 3 {
        ThreeIsEncode(s[p], s[p + 1], s[p + 2]);
      } else {
        FourIsEncode(s[p], s[p + 1], s[p + 2], s[p + 3]);
      }
    }
    SameBytes(s, p, n, Encode(u));
  }

  lemma OneIsEncode(b0: byte)
    requires b0 <= 0x7F
    ensures IsScalar(b0) && Encode(b0) == [b0]
  {
  }

  lemma SameBytes(s: bytes, p: nat, n: nat, w: bytes)
    requires 1 <= n <= 4 && |w| == n && p + n <= |s| && w[0] == s[p]
    requires (n > 1 ==> w[1] == s[p + 1]) && (n > 2 ==> w[2] == s[p + 2]) && (n > 3 ==> w[3] == s[p + 3])
    ensures HasAt(s, p, w)
  {
  }

  /** Decode accepts exactly the encodings of the Unicode scalar values, and inverts Encode. */
  lemma DecodeExactly(s: bytes, p: nat)
    requires p < |s|
    ensures Decode(s, p).ok <==> exists u: nat :: IsScalar(u) && HasAt(s, p, Encode(u))
    ensures Decode(s, p).ok ==>
              var d := Decode(s, p);
                IsScalar(d.codepoint) && HasAt(s, p, Encode(d.codepoint)) && d.taken == |Encode(d.codepoint)|
    ensures forall u: nat :: IsScalar(u) && HasAt(s, p, Encode(u)) ==> Decode(s, p).ok && Decode(s, p).codepoint == u
  {
    hide Decode, Encode, SequenceLength, CharNumber;
    DecodeIsRfc(s, p);
    if Decode(s, p).ok { SequenceIsEncode(s, p); }
    forall u: nat | IsScalar(u) && HasAt(s, p, Encode(u))
      ensures Decode(s, p).ok && Decode(s, p).codepoint == u
    {
      EncodeShort(u);
      EncodeIsSequence(s, p, u);
    }
  }

  /** Encode accepts surrogates too, but what it writes for them is not UTF-8. */
  lemma EncodedIsReadBackExactly(u: nat)
    requires u <= MAX_CODEPOINT
    ensures Decode(Encode(u), 0).ok <==> IsScalar(u)
  {
    hide Decode, SequenceLength, CharNumber;
    EncodeIsSequence(Encode(u), 0, u);
    DecodeIsRfc(Encode(u), 0);
  }

  // ----- UTF-16 -----

  /** UTF16::Encode. The source asserts that u is no surrogate. */
  function Encode16(u: nat): seq<unit16>
    requires IsScalar(u)
  {
    if u <= 0xFFFF then [u]
    else var v := u - 0x1_0000; [0xD800 + v / 0x400, 0xDC00 + v % 0x400]
  }

  /** UTF16::Decode. */
  function Decode16(s: seq<unit16>, p: nat): Decoded {
    var c, c1 := At(s, p, 0), At(s, p + 1, 0);
    if c < 0xD800 || c > 0xDFFF then Decoded(true, c, 1)
    else if c <= 0xDBFF then
      Decoded(0xDC00 <= c1 <= 0xDFFF, 0x400 * (c as int % 0x400) + c1 as int % 0x400 + 0x1_0000, 2)
    else Decoded(false, 0, 1)
  }

  /** Section 2 of RFC 2781: Decode16 accepts exactly the encodings of scalar values, and inverts Encode16. */
  lemma Decode16Exactly(s: seq<unit16>, p: nat)
    requires p < |s|
    ensures Decode16(s, p).ok <==> exists u: nat :: IsScalar(u) && HasAt(s, p, Encode16(u))
    ensures Decode16(s, p).ok ==>
              var d := Decode16(s, p);
                IsScalar(d.codepoint) && HasAt(s, p, Encode16(d.codepoint)) && d.taken == |Encode16(d.codepoint)|
    ensures forall u: nat :: IsScalar(u) && HasAt(s, p, Encode16(u)) ==>
            Decode16(s, p).ok && Decode16(s, p).codepoint == u
  {
    if Decode16(s, p).ok { Sequence16(s, p); }
    forall u: nat | IsScalar(u) && HasAt(s, p, Encode16(u))
      ensures Decode16(s, p).ok && Decode16(s, p).codepoint == u
    {
      Encode16Decodes(s, p, u);
    }
  }

  lemma Sequence16(s: seq<unit16>, p: nat)
    requires p < |s| && Decode16(s, p).ok
    ensures var d := Decode16(s, p);
            IsScalar(d.codepoint) && HasAt(s, p, Encode16(d.codepoint)) && d.taken == |Encode16(d.codepoint)|
  {
  }

  lemma Encode16Decodes(s: seq<unit16>, p: nat, u: nat)
    requires IsScalar(u) && HasAt(s, p, Encode16(u))
    ensures Decode16(s, p) == Decoded(true, u, |Encode16(u)|)
  {
    var w := Encode16(u);
    assert s[p] == s[p..p + |w|][0];
    assert |w| > 1 ==> s[p + 1] == s[p..p + |w|][1];
  }

  // ----- transcoding a whole text -----

  /** Transcoder<UTF8, UTF16>::Transcode until the text is used up. */
  function ToUtf16(s: bytes, p: nat): Option<seq<unit16>>
    requires p <= |s|
    decreases |s| - p
  {
    if p == |s| then Some([])
    else
      var d := Decode(s, p);
      DecodeExactly(s, p);
      if !d.ok then None
      else match ToUtf16(s, p + d.taken)
        case None => None
        case Some(w) => Some(Encode16(d.codepoint) + w)
  }

  /** Transcoder<UTF16, UTF8>::Transcode until the text is used up. */
  function ToUtf8(s: seq<unit16>, p: nat): Option<bytes>
    requires p <= |s|
    decreases |s| - p
  {
    if p == |s| then Some([])
    else
      var d := Decode16(s, p);
      Decode16Exactly(s, p);
      if !d.ok then None
      else match ToUtf8(s, p + d.taken)
        case None => None
        case Some(w) => Some(Encode(d.codepoint) + w)
  }

  /** A text of sequences of RFC 3629, one behind the other. */
  predicate WellFormed(s: bytes, p: nat)
    requires p <= |s|
    decreases |s| - p
  {
    p == |s| || (SequenceLength(s, p) > 0 && WellFormed(s, p + SequenceLength(s, p)))
  }

  lemma AsciiLength(s: bytes, p: nat)
    requires p < |s| && s[p] < 0x80
    ensures SequenceLength(s, p) == 1
  {
  }

  lemma {:induction false} TranscodesExactly(s: bytes, p: nat)
    requires p <= |s|
    ensures ToUtf16(s, p).Some? <==> WellFormed(s, p)
    decreases |s| - p
  {
    hide Decode, SequenceLength;
    if p < |s| {
      DecodeIsRfc(s, p);
      DecodeExactly(s, p);
      if Decode(s, p).ok { TranscodesExactly(s, p + Decode(s, p).taken); }
    }
  }

  /** UTF-8 to UTF-16 and back is the identity. */
  lemma {:induction false} Utf8RoundTrip(s: bytes, p: nat, w: seq<unit16>, q: nat)
    requires p <= |s| && q <= |w| && ToUtf16(s, p) == Some(w[q..])
    ensures ToUtf8(w, q) == Some(s[p..])
    decreases |s| - p
  {
    hide Decode, Decode16, Encode, Encode16;
    if p == |s| {
      assert |w[q..]| == 0 && s[p..] == [];
    } else {
      DecodeExactly(s, p);
      var d := Decode(s, p);
      var u, rest := Encode16(d.codepoint), ToUtf16(s, p + d.taken).value;
      Encode16Short(d.codepoint);
      HasPrefix(w, q, u, rest);
      Encode16Decodes(w, q, d.codepoint);
      Utf8RoundTrip(s, p + d.taken, w, q + |u|);
      assert ToUtf8(w, q) == Some(Encode(d.codepoint) + s[p + d.taken..]);
      assert s[p..] == s[p..p + d.taken] + s[p + d.taken..];
    }
  }

  lemma HasPrefix<Ch>(w: seq<Ch>, q: nat, u: seq<Ch>, rest: seq<Ch>)
    requires q <= |w| && w[q..] == u + rest
    ensures HasAt(w, q, u) && w[q + |u|..] == rest
  {
    assert w[q..q + |u|] == w[q..][..|u|];
    assert w[q + |u|..] == w[q..][|u|..];
  }

  lemma Encode16Short(u: nat)
    requires IsScalar(u)
    ensures 1 <= |Encode16(u)| <= 2
  {
  }

  lemma EncodeShort(u: nat)
    requires u <= MAX_CODEPOINT
    ensures 1 <= |Encode(u)| <= 4
  {
  }

  /** UTF-16 to UTF-8 and back is the identity. */
  lemma {:induction false} Utf16RoundTrip(s: seq<unit16>, p: nat, w: bytes, q: nat)
    requires p <= |s| && q <= |w| && ToUtf8(s, p) == Some(w[q..])
    ensures ToUtf16(w, q) == Some(s[p..])
    decreases |s| - p
  {
    hide Decode, Decode16, Encode, Encode16;
    if p == |s| {
      assert |w[q..]| == 0 && s[p..] == [];
    } else {
      Decode16Exactly(s, p);
      var d := Decode16(s, p);
      var u, rest := Encode(d.codepoint), ToUtf8(s, p + d.taken).value;
      EncodeShort(d.codepoint);
      HasPrefix(w, q, u, rest);
      DecodeExactly(w, q);
      Utf16RoundTrip(s, p + d.taken, w, q + |u|);
      assert ToUtf16(w, q) == Some(Encode16(d.codepoint) + s[p + d.taken..]);
      assert s[p..] == s[p..p + d.taken] + s[p + d.taken..];
    }
  }

  /** A whole text survives the way to the other encoding and back; ill-formed UTF-8 is refused. */
  lemma WholeText(s: bytes)
    ensures ToUtf16(s, 0).Some? <==> WellFormed(s, 0)
    ensures WellFormed(s, 0) ==> ToUtf8(ToUtf16(s, 0).value, 0) == Some(s)
  {
    TranscodesExactly(s, 0);
    if WellFormed(s, 0) {
      var w := ToUtf16(s, 0).value;
      assert w[0..] == w && s[0..] == s;
      Utf8RoundTrip(s, 0, w, 0);
    }
  }
}
