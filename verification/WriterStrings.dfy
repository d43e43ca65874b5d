/** The reader undoes the writer's strings and integers. */
module WriterStrings {
  import opened Json
  import opened Streams
  import opened Decimal
  import E = Encodings
  import S = Strings
  import N = Numbers
  import W = Writer
  import WP = WriterProof

  lemma HasSplit(t: bytes, q: nat, a: bytes, b: bytes)
    ensures E.HasAt(t, q, a + b) <==> E.HasAt(t, q, a) && E.HasAt(t, q + |a|, b)
  {
    if q + |a| + |b| <= |t| {
      var w := t[q..q + |a| + |b|];
      assert w[..|a|] == t[q..q + |a|];
      assert w[|a|..] == t[q + |a|..q + |a| + |b|];
      assert w == w[..|a|] + w[|a|..];
      assert (a + b)[..|a|] == a && (a + b)[|a|..] == b;
    }
  }

  lemma HasByte(t: bytes, q: nat, w: bytes, i: nat)
    requires E.HasAt(t, q, w) && i < |w|
    ensures q + i < |t| && t[q + i] == w[i]
  {
    assert t[q..q + |w|][i] == w[i];
  }

  // ----- strings -----

  lemma DigitBack(d: nat)
    requires d < 16
    ensures S.HexValue(W.HexDigit(d)) == Some(d)
  {
  }

  lemma Nibbles(u: nat)
    ensures u / 0x1000 * 0x10 + u / 0x100 % 0x10 == u / 0x100
    ensures u / 0x100 * 0x10 + u / 0x10 % 0x10 == u / 0x10
    ensures u / 0x10 * 0x10 + u % 0x10 == u
  {
  }

  lemma HexBack(t: bytes, q: nat, u: nat)
    requires u < 0x1_0000 && E.HasAt(t, q, W.HexText(u))
    ensures S.Hex(t, q, 4) == Some(u)
  {
    var w := W.HexText(u);
    HasByte(t, q, w, 0);
    HasByte(t, q, w, 1);
    HasByte(t, q, w, 2);
    HasByte(t, q, w, 3);
    hide W.HexDigit, S.HexValue;
    DigitBack(u / 0x1000);
    DigitBack(u / 0x100 % 0x10);
    DigitBack(u / 0x10 % 0x10);
    DigitBack(u % 0x10);
    Nibbles(u);
    assert S.Hex(t, q, 0) == Some(0);
    assert S.Hex(t, q, 1) == Some(u / 0x1000);
    assert S.Hex(t, q, 2) == Some(u / 0x100);
    assert S.Hex(t, q, 3) == Some(u / 0x10);
  }

  /** One byte that was written untranscoded is one round of the decoder. */
  lemma ByteBack(t: bytes, q: nat, c: byte, validate: bool)
    requires E.HasAt(t, q, W.ByteText(c)) && (validate ==> c < 0x80)
    ensures S.NextRound(t, q, validate) == S.Emit(q + |W.ByteText(c)|, [c])
  {
    var w := W.ByteText(c);
    HasByte(t, q, w, 0);
    if W.Escape(c) == W.LETTER_U {
      HasByte(t, q, w, 1);
      assert w == [W.BACKSLASH, W.LETTER_U] + W.HexText(c);
      HasSplit(t, q, [W.BACKSLASH, W.LETTER_U], W.HexText(c));
      HexBack(t, q + 2, c);
      assert E.Encode(c) == [c];
    } else if W.Escape(c) != 0 {
      HasByte(t, q, w, 1);
      hide S.Hex;
    } else {
      assert t[q..q + 1] == [c];
    }
  }

  /** A \u escape, or two, is one round of the decoder. */
  lemma CodepointBack(t: bytes, q: nat, u: nat, validate: bool)
    requires E.IsScalar(u) && E.HasAt(t, q, W.CodepointText(u))
    ensures S.NextRound(t, q, validate) == S.Emit(q + |W.CodepointText(u)|, E.Encode(u))
  {
    hide S.Hex, E.Encode, W.HexText;
    var w := W.CodepointText(u);
    var lead: bytes := [W.BACKSLASH, W.LETTER_U];
    if u <= 0xFFFF {
      HexLength(u);
      HasByte(t, q, w, 0);
      HasByte(t, q, w, 1);
      HasSplit(t, q, lead, W.HexText(u));
      HexBack(t, q + 2, u);
    } else {
      var v := u - 0x1_0000;
      var high, low := v / 0x400 + 0xD800, v % 0x400 + 0xDC00;
      HexLength(high);
      HexLength(low);
      HasSplit(t, q, lead + W.HexText(high), lead + W.HexText(low));
      assert lead + W.HexText(high) + (lead + W.HexText(low)) == w;
      HasSplit(t, q, lead, W.HexText(high));
      HasSplit(t, q + 6, lead, W.HexText(low));
      HasByte(t, q, lead, 0);
      HasByte(t, q, lead, 1);
      HasByte(t, q + 6, lead, 0);
      HasByte(t, q + 6, lead, 1);
      HexBack(t, q + 2, high);
      HexBack(t, q + 8, low);
      assert S.PairValue(high, low) == u;
    }
  }

  lemma HexLength(u: nat)
    requires u < 0x1_0000
    ensures |W.HexText(u)| == 4
  {
  }

  lemma Glue<T>(a: seq<T>, b: seq<T>, c: seq<T>)
    ensures a + (b + c) == a + b + c
  {
  }

  lemma SequenceBytes(s: bytes, p: nat)
    requires p < |s| && E.SequenceLength(s, p) > 0 && s[p] >= 0x80
    ensures p + E.SequenceLength(s, p) <= |s| && forall i :: p <= i < p + E.SequenceLength(s, p) ==> s[i] >= 0x80
  {
  }

  /** A sequence that was copied is one round of the validating decoder. */
  lemma SequenceBack(t: bytes, q: nat, s: bytes, p: nat)
    requires p < |s| && s[p] >= 0x80 && E.SequenceLength(s, p) > 0
    requires p + E.SequenceLength(s, p) <= |s| && E.HasAt(t, q, s[p..p + E.SequenceLength(s, p)])
    ensures var n := E.SequenceLength(s, p); S.NextRound(t, q, true) == S.Emit(q + n, s[p..p + n])
  {
    hide E.Decode, E.Encode, E.SequenceLength, E.CharNumber;
    E.DecodeIsRfc(s, p);
    E.DecodeExactly(s, p);
    var n := E.SequenceLength(s, p);
    HasByte(t, q, s[p..p + n], 0);
    E.DecodeExactly(t, q);
    assert E.HasAt(t, q, E.Encode(E.Decode(s, p).codepoint));
  }

  /** The rounds behind one that put w. */
  lemma OneRound(t: bytes, q: nat, validate: bool, w: bytes, next: nat, rest: S.Decoded)
    requires q <= |t| && S.NextRound(t, q, validate) == S.Emit(next, w) && next <= |t|
    requires S.DecodeString(t, next, validate) == rest && rest.Done?
    ensures S.DecodeString(t, q, validate) == S.Done(rest.next, w + rest.str)
  {
    hide S.NextRound;
    S.RoundShrinks(t, q, validate);
  }

  lemma CloseBack(t: bytes, q: nat, validate: bool)
    requires E.HasAt(t, q, [W.QUOTE])
    ensures q <= |t| && S.DecodeString(t, q, validate) == S.Done(q + 1, [])
  {
    HasByte(t, q, [W.QUOTE], 0);
  }

  /** The rest of a string from p: written, then decoded. */
  lemma {:induction false} StringBack(s: bytes, p: nat, target: W.Target, t: bytes, q: nat, validate: bool)
    requires !target.validate && p <= |s| && W.StringText(s, p, target).ok && (validate ==> E.WellFormed(s, p))
    requires E.HasAt(t, q, W.StringText(s, p, target).text + [W.QUOTE])
    ensures q <= |t|
    ensures S.DecodeString(t, q, validate) == S.Done(q + |W.StringText(s, p, target).text| + 1, s[p..])
    decreases |s| - p, 2
  {
    hide S.DecodeString, E.HasAt, E.WellFormed;
    if p == |s| {
      assert [] + [W.QUOTE] == [W.QUOTE];
      CloseBack(t, q, validate);
      assert s[p..] == [];
    } else {
      hide W.StringText;
      if target.unicode && s[p] >= 0x80 && validate {
        SequenceCase(s, p, target, t, q, validate);
      } else if target.unicode || s[p] < 0x80 {
        ByteCase(s, p, target, t, q, validate);
      } else {
        CodepointCase(s, p, target, t, q, validate);
      }
    }
  }

  lemma {:induction false} SequenceCase(s: bytes, p: nat, target: W.Target, t: bytes, q: nat, validate: bool)
    requires !target.validate && p < |s| && W.StringText(s, p, target).ok && (validate ==> E.WellFormed(s, p))
    requires E.HasAt(t, q, W.StringText(s, p, target).text + [W.QUOTE])
    requires target.unicode && s[p] >= 0x80 && validate
    ensures q <= |t|
    ensures S.DecodeString(t, q, validate) == S.Done(q + |W.StringText(s, p, target).text| + 1, s[p..])
    decreases |s| - p, 1
  {
    hide S.DecodeString, S.NextRound, W.ByteText, W.CodepointText, E.Encode, E.Decode, E.SequenceLength, E.HasAt;
    var n := E.SequenceLength(s, p);
    SequenceBytes(s, p);
    WP.PlainSequence(s, p, n);
    StringBackNext(s, p, n, target, t, q, validate, s[p..p + n]);
    SequenceBack(t, q, s, p);
    OneRound(t, q, validate, s[p..p + n], q + n, S.DecodeString(t, q + n, validate));
    assert s[p..] == s[p..p + n] + s[p + n..];
  }

  lemma {:induction false} ByteCase(s: bytes, p: nat, target: W.Target, t: bytes, q: nat, validate: bool)
    requires !target.validate && p < |s| && W.StringText(s, p, target).ok && (validate ==> E.WellFormed(s, p))
    requires E.HasAt(t, q, W.StringText(s, p, target).text + [W.QUOTE])
    requires s[p] < 0x80 || (target.unicode && !validate)
    ensures q <= |t|
    ensures S.DecodeString(t, q, validate) == S.Done(q + |W.StringText(s, p, target).text| + 1, s[p..])
    decreases |s| - p, 1
  {
    hide S.DecodeString, S.NextRound, W.ByteText, W.CodepointText, E.Encode, E.Decode, E.SequenceLength, E.HasAt;
    var w := W.ByteText(s[p]);
    if validate { WellFormedNext(s, p); }
    StringBackNext(s, p, 1, target, t, q, validate, w);
    ByteBack(t, q, s[p], validate);
    OneRound(t, q, validate, [s[p]], q + |w|, S.DecodeString(t, q + |w|, validate));
    assert s[p..] == [s[p]] + s[p + 1..];
  }

  lemma {:induction false} CodepointCase(s: bytes, p: nat, target: W.Target, t: bytes, q: nat, validate: bool)
    requires !target.validate && p < |s| && W.StringText(s, p, target).ok && (validate ==> E.WellFormed(s, p))
    requires E.HasAt(t, q, W.StringText(s, p, target).text + [W.QUOTE])
    requires s[p] >= 0x80 && !target.unicode
    ensures q <= |t|
    ensures S.DecodeString(t, q, validate) == S.Done(q + |W.StringText(s, p, target).text| + 1, s[p..])
    decreases |s| - p, 1
  {
    hide S.DecodeString, S.NextRound, W.ByteText, W.CodepointText, E.Encode, E.Decode, E.SequenceLength, E.HasAt;
    E.DecodeExactly(s, p);
    E.DecodeIsRfc(s, p);
    var d := E.Decode(s, p);
    var w := W.CodepointText(d.codepoint);
    TakenInside(s, p, E.Encode(d.codepoint));
    StringBackNext(s, p, d.taken, target, t, q, validate, w);
    CodepointBack(t, q, d.codepoint, validate);
    OneRound(t, q, validate, E.Encode(d.codepoint), q + |w|, S.DecodeString(t, q + |w|, validate));
    assert s[p..] == s[p..p + d.taken] + s[p + d.taken..];
  }

  lemma TakenInside(s: bytes, p: nat, w: bytes)
    requires E.HasAt(s, p, w)
    ensures p + |w| <= |s| && s[p..p + |w|] == w
  {
  }

  lemma WellFormedNext(s: bytes, p: nat)
    requires p < |s| && E.WellFormed(s, p) && s[p] < 0x80
    ensures E.SequenceLength(s, p) == 1 && E.WellFormed(s, p + 1)
  {
  }

  /** The induction step of StringBack: n bytes were written as w. */
  lemma {:induction false} StringBackNext(s: bytes, p: nat, n: nat, target: W.Target, t: bytes, q: nat, validate: bool,
                                          w: bytes)
    requires !target.validate && 0 < n && p + n <= |s| && W.StringText(s, p + n, target).ok &&
             (validate ==> E.WellFormed(s, p + n))
    requires W.StringText(s, p, target).text == w + W.StringText(s, p + n, target).text
    requires E.HasAt(t, q, W.StringText(s, p, target).text + [W.QUOTE])
    ensures E.HasAt(t, q, w) && q + |w| <= |t|
    ensures S.DecodeString(t, q + |w|, validate) == S.Done(q + |W.StringText(s, p, target).text| + 1, s[p + n..])
    decreases |s| - p, 0
  {
    hide S.DecodeString, W.StringText, E.WellFormed, E.HasAt;
    var end: bytes := [W.QUOTE];
    var rest := W.StringText(s, p + n, target).text;
    assert w + rest + end == w + (rest + end);
    HasSplit(t, q, w, rest + end);
    StringBack(s, p + n, target, t, q + |w|, validate);
  }

  /** Reading undoes writing for every string: any bytes for a Unicode target, well-formed UTF-8
      for an ASCII target; with the validating flag of the reader, well-formed UTF-8 for both. */
  lemma QuotedBack(s: bytes, target: W.Target, t: bytes, q: nat, validate: bool)
    requires W.QuotedText(s, target).ok && (validate ==> E.WellFormed(s, 0))
    requires E.HasAt(t, q, W.QuotedText(s, target).text)
    ensures q + 1 <= |t| && t[q] == W.QUOTE
    ensures S.DecodeString(t, q + 1, validate) == S.Done(q + |W.QuotedText(s, target).text|, s)
  {
    hide S.DecodeString, W.StringText;
    if target.validate { WP.ValidatedSame(s, 0, target.unicode); }
    var inner := W.StringText(s, 0, target).text;
    var quote: bytes := [W.QUOTE];
    assert W.QuotedText(s, target).text == quote + (inner + quote);
    HasSplit(t, q, quote, inner + quote);
    HasByte(t, q, quote, 0);
    StringBack(s, 0, W.Target(target.unicode, false), t, q + 1, validate);
    assert s[0..] == s;
  }

  // ----- integers -----

  /** The kind the reader reports an integer with. */
  function ReadKind(n: integer): IntKind {
    if n < 0 then (if n >= -0x8000_0000 then Int32 else Int64)
    else if n <= UINT32_MAX then Uint32 else Uint64
  }

  /** Nothing that would continue a number. */
  predicate EndsNumber(b: byte) { !IsDigit(b) && b != '.' as int && b != 'e' as int && b != 'E' as int }

  lemma {:induction false} ValOfText(t: bytes, q: nat, n: nat)
    requires E.HasAt(t, q, Digits(n))
    ensures N.AllDigits(t, q, q + |Digits(n)|) && N.Val(t, q, q + |Digits(n)|) == n
  {
    var w := Digits(n);
    DigitsRoundTrip(n);
    forall i | q <= i < q + |w|
      ensures N.DigitAt(t, i)
    {
      HasByte(t, q, w, i - q);
    }
    N.ValIsValueOf(t, q, q + |w|);
  }

  lemma DigitsBack(t: bytes, q: nat, n: nat)
    requires E.HasAt(t, q, Digits(n)) && EndsNumber(At(t, q + |Digits(n)|, 0))
    ensures N.IntEnd(t, q) == Some(q + |Digits(n)|) && At(t, q, 0) != N.MINUS
    ensures N.AllDigits(t, q, q + |Digits(n)|) && N.Val(t, q, q + |Digits(n)|) == n
  {
    var w := Digits(n);
    DigitsRoundTrip(n);
    ValOfText(t, q, n);
    HasByte(t, q, w, 0);
    N.RunIsEnd(t, q, q + |w|);
  }

  /** A written integer is read as the same number, with the reader's kind. */
  lemma IntegerBack(t: bytes, q: nat, n: integer, tooBig: bytes -> bool)
    requires E.HasAt(t, q, IntText(n)) && EndsNumber(At(t, q + |IntText(n)|, 0))
    ensures N.ReadNumber(t, q, tooBig) == N.Number(q + |IntText(n)|, Integer(ReadKind(n), n))
    ensures KindFits(ReadKind(n), n)
  {
    hide Digits, N.Val, N.DigitEnd, N.Shift, N.AllDigits, N.IntEnd;
    if n < 0 {
      HasSplit(t, q, [N.MINUS], Digits(-n));
      HasByte(t, q, [N.MINUS], 0);
      DigitsBack(t, q + 1, -n);
    } else {
      DigitsBack(t, q, n);
    }
  }
}
