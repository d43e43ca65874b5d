/** The text of JSON pointers by a grammar of its own: sections 3, 4 and 6 of RFC 6901 with the unreserved
    characters of section 2.3 of RFC 3986; and Parse and Stringify (rapidjson/pointer.h) against it. */
module PointerText {
  import opened Json
  import opened Streams
  import opened Pointer
  import E = Encodings
  import S = Strings
  import W = Writer
  import SP = StringSpelling

  // ----- the grammar -----

  /** A letter, a digit, or one of four marks. */
  predicate IsUnreserved(c: int) {
    || 'A' as int <= c <= 'Z' as int || 'a' as int <= c <= 'z' as int || '0' as int <= c <= '9' as int
    || c == '-' as int || c == '.' as int || c == '_' as int || c == '~' as int
  }

  /** A percent sign and two hexadecimal digits of either case. */
  predicate SpellsByte(w: bytes, b: byte) {
    |w| == 3 && w[0] == '%' as int && SP.IsHexDigit(w[1], b / 0x10) && SP.IsHexDigit(w[2], b % 0x10)
  }

  predicate SpellsBytes(w: bytes, out: bytes) {
    |w| == 3 * |out| && (out == [] || (SpellsByte(w[..3], out[0]) && SpellsBytes(w[3..], out[1..])))
  }

  /** A tilde, in a fragment also by a triplet. */
  predicate IsTilde(w: bytes, uri: bool) { w == ['~' as int] || (uri && SpellsByte(w, '~' as int)) }

  /** w stands for a part of a name: a character for itself, an escape behind a tilde, or in a fragment the
      triplets of one character. */
  ghost predicate Spells(w: bytes, out: bytes, uri: bool) {
    || (|w| == 1 && w == out && w[0] != '~' as int && w[0] != '/' as int && (uri ==> IsUnreserved(w[0])))
    || (|w| > 1 && IsTilde(w[..|w| - 1], uri) &&
        ((w[|w| - 1] == '0' as int && out == ['~' as int]) || (w[|w| - 1] == '1' as int && out == ['/' as int])))
    || (uri && exists u: nat :: E.IsScalar(u) && u != '~' as int && out == E.Encode(u) && SpellsBytes(w, out))
  }

  ghost predicate SpellsName(w: bytes, name: bytes, uri: bool)
    decreases |w|
  {
    (w == [] && name == []) ||
    exists k: nat, m: nat :: 0 < k <= |w| && m <= |name| &&
      Spells(w[..k], name[..m], uri) && SpellsName(w[k..], name[m..], uri)
  }

  /** A slash in front of every name; the index of a token is that of its name. */
  ghost predicate SpellsTokens(w: bytes, ts: seq<Token>, uri: bool)
    decreases |ts|
  {
    if ts == [] then w == []
    else
      |w| > 0 && w[0] == '/' as int && ts[0].index == IndexOf(ts[0].name) &&
      exists k: nat :: IsName(w, k, ts[0].name, uri) && SpellsTokens(w[k..], ts[1..], uri)
  }

  /** The first name of w, behind a slash, reaches to the next slash or the end. */
  ghost predicate IsName(w: bytes, k: nat, name: bytes, uri: bool) {
    0 < k <= |w| && (k < |w| ==> w[k] == '/' as int) && SpellsName(w[1..k], name, uri)
  }

  /** A whole pointer: behind a hash sign a fragment. */
  ghost predicate IsPointer(s: bytes, ts: seq<Token>) {
    if s != [] && s[0] == '#' as int then SpellsTokens(s[1..], ts, true) else SpellsTokens(s, ts, false)
  }

  /** Section 4: a zero, or digits of which the first is not zero. */
  predicate IsArrayIndex(name: bytes) {
    || name == ['0' as int]
    || (|name| > 0 && '1' as int <= name[0] <= '9' as int &&
        forall i :: 0 < i < |name| ==> '0' as int <= name[i] <= '9' as int)
  }

  lemma ArrayIndexExactly(name: bytes)
    ensures IsNumber(name) <==> IsArrayIndex(name)
    ensures !IsArrayIndex(name) ==> IndexOf(name) == INVALID_INDEX
  {
  }

  // ----- triplets -----

  lemma UnreservedExactly(c: byte)
    ensures NeedPercentEncode(c) <==> !IsUnreserved(c)
  {
  }

  lemma TripletExactly(s: bytes, i: nat, b: byte)
    ensures Triplet(s, i) == Some(b) <==> i + 3 <= |s| && SpellsByte(s[i..i + 3], b)
  {
    hide S.HexValue, SP.IsHexDigit;
    if i + 3 <= |s| {
      SpelledAt(s, i, b);
      SP.DigitExactly(s[i + 1], b / 0x10);
      SP.DigitExactly(s[i + 2], b % 0x10);
      DigitsSmall(s[i + 1]);
      DigitsSmall(s[i + 2]);
      hide SpellsByte;
      var high, low := S.HexValue(s[i + 1]), S.HexValue(s[i + 2]);
      if high.Some? && low.Some? { Halves(high.value, low.value, b); }
    }
  }

  lemma SpelledAt(s: bytes, i: nat, b: byte)
    requires i + 3 <= |s|
    ensures SpellsByte(s[i..i + 3], b) <==>
            s[i] == '%' as int && SP.IsHexDigit(s[i + 1], b / 0x10) && SP.IsHexDigit(s[i + 2], b % 0x10)
  {
    hide SP.IsHexDigit;
    var w := s[i..i + 3];
    assert w[0] == s[i] && w[1] == s[i + 1] && w[2] == s[i + 2];
  }

  lemma Halves(high: nat, low: nat, b: byte)
    requires high < 0x10 && low < 0x10
    ensures high * 0x10 + low == b <==> high == b / 0x10 && low == b % 0x10
  {
  }

  lemma DigitsSmall(c: byte)
    ensures S.HexValue(c).Some? ==> S.HexValue(c).value < 0x10
  {
  }

  lemma {:induction false} TripletsExactly(s: bytes, i: nat, n: nat, out: bytes)
    ensures Triplets(s, i, n) == Some(out) <==>
            |out| == n && (n > 0 ==> i + 3 * n <= |s| && SpellsBytes(s[i..i + 3 * n], out))
    decreases n
  {
    hide Triplet, SpellsByte;
    if n > 0 && i + 3 * n <= |s| && |out| == n {
      var w := s[i..i + 3 * n];
      assert w[..3] == s[i..i + 3] && w[3..] == s[i + 3..i + 3 + 3 * (n - 1)];
      TripletExactly(s, i, out[0]);
      TripletsExactly(s, i + 3, n - 1, out[1..]);
      assert out == [out[0]] + out[1..];
    }
  }

  // ----- one part of a name -----

  lemma CharacterBytes(out: bytes, u: nat)
    requires E.IsScalar(u) && out == E.Encode(u)
    ensures out != [] && SequenceTakes(out[0]) == |out| && E.Decode(out, 0).ok
    ensures if u < 0x80 then out == [u] else out[0] >= 0x80 && |out| > 1
  {
    EncodeStarts(u);
    hide E.Decode, E.Encode, SequenceTakes;
    E.EncodeShort(u);
    assert out[0..|out|] == out;
    assert E.HasAt(out, 0, out);
    E.DecodeExactly(out, 0);
    TakesByFirst(out, 0);
  }

  lemma EncodeStarts(u: nat)
    requires u <= E.MAX_CODEPOINT
    ensures |E.Encode(u)| > 0
    ensures if u < 0x80 then E.Encode(u) == [u] else E.Encode(u)[0] >= 0x80 && |E.Encode(u)| > 1
  {
  }

  lemma BytesCharacter(out: bytes) returns (u: nat)
    requires out != [] && E.Decode(out, 0).ok && SequenceTakes(out[0]) == |out|
    ensures E.IsScalar(u) && out == E.Encode(u)
  {
    hide E.Decode, E.Encode, SequenceTakes;
    E.DecodeExactly(out, 0);
    TakesByFirst(out, 0);
    u := E.Decode(out, 0).codepoint;
    assert out[0..|out|] == out;
  }

  /** The character c whose spelling ends in front of i, with what follows a tilde. */
  lemma EscapeExactly(s: bytes, i: nat, c: byte, q: nat, out: bytes)
    ensures EscapeRound(s, i, c) == Emit(q, out) <==>
            if c != '~' as int then q == i && out == [c]
            else q == i + 1 <= |s| &&
                 ((s[i] == '0' as int && out == ['~' as int]) || (s[i] == '1' as int && out == ['/' as int]))
  {
  }

  lemma FirstOfTriplets(w: bytes, out: bytes)
    requires SpellsBytes(w, out) && out != []
    ensures |w| >= 3 && SpellsByte(w[..3], out[0]) && w[0] == '%' as int
  {
  }

  lemma PlainExactly(s: bytes, i: nat, q: nat, out: bytes, uri: bool)
    requires i < q <= |s| && s[i] != SLASH && !(uri && s[i] == PERCENT)
    ensures NextRound(s, i, uri) == Emit(q, out) <==> Spells(s[i..q], out, uri)
  {
    hide PercentRound, E.Encode, SpellsBytes, SP.IsHexDigit, IsUnreserved, NeedPercentEncode, EscapeRound;
    var w := s[i..q];
    assert w[0] == s[i];
    UnreservedExactly(s[i]);
    UnreservedExactly(TILDE);
    assert IsUnreserved('~' as int) by { TildeIsUnreserved(); }
    EscapeExactly(s, i + 1, s[i], q, out);
    if |w| > 1 {
      assert w[|w| - 1] == s[q - 1];
      assert w[..|w| - 1][0] == s[i];
      assert q == i + 2 ==> w[..|w| - 1] == [s[i]];
    }
    forall u: nat | E.IsScalar(u) && out == E.Encode(u) && SpellsBytes(w, out)
      ensures !uri
    {
      EncodeStarts(u);
      FirstOfTriplets(w, out);
    }
  }

  lemma TildeIsUnreserved()
    ensures IsUnreserved('~' as int) && !IsUnreserved('%' as int)
  {
  }

  lemma PercentIsSpelled(s: bytes, i: nat, q: nat, out: bytes)
    requires i < q <= |s| && s[i] == PERCENT && PercentRound(s, i) == Emit(q, out)
    ensures Spells(s[i..q], out, true)
  {
    hide E.Encode, E.Decode, Triplet, Triplets, SpellsByte, SpellsBytes, SequenceTakes, EscapeRound;
    var b, w := Triplet(s, i).value, s[i..q];
    var n := SequenceTakes(b);
    var bs := Triplets(s, i, n).value;
    TripletExactly(s, i, b);
    TripletsExactly(s, i, n, bs);
    EscapeExactly(s, i + 3, b, q, out);
    FirstTaken(s, i, n);
    if n > 1 || b != TILDE {
      var u := BytesCharacter(bs);
      CharacterBytes(bs, u);
      assert Spells(w, out, true);
    } else {
      assert w[..|w| - 1] == s[i..i + 3];
      assert w[|w| - 1] == s[i + 3];
    }
  }

  lemma FirstTaken(s: bytes, i: nat, n: nat)
    requires n > 0 && Triplets(s, i, n).Some?
    ensures Triplet(s, i).Some? && |Triplets(s, i, n).value| == n && Triplets(s, i, n).value[0] == Triplet(s, i).value
  {
    hide Triplet;
  }

  lemma SpelledPercent(s: bytes, i: nat, q: nat, out: bytes)
    requires i < q <= |s| && s[i] == PERCENT && Spells(s[i..q], out, true)
    ensures PercentRound(s, i) == Emit(q, out)
  {
    hide E.Encode, E.Decode, Triplet, Triplets, SpellsByte, SpellsBytes, SequenceTakes, EscapeRound, IsUnreserved;
    var w := s[i..q];
    assert w[0] == s[i];
    TildeIsUnreserved();
    if u: nat :| E.IsScalar(u) && u != '~' as int && out == E.Encode(u) && SpellsBytes(w, out) {
      CharacterBytes(out, u);
      SpelledLength(w, out);
      TripletsExactly(s, i, |out|, out);
      FirstTaken(s, i, |out|);
      EscapeExactly(s, i + 3, out[0], q, out);
    } else {
      TildeSpelled(s, i, q, out);
    }
  }

  lemma SpelledLength(w: bytes, out: bytes)
    requires SpellsBytes(w, out)
    ensures |w| == 3 * |out|
  {
  }

  lemma TildeSpelled(s: bytes, i: nat, q: nat, out: bytes)
    requires i < q <= |s| && s[i] == PERCENT
    requires var w := s[i..q];
             |w| > 1 && SpellsByte(w[..|w| - 1], '~' as int) &&
             ((w[|w| - 1] == '0' as int && out == ['~' as int]) || (w[|w| - 1] == '1' as int && out == ['/' as int]))
    ensures PercentRound(s, i) == Emit(q, out)
  {
    hide E.Encode, E.Decode, Triplet, Triplets, SpellsBytes, SequenceTakes, EscapeRound, SP.IsHexDigit;
    var w, tilde := s[i..q], TILDE;
    assert q == i + 4;
    assert w[..|w| - 1] == s[i..i + 3] && w[|w| - 1] == s[i + 3];
    hide SpellsByte;
    EncodeStarts(TILDE);
    CharacterBytes([tilde], TILDE);
    TripletExactly(s, i, tilde);
    OneTriplet(s, i, tilde);
    EscapeExactly(s, i + 3, tilde, q, out);
  }

  lemma OneTriplet(s: bytes, i: nat, b: byte)
    requires Triplet(s, i) == Some(b)
    ensures Triplets(s, i, 1) == Some([b])
  {
    hide Triplet;
    assert Triplets(s, i + 3, 0) == Some([]) && [b] + [] == [b];
  }

  /** A round takes exactly the parts of the grammar, and puts what they stand for. */
  lemma RoundExactly(s: bytes, i: nat, q: nat, out: bytes, uri: bool)
    requires i < q <= |s| && s[i] != SLASH
    ensures NextRound(s, i, uri) == Emit(q, out) <==> Spells(s[i..q], out, uri)
  {
    hide PercentRound, Spells, EscapeRound;
    if uri && s[i] == PERCENT {
      if PercentRound(s, i) == Emit(q, out) { PercentIsSpelled(s, i, q, out); }
      if Spells(s[i..q], out, uri) { SpelledPercent(s, i, q, out); }
    } else {
      PlainExactly(s, i, q, out, uri);
    }
  }

  // ----- names -----

  lemma SpelledStarts(w: bytes, out: bytes, uri: bool)
    requires Spells(w, out, uri)
    ensures w != [] && w[0] != SLASH
  {
    if u: nat :| E.IsScalar(u) && u != '~' as int && out == E.Encode(u) && SpellsBytes(w, out) {
      EncodeStarts(u);
      FirstOfTriplets(w, out);
    }
    hide E.Encode, SpellsBytes;
    if |w| > 1 { assert w[..|w| - 1][0] == w[0]; }
  }

  lemma FirstPart(w: bytes, name: bytes, uri: bool) returns (k: nat, m: nat)
    requires SpellsName(w, name, uri) && w != []
    ensures 0 < k <= |w| && m <= |name| && Spells(w[..k], name[..m], uri) && SpellsName(w[k..], name[m..], uri)
  {
    hide Spells;
    k, m :| 0 < k <= |w| && m <= |name| && Spells(w[..k], name[..m], uri) && SpellsName(w[k..], name[m..], uri);
  }

  /** A name is read exactly when it is spelled up to the next slash or the end. */
  lemma NameExactly(s: bytes, i: nat, q: nat, name: bytes, uri: bool)
    requires i <= |s|
    ensures ParseName(s, i, uri) == Named(q, name) <==>
            i <= q <= |s| && (q == |s| || s[q] == SLASH) && SpellsName(s[i..q], name, uri)
  {
    hide ParseName, SpellsName;
    if ParseName(s, i, uri) == Named(q, name) { NameIsSpelled(s, i, q, name, uri); }
    if i <= q <= |s| && (q == |s| || s[q] == SLASH) && SpellsName(s[i..q], name, uri) {
      SpelledName(s, i, q, name, uri);
    }
  }

  lemma {:induction false} NameIsSpelled(s: bytes, i: nat, q: nat, name: bytes, uri: bool)
    requires i <= |s| && ParseName(s, i, uri) == Named(q, name)
    ensures i <= q <= |s| && (q == |s| || s[q] == SLASH) && SpellsName(s[i..q], name, uri)
    decreases |s| - i
  {
    hide NextRound, Spells;
    if i == |s| || s[i] == SLASH {
      assert s[i..i] == [];
    } else {
      var r := NextRound(s, i, uri);
      RoundAdvances(s, i, uri);
      RoundExactly(s, i, r.next, r.codeunits, uri);
      var rest := name[|r.codeunits|..];
      NameIsSpelled(s, r.next, q, rest, uri);
      var w, k, m := s[i..q], r.next - i, |r.codeunits|;
      assert w[..k] == s[i..r.next] && w[k..] == s[r.next..q];
      assert name[..m] == r.codeunits && name[m..] == rest;
      assert Spells(w[..k], name[..m], uri) && SpellsName(w[k..], name[m..], uri);
    }
  }

  lemma {:induction false} SpelledName(s: bytes, i: nat, q: nat, name: bytes, uri: bool)
    requires i <= q <= |s| && (q == |s| || s[q] == SLASH) && SpellsName(s[i..q], name, uri)
    ensures ParseName(s, i, uri) == Named(q, name)
    decreases q - i
  {
    hide *;
    if i == q {
      EmptyName(s, i, name, uri);
    } else {
      var k, m := FirstPart(s[i..q], name, uri);
      PartSlices(s, i, k, q);
      SpelledStarts(s[i..i + k], name[..m], uri);
      RoundExactly(s, i, i + k, name[..m], uri);
      SpelledName(s, i + k, q, name[m..], uri);
      PartThenName(s, i, i + k, q, name[..m], name[m..], uri);
      assert name[..m] + name[m..] == name;
    }
  }

  lemma EmptyName(s: bytes, i: nat, name: bytes, uri: bool)
    requires i <= |s| && (i == |s| || s[i] == SLASH) && SpellsName(s[i..i], name, uri)
    ensures ParseName(s, i, uri) == Named(i, name)
  {
    assert s[i..i] == [];
  }

  lemma PartSlices(s: bytes, i: nat, k: nat, q: nat)
    requires 0 < k && i + k <= q <= |s|
    ensures s[i..q][..k] == s[i..i + k] && s[i..q][k..] == s[i + k..q] && s[i..i + k][0] == s[i]
  {
  }

  lemma PartThenName(s: bytes, i: nat, m: nat, q: nat, out: bytes, rest: bytes, uri: bool)
    requires i < m <= |s| && s[i] != SLASH && NextRound(s, i, uri) == Emit(m, out)
    requires ParseName(s, m, uri) == Named(q, rest)
    ensures ParseName(s, i, uri) == Named(q, out + rest)
  {
    hide NextRound;
  }

  // ----- pointers -----

  lemma Slices(s: bytes, i: nat, k: nat)
    requires 0 < k && i + k <= |s|
    ensures s[i..][1..k] == s[i + 1..i + k] && s[i..][k..] == s[i + k..]
  {
  }

  lemma {:induction false} TokensExactly(s: bytes, i: nat, ts: seq<Token>, uri: bool)
    requires i <= |s| && (i < |s| ==> s[i] == SLASH)
    ensures ParseTokens(s, i, uri) == Tokens(ts) <==> SpellsTokens(s[i..], ts, uri)
    decreases |s| - i
  {
    hide ParseName, IndexOf, SpellsName;
    var w := s[i..];
    if i < |s| && ts != [] {
      assert w[0] == s[i];
      var n := ParseName(s, i + 1, uri);
      if n.Named? {
        NameInside(s, i + 1, uri);
        TokensExactly(s, n.next, ts[1..], uri);
        var k := n.next - i;
        Slices(s, i, k);
        NameExactly(s, i + 1, n.next, n.name, uri);
        assert ts == [ts[0]] + ts[1..];
        assert n.next < |s| ==> w[k] == s[n.next];
        assert n.name == ts[0].name ==> IsName(w, k, ts[0].name, uri);
      }
      forall k: nat | IsName(w, k, ts[0].name, uri)
        ensures n == Named(i + k, ts[0].name)
      {
        Slices(s, i, k);
        assert k < |w| ==> w[k] == s[i + k];
        NameExactly(s, i + 1, i + k, ts[0].name, uri);
      }
    }
  }

  /** Parse accepts exactly the pointers of the grammar, and gives their tokens. */
  lemma PointerExactly(s: bytes, ts: seq<Token>)
    ensures Parse(s) == Tokens(ts) <==> IsPointer(s, ts)
  {
    hide ParseTokens;
    assert s[0..] == s;
    if s != [] && s[0] == HASH {
      if |s| == 1 || s[1] == SLASH { TokensExactly(s, 1, ts, true); } else { NoSlashNoTokens(s[1..], ts, true); }
    } else if s == [] || s[0] == SLASH {
      TokensExactly(s, 0, ts, false);
    } else {
      NoSlashNoTokens(s, ts, false);
    }
  }

  lemma NoSlashNoTokens(w: bytes, ts: seq<Token>, uri: bool)
    requires w != [] && w[0] != SLASH
    ensures !SpellsTokens(w, ts, uri)
  {
  }

  // ----- what is refused -----

  /** The part of a name at i is refused: a character that a fragment must percent-encode, a tilde without its digit
      behind it, or a percent sign that begins no character. */
  ghost predicate Refused(s: bytes, i: nat, uri: bool, e: Error, offset: nat)
    requires i < |s|
  {
    match e
    case CharacterMustPercentEncode =>
      offset == i && uri && s[i] != '%' as int && !IsUnreserved(s[i])
    case InvalidEscape =>
      i < offset <= |s| && IsTilde(s[i..offset], uri) && !IsEscapeDigit(s, offset)
    case InvalidPercentEncoding =>
      offset == i && uri && s[i] == '%' as int && !HasCharacter(s, i)
    case TokenMustBeginWithSolidus => false
  }

  predicate IsEscapeDigit(s: bytes, i: nat) { i < |s| && (s[i] == '0' as int || s[i] == '1' as int) }

  /** Triplets at i spell one character. */
  ghost predicate HasCharacter(s: bytes, i: nat) {
    exists u: nat :: E.IsScalar(u) && SpelledFrom(s, i, E.Encode(u))
  }

  predicate SpelledFrom(s: bytes, i: nat, out: bytes) {
    i + 3 * |out| <= |s| && SpellsBytes(s[i..i + 3 * |out|], out)
  }

  lemma TripletsSpelled(s: bytes, i: nat, out: bytes)
    requires out != []
    ensures Triplets(s, i, |out|) == Some(out) <==> SpelledFrom(s, i, out)
  {
    hide Triplets, SpellsBytes;
    TripletsExactly(s, i, |out|, out);
  }

  /** PercentRound refuses the percent sign exactly when no character is spelled there. */
  lemma CharacterExactly(s: bytes, i: nat)
    requires i < |s| && s[i] == PERCENT
    ensures PercentRound(s, i) == Fail(InvalidPercentEncoding, i) <==> !HasCharacter(s, i)
  {
    hide E.Encode, E.Decode, Triplet, Triplets, SpellsByte, SpellsBytes, SequenceTakes, SpelledFrom;
    if HasCharacter(s, i) {
      var u: nat :| E.IsScalar(u) && SpelledFrom(s, i, E.Encode(u));
      var out := E.Encode(u);
      CharacterBytes(out, u);
      TripletsSpelled(s, i, out);
      FirstTaken(s, i, |out|);
    }
    if Triplet(s, i).Some? {
      var n := SequenceTakes(Triplet(s, i).value);
      if Triplets(s, i, n).Some? {
        var w := Triplets(s, i, n).value;
        FirstTaken(s, i, n);
        TripletsSpelled(s, i, w);
        if E.Decode(w, 0).ok { var u := BytesCharacter(w); }
      }
    }
  }

  /** A round fails exactly where the grammar refuses, with that error and that offset. */
  lemma RefusedExactly(s: bytes, i: nat, uri: bool, e: Error, offset: nat)
    requires i < |s| && s[i] != SLASH
    ensures NextRound(s, i, uri) == Fail(e, offset) <==> Refused(s, i, uri, e, offset)
  {
    hide E.Encode, E.Decode, Triplet, Triplets, SpellsByte, SequenceTakes, HasCharacter;
    UnreservedExactly(s[i]);
    UnreservedExactly(TILDE);
    TildeIsUnreserved();
    if uri && s[i] == PERCENT {
      CharacterExactly(s, i);
      hide IsUnreserved, NeedPercentEncode;
      PercentTilde(s, i, e, offset);
    } else {
      hide IsUnreserved, NeedPercentEncode, PercentRound;
      PlainTilde(s, i, uri, offset);
    }
  }

  lemma PlainTilde(s: bytes, i: nat, uri: bool, offset: nat)
    requires i < |s| && !(uri && s[i] == PERCENT)
    ensures i < offset <= |s| ==> (IsTilde(s[i..offset], uri) <==> s[i] == TILDE && offset == i + 1)
  {
    hide SP.IsHexDigit;
    if i < offset <= |s| { assert s[i..offset][0] == s[i]; }
    assert i + 1 <= |s| && s[i..i + 1] == [s[i]];
  }

  lemma PercentTilde(s: bytes, i: nat, e: Error, offset: nat)
    requires i < |s| && s[i] == PERCENT
    ensures PercentRound(s, i) == Fail(InvalidEscape, offset) <==>
            i < offset <= |s| && IsTilde(s[i..offset], true) && !IsEscapeDigit(s, offset)
    ensures PercentRound(s, i) == Fail(e, offset) ==>
            e == InvalidEscape || (e == InvalidPercentEncoding && offset == i)
  {
    hide E.Encode, E.Decode, Triplets, SpellsByte, SequenceTakes, S.HexValue;
    var tilde := TILDE;
    TripletExactly(s, i, tilde);
    if i < offset <= |s| {
      assert s[i..offset][0] == s[i];
      if SpellsByte(s[i..offset], tilde) { SpelledThree(s[i..offset], tilde); }
    }
    if Triplet(s, i) == Some(tilde) {
      EncodeStarts(TILDE);
      CharacterBytes([tilde], TILDE);
      OneTriplet(s, i, tilde);
    }
  }

  lemma SpelledThree(w: bytes, b: byte)
    requires SpellsByte(w, b)
    ensures |w| == 3
  {
  }

  /** A part of a name is refused at j, behind parts of the same name that are spelled from i on. */
  ghost predicate BreaksOff(s: bytes, i: nat, uri: bool, e: Error, offset: nat) {
    exists j: nat :: IsStart(s, i, j, uri) && s[j] != '/' as int && Refused(s, j, uri, e, offset)
  }

  ghost predicate IsStart(s: bytes, i: nat, j: nat, uri: bool) {
    i <= j < |s| && exists name: bytes :: SpellsName(s[i..j], name, uri)
  }

  lemma {:induction false} NameBreaksOff(s: bytes, i: nat, uri: bool, e: Error, offset: nat)
    requires i <= |s| && ParseName(s, i, uri) == BadName(e, offset)
    ensures BreaksOff(s, i, uri, e, offset)
    decreases |s| - i
  {
    hide NextRound, Spells, Refused, SpellsName;
    var r := NextRound(s, i, uri);
    if r.Fail? {
      RefusedExactly(s, i, uri, e, offset);
      NothingSpelled(s, i, uri);
      assert IsStart(s, i, i, uri);
    } else {
      RoundAdvances(s, i, uri);
      RoundExactly(s, i, r.next, r.codeunits, uri);
      NameBreaksOff(s, r.next, uri, e, offset);
      var j: nat :| IsStart(s, r.next, j, uri) && s[j] != SLASH && Refused(s, j, uri, e, offset);
      var name :| SpellsName(s[r.next..j], name, uri);
      OneMorePart(s, i, r.next, j, r.codeunits, name, uri);
      assert IsStart(s, i, j, uri);
    }
  }

  lemma NothingSpelled(s: bytes, i: nat, uri: bool)
    requires i <= |s|
    ensures SpellsName(s[i..i], [], uri)
  {
    assert s[i..i] == [];
  }

  lemma OneMorePart(s: bytes, i: nat, q: nat, j: nat, out: bytes, name: bytes, uri: bool)
    requires i < q <= j <= |s| && Spells(s[i..q], out, uri) && SpellsName(s[q..j], name, uri)
    ensures SpellsName(s[i..j], out + name, uri)
  {
    hide Spells;
    var w, k, m := s[i..j], q - i, |out|;
    assert w[..k] == s[i..q] && w[k..] == s[q..j] && (out + name)[..m] == out && (out + name)[m..] == name;
    assert Spells(w[..k], (out + name)[..m], uri) && SpellsName(w[k..], (out + name)[m..], uri);
  }

  lemma {:induction false} BrokenName(s: bytes, i: nat, j: nat, name: bytes, uri: bool, e: Error, offset: nat)
    requires i <= j < |s| && SpellsName(s[i..j], name, uri) && s[j] != SLASH && Refused(s, j, uri, e, offset)
    ensures ParseName(s, i, uri) == BadName(e, offset)
    decreases j - i
  {
    hide NextRound, Spells, Refused;
    if i == j {
      RefusedExactly(s, i, uri, e, offset);
    } else {
      var w := s[i..j];
      var k, m := FirstPart(w, name, uri);
      hide SpellsName;
      SpelledStarts(w[..k], name[..m], uri);
      assert w[..k][0] == s[i];
      assert w[..k] == s[i..i + k] && w[k..] == s[i + k..j];
      RoundExactly(s, i, i + k, name[..m], uri);
      BrokenName(s, i + k, j, name[m..], uri, e, offset);
    }
  }

  lemma NameFailsExactly(s: bytes, i: nat, uri: bool, e: Error, offset: nat)
    requires i <= |s|
    ensures ParseName(s, i, uri) == BadName(e, offset) <==> BreaksOff(s, i, uri, e, offset)
  {
    hide ParseName, SpellsName, Refused;
    if ParseName(s, i, uri) == BadName(e, offset) { NameBreaksOff(s, i, uri, e, offset); }
    if BreaksOff(s, i, uri, e, offset) {
      var j: nat :| IsStart(s, i, j, uri) && s[j] != SLASH && Refused(s, j, uri, e, offset);
      var name :| SpellsName(s[i..j], name, uri);
      BrokenName(s, i, j, name, uri, e, offset);
    }
  }

  /** Tokens from i to k, and a name behind the slash at k that breaks off. */
  ghost predicate FailsAt(s: bytes, i: nat, k: nat, uri: bool, e: Error, offset: nat) {
    i <= k < |s| && s[k] == '/' as int && (exists ts: seq<Token> :: SpellsTokens(s[i..k], ts, uri)) &&
    BreaksOff(s, k + 1, uri, e, offset)
  }

  lemma {:induction false} TokensFail(s: bytes, i: nat, uri: bool, e: Error, offset: nat) returns (k: nat)
    requires i <= |s| && (i < |s| ==> s[i] == SLASH) && ParseTokens(s, i, uri) == Failed(e, offset)
    ensures FailsAt(s, i, k, uri, e, offset)
    decreases |s| - i
  {
    hide ParseName, SpellsName, BreaksOff;
    var n := ParseName(s, i + 1, uri);
    if n.BadName? {
      NameFailsExactly(s, i + 1, uri, e, offset);
      k := i;
      assert s[i..i] == [];
      assert SpellsTokens(s[i..k], [], uri);
    } else {
      NameInside(s, i + 1, uri);
      k := TokensFail(s, n.next, uri, e, offset);
      var ts :| SpellsTokens(s[n.next..k], ts, uri);
      NameExactly(s, i + 1, n.next, n.name, uri);
      OneMoreToken(s, i, n.next, k, n.name, ts, uri);
    }
  }

  lemma InnerSlices(s: bytes, i: nat, m: nat, k: nat)
    requires 0 < m && i + m <= k <= |s|
    ensures s[i..k][1..m] == s[i + 1..i + m] && s[i..k][m..] == s[i + m..k]
  {
    var w := s[i..k];
    assert forall j :: 0 <= j < |w| ==> w[j] == s[i + j];
    assert |w[1..m]| == |s[i + 1..i + m]|;
    assert forall j :: 0 <= j < m - 1 ==> w[1..m][j] == w[1 + j];
  }

  lemma OneMoreToken(s: bytes, i: nat, q: nat, k: nat, name: bytes, ts: seq<Token>, uri: bool)
    requires i < q <= k < |s| && s[i] == SLASH && s[q] == SLASH && SpellsName(s[i + 1..q], name, uri)
    requires SpellsTokens(s[q..k], ts, uri)
    ensures SpellsTokens(s[i..k], [Token(name, IndexOf(name))] + ts, uri)
  {
    hide SpellsName, IndexOf;
    var w, all := s[i..k], [Token(name, IndexOf(name))] + ts;
    InnerSlices(s, i, q - i, k);
    assert all[1..] == ts;
    assert q < k ==> w[q - i] == s[q];
    assert IsName(w, q - i, name, uri);
  }

  lemma {:induction false} FailsIn(s: bytes, i: nat, k: nat, ts: seq<Token>, uri: bool, e: Error, offset: nat)
    requires i <= k < |s| && s[k] == SLASH && SpellsTokens(s[i..k], ts, uri) && BreaksOff(s, k + 1, uri, e, offset)
    ensures s[i] == SLASH && ParseTokens(s, i, uri) == Failed(e, offset)
    decreases k - i
  {
    hide ParseName, SpellsName, BreaksOff, IndexOf;
    if i == k {
      NameFailsExactly(s, i + 1, uri, e, offset);
    } else {
      var w := s[i..k];
      var m: nat :| IsName(w, m, ts[0].name, uri) && SpellsTokens(w[m..], ts[1..], uri);
      InnerSlices(s, i, m, k);
      assert w[0] == s[i];
      assert m < |w| ==> w[m] == s[i + m];
      NameExactly(s, i + 1, i + m, ts[0].name, uri);
      FailsIn(s, i + m, k, ts[1..], uri, e, offset);
    }
  }

  /** The text from i on begins without a slash, or a name of it breaks off behind tokens of the grammar. */
  ghost predicate IsFailure(s: bytes, i: nat, uri: bool, e: Error, offset: nat)
    requires i <= |s|
  {
    if i < |s| && s[i] != '/' as int then e == TokenMustBeginWithSolidus && offset == i
    else exists k: nat :: FailsAt(s, i, k, uri, e, offset)
  }

  /** Parse refuses exactly such texts, a fragment behind its hash sign, with that error and that offset. */
  lemma ParseFailsExactly(s: bytes, e: Error, offset: nat)
    ensures Parse(s) == Failed(e, offset) <==>
            if s != [] && s[0] == '#' as int then IsFailure(s, 1, true, e, offset)
              else IsFailure(s, 0, false, e, offset)
  {
    hide ParseTokens, FailsAt;
    var uri := s != [] && s[0] == HASH;
    var i := if uri then 1 else 0;
    if i == |s| || s[i] == SLASH { TokensFailExactly(s, i, uri, e, offset); }
  }

  lemma TokensFailExactly(s: bytes, i: nat, uri: bool, e: Error, offset: nat)
    requires i <= |s| && (i < |s| ==> s[i] == SLASH)
    ensures ParseTokens(s, i, uri) == Failed(e, offset) <==> exists k: nat :: FailsAt(s, i, k, uri, e, offset)
  {
    hide ParseTokens, SpellsTokens, BreaksOff;
    if ParseTokens(s, i, uri) == Failed(e, offset) { var k := TokensFail(s, i, uri, e, offset); }
    if k: nat :| FailsAt(s, i, k, uri, e, offset) {
      var ts: seq<Token> :| SpellsTokens(s[i..k], ts, uri);
      FailsIn(s, i, k, ts, uri, e, offset);
    }
  }

  // ----- what Stringify writes -----

  const HEX := "0123456789ABCDEF"

  /** A percent sign and two digits in upper case for every byte. */
  predicate WritesBytes(w: bytes, x: bytes) {
    && |w| == 3 * |x|
    && (x == [] ||
        (&& w[0] == '%' as int && w[1] == HEX[x[0] / 0x10] as int && w[2] == HEX[x[0] % 0x10] as int
         && WritesBytes(w[3..], x[1..])))
  }

  /** A part of a name and its text: a tilde and a slash are escaped, unreserved characters stand for
      themselves, and in a fragment any other character is written as triplets. */
  ghost predicate Writes(x: bytes, w: bytes, uri: bool) {
    || (x == ['~' as int] && w == ['~' as int, '0' as int])
    || (x == ['/' as int] && w == ['~' as int, '1' as int])
    || (|x| == 1 && x[0] != '~' as int && x[0] != '/' as int && (uri ==> IsUnreserved(x[0])) && w == x)
    || (uri && WritesBytes(w, x) &&
        exists u: nat :: E.IsScalar(u) && !IsUnreserved(u) && u != '/' as int && x == E.Encode(u))
  }

  ghost predicate WritesName(x: bytes, w: bytes, uri: bool)
    decreases |x|
  {
    (x == [] && w == []) ||
    exists k: nat, m: nat :: 0 < k <= |x| && m <= |w| && Writes(x[..k], w[..m], uri) && WritesName(x[k..], w[m..], uri)
  }

  lemma {:induction false} EncodeExactly(x: bytes, w: bytes)
    ensures WritesBytes(w, x) <==> w == PercentEncode(x)
    decreases |x|
  {
    if x != [] {
      var first: bytes := [PERCENT, W.HexDigit(x[0] / 0x10), W.HexDigit(x[0] % 0x10)];
      assert forall d: nat :: d < 16 ==> W.HexDigit(d) == HEX[d] as int;
      hide W.HexDigit;
      if |w| >= 3 {
        EncodeExactly(x[1..], w[3..]);
        assert w == [w[0], w[1], w[2]] + w[3..];
      }
      EncodeExactly(x[1..], PercentEncode(x[1..]));
    }
  }

  /** What NameText does at j: where it goes on, and what it puts. */
  function Step(name: bytes, j: nat, uri: bool): Option<(nat, bytes)>
    requires j < |name|
  {
    if name[j] == TILDE then Some((j + 1, [TILDE, '0' as int]))
    else if name[j] == SLASH then Some((j + 1, [TILDE, '1' as int]))
    else if uri && NeedPercentEncode(name[j]) then
      var d := E.Decode(name, j);
      E.DecodeExactly(name, j);
      if d.ok then Some((j + d.taken, PercentEncode(name[j..j + d.taken]))) else None
    else Some((j + 1, [name[j]]))
  }

  lemma NameTextSteps(name: bytes, j: nat, uri: bool)
    requires j < |name|
    ensures var step, r := Step(name, j, uri), NameText(name, j, uri);
            if step.None? then r.None?
            else
              var (q, w) := step.value;
              j < q <= |name| && r == Prefixed(w, NameText(name, q, uri))
  {
    E.DecodeIsRfc(name, j);
    hide E.Decode, PercentEncode;
  }

  lemma SequenceExactly(s: bytes, p: nat, q: nat, u: nat)
    requires p < q <= |s| && E.IsScalar(u)
    ensures s[p..q] == E.Encode(u) <==>
            E.Decode(s, p).ok && E.Decode(s, p).codepoint == u && p + E.Decode(s, p).taken == q
    ensures s[p..q] == E.Encode(u) ==> if u < 0x80 then q == p + 1 && s[p] == u else s[p] >= 0x80 && q > p + 1
  {
    E.DecodeExactly(s, p);
    EncodeStarts(u);
    hide E.Encode, E.Decode;
    if s[p..q] == E.Encode(u) {
      assert E.HasAt(s, p, E.Encode(u));
      assert s[p..q][0] == s[p];
    }
  }

  lemma PlainStep(name: bytes, j: nat, q: nat, w: bytes, uri: bool)
    requires j < q <= |name| && (uri && NeedPercentEncode(name[j]) ==> name[j] == SLASH)
    ensures Writes(name[j..q], w, uri) <==> Step(name, j, uri) == Some((q, w))
  {
    hide E.Encode, E.Decode, WritesBytes, NeedPercentEncode, IsUnreserved;
    var x := name[j..q];
    assert x[0] == name[j];
    assert q == j + 1 ==> x == [name[j]];
    UnreservedExactly(name[j]);
    forall u: nat | E.IsScalar(u) && x == E.Encode(u)
      ensures uri ==> IsUnreserved(u) || u == SLASH
    {
      SequenceExactly(name, j, q, u);
      if uri && u >= 0x80 { HighIsReserved(name[j]); }
    }
    TildeIsUnreserved();
  }

  lemma HighIsReserved(c: byte)
    requires c >= 0x80
    ensures NeedPercentEncode(c) && c != SLASH
  {
  }

  lemma PercentStep(name: bytes, j: nat, q: nat, w: bytes)
    requires j < q <= |name| && NeedPercentEncode(name[j]) && name[j] != SLASH
    ensures Writes(name[j..q], w, true) <==> Step(name, j, true) == Some((q, w))
  {
    hide E.Encode, E.Decode, WritesBytes, NeedPercentEncode, IsUnreserved, PercentEncode;
    var x, d := name[j..q], E.Decode(name, j);
    assert x[0] == name[j];
    UnreservedExactly(name[j]);
    TildeIsUnreserved();
    EncodeExactly(x, w);
    assert d.ok ==> E.IsScalar(d.codepoint) by { E.DecodeExactly(name, j); }
    forall u: nat | E.IsScalar(u)
      ensures x == E.Encode(u) <==> d.ok && d.codepoint == u && j + d.taken == q
      ensures x == E.Encode(u) ==> !IsUnreserved(u) && u != SLASH
    {
      SequenceExactly(name, j, q, u);
      if u >= 0x80 { HighIsUnreserved(u); }
    }
  }

  lemma HighIsUnreserved(u: nat)
    requires u >= 0x80
    ensures !IsUnreserved(u) && u != SLASH
  {
  }

  lemma StepExactly(name: bytes, j: nat, q: nat, w: bytes, uri: bool)
    requires j < q <= |name|
    ensures Writes(name[j..q], w, uri) <==> Step(name, j, uri) == Some((q, w))
  {
    hide Writes, Step;
    if uri && NeedPercentEncode(name[j]) && name[j] != SLASH {
      PercentStep(name, j, q, w);
    } else {
      PlainStep(name, j, q, w, uri);
    }
  }

  lemma FirstWritten(x: bytes, w: bytes, uri: bool) returns (k: nat, m: nat)
    requires WritesName(x, w, uri) && x != []
    ensures 0 < k <= |x| && m <= |w| && Writes(x[..k], w[..m], uri) && WritesName(x[k..], w[m..], uri)
  {
    hide Writes;
    k, m :| 0 < k <= |x| && m <= |w| && Writes(x[..k], w[..m], uri) && WritesName(x[k..], w[m..], uri);
  }

  lemma {:induction false} NameIsWritten(name: bytes, j: nat, w: bytes, uri: bool)
    requires j <= |name| && NameText(name, j, uri) == Some(w)
    ensures WritesName(name[j..], w, uri)
    decreases |name| - j
  {
    hide Step, Writes;
    if j < |name| {
      NameTextSteps(name, j, uri);
      hide NameText;
      var (q, v) := Step(name, j, uri).value;
      var rest := NameText(name, q, uri).value;
      StepExactly(name, j, q, v, uri);
      NameIsWritten(name, q, rest, uri);
      var x, k, m := name[j..], q - j, |v|;
      assert x[..k] == name[j..q] && x[k..] == name[q..] && w[..m] == v && w[m..] == rest;
      assert Writes(x[..k], w[..m], uri) && WritesName(x[k..], w[m..], uri);
    }
  }

  lemma {:induction false} WrittenName(name: bytes, j: nat, w: bytes, uri: bool)
    requires j <= |name| && WritesName(name[j..], w, uri)
    ensures NameText(name, j, uri) == Some(w)
    decreases |name| - j
  {
    hide *;
    if j == |name| {
      NothingWritten(name, w, uri);
    } else {
      var k, m := FirstWritten(name[j..], w, uri);
      Parts(name, j, k);
      StepExactly(name, j, j + k, w[..m], uri);
      WrittenName(name, j + k, w[m..], uri);
      Together(name, j, j + k, w[..m], w[m..], uri);
      assert w[..m] + w[m..] == w;
    }
  }

  lemma NothingWritten(name: bytes, w: bytes, uri: bool)
    requires WritesName(name[|name|..], w, uri)
    ensures NameText(name, |name|, uri) == Some(w)
  {
    assert name[|name|..] == [];
  }

  lemma Parts(name: bytes, j: nat, k: nat)
    requires j + k <= |name|
    ensures name[j..][..k] == name[j..j + k] && name[j..][k..] == name[j + k..]
  {
  }

  lemma Together(name: bytes, j: nat, q: nat, v: bytes, rest: bytes, uri: bool)
    requires j < q <= |name| && Step(name, j, uri) == Some((q, v)) && NameText(name, q, uri) == Some(rest)
    ensures NameText(name, j, uri) == Some(v + rest)
  {
    NameTextSteps(name, j, uri);
    hide Step, NameText;
  }

  /** A name is written exactly as its parts are. */
  lemma NameTextIs(name: bytes, w: bytes, uri: bool)
    ensures NameText(name, 0, uri) == Some(w) <==> WritesName(name, w, uri)
  {
    hide NameText, WritesName;
    assert name[0..] == name;
    if NameText(name, 0, uri) == Some(w) { NameIsWritten(name, 0, w, uri); }
    if WritesName(name, w, uri) { WrittenName(name, 0, w, uri); }
  }

  ghost predicate WritesTokens(ts: seq<Token>, w: bytes, uri: bool)
    decreases |ts|
  {
    if ts == [] then w == []
    else
      |w| > 0 && w[0] == '/' as int &&
      exists k: nat :: 0 < k <= |w| && WritesName(ts[0].name, w[1..k], uri) && WritesTokens(ts[1..], w[k..], uri)
  }

  lemma {:induction false} TokensTextIs(ts: seq<Token>, w: bytes, uri: bool)
    ensures TokensText(ts, uri) == Some(w) <==> WritesTokens(ts, w, uri)
    decreases |ts|
  {
    hide NameText, WritesName;
    if ts != [] {
      hide TokensText, WritesTokens;
      if TokensText(ts, uri) == Some(w) {
        var k := TextParts(ts, w, uri);
        NameTextIs(ts[0].name, w[1..k], uri);
        TokensTextIs(ts[1..], w[k..], uri);
        PartsWritten(ts, w, uri, k);
      }
      if WritesTokens(ts, w, uri) {
        var k := WrittenParts(ts, w, uri);
        NameTextIs(ts[0].name, w[1..k], uri);
        TokensTextIs(ts[1..], w[k..], uri);
        PartsText(ts, w, uri, k);
      }
    }
  }

  lemma TextParts(ts: seq<Token>, w: bytes, uri: bool) returns (k: nat)
    requires ts != [] && TokensText(ts, uri) == Some(w)
    ensures 0 < k <= |w| && w[0] == SLASH
    ensures NameText(ts[0].name, 0, uri) == Some(w[1..k]) && TokensText(ts[1..], uri) == Some(w[k..])
  {
    hide NameText;
    var v, rest := NameText(ts[0].name, 0, uri).value, TokensText(ts[1..], uri).value;
    hide TokensText;
    k := 1 + |v|;
    assert w == [SLASH] + v + rest;
    assert w[1..k] == v && w[k..] == rest;
  }

  lemma PartsText(ts: seq<Token>, w: bytes, uri: bool, k: nat)
    requires ts != [] && 0 < k <= |w| && w[0] == SLASH
    requires NameText(ts[0].name, 0, uri) == Some(w[1..k]) && TokensText(ts[1..], uri) == Some(w[k..])
    ensures TokensText(ts, uri) == Some(w)
  {
    hide NameText;
    assert [SLASH] + w[1..k] + w[k..] == w;
  }

  lemma WrittenParts(ts: seq<Token>, w: bytes, uri: bool) returns (k: nat)
    requires ts != [] && WritesTokens(ts, w, uri)
    ensures 0 < k <= |w| && w[0] == SLASH && WritesName(ts[0].name, w[1..k], uri) && WritesTokens(ts[1..], w[k..], uri)
  {
    hide WritesName;
    k :| 0 < k <= |w| && WritesName(ts[0].name, w[1..k], uri) && WritesTokens(ts[1..], w[k..], uri);
  }

  lemma PartsWritten(ts: seq<Token>, w: bytes, uri: bool, k: nat)
    requires ts != [] && 0 < k <= |w| && w[0] == SLASH
    requires WritesName(ts[0].name, w[1..k], uri) && WritesTokens(ts[1..], w[k..], uri)
    ensures WritesTokens(ts, w, uri)
  {
    hide WritesName;
  }

  /** Stringify writes exactly the text of the grammar, behind a hash sign for a fragment. */
  lemma StringifiedExactly(ts: seq<Token>, s: bytes, uri: bool)
    ensures Stringify(ts, uri) == Some(s) <==>
            if uri then s != [] && s[0] == '#' as int && WritesTokens(ts, s[1..], true) else WritesTokens(ts, s, false)
  {
    hide TokensText, WritesTokens;
    if uri {
      if s != [] {
        TokensTextIs(ts, s[1..], true);
        assert s == [s[0]] + s[1..];
      }
      if TokensText(ts, true).Some? { assert ([HASH] + TokensText(ts, true).value)[1..] == TokensText(ts, true).value; }
    } else {
      TokensTextIs(ts, s, false);
      if TokensText(ts, false).Some? { assert [] + TokensText(ts, false).value == TokensText(ts, false).value; }
    }
  }
}
