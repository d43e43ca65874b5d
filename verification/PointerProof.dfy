/** Parse and Stringify undo each other. */
module PointerProof {
  import opened Json
  import opened Streams
  import opened Pointer
  import E = Encodings
  import W = Writer
  import WS = WriterStrings
  import S = Strings

  /** The tokens with the indices that parsing gives them. */
  function Reindexed(ts: seq<Token>): seq<Token> {
    if ts == [] then [] else [Token(ts[0].name, IndexOf(ts[0].name))] + Reindexed(ts[1..])
  }

  // ----- Parse undoes Stringify -----

  lemma {:induction false} TripletsBack(w: bytes, t: bytes, q: nat)
    requires E.HasAt(t, q, PercentEncode(w))
    ensures Triplets(t, q, |w|) == Some(w) && |PercentEncode(w)| == 3 * |w|
    ensures w != [] ==> Triplet(t, q) == Some(w[0]) && q < |t| && t[q] == PERCENT
    decreases |w|
  {
    if w != [] {
      var first: bytes := [PERCENT, W.HexDigit(w[0] / 0x10), W.HexDigit(w[0] % 0x10)];
      WS.HasSplit(t, q, first, PercentEncode(w[1..]));
      TripletsBack(w[1..], t, q + 3);
      WS.HasByte(t, q, first, 0);
      WS.HasByte(t, q, first, 1);
      WS.HasByte(t, q, first, 2);
      hide W.HexDigit, S.HexValue;
      WS.DigitBack(w[0] / 0x10);
      WS.DigitBack(w[0] % 0x10);
      hide PercentEncode;
      assert w == [w[0]] + w[1..];
      assert w[0] / 0x10 * 0x10 + w[0] % 0x10 == w[0];
    }
  }

  /** A sequence that was percent-encoded is one round. */
  lemma PercentBack(name: bytes, j: nat, t: bytes, q: nat)
    requires j < |name| && NeedPercentEncode(name[j]) && E.Decode(name, j).ok
    requires j + E.Decode(name, j).taken <= |name|
    requires E.HasAt(t, q, PercentEncode(name[j..j + E.Decode(name, j).taken]))
    ensures var n := E.Decode(name, j).taken;
            n > 0 && q < |t| && t[q] == PERCENT && |PercentEncode(name[j..j + n])| == 3 * n
            && NextRound(t, q, true) == Emit(q + 3 * n, name[j..j + n])
  {
    hide E.Decode, E.Encode, Triplet, Triplets, PercentEncode, SequenceTakes;
    E.DecodeExactly(name, j);
    var n, u := E.Decode(name, j).taken, E.Decode(name, j).codepoint;
    E.EncodeShort(u);
    var w := name[j..j + n];
    TakesByFirst(name, j);
    TripletsBack(w, t, q);
    E.DecodeExactly(w, 0);
    assert w[0..n] == w && E.HasAt(w, 0, E.Encode(u));
  }

  lemma {:induction false} NameBack(name: bytes, j: nat, uri: bool, t: bytes, q: nat)
    requires j <= |name| && NameText(name, j, uri).Some? && E.HasAt(t, q, NameText(name, j, uri).value)
    requires var e := q + |NameText(name, j, uri).value|; e == |t| || t[e] == SLASH
    ensures q <= |t| && ParseName(t, q, uri) == Named(q + |NameText(name, j, uri).value|, name[j..])
    decreases |name| - j, 2
  {
    hide E.HasAt, NextRound;
    Inside(t, q, NameText(name, j, uri).value);
    if j == |name| {
      assert name[j..] == [];
    } else {
      hide NameText, ParseName;
      if name[j] == TILDE {
        EscapeCase(name, j, uri, t, q, '0' as int);
      } else if name[j] == SLASH {
        EscapeCase(name, j, uri, t, q, '1' as int);
      } else if uri && NeedPercentEncode(name[j]) {
        PercentCase(name, j, uri, t, q);
      } else {
        PlainCase(name, j, uri, t, q);
      }
    }
  }

  lemma {:induction false} EscapeCase(name: bytes, j: nat, uri: bool, t: bytes, q: nat, code: byte)
    requires j < |name| && NameText(name, j, uri).Some? && E.HasAt(t, q, NameText(name, j, uri).value)
    requires var e := q + |NameText(name, j, uri).value|; e <= |t| && (e == |t| || t[e] == SLASH)
    requires (name[j] == TILDE && code == '0' as int) || (name[j] == SLASH && code == '1' as int)
    ensures q <= |t| && ParseName(t, q, uri) == Named(q + |NameText(name, j, uri).value|, name[j..])
    decreases |name| - j, 1
  {
    hide E.HasAt, ParseName, PercentRound;
    var w := [TILDE, code];
    Step(name, j, 1, uri, t, q, w);
    hide NameText;
    WS.HasByte(t, q, w, 0);
    WS.HasByte(t, q, w, 1);
    assert name[j..j + 1] == [name[j]];
    OneMore(name, j, 1, uri, t, q, q + 2);
  }

  lemma {:induction false} PercentCase(name: bytes, j: nat, uri: bool, t: bytes, q: nat)
    requires j < |name| && NameText(name, j, uri).Some? && E.HasAt(t, q, NameText(name, j, uri).value)
    requires var e := q + |NameText(name, j, uri).value|; e <= |t| && (e == |t| || t[e] == SLASH)
    requires uri && NeedPercentEncode(name[j]) && name[j] != SLASH
    ensures q <= |t| && ParseName(t, q, uri) == Named(q + |NameText(name, j, uri).value|, name[j..])
    decreases |name| - j, 1
  {
    hide E.HasAt, ParseName, NextRound, PercentEncode, NeedPercentEncode, E.Decode;
    TildeNeedsNone();
    E.DecodeExactly(name, j);
    TakenInside(name, j);
    var n := E.Decode(name, j).taken;
    var w := PercentEncode(name[j..j + n]);
    Step(name, j, n, uri, t, q, w);
    hide NameText;
    PercentBack(name, j, t, q);
    OneMore(name, j, n, uri, t, q, q + 3 * n);
  }

  lemma TildeNeedsNone()
    ensures !NeedPercentEncode(TILDE)
  {
  }

  lemma {:induction false} PlainCase(name: bytes, j: nat, uri: bool, t: bytes, q: nat)
    requires j < |name| && NameText(name, j, uri).Some? && E.HasAt(t, q, NameText(name, j, uri).value)
    requires var e := q + |NameText(name, j, uri).value|; e <= |t| && (e == |t| || t[e] == SLASH)
    requires name[j] != TILDE && name[j] != SLASH && !(uri && NeedPercentEncode(name[j]))
    ensures q <= |t| && ParseName(t, q, uri) == Named(q + |NameText(name, j, uri).value|, name[j..])
    decreases |name| - j, 1
  {
    hide E.HasAt, ParseName, PercentRound;
    Step(name, j, 1, uri, t, q, [name[j]]);
    hide NameText;
    WS.HasByte(t, q, [name[j]], 0);
    assert name[j..j + 1] == [name[j]];
    OneMore(name, j, 1, uri, t, q, q + 1);
  }

  lemma Inside(t: bytes, q: nat, w: bytes)
    requires E.HasAt(t, q, w)
    ensures q + |w| <= |t|
  {
  }

  lemma TakenInside(name: bytes, j: nat)
    requires j < |name| && E.Decode(name, j).ok
    ensures 0 < E.Decode(name, j).taken && j + E.Decode(name, j).taken <= |name|
  {
    E.DecodeIsRfc(name, j);
  }

  /** The induction step of NameBack: n bytes of the name were put as w. */
  lemma {:induction false} Step(name: bytes, j: nat, n: nat, uri: bool, t: bytes, q: nat, w: bytes)
    requires 0 < n && j + n <= |name| && NameText(name, j, uri).Some? && E.HasAt(t, q, NameText(name, j, uri).value)
    requires var e := q + |NameText(name, j, uri).value|; e <= |t| && (e == |t| || t[e] == SLASH)
    requires NameText(name, j, uri) == Prefixed(w, NameText(name, j + n, uri))
    ensures E.HasAt(t, q, w) && q + |w| <= |t|
    ensures ParseName(t, q + |w|, uri) == Named(q + |NameText(name, j, uri).value|, name[j + n..])
    decreases |name| - j, 0
  {
    hide E.HasAt, NameText, ParseName;
    WS.HasSplit(t, q, w, NameText(name, j + n, uri).value);
    NameBack(name, j + n, uri, t, q + |w|);
  }

  lemma OneMore(name: bytes, j: nat, n: nat, uri: bool, t: bytes, q: nat, next: nat)
    requires j + n <= |name| && q < |t| && t[q] != SLASH && next <= |t|
    requires NextRound(t, q, uri) == Emit(next, name[j..j + n])
    requires ParseName(t, next, uri).Named? && ParseName(t, next, uri).name == name[j + n..]
    ensures ParseName(t, q, uri) == Named(ParseName(t, next, uri).next, name[j..])
  {
    hide NextRound;
    assert name[j..] == name[j..j + n] + name[j + n..];
  }

  lemma {:induction false} TokensBack(ts: seq<Token>, uri: bool, t: bytes, q: nat)
    requires TokensText(ts, uri).Some? && E.HasAt(t, q, TokensText(ts, uri).value) &&
             q + |TokensText(ts, uri).value| == |t|
    ensures ParseTokens(t, q, uri) == Tokens(Reindexed(ts))
    ensures q < |t| ==> t[q] == SLASH
    decreases |ts|
  {
    hide NameText, ParseName, E.HasAt, IndexOf;
    if ts != [] {
      var name, rest := NameText(ts[0].name, 0, uri).value, TokensText(ts[1..], uri).value;
      var slash: bytes := [SLASH];
      assert slash + name + rest == slash + (name + rest);
      WS.HasSplit(t, q, slash, name + rest);
      WS.HasByte(t, q, slash, 0);
      WS.HasSplit(t, q + 1, name, rest);
      TokensBack(ts[1..], uri, t, q + 1 + |name|);
      NameBack(ts[0].name, 0, uri, t, q + 1);
      assert ts[0].name[0..] == ts[0].name;
    }
  }

  /** Parsing what was stringified, as a string or as a URI fragment, gives the same names back. */
  lemma ParseUndoesStringify(ts: seq<Token>, uri: bool)
    requires Stringify(ts, uri).Some?
    ensures Parse(Stringify(ts, uri).value) == Tokens(Reindexed(ts))
  {
    var t, w := Stringify(ts, uri).value, TokensText(ts, uri).value;
    var q := if uri then 1 else 0;
    assert t[q..q + |w|] == w;
    TokensBack(ts, uri, t, q);
    hide ParseTokens, TokensText;
    if !uri && t != [] { assert t[0] == SLASH; }
  }

  /** Every pointer has a string form; a URI fragment form exactly when its names are well-formed UTF-8. */
  lemma {:induction false} NameTextExactly(name: bytes, j: nat, uri: bool)
    requires j <= |name|
    ensures NameText(name, j, uri).Some? <==> !uri || E.WellFormed(name, j)
    decreases |name| - j
  {
    hide E.Decode, E.SequenceLength, E.Encode, PercentEncode;
    if j < |name| {
      if uri && NeedPercentEncode(name[j]) && name[j] != TILDE && name[j] != SLASH {
        E.DecodeIsRfc(name, j);
        E.DecodeExactly(name, j);
        if E.Decode(name, j).ok { NameTextExactly(name, j + E.Decode(name, j).taken, uri); }
      } else {
        NameTextExactly(name, j + 1, uri);
        if uri { E.AsciiLength(name, j); }
      }
    }
  }

  predicate AllWellFormed(ts: seq<Token>) { forall i :: 0 <= i < |ts| ==> E.WellFormed(ts[i].name, 0) }

  lemma AllWellFormedCons(ts: seq<Token>)
    requires ts != []
    ensures AllWellFormed(ts) <==> E.WellFormed(ts[0].name, 0) && AllWellFormed(ts[1..])
  {
    hide E.WellFormed;
    assert forall i :: 0 < i < |ts| ==> ts[i] == ts[1..][i - 1];
    assert forall i :: 0 <= i < |ts[1..]| ==> ts[1..][i] == ts[i + 1];
  }

  lemma {:induction false} TokensTextExactly(ts: seq<Token>, uri: bool)
    ensures TokensText(ts, uri).Some? <==> !uri || AllWellFormed(ts)
    decreases |ts|
  {
    hide E.WellFormed, NameText;
    if ts != [] {
      NameTextExactly(ts[0].name, 0, uri);
      TokensTextExactly(ts[1..], uri);
      AllWellFormedCons(ts);
      hide AllWellFormed;
    }
  }

  lemma StringifyExactly(ts: seq<Token>, uri: bool)
    ensures Stringify(ts, uri).Some? <==> !uri || AllWellFormed(ts)
  {
    TokensTextExactly(ts, uri);
  }

  // ----- Stringify undoes Parse -----

  lemma FirstUnits(s: bytes, i: nat)
    requires i < |s|
    ensures s[i..i + 1] == [s[i]] && (i + 1 < |s| ==> s[i..i + 2] == [s[i], s[i + 1]])
  {
  }

  lemma {:induction false} NameForth(s: bytes, i: nat, name: bytes, j: nat)
    requires i <= |s| && j <= |name| && ParseName(s, i, false).Named? && ParseName(s, i, false).name == name[j..]
    ensures i <= ParseName(s, i, false).next <= |s|
    ensures NameText(name, j, false) == Some(s[i..ParseName(s, i, false).next])
    decreases |s| - i
  {
    NameInside(s, i, false);
    var next := ParseName(s, i, false).next;
    if i == |s| || s[i] == SLASH {
      assert |name[j..]| == 0 && s[i..next] == [];
    } else {
      var r := NextRound(s, i, false);
      RoundAdvances(s, i, false);
      assert |r.codeunits| == 1;
      assert name[j..] == r.codeunits + ParseName(s, r.next, false).name;
      assert name[j] == name[j..][0] && name[j + 1..] == name[j..][1..];
      NameForth(s, r.next, name, j + 1);
      FirstUnits(s, i);
      assert s[i..next] == s[i..r.next] + s[r.next..next];
    }
  }

  lemma {:induction false} TokensForth(s: bytes, i: nat)
    requires i <= |s| && (i < |s| ==> s[i] == SLASH) && ParseTokens(s, i, false).Tokens?
    ensures TokensText(ParseTokens(s, i, false).tokens, false) == Some(s[i..])
    decreases |s| - i
  {
    hide ParseName, NameText, IndexOf;
    if i < |s| {
      var n := ParseName(s, i + 1, false);
      NameInside(s, i + 1, false);
      assert n.name[0..] == n.name;
      NameForth(s, i + 1, n.name, 0);
      TokensForth(s, n.next);
      var ts := ParseTokens(s, i, false).tokens;
      assert ts[1..] == ParseTokens(s, n.next, false).tokens;
      assert s[i..] == [SLASH] + s[i + 1..n.next] + s[n.next..];
    } else {
      assert s[i..] == [];
    }
  }

  /** Stringifying an accepted pointer that is no URI fragment gives the same text back. */
  lemma StringifyUndoesParse(s: bytes)
    requires Parse(s).Tokens? && At(s, 0, 0) != HASH
    ensures Stringify(Parse(s).tokens, false) == Some(s)
  {
    TokensForth(s, 0);
    assert s[0..] == s && [] + s == s;
  }
}
