/** The document stack of the schema validator, read as a JSON Pointer, is the location of the value. */
module SchemaPointer {
  import opened Json
  import P = Pointer
  import PP = PointerProof
  import SP = SchemaPaths
  import V = SchemaValidator

  function TokensOf(names: seq<bytes>): seq<P.Token> {
    seq(|names|, i requires 0 <= i < |names| => P.Token(names[i], P.IndexOf(names[i])))
  }

  /** AppendToken escapes a name exactly as Stringify does. */
  lemma {:induction false} SameEscape(name: bytes, j: nat)
    requires j <= |name|
    ensures P.NameText(name, j, false) == Some(V.EscapeName(name[j..]))
    decreases |name| - j
  {
    if j < |name| {
      SameEscape(name, j + 1);
      assert name[j..][1..] == name[j + 1..];
    } else {
      assert name[j..] == [];
    }
  }

  lemma {:induction false} TextAppend(ts: seq<P.Token>, t: P.Token)
    ensures P.TokensText(ts, false).Some?
    ensures P.TokensText(ts + [t], false) == Some(P.TokensText(ts, false).value + [V.SLASH] + V.EscapeName(t.name))
    decreases |ts|
  {
    hide P.NameText, V.EscapeName;
    SameEscape(t.name, 0);
    assert t.name[0..] == t.name;
    if ts == [] {
      assert ts + [t] == [t];
      assert [t][1..] == [];
      var end := V.EscapeName(t.name);
      assert [V.SLASH] + end + [] == [] + [V.SLASH] + end;
    } else {
      SameEscape(ts[0].name, 0);
      assert ts[0].name[0..] == ts[0].name;
      assert (ts + [t])[1..] == ts[1..] + [t];
      TextAppend(ts[1..], t);
      var first, rest, end :=
        P.NameText(ts[0].name, 0, false).value, P.TokensText(ts[1..], false).value, V.EscapeName(t.name);
      assert [V.SLASH] + first + (rest + [V.SLASH] + end) == [V.SLASH] + first + rest + [V.SLASH] + end;
    }
  }

  lemma {:induction false} PathIsText(names: seq<bytes>)
    ensures P.TokensText(TokensOf(names), false) == Some(SP.PathOf(names))
  {
    hide V.EscapeName, P.IndexOf;
    if names != [] {
      var last := |names| - 1;
      var ts := TokensOf(names[..last]);
      assert TokensOf(names) == ts + [TokensOf(names)[last]];
      PathIsText(names[..last]);
      TextAppend(ts, TokensOf(names)[last]);
    }
  }

  lemma {:induction false} SameTokens(ts: seq<P.Token>)
    requires forall i :: 0 <= i < |ts| ==> ts[i].index == P.IndexOf(ts[i].name)
    ensures PP.Reindexed(ts) == ts
  {
    hide P.IndexOf;
    if ts != [] { SameTokens(ts[1..]); }
  }

  /** The text on the document stack at a location parses as the pointer to that location, token by
      token; so DocumentStackIsLocation gives, for every value that begins or ends, a pointer that
      parses back to the path from the root to it. */
  lemma PathParsesToLocation(names: seq<bytes>)
    ensures P.Parse(SP.PathOf(names)) == P.Tokens(TokensOf(names))
  {
    hide P.Parse, P.IndexOf, P.TokensText;
    var ts := TokensOf(names);
    PathIsText(names);
    assert [] + SP.PathOf(names) == SP.PathOf(names);
    PP.ParseUndoesStringify(ts, false);
    SameTokens(ts);
  }
}
