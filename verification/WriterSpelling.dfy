/** How WriteString (rapidjson/writer.h) spells a string: what it escapes and how, and nothing else. */
module WriterSpelling {
  import opened Json
  import opened Writer
  import E = Encodings

  const HEX := "0123456789ABCDEF"

  /** \u and four digits, in upper case. */
  predicate IsHexEscape(w: bytes, u: nat) {
    && |w| == 6 && u < 0x1_0000 && w[0] == '\\' as int && w[1] == 'u' as int
    && w[2] == HEX[u / 0x1000] as int && w[3] == HEX[u / 0x100 % 0x10] as int
    && w[4] == HEX[u / 0x10 % 0x10] as int && w[5] == HEX[u % 0x10] as int
  }

  /** The character that has a letter of its own behind the backslash. */
  predicate IsShort(c: byte, e: byte) {
    || (c == 0x22 && e == '"' as int) || (c == 0x5C && e == '\\' as int)
    || (c == 0x08 && e == 'b' as int) || (c == 0x0C && e == 'f' as int) || (c == 0x0A && e == 'n' as int)
    || (c == 0x0D && e == 'r' as int) || (c == 0x09 && e == 't' as int)
  }

  predicate HasShort(c: byte) {
    c == 0x22 || c == 0x5C || c == 0x08 || c == 0x0C || c == 0x0A || c == 0x0D || c == 0x09
  }

  /** An ASCII character: only quotation mark, reverse solidus and control characters are escaped. */
  predicate SpellsAscii(c: byte, w: bytes) {
    if HasShort(c) then |w| == 2 && w[0] == '\\' as int && IsShort(c, w[1])
    else if c < 0x20 then IsHexEscape(w, c)
    else w == [c]
  }

  /** A character beyond ASCII for an ASCII target: one escape, or two for a surrogate pair. */
  ghost predicate SpellsBeyond(u: nat, w: bytes) {
    if u < 0x1_0000 then IsHexEscape(w, u)
    else |w| == 12 && exists high: nat, low: nat :: IsPair(u, high, low) && IsHexEscape(w[..6], high) &&
                        IsHexEscape(w[6..], low)
  }

  predicate IsPair(u: nat, high: nat, low: nat) {
    && 0xD800 <= high <= 0xDBFF && 0xDC00 <= low <= 0xDFFF
    && u == 0x1_0000 + (high - 0xD800) * 0x400 + (low - 0xDC00)
  }

  /** One step of a write: the bytes x of the string are written as w. Validation takes sequences as a whole. */
  ghost predicate Writes(x: bytes, w: bytes, target: Target) {
    || (|x| == 1 && x[0] < 0x80 && SpellsAscii(x[0], w))
    || (target.unicode && !target.validate && |x| == 1 && x[0] >= 0x80 && w == x)
    || (exists u: nat :: E.IsScalar(u) && u >= 0x80 && x == E.Encode(u) &&
          if target.unicode then target.validate && w == x else SpellsBeyond(u, w))
  }

  /** The string x is written as w, step by step. */
  ghost predicate WritesAll(x: bytes, w: bytes, target: Target)
    decreases |x|
  {
    (x == [] && w == []) ||
    exists k: nat, m: nat :: 0 < k <= |x| && m <= |w| && Writes(x[..k], w[..m], target) &&
      WritesAll(x[k..], w[m..], target)
  }

  // ----- one step -----

  lemma HexTextExactly(u: nat, w: bytes)
    requires u < 0x1_0000
    ensures IsHexEscape(w, u) <==> w == [BACKSLASH, LETTER_U] + HexText(u)
  {
    assert forall d: nat :: d < 16 ==> HexDigit(d) == HEX[d] as int;
  }

  lemma AsciiExactly(c: byte, w: bytes)
    requires c < 0x80
    ensures SpellsAscii(c, w) <==> w == ByteText(c)
  {
    if Escape(c) == LETTER_U {
      HexTextExactly(c, w);
      assert HexText(c) == [HexDigit(0), HexDigit(0), HexDigit(c / 0x10), HexDigit(c % 0x10)];
    }
  }

  lemma PairExactly(u: nat, high: nat, low: nat)
    requires E.IsScalar(u) && u >= 0x1_0000
    ensures IsPair(u, high, low) <==> high == (u - 0x1_0000) / 0x400 + 0xD800 && low == (u - 0x1_0000) % 0x400 + 0xDC00
  {
  }

  lemma HalvesExactly(w: bytes, a: bytes, b: bytes)
    requires |a| == 6 && |b| == 6
    ensures |w| == 12 && w[..6] == a && w[6..] == b <==> w == a + b
  {
  }

  lemma BeyondExactly(u: nat, w: bytes)
    requires E.IsScalar(u) && u >= 0x80
    ensures SpellsBeyond(u, w) <==> w == CodepointText(u)
  {
    if u < 0x1_0000 {
      HexTextExactly(u, w);
    } else {
      var high, low := (u - 0x1_0000) / 0x400 + 0xD800, (u - 0x1_0000) % 0x400 + 0xDC00;
      PairExactly(u, high, low);
      var a, b := [BACKSLASH, LETTER_U] + HexText(high), [BACKSLASH, LETTER_U] + HexText(low);
      assert CodepointText(u) == a + b;
      HalvesExactly(w, a, b);
      if |w| == 12 {
        HexTextExactly(high, w[..6]);
        HexTextExactly(low, w[6..]);
      }
      hide HexText, IsHexEscape, IsPair;
      forall x: nat, y: nat | IsPair(u, x, y) ensures x == high && y == low { PairExactly(u, x, y); }
    }
  }

  /** What the loop of WriteString does at p: where it goes on, and what it puts. */
  function Step(s: bytes, p: nat, target: Target): Option<(nat, bytes)>
    requires p < |s|
  {
    var d := E.Decode(s, p);
    E.DecodeExactly(s, p);
    if !target.unicode && s[p] >= 0x80 then
      if d.ok then Some((p + d.taken, CodepointText(d.codepoint))) else None
    else if Validates(s[p], target) then
      if d.ok then Some((p + d.taken, s[p..p + d.taken])) else None
    else Some((p + 1, ByteText(s[p])))
  }

  lemma StringTextSteps(s: bytes, p: nat, target: Target)
    requires p < |s|
    ensures var step, r := Step(s, p, target), StringText(s, p, target);
            if step.None? then !r.ok
            else
              var (q, w) := step.value;
              p < q <= |s| && r.ok == StringText(s, q, target).ok && r.text == w + StringText(s, q, target).text
  {
    E.DecodeIsRfc(s, p);
    hide E.Decode, CodepointText, ByteText;
  }

  lemma EncodeStarts(u: nat)
    requires u <= E.MAX_CODEPOINT
    ensures |E.Encode(u)| > 0 && (if u < 0x80 then E.Encode(u) == [u] else E.Encode(u)[0] >= 0xC0)
  {
  }

  /** The bytes from p to q encode u exactly when the decoder takes them for u. */
  lemma SequenceExactly(s: bytes, p: nat, q: nat, u: nat)
    requires p < q <= |s| && E.IsScalar(u)
    ensures var d := E.Decode(s, p);
            s[p..q] == E.Encode(u) <==> d.ok && d.codepoint == u && p + d.taken == q
    ensures s[p..q] == E.Encode(u) ==> (u >= 0x80 <==> s[p] >= 0x80) && (u < 0x80 ==> q == p + 1)
  {
    E.DecodeExactly(s, p);
    EncodeStarts(u);
    hide E.Encode, E.Decode;
    if s[p..q] == E.Encode(u) {
      assert E.HasAt(s, p, E.Encode(u));
      assert s[p..q][0] == s[p];
    }
  }

  lemma AsciiStep(s: bytes, p: nat, q: nat, w: bytes, target: Target)
    requires p < q <= |s| && s[p] < 0x80
    ensures Writes(s[p..q], w, target) <==> q == p + 1 && w == ByteText(s[p])
    ensures Step(s, p, target) == Some((p + 1, ByteText(s[p])))
  {
    AsciiExactly(s[p], w);
    EncodeStarts(s[p]);
    assert s[p..p + 1] == [s[p]];
    SequenceExactly(s, p, p + 1, s[p]);
    hide E.Encode, E.Decode, CodepointText, SpellsAscii, SpellsBeyond;
    forall u: nat | E.IsScalar(u) && u >= 0x80
      ensures s[p..q] != E.Encode(u)
    {
      SequenceExactly(s, p, q, u);
    }
  }

  lemma PlainStep(s: bytes, p: nat, q: nat, w: bytes, target: Target)
    requires p < q <= |s| && s[p] >= 0x80 && target.unicode && !target.validate
    ensures Writes(s[p..q], w, target) <==> q == p + 1 && w == [s[p]]
    ensures Step(s, p, target) == Some((p + 1, [s[p]]))
  {
    hide E.Encode, E.Decode, SpellsBeyond;
  }

  lemma SequenceWrites(s: bytes, p: nat, q: nat, w: bytes, target: Target)
    requires p < q <= |s| && s[p] >= 0x80 && (target.unicode ==> target.validate)
    ensures var d := E.Decode(s, p);
            && (d.ok ==> E.IsScalar(d.codepoint))
            && (Writes(s[p..q], w, target) <==>
                && d.ok && d.codepoint >= 0x80 && p + d.taken == q
                && if target.unicode then w == s[p..q] else SpellsBeyond(d.codepoint, w))
  {
    hide E.Encode, E.Decode, CodepointText, SpellsBeyond, SpellsAscii;
    var x, d := s[p..q], E.Decode(s, p);
    assert x[0] == s[p];
    assert d.ok ==> E.IsScalar(d.codepoint) by { E.DecodeExactly(s, p); }
    forall u: nat | E.IsScalar(u)
      ensures x == E.Encode(u) <==> d.ok && d.codepoint == u && p + d.taken == q
    {
      SequenceExactly(s, p, q, u);
    }
  }

  lemma Taken(s: bytes, p: nat)
    requires p < |s| && s[p] >= 0x80 && E.Decode(s, p).ok
    ensures var d := E.Decode(s, p);
            E.IsScalar(d.codepoint) && d.codepoint >= 0x80 && 0 < d.taken && p + d.taken <= |s|
  {
    E.DecodeExactly(s, p);
    EncodeStarts(E.Decode(s, p).codepoint);
    hide E.Encode, E.Decode;
    var d := E.Decode(s, p);
    assert s[p..p + d.taken] == E.Encode(d.codepoint);
    SequenceExactly(s, p, p + d.taken, d.codepoint);
  }

  lemma SequenceStep(s: bytes, p: nat, q: nat, w: bytes, target: Target)
    requires p < q <= |s| && s[p] >= 0x80 && (target.unicode ==> target.validate)
    ensures Writes(s[p..q], w, target) <==> Step(s, p, target) == Some((q, w))
  {
    SequenceWrites(s, p, q, w, target);
    hide Writes, E.Encode, E.Decode, CodepointText, SpellsBeyond, ByteText, E.HasAt;
    if E.Decode(s, p).ok {
      Taken(s, p);
      BeyondExactly(E.Decode(s, p).codepoint, w);
    }
  }

  lemma StepExactly(s: bytes, p: nat, q: nat, w: bytes, target: Target)
    requires p < q <= |s|
    ensures Writes(s[p..q], w, target) <==> Step(s, p, target) == Some((q, w))
  {
    hide Writes, Step, ByteText;
    if s[p] < 0x80 {
      AsciiStep(s, p, q, w, target);
    } else if target.unicode && !target.validate {
      PlainStep(s, p, q, w, target);
    } else {
      SequenceStep(s, p, q, w, target);
    }
  }

  // ----- whole strings -----

  /** A string is written exactly when it consists of such steps, and its text is their texts. */
  lemma {:induction false} StringExactly(s: bytes, p: nat, w: bytes, target: Target)
    requires p <= |s|
    ensures StringText(s, p, target) == Written(w, true) <==> WritesAll(s[p..], w, target)
    decreases |s| - p
  {
    if StringText(s, p, target) == Written(w, true) { WrittenSteps(s, p, w, target); }
    if WritesAll(s[p..], w, target) { StepsWritten(s, p, w, target); }
  }

  lemma {:induction false} WrittenSteps(s: bytes, p: nat, w: bytes, target: Target)
    requires p <= |s| && StringText(s, p, target) == Written(w, true)
    ensures WritesAll(s[p..], w, target)
    decreases |s| - p
  {
    hide StringText, Step, Writes;
    if p == |s| {
      NothingWritten(s, target);
    } else {
      StringTextSteps(s, p, target);
      var (q, v) := Step(s, p, target).value;
      var rest := StringText(s, q, target).text;
      StepExactly(s, p, q, v, target);
      WrittenSteps(s, q, rest, target);
      var x, k, m := s[p..], q - p, |v|;
      assert x[..k] == s[p..q] && x[k..] == s[q..] && w[..m] == v && w[m..] == rest;
      assert Writes(x[..k], w[..m], target) && WritesAll(x[k..], w[m..], target);
    }
  }

  lemma NothingWritten(s: bytes, target: Target)
    ensures StringText(s, |s|, target) == Written([], true)
  {
  }

  lemma FirstStep(x: bytes, w: bytes, target: Target) returns (k: nat, m: nat)
    requires WritesAll(x, w, target) && x != []
    ensures 0 < k <= |x| && m <= |w| && Writes(x[..k], w[..m], target) && WritesAll(x[k..], w[m..], target)
  {
    hide Writes;
    k, m :| 0 < k <= |x| && m <= |w| && Writes(x[..k], w[..m], target) && WritesAll(x[k..], w[m..], target);
  }

  lemma {:induction false} StepsWritten(s: bytes, p: nat, w: bytes, target: Target)
    requires p <= |s| && WritesAll(s[p..], w, target)
    ensures StringText(s, p, target) == Written(w, true)
    decreases |s| - p
  {
    hide StringText, Step, Writes;
    var x := s[p..];
    if p == |s| {
      NothingWritten(s, target);
      assert x == [];
    } else {
      hide WritesAll;
      var k, m := FirstStep(x, w, target);
      assert x[..k] == s[p..p + k] && x[k..] == s[p + k..];
      StepExactly(s, p, p + k, w[..m], target);
      StringTextSteps(s, p, target);
      StepsWritten(s, p + k, w[m..], target);
      assert w[..m] + w[m..] == w;
    }
  }
}
