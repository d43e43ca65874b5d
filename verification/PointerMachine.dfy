/** Parse and Stringify as they run. Parse writes the names into a buffer as long as the source and
    the tokens into an array sized by the number of slashes; neither is ever written past its end. */
module PointerMachine {
  import opened Json
  import opened Streams
  import opened Pointer
  import E = Encodings
  import M = EncodingsMachine
  import S = Strings
  import W = Writer
  import D = Decimal

  // ----- percent-decoding -----

  /** The three ranges of hexadecimal digits. */
  method HexDigit(h: byte) returns (digit: Option<nat>)
    ensures digit == S.HexValue(h) && (digit.Some? ==> digit.value < 0x10)
  {
    if '0' as int <= h <= '9' as int { return Some(h - '0' as int); }
    if 'A' as int <= h <= 'F' as int { return Some(h - 'A' as int + 10); }
    if 'a' as int <= h <= 'f' as int { return Some(h - 'a' as int + 10); }
    return None;
  }

  class PercentDecodeStream {
    const source: bytes
    const behind: bytes      // what lies behind the source in memory
    var src: nat
    var valid: bool
    ghost var reach: nat     // behind the last character looked at

    constructor (source: bytes, behind: bytes, src: nat)
      requires src <= |source|
      ensures this.source == source && this.behind == behind && this.src == src && valid && reach == 0
    {
      this.source, this.behind, this.src, valid, reach := source, behind, src, true, 0;
    }

    /** A triplet gives its byte; anything else gives null and marks the stream. The percent sign is
        looked for before the end of the source is. */
    method Take() returns (c: byte)
      requires src <= |source| && (src == |source| ==> behind != [])
      modifies this
      ensures src == TakeFrom(source, old(src)) <= |source|
      ensures reach > |source| <==> old(reach) > |source| || old(src) == |source|
      ensures var t := Triplet(source, old(src));
              if t.Some? then c == t.value && src == old(src) + 3 && valid == old(valid) else c == 0 && !valid
    {
      if reach <= src { reach := src + 1; }
      if (if src < |source| then source[src] else behind[0]) != PERCENT || src + 3 > |source| {
        valid := false;
        return 0;
      }
      if reach < src + 3 { reach := src + 3; }
      ghost var start := src;
      src := src + 1;
      var code: int := 0;
      hide S.HexValue;
      for j := 0 to 2
        invariant src == start + 1 + j && valid == old(valid) && start + 3 <= |source|
        invariant reach > |source| <==> old(reach) > |source|
        invariant j == 0 ==> code == 0
        invariant j >= 1 ==> S.HexValue(source[start + 1]).Some?
        invariant j == 1 ==> S.HexValue(source[start + 1]) == Some(code)
        invariant j == 2 ==> S.HexValue(source[start + 2]).Some?
        invariant j == 2 ==>
                  code == S.HexValue(source[start + 1]).value * 0x10 + S.HexValue(source[start + 2]).value < 0x100
      {
        code := code * 0x10 % 0x100;
        var digit := HexDigit(source[src]);
        if digit.None? {
          valid := false;
          return 0;
        }
        code := code + digit.value;
        src := src + 1;
      }
      c := code;
    }
  }

  lemma {:induction false} TripletsMore(s: bytes, i: nat, n: nat)
    ensures var w, b := Triplets(s, i, n), Triplet(s, i + 3 * n);
            Triplets(s, i, n + 1) == if w.None? || b.None? then None else Some(w.value + [b.value])
    decreases n
  {
    if n > 0 {
      TripletsMore(s, i + 3, n - 1);
      assert i + 3 + 3 * (n - 1) == i + 3 * n;
      var f, w, b := Triplet(s, i), Triplets(s, i + 3, n - 1), Triplet(s, i + 3 * n);
      if f.Some? && w.Some? && b.Some? { assert [f.value] + (w.value + [b.value]) == [f.value] + w.value + [b.value]; }
    } else {
      assert Triplets(s, i + 3, 0) == Some([]) && Triplets(s, i, 0) == Some([]);
      var b := Triplet(s, i);
      if b.Some? { assert [b.value] + [] == [] + [b.value]; }
    }
  }

  lemma EndsBeforeMore(s: bytes, i: nat, n: nat)
    ensures EndsBefore(s, i, n + 1) <==> EndsBefore(s, i, n) || AfterTakes(s, i, n) == |s|
    ensures AfterTakes(s, i, n + 1) == TakeFrom(s, AfterTakes(s, i, n))
  {
  }

  /** From begin on the buffer holds what was taken from i, or the stream is marked. */
  ghost predicate Holds(s: PercentDecodeStream, buffer: array<byte>, begin: nat, dst: nat, i: nat)
    reads s, buffer
  {
    && s.src <= |s.source| && begin <= dst <= buffer.Length
    && (s.reach > |s.source| <==> EndsBefore(s.source, i, dst - begin))
    && s.src == AfterTakes(s.source, i, dst - begin)
    && (s.valid <==> Triplets(s.source, i, dst - begin).Some?)
    && (s.valid ==> s.src == i + 3 * (dst - begin) && buffer[begin..dst] == Triplets(s.source, i, dst - begin).value)
  }

  /** RAPIDJSON_COPY and RAPIDJSON_TRANS of Validate, from the percent stream to the name buffer. */
  method CopyTrans(s: PercentDecodeStream, buffer: array<byte>, ghost begin: nat, dst: nat, ghost i: nat, result: bool,
                   mask: bv8)
    returns (dst': nat, result': bool)
    requires dst < buffer.Length && Holds(s, buffer, begin, dst, i)
    requires EndsBefore(s.source, i, dst - begin + 1) ==> s.behind != []
    modifies s, buffer
    ensures dst' == dst + 1 && Holds(s, buffer, begin, dst', i)
    ensures forall k :: 0 <= k < buffer.Length && k != dst ==> buffer[k] == old(buffer[k])
    ensures result' == (result && E.InRange(buffer[dst], mask))
    ensures dst == begin && old(s.valid) ==>
            buffer[dst] == if Triplet(s.source, i).Some? then Triplet(s.source, i).value else 0
  {
    hide E.InRange, Triplet;
    TripletsMore(s.source, i, dst - begin);
    EndsBeforeMore(s.source, i, dst - begin);
    hide EndsBefore, AfterTakes, TakeFrom;
    var c := s.Take();
    buffer[dst] := c;
    assert buffer[begin..dst] == old(buffer[begin..dst]);
    assert buffer[begin..dst + 1] == buffer[begin..dst] + [c];
    dst' := dst + 1;
    result' := result && E.InRange(c, mask);
  }

  /** One byte in the range of the mask and one tail. */
  method CopyTwo(s: PercentDecodeStream, buffer: array<byte>, ghost begin: nat, dst: nat, ghost i: nat, mask: bv8)
    returns (dst': nat, result: bool)
    requires dst + 2 <= buffer.Length && Holds(s, buffer, begin, dst, i)
    requires EndsBefore(s.source, i, dst - begin + 2) ==> s.behind != []
    modifies s, buffer
    ensures dst' == dst + 2 && Holds(s, buffer, begin, dst', i)
    ensures forall k :: 0 <= k < dst ==> buffer[k] == old(buffer[k])
    ensures result == (E.InRange(buffer[dst], mask) && E.InRange(buffer[dst + 1], 0x70))
  {
    EndsBeforeMore(s.source, i, dst - begin + 1);
    hide E.InRange, Triplets, Holds, EndsBefore, AfterTakes;
    dst', result := CopyTrans(s, buffer, begin, dst, i, true, mask);
    dst', result := CopyTrans(s, buffer, begin, dst', i, result, 0x70);
  }

  /** One byte in the range of the mask and two tails. */
  method CopyThree(s: PercentDecodeStream, buffer: array<byte>, ghost begin: nat, dst: nat, ghost i: nat, mask: bv8)
    returns (dst': nat, result: bool)
    requires dst + 3 <= buffer.Length && Holds(s, buffer, begin, dst, i)
    requires EndsBefore(s.source, i, dst - begin + 3) ==> s.behind != []
    modifies s, buffer
    ensures dst' == dst + 3 && Holds(s, buffer, begin, dst', i)
    ensures forall k :: 0 <= k < dst ==> buffer[k] == old(buffer[k])
    ensures result ==
            (E.InRange(buffer[dst], mask) && E.InRange(buffer[dst + 1], 0x70) && E.InRange(buffer[dst + 2], 0x70))
  {
    EndsBeforeMore(s.source, i, dst - begin + 2);
    hide E.InRange, Triplets, Holds, EndsBefore, AfterTakes;
    dst', result := CopyTwo(s, buffer, begin, dst, i, mask);
    dst', result := CopyTrans(s, buffer, begin, dst', i, result, 0x70);
  }

  /** Transcoder<UTF8, UTF8>::Validate from a percent-encoded sequence into the name buffer. At most
      four bytes are written, and more than one only behind a valid triplet. */
  method Validate(s: PercentDecodeStream, buffer: array<byte>, begin: nat) returns (ok: bool, dst: nat)
    requires s.src < |s.source| && s.valid && s.reach == 0 && begin < buffer.Length
    requires Triplet(s.source, s.src).Some? ==> begin + 4 <= buffer.Length
    requires CutOff(s.source, s.src) ==> s.behind != []
    modifies s, buffer
    ensures begin < dst && Holds(s, buffer, begin, dst, old(s.src))
    ensures s.reach > |s.source| <==> CutOff(s.source, old(s.src))
    ensures ok == E.Decode(buffer[begin..dst], 0).ok && dst - begin == E.Decode(buffer[begin..dst], 0).taken
    ensures forall k :: 0 <= k < begin ==> buffer[k] == old(buffer[k])
    ensures Triplet(s.source, old(s.src)).Some? ==> buffer[begin] == Triplet(s.source, old(s.src)).value
  {
    hide E.InRange, E.GetRange, E.LeadBits, E.AddBits, Triplet, Triplets, EndsBefore, TakeFrom;
    HoldsNothing(s, buffer, begin);
    ghost var i := s.src;
    FirstIsInside(s.source, i);
    dst, ok := CopyTrans(s, buffer, begin, begin, i, true, 0x70);
    ok := true;
    var c := buffer[begin];
    if c >= 0x80 {
      var kind := E.GetRange(c);
      if kind == 2 { dst, ok := CopyTrans(s, buffer, begin, dst, i, true, 0x70); }
      else if kind == 3 { dst, ok := CopyTwo(s, buffer, begin, dst, i, 0x70); }
      else if kind == 4 { dst, ok := CopyTwo(s, buffer, begin, dst, i, 0x50); }
      else if kind == 5 { dst, ok := CopyThree(s, buffer, begin, dst, i, 0x10); }
      else if kind == 6 { dst, ok := CopyThree(s, buffer, begin, dst, i, 0x70); }
      else if kind == 10 { dst, ok := CopyTwo(s, buffer, begin, dst, i, 0x20); }
      else if kind == 11 { dst, ok := CopyThree(s, buffer, begin, dst, i, 0x60); }
      else { ok := false; }
    }
    hide Holds;
    BufferAt(buffer, begin, dst);
  }

  lemma BufferAt(buffer: array<byte>, begin: nat, dst: nat)
    requires begin <= dst <= buffer.Length
    ensures forall k: nat :: At(buffer[begin..dst], k, 0) == if k < dst - begin then buffer[begin + k] else 0
  {
  }

  lemma HoldsNothing(s: PercentDecodeStream, buffer: array<byte>, begin: nat)
    requires s.src <= |s.source| && s.valid && s.reach == 0 && begin <= buffer.Length
    ensures Holds(s, buffer, begin, begin, s.src)
  {
  }

  lemma FirstIsInside(s: bytes, i: nat)
    requires i < |s|
    ensures !EndsBefore(s, i, 1)
  {
    assert AfterTakes(s, i, 0) == i;
  }

  // ----- parsing -----

  /** The index loop. */
  method ParseIndex(name: bytes) returns (index: nat)
    requires IsNumber(name)
    ensures index == IndexOf(name)
  {
    var n: nat := 0;
    var j := 0;
    while j < |name|
      invariant j <= |name| && n <= UINT32_MAX && ToIndex(name, j, n) == ToIndex(name, 0, 0)
    {
      var m := (n * 10 + (name[j] - '0' as int)) % 0x1_0000_0000;
      if m < n { return INVALID_INDEX; }
      n := m;
      j := j + 1;
    }
    return n;
  }

  /** The number of slashes from i on. */
  function Slashes(s: bytes, i: nat): nat
    decreases if i <= |s| then |s| - i else 0
  {
    if i >= |s| then 0 else (if s[i] == SLASH then 1 else 0) + Slashes(s, i + 1)
  }

  lemma {:induction false} NoSlashes(s: bytes, i: nat, j: nat)
    requires i <= j <= |s| && forall k :: i <= k < j ==> s[k] != SLASH
    ensures Slashes(s, i) == Slashes(s, j)
    decreases j - i
  {
    if i < j { NoSlashes(s, i + 1, j); }
  }

  lemma TripletHasNoSlash(s: bytes, i: nat)
    requires Triplet(s, i).Some?
    ensures i + 3 <= |s| && s[i] != SLASH && s[i + 1] != SLASH && s[i + 2] != SLASH
  {
  }

  lemma {:induction false} TripletsHaveNoSlash(s: bytes, i: nat, n: nat)
    requires Triplets(s, i, n).Some? && i <= |s|
    ensures i + 3 * n <= |s| && forall k :: i <= k < i + 3 * n ==> s[k] != SLASH
    decreases n
  {
    hide Triplet;
    if n > 0 {
      TripletHasNoSlash(s, i);
      TripletsHaveNoSlash(s, i + 3, n - 1);
    }
  }

  /** No round of the inner loop passes a slash of the source. */
  lemma RoundHasNoSlash(s: bytes, i: nat, uri: bool)
    requires i < |s| && s[i] != SLASH && NextRound(s, i, uri).Emit?
    ensures var next := NextRound(s, i, uri).next; i < next <= |s| && Slashes(s, i) == Slashes(s, next)
  {
    hide Triplet, Triplets, E.Decode;
    RoundAdvances(s, i, uri);
    if uri && s[i] == PERCENT {
      TripletHasNoSlash(s, i);
      TripletsHaveNoSlash(s, i, SequenceTakes(Triplet(s, i).value));
    }
    NoSlashes(s, i, NextRound(s, i, uri).next);
  }

  /** A name in the buffer, and its index. */
  datatype RawToken = RawToken(start: nat, length: nat, index: nat)

  /** What an inner round does: where it stops in the source and in the buffer. */
  datatype Progress = Progress(i: nat, name: nat, isDigit: bool)

  /** Escaping, and the character itself: the part of the inner loop behind percent-decoding. */
  method ParseCharacter(source: bytes, i: nat, c: byte, buffer: array<byte>, name: nat)
    returns (error: Option<Error>, p: Progress)
    requires i <= |source| && name < buffer.Length
    modifies buffer
    ensures forall k :: 0 <= k < buffer.Length && k != name ==> buffer[k] == old(buffer[k])
    ensures var r := EscapeRound(source, i, c);
            if r.Emit? then error.None? && p == Progress(r.next, name + 1, D.IsDigit(buffer[name])) &&
              [buffer[name]] == r.codeunits
            else error == Some(r.error) && p.i == r.offset
  {
    var next, character := i, c;
    if c == TILDE {
      if next < |source| {
        character := source[next];
        if character == '0' as int { character := TILDE; }
        else if character == '1' as int { character := SLASH; }
        else { return Some(InvalidEscape), Progress(next, name, false); }
        next := next + 1;
      } else {
        return Some(InvalidEscape), Progress(next, name, false);
      }
    }
    buffer[name] := character;
    return None, Progress(next, name + 1, D.IsDigit(character));
  }

  /** The room in front of the source position that the buffer position leaves. */
  function Margin(uri: bool): nat { if uri then 1 else 0 }

  /** Percent-decoding into the name buffer; a single byte is handed back as a character. */
  method ParsePercent(source: bytes, behind: bytes, i: nat, buffer: array<byte>, name: nat)
    returns (ok: bool, next: nat, length: nat, ghost reach: nat)
    requires i < |source| && source[i] == PERCENT && buffer.Length == |source| && name + 2 <= i
    requires CutOff(source, i) ==> behind != []
    modifies buffer
    ensures forall k :: 0 <= k < name ==> buffer[k] == old(buffer[k])
    ensures ok ==> 0 < length && name + length <= buffer.Length && name < buffer.Length && next <= |source|
    ensures PercentRound(source, i) ==
            if !ok then Fail(InvalidPercentEncoding, i)
            else if length == 1 then EscapeRound(source, next, buffer[name])
            else Emit(next, buffer[name..name + length])
    ensures ok && length > 1 ==> !AllDigits(buffer[name..name + length])
    ensures reach > |source| <==> CutOff(source, i)
  {
    hide EscapeRound, E.Decode, Triplet, AllDigits, Triplets, PercentRound, CutOff;
    var s := new PercentDecodeStream(source, behind, i);
    TripletInside(source, i);
    var valid, dst := Validate(s, buffer, name);
    ValidatedRound(source, i, s, buffer, name, dst, valid);
    ok, next, length, reach := valid && s.valid, s.src, dst - name, s.reach;
    if ok && length > 1 { SequenceIsNoNumber(buffer[name..dst]); }
  }

  /** One round of the inner loop. */
  method ParseRound(source: bytes, behind: bytes, i: nat, uri: bool, buffer: array<byte>, name: nat)
    returns (error: Option<Error>, p: Progress)
    requires i < |source| && buffer.Length == |source| && name + Margin(uri) + 1 <= i
    requires uri && source[i] == PERCENT && CutOff(source, i) ==> behind != []
    modifies buffer
    ensures forall k :: 0 <= k < name ==> buffer[k] == old(buffer[k])
    ensures var r := NextRound(source, i, uri);
            if r.Emit? then
              && error.None? && p.i == r.next && p.name == name + |r.codeunits| <= buffer.Length
              && buffer[name..p.name] == r.codeunits && p.isDigit == AllDigits(r.codeunits)
            else error == Some(r.error) && p.i == r.offset
  {
    hide EscapeRound, PercentRound, NeedPercentEncode, CutOff;
    var next, c := i + 1, source[i];
    if uri {
      if c == PERCENT {
        var ok, after, length, _ := ParsePercent(source, behind, i, buffer, name);
        if !ok { return Some(InvalidPercentEncoding), Progress(i, name, false); }
        if length > 1 { return None, Progress(after, name + length, false); }
        next, c := after, buffer[name];
      } else if NeedPercentEncode(c) {
        return Some(CharacterMustPercentEncode), Progress(i, name, false);
      }
    }
    error, p := ParseCharacter(source, next, c, buffer, name);
    if error.None? { assert buffer[name..name + 1] == [buffer[name]]; }
  }

  lemma TripletInside(s: bytes, i: nat)
    ensures Triplet(s, i).Some? ==> i + 3 <= |s|
  {
  }

  /** What Validate found out is what PercentRound says. */
  lemma ValidatedRound(source: bytes, i: nat, s: PercentDecodeStream, buffer: array<byte>, name: nat, dst: nat,
                       ok: bool)
    requires s.source == source && name < dst && Holds(s, buffer, name, dst, i)
    requires ok == E.Decode(buffer[name..dst], 0).ok && dst - name == E.Decode(buffer[name..dst], 0).taken
    requires Triplet(source, i).Some? ==> buffer[name] == Triplet(source, i).value
    ensures var n := dst - name;
            if !ok || !s.valid then PercentRound(source, i) == Fail(InvalidPercentEncoding, i)
            else
              && s.src == i + 3 * n
              && PercentRound(source, i) ==
                 (if n == 1 then EscapeRound(source, i + 3, buffer[name]) else Emit(i + 3 * n, buffer[name..dst]))
  {
    hide EscapeRound, E.Decode, Triplet;
    var w := buffer[name..dst];
    TakesByFirst(w, 0);
    ValidExactly(source, i, w, dst - name, s.valid);
  }

  lemma ValidExactly(s: bytes, i: nat, w: bytes, n: nat, valid: bool)
    requires n == |w| > 0 && (valid <==> Triplets(s, i, n).Some?) && (valid ==> w == Triplets(s, i, n).value)
    requires n == SequenceTakes(w[0])
    ensures valid ==> Triplet(s, i) == Some(w[0])
  {
    hide Triplet;
  }

  /** A sequence of more than one byte has bytes that are no digits. */
  lemma SequenceIsNoNumber(w: bytes)
    requires |w| > 1 && E.Decode(w, 0).ok && E.Decode(w, 0).taken == |w|
    ensures !AllDigits(w)
  {
    hide E.InRange, E.GetRange, E.LeadBits, E.AddBits;
    assert w[0] >= 0x80;
  }

  lemma PrependTwice(a: bytes, b: bytes, n: Name)
    ensures Prepend(a, Prepend(b, n)) == Prepend(a + b, n)
  {
    if n.Named? { assert a + (b + n.name) == a + b + n.name; }
  }

  lemma AllDigitsAppend(a: bytes, b: bytes)
    ensures AllDigits(a + b) <==> AllDigits(a) && AllDigits(b)
  {
    if AllDigits(a + b) {
      assert forall i :: 0 <= i < |a| ==> a[i] == (a + b)[i];
      assert forall i :: 0 <= i < |b| ==> b[i] == (a + b)[|a| + i];
    }
  }

  /** The inner loop: one name, decoded into the buffer. */
  method ParseNameLoop(source: bytes, behind: bytes, start: nat, uri: bool, buffer: array<byte>, begin: nat)
    returns (error: Option<Error>, i: nat, name: nat, isNumber: bool)
    requires start <= |source| && buffer.Length == |source| && begin + Margin(uri) + 1 <= start
    requires NameReadsEnd(source, start, uri) ==> behind != []
    modifies buffer
    ensures forall k :: 0 <= k < begin ==> buffer[k] == old(buffer[k])
    ensures var n := ParseName(source, start, uri);
            if n.Named? then
              && error.None? && i == n.next <= |source| && begin <= name && name + Margin(uri) + 1 <= i
              && buffer[begin..name] == n.name && isNumber == AllDigits(n.name) &&
                 Slashes(source, start) == Slashes(source, i)
            else error == Some(n.error) && i == n.offset
  {
    i, name, isNumber := start, begin, true;
    hide NextRound, Slashes, AllDigits, CutOff;
    NoDigits();
    NothingPut(ParseName(source, start, uri));
    while i < |source| && source[i] != SLASH
      invariant i <= |source| && begin <= name && name + Margin(uri) + 1 <= i
      invariant forall k :: 0 <= k < begin ==> buffer[k] == old(buffer[k])
      invariant ParseName(source, start, uri) == Prepend(buffer[begin..name], ParseName(source, i, uri))
      invariant isNumber == AllDigits(buffer[begin..name]) && Slashes(source, start) == Slashes(source, i)
      invariant NameReadsEnd(source, i, uri) ==> behind != []
      decreases |source| - i
    {
      ghost var before, r := buffer[begin..name], NextRound(source, i, uri);
      var p;
      error, p := ParseRound(source, behind, i, uri, buffer, name);
      if error.Some? { return error, p.i, name, isNumber; }
      assert buffer[begin..p.name] ==
        before + r.codeunits by { Joined(buffer, begin, name, p.name, before, r.codeunits); }
      RoundAdvances(source, i, uri);
      RoundHasNoSlash(source, i, uri);
      PrependTwice(before, r.codeunits, ParseName(source, r.next, uri));
      AllDigitsAppend(before, r.codeunits);
      i, name, isNumber := p.i, p.name, isNumber && p.isDigit;
    }
    error := None;
    assert buffer[begin..name] + [] == buffer[begin..name];
  }

  lemma NoDigits()
    ensures AllDigits([])
  {
  }

  lemma NothingPut(n: Name)
    ensures Prepend([], n) == n
  {
    if n.Named? { assert [] + n.name == n.name; }
  }

  lemma Joined(buffer: array<byte>, begin: nat, mid: nat, end: nat, a: bytes, b: bytes)
    requires begin <= mid <= end <= buffer.Length && buffer[begin..mid] == a && buffer[mid..end] == b
    ensures buffer[begin..end] == a + b
  {
  }

  /** The raw tokens, with their names in the buffer up to `end`, each with its terminator, are those of ts. */
  ghost predicate Represents(buffer: bytes, raws: seq<RawToken>, ts: seq<Token>, end: nat) {
    && |raws| == |ts| && end <= |buffer|
    && (forall k :: 0 <= k < |raws| ==> HasToken(buffer, raws[k], ts[k], end))
  }

  ghost predicate HasToken(buffer: bytes, raw: RawToken, t: Token, end: nat) {
    && raw.start + raw.length < end <= |buffer| && buffer[raw.start + raw.length] == 0
    && buffer[raw.start..raw.start + raw.length] == t.name && raw.index == t.index
  }

  function PrependTokens(ts: seq<Token>, p: Parsed): Parsed { if p.Tokens? then Tokens(ts + p.tokens) else p }

  lemma PrependMore(ts: seq<Token>, t: Token, p: Parsed)
    ensures PrependTokens(ts, PrependTokens([t], p)) == PrependTokens(ts + [t], p)
  {
    if p.Tokens? { assert ts + ([t] + p.tokens) == ts + [t] + p.tokens; }
  }

  lemma NoTokensYet(p: Parsed)
    ensures PrependTokens([], p) == p
  {
    if p.Tokens? { assert [] + p.tokens == p.tokens; }
  }

  method CountSlashes(source: bytes) returns (count: nat)
    ensures count == Slashes(source, 0)
  {
    count := 0;
    var s := 0;
    while s < |source|
      invariant s <= |source| && count + Slashes(source, s) == Slashes(source, 0)
    {
      if source[s] == SLASH { count := count + 1; }
      s := s + 1;
    }
  }

  lemma NoIndex(name: bytes)
    ensures !IsNumber(name) ==> IndexOf(name) == INVALID_INDEX
  {
  }

  lemma SlashCounts(s: bytes, i: nat)
    requires i < |s|
    ensures Slashes(s, i) == (if s[i] == SLASH then 1 else 0) + Slashes(s, i + 1)
  {
  }

  /** The body of the outer loop: the name behind the slash at i, its terminator and its index. */
  method ParseToken(source: bytes, behind: bytes, start: nat, uri: bool, buffer: array<byte>, begin: nat)
    returns (error: Option<Error>, i: nat, name: nat, raw: RawToken)
    requires start < |source| && source[start] == SLASH && buffer.Length == |source| && begin + Margin(uri) <= start
    requires NameReadsEnd(source, start + 1, uri) ==> behind != []
    modifies buffer
    ensures forall k :: 0 <= k < begin ==> buffer[k] == old(buffer[k])
    ensures var n := ParseName(source, start + 1, uri);
            if n.Named? then
              && error.None? && i == n.next <= |source| && begin <= name && name + Margin(uri) <= i
              && HasToken(buffer[..], raw, Token(n.name, IndexOf(n.name)), name) &&
                 Slashes(source, start) == 1 + Slashes(source, i)
            else error == Some(n.error) && i == n.offset
  {
    hide ParseName, Slashes, IndexOf, ToIndex, NameReadsEnd;
    SlashCounts(source, start);
    raw := RawToken(begin, 0, INVALID_INDEX);
    var isNumber;
    error, i, name, isNumber := ParseNameLoop(source, behind, start + 1, uri, buffer, begin);
    if error.Some? { return; }
    var length := name - begin;
    if length == 0 { isNumber := false; }
    ghost var n := ParseName(source, start + 1, uri).name;
    buffer[name] := 0;
    assert buffer[..][begin..name] == n;
    if isNumber && length > 1 && buffer[begin] == '0' as int { isNumber := false; }
    var index := INVALID_INDEX;
    assert length > 0 ==> buffer[begin] == n[0];
    NoIndex(n);
    if isNumber { index := ParseIndex(buffer[begin..name]); }
    raw := RawToken(begin, length, index);
    name := name + 1;
  }

  /** Writing behind `begin` leaves the tokens in front of it alone. */
  lemma TokenKept(buffer: bytes, later: bytes, raw: RawToken, t: Token, begin: nat, end: nat)
    requires HasToken(buffer, raw, t, begin) && begin <= end <= |later| == |buffer|
    requires forall k :: 0 <= k < begin ==> later[k] == buffer[k]
    ensures HasToken(later, raw, t, end)
  {
    assert later[raw.start..raw.start + raw.length] == buffer[raw.start..raw.start + raw.length];
  }

  /** A token written behind the others. */
  lemma Extends(buffer: bytes, later: bytes, raws: seq<RawToken>, ts: seq<Token>, raw: RawToken, t: Token, begin: nat,
                end: nat)
    requires Represents(buffer, raws, ts, begin) && begin <= end <= |later| == |buffer|
    requires forall k :: 0 <= k < begin ==> later[k] == buffer[k]
    requires HasToken(later, raw, t, end)
    ensures Represents(later, raws + [raw], ts + [t], end)
  {
    hide HasToken;
    forall k | 0 <= k < |raws|
      ensures HasToken(later, raws[k], ts[k], end)
    {
      TokenKept(buffer, later, raws[k], ts[k], begin, end);
    }
  }

  /** One more token in the arrays, and what is left to parse. */
  method ParseOne(source: bytes, behind: bytes, i: nat, uri: bool, buffer: array<byte>, tokens: array<RawToken>,
                  token: nat, name: nat, ghost ts: seq<Token>)
    returns (error: Option<Error>, next: nat, end: nat, ghost t: Token)
    requires i < |source| && source[i] == SLASH && buffer.Length == |source| && name + Margin(uri) <= i
    requires token + Slashes(source, i) == tokens.Length && (NameReadsEnd(source, i + 1, uri) ==> behind != [])
    requires Represents(buffer[..], tokens[..token], ts, name)
    modifies buffer, tokens
    ensures var n := ParseName(source, i + 1, uri);
            if n.Named? then
              && error.None? && next == n.next && i < next <= |source| && end + Margin(uri) <= next &&
                 (next < |source| ==> source[next] == SLASH)
              && t == Token(n.name, IndexOf(n.name)) && token + 1 + Slashes(source, next) == tokens.Length
              && Represents(buffer[..], tokens[..token + 1], ts + [t], end)
            else error == Some(n.error) && next == n.offset
  {
    hide Slashes, IndexOf, HasToken, ParseName, NextRound, Represents, NameReadsEnd;
    var raw;
    t := Token([], INVALID_INDEX);
    ghost var raws, before := tokens[..token], buffer[..];
    error, next, end, raw := ParseToken(source, behind, i, uri, buffer, name);
    if error.Some? { return; }
    NameInside(source, i + 1, uri);
    ghost var n := ParseName(source, i + 1, uri);
    t := Token(n.name, IndexOf(n.name));
    Extends(before, buffer[..], raws, ts, raw, t, name, end);
    tokens[token] := raw;
    assert tokens[..token + 1] == raws + [raw];
  }

  /** The outer loop. */
  method ParseLoop(source: bytes, behind: bytes, first: nat, uri: bool, buffer: array<byte>, tokens: array<RawToken>)
    returns (error: Option<Error>, offset: nat, ghost end: nat)
    requires Margin(uri) <= first <= |source| && buffer.Length == |source| && tokens.Length == Slashes(source, first)
    requires first < |source| ==> source[first] == SLASH
    requires TokensReadEnd(source, first, uri) ==> behind != []
    modifies buffer, tokens
    ensures var p := ParseTokens(source, first, uri);
            if p.Tokens? then error.None? && Represents(buffer[..], tokens[..], p.tokens, end)
            else error == Some(p.error) && offset == p.offset
  {
    hide Slashes, IndexOf, HasToken, ParseName, NameReadsEnd;
    var i: nat, token: nat, name: nat := first, 0, 0;
    offset, end := first, 0;
    ghost var ts: seq<Token> := [];
    NoTokensYet(ParseTokens(source, i, uri));
    while i < |source|
      invariant i <= |source| && name + Margin(uri) <= i && (i < |source| ==> source[i] == SLASH)
      invariant token + Slashes(source, i) == tokens.Length
      invariant Represents(buffer[..], tokens[..token], ts, name)
      invariant ParseTokens(source, first, uri) == PrependTokens(ts, ParseTokens(source, i, uri))
      invariant TokensReadEnd(source, i, uri) ==> behind != []
      decreases |source| - i
    {
      TokensFrom(source, i, uri);
      hide ParseTokens, Represents;
      ghost var t;
      ghost var rest := ParseName(source, i + 1, uri);
      error, offset, name, t := ParseOne(source, behind, i, uri, buffer, tokens, token, name, ts);
      if error.Some? { return; }
      PrependMore(ts, t, ParseTokens(source, rest.next, uri));
      ts := ts + [t];
      token := token + 1;
      i := offset;
    }
    SlashesAtEnd(source);
    assert tokens[..token] == tokens[..];
    assert ts + [] == ts;
    error, end := None, name;
  }

  lemma TokensFrom(s: bytes, i: nat, uri: bool)
    requires i < |s|
    ensures var n := ParseName(s, i + 1, uri);
            if n.Named? then
              n.next <= |s| &&
              ParseTokens(s, i, uri) == PrependTokens([Token(n.name, IndexOf(n.name))], ParseTokens(s, n.next, uri))
            else ParseTokens(s, i, uri) == Failed(n.error, n.offset)
  {
    hide IndexOf, ParseName;
    if ParseName(s, i + 1, uri).Named? { NameInside(s, i + 1, uri); }
  }

  lemma SlashesAtEnd(source: bytes)
    ensures Slashes(source, |source|) == 0
  {
  }

  /** Parse. The buffer is as long as the source, the token array as long as the number of slashes;
      on success both represent exactly the tokens the text denotes. What lies behind the source in
      memory is needed only where Parse reads it. */
  method ParsePointer(source: bytes, behind: bytes)
    returns (error: Option<Error>, offset: nat, buffer: array<byte>, tokens: array<RawToken>, tokenCount: nat,
             ghost end: nat)
    requires ReadsEnd(source) ==> behind != []
    requires source == [] && behind[0] == HASH ==> |behind| > 1
    ensures buffer.Length == |source| && tokens.Length == Slashes(source, 0)
    ensures var p := ParseSource(source, behind);
            if p.Tokens? then error.None? && tokenCount == tokens.Length &&
              Represents(buffer[..], tokens[..], p.tokens, end)
            else error == Some(p.error) && offset == p.offset && tokenCount == 0
  {
    hide Slashes, ParseTokens, Represents, TokensReadEnd;
    tokenCount := CountSlashes(source);
    tokens := new RawToken[tokenCount](_ => RawToken(0, 0, INVALID_INDEX));
    buffer := new byte[|source|](_ => 0);
    offset, end := 0, 0;
    var memory := source + behind;
    var uri := memory[0] == HASH;
    var i := if uri then 1 else 0;
    if i != |source| && memory[i] != SLASH {
      error, offset, tokenCount := Some(TokenMustBeginWithSolidus), i, 0;
      return;
    }
    if source == [] {
      NothingIsParsed(uri);
      SlashesAtEnd(source);
      assert buffer[..] == [] && tokens[..] == [];
      error := None;
      return;
    }
    if uri { SlashCounts(source, 0); }
    error, offset, end := ParseLoop(source, behind, i, uri, buffer, tokens);
    if error.Some? { tokenCount := 0; }
  }

  /** The loop over an empty source does nothing. */
  lemma NothingIsParsed(uri: bool)
    ensures ParseTokens([], 0, uri) == Tokens([]) && Represents([], [], [], 0)
  {
  }

  // ----- stringifying -----

  /** PercentEncodeStream::Put for every byte. */
  method PutPercent(os: OutputStream<byte>, w: bytes)
    modifies os
    ensures os.written == old(os.written) + PercentEncode(w)
  {
    var k := 0;
    assert w[0..] == w;
    while k < |w|
      invariant k <= |w| && os.written + PercentEncode(w[k..]) == old(os.written) + PercentEncode(w)
    {
      assert w[k..][1..] == w[k + 1..];
      ghost var before := os.written;
      os.Put(PERCENT);
      os.Put(W.HexDigit(w[k] / 0x10));
      os.Put(W.HexDigit(w[k] % 0x10));
      assert os.written == before + [PERCENT, W.HexDigit(w[k] / 0x10), W.HexDigit(w[k] % 0x10)];
      k := k + 1;
    }
    assert w[k..] == [];
  }

  /** What was written, and the rest of a text to come. */
  function After(written: bytes, rest: Option<bytes>): Option<bytes> { Prefixed(written, rest) }

  lemma AfterMore(written: bytes, w: bytes, rest: Option<bytes>)
    ensures After(written, Prefixed(w, rest)) == After(written + w, rest)
  {
    if rest.Some? { assert written + (w + rest.value) == written + w + rest.value; }
  }

  /** One round over the code units of a name: the text it puts, if it is UTF-8. */
  lemma NextUnit(name: bytes, j: nat, uri: bool)
    requires j < |name|
    ensures var c, d := name[j], E.Decode(name, j);
            if uri && NeedPercentEncode(c) && c != TILDE && c != SLASH then
              if d.ok then
                && j + d.taken <= |name|
                && NameText(name, j, uri) ==
                   Prefixed(PercentEncode(name[j..j + d.taken]), NameText(name, j + d.taken, uri))
                && NameOverruns(name, j, uri) == NameOverruns(name, j + d.taken, uri)
              else NameText(name, j, uri).None? && NameOverruns(name, j, uri) == (j + d.taken > |name| + 1)
            else
              && NameOverruns(name, j, uri) == NameOverruns(name, j + 1, uri)
              && NameText(name, j, uri) ==
                 Prefixed(if c == TILDE then [TILDE, '0' as int] else if c == SLASH then [TILDE, '1' as int] else [c],
                          NameText(name, j + 1, uri))
  {
    hide E.Decode, E.SequenceLength, E.Encode, PercentEncode;
    E.DecodeIsRfc(name, j);
    E.DecodeExactly(name, j);
    if name[j] < 0x80 { E.AsciiLength(name, j); }
  }

  lemma NameInMemory(name: bytes, behind: bytes)
    ensures var memory := name + [0] + behind;
            Terminates(memory, name) && forall j :: 0 <= j < |name| ==> memory[j] == name[j]
  {
    assert (name + [0] + behind)[..|name|] == name;
  }

  lemma NameEnds(name: bytes, uri: bool)
    ensures NameText(name, |name|, uri) == Some([]) && !NameOverruns(name, |name|, uri)
  {
  }

  /** The loop over the code units of a name, with the null and what lies in memory behind it. The latter
      is read exactly when the name overruns; only then need there be any. */
  method PutName(os: OutputStream<byte>, name: bytes, behind: bytes, uri: bool) returns (ok: bool, ghost reach: nat)
    requires NameOverruns(name, 0, uri) ==> 2 <= |behind|
    modifies os
    ensures ok == NameText(name, 0, uri).Some?
    ensures ok ==> os.written == old(os.written) + NameText(name, 0, uri).value
    ensures reach <= |name| + 1 <==> !NameOverruns(name, 0, uri)
  {
    hide E.Decode, PercentEncode, NeedPercentEncode, NameText, NameOverruns, Terminates;
    ghost var memory := name + [0] + behind;
    NameInMemory(name, behind);
    var j := 0;
    while j < |name|
      invariant j <= |name| &&
                After(old(os.written), NameText(name, 0, uri)) == After(os.written, NameText(name, j, uri))
      invariant NameOverruns(name, 0, uri) == NameOverruns(name, j, uri)
      decreases |name| - j
    {
      ghost var before := os.written;
      var c := name[j];
      NextUnit(name, j, uri);
      if c == TILDE {
        os.Put(TILDE);
        os.Put('0' as int);
        j := j + 1;
        assert os.written == before + [TILDE, '0' as int];
        AfterMore(before, [TILDE, '0' as int], NameText(name, j, uri));
      } else if c == SLASH {
        os.Put(TILDE);
        os.Put('1' as int);
        j := j + 1;
        assert os.written == before + [TILDE, '1' as int];
        AfterMore(before, [TILDE, '1' as int], NameText(name, j, uri));
      } else if uri && NeedPercentEncode(c) {
        E.DecodeUpToNull(name, memory, j);
        var s := new StringStream<byte>(name + [0] + behind);
        var target := new OutputStream<byte>();
        s.src := j;
        ok := M.Validate(s, target);
        reach := s.src;
        if !ok { return; }
        assert target.written == name[j..s.src];
        PutPercent(os, target.written);
        AfterMore(before, PercentEncode(target.written), NameText(name, s.src, uri));
        j := s.src;
      } else {
        os.Put(c);
        j := j + 1;
        AfterMore(before, [c], NameText(name, j, uri));
      }
    }
    NameEnds(name, uri);
    reach := j;
    assert os.written + [] == os.written;
    ok := true;
  }

  /** Stringify: false exactly when a name has no URI fragment form. behinds is what lies in memory
      behind each name. */
  method StringifyTo(os: OutputStream<byte>, ts: seq<Token>, behinds: seq<bytes>, uri: bool) returns (ok: bool)
    requires |behinds| == |ts| && forall k :: 0 <= k < |ts| && NameOverruns(ts[k].name, 0, uri) ==> 2 <= |behinds[k]|
    modifies os
    ensures ok == Stringify(ts, uri).Some?
    ensures ok ==> os.written == old(os.written) + Stringify(ts, uri).value
  {
    hide NameText, NameOverruns;
    var start := os.written;
    if uri { os.Put(HASH); }
    ghost var begun := os.written;
    var k := 0;
    assert ts[0..] == ts;
    while k < |ts|
      invariant k <= |ts| && After(begun, TokensText(ts, uri)) == After(os.written, TokensText(ts[k..], uri))
    {
      assert ts[k..][1..] == ts[k + 1..];
      ghost var before := os.written;
      os.Put(SLASH);
      ghost var reach;
      ok, reach := PutName(os, ts[k].name, behinds[k], uri);
      if !ok { return; }
      ghost var name := NameText(ts[k].name, 0, uri).value;
      assert os.written == before + ([SLASH] + name);
      AfterMore(before, [SLASH] + name, TokensText(ts[k + 1..], uri));
      k := k + 1;
    }
    assert ts[k..] == [] && os.written + [] == os.written;
    ok := true;
  }
}
