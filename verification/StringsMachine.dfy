/** ParseString as it works on streams: copying to a stack, and in place over its own input. */
module StringsMachine {
  import opened Json
  import opened Streams
  import opened Strings
  import E = Encodings
  import M = EncodingsMachine

  lemma {:induction false} HexStops(s: bytes, p: nat, i: nat, n: nat)
    requires i <= n <= 4 && Hex(s, p, i).None?
    ensures Hex(s, p, n).None?
  {
    if i < n { HexStops(s, p, i, n - 1); }
  }

  lemma HexStep(s: bytes, p: nat, i: nat)
    requires i < 4 && Hex(s, p, i).Some?
    ensures var d := HexValue(At(s, p + i, 0));
            Hex(s, p, i + 1) == if d.None? then None else Some(Hex(s, p, i).value * 0x10 + d.value)
  {
  }

  // ----- copying -----

  method ParseHex4(s: StringStream<byte>, ghost text: bytes) returns (r: Option<nat>)
    requires Terminates(s.memory, text) && s.src <= |text|
    modifies s
    ensures old(s.src) <= s.src <= |text| && r == Hex(text, old(s.src), 4)
    ensures r.Some? ==> s.src == old(s.src) + 4
  {
    ghost var p := s.src;
    var codepoint := 0;
    assert Hex(text, p, 0) == Some(0);
    hide Hex, Terminates;
    for i := 0 to 4
      invariant s.src == p + i <= |text| && Hex(text, p, i) == Some(codepoint)
    {
      HexStep(text, p, i);
      Reads(s.memory, text, s.src);
      var c: int := s.Peek();
      codepoint := codepoint * 0x10;
      codepoint := codepoint + c;
      if '0' as int <= c <= '9' as int {
        codepoint := codepoint - '0' as int;
      } else if 'A' as int <= c <= 'F' as int {
        codepoint := codepoint - ('A' as int - 10);
      } else if 'a' as int <= c <= 'f' as int {
        codepoint := codepoint - ('a' as int - 10);
      } else {
        HexStops(text, p, i + 1, 4);
        return None;
      }
      c := s.Take();
    }
    return Some(codepoint);
  }

  method Consume(s: StringStream<byte>, e: byte, ghost text: bytes) returns (found: bool)
    requires Terminates(s.memory, text) && s.src <= |text| && e != 0
    modifies s
    ensures s.src <= |text| && found == (At(text, old(s.src), 0) == e)
    ensures s.src == old(s.src) + if found then 1 else 0
  {
    Reads(s.memory, text, s.src);
    var c := s.Peek();
    found := c == e;
    if found { c := s.Take(); }
  }

  /** The branch for a backslash. */
  method ParseEscape(s: StringStream<byte>, os: OutputStream<byte>, ghost text: bytes) returns (error: Option<Error>)
    requires Terminates(s.memory, text) && s.src <= |text| && At(text, s.src, 0) == BACKSLASH
    modifies s, os
    ensures s.src <= |text|
    ensures var r := EscapeRound(text, old(s.src));
            if r.Emit? then error.None? && s.src == r.next && os.written == old(os.written) + r.codeunits
            else r.Fail? && error == Some(r.error)
  {
    hide Hex, E.Encode, Terminates;
    Reads(s.memory, text, s.src);
    var c := s.Take();
    Reads(s.memory, text, s.src);
    var e := s.Peek();
    if Escape(e) != 0 {
      c := s.Take();
      os.Put(Escape(e));
    } else if e == 'u' as int {
      c := s.Take();
      var codepoint := ParseHex4(s, text);
      if codepoint.None? { return Some(UnicodeEscapeInvalidHex); }
      var u := codepoint.value;
      if IsHigh(u) {
        var found := Consume(s, BACKSLASH, text);
        if !found { return Some(UnicodeSurrogateInvalid); }
        found := Consume(s, 'u' as int, text);
        if !found { return Some(UnicodeSurrogateInvalid); }
        var codepoint2 := ParseHex4(s, text);
        if codepoint2.None? { return Some(UnicodeEscapeInvalidHex); }
        if !IsLow(codepoint2.value) { return Some(UnicodeSurrogateInvalid); }
        u := PairValue(u, codepoint2.value);
      }
      M.Encode(os, u);
    } else {
      return Some(EscapeInvalid);
    }
    return None;
  }

  lemma PrependTwice(a: bytes, b: bytes, d: Decoded)
    ensures Prepend(a, Prepend(b, d)) == Prepend(a + b, d)
  {
    if d.Done? { assert a + (b + d.str) == a + b + d.str; }
  }

  /** The rounds behind p, after those that put the bytes `put`. */
  lemma OneRoundMore(s: bytes, start: nat, p: nat, validate: bool, put: bytes)
    requires start <= p <= |s| && DecodeString(s, start, validate) == Prepend(put, DecodeString(s, p, validate))
    ensures var r := NextRound(s, p, validate);
            && (r.Emit? ==>
                p < r.next <= |s| &&
                DecodeString(s, start, validate) == Prepend(put + r.codeunits, DecodeString(s, r.next, validate)))
            && (r.Close? ==> DecodeString(s, start, validate) == Done(p + 1, put))
            && (r.Fail? ==> DecodeString(s, start, validate) == Bad(r.error, r.offset) && r.offset == p)
            && (validate && r.Emit? ==> Overruns(s, p) == Overruns(s, r.next))
  {
    var r := NextRound(s, p, validate);
    FailsHere(s, p, validate);
    hide NextRound;
    if r.Emit? {
      RoundShrinks(s, p, validate);
      PrependTwice(put, r.codeunits, DecodeString(s, r.next, validate));
    } else if r.Close? {
      assert put + [] == put;
    }
  }

  lemma FailsHere(s: bytes, p: nat, validate: bool)
    ensures NextRound(s, p, validate).Fail? ==> NextRound(s, p, validate).offset == p
  {
  }

  /** A sequence that Validate has to look at: what is read, the round it is, and whether it is all
      inside the memory of the text. */
  lemma SequenceRound(text: bytes, memory: bytes, p: nat)
    requires Terminates(memory, text) && p <= |text|
    requires At(text, p, 0) != BACKSLASH && At(text, p, 0) != QUOTE && At(text, p, 0) >= 0x20
    requires Overruns(text, p) ==> |text| + 3 <= |memory|
    ensures var d, r := E.Decode(memory, p), NextRound(text, p, true);
            && p + d.taken <= |memory|
            && (if d.ok then r == Emit(p + d.taken, memory[p..p + d.taken]) else r == Fail(InvalidEncoding, p))
            && (!d.ok ==> (Overruns(text, p) <==> p + d.taken > |text| + 1))
  {
    E.DecodeUpToNull(text, memory, p);
    hide E.Decode;
  }

  /** ParseStringToStream into a stack stream; the terminating null is put as well. The memory behind
      the terminator of the text is read exactly when the string overruns; only then need there be any. */
  method ParseStringToStream(s: StringStream<byte>, os: OutputStream<byte>, validate: bool, ghost text: bytes)
    returns (error: Option<Error>, offset: nat)
    requires Terminates(s.memory, text) && s.src <= |text|
    requires !ReadsInside(text, s.src, validate) ==> |text| + 3 <= |s.memory|
    modifies s, os
    ensures s.src <= |text| + 1 <==> ReadsInside(text, old(s.src), validate)
    ensures var d := DecodeString(text, old(s.src), validate);
            if d.Done? then error.None? && s.src == d.next && os.written == old(os.written) + d.str + [0]
            else error == Some(d.error) && offset == d.offset
  {
    hide EscapeRound, DecodeString, Overruns, Terminates, E.Decode;
    ghost var start, before := s.src, os.written;
    ghost var put: bytes := [];
    NothingPut(DecodeString(text, start, validate));
    while true
      invariant start <= s.src <= |text| && os.written == before + put
      invariant ReadsInside(text, start, validate) == ReadsInside(text, s.src, validate)
      invariant DecodeString(text, start, validate) == Prepend(put, DecodeString(text, s.src, validate))
      decreases |text| - s.src
    {
      OneRoundMore(text, start, s.src, validate, put);
      ghost var r := NextRound(text, s.src, validate);
      offset := s.src;
      Reads(s.memory, text, s.src);
      var c := s.Peek();
      if c == BACKSLASH {
        error := ParseEscape(s, os, text);
        if error.Some? { NoOverrun(text, offset); return; }
      } else if c == QUOTE {
        NoOverrun(text, offset);
        c := s.Take();
        os.Put(0);
        return None, offset;
      } else if c < 0x20 {
        NoOverrun(text, offset);
        return Some(if c == 0 then MissQuotationMark else InvalidEncoding), offset;
      } else if validate {
        SequenceRound(text, s.memory, offset);
        var ok := M.Validate(s, os);
        if !ok { return Some(InvalidEncoding), offset; }
      } else {
        c := s.Take();
        os.Put(c);
      }
      put := put + r.codeunits;
    }
  }

  /** Every other way to end stays in front of the terminator. */
  lemma NoOverrun(s: bytes, p: nat)
    requires p <= |s| && !NextRound(s, p, true).Emit?
    requires At(s, p, 0) == BACKSLASH || At(s, p, 0) == QUOTE || At(s, p, 0) < 0x20
    ensures !Overruns(s, p)
  {
  }

  lemma NothingPut(d: Decoded)
    ensures Prepend([], d) == d
  {
    if d.Done? { assert [] + d.str == d.str; }
  }

  // ----- in place -----

  method ParseHex4Insitu(s: InsituStringStream, ghost text: bytes, ghost memory: bytes) returns (r: Option<nat>)
    requires s.Valid() && s.Unread(memory) && Terminates(memory, text) && s.src <= |text|
    modifies s`src
    ensures s.Valid() && s.Unread(memory) && r == Hex(text, old(s.src), 4)
    ensures old(s.src) <= s.src <= |text| && (r.Some? ==> s.src == old(s.src) + 4)
  {
    ghost var p := s.src;
    var codepoint := 0;
    assert Hex(text, p, 0) == Some(0);
    hide Hex, Terminates, s.Unread;
    for i := 0 to 4
      invariant s.Valid() && s.Unread(memory) && s.src == p + i <= |text| && Hex(text, p, i) == Some(codepoint)
    {
      HexStep(text, p, i);
      Reads(memory, text, s.src);
      var c: int := s.Peek(memory);
      codepoint := codepoint * 0x10;
      codepoint := codepoint + c;
      if '0' as int <= c <= '9' as int {
        codepoint := codepoint - '0' as int;
      } else if 'A' as int <= c <= 'F' as int {
        codepoint := codepoint - ('A' as int - 10);
      } else if 'a' as int <= c <= 'f' as int {
        codepoint := codepoint - ('a' as int - 10);
      } else {
        HexStops(text, p, i + 1, 4);
        return None;
      }
      c := s.Take(memory);
    }
    return Some(codepoint);
  }

  method ConsumeInsitu(s: InsituStringStream, e: byte, ghost text: bytes, ghost memory: bytes) returns (found: bool)
    requires s.Valid() && s.Unread(memory) && Terminates(memory, text) && s.src <= |text| && e != 0
    modifies s`src
    ensures s.Valid() && s.Unread(memory) && s.src <= |text| && found == (At(text, old(s.src), 0) == e)
    ensures s.src == old(s.src) + if found then 1 else 0
  {
    Reads(memory, text, s.src);
    var c := s.Peek(memory);
    found := c == e;
    if found { c := s.Take(memory); }
  }

  /** Put behind the bytes of w. */
  method Last(s: InsituStringStream, c: byte, ghost memory: bytes, ghost before: bytes, ghost begin: nat,
              ghost put: bytes,
              ghost w: bytes, ghost w': bytes)
    requires s.Valid() && s.dst < s.src && s.Unread(memory) && s.Holds(before, begin, put + w) && w' == w + [c]
    modifies s`dst, s.buffer
    ensures s.Valid() && s.Unread(memory) && s.Holds(before, begin, put + w') && s.dst == old(s.dst) + 1
  {
    hide s.Holds, s.Unread;
    assert put + w + [c] == put + w';
    s.Put(c, memory, before, begin, put + w);
  }

  /** UTF8::Encode to the in-place stream. */
  method EncodeInsitu(s: InsituStringStream, u: nat, ghost memory: bytes, ghost before: bytes, ghost begin: nat,
                      ghost put: bytes)
    requires u <= E.MAX_CODEPOINT && s.Valid() && s.dst + |E.Encode(u)| <= s.src
    requires s.Unread(memory) && s.Holds(before, begin, put)
    modifies s`dst, s.buffer
    ensures s.Valid() && s.Unread(memory) && s.Holds(before, begin, put + E.Encode(u))
  {
    hide s.Holds, s.Unread;
    ghost var w := E.Encode(u);
    if u <= 0x7F {
      s.Put(u, memory, before, begin, put);
    } else if u <= 0x7FF {
      s.Put(0xC0 + u / 0x40, memory, before, begin, put);
      Last(s, 0x80 + u % 0x40, memory, before, begin, put, [w[0]], w);
    } else if u <= 0xFFFF {
      s.Put(0xE0 + u / 0x1000, memory, before, begin, put);
      Last(s, 0x80 + u / 0x40 % 0x40, memory, before, begin, put, [w[0]], w[..2]);
      Last(s, 0x80 + u % 0x40, memory, before, begin, put, w[..2], w);
    } else {
      s.Put(0xF0 + u / 0x4_0000, memory, before, begin, put);
      Last(s, 0x80 + u / 0x1000 % 0x40, memory, before, begin, put, [w[0]], w[..2]);
      Last(s, 0x80 + u / 0x40 % 0x40, memory, before, begin, put, w[..2], w[..3]);
      Last(s, 0x80 + u % 0x40, memory, before, begin, put, w[..3], w);
    }
  }

  /** RAPIDJSON_COPY and RAPIDJSON_TRANS of Validate in place: the byte at src behind those from p on. */
  method PutTransInsitu(s: InsituStringStream, result: bool, mask: bv8, ghost memory: bytes,
                        ghost before: bytes, ghost begin: nat, ghost put: bytes, ghost p: nat) returns (result': bool)
    requires s.Valid() && s.Unread(memory) && p <= s.src < |memory| && s.Holds(before, begin, put + memory[p..s.src])
    modifies s, s.buffer
    ensures s.Valid() && s.Unread(memory) && s.src == old(s.src) + 1 && s.Holds(before, begin, put + memory[p..s.src])
    ensures result' == (result && E.InRange(memory[old(s.src)], mask))
  {
    hide E.InRange, s.Holds, s.Unread;
    var c := s.Take(memory);
    Last(s, c, memory, before, begin, put, memory[p..s.src - 1], memory[p..s.src]);
    result' := result && E.InRange(c, mask);
  }

  /** UTF8::Validate in place: the verdict of Decode on the memory as it was, and the bytes taken put. */
  method ValidateInsitu(s: InsituStringStream, ghost memory: bytes, ghost before: bytes, ghost begin: nat,
                        ghost put: bytes)
    returns (result: bool)
    requires s.Valid() && s.Unread(memory) && s.src + E.Decode(memory, s.src).taken <= |memory| &&
             s.Holds(before, begin, put)
    modifies s, s.buffer
    ensures s.Valid() && s.Unread(memory) && s.src == old(s.src) + E.Decode(memory, old(s.src)).taken
    ensures result == E.Decode(memory, old(s.src)).ok
    ensures s.Holds(before, begin, put + memory[old(s.src)..s.src])
  {
    hide E.InRange, E.AddBits, E.LeadBits, E.GetRange, s.Holds, s.Unread;
    ghost var p := s.src;
    var c := s.Take(memory);
    s.Put(c, memory, before, begin, put);
    assert memory[p..s.src] == [c];
    if c < 0x80 { return true; }
    var kind := E.GetRange(c);
    result := true;
    if kind == 2 {
      result := PutTransInsitu(s, result, 0x70, memory, before, begin, put, p);
    } else if kind == 3 {
      result := PutTransInsitu(s, result, 0x70, memory, before, begin, put, p);
      result := PutTransInsitu(s, result, 0x70, memory, before, begin, put, p);
    } else if kind == 4 {
      result := PutTransInsitu(s, result, 0x50, memory, before, begin, put, p);
      result := PutTransInsitu(s, result, 0x70, memory, before, begin, put, p);
    } else if kind == 5 {
      result := PutTransInsitu(s, result, 0x10, memory, before, begin, put, p);
      result := PutTransInsitu(s, result, 0x70, memory, before, begin, put, p);
      result := PutTransInsitu(s, result, 0x70, memory, before, begin, put, p);
    } else if kind == 6 {
      result := PutTransInsitu(s, result, 0x70, memory, before, begin, put, p);
      result := PutTransInsitu(s, result, 0x70, memory, before, begin, put, p);
      result := PutTransInsitu(s, result, 0x70, memory, before, begin, put, p);
    } else if kind == 10 {
      result := PutTransInsitu(s, result, 0x20, memory, before, begin, put, p);
      result := PutTransInsitu(s, result, 0x70, memory, before, begin, put, p);
    } else if kind == 11 {
      result := PutTransInsitu(s, result, 0x60, memory, before, begin, put, p);
      result := PutTransInsitu(s, result, 0x70, memory, before, begin, put, p);
      result := PutTransInsitu(s, result, 0x70, memory, before, begin, put, p);
    } else {
      result := false;
    }
  }

  method ParseEscapeInsitu(s: InsituStringStream, ghost text: bytes, ghost memory: bytes, ghost before: bytes,
                           ghost begin: nat, ghost put: bytes)
    returns (error: Option<Error>)
    requires s.Valid() && s.Unread(memory) && Terminates(memory, text) && s.src <= |text|
    requires At(text, s.src, 0) == BACKSLASH && s.Holds(before, begin, put)
    modifies s, s.buffer
    ensures s.Valid() && s.Unread(memory) && s.src <= |text|
    ensures var r := EscapeRound(text, old(s.src));
            if r.Emit? then error.None? && s.src == r.next && s.Holds(before, begin, put + r.codeunits)
            else r.Fail? && error == Some(r.error) && s.Holds(before, begin, put)
  {
    hide Hex, E.Encode, Terminates, s.Holds, s.Unread;
    Reads(memory, text, s.src);
    var c := s.Take(memory);
    Reads(memory, text, s.src);
    var e := s.Peek(memory);
    if Escape(e) != 0 {
      c := s.Take(memory);
      s.Put(Escape(e), memory, before, begin, put);
    } else if e == 'u' as int {
      c := s.Take(memory);
      var codepoint := ParseHex4Insitu(s, text, memory);
      if codepoint.None? { return Some(UnicodeEscapeInvalidHex); }
      var u := codepoint.value;
      if IsHigh(u) {
        var found := ConsumeInsitu(s, BACKSLASH, text, memory);
        if !found { return Some(UnicodeSurrogateInvalid); }
        found := ConsumeInsitu(s, 'u' as int, text, memory);
        if !found { return Some(UnicodeSurrogateInvalid); }
        var codepoint2 := ParseHex4Insitu(s, text, memory);
        if codepoint2.None? { return Some(UnicodeEscapeInvalidHex); }
        if !IsLow(codepoint2.value) { return Some(UnicodeSurrogateInvalid); }
        u := PairValue(u, codepoint2.value);
      }
      E.EncodeShort(u);
      EncodeInsitu(s, u, memory, before, begin, put);
    } else {
      return Some(EscapeInvalid);
    }
    return None;
  }

  /** ParseStringToStream with the in-place stream as both its source and its target. */
  method ParseStringToStreamInsitu(s: InsituStringStream, validate: bool, ghost text: bytes, ghost memory: bytes)
    returns (error: Option<Error>, offset: nat, ghost put: bytes)
    requires s.Valid() && s.Unread(memory) && Terminates(memory, text) && s.dst == s.src <= |text|
    requires !ReadsInside(text, s.src, validate) ==> |text| + 3 <= |memory|
    modifies s, s.buffer
    ensures s.Valid() && s.Unread(memory) && s.Holds(old(s.buffer[..]), old(s.src), put)
    ensures s.src <= |text| + 1 <==> ReadsInside(text, old(s.src), validate)
    ensures var d := DecodeString(text, old(s.src), validate);
            if d.Done? then error.None? && s.src == d.next && put == d.str + [0]
            else error == Some(d.error) && offset == d.offset
  {
    hide EscapeRound, DecodeString, Overruns, Terminates, E.Decode, s.Holds, s.Unread;
    ghost var before, begin := s.buffer[..], s.src;
    put := [];
    HoldsNothing(s);
    NothingPut(DecodeString(text, begin, validate));
    while true
      invariant s.Valid() && s.Unread(memory) && begin <= s.src <= |text| && s.Holds(before, begin, put)
      invariant ReadsInside(text, begin, validate) == ReadsInside(text, s.src, validate)
      invariant DecodeString(text, begin, validate) == Prepend(put, DecodeString(text, s.src, validate))
      decreases |text| - s.src
    {
      OneRoundMore(text, begin, s.src, validate, put);
      ghost var r := NextRound(text, s.src, validate);
      offset := s.src;
      Reads(memory, text, s.src);
      var c := s.Peek(memory);
      if c == BACKSLASH {
        error := ParseEscapeInsitu(s, text, memory, before, begin, put);
        if error.Some? { NoOverrun(text, offset); return; }
      } else if c == QUOTE {
        NoOverrun(text, offset);
        c := s.Take(memory);
        s.Put(0, memory, before, begin, put);
        put := put + [0];
        error := None;
        return;
      } else if c < 0x20 {
        NoOverrun(text, offset);
        error := Some(if c == 0 then MissQuotationMark else InvalidEncoding);
        return;
      } else if validate {
        SequenceRound(text, memory, offset);
        var ok := ValidateInsitu(s, memory, before, begin, put);
        if !ok {
          put := put + memory[offset..s.src];
          error := Some(InvalidEncoding);
          return;
        }
      } else {
        c := s.Take(memory);
        s.Put(c, memory, before, begin, put);
      }
      put := put + r.codeunits;
    }
  }

  /** ParseString with the in-situ flag, with or without validation: the string is decoded over its own
      input, exactly as the copying parser decodes it. Each Put stays behind the read cursor, all unread
      memory is intact, and nothing in front of the string is touched. The memory behind the terminator
      is read exactly when the string overruns; only then need there be any. */
  method ParseStringInsitu(s: InsituStringStream, validate: bool, ghost text: bytes, ghost memory: bytes)
    returns (error: Option<Error>, offset: nat, head: nat, length: nat, ghost put: bytes)
    requires s.Valid() && s.Unread(memory) && Terminates(memory, text) && s.src <= |text| && At(text, s.src, 0) == QUOTE
    requires !ReadsInside(text, s.src + 1, validate) ==> |text| + 3 <= |memory|
    modifies s, s.buffer
    ensures s.Valid() && s.Unread(memory) && head == old(s.src) + 1 && s.Holds(old(s.buffer[..]), head, put)
    ensures s.src <= |text| + 1 <==> ReadsInside(text, head, validate)
    ensures var d := DecodeString(text, head, validate);
            if d.Done? then error.None? && s.src == d.next && length == |d.str| && put == d.str + [0]
            else error == Some(d.error) && offset == d.offset
  {
    hide DecodeString, Overruns, s.Holds;
    length := 0;
    Reads(memory, text, s.src);
    var c := s.Take(memory);
    head := s.PutBegin();
    error, offset, put := ParseStringToStreamInsitu(s, validate, text, memory);
    if error.None? {
      HoldsLength(s, old(s.buffer[..]), head, put);
      length := s.PutEnd(head);
      length := length - 1;
    }
  }

  lemma HoldsNothing(s: InsituStringStream)
    requires s.Valid()
    ensures s.Holds(s.buffer[..], s.dst, [])
  {
    var b := s.buffer[..];
    assert b == b[..s.dst] + [] + b[s.dst..];
  }

  lemma HoldsLength(s: InsituStringStream, before: bytes, begin: nat, put: bytes)
    requires s.Holds(before, begin, put)
    ensures s.dst == begin + |put|
  {
  }

  /** What Holds says position by position: in front of the string and behind the write cursor
      nothing has changed. */
  lemma HoldsMeans(s: InsituStringStream, before: bytes, begin: nat, put: bytes)
    requires s.Holds(before, begin, put)
    ensures s.buffer.Length == |before|
    ensures s.buffer[begin..s.dst] == put
    ensures forall i :: 0 <= i < |before| && !(begin <= i < s.dst) ==> s.buffer[i] == before[i]
  {
    assert s.buffer[begin..s.dst] == s.buffer[..][begin..s.dst];
    forall i | 0 <= i < |before| && !(begin <= i < s.dst)
      ensures s.buffer[i] == before[i]
    {
      assert s.buffer[i] == s.buffer[..][i];
    }
  }
}
