/** The encoders, decoders and transcoders as they work on streams: one Take and one Put after the other. */
module EncodingsMachine {
  import opened Json
  import opened Streams
  import E = Encodings

  /** RAPIDJSON_COPY and RAPIDJSON_TRANS of Decode. */
  method CopyTrans(s: StringStream<byte>, codepoint: nat, result: bool, mask: bv8)
    returns (codepoint': nat, result': bool)
    requires s.src < |s.memory|
    modifies s
    ensures s.src == old(s.src) + 1
    ensures codepoint' == E.AddBits(codepoint, s.memory[old(s.src)])
    ensures result' == (result && E.InRange(s.memory[old(s.src)], mask))
  {
    var c := s.Take();
    codepoint' := E.AddBits(codepoint, c);
    result' := result && E.InRange(c, mask);
  }

  /** UTF8::Decode. */
  method Decode(s: StringStream<byte>) returns (result: bool, codepoint: nat)
    requires s.src + E.Decode(s.memory, s.src).taken <= |s.memory|
    modifies s
    ensures s.src == old(s.src) + E.Decode(s.memory, old(s.src)).taken
    ensures result == E.Decode(s.memory, old(s.src)).ok && codepoint == E.Decode(s.memory, old(s.src)).codepoint
  {
    var c := s.Take();
    if c < 0x80 { return true, c; }
    hide E.InRange, E.AddBits, E.LeadBits, E.GetRange;
    var kind := E.GetRange(c);
    codepoint, result := E.LeadBits(c), true;
    if kind == 2 {
      codepoint, result := CopyTrans(s, codepoint, result, 0x70);
    } else if kind == 3 {
      codepoint, result := CopyTrans(s, codepoint, result, 0x70);
      codepoint, result := CopyTrans(s, codepoint, result, 0x70);
    } else if kind == 4 {
      codepoint, result := CopyTrans(s, codepoint, result, 0x50);
      codepoint, result := CopyTrans(s, codepoint, result, 0x70);
    } else if kind == 5 {
      codepoint, result := CopyTrans(s, codepoint, result, 0x10);
      codepoint, result := CopyTrans(s, codepoint, result, 0x70);
      codepoint, result := CopyTrans(s, codepoint, result, 0x70);
    } else if kind == 6 {
      codepoint, result := CopyTrans(s, codepoint, result, 0x70);
      codepoint, result := CopyTrans(s, codepoint, result, 0x70);
      codepoint, result := CopyTrans(s, codepoint, result, 0x70);
    } else if kind == 10 {
      codepoint, result := CopyTrans(s, codepoint, result, 0x20);
      codepoint, result := CopyTrans(s, codepoint, result, 0x70);
    } else if kind == 11 {
      codepoint, result := CopyTrans(s, codepoint, result, 0x60);
      codepoint, result := CopyTrans(s, codepoint, result, 0x70);
      codepoint, result := CopyTrans(s, codepoint, result, 0x70);
    } else {
      result := false;
    }
  }

  /** RAPIDJSON_COPY and RAPIDJSON_TRANS of Validate. */
  method PutTrans(s: StringStream<byte>, os: OutputStream<byte>, result: bool, mask: bv8,
                  ghost before: bytes, ghost p: nat) returns (result': bool)
    requires p <= s.src < |s.memory| && os.written == before + s.memory[p..s.src]
    modifies s, os
    ensures s.src == old(s.src) + 1 && os.written == before + s.memory[p..s.src]
    ensures result' == (result && E.InRange(s.memory[old(s.src)], mask))
  {
    hide E.InRange;
    var c := s.Take();
    os.Put(c);
    result' := result && E.InRange(c, mask);
  }

  /** UTF8::Validate: the verdict of Decode, the same bytes taken, and exactly those copied, whatever
      the verdict. */
  method Validate(s: StringStream<byte>, os: OutputStream<byte>) returns (result: bool)
    requires s.src + E.Decode(s.memory, s.src).taken <= |s.memory|
    modifies s, os
    ensures s.src == old(s.src) + E.Decode(s.memory, old(s.src)).taken
    ensures result == E.Decode(s.memory, old(s.src)).ok
    ensures os.written == old(os.written) + s.memory[old(s.src)..s.src]
  {
    ghost var p, before := s.src, os.written;
    var c := s.Take();
    os.Put(c);
    if c < 0x80 { return true; }
    hide E.InRange, E.AddBits, E.LeadBits, E.GetRange;
    var kind := E.GetRange(c);
    result := true;
    if kind == 2 {
      result := PutTrans(s, os, result, 0x70, before, p);
    } else if kind == 3 {
      result := PutTrans(s, os, result, 0x70, before, p);
      result := PutTrans(s, os, result, 0x70, before, p);
    } else if kind == 4 {
      result := PutTrans(s, os, result, 0x50, before, p);
      result := PutTrans(s, os, result, 0x70, before, p);
    } else if kind == 5 {
      result := PutTrans(s, os, result, 0x10, before, p);
      result := PutTrans(s, os, result, 0x70, before, p);
      result := PutTrans(s, os, result, 0x70, before, p);
    } else if kind == 6 {
      result := PutTrans(s, os, result, 0x70, before, p);
      result := PutTrans(s, os, result, 0x70, before, p);
      result := PutTrans(s, os, result, 0x70, before, p);
    } else if kind == 10 {
      result := PutTrans(s, os, result, 0x20, before, p);
      result := PutTrans(s, os, result, 0x70, before, p);
    } else if kind == 11 {
      result := PutTrans(s, os, result, 0x60, before, p);
      result := PutTrans(s, os, result, 0x70, before, p);
      result := PutTrans(s, os, result, 0x70, before, p);
    } else {
      result := false;
    }
  }

  /** UTF8::Encode. */
  method Encode(os: OutputStream<byte>, u: nat)
    requires u <= E.MAX_CODEPOINT
    modifies os
    ensures os.written == old(os.written) + E.Encode(u)
  {
    if u <= 0x7F {
      os.Put(u);
    } else if u <= 0x7FF {
      os.Put(0xC0 + u / 0x40);
      os.Put(0x80 + u % 0x40);
    } else if u <= 0xFFFF {
      os.Put(0xE0 + u / 0x1000);
      os.Put(0x80 + u / 0x40 % 0x40);
      os.Put(0x80 + u % 0x40);
    } else {
      os.Put(0xF0 + u / 0x4_0000);
      os.Put(0x80 + u / 0x1000 % 0x40);
      os.Put(0x80 + u / 0x40 % 0x40);
      os.Put(0x80 + u % 0x40);
    }
  }

  /** UTF16::Decode. */
  method Decode16(s: StringStream<E.unit16>) returns (result: bool, codepoint: nat)
    requires s.src + E.Decode16(s.memory, s.src).taken <= |s.memory|
    modifies s
    ensures s.src == old(s.src) + E.Decode16(s.memory, old(s.src)).taken
    ensures result == E.Decode16(s.memory, old(s.src)).ok
    ensures result ==> codepoint == E.Decode16(s.memory, old(s.src)).codepoint
  {
    var c: int := s.Take();
    codepoint := 0;
    if c < 0xD800 || c > 0xDFFF {
      return true, c;
    } else if c <= 0xDBFF {
      codepoint := 0x400 * (c % 0x400);
      c := s.Take();
      codepoint := codepoint + c % 0x400;
      codepoint := codepoint + 0x1_0000;
      return 0xDC00 <= c <= 0xDFFF, codepoint;
    }
    return false, 0;
  }

  /** UTF16::Encode. */
  method Encode16(os: OutputStream<E.unit16>, u: nat)
    requires E.IsScalar(u)
    modifies os
    ensures os.written == old(os.written) + E.Encode16(u)
  {
    if u <= 0xFFFF {
      os.Put(u);
    } else {
      var v := u - 0x1_0000;
      os.Put(0xD800 + v / 0x400);
      os.Put(0xDC00 + v % 0x400);
    }
  }

  /** Transcoder<UTF8, UTF16>::Transcode: one code point; nothing is written for ill-formed input. */
  method Transcode(s: StringStream<byte>, os: OutputStream<E.unit16>) returns (ok: bool)
    requires s.src + E.Decode(s.memory, s.src).taken <= |s.memory|
    modifies s, os
    ensures ok == E.Decode(s.memory, old(s.src)).ok
    ensures ok ==> E.IsScalar(E.Decode(s.memory, old(s.src)).codepoint)
    ensures s.src == old(s.src) + E.Decode(s.memory, old(s.src)).taken
    ensures os.written == old(os.written) + if ok then E.Encode16(E.Decode(s.memory, old(s.src)).codepoint) else []
  {
    E.DecodeExactly(s.memory, s.src);
    var codepoint;
    ok, codepoint := Decode(s);
    if ok { Encode16(os, codepoint); }
  }
}
