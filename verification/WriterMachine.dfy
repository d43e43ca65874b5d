/** Writer and PrettyWriter as they run: the output stream appended character by character and
    the level stack updated by every handler call. */
module WriterMachine {
  import opened Json
  import opened Streams
  import opened Writer
  import E = Encodings
  import M = EncodingsMachine
  import D = Decimal

  /** The handler; its style tells a PrettyWriter from a Writer. */
  class JsonWriter {
    const c: Settings
    const os: OutputStream<byte>
    var levels: Levels
    var hasRoot: bool

    function Now(): State
      reads this, os
    {
      State(levels, hasRoot, os.written)
    }

    constructor (c: Settings)
      requires ProperStyle(c.style)
      ensures Now() == State(Root, false, []) && fresh(os) && this.c == c
    {
      this.c := c;
      os := new OutputStream<byte>();
      levels, hasRoot := Root, false;
    }

    // ----- text -----

    method PutAll(text: bytes)
      modifies os
      ensures os.written == old(os.written) + text
    {
      var i := 0;
      while i < |text|
        invariant i <= |text| && os.written == old(os.written) + text[..i]
      {
        os.Put(text[i]);
        i := i + 1;
      }
      assert text[..|text|] == text;
    }

    method PutHex(u: nat)
      requires u < 0x1_0000
      modifies os
      ensures os.written == old(os.written) + HexText(u)
    {
      os.Put(HexDigit(u / 0x1000));
      os.Put(HexDigit(u / 0x100 % 0x10));
      os.Put(HexDigit(u / 0x10 % 0x10));
      os.Put(HexDigit(u % 0x10));
    }

    /** The branch for an escaped or a plain character. */
    method PutByte(b: byte)
      modifies os
      ensures os.written == old(os.written) + ByteText(b)
    {
      if Escape(b) != 0 {
        os.Put(BACKSLASH);
        os.Put(Escape(b));
        if Escape(b) == LETTER_U {
          os.Put(HexDigit(0));
          os.Put(HexDigit(0));
          os.Put(HexDigit(b / 0x10));
          os.Put(HexDigit(b % 0x10));
        }
      } else {
        os.Put(b);
      }
    }

    method PutEscape(u: nat)
      requires u < 0x1_0000
      modifies os
      ensures os.written == old(os.written) + ([BACKSLASH, LETTER_U] + HexText(u))
    {
      hide HexText;
      os.Put(BACKSLASH);
      os.Put(LETTER_U);
      PutHex(u);
    }

    /** The branch for Unicode escaping. */
    method PutCodepoint(u: nat)
      requires E.IsScalar(u)
      modifies os
      ensures os.written == old(os.written) + CodepointText(u)
    {
      hide HexText;
      if u <= 0xFFFF {
        PutEscape(u);
      } else {
        PairText(u);
        hide CodepointText;
        var v := u - 0x1_0000;
        PutEscape(v / 0x400 + 0xD800);
        PutEscape(v % 0x400 + 0xDC00);
      }
    }

    /** Reads the string from memory: its bytes, the null behind them, and what lies behind that. The
        latter is read exactly when the string overruns; only then need there be any. A refused sequence
        has been copied by Validate already. */
    method WriteString(str: bytes, behind: bytes) returns (ok: bool, ghost reach: nat, ghost refused: bytes)
      requires WriteOverruns(str, 0, c.target) ==> 2 <= |behind|
      modifies os
      ensures ok == QuotedText(str, c.target).ok
      ensures os.written == old(os.written) + QuotedText(str, c.target).text + refused
      ensures ok || !c.target.unicode ==> refused == []
      ensures reach <= |str| + 1 <==> !WriteOverruns(str, 0, c.target)
    {
      hide ByteText, CodepointText, Escape, Terminates, E.Decode, WriteOverruns, StringText, QuotedText, After;
      ghost var before, memory := os.written, str + [0] + behind;
      os.Put(QUOTE);
      InMemory(str, behind);
      var s := new StringStream<byte>(str + [0] + behind);
      refused := [];
      while s.src < |str|
        invariant s.src <= |str| && s.memory == memory && fresh(s)
        invariant After(before + [QUOTE], StringText(str, 0, c.target)) ==
                  After(os.written, StringText(str, s.src, c.target))
        invariant WriteOverruns(str, 0, c.target) == WriteOverruns(str, s.src, c.target)
        decreases |str| - s.src
      {
        ghost var written, p := os.written, s.src;
        E.DecodeUpToNull(str, memory, p);
        MemoryIsString(str, memory, p);
        NextRound(str, p, c.target);
        var b := s.Peek();
        if !c.target.unicode && b >= 0x80 {
          var codepoint;
          ok, codepoint := M.Decode(s);
          reach := s.src;
          if !ok {
            Refused(before, str, c.target, written);
            assert written + [] == written;
            return;
          }
          AfterMore(written, CodepointText(codepoint), StringText(str, s.src, c.target));
          PutCodepoint(codepoint);
        } else if Validates(b, c.target) {
          ok := M.Validate(s, os);
          reach := s.src;
          if !ok {
            refused := memory[p..s.src];
            Refused(before, str, c.target, written);
            return;
          }
          AfterMore(written, memory[p..s.src], StringText(str, s.src, c.target));
        } else {
          b := s.Take();
          AfterMore(written, ByteText(b), StringText(str, s.src, c.target));
          PutByte(b);
        }
      }
      reach := s.src;
      Ended(str, c.target);
      Finished(before, str, c.target, os.written);
      os.Put(QUOTE);
      ok := true;
      assert os.written + [] == os.written;
    }

    // ----- the level stack -----

    /** PutN of the indent character. */
    method WriteIndent()
      requires c.style.Pretty?
      modifies os
      ensures os.written == old(os.written) + Indent(c.style, Depth(levels))
    {
      var count := Depth(levels) * c.style.indentCharCount;
      var i := 0;
      while i < count
        invariant i <= count && os.written == old(os.written) + seq(i, _ => c.style.indentChar)
      {
        os.Put(c.style.indentChar);
        i := i + 1;
      }
    }

    /** The part of PrettyPrefix in front of a value inside a container. */
    method WriteGap()
      requires levels.Level? && c.style.Pretty?
      modifies os
      ensures os.written == old(os.written) + Prefix(c.style, levels)
    {
      hide Indent, Depth;
      if levels.inArray {
        if levels.valueCount > 0 {
          os.Put(',' as int);
          if c.style.singleLineArray { os.Put(' ' as int); }
        }
        if !c.style.singleLineArray {
          os.Put('\n' as int);
          WriteIndent();
        }
      } else {
        if levels.valueCount > 0 {
          if levels.valueCount % 2 == 0 {
            os.Put(',' as int);
            os.Put('\n' as int);
          } else {
            os.Put(':' as int);
            os.Put(' ' as int);
          }
        } else {
          os.Put('\n' as int);
        }
        if levels.valueCount % 2 == 0 { WriteIndent(); }
      }
    }

    /** Prefix, and PrettyPrefix for the pretty styles. */
    method WritePrefix(ghost isString: bool)
      requires Expects(Now(), isString)
      modifies this, os
      ensures Now() == Put(Counted(old(Now())), Prefix(c.style, old(levels)))
    {
      if levels.Level? {
        if c.style.Compact? {
          if levels.valueCount > 0 {
            os.Put(if levels.inArray || levels.valueCount % 2 == 0 then ',' as int else ':' as int);
          }
        } else {
          hide Prefix;
          WriteGap();
        }
        levels := levels.(valueCount := levels.valueCount + 1);
      } else {
        hasRoot := true;
      }
    }

    // ----- the handler -----

    method Scalar(e: Event, text: bytes)
      requires Expects(Now(), e.String? || e.Key?)
      modifies this, os
      ensures Now() == PutValue(c, old(Now()), text)
    {
      hide Prefix, Expects;
      WritePrefix(e.String? || e.Key?);
      PutAll(text);
    }

    method Str(str: bytes, behind: bytes) returns (ok: bool, ghost refused: bytes)
      requires Expects(Now(), true) && (WriteOverruns(str, 0, c.target) ==> 2 <= |behind|)
      modifies this, os
      ensures ok == QuotedText(str, c.target).ok && (ok || !c.target.unicode ==> refused == [])
      ensures Now() == Put(PutValue(c, old(Now()), QuotedText(str, c.target).text), refused)
    {
      hide Prefix, Expects, QuotedText, WriteOverruns;
      WritePrefix(true);
      ghost var reach;
      ok, reach, refused := WriteString(str, behind);
    }

    method Start(inArray: bool)
      requires Expects(Now(), false)
      modifies this, os
      ensures Now() == PutStart(c, old(Now()), inArray)
    {
      hide Prefix, Expects;
      WritePrefix(false);
      levels := Level(0, inArray, levels);
      os.Put(if inArray then '[' as int else '{' as int);
    }

    method End(inArray: bool)
      requires CanEnd(Now(), inArray)
      modifies this, os
      ensures Now() == PutEnd(c, old(Now()), inArray)
    {
      hide Indent, Depth;
      var empty := levels.valueCount == 0;
      levels := levels.outer;
      if c.style.Pretty? && !empty && !(inArray && c.style.singleLineArray) {
        os.Put('\n' as int);
        WriteIndent();
      }
      os.Put(if inArray then ']' as int else '}' as int);
    }

    /** A handler call: the new state and the answer are those of Handle, so that the calls of
        Accept leave the text of the tree (WriterPrints). behind is what lies in memory behind a string. */
    method Event(e: Event, behind: bytes) returns (ok: bool, ghost refused: bytes)
      requires CanHandle(Now(), e) && (Overruns(e, c.target) ==> 2 <= |behind|)
      modifies this, os
      ensures ok == Handle(c, old(Now()), e).1 && (ok || !c.target.unicode ==> refused == [])
      ensures Now() == Put(Handle(c, old(Now()), e).0, refused)
    {
      hide PutValue, PutStart, PutEnd, Expects, CanEnd, QuotedText, WriteOverruns;
      refused := [];
      ghost var before := Now();
      ok := true;
      match e
      case StartObject => Start(false);
      case StartArray => Start(true);
      case EndObject(_) => End(false);
      case EndArray(_) => End(true);
      case String(s) => ok, refused := Str(s, behind);
      case Key(s) => ok, refused := Str(s, behind);
      case Integer(_, n) => Scalar(e, D.IntText(n));
      case Double(l) => Scalar(e, c.dtoa(l));
      case Null => Scalar(e, ['n' as int, 'u' as int, 'l' as int, 'l' as int]);
      case Bool(b) =>
        if b {
          Scalar(e, ['t' as int, 'r' as int, 'u' as int, 'e' as int]);
        } else {
          Scalar(e, ['f' as int, 'a' as int, 'l' as int, 's' as int, 'e' as int]);
        }
    }
  }

  predicate Overruns(e: Event, target: Target) {
    match e
    case String(s) => WriteOverruns(s, 0, target)
    case Key(s) => WriteOverruns(s, 0, target)
    case _ => false
  }

  /** What was written, and how the rest of a string ends it. */
  function After(written: bytes, rest: Written): Written { Written(written + rest.text, rest.ok) }

  lemma AfterMore(written: bytes, w: bytes, rest: Written)
    ensures After(written, Written(w + rest.text, rest.ok)) == After(written + w, rest)
  {
    assert written + (w + rest.text) == written + w + rest.text;
  }

  lemma InMemory(str: bytes, behind: bytes)
    ensures Terminates(str + [0] + behind, str)
  {
    assert (str + [0] + behind)[..|str|] == str;
  }

  lemma MemoryIsString(str: bytes, memory: bytes, p: nat)
    requires p < |str| && Terminates(memory, str)
    ensures memory[p] == str[p]
  {
  }

  /** One round of the loop. */
  lemma NextRound(s: bytes, p: nat, target: Target)
    requires p < |s|
    ensures var d := E.Decode(s, p);
            if !target.unicode && s[p] >= 0x80 then
              if d.ok then
                && p + d.taken <= |s| && E.IsScalar(d.codepoint)
                && WriteOverruns(s, p, target) == WriteOverruns(s, p + d.taken, target)
                && var rest := StringText(s, p + d.taken, target);
                   StringText(s, p, target) == Written(CodepointText(d.codepoint) + rest.text, rest.ok)
              else
                && WriteOverruns(s, p, target) == (p + d.taken > |s| + 1)
                && StringText(s, p, target) == Written([], false)
            else if Validates(s[p], target) then
              if d.ok then
                && p + d.taken <= |s|
                && WriteOverruns(s, p, target) == WriteOverruns(s, p + d.taken, target)
                && var rest := StringText(s, p + d.taken, target);
                   StringText(s, p, target) == Written(s[p..p + d.taken] + rest.text, rest.ok)
              else
                && WriteOverruns(s, p, target) == (p + d.taken > |s| + 1)
                && StringText(s, p, target) == Written([], false)
            else
              && WriteOverruns(s, p, target) == WriteOverruns(s, p + 1, target)
              && var rest := StringText(s, p + 1, target);
                 StringText(s, p, target) == Written(ByteText(s[p]) + rest.text, rest.ok)
  {
    hide E.Decode, E.SequenceLength, E.Encode, ByteText, CodepointText, Escape;
    E.DecodeIsRfc(s, p);
    E.DecodeExactly(s, p);
  }

  lemma Ended(s: bytes, target: Target)
    ensures !WriteOverruns(s, |s|, target) && StringText(s, |s|, target) == Written([], true)
  {
  }

  lemma Refused(before: bytes, s: bytes, target: Target, written: bytes)
    requires After(before + [QUOTE], StringText(s, 0, target)) == After(written, Written([], false))
    ensures !QuotedText(s, target).ok && written == before + QuotedText(s, target).text
  {
    hide StringText;
    assert written + [] == written;
  }

  lemma Finished(before: bytes, s: bytes, target: Target, written: bytes)
    requires After(before + [QUOTE], StringText(s, 0, target)) == After(written, Written([], true))
    ensures QuotedText(s, target).ok && written + [QUOTE] == before + QuotedText(s, target).text
  {
    hide StringText;
    assert written + [] == written;
  }

  /** A surrogate pair is written as its two escapes. */
  lemma PairText(u: nat)
    requires 0xFFFF < u && E.IsScalar(u)
    ensures var v := u - 0x1_0000;
            && v / 0x400 + 0xD800 < 0x1_0000 && v % 0x400 + 0xDC00 < 0x1_0000
            && CodepointText(u) ==
               ([BACKSLASH, LETTER_U] + HexText(v / 0x400 + 0xD800)) +
               ([BACKSLASH, LETTER_U] + HexText(v % 0x400 + 0xDC00))
  {
    hide HexText;
  }
}
