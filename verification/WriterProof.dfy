/** The level stack prints exactly the text of the tree, and which strings can be written. */
module WriterProof {
  import opened Json
  import opened Writer
  import E = Encodings
  import S = Strings

  // ----- strings -----

  /** With a Unicode target every string is written, but with the validating flag, and with an ASCII
      target, exactly the well-formed ones. */
  lemma {:induction false} WrittenExactly(s: bytes, p: nat, target: Target)
    requires p <= |s|
    ensures StringText(s, p, target).ok <==> (target.unicode && !target.validate) || E.WellFormed(s, p)
    decreases |s| - p
  {
    hide E.Decode, E.SequenceLength, E.Encode, ByteText, CodepointText, Escape;
    if p < |s| {
      E.DecodeIsRfc(s, p);
      E.DecodeExactly(s, p);
      if (!target.unicode && s[p] >= 0x80) || Validates(s[p], target) {
        if E.Decode(s, p).ok { WrittenExactly(s, p + E.Decode(s, p).taken, target); }
      } else {
        WrittenExactly(s, p + 1, target);
        if !target.unicode || target.validate { EscapedIsAscii(s[p]); E.AsciiLength(s, p); }
      }
    }
  }

  lemma EscapedIsAscii(c: byte)
    ensures Escape(c) != 0 ==> c < 0x80
  {
  }

  /** The validating flag changes nothing in what is accepted. */
  lemma {:induction false} ValidatedSame(s: bytes, p: nat, unicode: bool)
    requires p <= |s| && StringText(s, p, Target(unicode, true)).ok
    ensures StringText(s, p, Target(unicode, false)) == StringText(s, p, Target(unicode, true))
    decreases |s| - p
  {
    hide E.Decode, E.Encode, ByteText, CodepointText, Escape;
    if p < |s| {
      E.DecodeIsRfc(s, p);
      if !unicode && s[p] >= 0x80 {
        E.DecodeExactly(s, p);
        ValidatedSame(s, p + E.Decode(s, p).taken, unicode);
      } else if Validates(s[p], Target(unicode, true)) {
        var n := E.Decode(s, p).taken;
        ValidatedSame(s, p + n, unicode);
        PlainSequence(s, p, n);
      } else {
        ValidatedSame(s, p + 1, unicode);
      }
    }
  }

  /** The bytes of a sequence are copied one by one without validation. */
  lemma PlainSequence(s: bytes, p: nat, n: nat)
    requires p + n <= |s| && E.SequenceLength(s, p) == n > 0 && Escape(s[p]) == 0
    ensures var t := Target(true, false); var rest := StringText(s, p + n, t);
            StringText(s, p, t) == Written(s[p..p + n] + rest.text, rest.ok)
  {
    TailsArePlain(s, p, n);
    CopiedBytes(s, p, n);
  }

  lemma TailsArePlain(s: bytes, p: nat, n: nat)
    requires p + n <= |s| && E.SequenceLength(s, p) == n > 0 && Escape(s[p]) == 0
    ensures forall i :: p <= i < p + n ==> Escape(s[i]) == 0
  {
  }

  lemma {:induction false} CopiedBytes(s: bytes, p: nat, n: nat)
    requires p + n <= |s| && forall i :: p <= i < p + n ==> Escape(s[i]) == 0
    ensures var t := Target(true, false); var rest := StringText(s, p + n, t);
            StringText(s, p, t) == Written(s[p..p + n] + rest.text, rest.ok)
    decreases n
  {
    var t := Target(true, false);
    hide StringText, Escape;
    var rest := StringText(s, p + n, t);
    if n == 0 {
      assert s[p..p] + rest.text == rest.text;
    } else {
      CopiedByte(s, p);
      CopiedBytes(s, p + 1, n - 1);
      assert [s[p]] + (s[p + 1..p + n] + rest.text) == s[p..p + n] + rest.text;
    }
  }

  lemma CopiedByte(s: bytes, p: nat)
    requires p < |s| && Escape(s[p]) == 0
    ensures var t := Target(true, false); var rest := StringText(s, p + 1, t);
            StringText(s, p, t) == Written([s[p]] + rest.text, rest.ok)
  {
    hide Escape, E.Decode;
  }

  /** F0 in front of the terminator of a string: an ASCII writer and a validating one take four bytes. */
  lemma LeadByteOverruns(s: bytes, target: Target)
    requires s == [0xF0] && (!target.unicode || target.validate)
    ensures WriteOverruns(s, 0, target) && !StringText(s, 0, target).ok
  {
    S.LeadByteTakesFour(s);
    hide E.Decode;
  }

  // ----- runs -----

  lemma {:induction false} RunAppend(c: Settings, st: State, a: seq<Event>, b: seq<Event>, mid: State)
    requires Run(c, st, a) == Some((mid, true))
    ensures Run(c, st, a + b) == Run(c, mid, b)
    decreases |a|
  {
    hide CanHandle, Handle;
    if a == [] {
      assert a + b == b;
    } else {
      assert (a + b)[1..] == a[1..] + b;
      RunAppend(c, Handle(c, st, a[0]).0, a[1..], b, mid);
    }
  }

  lemma RunOne(c: Settings, st: State, e: Event)
    requires CanHandle(st, e) && Handle(c, st, e).1
    ensures Run(c, st, [e]) == Some((Handle(c, st, e).0, true))
  {
    hide CanHandle, Handle;
    assert [e][1..] == [];
    assert Run(c, Handle(c, st, e).0, []) == Some((Handle(c, st, e).0, true));
  }

  lemma PutTwice(st: State, a: bytes, b: bytes)
    ensures Put(Put(st, a), b) == Put(st, a + b)
  {
    assert st.written + a + b == st.written + (a + b);
  }

  /** The state after a value: its prefix and its text are written, and it is counted. */
  function AfterValue(c: Settings, st: State, v: Value): State {
    PutValue(c, st, Print(c, v, Depth(st.levels)))
  }

  /** Accept on any value writes, after the prefix, exactly the text of the tree. */
  lemma {:induction false} RunValue(c: Settings, st: State, v: Value, kindOf: integer -> IntKind)
    requires Expects(st, false) && Writable(v, c.target)
    ensures Run(c, st, Events(v, kindOf)) == Some((AfterValue(c, st, v), true))
    decreases v, 1
  {
    if v.VArray? {
      RunArray(c, st, v.elements, kindOf);
    } else if v.VObject? {
      RunObject(c, st, v.members, kindOf);
    } else {
      RunScalar(c, st, v, kindOf);
    }
  }

  lemma RunScalar(c: Settings, st: State, v: Value, kindOf: integer -> IntKind)
    requires Expects(st, false) && Writable(v, c.target) && !v.VArray? && !v.VObject?
    ensures Run(c, st, Events(v, kindOf)) == Some((AfterValue(c, st, v), true))
  {
    hide PutValue, Expects, QuotedText;
    var e := Events(v, kindOf)[0];
    assert Expects(st, false) ==> Expects(st, true) by { ExpectsMore(st); }
    RunOne(c, st, e);
  }

  lemma ExpectsMore(st: State)
    ensures Expects(st, false) ==> Expects(st, true)
  {
  }

  /** Three stretches of a run. */
  lemma RunThree(c: Settings, st: State, a: seq<Event>, st1: State, b: seq<Event>, st2: State, e: seq<Event>,
                 st3: State)
    requires Run(c, st, a) == Some((st1, true)) && Run(c, st1, b) == Some((st2, true)) &&
             Run(c, st2, e) == Some((st3, true))
    ensures Run(c, st, a + b + e) == Some((st3, true))
  {
    hide Run;
    RunAppend(c, st, a, b, st1);
    RunAppend(c, st, a + b, e, st2);
  }

  function Opening(inArray: bool): bytes { if inArray then ['[' as int] else ['{' as int] }
  function Closing(inArray: bool): bytes { if inArray then [']' as int] else ['}' as int] }

  function In(st: State, inArray: bool, n: nat): State { st.(levels := Level(n, inArray, st.levels)) }

  lemma RunStart(c: Settings, st: State, inArray: bool)
    requires Expects(st, false)
    ensures Run(c, st, [if inArray then StartArray else StartObject]) ==
            Some((In(PutValue(c, st, Opening(inArray)), inArray, 0), true))
  {
    hide PutValue, Expects;
    RunOne(c, st, if inArray then StartArray else StartObject);
  }

  lemma RunEnd(c: Settings, st: State, inArray: bool, n: nat, count: nat)
    requires inArray || n % 2 == 0
    ensures Run(c, In(st, inArray, n), [if inArray then EndArray(count) else EndObject(count)]) ==
            Some((Put(st, EndGap(c.style, Depth(st.levels), inArray, n == 0) + Closing(inArray)), true))
  {
    hide EndGap, Depth;
    RunOne(c, In(st, inArray, n), if inArray then EndArray(count) else EndObject(count));
  }

  lemma PutThree(c: Settings, st: State, a: bytes, b: bytes, e: bytes)
    ensures Put(Put(PutValue(c, st, a), b), e) == PutValue(c, st, a + b + e)
  {
    hide PutValue;
    PutTwice(PutValue(c, st, a), b, e);
    PutAfter(c, st, a, b + e);
    assert a + (b + e) == a + b + e;
  }

  lemma {:induction false} RunArray(c: Settings, st: State, es: seq<Value>, kindOf: integer -> IntKind)
    requires Expects(st, false) && ElementsWritable(es, c.target)
    ensures Run(c, st, Events(VArray(es), kindOf)) == Some((AfterValue(c, st, VArray(es)), true))
    decreases es, 1
  {
    hide Run, Put, PutValue, EndGap, Depth, ElementsWritable, Expects, PrintElements, ElementEvents;
    var d := Depth(st.levels);
    var base := PutValue(c, st, Opening(true));
    SameDepth(c, st, Opening(true));
    var inner := PrintElements(c, es, d + 1, true);
    var close := EndGap(c.style, d, true, es == []) + Closing(true);
    RunStart(c, st, true);
    RunElements(c, base, 0, es, kindOf);
    RunEnd(c, Put(base, inner), true, |es|, |es|);
    LevelsKept(base, inner);
    RunThree(c, st, [StartArray], In(base, true, 0), ElementEvents(es, kindOf), In(Put(base, inner), true, |es|),
             [EndArray(|es|)], Put(Put(base, inner), close));
    PutThree(c, st, Opening(true), inner, close);
    assert Opening(true) + inner + close == Print(c, VArray(es), d);
  }

  lemma LevelsKept(st: State, text: bytes)
    ensures Put(st, text).levels == st.levels
  {
  }

  lemma SameDepth(c: Settings, st: State, text: bytes)
    ensures Depth(PutValue(c, st, text).levels) == Depth(st.levels)
  {
  }

  lemma PutAfter(c: Settings, st: State, a: bytes, b: bytes)
    ensures Put(PutValue(c, st, a), b) == PutValue(c, st, a + b)
  {
    PutTwice(Counted(st), Prefix(c.style, st.levels) + a, b);
    assert Prefix(c.style, st.levels) + a + b == Prefix(c.style, st.levels) + (a + b);
  }

  /** Two parts of a container, one behind the other. */
  lemma Chained(c: Settings, st: State, inArray: bool, n: nat, n1: nat, n2: nat,
                own: seq<Event>, rest: seq<Event>, text: bytes, more: bytes)
    requires Run(c, In(st, inArray, n), own) == Some((In(Put(st, text), inArray, n1), true))
    requires Run(c, In(Put(st, text), inArray, n1), rest) == Some((In(Put(Put(st, text), more), inArray, n2), true))
    ensures Run(c, In(st, inArray, n), own + rest) == Some((In(Put(st, text + more), inArray, n2), true))
  {
    hide Run, In, Put;
    RunAppend(c, In(st, inArray, n), own, rest, In(Put(st, text), inArray, n1));
    PutTwice(st, text, more);
  }

  /** The elements behind the first n. */
  lemma {:induction false} RunElements(c: Settings, st: State, n: nat, es: seq<Value>, kindOf: integer -> IntKind)
    requires ElementsWritable(es, c.target)
    ensures Run(c, In(st, true, n), ElementEvents(es, kindOf)) ==
            Some((In(Put(st, PrintElements(c, es, Depth(st.levels) + 1, n == 0)), true, n + |es|), true))
    decreases es, 0
  {
    hide Print, ElementGap, Writable, Events;
    if es == [] {
      assert Put(st, []) == st;
    } else {
      hide Run, PutValue, Put, Separator, Depth, In, AfterValue, PrintElements;
      var d := Depth(st.levels) + 1;
      var text := Separator(n == 0) + ElementGap(c.style, d, n == 0) + Print(c, es[0], d);
      RunElement(c, st, n, es[0], kindOf);
      RunElements(c, Put(st, text), n + 1, es[1..], kindOf);
      LevelsKept(st, text);
      Chained(c, st, true, n, n + 1, n + |es|, Events(es[0], kindOf), ElementEvents(es[1..], kindOf),
              text, PrintElements(c, es[1..], d, false));
      ElementsStep(c, es, d, n == 0);
    }
  }

  /** One element, the n-th. */
  lemma RunElement(c: Settings, st: State, n: nat, v: Value, kindOf: integer -> IntKind)
    requires Writable(v, c.target)
    ensures var d := Depth(st.levels) + 1;
            var text := Separator(n == 0) + ElementGap(c.style, d, n == 0) + Print(c, v, d);
            Run(c, In(st, true, n), Events(v, kindOf)) == Some((In(Put(st, text), true, n + 1), true))
    decreases v, 2
  {
    hide Print, ElementGap, Writable, Events, Run, Separator, AfterValue;
    RunValue(c, In(st, true, n), v, kindOf);
    ElementPut(c, st, n, v);
  }

  /** PrintElements element by element. */
  lemma ElementsStep(c: Settings, es: seq<Value>, depth: nat, first: bool)
    requires es != []
    ensures PrintElements(c, es, depth, first) ==
            Separator(first) + ElementGap(c.style, depth, first) + Print(c, es[0], depth) +
            PrintElements(c, es[1..], depth, false)
  {
    hide Print, ElementGap, Separator;
  }

  lemma ElementPut(c: Settings, st: State, n: nat, v: Value)
    ensures var d := Depth(st.levels) + 1;
            AfterValue(c, In(st, true, n), v) ==
            In(Put(st, Separator(n == 0) + ElementGap(c.style, d, n == 0) + Print(c, v, d)), true, n + 1)
  {
    hide Print, ElementGap;
  }

  lemma MemberPut(c: Settings, st: State, n: nat, v: Value)
    requires n % 2 == 1
    ensures var d := Depth(st.levels) + 1;
            AfterValue(c, In(st, false, n), v) == In(Put(st, COLON + ValueGap(c.style) + Print(c, v, d)), false, n + 1)
  {
    hide Print, ValueGap;
  }

  lemma {:induction false} RunObject(c: Settings, st: State, ms: seq<Member>, kindOf: integer -> IntKind)
    requires Expects(st, false) && MembersWritable(ms, c.target)
    ensures Run(c, st, Events(VObject(ms), kindOf)) == Some((AfterValue(c, st, VObject(ms)), true))
    decreases ms, 1
  {
    hide Run, Put, PutValue, EndGap, Depth, MembersWritable, Expects, PrintMembers, MemberEvents;
    var d := Depth(st.levels);
    var base := PutValue(c, st, Opening(false));
    SameDepth(c, st, Opening(false));
    var inner := PrintMembers(c, ms, d + 1, true);
    var close := EndGap(c.style, d, false, ms == []) + Closing(false);
    RunStart(c, st, false);
    RunMembers(c, base, 0, ms, kindOf);
    RunEnd(c, Put(base, inner), false, 2 * |ms|, |ms|);
    LevelsKept(base, inner);
    RunThree(c, st, [StartObject], In(base, false, 0), MemberEvents(ms, kindOf), In(Put(base, inner), false, 2 * |ms|),
             [EndObject(|ms|)], Put(Put(base, inner), close));
    PutThree(c, st, Opening(false), inner, close);
    assert Opening(false) + inner + close == Print(c, VObject(ms), d);
  }

  function NameText(c: Settings, name: bytes, depth: nat, first: bool): bytes {
    Separator(first) + NameGap(c.style, depth) + QuotedText(name, c.target).text
  }

  lemma RunName(c: Settings, st: State, n: nat, name: bytes)
    requires QuotedText(name, c.target).ok
    ensures Run(c, In(st, false, 2 * n), [Key(name)]) ==
            Some((In(Put(st, NameText(c, name, Depth(st.levels) + 1, n == 0)), false, 2 * n + 1), true))
  {
    hide QuotedText, NameGap;
    RunOne(c, In(st, false, 2 * n), Key(name));
  }

  /** One member, the n-th. */
  lemma RunMember(c: Settings, st: State, n: nat, m: Member, kindOf: integer -> IntKind)
    requires QuotedText(m.name, c.target).ok && Writable(m.value, c.target)
    ensures var d := Depth(st.levels) + 1;
            var text := NameText(c, m.name, d, n == 0) + (COLON + ValueGap(c.style) + Print(c, m.value, d));
            Run(c, In(st, false, 2 * n), [Key(m.name)] + Events(m.value, kindOf)) ==
            Some((In(Put(st, text), false, 2 * (n + 1)), true))
    decreases m, 2
  {
    hide Print, NameText, QuotedText, Writable, Events, Run, PutValue, ValueGap;
    var d := Depth(st.levels) + 1;
    var name := NameText(c, m.name, d, n == 0);
    var value := COLON + ValueGap(c.style) + Print(c, m.value, d);
    var named := In(Put(st, name), false, 2 * n + 1);
    RunName(c, st, n, m.name);
    RunValue(c, named, m.value, kindOf);
    LevelsKept(st, name);
    MemberPut(c, Put(st, name), 2 * n + 1, m.value);
    PutTwice(st, name, value);
    RunAppend(c, In(st, false, 2 * n), [Key(m.name)], Events(m.value, kindOf), named);
  }

  /** PrintMembers member by member. */
  lemma MembersStep(c: Settings, ms: seq<Member>, depth: nat, first: bool)
    requires ms != []
    ensures PrintMembers(c, ms, depth, first) ==
            NameText(c, ms[0].name, depth, first) + (COLON + ValueGap(c.style) + Print(c, ms[0].value, depth))
            + PrintMembers(c, ms[1..], depth, false)
  {
    hide Print, NameGap, ValueGap, QuotedText, Separator;
  }

  /** The members behind the first n; a level counts names and values. */
  lemma {:induction false} RunMembers(c: Settings, st: State, n: nat, ms: seq<Member>, kindOf: integer -> IntKind)
    requires MembersWritable(ms, c.target)
    ensures Run(c, In(st, false, 2 * n), MemberEvents(ms, kindOf)) ==
            Some((In(Put(st, PrintMembers(c, ms, Depth(st.levels) + 1, n == 0)), false, 2 * (n + |ms|)), true))
    decreases ms, 0
  {
    hide Print, NameGap, ValueGap, QuotedText, Writable, Events, Depth;
    if ms == [] {
      assert Put(st, []) == st;
    } else {
      hide Run, Put, Separator, NameText, In, PrintMembers;
      var d := Depth(st.levels) + 1;
      var text := NameText(c, ms[0].name, d, n == 0) + (COLON + ValueGap(c.style) + Print(c, ms[0].value, d));
      RunMember(c, st, n, ms[0], kindOf);
      RunMembers(c, Put(st, text), n + 1, ms[1..], kindOf);
      LevelsKept(st, text);
      Chained(c, st, false, 2 * n, 2 * (n + 1), 2 * (n + |ms|), [Key(ms[0].name)] + Events(ms[0].value, kindOf),
              MemberEvents(ms[1..], kindOf), text, PrintMembers(c, ms[1..], d, false));
      MembersStep(c, ms, d, n == 0);
    }
  }

  /** A fresh writer turns a tree into its text. */
  lemma WriterPrints(c: Settings, v: Value, kindOf: integer -> IntKind)
    requires Writable(v, c.target)
    ensures Run(c, State(Root, false, []), Events(v, kindOf)) == Some((State(Root, true, Print(c, v, 0)), true))
  {
    RunValue(c, State(Root, false, []), v, kindOf);
    assert [] + ([] + Print(c, v, 0)) == Print(c, v, 0);
  }
}
