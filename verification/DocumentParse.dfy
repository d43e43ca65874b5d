/** Every accepted parse reports the events of one tree, so that it leaves exactly that tree in a document. */
module DocumentParse {
  import opened Json
  import opened Document
  import opened Counts
  import R = Reader
  import RT = RoundTrip
  import WS = WriterStrings
  import W = Writer
  import WP = WriterProof
  import RE = ReaderEquivalence
  import RP = ReaderPull

  /** An event with the integer kind that Accept would use. */
  function NormalEvent(e: Event): Event { if e.Integer? then Integer(AcceptKind(e.value), e.value) else e }

  function Normal(w: seq<Event>): seq<Event> { if w == [] then [] else [NormalEvent(w[0])] + Normal(w[1..]) }

  /** w is the trace of v, up to the kinds of its integers. */
  predicate IsTraceOf(w: seq<Event>, v: Value) { Normal(w) == Reported(v, AcceptKind) }

  lemma {:induction false} NormalAppend(a: seq<Event>, b: seq<Event>)
    ensures Normal(a + b) == Normal(a) + Normal(b)
  {
    if a == [] {
      assert a + b == b;
    } else {
      assert (a + b)[1..] == a[1..] + b;
      NormalAppend(a[1..], b);
    }
  }

  lemma NormalOne(e: Event)
    ensures Normal([e]) == [NormalEvent(e)]
  {
  }

  lemma {:induction false} RunNormal(stack: seq<Value>, w: seq<Event>)
    ensures Run(stack, w) == Run(stack, Normal(w))
    decreases |w|
  {
    if w != [] {
      SameHandle(stack, w[0]);
      hide Handle;
      assert Normal(w)[1..] == Normal(w[1..]);
      if Handle(stack, w[0]).Some? { RunNormal(Handle(stack, w[0]).value, w[1..]); }
    }
  }

  lemma SameHandle(stack: seq<Value>, e: Event)
    ensures Handle(stack, NormalEvent(e)) == Handle(stack, e)
  {
  }

  /** A parse whose numbers are number events. */
  ghost predicate Sound(c: R.Config) {
    && R.Proper(c)
    && (forall p: nat :: c.parseNumber(p).Some? ==>
        c.parseNumber(p).value.1.Integer? || c.parseNumber(p).value.1.Double?)
  }

  lemma ScalarParsed(c: R.Config, p: nat, trace: seq<Event>) returns (v: Value, e: Event)
    requires Sound(c) && p <= |c.text| && R.ParseValue(c, p, trace).Ok?
    requires R.Peek(c, p) != '{' as int && R.Peek(c, p) != '[' as int
    ensures R.ParseValue(c, p, trace).trace == trace + [e] && IsTraceOf([e], v)
  {
    var r := R.ParseValue(c, p, trace);
    var b := R.Peek(c, p);
    if b == 'n' as int { v, e := VNull, Null; }
    else if b == 't' as int { v, e := VBool(true), Bool(true); }
    else if b == 'f' as int { v, e := VBool(false), Bool(false); }
    else if b == '"' as int {
      var s := c.parseString(p).value.1;
      v, e := VString(s), String(s);
    } else {
      e := c.parseNumber(p).value.1;
      v := if e.Integer? then VInt(e.value) else VDouble(e.literal);
    }
    NormalOne(e);
  }

  lemma {:induction false} ValueParsed(c: R.Config, p: nat, trace: seq<Event>) returns (v: Value, w: seq<Event>)
    requires Sound(c) && p <= |c.text| && R.ParseValue(c, p, trace).Ok?
    ensures R.ParseValue(c, p, trace).trace == trace + w && IsTraceOf(w, v)
    decreases |c.text| - p, 5
  {
    if R.Peek(c, p) == '{' as int {
      hide Sound, R.ParseObject, IsTraceOf;
      v, w := ObjectParsed(c, p, trace);
    } else if R.Peek(c, p) == '[' as int {
      hide Sound, R.ParseArray, IsTraceOf;
      v, w := ArrayParsed(c, p, trace);
    } else {
      hide R.ParseValue, Sound, IsTraceOf;
      var e;
      v, e := ScalarParsed(c, p, trace);
      w := [e];
    }
  }

  // ----- arrays -----

  predicate IsElementTrace(w: seq<Event>, es: seq<Value>) { Normal(w) == ReportedElements(es, AcceptKind) }

  lemma ElementTraceMore(a: seq<Event>, v: Value, b: seq<Event>, es: seq<Value>)
    requires IsTraceOf(a, v) && IsElementTrace(b, es)
    ensures IsElementTrace(a + b, [v] + es)
  {
    NormalAppend(a, b);
    assert ([v] + es)[1..] == es;
    hide Reported;
  }

  lemma ArrayTrace(w: seq<Event>, es: seq<Value>)
    requires IsElementTrace(w, es)
    ensures IsTraceOf([StartArray] + w + [EndArray(Low(|es|))], VArray(es))
  {
    NormalAppend([StartArray], w);
    NormalAppend([StartArray] + w, [EndArray(Low(|es|))]);
    NormalOne(StartArray);
    NormalOne(EndArray(Low(|es|)));
  }

  /** The loop of ParseArray delivers the elements and then their count. */
  lemma {:induction false} ElementsParsed(c: R.Config, p: nat, trace: seq<Event>, count: nat)
    returns (es: seq<Value>, w: seq<Event>)
    requires Sound(c) && p <= |c.text| && R.ParseElements(c, p, trace, Low(count)).Ok?
    ensures R.ParseElements(c, p, trace, Low(count)).trace == trace + w + [EndArray(Low(count + |es|))] &&
            IsElementTrace(w, es)
    decreases |c.text| - p, 6
  {
    var v, a := ValueParsed(c, p, trace);
    hide R.ParseValue, R.AfterElement, R.Skip, IsTraceOf, IsElementTrace;
    var r := R.ParseValue(c, p, trace);
    var s := R.Skip(c, r.pos);
    RT.CountUp(count);
    var b;
    es, b := ElementsRest(c, s.pos, r.trace, count + 1);
    ElementTraceMore(a, v, b, es);
    Associate(trace, a, b, [EndArray(Low(count + 1 + |es|))]);
    es, w := [v] + es, a + b;
  }

  lemma Associate(t: seq<Event>, a: seq<Event>, b: seq<Event>, e: seq<Event>)
    ensures t + a + b + e == t + (a + b) + e
  {
    assert t + a + b == t + (a + b);
  }

  lemma {:induction false} ElementsRest(c: R.Config, p: nat, trace: seq<Event>, count: nat)
    returns (es: seq<Value>, w: seq<Event>)
    requires Sound(c) && p <= |c.text| && R.AfterElement(c, p, trace, Low(count)).Ok?
    ensures R.AfterElement(c, p, trace, Low(count)).trace == trace + w + [EndArray(Low(count + |es|))] &&
            IsElementTrace(w, es)
    decreases |c.text| - p, 4
  {
    hide R.ParseElements, R.Skip, Sound;
    es, w := [], [];
    assert trace + [] == trace;
    if R.Peek(c, p) == ',' as int {
      var s := R.Skip(c, p + 1);
      if !(c.flags.trailingCommas && R.Peek(c, s.pos) == ']' as int) {
        es, w := ElementsParsed(c, s.pos, trace, count);
      }
    }
  }

  lemma {:induction false} ArrayParsed(c: R.Config, p: nat, trace: seq<Event>) returns (v: Value, w: seq<Event>)
    requires Sound(c) && p < |c.text| && R.ParseArray(c, p, trace).Ok?
    ensures R.ParseArray(c, p, trace).trace == trace + w && IsTraceOf(w, v)
    decreases |c.text| - p, 4
  {
    hide R.ParseElements, R.Skip, Sound, IsTraceOf, IsElementTrace;
    var es, inner := [], [];
    var t := trace + [StartArray];
    var s := R.Skip(c, p + 1);
    NoElements();
    assert t + [] == t;
    if R.Peek(c, s.pos) != ']' as int {
      es, inner := ElementsParsed(c, s.pos, t, 0);
    }
    v, w := VArray(es), [StartArray] + inner + [EndArray(Low(|es|))];
    ArrayTrace(inner, es);
    Enclose(trace, [StartArray], inner, [EndArray(Low(|es|))]);
  }

  lemma Enclose(t: seq<Event>, a: seq<Event>, b: seq<Event>, e: seq<Event>)
    ensures t + a + b + e == t + (a + b + e)
  {
  }

  lemma NoElements()
    ensures IsElementTrace([], []) && IsMemberTrace([], [])
  {
  }

  // ----- objects -----

  predicate IsMemberTrace(w: seq<Event>, ms: seq<Member>) { Normal(w) == ReportedMembers(ms, AcceptKind) }

  lemma MemberTraceMore(name: bytes, a: seq<Event>, v: Value, b: seq<Event>, ms: seq<Member>)
    requires IsTraceOf(a, v) && IsMemberTrace(b, ms)
    ensures IsMemberTrace([Key(name)] + a + b, [Member(name, v)] + ms)
  {
    NormalAppend([Key(name)], a);
    NormalAppend([Key(name)] + a, b);
    NormalOne(Key(name));
    assert ([Member(name, v)] + ms)[1..] == ms;
    hide Reported;
  }

  lemma ObjectTrace(w: seq<Event>, ms: seq<Member>)
    requires IsMemberTrace(w, ms)
    ensures IsTraceOf([StartObject] + w + [EndObject(Low(|ms|))], VObject(ms))
  {
    NormalAppend([StartObject], w);
    NormalAppend([StartObject] + w, [EndObject(Low(|ms|))]);
    NormalOne(StartObject);
    NormalOne(EndObject(Low(|ms|)));
  }

  lemma {:induction false} MemberParsed(c: R.Config, p: nat, trace: seq<Event>) returns (m: Member, w: seq<Event>)
    requires Sound(c) && p <= |c.text| && R.ParseMember(c, p, trace).Ok?
    ensures R.ParseMember(c, p, trace).trace == trace + ([Key(m.name)] + w) && IsTraceOf(w, m.value)
    decreases |c.text| - p, 6
  {
    hide R.ParseValue, R.Skip, Sound, IsTraceOf;
    assert R.Proper(c) by { SoundIsProper(c); }
    var r := R.ParseString(c, p, trace, true);
    var name := c.parseString(p).value.1;
    var s2 := R.Skip(c, R.Skip(c, r.pos).pos + 1);
    var v;
    v, w := ValueParsed(c, s2.pos, r.trace);
    m := Member(name, v);
    assert trace + [Key(name)] + w == trace + ([Key(name)] + w);
  }

  lemma SoundIsProper(c: R.Config)
    requires Sound(c)
    ensures R.Proper(c)
  {
  }

  lemma {:induction false} MembersParsed(c: R.Config, p: nat, trace: seq<Event>, count: nat)
    returns (ms: seq<Member>, w: seq<Event>)
    requires Sound(c) && p <= |c.text| && R.ParseMembers(c, p, trace, Low(count)).Ok?
    ensures R.ParseMembers(c, p, trace, Low(count)).trace == trace + w + [EndObject(Low(count + |ms|))] &&
            IsMemberTrace(w, ms)
    decreases |c.text| - p, 7
  {
    hide R.ParseMember, R.AfterMember, R.Skip, IsTraceOf, IsMemberTrace, Sound, R.Proper, R.Peek;
    SoundIsProper(c);
    var m, a := MemberParsed(c, p, trace);
    var r := R.ParseMember(c, p, trace);
    RT.CountUp(count);
    var own := [Key(m.name)] + a;
    var rest, b := MembersRest(c, r.pos, r.trace, count + 1);
    MemberTraceMore(m.name, a, m.value, b, rest);
    Associate(trace, own, b, [EndObject(Low(count + 1 + |rest|))]);
    ms, w := [m] + rest, own + b;
  }

  lemma {:induction false} MembersRest(c: R.Config, p: nat, trace: seq<Event>, count: nat)
    returns (ms: seq<Member>, w: seq<Event>)
    requires Sound(c) && p <= |c.text| && R.AfterMember(c, p, trace, Low(count)).Ok?
    ensures R.AfterMember(c, p, trace, Low(count)).trace == trace + w + [EndObject(Low(count + |ms|))] &&
            IsMemberTrace(w, ms)
    decreases |c.text| - p, 4
  {
    hide R.ParseMembers, R.Skip, Sound;
    ms, w := [], [];
    assert trace + [] == trace;
    if R.Peek(c, p) == ',' as int {
      var s := R.Skip(c, p + 1);
      if !(c.flags.trailingCommas && R.Peek(c, s.pos) == '}' as int) {
        ms, w := MembersParsed(c, s.pos, trace, count);
      }
    }
  }

  lemma {:induction false} ObjectParsed(c: R.Config, p: nat, trace: seq<Event>) returns (v: Value, w: seq<Event>)
    requires Sound(c) && p < |c.text| && R.ParseObject(c, p, trace).Ok?
    ensures R.ParseObject(c, p, trace).trace == trace + w && IsTraceOf(w, v)
    decreases |c.text| - p, 4
  {
    hide R.ParseMembers, R.Skip, Sound, IsTraceOf, IsMemberTrace;
    var ms, inner := [], [];
    var t := trace + [StartObject];
    var s := R.Skip(c, p + 1);
    NoElements();
    assert t + [] == t;
    if R.Peek(c, s.pos) != '}' as int {
      ms, inner := MembersParsed(c, s.pos, t, 0);
    }
    v, w := VObject(ms), [StartObject] + inner + [EndObject(Low(|ms|))];
    ObjectTrace(inner, ms);
    Enclose(trace, [StartObject], inner, [EndObject(Low(|ms|))]);
  }

  // ----- documents -----

  /** By how much an event changes the height of the stack. */
  function Net(e: Event): int {
    match e
    case EndArray(count) => 0 - count
    case EndObject(count) => -2 * count
    case _ => 1
  }

  function TotalNet(w: seq<Event>): int { if w == [] then 0 else Net(w[0]) + TotalNet(w[1..]) }

  lemma {:induction false} NetAppend(a: seq<Event>, b: seq<Event>)
    ensures TotalNet(a + b) == TotalNet(a) + TotalNet(b)
  {
    if a == [] {
      assert a + b == b;
    } else {
      assert (a + b)[1..] == a[1..] + b;
      NetAppend(a[1..], b);
    }
  }

  lemma HandleNet(stack: seq<Value>, e: Event)
    requires Handle(stack, e).Some?
    ensures |Handle(stack, e).value| == |stack| + Net(e)
  {
  }

  lemma {:induction false} RunNet(stack: seq<Value>, w: seq<Event>)
    requires Run(stack, w).Some?
    ensures |Run(stack, w).value| == |stack| + TotalNet(w)
    decreases |w|
  {
    hide Handle;
    if w != [] {
      HandleNet(stack, w[0]);
      RunNet(Handle(stack, w[0]).value, w[1..]);
    }
  }

  /** Children that are not reported stay on the stack. */
  lemma {:induction false} ValueNet(v: Value)
    ensures TotalNet(Reported(v, AcceptKind)) >= 1
    ensures TotalNet(Reported(v, AcceptKind)) == 1 <==> CountsFit(v)
    decreases v, 1
  {
    if v.VArray? {
      var w, last := ReportedElements(v.elements, AcceptKind), EndArray(Low(|v.elements|));
      ElementsNet(v.elements);
      ThreeNet(StartArray, w, last);
    } else if v.VObject? {
      var w, last := ReportedMembers(v.members, AcceptKind), EndObject(Low(|v.members|));
      MembersNet(v.members);
      ThreeNet(StartObject, w, last);
    }
  }

  lemma ThreeNet(first: Event, w: seq<Event>, last: Event)
    ensures TotalNet([first] + w + [last]) == Net(first) + TotalNet(w) + Net(last)
  {
    NetAppend([first] + w, [last]);
    NetAppend([first], w);
    assert TotalNet([first]) == Net(first) && TotalNet([last]) == Net(last);
  }

  lemma {:induction false} ElementsNet(es: seq<Value>)
    ensures TotalNet(ReportedElements(es, AcceptKind)) >= |es|
    ensures TotalNet(ReportedElements(es, AcceptKind)) == |es| <==> ElementCountsFit(es)
    decreases es, 0
  {
    if es != [] {
      ValueNet(es[0]);
      ElementsNet(es[1..]);
      NetAppend(Reported(es[0], AcceptKind), ReportedElements(es[1..], AcceptKind));
    }
  }

  lemma {:induction false} MembersNet(ms: seq<Member>)
    ensures TotalNet(ReportedMembers(ms, AcceptKind)) >= 2 * |ms|
    ensures TotalNet(ReportedMembers(ms, AcceptKind)) == 2 * |ms| <==> MemberCountsFit(ms)
    decreases ms, 0
  {
    if ms != [] {
      ValueNet(ms[0].value);
      MembersNet(ms[1..]);
      var key := [Key(ms[0].name)];
      assert TotalNet(key) == 1;
      NetAppend(key, Reported(ms[0].value, AcceptKind));
      NetAppend(key + Reported(ms[0].value, AcceptKind), ReportedMembers(ms[1..], AcceptKind));
    }
  }

  /** Every accepted parse, whatever its flags and its scalar parsers, is the trace of one tree with its
      counts in 32 bits; and it leaves exactly that tree on the stack of a document exactly when no
      container has 2^32 children or more. */
  lemma ParseLeavesOneValue(c: R.Config) returns (v: Value)
    requires Sound(c) && R.Parse(c).Ok?
    ensures IsTraceOf(R.Parse(c).trace, v)
    ensures Run([], R.Parse(c).trace) == Some([v]) <==> CountsFit(v)
    ensures !CountsFit(v) ==> forall u :: Run([], R.Parse(c).trace) != Some([u])
  {
    hide R.ParseValue, R.Skip, Sound, IsTraceOf, Run;
    SoundIsProper(c);
    var s := R.Skip(c, 0);
    var w;
    v, w := ValueParsed(c, s.pos, []);
    assert [] + w == w;
    TraceReplays(w, v);
  }

  lemma TraceReplays(w: seq<Event>, v: Value)
    requires IsTraceOf(w, v)
    ensures Run([], w) == Some([v]) <==> CountsFit(v)
    ensures !CountsFit(v) ==> forall u :: Run([], w) != Some([u])
  {
    RunNormal([], w);
    ValueNet(v);
    if Run([], w).Some? { RunNet([], Normal(w)); }
    if CountsFit(v) {
      FittingCounts(v, AcceptKind);
      ReplayValue([], v, AcceptKind);
      assert [] + [v] == [v];
    }
  }

  lemma {:induction false} ReportedIsTrace(v: Value, kindOf: integer -> IntKind)
    ensures IsTraceOf(Reported(v, kindOf), v)
    decreases v, 1
  {
    if v.VArray? {
      ReportedIsElementTrace(v.elements, kindOf);
      ArrayTrace(ReportedElements(v.elements, kindOf), v.elements);
    } else if v.VObject? {
      ReportedIsMemberTrace(v.members, kindOf);
      ObjectTrace(ReportedMembers(v.members, kindOf), v.members);
    } else {
      NormalOne(Events(v, kindOf)[0]);
    }
  }

  lemma {:induction false} ReportedIsElementTrace(es: seq<Value>, kindOf: integer -> IntKind)
    ensures IsElementTrace(ReportedElements(es, kindOf), es)
    decreases es, 0
  {
    if es != [] {
      ReportedIsTrace(es[0], kindOf);
      ReportedIsElementTrace(es[1..], kindOf);
      ElementTraceMore(Reported(es[0], kindOf), es[0], ReportedElements(es[1..], kindOf), es[1..]);
      assert [es[0]] + es[1..] == es;
    }
  }

  lemma {:induction false} ReportedIsMemberTrace(ms: seq<Member>, kindOf: integer -> IntKind)
    ensures IsMemberTrace(ReportedMembers(ms, kindOf), ms)
    decreases ms, 0
  {
    if ms != [] {
      var m := ms[0];
      ReportedIsTrace(m.value, kindOf);
      ReportedIsMemberTrace(ms[1..], kindOf);
      MemberTraceMore(m.name, Reported(m.value, kindOf), m.value, ReportedMembers(ms[1..], kindOf), ms[1..]);
      assert [Member(m.name, m.value)] + ms[1..] == ms;
    }
  }

  /** A tree that is written, in any style, and parsed by any of the three parsers into a document
      is the same tree again exactly when no container has 2^32 children or more. */
  lemma WrittenTreeIsParsedBack(v: Value, s: W.Settings, flags: R.Flags, validate: bool, tooBig: bytes -> bool)
    requires W.ProperStyle(s.style) && RT.Plain(v, validate) && W.Writable(v, s.target)
    ensures var text := W.Print(s, v, 0);
            var c := RT.Config(text, flags, validate, tooBig, _ => true);
            && W.Run(s, W.State(W.Root, false, []), Events(v, AcceptKind)) == Some((W.State(W.Root, true, text), true))
            && R.Proper(c) && R.Parse(c).Ok? && (Run([], R.Parse(c).trace) == Some([v]) <==> CountsFit(v))
            && (!CountsFit(v) ==> forall u :: Run([], R.Parse(c).trace) != Some([u]))
            && R.IterativeParse(c) == R.Parse(c) && (!flags.comments ==> R.PullParse(c) == R.Parse(c))
  {
    hide RT.Config, W.Print, RT.Plain, W.Writable, W.Run, R.Parse, R.IterativeParse, R.PullParse, R.Proper, Run, Events,
         Reported, IsTraceOf, CountsFit;
    var c := RT.Config(W.Print(s, v, 0), flags, validate, tooBig, _ => true);
    WP.WriterPrints(s, v, AcceptKind);
    RT.ReadingUndoesWriting(v, s, flags, validate, tooBig);
    RE.IterativeIsRecursive(c);
    assert c.flags == flags by { FlagsKept(W.Print(s, v, 0), flags, validate, tooBig); }
    if !flags.comments { RP.PullIsIterative(c); }
    ReportedIsTrace(v, WS.ReadKind);
    TraceReplays(Reported(v, WS.ReadKind), v);
  }

  /** An array of 2^32 zeros. */
  function ManyZeros(): Value { VArray(Zeros(0x1_0000_0000)) }

  function Zeros(n: nat): seq<Value> { seq(n, _ => VInt(0)) }

  lemma {:induction false} ZerosArePlain(n: nat, target: W.Target, validate: bool)
    ensures RT.PlainElements(Zeros(n), validate) && W.ElementsWritable(Zeros(n), target)
  {
    if n > 0 {
      assert Zeros(n)[1..] == Zeros(n - 1);
      ZerosArePlain(n - 1, target, validate);
    }
  }

  lemma ManyZerosArePlain(target: W.Target, validate: bool)
    ensures RT.Plain(ManyZeros(), validate) && W.Writable(ManyZeros(), target) && !CountsFit(ManyZeros())
  {
    ZerosArePlain(0x1_0000_0000, target, validate);
    hide RT.PlainElements, W.ElementsWritable, ElementCountsFit;
  }

  /** Its text is accepted, and is no single value in a document. */
  lemma CountIsLost(s: W.Settings, flags: R.Flags, validate: bool, tooBig: bytes -> bool)
    requires W.ProperStyle(s.style)
    ensures var c := RT.Config(W.Print(s, ManyZeros(), 0), flags, validate, tooBig, _ => true);
            R.Proper(c) && R.Parse(c).Ok? && forall u :: Run([], R.Parse(c).trace) != Some([u])
  {
    ManyZerosArePlain(s.target, validate);
    hide *;
    WrittenTreeIsParsedBack(ManyZeros(), s, flags, validate, tooBig);
  }

  lemma FlagsKept(text: bytes, flags: R.Flags, validate: bool, tooBig: bytes -> bool)
    ensures RT.Config(text, flags, validate, tooBig, _ => true).flags == flags
  {
  }
}
