/** The document as a handler (rapidjson/document.h): a stack on which every End call collects the
    children of the container it closes. */
module Document {
  import opened Json

  // ----- number flags -----

  /** kIntFlag, kUintFlag, kInt64Flag and kUint64Flag. */
  datatype NumberFlags = NumberFlags(isInt: bool, isUint: bool, isInt64: bool, isUint64: bool)

  /** The flags set by the constructor for a kind of integer; masks are written as bounds. */
  function FlagsOf(kind: IntKind, n: int): NumberFlags {
    match kind
    case Int32 => if n >= 0 then NumberFlags(true, true, true, true) else NumberFlags(true, false, true, false)
    case Uint32 => if n >= 0x8000_0000 then NumberFlags(false, true, true, true)
      else NumberFlags(true, true, true, true)
    case Int64 =>
      if n >= 0 then NumberFlags(n < 0x8000_0000, n < 0x1_0000_0000, true, true)
      else NumberFlags(n >= -0x8000_0000, false, true, false)
    case Uint64 => NumberFlags(n < 0x8000_0000, n < 0x1_0000_0000, n < 0x8000_0000_0000_0000, true)
  }

  /** The event Accept sends for these flags. */
  function KindOfFlags(f: NumberFlags): IntKind {
    if f.isInt then Int32 else if f.isUint then Uint32 else if f.isInt64 then Int64 else Uint64
  }

  /** Whatever constructor made it, an integer carries exactly the flags of the ranges it is in,
      and Accept sends the first kind that fits. */
  lemma FlagsAreRanges(kind: IntKind, n: integer)
    requires KindFits(kind, n)
    ensures var f := FlagsOf(kind, n);
            && f.isInt == KindFits(Int32, n) && f.isUint == KindFits(Uint32, n)
            && f.isInt64 == KindFits(Int64, n) && f.isUint64 == KindFits(Uint64, n)
            && KindOfFlags(f) == AcceptKind(n) && KindFits(KindOfFlags(f), n)
  {
  }

  // ----- the handler -----

  /** Members are pairs of values on the stack; the first of each pair is the name. */
  function Pairs(vs: seq<Value>): Option<seq<Member>> {
    if vs == [] then Some([])
    else if |vs| < 2 || !vs[0].VString? then None
    else match Pairs(vs[2..])
      case None => None
      case Some(ms) => Some([Member(vs[0].str, vs[1])] + ms)
  }

  /** One handler call on the stack; None when it pops what is not there, or names that are no strings. */
  function Handle(stack: seq<Value>, e: Event): Option<seq<Value>> {
    var n := |stack|;
    match e
    case Null => Some(stack + [VNull])
    case Bool(b) => Some(stack + [VBool(b)])
    case Integer(_, i) => Some(stack + [VInt(i)])
    case Double(l) => Some(stack + [VDouble(l)])
    case String(s) => Some(stack + [VString(s)])
    case Key(s) => Some(stack + [VString(s)])
    case StartObject => Some(stack + [VObject([])])
    case StartArray => Some(stack + [VArray([])])
    case EndArray(count) =>
      if n < count + 1 then None else Some(stack[..n - count - 1] + [VArray(stack[n - count..])])
    case EndObject(count) =>
      if n < 2 * count + 1 then None
      else match Pairs(stack[n - 2 * count..])
        case None => None
        case Some(ms) => Some(stack[..n - 2 * count - 1] + [VObject(ms)])
  }

  function Run(stack: seq<Value>, events: seq<Event>): Option<seq<Value>>
    decreases |events|
  {
    if events == [] then Some(stack)
    else match Handle(stack, events[0])
      case None => None
      case Some(stack') => Run(stack', events[1..])
  }

  // ----- replaying a tree -----

  lemma {:induction false} RunAppend(stack: seq<Value>, a: seq<Event>, b: seq<Event>)
    requires Run(stack, a).Some?
    ensures Run(stack, a + b) == Run(Run(stack, a).value, b)
    decreases |a|
  {
    hide Handle;
    if a == [] {
      assert a + b == b;
    } else {
      assert (a + b)[1..] == a[1..] + b;
      RunAppend(Handle(stack, a[0]).value, a[1..], b);
    }
  }

  lemma RunOne(stack: seq<Value>, e: Event)
    ensures Run(stack, [e]) == Handle(stack, e)
  {
    hide Handle;
    assert [e][1..] == [];
  }

  /** The names and values of members, as they lie on the stack. */
  function Flat(ms: seq<Member>): seq<Value> {
    if ms == [] then [] else [VString(ms[0].name), ms[0].value] + Flat(ms[1..])
  }

  lemma {:induction false} PairsOfFlat(ms: seq<Member>)
    ensures |Flat(ms)| == 2 * |ms| && Pairs(Flat(ms)) == Some(ms)
  {
    if ms != [] {
      PairsOfFlat(ms[1..]);
      assert Flat(ms)[2..] == Flat(ms[1..]);
      assert [Member(ms[0].name, ms[0].value)] + ms[1..] == ms;
    }
  }

  /** Replaying any value pushes exactly that value, whatever integer events were chosen. */
  lemma {:induction false} ReplayValue(stack: seq<Value>, v: Value, kindOf: integer -> IntKind)
    ensures Run(stack, Events(v, kindOf)) == Some(stack + [v])
    decreases v, 1
  {
    hide Handle, Run;
    if v.VArray? {
      ReplayArray(stack, v.elements, kindOf);
    } else if v.VObject? {
      ReplayObject(stack, v.members, kindOf);
    } else {
      ReplayScalar(stack, v, kindOf);
    }
  }

  lemma ReplayScalar(stack: seq<Value>, v: Value, kindOf: integer -> IntKind)
    requires !v.VArray? && !v.VObject?
    ensures Run(stack, Events(v, kindOf)) == Some(stack + [v])
  {
    hide Run;
    RunOne(stack, Events(v, kindOf)[0]);
  }

  lemma {:induction false} ReplayArray(stack: seq<Value>, es: seq<Value>, kindOf: integer -> IntKind)
    ensures Run(stack, Events(VArray(es), kindOf)) == Some(stack + [VArray(es)])
    decreases es, 1
  {
    hide Run, Handle;
    var base := stack + [VArray([])];
    RunOne(stack, StartArray);
    assert Handle(stack, StartArray) == Some(base) by { Starts(stack); }
    ReplayElements(base, es, kindOf);
    RunAppend(stack, [StartArray], ElementEvents(es, kindOf));
    RunAppend(stack, [StartArray] + ElementEvents(es, kindOf), [EndArray(|es|)]);
    RunOne(base + es, EndArray(|es|));
    EndsArray(stack, VArray([]), es);
  }

  lemma Starts(stack: seq<Value>)
    ensures Handle(stack, StartArray) == Some(stack + [VArray([])]) &&
            Handle(stack, StartObject) == Some(stack + [VObject([])])
  {
  }

  /** What lies on the stack above and below a container that was started. */
  lemma Slices(stack: seq<Value>, start: Value, vs: seq<Value>)
    ensures var s := stack + [start] + vs;
            |s| == |stack| + 1 + |vs| && s[..|s| - |vs| - 1] == stack && s[|s| - |vs|..] == vs
  {
  }

  /** EndArray pops exactly the elements above the container that was started. */
  lemma EndsArray(stack: seq<Value>, start: Value, es: seq<Value>)
    ensures Handle(stack + [start] + es, EndArray(|es|)) == Some(stack + [VArray(es)])
  {
    Slices(stack, start, es);
  }

  lemma EndsObject(stack: seq<Value>, start: Value, ms: seq<Member>)
    ensures Handle(stack + [start] + Flat(ms), EndObject(|ms|)) == Some(stack + [VObject(ms)])
  {
    PairsOfFlat(ms);
    Slices(stack, start, Flat(ms));
    hide Pairs, Flat;
  }

  lemma {:induction false} ReplayElements(stack: seq<Value>, es: seq<Value>, kindOf: integer -> IntKind)
    ensures Run(stack, ElementEvents(es, kindOf)) == Some(stack + es)
    decreases es, 0
  {
    hide Handle, Events;
    if es == [] {
      assert stack + es == stack;
    } else {
      ReplayValue(stack, es[0], kindOf);
      ReplayElements(stack + [es[0]], es[1..], kindOf);
      RunAppend(stack, Events(es[0], kindOf), ElementEvents(es[1..], kindOf));
      assert stack + [es[0]] + es[1..] == stack + es;
    }
  }

  lemma {:induction false} ReplayObject(stack: seq<Value>, ms: seq<Member>, kindOf: integer -> IntKind)
    ensures Run(stack, Events(VObject(ms), kindOf)) == Some(stack + [VObject(ms)])
    decreases ms, 1
  {
    hide Run, Handle;
    var base := stack + [VObject([])];
    RunOne(stack, StartObject);
    assert Handle(stack, StartObject) == Some(base) by { Starts(stack); }
    ReplayMembers(base, ms, kindOf);
    RunAppend(stack, [StartObject], MemberEvents(ms, kindOf));
    RunAppend(stack, [StartObject] + MemberEvents(ms, kindOf), [EndObject(|ms|)]);
    RunOne(base + Flat(ms), EndObject(|ms|));
    EndsObject(stack, VObject([]), ms);
  }

  lemma {:induction false} ReplayMembers(stack: seq<Value>, ms: seq<Member>, kindOf: integer -> IntKind)
    ensures Run(stack, MemberEvents(ms, kindOf)) == Some(stack + Flat(ms))
    decreases ms, 0
  {
    hide Handle, Events;
    if ms == [] {
      assert stack + [] == stack;
    } else {
      var key, value, rest := [Key(ms[0].name)], Events(ms[0].value, kindOf), MemberEvents(ms[1..], kindOf);
      RunOne(stack, Key(ms[0].name));
      assert Handle(stack, Key(ms[0].name)) == Some(stack + [VString(ms[0].name)]) by { Names(stack, ms[0].name); }
      var named := stack + [VString(ms[0].name)];
      ReplayValue(named, ms[0].value, kindOf);
      RunAppend(stack, key, value);
      ReplayMembers(named + [ms[0].value], ms[1..], kindOf);
      RunAppend(stack, key + value, rest);
      FlatStep(stack, ms);
    }
  }

  lemma FlatStep(stack: seq<Value>, ms: seq<Member>)
    requires ms != []
    ensures stack + [VString(ms[0].name)] + [ms[0].value] + Flat(ms[1..]) == stack + Flat(ms)
  {
  }

  lemma Names(stack: seq<Value>, name: bytes)
    ensures Handle(stack, Key(name)) == Some(stack + [VString(name)])
  {
  }
}
