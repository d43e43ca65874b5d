/** The streaming validator computes the recursive meaning of the schema. */
module SchemaProof {
  import opened Json
  import opened Schema
  import opened SchemaValidator
  import Decimal

  // ----- runs -----

  lemma {:induction false} RunAppend(d: nat, v: Validator, a: seq<Event>, b: seq<Event>)
    ensures Run(d, v, a + b) == Run(d, Run(d, v, a), b)
    decreases |a|
  {
    if a == [] {
      assert a + b == b;
    } else {
      assert (a + b)[1..] == a[1..] + b;
      RunAppend(d, Step(d, v, a[0]), a[1..], b);
    }
  }

  lemma RunOne(d: nat, v: Validator, e: Event)
    ensures Run(d, v, [e]) == Step(d, v, e)
  {
    assert Run(d, Step(d, v, e), [e][1..]) == Step(d, v, e);
  }

  lemma {:induction false} RunInvalid(d: nat, v: Validator, es: seq<Event>)
    requires !v.valid
    ensures Run(d, v, es) == v
    decreases |es|
  {
    if es != [] { RunInvalid(d, v, es[1..]); }
  }

  /** The slots of one context after a sequence of events. */
  function RunSlots(d: nat, us: seq<Validator>, es: seq<Event>): (r: seq<Validator>)
    ensures |r| == |us|
  {
    seq(|us|, j requires 0 <= j < |us| => Run(d, us[j], es))
  }

  /** The open contexts after their slots have seen a sequence of events. */
  function RunContexts(d: nat, cs: seq<Context>, es: seq<Event>): (r: seq<Context>)
    ensures |r| == |cs|
  {
    seq(|cs|, i requires 0 <= i < |cs| => cs[i].(validators := RunSlots(d, cs[i].validators, es)))
  }

  lemma FeedIsRun(d: nat, cs: seq<Context>, e: Event)
    requires d > 0
    ensures Feed(d, cs, e) == RunContexts(d - 1, cs, [e])
  {
    forall i, j | 0 <= i < |cs| && 0 <= j < |cs[i].validators|
      ensures Step(d - 1, cs[i].validators[j], e) == Run(d - 1, cs[i].validators[j], [e])
    {
      RunOne(d - 1, cs[i].validators[j], e);
    }
    forall i | 0 <= i < |cs|
      ensures Feed(d, cs, e)[i] == RunContexts(d - 1, cs, [e])[i]
    {
      assert Feed(d, cs, e)[i].validators == RunSlots(d - 1, cs[i].validators, [e]);
    }
  }

  lemma RunSlotsAppend(d: nat, us: seq<Validator>, a: seq<Event>, b: seq<Event>)
    ensures RunSlots(d, RunSlots(d, us, a), b) == RunSlots(d, us, a + b)
  {
    forall j | 0 <= j < |us|
      ensures RunSlots(d, RunSlots(d, us, a), b)[j] == RunSlots(d, us, a + b)[j]
    {
      RunAppend(d, us[j], a, b);
    }
  }

  lemma RunContextsAppend(d: nat, cs: seq<Context>, a: seq<Event>, b: seq<Event>)
    ensures RunContexts(d, RunContexts(d, cs, a), b) == RunContexts(d, cs, a + b)
  {
    forall i | 0 <= i < |cs|
      ensures RunContexts(d, RunContexts(d, cs, a), b)[i] == RunContexts(d, cs, a + b)[i]
    {
      RunSlotsAppend(d, cs[i].validators, a, b);
    }
  }

  lemma RunContextsSplit(d: nat, cs: seq<Context>, c: Context, es: seq<Event>)
    ensures RunContexts(d, cs + [c], es) == RunContexts(d, cs, es) + [c.(validators := RunSlots(d, c.validators, es))]
  {
  }

  // ----- the document path -----

  lemma {:induction false} PopAppended(path: bytes, token: bytes)
    requires forall i :: 0 <= i < |token| ==> token[i] != SLASH
    ensures PopToken(path + [SLASH] + token) == path
    decreases |token|
  {
    var p := path + [SLASH] + token;
    if token == [] {
      assert p[..|p| - 1] == path;
    } else {
      var t := token[..|token| - 1];
      assert p[..|p| - 1] == path + [SLASH] + t;
      PopAppended(path, t);
    }
  }

  lemma {:induction false} EscapedHasNoSlash(name: bytes)
    ensures forall i :: 0 <= i < |EscapeName(name)| ==> EscapeName(name)[i] != SLASH
  {
    if name != [] { EscapedHasNoSlash(name[1..]); }
  }

  /** EndValue's pop removes exactly the token that Key or BeginValue appended. */
  lemma PopUndoesAppend(path: bytes, name: bytes, index: nat)
    ensures PopToken(AppendToken(path, name)) == path
    ensures PopToken(AppendIndexToken(path, index)) == path
  {
    EscapedHasNoSlash(name);
    PopAppended(path, EscapeName(name));
    Decimal.DigitsRoundTrip(index);
    PopAppended(path, Decimal.Digits(index));
  }

  // ----- the verdict of the parallel validators -----

  lemma {:induction false} CountNone(bs: seq<bool>)
    ensures CountTrue(bs) == 0 <==> AllFalse(bs)
  {
    if bs != [] {
      CountNone(bs[1..]);
      assert bs == [bs[0]] + bs[1..];
    }
  }

  lemma {:induction false} CountOne(bs: seq<bool>)
    ensures CountTrue(bs) == 1 <==> !AllFalse(bs) && forall i, j :: 0 <= i < j < |bs| ==> !(bs[i] && bs[j])
  {
    if bs != [] {
      CountOne(bs[1..]);
      CountNone(bs[1..]);
      assert bs == [bs[0]] + bs[1..];
    }
  }

  /** The slots hold the verdicts of the parallel sub-schemas on v. */
  ghost predicate SlotsHold(c: Context, v: Value) {
    |c.validators| == |Parallel(c.schema)| &&
    forall j :: 0 <= j < |c.validators| ==> (c.validators[j].valid <==> Valid(Parallel(c.schema)[j], v))
  }

  /** The verdicts of a list of schemas on one value. */
  ghost function Verdicts(ss: seq<Schema>, v: Value): (r: seq<bool>)
    ensures |r| == |ss| && forall i :: 0 <= i < |ss| ==> r[i] == Valid(ss[i], v)
  {
    seq(|ss|, i requires 0 <= i < |ss| => Valid(ss[i], v))
  }

  lemma CombinatorVerdicts(s: Schema, v: Value)
    ensures CombinatorsValid(s, v) <==>
            && AllTrue(Verdicts(s.allOf, v))
            && (s.anyOf != [] ==> !AllFalse(Verdicts(s.anyOf, v)))
            && (s.oneOf != [] ==> CountTrue(Verdicts(s.oneOf, v)) == 1)
            && (s.not_.Some? ==> !Valid(s.not_.value, v))
  {
    CountOne(Verdicts(s.oneOf, v));
  }

  lemma RangeHolds(c: Context, v: Value, begin: nat, ss: seq<Schema>)
    requires SlotsHold(c, v)
    requires begin + |ss| <= |Parallel(c.schema)| && Parallel(c.schema)[begin..begin + |ss|] == ss
    ensures SlotRange(c, begin, |ss|) == Verdicts(ss, v)
  {
    forall i | 0 <= i < |ss|
      ensures SlotRange(c, begin, |ss|)[i] == Verdicts(ss, v)[i]
    {
      var p, j := Parallel(c.schema), begin + i;
      assert ss[i] == p[begin..begin + |ss|][i] == p[j];
      assert c.validators[j].valid == Valid(p[j], v);
      assert SlotRange(c, begin, |ss|)[i] == SlotValid(c, j);
      assert Verdicts(ss, v)[i] == Valid(ss[i], v);
    }
  }

  lemma ParallelRanges(s: Schema)
    ensures |Parallel(s)| == DependencyBegin(s) + |DependencySchemas(s.properties)|
    ensures Parallel(s)[0..|s.allOf|] == s.allOf
    ensures Parallel(s)[AnyOfBegin(s)..AnyOfBegin(s) + |s.anyOf|] == s.anyOf
    ensures Parallel(s)[OneOfBegin(s)..OneOfBegin(s) + |s.oneOf|] == s.oneOf
    ensures s.not_.Some? ==> Parallel(s)[NotIndex(s)] == s.not_.value
    ensures Parallel(s)[DependencyBegin(s)..] == DependencySchemas(s.properties)
  {
  }

  /** Schema::EndValue decides exactly allOf, anyOf, oneOf and not. */
  lemma EndValueVerdict(c: Context, v: Value)
    requires SlotsHold(c, v)
    ensures SchemaEndValue(c) <==> CombinatorsValid(c.schema, v)
  {
    hide Valid, CombinatorsValid, SlotRange, Verdicts, CountTrue, AllTrue, AllFalse, Parallel;
    var s := c.schema;
    ParallelRanges(s);
    CombinatorVerdicts(s, v);
    RangeHolds(c, v, 0, s.allOf);
    RangeHolds(c, v, AnyOfBegin(s), s.anyOf);
    RangeHolds(c, v, OneOfBegin(s), s.oneOf);
  }

  // ----- dependency slots -----

  lemma {:induction false} DependencySchemasAppend(a: seq<Property>, b: seq<Property>)
    ensures DependencySchemas(a + b) == DependencySchemas(a) + DependencySchemas(b)
  {
    if a == [] {
      assert a + b == b;
    } else {
      assert (a + b)[1..] == a[1..] + b;
      DependencySchemasAppend(a[1..], b);
    }
  }

  /** The slot that EndObject looks at for properties_[i] holds the validator of its dependency schema. */
  lemma DependencySlotHolds(s: Schema, i: nat)
    requires i < |s.properties| && s.properties[i].dependencies.DependsOn?
    ensures var slot := DependencyBegin(s) + DependencySlot(s.properties, i);
            slot < |Parallel(s)| && Parallel(s)[slot] == s.properties[i].dependencies.schema
  {
    var ps := s.properties;
    assert ps == ps[..i] + ([ps[i]] + ps[i + 1..]);
    DependencySchemasAppend(ps[..i], [ps[i]] + ps[i + 1..]);
    DependencySchemasAppend([ps[i]], ps[i + 1..]);
    assert DependencySchemas([ps[i]]) == [ps[i].dependencies.schema];
    ParallelRanges(s);
    assert DependencySchemas(ps)[DependencySlot(ps, i)] == ps[i].dependencies.schema;
  }

  // ----- one value through an open validator -----

  ghost predicate KindsFit(kindOf: integer -> IntKind) {
    forall n: integer :: KindFits(kindOf(n), n)
  }

  function Below(v: Validator): seq<Context>
    requires v.stack != []
  {
    v.stack[..|v.stack| - 1]
  }

  /** r is v after the events es of the value x, whose context BeginValue pushed in w. */
  ghost predicate ValueDone(d: nat, w: Validator, x: Value, es: seq<Event>, r: Validator)
    requires d > 0 && w.stack != []
  {
    && (r.valid <==> Valid(Top(w).schema, x))
    && (r.valid ==> r.root == w.root && r.stack == RunContexts(d - 1, Below(w), es) && r.path == PopToken(w.path))
  }

  function WithSlots(c: Context, us: seq<Validator>): Context { c.(validators := us) }

  lemma FeedTop(d: nat, v: Validator, c: Context, e: Event)
    requires d > 0 && v.stack != []
    ensures Feed(d, SetTop(v, c).stack, e) ==
            RunContexts(d - 1, Below(v), [e]) + [WithSlots(c, RunSlots(d - 1, c.validators, [e]))]
  {
    FeedIsRun(d, SetTop(v, c).stack, e);
    RunContextsSplit(d - 1, Below(v), c, [e]);
  }

  lemma CloseValue(u: Validator, x: Value)
    requires u.valid && u.stack != [] && SlotsHold(Top(u), x)
    ensures EndValue(u).valid <==> CombinatorsValid(Top(u).schema, x)
    ensures EndValue(u).valid ==> EndValue(u) == u.(stack := Below(u), path := PopToken(u.path))
  {
    EndValueVerdict(Top(u), x);
  }

  predicate IsScalar(x: Value) { !x.VArray? && !x.VObject? }

  lemma ScalarOpen(c: Context, x: Value, kindOf: integer -> IntKind, path: bytes)
    requires IsScalar(x) && KindsFit(kindOf)
    ensures var e := Events(x, kindOf)[0];
            Events(x, kindOf) == [e] && Opens(e) && Closes(e) &&
            SchemaOpen(c, e, path) == if OwnValid(c.schema, x) then Some(CreateParallelValidators(c, path)) else None
  {
    if x.VInt? { assert KindFits(kindOf(x.value), x.value); }
  }

  /** Every slot, created when x begins and fed the events of x, ends with the verdict of its own schema. */
  lemma {:induction false} SlotsVerdict(d: nat, s: Schema, x: Value, kindOf: integer -> IntKind, path: bytes)
    requires Height(s) <= d + 1 && KindsFit(kindOf)
    ensures SlotsHold(WithSlots(NewContext(s), RunSlots(d, NewSlots(s, path), Events(x, kindOf))), x)
    decreases x, d, 1
  {
    forall j | 0 <= j < |Parallel(s)|
      ensures Run(d, NewSlots(s, path)[j], Events(x, kindOf)).valid <==> Valid(Parallel(s)[j], x)
    {
      ParallelHeight(s, j);
      RunValue(d, NewSlots(s, path)[j], x, kindOf);
    }
  }

  function NewSlots(s: Schema, path: bytes): (r: seq<Validator>)
    ensures |r| == |Parallel(s)|
  {
    CreateParallelValidators(NewContext(s), path).validators
  }

  /** v is about to receive a value governed by s; w is v once BeginValue has pushed its context. */
  ghost predicate Ready(d: nat, v: Validator, w: Validator, s: Schema) {
    v.valid && v.root == w.root && BeginValue(v) == Some(w) && Pushed(d, w, s)
  }

  ghost predicate Pushed(d: nat, w: Validator, s: Schema) {
    d > 0 && w.valid && w.stack != [] && Top(w) == NewContext(s) && Height(s) <= d
  }

  lemma {:induction false} RunValue(d: nat, v: Validator, x: Value, kindOf: integer -> IntKind)
    requires d > 0 && v.valid && BeginValue(v).Some? && KindsFit(kindOf)
    requires Height(Top(BeginValue(v).value).schema) <= d
    ensures ValueDone(d, BeginValue(v).value, x, Events(x, kindOf), Run(d, v, Events(x, kindOf)))
    decreases x, d, 0
  {
    var w := BeginValue(v).value;
    var s := Top(w).schema;
    assert Ready(d, v, w, s);
    if IsScalar(x) {
      RunScalar(d, v, w, s, x, kindOf);
    } else if x.VArray? {
      RunArray(d, v, w, s, x, kindOf);
    } else {
      RunObject(d, v, w, s, x, kindOf);
    }
  }

  /** The state in which EndValue is asked: every open context fed, the top one holding its slots. */
  function Fed(d: nat, w: Validator, c: Context, es: seq<Event>): Validator
    requires w.stack != []
  {
    w.(stack := RunContexts(d, Below(w), es) + [WithSlots(c, RunSlots(d, c.validators, es))])
  }

  lemma StepOpen(d: nat, v: Validator, w: Validator, s: Schema, e: Event)
    requires Ready(d, v, w, s) && Opens(e)
    ensures var o := SchemaOpen(NewContext(s), e, w.path);
            Step(d, v, e) ==
              if o.None? then Failed(w)
              else if Closes(e) then EndValue(Fed(d - 1, w, o.value, [e]))
              else Fed(d - 1, w, o.value, [e])
  {
    hide Height;
    var o := SchemaOpen(Top(w), e, w.path);
    if o.Some? { FeedTop(d, w, o.value, e); }
  }

  lemma EndFed(d: nat, w: Validator, c: Context, es: seq<Event>, x: Value)
    requires w.valid && w.stack != [] && c.schema == Top(w).schema
    requires SlotsHold(WithSlots(NewContext(c.schema), RunSlots(d, c.validators, es)), x)
    requires OwnValid(c.schema, x) && ChildrenValid(c.schema, x) && DependenciesValid(c.schema, x)
    ensures ValueDone(d + 1, w, x, es, EndValue(Fed(d, w, c, es)))
  {
    var u := Fed(d, w, c, es);
    assert Below(u) == RunContexts(d, Below(w), es);
    CloseValue(u, x);
  }

  lemma ScalarValid(s: Schema, x: Value)
    requires IsScalar(x)
    ensures Valid(s, x) <==> OwnValid(s, x) && CombinatorsValid(s, x)
    ensures ChildrenValid(s, x) && DependenciesValid(s, x)
  {
  }

  lemma {:induction false} RunScalar(d: nat, v: Validator, w: Validator, s: Schema, x: Value,
                                     kindOf: integer -> IntKind)
    requires Ready(d, v, w, s) && KindsFit(kindOf) && IsScalar(x)
    ensures ValueDone(d, w, x, Events(x, kindOf), Run(d, v, Events(x, kindOf)))
    decreases x, d - 1, 2
  {
    hide Height, Valid, CombinatorsValid, ChildrenValid, OwnValid, BeginValue, Step, EndValue;
    var e := Events(x, kindOf)[0];
    ScalarOpen(NewContext(s), x, kindOf, w.path);
    RunOne(d, v, e);
    StepOpen(d, v, w, s, e);
    ScalarValid(s, x);
    if OwnValid(s, x) {
      SlotsVerdict(d - 1, s, x, kindOf, w.path);
      EndFed(d - 1, w, CreateParallelValidators(NewContext(s), w.path), [e], x);
    }
  }

  lemma FedMore(d: nat, w: Validator, c: Context, a: seq<Event>, b: seq<Event>)
    requires w.stack != []
    ensures RunContexts(d, Fed(d, w, c, a).stack, b) == Fed(d, w, c, a + b).stack
  {
    RunContextsSplit(d, RunContexts(d, Below(w), a), WithSlots(c, RunSlots(d, c.validators, a)), b);
    RunContextsAppend(d, Below(w), a, b);
    RunSlotsAppend(d, c.validators, a, b);
  }

  lemma FeedFed(d: nat, w: Validator, c: Context, es: seq<Event>, e: Event)
    requires d > 0 && w.stack != []
    ensures Feed(d, Fed(d - 1, w, c, es).stack, e) == Fed(d - 1, w, c, es + [e]).stack
  {
    FeedIsRun(d, Fed(d - 1, w, c, es).stack, e);
    FedMore(d - 1, w, c, es, [e]);
  }

  // ----- arrays -----

  ghost predicate ElementsValid(s: Schema, k: nat, es: seq<Value>)
    decreases |es|
  {
    es == [] ||
    (ElementSchema(s, k).Some? && Valid(ElementSchema(s, k).value, es[0]) && ElementsValid(s, k + 1, es[1..]))
  }

  lemma {:induction false} ElementsValidAll(s: Schema, all: seq<Value>, k: nat)
    requires k <= |all|
    ensures ElementsValid(s, k, all[k..]) <==>
            forall i :: k <= i < |all| ==> ElementSchema(s, i).Some? && Valid(ElementSchema(s, i).value, all[i])
    decreases |all| - k
  {
    if k < |all| {
      assert all[k..][1..] == all[k + 1..];
      ElementsValidAll(s, all, k + 1);
    }
  }

  /** The array context once its next element has begun. */
  function NextElement(c: Context): Context {
    var o := ElementSchema(c.schema, c.arrayElementIndex);
    c.(arrayElementIndex := c.arrayElementIndex + 1, valueSchema := if o.Some? then o.value else c.valueSchema)
  }

  function AfterElements(c: Context, n: nat): (r: Context)
    ensures r == c.(arrayElementIndex := r.arrayElementIndex, valueSchema := r.valueSchema)
    decreases n
  {
    if n == 0 then c else AfterElements(NextElement(c), n - 1)
  }

  lemma BeginElement(d: nat, w: Validator, c: Context, pre: seq<Event>)
    requires w.stack != [] && c.inArray
    ensures var b := BeginValue(Fed(d, w, c, pre));
            var o := ElementSchema(c.schema, c.arrayElementIndex);
            && (b.Some? <==> o.Some?)
            && (b.Some? ==>
                  && b.value.root == w.root && b.value.stack != []
                  && Below(b.value) == Fed(d, w, NextElement(c), pre).stack
                  && Top(b.value).schema == o.value
                  && b.value.path == AppendIndexToken(w.path, c.arrayElementIndex))
  {
    var u := Fed(d, w, c, pre);
    assert Below(u) == RunContexts(d, Below(w), pre);
    assert Top(u) == WithSlots(c, RunSlots(d, c.validators, pre));
  }

  lemma RunRefused(d: nat, u: Validator, x: Value, kindOf: integer -> IntKind)
    requires d > 0 && u.valid && BeginValue(u).None?
    ensures !Run(d, u, Events(x, kindOf)).valid
  {
    var es := Events(x, kindOf);
    assert Opens(es[0]);
    RunInvalid(d, Step(d, u, es[0]), es[1..]);
  }

  /** A child value leaves the enclosing contexts where its events take them, and nothing else. */
  lemma {:induction false} RunChild(d: nat, u: Validator, b: Validator, w: Validator, c: Context, pre: seq<Event>,
                                    x: Value, kindOf: integer -> IntKind)
    requires d > 0 && u.valid && w.valid && w.stack != [] && KindsFit(kindOf)
    requires BeginValue(u) == Some(b) && b.stack != [] && Below(b) == Fed(d - 1, w, c, pre).stack
    requires b.root == w.root && PopToken(b.path) == w.path && Height(Top(b).schema) <= d
    ensures var r := Run(d, u, Events(x, kindOf));
            && (r.valid <==> Valid(Top(b).schema, x))
            && (r.valid ==> r == Fed(d - 1, w, c, pre + Events(x, kindOf)))
    decreases x, d, 1
  {
    hide Height, Valid, ChildrenValid, CombinatorsValid, OwnValid;
    RunValue(d, u, x, kindOf);
    FedMore(d - 1, w, c, pre, Events(x, kindOf));
  }

  /** One element: its context comes and goes, and every open context has seen its events. */
  lemma {:induction false} RunElement(d: nat, w: Validator, c: Context, pre: seq<Event>, x: Value,
                                      kindOf: integer -> IntKind)
    requires d > 0 && w.valid && w.stack != [] && c.inArray && KindsFit(kindOf) && Height(c.schema) <= d
    ensures var o := ElementSchema(c.schema, c.arrayElementIndex);
            var r := Run(d, Fed(d - 1, w, c, pre), Events(x, kindOf));
            && (r.valid <==> o.Some? && Valid(o.value, x))
            && (r.valid ==> r == Fed(d - 1, w, NextElement(c), pre + Events(x, kindOf)))
    decreases x, d, 2
  {
    hide Height, Valid, ChildrenValid, CombinatorsValid, OwnValid;
    var u, k := Fed(d - 1, w, c, pre), c.arrayElementIndex;
    BeginElement(d - 1, w, c, pre);
    if BeginValue(u).None? {
      RunRefused(d, u, x, kindOf);
    } else {
      ChildHeight(c.schema, [], k);
      PopUndoesAppend(w.path, [], k);
      RunChild(d, u, BeginValue(u).value, w, NextElement(c), pre, x, kindOf);
    }
  }

  lemma {:induction false} RunElements(d: nat, w: Validator, c: Context, pre: seq<Event>, es: seq<Value>,
                                       kindOf: integer -> IntKind)
    requires d > 0 && w.valid && w.stack != [] && c.inArray && KindsFit(kindOf) && Height(c.schema) <= d
    ensures var r := Run(d, Fed(d - 1, w, c, pre), ElementEvents(es, kindOf));
            && (r.valid <==> ElementsValid(c.schema, c.arrayElementIndex, es))
            && (r.valid ==> r == Fed(d - 1, w, AfterElements(c, |es|), pre + ElementEvents(es, kindOf)))
    decreases es, d, 3
  {
    hide Height, Valid, RunContexts, Step;
    var u := Fed(d - 1, w, c, pre);
    if es == [] {
      assert pre + [] == pre;
    } else {
      var e, rest := Events(es[0], kindOf), ElementEvents(es[1..], kindOf);
      RunAppend(d, u, e, rest);
      RunElement(d, w, c, pre, es[0], kindOf);
      var r := Run(d, u, e);
      if r.valid {
        RunElements(d, w, NextElement(c), pre + e, es[1..], kindOf);
        assert pre + e + rest == pre + (e + rest);
      } else {
        RunInvalid(d, r, rest);
      }
    }
  }

  lemma StepEndArray(d: nat, w: Validator, c: Context, pre: seq<Event>, n: nat)
    requires d > 0 && w.valid && w.stack != []
    ensures var e := EndArray(n);
            var u := Fed(d - 1, w, c.(inArray := false), pre + [e]);
            Step(d, Fed(d - 1, w, c, pre), e) == if SchemaEndArray(c, n) then EndValue(u) else Failed(u)
  {
    FeedFed(d, w, c, pre, EndArray(n));
    var u := Fed(d - 1, w, c, pre + [EndArray(n)]);
    assert SetTop(u, Top(u).(inArray := false)) == Fed(d - 1, w, c.(inArray := false), pre + [EndArray(n)]);
  }

  /** The context after StartArray, before its slots see the event. */
  function ArrayContext(s: Schema, path: bytes): Context {
    CreateParallelValidators(NewContext(s).(inArray := true, arrayElementIndex := 0), path)
  }

  lemma ArrayValid(s: Schema, x: Value)
    requires x.VArray?
    ensures Valid(s, x) ==>
            ArrayType in s.types && ElementsValid(s, 0, x.elements) && SchemaEndArray(NewContext(s), |x.elements|)
    ensures ElementsValid(s, 0, x.elements) <==> ChildrenValid(s, x)
    ensures OwnValid(s, x) <==> ArrayType in s.types && SchemaEndArray(NewContext(s), |x.elements|)
    ensures DependenciesValid(s, x)
  {
    ElementsValidAll(s, x.elements, 0);
    assert x.elements[0..] == x.elements;
    assert Valid(s, x) ==> OwnValid(s, x) && ChildrenValid(s, x);
    assert ChildrenValid(s, x) <==>
      forall i :: 0 <= i < |x.elements| ==>
      ElementSchema(s, i).Some? && Valid(ElementSchema(s, i).value, x.elements[i]);
  }

  lemma {:induction false} RunArray(d: nat, v: Validator, w: Validator, s: Schema, x: Value, kindOf: integer -> IntKind)
    requires Ready(d, v, w, s) && KindsFit(kindOf) && x.VArray?
    ensures ValueDone(d, w, x, Events(x, kindOf), Run(d, v, Events(x, kindOf)))
    decreases x, d - 1, 3
  {
    hide Height, Valid, ChildrenValid, OwnValid, CombinatorsValid, BeginValue, Step;
    var es, e := x.elements, ElementEvents(x.elements, kindOf);
    assert Events(x, kindOf) == [StartArray] + e + [EndArray(|es|)];
    StepOpen(d, v, w, s, StartArray);
    RunThree(d, v, StartArray, e, EndArray(|es|));
    ArrayValid(s, x);
    var u := Step(d, v, StartArray);
    assert ArrayType in s.types ==> u == Fed(d - 1, w, ArrayContext(s, w.path), [StartArray]);
    if ArrayType !in s.types {
      RunInvalid(d, u, e);
      RunInvalid(d, u, [EndArray(|es|)]);
      RunOne(d, u, EndArray(|es|));
    } else {
      RunElements(d, w, ArrayContext(s, w.path), [StartArray], es, kindOf);
      var r := Run(d, u, e);
      if r.valid {
        FinishArray(d, w, s, x, kindOf);
      } else {
        RunInvalid(d, r, [EndArray(|es|)]);
        RunOne(d, r, EndArray(|es|));
      }
    }
  }

  lemma RunThree(d: nat, v: Validator, first: Event, es: seq<Event>, last: Event)
    ensures Run(d, v, [first] + es + [last]) == Step(d, Run(d, Step(d, v, first), es), last)
  {
    RunAppend(d, v, [first] + es, [last]);
    RunAppend(d, v, [first], es);
    RunOne(d, v, first);
    RunOne(d, Run(d, Step(d, v, first), es), last);
  }

  lemma {:induction false} FinishArray(d: nat, w: Validator, s: Schema, x: Value, kindOf: integer -> IntKind)
    requires Pushed(d, w, s) && KindsFit(kindOf) && x.VArray?
    requires ArrayType in s.types && ChildrenValid(s, x)
    ensures var n := |x.elements|;
            var u := Fed(d - 1, w, AfterElements(ArrayContext(s, w.path), n),
                         [StartArray] + ElementEvents(x.elements, kindOf));
            ValueDone(d, w, x, Events(x, kindOf), Step(d, u, EndArray(n)))
    decreases x, d - 1, 2
  {
    hide Height, Valid, ChildrenValid, OwnValid, CombinatorsValid, BeginValue, Step, EndValue;
    var n := |x.elements|;
    var c := AfterElements(ArrayContext(s, w.path), n);
    StepEndArray(d, w, c, [StartArray] + ElementEvents(x.elements, kindOf), n);
    ArrayValid(s, x);
    if SchemaEndArray(c, n) {
      SlotsVerdict(d - 1, s, x, kindOf, w.path);
      EndFed(d - 1, w, c.(inArray := false), Events(x, kindOf), x);
    }
  }

  // ----- objects -----

  ghost predicate MembersValid(s: Schema, ms: seq<Member>)
    decreases |ms|
  {
    ms == [] ||
    (MemberSchema(s, ms[0].name).Some? && Valid(MemberSchema(s, ms[0].name).value, ms[0].value) &&
     MembersValid(s, ms[1..]))
  }

  lemma {:induction false} MembersValidAll(s: Schema, all: seq<Member>, k: nat)
    requires k <= |all|
    ensures MembersValid(s, all[k..]) <==>
            forall i :: k <= i < |all| ==>
              MemberSchema(s, all[i].name).Some? && Valid(MemberSchema(s, all[i].name).value, all[i].value)
    decreases |all| - k
  {
    if k < |all| {
      assert all[k..][1..] == all[k + 1..];
      MembersValidAll(s, all, k + 1);
    }
  }

  /** The object context once the next key has been seen. */
  function NextMember(c: Context, name: bytes): (r: Context)
    ensures r.schema == c.schema && r.inArray == c.inArray && r.validators == c.validators
  {
    match SchemaKey(c, name) case None => c case Some(c') => c'
  }

  function AfterMembers(c: Context, ms: seq<Member>): (r: Context)
    ensures r.schema == c.schema && r.inArray == c.inArray && r.validators == c.validators
    decreases |ms|
  {
    if ms == [] then c else AfterMembers(NextMember(c, ms[0].name), ms[1..])
  }

  function AtPath(w: Validator, path: bytes): Validator { w.(path := path) }

  lemma StepKey(d: nat, w: Validator, c: Context, pre: seq<Event>, name: bytes)
    requires d > 0 && w.valid && w.stack != []
    ensures SchemaKey(c, name).Some? <==> MemberSchema(c.schema, name).Some?
    ensures SchemaKey(c, name).Some? ==> NextMember(c, name).valueSchema == MemberSchema(c.schema, name).value
    ensures var r := Step(d, Fed(d - 1, w, c, pre), Key(name));
            if SchemaKey(c, name).None? then !r.valid
            else r == Fed(d - 1, AtPath(w, AppendToken(w.path, name)), NextMember(c, name), pre + [Key(name)])
  {
    var u := Fed(d - 1, w, c, pre);
    if SchemaKey(c, name).Some? {
      var c' := NextMember(c, name);
      FeedFed(d, w, c', pre, Key(name));
      assert SetTop(u, WithSlots(c', Top(u).validators)).stack == Fed(d - 1, w, c', pre).stack;
    }
  }

  lemma BeginMember(d: nat, w: Validator, c: Context, pre: seq<Event>)
    requires w.stack != [] && !c.inArray
    ensures var u := Fed(d, w, c, pre);
            BeginValue(u) == Some(u.(stack := u.stack + [NewContext(c.valueSchema)]))
  {
    var u := Fed(d, w, c, pre);
    assert u.stack == Below(u) + [Top(u)];
    assert Below(u) + [Top(u), NewContext(c.valueSchema)] == u.stack + [NewContext(c.valueSchema)];
  }

  /** One member: the key, then its value. */
  lemma {:induction false} RunMember(d: nat, w: Validator, c: Context, pre: seq<Event>, m: Member,
                                     kindOf: integer -> IntKind)
    requires d > 0 && w.valid && w.stack != [] && !c.inArray && KindsFit(kindOf) && Height(c.schema) <= d
    ensures var o := MemberSchema(c.schema, m.name);
            var es := [Key(m.name)] + Events(m.value, kindOf);
            var r := Run(d, Fed(d - 1, w, c, pre), es);
            && (r.valid <==> o.Some? && Valid(o.value, m.value))
            && (r.valid ==> r == Fed(d - 1, w, NextMember(c, m.name), pre + es))
    decreases m.value, d, 2
  {
    hide Height, Valid, ChildrenValid, CombinatorsValid, OwnValid, RunContexts, RunSlots, Run, Step;
    var u, e := Fed(d - 1, w, c, pre), Events(m.value, kindOf);
    StepKey(d, w, c, pre, m.name);
    RunAppend(d, u, [Key(m.name)], e);
    RunOne(d, u, Key(m.name));
    var r := Step(d, u, Key(m.name));
    if r.valid {
      var c' := NextMember(c, m.name);
      BeginMember(d - 1, AtPath(w, AppendToken(w.path, m.name)), c', pre + [Key(m.name)]);
      ChildHeight(c.schema, m.name, 0);
      PopUndoesAppend(w.path, m.name, 0);
      RunChild(d, r, BeginValue(r).value, w, c', pre + [Key(m.name)], m.value, kindOf);
      assert pre + [Key(m.name)] + e == pre + ([Key(m.name)] + e);
    } else {
      RunInvalid(d, r, e);
    }
  }

  lemma {:induction false} RunMembers(d: nat, w: Validator, c: Context, pre: seq<Event>, ms: seq<Member>,
                                      kindOf: integer -> IntKind)
    requires d > 0 && w.valid && w.stack != [] && !c.inArray && KindsFit(kindOf) && Height(c.schema) <= d
    ensures var r := Run(d, Fed(d - 1, w, c, pre), MemberEvents(ms, kindOf));
            && (r.valid <==> MembersValid(c.schema, ms))
            && (r.valid ==> r == Fed(d - 1, w, AfterMembers(c, ms), pre + MemberEvents(ms, kindOf)))
    decreases ms, d, 3
  {
    hide Height, Valid, RunContexts, Step;
    var u := Fed(d - 1, w, c, pre);
    if ms == [] {
      assert pre + [] == pre;
    } else {
      var e, rest := [Key(ms[0].name)] + Events(ms[0].value, kindOf), MemberEvents(ms[1..], kindOf);
      RunAppend(d, u, e, rest);
      RunMember(d, w, c, pre, ms[0], kindOf);
      var r := Run(d, u, e);
      if r.valid {
        RunMembers(d, w, NextMember(c, ms[0].name), pre + e, ms[1..], kindOf);
        assert pre + e + rest == pre + (e + rest);
      } else {
        RunInvalid(d, r, rest);
      }
    }
  }

  // ----- which properties have been seen -----

  /** propertyExist, when it was allocated, marks exactly the entries found for the members so far. */
  ghost predicate Marks(c: Context, ms: seq<Member>) {
    var ps := c.schema.properties;
    (HasRequired(c.schema) || HasDependencies(c.schema)) ==>
      |c.propertyExist| == |ps| && forall i :: 0 <= i < |ps| ==> (c.propertyExist[i] <==> Present(ps, i, ms))
  }

  lemma {:induction false} MarksAfter(c: Context, done: seq<Member>, ms: seq<Member>)
    requires Marks(c, done) && MembersValid(c.schema, ms)
    ensures Marks(AfterMembers(c, ms), done + ms)
    decreases |ms|
  {
    if ms == [] {
      assert done + [] == done;
    } else {
      MarksNext(c, done, ms[0]);
      MarksAfter(NextMember(c, ms[0].name), done + [ms[0]], ms[1..]);
      assert done + [ms[0]] + ms[1..] == done + ms;
    }
  }

  lemma MarksNext(c: Context, done: seq<Member>, m: Member)
    requires Marks(c, done) && MemberSchema(c.schema, m.name).Some?
    ensures Marks(NextMember(c, m.name), done + [m])
  {
    var ps := c.schema.properties;
    forall i | 0 <= i < |ps|
      ensures Present(ps, i, done + [m]) <==> Present(ps, i, done) || FindPropertyIndex(ps, m.name) == i
    {
      if Present(ps, i, done) {
        var k :| 0 <= k < |done| && FindPropertyIndex(ps, done[k].name) == i;
        assert (done + [m])[k] == done[k];
      }
      assert (done + [m])[|done|] == m;
    }
  }

  // ----- the end of an object -----

  lemma StepEndObject(d: nat, w: Validator, c: Context, pre: seq<Event>, n: nat)
    requires d > 0 && w.valid && w.stack != []
    ensures var e := EndObject(n);
            var u := Fed(d - 1, w, c, pre + [e]);
            Step(d, Fed(d - 1, w, c, pre), e) == if SchemaEndObject(Top(u), n) then EndValue(u) else Failed(u)
  {
    FeedFed(d, w, c, pre, EndObject(n));
  }

  /** Schema::EndObject decides required, the property counts and the dependencies. */
  lemma EndObjectVerdict(c: Context, x: Value)
    requires x.VObject? && SlotsHold(c, x) && Marks(c, x.members) && ObjectType in c.schema.types
    ensures SchemaEndObject(c, |x.members|) <==> OwnValid(c.schema, x) && DependenciesValid(c.schema, x)
  {
    var s, ps, ms := c.schema, c.schema.properties, x.members;
    RequiredVerdict(c, ms);
    DependenciesVerdict(c, x);
  }

  lemma RequiredVerdict(c: Context, ms: seq<Member>)
    requires Marks(c, ms)
    ensures (HasRequired(c.schema) ==> NoMissingProperty(c)) <==>
            (forall i :: 0 <= i < |c.schema.properties| ==> RequirementMet(c.schema.properties, i, ms))
  {
    var ps := c.schema.properties;
    if HasRequired(c.schema) {
      assert forall i :: 0 <= i < |ps| ==> (Exists(c, i) <==> Present(ps, i, ms));
      assert forall i :: 0 <= i < |ps| ==> (RequirementMet(ps, i, ms) <==>
        !(ps[i].required && !Exists(c, i) && ps[i].schema.defaultValueLength == 0));
    }
  }

  lemma DependenciesVerdict(c: Context, x: Value)
    requires x.VObject? && SlotsHold(c, x) && Marks(c, x.members)
    ensures (HasDependencies(c.schema) ==> forall i :: 0 <= i < |c.schema.properties| ==> DependencyMet(c, i)) <==>
            (forall i :: 0 <= i < |c.schema.properties| ==> NamesPresent(c.schema.properties, i, x.members)) &&
            DependenciesValid(c.schema, x)
  {
    var s, ps, ms := c.schema, c.schema.properties, x.members;
    if HasDependencies(s) {
      forall i | 0 <= i < |ps|
        ensures DependencyMet(c, i) <==>
                NamesPresent(ps, i, ms) &&
                (ps[i].dependencies.DependsOn? ==> Present(ps, i, ms) ==> Valid(ps[i].dependencies.schema, x))
      {
        DependencyVerdict(c, x, i);
      }
    }
  }

  lemma DependencyVerdict(c: Context, x: Value, i: nat)
    requires x.VObject? && SlotsHold(c, x) && Marks(c, x.members) && HasDependencies(c.schema)
    requires i < |c.schema.properties|
    ensures var ps := c.schema.properties;
            DependencyMet(c, i) <==>
            NamesPresent(ps, i, x.members) &&
            (ps[i].dependencies.DependsOn? ==> Present(ps, i, x.members) ==> Valid(ps[i].dependencies.schema, x))
  {
    var s, ps := c.schema, c.schema.properties;
    assert forall j :: 0 <= j < |ps| ==> (Exists(c, j) <==> Present(ps, j, x.members));
    if ps[i].dependencies.DependsOn? {
      DependencySlotHolds(s, i);
      var slot := DependencyBegin(s) + DependencySlot(ps, i);
      assert c.validators[slot].valid <==> Valid(Parallel(s)[slot], x);
    }
  }

  /** The context after StartObject, before its slots see the event. */
  function ObjectContext(s: Schema, path: bytes): Context {
    var exist := if HasDependencies(s) || HasRequired(s) then seq(|s.properties|, _ => false) else [];
    CreateParallelValidators(NewContext(s).(propertyExist := exist), path)
  }

  lemma ObjectValid(s: Schema, x: Value)
    requires x.VObject?
    ensures Valid(s, x) ==> ObjectType in s.types && MembersValid(s, x.members)
    ensures MembersValid(s, x.members) <==> ChildrenValid(s, x)
  {
    MembersValidAll(s, x.members, 0);
    assert x.members[0..] == x.members;
    assert Valid(s, x) ==> OwnValid(s, x) && ChildrenValid(s, x);
    assert ChildrenValid(s, x) <==>
      forall i :: 0 <= i < |x.members| ==>
        MemberSchema(s, x.members[i].name).Some? && Valid(MemberSchema(s, x.members[i].name).value, x.members[i].value);
  }

  lemma {:induction false} RunObject(d: nat, v: Validator, w: Validator, s: Schema, x: Value,
                                     kindOf: integer -> IntKind)
    requires Ready(d, v, w, s) && KindsFit(kindOf) && x.VObject?
    ensures ValueDone(d, w, x, Events(x, kindOf), Run(d, v, Events(x, kindOf)))
    decreases x, d - 1, 3
  {
    hide Height, Valid, ChildrenValid, OwnValid, CombinatorsValid, BeginValue, Step;
    var ms, e := x.members, MemberEvents(x.members, kindOf);
    assert Events(x, kindOf) == [StartObject] + e + [EndObject(|ms|)];
    StepOpen(d, v, w, s, StartObject);
    RunThree(d, v, StartObject, e, EndObject(|ms|));
    ObjectValid(s, x);
    var u := Step(d, v, StartObject);
    assert ObjectType in s.types ==> u == Fed(d - 1, w, ObjectContext(s, w.path), [StartObject]);
    if ObjectType !in s.types {
      RunInvalid(d, u, e);
      RunInvalid(d, u, [EndObject(|ms|)]);
      RunOne(d, u, EndObject(|ms|));
    } else {
      RunMembers(d, w, ObjectContext(s, w.path), [StartObject], ms, kindOf);
      var r := Run(d, u, e);
      if r.valid {
        FinishObject(d, w, s, x, kindOf);
      } else {
        RunInvalid(d, r, [EndObject(|ms|)]);
        RunOne(d, r, EndObject(|ms|));
      }
    }
  }

  lemma MarksAll(s: Schema, path: bytes, ms: seq<Member>)
    requires MembersValid(s, ms)
    ensures Marks(AfterMembers(ObjectContext(s, path), ms), ms)
  {
    MarksAfter(ObjectContext(s, path), [], ms);
    assert [] + ms == ms;
  }

  lemma {:induction false} FinishObject(d: nat, w: Validator, s: Schema, x: Value, kindOf: integer -> IntKind)
    requires Pushed(d, w, s) && KindsFit(kindOf) && x.VObject?
    requires ObjectType in s.types && ChildrenValid(s, x)
    ensures var n := |x.members|;
            var u := Fed(d - 1, w, AfterMembers(ObjectContext(s, w.path), x.members),
                         [StartObject] + MemberEvents(x.members, kindOf));
            ValueDone(d, w, x, Events(x, kindOf), Step(d, u, EndObject(n)))
    decreases x, d - 1, 2
  {
    hide Height, Valid, ChildrenValid, OwnValid, CombinatorsValid, BeginValue, Step, EndValue;
    var c := AfterMembers(ObjectContext(s, w.path), x.members);
    var pre := [StartObject] + MemberEvents(x.members, kindOf);
    assert Events(x, kindOf) == pre + [EndObject(|x.members|)];
    StepEndObject(d, w, c, pre, |x.members|);
    ObjectValid(s, x);
    MarksAll(s, w.path, x.members);
    assert c.schema == s && c.validators == NewSlots(s, w.path);
    SlotsVerdict(d - 1, s, x, kindOf, w.path);
    EndObjectFed(d - 1, w, c, Events(x, kindOf), x);
  }

  lemma EndObjectFed(d: nat, w: Validator, c: Context, es: seq<Event>, x: Value)
    requires w.valid && w.stack != [] && c.schema == Top(w).schema && x.VObject?
    requires SlotsHold(WithSlots(NewContext(c.schema), RunSlots(d, c.validators, es)), x)
    requires Marks(c, x.members) && ObjectType in c.schema.types && ChildrenValid(c.schema, x)
    ensures var u := Fed(d, w, c, es);
            ValueDone(d + 1, w, x, es, if SchemaEndObject(Top(u), |x.members|) then EndValue(u) else Failed(u))
  {
    var u := Fed(d, w, c, es);
    var t := WithSlots(c, RunSlots(d, c.validators, es));
    assert Top(u) == t;
    EndObjectVerdict(t, x);
    if SchemaEndObject(t, |x.members|) {
      EndFed(d, w, c, es, x);
    }
  }

  // ----- the main theorems -----

  /** Streaming validation of any value against any schema gives the recursive verdict. */
  lemma StreamingIsRecursive(s: Schema, x: Value, kindOf: integer -> IntKind, path: bytes)
    requires KindsFit(kindOf)
    ensures Run(Height(s), NewValidator(s, path), Events(x, kindOf)).valid <==> Valid(s, x)
  {
    RunValue(Height(s), NewValidator(s, path), x, kindOf);
  }
}
