/** The document stack always names the value being validated (rapidjson/schema.h,
    documentStack_). Locations are lists of member names and element indices. */
module SchemaPaths {
  import opened Json
  import opened Schema
  import opened SchemaValidator
  import opened SchemaProof
  import Decimal

  /** A location as text: each token after a slash, escaped. */
  function PathOf(names: seq<bytes>): bytes {
    if names == [] then [] else AppendToken(PathOf(names[..|names| - 1]), names[|names| - 1])
  }

  /** The locations of a value and everything in it: once when a value begins and,
      for arrays and objects, again when it ends. */
  function Locations(x: Value, at: seq<bytes>): seq<seq<bytes>> {
    match x
    case VArray(es) => [at] + ElementLocations(es, at, 0) + [at]
    case VObject(ms) => [at] + MemberLocations(ms, at) + [at]
    case _ => [at]
  }

  function ElementLocations(es: seq<Value>, at: seq<bytes>, k: nat): seq<seq<bytes>> {
    if es == [] then [] else Locations(es[0], at + [Decimal.Digits(k)]) + ElementLocations(es[1..], at, k + 1)
  }

  function MemberLocations(ms: seq<Member>, at: seq<bytes>): seq<seq<bytes>> {
    if ms == [] then [] else Locations(ms[0].value, at + [ms[0].name]) + MemberLocations(ms[1..], at)
  }

  /** The document stack at every BeginValue (once the token is appended) and at the
      EndValue of every array and object (before its token is popped). */
  function PathLog(d: nat, v: Validator, es: seq<Event>): seq<bytes>
    decreases |es|
  {
    if es == [] then []
    else Logged(d, v, es[0]) + PathLog(d, Step(d, v, es[0]), es[1..])
  }

  function Logged(d: nat, v: Validator, e: Event): seq<bytes> {
    if d == 0 || !v.valid then []
    else if Opens(e) then (match BeginValue(v) case None => [] case Some(w) => [w.path])
    else if e.Key? then []
    else [v.path]
  }

  function Paths(locations: seq<seq<bytes>>): (r: seq<bytes>)
    ensures |r| == |locations|
  {
    seq(|locations|, i requires 0 <= i < |locations| => PathOf(locations[i]))
  }

  lemma {:induction false} LogAppend(d: nat, v: Validator, a: seq<Event>, b: seq<Event>)
    ensures PathLog(d, v, a + b) == PathLog(d, v, a) + PathLog(d, Run(d, v, a), b)
    decreases |a|
  {
    if a == [] {
      assert a + b == b;
    } else {
      assert (a + b)[1..] == a[1..] + b;
      LogAppend(d, Step(d, v, a[0]), a[1..], b);
    }
  }

  lemma {:induction false} LogInvalid(d: nat, v: Validator, es: seq<Event>)
    requires !v.valid
    ensures PathLog(d, v, es) == []
    decreases |es|
  {
    if es != [] { LogInvalid(d, v, es[1..]); }
  }

  lemma LogOne(d: nat, v: Validator, e: Event)
    ensures PathLog(d, v, [e]) == Logged(d, v, e)
  {
    assert PathLog(d, Step(d, v, e), [e][1..]) == [];
  }

  /** A log that follows the expected one, completely if the run stayed valid. */
  ghost predicate Follows(log: seq<bytes>, expected: seq<seq<bytes>>, valid: bool) {
    log <= Paths(expected) && (valid ==> log == Paths(expected))
  }

  lemma FollowsAppend(a: seq<bytes>, A: seq<seq<bytes>>, validA: bool, b: seq<bytes>, B: seq<seq<bytes>>, validB: bool)
    requires Follows(a, A, validA) && Follows(b, B, validB)
    requires !validA ==> b == [] && !validB
    ensures Follows(a + b, A + B, validB)
  {
    assert Paths(A + B) == Paths(A) + Paths(B);
    if !validA { assert a + b == a; }
  }

  lemma {:induction false} IndexNeedsNoEscape(ds: bytes)
    requires forall i :: 0 <= i < |ds| ==> Decimal.IsDigit(ds[i])
    ensures EscapeName(ds) == ds
  {
    if ds != [] { IndexNeedsNoEscape(ds[1..]); }
  }

  lemma PathOfChild(at: seq<bytes>, name: bytes, k: nat)
    ensures PathOf(at + [name]) == AppendToken(PathOf(at), name)
    ensures PathOf(at + [Decimal.Digits(k)]) == AppendIndexToken(PathOf(at), k)
  {
    Decimal.DigitsRoundTrip(k);
    IndexNeedsNoEscape(Decimal.Digits(k));
    assert (at + [name])[..|at|] == at;
    assert (at + [Decimal.Digits(k)])[..|at|] == at;
  }

  lemma {:induction false} LogValue(d: nat, v: Validator, x: Value, kindOf: integer -> IntKind, at: seq<bytes>)
    requires d > 0 && v.valid && BeginValue(v).Some? && KindsFit(kindOf)
    requires Height(Top(BeginValue(v).value).schema) <= d && BeginValue(v).value.path == PathOf(at)
    ensures Follows(PathLog(d, v, Events(x, kindOf)), Locations(x, at), Run(d, v, Events(x, kindOf)).valid)
    decreases x, 2
  {
    var es := Events(x, kindOf);
    if IsScalar(x) {
      ScalarOpen(Top(BeginValue(v).value), x, kindOf, BeginValue(v).value.path);
      LogOne(d, v, es[0]);
    } else {
      var w := BeginValue(v).value;
      var mid, s := es[1..|es| - 1], Top(w).schema;
      assert es == [es[0]] + mid + [es[|es| - 1]];
      assert Ready(d, v, w, s);
      RunThree(d, v, es[0], mid, es[|es| - 1]);
      LogThree(d, v, es[0], mid, es[|es| - 1]);
      if x.VArray? {
        assert mid == ElementEvents(x.elements, kindOf);
        LogArray(d, v, w, s, x, kindOf, at);
      } else {
        assert mid == MemberEvents(x.members, kindOf);
        LogObject(d, v, w, s, x, kindOf, at);
      }
    }
  }

  lemma LogThree(d: nat, v: Validator, first: Event, mid: seq<Event>, last: Event)
    ensures PathLog(d, v, [first] + mid + [last]) ==
            Logged(d, v, first) + PathLog(d, Step(d, v, first), mid) + Logged(d, Run(d, Step(d, v, first), mid), last)
  {
    LogAppend(d, v, [first] + mid, [last]);
    LogAppend(d, v, [first], mid);
    LogOne(d, v, first);
    RunAppend(d, v, [first], mid);
    RunOne(d, v, first);
    LogOne(d, Run(d, v, [first] + mid), last);
  }

  lemma ContainerLog(at: seq<bytes>, log: seq<bytes>, inner: seq<seq<bytes>>, innerValid: bool, last: seq<bytes>,
                     valid: bool)
    requires Follows(log, inner, innerValid)
    requires innerValid ==> last == [PathOf(at)]
    requires !innerValid ==> last == [] && !valid
    ensures Follows([PathOf(at)] + log + last, [at] + inner + [at], valid)
  {
    assert Paths([at]) == [PathOf(at)];
    FollowsAppend([PathOf(at)], [at], true, log, inner, innerValid);
    FollowsAppend([PathOf(at)] + log, [at] + inner, innerValid, last, [at], innerValid && valid);
  }

  lemma {:induction false} LogArray(d: nat, v: Validator, w: Validator, s: Schema, x: Value, kindOf: integer -> IntKind,
                                    at: seq<bytes>)
    requires Ready(d, v, w, s) && KindsFit(kindOf) && x.VArray? && w.path == PathOf(at)
    ensures var u := Step(d, v, StartArray);
            var e := ElementEvents(x.elements, kindOf);
            var r := Run(d, u, e);
            var last := EndArray(|x.elements|);
            Follows(Logged(d, v, StartArray) + PathLog(d, u, e) + Logged(d, r, last), Locations(x, at),
                    Step(d, r, last).valid)
    decreases x, 1
  {
    hide Height, Step, Run, RunContexts, PathLog, Follows, PathOf, Valid, ElementEvents, ElementsValid, SchemaEndValue,
         EscapeName;
    var u, es, e := Step(d, v, StartArray), x.elements, ElementEvents(x.elements, kindOf);
    StepOpen(d, v, w, s, StartArray);
    var r := Run(d, u, e);
    if u.valid {
      RunElements(d, w, ArrayContext(s, w.path), [StartArray], es, kindOf);
      LogElements(d, w, ArrayContext(s, w.path), [StartArray], es, kindOf, at);
    } else {
      RunInvalid(d, u, e);
      LogInvalid(d, u, e);
    }
    if !r.valid { RunInvalid(d, r, [EndArray(|es|)]); RunOne(d, r, EndArray(|es|)); }
    ContainerLog(at, PathLog(d, u, e), ElementLocations(es, at, 0), r.valid, Logged(d, r, EndArray(|es|)),
                 Step(d, r, EndArray(|es|)).valid);
  }

  lemma {:induction false} LogElements(d: nat, w: Validator, c: Context, pre: seq<Event>, es: seq<Value>,
                                       kindOf: integer -> IntKind, at: seq<bytes>)
    requires d > 0 && w.valid && w.stack != [] && c.inArray && KindsFit(kindOf) && Height(c.schema) <= d
    requires w.path == PathOf(at)
    ensures var u := Fed(d - 1, w, c, pre);
            var e := ElementEvents(es, kindOf);
            Follows(PathLog(d, u, e), ElementLocations(es, at, c.arrayElementIndex), Run(d, u, e).valid)
    decreases es, 3
  {
    var u := Fed(d - 1, w, c, pre);
    if es != [] {
      var e, rest := Events(es[0], kindOf), ElementEvents(es[1..], kindOf);
      var k := c.arrayElementIndex;
      LogAppend(d, u, e, rest);
      RunAppend(d, u, e, rest);
      LogElement(d, w, c, pre, es[0], kindOf, at);
      RunElement(d, w, c, pre, es[0], kindOf);
      var r := Run(d, u, e);
      if r.valid {
        LogElements(d, w, NextElement(c), pre + e, es[1..], kindOf, at);
      } else {
        RunInvalid(d, r, rest);
        LogInvalid(d, r, rest);
      }
      FollowsAppend(PathLog(d, u, e), Locations(es[0], at + [Decimal.Digits(k)]), r.valid,
                    PathLog(d, r, rest), ElementLocations(es[1..], at, k + 1), Run(d, r, rest).valid);
    }
  }

  lemma {:induction false} LogElement(d: nat, w: Validator, c: Context, pre: seq<Event>, x: Value,
                                      kindOf: integer -> IntKind, at: seq<bytes>)
    requires d > 0 && w.valid && w.stack != [] && c.inArray && KindsFit(kindOf) && Height(c.schema) <= d
    requires w.path == PathOf(at)
    ensures var u := Fed(d - 1, w, c, pre);
            var e := Events(x, kindOf);
            Follows(PathLog(d, u, e), Locations(x, at + [Decimal.Digits(c.arrayElementIndex)]), Run(d, u, e).valid)
    decreases x, 3
  {
    hide Height;
    var u, e, k := Fed(d - 1, w, c, pre), Events(x, kindOf), c.arrayElementIndex;
    BeginElement(d - 1, w, c, pre);
    if BeginValue(u).None? {
      RunRefused(d, u, x, kindOf);
      LogInvalid(d, Step(d, u, e[0]), e[1..]);
    } else {
      ChildHeight(c.schema, [], k);
      PathOfChild(at, [], k);
      LogValue(d, u, x, kindOf, at + [Decimal.Digits(k)]);
    }
  }

  lemma {:induction false} LogObject(d: nat, v: Validator, w: Validator, s: Schema, x: Value,
                                     kindOf: integer -> IntKind, at: seq<bytes>)
    requires Ready(d, v, w, s) && KindsFit(kindOf) && x.VObject? && w.path == PathOf(at)
    ensures var u := Step(d, v, StartObject);
            var e := MemberEvents(x.members, kindOf);
            var r := Run(d, u, e);
            var last := EndObject(|x.members|);
            Follows(Logged(d, v, StartObject) + PathLog(d, u, e) + Logged(d, r, last), Locations(x, at),
                    Step(d, r, last).valid)
    decreases x, 1
  {
    hide Height, Step, Run, RunContexts;
    var u, es, e := Step(d, v, StartObject), x.members, MemberEvents(x.members, kindOf);
    StepOpen(d, v, w, s, StartObject);
    var r := Run(d, u, e);
    if u.valid {
      RunMembers(d, w, ObjectContext(s, w.path), [StartObject], es, kindOf);
      LogMembers(d, w, ObjectContext(s, w.path), [StartObject], es, kindOf, at);
    } else {
      RunInvalid(d, u, e);
      LogInvalid(d, u, e);
    }
    if !r.valid { RunInvalid(d, r, [EndObject(|es|)]); RunOne(d, r, EndObject(|es|)); }
    ContainerLog(at, PathLog(d, u, e), MemberLocations(es, at), r.valid, Logged(d, r, EndObject(|es|)),
                 Step(d, r, EndObject(|es|)).valid);
  }

  lemma {:induction false} LogMembers(d: nat, w: Validator, c: Context, pre: seq<Event>, ms: seq<Member>,
                                      kindOf: integer -> IntKind, at: seq<bytes>)
    requires d > 0 && w.valid && w.stack != [] && !c.inArray && KindsFit(kindOf) && Height(c.schema) <= d
    requires w.path == PathOf(at)
    ensures var u := Fed(d - 1, w, c, pre);
            var e := MemberEvents(ms, kindOf);
            Follows(PathLog(d, u, e), MemberLocations(ms, at), Run(d, u, e).valid)
    decreases ms, 3
  {
    var u := Fed(d - 1, w, c, pre);
    if ms != [] {
      var e, rest := [Key(ms[0].name)] + Events(ms[0].value, kindOf), MemberEvents(ms[1..], kindOf);
      LogAppend(d, u, e, rest);
      RunAppend(d, u, e, rest);
      LogMember(d, w, c, pre, ms[0], kindOf, at);
      RunMember(d, w, c, pre, ms[0], kindOf);
      var r := Run(d, u, e);
      if r.valid {
        LogMembers(d, w, NextMember(c, ms[0].name), pre + e, ms[1..], kindOf, at);
      } else {
        RunInvalid(d, r, rest);
        LogInvalid(d, r, rest);
      }
      FollowsAppend(PathLog(d, u, e), Locations(ms[0].value, at + [ms[0].name]), r.valid,
                    PathLog(d, r, rest), MemberLocations(ms[1..], at), Run(d, r, rest).valid);
    }
  }

  lemma {:induction false} LogMember(d: nat, w: Validator, c: Context, pre: seq<Event>, m: Member,
                                     kindOf: integer -> IntKind, at: seq<bytes>)
    requires d > 0 && w.valid && w.stack != [] && !c.inArray && KindsFit(kindOf) && Height(c.schema) <= d
    requires w.path == PathOf(at)
    ensures var u := Fed(d - 1, w, c, pre);
            var e := [Key(m.name)] + Events(m.value, kindOf);
            Follows(PathLog(d, u, e), Locations(m.value, at + [m.name]), Run(d, u, e).valid)
    decreases m.value, 3
  {
    hide Height, Events, Locations;
    var u, e := Fed(d - 1, w, c, pre), Events(m.value, kindOf);
    StepKey(d, w, c, pre, m.name);
    LogAppend(d, u, [Key(m.name)], e);
    LogOne(d, u, Key(m.name));
    RunAppend(d, u, [Key(m.name)], e);
    RunOne(d, u, Key(m.name));
    var r := Step(d, u, Key(m.name));
    if r.valid {
      var c' := NextMember(c, m.name);
      BeginMember(d - 1, AtPath(w, AppendToken(w.path, m.name)), c', pre + [Key(m.name)]);
      ChildHeight(c.schema, m.name, 0);
      PathOfChild(at, m.name, 0);
      LogValue(d, r, m.value, kindOf, at + [m.name]);
    } else {
      RunInvalid(d, r, e);
      LogInvalid(d, r, e);
    }
  }

  /** Whatever the verdict, the document stack runs through the locations of the document in
      order; it stops early only when validation fails. */
  lemma DocumentStackIsLocation(s: Schema, x: Value, kindOf: integer -> IntKind)
    requires KindsFit(kindOf)
    ensures Follows(PathLog(Height(s), NewValidator(s, []), Events(x, kindOf)), Locations(x, []), Valid(s, x))
  {
    LogValue(Height(s), NewValidator(s, []), x, kindOf, []);
    StreamingIsRecursive(s, x, kindOf, []);
  }
}
