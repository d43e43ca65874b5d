/** GenericSchemaValidator in its own form: an object whose handler methods update the
    schema stack and the document stack in place, with the loops of the source. */
module SchemaMachine {
  import opened Json
  import opened Schema
  import V = SchemaValidator
  import Decimal

  method FindProperty(ps: seq<Property>, name: bytes) returns (index: nat)
    ensures index == FindPropertyIndex(ps, name)
  {
    index := 0;
    while index < |ps| && ps[index].name != name
      invariant index <= |ps|
      invariant FindPropertyIndex(ps, name) == index + FindPropertyIndex(ps[index..], name)
    {
      assert ps[index..][1..] == ps[index + 1..];
      index := index + 1;
    }
  }

  method AllSlotsValid(c: V.Context, begin: nat, count: nat) returns (ok: bool)
    requires begin + count <= |c.validators|
    ensures ok <==> V.AllTrue(V.SlotRange(c, begin, count))
  {
    ghost var slots := V.SlotRange(c, begin, count);
    for i := 0 to count
      invariant forall k :: 0 <= k < i ==> slots[k]
    {
      assert slots[i] == c.validators[begin + i].valid;
      if !c.validators[begin + i].valid { return false; }
    }
    return true;
  }

  method AnySlotValid(c: V.Context, begin: nat, count: nat) returns (ok: bool)
    requires begin + count <= |c.validators|
    ensures ok <==> !V.AllFalse(V.SlotRange(c, begin, count))
  {
    ghost var slots := V.SlotRange(c, begin, count);
    for i := 0 to count
      invariant forall k :: 0 <= k < i ==> !slots[k]
    {
      assert slots[i] == c.validators[begin + i].valid;
      if c.validators[begin + i].valid { return true; }
    }
    return false;
  }

  method OneSlotValid(c: V.Context, begin: nat, count: nat) returns (ok: bool)
    requires begin + count <= |c.validators|
    ensures ok <==> V.CountTrue(V.SlotRange(c, begin, count)) == 1
  {
    ghost var slots := V.SlotRange(c, begin, count);
    var oneValid := false;
    assert slots[..0] == [];
    for i := 0 to count
      invariant V.CountTrue(slots[..i]) == if oneValid then 1 else 0
    {
      assert slots[i] == c.validators[begin + i].valid;
      CountAppend(slots[..i], slots[i..i + 1]);
      assert slots[..i + 1] == slots[..i] + slots[i..i + 1];
      if c.validators[begin + i].valid {
        if oneValid {
          CountSplit(slots, i + 1);
          return false;
        }
        oneValid := true;
      }
    }
    assert slots[..count] == slots;
    return oneValid;
  }

  /** Schema::EndValue with the early exits of the source. */
  method EndValueVerdict(c: V.Context) returns (ok: bool)
    requires |c.validators| == |Parallel(c.schema)|
    ensures ok <==> V.SchemaEndValue(c)
  {
    var s := c.schema;
    assert |Parallel(s)| >= NotIndex(s) + |NotSchemas(s)|;
    ok := AllSlotsValid(c, 0, |s.allOf|);
    if !ok { return false; }
    if s.anyOf != [] {
      ok := AnySlotValid(c, AnyOfBegin(s), |s.anyOf|);
      if !ok { return false; }
    }
    if s.oneOf != [] {
      ok := OneSlotValid(c, OneOfBegin(s), |s.oneOf|);
      if !ok { return false; }
    }
    if s.not_.Some? && c.validators[NotIndex(s)].valid { return false; }
    return true;
  }

  predicate Missing(c: V.Context, k: nat)
    requires k < |c.schema.properties|
  {
    var p := c.schema.properties[k];
    p.required && !V.Exists(c, k) && p.schema.defaultValueLength == 0
  }

  /** Schema::EndObject: collect what is missing, then decide. */
  method EndObjectVerdict(c: V.Context, memberCount: nat) returns (ok: bool)
    ensures ok <==> V.SchemaEndObject(c, memberCount)
  {
    var ps := c.schema.properties;
    if V.HasRequired(c.schema) {
      var missing := false;
      for index := 0 to |ps|
        invariant missing <==> exists k :: 0 <= k < index && Missing(c, k)
      {
        if Missing(c, index) {
          missing := true;
        }
      }
      assert missing <==> !V.NoMissingProperty(c) by {
        assert forall k :: 0 <= k < |ps| ==> (Missing(c, k) <==>
          ps[k].required && !V.Exists(c, k) && ps[k].schema.defaultValueLength == 0);
      }
      if missing { return false; }
    }
    if memberCount < c.schema.minProperties { return false; }
    if memberCount > c.schema.maxProperties { return false; }
    if V.HasDependencies(c.schema) {
      var errors := false;
      for source := 0 to |ps|
        invariant errors <==> exists k :: 0 <= k < source && !V.DependencyMet(c, k)
      {
        if !V.DependencyMet(c, source) { errors := true; }
      }
      if errors { return false; }
    }
    return true;
  }

  lemma CountSplit(bs: seq<bool>, k: nat)
    requires k <= |bs|
    ensures V.CountTrue(bs) == V.CountTrue(bs[..k]) + V.CountTrue(bs[k..])
  {
    CountAppend(bs[..k], bs[k..]);
    assert bs == bs[..k] + bs[k..];
  }

  lemma {:induction false} CountAppend(a: seq<bool>, b: seq<bool>)
    ensures V.CountTrue(a + b) == V.CountTrue(a) + V.CountTrue(b)
  {
    if a == [] {
      assert a + b == b;
    } else {
      assert (a + b)[1..] == a[1..] + b;
      CountAppend(a[1..], b);
    }
  }

  /** The shape of an opening step. */
  lemma StepOpen(d: nat, v: V.Validator, e: Event)
    requires d > 0 && v.valid && V.Opens(e)
    ensures V.Step(d, v, e) ==
      match V.BeginValue(v)
      case None => V.Failed(v.(path := V.BeginPath(v)))
      case Some(w) =>
        match V.SchemaOpen(V.Top(w), e, w.path)
        case None => V.Failed(w)
        case Some(c) =>
          var w' := w.(stack := V.Feed(d, V.SetTop(w, c).stack, e));
          if V.Closes(e) then V.EndValue(w') else w'
    ensures V.BeginValue(v).Some? ==> var w := V.BeginValue(v).value;
      w.valid && w.root == v.root && |w.stack| == |v.stack| + 1 &&
      forall i :: 0 <= i < |v.stack| ==>
      w.stack[i].schema == v.stack[i].schema && w.stack[i].validators == v.stack[i].validators
  {
  }

  lemma OpenSlots(c: V.Context, e: Event, path: bytes)
    requires V.SchemaOpen(c, e, path).Some?
    ensures var o := V.SchemaOpen(c, e, path).value; o.schema == c.schema && |o.validators| == |Parallel(c.schema)|
  {
  }

  lemma FeedKeeps(d: nat, cs: seq<V.Context>, e: Event)
    requires d > 0
    ensures var fed := V.Feed(d, cs, e);
            |fed| == |cs| && forall i :: 0 <= i < |cs| ==>
              fed[i].schema == cs[i].schema && |fed[i].validators| == |cs[i].validators|
  {
  }

  class GenericSchemaValidator {
    const root: Schema
    const depth: nat
    var valid: bool
    var schemaStack: seq<V.Context>
    var documentStack: bytes

    function State(): V.Validator
      reads this
    {
      V.Validator(root, valid, schemaStack, documentStack)
    }

    constructor (schema: Schema)
      ensures State() == V.NewValidator(schema, []) && root == schema && depth == Height(schema)
    {
      root, depth := schema, Height(schema);
      valid, schemaStack, documentStack := true, [], [];
    }

    method AppendToken(name: bytes)
      modifies `documentStack
      ensures documentStack == V.AppendToken(old(documentStack), name)
    {
      documentStack := documentStack + [V.SLASH];
      ghost var start := documentStack;
      for i := 0 to |name|
        invariant documentStack + V.EscapeName(name[i..]) == start + V.EscapeName(name)
      {
        assert name[i..][1..] == name[i + 1..];
        if name[i] == V.TILDE {
          documentStack := documentStack + [V.TILDE, '0' as int];
        } else if name[i] == V.SLASH {
          documentStack := documentStack + [V.TILDE, '1' as int];
        } else {
          documentStack := documentStack + [name[i]];
        }
      }
    }

    method PopLastToken()
      modifies `documentStack
      ensures documentStack == V.PopToken(old(documentStack))
    {
      while documentStack != []
        invariant V.PopToken(documentStack) == V.PopToken(old(documentStack))
        decreases |documentStack|
      {
        var c := documentStack[|documentStack| - 1];
        documentStack := documentStack[..|documentStack| - 1];
        if c == V.SLASH { return; }
      }
    }

    /** The current context, Top of the schema stack. */
    method SetCurrent(c: V.Context)
      requires schemaStack != []
      modifies `schemaStack
      ensures State() == V.SetTop(old(State()), c)
    {
      schemaStack := schemaStack[..|schemaStack| - 1] + [c];
    }

    method BeginValue() returns (ok: bool)
      modifies `schemaStack, `documentStack
      ensures ok <==> V.BeginValue(old(State())).Some?
      ensures ok ==> State() == V.BeginValue(old(State())).value
      ensures !ok ==> State() == old(State()).(path := V.BeginPath(old(State())))
    {
      if schemaStack == [] {
        schemaStack := [V.NewContext(root)];
        return true;
      }
      var c := schemaStack[|schemaStack| - 1];
      if c.inArray {
        documentStack := V.AppendIndexToken(documentStack, c.arrayElementIndex);
      }
      match V.SchemaBeginValue(c) {
        case None => return false;
        case Some(c') =>
          schemaStack := schemaStack[..|schemaStack| - 1] + [c', V.NewContext(c'.valueSchema)];
          return true;
      }
    }

    /** RAPIDJSON_SCHEMA_HANDLE_PARALLEL_ */
    method HandleParallel(e: Event)
      requires depth > 0
      modifies `schemaStack
      ensures State() == old(State()).(stack := V.Feed(depth, old(schemaStack), e))
    {
      ghost var before, fed := schemaStack, V.Feed(depth, schemaStack, e);
      FeedKeeps(depth, schemaStack, e);
      for i := 0 to |schemaStack|
        invariant |schemaStack| == |before|
        invariant forall k :: 0 <= k < i ==> schemaStack[k] == fed[k]
        invariant forall k :: i <= k < |before| ==> schemaStack[k] == before[k]
      {
        var us' := FeedSlots(schemaStack[i].validators, e);
        schemaStack := schemaStack[i := schemaStack[i].(validators := us')];
      }
      assert schemaStack == fed;
    }

    /** Every slot of a context. */
    method FeedSlots(us: seq<V.Validator>, e: Event) returns (us': seq<V.Validator>)
      requires depth > 0
      ensures us' == seq(|us|, j requires 0 <= j < |us| => V.Step(depth - 1, us[j], e))
    {
      hide V.Step;
      us' := [];
      for j := 0 to |us|
        invariant us' == seq(j, k requires 0 <= k < j => V.Step(depth - 1, us[k], e))
      {
        us' := us' + [V.Step(depth - 1, us[j], e)];
      }
    }

    method EndValue()
      requires valid && schemaStack != []
      requires |schemaStack[|schemaStack| - 1].validators| == |Parallel(schemaStack[|schemaStack| - 1].schema)|
      modifies this
      ensures State() == V.EndValue(old(State()))
    {
      valid := EndValueVerdict(schemaStack[|schemaStack| - 1]);
      if valid {
        schemaStack := schemaStack[..|schemaStack| - 1];
        PopLastToken();
      }
    }

    /** While valid, every open value has a slot for every parallel sub-schema. */
    ghost predicate Ordered()
      reads this
    {
      depth == Height(root) && depth > 0 &&
      (valid ==> forall i :: 0 <= i < |schemaStack| ==>
       |schemaStack[i].validators| == |Parallel(schemaStack[i].schema)|)
    }

    /** RAPIDJSON_SCHEMA_HANDLE_BEGIN_ followed by the parallel feed. */
    method Open(e: Event) returns (ok: bool)
      requires Ordered() && valid && V.Opens(e)
      modifies this
      ensures Ordered() && ok == valid
      ensures ok ==> schemaStack != []
      ensures var after := if ok && V.Closes(e) then V.EndValue(State()) else State();
              after == V.Step(depth, old(State()), e)
    {
      hide Height, V.Step, V.BeginValue, V.SchemaOpen, V.Feed, V.EndValue;
      StepOpen(depth, State(), e);
      ok := BeginValue();
      if !ok {
        valid := false;
        return;
      }
      var c := schemaStack[|schemaStack| - 1];
      match V.SchemaOpen(c, e, documentStack) {
        case None =>
          ok, valid := false, false;
        case Some(c') =>
          OpenSlots(c, e, documentStack);
          ghost var w := State();
          SetCurrent(c');
          FeedKeeps(depth, schemaStack, e);
          HandleParallel(e);
          assert State() == w.(stack := V.Feed(depth, V.SetTop(w, c').stack, e));
      }
    }

    /** Null, Bool, Int, Uint, Int64, Uint64, Double, String: RAPIDJSON_SCHEMA_HANDLE_VALUE_. */
    method Scalar(e: Event) returns (ok: bool)
      requires Ordered() && V.Opens(e) && V.Closes(e)
      modifies this
      ensures Ordered() && ok == valid && State() == V.Step(depth, old(State()), e)
    {
      if !valid { return false; }
      ok := Open(e);
      if ok {
        EndValue();
        ok := valid;
      }
    }

    method StartObject() returns (ok: bool)
      requires Ordered()
      modifies this
      ensures Ordered() && ok == valid && State() == V.Step(depth, old(State()), Event.StartObject)
    {
      if !valid { return false; }
      ok := Open(Event.StartObject);
    }

    method StartArray() returns (ok: bool)
      requires Ordered()
      modifies this
      ensures Ordered() && ok == valid && State() == V.Step(depth, old(State()), Event.StartArray)
    {
      if !valid { return false; }
      ok := Open(Event.StartArray);
    }

    method Key(name: bytes) returns (ok: bool)
      requires Ordered() && schemaStack != []
      modifies this
      ensures Ordered() && ok == valid && State() == V.Step(depth, old(State()), Event.Key(name))
    {
      hide Height;
      if !valid { return false; }
      AppendToken(name);
      match V.SchemaKey(schemaStack[|schemaStack| - 1], name) {
        case None =>
          valid := false;
        case Some(c) =>
          SetCurrent(c);
          HandleParallel(Event.Key(name));
      }
      ok := valid;
    }

    method EndObject(memberCount: nat) returns (ok: bool)
      requires Ordered() && schemaStack != []
      modifies this
      ensures Ordered() && ok == valid && State() == V.Step(depth, old(State()), Event.EndObject(memberCount))
    {
      hide Height;
      if !valid { return false; }
      HandleParallel(Event.EndObject(memberCount));
      ok := EndObjectVerdict(schemaStack[|schemaStack| - 1], memberCount);
      if !ok {
        valid := false;
        return;
      }
      EndValue();
      ok := valid;
    }

    method EndArray(elementCount: nat) returns (ok: bool)
      requires Ordered() && schemaStack != []
      modifies this
      ensures Ordered() && ok == valid && State() == V.Step(depth, old(State()), Event.EndArray(elementCount))
    {
      hide Height;
      if !valid { return false; }
      HandleParallel(Event.EndArray(elementCount));
      var c := schemaStack[|schemaStack| - 1].(inArray := false);
      SetCurrent(c);
      if elementCount < c.schema.minItems || elementCount > c.schema.maxItems {
        valid := false;
        return false;
      }
      EndValue();
      ok := valid;
    }
  }
}
