/** JSON Schema draft-04 as its specification words it (JSON Schema validation, section 5), by names
    instead of compiled entries: where a compiled schema means the same, and where it does not. */
module SchemaDraft {
  import opened Json
  import opened Counts
  import opened Schema
  import opened SchemaDefaults
  import SP = SchemaProof
  import V = SchemaValidator

  // ----- the specification -----

  ghost predicate DraftValid(s: Schema, v: Value)
    decreases v, s, 1
  {
    DraftType(s, v) && DraftOwn(s, v) && DraftChildren(s, v) && DraftCombinators(s, v) && DraftDependencies(s, v)
  }

  /** Section 5.5.2: the instance has one of the types; an integer is a number too. */
  ghost predicate DraftType(s: Schema, v: Value) {
    exists t :: t in s.types &&
      match t
      case NullType => v.VNull?
      case BooleanType => v.VBool?
      case ObjectType => v.VObject?
      case ArrayType => v.VArray?
      case StringType => v.VString?
      case NumberType => v.VInt? || v.VDouble?
      case IntegerType => v.VInt?
  }

  /** The order of numbers: exact between integers, otherwise that of doubles. */
  ghost predicate Less(d: Doubles, a: Bound, b: Bound) {
    if a.Whole? && b.Whole? then a.value < b.value
    else
      (if a.Whole? then d.ofInteger(a.value) else d.ofLiteral(a.literal)) <
      (if b.Whole? then d.ofInteger(b.value) else d.ofLiteral(b.literal))
  }

  /** Sections 5.1.2 and 5.1.3: not beyond the bounds, and with the exclusive keywords inside them. */
  ghost predicate DraftRange(s: Schema, x: Bound) {
    && (s.minimum.Some? ==>
          !Less(s.doubles, x, s.minimum.value) && (s.exclusiveMinimum ==> Less(s.doubles, s.minimum.value, x)))
    && (s.maximum.Some? ==>
          !Less(s.doubles, s.maximum.value, x) && (s.exclusiveMaximum ==> Less(s.doubles, x, s.maximum.value)))
  }

  /** The keywords that look at the value itself and not at its children. */
  ghost predicate DraftOwn(s: Schema, v: Value) {
    match v
    case VInt(n) => DraftRange(s, Whole(n))
    case VDouble(l) => DraftRange(s, Fraction(l))
    case VArray(es) => s.minItems <= |es| && |es| <= s.maxItems
    case VObject(ms) =>
      && s.minProperties <= |ms| && |ms| <= s.maxProperties
      && (forall i :: 0 <= i < |s.properties| && s.properties[i].required ==> HasMember(ms, s.properties[i].name))
      && (forall i :: 0 <= i < |s.properties| ==> DraftNames(s.properties, i, ms))
    case _ => true
  }

  /** A property dependency: with this name come others. */
  ghost predicate DraftNames(ps: seq<Property>, i: nat, ms: seq<Member>)
    requires i < |ps|
  {
    ps[i].dependencies.Names? && HasMember(ms, ps[i].name) ==>
      forall j :: 0 <= j < |ps| && j < |ps[i].dependencies.targets| && ps[i].dependencies.targets[j] ==>
      HasMember(ms, ps[j].name)
  }

  /** Sections 5.3.1 and 5.4.4. The empty schema holds for every value whose containers 32 bits count. */
  ghost predicate DraftChildren(s: Schema, v: Value)
    decreases v, s, 0
  {
    match v
    case VArray(es) =>
      (match s.items
       case AnyItems => forall i :: 0 <= i < |es| ==> CountsFit(es[i])
       case List(l) => forall i :: 0 <= i < |es| ==> DraftValid(l, es[i])
       case Tuple(ts) =>
         && (forall i :: 0 <= i < |es| && i < |ts| ==> DraftValid(ts[i], es[i]))
         && (match s.additionalItems
             case Matching(t) => forall i :: |ts| <= i < |es| ==> DraftValid(t, es[i])
             case Allow(true) => forall i :: |ts| <= i < |es| ==> CountsFit(es[i])
             case Allow(false) => |es| <= |ts|))
    case VObject(ms) =>
      && (forall i, j ::
            0 <= i < |ms| && 0 <= j < |s.properties| && IsDeclared(s.properties, j, ms[i].name) ==>
              DraftValid(s.properties[j].schema, ms[i].value))
      && (match s.additionalProperties
          case Matching(t) => forall i :: 0 <= i < |ms| && IsAdditional(s, ms[i].name) ==> DraftValid(t, ms[i].value)
          case Allow(true) => forall i :: 0 <= i < |ms| && IsAdditional(s, ms[i].name) ==> CountsFit(ms[i].value)
          case Allow(false) => forall i :: 0 <= i < |ms| ==> !IsAdditional(s, ms[i].name))
    case _ => true
  }

  /** The name stands in properties, at j. */
  predicate IsDeclared(ps: seq<Property>, j: nat, name: bytes)
    requires j < |ps|
  {
    ps[j].declared && ps[j].name == name
  }

  /** The name does not stand in properties. */
  ghost predicate IsAdditional(s: Schema, name: bytes) {
    forall j :: 0 <= j < |s.properties| ==> !IsDeclared(s.properties, j, name)
  }

  ghost predicate DraftCombinators(s: Schema, v: Value)
    decreases v, s, 0
  {
    && (forall i :: 0 <= i < |s.allOf| ==> DraftValid(s.allOf[i], v))
    && (s.anyOf != [] ==> exists i :: 0 <= i < |s.anyOf| && DraftValid(s.anyOf[i], v))
    && (s.oneOf != [] ==> exists i :: 0 <= i < |s.oneOf| && DraftValid(s.oneOf[i], v))
    && (forall i, j :: 0 <= i < j < |s.oneOf| ==> !(DraftValid(s.oneOf[i], v) && DraftValid(s.oneOf[j], v)))
    && (s.not_.Some? ==> !DraftValid(s.not_.value, v))
  }

  ghost predicate DraftDependencies(s: Schema, v: Value)
    decreases v, s, 0
  {
    v.VObject? ==> forall i :: 0 <= i < |s.properties| && s.properties[i].dependencies.DependsOn? ==>
      HasMember(v.members, s.properties[i].name) ==> DraftValid(s.properties[i].dependencies.schema, v)
  }

  // ----- names that are only gathered -----

  predicate AllDeclared(ps: seq<Property>) { forall i :: 0 <= i < |ps| ==> ps[i].declared }

  /** What the compiler of schemas leaves: every name once, and a gathered name with the typeless schema. */
  ghost predicate WellCompiled(ps: seq<Property>) {
    DistinctNames(ps) && forall i :: 0 <= i < |ps| && !ps[i].declared ==> ps[i].schema == Typeless()
  }

  /** A value is accepted where this schema governs it, if any does. */
  ghost predicate Accepts(o: Option<Schema>, v: Value) { o.Some? && Valid(o.value, v) }

  /** What additionalProperties or additionalItems accepts. */
  ghost predicate AcceptsMore(a: Additional, v: Value) {
    match a
    case Matching(t) => Valid(t, v)
    case Allow(ok) => ok && CountsFit(v)
  }

  /** additionalProperties accepts every value that the empty schema accepts, and no other. */
  ghost predicate AllowsMore(s: Schema) { forall v :: AcceptsMore(s.additionalProperties, v) <==> CountsFit(v) }

  /** The value may stand under the name: that is for the schema in properties to say, or else for
      additionalProperties. */
  ghost predicate MemberAccepted(s: Schema, name: bytes, v: Value) {
    && (forall j :: 0 <= j < |s.properties| && IsDeclared(s.properties, j, name) ==> Valid(s.properties[j].schema, v))
    && (IsAdditional(s, name) ==> AcceptsMore(s.additionalProperties, v))
  }

  /** The empty schema. */
  lemma {:induction false} TypelessAccepts(v: Value)
    ensures Valid(Typeless(), v) <==> CountsFit(v)
    decreases v, 1
  {
    if v.VArray? {
      TypelessElements(v.elements);
    } else if v.VObject? {
      TypelessMembers(v.members);
    }
  }

  lemma {:induction false} TypelessElements(es: seq<Value>)
    ensures (forall i :: 0 <= i < |es| ==> Valid(Typeless(), es[i])) <==> ElementCountsFit(es)
    decreases es, 0
  {
    hide Valid;
    if es != [] {
      TypelessAccepts(es[0]);
      TypelessElements(es[1..]);
      assert forall i :: 0 < i < |es| ==> es[i] == es[1..][i - 1];
      assert forall i :: 0 <= i < |es| - 1 ==> es[1..][i] == es[i + 1];
    }
  }

  lemma {:induction false} TypelessMembers(ms: seq<Member>)
    ensures (forall i :: 0 <= i < |ms| ==> Valid(Typeless(), ms[i].value)) <==> MemberCountsFit(ms)
    decreases ms, 0
  {
    hide Valid;
    if ms != [] {
      TypelessAccepts(ms[0].value);
      TypelessMembers(ms[1..]);
      assert forall i :: 0 < i < |ms| ==> ms[i] == ms[1..][i - 1];
      assert forall i :: 0 <= i < |ms| - 1 ==> ms[1..][i] == ms[i + 1];
    }
  }

  lemma AllowanceAccepts(a: Additional, v: Value)
    ensures Accepts(Allowance(a), v) <==> AcceptsMore(a, v)
  {
    TypelessAccepts(v);
  }

  lemma FindsEntry(ps: seq<Property>, i: nat)
    requires DistinctNames(ps) && i < |ps|
    ensures FindPropertyIndex(ps, ps[i].name) == i
  {
    FindFirst(ps, ps[i].name);
  }

  /** The member's schema has the verdict on the member, but for a name that is only gathered. */
  lemma DeclaredVerdict(s: Schema, name: bytes, v: Value)
    requires WellCompiled(s.properties)
    ensures var index := FindPropertyIndex(s.properties, name);
            Accepts(MemberSchema(s, name), v) <==>
            if index < |s.properties| && !s.properties[index].declared then CountsFit(v) else MemberAccepted(s, name, v)
  {
    hide Valid;
    var index := FindPropertyIndex(s.properties, name);
    TypelessAccepts(v);
    AllowanceAccepts(s.additionalProperties, v);
    FindFirst(s.properties, name);
    if index < |s.properties| {
      assert forall j :: 0 <= j < |s.properties| && j != index ==> s.properties[j].name != name;
      assert s.properties[index].declared ==> IsDeclared(s.properties, index, name);
    }
  }

  /** A name that occurs only in required or dependencies is taken for a declared property; every
      member gets the verdict that draft-04 gives it exactly when there is no such name, or
      additionalProperties allows as much as the empty schema anyway. */
  lemma MemberSchemaExactly(s: Schema)
    requires WellCompiled(s.properties)
    ensures (forall name, v :: Accepts(MemberSchema(s, name), v) <==> MemberAccepted(s, name, v))
            <==> AllowsMore(s) || AllDeclared(s.properties)
  {
    hide Valid, Accepts;
    if !AllowsMore(s) && !AllDeclared(s.properties) {
      var i :| 0 <= i < |s.properties| && !s.properties[i].declared;
      FindsEntry(s.properties, i);
      var v :| AcceptsMore(s.additionalProperties, v) != CountsFit(v);
      DeclaredVerdict(s, s.properties[i].name, v);
      OnlyGathered(s, i);
    } else {
      forall name, v
        ensures Accepts(MemberSchema(s, name), v) <==> MemberAccepted(s, name, v)
      {
        DeclaredVerdict(s, name, v);
        var index := FindPropertyIndex(s.properties, name);
        if index < |s.properties| && !s.properties[index].declared { OnlyGathered(s, index); }
      }
    }
  }

  lemma OnlyGathered(s: Schema, i: nat)
    requires WellCompiled(s.properties) && i < |s.properties| && !s.properties[i].declared
    ensures IsAdditional(s, s.properties[i].name)
  {
  }

  const A: bytes := ['a' as int]
  const B: bytes := ['b' as int]

  /** {"dependencies": {"a": ["b"]}, "additionalProperties": false} */
  function GatheringSchema(): Schema {
    Typeless().(properties := [Property(A, false, Typeless(), false, Names([false, true])),
                               Property(B, false, Typeless(), false, NoDependencies)],
                additionalProperties := Allow(false))
  }

  /** It accepts {"b": 1}, where draft-04 allows no member at all. */
  lemma GatheredNameIsAllowed()
    ensures WellCompiled(GatheringSchema().properties)
    ensures var v := VObject([Member(B, VInt(1))]); Valid(GatheringSchema(), v) && !DraftValid(GatheringSchema(), v)
  {
    var s, ms := GatheringSchema(), [Member(B, VInt(1))];
    FindsEntry(s.properties, 1);
    OnlyGathered(s, 1);
    assert IsAdditional(s, ms[0].name) && !DraftChildren(s, VObject(ms));
    assert Valid(Typeless(), VInt(1));
    assert !Present(s.properties, 0, ms);
  }

  // ----- where all of it is draft-04 -----

  /** The conditions of MemberSchemaExactly and RequiredExactly, here and in every sub-schema. */
  ghost predicate Conforming(s: Schema)
    decreases s
  {
    && OwnConforming(s)
    && (forall i :: 0 <= i < |s.allOf| ==> Conforming(s.allOf[i]))
    && (forall i :: 0 <= i < |s.anyOf| ==> Conforming(s.anyOf[i]))
    && (forall i :: 0 <= i < |s.oneOf| ==> Conforming(s.oneOf[i]))
    && (s.not_.Some? ==> Conforming(s.not_.value))
    && (forall i :: 0 <= i < |s.properties| ==>
          Conforming(s.properties[i].schema) &&
          (s.properties[i].dependencies.DependsOn? ==> Conforming(s.properties[i].dependencies.schema)))
    && (s.additionalProperties.Matching? ==> Conforming(s.additionalProperties.schema))
    && (s.additionalItems.Matching? ==> Conforming(s.additionalItems.schema))
    && (s.items.List? ==> Conforming(s.items.schema))
    && (s.items.Tuple? ==> forall i :: 0 <= i < |s.items.schemas| ==> Conforming(s.items.schemas[i]))
  }

  ghost predicate OwnConforming(s: Schema) {
    && WellCompiled(s.properties)
    && (AllowsMore(s) || AllDeclared(s.properties))
    && (forall i :: 0 <= i < |s.properties| && s.properties[i].required ==>
        s.properties[i].schema.defaultValueLength == 0)
  }

  lemma OwnIsDraft(s: Schema, v: Value)
    requires OwnConforming(s)
    ensures OwnValid(s, v) <==> DraftType(s, v) && DraftOwn(s, v)
  {
    TypeIsDraft(s, v);
    if v.VObject? {
      var ps, ms := s.properties, v.members;
      forall i | 0 <= i < |ps|
        ensures Present(ps, i, ms) <==> HasMember(ms, ps[i].name)
      {
        PresentByName(ps, i, ms);
      }
      hide Present, HasMember, DraftType;
      forall i | 0 <= i < |ps|
        ensures NamesPresent(ps, i, ms) <==> DraftNames(ps, i, ms)
        ensures RequirementMet(ps, i, ms) <==> (ps[i].required ==> HasMember(ms, ps[i].name))
      {
      }
    } else if v.VInt? {
      RangeIsDraft(s, v.value);
      hide DraftType, InRange, DraftRange;
    } else if v.VDouble? {
      DoubleRangeIsDraft(s, v.literal);
      hide DraftType, DoubleInRange, DraftRange;
    } else {
      hide DraftType;
    }
  }

  lemma TypeIsDraft(s: Schema, v: Value)
    ensures DraftType(s, v) <==>
            match v
            case VNull => NullType in s.types
            case VBool(_) => BooleanType in s.types
            case VInt(_) => IntegerType in s.types || NumberType in s.types
            case VDouble(_) => NumberType in s.types
            case VString(_) => StringType in s.types
            case VArray(_) => ArrayType in s.types
            case VObject(_) => ObjectType in s.types
  {
  }

  lemma RangeIsDraft(s: Schema, n: integer)
    ensures InRange(s, n) <==> DraftRange(s, Whole(n))
  {
  }

  lemma DoubleRangeIsDraft(s: Schema, l: bytes)
    ensures DoubleInRange(s, s.doubles.ofLiteral(l)) <==> DraftRange(s, Fraction(l))
  {
  }

  /** On conforming schemas the compiled form means what draft-04 says. */
  lemma {:induction false} CompiledIsDraft(s: Schema, v: Value)
    requires Conforming(s)
    ensures Valid(s, v) <==> DraftValid(s, v)
    decreases v, s, 2
  {
    hide OwnValid, DraftType, DraftOwn, ChildrenValid, DraftChildren, CombinatorsValid, DraftCombinators,
         DependenciesValid, DraftDependencies;
    OwnIsDraft(s, v);
    ChildrenAreDraft(s, v);
    CombinatorsAreDraft(s, v);
    DependenciesAreDraft(s, v);
  }

  lemma {:induction false} CombinatorsAreDraft(s: Schema, v: Value)
    requires Conforming(s)
    ensures CombinatorsValid(s, v) <==> DraftCombinators(s, v)
    decreases v, s, 0
  {
    hide Valid, DraftValid, CombinatorsValid, DraftCombinators;
    forall i | 0 <= i < |s.allOf|
      ensures Valid(s.allOf[i], v) <==> DraftValid(s.allOf[i], v)
    {
      CompiledIsDraft(s.allOf[i], v);
    }
    forall i | 0 <= i < |s.anyOf|
      ensures Valid(s.anyOf[i], v) <==> DraftValid(s.anyOf[i], v)
    {
      CompiledIsDraft(s.anyOf[i], v);
    }
    forall i | 0 <= i < |s.oneOf|
      ensures Valid(s.oneOf[i], v) <==> DraftValid(s.oneOf[i], v)
    {
      CompiledIsDraft(s.oneOf[i], v);
    }
    if s.not_.Some? { CompiledIsDraft(s.not_.value, v); }
    SameCombinators(s, v);
  }

  ghost predicate SameVerdicts(ss: seq<Schema>, v: Value) {
    forall i :: 0 <= i < |ss| ==> (Valid(ss[i], v) <==> DraftValid(ss[i], v))
  }

  lemma SameCombinators(s: Schema, v: Value)
    requires SameVerdicts(s.allOf, v) && SameVerdicts(s.anyOf, v) && SameVerdicts(s.oneOf, v)
    requires s.not_.Some? ==> (Valid(s.not_.value, v) <==> DraftValid(s.not_.value, v))
    ensures CombinatorsValid(s, v) <==> DraftCombinators(s, v)
  {
    hide Valid, DraftValid;
  }

  lemma {:induction false} DependenciesAreDraft(s: Schema, v: Value)
    requires Conforming(s)
    ensures DependenciesValid(s, v) <==> DraftDependencies(s, v)
    decreases v, s, 0
  {
    if v.VObject? {
      var ps := s.properties;
      forall i | 0 <= i < |ps|
        ensures Present(ps, i, v.members) <==> HasMember(v.members, ps[i].name)
        ensures ps[i].dependencies.DependsOn? ==>
                  (Valid(ps[i].dependencies.schema, v) <==> DraftValid(ps[i].dependencies.schema, v))
      {
        PresentByName(ps, i, v.members);
        if ps[i].dependencies.DependsOn? { CompiledIsDraft(ps[i].dependencies.schema, v); }
      }
    }
  }

  lemma {:induction false} ChildrenAreDraft(s: Schema, v: Value)
    requires Conforming(s)
    ensures ChildrenValid(s, v) <==> DraftChildren(s, v)
    decreases v, s, 1
  {
    if v.VArray? {
      ElementsAreDraft(s, v);
    } else if v.VObject? {
      MembersAreDraft(s, v);
    }
  }

  lemma {:induction false} ElementsAreDraft(s: Schema, v: Value)
    requires Conforming(s) && v.VArray?
    ensures ChildrenValid(s, v) <==> DraftChildren(s, v)
    decreases v, s, 0
  {
    hide Valid, DraftValid;
    var es := v.elements;
    forall i | 0 <= i < |es|
      ensures Valid(Typeless(), es[i]) <==> CountsFit(es[i])
      ensures s.items.List? ==> (Valid(s.items.schema, es[i]) <==> DraftValid(s.items.schema, es[i]))
      ensures s.items.Tuple? && i < |s.items.schemas| ==>
                (Valid(s.items.schemas[i], es[i]) <==> DraftValid(s.items.schemas[i], es[i]))
      ensures s.additionalItems.Matching? ==>
                (Valid(s.additionalItems.schema, es[i]) <==> DraftValid(s.additionalItems.schema, es[i]))
    {
      TypelessAccepts(es[i]);
      if s.items.List? { CompiledIsDraft(s.items.schema, es[i]); }
      if s.items.Tuple? && i < |s.items.schemas| { CompiledIsDraft(s.items.schemas[i], es[i]); }
      if s.additionalItems.Matching? { CompiledIsDraft(s.additionalItems.schema, es[i]); }
    }
    hide Conforming, Typeless;
    if s.items.Tuple? {
      forall i | 0 <= i < |es|
        ensures (ElementSchema(s, i).Some? && Valid(ElementSchema(s, i).value, es[i])) <==> ElementIsDraft(s, i, es[i])
      {
      }
      DraftByElement(s, es);
      hide ElementSchema, DraftChildren, ElementIsDraft;
    }
  }

  /** An element of a tuple. */
  ghost predicate ElementIsDraft(s: Schema, i: nat, v: Value)
    requires s.items.Tuple?
  {
    if i < |s.items.schemas| then DraftValid(s.items.schemas[i], v)
    else match s.additionalItems case Matching(t) => DraftValid(t, v) case Allow(ok) => ok && CountsFit(v)
  }

  lemma DraftByElement(s: Schema, es: seq<Value>)
    requires s.items.Tuple?
    ensures DraftChildren(s, VArray(es)) <==> forall i :: 0 <= i < |es| ==> ElementIsDraft(s, i, es[i])
  {
    hide DraftValid, CountsFit;
    if |es| > |s.items.schemas| && s.additionalItems == Allow(false) {
      assert !ElementIsDraft(s, |es| - 1, es[|es| - 1]);
    }
  }

  lemma {:induction false} MembersAreDraft(s: Schema, v: Value)
    requires Conforming(s) && v.VObject?
    ensures ChildrenValid(s, v) <==> DraftChildren(s, v)
    decreases v, s, 0
  {
    hide Valid, DraftValid;
    var ms, ps := v.members, s.properties;
    forall i | 0 <= i < |ms|
      ensures Accepts(MemberSchema(s, ms[i].name), ms[i].value) <==> MemberAccepted(s, ms[i].name, ms[i].value)
      ensures forall j :: 0 <= j < |ps| && IsDeclared(ps, j, ms[i].name) ==>
                (Valid(ps[j].schema, ms[i].value) <==> DraftValid(ps[j].schema, ms[i].value))
      ensures s.additionalProperties.Matching? ==>
                (Valid(s.additionalProperties.schema, ms[i].value) <==>
                 DraftValid(s.additionalProperties.schema, ms[i].value))
    {
      MemberSchemaExactly(s);
      forall j | 0 <= j < |ps|
        ensures Valid(ps[j].schema, ms[i].value) <==> DraftValid(ps[j].schema, ms[i].value)
      {
        CompiledIsDraft(ps[j].schema, ms[i].value);
      }
      if s.additionalProperties.Matching? { CompiledIsDraft(s.additionalProperties.schema, ms[i].value); }
    }
    ChildrenByMember(s, ms);
    DraftByMember(s, ms);
    hide Conforming, ChildrenValid, DraftChildren, MemberSchema, IsAdditional;
  }

  lemma ChildrenByMember(s: Schema, ms: seq<Member>)
    ensures ChildrenValid(s, VObject(ms)) <==>
            forall i :: 0 <= i < |ms| ==> Accepts(MemberSchema(s, ms[i].name), ms[i].value)
  {
    hide Valid;
  }

  /** Member by member. */
  ghost predicate MemberIsDraft(s: Schema, name: bytes, v: Value) {
    && (forall j :: 0 <= j < |s.properties| && IsDeclared(s.properties, j, name) ==>
          DraftValid(s.properties[j].schema, v))
    && (IsAdditional(s, name) ==>
          match s.additionalProperties case Matching(t) => DraftValid(t, v) case Allow(ok) => ok && CountsFit(v))
  }

  lemma DraftByMember(s: Schema, ms: seq<Member>)
    ensures DraftChildren(s, VObject(ms)) <==>
            forall i :: 0 <= i < |ms| ==> MemberIsDraft(s, ms[i].name, ms[i].value)
  {
    hide DraftValid, IsAdditional;
  }

  /** Streaming validation decides draft-04 on every conforming schema and every value. */
  lemma StreamingIsDraft(s: Schema, x: Value, kindOf: integer -> IntKind, path: bytes)
    requires Conforming(s) && SP.KindsFit(kindOf)
    ensures V.Run(Height(s), V.NewValidator(s, path), Events(x, kindOf)).valid <==> DraftValid(s, x)
  {
    hide *;
    SP.StreamingIsRecursive(s, x, kindOf, path);
    CompiledIsDraft(s, x);
  }
}
