/** Compiled schemas and what they mean (rapidjson/schema.h, class Schema).

    A schema is compiled once; GenericSchemaValidator then runs it over a stream of
    events. This module holds the compiled form and the recursive meaning that the
    streaming validator is proved to compute. */
module Schema {
  import opened Json

  datatype SchemaType = NullType | BooleanType | ObjectType | ArrayType | StringType | NumberType | IntegerType

  /** One entry of properties_: the names gathered from properties, required and dependencies.
      declared: the name stands in properties; one that does not has the typeless schema. */
  datatype Property = Property(name: bytes, declared: bool, schema: Schema, required: bool, dependencies: Dependencies)

  datatype Dependencies =
    | NoDependencies
    | Names(targets: seq<bool>)     // indexed like properties_
    | DependsOn(schema: Schema)

  datatype Additional = Allow(allowed: bool) | Matching(schema: Schema)

  /** The number of a minimum or maximum. */
  datatype Bound = Whole(value: integer) | Fraction(literal: bytes)

  /** How numbers are converted to double. The theorems hold for every conversion. */
  datatype Doubles = Doubles(ofInteger: integer -> real, ofLiteral: bytes -> real)

  datatype Items = AnyItems | List(schema: Schema) | Tuple(schemas: seq<Schema>)

  datatype Schema = Schema(
    types: set<SchemaType>,
    allOf: seq<Schema>,
    anyOf: seq<Schema>,
    oneOf: seq<Schema>,
    not_: Option<Schema>,
    properties: seq<Property>,
    additionalProperties: Additional,
    minProperties: nat,
    maxProperties: nat,
    items: Items,
    additionalItems: Additional,
    minItems: nat,
    maxItems: nat,
    minimum: Option<Bound>,
    exclusiveMinimum: bool,
    maximum: Option<Bound>,
    exclusiveMaximum: bool,
    doubles: Doubles,
    defaultValueLength: nat)

  /** The schema of an empty schema document: everything is allowed. */
  function Typeless(): Schema {
    Schema({NullType, BooleanType, ObjectType, ArrayType, StringType, NumberType, IntegerType},
           [], [], [], None,
           [], Allow(true), 0, UINT32_MAX,
           AnyItems, Allow(true), 0, UINT32_MAX,
           None, false, None, false, Doubles(_ => 0.0, _ => 0.0), 0)
  }

  // ----- the parallel sub-schemas and the validator slots they get -----

  function NotSchemas(s: Schema): seq<Schema> {
    match s.not_ case None => [] case Some(n) => [n]
  }

  function DependencySchemas(ps: seq<Property>): seq<Schema> {
    if ps == [] then []
    else (match ps[0].dependencies case DependsOn(d) => [d] case _ => []) + DependencySchemas(ps[1..])
  }

  /** The schema of every slot of context.validators, in slot order. */
  function Parallel(s: Schema): seq<Schema> {
    s.allOf + s.anyOf + s.oneOf + NotSchemas(s) + DependencySchemas(s.properties)
  }

  function AnyOfBegin(s: Schema): nat { |s.allOf| }
  function OneOfBegin(s: Schema): nat { |s.allOf| + |s.anyOf| }
  function NotIndex(s: Schema): nat { |s.allOf| + |s.anyOf| + |s.oneOf| }
  function DependencyBegin(s: Schema): nat { NotIndex(s) + |NotSchemas(s)| }

  /** The slot of properties_[i], counted among the dependency slots. */
  function DependencySlot(ps: seq<Property>, i: nat): nat
    requires i <= |ps|
  {
    |DependencySchemas(ps[..i])|
  }

  // ----- looking up the schema of a member or an element -----

  /** FindPropertyIndex: the first entry with that name, or |ps|. */
  function FindPropertyIndex(ps: seq<Property>, name: bytes): (index: nat)
    ensures index <= |ps|
    ensures index < |ps| ==> ps[index].name == name
    ensures forall i :: 0 <= i < index ==> ps[i].name != name
  {
    if ps == [] || ps[0].name == name then 0
    else
      var index := FindPropertyIndex(ps[1..], name) + 1;
      assert forall i :: 1 <= i < index ==> ps[i] == ps[1..][i - 1];
      index
  }

  function Allowance(a: Additional): Option<Schema> {
    match a
    case Matching(s) => Some(s)
    case Allow(ok) => if ok then Some(Typeless()) else None
  }

  /** The schema a member's value has to meet; None when the member itself is not allowed. */
  function MemberSchema(s: Schema, name: bytes): Option<Schema> {
    var index := FindPropertyIndex(s.properties, name);
    if index < |s.properties| then Some(s.properties[index].schema)
    else Allowance(s.additionalProperties)
  }

  /** The schema element i has to meet; None when there may be no such element. */
  function ElementSchema(s: Schema, i: nat): Option<Schema> {
    match s.items
    case AnyItems => Some(Typeless())
    case List(l) => Some(l)
    case Tuple(ts) => if i < |ts| then Some(ts[i]) else Allowance(s.additionalItems)
  }

  // ----- the meaning of a schema -----

  /** Draft-04 validation (JSON Schema validation, section 5) as the compiled form has it. */
  ghost predicate Valid(s: Schema, v: Value)
    decreases v, s, 1
  {
    OwnValid(s, v) && ChildrenValid(s, v) && CombinatorsValid(s, v) && DependenciesValid(s, v)
  }

  /** allOf, anyOf, oneOf and not. */
  ghost predicate CombinatorsValid(s: Schema, v: Value)
    decreases v, s, 0
  {
    && (forall i :: 0 <= i < |s.allOf| ==> Valid(s.allOf[i], v))
    && (s.anyOf != [] ==> exists i :: 0 <= i < |s.anyOf| && Valid(s.anyOf[i], v))
    && (s.oneOf != [] ==> exists i :: 0 <= i < |s.oneOf| && Valid(s.oneOf[i], v))
    && (forall i, j :: 0 <= i < j < |s.oneOf| ==> !(Valid(s.oneOf[i], v) && Valid(s.oneOf[j], v)))
    && (s.not_.Some? ==> !Valid(s.not_.value, v))
  }

  /** A member that is present brings its dependency schema along. */
  ghost predicate DependenciesValid(s: Schema, v: Value)
    decreases v, s, 0
  {
    v.VObject? ==> forall i :: 0 <= i < |s.properties| && s.properties[i].dependencies.DependsOn? ==>
      Present(s.properties, i, v.members) ==> Valid(s.properties[i].dependencies.schema, v)
  }

  /** Every member and element meets the schema that governs it. */
  ghost predicate ChildrenValid(s: Schema, v: Value)
    decreases v, s, 0
  {
    match v
    case VArray(es) =>
      forall i :: 0 <= i < |es| ==> ElementSchema(s, i).Some? && Valid(ElementSchema(s, i).value, es[i])
    case VObject(ms) =>
      forall i :: 0 <= i < |ms| ==>
        MemberSchema(s, ms[i].name).Some? && Valid(MemberSchema(s, ms[i].name).value, ms[i].value)
    case _ => true
  }

  /** Some member's name is found at entry i of properties_. */
  ghost predicate Present(ps: seq<Property>, i: nat, ms: seq<Member>) {
    exists k :: 0 <= k < |ms| && FindPropertyIndex(ps, ms[k].name) == i
  }

  /** The keywords that look at the value itself and not at its children. */
  ghost predicate OwnValid(s: Schema, v: Value) {
    match v
    case VNull => NullType in s.types
    case VBool(_) => BooleanType in s.types
    case VInt(n) => (IntegerType in s.types || NumberType in s.types) && InRange(s, n)
    case VDouble(l) => NumberType in s.types && DoubleInRange(s, s.doubles.ofLiteral(l))
    case VString(_) => StringType in s.types
    case VArray(es) => ArrayType in s.types && s.minItems <= |es| <= s.maxItems
    case VObject(ms) =>
      && ObjectType in s.types
      && s.minProperties <= |ms| <= s.maxProperties
      && (forall i :: 0 <= i < |s.properties| ==> RequirementMet(s.properties, i, ms))
      && (forall i :: 0 <= i < |s.properties| ==> NamesPresent(s.properties, i, ms))
  }

  function DoubleOf(doubles: Doubles, b: Bound): real {
    match b case Whole(n) => doubles.ofInteger(n) case Fraction(l) => doubles.ofLiteral(l)
  }

  /** minimum and maximum for an integer: integers are compared as such, and with a bound that is
      a double as doubles. */
  ghost predicate InRange(s: Schema, n: integer) {
    var x := s.doubles.ofInteger(n);
    && (match s.minimum
        case None => true
        case Some(Whole(m)) => if s.exclusiveMinimum then n > m else n >= m
        case Some(Fraction(l)) => AboveMinimum(s, x, s.doubles.ofLiteral(l)))
    && (match s.maximum
        case None => true
        case Some(Whole(m)) => if s.exclusiveMaximum then n < m else n <= m
        case Some(Fraction(l)) => BelowMaximum(s, x, s.doubles.ofLiteral(l)))
  }

  ghost predicate AboveMinimum(s: Schema, x: real, m: real) { if s.exclusiveMinimum then x > m else x >= m }
  ghost predicate BelowMaximum(s: Schema, x: real, m: real) { if s.exclusiveMaximum then x < m else x <= m }

  /** minimum and maximum for a double. */
  ghost predicate DoubleInRange(s: Schema, x: real) {
    && (s.minimum.Some? ==> AboveMinimum(s, x, DoubleOf(s.doubles, s.minimum.value)))
    && (s.maximum.Some? ==> BelowMaximum(s, x, DoubleOf(s.doubles, s.maximum.value)))
  }

  /** A required property may be missing when its schema has a non-empty string default. */
  ghost predicate RequirementMet(ps: seq<Property>, i: nat, ms: seq<Member>)
    requires i < |ps|
  {
    ps[i].required && ps[i].schema.defaultValueLength == 0 ==> Present(ps, i, ms)
  }

  ghost predicate NamesPresent(ps: seq<Property>, i: nat, ms: seq<Member>)
    requires i < |ps|
  {
    ps[i].dependencies.Names? && Present(ps, i, ms) ==>
      forall j :: 0 <= j < |ps| && j < |ps[i].dependencies.targets| && ps[i].dependencies.targets[j] ==>
      Present(ps, j, ms)
  }

  /** The names of properties_ are distinct (AddUniqueElement), so an entry is present
      exactly when the object has a member of its name. */
  lemma PresentByName(ps: seq<Property>, i: nat, ms: seq<Member>)
    requires i < |ps| && forall j, k :: 0 <= j < k < |ps| ==> ps[j].name != ps[k].name
    ensures Present(ps, i, ms) <==> exists k :: 0 <= k < |ms| && ms[k].name == ps[i].name
  {
    forall k | 0 <= k < |ms|
      ensures FindPropertyIndex(ps, ms[k].name) == i <==> ms[k].name == ps[i].name
    {
      FindFirst(ps, ms[k].name);
    }
  }

  lemma {:induction false} FindFirst(ps: seq<Property>, name: bytes)
    ensures FindPropertyIndex(ps, name) == |ps| ==> forall i :: 0 <= i < |ps| ==> ps[i].name != name
  {
  }

  // ----- how deep the parallel validators nest -----

  function Height(s: Schema): nat {
    1 + Max(Max(Max(Heights(s.allOf), Heights(s.anyOf)), Max(Heights(s.oneOf), OptionHeight(s.not_))),
            Max(Max(PropertyHeights(s.properties), AdditionalHeight(s.additionalProperties)),
                Max(ItemsHeight(s.items), AdditionalHeight(s.additionalItems))))
  }

  function Max(a: nat, b: nat): nat { if a < b then b else a }

  function Heights(ss: seq<Schema>): nat {
    if ss == [] then 0 else Max(Height(ss[0]), Heights(ss[1..]))
  }

  function OptionHeight(o: Option<Schema>): nat {
    match o case None => 0 case Some(s) => Height(s)
  }

  function AdditionalHeight(a: Additional): nat {
    match a case Allow(_) => 0 case Matching(s) => Height(s)
  }

  function ItemsHeight(it: Items): nat {
    match it
    case AnyItems => 0
    case List(s) => Height(s)
    case Tuple(ss) => Heights(ss)
  }

  function PropertyHeights(ps: seq<Property>): nat {
    if ps == [] then 0
    else Max(Max(Height(ps[0].schema), DependencyHeight(ps[0].dependencies)), PropertyHeights(ps[1..]))
  }

  function DependencyHeight(d: Dependencies): nat {
    match d case DependsOn(s) => Height(s) case _ => 0
  }

  lemma {:induction false} HeightsBound(ss: seq<Schema>, i: nat)
    requires i < |ss|
    ensures Height(ss[i]) <= Heights(ss)
  {
    if i > 0 {
      assert ss[i] == ss[1..][i - 1];
      HeightsBound(ss[1..], i - 1);
    }
  }

  lemma {:induction false} PropertyHeightsBound(ps: seq<Property>, i: nat)
    requires i < |ps|
    ensures Height(ps[i].schema) <= PropertyHeights(ps)
    ensures ps[i].dependencies.DependsOn? ==> Height(ps[i].dependencies.schema) <= PropertyHeights(ps)
  {
    if i > 0 {
      assert ps[i] == ps[1..][i - 1];
      PropertyHeightsBound(ps[1..], i - 1);
    }
  }

  lemma {:induction false} DependencyHeightsBound(ps: seq<Property>, i: nat)
    requires i < |DependencySchemas(ps)|
    ensures Height(DependencySchemas(ps)[i]) <= PropertyHeights(ps)
  {
    var here := if ps[0].dependencies.DependsOn? then 1 else 0;
    if i >= here {
      DependencyHeightsBound(ps[1..], i - here);
    }
  }

  /** A parallel sub-schema is strictly lower than its schema. */
  lemma ParallelHeight(s: Schema, i: nat)
    requires i < |Parallel(s)|
    ensures Height(Parallel(s)[i]) < Height(s)
  {
    if i < AnyOfBegin(s) {
      HeightsBound(s.allOf, i);
    } else if i < OneOfBegin(s) {
      HeightsBound(s.anyOf, i - AnyOfBegin(s));
    } else if i < NotIndex(s) {
      HeightsBound(s.oneOf, i - OneOfBegin(s));
    } else if i >= DependencyBegin(s) {
      DependencyHeightsBound(s.properties, i - DependencyBegin(s));
    }
  }

  lemma TypelessHeight(s: Schema)
    ensures Height(Typeless()) == 1 <= Height(s)
  {
  }

  /** The schema of a child is no higher than the schema of its parent. */
  lemma ChildHeight(s: Schema, name: bytes, i: nat)
    ensures MemberSchema(s, name).Some? ==> Height(MemberSchema(s, name).value) <= Height(s)
    ensures ElementSchema(s, i).Some? ==> Height(ElementSchema(s, i).value) <= Height(s)
  {
    TypelessHeight(s);
    var index := FindPropertyIndex(s.properties, name);
    if index < |s.properties| { PropertyHeightsBound(s.properties, index); }
    if s.items.Tuple? && i < |s.items.schemas| { HeightsBound(s.items.schemas, i); }
  }
}
