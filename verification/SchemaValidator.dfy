/** The streaming validator (rapidjson/schema.h, GenericSchemaValidator and the event
    methods of Schema) as a state machine over events. */
module SchemaValidator {
  import opened Json
  import opened Schema
  import Decimal

  /** SchemaValidationContext: one open value of the document. */
  datatype Context = Context(
    schema: Schema,
    valueSchema: Schema,
    validators: seq<Validator>,
    propertyExist: seq<bool>,
    inArray: bool,
    arrayElementIndex: nat)

  /** GenericSchemaValidator: documentStack_ is path, schemaStack_ is stack. */
  datatype Validator = Validator(root: Schema, valid: bool, stack: seq<Context>, path: bytes)

  function NewContext(s: Schema): Context {
    Context(s, Typeless(), [], [], false, 0)
  }

  function NewValidator(root: Schema, path: bytes): Validator {
    Validator(root, true, [], path)
  }

  function Top(v: Validator): Context
    requires v.stack != []
  {
    v.stack[|v.stack| - 1]
  }

  function SetTop(v: Validator, c: Context): Validator
    requires v.stack != []
  {
    v.(stack := v.stack[..|v.stack| - 1] + [c])
  }

  // ----- the document path -----

  const TILDE: byte := '~' as int
  const SLASH: byte := '/' as int

  function EscapeName(name: bytes): bytes {
    if name == [] then []
    else
      (if name[0] == TILDE then [TILDE, '0' as int]
       else if name[0] == SLASH then [TILDE, '1' as int]
       else [name[0]]) + EscapeName(name[1..])
  }

  function AppendToken(path: bytes, name: bytes): bytes { path + [SLASH] + EscapeName(name) }

  function AppendIndexToken(path: bytes, index: nat): bytes { path + [SLASH] + Decimal.Digits(index) }

  /** EndValue's loop: pop code units up to and including the last slash. */
  function PopToken(path: bytes): bytes {
    if path == [] then []
    else if path[|path| - 1] == SLASH then path[..|path| - 1]
    else PopToken(path[..|path| - 1])
  }

  // ----- the event methods of Schema -----

  /** Schema::BeginValue, called on the enclosing context. */
  function SchemaBeginValue(c: Context): Option<Context> {
    if !c.inArray then Some(c)
    else match ElementSchema(c.schema, c.arrayElementIndex)
      case None => None
      case Some(s) => Some(c.(valueSchema := s, arrayElementIndex := c.arrayElementIndex + 1))
  }

  function CreateParallelValidators(c: Context, path: bytes): Context {
    c.(validators := seq(|Parallel(c.schema)|, i requires 0 <= i < |Parallel(c.schema)| =>
                           NewValidator(Parallel(c.schema)[i], path)))
  }

  predicate HasRequired(s: Schema) { exists i :: 0 <= i < |s.properties| && s.properties[i].required }
  predicate HasDependencies(s: Schema) {
    exists i :: 0 <= i < |s.properties| && !s.properties[i].dependencies.NoDependencies?
  }

  /** The schema event that opens a value: Null .. String, StartObject, StartArray. */
  function SchemaOpen(c: Context, e: Event, path: bytes): Option<Context> {
    var s := c.schema;
    match e
    case Null => if NullType in s.types then Some(CreateParallelValidators(c, path)) else None
    case Bool(_) => if BooleanType in s.types then Some(CreateParallelValidators(c, path)) else None
    case Integer(kind, n) =>
      if CheckInteger(s, kind, n) then Some(CreateParallelValidators(c, path)) else None
    case Double(l) => if CheckDouble(s, s.doubles.ofLiteral(l)) then Some(CreateParallelValidators(c, path)) else None
    case String(_) => if StringType in s.types then Some(CreateParallelValidators(c, path)) else None
    case StartObject =>
      if ObjectType !in s.types then None
      else
        var exist := if HasDependencies(s) || HasRequired(s) then seq(|s.properties|, _ => false) else [];
        Some(CreateParallelValidators(c.(propertyExist := exist), path))
    case StartArray =>
      if ArrayType !in s.types then None
      else Some(CreateParallelValidators(c.(inArray := true, arrayElementIndex := 0), path))
    case _ => None
  }

  predicate IsInt64(n: int) { -INT64_MAX - 1 <= n <= INT64_MAX }

  /** CheckInt for Int and Int64 events, CheckUint for Uint and Uint64 events. */
  predicate CheckInteger(s: Schema, kind: IntKind, n: integer) {
    && (IntegerType in s.types || NumberType in s.types)
    && if kind.Int32? || kind.Int64? then CheckInt(s, n) else CheckUint(s, n)
  }

  predicate CheckInt(s: Schema, i: integer) {
    && (s.minimum.Some? ==>
          var m := s.minimum.value;
          if m.Fraction? then CheckDoubleMinimum(s, s.doubles.ofInteger(i))
          else if IsInt64(m.value) then !(if s.exclusiveMinimum then i <= m.value else i < m.value)
          else false)
    && (s.maximum.Some? ==>
          var m := s.maximum.value;
          if m.Fraction? then CheckDoubleMaximum(s, s.doubles.ofInteger(i))
          else if IsInt64(m.value) then !(if s.exclusiveMaximum then i >= m.value else i > m.value)
          else true)
  }

  predicate CheckUint(s: Schema, i: integer) {
    && (s.minimum.Some? ==>
          var m := s.minimum.value;
          if m.Fraction? then CheckDoubleMinimum(s, s.doubles.ofInteger(i))
          else if m.value >= 0 then !(if s.exclusiveMinimum then i <= m.value else i < m.value)
          else true)
    && (s.maximum.Some? ==>
          var m := s.maximum.value;
          if m.Fraction? then CheckDoubleMaximum(s, s.doubles.ofInteger(i))
          else if m.value >= 0 then !(if s.exclusiveMaximum then i >= m.value else i > m.value)
          else false)
  }

  /** Schema::Double. */
  predicate CheckDouble(s: Schema, d: real) {
    && NumberType in s.types
    && (s.minimum.Some? ==> CheckDoubleMinimum(s, d))
    && (s.maximum.Some? ==> CheckDoubleMaximum(s, d))
  }

  predicate CheckDoubleMinimum(s: Schema, d: real)
    requires s.minimum.Some?
  {
    var m := DoubleOf(s.doubles, s.minimum.value);
    !(if s.exclusiveMinimum then d <= m else d < m)
  }

  predicate CheckDoubleMaximum(s: Schema, d: real)
    requires s.maximum.Some?
  {
    var m := DoubleOf(s.doubles, s.maximum.value);
    !(if s.exclusiveMaximum then d >= m else d > m)
  }

  /** Schema::Key. */
  function SchemaKey(c: Context, name: bytes): Option<Context> {
    var index := FindPropertyIndex(c.schema.properties, name);
    if index < |c.schema.properties| then
      Some(c.(valueSchema := c.schema.properties[index].schema,
              propertyExist := if index < |c.propertyExist| then c.propertyExist[index := true] else c.propertyExist))
    else match Allowance(c.schema.additionalProperties)
      case None => None
      case Some(s) => Some(c.(valueSchema := s))
  }

  /** Schema::EndObject; the dependency slots have already been fed the EndObject event. */
  predicate SchemaEndObject(c: Context, memberCount: nat) {
    && (HasRequired(c.schema) ==> NoMissingProperty(c))
    && c.schema.minProperties <= memberCount
    && memberCount <= c.schema.maxProperties
    && (HasDependencies(c.schema) ==> forall i :: 0 <= i < |c.schema.properties| ==> DependencyMet(c, i))
  }

  predicate NoMissingProperty(c: Context) {
    forall i :: 0 <= i < |c.schema.properties| ==>
      !(c.schema.properties[i].required && !Exists(c, i) && c.schema.properties[i].schema.defaultValueLength == 0)
  }

  predicate DependencyMet(c: Context, i: nat)
    requires i < |c.schema.properties|
  {
    var ps := c.schema.properties;
    Exists(c, i) ==>
      match ps[i].dependencies
      case NoDependencies => true
      case Names(targets) => forall j :: 0 <= j < |ps| && j < |targets| && targets[j] ==> Exists(c, j)
      case DependsOn(_) => SlotValid(c, DependencyBegin(c.schema) + DependencySlot(ps, i))
  }

  predicate Exists(c: Context, i: nat) { i < |c.propertyExist| && c.propertyExist[i] }

  predicate SlotValid(c: Context, i: nat) { i < |c.validators| && c.validators[i].valid }

  /** Schema::EndArray. */
  predicate SchemaEndArray(c: Context, elementCount: nat) {
    c.schema.minItems <= elementCount && elementCount <= c.schema.maxItems
  }

  /** Schema::EndValue: the verdict over the parallel validators. */
  predicate SchemaEndValue(c: Context) {
    var s := c.schema;
    && AllTrue(SlotRange(c, 0, |s.allOf|))
    && (s.anyOf != [] ==> !AllFalse(SlotRange(c, AnyOfBegin(s), |s.anyOf|)))
    && (s.oneOf != [] ==> CountTrue(SlotRange(c, OneOfBegin(s), |s.oneOf|)) == 1)
    && (s.not_.Some? ==> !SlotValid(c, NotIndex(s)))
  }

  function SlotRange(c: Context, begin: nat, count: nat): seq<bool> {
    seq(count, i requires 0 <= i < count => SlotValid(c, begin + i))
  }

  predicate AllTrue(bs: seq<bool>) { forall i :: 0 <= i < |bs| ==> bs[i] }
  predicate AllFalse(bs: seq<bool>) { forall i :: 0 <= i < |bs| ==> !bs[i] }

  function CountTrue(bs: seq<bool>): nat {
    if bs == [] then 0 else (if bs[0] then 1 else 0) + CountTrue(bs[1..])
  }

  // ----- the validator -----

  /** An element's index joins the path before its schema is asked. */
  function BeginPath(v: Validator): bytes {
    if v.stack != [] && Top(v).inArray then AppendIndexToken(v.path, Top(v).arrayElementIndex) else v.path
  }

  /** GenericSchemaValidator::BeginValue: extend the path, ask the enclosing schema, push a context. */
  function BeginValue(v: Validator): Option<Validator> {
    if v.stack == [] then Some(v.(stack := [NewContext(v.root)]))
    else match SchemaBeginValue(Top(v))
      case None => None
      case Some(c) => Some(v.(stack := v.stack[..|v.stack| - 1] + [c, NewContext(c.valueSchema)], path := BeginPath(v)))
  }

  /** GenericSchemaValidator::EndValue after every slot has been fed: verdict, PopSchema, pop the last token. */
  function EndValue(v: Validator): Validator
    requires v.stack != []
  {
    if !SchemaEndValue(Top(v)) then Failed(v)
    else v.(stack := v.stack[..|v.stack| - 1], path := PopToken(v.path))
  }

  function Failed(v: Validator): Validator { v.(valid := false) }

  predicate Opens(e: Event) { !e.Key? && !e.EndObject? && !e.EndArray? }
  predicate Closes(e: Event) { !e.Key? && !e.StartObject? && !e.StartArray? }

  /** One event through the whole tree of validators. Validators of a context are one
      level deeper than the validator that owns the context; depth bounds the levels below. */
  function Step(depth: nat, v: Validator, e: Event): Validator
    decreases depth, 1
  {
    if depth == 0 || !v.valid then v
    else if Opens(e) then
      match BeginValue(v)
      case None => Failed(v.(path := BeginPath(v)))
      case Some(w) =>
        match SchemaOpen(Top(w), e, w.path)
        case None => Failed(w)
        case Some(c) =>
          var w' := w.(stack := Feed(depth, SetTop(w, c).stack, e));
          if Closes(e) then EndValue(w') else w'
    else if v.stack == [] then v   // no value is open: not an event sequence of a document
    else match e
      case Key(name) =>
        var w := v.(path := AppendToken(v.path, name));
        (match SchemaKey(Top(w), name)
         case None => Failed(w)
         case Some(c) => w.(stack := Feed(depth, SetTop(w, c).stack, e)))
      case EndObject(memberCount) =>
        var w := v.(stack := Feed(depth, v.stack, e));
        if SchemaEndObject(Top(w), memberCount) then EndValue(w) else Failed(w)
      case EndArray(elementCount) =>
        var w := v.(stack := Feed(depth, v.stack, e));
        var w' := SetTop(w, Top(w).(inArray := false));
        if SchemaEndArray(Top(w'), elementCount) then EndValue(w') else Failed(w')
  }

  /** RAPIDJSON_SCHEMA_HANDLE_PARALLEL_: every slot of every open context gets the event. */
  function Feed(depth: nat, cs: seq<Context>, e: Event): (r: seq<Context>)
    requires depth > 0
    decreases depth, 0
  {
    seq(|cs|, i requires 0 <= i < |cs| =>
      cs[i].(validators := seq(|cs[i].validators|, j requires 0 <= j < |cs[i].validators| =>
                             Step(depth - 1, cs[i].validators[j], e))))
  }

  function Run(depth: nat, v: Validator, es: seq<Event>): Validator
    decreases |es|
  {
    if es == [] then v else Run(depth, Step(depth, v, es[0]), es[1..])
  }
}
