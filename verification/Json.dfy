/** The vocabulary shared by every component: code units, JSON trees and the
    events that readers send to handlers (rapidjson/reader.h, concept Handler). */
module Json {

  datatype Option<+T> = None | Some(value: T)

  /** A UTF-8 code unit. */
  type byte = x: int | 0 <= x < 0x100
  type bytes = seq<byte>

  /** The integers that JSON text can denote as integers: int64 and uint64 together. */
  type integer = x: int | -0x8000_0000_0000_0000 <= x <= 0xFFFF_FFFF_FFFF_FFFF

  /** The integer event a number is reported with. */
  datatype IntKind = Int32 | Uint32 | Int64 | Uint64

  datatype Event =
    | Null
    | Bool(b: bool)
    | Integer(kind: IntKind, value: integer)
    | Double(literal: bytes)   // a number outside the integer ranges, kept as its text
    | String(str: bytes)
    | StartObject
    | Key(name: bytes)
    | EndObject(memberCount: nat)
    | StartArray
    | EndArray(elementCount: nat)

  /** A JSON tree. Members keep their order and may repeat a name, as in GenericValue. */
  datatype Value =
    | VNull
    | VBool(b: bool)
    | VInt(value: integer)
    | VDouble(literal: bytes)
    | VString(str: bytes)
    | VArray(elements: seq<Value>)
    | VObject(members: seq<Member>)

  datatype Member = Member(name: bytes, value: Value)

  const INT32_MAX := 0x7FFF_FFFF
  const UINT32_MAX := 0xFFFF_FFFF
  const INT64_MAX := 0x7FFF_FFFF_FFFF_FFFF
  const UINT64_MAX := 0xFFFF_FFFF_FFFF_FFFF

  /** An event kind that can carry the number n. */
  predicate KindFits(kind: IntKind, n: int) {
    match kind
    case Int32 => -INT32_MAX - 1 <= n <= INT32_MAX
    case Uint32 => 0 <= n <= UINT32_MAX
    case Int64 => -INT64_MAX - 1 <= n <= INT64_MAX
    case Uint64 => 0 <= n <= UINT64_MAX
  }

  /** The order in which Accept tests the number flags (IsInt, IsUint, IsInt64, otherwise Uint64). */
  function AcceptKind(n: integer): IntKind {
    if -INT32_MAX - 1 <= n <= INT32_MAX then Int32
    else if 0 <= n <= UINT32_MAX then Uint32
    else if -INT64_MAX - 1 <= n <= INT64_MAX then Int64
    else Uint64
  }

  /** The events GenericValue::Accept sends for a value; kindOf chooses the integer event. */
  function Events(v: Value, kindOf: integer -> IntKind): seq<Event> {
    match v
    case VNull => [Null]
    case VBool(b) => [Bool(b)]
    case VInt(n) => [Integer(kindOf(n), n)]
    case VDouble(l) => [Double(l)]
    case VString(s) => [String(s)]
    case VArray(es) => [StartArray] + ElementEvents(es, kindOf) + [EndArray(|es|)]
    case VObject(ms) => [StartObject] + MemberEvents(ms, kindOf) + [EndObject(|ms|)]
  }

  function ElementEvents(es: seq<Value>, kindOf: integer -> IntKind): seq<Event> {
    if es == [] then []
    else Events(es[0], kindOf) + ElementEvents(es[1..], kindOf)
  }

  function MemberEvents(ms: seq<Member>, kindOf: integer -> IntKind): seq<Event> {
    if ms == [] then []
    else [Key(ms[0].name)] + Events(ms[0].value, kindOf) + MemberEvents(ms[1..], kindOf)
  }
}
