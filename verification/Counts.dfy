/** The counts of children in 32 bits (SizeType), as the parsers report them. */
module Counts {
  import opened Json

  /** SizeType: a count of children as the parser reports it. */
  function Low(n: nat): nat { n % 0x1_0000_0000 }

  /** The events of v with every count in 32 bits. */
  function Reported(v: Value, kindOf: integer -> IntKind): seq<Event> {
    match v
    case VArray(es) => [StartArray] + ReportedElements(es, kindOf) + [EndArray(Low(|es|))]
    case VObject(ms) => [StartObject] + ReportedMembers(ms, kindOf) + [EndObject(Low(|ms|))]
    case _ => Events(v, kindOf)
  }

  function ReportedElements(es: seq<Value>, kindOf: integer -> IntKind): seq<Event> {
    if es == [] then [] else Reported(es[0], kindOf) + ReportedElements(es[1..], kindOf)
  }

  function ReportedMembers(ms: seq<Member>, kindOf: integer -> IntKind): seq<Event> {
    if ms == [] then [] else [Key(ms[0].name)] + Reported(ms[0].value, kindOf) + ReportedMembers(ms[1..], kindOf)
  }

  /** No container has more children than 32 bits count. */
  predicate CountsFit(v: Value) {
    match v
    case VArray(es) => |es| <= UINT32_MAX && ElementCountsFit(es)
    case VObject(ms) => |ms| <= UINT32_MAX && MemberCountsFit(ms)
    case _ => true
  }

  predicate ElementCountsFit(es: seq<Value>) { es == [] || (CountsFit(es[0]) && ElementCountsFit(es[1..])) }

  predicate MemberCountsFit(ms: seq<Member>) { ms == [] || (CountsFit(ms[0].value) && MemberCountsFit(ms[1..])) }

  lemma {:induction false} FittingCounts(v: Value, kindOf: integer -> IntKind)
    requires CountsFit(v)
    ensures Reported(v, kindOf) == Events(v, kindOf)
    decreases v, 1
  {
    if v.VArray? {
      FittingElements(v.elements, kindOf);
    } else if v.VObject? {
      FittingMembers(v.members, kindOf);
    }
  }

  lemma {:induction false} FittingElements(es: seq<Value>, kindOf: integer -> IntKind)
    requires ElementCountsFit(es)
    ensures ReportedElements(es, kindOf) == ElementEvents(es, kindOf)
    decreases es, 0
  {
    if es != [] {
      FittingCounts(es[0], kindOf);
      FittingElements(es[1..], kindOf);
    }
  }

  lemma {:induction false} FittingMembers(ms: seq<Member>, kindOf: integer -> IntKind)
    requires MemberCountsFit(ms)
    ensures ReportedMembers(ms, kindOf) == MemberEvents(ms, kindOf)
    decreases ms, 0
  {
    if ms != [] {
      FittingCounts(ms[0].value, kindOf);
      FittingMembers(ms[1..], kindOf);
    }
  }
}
