/** The document's handler methods on its stack, and Accept replaying a tree into them. */
module DocumentMachine {
  import opened Json
  import opened Document

  class GenericDocument {
    var stack: seq<Value>

    constructor ()
      ensures stack == []
    {
      stack := [];
    }

    method Push(v: Value)
      modifies this
      ensures stack == old(stack) + [v]
    {
      stack := stack + [v];
    }

    method EndArray(elementCount: nat)
      requires elementCount + 1 <= |stack|
      modifies this
      ensures Handle(old(stack), Json.EndArray(elementCount)) == Some(stack)
    {
      var n := |stack|;
      var elements := stack[n - elementCount..];
      stack := stack[..n - elementCount];
      stack := stack[..|stack| - 1] + [VArray(elements)];
      assert stack[..|stack| - 1] == old(stack)[..n - elementCount - 1];
    }

    method EndObject(memberCount: nat)
      requires 2 * memberCount + 1 <= |stack| && Pairs(stack[|stack| - 2 * memberCount..]).Some?
      modifies this
      ensures Handle(old(stack), Json.EndObject(memberCount)) == Some(stack)
    {
      hide Pairs;
      var n := |stack|;
      var members := Pairs(stack[n - 2 * memberCount..]).value;
      stack := stack[..n - 2 * memberCount];
      stack := stack[..|stack| - 1] + [VObject(members)];
      assert stack[..|stack| - 1] == old(stack)[..n - 2 * memberCount - 1];
    }

    /** A handler call; an End call needs its container's children on the stack. */
    method Event(e: Event)
      requires Handle(stack, e).Some?
      modifies this
      ensures Handle(old(stack), e) == Some(stack)
    {
      hide Pairs;
      match e
      case Null => Push(VNull);
      case Bool(b) => Push(VBool(b));
      case Integer(_, n) => Push(VInt(n));
      case Double(l) => Push(VDouble(l));
      case String(s) => Push(VString(s));
      case Key(s) => Push(VString(s));
      case StartObject => Push(VObject([]));
      case StartArray => Push(VArray([]));
      case EndObject(count) => EndObject(count);
      case EndArray(count) => EndArray(count);
    }

    /** Accept: the value's handler calls leave the stack with exactly this value more. */
    method Accept(v: Value)
      modifies this
      ensures stack == old(stack) + [v]
      decreases v
    {
      assert Flat([]) == [];
      hide Pairs, Flat;
      match v
      case VNull => Event(Null);
      case VBool(b) => Event(Bool(b));
      case VInt(n) => Event(Integer(AcceptKind(n), n));
      case VDouble(l) => Event(Double(l));
      case VString(s) => Event(String(s));
      case VArray(es) =>
        Event(StartArray);
        ghost var base := stack;
        var i := 0;
        while i < |es|
          invariant i <= |es| && stack == base + es[..i]
        {
          Accept(es[i]);
          i := i + 1;
        }
        assert es[..|es|] == es;
        EndsArray(old(stack), VArray([]), es);
        Event(Json.EndArray(|es|));
      case VObject(ms) =>
        Event(StartObject);
        ghost var base := stack;
        var i := 0;
        assert ms[..0] == [] && base + [] == base;
        while i < |ms|
          invariant i <= |ms| && stack == base + Flat(ms[..i])
        {
          Event(Key(ms[i].name));
          Accept(ms[i].value);
          FlatMore(ms, i);
          i := i + 1;
        }
        assert ms[..|ms|] == ms;
        EndsObject(old(stack), VObject([]), ms);
        Event(Json.EndObject(|ms|));
    }
  }

  lemma {:induction false} FlatAppend(a: seq<Member>, b: seq<Member>)
    ensures Flat(a + b) == Flat(a) + Flat(b)
  {
    if a == [] {
      assert a + b == b;
    } else {
      assert (a + b)[1..] == a[1..] + b;
      FlatAppend(a[1..], b);
    }
  }

  lemma FlatMore(ms: seq<Member>, i: nat)
    requires i < |ms|
    ensures Flat(ms[..i + 1]) == Flat(ms[..i]) + [VString(ms[i].name)] + [ms[i].value]
  {
    assert ms[..i + 1] == ms[..i] + [ms[i]];
    FlatAppend(ms[..i], [ms[i]]);
    assert Flat([ms[i]]) == [VString(ms[i].name), ms[i].value] + Flat([]);
  }
}
