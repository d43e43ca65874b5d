/** The hasher as it runs: its handler methods push and pop hash codes. */
module HasherMachine {
  import opened Json
  import opened Hasher

  class EventHasher {
    const d: Doubles
    var stack: seq<word>

    constructor (d: Doubles)
      ensures stack == [] && this.d == d
    {
      this.d := d;
      stack := [];
    }

    /** WriteBuffer: FNV-1a over the bytes. */
    method WriteBuffer(kind: word, data: bytes)
      modifies this
      ensures stack == old(stack) + [BufferHash(kind, data)]
    {
      hide Mix;
      var h := Mix(OFFSET, kind);
      var i := 0;
      assert data[0..] == data;
      while i < |data|
        invariant i <= |data| && MixBytes(h, data[i..]) == BufferHash(kind, data) && stack == old(stack)
      {
        assert data[i..][1..] == data[i + 1..];
        h := Mix(h, data[i]);
        i := i + 1;
      }
      assert data[i..] == [];
      stack := stack + [h];
    }

    method EndObject(memberCount: nat)
      requires 2 * memberCount <= |stack|
      modifies this
      ensures Handle(d, old(stack), Json.EndObject(memberCount)) == Some(stack)
    {
      hide Mix, Xor;
      var n := |stack| - 2 * memberCount;
      var h := Mix(0, K_OBJECT);
      var kv := stack[n..];
      stack := stack[..n];
      var i := 0;
      assert kv[0..] == kv;
      while i < memberCount
        invariant i <= memberCount && stack == old(stack)[..n]
        invariant PairsHash(h, kv[2 * i..]) == PairsHash(Mix(0, K_OBJECT), kv)
      {
        assert kv[2 * i..][2..] == kv[2 * (i + 1)..];
        h := Xor(h, Mix(kv[2 * i], kv[2 * i + 1]));
        i := i + 1;
      }
      assert kv[2 * i..] == [];
      stack := stack + [h];
    }

    method EndArray(elementCount: nat)
      requires elementCount <= |stack|
      modifies this
      ensures Handle(d, old(stack), Json.EndArray(elementCount)) == Some(stack)
    {
      hide Mix;
      var n := |stack| - elementCount;
      var h := Mix(0, K_ARRAY);
      var e := stack[n..];
      stack := stack[..n];
      var i := 0;
      assert e[0..] == e;
      while i < elementCount
        invariant i <= elementCount && stack == old(stack)[..n]
        invariant FoldHash(h, e[i..]) == FoldHash(Mix(0, K_ARRAY), e)
      {
        assert e[i..][1..] == e[i + 1..];
        h := Mix(h, e[i]);
        i := i + 1;
      }
      assert e[i..] == [];
      stack := stack + [h];
    }

    /** An event; an End event needs its container's hash codes on the stack. */
    method Event(e: Event)
      requires Handle(d, stack, e).Some?
      modifies this
      ensures Handle(d, old(stack), e) == Some(stack)
    {
      hide BufferHash, PairsHash, FoldHash, NumberMemory;
      match e
      case Null => WriteBuffer(K_NULL, []);
      case Bool(b) => WriteBuffer(if b then K_TRUE else K_FALSE, []);
      case Integer(_, n) => WriteBuffer(K_NUMBER, NumberMemory(d, n));
      case Double(l) => WriteBuffer(K_NUMBER, d.doubleMemory(l));
      case String(s) => WriteBuffer(K_STRING, s);
      case Key(s) => WriteBuffer(K_STRING, s);
      case StartObject =>
      case StartArray =>
      case EndObject(count) => EndObject(count);
      case EndArray(count) => EndArray(count);
    }
  }
}
