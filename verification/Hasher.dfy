/** The hasher of rapidjson/schema.h: a stack machine over the event stream that computes a hash of
    the tree; equal values have equal hashes. */
module Hasher {
  import opened Json
  import Eq = Equality

  // ----- 64-bit words -----

  const TWO_64: int := 0x1_0000_0000_0000_0000

  /** uint64_t. */
  type word = x: int | 0 <= x < TWO_64

  /** The exclusive or, bit by bit. */
  function XorBits(a: nat, b: nat): nat
    decreases a + b
  {
    if a == 0 && b == 0 then 0 else 2 * XorBits(a / 2, b / 2) + if a % 2 == b % 2 then 0 else 1
  }

  function Pow2(n: nat): nat { if n == 0 then 1 else 2 * Pow2(n - 1) }

  lemma {:induction false} BitsBound(a: nat, b: nat, n: nat)
    requires a < Pow2(n) && b < Pow2(n)
    ensures XorBits(a, b) < Pow2(n)
    decreases n
  {
    if n > 0 { BitsBound(a / 2, b / 2, n - 1); }
  }

  lemma {:induction false} PowerOfSum(m: nat, n: nat)
    ensures Pow2(m + n) == Pow2(m) * Pow2(n)
    decreases n
  {
    if n > 0 { PowerOfSum(m, n - 1); }
  }

  lemma WordBits()
    ensures Pow2(64) == TWO_64
  {
    assert Pow2(3) == 8 && Pow2(4) == 16;
    PowerOfSum(4, 4);
    PowerOfSum(8, 8);
    PowerOfSum(16, 16);
    PowerOfSum(32, 32);
  }

  function Xor(a: word, b: word): word {
    WordBits();
    BitsBound(a, b, 64);
    XorBits(a, b)
  }

  lemma {:induction false} BitsAssociate(a: nat, b: nat, c: nat)
    ensures XorBits(XorBits(a, b), c) == XorBits(a, XorBits(b, c)) && XorBits(a, b) == XorBits(b, a)
    decreases a + b + c
  {
    if a + b + c > 0 { BitsAssociate(a / 2, b / 2, c / 2); }
  }

  lemma {:induction false} BitsCancel(a: nat, b: nat)
    ensures XorBits(a, XorBits(a, b)) == b && XorBits(b, 0) == b
    decreases a + b
  {
    if a + b > 0 { BitsCancel(a / 2, b / 2); }
  }

  lemma XorAssociates(a: word, b: word, c: word)
    ensures Xor(Xor(a, b), c) == Xor(a, Xor(b, c)) && Xor(a, b) == Xor(b, a)
  {
    hide XorBits;
    BitsAssociate(a, b, c);
  }

  lemma XorCancels(a: word, b: word)
    ensures Xor(a, Xor(a, b)) == b && Xor(b, 0) == b
  {
    hide XorBits;
    BitsCancel(a, b);
  }

  // ----- the hash of a tree -----

  const OFFSET: word := 0x8422_2325_cbf2_9ce4

  /** The multiplication by kPrime. */
  function Times(x: word): word { x * 0x0000_0100_0000_01b3 % 0x1_0000_0000_0000_0000 }

  /** Hash: one step of FNV-1a. */
  function Mix(h: word, d: word): word { Times(Xor(h, d)) }

  function MixBytes(h: word, data: bytes): word
    decreases |data|
  {
    if data == [] then h else MixBytes(Mix(h, data[0]), data[1..])
  }

  const K_NULL: word := 0
  const K_FALSE: word := 1
  const K_TRUE: word := 2
  const K_OBJECT: word := 3
  const K_ARRAY: word := 4
  const K_STRING: word := 5
  const K_NUMBER: word := 6

  /** WriteBuffer. */
  function BufferHash(kind: word, data: bytes): word { MixBytes(Mix(OFFSET, kind), data) }

  /** The memory of a Number: for an integer its 64-bit pattern, then the integer as a double. */
  function LittleEndian(n: nat, size: nat): bytes {
    if size == 0 then [] else [n % 0x100] + LittleEndian(n / 0x100, size - 1)
  }

  /** integerDouble and doubleMemory stand for the floating-point conversions. */
  datatype Doubles = Doubles(integerDouble: integer -> bytes, doubleMemory: bytes -> bytes)

  function NumberMemory(d: Doubles, n: integer): bytes { LittleEndian(Eq.Pattern(n), 8) + d.integerDouble(n) }

  function HashOf(d: Doubles, v: Value): word
    decreases v
  {
    match v
    case VNull => BufferHash(K_NULL, [])
    case VBool(b) => BufferHash(if b then K_TRUE else K_FALSE, [])
    case VInt(n) => BufferHash(K_NUMBER, NumberMemory(d, n))
    case VDouble(l) => BufferHash(K_NUMBER, d.doubleMemory(l))
    case VString(s) => BufferHash(K_STRING, s)
    case VArray(es) => ElementsHash(d, Mix(0, K_ARRAY), es)
    case VObject(ms) => Xor(Mix(0, K_OBJECT), MembersHash(d, ms))
  }

  /** Elements are folded in order. */
  function ElementsHash(d: Doubles, h: word, es: seq<Value>): word
    decreases es
  {
    if es == [] then h else ElementsHash(d, Mix(h, HashOf(d, es[0])), es[1..])
  }

  function MemberHash(d: Doubles, m: Member): word
    decreases m, 0
  {
    Mix(BufferHash(K_STRING, m.name), HashOf(d, m.value))
  }

  /** Members are combined by exclusive or, which knows no order. */
  function MembersHash(d: Doubles, ms: seq<Member>): word
    decreases ms
  {
    if ms == [] then 0 else Xor(MemberHash(d, ms[0]), MembersHash(d, ms[1..]))
  }

  // ----- equal values have equal hashes -----

  lemma XorMoves(a: word, b: word, c: word)
    ensures Xor(a, Xor(b, c)) == Xor(b, Xor(a, c))
  {
    hide Xor;
    XorAssociates(a, b, c);
    XorAssociates(b, a, c);
  }

  /** ms without its j-th member. */
  function Without(ms: seq<Member>, j: nat): seq<Member>
    requires j < |ms|
  {
    ms[..j] + ms[j + 1..]
  }

  lemma {:induction false} HashWithout(d: Doubles, ms: seq<Member>, j: nat)
    requires j < |ms|
    ensures MembersHash(d, ms) == Xor(MemberHash(d, ms[j]), MembersHash(d, Without(ms, j)))
  {
    hide MemberHash, Xor, HashOf;
    if j == 0 {
      assert Without(ms, 0) == ms[1..];
    } else {
      HashWithout(d, ms[1..], j - 1);
      assert Without(ms, j) == [ms[0]] + Without(ms[1..], j - 1);
      assert Without(ms, j)[1..] == Without(ms[1..], j - 1);
      XorMoves(MemberHash(d, ms[0]), MemberHash(d, ms[j]), MembersHash(d, Without(ms[1..], j - 1)));
    }
  }

  lemma {:induction false} EqualHashes(d: Doubles, a: Value, b: Value, number: Value -> real)
    requires Eq.Clean(a) && Eq.Clean(b) && Eq.Equal(a, b, number)
    ensures HashOf(d, a) == HashOf(d, b)
    decreases a, 1
  {
    hide Mix, BufferHash, Xor;
    if a.VArray? {
      EqualElements(d, Mix(0, K_ARRAY), a.elements, b.elements, number);
    } else if a.VObject? {
      EqualMembers(d, a.members, b.members, number);
    }
  }

  lemma {:induction false} EqualElements(d: Doubles, h: word, es: seq<Value>, fs: seq<Value>, number: Value -> real)
    requires |es| == |fs| && Eq.ElementsClean(es) && Eq.ElementsClean(fs) && Eq.ElementsEqual(es, fs, number)
    ensures ElementsHash(d, h, es) == ElementsHash(d, h, fs)
    decreases es, 0
  {
    hide Mix, HashOf, Eq.Equal, Eq.Clean;
    if es != [] {
      EqualHashes(d, es[0], fs[0], number);
      EqualElements(d, Mix(h, HashOf(d, es[0])), es[1..], fs[1..], number);
    }
  }

  /** Where the other members are, once one is taken out. */
  lemma WithoutAt(ns: seq<Member>, j: nat)
    requires j < |ns|
    ensures |Without(ns, j)| == |ns| - 1
    ensures forall k :: 0 <= k < |ns| - 1 ==> Without(ns, j)[k] == ns[if k < j then k else k + 1]
    ensures Eq.Distinct(ns) ==> Eq.Distinct(Without(ns, j))
  {
  }

  lemma FoundWithout(m: Member, ns: seq<Member>, j: nat, number: Value -> real)
    requires Eq.Distinct(ns) && j < |ns| && Eq.Found(m, ns, number) && ns[j].name != m.name
    ensures Eq.Found(m, Without(ns, j), number)
  {
    hide Eq.Equal;
    WithoutAt(ns, j);
    hide Without;
    var k := Eq.FindMember(ns, m.name);
    Eq.FindsIt(Without(ns, j), if k < j then k else k - 1);
  }

  /** Without the member that was found, the other members are still found. */
  lemma StillFound(ms: seq<Member>, ns: seq<Member>, j: nat, number: Value -> real)
    requires ms != [] && Eq.Distinct(ms) && Eq.Distinct(ns) && Eq.MembersEqual(ms, ns, number)
    requires j < |ns| && ns[j].name == ms[0].name
    ensures Eq.Distinct(ms[1..]) && Eq.Distinct(Without(ns, j)) && Eq.MembersEqual(ms[1..], Without(ns, j), number)
  {
    hide Eq.Equal, Eq.MembersEqual, Eq.Found, Without;
    Eq.AllFound(ms, ns, number);
    WithoutAt(ns, j);
    var rest := ms[1..];
    forall i | 0 <= i < |rest|
      ensures Eq.Found(rest[i], Without(ns, j), number)
    {
      assert rest[i] == ms[i + 1] && Eq.Found(ms[i + 1], ns, number);
      FoundWithout(rest[i], ns, j, number);
    }
    Eq.AllFound(rest, Without(ns, j), number);
  }

  lemma {:induction false} CleanWithout(ns: seq<Member>, j: nat)
    requires Eq.MembersClean(ns) && j < |ns|
    ensures Eq.MembersClean(Without(ns, j))
  {
    hide Eq.Clean;
    if j == 0 {
      assert Without(ns, 0) == ns[1..];
    } else {
      CleanWithout(ns[1..], j - 1);
      assert Without(ns, j) == [ns[0]] + Without(ns[1..], j - 1);
      assert Without(ns, j)[1..] == Without(ns[1..], j - 1);
    }
  }

  lemma {:induction false} EqualMembers(d: Doubles, ms: seq<Member>, ns: seq<Member>, number: Value -> real)
    requires Eq.Distinct(ms) && Eq.Distinct(ns) && Eq.MembersClean(ms) && Eq.MembersClean(ns)
    requires |ms| == |ns| && Eq.MembersEqual(ms, ns, number)
    ensures MembersHash(d, ms) == MembersHash(d, ns)
    decreases ms, 0
  {
    hide Mix, BufferHash, HashOf, Xor, Eq.Equal, Eq.Clean, Eq.Distinct, Without;
    if ms != [] {
      assert Eq.Found(ms[0], ns, number);
      var j := Eq.FindMember(ns, ms[0].name);
      Eq.MemberClean(ns, j);
      EqualHashes(d, ms[0].value, ns[j].value, number);
      StillFound(ms, ns, j, number);
      CleanWithout(ns, j);
      WithoutAt(ns, j);
      EqualMembers(d, ms[1..], Without(ns, j), number);
      HashWithout(d, ns, j);
    }
  }

  // ----- the stack machine -----

  /** h ^= Hash(kv[2i], kv[2i + 1]) over the popped pairs. */
  function PairsHash(h: word, kv: seq<word>): word
    requires |kv| % 2 == 0
    decreases |kv|
  {
    if kv == [] then h else PairsHash(Xor(h, Mix(kv[0], kv[1])), kv[2..])
  }

  /** h = Hash(h, e[i]) over the popped elements. */
  function FoldHash(h: word, e: seq<word>): word
    decreases |e|
  {
    if e == [] then h else FoldHash(Mix(h, e[0]), e[1..])
  }

  /** One event; None when an End event pops what is not there. */
  function Handle(d: Doubles, stack: seq<word>, e: Event): Option<seq<word>> {
    var n := |stack|;
    match e
    case Null => Some(stack + [BufferHash(K_NULL, [])])
    case Bool(b) => Some(stack + [BufferHash(if b then K_TRUE else K_FALSE, [])])
    case Integer(_, i) => Some(stack + [BufferHash(K_NUMBER, NumberMemory(d, i))])
    case Double(l) => Some(stack + [BufferHash(K_NUMBER, d.doubleMemory(l))])
    case String(s) => Some(stack + [BufferHash(K_STRING, s)])
    case Key(s) => Some(stack + [BufferHash(K_STRING, s)])
    case StartObject => Some(stack)
    case StartArray => Some(stack)
    case EndObject(count) =>
      if n < 2 * count then None
      else Some(stack[..n - 2 * count] + [PairsHash(Mix(0, K_OBJECT), stack[n - 2 * count..])])
    case EndArray(count) =>
      if n < count then None
      else Some(stack[..n - count] + [FoldHash(Mix(0, K_ARRAY), stack[n - count..])])
  }

  function Run(d: Doubles, stack: seq<word>, events: seq<Event>): Option<seq<word>>
    decreases |events|
  {
    if events == [] then Some(stack)
    else match Handle(d, stack, events[0])
      case None => None
      case Some(stack') => Run(d, stack', events[1..])
  }

  lemma {:induction false} RunAppend(d: Doubles, stack: seq<word>, a: seq<Event>, b: seq<Event>)
    requires Run(d, stack, a).Some?
    ensures Run(d, stack, a + b) == Run(d, Run(d, stack, a).value, b)
    decreases |a|
  {
    hide Handle;
    if a == [] {
      assert a + b == b;
    } else {
      assert (a + b)[1..] == a[1..] + b;
      RunAppend(d, Handle(d, stack, a[0]).value, a[1..], b);
    }
  }

  lemma RunOne(d: Doubles, stack: seq<word>, e: Event)
    ensures Run(d, stack, [e]) == Handle(d, stack, e)
  {
    hide Handle;
    assert [e][1..] == [];
  }

  function ElementHashes(d: Doubles, es: seq<Value>): seq<word> {
    if es == [] then [] else [HashOf(d, es[0])] + ElementHashes(d, es[1..])
  }

  function MemberHashes(d: Doubles, ms: seq<Member>): seq<word> {
    if ms == [] then [] else [BufferHash(K_STRING, ms[0].name), HashOf(d, ms[0].value)] + MemberHashes(d, ms[1..])
  }

  lemma {:induction false} FoldIsElements(d: Doubles, h: word, es: seq<Value>)
    ensures |ElementHashes(d, es)| == |es| && FoldHash(h, ElementHashes(d, es)) == ElementsHash(d, h, es)
    decreases es
  {
    hide Mix, HashOf;
    if es != [] {
      FoldIsElements(d, Mix(h, HashOf(d, es[0])), es[1..]);
      assert ElementHashes(d, es)[1..] == ElementHashes(d, es[1..]);
    }
  }

  lemma {:induction false} PairsAreMembers(d: Doubles, h: word, ms: seq<Member>)
    ensures |MemberHashes(d, ms)| == 2 * |ms| && PairsHash(h, MemberHashes(d, ms)) == Xor(h, MembersHash(d, ms))
    decreases ms
  {
    hide Mix, HashOf, BufferHash, Xor;
    if ms != [] {
      var kv := MemberHashes(d, ms);
      PairsAreMembers(d, Xor(h, Mix(kv[0], kv[1])), ms[1..]);
      assert kv[2..] == MemberHashes(d, ms[1..]);
      XorAssociates(h, Mix(kv[0], kv[1]), MembersHash(d, ms[1..]));
    } else {
      XorCancels(h, h);
    }
  }

  /** The events of any value leave exactly its hash on the stack. */
  lemma {:induction false} HasherComputesHash(d: Doubles, stack: seq<word>, v: Value, kindOf: integer -> IntKind)
    ensures Run(d, stack, Events(v, kindOf)) == Some(stack + [HashOf(d, v)])
    decreases v, 1
  {
    hide Mix, BufferHash, Run, PairsHash, FoldHash, NumberMemory;
    if v.VArray? {
      HashArray(d, stack, v.elements, kindOf);
    } else if v.VObject? {
      HashObject(d, stack, v.members, kindOf);
    } else {
      RunOne(d, stack, Events(v, kindOf)[0]);
    }
  }

  lemma {:induction false} HashArray(d: Doubles, stack: seq<word>, es: seq<Value>, kindOf: integer -> IntKind)
    ensures Run(d, stack, Events(VArray(es), kindOf)) == Some(stack + [HashOf(d, VArray(es))])
    decreases es, 1
  {
    hide Mix, Run, FoldHash;
    RunOne(d, stack, StartArray);
    HashElements(d, stack, es, kindOf);
    RunAppend(d, stack, [StartArray], ElementEvents(es, kindOf));
    RunAppend(d, stack, [StartArray] + ElementEvents(es, kindOf), [EndArray(|es|)]);
    var hashes := ElementHashes(d, es);
    RunOne(d, stack + hashes, EndArray(|es|));
    FoldIsElements(d, Mix(0, K_ARRAY), es);
    var s := stack + hashes;
    assert s[..|s| - |es|] == stack && s[|s| - |es|..] == hashes;
  }

  lemma {:induction false} HashElements(d: Doubles, stack: seq<word>, es: seq<Value>, kindOf: integer -> IntKind)
    ensures Run(d, stack, ElementEvents(es, kindOf)) == Some(stack + ElementHashes(d, es))
    decreases es, 0
  {
    hide Handle, Events, HashOf;
    if es == [] {
      assert stack + [] == stack;
    } else {
      HasherComputesHash(d, stack, es[0], kindOf);
      HashElements(d, stack + [HashOf(d, es[0])], es[1..], kindOf);
      RunAppend(d, stack, Events(es[0], kindOf), ElementEvents(es[1..], kindOf));
      assert stack + [HashOf(d, es[0])] + ElementHashes(d, es[1..]) == stack + ElementHashes(d, es);
    }
  }

  lemma {:induction false} HashObject(d: Doubles, stack: seq<word>, ms: seq<Member>, kindOf: integer -> IntKind)
    ensures Run(d, stack, Events(VObject(ms), kindOf)) == Some(stack + [HashOf(d, VObject(ms))])
    decreases ms, 1
  {
    hide Mix, Run, PairsHash, Xor;
    RunOne(d, stack, StartObject);
    HashMembers(d, stack, ms, kindOf);
    RunAppend(d, stack, [StartObject], MemberEvents(ms, kindOf));
    RunAppend(d, stack, [StartObject] + MemberEvents(ms, kindOf), [EndObject(|ms|)]);
    var hashes := MemberHashes(d, ms);
    RunOne(d, stack + hashes, EndObject(|ms|));
    PairsAreMembers(d, Mix(0, K_OBJECT), ms);
    var s := stack + hashes;
    assert s[..|s| - 2 * |ms|] == stack && s[|s| - 2 * |ms|..] == hashes;
  }

  lemma {:induction false} HashMembers(d: Doubles, stack: seq<word>, ms: seq<Member>, kindOf: integer -> IntKind)
    ensures Run(d, stack, MemberEvents(ms, kindOf)) == Some(stack + MemberHashes(d, ms))
    decreases ms, 0
  {
    hide Events, HashOf, BufferHash;
    if ms == [] {
      assert stack + [] == stack;
    } else {
      var key, value, rest := [Key(ms[0].name)], Events(ms[0].value, kindOf), MemberEvents(ms[1..], kindOf);
      var name := BufferHash(K_STRING, ms[0].name);
      RunOne(d, stack, Key(ms[0].name));
      hide Handle, Run;
      HasherComputesHash(d, stack + [name], ms[0].value, kindOf);
      RunAppend(d, stack, key, value);
      HashMembers(d, stack + [name] + [HashOf(d, ms[0].value)], ms[1..], kindOf);
      RunAppend(d, stack, key + value, rest);
      assert stack + [name] + [HashOf(d, ms[0].value)] + MemberHashes(d, ms[1..]) == stack + MemberHashes(d, ms);
    }
  }
}
