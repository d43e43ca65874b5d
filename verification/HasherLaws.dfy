/** What the hash codes of rapidjson/schema.h tell apart: a change in one place is never lost, and the order
    of elements matters. */
module HasherLaws {
  import opened Json
  import opened Hasher

  // ----- one step -----

  const PRIME: int := 0x0000_0100_0000_01b3

  /** The inverse of the prime modulo 2^64. */
  const INVERSE: int := 0xce96_5057_aff6_957b

  lemma TimesInverse(x: word)
    ensures Times(x) * INVERSE % TWO_64 == x
  {
    var q := x * PRIME / TWO_64;
    assert Times(x) == x * PRIME - q * TWO_64;
    var k := PRIME * INVERSE / TWO_64;
    assert PRIME * INVERSE == 1 + k * TWO_64;
    Remainder(Times(x) * INVERSE, x, x * k - q * INVERSE);
  }

  lemma Remainder(y: int, x: word, k: int)
    requires y == x + k * TWO_64
    ensures y % TWO_64 == x
  {
  }

  lemma TimesExactly(a: word, b: word)
    ensures Times(a) == Times(b) <==> a == b
  {
    hide Times;
    TimesInverse(a);
    TimesInverse(b);
  }

  lemma XorExactly(h: word, a: word, b: word)
    ensures Xor(h, a) == Xor(h, b) <==> a == b
    ensures Xor(a, h) == Xor(b, h) <==> a == b
  {
    hide Xor;
    XorCancels(h, a);
    XorCancels(h, b);
    XorAssociates(h, a, 0);
    XorAssociates(h, b, 0);
  }

  /** A step loses nothing of either operand. */
  lemma MixExactly(h: word, a: word, b: word)
    ensures Mix(h, a) == Mix(h, b) <==> a == b
    ensures Mix(a, h) == Mix(b, h) <==> a == b
  {
    hide Times, Xor;
    TimesExactly(Xor(h, a), Xor(h, b));
    TimesExactly(Xor(a, h), Xor(b, h));
    XorExactly(h, a, b);
  }

  // ----- strings -----

  lemma {:induction false} BytesKeepState(h: word, g: word, data: bytes)
    ensures MixBytes(h, data) == MixBytes(g, data) <==> h == g
    decreases |data|
  {
    hide Mix;
    if data != [] {
      MixExactly(data[0], h, g);
      BytesKeepState(Mix(h, data[0]), Mix(g, data[0]), data[1..]);
    }
  }

  lemma {:induction false} OneByte(h: word, a: bytes, b: bytes, k: nat)
    requires |a| == |b| && k < |a| && forall i :: 0 <= i < |a| && i != k ==> a[i] == b[i]
    ensures MixBytes(h, a) == MixBytes(h, b) <==> a[k] == b[k]
    decreases k
  {
    hide Mix;
    if k == 0 {
      MixExactly(h, a[0], b[0]);
      assert a[1..] == b[1..];
      BytesKeepState(Mix(h, a[0]), Mix(h, b[0]), a[1..]);
    } else {
      OneByte(Mix(h, a[0]), a[1..], b[1..], k - 1);
    }
  }

  /** Strings that differ in one byte have different hash codes. */
  lemma OneByteTells(d: Doubles, a: bytes, b: bytes, k: nat)
    requires |a| == |b| && k < |a| && (forall i :: 0 <= i < |a| && i != k ==> a[i] == b[i]) && a[k] != b[k]
    ensures HashOf(d, VString(a)) != HashOf(d, VString(b))
  {
    hide Mix, MixBytes;
    OneByte(Mix(OFFSET, K_STRING), a, b, k);
  }

  // ----- arrays -----

  lemma {:induction false} ElementsKeepState(d: Doubles, h: word, g: word, es: seq<Value>)
    ensures ElementsHash(d, h, es) == ElementsHash(d, g, es) <==> h == g
    decreases |es|
  {
    hide Mix, HashOf;
    if es != [] {
      MixExactly(HashOf(d, es[0]), h, g);
      ElementsKeepState(d, Mix(h, HashOf(d, es[0])), Mix(g, HashOf(d, es[0])), es[1..]);
    }
  }

  lemma {:induction false} OneElement(d: Doubles, h: word, es: seq<Value>, fs: seq<Value>, k: nat)
    requires |es| == |fs| && k < |es| && forall i :: 0 <= i < |es| && i != k ==> es[i] == fs[i]
    ensures ElementsHash(d, h, es) == ElementsHash(d, h, fs) <==> HashOf(d, es[k]) == HashOf(d, fs[k])
    decreases k
  {
    hide Mix, HashOf;
    if k == 0 {
      MixExactly(h, HashOf(d, es[0]), HashOf(d, fs[0]));
      assert es[1..] == fs[1..];
      ElementsKeepState(d, Mix(h, HashOf(d, es[0])), Mix(h, HashOf(d, fs[0])), es[1..]);
    } else {
      OneElement(d, Mix(h, HashOf(d, es[0])), es[1..], fs[1..], k - 1);
    }
  }

  /** Arrays that differ in one element have equal hash codes exactly when the two elements have. */
  lemma OneElementTells(d: Doubles, es: seq<Value>, fs: seq<Value>, k: nat)
    requires |es| == |fs| && k < |es| && forall i :: 0 <= i < |es| && i != k ==> es[i] == fs[i]
    ensures HashOf(d, VArray(es)) == HashOf(d, VArray(fs)) <==> HashOf(d, es[k]) == HashOf(d, fs[k])
  {
    hide Mix, ElementsHash;
    OneElement(d, Mix(0, K_ARRAY), es, fs, k);
  }

  // ----- objects -----

  lemma {:induction false} OneMember(d: Doubles, ms: seq<Member>, k: nat, m: Member)
    requires k < |ms|
    ensures MembersHash(d, ms) == MembersHash(d, ms[k := m]) <==> MemberHash(d, ms[k]) == MemberHash(d, m)
  {
    hide MemberHash, Xor;
    HashWithout(d, ms, k);
    HashWithout(d, ms[k := m], k);
    assert Without(ms[k := m], k) == Without(ms, k);
    XorExactly(MembersHash(d, Without(ms, k)), MemberHash(d, ms[k]), MemberHash(d, m));
  }

  /** Objects that differ in the value of one member have equal hash codes exactly when the two values have. */
  lemma OneMemberTells(d: Doubles, ms: seq<Member>, k: nat, v: Value)
    requires k < |ms|
    ensures HashOf(d, VObject(ms)) == HashOf(d, VObject(ms[k := Member(ms[k].name, v)])) <==>
            HashOf(d, ms[k].value) == HashOf(d, v)
  {
    hide Mix, MembersHash, BufferHash, Xor;
    var m := Member(ms[k].name, v);
    OneMember(d, ms, k, m);
    XorExactly(Mix(0, K_OBJECT), MembersHash(d, ms), MembersHash(d, ms[k := m]));
    MixExactly(BufferHash(K_STRING, m.name), HashOf(d, ms[k].value), HashOf(d, v));
  }

  // ----- numbers -----

  /** The number in some bytes, the lowest first. */
  function LowestFirst(w: bytes): nat { if w == [] then 0 else w[0] + 0x100 * LowestFirst(w[1..]) }

  lemma {:induction false} LittleEndianExactly(n: nat, size: nat)
    requires n < Pow2(8 * size)
    ensures |LittleEndian(n, size)| == size && LowestFirst(LittleEndian(n, size)) == n
    decreases size
  {
    if size > 0 {
      PowerOfSum(8 * (size - 1), 8);
      assert Pow2(3) == 8 && Pow2(4) == 16;
      PowerOfSum(4, 4);
      LittleEndianExactly(n / 0x100, size - 1);
      assert LittleEndian(n, size)[1..] == LittleEndian(n / 0x100, size - 1);
    }
  }

  /** An integer is hashed as eight bytes of its 64-bit pattern, the lowest first, and the bytes of its double. */
  lemma NumberMemoryExactly(d: Doubles, n: integer)
    ensures var w, p := NumberMemory(d, n), if n < 0 then n + TWO_64 else n;
            |w| == 8 + |d.integerDouble(n)| && LowestFirst(w[..8]) == p && w[8..] == d.integerDouble(n)
  {
    WordBits();
    var p: nat := if n < 0 then n + TWO_64 else n;
    LittleEndianExactly(p, 8);
    hide LittleEndian;
    assert NumberMemory(d, n)[..8] == LittleEndian(p, 8);
  }

  // ----- known codes -----

  lemma OneBit(a: nat, b: nat)
    ensures XorBits(a, b) == 2 * XorBits(a / 2, b / 2) + if a % 2 == b % 2 then 0 else 1
  {
  }

  /** The exclusive or with a number below 8 changes the three low bits. */
  lemma LowBits(a: nat, k: nat)
    requires k < 8
    ensures XorBits(a, k) == a / 8 * 8 + XorBits(a % 8, k)
  {
    Halves(a, k);
    hide XorBits;
    OneBit(a, k);
    OneBit(a / 2, k / 2);
    OneBit(a / 4, k / 4);
    OneBit(a % 8, k);
    OneBit(a / 2 % 4, k / 2);
    OneBit(a / 4 % 2, k / 4);
    BitsCancel(0, a / 8);
    BitsCancel(0, 0);
  }

  lemma Halves(a: nat, k: nat)
    requires k < 8
    ensures a / 2 / 2 == a / 4 && a / 4 / 2 == a / 8 && k / 2 / 2 == k / 4 && k / 4 / 2 == 0
    ensures a % 8 / 2 == a / 2 % 4 && a / 2 % 4 / 2 == a / 4 % 2 && a / 4 % 2 / 2 == 0
    ensures a % 8 % 2 == a % 2 && a / 2 % 4 % 2 == a / 2 % 2 && a / 4 % 2 % 2 == a / 4 % 2
    ensures a == a / 8 * 8 + a / 4 % 2 * 4 + a / 2 % 2 * 2 + a % 2
  {
  }

  /** A step with the code of a kind. */
  lemma KindStep(a: word, k: word, low: nat)
    requires k < 8 && XorBits(a % 8, k) == low < 8
    ensures Mix(a, k) == Times(a / 8 * 8 + low)
  {
    hide XorBits;
    LowBits(a, k);
  }

  lemma SmallBits()
    ensures XorBits(4, 0) == 4 && XorBits(4, 1) == 5 && XorBits(4, 2) == 6 && XorBits(4, 5) == 1
    ensures XorBits(0, 4) == 4 && XorBits(0, 3) == 3
  {
    hide *;
    OneBit(0, 0);
    BitsCancel(0, 0);
    OneBit(1, 0);
    OneBit(0, 1);
    OneBit(1, 1);
    OneBit(2, 0);
    OneBit(0, 2);
    OneBit(2, 1);
    OneBit(2, 2);
    OneBit(4, 0);
    OneBit(4, 1);
    OneBit(4, 2);
    OneBit(4, 5);
    OneBit(0, 4);
    OneBit(0, 3);
  }

  lemma KindMixes()
    ensures Mix(OFFSET, K_NULL) == 0x789e_9d39_8d40_976c
    ensures Mix(OFFSET, K_FALSE) == 0x789e_9e39_8d40_991f && Mix(OFFSET, K_TRUE) == 0x789e_9f39_8d40_9ad2
    ensures Mix(OFFSET, K_STRING) == 0x789e_9a39_8d40_9253
    ensures Mix(0, K_ARRAY) == 0x0400_0000_06cc && Mix(0, K_OBJECT) == 0x0300_0000_0519
  {
    hide XorBits, Mix;
    SmallBits();
    KindStep(OFFSET, K_NULL, 4);
    KindStep(OFFSET, K_FALSE, 5);
    KindStep(OFFSET, K_TRUE, 6);
    KindStep(OFFSET, K_STRING, 1);
    KindStep(0, K_ARRAY, 4);
    KindStep(0, K_OBJECT, 3);
  }

  /** The hash codes of null, of the booleans, of the empty string and of the empty containers. */
  lemma KindCodes(d: Doubles)
    ensures HashOf(d, VNull) == 0x789e_9d39_8d40_976c
    ensures HashOf(d, VBool(false)) == 0x789e_9e39_8d40_991f && HashOf(d, VBool(true)) == 0x789e_9f39_8d40_9ad2
    ensures HashOf(d, VString([])) == 0x789e_9a39_8d40_9253
    ensures HashOf(d, VArray([])) == 0x0400_0000_06cc && HashOf(d, VObject([])) == 0x0300_0000_0519
  {
    KindMixes();
    hide Mix, Xor;
    XorCancels(0, Mix(0, K_OBJECT));
  }
}
