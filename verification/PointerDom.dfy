/** Resolving a pointer in a document (rapidjson/pointer.h): Get, Create and Erase. */
module PointerDom {
  import opened Json
  import opened Pointer
  import Eq = Equality

  // ----- steps into a tree -----

  const MINUS_NAME: bytes := ['-' as int]

  predicate HasChild(v: Value, k: nat) {
    (v.VArray? && k < |v.elements|) || (v.VObject? && k < |v.members|)
  }

  function Child(v: Value, k: nat): (c: Value)
    requires HasChild(v, k)
    ensures c < v
  {
    if v.VArray? then v.elements[k] else v.members[k].value
  }

  function WithChild(v: Value, k: nat, c: Value): Value
    requires HasChild(v, k)
  {
    if v.VArray? then VArray(v.elements[k := c])
    else VObject(v.members[k := Member(v.members[k].name, c)])
  }

  /** Where one token leads in a container, if it does. */
  function Find(v: Value, t: Token): Option<nat> {
    if v.VObject? then
      var j := Eq.FindMember(v.members, t.name);
      if j < |v.members| then Some(j) else None
    else if v.VArray? && t.index != INVALID_INDEX && t.index < |v.elements| then Some(t.index)
    else None
  }

  /** Get. */
  function Get(v: Value, ts: seq<Token>): Option<Value>
    decreases |ts|
  {
    if ts == [] then Some(v)
    else match Find(v, ts[0])
      case None => None
      case Some(k) => Get(Child(v, k), ts[1..])
  }

  // ----- Create -----

  /** A container in which the token leads to the child at k; was: the child was there before. */
  datatype Made = Made(container: Value, k: nat, was: bool)

  /** "-" names the element behind the last of an array. */
  predicate IsPush(v: Value, t: Token) { v.VArray? && t.name == MINUS_NAME }

  /** What a token makes of a value that is no fitting container. */
  function AsContainer(v: Value, t: Token): Value {
    if t.index == INVALID_INDEX then (if v.VObject? then v else VObject([]))
    else (if v.VArray? || v.VObject? then v else VArray([]))
  }

  function Nulls(n: nat): seq<Value> { seq(n, _ => VNull) }

  /** One round of Create's loop. */
  function Make(v: Value, t: Token): (m: Made)
    ensures HasChild(m.container, m.k)
  {
    if IsPush(v, t) then Made(VArray(v.elements + [VNull]), |v.elements|, false)
    else
      var c := AsContainer(v, t);
      if c.VArray? then
        if t.index >= |c.elements| then Made(VArray(c.elements + Nulls(t.index + 1 - |c.elements|)), t.index, false)
        else Made(c, t.index, true)
      else
        var j := Eq.FindMember(c.members, t.name);
        if j == |c.members| then Made(VObject(c.members + [Member(t.name, VNull)]), j, false)
        else Made(c, j, true)
  }

  /** Create: the document it leaves, and alreadyExist. */
  function Create(v: Value, ts: seq<Token>): (Value, bool)
    decreases |ts|
  {
    if ts == [] then (v, true)
    else
      var m := Make(v, ts[0]);
      var r := Create(Child(m.container, m.k), ts[1..]);
      (WithChild(m.container, m.k, r.0), m.was && r.1)
  }

  /** A "-" token was applied to an array on the way. */
  predicate Pushes(v: Value, ts: seq<Token>)
    decreases |ts|
  {
    ts != [] && (IsPush(v, ts[0]) || (var m := Make(v, ts[0]); Pushes(Child(m.container, m.k), ts[1..])))
  }

  /** Tokens as Parse makes them: "-" is no index. */
  predicate Parsed(ts: seq<Token>) { forall i :: 0 <= i < |ts| ==> ts[i].index == IndexOf(ts[i].name) }

  lemma MinusIsNoIndex()
    ensures IndexOf(MINUS_NAME) == INVALID_INDEX
  {
    assert MINUS_NAME[0] == '-' as int;
  }

  /** A round finds its child exactly when Get would. */
  lemma MakeFinds(v: Value, t: Token)
    requires t.index == IndexOf(t.name)
    ensures var m := Make(v, t);
            && (m.was <==> Find(v, t).Some?)
            && (m.was ==> m.container == v && Find(v, t) == Some(m.k))
  {
    MinusIsNoIndex();
    hide IndexOf;
  }

  /** Behind a round the token leads to its child, unless it was "-" on an array. */
  lemma MadeIsFound(v: Value, t: Token, c: Value)
    requires t.index == IndexOf(t.name)
    ensures var m := Make(v, t); Find(WithChild(m.container, m.k, c), t) == if IsPush(v, t) then None else Some(m.k)
    ensures var m := Make(v, t);
            Child(WithChild(m.container, m.k, c), m.k) == c && HasChild(WithChild(m.container, m.k, c), m.k)
  {
    MinusIsNoIndex();
    hide IndexOf;
    var m := Make(v, t);
    if m.container.VObject? {
      var ms := m.container.members;
      var ns := ms[m.k := Member(ms[m.k].name, c)];
      assert forall i :: 0 <= i < m.k ==> ns[i].name != t.name;
      assert ns[m.k].name == t.name;
    }
  }

  /** Create reports alreadyExist exactly when Get resolved before, and then changes nothing. */
  lemma {:induction false} CreateExistsExactly(v: Value, ts: seq<Token>)
    requires Parsed(ts)
    ensures Create(v, ts).1 <==> Get(v, ts).Some?
    ensures Create(v, ts).1 ==> Create(v, ts).0 == v
    decreases |ts|
  {
    hide Make, Find, IndexOf, Child, WithChild, HasChild;
    if ts != [] {
      MakeFinds(v, ts[0]);
      var m := Make(v, ts[0]);
      CreateExistsExactly(Child(m.container, m.k), ts[1..]);
      Unchanged(m.container, m.k);
    }
  }

  lemma Unchanged(v: Value, k: nat)
    requires HasChild(v, k)
    ensures WithChild(v, k, Child(v, k)) == v
  {
  }

  /** After Create, Get resolves exactly when no "-" was applied to an array, and then gives the
      value that was there, or the null that was created. */
  lemma {:induction false} GetAfterCreate(v: Value, ts: seq<Token>)
    requires Parsed(ts)
    ensures Get(Create(v, ts).0, ts).Some? <==> !Pushes(v, ts)
    ensures !Pushes(v, ts) ==> Get(Create(v, ts).0, ts) == Some(if Get(v, ts).Some? then Get(v, ts).value else VNull)
    decreases |ts|
  {
    hide Make, Find, IndexOf, Child, WithChild, HasChild, IsPush;
    if ts != [] {
      var m := Make(v, ts[0]);
      var c := Child(m.container, m.k);
      MadeIsFound(v, ts[0], Create(c, ts[1..]).0);
      MakeFinds(v, ts[0]);
      GetAfterCreate(c, ts[1..]);
      if !m.was { NewChild(v, ts[0]); NothingInNull(ts[1..]); }
    }
  }

  lemma NewChild(v: Value, t: Token)
    requires !Make(v, t).was
    ensures var m := Make(v, t); Child(m.container, m.k) == VNull
  {
  }

  lemma NothingInNull(ts: seq<Token>)
    ensures Get(VNull, ts).Some? <==> ts == []
    ensures ts == [] ==> Get(VNull, ts) == Some(VNull)
  {
  }

  // ----- Erase -----

  /** A name up to its first null character: Erase hands the name of the last token to EraseMember
      as a C string. */
  function CString(name: bytes): bytes {
    if name == [] || name[0] == 0 then [] else [name[0]] + CString(name[1..])
  }

  lemma {:induction false} CStringExactly(name: bytes)
    ensures CString(name) == name <==> 0 !in name
    ensures |CString(name)| <= |name|
  {
    if name != [] {
      CStringExactly(name[1..]);
      assert name == [name[0]] + name[1..];
      if name[0] != 0 && CString(name) == name { assert CString(name)[1..] == CString(name[1..]); }
    }
  }

  /** The token by which Erase looks for the last child. */
  function LastToken(v: Value, t: Token): Token { if v.VObject? then Token(CString(t.name), t.index) else t }

  /** A container without its child at k; the others keep their order. */
  function WithoutChild(v: Value, k: nat): Value
    requires HasChild(v, k)
  {
    if v.VArray? then VArray(v.elements[..k] + v.elements[k + 1..]) else VObject(v.members[..k] + v.members[k + 1..])
  }

  /** Erase: the document it leaves, and what it returns. */
  function Erase(v: Value, ts: seq<Token>): (Value, bool)
    decreases |ts|
  {
    if ts == [] then (v, false)
    else if |ts| == 1 then
      match Find(v, LastToken(v, ts[0]))
      case None => (v, false)
      case Some(k) => (WithoutChild(v, k), true)
    else
      match Find(v, ts[0])
      case None => (v, false)
      case Some(k) =>
        var r := Erase(Child(v, k), ts[1..]);
        (WithChild(v, k, r.0), r.1)
  }

  lemma {:induction false} FailedEraseChangesNothing(v: Value, ts: seq<Token>)
    ensures !Erase(v, ts).1 ==> Erase(v, ts).0 == v
    decreases |ts|
  {
    if |ts| > 1 && Find(v, ts[0]).Some? {
      FailedEraseChangesNothing(Child(v, Find(v, ts[0]).value), ts[1..]);
      Unchanged(v, Find(v, ts[0]).value);
    }
  }

  function Last(ts: seq<Token>): Token
    requires ts != []
  {
    ts[|ts| - 1]
  }

  /** When the last name has no null character, Erase succeeds exactly when Get resolves and the
      pointer is not the root. */
  lemma {:induction false} EraseSucceeds(v: Value, ts: seq<Token>)
    requires ts != [] ==> 0 !in Last(ts).name
    ensures Erase(v, ts).1 <==> ts != [] && Get(v, ts).Some?
    decreases |ts|
  {
    if |ts| == 1 {
      CStringExactly(ts[0].name);
      assert Get(v, ts).Some? <==> Find(v, ts[0]).Some?;
    } else if |ts| > 1 && Find(v, ts[0]).Some? {
      assert Last(ts[1..]) == Last(ts);
      EraseSucceeds(Child(v, Find(v, ts[0]).value), ts[1..]);
    }
  }

  /** A document of objects in which the pointer resolves, and nothing else is. */
  function Chain(ts: seq<Token>): Value {
    if ts == [] then VNull else VObject([Member(ts[0].name, Chain(ts[1..]))])
  }

  lemma {:induction false} ChainResolves(ts: seq<Token>)
    requires ts != [] && 0 in Last(ts).name
    ensures Get(Chain(ts), ts).Some? && !Erase(Chain(ts), ts).1
  {
    var v := Chain(ts);
    assert Find(v, ts[0]) == Some(0) && Child(v, 0) == Chain(ts[1..]);
    if |ts| == 1 {
      CStringExactly(ts[0].name);
      assert Find(v, LastToken(v, ts[0])).None?;
    } else {
      assert Last(ts[1..]) == Last(ts);
      ChainResolves(ts[1..]);
    }
  }

  /** A pointer other than the root erases what it resolves to, in every document, exactly when its
      last name has no null character. */
  lemma EraseIsGetExactly(ts: seq<Token>)
    requires ts != []
    ensures (forall v: Value :: Erase(v, ts).1 <==> Get(v, ts).Some?) <==> 0 !in Last(ts).name
  {
    hide Erase, Get;
    if 0 !in Last(ts).name {
      forall v: Value
        ensures Erase(v, ts).1 <==> Get(v, ts).Some?
      {
        EraseSucceeds(v, ts);
      }
    } else {
      ChainResolves(ts);
    }
  }

  /** A pointer that branches off from ts at n, as it leads to the same place behind the erasure: in the
      array of the erased element, the elements behind it have moved down by one. */
  function Moved(v: Value, ts: seq<Token>, us: seq<Token>, n: nat): seq<Token>
    requires n < |ts| && n < |us| && Get(v, ts[..n]).Some?
  {
    if Get(v, ts[..n]).value.VArray? && n == |ts| - 1 && us[n].index > ts[n].index
    then us[n := us[n].(index := us[n].index - 1)] else us
  }

  /** The two pointers branch off at n: by name in an object, by index in an array. */
  predicate BranchOff(v: Value, ts: seq<Token>, us: seq<Token>, n: nat) {
    && n < |ts| && n < |us| && ts[..n] == us[..n] && Get(v, ts[..n]).Some?
    && var c := Get(v, ts[..n]).value;
       if c.VObject? then us[n].name != ts[n].name && us[n].name != CString(ts[n].name)
       else us[n].index != ts[n].index && us[n].index < INVALID_INDEX
  }

  /** What is not on the way to the erased child is where it was, or one element further down. */
  lemma {:induction false} EraseKeepsOthers(v: Value, ts: seq<Token>, us: seq<Token>, n: nat)
    requires Erase(v, ts).1 && BranchOff(v, ts, us, n)
    ensures Get(Erase(v, ts).0, Moved(v, ts, us, n)) == Get(v, us)
    decreases n
  {
    if n == 0 {
      assert ts[..0] == [];
      if v.VObject? { OtherMember(v, ts, us); } else { OtherElement(v, ts, us); }
    } else {
      var k := Find(v, ts[0]).value;
      assert ts[0] == ts[..n][0] == us[..n][0] == us[0];
      assert ts[..n][1..] == ts[1..][..n - 1] && us[..n][1..] == us[1..][..n - 1];
      EraseKeepsOthers(Child(v, k), ts[1..], us[1..], n - 1);
      Reached(v, ts[0], k, Erase(Child(v, k), ts[1..]).0);
      assert Moved(v, ts, us, n)[0] == us[0];
      assert Moved(v, ts, us, n)[1..] == Moved(Child(v, k), ts[1..], us[1..], n - 1);
    }
  }

  lemma {:induction false} OtherElement(v: Value, ts: seq<Token>, us: seq<Token>)
    requires v.VArray? && ts != [] && us != [] && Erase(v, ts).1
    requires us[0].index != ts[0].index && us[0].index < INVALID_INDEX
    ensures var u := us[0].(index := if |ts| == 1 && us[0].index > ts[0].index then us[0].index - 1 else us[0].index);
            Get(Erase(v, ts).0, us[0 := u]) == Get(v, us)
  {
    var k, es, fs := ts[0].index, v.elements, Erase(v, ts).0.elements;
    var i := us[0].index;
    if |ts| == 1 {
      assert fs == es[..k] + es[k + 1..];
      assert i < k ==> fs[i] == es[i];
      assert k < i < |es| ==> fs[i - 1] == es[i];
    }
  }

  /** Replacing a child leaves the way to it. */
  lemma {:induction false} Reached(v: Value, t: Token, k: nat, c: Value)
    requires Find(v, t) == Some(k)
    ensures Find(WithChild(v, k, c), t) == Some(k) && Child(WithChild(v, k, c), k) == c
  {
    if v.VObject? {
      var ns := WithChild(v, k, c).members;
      assert forall i :: 0 <= i < k ==> ns[i].name != t.name;
      FoundIn(ns, t.name, k);
    }
  }

  lemma {:induction false} OtherMember(v: Value, ts: seq<Token>, us: seq<Token>)
    requires v.VObject? && ts != [] && us != [] && Erase(v, ts).1
    requires us[0].name != ts[0].name && us[0].name != CString(ts[0].name)
    ensures Get(Erase(v, ts).0, us) == Get(v, us)
  {
    var k := Find(v, if |ts| == 1 then LastToken(v, ts[0]) else ts[0]).value;
    var ms, ns := v.members, Erase(v, ts).0.members;
    var j := Eq.FindMember(ms, us[0].name);
    if |ts| == 1 {
      assert ns == ms[..k] + ms[k + 1..];
      FoundIn(ns, us[0].name, if j < k then j else j - 1);
    } else {
      FoundIn(ns, us[0].name, j);
    }
  }

  lemma FoundIn(ms: seq<Member>, name: bytes, j: int)
    requires 0 <= j <= |ms| && (forall i :: 0 <= i < j ==> ms[i].name != name) && (j < |ms| ==> ms[j].name == name)
    ensures Eq.FindMember(ms, name) == j
  {
  }
}
