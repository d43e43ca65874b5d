/** What Get, Create and Erase of rapidjson/pointer.h make of a document, told by its members and elements. */
module PointerChanges {
  import opened Json
  import opened Pointer
  import opened PointerDom
  import Eq = Equality

  // ----- the way of a pointer -----

  /** A token leads from v to its child w: to the first member of its name, or to the element at its index. */
  ghost predicate LeadsTo(v: Value, t: Token, w: Value) {
    || (v.VObject? && exists k: nat :: Eq.IsFirst(v.members, t.name, k) && v.members[k].value == w)
    || (v.VArray? && t.index < INVALID_INDEX && t.index < |v.elements| && v.elements[t.index] == w)
  }

  /** The tokens lead from v to w, child by child. */
  ghost predicate Leads(v: Value, ts: seq<Token>, w: Value)
    decreases |ts|
  {
    if ts == [] then v == w else exists c: Value :: LeadsTo(v, ts[0], c) && Leads(c, ts[1..], w)
  }

  lemma {:induction false} FirstExactly(ms: seq<Member>, name: bytes, k: nat)
    ensures Eq.IsFirst(ms, name, k) <==> k < |ms| && Eq.FindMember(ms, name) == k
  {
    if Eq.IsFirst(ms, name, k) { FoundIn(ms, name, k); }
  }

  lemma StepExactly(v: Value, t: Token, w: Value)
    requires t.index <= INVALID_INDEX
    ensures LeadsTo(v, t, w) <==> Find(v, t).Some? && Child(v, Find(v, t).value) == w
  {
    if v.VObject? {
      var j := Eq.FindMember(v.members, t.name);
      FirstExactly(v.members, t.name, j);
      if k: nat :| Eq.IsFirst(v.members, t.name, k) && v.members[k].value == w { FirstExactly(v.members, t.name, k); }
    }
  }

  /** Get resolves exactly when the tokens lead somewhere, and gives the value there. */
  lemma {:induction false} GetExactly(v: Value, ts: seq<Token>, w: Value)
    requires forall t :: t in ts ==> t.index <= INVALID_INDEX
    ensures Get(v, ts) == Some(w) <==> Leads(v, ts, w)
    decreases |ts|
  {
    hide Child, LeadsTo;
    if ts != [] {
      if Find(v, ts[0]).Some? {
        var c := Child(v, Find(v, ts[0]).value);
        StepExactly(v, ts[0], c);
        GetExactly(c, ts[1..], w);
      }
      if Leads(v, ts, w) {
        var c: Value :| LeadsTo(v, ts[0], c) && Leads(c, ts[1..], w);
        StepExactly(v, ts[0], c);
      }
    }
  }

  // ----- what Create makes of a container -----

  predicate IsMinus(t: Token) { t.name == ['-' as int] }

  /** The token applies to an object: there is one, or it can be no place in an array. */
  predicate ForMembers(v: Value, t: Token) { v.VObject? || (t.index == INVALID_INDEX && !(v.VArray? && IsMinus(t))) }

  /** A member of that name is there, at the end when there was none; the others stay as they were. */
  predicate MembersGrown(ms: seq<Member>, name: bytes, ns: seq<Member>) {
    && |ns| == |ms| + (if exists m :: m in ms && m.name == name then 0 else 1)
    && (forall i :: 0 <= i < |ms| ==> ns[i].name == ms[i].name && (Eq.IsFirst(ms, name, i) || ns[i] == ms[i]))
    && (|ns| > |ms| ==> ns[|ms|].name == name)
  }

  /** An element is there at that index, behind nulls where there were none; the others stay as they were. */
  predicate ElementsGrown(es: seq<Value>, at: nat, fs: seq<Value>) {
    && |fs| == (if at < |es| then |es| else at + 1)
    && forall i :: 0 <= i < |fs| && i != at ==> fs[i] == if i < |es| then es[i] else VNull
  }

  /** The container that a token of Create leaves: a value that cannot hold the child is replaced. */
  predicate Grown(v: Value, t: Token, w: Value) {
    if ForMembers(v, t) then w.VObject? && MembersGrown(if v.VObject? then v.members else [], t.name, w.members)
    else
      var es := if v.VArray? then v.elements else [];
      w.VArray? && ElementsGrown(es, if v.VArray? && IsMinus(t) then |es| else t.index, w.elements)
  }

  lemma RoundGrows(v: Value, t: Token, c: Value)
    requires t.index == IndexOf(t.name)
    ensures var m := Make(v, t); Grown(v, t, WithChild(m.container, m.k, c))
  {
    MinusIsNoIndex();
    hide IndexOf;
    var m := Make(v, t);
    if ForMembers(v, t) {
      var ms := if v.VObject? then v.members else [];
      FirstExactly(ms, t.name, m.k);
      MembersGrow(ms, t.name, Eq.FindMember(ms, t.name), c);
    }
  }

  lemma {:induction false} MembersGrow(ms: seq<Member>, name: bytes, j: nat, c: Value)
    requires j == Eq.FindMember(ms, name)
    ensures MembersGrown(ms, name, (if j < |ms| then ms else ms + [Member(name, VNull)])[j := Member(name, c)])
  {
    FirstExactly(ms, name, j);
    if j < |ms| { assert ms[j] in ms; }
  }

  /** The value where a pointer leads, or the null that Create puts there. */
  function Resolved(v: Value, ts: seq<Token>): Value {
    if Get(v, ts).Some? then Get(v, ts).value else VNull
  }

  /** Every container on the way of Create, old or new, is what its token makes of it and no more. */
  lemma {:induction false} CreateGrows(v: Value, ts: seq<Token>, n: nat)
    requires PointerDom.Parsed(ts) && n < |ts| && !Pushes(v, ts[..n])
    ensures Get(Create(v, ts).0, ts[..n]).Some?
    ensures Grown(Resolved(v, ts[..n]), ts[n], Get(Create(v, ts).0, ts[..n]).value)
    decreases n
  {
    hide Make, Find, IndexOf, Child, WithChild, HasChild, IsPush, Grown;
    var m := Make(v, ts[0]);
    var c := Child(m.container, m.k);
    var d := Create(c, ts[1..]).0;
    if n == 0 {
      assert ts[..0] == [];
      RoundGrows(v, ts[0], d);
    } else {
      assert ts[..n][0] == ts[0] && ts[..n][1..] == ts[1..][..n - 1];
      MadeIsFound(v, ts[0], d);
      MakeFinds(v, ts[0]);
      CreateGrows(c, ts[1..], n - 1);
      if !m.was { NewChild(v, ts[0]); NothingInNull(ts[..n][1..]); }
    }
  }

  /** "-" on an array is the index of the element behind the last. */
  lemma {:induction false} MinusIsTheEnd(v: Value, ts: seq<Token>, n: nat, t: Token)
    requires PointerDom.Parsed(ts) && n < |ts| && Get(v, ts[..n]).Some? && Get(v, ts[..n]).value.VArray? &&
             IsMinus(ts[n])
    requires !IsMinus(t) && t.index == |Get(v, ts[..n]).value.elements| && t.index < INVALID_INDEX
    ensures Create(v, ts).0 == Create(v, ts[n := t]).0
    decreases n
  {
    hide Find, IndexOf;
    var us := ts[n := t];
    assert us[1..] == if n == 0 then ts[1..] else ts[1..][n - 1 := t];
    if n == 0 {
      assert ts[..0] == [];
      assert Nulls(1) == [VNull];
    } else {
      hide Make, Child, WithChild, HasChild;
      assert ts[..n][0] == ts[0] && ts[..n][1..] == ts[1..][..n - 1];
      MakeFinds(v, ts[0]);
      MinusIsTheEnd(Child(v, Make(v, ts[0]).k), ts[1..], n - 1, t);
    }
  }

  /** A container that the token keeps: an object, or an array with an index or "-". */
  predicate Keeps(v: Value, t: Token) { v.VObject? || (v.VArray? && (t.index != INVALID_INDEX || IsMinus(t))) }

  /** What is not on the way of Create is found where it was, when the container of the branch is kept. */
  lemma {:induction false} CreateKeepsOthers(v: Value, ts: seq<Token>, us: seq<Token>, n: nat)
    requires PointerDom.Parsed(ts) && n < |ts| && n < |us| && ts[..n] == us[..n] && Get(v, us).Some?
    requires Get(v, ts[..n]).Some? && Keeps(Get(v, ts[..n]).value, ts[n])
    requires var c := Get(v, ts[..n]).value;
             if c.VObject? then us[n].name != ts[n].name else us[n].index != ts[n].index
    ensures Get(Create(v, ts).0, us) == Get(v, us)
    decreases n
  {
    hide Make, IndexOf, WithChild, HasChild;
    var m := Make(v, ts[0]);
    var c := Child(m.container, m.k);
    var d := Create(c, ts[1..]).0;
    if n == 0 {
      assert ts[..0] == [];
      RoundGrows(v, ts[0], d);
      GrownKeeps(v, ts[0], Create(v, ts).0, us);
    } else {
      assert ts[0] == ts[..n][0] == us[..n][0] == us[0];
      assert ts[..n][1..] == ts[1..][..n - 1] && us[..n][1..] == us[1..][..n - 1];
      MakeFinds(v, ts[0]);
      CreateKeepsOthers(c, ts[1..], us[1..], n - 1);
      Reached(v, ts[0], m.k, d);
    }
  }

  lemma GrownKeeps(v: Value, t: Token, w: Value, us: seq<Token>)
    requires Grown(v, t, w) && Keeps(v, t) && us != [] && Get(v, us).Some?
    requires if v.VObject? then us[0].name != t.name else us[0].index != t.index
    ensures Get(w, us) == Get(v, us)
  {
    if v.VObject? {
      var k := Find(v, us[0]).value;
      FirstExactly(v.members, us[0].name, k);
      assert w.members[k] == v.members[k];
      FoundIn(w.members, us[0].name, k);
    }
  }

  // ----- what Erase leaves -----

  /** One is gone, the others keep their order. */
  ghost predicate OneLess<T>(a: seq<T>, k: nat, b: seq<T>) {
    && k < |a| && |b| == |a| - 1
    && (forall i :: 0 <= i < k ==> b[i] == a[i])
    && (forall i :: k < i < |a| ==> b[i - 1] == a[i])
  }

  /** The child that the last token names is gone: the first member of the name as a C string, or the element. */
  ghost predicate Removed(v: Value, t: Token, w: Value) {
    || (v.VObject? && w.VObject? &&
        exists k: nat :: Eq.IsFirst(v.members, CString(t.name), k) && OneLess(v.members, k, w.members))
    || (v.VArray? && w.VArray? && OneLess(v.elements, t.index, w.elements))
  }

  /** At most the child that the token leads to is another. */
  predicate OnlyThere(v: Value, t: Token, w: Value) {
    || (v.VObject? && w.VObject? && |w.members| == |v.members| && forall i :: 0 <= i < |v.members| ==>
          w.members[i].name == v.members[i].name && (Eq.IsFirst(v.members, t.name, i) || w.members[i] == v.members[i]))
    || (v.VArray? && w.VArray? && |w.elements| == |v.elements| && forall i :: 0 <= i < |v.elements| ==>
          i == t.index || w.elements[i] == v.elements[i])
  }

  /** CString stops at the first null character. */
  lemma {:induction false} CStringStops(name: bytes)
    ensures CString(name) <= name && 0 !in CString(name)
    ensures CString(name) != name ==> name[|CString(name)|] == 0
  {
    if name != [] && name[0] != 0 {
      CStringStops(name[1..]);
      assert name == [name[0]] + name[1..];
    }
  }

  /** A successful Erase takes one child from the container of its last token, and leaves every container on
      the way as it was but for the child on the way. */
  lemma {:induction false} EraseRemoves(v: Value, ts: seq<Token>, n: nat)
    requires Erase(v, ts).1 && n < |ts|
    ensures Get(v, ts[..n]).Some? && Get(Erase(v, ts).0, ts[..n]).Some?
    ensures var c, d := Get(v, ts[..n]).value, Get(Erase(v, ts).0, ts[..n]).value;
            if n == |ts| - 1 then Removed(c, ts[n], d) else OnlyThere(c, ts[n], d)
    decreases n
  {
    hide Removed, OnlyThere, WithoutChild, Child, WithChild;
    if n == 0 {
      assert ts[..0] == [];
      if |ts| == 1 {
        RemovedHere(v, ts[0]);
      } else {
        var k := Find(v, ts[0]).value;
        OnlyHere(v, ts[0], k, Erase(Child(v, k), ts[1..]).0);
      }
    } else {
      var k := Find(v, ts[0]).value;
      assert ts[..n][0] == ts[0] && ts[..n][1..] == ts[1..][..n - 1];
      EraseRemoves(Child(v, k), ts[1..], n - 1);
      Reached(v, ts[0], k, Erase(Child(v, k), ts[1..]).0);
    }
  }

  lemma RemovedHere(v: Value, t: Token)
    requires Find(v, LastToken(v, t)).Some?
    ensures Removed(v, t, WithoutChild(v, Find(v, LastToken(v, t)).value))
  {
    var k := Find(v, LastToken(v, t)).value;
    if v.VObject? {
      FirstExactly(v.members, CString(t.name), k);
      OneTaken(v.members, k);
    } else {
      OneTaken(v.elements, k);
    }
  }

  lemma OneTaken<T>(a: seq<T>, k: nat)
    requires k < |a|
    ensures OneLess(a, k, a[..k] + a[k + 1..])
  {
  }

  lemma OnlyHere(v: Value, t: Token, k: nat, c: Value)
    requires Find(v, t) == Some(k)
    ensures OnlyThere(v, t, WithChild(v, k, c))
  {
    if v.VObject? { FirstExactly(v.members, t.name, k); }
  }
}
