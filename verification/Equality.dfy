/** operator== of GenericValue (rapidjson/document.h): where it is an equivalence that ignores the
    order of members, and where it is not. */
module Equality {
  import opened Json

  // ----- the operator -----

  /** FindMember: the first member with the name, or the end. */
  function FindMember(ms: seq<Member>, name: bytes): (j: nat)
    ensures j <= |ms|
    ensures forall i :: 0 <= i < j ==> ms[i].name != name
    ensures j < |ms| ==> ms[j].name == name
  {
    if ms == [] || ms[0].name == name then 0
    else
      var j := FindMember(ms[1..], name);
      assert forall i :: 0 < i < |ms| ==> ms[i] == ms[1..][i - 1];
      j + 1
  }

  /** data_.n.u64: an integer as its 64-bit pattern. */
  function Pattern(n: integer): nat { if n < 0 then 0x1_0000_0000_0000_0000 + n else n }

  /** number is GetDouble, the value of a number as a double. */
  predicate Equal(a: Value, b: Value, number: Value -> real)
    decreases a
  {
    match a
    case VNull => b.VNull?
    case VBool(x) => b.VBool? && x == b.b
    case VString(s) => b.VString? && s == b.str
    case VInt(n) => (b.VInt? && Pattern(n) == Pattern(b.value)) || (b.VDouble? && number(a) == number(b))
    case VDouble(_) => (b.VInt? || b.VDouble?) && number(a) == number(b)
    case VArray(es) => b.VArray? && |es| == |b.elements| && ElementsEqual(es, b.elements, number)
    case VObject(ms) => b.VObject? && |ms| == |b.members| && MembersEqual(ms, b.members, number)
  }

  predicate ElementsEqual(es: seq<Value>, fs: seq<Value>, number: Value -> real)
    requires |es| == |fs|
    decreases es
  {
    es == [] || (Equal(es[0], fs[0], number) && ElementsEqual(es[1..], fs[1..], number))
  }

  /** Every member on the left is equal to the first member of that name on the right. */
  predicate MembersEqual(ms: seq<Member>, ns: seq<Member>, number: Value -> real)
    decreases ms
  {
    ms == [] || (Found(ms[0], ns, number) && MembersEqual(ms[1..], ns, number))
  }

  predicate Found(m: Member, ns: seq<Member>, number: Value -> real)
    decreases m, 0
  {
    var j := FindMember(ns, m.name);
    j < |ns| && Equal(m.value, ns[j].value, number)
  }

  // ----- what it means -----

  predicate IsNumber(v: Value) { v.VInt? || v.VDouble? }

  /** Two numbers of which one is a double are compared as doubles. */
  lemma DoublesEqualExactly(a: Value, b: Value, number: Value -> real)
    requires IsNumber(a) && IsNumber(b) && (a.VDouble? || b.VDouble?)
    ensures Equal(a, b, number) <==> number(a) == number(b)
  {
  }

  /** Every member on the left has an equal value in the first member of its name on the right. */
  ghost predicate EachFound(ms: seq<Member>, ns: seq<Member>, number: Value -> real) {
    forall i :: 0 <= i < |ms| ==>
      exists j: nat :: IsFirst(ns, ms[i].name, j) && Equal(ms[i].value, ns[j].value, number)
  }

  predicate IsFirst(ms: seq<Member>, name: bytes, j: nat) {
    j < |ms| && ms[j].name == name && forall i :: 0 <= i < j ==> ms[i].name != name
  }

  /** Other values are equal when they are the same null, boolean or string, arrays of equal elements, or objects
      of as many members, each of them found on the right. */
  lemma EqualExactly(a: Value, b: Value, number: Value -> real)
    requires !IsNumber(a) || !IsNumber(b)
    ensures Equal(a, b, number) <==>
            || (a == b && (a.VNull? || a.VBool? || a.VString?))
            || (a.VArray? && b.VArray? && |a.elements| == |b.elements| &&
                forall i :: 0 <= i < |a.elements| ==> Equal(a.elements[i], b.elements[i], number))
            || (a.VObject? && b.VObject? && |a.members| == |b.members| && EachFound(a.members, b.members, number))
  {
    if a.VArray? && b.VArray? && |a.elements| == |b.elements| {
      AllEqual(a.elements, b.elements, number);
    } else if a.VObject? && b.VObject? {
      AllFound(a.members, b.members, number);
      forall i | 0 <= i < |a.members|
        ensures Found(a.members[i], b.members, number) <==>
                exists j: nat :: IsFirst(b.members, a.members[i].name, j) &&
                  Equal(a.members[i].value, b.members[j].value, number)
      {
        FirstIsFound(a.members[i], b.members, number);
      }
    }
  }

  lemma FirstIsFound(m: Member, ns: seq<Member>, number: Value -> real)
    ensures Found(m, ns, number) <==>
            exists j: nat :: IsFirst(ns, m.name, j) && Equal(m.value, ns[j].value, number)
  {
    hide Equal;
    var k := FindMember(ns, m.name);
    if k < |ns| { assert IsFirst(ns, m.name, k); }
  }

  lemma {:induction false} AllEqual(es: seq<Value>, fs: seq<Value>, number: Value -> real)
    requires |es| == |fs|
    ensures ElementsEqual(es, fs, number) <==> forall i :: 0 <= i < |es| ==> Equal(es[i], fs[i], number)
    decreases es
  {
    hide Equal;
    if es != [] {
      AllEqual(es[1..], fs[1..], number);
      assert forall i :: 0 < i < |es| ==> es[i] == es[1..][i - 1] && fs[i] == fs[1..][i - 1];
    }
  }

  // ----- the domain -----

  predicate Distinct(ms: seq<Member>) { forall i, j :: 0 <= i < j < |ms| ==> ms[i].name != ms[j].name }

  /** No doubles, integers in the range of int64_t, and no name twice in an object. */
  predicate Clean(v: Value) {
    match v
    case VDouble(_) => false
    case VInt(n) => n <= INT64_MAX
    case VArray(es) => ElementsClean(es)
    case VObject(ms) => Distinct(ms) && MembersClean(ms)
    case _ => true
  }

  predicate ElementsClean(es: seq<Value>) { es == [] || (Clean(es[0]) && ElementsClean(es[1..])) }

  predicate MembersClean(ms: seq<Member>) { ms == [] || (Clean(ms[0].value) && MembersClean(ms[1..])) }

  /** No name twice in an object: the larger domain of reflexivity and symmetry, with doubles. */
  predicate Tidy(v: Value) {
    match v
    case VArray(es) => ElementsTidy(es)
    case VObject(ms) => Distinct(ms) && MembersTidy(ms)
    case _ => true
  }

  predicate ElementsTidy(es: seq<Value>) { es == [] || (Tidy(es[0]) && ElementsTidy(es[1..])) }

  predicate MembersTidy(ms: seq<Member>) { ms == [] || (Tidy(ms[0].value) && MembersTidy(ms[1..])) }

  lemma {:induction false} MemberTidy(ms: seq<Member>, i: nat)
    requires MembersTidy(ms) && i < |ms|
    ensures Tidy(ms[i].value)
  {
    if i > 0 { MemberTidy(ms[1..], i - 1); }
  }

  lemma {:induction false} CleanIsTidy(v: Value)
    requires Clean(v)
    ensures Tidy(v)
    decreases v, 1
  {
    if v.VArray? {
      CleanElementsAreTidy(v.elements);
    } else if v.VObject? {
      CleanMembersAreTidy(v.members);
    }
  }

  lemma {:induction false} CleanElementsAreTidy(es: seq<Value>)
    requires ElementsClean(es)
    ensures ElementsTidy(es)
    decreases es, 0
  {
    if es != [] {
      CleanIsTidy(es[0]);
      CleanElementsAreTidy(es[1..]);
    }
  }

  lemma {:induction false} CleanMembersAreTidy(ms: seq<Member>)
    requires MembersClean(ms)
    ensures MembersTidy(ms)
    decreases ms, 0
  {
    if ms != [] {
      CleanIsTidy(ms[0].value);
      CleanMembersAreTidy(ms[1..]);
    }
  }

  /** No doubles: the larger domain of transitivity, with duplicate names and all integers. */
  predicate Exact(v: Value) {
    match v
    case VDouble(_) => false
    case VArray(es) => ElementsExact(es)
    case VObject(ms) => MembersExact(ms)
    case _ => true
  }

  predicate ElementsExact(es: seq<Value>) { es == [] || (Exact(es[0]) && ElementsExact(es[1..])) }

  predicate MembersExact(ms: seq<Member>) { ms == [] || (Exact(ms[0].value) && MembersExact(ms[1..])) }

  lemma {:induction false} MemberExact(ms: seq<Member>, i: nat)
    requires MembersExact(ms) && i < |ms|
    ensures Exact(ms[i].value)
  {
    if i > 0 { MemberExact(ms[1..], i - 1); }
  }

  lemma {:induction false} CleanIsExact(v: Value)
    requires Clean(v)
    ensures Exact(v)
    decreases v, 1
  {
    if v.VArray? {
      CleanElementsAreExact(v.elements);
    } else if v.VObject? {
      CleanMembersAreExact(v.members);
    }
  }

  lemma {:induction false} CleanElementsAreExact(es: seq<Value>)
    requires ElementsClean(es)
    ensures ElementsExact(es)
    decreases es, 0
  {
    if es != [] {
      CleanIsExact(es[0]);
      CleanElementsAreExact(es[1..]);
    }
  }

  lemma {:induction false} CleanMembersAreExact(ms: seq<Member>)
    requires MembersClean(ms)
    ensures MembersExact(ms)
    decreases ms, 0
  {
    if ms != [] {
      CleanIsExact(ms[0].value);
      CleanMembersAreExact(ms[1..]);
    }
  }

  lemma {:induction false} MemberClean(ms: seq<Member>, i: nat)
    requires MembersClean(ms) && i < |ms|
    ensures Clean(ms[i].value)
  {
    if i > 0 { MemberClean(ms[1..], i - 1); }
  }

  lemma {:induction false} AllFound(ms: seq<Member>, ns: seq<Member>, number: Value -> real)
    ensures MembersEqual(ms, ns, number) <==> forall i :: 0 <= i < |ms| ==> Found(ms[i], ns, number)
    decreases ms
  {
    hide Found;
    if ms != [] {
      AllFound(ms[1..], ns, number);
      assert forall i :: 0 < i < |ms| ==> ms[i] == ms[1..][i - 1];
    }
  }

  /** In a duplicate-free object the search finds the member itself. */
  lemma FindsIt(ns: seq<Member>, j: nat)
    requires Distinct(ns) && j < |ns|
    ensures FindMember(ns, ns[j].name) == j
  {
  }

  // ----- counting names -----

  function Names(ms: seq<Member>): set<bytes> { set i | 0 <= i < |ms| :: ms[i].name }

  lemma NamesCons(ms: seq<Member>)
    requires ms != []
    ensures Names(ms) == Names(ms[1..]) + {ms[0].name}
  {
    var rest := ms[1..];
    forall name | name in Names(rest)
      ensures name in Names(ms)
    {
      var i :| 0 <= i < |rest| && rest[i].name == name;
      assert ms[i + 1].name == name;
    }
    forall i | 0 < i < |ms|
      ensures ms[i].name in Names(rest)
    {
      assert ms[i] == rest[i - 1];
    }
  }

  lemma DistinctCons(ms: seq<Member>)
    requires ms != []
    ensures Distinct(ms) <==> Distinct(ms[1..]) && ms[0].name !in Names(ms[1..])
  {
    var rest := ms[1..];
    assert forall i :: 0 < i < |ms| ==> ms[i] == rest[i - 1];
    if ms[0].name in Names(rest) {
      var i :| 0 <= i < |rest| && rest[i].name == ms[0].name;
      assert ms[i + 1].name == ms[0].name;
    } else {
      assert forall i :: 0 <= i < |rest| ==> rest[i].name in Names(rest);
    }
  }

  lemma {:induction false} CountNames(ms: seq<Member>)
    ensures |Names(ms)| <= |ms|
    ensures |Names(ms)| == |ms| <==> Distinct(ms)
  {
    if ms == [] {
      assert Names(ms) == {};
    } else {
      CountNames(ms[1..]);
      NamesCons(ms);
      DistinctCons(ms);
      hide Names, Distinct;
      if ms[0].name in Names(ms[1..]) { assert Names(ms) == Names(ms[1..]); }
    }
  }

  lemma {:induction false} SubsetOfSameSize(a: set<bytes>, b: set<bytes>)
    requires a <= b && |a| >= |b|
    ensures a == b
  {
    if x :| x in b && x !in a {
      SubsetSize(a, b - {x});
    }
  }

  lemma {:induction false} SubsetSize(a: set<bytes>, b: set<bytes>)
    requires a <= b
    ensures |a| <= |b|
  {
    if a != {} {
      var x :| x in a;
      SubsetSize(a - {x}, b - {x});
    }
  }

  lemma NamesCovered(ms: seq<Member>, ns: seq<Member>, number: Value -> real)
    requires MembersEqual(ms, ns, number)
    ensures Names(ms) <= Names(ns)
  {
    AllFound(ms, ns, number);
    forall name | name in Names(ms)
      ensures name in Names(ns)
    {
      var i :| 0 <= i < |ms| && ms[i].name == name;
      assert Found(ms[i], ns, number);
      assert ns[FindMember(ns, name)].name == name;
    }
  }

  // ----- an equivalence -----

  lemma {:induction false} Reflexive(v: Value, number: Value -> real)
    requires Tidy(v)
    ensures Equal(v, v, number)
    decreases v, 1
  {
    if v.VArray? {
      ReflexiveElements(v.elements, number);
    } else if v.VObject? {
      var ms := v.members;
      forall i | 0 <= i < |ms|
        ensures Found(ms[i], ms, number)
      {
        FindsIt(ms, i);
        MemberTidy(ms, i);
        Reflexive(ms[i].value, number);
      }
      AllFound(ms, ms, number);
    }
  }

  lemma {:induction false} ReflexiveElements(es: seq<Value>, number: Value -> real)
    requires ElementsTidy(es)
    ensures ElementsEqual(es, es, number)
    decreases es, 0
  {
    if es != [] {
      Reflexive(es[0], number);
      ReflexiveElements(es[1..], number);
    }
  }

  /** The members on the right are found on the left: as many names, all of them covered. */
  lemma FoundBack(ms: seq<Member>, ns: seq<Member>, j: nat, number: Value -> real) returns (i: nat)
    requires Distinct(ms) && Distinct(ns) && |ms| == |ns| && MembersEqual(ms, ns, number) && j < |ns|
    ensures i < |ms| && ms[i].name == ns[j].name && FindMember(ms, ns[j].name) == i
    ensures Equal(ms[i].value, ns[j].value, number)
  {
    NamesCovered(ms, ns, number);
    CountNames(ms);
    CountNames(ns);
    SubsetOfSameSize(Names(ms), Names(ns));
    assert ns[j].name in Names(ms);
    i :| 0 <= i < |ms| && ms[i].name == ns[j].name;
    FindsIt(ms, i);
    FindsIt(ns, j);
    AllFound(ms, ns, number);
    assert Found(ms[i], ns, number);
  }

  lemma {:induction false} Symmetric(a: Value, b: Value, number: Value -> real)
    requires Tidy(a) && Tidy(b) && Equal(a, b, number)
    ensures Equal(b, a, number)
    decreases a, 1
  {
    if a.VArray? {
      SymmetricElements(a.elements, b.elements, number);
    } else if a.VObject? {
      SymmetricMembers(a.members, b.members, number);
    }
  }

  lemma {:induction false} SymmetricElements(es: seq<Value>, fs: seq<Value>, number: Value -> real)
    requires |es| == |fs| && ElementsTidy(es) && ElementsTidy(fs) && ElementsEqual(es, fs, number)
    ensures ElementsEqual(fs, es, number)
    decreases es, 0
  {
    if es != [] {
      Symmetric(es[0], fs[0], number);
      SymmetricElements(es[1..], fs[1..], number);
    }
  }

  lemma {:induction false} SymmetricMembers(ms: seq<Member>, ns: seq<Member>, number: Value -> real)
    requires Distinct(ms) && Distinct(ns) && MembersTidy(ms) && MembersTidy(ns)
    requires |ms| == |ns| && MembersEqual(ms, ns, number)
    ensures MembersEqual(ns, ms, number)
    decreases ms, 0
  {
    forall j | 0 <= j < |ns|
      ensures Found(ns[j], ms, number)
    {
      var i := FoundBack(ms, ns, j, number);
      MemberTidy(ms, i);
      MemberTidy(ns, j);
      Symmetric(ms[i].value, ns[j].value, number);
    }
    AllFound(ns, ms, number);
  }

  /** Transitivity holds with duplicate names too, and for all integers. */
  lemma {:induction false} Transitive(a: Value, b: Value, c: Value, number: Value -> real)
    requires Exact(a) && Exact(b) && Exact(c) && Equal(a, b, number) && Equal(b, c, number)
    ensures Equal(a, c, number)
    decreases a, 1
  {
    if a.VArray? {
      TransitiveElements(a.elements, b.elements, c.elements, number);
    } else if a.VObject? {
      TransitiveMembers(a.members, b.members, c.members, number);
    }
  }

  lemma {:induction false} TransitiveElements(es: seq<Value>, fs: seq<Value>, gs: seq<Value>, number: Value -> real)
    requires |es| == |fs| == |gs| && ElementsExact(es) && ElementsExact(fs) && ElementsExact(gs)
    requires ElementsEqual(es, fs, number) && ElementsEqual(fs, gs, number)
    ensures ElementsEqual(es, gs, number)
    decreases es, 0
  {
    if es != [] {
      Transitive(es[0], fs[0], gs[0], number);
      TransitiveElements(es[1..], fs[1..], gs[1..], number);
    }
  }

  lemma {:induction false} TransitiveMembers(ms: seq<Member>, ns: seq<Member>, os: seq<Member>, number: Value -> real)
    requires MembersExact(ms) && MembersExact(ns) && MembersExact(os)
    requires MembersEqual(ms, ns, number) && MembersEqual(ns, os, number)
    ensures MembersEqual(ms, os, number)
    decreases ms, 0
  {
    AllFound(ms, ns, number);
    AllFound(ns, os, number);
    forall i | 0 <= i < |ms|
      ensures Found(ms[i], os, number)
    {
      assert Found(ms[i], ns, number);
      var j := FindMember(ns, ms[i].name);
      assert Found(ns[j], os, number);
      var k := FindMember(os, ms[i].name);
      MemberExact(ms, i);
      MemberExact(ns, j);
      MemberExact(os, k);
      Transitive(ms[i].value, ns[j].value, os[k].value, number);
    }
    AllFound(ms, os, number);
  }

  /** The order of the members does not matter. */
  lemma OrderIgnored(ms: seq<Member>, ns: seq<Member>, number: Value -> real)
    requires Tidy(VObject(ms)) && Distinct(ns)
    requires |ms| == |ns| && forall i :: 0 <= i < |ms| ==> ms[i] in ns
    ensures Equal(VObject(ms), VObject(ns), number)
  {
    forall i | 0 <= i < |ms|
      ensures Found(ms[i], ns, number)
    {
      var j :| 0 <= j < |ns| && ns[j] == ms[i];
      FindsIt(ns, j);
      MemberTidy(ms, i);
      Reflexive(ms[i].value, number);
    }
    AllFound(ms, ns, number);
  }

  // ----- outside the domain -----

  /** Integers are equal as 64-bit patterns: beyond int64_t, different numbers can be equal. */
  lemma IntegersEqualExactly(n: integer, m: integer, number: Value -> real)
    ensures Equal(VInt(n), VInt(m), number) <==>
            n == m || n - m == 0x1_0000_0000_0000_0000 || m - n == 0x1_0000_0000_0000_0000
  {
  }

  /** When an object is equal to a duplicate-free one, the converse holds exactly when it is
      duplicate-free itself. */
  lemma SymmetricExactly(ms: seq<Member>, ns: seq<Member>, number: Value -> real)
    requires MembersTidy(ms) && MembersTidy(ns) && Distinct(ns) && Equal(VObject(ms), VObject(ns), number)
    ensures Equal(VObject(ns), VObject(ms), number) <==> Distinct(ms)
  {
    CountNames(ms);
    CountNames(ns);
    if Distinct(ms) {
      SymmetricMembers(ms, ns, number);
    } else if Equal(VObject(ns), VObject(ms), number) {
      NamesCovered(ns, ms, number);
      SubsetSize(Names(ns), Names(ms));
      assert false;
    }
  }

  /** The documentation says that an object with a duplicate name is equal to no object; the code
      finds it equal to itself. */
  lemma DuplicatesCanBeEqual(name: bytes, number: Value -> real)
    ensures var v := VObject([Member(name, VNull), Member(name, VNull)]); !Clean(v) && Equal(v, v, number)
  {
    var ms := [Member(name, VNull), Member(name, VNull)];
    assert ms[0].name == ms[1].name && !Distinct(ms);
    assert FindMember(ms, name) == 0;
    forall i | 0 <= i < |ms|
      ensures Found(ms[i], ms, number)
    {
    }
    AllFound(ms, ms, number);
  }

  /** An object with a duplicate name can be equal to a duplicate-free one. */
  lemma NotSymmetric(name: bytes, other: bytes, number: Value -> real)
    requires name != other
    ensures var a, b :=
            VObject([Member(name, VNull), Member(name, VNull)]), VObject([Member(name, VNull), Member(other, VNull)]);
            Equal(a, b, number) && !Equal(b, a, number)
  {
    var ms, ns := [Member(name, VNull), Member(name, VNull)], [Member(name, VNull), Member(other, VNull)];
    forall i | 0 <= i < |ms|
      ensures Found(ms[i], ns, number)
    {
      FindsIt(ns, 0);
    }
    AllFound(ms, ns, number);
    assert !Found(ns[1], ms, number);
    AllFound(ns, ms, number);
  }

  // ----- exactly where the documented promise holds -----

  /** Members of the same name have equal values. */
  ghost predicate SameNamesAgree(ms: seq<Member>, number: Value -> real) {
    forall i, j :: 0 <= i < j < |ms| && ms[i].name == ms[j].name ==> Equal(ms[i].value, ms[j].value, number)
  }

  /** Some object on the right is equal. */
  ghost predicate HasEqual(ms: seq<Member>, number: Value -> real) {
    exists ns :: MembersClean(ns) && Equal(VObject(ms), VObject(ns), number)
  }

  /** Then members of the same name are found at the same place on the right. */
  lemma FoundTwice(ms: seq<Member>, ns: seq<Member>, i: nat, j: nat, number: Value -> real)
    requires MembersClean(ms) && MembersClean(ns) && MembersEqual(ms, ns, number)
    requires i < |ms| && j < |ms| && ms[i].name == ms[j].name
    ensures Equal(ms[i].value, ms[j].value, number)
  {
    AllFound(ms, ns, number);
    assert Found(ms[i], ns, number) && Found(ms[j], ns, number);
    var k := FindMember(ns, ms[i].name);
    MemberClean(ms, i);
    MemberClean(ms, j);
    MemberClean(ns, k);
    CleanIsExact(ms[i].value);
    CleanIsExact(ms[j].value);
    CleanIsExact(ns[k].value);
    CleanIsTidy(ms[j].value);
    CleanIsTidy(ns[k].value);
    hide Equal;
    Symmetric(ms[j].value, ns[k].value, number);
    Transitive(ms[i].value, ns[k].value, ms[j].value, number);
  }

  /** Where ns has the first member of every name of ms, ms is equal to it. */
  lemma AgreeWith(ms: seq<Member>, ns: seq<Member>, number: Value -> real)
    requires MembersClean(ms) && SameNamesAgree(ms, number) && |ns| == |ms|
    requires forall i :: 0 <= i < |ms| ==>
      var f := FindMember(ms, ms[i].name); FindMember(ns, ms[i].name) == f < |ms| && ns[f] == ms[f]
    ensures Equal(VObject(ms), VObject(ns), number)
  {
    forall i | 0 <= i < |ms|
      ensures Found(ms[i], ns, number)
    {
      var k := FindMember(ms, ms[i].name);
      MemberClean(ms, i);
      MemberClean(ms, k);
      hide Equal, Tidy;
      CleanIsTidy(ms[i].value);
      CleanIsTidy(ms[k].value);
      if k == i {
        Reflexive(ms[i].value, number);
      } else {
        Symmetric(ms[k].value, ms[i].value, number);
      }
    }
    AllFound(ms, ns, number);
  }

  lemma FindsFirst(ms: seq<Member>, i: nat)
    requires i < |ms|
    ensures FindMember(ms, ms[i].name) <= i
  {
  }

  /** As the left operand an object has an equal one exactly when its members of the same name
      agree. So the promise of the documentation, that an object with a duplicate name is equal to no
      object, holds on the left exactly for objects two of whose members have the same name and
      different values. */
  lemma EqualOnTheLeftExactly(ms: seq<Member>, number: Value -> real)
    requires MembersClean(ms)
    ensures HasEqual(ms, number) <==> SameNamesAgree(ms, number)
  {
    if HasEqual(ms, number) {
      var ns :| MembersClean(ns) && Equal(VObject(ms), VObject(ns), number);
      forall i, j | 0 <= i < j < |ms| && ms[i].name == ms[j].name
        ensures Equal(ms[i].value, ms[j].value, number)
      {
        FoundTwice(ms, ns, i, j, number);
      }
    }
    if SameNamesAgree(ms, number) {
      forall i | 0 <= i < |ms|
        ensures FindMember(ms, ms[i].name) < |ms|
      {
        FindsFirst(ms, i);
      }
      AgreeWith(ms, ms, number);
    }
  }

  lemma {:induction false} CopiesClean(m: Member, n: nat)
    requires Clean(m.value)
    ensures MembersClean(seq(n, _ => m))
  {
    if n > 0 {
      assert seq(n, _ => m)[1..] == seq(n - 1, _ => m);
      CopiesClean(m, n - 1);
    }
  }

  /** As the right operand every object has an equal one, duplicate names or not: there the promise
      never holds. */
  lemma EqualOnTheRightAlways(ns: seq<Member>, number: Value -> real) returns (ms: seq<Member>)
    requires MembersClean(ns)
    ensures MembersClean(ms) && Equal(VObject(ms), VObject(ns), number)
  {
    ms := [];
    if ns != [] {
      var m := ns[0];
      ms := seq(|ns|, _ => m);
      CopiesClean(m, |ns|);
      CleanIsTidy(m.value);
      Reflexive(m.value, number);
      assert Found(m, ns, number);
      AllFound(ms, ns, number);
    }
  }

  // ----- exactly where equality is symmetric -----

  /** A name that no member has: longer than all of them. */
  function FreshName(ms: seq<Member>): (name: bytes)
    ensures forall i :: 0 <= i < |ms| ==> |ms[i].name| < |name|
  {
    if ms == [] then [0]
    else
      var rest := FreshName(ms[1..]);
      assert forall i :: 0 < i < |ms| ==> ms[i] == ms[1..][i - 1];
      if |ms[0].name| < |rest| then rest else ms[0].name + [0]
  }

  /** The second of two members of the same name gets a name of its own. */
  lemma Renamed(ms: seq<Member>, i: nat, j: nat, number: Value -> real) returns (ns: seq<Member>)
    requires MembersClean(ms) && SameNamesAgree(ms, number)
    requires i < j < |ms| && ms[i].name == ms[j].name
    ensures MembersClean(ns) && Equal(VObject(ms), VObject(ns), number) && !Equal(VObject(ns), VObject(ms), number)
  {
    var other := Member(FreshName(ms), VNull);
    ns := ms[j := other];
    CleanUpdate(ms, j, other);
    forall k | 0 <= k < |ms|
      ensures var f := FindMember(ms, ms[k].name); FindMember(ns, ms[k].name) == f < |ms| && ns[f] == ms[f]
    {
      FindsFirst(ms, k);
      FindsFirst(ms, j);
      FindsFirst(ms, i);
      var f := FindMember(ms, ms[k].name);
      assert f != j;
      assert ns[f] == ms[f];
      FindsFirst(ns, f);
    }
    AgreeWith(ms, ns, number);
    assert ns[j] == other && !Found(ns[j], ms, number);
    AllFound(ns, ms, number);
  }

  lemma {:induction false} CleanUpdate(ms: seq<Member>, j: nat, m: Member)
    requires MembersClean(ms) && j < |ms| && Clean(m.value)
    ensures MembersClean(ms[j := m])
  {
    if j > 0 {
      assert ms[j := m][1..] == ms[1..][j - 1 := m];
      CleanUpdate(ms[1..], j - 1, m);
    }
  }

  /** What a duplicate-free object is equal to is duplicate-free. */
  lemma DistinctOnTheRight(ms: seq<Member>, ns: seq<Member>, number: Value -> real)
    requires Distinct(ms) && |ms| == |ns| && MembersEqual(ms, ns, number)
    ensures Distinct(ns)
  {
    NamesCovered(ms, ns, number);
    CountNames(ms);
    CountNames(ns);
    SubsetSize(Names(ms), Names(ns));
  }

  /** Whatever is equal to an object has it as an equal in turn. */
  ghost predicate IsSymmetric(ms: seq<Member>, number: Value -> real) {
    forall ns :: MembersClean(ns) && Equal(VObject(ms), VObject(ns), number) ==> Equal(VObject(ns), VObject(ms), number)
  }

  /** Equality is symmetric in an object exactly when it has no duplicate name, or is equal to nothing
      because two members of the same name differ. */
  lemma SymmetricOverAllExactly(ms: seq<Member>, number: Value -> real)
    requires MembersClean(ms)
    ensures IsSymmetric(ms, number) <==> Distinct(ms) || !SameNamesAgree(ms, number)
  {
    hide Equal;
    if Distinct(ms) {
      forall ns | MembersClean(ns) && Equal(VObject(ms), VObject(ns), number)
        ensures Equal(VObject(ns), VObject(ms), number)
      {
        assert |ms| == |ns| && MembersEqual(ms, ns, number) by { EqualMeans(ms, ns, number); }
        DistinctOnTheRight(ms, ns, number);
        CleanMembersAreTidy(ms);
        CleanMembersAreTidy(ns);
        Symmetric(VObject(ms), VObject(ns), number);
      }
    } else if SameNamesAgree(ms, number) {
      var i, j :| 0 <= i < j < |ms| && ms[i].name == ms[j].name;
      var ns := Renamed(ms, i, j, number);
      assert !IsSymmetric(ms, number);
    } else {
      EqualOnTheLeftExactly(ms, number);
    }
  }

  lemma EqualMeans(ms: seq<Member>, ns: seq<Member>, number: Value -> real)
    ensures Equal(VObject(ms), VObject(ns), number) <==> |ms| == |ns| && MembersEqual(ms, ns, number)
  {
  }
}
