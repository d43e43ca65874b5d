/** Where `required` means less than JSON Schema draft-04 says: a required property whose schema has
    a non-empty string default may be missing. */
module SchemaDefaults {
  import opened Json
  import opened Schema

  /** Section 5.4.3 of JSON Schema validation: every required property is present. */
  ghost predicate AllRequiredPresent(ps: seq<Property>, ms: seq<Member>) {
    forall i :: 0 <= i < |ps| && ps[i].required ==> Present(ps, i, ms)
  }

  ghost predicate RequirementsMet(ps: seq<Property>, ms: seq<Member>) {
    forall i :: 0 <= i < |ps| ==> RequirementMet(ps, i, ms)
  }

  predicate DistinctNames(ps: seq<Property>) { forall i, j :: 0 <= i < j < |ps| ==> ps[i].name != ps[j].name }

  /** An object with a member for every property that has no default. */
  function WithoutDefaults(ps: seq<Property>): seq<Member> {
    if ps == [] then []
    else (if ps[0].schema.defaultValueLength == 0 then [Member(ps[0].name, VNull)] else []) + WithoutDefaults(ps[1..])
  }

  /** Some entry of this name has no default. */
  predicate WithoutDefault(ps: seq<Property>, name: bytes) {
    exists i :: 0 <= i < |ps| && ps[i].name == name && ps[i].schema.defaultValueLength == 0
  }

  predicate HasMember(ms: seq<Member>, name: bytes) { exists k :: 0 <= k < |ms| && ms[k].name == name }

  lemma HasMemberOf(ms: seq<Member>, m: Member, name: bytes)
    ensures HasMember([m] + ms, name) <==> m.name == name || HasMember(ms, name)
  {
    if k :| 0 <= k < |ms| && ms[k].name == name {
      assert ([m] + ms)[k + 1].name == name;
    }
    if m.name == name { assert ([m] + ms)[0].name == name; }
  }

  lemma WithoutDefaultOf(ps: seq<Property>, name: bytes)
    requires ps != []
    ensures WithoutDefault(ps, name) <==>
            (ps[0].name == name && ps[0].schema.defaultValueLength == 0) || WithoutDefault(ps[1..], name)
  {
    assert forall i :: 0 < i < |ps| ==> ps[i] == ps[1..][i - 1];
    if i :| 0 <= i < |ps[1..]| && ps[1..][i].name == name && ps[1..][i].schema.defaultValueLength == 0 {
      assert ps[i + 1].name == name;
    }
  }

  lemma {:induction false} HasExactly(ps: seq<Property>, name: bytes)
    ensures HasMember(WithoutDefaults(ps), name) <==> WithoutDefault(ps, name)
  {
    if ps != [] {
      HasExactly(ps[1..], name);
      HasMemberOf(WithoutDefaults(ps[1..]), Member(ps[0].name, VNull), name);
      WithoutDefaultOf(ps, name);
      hide HasMember, WithoutDefault;
      assert [] + WithoutDefaults(ps[1..]) == WithoutDefaults(ps[1..]);
    }
  }

  lemma PresentWithoutDefault(ps: seq<Property>, i: nat)
    requires DistinctNames(ps) && i < |ps|
    ensures Present(ps, i, WithoutDefaults(ps)) <==> ps[i].schema.defaultValueLength == 0
  {
    hide Present, WithoutDefaults;
    PresentByName(ps, i, WithoutDefaults(ps));
    HasExactly(ps, ps[i].name);
  }

  /** The validator treats `required` as the specification does, on every object, exactly when no
      required property has a schema with a non-empty string default. */
  lemma RequiredExactly(ps: seq<Property>)
    requires DistinctNames(ps)
    ensures (forall ms: seq<Member> :: RequirementsMet(ps, ms) <==> AllRequiredPresent(ps, ms))
            <==> forall i :: 0 <= i < |ps| && ps[i].required ==> ps[i].schema.defaultValueLength == 0
  {
    if i :| 0 <= i < |ps| && ps[i].required && ps[i].schema.defaultValueLength != 0 {
      var ms := WithoutDefaults(ps);
      forall j | 0 <= j < |ps|
        ensures RequirementMet(ps, j, ms)
      {
        PresentWithoutDefault(ps, j);
      }
      PresentWithoutDefault(ps, i);
      assert RequirementsMet(ps, ms) && !AllRequiredPresent(ps, ms);
    } else {
      forall ms: seq<Member>
        ensures RequirementsMet(ps, ms) <==> AllRequiredPresent(ps, ms)
      {
        assert forall j :: 0 <= j < |ps| ==> (RequirementMet(ps, j, ms) <==> (ps[j].required ==> Present(ps, j, ms)));
      }
    }
  }

  /** {"properties": {"a": {"default": "x"}}, "required": ["a"]} accepts the empty object. */
  lemma DefaultIsNotMissed(name: bytes)
    ensures var ps := [Property(name, true, Typeless().(defaultValueLength := 1), true, NoDependencies)];
            var s := Typeless().(properties := ps);
            Valid(s, VObject([])) && !AllRequiredPresent(ps, [])
  {
    var ps := [Property(name, true, Typeless().(defaultValueLength := 1), true, NoDependencies)];
    assert ps[0].required && !Present(ps, 0, []);
    assert forall i :: !Present(ps, i, []);
  }
}
