/** Get, Create and Erase as they run: a cursor walks down the document and changes it in place.
    The cursor is the sequence of child positions from the root. */
module PointerDomMachine {
  import opened Json
  import opened Pointer
  import opened PointerDom
  import Eq = Equality

  // ----- cursors -----

  predicate ValidPath(v: Value, path: seq<nat>)
    decreases |path|
  {
    path == [] || (HasChild(v, path[0]) && ValidPath(Child(v, path[0]), path[1..]))
  }

  function ValueAt(v: Value, path: seq<nat>): Value
    requires ValidPath(v, path)
    decreases |path|
  {
    if path == [] then v else ValueAt(Child(v, path[0]), path[1..])
  }

  /** v with the value at the cursor replaced. */
  function Replace(v: Value, path: seq<nat>, c: Value): Value
    requires ValidPath(v, path)
    decreases |path|
  {
    if path == [] then c else WithChild(v, path[0], Replace(Child(v, path[0]), path[1..], c))
  }

  lemma WithChildAt(v: Value, k: nat, c: Value)
    requires HasChild(v, k)
    ensures HasChild(WithChild(v, k, c), k) && Child(WithChild(v, k, c), k) == c
    ensures forall d :: WithChild(WithChild(v, k, c), k, d) == WithChild(v, k, d)
  {
  }

  lemma {:induction false} ReplaceAt(v: Value, path: seq<nat>, c: Value)
    requires ValidPath(v, path)
    ensures ValidPath(Replace(v, path, c), path) && ValueAt(Replace(v, path, c), path) == c
    decreases |path|
  {
    hide HasChild, Child, WithChild;
    if path != [] {
      ReplaceAt(Child(v, path[0]), path[1..], c);
      WithChildAt(v, path[0], Replace(Child(v, path[0]), path[1..], c));
    }
  }

  lemma {:induction false} ReplaceTwice(v: Value, path: seq<nat>, c: Value, d: Value)
    requires ValidPath(v, path)
    ensures ValidPath(Replace(v, path, c), path) && Replace(Replace(v, path, c), path, d) == Replace(v, path, d)
    decreases |path|
  {
    hide HasChild, Child, WithChild;
    if path != [] {
      ReplaceTwice(Child(v, path[0]), path[1..], c, d);
      WithChildAt(v, path[0], Replace(Child(v, path[0]), path[1..], c));
    }
  }

  /** One step further down. */
  lemma {:induction false} Further(v: Value, path: seq<nat>, k: nat)
    requires ValidPath(v, path) && HasChild(ValueAt(v, path), k)
    ensures ValidPath(v, path + [k]) && ValueAt(v, path + [k]) == Child(ValueAt(v, path), k)
    decreases |path|
  {
    hide HasChild, Child;
    if path == [] {
      assert path + [k] == [k] && [k][1..] == [];
    } else {
      assert (path + [k])[1..] == path[1..] + [k];
      Further(Child(v, path[0]), path[1..], k);
    }
  }

  lemma {:induction false} ReplaceFurther(v: Value, path: seq<nat>, k: nat, c: Value)
    requires ValidPath(v, path) && HasChild(ValueAt(v, path), k) && ValidPath(v, path + [k])
    ensures Replace(v, path + [k], c) == Replace(v, path, WithChild(ValueAt(v, path), k, c))
    decreases |path|
  {
    hide HasChild, Child, WithChild;
    if path == [] {
      assert path + [k] == [k] && [k][1..] == [];
    } else {
      assert (path + [k])[1..] == path[1..] + [k];
      Further(Child(v, path[0]), path[1..], k);
      ReplaceFurther(Child(v, path[0]), path[1..], k, c);
    }
  }

  lemma {:induction false} ReplaceSame(v: Value, path: seq<nat>)
    requires ValidPath(v, path)
    ensures Replace(v, path, ValueAt(v, path)) == v
    decreases |path|
  {
    if path != [] {
      ReplaceSame(Child(v, path[0]), path[1..]);
      Unchanged(v, path[0]);
    }
  }

  // ----- the document -----

  class Dom {
    var root: Value

    constructor (root: Value)
      ensures this.root == root
    {
      this.root := root;
    }

    /** Where one token leads from the value at the cursor. */
    method FindChild(v: Value, t: Token) returns (k: Option<nat>)
      ensures k == Find(v, t)
    {
      if v.VObject? {
        var j := 0;
        while j < |v.members| && v.members[j].name != t.name
          invariant j <= |v.members| && forall i :: 0 <= i < j ==> v.members[i].name != t.name
        {
          j := j + 1;
        }
        FoundIn(v.members, t.name, j);
        return if j < |v.members| then Some(j) else None;
      } else if v.VArray? {
        if t.index == INVALID_INDEX || t.index >= |v.elements| { return None; }
        return Some(t.index);
      } else {
        return None;
      }
    }

    method Get(ts: seq<Token>) returns (path: Option<seq<nat>>)
      ensures path.Some? <==> PointerDom.Get(root, ts).Some?
      ensures path.Some? ==> ValidPath(root, path.value) && Some(ValueAt(root, path.value)) == PointerDom.Get(root, ts)
    {
      hide Find, HasChild, Child;
      var cursor: seq<nat> := [];
      var n := 0;
      assert ts[0..] == ts;
      while n < |ts|
        invariant n <= |ts| && ValidPath(root, cursor)
        invariant PointerDom.Get(root, ts) == PointerDom.Get(ValueAt(root, cursor), ts[n..])
      {
        assert ts[n..][1..] == ts[n + 1..];
        var v := ValueAt(root, cursor);
        var k := FindChild(v, ts[n]);
        if k.None? { return None; }
        FindHasChild(v, ts[n]);
        Further(root, cursor, k.value);
        cursor := cursor + [k.value];
        n := n + 1;
      }
      return Some(cursor);
    }

    /** Writes a value at the cursor. */
    method Assign(path: seq<nat>, v: Value)
      requires ValidPath(root, path)
      modifies this
      ensures root == Replace(old(root), path, v)
      ensures ValidPath(root, path) && ValueAt(root, path) == v
    {
      ReplaceAt(root, path, v);
      root := Replace(root, path, v);
    }

    /** Reserve, and PushBack of nulls until the index is inside. */
    method Grow(elements: seq<Value>, index: nat) returns (grown: seq<Value>)
      requires index >= |elements|
      ensures grown == elements + Nulls(index + 1 - |elements|)
    {
      grown := elements;
      while index >= |grown|
        invariant |elements| <= |grown| <= index + 1 && grown == elements + Nulls(|grown| - |elements|)
        decreases index + 1 - |grown|
      {
        grown := grown + [VNull];
      }
    }

    /** One round of Create: the value at the cursor becomes a container that has the token's child. */
    method MakeChild(path: seq<nat>, t: Token) returns (k: nat, was: bool)
      requires ValidPath(root, path)
      modifies this
      ensures var m := Make(ValueAt(old(root), path), t);
              k == m.k && was == m.was && root == Replace(old(root), path, m.container)
    {
      hide ValueAt, Replace, ValidPath;
      var v := ValueAt(root, path);
      if v.VArray? && t.name == MINUS_NAME {
        Assign(path, VArray(v.elements + [VNull]));
        return |v.elements|, false;
      }
      var c := v;
      if t.index == INVALID_INDEX {
        if !v.VObject? { c := VObject([]); }
      } else if !v.VArray? && !v.VObject? {
        c := VArray([]);
      }
      if c.VArray? {
        was := true;
        if t.index >= |c.elements| {
          var grown := Grow(c.elements, t.index);
          c, was := VArray(grown), false;
        }
        k := t.index;
      } else {
        var j := FindChild(c, t);
        if j.None? {
          k := |c.members|;
          c, was := VObject(c.members + [Member(t.name, VNull)]), false;
        } else {
          k, was := j.value, true;
        }
      }
      Assign(path, c);
    }

    /** Create: the cursor ends at the value the pointer was given. */
    method Create(ts: seq<Token>) returns (path: seq<nat>, alreadyExist: bool)
      modifies this
      ensures root == PointerDom.Create(old(root), ts).0 && alreadyExist == PointerDom.Create(old(root), ts).1
      ensures ValidPath(root, path)
    {
      hide Make, HasChild, Child, WithChild, ValueAt, Replace, ValidPath;
      path, alreadyExist := [], true;
      NoSteps(root);
      var n := 0;
      assert ts[0..] == ts;
      ghost var before := root;
      while n < |ts|
        invariant n <= |ts| && ValidPath(root, path)
        invariant PointerDom.Create(before, ts) ==
                  (Replace(root, path, PointerDom.Create(ValueAt(root, path), ts[n..]).0),
                   alreadyExist && PointerDom.Create(ValueAt(root, path), ts[n..]).1)
      {
        assert ts[n..][1..] == ts[n + 1..];
        ghost var v := ValueAt(root, path);
        ghost var m := Make(v, ts[n]);
        ghost var rest := PointerDom.Create(Child(m.container, m.k), ts[n + 1..]).0;
        ReplaceTwice(root, path, m.container, WithChild(m.container, m.k, rest));
        ReplaceAt(root, path, m.container);
        var k, was := MakeChild(path, ts[n]);
        Further(root, path, k);
        ReplaceFurther(root, path, k, rest);
        path, alreadyExist := path + [k], alreadyExist && was;
        n := n + 1;
      }
      ReplaceSame(root, path);
    }

    /** Erase. */
    method Erase(ts: seq<Token>) returns (erased: bool)
      modifies this
      ensures root == PointerDom.Erase(old(root), ts).0 && erased == PointerDom.Erase(old(root), ts).1
    {
      hide Find, HasChild, Child, WithChild, ValueAt, Replace, ValidPath, LastToken, WithoutChild;
      if ts == [] { return false; }
      var path: seq<nat> := [];
      NoSteps(root);
      var n := 0;
      assert ts[0..] == ts;
      while n < |ts| - 1
        invariant n < |ts| && ValidPath(root, path) && root == old(root)
        invariant PointerDom.Erase(root, ts) ==
                  (Replace(root, path, PointerDom.Erase(ValueAt(root, path), ts[n..]).0),
                   PointerDom.Erase(ValueAt(root, path), ts[n..]).1)
      {
        assert ts[n..][1..] == ts[n + 1..];
        var v := ValueAt(root, path);
        ReplaceSame(root, path);
        var k := FindChild(v, ts[n]);
        if k.None? { return false; }
        FindHasChild(v, ts[n]);
        Further(root, path, k.value);
        ReplaceFurther(root, path, k.value, PointerDom.Erase(Child(v, k.value), ts[n + 1..]).0);
        path := path + [k.value];
        n := n + 1;
      }
      var v := ValueAt(root, path);
      ReplaceSame(root, path);
      assert ts[n..] == [ts[n]];
      var k := FindChild(v, LastToken(v, ts[n]));
      if k.None? { return false; }
      FindHasChild(v, LastToken(v, ts[n]));
      Assign(path, WithoutChild(v, k.value));
      return true;
    }
  }

  lemma FindHasChild(v: Value, t: Token)
    ensures Find(v, t).Some? ==> HasChild(v, Find(v, t).value)
  {
  }

  lemma NoSteps(v: Value)
    ensures ValidPath(v, []) && ValueAt(v, []) == v && forall c :: Replace(v, [], c) == c
  {
  }
}
