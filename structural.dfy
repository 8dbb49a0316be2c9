/** Deep copy and the source's structural equality over Obj. */
module Structural {
  import opened Wrappers
  import opened ValueModel

  /**
   * A deep copy: primitives are returned as they are, hashes are rebuilt key
   * by key from copies of their values. Values have no identity here, so a
   * copy is the same value.
   */
  method Clone(v: Obj) returns (r: Obj)
    ensures r == v
    decreases v
  {
    if v.Prim? {
      return v;
    }
    var copy: map<string, Obj> := map[];
    var todo := v.fields.Keys;
    while todo != {}
      invariant todo <= v.fields.Keys
      invariant copy.Keys == v.fields.Keys - todo
      invariant forall k :: k in copy ==> copy[k] == v.fields[k]
      decreases todo
    {
      var k :| k in todo;
      var c := Clone(v.fields[k]);
      copy := copy[k := c];
      todo := todo - {k};
    }
    return Hash(copy);
  }

  /**
   * Structural equality as the source computes it. When either side is a
   * primitive the two must be the same value. Two hashes are compared only
   * over the keys of `a`: each value of `a` must equal the value `b` holds
   * under that key, and keys that only `b` holds are never looked at. `b` is
   * optional because the recursion passes `b[k]`, which may be missing; a
   * missing `b` equals nothing except an empty hash (see README, Left out).
   */
  function Equal(a: Obj, b: Option<Obj>): bool
    decreases a
  {
    if a.Prim? || IsPrimitive(b) then b == Some(a)
    else forall k :: k in a.fields ==> b.Some? && Equal(a.fields[k], Child(b, k))
  }

  /** The source's equality loop, with its early return on the first unequal key. */
  method IsEqual(a: Obj, b: Option<Obj>) returns (eq: bool)
    ensures eq == Equal(a, b)
    decreases a
  {
    if a.Prim? || IsPrimitive(b) {
      return b == Some(a);
    }
    var todo := a.fields.Keys;
    while todo != {}
      invariant todo <= a.fields.Keys
      invariant forall k :: k in a.fields && k !in todo ==> b.Some? && Equal(a.fields[k], Child(b, k))
      decreases todo
    {
      var k :| k in todo;
      if b.None? {
        return false;
      }
      var same := IsEqual(a.fields[k], Child(b, k));
      if !same {
        return false;
      }
      todo := todo - {k};
    }
    return true;
  }

  /** Every value equals itself (and so equals its clone). */
  lemma {:induction false} EqualReflexive(v: Obj)
    ensures Equal(v, Some(v))
    decreases v
  {
    if v.Hash? {
      forall k | k in v.fields
        ensures Equal(v.fields[k], Child(Some(v), k))
      {
        EqualReflexive(v.fields[k]);
      }
    }
  }

  /** Primitives are compared by value, and a primitive never equals a hash (either way round). */
  lemma EqualOnPrimitives(p: Primitive, q: Primitive, m: map<string, Obj>)
    ensures Equal(Prim(p), Some(Prim(q))) <==> p == q
    ensures !Equal(Prim(p), Some(Hash(m)))
    ensures !Equal(Hash(m), Some(Prim(p)))
  {
  }

  /**
   * Only the keys of the first hash are compared: adding entries to the second
   * hash that the first does not hold never changes the answer.
   */
  lemma {:induction false} EqualIgnoresExtraKeys(m: map<string, Obj>, n: map<string, Obj>, extra: map<string, Obj>)
    requires extra.Keys !! m.Keys
    ensures Equal(Hash(m), Some(Hash(n))) == Equal(Hash(m), Some(Hash(n + extra)))
  {
    forall k | k in m
      ensures Child(Some(Hash(n)), k) == Child(Some(Hash(n + extra)), k)
    {
    }
  }

  /** Against a missing value only the empty hash is equal (a primitive is not). */
  lemma EqualToAbsent(v: Obj)
    ensures Equal(v, None) <==> v == Hash(map[])
  {
    if v.Hash? && v.fields != map[] {
      var k :| k in v.fields;
    }
  }

  /** A hash equals each of its extensions, whatever the added entries hold. */
  lemma {:induction false} EqualToExtension(m: map<string, Obj>, extra: map<string, Obj>)
    requires extra.Keys !! m.Keys
    ensures Equal(Hash(m), Some(Hash(m + extra)))
  {
    EqualReflexive(Hash(m));
    EqualIgnoresExtraKeys(m, m, extra);
  }

  /**
   * Equality is not symmetric: {a: 1} equals {a: 1, b: 2} but not the other
   * way round; and {x: {}} and {} equal each other both ways without being the
   * same value.
   */
  lemma EqualIsAsymmetric()
    ensures var one := Prim(Num(1));
      Equal(Hash(map["a" := one]), Some(Hash(map["a" := one, "b" := Prim(Num(2))])))
      && !Equal(Hash(map["a" := one, "b" := Prim(Num(2))]), Some(Hash(map["a" := one])))
    ensures var nested := Hash(map["x" := Hash(map[])]);
      Equal(nested, Some(Hash(map[]))) && Equal(Hash(map[]), Some(nested)) && nested != Hash(map[])
  {
    var one := Prim(Num(1));
    var small := map["a" := one];
    var big := map["a" := one, "b" := Prim(Num(2))];
    EqualToExtension(small, map["b" := Prim(Num(2))]);
    assert small + map["b" := Prim(Num(2))] == big;
    assert "b" in big && Child(Some(Hash(small)), "b") == None;
    EqualToAbsent(Hash(map[]));
    assert Child(Some(Hash(map[])), "x") == None;
  }
}
