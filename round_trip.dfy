/**
 * The promise that applying `Diff(A, B)` to A gives B, where it holds, where
 * it fails, and a diff for which it always holds.
 */
module RoundTrip {
  import opened Wrappers
  import opened ValueModel
  import opened Structural
  import opened Patches
  import opened DiffEngine
  import opened PatchApplier

  /**
   * No key reached through keys that origin and target share holds a
   * primitive in the origin and an empty hash in the target.
   */
  predicate NoPrimToEmpty(origin: Option<Obj>, target: Obj)
    decreases target
  {
    match target
    case Prim(_) => true
    case Hash(t) =>
      forall k :: k in t && k in Fields(origin) ==>
        !(Fields(origin)[k].Prim? && t[k] == Hash(map[])) && NoPrimToEmpty(Some(Fields(origin)[k]), t[k])
  }

  /** A value and itself never meet the condition's exception. */
  lemma {:induction false} NoPrimToEmptyOnSelf(v: Obj)
    ensures NoPrimToEmpty(Some(v), v)
    decreases v
  {
    if v.Hash? {
      forall k | k in v.fields && k in Fields(Some(v))
        ensures NoPrimToEmpty(Some(Fields(Some(v))[k]), v.fields[k])
      {
        NoPrimToEmptyOnSelf(v.fields[k]);
      }
    }
  }

  /** From a primitive, every key of a hash target is new, so each is recorded. */
  lemma DiffFromPrimitive(v: Primitive, t: map<string, Obj>)
    ensures Diff(Some(Prim(v)), Hash(t)).entries.Keys == t.Keys
  {
  }

  /**
   * The diff as evidently intended: a shared key is left out when its inner
   * patch is the no-op, or the empty hash patch while the origin already holds
   * a hash there. The empty hash patch is kept when the origin holds a
   * primitive, since applying nothing would leave that primitive in place.
   */
  function DiffCorrected(origin: Option<Obj>, target: Obj): (p: Patch)
    ensures p == Noop <==> target.Prim? && origin == Some(target)
    ensures target.Prim? <==> IsPrimitivePatch(p)
    decreases target
  {
    match target
    case Prim(v) =>
      if IsHash(origin) || origin != Some(target) then Add(v) else Noop
    case Hash(t) =>
      HashPatch(map k | k in t.Keys + Fields(origin).Keys
                        && (k in t ==> !(k in Fields(origin) && SafelyDropped(DiffCorrected(Child(origin, k), t[k]), Fields(origin)[k]))) ::
                  if k in t then DiffCorrected(Child(origin, k), t[k]) else Remove)
  }

  /** An inner patch that may be left out under a key whose origin value is `was`. */
  predicate SafelyDropped(p: Patch, was: Obj) {
    p == Noop || (p == HashPatch(map[]) && was.Hash?)
  }

  /** Applying the corrected diff from A to A gives B, for all A and B. */
  lemma {:induction false} RoundTripCorrected(origin: Option<Obj>, target: Obj)
    ensures Apply(DiffCorrected(origin, target), origin) == Done(target)
    decreases target
  {
    if target.Hash? {
      var t := target.fields;
      forall k | k in t
        ensures Apply(DiffCorrected(Child(origin, k), t[k]), Child(origin, k)) == Done(t[k])
      {
        RoundTripCorrected(Child(origin, k), t[k]);
      }
      if DiffCorrected(origin, target).entries == map[] {
        CorrectedEmptyPatch(origin, t);
      } else {
        CorrectedNonEmptyPatch(origin, t);
      }
    }
  }

  /** Each key of the target round-trips on its own. */
  ghost predicate ChildrenRoundTrip(origin: Option<Obj>, t: map<string, Obj>) {
    forall k :: k in t ==> Apply(DiffCorrected(Child(origin, k), t[k]), Child(origin, k)) == Done(t[k])
  }

  /** A key of the target that the corrected patch leaves out already holds its target value. */
  lemma CorrectedOmitsOnlyUnchanged(origin: Option<Obj>, t: map<string, Obj>, k: string)
    requires ChildrenRoundTrip(origin, t)
    requires k in t && k !in DiffCorrected(origin, Hash(t)).entries
    ensures k in Fields(origin) && Fields(origin)[k] == t[k]
  {
    assert Apply(DiffCorrected(Child(origin, k), t[k]), Child(origin, k)) == Done(t[k]);
  }

  /** When the corrected patch is empty, the origin is already the target. */
  lemma CorrectedEmptyPatch(origin: Option<Obj>, t: map<string, Obj>)
    requires ChildrenRoundTrip(origin, t)
    requires DiffCorrected(origin, Hash(t)).entries == map[]
    ensures Apply(DiffCorrected(origin, Hash(t)), origin) == Done(Hash(t))
  {
    var f := Fields(origin);
    var e := DiffCorrected(origin, Hash(t)).entries;
    forall k | k in t ensures k in f && f[k] == t[k] {
      CorrectedOmitsOnlyUnchanged(origin, t, k);
    }
    assert forall k :: k in f && k !in t ==> k in e;
    assert f == t;
  }

  /** When the corrected patch is not empty, rebuilding gives the target key by key. */
  lemma CorrectedNonEmptyPatch(origin: Option<Obj>, t: map<string, Obj>)
    requires ChildrenRoundTrip(origin, t)
    requires DiffCorrected(origin, Hash(t)).entries != map[]
    ensures Apply(DiffCorrected(origin, Hash(t)), origin) == Done(Hash(t))
  {
    var e := DiffCorrected(origin, Hash(t)).entries;
    ApplyHashThrows(e, origin);
    var r := Apply(HashPatch(e), origin).value;
    forall k ensures (k in r.fields <==> k in t) && (k in t ==> r.fields[k] == t[k]) {
      ApplyHashAt(e, origin, k);
      if k in t && k !in e {
        CorrectedOmitsOnlyUnchanged(origin, t, k);
      }
    }
    assert r.fields == t;
  }

  /** Under the condition the source's diff and the corrected diff are the same patch. */
  lemma {:induction false} DiffAgreesWithCorrected(origin: Option<Obj>, target: Obj)
    requires NoPrimToEmpty(origin, target)
    ensures Diff(origin, target) == DiffCorrected(origin, target)
    decreases target
  {
    if target.Hash? {
      var t := target.fields;
      var f := Fields(origin);
      forall k | k in t
        ensures Diff(Child(origin, k), t[k]) == DiffCorrected(Child(origin, k), t[k])
      {
        DiffAgreesWithCorrected(Child(origin, k), t[k]);
      }
      forall k | k in t && k in f
        ensures Droppable(Diff(Child(origin, k), t[k])) == SafelyDropped(Diff(Child(origin, k), t[k]), f[k])
      {
        if f[k].Prim? && t[k].Hash? {
          DiffFromPrimitive(f[k].prim, t[k].fields);
        }
      }
      assert Diff(origin, target).entries == DiffCorrected(origin, target).entries;
    }
  }

  /**
   * The round trip the source promises: applying `Diff(A, B)` to A gives B
   * (and so a value equal to B), whenever no shared key turns a primitive
   * into an empty hash.
   */
  lemma RoundTrip(origin: Option<Obj>, target: Obj)
    requires NoPrimToEmpty(origin, target)
    ensures Apply(Diff(origin, target), origin) == Done(target)
    ensures Equal(Apply(Diff(origin, target), origin).value, Some(target))
  {
    DiffAgreesWithCorrected(origin, target);
    RoundTripCorrected(origin, target);
    EqualReflexive(target);
  }

  /**
   * Conversely, when some shared key turns a primitive into an empty hash the
   * round trip fails: the empty hash patch under that key is left out, so the
   * primitive survives.
   */
  lemma {:induction false} RoundTripFails(origin: Option<Obj>, target: Obj)
    requires !NoPrimToEmpty(origin, target)
    ensures Apply(Diff(origin, target), origin) != Done(target)
    decreases target
  {
    var t := target.fields;
    var f := Fields(origin);
    var k :| k in t && k in f &&
      ((f[k].Prim? && t[k] == Hash(map[])) || !NoPrimToEmpty(Some(f[k]), t[k]));
    var e := Diff(origin, target).entries;
    var inner := Diff(Some(f[k]), t[k]);
    if Apply(Diff(origin, target), origin) == Done(target) {
      if f[k].Prim? && t[k] == Hash(map[]) {
        DiffEmptyHashIsNotNoop(f[k].prim, map[]);
        KeptWhereOmitted(origin, t, k);
      } else {
        RoundTripFails(Some(f[k]), t[k]);
        if k in e {
          ApplyHashAt(e, origin, k);
        } else {
          KeptWhereOmitted(origin, t, k);
          NoPrimToEmptyOnSelf(f[k]);
        }
      }
    }
  }

  /**
   * If applying the diff to the origin gives the target, a shared key the
   * patch leaves out holds the same value in both.
   */
  lemma KeptWhereOmitted(origin: Option<Obj>, t: map<string, Obj>, k: string)
    requires k in t && k in Fields(origin) && k !in Diff(origin, Hash(t)).entries
    requires Apply(Diff(origin, Hash(t)), origin) == Done(Hash(t))
    ensures Fields(origin)[k] == t[k]
  {
    var e := Diff(origin, Hash(t)).entries;
    if e != map[] {
      ApplyHashAt(e, origin, k);
    }
  }

  /** Together: the round trip holds exactly under the condition. */
  lemma RoundTripExactly(origin: Option<Obj>, target: Obj)
    ensures Apply(Diff(origin, target), origin) == Done(target) <==> NoPrimToEmpty(origin, target)
  {
    if NoPrimToEmpty(origin, target) {
      RoundTrip(origin, target);
    } else {
      RoundTripFails(origin, target);
    }
  }

  /**
   * The smallest failing input: from {x: 0} to {x: {}} the diff is the empty
   * hash patch, and applying it to {x: 0} gives {x: 0} back.
   */
  lemma PrimitiveToEmptyHashIsLost()
    ensures var origin := Hash(map["x" := Prim(Num(0))]);
      && Diff(Some(origin), Hash(map["x" := Hash(map[])])) == HashPatch(map[])
      && Apply(Diff(Some(origin), Hash(map["x" := Hash(map[])])), Some(origin)) == Done(origin)
      && origin != Hash(map["x" := Hash(map[])])
  {
    var origin := Hash(map["x" := Prim(Num(0))]);
    var target := Hash(map["x" := Hash(map[])]);
    DiffEmptyHashIsNotNoop(Num(0), map[]);
    assert Child(Some(origin), "x") == Some(Prim(Num(0)));
    assert Diff(Some(origin), target).entries == map[];
  }

  /** The corrected diff records the empty hash patch there and round-trips. */
  lemma PrimitiveToEmptyHashCorrected()
    ensures var origin := Hash(map["x" := Prim(Num(0))]);
      var target := Hash(map["x" := Hash(map[])]);
      && DiffCorrected(Some(origin), target) == HashPatch(map["x" := HashPatch(map[])])
      && Apply(DiffCorrected(Some(origin), target), Some(origin)) == Done(target)
  {
    var origin := Hash(map["x" := Prim(Num(0))]);
    var target := Hash(map["x" := Hash(map[])]);
    assert DiffCorrected(Some(Prim(Num(0))), Hash(map[])) == HashPatch(map[]) by {
      assert DiffCorrected(Some(Prim(Num(0))), Hash(map[])).entries == map[];
    }
    assert Child(Some(origin), "x") == Some(Prim(Num(0)));
    assert DiffCorrected(Some(origin), target).entries == map["x" := HashPatch(map[])];
    RoundTripCorrected(Some(origin), target);
  }

  /**
   * Applying a diff never throws, provided a value is given wherever the diff
   * had an origin.
   */
  lemma DiffNeverThrows(origin: Option<Obj>, target: Obj, obj: Option<Obj>)
    requires origin.Some? ==> obj.Some?
    ensures Apply(Diff(origin, target), obj).Done?
  {
    DiffWellFormed(origin, target);
    WellFormedNeverThrows(Diff(origin, target), obj);
  }

  /**
   * Diffing a value against itself and applying the patch returns that value
   * untouched: the patch is the no-op or the empty hash patch, both of which
   * return their argument as it is.
   */
  lemma NoChangeIsIdentity(v: Obj)
    ensures Apply(Diff(Some(v), v), Some(v)) == Done(v)
  {
    DiffSelf(v);
  }

  /** `obj` stands in for `origin`: both absent, or `obj` equal to `origin` under the source's equality. */
  ghost predicate EqualOrigin(obj: Option<Obj>, origin: Option<Obj>) {
    obj.None? || Equal(obj.value, origin)
  }

  /** Standing in for the origin carries over to each key. */
  lemma EqualOriginAt(obj: Option<Obj>, origin: Option<Obj>, k: string)
    requires EqualOrigin(obj, origin)
    ensures EqualOrigin(Child(obj, k), Child(origin, k))
  {
  }

  /** The condition carries over to each key of a hash target. */
  lemma NoPrimToEmptyAt(origin: Option<Obj>, t: map<string, Obj>, k: string)
    requires NoPrimToEmpty(origin, Hash(t)) && k in t
    ensures NoPrimToEmpty(Child(origin, k), t[k])
  {
    if k !in Fields(origin) && t[k].Hash? {
      assert Fields(Child(origin, k)) == map[];
    }
  }

  /**
   * The round trip as the source states it: applying `Diff(A, B)` to any A'
   * that the source's equality calls equal to A gives a value that the
   * source's equality calls equal to B, whenever no shared key turns a
   * primitive into an empty hash.
   */
  lemma {:induction false} RoundTripUpToEqual(origin: Option<Obj>, target: Obj, obj: Option<Obj>)
    requires NoPrimToEmpty(origin, target)
    requires EqualOrigin(obj, origin)
    requires Diff(origin, target) == Noop ==> obj.Some?
    ensures Apply(Diff(origin, target), obj).Done?
    ensures Equal(Apply(Diff(origin, target), obj).value, Some(target))
    decreases target
  {
    if target.Prim? {
      EqualReflexive(target);
      return;
    }
    var t := target.fields;
    var e := Diff(origin, target).entries;
    RoundTrip(origin, target);
    if e == map[] {
      if IsHash(obj) && IsHash(origin) {
        assert origin.value == target;
      }
      return;
    }
    forall k | k in e && !e[k].Remove?
      ensures k in t
      ensures Apply(e[k], Child(obj, k)).Done?
      ensures Equal(Apply(e[k], Child(obj, k)).value, Some(t[k]))
    {
      NoPrimToEmptyAt(origin, t, k);
      EqualOriginAt(obj, origin, k);
      RoundTripUpToEqual(Child(origin, k), t[k], Child(obj, k));
    }
    ApplyHashThrows(e, obj);
    var r := Apply(HashPatch(e), obj).value;
    forall k | k in r.fields
      ensures Equal(r.fields[k], Child(Some(target), k))
    {
      ApplyHashAt(e, obj, k);
      EqualOriginAt(obj, origin, k);
      if k !in e {
        EqualToAbsent(r.fields[k]);
        if k in t {
          KeptWhereOmitted(origin, t, k);
        }
      }
    }
  }

  /**
   * The top-level form: if A' is equal to A, then applying `Diff(A, B)` to A'
   * gives a value equal to B, all in the sense of the source's equality.
   */
  lemma RoundTripFromEqualOrigin(equivalent: Obj, origin: Obj, target: Obj)
    requires Equal(equivalent, Some(origin))
    requires NoPrimToEmpty(Some(origin), target)
    ensures Apply(Diff(Some(origin), target), Some(equivalent)).Done?
    ensures Equal(Apply(Diff(Some(origin), target), Some(equivalent)).value, Some(target))
  {
    RoundTripUpToEqual(Some(origin), target, Some(equivalent));
  }

  /**
   * Equal in the source's sense is all the promise gives: {} is equal to
   * {x: 1}, and applying `Diff({x: 1}, {x: 1})` to {} gives {}, which is
   * equal to {x: 1} but is not that value.
   */
  lemma EqualOriginGivesEqualResult()
    ensures var a := Hash(map["x" := Prim(Num(1))]);
      && Equal(Hash(map[]), Some(a))
      && Apply(Diff(Some(a), a), Some(Hash(map[]))) == Done(Hash(map[]))
      && Hash(map[]) != a
  {
    var a := Hash(map["x" := Prim(Num(1))]);
    DiffSelf(a);
    assert "x" in a.fields;
  }

  /**
   * Removal: from {a: 1, b: 0} to {a: 1} the patch removes b, and applying it
   * to {a: 1, b: 0} gives {a: 1}.
   */
  lemma RemovalExample()
    ensures var origin := Hash(map["a" := Prim(Num(1)), "b" := Prim(Num(0))]);
      var target := Hash(map["a" := Prim(Num(1))]);
      && Diff(Some(origin), target) == HashPatch(map["b" := Remove])
      && Apply(Diff(Some(origin), target), Some(origin)) == Done(target)
  {
    var origin := Hash(map["a" := Prim(Num(1)), "b" := Prim(Num(0))]);
    var target := Hash(map["a" := Prim(Num(1))]);
    assert Child(Some(origin), "a") == Some(Prim(Num(1)));
    assert Diff(Some(origin), target).entries == map["b" := Remove];
    RoundTrip(Some(origin), target);
  }

  /**
   * Creation of an empty hash under a new key: from {} to {x: {}} the patch is
   * {x: {}}, and applying it to {} gives {x: {}}.
   */
  lemma NestedCreationExample()
    ensures var target := Hash(map["x" := Hash(map[])]);
      && Diff(Some(Hash(map[])), target) == HashPatch(map["x" := HashPatch(map[])])
      && Apply(Diff(Some(Hash(map[])), target), Some(Hash(map[]))) == Done(target)
  {
    var target := Hash(map["x" := Hash(map[])]);
    assert Diff(None, Hash(map[])).entries == map[];
    assert Child(Some(Hash(map[])), "x") == None;
    assert Diff(Some(Hash(map[])), target).entries == map["x" := HashPatch(map[])];
    RoundTrip(Some(Hash(map[])), target);
  }
}
