/** The diff engine: the patch that turns an origin value into a target value. */
module DiffEngine {
  import opened Wrappers
  import opened ValueModel
  import opened Patches

  /**
   * The patch from `origin` (possibly absent) to `target`.
   *
   * A primitive target gives the no-op when `origin` is that same primitive and
   * an add of the target otherwise. A hash target gives a hash patch with one
   * entry per key of the target, each the diff from `origin[k]` (absent when
   * `origin` is not a hash or lacks `k`), except that a key both sides hold is
   * left out when its inner patch is the no-op or the empty hash patch; and
   * one remove entry per key that `origin` holds and the target does not.
   */
  function Diff(origin: Option<Obj>, target: Obj): (p: Patch)
    ensures p == Noop <==> target.Prim? && origin == Some(target)
    ensures target.Prim? <==> IsPrimitivePatch(p)
    ensures !p.Remove?
    decreases target
  {
    match target
    case Prim(v) =>
      if IsHash(origin) || origin != Some(target) then Add(v) else Noop
    case Hash(t) =>
      HashPatch(map k | k in t.Keys + Fields(origin).Keys
                        && (k in t ==> !(k in Fields(origin) && Droppable(Diff(Child(origin, k), t[k])))) ::
                  if k in t then Diff(Child(origin, k), t[k]) else Remove)
  }

  /**
   * The source's diff: one loop over the target's keys that records inner
   * patches, then one loop over the origin's keys that records removals.
   */
  method GetPatch(origin: Option<Obj>, target: Obj) returns (p: Patch)
    ensures p == Diff(origin, target)
    decreases target
  {
    if target.Prim? {
      if IsHash(origin) || origin != Some(target) {
        return Add(target.prim);
      }
      return Noop;
    }
    var t := target.fields;
    var patch: map<string, Patch> := map[];
    var todo := t.Keys;
    while todo != {}
      invariant todo <= t.Keys
      invariant forall k :: k in patch <==>
        k in t && k !in todo && !(k in Fields(origin) && Droppable(Diff(Child(origin, k), t[k])))
      invariant forall k :: k in patch ==> patch[k] == Diff(Child(origin, k), t[k])
      decreases todo
    {
      var k :| k in todo;
      todo := todo - {k};
      var inner: Patch;
      if IsHash(origin) && k in origin.value.fields {
        inner := GetPatch(Some(origin.value.fields[k]), t[k]);
        if inner == HashPatch(map[]) || inner == Noop {
          continue;
        }
      } else {
        inner := GetPatch(None, t[k]);
      }
      patch := patch[k := inner];
    }
    if IsHash(origin) {
      var rest := origin.value.fields.Keys;
      while rest != {}
        invariant rest <= Fields(origin).Keys
        invariant forall k :: k in patch <==>
          (k in t && !(k in Fields(origin) && Droppable(Diff(Child(origin, k), t[k]))))
          || (k in Fields(origin) && k !in t && k !in rest)
        invariant forall k :: k in patch ==> patch[k] == if k in t then Diff(Child(origin, k), t[k]) else Remove
        decreases rest
      {
        var k :| k in rest;
        rest := rest - {k};
        if k !in t {
          patch := patch[k := Remove];
        }
      }
    }
    return HashPatch(patch);
  }

  /**
   * The entries of a diff towards a hash, key by key: a key only the origin
   * holds is removed; a key only the target holds gets the diff from nothing;
   * a key both hold gets its inner diff, and is left out exactly when that
   * inner diff is the no-op or the empty hash patch; no other key appears.
   */
  lemma DiffEntries(origin: Option<Obj>, t: map<string, Obj>, k: string)
    ensures Diff(origin, Hash(t)).HashPatch?
    ensures var e := Diff(origin, Hash(t)).entries;
      && (k in Fields(origin) && k !in t ==> k in e && e[k] == Remove)
      && (k in t && k !in Fields(origin) ==> k in e && e[k] == Diff(None, t[k]))
      && (k in t && k in Fields(origin) ==>
            (k in e <==> !Droppable(Diff(Some(Fields(origin)[k]), t[k])))
            && (k in e ==> e[k] == Diff(Some(Fields(origin)[k]), t[k])))
      && (k !in t && k !in Fields(origin) ==> k !in e)
  {
  }

  /**
   * Diffing a value against itself gives the no-op for a primitive and the
   * empty hash patch for a hash.
   */
  lemma {:induction false} DiffSelf(v: Obj)
    ensures Diff(Some(v), v) == if v.Prim? then Noop else HashPatch(map[])
    decreases v
  {
    if v.Hash? {
      var e := Diff(Some(v), v).entries;
      forall k | k in v.fields
        ensures Droppable(Diff(Child(Some(v), k), v.fields[k]))
      {
        DiffSelf(v.fields[k]);
      }
      assert e == map[];
    }
  }

  /**
   * A key whose value the origin and the target share unchanged never appears
   * in the patch, so applying the patch keeps the origin's value there.
   */
  lemma DiffOmitsUnchanged(f: map<string, Obj>, t: map<string, Obj>, k: string)
    requires k in f && k in t && f[k] == t[k]
    ensures k !in Diff(Some(Hash(f)), Hash(t)).entries
  {
    DiffSelf(t[k]);
  }

  /**
   * A primitive origin and an empty hash target give the empty hash patch,
   * not the no-op; two equal primitives give the no-op; a hash origin and a
   * primitive target give an add.
   */
  lemma DiffEmptyHashIsNotNoop(v: Primitive, m: map<string, Obj>)
    ensures Diff(Some(Prim(v)), Hash(map[])) == HashPatch(map[])
    ensures Diff(Some(Prim(v)), Prim(v)) == Noop
    ensures Diff(Some(Hash(m)), Prim(v)) == Add(v)
  {
    assert Diff(Some(Prim(v)), Hash(map[])).entries == map[];
  }

  /** Every diff is well formed: no bare remove, and no no-op nested in a hash patch. */
  lemma {:induction false} DiffWellFormed(origin: Option<Obj>, target: Obj)
    ensures WellFormed(Diff(origin, target))
    decreases target
  {
    if target.Hash? {
      var t := target.fields;
      var e := Diff(origin, target).entries;
      forall k | k in e
        ensures e[k] == Remove || (!e[k].Noop? && !e[k].Remove? && EntriesWellFormed(e[k]))
      {
        if k in t {
          DiffWellFormed(Child(origin, k), t[k]);
        }
      }
    }
  }
}
