/**
 * The recursive value the engine diffs and patches: either a primitive or a
 * hash from string keys to values. Absence (`undefined` in the source) is never
 * a stored value; it appears only as `None` in an `Option<Obj>`.
 */
module ValueModel {
  import opened Wrappers

  /** A string, a number (integral here) or a boolean. */
  datatype Primitive = Str(s: string) | Num(n: int) | Bool(b: bool)

  /** An Obj is a primitive or a hash of keys to Objs; maps keep keys unique. */
  datatype Obj = Prim(prim: Primitive) | Hash(fields: map<string, Obj>)

  /** Defined and not a hash. */
  predicate IsPrimitive(v: Option<Obj>) {
    v.Some? && v.value.Prim?
  }

  /** Defined and not a primitive. */
  predicate IsHash(v: Option<Obj>) {
    v.Some? && !IsPrimitive(v)
  }

  /** Every defined value is exactly one of primitive and hash; an absent one is neither. */
  lemma Classification(v: Option<Obj>)
    ensures IsPrimitive(v) || IsHash(v) <==> v.Some?
    ensures !(IsPrimitive(v) && IsHash(v))
    ensures IsHash(v) <==> v.Some? && v.value.Hash?
  {
  }

  /** The entries of `v` when it is a hash, and no entries otherwise. */
  function Fields(v: Option<Obj>): map<string, Obj> {
    if IsHash(v) then v.value.fields else map[]
  }

  /** `v[k]` when `v` is a hash that holds `k`; absent otherwise. */
  function Child(v: Option<Obj>, k: string): Option<Obj> {
    if k in Fields(v) then Some(Fields(v)[k]) else None
  }
}
