/** The patch applier: rebuilds the target from a patch and an origin value. */
module PatchApplier {
  import opened Wrappers
  import opened ValueModel
  import opened Patches

  /** The two ways applying a patch fails. */
  datatype ApplyError =
    | MissingForNoop      // a no-op applied where there is no value
    | RecursedIntoRemove  // a remove reached as a patch of its own, not as an entry

  /**
   * What applying a patch does: it returns a value, or it throws. When
   * several entries of a hash patch fail, the first one in key order throws;
   * key order is not modelled, so `kinds` holds every error that can be the
   * one thrown.
   */
  datatype Outcome = Done(value: Obj) | Thrown(kinds: set<ApplyError>)

  /**
   * The result of applying patch `p` to `obj` (possibly absent).
   *
   * The no-op returns `obj` and throws when it is absent; an add returns its
   * primitive; a remove throws. The empty hash patch returns `obj` when it is
   * a hash and an empty hash otherwise. Any other hash patch starts from the
   * entries of `obj` (none when `obj` is not a hash), deletes each key whose
   * entry is a remove and sets each other key of the patch to the result of
   * applying its entry to what `obj` holds there; it throws when one of those
   * throws.
   */
  function Apply(p: Patch, obj: Option<Obj>): (r: Outcome)
    ensures r.Thrown? ==> r.kinds != {}
    decreases p
  {
    match p
    case Noop => if obj.Some? then Done(obj.value) else Thrown({MissingForNoop})
    case Add(v) => Done(Prim(v))
    case Remove => Thrown({RecursedIntoRemove})
    case HashPatch(e) =>
      if e == map[] then
        Done(if IsHash(obj) then obj.value else Hash(map[]))
      else
        var kinds := set k, x | k in e && !e[k].Remove? && Apply(e[k], Child(obj, k)).Thrown?
                                && x in Apply(e[k], Child(obj, k)).kinds :: x;
        if kinds != {} then
          Thrown(kinds)
        else
          var base := Fields(obj);
          Done(Hash(map k | k in base.Keys + e.Keys && !(k in e && e[k].Remove?) ::
                      if k in e then Apply(e[k], Child(obj, k)).value else base[k]))
  }

  /**
   * The source's applier: a shallow copy of `obj`'s entries, then one loop over
   * the patch's keys that deletes or overwrites each of them, throwing as soon
   * as an entry throws.
   */
  method ApplyPatch(p: Patch, obj: Option<Obj>) returns (r: Result<Obj, ApplyError>)
    ensures r.Ok? <==> Apply(p, obj).Done?
    ensures r.Ok? ==> r.value == Apply(p, obj).value
    ensures r.Err? ==> r.error in Apply(p, obj).kinds
    decreases p
  {
    if p.Noop? {
      if obj.None? {
        return Err(MissingForNoop);
      }
      return Ok(obj.value);
    }
    if p.Add? {
      return Ok(Prim(p.value));
    }
    if p.Remove? {
      return Err(RecursedIntoRemove);
    }
    var e := p.entries;
    if e == map[] {
      return Ok(if IsHash(obj) then obj.value else Hash(map[]));
    }
    var base := Fields(obj);
    var res := base;
    var todo := e.Keys;
    while todo != {}
      invariant todo <= e.Keys
      invariant forall k :: k in e && k !in todo && !e[k].Remove? ==> Apply(e[k], Child(obj, k)).Done?
      invariant forall k :: k in res <==>
        if k in e && k !in todo then !e[k].Remove? else k in base
      invariant forall k :: k in res ==>
        res[k] == if k in e && k !in todo then Apply(e[k], Child(obj, k)).value else base[k]
      decreases todo
    {
      var k :| k in todo;
      if e[k].Remove? {
        res := res - {k};
      } else {
        assert (if k in res then Some(res[k]) else None) == Child(obj, k);
        var c := ApplyPatch(e[k], if k in res then Some(res[k]) else None);
        if c.Err? {
          assert k in e && !e[k].Remove? && c.error in Apply(e[k], Child(obj, k)).kinds;
          return Err(c.error);
        }
        res := res[k := c.value];
      }
      todo := todo - {k};
    }
    assert Apply(p, obj).Done?;
    return Ok(Hash(res));
  }

  /**
   * The leaf patches: the no-op returns the value it is given and throws
   * without one, an add returns its primitive, a remove reached directly throws.
   */
  lemma ApplyLeaves(obj: Option<Obj>, v: Primitive)
    ensures Apply(Noop, obj) == if obj.Some? then Done(obj.value) else Thrown({MissingForNoop})
    ensures Apply(Add(v), obj) == Done(Prim(v))
    ensures Apply(Remove, obj) == Thrown({RecursedIntoRemove})
  {
  }

  /**
   * The empty hash patch keeps a hash and turns anything else into an empty
   * hash, so on 0 it gives {} where the no-op gives 0.
   */
  lemma EmptyHashPatchCreatesHash(obj: Option<Obj>)
    ensures Apply(HashPatch(map[]), obj) == Done(if IsHash(obj) then obj.value else Hash(map[]))
    ensures Apply(HashPatch(map[]), Some(Prim(Num(0)))) == Done(Hash(map[]))
    ensures Apply(Noop, Some(Prim(Num(0)))) == Done(Prim(Num(0)))
  {
  }

  /**
   * A non-empty hash patch that succeeds yields a hash in which a removed key
   * is absent, every other key of the patch holds its entry applied to what
   * `obj` held there, and every key the patch does not name holds exactly what
   * `obj` held (nothing, when `obj` was not a hash).
   */
  lemma ApplyHashAt(e: map<string, Patch>, obj: Option<Obj>, k: string)
    requires e != map[] && Apply(HashPatch(e), obj).Done?
    ensures Apply(HashPatch(e), obj).value.Hash?
    ensures var r := Apply(HashPatch(e), obj).value.fields;
      && (k in e && e[k].Remove? ==> k !in r)
      && (k in e && !e[k].Remove? ==>
            Apply(e[k], Child(obj, k)).Done? && k in r && r[k] == Apply(e[k], Child(obj, k)).value)
      && (k !in e ==> Child(Some(Hash(r)), k) == Child(obj, k))
  {
  }

  /** A non-empty hash patch throws exactly when one of its non-remove entries throws. */
  lemma ApplyHashThrows(e: map<string, Patch>, obj: Option<Obj>)
    requires e != map[]
    ensures Apply(HashPatch(e), obj).Thrown? <==>
      exists k :: k in e && !e[k].Remove? && Apply(e[k], Child(obj, k)).Thrown?
  {
    if k :| k in e && !e[k].Remove? && Apply(e[k], Child(obj, k)).Thrown? {
      var x :| x in Apply(e[k], Child(obj, k)).kinds;
      assert x in Apply(HashPatch(e), obj).kinds;
    }
  }

  /**
   * A well-formed patch never throws, provided a value is given when the
   * patch is the no-op: the two errors only signal a patch paired with the
   * wrong value or a patch the diff cannot produce.
   */
  lemma {:induction false} WellFormedNeverThrows(p: Patch, obj: Option<Obj>)
    requires WellFormed(p)
    requires p.Noop? ==> obj.Some?
    ensures Apply(p, obj).Done?
    decreases p
  {
    if p.HashPatch? && p.entries != map[] {
      var e := p.entries;
      forall k | k in e && !e[k].Remove?
        ensures Apply(e[k], Child(obj, k)).Done?
      {
        WellFormedNeverThrows(e[k], Child(obj, k));
      }
      ApplyHashThrows(e, obj);
    }
  }
}
