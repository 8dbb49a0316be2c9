/**
 * Patches: instructions that turn one Obj into another. The nesting of hash
 * patches says where to apply; at the leaves a patch adds a primitive, removes
 * the key from the enclosing hash, or does nothing. The empty hash patch is a
 * patch of its own (it creates an empty hash) and is not the no-op.
 */
module Patches {
  import opened ValueModel

  datatype Patch =
    | Add(value: Primitive)
    | Remove
    | Noop
    | HashPatch(entries: map<string, Patch>)

  /** The three leaf patches carry a type tag. */
  predicate IsPrimitivePatch(p: Patch) {
    p.Add? || p.Remove? || p.Noop?
  }

  /** Every patch without a type tag is a hash patch. */
  predicate IsHashPatch(p: Patch) {
    !IsPrimitivePatch(p)
  }

  /** The tag decides the kind, so the empty hash patch is a hash patch and the no-op is not. */
  lemma PatchClassification(p: Patch)
    ensures IsHashPatch(p) <==> p.HashPatch?
    ensures IsHashPatch(HashPatch(map[])) && !IsHashPatch(Noop) && HashPatch(map[]) != Noop
  {
  }

  /** An inner patch that the diff leaves out under a key both sides hold. */
  predicate Droppable(p: Patch) {
    p == Noop || p == HashPatch(map[])
  }

  /**
   * The shape of a patch as the diff produces it: never a bare remove at the
   * top, and inside a hash patch every entry is a remove or a nested
   * well-formed patch other than the no-op.
   */
  predicate WellFormed(p: Patch) {
    !p.Remove? && EntriesWellFormed(p)
  }

  predicate EntriesWellFormed(p: Patch) {
    match p
    case HashPatch(e) =>
      forall k :: k in e ==> e[k] == Remove || (!e[k].Noop? && !e[k].Remove? && EntriesWellFormed(e[k]))
    case _ => true
  }
}
