# Structural diff and patch for JSON-like values

A Dafny model of `patschy`, a small library that diffs and patches a
recursive JSON-like value. An `Obj` is either a primitive or a hash from
string keys to `Obj`s. `getPatch(from, to)` computes a `Patch`, and
`applyPatch(patch, obj)` rebuilds a value from a patch and an origin.
The library promises that `applyPatch(getPatch(A, B), A')` gives a value
equal to B whenever A' is equal to A.

The modules follow the library's parts:

- `Wrappers`: `Option` stands for the source's `undefined`. `Result` stands for a return or a throw.
- `ValueModel`: `Primitive`, `Obj`, `isPrimitive`, `isHash`. `Fields` and `Child` model reading `obj[k]` from something that may not be a hash.
- `Structural`: `clone` and `isEqual`. Each looping operation is a method with a `while` loop over the key set. The methods are proved against the recursive function `Equal`, or against the identity in the case of `Clone`.
- `Patches`: the `Patch` datatype (`Add`, `Remove`, `Noop`, `HashPatch`), `isPrimitivePatch`, `isHashPatch`, and the shape of the patches the diff produces.
- `DiffEngine`: `Diff`, a recursive function that states what `getPatch` returns. `GetPatch` is the source's two loops, proved equal to `Diff`.
- `PatchApplier`: `Apply`, a recursive function that states what `applyPatch` returns or throws. `ApplyPatch` is the source's shallow copy plus loop, proved against `Apply`.
- `RoundTrip`: the round-trip promise, the exact condition under which it holds, the failing input, and a corrected diff for which it always holds.

The two throws of `applyPatch` are modelled as error results: `MissingForNoop` and `RecursedIntoRemove`. They are not preconditions.
Values have no identity here. "Sharing" means that a key the patch does not name keeps the origin's value unchanged.

The round trip does not hold in general. At `index.ts:95` a key held by both
sides is left out of the patch when its inner patch is `{}`. This happens even
when the origin holds a primitive there. For example, `getPatch({x: 0}, {x: {}})` is `{}`,
and applying that to `{x: 0}` gives `{x: 0}`. `RoundTrip.RoundTripExactly`
proves that the round trip holds if and only if `NoPrimToEmpty(A, B)` holds.
That condition says that no key reached through shared keys has a primitive in A
and an empty hash in B. Under the same condition, `RoundTrip.RoundTripFromEqualOrigin`
proves the promise in the source's own terms. If `isEqual(A', A)`, then applying
`getPatch(A, B)` to A' gives a value that `isEqual` calls equal to B.

## Model

| member | source | states |
|---|---|---|
| `ValueModel.Classification` | index.ts:19-25 | every defined value is exactly one of primitive and hash; an absent value is neither |
| `Patches.PatchClassification` | index.ts:57-71 | the type tag decides the kind: only tagless patches are hash patches, and the empty hash patch is not the no-op |
| `Structural.Clone` | index.ts:27-34 | the copy built key by key from recursive copies is the same value as the input |
| `Structural.IsEqual` | index.ts:39-45 | the loop with early return computes `Equal`: primitives by value, hashes over the first argument's keys only |
| `Structural.EqualReflexive` | index.ts:36-45 | every value is equal to itself, and so to its clone |
| `Structural.EqualOnPrimitives` | index.ts:40 | two primitives are equal iff they are the same; a primitive and a hash are unequal in both orders |
| `Structural.EqualToAbsent` | index.ts:41-43 | against a missing value, only the empty hash is equal |
| `Structural.EqualIgnoresExtraKeys` | index.ts:41-44 | adding keys to the second hash that the first does not hold never changes the answer |
| `Structural.EqualToExtension` | index.ts:41-44 | a hash is equal to every extension of itself |
| `Structural.EqualIsAsymmetric` | index.ts:39-45 | {a:1} equals {a:1,b:2} but not the reverse; {x:{}} and {} are equal both ways without being the same value |
| `DiffEngine.Diff` | index.ts:81-113 | the result is the no-op iff the target is a primitive equal to a defined origin; it is a leaf patch iff the target is a primitive; it is never a remove |
| `DiffEngine.GetPatch` | index.ts:81-113 | the two loops (record inner patches with `continue`, then record removals) build exactly `Diff(from, to)` |
| `DiffEngine.DiffEntries` | index.ts:89-112 | origin-only keys map to remove; target-only keys map to the diff from nothing; a shared key is present iff its inner diff is neither the no-op nor `{}`; no other key appears |
| `DiffEngine.DiffSelf` | index.ts:92-97 | diffing a value against itself gives the no-op for a primitive and `{}` for a hash |
| `DiffEngine.DiffOmitsUnchanged` | index.ts:92-97 | a key whose value is the same on both sides never appears in the patch |
| `DiffEngine.DiffEmptyHashIsNotNoop` | index.ts:82-112 | getPatch(0, {}) is `{}` and not the no-op; two equal primitives give the no-op; a hash origin with a primitive target gives an add |
| `DiffEngine.DiffWellFormed` | index.ts:81-113 | every diff is well formed: no bare remove, and no no-op nested inside a hash patch |
| `PatchApplier.Apply` | index.ts:116-139 | a failing application always names at least one error kind |
| `PatchApplier.ApplyPatch` | index.ts:116-139 | the method succeeds iff `Apply` does, returns `Apply`'s value, and throws one of the errors `Apply` allows |
| `PatchApplier.ApplyLeaves` | index.ts:117-124 | the no-op returns the given value and throws MissingForNoop without one; an add returns its primitive; a directly reached remove throws RecursedIntoRemove |
| `PatchApplier.EmptyHashPatchCreatesHash` | index.ts:57-59 | `{}` keeps a hash and turns anything else into an empty hash, so apply({}, 0) is {} while apply(noop, 0) is 0 |
| `PatchApplier.ApplyHashAt` | index.ts:127-138 | a successful non-empty hash patch yields a hash where removed keys are absent, named keys hold their applied entry, and unnamed keys hold exactly what the origin held (nothing when the origin was not a hash) |
| `PatchApplier.ApplyHashThrows` | index.ts:130-137 | a non-empty hash patch throws iff one of its non-remove entries throws |
| `PatchApplier.WellFormedNeverThrows` | index.ts:115-124 | a well-formed patch never throws when a value is given for a top-level no-op |
| `RoundTrip.DiffFromPrimitive` | index.ts:98-103 | from a primitive origin, every key of a hash target is recorded |
| `RoundTrip.DiffCorrected` | index.ts:92-97 | the corrected diff is the no-op iff the target is a primitive equal to the origin, and a leaf patch iff the target is a primitive |
| `RoundTrip.RoundTripCorrected` | index.ts:73-78 | applying the corrected diff from A to B to A gives B, for all A and B |
| `RoundTrip.DiffAgreesWithCorrected` | index.ts:92-97 | under `NoPrimToEmpty` the source's diff equals the corrected diff |
| `RoundTrip.RoundTrip` | index.ts:73-78 | under `NoPrimToEmpty`, applying `Diff(A, B)` to A gives B, and the result is equal to B under the source's equality |
| `RoundTrip.RoundTripFails` | index.ts:92-97 | when `NoPrimToEmpty` fails, applying `Diff(A, B)` to A does not give B |
| `RoundTrip.RoundTripExactly` | index.ts:73-97 | the round trip holds if and only if `NoPrimToEmpty(A, B)` |
| `RoundTrip.PrimitiveToEmptyHashIsLost` | index.ts:94-97 | getPatch({x:0}, {x:{}}) is `{}`, and applying it to {x:0} gives {x:0} |
| `RoundTrip.PrimitiveToEmptyHashCorrected` | index.ts:94-103 | the corrected diff of that input is {x: {}}, and applying it gives {x: {}} |
| `RoundTrip.DiffNeverThrows` | index.ts:115-124 | applying a diff never throws when a value is given wherever the diff had an origin |
| `RoundTrip.NoChangeIsIdentity` | index.test.ts:121-132 | applying `Diff(v, v)` to v returns v as it is |
| `RoundTrip.RoundTripUpToEqual` | index.ts:73-78 | under `NoPrimToEmpty`, applying `Diff(A, B)` to an A' that `isEqual` calls equal to A never throws and gives a value that `isEqual` calls equal to B; this also holds for an absent A' unless the patch is the no-op |
| `RoundTrip.RoundTripFromEqualOrigin` | index.ts:73-78 | the top-level form: `isEqual(A', A)` and `NoPrimToEmpty(A, B)` imply that applying `Diff(A, B)` to A' succeeds with a result r such that `isEqual(r, B)` |
| `RoundTrip.EqualOriginGivesEqualResult` | index.ts:73-78 | {} is `isEqual` to {x:1}, and applying `Diff({x:1}, {x:1})` to {} gives {}: equal to B in the source's sense, but not the same value |
| `RoundTrip.RemovalExample` | index.test.ts:153-158 | getPatch({a:1,b:0}, {a:1}) is {b: remove}, and applying it gives {a:1} |
| `RoundTrip.NestedCreationExample` | index.test.ts:104-109 | getPatch({}, {x:{}}) is {x: {}}, and applying it to {} gives {x:{}} |

## Findings

| source | as written | input that shows it | evidently intended | confidence | as-written member | corrected member |
|---|---|---|---|---|---|---|
| index.ts:92-97 | a shared key whose inner patch is `{}` is left out even when the origin holds a primitive there | getPatch({x:0}, {x:{}}) is `{}`; applying it to {x:0} gives {x:0}, not {x:{}} | leave `{}` out only when the origin already holds a hash there, so that the round trip of lines 73-78 holds for all inputs | high; not executed | `RoundTrip.PrimitiveToEmptyHashIsLost` | `RoundTrip.RoundTripCorrected` |

The diff is modelled as the source writes it, in `Diff`. The corrected form
is `DiffCorrected`. `DiffAgreesWithCorrected` ties the two together: they give
the same patch whenever the round trip holds.

## Left out

- `null` is not a primitive here. `typeof null === 'object'`, so the source classifies `null` as a hash, and `clone`, `isEqual` and `getPatch` then call `Object.keys(null)` and throw.
- Numbers are unbounded integers. Floating point, `NaN !== NaN` and signed zero are not modelled.
- Reference identity (`===` on hashes, and the `toBe` checks in the tests) has no counterpart, because values have no identity here. Sharing is stated as "unnamed keys keep the origin's value" (`ApplyHashAt`, `DiffOmitsUnchanged`).
- Key order from `Object.keys` is not modelled. Maps have no order. Only the choice of which error a multi-entry hash patch throws depends on key order.
- ApplyPatch: when several entries of a hash patch throw, the source throws the first in key order. The model only promises an error kind that one of the failing entries can throw.
- Equal: for a non-empty hash compared against a missing value, the source throws a `TypeError` (it reads `undefined[k]`). The model answers false. This is the same for `IsEqual`.
- Prototype keys and `hasOwnProperty` shadowing are not modelled. Maps hold only their own keys.
- The text of the two error messages is not modelled. Only their kinds are.
- Recursion depth and stack exhaustion are not modelled.
