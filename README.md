# fastextend deep merge, modelled in Dafny

fastextend exports three functions: `merge(target, ...sources)`,
`mergeWithOptions(target, ...sources, options)` and `clone(value)`. They copy
arrays and plain objects deeply into a target in place and return that target.
Primitives, functions, `null` and `undefined` are copied as they are (a
function by reference). Any other object in a source, such as a `Date` or a
class instance, makes the call throw; such an object already in the target is
never merged into, only replaced or kept.

The model has two layers.

- **Values and Semantics** (`values.dfy`, `semantics.dfy`) describe the engine
  on JavaScript values seen as trees (`Values.Tree`).
  - A plain object is an ordered key list with one value per key.
  - A non-plain object is `Instance(constructor name)`.
  - Each loop of the source is a function of how far it has got. For example,
    `Semantics.MergeArr(t, s, n, o)` is the target after the first `n`
    positions of `s`.
  - A `Step` is either `Done(tree)` or `Failed(tree, error)`. In the failed
    case, `tree` holds what the target contains when the error is thrown, since
    the engine is not transactional.
  - The entry points are `Semantics.Merge` (both options on),
    `Semantics.MergeWithOptions` (options normalised by `Semantics.Normalize`
    and `Semantics.Flag`: an absent option means `true`, anything but `true`
    means off) and `Semantics.Clone` (a merge into a fresh `[]` or `{}`, and an
    error for any other root). Their properties are stated by the Laws and
    Engine members below.
- **Store and Engine** (`store.dfy`, `engine.dfy`) model the host heap.
  - `Engine.Heap` is a class whose `cells` field maps references to mutable
    containers. Its methods follow `_mergeGetValue`, `_mergeArray`,
    `_mergeObject`, `_mergeTargets`, `merge`, `mergeWithOptions` and `clone`
    statement by statement, and write array elements and properties in place.
  - Each method is proved against the value layer. Afterwards the target slot
    reads as the tree the Semantics function computes (`Store.Target`). The
    error is the one that function predicts. No container outside the target's
    own changes (`Store.AgreeOutside`). New containers are fresh
    (`Store.Within`).
- **Laws** (`laws.dfy`) proves what the engine promises about the value layer:
  - positional array merge with its resulting length;
  - key order and untouched keys in objects;
  - `mergeUndefined`;
  - fresh copies;
  - precedence of later sources;
  - which inputs make a call throw;
  - option defaults;
  - `clone` giving back an equal tree.

The host throws a `TypeError` when it reads `constructor` of `null`. This
happens in `clone(null)`; in the root check when the target is `null`, or when
the target is a plain object and the source is `null` (an array target with a
`null` source fails the check with the root-mismatch error instead); and when a
`null` target slot meets a plain-object source (a source array there goes into
a fresh `[]`). The model treats all of these as the error `NullTypeError`.

## Model

| member | source | states |
|---|---|---|
| Values.IndexOf | index.js:61 | the position of a key, or the key count when it is absent; every earlier key differs |
| Values.SetIndex | index.js:53 | `a[i] = x` writes position `i`, keeps every other element, and fills a gap past the end with holes |
| Values.PutVals | index.js:63 | `o[k] = x` stores `x` under `k` and keeps every other key's value |
| Semantics.Resolve | index.js:69-83 | a non-object or `null` source value comes back unchanged; a non-plain object throws `Unsupported` naming its constructor and leaves the slot as it was; an array or plain object yields an array or plain object; a failure outside an in-place merge leaves the slot as it was |
| Semantics.ArrItem | index.js:51-54 | one pass of the array loop leaves an array whose objects still have one value per key |
| Semantics.MergeArr | index.js:49-57 | the target stays an array through the whole loop |
| Semantics.ObjItem | index.js:61-64 | one pass of the object loop leaves a plain object with one value per key and no repeated key |
| Semantics.MergeObj | index.js:59-67 | the target stays a well-formed plain object through the whole loop |
| Semantics.RootStep | index.js:37-43 | a round succeeds only when target and source are both arrays or both plain objects; otherwise it throws `RootMismatch`, or `NullTypeError` when the check reads `null.constructor`, and leaves the target as it was |
| Semantics.MergeAll | index.js:35-47 | every round keeps the target well formed |
| Laws.ArrFailureSticks | index.js:50-55 | once a pass of `_mergeArray` throws, later positions change nothing |
| Laws.ObjFailureSticks | index.js:60-65 | once a pass of `_mergeObject` throws, later keys change nothing |
| Laws.AllFailureSticks | index.js:36-44 | once a source throws, later sources are not applied |
| Laws.ArrNext | index.js:50-55 | the array loop after `i+1` passes is pass `i` applied to the loop after `i`; an error there is the error of the whole call |
| Laws.ObjNext | index.js:60-65 | the same for the object loop |
| Laws.AllNext | index.js:36-44 | the same for the loop over the sources |
| Laws.ArrShape | index.js:49-57 | the array never shrinks and grows to at most max(target length, source length); positions at or past the source's length keep the target's values; on success, each position below it holds the resolved value, or the old one when an `undefined` is not stored, and with `mergeUndefined` the length is exactly max(target length, source length) |
| Laws.ObjKeyUntouched | index.js:59-67 | a key the source does not have keeps its value |
| Laws.ObjKeyWritten | index.js:60-65 | on success, each source key ends up holding what `_mergeGetValue` made of the target's value there, or its old value when a resolved `undefined` is not stored |
| Laws.ObjKeyPrefix | index.js:59-67 | the target's keys keep their order as a prefix; every appended key comes from the source and was not in the target |
| Laws.PutKeysAppends | index.js:63 | after `o[k] = x` the key `k` is present, the old keys keep their order as a prefix, at most `k` is added, and no key is repeated |
| Laws.ObjKeyStep | index.js:61-64 | a successful turn of the object loop appends its key exactly when the target lacked it and its value is stored, and otherwise leaves the keys as they were |
| Laws.ObjKeyOrder | index.js:60-64 | on success, for either `mergeUndefined` setting, the keys are the target's keys followed by the source's new keys whose value is stored, in source order |
| Laws.ObjSkipAbsent | index.js:61-64 | on success, with a resolved `undefined` that is not stored, a key absent from the target stays absent |
| Laws.ResolveBlames | index.js:69-83 | every error of `_mergeGetValue` is an `Unsupported` constructor nested in the source, or a `null` in the target |
| Laws.ArrBlames | index.js:49-57 | the same for `_mergeArray` |
| Laws.ObjBlames | index.js:59-67 | the same for `_mergeObject` |
| Laws.InstanceNotPlain | index.js:80-81 | a tree that contains a non-plain object is not plain |
| Laws.PlainMergeSucceeds | index.js:69-83 | a source made only of primitives, arrays and plain objects merges without error into a target with no `null` |
| Laws.CopyResolve | index.js:76-79 | a plain source merged into `undefined` with `mergeUndefined` comes out equal to itself |
| Laws.CopyArr | index.js:77 | with `mergeUndefined`, merging a plain array into a fresh `[]` copies its first `n` elements |
| Laws.CopyObj | index.js:79 | with `mergeUndefined`, merging a plain object into a fresh `{}` copies its first `n` keys and values |
| Laws.FreshCopy | index.js:76-79 | for any options, when the slot cannot be reused the result does not depend on the slot: it is what merging into `undefined` gives (on error the slot keeps its value), and for a plain source with `mergeUndefined` it equals the source, never a splice of the two |
| Laws.InstanceFails | index.js:76-81 | a non-plain object anywhere inside the source makes `_mergeGetValue` throw, whatever the target holds |
| Laws.ContainerFails | index.js:49-67 | a non-plain object anywhere inside the source makes `_mergeArray` and `_mergeObject` throw |
| Laws.SourceInstanceFails | index.js:35-47 | a source holding a non-plain object makes `merge` throw once that source is reached |
| Laws.CloneInstanceFails | index.js:1-9 | `clone` of a value holding a non-plain object throws |
| Laws.InstanceTargetReplaced | index.js:77-79 | a non-plain object in the target is never merged into: the result is as if the slot were `undefined`, and on error the slot keeps the object |
| Laws.CloneCopies | index.js:1-9 | `clone` of a plain array or object returns an equal tree |
| Laws.CloneBlames | index.js:1-9 | `clone` rejects every root that is neither an array nor a plain object (`null` with `NullTypeError`); its only other error is a non-plain object inside the input |
| Laws.AllKeepsKind | index.js:35-47 | a successful merge leaves the root an array, a plain object or `null` exactly when it was one |
| Laws.LastRoundObj | index.js:39-40 | for an object root, the last source is merged by `_mergeObject` into the result of the earlier ones |
| Laws.LastRoundArr | index.js:37-38 | for an array root, the last source is merged by `_mergeArray` into the result of the earlier ones |
| Laws.MismatchKeepsEarlier | index.js:36-43 | a source of the wrong root kind throws after the earlier sources have been applied, and the target keeps their effect |
| Laws.UnsupportedNamesSource | index.js:35-47 | an `Unsupported` error names the constructor of a non-plain object inside one of the sources applied so far |
| Laws.KeyLastWriter | index.js:36-44 | for an object root, on success, a key ends up with the stored scalar of source `j` when every later source lacks the key or holds there an `undefined` that is skipped because `mergeUndefined` is off |
| Laws.IndexLastWriter | index.js:36-44 | for an array root, on success, a position ends up with the stored scalar of source `j` when every later source stops before it or holds there an `undefined` that is skipped because `mergeUndefined` is off |
| Laws.OptionDefaults | index.js:17-21 | an option that is absent means `true`; any value other than `true` means off; with both options absent `mergeWithOptions` is `merge` |
| Engine.Heap.Alloc | index.js:77 | a new `[]` or `{}` gets a reference that no existing container has, and nothing else changes |
| Engine.Heap.GetValue | index.js:69-83 | returns a slot that reads as `Resolve`'s tree, or throws its error; the target slot is reused exactly when the source line reuses `first`, otherwise the result is fresh; only the target slot's containers change |
| Engine.Heap.GetFresh | index.js:77-79 | merging into a new `[]` or `{}` changes no existing container and yields `Resolve`'s tree in fresh containers only |
| Engine.Heap.MergeArray | index.js:49-57 | the array loop turns the target container into `MergeArr`'s tree, or throws its error after the earlier passes are written; only the target's containers change |
| Engine.Heap.ArrayItem | index.js:51-54 | one pass writes `first[i]` exactly as `ArrItem` says, or throws its error |
| Engine.Heap.MergeObject | index.js:59-67 | the object loop turns the target container into `MergeObj`'s tree, or throws its error after the earlier keys are written; only the target's containers change |
| Engine.Heap.ObjectItem | index.js:61-64 | one pass writes `first[k]` exactly as `ObjItem` says, or throws its error |
| Engine.Heap.RootItem | index.js:37-43 | the root check and dispatch of one round, with the outcome of `RootStep` |
| Engine.Heap.MergeTargets | index.js:35-47 | returns the very target it was given, now reading as `MergeAll`'s tree, or throws its error; the sources still read as before; no container of the result belongs to a source |
| Engine.Heap.Merge | index.js:26-33 | `merge` is `MergeTargets` with both options on |
| Engine.Heap.MergeWithOptions | index.js:11-24 | `mergeWithOptions` is `MergeTargets` with the normalised options |
| Engine.Heap.Clone | index.js:1-9 | `clone` returns a copy made only of fresh containers, or `Clone`'s error; the input and every other existing container are unchanged |

## Left out

- Variadic `arguments` (index.js:12-15, 27-30). `merge` and `mergeWithOptions` take a target, a sequence of sources and, for the latter, an options record.
- The options argument of `mergeWithOptions` is the `RawOptions` record of its two property values. A `null` or `undefined` options argument, which makes the host throw while reading its properties, is not modelled.
- The host's object model is not modelled. This covers getters, non-enumerable properties, inherited enumerable keys visited by `for ... in`, the reordering of integer-like keys, `__proto__`, and how `constructor` and `constructor.name` are looked up. A plain object is an ordered key list, and any other object is `Instance(name)`.
- Numbers are unbounded integers. Floating point, `NaN` and `-0` are not modelled.
- Array holes created by writing past the end read as `undefined`. The model does not tell a hole from a stored `undefined`.
- Error messages are kept only as their kind and, for unsupported values, the constructor name.
- The host `TypeError` from reading `constructor` of `null` is the error `NullTypeError`.
- Engine.Heap.MergeTargets: requires the target to share no container within itself or with a source. Sources may share containers with each other. index.js also runs on aliased inputs, with results that depend on the aliasing, and the model does not describe those.
- Engine.Heap.Merge: the same aliasing precondition as `MergeTargets`.
- Engine.Heap.MergeWithOptions: the same aliasing precondition as `MergeTargets`.
- The module export (index.js:85-89) is not modelled. testing/benchmark.js and testing/index.test.js are not part of this model.
