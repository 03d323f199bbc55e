/** The merge engine of index.js on values: what each routine leaves in the
    target, or the error it throws and what the target holds at that moment.
    The loops of `_mergeArray`, `_mergeObject` and `_mergeTargets` are described
    by prefix: `MergeArr(t, s, n, o)` is the target after the first `n`
    positions of `s`. */
module Semantics {
  import opened Values

  /** `_mergeGetValue(first, second, options)`: the value to store for `second`
      given the target's current value `t` at the same position. */
  function Resolve(t: Tree, s: Tree, o: Options): (r: Step)
    requires WF(t) && WF(s)
    ensures WF(r.tree)
    ensures IsScalar(s) ==> r == Done(s)
    ensures s.Instance? ==> r == Failed(t, Unsupported(s.ctor))
    ensures s.Arr? && r.Done? ==> r.tree.Arr?
    ensures s.Obj? && r.Done? ==> r.tree.Obj?
    ensures r.Failed? && !(s.Arr? && o.mergeArrays && t.Arr?) && !(s.Obj? && t.Obj?) ==> r.tree == t
    decreases s, 1, 0
  {
    match s
    case Arr(_) =>
      var reuse := o.mergeArrays && t.Arr?;
      var m := MergeArr(if reuse then t else Arr([]), s, |s.items|, o);
      if m.Done? || reuse then m else Failed(t, m.err)
    case Obj(_, _) =>
      if t.Null? then Failed(t, NullTypeError)
      else
        var m := MergeObj(if t.Obj? then t else Obj([], []), s, |s.items|, o);
        if m.Done? || t.Obj? then m else Failed(t, m.err)
    case Instance(c) => Failed(t, Unsupported(c))
    case _ => Done(s)
  }

  /** Whether `_mergeArray`/`_mergeObject` store a resolved value `v`. */
  predicate Stores(v: Tree, o: Options) {
    v != Undef || o.mergeUndefined
  }

  /** One pass of `_mergeArray`'s loop: position `i` of `s` into the array `cur`. */
  function ArrItem(cur: Tree, s: Tree, i: nat, o: Options): (r: Step)
    requires cur.Arr? && s.Arr? && WF(cur) && WF(s) && i < |s.items|
    ensures r.tree.Arr? && WF(r.tree)
    decreases s, 0, 0
  {
    var xs := cur.items;
    match Resolve(At(xs, i, Undef), s.items[i], o)
    case Failed(p, e) => Failed(Arr(if i < |xs| then xs[i := p] else xs), e)
    case Done(v) => if Stores(v, o) then Done(Arr(SetIndex(xs, i, v, Undef))) else Done(cur)
  }

  /** `_mergeArray(t, s)` after positions `0 .. n-1` of `s`. */
  function MergeArr(t: Tree, s: Tree, n: nat, o: Options): (r: Step)
    requires t.Arr? && s.Arr? && WF(t) && WF(s) && n <= |s.items|
    ensures r.tree.Arr? && WF(r.tree)
    decreases s, 0, n + 1
  {
    if n == 0 then Done(t)
    else
      var prev := MergeArr(t, s, n - 1, o);
      if prev.Failed? then prev else ArrItem(prev.tree, s, n - 1, o)
  }

  /** One pass of `_mergeObject`'s loop: the `i`-th key of `s` into the object `cur`. */
  function ObjItem(cur: Tree, s: Tree, i: nat, o: Options): (r: Step)
    requires cur.Obj? && s.Obj? && WF(cur) && WF(s) && i < |s.items|
    ensures r.tree.Obj? && WF(r.tree)
    decreases s, 0, 0
  {
    var k := s.keys[i];
    var j := IndexOf(cur.keys, k);
    match Resolve(At(cur.items, j, Undef), s.items[i], o)
    case Failed(p, e) => Failed(if j < |cur.items| then Obj(cur.keys, cur.items[j := p]) else cur, e)
    case Done(v) =>
      if Stores(v, o) then Done(Obj(PutKeys(cur.keys, k), PutVals(cur.keys, cur.items, k, v))) else Done(cur)
  }

  /** `_mergeObject(t, s)` after the first `n` keys of `s`. */
  function MergeObj(t: Tree, s: Tree, n: nat, o: Options): (r: Step)
    requires t.Obj? && s.Obj? && WF(t) && WF(s) && n <= |s.items|
    ensures r.tree.Obj? && WF(r.tree)
    decreases s, 0, n + 1
  {
    if n == 0 then Done(t)
    else
      var prev := MergeObj(t, s, n - 1, o);
      if prev.Failed? then prev else ObjItem(prev.tree, s, n - 1, o)
  }

  /** Both roots are arrays or both are plain objects. */
  predicate SameRootKind(t: Tree, s: Tree) {
    (t.Arr? && s.Arr?) || (t.Obj? && s.Obj?)
  }

  /** The root check evaluates `null.constructor`. */
  predicate RootNullTrap(t: Tree, s: Tree) {
    t.Null? || (t.Obj? && s.Null?)
  }

  /** One round of `_mergeTargets`: the root check, then the array or object merge. */
  function RootStep(t: Tree, s: Tree, o: Options): (r: Step)
    requires WF(t) && WF(s)
    ensures WF(r.tree)
    ensures r.Done? ==> (t.Arr? && s.Arr? && r.tree.Arr?) || (t.Obj? && s.Obj? && r.tree.Obj?)
    ensures !SameRootKind(t, s) ==> r == Failed(t, if RootNullTrap(t, s) then NullTypeError else RootMismatch)
  {
    if t.Arr? && s.Arr? then MergeArr(t, s, |s.items|, o)
    else if !IsObjectTyped(t) then Failed(t, RootMismatch)
    else if t.Null? then Failed(t, NullTypeError)
    else if !t.Obj? || !IsObjectTyped(s) then Failed(t, RootMismatch)
    else if s.Null? then Failed(t, NullTypeError)
    else if !s.Obj? then Failed(t, RootMismatch)
    else MergeObj(t, s, |s.items|, o)
  }

  predicate AllWF(ss: seq<Tree>) {
    forall j :: 0 <= j < |ss| ==> WF(ss[j])
  }

  /** `_mergeTargets(t, ss)` after the first `n` sources. */
  function MergeAll(t: Tree, ss: seq<Tree>, n: nat, o: Options): (r: Step)
    requires WF(t) && AllWF(ss) && n <= |ss|
    ensures WF(r.tree)
    decreases n
  {
    if n == 0 then Done(t)
    else
      var prev := MergeAll(t, ss, n - 1, o);
      if prev.Failed? then prev else RootStep(prev.tree, ss[n - 1], o)
  }

  /** `merge(t, ...ss)`. */
  function Merge(t: Tree, ss: seq<Tree>): Step
    requires WF(t) && AllWF(ss)
  {
    MergeAll(t, ss, |ss|, Defaults)
  }

  /** `options.x !== undefined ? options.x : true`, later compared `=== true`. */
  function Flag(v: Tree): bool {
    v == Undef || v == Leaf(Bool(true))
  }

  function Normalize(raw: RawOptions): Options {
    Options(Flag(raw.mergeUndefined), Flag(raw.mergeArrays))
  }

  /** `mergeWithOptions(t, ...ss, raw)`. */
  function MergeWithOptions(t: Tree, ss: seq<Tree>, raw: RawOptions): Step
    requires WF(t) && AllWF(ss)
  {
    MergeAll(t, ss, |ss|, Normalize(raw))
  }

  /** `clone(s)`: merge into a fresh `[]` or `{}`. On failure the fresh root is
      dropped, so only the error matters. */
  function Clone(s: Tree): Step
    requires WF(s)
  {
    if s.Arr? then MergeAll(Arr([]), [s], 1, Defaults)
    else if s.Obj? then MergeAll(Obj([], []), [s], 1, Defaults)
    else Failed(s, if s.Null? then NullTypeError else NotCloneable)
  }
}
