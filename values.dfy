/** JavaScript data trees as fastextend sees them, and the small helpers that
    model the host's indexed and keyed reads and writes. */
module Values {

  /** Values for which `typeof` is not "object": the engine copies them verbatim.
      A function is copied by reference like any other such value. */
  datatype Prim = Str(s: string) | Num(n: int) | Bool(b: bool) | Func(name: string)

  /** A data tree. `Instance` is any object that is neither an Array nor a plain
      object (a Date, a class instance, ...), known only by its constructor's name.
      A plain object is an ordered list of keys with one value per key, in the
      order the host enumerates them. */
  datatype Tree =
    | Undef
    | Null
    | Leaf(prim: Prim)
    | Instance(ctor: string)
    | Arr(items: seq<Tree>)
    | Obj(keys: seq<string>, items: seq<Tree>)

  /** `typeof v !== "object" || v === null`: returned as-is by the engine. */
  predicate IsScalar(t: Tree) {
    t.Undef? || t.Null? || t.Leaf?
  }

  /** `typeof v === "object"` (null included). */
  predicate IsObjectTyped(t: Tree) {
    t.Null? || t.Instance? || t.Arr? || t.Obj?
  }

  predicate Unique<T(==)>(s: seq<T>) {
    forall i, j :: 0 <= i < j < |s| ==> s[i] != s[j]
  }

  /** Every plain object has one value per key and no key twice. */
  predicate WF(t: Tree)
    decreases t
  {
    match t
    case Arr(ts) => forall i :: 0 <= i < |ts| ==> WF(ts[i])
    case Obj(ks, ts) => |ks| == |ts| && Unique(ks) && forall i :: 0 <= i < |ts| ==> WF(ts[i])
    case _ => true
  }

  /** No non-plain object anywhere in the tree. */
  predicate Plain(t: Tree)
    decreases t
  {
    match t
    case Instance(_) => false
    case Arr(ts) => forall i :: 0 <= i < |ts| ==> Plain(ts[i])
    case Obj(_, ts) => forall i :: 0 <= i < |ts| ==> Plain(ts[i])
    case _ => true
  }

  /** No `null` anywhere in the tree. */
  predicate NullFree(t: Tree)
    decreases t
  {
    match t
    case Null => false
    case Arr(ts) => forall i :: 0 <= i < |ts| ==> NullFree(ts[i])
    case Obj(_, ts) => forall i :: 0 <= i < |ts| ==> NullFree(ts[i])
    case _ => true
  }

  /** Constructor names of the non-plain objects in a tree. */
  ghost predicate HasInstance(t: Tree, ctor: string)
    decreases t
  {
    match t
    case Instance(c) => c == ctor
    case Arr(ts) => exists i :: 0 <= i < |ts| && HasInstance(ts[i], ctor)
    case Obj(_, ts) => exists i :: 0 <= i < |ts| && HasInstance(ts[i], ctor)
    case _ => false
  }

  /** Position of key `k`, or `|keys|` when it is absent. */
  function IndexOf(keys: seq<string>, k: string): (r: nat)
    ensures r <= |keys|
    ensures r < |keys| ==> keys[r] == k
    ensures forall j :: 0 <= j < r ==> keys[j] != k
  {
    if keys == [] then 0
    else if keys[0] == k then 0
    else 1 + IndexOf(keys[1..], k)
  }

  /** Reading `a[i]`: past the end the host yields `absent` (undefined). */
  function At<T>(s: seq<T>, i: nat, absent: T): T {
    if i < |s| then s[i] else absent
  }

  /** Reading `o[k]` of a plain object: undefined when the key is absent. */
  function Get(t: Tree, k: string): Tree
    requires t.Obj? && |t.keys| == |t.items|
  {
    At(t.items, IndexOf(t.keys, k), Undef)
  }

  /** Writing `a[i] = x`: in place below the length, otherwise the array grows to
      `i + 1` and the skipped positions are holes (`hole`). */
  function SetIndex<T>(s: seq<T>, i: nat, x: T, hole: T): (r: seq<T>)
    ensures |r| == if i < |s| then |s| else i + 1
    ensures r[i] == x
    ensures forall j :: 0 <= j < |s| && j != i ==> r[j] == s[j]
    ensures forall j :: |s| <= j < |r| && j != i ==> r[j] == hole
  {
    if i < |s| then s[i := x] else s + seq(i - |s|, _ => hole) + [x]
  }

  /** Keys after writing `o[k] = x`: an existing key keeps its place, a new one is appended.
      The two ensures spell out the definition by cases so that callers can use
      it without unfolding `PutKeys`; what it means is `Laws.PutKeysAppends`. */
  function PutKeys(keys: seq<string>, k: string): (r: seq<string>)
    ensures IndexOf(keys, k) < |keys| ==> r == keys
    ensures IndexOf(keys, k) == |keys| ==> r == keys + [k]
  {
    if IndexOf(keys, k) < |keys| then keys else keys + [k]
  }

  /** Values after writing `o[k] = x`, parallel to `PutKeys`. */
  function PutVals<T>(keys: seq<string>, vals: seq<T>, k: string, x: T): (r: seq<T>)
    requires |keys| == |vals|
    ensures |r| == |PutKeys(keys, k)|
    ensures r[IndexOf(keys, k)] == x
    ensures forall j :: 0 <= j < |vals| && j != IndexOf(keys, k) ==> r[j] == vals[j]
  {
    var j := IndexOf(keys, k);
    if j < |keys| then vals[j := x] else vals + [x]
  }

  /** The two recognised options after normalisation. */
  datatype Options = Options(mergeUndefined: bool, mergeArrays: bool)

  const Defaults := Options(true, true)

  /** What the caller's options object holds under the two option names
      (`Undef` when the property is absent). */
  datatype RawOptions = RawOptions(mergeUndefined: Tree, mergeArrays: Tree)

  datatype Error =
    | RootMismatch        // "Root arguments must both be array literals or object literals."
    | Unsupported(ctor: string)  // "... only supports ... got '<ctor>'."
    | NullTypeError       // the host's TypeError from reading `constructor` of null
    | NotCloneable        // "Can only clone, objects or arrays literals."

  /** The outcome of one merge step. On failure `tree` is what the target slot
      holds when the error is thrown: containers that were merged into in place
      keep the writes done before the error. */
  datatype Step = Done(tree: Tree) | Failed(tree: Tree, err: Error)
}
