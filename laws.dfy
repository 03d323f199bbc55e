/** What the merge engine promises, proved about its value-level description. */
module Laws {
  import opened Values
  import opened Semantics

  /** An error ends `_mergeArray`'s loop: later positions change nothing. */
  lemma {:induction false} ArrFailureSticks(t: Tree, s: Tree, n: nat, m: nat, o: Options)
    requires t.Arr? && s.Arr? && WF(t) && WF(s) && n <= m <= |s.items|
    requires MergeArr(t, s, n, o).Failed?
    ensures MergeArr(t, s, m, o) == MergeArr(t, s, n, o)
    decreases m
  {
    if m > n {
      ArrFailureSticks(t, s, n, m - 1, o);
    }
  }

  /** An error ends `_mergeObject`'s loop: later keys change nothing. */
  lemma {:induction false} ObjFailureSticks(t: Tree, s: Tree, n: nat, m: nat, o: Options)
    requires t.Obj? && s.Obj? && WF(t) && WF(s) && n <= m <= |s.items|
    requires MergeObj(t, s, n, o).Failed?
    ensures MergeObj(t, s, m, o) == MergeObj(t, s, n, o)
    decreases m
  {
    if m > n {
      ObjFailureSticks(t, s, n, m - 1, o);
    }
  }

  /** An error ends `_mergeTargets`' loop: later sources are never applied. */
  lemma {:induction false} AllFailureSticks(t: Tree, ss: seq<Tree>, n: nat, m: nat, o: Options)
    requires WF(t) && AllWF(ss) && n <= m <= |ss|
    requires MergeAll(t, ss, n, o).Failed?
    ensures MergeAll(t, ss, m, o) == MergeAll(t, ss, n, o)
    decreases m
  {
    if m > n {
      AllFailureSticks(t, ss, n, m - 1, o);
    }
  }

  /** One more turn of `_mergeArray`'s loop, and what an error there means for the whole loop. */
  lemma ArrNext(t: Tree, s: Tree, i: nat, o: Options)
    requires t.Arr? && s.Arr? && WF(t) && WF(s) && i < |s.items|
    requires MergeArr(t, s, i, o).Done?
    ensures MergeArr(t, s, i + 1, o) == ArrItem(MergeArr(t, s, i, o).tree, s, i, o)
    ensures MergeArr(t, s, i + 1, o).Failed? ==> MergeArr(t, s, |s.items|, o) == MergeArr(t, s, i + 1, o)
  {
    if MergeArr(t, s, i + 1, o).Failed? {
      ArrFailureSticks(t, s, i + 1, |s.items|, o);
    }
  }

  /** One more turn of `_mergeObject`'s loop, and what an error there means for the whole loop. */
  lemma ObjNext(t: Tree, s: Tree, i: nat, o: Options)
    requires t.Obj? && s.Obj? && WF(t) && WF(s) && i < |s.items|
    requires MergeObj(t, s, i, o).Done?
    ensures MergeObj(t, s, i + 1, o) == ObjItem(MergeObj(t, s, i, o).tree, s, i, o)
    ensures MergeObj(t, s, i + 1, o).Failed? ==> MergeObj(t, s, |s.items|, o) == MergeObj(t, s, i + 1, o)
  {
    if MergeObj(t, s, i + 1, o).Failed? {
      ObjFailureSticks(t, s, i + 1, |s.items|, o);
    }
  }

  /** One more source in `_mergeTargets`' loop, and what an error there means for the whole call. */
  lemma AllNext(t: Tree, ss: seq<Tree>, i: nat, o: Options)
    requires WF(t) && AllWF(ss) && i < |ss|
    requires MergeAll(t, ss, i, o).Done?
    ensures MergeAll(t, ss, i + 1, o) == RootStep(MergeAll(t, ss, i, o).tree, ss[i], o)
    ensures MergeAll(t, ss, i + 1, o).Failed? ==> MergeAll(t, ss, |ss|, o) == MergeAll(t, ss, i + 1, o)
  {
    if MergeAll(t, ss, i + 1, o).Failed? {
      AllFailureSticks(t, ss, i + 1, |ss|, o);
    }
  }

  function Max(a: int, b: int): int {
    if a < b then b else a
  }

  /** Array merge is positional and never truncates: positions at or past `n`
      keep the target's values, each position below `n` holds what
      `_mergeGetValue` made of the target's original value there (or keeps it
      when a resolved `undefined` is not stored), and with `mergeUndefined`
      the length is the larger of the two. */
  lemma {:induction false} ArrShape(t: Tree, s: Tree, n: nat, o: Options)
    requires t.Arr? && s.Arr? && WF(t) && WF(s) && n <= |s.items|
    ensures var r := MergeArr(t, s, n, o).tree.items;
      && |t.items| <= |r| <= Max(|t.items|, n)
      && (forall j :: n <= j < |r| ==> r[j] == t.items[j])
    ensures MergeArr(t, s, n, o).Done? ==>
      forall j :: 0 <= j < n ==>
        var v := Resolve(At(t.items, j, Undef), s.items[j], o);
        v.Done? && At(MergeArr(t, s, n, o).tree.items, j, Undef) == if Stores(v.tree, o) then v.tree else At(t.items, j, Undef)
    ensures MergeArr(t, s, n, o).Done? && o.mergeUndefined ==> |MergeArr(t, s, n, o).tree.items| == Max(|t.items|, n)
    decreases n
  {
    if n > 0 {
      ArrShape(t, s, n - 1, o);
      var prev := MergeArr(t, s, n - 1, o);
      if prev.Done? {
        var cur := prev.tree.items;
        var i := n - 1;
        assert At(cur, i, Undef) == At(t.items, i, Undef);
        var r := MergeArr(t, s, n, o).tree.items;
        forall j | 0 <= j < |r| && j != i
          ensures At(r, j, Undef) == At(cur, j, Undef)
        {
          match Resolve(At(cur, i, Undef), s.items[i], o)
          case Failed(_, _) =>
          case Done(v) =>
            if Stores(v, o) && j >= |cur| {
              assert r == SetIndex(cur, i, v, Undef);
            }
        }
      }
    }
  }

  /** Keys of `ks` not in `known` whose value in `vs` is stored, in the order of `ks`. */
  function NewKeys(known: seq<string>, ks: seq<string>, vs: seq<Tree>, o: Options): (r: seq<string>)
    requires |ks| == |vs|
    ensures forall x :: x in r ==> x in ks && x !in known
    ensures Unique(ks) ==> Unique(r)
  {
    if ks == [] then []
    else
      var last := ks[|ks| - 1];
      var init := ks[..|ks| - 1];
      assert forall x :: x in init ==> x in ks;
      NewKeys(known, init, vs[..|vs| - 1], o) + if last !in known && Stores(vs[|vs| - 1], o) then [last] else []
  }

  lemma {:induction false} IndexOfAppend(ks: seq<string>, k: string, x: string)
    ensures IndexOf(ks + [k], x) ==
      if IndexOf(ks, x) < |ks| then IndexOf(ks, x) else if x == k then |ks| else |ks| + 1
  {
    if ks != [] {
      assert (ks + [k])[1..] == ks[1..] + [k];
      IndexOfAppend(ks[1..], k, x);
    }
  }

  /** `o[k] = x` leaves `k` among the keys, keeps the old keys in their order
      and adds at most `k`, at the end. */
  lemma PutKeysAppends(keys: seq<string>, k: string)
    ensures var r := PutKeys(keys, k);
      && k in r && |keys| <= |r| <= |keys| + 1 && r[..|keys|] == keys
      && (forall x :: x in r ==> x in keys || x == k)
      && (Unique(keys) ==> Unique(r))
  {
    var r := PutKeys(keys, k);
    if IndexOf(keys, k) == |keys| {
      assert k !in keys;
      assert r[|keys|] == k;
    }
  }

  /** Reading key `x` after writing `o[k] = v`. */
  lemma GetPut(ks: seq<string>, vs: seq<Tree>, k: string, v: Tree, x: string)
    requires |ks| == |vs|
    ensures Get(Obj(PutKeys(ks, k), PutVals(ks, vs, k, v)), x) == if x == k then v else Get(Obj(ks, vs), x)
  {
    IndexOfAppend(ks, k, x);
  }

  /** One turn of `_mergeObject`'s loop, finished or thrown, leaves the other keys' values alone. */
  lemma ItemOther(cur: Tree, s: Tree, i: nat, o: Options, k: string)
    requires cur.Obj? && s.Obj? && WF(cur) && WF(s) && i < |s.items| && k != s.keys[i]
    ensures Get(ObjItem(cur, s, i, o).tree, k) == Get(cur, k)
  {
    var key := s.keys[i];
    match Resolve(Get(cur, key), s.items[i], o)
    case Failed(_, _) =>
    case Done(v) =>
      if Stores(v, o) {
        GetPut(cur.keys, cur.items, key, v, k);
      }
  }

  /** `_mergeObject` leaves keys the source does not have as they were. */
  lemma {:induction false} ObjKeyUntouched(t: Tree, s: Tree, n: nat, o: Options, k: string)
    requires t.Obj? && s.Obj? && WF(t) && WF(s) && n <= |s.items|
    requires k !in s.keys[..n]
    ensures Get(MergeObj(t, s, n, o).tree, k) == Get(t, k)
    decreases n
  {
    if n > 0 {
      assert s.keys[..n] == s.keys[..n - 1] + [s.keys[n - 1]];
      ObjKeyUntouched(t, s, n - 1, o, k);
      var prev := MergeObj(t, s, n - 1, o);
      if prev.Done? {
        ItemOther(prev.tree, s, n - 1, o, k);
      }
    }
  }

  /** `_mergeObject` stores, under each key of the source, what
      `_mergeGetValue` made of the target's value there, unless a resolved
      `undefined` is not stored. */
  lemma {:induction false} ObjKeyWritten(t: Tree, s: Tree, n: nat, o: Options, i: nat)
    requires t.Obj? && s.Obj? && WF(t) && WF(s) && i < n <= |s.items|
    requires MergeObj(t, s, n, o).Done?
    ensures var v := Resolve(Get(t, s.keys[i]), s.items[i], o);
      && v.Done?
      && Get(MergeObj(t, s, n, o).tree, s.keys[i]) == if Stores(v.tree, o) then v.tree else Get(t, s.keys[i])
    decreases n
  {
    var k := s.keys[i];
    var prev := MergeObj(t, s, n - 1, o);
    var cur := prev.tree;
    var key := s.keys[n - 1];
    if i < n - 1 {
      ObjKeyWritten(t, s, n - 1, o, i);
      assert key != k;
      match Resolve(At(cur.items, IndexOf(cur.keys, key), Undef), s.items[n - 1], o)
      case Failed(_, _) =>
      case Done(v) =>
        if Stores(v, o) {
          GetPut(cur.keys, cur.items, key, v, k);
        }
    } else {
      assert k !in s.keys[..n - 1];
      ObjKeyUntouched(t, s, n - 1, o, k);
      assert Get(cur, k) == At(cur.items, IndexOf(cur.keys, key), Undef);
      match Resolve(Get(cur, k), s.items[n - 1], o)
      case Failed(_, _) =>
      case Done(v) =>
        if Stores(v, o) {
          GetPut(cur.keys, cur.items, key, v, k);
        }
    }
  }

  /** The keys after one turn of `_mergeObject`'s loop. */
  lemma ObjItemKeys(cur: Tree, s: Tree, i: nat, o: Options)
    requires cur.Obj? && s.Obj? && WF(cur) && WF(s) && i < |s.items|
    ensures var r := ObjItem(cur, s, i, o).tree;
      r.keys == cur.keys || (r.keys == cur.keys + [s.keys[i]] && s.keys[i] !in cur.keys)
    ensures ObjItem(cur, s, i, o).Done? ==>
      var v := Resolve(Get(cur, s.keys[i]), s.items[i], o);
      && v.Done?
      && ObjItem(cur, s, i, o).tree.keys == if Stores(v.tree, o) then PutKeys(cur.keys, s.keys[i]) else cur.keys
  {
  }

  /** `_mergeObject` keeps the target's keys in their order and appends only
      keys of the source. */
  lemma {:induction false} ObjKeyPrefix(t: Tree, s: Tree, n: nat, o: Options)
    requires t.Obj? && s.Obj? && WF(t) && WF(s) && n <= |s.items|
    ensures var r := MergeObj(t, s, n, o).tree;
      && |t.keys| <= |r.keys| && r.keys[..|t.keys|] == t.keys
      && (forall j :: |t.keys| <= j < |r.keys| ==> r.keys[j] in s.keys[..n] && r.keys[j] !in t.keys)
    decreases n
  {
    if n > 0 {
      ObjKeyPrefix(t, s, n - 1, o);
      var prev := MergeObj(t, s, n - 1, o);
      if prev.Done? {
        ObjItemKeys(prev.tree, s, n - 1, o);
        assert s.keys[..n] == s.keys[..n - 1] + [s.keys[n - 1]];
        KeysGrow(t.keys, prev.tree.keys, MergeObj(t, s, n, o).tree.keys, s.keys[..n - 1], s.keys[n - 1]);
      }
    }
  }

  /** Appending a key not yet present keeps the target's keys as a prefix. */
  lemma KeysGrow(tk: seq<string>, ck: seq<string>, next: seq<string>, pre: seq<string>, key: string)
    requires |tk| <= |ck| && ck[..|tk|] == tk
    requires forall j :: |tk| <= j < |ck| ==> ck[j] in pre && ck[j] !in tk
    requires next == ck || (next == ck + [key] && key !in ck)
    ensures |tk| <= |next| && next[..|tk|] == tk
    ensures forall j :: |tk| <= j < |next| ==> next[j] in pre + [key] && next[j] !in tk
  {
    assert next[..|tk|] == ck[..|tk|];
    assert forall x :: x in tk ==> x in ck by {
      forall x | x in tk ensures x in ck {
        var j :| 0 <= j < |tk| && tk[j] == x;
        assert ck[j] == x;
      }
    }
  }

  /** The next source key is already in the merged keys exactly when it was in
      the target's. */
  lemma ObjKeySeen(t: Tree, s: Tree, n: nat, o: Options)
    requires t.Obj? && s.Obj? && WF(t) && WF(s) && n < |s.items|
    ensures s.keys[n] in MergeObj(t, s, n, o).tree.keys <==> s.keys[n] in t.keys
  {
    assert s.keys[n] !in s.keys[..n];
    ObjKeyPrefix(t, s, n, o);
    KnownKey(t.keys, MergeObj(t, s, n, o).tree.keys, s.keys[..n], s.keys[n]);
  }

  /** Resolving a source value against `undefined` yields `undefined` only for
      `undefined` itself. */
  lemma ResolveUndef(x: Tree, o: Options)
    requires WF(x) && Resolve(Undef, x, o).Done?
    ensures Resolve(Undef, x, o).tree == Undef <==> x == Undef
  {
  }

  /** The last turn of `_mergeObject`'s loop appends its key exactly when the
      key is new and its value is stored. */
  lemma ObjKeyStep(t: Tree, s: Tree, n: nat, o: Options)
    requires t.Obj? && s.Obj? && WF(t) && WF(s) && 0 < n <= |s.items|
    requires MergeObj(t, s, n, o).Done?
    ensures MergeObj(t, s, n - 1, o).Done?
    ensures MergeObj(t, s, n, o).tree.keys == MergeObj(t, s, n - 1, o).tree.keys +
      if s.keys[n - 1] !in t.keys && Stores(s.items[n - 1], o) then [s.keys[n - 1]] else []
  {
    ObjKeySeen(t, s, n - 1, o);
    ItemKeyStep(MergeObj(t, s, n - 1, o).tree, s, n - 1, o, s.keys[n - 1] in t.keys);
  }

  lemma ItemKeyStep(cur: Tree, s: Tree, i: nat, o: Options, seen: bool)
    requires cur.Obj? && s.Obj? && WF(cur) && WF(s) && i < |s.items|
    requires ObjItem(cur, s, i, o).Done? && (s.keys[i] in cur.keys <==> seen)
    ensures ObjItem(cur, s, i, o).tree.keys == cur.keys + if !seen && Stores(s.items[i], o) then [s.keys[i]] else []
  {
    ObjItemKeys(cur, s, i, o);
    if !seen {
      assert IndexOf(cur.keys, s.keys[i]) == |cur.keys|;
      ResolveUndef(s.items[i], o);
    }
  }

  lemma NewKeysSnoc(known: seq<string>, ks: seq<string>, vs: seq<Tree>, o: Options, n: nat)
    requires 0 < n <= |ks| == |vs|
    ensures NewKeys(known, ks[..n], vs[..n], o) == NewKeys(known, ks[..n - 1], vs[..n - 1], o) +
      if ks[n - 1] !in known && Stores(vs[n - 1], o) then [ks[n - 1]] else []
  {
    assert ks[..n][..n - 1] == ks[..n - 1];
    assert vs[..n][..n - 1] == vs[..n - 1];
  }

  lemma AppendStep(tk: seq<string>, before: seq<string>, after: seq<string>, ck: seq<string>, rk: seq<string>, added: seq<string>)
    requires ck == tk + before && rk == ck + added && after == before + added
    ensures rk == tk + after
  {
  }

  /** `_mergeObject` keeps the target's keys and appends the source's new keys
      whose value is stored, in source order. */
  lemma {:induction false} ObjKeyOrder(t: Tree, s: Tree, n: nat, o: Options)
    requires t.Obj? && s.Obj? && WF(t) && WF(s) && n <= |s.items|
    requires MergeObj(t, s, n, o).Done?
    ensures MergeObj(t, s, n, o).tree.keys == t.keys + NewKeys(t.keys, s.keys[..n], s.items[..n], o)
    decreases n
  {
    if n > 0 {
      var key := s.keys[n - 1];
      var added := if key !in t.keys && Stores(s.items[n - 1], o) then [key] else [];
      ObjKeyStep(t, s, n, o);
      ObjKeyOrder(t, s, n - 1, o);
      NewKeysSnoc(t.keys, s.keys, s.items, o, n);
      AppendStep(t.keys, NewKeys(t.keys, s.keys[..n - 1], s.items[..n - 1], o), NewKeys(t.keys, s.keys[..n], s.items[..n], o),
                 MergeObj(t, s, n - 1, o).tree.keys, MergeObj(t, s, n, o).tree.keys, added);
    }
  }

  /** A key outside the source prefix is in the merged keys exactly when it
      was in the target's. */
  lemma KnownKey(tk: seq<string>, ck: seq<string>, sk: seq<string>, key: string)
    requires |tk| <= |ck| && ck[..|tk|] == tk
    requires forall j :: |tk| <= j < |ck| ==> ck[j] in sk
    requires key !in sk
    ensures key in ck <==> key in tk
  {
    if key in ck {
      var j :| 0 <= j < |ck| && ck[j] == key;
      if j >= |tk| {
        assert false;
      }
      assert ck[..|tk|][j] == key;
    }
    if key in tk {
      var j :| 0 <= j < |tk| && tk[j] == key;
      assert ck[..|tk|][j] == key;
    }
  }

  /** A non-array, non-plain object nested in the source, or a `null` in the
      target where the source has a plain object, is what makes a merge throw. */
  ghost predicate Blames(e: Error, t: Tree, s: Tree) {
    (e.Unsupported? && HasInstance(s, e.ctor)) || (e == NullTypeError && !NullFree(t))
  }

  /** Every error `_mergeGetValue` throws is explained by the source or the target. */
  lemma {:induction false} ResolveBlames(t: Tree, s: Tree, o: Options)
    requires WF(t) && WF(s)
    ensures Resolve(t, s, o).Failed? ==> Blames(Resolve(t, s, o).err, t, s)
    decreases s, 1, 0
  {
    match s
    case Arr(_) =>
      var reuse := o.mergeArrays && t.Arr?;
      ArrBlames(if reuse then t else Arr([]), s, |s.items|, o);
    case Obj(_, _) =>
      if !t.Null? {
        ObjBlames(if t.Obj? then t else Obj([], []), s, |s.items|, o);
      }
    case _ =>
  }

  lemma {:induction false} ArrBlames(t: Tree, s: Tree, n: nat, o: Options)
    requires t.Arr? && s.Arr? && WF(t) && WF(s) && n <= |s.items|
    ensures MergeArr(t, s, n, o).Failed? ==> Blames(MergeArr(t, s, n, o).err, t, s)
    decreases s, 0, n + 1
  {
    if n > 0 {
      ArrBlames(t, s, n - 1, o);
      var prev := MergeArr(t, s, n - 1, o);
      if prev.Done? {
        var i := n - 1;
        var ti := At(t.items, i, Undef);
        assert At(prev.tree.items, i, Undef) == ti by {
          ArrShape(t, s, n - 1, o);
        }
        ResolveBlames(ti, s.items[i], o);
        var m := Resolve(ti, s.items[i], o);
        if m.Failed? {
          if m.err.Unsupported? {
            assert HasInstance(s.items[i], m.err.ctor);
          } else {
            assert !NullFree(ti);
          }
        }
      }
    }
  }

  lemma {:induction false} ObjBlames(t: Tree, s: Tree, n: nat, o: Options)
    requires t.Obj? && s.Obj? && WF(t) && WF(s) && n <= |s.items|
    ensures MergeObj(t, s, n, o).Failed? ==> Blames(MergeObj(t, s, n, o).err, t, s)
    decreases s, 0, n + 1
  {
    if n > 0 {
      ObjBlames(t, s, n - 1, o);
      var prev := MergeObj(t, s, n - 1, o);
      if prev.Done? {
        var k := s.keys[n - 1];
        var tk := Get(t, k);
        assert Get(prev.tree, k) == tk by {
          assert k !in s.keys[..n - 1];
          ObjKeyUntouched(t, s, n - 1, o, k);
        }
        ResolveBlames(tk, s.items[n - 1], o);
        var m := Resolve(tk, s.items[n - 1], o);
        if m.Failed? {
          if m.err.Unsupported? {
            assert HasInstance(s.items[n - 1], m.err.ctor);
          } else {
            assert !NullFree(tk);
            assert IndexOf(t.keys, k) < |t.items|;
          }
        }
      }
    }
  }

  lemma {:induction false} InstanceNotPlain(s: Tree, c: string)
    requires HasInstance(s, c)
    ensures !Plain(s)
    decreases s
  {
    match s
    case Instance(_) =>
    case Arr(ts) =>
      var i :| 0 <= i < |ts| && HasInstance(ts[i], c);
      InstanceNotPlain(ts[i], c);
    case Obj(_, ts) =>
      var i :| 0 <= i < |ts| && HasInstance(ts[i], c);
      InstanceNotPlain(ts[i], c);
  }

  /** Merging a plain source into a target without `null`s never throws. */
  lemma PlainMergeSucceeds(t: Tree, s: Tree, o: Options)
    requires WF(t) && WF(s) && Plain(s) && NullFree(t)
    ensures Resolve(t, s, o).Done?
  {
    ResolveBlames(t, s, o);
    var m := Resolve(t, s, o);
    if m.Failed? && m.err.Unsupported? {
      InstanceNotPlain(s, m.err.ctor);
    }
  }

  /** With `mergeUndefined` off, a key whose resolved value is `undefined`
      stays absent from the target. */
  lemma {:induction false} ObjSkipAbsent(t: Tree, s: Tree, n: nat, o: Options, i: nat)
    requires t.Obj? && s.Obj? && WF(t) && WF(s) && i < n <= |s.items|
    requires MergeObj(t, s, n, o).Done?
    requires s.keys[i] !in t.keys && !Stores(Resolve(Undef, s.items[i], o).tree, o)
    ensures s.keys[i] !in MergeObj(t, s, n, o).tree.keys
    decreases n
  {
    var prev := MergeObj(t, s, n - 1, o);
    var k := s.keys[i];
    assert prev.Done?;
    if i < n - 1 {
      ObjSkipAbsent(t, s, n - 1, o, i);
      assert s.keys[n - 1] != k;
      ObjItemKeys(prev.tree, s, n - 1, o);
    } else {
      ObjKeySeen(t, s, n - 1, o);
      assert At(prev.tree.items, IndexOf(prev.tree.keys, k), Undef) == Undef;
    }
  }

  /** A plain tree merged into `undefined` (with `mergeUndefined`) comes out
      equal to itself: the copy `_mergeGetValue` makes into a fresh `[]` or `{}`. */
  lemma {:induction false} CopyResolve(s: Tree, o: Options)
    requires WF(s) && Plain(s) && o.mergeUndefined
    ensures Resolve(Undef, s, o) == Done(s)
    decreases s, 1, 0
  {
    match s
    case Arr(ts) =>
      CopyArr(s, |ts|, o);
      assert ts[..|ts|] == ts;
    case Obj(ks, ts) =>
      CopyObj(s, |ts|, o);
      assert ks[..|ts|] == ks && ts[..|ts|] == ts;
    case _ =>
  }

  lemma {:induction false} CopyArr(s: Tree, n: nat, o: Options)
    requires s.Arr? && WF(s) && Plain(s) && o.mergeUndefined && n <= |s.items|
    ensures MergeArr(Arr([]), s, n, o) == Done(Arr(s.items[..n]))
    decreases s, 0, n + 1
  {
    if n > 0 {
      CopyArr(s, n - 1, o);
      CopyResolve(s.items[n - 1], o);
      assert s.items[..n] == s.items[..n - 1] + [s.items[n - 1]];
    }
  }

  lemma {:induction false} CopyObj(s: Tree, n: nat, o: Options)
    requires s.Obj? && WF(s) && Plain(s) && o.mergeUndefined && n <= |s.items|
    ensures MergeObj(Obj([], []), s, n, o) == Done(Obj(s.keys[..n], s.items[..n]))
    decreases s, 0, n + 1
  {
    if n > 0 {
      CopyObj(s, n - 1, o);
      CopyResolve(s.items[n - 1], o);
      var k := s.keys[n - 1];
      assert IndexOf(s.keys[..n - 1], k) == n - 1;
      assert s.keys[..n] == s.keys[..n - 1] + [k];
      assert s.items[..n] == s.items[..n - 1] + [s.items[n - 1]];
    }
  }

  /** When the target slot cannot be reused, what it held does not matter: the
      result is what merging into `undefined` gives, so a copy of a plain source
      and never a splice of the two; on error the slot keeps its old value. */
  lemma FreshCopy(t: Tree, s: Tree, o: Options)
    requires WF(t) && WF(s)
    requires (s.Arr? && !(o.mergeArrays && t.Arr?)) || (s.Obj? && !t.Obj? && !t.Null?)
    ensures var m := Resolve(Undef, s, o);
      Resolve(t, s, o) == if m.Done? then m else Failed(t, m.err)
    ensures Plain(s) && o.mergeUndefined ==> Resolve(t, s, o) == Done(s)
  {
    if Plain(s) && o.mergeUndefined {
      CopyResolve(s, o);
    }
  }

  /** A non-plain object anywhere in the source makes `_mergeGetValue` throw. */
  lemma {:induction false} InstanceFails(t: Tree, s: Tree, o: Options, c: string)
    requires WF(t) && WF(s) && HasInstance(s, c)
    ensures Resolve(t, s, o).Failed?
    decreases s, 1
  {
    match s
    case Instance(_) =>
    case Arr(_) =>
      ContainerFails(if o.mergeArrays && t.Arr? then t else Arr([]), s, o, c);
    case Obj(_, _) =>
      if !t.Null? {
        ContainerFails(if t.Obj? then t else Obj([], []), s, o, c);
      }
  }

  /** The same for `_mergeArray` and `_mergeObject`. */
  lemma {:induction false} ContainerFails(t: Tree, s: Tree, o: Options, c: string)
    requires WF(t) && WF(s) && ((t.Arr? && s.Arr?) || (t.Obj? && s.Obj?)) && HasInstance(s, c)
    ensures t.Arr? ==> MergeArr(t, s, |s.items|, o).Failed?
    ensures t.Obj? ==> MergeObj(t, s, |s.items|, o).Failed?
    decreases s, 0
  {
    var i :| 0 <= i < |s.items| && HasInstance(s.items[i], c);
    if t.Arr? {
      InstanceFails(At(t.items, i, Undef), s.items[i], o, c);
      ArrShape(t, s, |s.items|, o);
    } else {
      InstanceFails(Get(t, s.keys[i]), s.items[i], o, c);
      if MergeObj(t, s, |s.items|, o).Done? {
        ObjKeyWritten(t, s, |s.items|, o, i);
      }
    }
  }

  /** A source holding a non-plain object makes `merge` throw once it is reached. */
  lemma SourceInstanceFails(t: Tree, ss: seq<Tree>, j: nat, o: Options, c: string)
    requires WF(t) && AllWF(ss) && j < |ss|
    requires MergeAll(t, ss, j, o).Done? && HasInstance(ss[j], c)
    ensures MergeAll(t, ss, |ss|, o).Failed?
  {
    AllNext(t, ss, j, o);
    var cur := MergeAll(t, ss, j, o).tree;
    if SameRootKind(cur, ss[j]) {
      ContainerFails(cur, ss[j], o, c);
    }
  }

  /** `clone` of a value holding a non-plain object throws. */
  lemma CloneInstanceFails(s: Tree, c: string)
    requires WF(s) && HasInstance(s, c)
    ensures Clone(s).Failed?
  {
    if s.Arr? {
      ContainerFails(Arr([]), s, Defaults, c);
      assert MergeAll(Arr([]), [s], 1, Defaults) == RootStep(Arr([]), s, Defaults);
    } else if s.Obj? {
      ContainerFails(Obj([], []), s, Defaults, c);
      assert MergeAll(Obj([], []), [s], 1, Defaults) == RootStep(Obj([], []), s, Defaults);
    }
  }

  /** `clone` of a plain array or object yields an equal tree. */
  lemma CloneCopies(s: Tree)
    requires WF(s) && Plain(s) && (s.Arr? || s.Obj?)
    ensures Clone(s) == Done(s)
  {
    CopyResolve(s, Defaults);
    if s.Arr? {
      assert MergeAll(Arr([]), [s], 1, Defaults) == RootStep(Arr([]), s, Defaults);
    } else {
      assert MergeAll(Obj([], []), [s], 1, Defaults) == RootStep(Obj([], []), s, Defaults);
    }
  }

  /** `clone` rejects anything but an array or a plain object, and otherwise
      fails only on a non-plain object nested in its argument. */
  lemma CloneBlames(s: Tree)
    requires WF(s)
    ensures !(s.Arr? || s.Obj?) ==> Clone(s) == Failed(s, if s.Null? then NullTypeError else NotCloneable)
    ensures (s.Arr? || s.Obj?) && Clone(s).Failed? ==>
      Clone(s).err.Unsupported? && HasInstance(s, Clone(s).err.ctor)
  {
    if s.Arr? {
      ArrBlames(Arr([]), s, |s.items|, Defaults);
      assert MergeAll(Arr([]), [s], 1, Defaults) == RootStep(Arr([]), s, Defaults);
    } else if s.Obj? {
      ObjBlames(Obj([], []), s, |s.items|, Defaults);
      assert MergeAll(Obj([], []), [s], 1, Defaults) == RootStep(Obj([], []), s, Defaults);
    }
  }

  /** A non-plain object in the target is never merged into: it is replaced
      exactly as `undefined` would be. */
  lemma InstanceTargetReplaced(c: string, s: Tree, o: Options)
    requires WF(s)
    ensures Resolve(Instance(c), s, o) ==
      match Resolve(Undef, s, o)
      case Done(v) => Done(v)
      case Failed(_, e) => Failed(Instance(c), e)
  {
  }

  /** A successful run of `_mergeTargets` keeps the root's kind. */
  lemma {:induction false} AllKeepsKind(t: Tree, ss: seq<Tree>, m: nat, o: Options)
    requires WF(t) && AllWF(ss) && m <= |ss| && MergeAll(t, ss, m, o).Done?
    ensures var r := MergeAll(t, ss, m, o).tree;
      r.Arr? == t.Arr? && r.Obj? == t.Obj? && r.Null? == t.Null?
    decreases m
  {
    if m > 0 {
      assert MergeAll(t, ss, m - 1, o).Done?;
      AllKeepsKind(t, ss, m - 1, o);
    }
  }

  /** The last round of a successful `_mergeTargets` on an object root is an
      object merge. */
  lemma LastRoundObj(t: Tree, ss: seq<Tree>, m: nat, o: Options)
    requires t.Obj? && WF(t) && AllWF(ss) && 0 < m <= |ss| && MergeAll(t, ss, m, o).Done?
    ensures MergeAll(t, ss, m - 1, o).Done? && MergeAll(t, ss, m - 1, o).tree.Obj? && ss[m - 1].Obj?
    ensures MergeAll(t, ss, m, o) == MergeObj(MergeAll(t, ss, m - 1, o).tree, ss[m - 1], |ss[m - 1].items|, o)
  {
    assert MergeAll(t, ss, m - 1, o).Done?;
    AllKeepsKind(t, ss, m - 1, o);
  }

  /** The last round of a successful `_mergeTargets` on an array root is an
      array merge. */
  lemma LastRoundArr(t: Tree, ss: seq<Tree>, m: nat, o: Options)
    requires t.Arr? && WF(t) && AllWF(ss) && 0 < m <= |ss| && MergeAll(t, ss, m, o).Done?
    ensures MergeAll(t, ss, m - 1, o).Done? && MergeAll(t, ss, m - 1, o).tree.Arr? && ss[m - 1].Arr?
    ensures MergeAll(t, ss, m, o) == MergeArr(MergeAll(t, ss, m - 1, o).tree, ss[m - 1], |ss[m - 1].items|, o)
  {
    assert MergeAll(t, ss, m - 1, o).Done?;
    AllKeepsKind(t, ss, m - 1, o);
  }

  /** A root-kind mismatch at source `j` throws after sources `0 .. j-1` have
      been applied: the target keeps their writes (merge is not transactional). */
  lemma MismatchKeepsEarlier(t: Tree, ss: seq<Tree>, j: nat, o: Options)
    requires WF(t) && AllWF(ss) && j < |ss|
    requires MergeAll(t, ss, j, o).Done? && !SameRootKind(t, ss[j])
    ensures MergeAll(t, ss, |ss|, o) ==
      Failed(MergeAll(t, ss, j, o).tree, if RootNullTrap(t, ss[j]) then NullTypeError else RootMismatch)
  {
    AllKeepsKind(t, ss, j, o);
    AllNext(t, ss, j, o);
  }

  /** An unsupported-type error names the constructor of a non-plain object
      found in one of the sources. */
  lemma {:induction false} UnsupportedNamesSource(t: Tree, ss: seq<Tree>, m: nat, o: Options)
    requires WF(t) && AllWF(ss) && m <= |ss|
    requires MergeAll(t, ss, m, o).Failed? && MergeAll(t, ss, m, o).err.Unsupported?
    ensures exists j :: 0 <= j < m && HasInstance(ss[j], MergeAll(t, ss, m, o).err.ctor)
    decreases m
  {
    var prev := MergeAll(t, ss, m - 1, o);
    if prev.Failed? {
      UnsupportedNamesSource(t, ss, m - 1, o);
      var j :| 0 <= j < m - 1 && HasInstance(ss[j], prev.err.ctor);
      assert HasInstance(ss[j], MergeAll(t, ss, m, o).err.ctor);
    } else {
      var cur := prev.tree;
      var s := ss[m - 1];
      if cur.Arr? && s.Arr? {
        ArrBlames(cur, s, |s.items|, o);
      } else if cur.Obj? && s.Obj? {
        ObjBlames(cur, s, |s.items|, o);
      }
      assert HasInstance(ss[m - 1], MergeAll(t, ss, m, o).err.ctor);
    }
  }

  /** Precedence for objects: a stored scalar under key `k` in source `j` is
      the final value when every later source lacks key `k` or has there an
      `undefined` that is not stored. */
  lemma {:induction false} KeyLastWriter(t: Tree, ss: seq<Tree>, o: Options, j: nat, k: string, m: nat)
    requires t.Obj? && WF(t) && AllWF(ss) && j < m <= |ss|
    requires MergeAll(t, ss, m, o).Done?
    requires ss[j].Obj? && k in ss[j].keys && IsScalar(Get(ss[j], k)) && Stores(Get(ss[j], k), o)
    requires forall i :: j < i < m && ss[i].Obj? && k in ss[i].keys ==> Get(ss[i], k) == Undef && !o.mergeUndefined
    ensures MergeAll(t, ss, m, o).tree.Obj?
    ensures Get(MergeAll(t, ss, m, o).tree, k) == Get(ss[j], k)
    decreases m
  {
    LastRoundObj(t, ss, m, o);
    var cur := MergeAll(t, ss, m - 1, o).tree;
    var s := ss[m - 1];
    if m - 1 == j {
      var i := IndexOf(s.keys, k);
      ObjKeyWritten(cur, s, |s.items|, o, i);
    } else {
      KeyLastWriter(t, ss, o, j, k, m - 1);
      if k in s.keys {
        ObjKeyWritten(cur, s, |s.items|, o, IndexOf(s.keys, k));
      } else {
        assert s.keys[..|s.items|] == s.keys;
        ObjKeyUntouched(cur, s, |s.items|, o, k);
      }
    }
  }

  /** Precedence for arrays: a stored scalar at index `x` of source `j` is the
      final value when every later source stops before `x` or has there an
      `undefined` that is not stored. */
  lemma {:induction false} IndexLastWriter(t: Tree, ss: seq<Tree>, o: Options, j: nat, x: nat, m: nat)
    requires t.Arr? && WF(t) && AllWF(ss) && j < m <= |ss|
    requires MergeAll(t, ss, m, o).Done?
    requires ss[j].Arr? && x < |ss[j].items| && IsScalar(ss[j].items[x]) && Stores(ss[j].items[x], o)
    requires forall i :: j < i < m && ss[i].Arr? && x < |ss[i].items| ==> ss[i].items[x] == Undef && !o.mergeUndefined
    ensures MergeAll(t, ss, m, o).tree.Arr?
    ensures At(MergeAll(t, ss, m, o).tree.items, x, Undef) == ss[j].items[x]
    decreases m
  {
    LastRoundArr(t, ss, m, o);
    var cur := MergeAll(t, ss, m - 1, o).tree;
    var s := ss[m - 1];
    ArrShape(cur, s, |s.items|, o);
    if m - 1 != j {
      IndexLastWriter(t, ss, o, j, x, m - 1);
    }
  }

  /** Options left out default to `true`; `merge` is `mergeWithOptions` with
      both defaults, and only `true` itself (or absence) turns an option on. */
  lemma OptionDefaults(t: Tree, ss: seq<Tree>, raw: RawOptions)
    requires WF(t) && AllWF(ss)
    ensures Normalize(RawOptions(Undef, Undef)) == Defaults
    ensures MergeWithOptions(t, ss, RawOptions(Undef, Undef)) == Merge(t, ss)
    ensures Normalize(raw).mergeUndefined <==> raw.mergeUndefined in {Undef, Leaf(Bool(true))}
    ensures Normalize(raw).mergeArrays <==> raw.mergeArrays in {Undef, Leaf(Bool(true))}
  {
  }
}
