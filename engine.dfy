/** index.js as it runs: `_mergeArray`, `_mergeObject` and `_mergeTargets`
    write into the target's containers in place, `_mergeGetValue` allocates a
    fresh `[]` or `{}` when the target slot cannot be reused. Each routine is
    proved against its value-level counterpart in `Semantics`. */
module Engine {
  import opened Values
  import opened Store
  import Semantics
  import Laws

  datatype Result<T> = Ok(value: T) | Err(error: Error)

  /** `_mergeGetValue` when the target slot is not reused: the merge into the
      fresh container, and what `Resolve` makes of it. */
  lemma ResolveFresh(t: Tree, s: Tree, o: Options) returns (mm: Step)
    requires WF(t) && WF(s) && (s.Arr? || s.Obj?)
    requires s.Arr? ==> !(o.mergeArrays && t.Arr?)
    requires s.Obj? ==> !t.Obj? && !t.Null?
    ensures mm == if s.Arr? then Semantics.MergeArr(Arr([]), s, |s.items|, o) else Semantics.MergeObj(Obj([], []), s, |s.items|, o)
    ensures Semantics.Resolve(t, s, o) == if mm.Done? then mm else Failed(t, mm.err)
  {
    mm := if s.Arr? then Semantics.MergeArr(Arr([]), s, |s.items|, o) else Semantics.MergeObj(Obj([], []), s, |s.items|, o);
  }

  /** After merging into a container `a` allocated in `h1 = h0[a := _]`: the
      result is made of fresh containers only, and what `h0` held is intact. */
  lemma FreshFrame(h0: Cells, h1: Cells, h2: Cells, a: Ref, first: Slot, t: Tree, u: Tree)
    requires Below(h0, a) && a in h1 && h1 == h0[a := h1[a]]
    requires Denotes(h0, first, t)
    requires AgreeOutside(h1, h2, {a})
    requires Within(h2, SRef(a), u, {a}, a + 1)
    ensures Within(h2, SRef(a), u, {}, a)
    ensures AgreeOutside(h0, h2, {})
    ensures Denotes(h2, first, t) && Owned(h2, first, t) == Owned(h0, first, t)
    ensures TreeShaped(h2, first, t) == TreeShaped(h0, first, t)
  {
    OwnedInHeap(h0, first, t);
    Frame(h0, h2, first, t);
  }

  /** Position `j` of the target container and position `i` of the source
      container, before the pass that merges them. */
  lemma PassSlots(h: Cells, a: Ref, cur: Tree, j: nat, src: Ref, s: Tree, i: nat)
    requires (cur.Arr? || cur.Obj?) && (s.Arr? || s.Obj?) && i < |s.items|
    requires Target(h, SRef(a), cur) && Denotes(h, SRef(src), s)
    requires Owned(h, SRef(a), cur) !! Owned(h, SRef(src), s)
    ensures var first := At(h[a].items, j, SUndef);
      var tj := At(cur.items, j, Undef);
      && Target(h, first, tj) && Owned(h, first, tj) <= Owned(h, SRef(a), cur)
      && Denotes(h, h[src].items[i], s.items[i])
      && Owned(h, first, tj) !! Owned(h, h[src].items[i], s.items[i])
  {
    if j < |cur.items| { KidOwned(h, SRef(a), cur, j); } else { ScalarTarget(h, Undef); }
    KidOwned(h, SRef(src), s, i);
  }

  /** `_mergeGetValue` threw while merging into position `i` of the array at
      `a`: the array reads as `ArrItem` says, changed only inside that
      position's own containers. */
  lemma ItemFailed(h: Cells, h2: Cells, a: Ref, cur: Tree, s: Tree, i: nat, o: Options, n: nat)
    requires cur.Arr? && s.Arr? && WF(cur) && WF(s) && i < |s.items|
    requires Below(h, n) && Target(h, SRef(a), cur)
    requires var m := Semantics.Resolve(At(cur.items, i, Undef), s.items[i], o);
      var first := At(h[a].items, i, SUndef);
      var k := Owned(h, first, At(cur.items, i, Undef));
      && m.Failed? && AgreeOutside(h, h2, k) && Target(h2, first, m.tree) && Within(h2, first, m.tree, k, n)
    ensures var r := Semantics.ArrItem(cur, s, i, o);
      && r.Failed? && r.err == Semantics.Resolve(At(cur.items, i, Undef), s.items[i], o).err
      && Target(h2, SRef(a), r.tree)
      && Within(h2, SRef(a), r.tree, Owned(h, SRef(a), cur), n)
      && AgreeOutside(h, h2, Owned(h, SRef(a), cur))
  {
    var u := Semantics.Resolve(At(cur.items, i, Undef), s.items[i], o).tree;
    var first := At(h[a].items, i, SUndef);
    var k := Owned(h, first, At(cur.items, i, Undef));
    OwnedInHeap(h, SRef(a), cur);
    if i < |cur.items| {
      KidOwned(h, SRef(a), cur, i);
      assert a !in k;
      ReplaceKid(h, SRef(a), cur, i, k, h2, first, u, h2[a], Arr(cur.items[i := u]), n);
      assert h2[a := h2[a]] == h2;
    } else {
      Frame(h, h2, SRef(a), cur);
    }
  }

  /** `first[i] = w` after `_mergeGetValue` returned `w` (stored unless it is
      `undefined` and `mergeUndefined` is off). */
  lemma ItemStored(h: Cells, h2: Cells, a: Ref, cur: Tree, s: Tree, i: nat, o: Options, w: Slot, n: nat)
    requires cur.Arr? && s.Arr? && WF(cur) && WF(s) && i < |s.items|
    requires Below(h, n) && Target(h, SRef(a), cur)
    requires var m := Semantics.Resolve(At(cur.items, i, Undef), s.items[i], o);
      var first := At(h[a].items, i, SUndef);
      var k := Owned(h, first, At(cur.items, i, Undef));
      && m.Done? && AgreeOutside(h, h2, k) && Target(h2, w, m.tree) && Within(h2, w, m.tree, k, n)
    requires w != SUndef || o.mergeUndefined
    ensures a in h2 && h2[a].ArrC?
    ensures var h3 := h2[a := ArrC(SetIndex(h2[a].items, i, w, SUndef))];
      var r := Semantics.ArrItem(cur, s, i, o);
      && r.Done?
      && Target(h3, SRef(a), r.tree)
      && Within(h3, SRef(a), r.tree, Owned(h, SRef(a), cur), n)
      && AgreeOutside(h, h3, Owned(h, SRef(a), cur))
  {
    var u := Semantics.Resolve(At(cur.items, i, Undef), s.items[i], o).tree;
    assert Semantics.Stores(u, o) by {
      if u == Undef { assert w == SUndef; }
    }
    var first := At(h[a].items, i, SUndef);
    var k := Owned(h, first, At(cur.items, i, Undef));
    OwnedInHeap(h, SRef(a), cur);
    if i < |cur.items| {
      KidOwned(h, SRef(a), cur, i);
    }
    assert a !in k;
    ReplaceKid(h, SRef(a), cur, i, k, h2, w, u, ArrC(SetIndex(h2[a].items, i, w, SUndef)), Arr(SetIndex(cur.items, i, u, Undef)), n);
  }

  /** `_mergeGetValue` threw while merging the `i`-th key of `s` into the object at `a`. */
  lemma KeyFailed(h: Cells, h2: Cells, a: Ref, cur: Tree, s: Tree, i: nat, o: Options, n: nat)
    requires cur.Obj? && s.Obj? && WF(cur) && WF(s) && i < |s.items|
    requires Below(h, n) && Target(h, SRef(a), cur)
    requires var j := IndexOf(cur.keys, s.keys[i]);
      var m := Semantics.Resolve(At(cur.items, j, Undef), s.items[i], o);
      var first := At(h[a].items, j, SUndef);
      var k := Owned(h, first, At(cur.items, j, Undef));
      && m.Failed? && AgreeOutside(h, h2, k) && Target(h2, first, m.tree) && Within(h2, first, m.tree, k, n)
    ensures var r := Semantics.ObjItem(cur, s, i, o);
      && r.Failed?
      && r.err == Semantics.Resolve(At(cur.items, IndexOf(cur.keys, s.keys[i]), Undef), s.items[i], o).err
      && Target(h2, SRef(a), r.tree)
      && Within(h2, SRef(a), r.tree, Owned(h, SRef(a), cur), n)
      && AgreeOutside(h, h2, Owned(h, SRef(a), cur))
  {
    var j := IndexOf(cur.keys, s.keys[i]);
    var u := Semantics.Resolve(At(cur.items, j, Undef), s.items[i], o).tree;
    var first := At(h[a].items, j, SUndef);
    var k := Owned(h, first, At(cur.items, j, Undef));
    OwnedInHeap(h, SRef(a), cur);
    if j < |cur.items| {
      KidOwned(h, SRef(a), cur, j);
      assert a !in k;
      ReplaceKid(h, SRef(a), cur, j, k, h2, first, u, h2[a], Obj(cur.keys, cur.items[j := u]), n);
      assert h2[a := h2[a]] == h2;
    } else {
      Frame(h, h2, SRef(a), cur);
    }
  }

  /** `first[key] = w` after `_mergeGetValue` returned `w` for the `i`-th key of `s`. */
  lemma KeyStored(h: Cells, h2: Cells, a: Ref, cur: Tree, s: Tree, i: nat, o: Options, w: Slot, n: nat)
    requires cur.Obj? && s.Obj? && WF(cur) && WF(s) && i < |s.items|
    requires Below(h, n) && Target(h, SRef(a), cur)
    requires var j := IndexOf(cur.keys, s.keys[i]);
      var m := Semantics.Resolve(At(cur.items, j, Undef), s.items[i], o);
      var first := At(h[a].items, j, SUndef);
      var k := Owned(h, first, At(cur.items, j, Undef));
      && m.Done? && AgreeOutside(h, h2, k) && Target(h2, w, m.tree) && Within(h2, w, m.tree, k, n)
    requires w != SUndef || o.mergeUndefined
    ensures a in h2 && h2[a].ObjC? && h2[a].keys == cur.keys && |h2[a].items| == |cur.items|
    ensures var key := s.keys[i];
      var h3 := h2[a := ObjC(PutKeys(h2[a].keys, key), PutVals(h2[a].keys, h2[a].items, key, w))];
      var r := Semantics.ObjItem(cur, s, i, o);
      && r.Done?
      && Target(h3, SRef(a), r.tree)
      && Within(h3, SRef(a), r.tree, Owned(h, SRef(a), cur), n)
      && AgreeOutside(h, h3, Owned(h, SRef(a), cur))
  {
    var key := s.keys[i];
    var j := IndexOf(cur.keys, key);
    var u := Semantics.Resolve(At(cur.items, j, Undef), s.items[i], o).tree;
    assert Semantics.Stores(u, o) by {
      if u == Undef { assert w == SUndef; }
    }
    var first := At(h[a].items, j, SUndef);
    var k := Owned(h, first, At(cur.items, j, Undef));
    OwnedInHeap(h, SRef(a), cur);
    if j < |cur.items| {
      KidOwned(h, SRef(a), cur, j);
    }
    assert a !in k;
    var c := h2[a];
    ReplaceKid(h, SRef(a), cur, j, k, h2, w, u, ObjC(PutKeys(c.keys, key), PutVals(c.keys, c.items, key, w)),
               Obj(PutKeys(cur.keys, key), PutVals(cur.keys, cur.items, key, u)), n);
  }

  /** While a target is merged into, a source apart from it still reads as
      before and stays apart from it. */
  lemma SourceApart(h0: Cells, h: Cells, first: Slot, t: Tree, cur: Tree, src: Slot, s: Tree, n0: nat)
    requires Below(h0, n0) && Denotes(h0, src, s)
    requires Owned(h0, first, t) !! Owned(h0, src, s)
    requires AgreeOutside(h0, h, Owned(h0, first, t))
    requires Within(h, first, cur, Owned(h0, first, t), n0)
    ensures Denotes(h, src, s) && Owned(h, src, s) == Owned(h0, src, s)
    ensures Owned(h, first, cur) !! Owned(h, src, s)
  {
    OwnedInHeap(h0, src, s);
    Untouched(h0, h, src, s, Owned(h0, first, t));
  }

  /** `SourceApart` for every source of `_mergeTargets`. */
  lemma SourcesApart(h0: Cells, h: Cells, first: Slot, t: Tree, cur: Tree, sources: seq<Slot>, ss: seq<Tree>, n0: nat)
    requires |sources| == |ss| && Below(h0, n0)
    requires forall j :: 0 <= j < |ss| ==>
      Denotes(h0, sources[j], ss[j]) && Owned(h0, first, t) !! Owned(h0, sources[j], ss[j])
    requires AgreeOutside(h0, h, Owned(h0, first, t))
    requires Within(h, first, cur, Owned(h0, first, t), n0)
    ensures forall j :: 0 <= j < |ss| ==>
      Denotes(h, sources[j], ss[j]) && Owned(h, first, cur) !! Owned(h, sources[j], ss[j])
  {
    forall j | 0 <= j < |ss|
      ensures Denotes(h, sources[j], ss[j]) && Owned(h, first, cur) !! Owned(h, sources[j], ss[j])
    {
      SourceApart(h0, h, first, t, cur, sources[j], ss[j], n0);
    }
  }

  class Heap {
    /** The arrays and plain objects in existence. */
    var cells: Cells
    /** The next reference to hand out. */
    var next: Ref

    ghost predicate Valid()
      reads this
    {
      Below(cells, next)
    }

    constructor ()
      ensures Valid() && cells == map[]
    {
      cells := map[];
      next := 0;
    }

    /** `[]` or `{}`: a container that exists nowhere else. */
    method Alloc(c: Container) returns (a: Ref)
      requires Valid()
      modifies this
      ensures Valid()
      ensures a == old(next) && next == old(next) + 1 && cells == old(cells)[a := c]
    {
      a := next;
      cells := cells[a := c];
      next := next + 1;
    }

    /** `first instanceof Array`. */
    function IsArray(v: Slot): bool
      reads this
    {
      v.SRef? && v.ref in cells && cells[v.ref].ArrC?
    }

    /** `typeof v === "object" && v.constructor === Object`, for `v` not null. */
    function IsPlainObject(v: Slot): bool
      reads this
    {
      v.SRef? && v.ref in cells && cells[v.ref].ObjC?
    }

    /** `_mergeGetValue(first, second, options)`. */
    method GetValue(first: Slot, second: Slot, o: Options, ghost t: Tree, ghost s: Tree) returns (r: Result<Slot>)
      requires Valid() && WF(t) && WF(s)
      requires Target(cells, first, t) && Denotes(cells, second, s)
      requires Owned(cells, first, t) !! Owned(cells, second, s)
      modifies this
      decreases s, 1
      ensures Valid() && old(next) <= next
      ensures AgreeOutside(old(cells), cells, Owned(old(cells), first, t))
      ensures IsScalar(s) ==> cells == old(cells)
      ensures var m := Semantics.Resolve(t, s, o);
        && (r.Ok? <==> m.Done?)
        && (r.Err? ==> r.error == m.err)
        && Target(cells, if r.Ok? then r.value else first, m.tree)
        && Within(cells, if r.Ok? then r.value else first, m.tree, Owned(old(cells), first, t), old(next))
      ensures r.Ok? && s.Arr? && o.mergeArrays && t.Arr? ==> r.value == first
      ensures r.Ok? && s.Obj? && t.Obj? ==> r.value == first
      ensures r.Ok? && s.Arr? && !(o.mergeArrays && t.Arr?) ==> r.value.SRef? && old(next) <= r.value.ref
      ensures r.Ok? && s.Obj? && !t.Obj? ==> r.value.SRef? && old(next) <= r.value.ref
    {
      OwnedInHeap(cells, first, t);
      OwnedInHeap(cells, second, s);
      if !second.SRef? {
        if second.SInstance? {
          r := Err(Unsupported(second.ctor));
        } else {
          r := Ok(second);
          ScalarTarget(cells, s);
        }
        return;
      }
      var src := second.ref;
      if cells[src].ArrC? {
        assert s.Arr?;
        if o.mergeArrays && IsArray(first) {
          assert t.Arr?;
          assert Semantics.Resolve(t, s, o) == Semantics.MergeArr(t, s, |s.items|, o);
          var m := MergeArray(first.ref, src, o, t, s);
          r := if m.Ok? then Ok(first) else Err(m.error);
        } else {
          r := GetFresh(first, src, o, t, s);
        }
      } else {
        assert s.Obj?;
        if first == SNull {
          r := Err(NullTypeError);
        } else if IsPlainObject(first) {
          assert t.Obj?;
          assert Semantics.Resolve(t, s, o) == Semantics.MergeObj(t, s, |s.items|, o);
          var m := MergeObject(first.ref, src, o, t, s);
          r := if m.Ok? then Ok(first) else Err(m.error);
        } else {
          r := GetFresh(first, src, o, t, s);
        }
      }
    }

    /** The `[]` / `{}` branches of `_mergeGetValue`: merge the source into a
        fresh container; the target slot itself is left alone. */
    method GetFresh(first: Slot, src: Ref, o: Options, ghost t: Tree, ghost s: Tree) returns (r: Result<Slot>)
      requires Valid() && WF(t) && WF(s) && (s.Arr? || s.Obj?)
      requires s.Arr? ==> !(o.mergeArrays && t.Arr?)
      requires s.Obj? ==> !t.Obj? && !t.Null?
      requires Target(cells, first, t) && Denotes(cells, SRef(src), s)
      modifies this
      decreases s, 0, 2
      ensures Valid() && old(next) <= next
      ensures AgreeOutside(old(cells), cells, {})
      ensures var m := Semantics.Resolve(t, s, o);
        && (r.Ok? <==> m.Done?)
        && (r.Err? ==> r.error == m.err && m.tree == t)
        && (r.Ok? ==> Target(cells, r.value, m.tree) && Within(cells, r.value, m.tree, {}, old(next)))
        && (r.Ok? ==> r.value.SRef? && old(next) <= r.value.ref)
      ensures Target(cells, first, t) && Owned(cells, first, t) == Owned(old(cells), first, t)
    {
      ghost var h0 := cells;
      var isArray := cells[src].ArrC?;
      ghost var empty := if isArray then Arr([]) else Obj([], []);
      ghost var mm := ResolveFresh(t, s, o);
      var a := Alloc(if isArray then ArrC([]) else ObjC([], []));
      assert Denotes(cells, SRef(src), s) && a !in Owned(cells, SRef(src), s) by {
        OwnedInHeap(h0, SRef(src), s);
        Frame(h0, cells, SRef(src), s);
      }
      EmptyTarget(cells, a, empty);
      ghost var h1 := cells;
      var m;
      if isArray {
        m := MergeArray(a, src, o, empty, s);
      } else {
        m := MergeObject(a, src, o, empty, s);
      }
      r := if m.Ok? then Ok(SRef(a)) else Err(m.error);
      FreshFrame(h0, h1, cells, a, first, t, mm.tree);
    }

    /** `_mergeArray(first, second, options)`: element-wise merge into the array at `a`. */
    method MergeArray(a: Ref, src: Ref, o: Options, ghost t: Tree, ghost s: Tree) returns (r: Result<Ref>)
      requires Valid() && t.Arr? && s.Arr? && WF(t) && WF(s)
      requires Target(cells, SRef(a), t) && Denotes(cells, SRef(src), s)
      requires Owned(cells, SRef(a), t) !! Owned(cells, SRef(src), s)
      modifies this
      decreases s, 0, 1
      ensures Valid() && old(next) <= next
      ensures AgreeOutside(old(cells), cells, Owned(old(cells), SRef(a), t))
      ensures var m := Semantics.MergeArr(t, s, |s.items|, o);
        && (r.Ok? <==> m.Done?)
        && (r.Ok? ==> r.value == a)
        && (r.Err? ==> r.error == m.err)
        && Target(cells, SRef(a), m.tree)
        && Within(cells, SRef(a), m.tree, Owned(old(cells), SRef(a), t), old(next))
    {
      ghost var h0, n0, k0 := cells, next, Owned(cells, SRef(a), t);
      var second := cells[src].items;
      var i := 0;
      while i < |second|
        invariant i <= |second| == |s.items|
        invariant Valid() && n0 <= next
        invariant Semantics.MergeArr(t, s, i, o).Done?
        invariant Target(cells, SRef(a), Semantics.MergeArr(t, s, i, o).tree)
        invariant Within(cells, SRef(a), Semantics.MergeArr(t, s, i, o).tree, k0, n0)
        invariant AgreeOutside(h0, cells, k0)
      {
        ghost var cur := Semantics.MergeArr(t, s, i, o).tree;
        ghost var h, n := cells, next;
        SourceApart(h0, h, SRef(a), t, cur, SRef(src), s, n0);
        var step := ArrayItem(a, src, i, o, cur, s);
        Laws.ArrNext(t, s, i, o);
        Chain(h0, h, cells, k0, n0, SRef(a), cur, n, Semantics.MergeArr(t, s, i + 1, o).tree);
        if step.Err? {
          return Err(step.error);
        }
        i := i + 1;
      }
      r := Ok(a);
    }

    /** One pass of `_mergeArray`'s loop: `first[i] = _mergeGetValue(first[i], second[i])`
        unless the value is skipped. */
    method ArrayItem(a: Ref, src: Ref, i: nat, o: Options, ghost cur: Tree, ghost s: Tree) returns (r: Result<()>)
      requires Valid() && cur.Arr? && s.Arr? && WF(cur) && WF(s) && i < |s.items|
      requires Target(cells, SRef(a), cur) && Denotes(cells, SRef(src), s)
      requires Owned(cells, SRef(a), cur) !! Owned(cells, SRef(src), s)
      modifies this
      decreases s, 0, 0
      ensures Valid() && old(next) <= next
      ensures AgreeOutside(old(cells), cells, Owned(old(cells), SRef(a), cur))
      ensures var m := Semantics.ArrItem(cur, s, i, o);
        && (r.Ok? <==> m.Done?)
        && (r.Err? ==> r.error == m.err)
        && Target(cells, SRef(a), m.tree)
        && Within(cells, SRef(a), m.tree, Owned(old(cells), SRef(a), cur), old(next))
    {
      ghost var h, n := cells, next;
      var first := At(cells[a].items, i, SUndef);
      ghost var ti := At(cur.items, i, Undef);
      ghost var k := Owned(h, first, ti);
      var second := cells[src].items[i];
      assert Target(h, first, ti) && Denotes(h, second, s.items[i]) && k !! Owned(h, second, s.items[i]) by {
        PassSlots(h, a, cur, i, src, s, i);
      }
      var v := GetValue(first, second, o, ti, s.items[i]);
      if v.Err? {
        ItemFailed(h, cells, a, cur, s, i, o, n);
        return Err(v.error);
      }
      if v.value != SUndef || o.mergeUndefined {
        ItemStored(h, cells, a, cur, s, i, o, v.value, n);
        var c := ArrC(SetIndex(cells[a].items, i, v.value, SUndef));
        StoreBelow(cells, a, c, next);
        cells := cells[a := c];
      } else {
        assert IsScalar(s.items[i]) && cells == h;
      }
      r := Ok(());
    }

    /** `_mergeObject(first, second, options)`: key-wise merge into the object at `a`. */
    method MergeObject(a: Ref, src: Ref, o: Options, ghost t: Tree, ghost s: Tree) returns (r: Result<Ref>)
      requires Valid() && t.Obj? && s.Obj? && WF(t) && WF(s)
      requires Target(cells, SRef(a), t) && Denotes(cells, SRef(src), s)
      requires Owned(cells, SRef(a), t) !! Owned(cells, SRef(src), s)
      modifies this
      decreases s, 0, 1
      ensures Valid() && old(next) <= next
      ensures AgreeOutside(old(cells), cells, Owned(old(cells), SRef(a), t))
      ensures var m := Semantics.MergeObj(t, s, |s.items|, o);
        && (r.Ok? <==> m.Done?)
        && (r.Ok? ==> r.value == a)
        && (r.Err? ==> r.error == m.err)
        && Target(cells, SRef(a), m.tree)
        && Within(cells, SRef(a), m.tree, Owned(old(cells), SRef(a), t), old(next))
    {
      ghost var h0, n0, k0 := cells, next, Owned(cells, SRef(a), t);
      var keys := cells[src].keys;
      var i := 0;
      while i < |keys|
        invariant i <= |keys| == |s.items|
        invariant Valid() && n0 <= next
        invariant Semantics.MergeObj(t, s, i, o).Done?
        invariant Target(cells, SRef(a), Semantics.MergeObj(t, s, i, o).tree)
        invariant Within(cells, SRef(a), Semantics.MergeObj(t, s, i, o).tree, k0, n0)
        invariant AgreeOutside(h0, cells, k0)
      {
        ghost var cur := Semantics.MergeObj(t, s, i, o).tree;
        ghost var h, n := cells, next;
        SourceApart(h0, h, SRef(a), t, cur, SRef(src), s, n0);
        var step := ObjectItem(a, src, i, o, cur, s);
        Laws.ObjNext(t, s, i, o);
        Chain(h0, h, cells, k0, n0, SRef(a), cur, n, Semantics.MergeObj(t, s, i + 1, o).tree);
        if step.Err? {
          return Err(step.error);
        }
        i := i + 1;
      }
      r := Ok(a);
    }

    /** One pass of `_mergeObject`'s loop: `first[key] = _mergeGetValue(first[key], second[key])`
        for the `i`-th key of the source, unless the value is skipped. */
    method ObjectItem(a: Ref, src: Ref, i: nat, o: Options, ghost cur: Tree, ghost s: Tree) returns (r: Result<()>)
      requires Valid() && cur.Obj? && s.Obj? && WF(cur) && WF(s) && i < |s.items|
      requires Target(cells, SRef(a), cur) && Denotes(cells, SRef(src), s)
      requires Owned(cells, SRef(a), cur) !! Owned(cells, SRef(src), s)
      modifies this
      decreases s, 0, 0
      ensures Valid() && old(next) <= next
      ensures AgreeOutside(old(cells), cells, Owned(old(cells), SRef(a), cur))
      ensures var m := Semantics.ObjItem(cur, s, i, o);
        && (r.Ok? <==> m.Done?)
        && (r.Err? ==> r.error == m.err)
        && Target(cells, SRef(a), m.tree)
        && Within(cells, SRef(a), m.tree, Owned(old(cells), SRef(a), cur), old(next))
    {
      ghost var h, n := cells, next;
      var key := cells[src].keys[i];
      var j := IndexOf(cells[a].keys, key);
      var first := At(cells[a].items, j, SUndef);
      ghost var tj := At(cur.items, j, Undef);
      var second := cells[src].items[i];
      assert key == s.keys[i] && j == IndexOf(cur.keys, key);
      assert Target(h, first, tj) && Denotes(h, second, s.items[i]) && Owned(h, first, tj) !! Owned(h, second, s.items[i]) by {
        PassSlots(h, a, cur, j, src, s, i);
      }
      var v := GetValue(first, second, o, tj, s.items[i]);
      if v.Err? {
        KeyFailed(h, cells, a, cur, s, i, o, n);
        return Err(v.error);
      }
      if v.value != SUndef || o.mergeUndefined {
        KeyStored(h, cells, a, cur, s, i, o, v.value, n);
        var c := ObjC(PutKeys(cells[a].keys, key), PutVals(cells[a].keys, cells[a].items, key, v.value));
        StoreBelow(cells, a, c, next);
        cells := cells[a := c];
      } else {
        assert IsScalar(s.items[i]) && cells == h;
      }
      r := Ok(());
    }
  
    /** One round of `_mergeTargets`' loop: the root check, then `_mergeArray`
        or `_mergeObject` into `first`. */
    method RootItem(first: Slot, src: Slot, o: Options, ghost cur: Tree, ghost s: Tree) returns (r: Result<()>)
      requires Valid() && WF(cur) && WF(s)
      requires Target(cells, first, cur) && Denotes(cells, src, s)
      requires Owned(cells, first, cur) !! Owned(cells, src, s)
      modifies this
      ensures Valid() && old(next) <= next
      ensures AgreeOutside(old(cells), cells, Owned(old(cells), first, cur))
      ensures var m := Semantics.RootStep(cur, s, o);
        && (r.Ok? <==> m.Done?)
        && (r.Err? ==> r.error == m.err)
        && Target(cells, first, m.tree)
        && Within(cells, first, m.tree, Owned(old(cells), first, cur), old(next))
    {
      if IsArray(first) && IsArray(src) {
        assert cur.Arr? && s.Arr?;
        var m := MergeArray(first.ref, src.ref, o, cur, s);
        r := if m.Ok? then Ok(()) else Err(m.error);
      } else if !(first.SNull? || first.SInstance? || first.SRef?) {
        r := Err(RootMismatch);
      } else if first.SNull? {
        r := Err(NullTypeError);
      } else if !IsPlainObject(first) || !(src.SNull? || src.SInstance? || src.SRef?) {
        r := Err(RootMismatch);
      } else if src.SNull? {
        r := Err(NullTypeError);
      } else if !IsPlainObject(src) {
        r := Err(RootMismatch);
      } else {
        assert cur.Obj? && s.Obj?;
        var m := MergeObject(first.ref, src.ref, o, cur, s);
        r := if m.Ok? then Ok(()) else Err(m.error);
      }
    }

    /** `_mergeTargets(first, sources, options)`: merges every source into
        `first` in turn and returns `first`. The sources are only read. */
    method MergeTargets(first: Slot, sources: seq<Slot>, o: Options, ghost t: Tree, ghost ss: seq<Tree>) returns (r: Result<Slot>)
      requires Valid() && WF(t) && Semantics.AllWF(ss) && |sources| == |ss|
      requires Target(cells, first, t)
      requires forall j :: 0 <= j < |ss| ==>
        Denotes(cells, sources[j], ss[j]) && Owned(cells, first, t) !! Owned(cells, sources[j], ss[j])
      modifies this
      ensures Valid() && old(next) <= next
      ensures AgreeOutside(old(cells), cells, Owned(old(cells), first, t))
      ensures forall j :: 0 <= j < |ss| ==> Denotes(cells, sources[j], ss[j])
      ensures forall j :: 0 <= j < |ss| ==> Owned(cells, first, Semantics.MergeAll(t, ss, |ss|, o).tree) !! Owned(cells, sources[j], ss[j])
      ensures var m := Semantics.MergeAll(t, ss, |ss|, o);
        && (r.Ok? <==> m.Done?)
        && (r.Ok? ==> r.value == first)
        && (r.Err? ==> r.error == m.err)
        && Target(cells, first, m.tree)
        && Within(cells, first, m.tree, Owned(old(cells), first, t), old(next))
    {
      ghost var h0, n0, k0 := cells, next, Owned(cells, first, t);
      var i := 0;
      while i < |sources|
        invariant i <= |sources|
        invariant Valid() && n0 <= next
        invariant Semantics.MergeAll(t, ss, i, o).Done?
        invariant Target(cells, first, Semantics.MergeAll(t, ss, i, o).tree)
        invariant Within(cells, first, Semantics.MergeAll(t, ss, i, o).tree, k0, n0)
        invariant AgreeOutside(h0, cells, k0)
      {
        ghost var cur := Semantics.MergeAll(t, ss, i, o).tree;
        ghost var h, n := cells, next;
        SourcesApart(h0, h, first, t, cur, sources, ss, n0);
        var step := RootItem(first, sources[i], o, cur, ss[i]);
        Laws.AllNext(t, ss, i, o);
        Chain(h0, h, cells, k0, n0, first, cur, n, Semantics.MergeAll(t, ss, i + 1, o).tree);
        if step.Err? {
          SourcesApart(h0, cells, first, t, Semantics.MergeAll(t, ss, i + 1, o).tree, sources, ss, n0);
          return Err(step.error);
        }
        i := i + 1;
      }
      SourcesApart(h0, cells, first, t, Semantics.MergeAll(t, ss, i, o).tree, sources, ss, n0);
      r := Ok(first);
    }

    /** `merge(first, ...sources)`: both options on. */
    method Merge(first: Slot, sources: seq<Slot>, ghost t: Tree, ghost ss: seq<Tree>) returns (r: Result<Slot>)
      requires Valid() && WF(t) && Semantics.AllWF(ss) && |sources| == |ss|
      requires Target(cells, first, t)
      requires forall j :: 0 <= j < |ss| ==>
        Denotes(cells, sources[j], ss[j]) && Owned(cells, first, t) !! Owned(cells, sources[j], ss[j])
      modifies this
      ensures Valid() && old(next) <= next
      ensures AgreeOutside(old(cells), cells, Owned(old(cells), first, t))
      ensures forall j :: 0 <= j < |ss| ==> Denotes(cells, sources[j], ss[j])
      ensures forall j :: 0 <= j < |ss| ==> Owned(cells, first, Semantics.Merge(t, ss).tree) !! Owned(cells, sources[j], ss[j])
      ensures var m := Semantics.Merge(t, ss);
        && (r.Ok? <==> m.Done?)
        && (r.Ok? ==> r.value == first)
        && (r.Err? ==> r.error == m.err)
        && Target(cells, first, m.tree)
    {
      r := MergeTargets(first, sources, Defaults, t, ss);
    }

    /** `mergeWithOptions(first, ...sources, options)`, with the caller's
        options object given by what it holds under the two option names. */
    method MergeWithOptions(first: Slot, sources: seq<Slot>, raw: RawOptions, ghost t: Tree, ghost ss: seq<Tree>)
      returns (r: Result<Slot>)
      requires Valid() && WF(t) && Semantics.AllWF(ss) && |sources| == |ss|
      requires Target(cells, first, t)
      requires forall j :: 0 <= j < |ss| ==>
        Denotes(cells, sources[j], ss[j]) && Owned(cells, first, t) !! Owned(cells, sources[j], ss[j])
      modifies this
      ensures Valid() && old(next) <= next
      ensures AgreeOutside(old(cells), cells, Owned(old(cells), first, t))
      ensures forall j :: 0 <= j < |ss| ==> Denotes(cells, sources[j], ss[j])
      ensures forall j :: 0 <= j < |ss| ==> Owned(cells, first, Semantics.MergeWithOptions(t, ss, raw).tree) !! Owned(cells, sources[j], ss[j])
      ensures var m := Semantics.MergeWithOptions(t, ss, raw);
        && (r.Ok? <==> m.Done?)
        && (r.Ok? ==> r.value == first)
        && (r.Err? ==> r.error == m.err)
        && Target(cells, first, m.tree)
    {
      var o := Semantics.Normalize(raw);
      r := MergeTargets(first, sources, o, t, ss);
    }

    /** `clone(src)`: a copy made of fresh containers only; nothing that
        existed before changes. */
    method Clone(src: Slot, ghost s: Tree) returns (r: Result<Slot>)
      requires Valid() && WF(s) && Denotes(cells, src, s)
      modifies this
      ensures Valid() && old(next) <= next
      ensures AgreeOutside(old(cells), cells, {})
      ensures Denotes(cells, src, s)
      ensures var m := Semantics.Clone(s);
        && (r.Ok? <==> m.Done?)
        && (r.Err? ==> r.error == m.err)
        && (r.Ok? ==> Target(cells, r.value, m.tree) && Within(cells, r.value, m.tree, {}, old(next)))
    {
      if !IsArray(src) && !IsPlainObject(src) {
        r := Err(if src.SNull? then NullTypeError else NotCloneable);
        return;
      }
      ghost var h0 := cells;
      var isArray := IsArray(src);
      ghost var empty := if isArray then Arr([]) else Obj([], []);
      var a := Alloc(if isArray then ArrC([]) else ObjC([], []));
      assert Denotes(cells, src, s) && a !in Owned(cells, src, s) by {
        OwnedInHeap(h0, src, s);
        Frame(h0, cells, src, s);
      }
      EmptyTarget(cells, a, empty);
      ghost var h1 := cells;
      var m := MergeTargets(SRef(a), [src], Defaults, empty, [s]);
      assert Semantics.MergeAll(empty, [s], 1, Defaults) == Semantics.Clone(s);
      r := m;
      FreshFrame(h0, h1, cells, a, src, s, Semantics.Clone(s).tree);
    }
  }
}
