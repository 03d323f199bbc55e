/** The host heap as the engine sees it: arrays and plain objects are mutable
    containers named by references; a slot (an array element, a property value,
    a root argument) holds a primitive or a reference. `Denotes` reads a slot as
    a value tree, `Owned` collects the containers a tree is made of. */
module Store {
  import opened Values

  type Ref = nat

  /** Contents of one array element or property. A non-plain object is never
      written into by the engine, so it is kept as an opaque value. */
  datatype Slot = SUndef | SNull | SLeaf(prim: Prim) | SInstance(ctor: string) | SRef(ref: Ref)

  /** A mutable array or plain object. */
  datatype Container = ArrC(items: seq<Slot>) | ObjC(keys: seq<string>, items: seq<Slot>)

  type Cells = map<Ref, Container>

  /** The slot of a primitive, `null`, `undefined` or non-plain object. */
  function ScalarSlot(t: Tree): Slot {
    match t
    case Undef => SUndef
    case Null => SNull
    case Leaf(p) => SLeaf(p)
    case Instance(c) => SInstance(c)
    case _ => SUndef
  }

  /** `v` references a container of `t`'s kind, keys and length. */
  ghost predicate Holds(h: Cells, v: Slot, t: Tree)
    requires t.Arr? || t.Obj?
  {
    v.SRef? && v.ref in h && |h[v.ref].items| == |t.items| &&
    if t.Arr? then h[v.ref].ArrC? else h[v.ref].ObjC? && h[v.ref].keys == t.keys
  }

  /** In heap `h`, slot `v` reads as tree `t`. */
  ghost predicate Denotes(h: Cells, v: Slot, t: Tree)
    decreases t
  {
    if t.Arr? || t.Obj? then
      Holds(h, v, t) && forall i :: 0 <= i < |t.items| ==> Denotes(h, h[v.ref].items[i], t.items[i])
    else
      v == ScalarSlot(t)
  }

  /** The containers reachable from `v` along `t`. */
  ghost function Owned(h: Cells, v: Slot, t: Tree): set<Ref>
    decreases t
  {
    if (t.Arr? || t.Obj?) && Holds(h, v, t) then
      {v.ref} + (set i, x | 0 <= i < |t.items| && x in Owned(h, h[v.ref].items[i], t.items[i]) :: x)
    else {}
  }

  /** No container is reached twice, and none contains itself. */
  ghost predicate TreeShaped(h: Cells, v: Slot, t: Tree)
    decreases t
  {
    (t.Arr? || t.Obj?) && Holds(h, v, t) ==>
      forall i :: 0 <= i < |t.items| ==>
        TreeShaped(h, h[v.ref].items[i], t.items[i]) &&
        v.ref !in Owned(h, h[v.ref].items[i], t.items[i]) &&
        forall j :: 0 <= j < |t.items| && j != i ==>
          Owned(h, h[v.ref].items[i], t.items[i]) !! Owned(h, h[v.ref].items[j], t.items[j])
  }

  /** A merge target: reads as `t` and shares no container within itself. */
  ghost predicate Target(h: Cells, v: Slot, t: Tree) {
    Denotes(h, v, t) && TreeShaped(h, v, t)
  }

  /** Every container of `h0` outside `k` is untouched in `h1`. */
  ghost predicate AgreeOutside(h0: Cells, h1: Cells, k: set<Ref>) {
    forall x :: x in h0 && x !in k ==> x in h1 && h1[x] == h0[x]
  }

  /** Every container of `v` along `t` comes from `k` or was allocated at or after `n0`. */
  ghost predicate Within(h: Cells, v: Slot, t: Tree, k: set<Ref>, n0: nat) {
    forall x :: x in Owned(h, v, t) ==> x in k || n0 <= x
  }

  /** All references of `h` lie below `n0`. */
  ghost predicate Below(h: Cells, n0: nat) {
    forall x :: x in h ==> x < n0
  }

  lemma {:induction false} OwnedInHeap(h: Cells, v: Slot, t: Tree)
    requires Denotes(h, v, t)
    ensures forall x :: x in Owned(h, v, t) ==> x in h
    decreases t
  {
    if t.Arr? || t.Obj? {
      forall i | 0 <= i < |t.items| {
        OwnedInHeap(h, h[v.ref].items[i], t.items[i]);
      }
    }
  }

  lemma KidOwned(h: Cells, v: Slot, t: Tree, i: nat)
    requires (t.Arr? || t.Obj?) && Holds(h, v, t) && i < |t.items|
    ensures Owned(h, h[v.ref].items[i], t.items[i]) <= Owned(h, v, t)
    ensures v.ref in Owned(h, v, t)
  {
  }

  /** Reading a tree only looks at the containers it is made of. */
  lemma {:induction false} Frame(h: Cells, h': Cells, v: Slot, t: Tree)
    requires Denotes(h, v, t)
    requires forall x :: x in Owned(h, v, t) ==> x in h && x in h' && h'[x] == h[x]
    ensures Denotes(h', v, t)
    ensures Owned(h', v, t) == Owned(h, v, t)
    ensures TreeShaped(h', v, t) == TreeShaped(h, v, t)
    decreases t
  {
    if t.Arr? || t.Obj? {
      assert v.ref in Owned(h, v, t);
      var c := h[v.ref];
      assert h'[v.ref] == c;
      forall i | 0 <= i < |t.items|
        ensures Denotes(h', c.items[i], t.items[i])
        ensures Owned(h', c.items[i], t.items[i]) == Owned(h, c.items[i], t.items[i])
        ensures TreeShaped(h', c.items[i], t.items[i]) == TreeShaped(h, c.items[i], t.items[i])
      {
        KidOwned(h, v, t, i);
        Frame(h, h', c.items[i], t.items[i]);
      }
    }
  }

  /** The scalar cases of `Frame`, and more: a scalar slot reads the same in any heap. */
  lemma ScalarTarget(h: Cells, t: Tree)
    requires !t.Arr? && !t.Obj?
    ensures Target(h, ScalarSlot(t), t) && Owned(h, ScalarSlot(t), t) == {}
  {
  }

  /** Overwriting an existing container keeps the heap below `n0`. */
  lemma StoreBelow(h: Cells, a: Ref, c: Container, n0: nat)
    requires Below(h, n0) && a in h
    ensures Below(h[a := c], n0)
  {
  }

  /** Two successive rounds of changes confined to a target's containers are
      confined to the first round's footprint. */
  lemma Chain(h0: Cells, h1: Cells, h2: Cells, k0: set<Ref>, n0: nat, v: Slot, t1: Tree, n1: nat, t2: Tree)
    requires Below(h0, n0) && n0 <= n1
    requires AgreeOutside(h0, h1, k0) && Within(h1, v, t1, k0, n0)
    requires AgreeOutside(h1, h2, Owned(h1, v, t1)) && Within(h2, v, t2, Owned(h1, v, t1), n1)
    ensures AgreeOutside(h0, h2, k0) && Within(h2, v, t2, k0, n0)
  {
  }

  /** A tree outside the changed containers reads as before. */
  lemma Untouched(h0: Cells, h: Cells, v: Slot, t: Tree, k0: set<Ref>)
    requires Denotes(h0, v, t) && Owned(h0, v, t) !! k0 && AgreeOutside(h0, h, k0)
    ensures Denotes(h, v, t) && Owned(h, v, t) == Owned(h0, v, t)
    ensures TreeShaped(h, v, t) == TreeShaped(h0, v, t)
  {
    OwnedInHeap(h0, v, t);
    Frame(h0, h, v, t);
  }

  /** A fresh `[]` or `{}`. */
  lemma EmptyTarget(h: Cells, a: Ref, e: Tree)
    requires e == Arr([]) || e == Obj([], [])
    requires a in h && h[a] == if e.Arr? then ArrC([]) else ObjC([], [])
    ensures Target(h, SRef(a), e) && Owned(h, SRef(a), e) == {a}
  {
  }

  /** A container whose children are targets with pairwise disjoint footprints
      that leave it out is a target. */
  lemma ShapedKids(h: Cells, v: Slot, t: Tree)
    requires (t.Arr? || t.Obj?) && Holds(h, v, t)
    requires forall j :: 0 <= j < |t.items| ==>
      && TreeShaped(h, h[v.ref].items[j], t.items[j])
      && v.ref !in Owned(h, h[v.ref].items[j], t.items[j])
      && forall l :: 0 <= l < |t.items| && l != j ==>
           Owned(h, h[v.ref].items[j], t.items[j]) !! Owned(h, h[v.ref].items[l], t.items[l])
    ensures TreeShaped(h, v, t)
  {
  }

  /** A container whose children are all within `k` or fresh is itself, when
      it belongs to `k`. */
  lemma WithinKids(h: Cells, v: Slot, t: Tree, k: set<Ref>, n0: nat)
    requires (t.Arr? || t.Obj?) && Holds(h, v, t) && v.ref in k
    requires forall j :: 0 <= j < |t.items| ==> Within(h, h[v.ref].items[j], t.items[j], k, n0)
    ensures Within(h, v, t, k, n0)
  {
  }

  /** `ReplaceKid` for a child `j` other than the replaced one: it keeps its
      reading and its containers. */
  lemma OtherKid(h: Cells, v: Slot, t: Tree, i: nat, k: set<Ref>, h2: Cells, c': Container, t': Tree, j: nat)
    requires (t.Arr? || t.Obj?) && Target(h, v, t)
    requires k == if i < |t.items| then Owned(h, h[v.ref].items[i], t.items[i]) else {}
    requires AgreeOutside(h, h2, k)
    requires (t'.Arr? || t'.Obj?) && |c'.items| == |t'.items| && j < |t'.items| && j != i
    requires if j < |t.items| then c'.items[j] == h[v.ref].items[j] && t'.items[j] == t.items[j]
             else c'.items[j] == SUndef && t'.items[j] == Undef
    ensures var h3 := h2[v.ref := c'];
      && Target(h3, c'.items[j], t'.items[j])
      && Owned(h3, c'.items[j], t'.items[j]) == (if j < |t.items| then Owned(h, h[v.ref].items[j], t.items[j]) else {})
    ensures j < |t.items| ==> v.ref !in Owned(h, h[v.ref].items[j], t.items[j]) && Owned(h, h[v.ref].items[j], t.items[j]) !! k
    ensures j < |t.items| ==> Owned(h, h[v.ref].items[j], t.items[j]) <= Owned(h, v, t)
  {
    var c := h[v.ref];
    if j < |t.items| {
      var oj := Owned(h, c.items[j], t.items[j]);
      KidOwned(h, v, t, j);
      assert v.ref !in oj;
      assert oj !! k by {
        if i < |t.items| {
          assert Owned(h, c.items[i], t.items[i]) !! oj;
        }
      }
      OwnedInHeap(h, v, t);
      assert Denotes(h, c.items[j], t.items[j]);
      assert TreeShaped(h, c.items[j], t.items[j]);
      Frame(h, h2[v.ref := c'], c.items[j], t.items[j]);
    } else {
      ScalarTarget(h2[v.ref := c'], Undef);
    }
  }

  /** Replacing or adding child `i` of the container at `v`. The old tree `t` is
      read in `h`; `h2` differs from `h` only inside the old child's containers
      `k`; the new child `w` reads as `u` in `h2` and is made of old child
      containers and ones allocated at or after `n0`. Storing container `c'`
      at `v` then yields a target for `t'`. */
  lemma {:induction false} ReplaceKid(h: Cells, v: Slot, t: Tree, i: nat, k: set<Ref>,
                                      h2: Cells, w: Slot, u: Tree, c': Container, t': Tree, n0: nat)
    requires Below(h, n0)
    requires (t.Arr? || t.Obj?) && Target(h, v, t)
    requires k == if i < |t.items| then Owned(h, h[v.ref].items[i], t.items[i]) else {}
    requires AgreeOutside(h, h2, k)
    requires Target(h2, w, u) && Within(h2, w, u, k, n0)
    requires t'.Arr? == t.Arr? && t'.Obj? == t.Obj?
    requires t'.Arr? ==> c'.ArrC?
    requires t'.Obj? ==> c'.ObjC? && c'.keys == t'.keys
    requires |c'.items| == |t'.items| && i < |t'.items|
    requires c'.items[i] == w && t'.items[i] == u
    requires forall j :: 0 <= j < |t'.items| && j != i ==>
               if j < |t.items| then c'.items[j] == h[v.ref].items[j] && t'.items[j] == t.items[j]
               else c'.items[j] == SUndef && t'.items[j] == Undef
    ensures Target(h2[v.ref := c'], v, t')
    ensures Within(h2[v.ref := c'], v, t', Owned(h, v, t), n0)
    ensures AgreeOutside(h, h2[v.ref := c'], Owned(h, v, t))
  {
    var a := v.ref;
    var h3 := h2[a := c'];
    var c := h[a];
    assert a in h;
    assert a !in k by {
      if i < |t.items| {
        assert a !in Owned(h, c.items[i], t.items[i]);
      }
    }
    // The new child keeps its reading once `a` is overwritten.
    assert a !in Owned(h2, w, u);
    OwnedInHeap(h2, w, u);
    Frame(h2, h3, w, u);
    // Every other child is untouched.
    forall j | 0 <= j < |t'.items| && j != i
      ensures Target(h3, c'.items[j], t'.items[j])
      ensures Owned(h3, c'.items[j], t'.items[j]) == if j < |t.items| then Owned(h, c.items[j], t.items[j]) else {}
      ensures j < |t.items| ==> a !in Owned(h, c.items[j], t.items[j]) && Owned(h, c.items[j], t.items[j]) !! k
      ensures j < |t.items| ==> Owned(h, c.items[j], t.items[j]) <= Owned(h, v, t)
    {
      OtherKid(h, v, t, i, k, h2, c', t', j);
    }
    OwnedInHeap(h, v, t);
    OwnedInHeap(h2, w, u);
    // Reading: the container at `a` now holds `c'`.
    assert Holds(h3, v, t');
    assert Denotes(h3, v, t');
    // Shape: the new child is disjoint from the others and does not hold `a`.
    forall j | 0 <= j < |t'.items|
      ensures TreeShaped(h3, c'.items[j], t'.items[j])
      ensures a !in Owned(h3, c'.items[j], t'.items[j])
      ensures forall l :: 0 <= l < |t'.items| && l != j ==>
                Owned(h3, c'.items[j], t'.items[j]) !! Owned(h3, c'.items[l], t'.items[l])
    {
      forall l | 0 <= l < |t'.items| && l != j
        ensures Owned(h3, c'.items[j], t'.items[j]) !! Owned(h3, c'.items[l], t'.items[l])
      {
        if j != i && l != i && j < |t.items| && l < |t.items| {
          assert Owned(h, c.items[j], t.items[j]) !! Owned(h, c.items[l], t.items[l]);
        }
      }
    }
    ShapedKids(h3, v, t');
    // Footprint: old containers of `t` and fresh ones.
    forall j | 0 <= j < |t'.items|
      ensures Within(h3, c'.items[j], t'.items[j], Owned(h, v, t), n0)
    {
      if j == i && i < |t.items| { KidOwned(h, v, t, i); }
    }
    assert a in Owned(h, v, t);
    WithinKids(h3, v, t', Owned(h, v, t), n0);
  }
}
