/** Reference counting as done by CefRefCount and IMPLEMENT_REFCOUNTING, seen as a protocol
    between any number of threads.

    A world holds the count of every allocated object and every smart pointer variable.  A smart
    pointer variable is held by a thread, is a field of an object, or is a field of an object that
    has been deleted and whose pointer the deleting thread still owes a Release (the destructor
    of the enclosing object has started, the destructor of the field has not).

    A copy of a pointer belongs to the copying thread, or to another one if it is bound into a task
    for that thread; the copying thread performs the AddRef in either case.

    An action is enabled when its thread possesses what the code uses: a pointer variable, a raw
    pointer fresh from `new`, or a Release that returned true.  Nothing in an action checks that
    the object it touches still exists; touching a deleted object leads to `Fault`.  */
module RefCounting {

  type Thread = nat
  type Obj = nat
  type VarId = nat

  datatype Owner = Local(t: Thread) | Field(o: Obj) | Owed(d: Thread)

  datatype Ptr = Ptr(owner: Owner, target: Obj)

  datatype World =
    | World(
        counts: map<Obj, int>,        // ref_count_ of every object allocated and not deleted
        deleted: set<Obj>,
        vars: map<VarId, Ptr>,
        raw: set<(Thread, Obj)>,      // results of `new` not yet put into a smart pointer
        doomed: set<(Thread, Obj)>)   // counts that reached 0, with the thread that will delete
    | Fault                           // a deleted object was touched

  datatype Action =
    | New(t: Thread, o: Obj)
    | FirstRef(t: Thread, o: Obj, v: VarId)
    | Copy(t: Thread, src: VarId, to: Thread, v: VarId)
    | MoveIn(t: Thread, v: VarId, o: Obj)
    | MoveOut(t: Thread, v: VarId)
    | Swap(t: Thread, u: VarId, v: VarId)
    | Drop(t: Thread, v: VarId)
    | Delete(t: Thread, o: Obj)

  const Init: World := World(map[], {}, map[], {}, {})

  predicate Holds(w: World, t: Thread, o: Obj)
    requires w.World?
  {
    exists v :: v in w.vars && w.vars[v] == Ptr(Local(t), o)
  }

  // Thread t can reach variable v: it is its own, or a field of an object it holds.
  predicate CanUse(w: World, t: Thread, v: VarId)
    requires w.World?
  {
    v in w.vars &&
    (w.vars[v].owner == Local(t) || (w.vars[v].owner.Field? && Holds(w, t, w.vars[v].owner.o)))
  }

  predicate Enabled(w: World, a: Action) {
    w.World? &&
    match a
    case New(t, o) => o !in w.counts && o !in w.deleted
    case FirstRef(t, o, v) => (t, o) in w.raw && v !in w.vars
    case Copy(t, src, to, v) => CanUse(w, t, src) && v !in w.vars
    case MoveIn(t, v, o) => v in w.vars && w.vars[v].owner == Local(t) && Holds(w, t, o)
    case MoveOut(t, v) => CanUse(w, t, v) && w.vars[v].owner.Field?
    case Swap(t, u, v) => CanUse(w, t, u) && CanUse(w, t, v)
    case Drop(t, v) => v in w.vars && w.vars[v].owner in {Local(t), Owed(t)}
    case Delete(t, o) => (t, o) in w.doomed
  }

  // What a thread may do: create anything new, copy and exchange whatever it holds or finds in an
  // object it holds, store its pointers in such an object and take them out, and drop its own.
  lemma {:induction false} HoldersMay(w: World, t: Thread)
    requires w.World?
    ensures forall o :: o !in w.counts && o !in w.deleted ==> Enabled(w, New(t, o))
    ensures forall o, v :: (t, o) in w.raw && v !in w.vars ==> Enabled(w, FirstRef(t, o, v))
    ensures forall v :: v in w.vars && w.vars[v].owner == Local(t) ==> CanUse(w, t, v) && Enabled(w, Drop(t, v))
    ensures forall v, o :: v in w.vars && w.vars[v].owner == Field(o) && Holds(w, t, o) ==>
      CanUse(w, t, v) && Enabled(w, MoveOut(t, v))
    ensures forall u, v :: CanUse(w, t, u) && CanUse(w, t, v) ==> Enabled(w, Swap(t, u, v))
    ensures forall u, to, v :: CanUse(w, t, u) && v !in w.vars ==> Enabled(w, Copy(t, u, to, v))
    ensures forall v, o :: v in w.vars && w.vars[v].owner == Local(t) && Holds(w, t, o) ==> Enabled(w, MoveIn(t, v, o))
  {
  }

  // The objects whose memory the action reads or writes.
  function Touched(w: World, a: Action): set<Obj>
    requires Enabled(w, a)
  {
    match a
    case New(t, o) => {}
    case FirstRef(t, o, v) => {o}
    case Copy(t, src, to, v) => {w.vars[src].target} + Enclosing(w.vars[src].owner)
    case MoveIn(t, v, o) => {o}
    case MoveOut(t, v) => Enclosing(w.vars[v].owner)
    case Swap(t, u, v) => Enclosing(w.vars[u].owner) + Enclosing(w.vars[v].owner)
    case Drop(t, v) => {w.vars[v].target}
    case Delete(t, o) => {o}
  }

  function Enclosing(owner: Owner): set<Obj> {
    if owner.Field? then {owner.o} else {}
  }

  // The destructor of o hands the fields of o to the deleting thread.
  function Destruct(vars: map<VarId, Ptr>, t: Thread, o: Obj): map<VarId, Ptr> {
    map v | v in vars :: if vars[v].owner == Field(o) then Ptr(Owed(t), vars[v].target) else vars[v]
  }

  // scoped_refptr::swap
  function Swapped(vars: map<VarId, Ptr>, u: VarId, v: VarId): map<VarId, Ptr>
    requires u in vars && v in vars
  {
    vars[u := vars[u].(target := vars[v].target)][v := vars[v].(target := vars[u].target)]
  }

  function Apply(w: World, a: Action): World
    requires Enabled(w, a)
  {
    if !(Touched(w, a) <= w.counts.Keys) then Fault else
    match a
    case New(t, o) => w.(counts := w.counts[o := 0], raw := w.raw + {(t, o)})
    case FirstRef(t, o, v) =>
      w.(counts := w.counts[o := w.counts[o] + 1], raw := w.raw - {(t, o)},
         vars := w.vars[v := Ptr(Local(t), o)])
    case Copy(t, src, to, v) =>
      var x := w.vars[src].target;
      w.(counts := w.counts[x := w.counts[x] + 1], vars := w.vars[v := Ptr(Local(to), x)])
    case MoveIn(t, v, o) => w.(vars := w.vars[v := Ptr(Field(o), w.vars[v].target)])
    case MoveOut(t, v) => w.(vars := w.vars[v := Ptr(Local(t), w.vars[v].target)])
    case Swap(t, u, v) => w.(vars := Swapped(w.vars, u, v))
    case Drop(t, v) =>
      var x := w.vars[v].target;
      w.(counts := w.counts[x := w.counts[x] - 1], vars := w.vars - {v},
         doomed := if ReleaseReturnsTrue(w, v) then w.doomed + {(t, x)} else w.doomed)
    case Delete(t, o) =>
      w.(counts := w.counts - {o}, deleted := w.deleted + {o}, doomed := w.doomed - {(t, o)},
         vars := Destruct(w.vars, t, o))
  }

  // CefRefCount::Release: the decremented count is zero.
  predicate ReleaseReturnsTrue(w: World, v: VarId)
    requires w.World? && v in w.vars && w.vars[v].target in w.counts
  {
    w.counts[w.vars[v].target] - 1 == 0
  }

  // ---------- the invariant ----------

  function PtrsTo(vars: map<VarId, Ptr>, o: Obj): set<VarId> {
    set v | v in vars && vars[v].target == o
  }

  // Pointers point to what exists, and every count is the number of pointers to the object.
  ghost predicate CountsInv(w: World) {
    && w.World?
    && w.counts.Keys !! w.deleted
    && (forall v :: v in w.vars ==> w.vars[v].target in w.counts && Enclosing(w.vars[v].owner) <= w.counts.Keys)
    && (forall o :: o in w.counts ==> w.counts[o] == |PtrsTo(w.vars, o)|)
  }

  // The objects whose count is zero are those waiting for their creator or for their deleter, and
  // each of them waits for one thread, once.
  ghost predicate WaitingInv(w: World) {
    && w.World?
    && (forall p :: p in w.raw + w.doomed ==> p.1 in w.counts && w.counts[p.1] == 0)
    && (forall p, q :: p in w.raw + w.doomed && q in w.raw + w.doomed && p.1 == q.1 ==> p == q)
    && w.raw !! w.doomed
    && (forall o :: o in w.counts && w.counts[o] == 0 ==> exists t :: (t, o) in w.raw + w.doomed)
  }

  ghost predicate Inv(w: World) {
    CountsInv(w) && WaitingInv(w)
  }

  // An action that its thread may perform never touches a deleted object.
  lemma {:induction false} NoUseAfterDelete(w: World, a: Action)
    requires Inv(w) && Enabled(w, a)
    ensures Touched(w, a) <= w.counts.Keys && Touched(w, a) !! w.deleted
    ensures Apply(w, a) != Fault
  {
    match a
    case MoveIn(t, v, o) =>
      var u :| u in w.vars && w.vars[u] == Ptr(Local(t), o);
    case _ =>
  }

  predicate IsField(vars: map<VarId, Ptr>, v: VarId, x: Obj) {
    v in vars && vars[v].owner == Field(x)
  }

  ghost predicate SameFields(vars: map<VarId, Ptr>, vars': map<VarId, Ptr>, x: Obj) {
    forall v :: (IsField(vars, v, x) <==> IsField(vars', v, x)) && (IsField(vars, v, x) ==> vars'[v] == vars[v])
  }

  lemma NothingChanges(vars: map<VarId, Ptr>, x: Obj)
    ensures SameFields(vars, vars, x)
  {
  }

  lemma UpdateKeepsFields(vars: map<VarId, Ptr>, v: VarId, p: Ptr, x: Obj)
    requires !IsField(vars, v, x) && p.owner != Field(x)
    ensures SameFields(vars, vars[v := p], x)
  {
  }

  lemma OtherStepsKeepFields(vars: map<VarId, Ptr>, t: Thread, u: VarId, v: VarId, o: Obj, x: Obj)
    ensures !IsField(vars, v, x) ==> SameFields(vars, vars - {v}, x)
    ensures o != x ==> SameFields(vars, Destruct(vars, t, o), x)
    ensures u in vars && v in vars && !IsField(vars, u, x) && !IsField(vars, v, x) ==>
      SameFields(vars, Swapped(vars, u, v), x)
  {
    if u in vars && v in vars {
      SwappedAt(vars, u, v);
      hide Swapped;
    }
  }

  // Touched leaves nothing out: the count and the fields of any other object stay as they are, and
  // no field of it is read.
  lemma {:induction false} TouchedIsComplete(w: World, a: Action, x: Obj)
    requires Inv(w) && Enabled(w, a) && x !in Touched(w, a)
    ensures Apply(w, a).World? && SameFields(w.vars, Apply(w, a).vars, x)
    ensures x in w.counts ==> x in Apply(w, a).counts && Apply(w, a).counts[x] == w.counts[x]
    ensures a.Copy? ==> !IsField(w.vars, a.src, x)
  {
    NoUseAfterDelete(w, a);
    hide Inv, Holds, SameFields, Destruct, Swapped, ReleaseReturnsTrue;
    match a
    case New(_, _) => NothingChanges(w.vars, x);
    case FirstRef(t, o, v) => UpdateKeepsFields(w.vars, v, Ptr(Local(t), o), x);
    case Copy(t, src, to, v) => UpdateKeepsFields(w.vars, v, Ptr(Local(to), w.vars[src].target), x);
    case MoveIn(t, v, o) => UpdateKeepsFields(w.vars, v, Ptr(Field(o), w.vars[v].target), x);
    case MoveOut(t, v) => UpdateKeepsFields(w.vars, v, Ptr(Local(t), w.vars[v].target), x);
    case Swap(t, u, v) => OtherStepsKeepFields(w.vars, t, u, v, x, x);
    case Drop(t, v) => OtherStepsKeepFields(w.vars, t, v, v, x, x);
    case Delete(t, o) => OtherStepsKeepFields(w.vars, t, 0, 0, o, x);
  }

  lemma CountAfterAdd(vars: map<VarId, Ptr>, v: VarId, p: Ptr, o: Obj)
    requires v !in vars
    ensures |PtrsTo(vars[v := p], o)| == |PtrsTo(vars, o)| + if p.target == o then 1 else 0
  {
    assert PtrsTo(vars[v := p], o) == PtrsTo(vars, o) + if p.target == o then {v} else {};
  }

  lemma CountAfterRemove(vars: map<VarId, Ptr>, v: VarId, o: Obj)
    requires v in vars
    ensures |PtrsTo(vars - {v}, o)| == |PtrsTo(vars, o)| - if vars[v].target == o then 1 else 0
  {
    assert PtrsTo(vars - {v}, o) == PtrsTo(vars, o) - if vars[v].target == o then {v} else {};
  }

  lemma SameTargetsSameCount(vars: map<VarId, Ptr>, vars': map<VarId, Ptr>, o: Obj)
    requires vars.Keys == vars'.Keys && forall v :: v in vars ==> vars[v].target == vars'[v].target
    ensures PtrsTo(vars, o) == PtrsTo(vars', o)
  {
  }

  lemma HasCount(w: World, v: VarId)
    requires CountsInv(w) && v in w.vars
    ensures w.counts[w.vars[v].target] >= 1
  {
    assert v in PtrsTo(w.vars, w.vars[v].target);
  }

  lemma HeldHasCount(w: World, v: VarId)
    requires Inv(w) && v in w.vars
    ensures w.counts[w.vars[v].target] >= 1
  {
    HasCount(w, v);
  }

  lemma {:induction false} StepKeepsInv(w: World, a: Action)
    requires Inv(w) && Enabled(w, a)
    ensures Inv(Apply(w, a))
  {
    NoUseAfterDelete(w, a);
    match a
    case New(t, o) => NewKeepsInv(w, t, o);
    case FirstRef(t, o, v) => FirstRefKeepsInv(w, t, o, v);
    case Copy(t, src, to, v) => CopyKeepsInv(w, t, src, to, v);
    case MoveIn(t, v, o) => MoveKeepsInv(w, a, v);
    case MoveOut(t, v) => MoveKeepsInv(w, a, v);
    case Swap(t, u, v) => SwapKeepsInv(w, t, u, v);
    case Drop(t, v) => DropKeepsInv(w, t, v);
    case Delete(t, o) => DeleteKeepsInv(w, t, o);
  }

  lemma NewKeepsInv(w: World, t: Thread, o: Obj)
    requires Inv(w) && Enabled(w, New(t, o))
    ensures Inv(Apply(w, New(t, o)))
  {
    var w' := Apply(w, New(t, o));
    assert CountsInv(w') by {
      assert PtrsTo(w.vars, o) == {};
      hide WaitingInv;
    }
    hide CountsInv;
    assert (t, o) in w'.raw;
    KeepsWaiting(w, w', t, o);
  }

  // Only object o starts or stops waiting; if it waits afterwards, it waits for t.
  lemma KeepsWaiting(w: World, w': World, t: Thread, o: Obj)
    requires WaitingInv(w) && w'.World? && w'.raw !! w'.doomed
    requires forall y :: y != o ==> (y in w.counts <==> y in w'.counts)
    requires forall y :: y != o && y in w.counts ==> (w.counts[y] == 0 <==> w'.counts[y] == 0)
    requires forall p: (Thread, Obj) :: p.1 != o ==> (p in w.raw + w.doomed <==> p in w'.raw + w'.doomed)
    requires forall p :: p in w'.raw + w'.doomed && p.1 == o ==> p == (t, o) && o in w'.counts && w'.counts[o] == 0
    requires o in w'.counts && w'.counts[o] == 0 ==> (t, o) in w'.raw + w'.doomed
    ensures WaitingInv(w')
  {
    forall y | y in w'.counts && w'.counts[y] == 0 ensures exists d :: (d, y) in w'.raw + w'.doomed {
      if y == o {
        assert (t, o) in w'.raw + w'.doomed;
      } else {
        var d :| (d, y) in w.raw + w.doomed;
        assert (d, y) in w'.raw + w'.doomed;
      }
    }
  }

  // An object that has a pointer to it waits for nobody.
  lemma HeldDoesNotWait(w: World, v: VarId)
    requires Inv(w) && v in w.vars
    ensures w.counts[w.vars[v].target] >= 1
    ensures forall p :: p in w.raw + w.doomed ==> p.1 != w.vars[v].target
  {
    HeldHasCount(w, v);
  }

  lemma FirstRefKeepsInv(w: World, t: Thread, o: Obj, v: VarId)
    requires Inv(w) && Enabled(w, FirstRef(t, o, v)) && o in w.counts
    ensures Inv(Apply(w, FirstRef(t, o, v)))
  {
    var w' := Apply(w, FirstRef(t, o, v));
    assert (t, o) in w.raw + w.doomed;
    assert CountsInv(w') by {
      hide WaitingInv;
      forall x ensures |PtrsTo(w'.vars, x)| == |PtrsTo(w.vars, x)| + if x == o then 1 else 0 {
        CountAfterAdd(w.vars, v, Ptr(Local(t), o), x);
      }
    }
    hide CountsInv;
    KeepsWaiting(w, w', t, o);
  }

  lemma CopyKeepsInv(w: World, t: Thread, src: VarId, to: Thread, v: VarId)
    requires Inv(w) && Enabled(w, Copy(t, src, to, v)) && Apply(w, Copy(t, src, to, v)) != Fault
    ensures Inv(Apply(w, Copy(t, src, to, v)))
  {
    var w', x := Apply(w, Copy(t, src, to, v)), w.vars[src].target;
    HeldDoesNotWait(w, src);
    hide CountsInv;
    CopyKeepsCounts(w, t, src, to, v);
    KeepsWaiting(w, w', t, x);
  }

  lemma CopyKeepsCounts(w: World, t: Thread, src: VarId, to: Thread, v: VarId)
    requires CountsInv(w) && Enabled(w, Copy(t, src, to, v)) && Apply(w, Copy(t, src, to, v)) != Fault
    ensures CountsInv(Apply(w, Copy(t, src, to, v)))
  {
    var w', x := Apply(w, Copy(t, src, to, v)), w.vars[src].target;
    forall y ensures |PtrsTo(w'.vars, y)| == |PtrsTo(w.vars, y)| + if y == x then 1 else 0 {
      CountAfterAdd(w.vars, v, Ptr(Local(to), x), y);
    }
  }

  lemma MoveKeepsInv(w: World, a: Action, v: VarId)
    requires Inv(w) && Enabled(w, a) && Apply(w, a) != Fault
    requires (a.MoveIn? || a.MoveOut?) && a.v == v
    ensures Inv(Apply(w, a))
  {
    hide CountsInv;
    MoveKeepsCounts(w, a, v);
  }

  lemma MoveKeepsCounts(w: World, a: Action, v: VarId)
    requires CountsInv(w) && Enabled(w, a) && Apply(w, a) != Fault
    requires (a.MoveIn? || a.MoveOut?) && a.v == v
    ensures CountsInv(Apply(w, a))
  {
    var w' := Apply(w, a);
    var owner := if a.MoveIn? then Field(a.o) else Local(a.t);
    assert w' == w.(vars := w.vars[v := Ptr(owner, w.vars[v].target)]) && Enclosing(owner) <= w.counts.Keys;
    hide Apply, Enabled, PtrsTo;
    forall x ensures PtrsTo(w'.vars, x) == PtrsTo(w.vars, x) { SameTargetsSameCount(w.vars, w'.vars, x); }
  }

  lemma SwappedAt(vars: map<VarId, Ptr>, u: VarId, v: VarId)
    requires u in vars && v in vars
    ensures Swapped(vars, u, v).Keys == vars.Keys
    ensures forall x :: x in vars ==>
      Swapped(vars, u, v)[x] ==
        if x == u then vars[u].(target := vars[v].target)
        else if x == v then vars[v].(target := vars[u].target) else vars[x]
  {
  }

  lemma SwapKeepsCount(vars: map<VarId, Ptr>, u: VarId, v: VarId, o: Obj)
    requires u in vars && v in vars
    ensures |PtrsTo(Swapped(vars, u, v), o)| == |PtrsTo(vars, o)|
  {
    SwappedAt(vars, u, v);
    hide Swapped;
    var s, s' := PtrsTo(vars, o), PtrsTo(Swapped(vars, u, v), o);
    if vars[u].target == o && vars[v].target != o {
      assert s' == s - {u} + {v};
      Exchange(s, u, v);
    } else if vars[u].target != o && vars[v].target == o {
      assert s' == s - {v} + {u};
      Exchange(s, v, u);
    } else {
      assert s' == s;
    }
  }

  lemma Exchange(s: set<VarId>, u: VarId, v: VarId)
    requires u in s && v !in s
    ensures |s - {u} + {v}| == |s|
  {
  }

  lemma SwapKeepsInv(w: World, t: Thread, u: VarId, v: VarId)
    requires Inv(w) && Enabled(w, Swap(t, u, v)) && Apply(w, Swap(t, u, v)) != Fault
    ensures Inv(Apply(w, Swap(t, u, v)))
  {
    hide CountsInv;
    SwapKeepsCounts(w, t, u, v);
  }

  lemma SwapKeepsCounts(w: World, t: Thread, u: VarId, v: VarId)
    requires CountsInv(w) && Enabled(w, Swap(t, u, v)) && Apply(w, Swap(t, u, v)) != Fault
    ensures CountsInv(Apply(w, Swap(t, u, v)))
  {
    var w' := Apply(w, Swap(t, u, v));
    assert w' == w.(vars := Swapped(w.vars, u, v));
    SwappedAt(w.vars, u, v);
    hide PtrsTo, Holds, Swapped, Enabled, Apply;
    forall x ensures |PtrsTo(w'.vars, x)| == |PtrsTo(w.vars, x)| { SwapKeepsCount(w.vars, u, v, x); }
    forall x | x in w'.vars ensures w'.vars[x].target in w'.counts && Enclosing(w'.vars[x].owner) <= w'.counts.Keys {
      assert x in w.vars && u in w.vars && v in w.vars;
    }
  }

  lemma DropKeepsInv(w: World, t: Thread, v: VarId)
    requires Inv(w) && Enabled(w, Drop(t, v)) && Apply(w, Drop(t, v)) != Fault
    ensures Inv(Apply(w, Drop(t, v)))
  {
    var w', x := Apply(w, Drop(t, v)), w.vars[v].target;
    HeldDoesNotWait(w, v);
    hide CountsInv;
    DropKeepsCounts(w, t, v);
    KeepsWaiting(w, w', t, x);
  }

  lemma DropKeepsCounts(w: World, t: Thread, v: VarId)
    requires CountsInv(w) && Enabled(w, Drop(t, v)) && Apply(w, Drop(t, v)) != Fault
    ensures CountsInv(Apply(w, Drop(t, v)))
  {
    var w', x := Apply(w, Drop(t, v)), w.vars[v].target;
    forall y ensures |PtrsTo(w'.vars, y)| == |PtrsTo(w.vars, y)| - if y == x then 1 else 0 {
      CountAfterRemove(w.vars, v, y);
    }
  }

  lemma DeleteKeepsInv(w: World, t: Thread, o: Obj)
    requires Inv(w) && Enabled(w, Delete(t, o)) && Apply(w, Delete(t, o)) != Fault
    ensures Inv(Apply(w, Delete(t, o)))
  {
    var w' := Apply(w, Delete(t, o));
    assert (t, o) in w.raw + w.doomed && w.counts[o] == 0;
    hide CountsInv;
    DeleteKeepsCounts(w, t, o);
    KeepsWaiting(w, w', t, o);
  }

  lemma DeleteKeepsCounts(w: World, t: Thread, o: Obj)
    requires CountsInv(w) && Enabled(w, Delete(t, o)) && o in w.counts && w.counts[o] == 0
    ensures CountsInv(Apply(w, Delete(t, o)))
  {
    var w' := Apply(w, Delete(t, o));
    forall v | v in w.vars ensures w.vars[v].target != o { HasCount(w, v); }
    forall x ensures PtrsTo(w'.vars, x) == PtrsTo(w.vars, x) { SameTargetsSameCount(w.vars, w'.vars, x); }
  }

  // ---------- runs: any interleaving of any number of threads ----------

  predicate ValidRun(w: World, run: seq<Action>)
    decreases |run|
  {
    run == [] || (Enabled(w, run[0]) && ValidRun(Apply(w, run[0]), run[1..]))
  }

  function Run(w: World, run: seq<Action>): World
    requires ValidRun(w, run)
    decreases |run|
  {
    if run == [] then w else Run(Apply(w, run[0]), run[1..])
  }

  lemma NoStep(w: World)
    ensures ValidRun(w, []) && Run(w, []) == w
  {
  }

  lemma {:induction false} RunStep(w: World, a: Action, w': World, rest: seq<Action>, last: World)
    requires Enabled(w, a) && Apply(w, a) == w' && ValidRun(w', rest) && Run(w', rest) == last
    ensures ValidRun(w, [a] + rest) && Run(w, [a] + rest) == last
  {
    assert ([a] + rest)[1..] == rest;
  }

  // What happened to one object during a run.
  datatype History = History(addRefs: nat, releases: nat, trueReleases: nat, deletes: nat)

  function Record(h: History, w: World, a: Action, o: Obj): History
    requires Enabled(w, a)
  {
    match a
    case FirstRef(_, x, _) => if x == o then h.(addRefs := h.addRefs + 1) else h
    case Copy(_, src, _, _) => if w.vars[src].target == o then h.(addRefs := h.addRefs + 1) else h
    case Drop(_, v) =>
      if w.vars[v].target != o then h
      else if o in w.counts && ReleaseReturnsTrue(w, v)
      then h.(releases := h.releases + 1, trueReleases := h.trueReleases + 1)
      else h.(releases := h.releases + 1)
    case Delete(_, x) => if x == o then h.(deletes := h.deletes + 1) else h
    case _ => h
  }

  function HistoryOf(h: History, w: World, run: seq<Action>, o: Obj): History
    requires ValidRun(w, run)
    decreases |run|
  {
    if run == [] then h else HistoryOf(Record(h, w, run[0], o), Apply(w, run[0]), run[1..], o)
  }

  const NoHistory := History(0, 0, 0, 0)

  ghost predicate WaitsIn(s: set<(Thread, Obj)>, o: Obj) {
    exists t :: (t, o) in s
  }

  ghost predicate HistoryFits(w: World, h: History, o: Obj)
    requires w.World?
  {
    if o in w.counts then
      && w.counts[o] == h.addRefs - h.releases
      && h.deletes == 0
      && h.trueReleases == (if WaitsIn(w.doomed, o) then 1 else 0)
      && (WaitsIn(w.raw, o) <==> h.addRefs == 0)
    else if o in w.deleted then
      h.addRefs == h.releases && h.addRefs >= 1 && h.trueReleases == 1 && h.deletes == 1
    else
      h == NoHistory
  }

  lemma WaitsAdd(s: set<(Thread, Obj)>, t: Thread, x: Obj, o: Obj)
    ensures WaitsIn(s + {(t, x)}, o) <==> WaitsIn(s, o) || x == o
  {
    assert (t, x) in s + {(t, x)};
    if WaitsIn(s, o) {
      var d :| (d, o) in s;
      assert (d, o) in s + {(t, x)};
    }
  }

  lemma WaitsRemove(s: set<(Thread, Obj)>, t: Thread, x: Obj, o: Obj)
    requires (t, x) in s && forall p, q :: p in s && q in s && p.1 == q.1 ==> p == q
    ensures WaitsIn(s - {(t, x)}, o) <==> WaitsIn(s, o) && x != o
  {
    if WaitsIn(s, o) && x != o {
      var d :| (d, o) in s;
      assert (d, o) in s - {(t, x)};
    }
  }

  // What Inv says about one waiting object.
  lemma WaitingFacts(w: World, o: Obj)
    requires Inv(w)
    ensures WaitsIn(w.raw, o) || WaitsIn(w.doomed, o) <==> o in w.counts && w.counts[o] == 0
    ensures !(WaitsIn(w.raw, o) && WaitsIn(w.doomed, o))
    ensures o in w.counts ==> o !in w.deleted
    ensures forall p, q :: p in w.raw && q in w.raw && p.1 == q.1 ==> p == q
    ensures forall p, q :: p in w.doomed && q in w.doomed && p.1 == q.1 ==> p == q
  {
    hide CountsInv;
    if o in w.counts && w.counts[o] == 0 {
      var t :| (t, o) in w.raw + w.doomed;
      assert (t, o) in w.raw || (t, o) in w.doomed;
    }
    assert CountsInv(w) && (o in w.counts ==> o !in w.deleted) by { Disjoint(w); }
    assert forall p :: p in w.raw ==> p in w.raw + w.doomed;
    assert forall p :: p in w.doomed ==> p in w.raw + w.doomed;
  }

  lemma Disjoint(w: World)
    requires CountsInv(w)
    ensures forall o :: o in w.counts ==> o !in w.deleted
  {
  }

  lemma AddRefFits(w: World, h: History, a: Action, o: Obj)
    requires Inv(w) && Enabled(w, a) && HistoryFits(w, h, o) && Apply(w, a).World?
    requires a.FirstRef? || a.Copy?
    ensures HistoryFits(Apply(w, a), Record(h, w, a, o), o)
  {
    WaitingFacts(w, o);
    if a.FirstRef? {
      WaitsRemove(w.raw, a.t, a.o, o);
    } else {
      HeldHasCount(w, a.src);
    }
    hide Inv, WaitsIn;
  }

  lemma DropFits(w: World, h: History, a: Action, o: Obj)
    requires Inv(w) && Enabled(w, a) && HistoryFits(w, h, o) && Apply(w, a).World? && a.Drop?
    ensures HistoryFits(Apply(w, a), Record(h, w, a, o), o)
  {
    WaitingFacts(w, o);
    HeldHasCount(w, a.v);
    WaitsAdd(w.doomed, a.t, w.vars[a.v].target, o);
    hide Inv, WaitsIn;
  }

  lemma DeleteFits(w: World, h: History, a: Action, o: Obj)
    requires Inv(w) && Enabled(w, a) && HistoryFits(w, h, o) && Apply(w, a).World? && a.Delete?
    ensures HistoryFits(Apply(w, a), Record(h, w, a, o), o)
  {
    WaitingFacts(w, o);
    WaitsRemove(w.doomed, a.t, a.o, o);
    assert WaitsIn(w.doomed, a.o);
    hide Inv, WaitsIn;
  }

  lemma StepFits(w: World, h: History, a: Action, o: Obj)
    requires Inv(w) && Enabled(w, a) && HistoryFits(w, h, o)
    ensures Apply(w, a).World? && HistoryFits(Apply(w, a), Record(h, w, a, o), o)
  {
    NoUseAfterDelete(w, a);
    match a {
      case New(t, x) =>
        WaitingFacts(w, o);
        WaitsAdd(w.raw, t, x, o);
      case Copy(_, _, _, _) => AddRefFits(w, h, a, o);
      case FirstRef(_, _, _) => AddRefFits(w, h, a, o);
      case Drop(_, _) => DropFits(w, h, a, o);
      case Delete(_, _) => DeleteFits(w, h, a, o);
      case _ =>
    }
    hide Inv, WaitsIn;
  }

  // Main result for interleavings: no run reaches Fault, and in every reachable world the count of
  // every object is the number of smart pointers to it and AddRefs minus Releases; a deleted
  // object was deleted once, after exactly one Release that returned true.
  lemma {:induction false} EveryRunIsSafe(w: World, run: seq<Action>, o: Obj, h: History)
    requires Inv(w) && ValidRun(w, run) && HistoryFits(w, h, o)
    ensures Inv(Run(w, run)) && HistoryFits(Run(w, run), HistoryOf(h, w, run, o), o)
    decreases |run|
  {
    if run != [] {
      StepKeepsInv(w, run[0]);
      StepFits(w, h, run[0], o);
      EveryRunIsSafe(Apply(w, run[0]), run[1..], o, Record(h, w, run[0], o));
    }
  }

  lemma {:induction false} RunFromStart(run: seq<Action>, o: Obj)
    requires ValidRun(Init, run)
    ensures
      var w, h := Run(Init, run), HistoryOf(NoHistory, Init, run, o);
      && w.World?
      && h.deletes <= h.trueReleases <= 1
      && (h.deletes == 1 <==> o in w.deleted)
      && (o in w.counts ==> w.counts[o] == |PtrsTo(w.vars, o)| == h.addRefs - h.releases)
      && (o in w.deleted ==> h.trueReleases == 1 && PtrsTo(w.vars, o) == {} && h.addRefs == h.releases)
      // dropping the last pointer does lead to deletion: an object that was ever referenced and has
      // no pointer left is gone or has been claimed by the one thread that will delete it
      && (h.addRefs > 0 && PtrsTo(w.vars, o) == {} ==> o in w.deleted || WaitsIn(w.doomed, o))
  {
    EveryRunIsSafe(Init, run, o, NoHistory);
    var w := Run(Init, run);
    assert o in w.deleted ==> forall v :: v in w.vars ==> w.vars[v].target != o;
  }

  // ---------- sharing between threads ----------

  lemma {:induction false} RunAppend(w: World, run: seq<Action>, a: Action)
    requires ValidRun(w, run) && Enabled(Run(w, run), a)
    ensures ValidRun(w, run + [a]) && Run(w, run + [a]) == Apply(Run(w, run), a)
    decreases |run|
  {
    hide Enabled, Apply;
    if run == [] {
      assert run + [a] == [a] + [];
      NoStep(Apply(w, a));
      RunStep(w, a, Apply(w, a), [], Apply(w, a));
    } else {
      RunAppend(Apply(w, run[0]), run[1..], a);
      assert (run + [a])[1..] == run[1..] + [a];
    }
  }

  // The runs include those in which any number of threads share an object: thread 0 creates it and
  // posts it to the others.  After that every count is contended.
  lemma {:induction false} AnyNumberOfThreadsShare(n: nat, o: Obj) returns (run: seq<Action>)
    ensures ValidRun(Init, run)
    ensures
      var w := Run(Init, run);
      w.World? && o in w.counts && (forall t: Thread :: t in w.vars <==> t <= n) &&
      (forall t: Thread :: t <= n ==> w.vars[t] == Ptr(Local(t), o))
    decreases n
  {
    if n == 0 {
      run := [New(0, o), FirstRef(0, o, 0)];
      var w1 := World(map[o := 0], {}, map[], {(0, o)}, {});
      var w2 := World(map[o := 1], {}, map[0 := Ptr(Local(0), o)], {}, {});
      NoStep(w2);
      RunStep(w1, FirstRef(0, o, 0), w2, [], w2);
      RunStep(Init, New(0, o), w1, [FirstRef(0, o, 0)] + [], w2);
      assert [New(0, o)] + ([FirstRef(0, o, 0)] + []) == run;
    } else {
      run := AnyNumberOfThreadsShare(n - 1, o);
      RunAppend(Init, run, Copy(0, 0, n, n));
      run := run + [Copy(0, 0, n, n)];
    }
  }

  // ---------- HasOneRef ----------

  ghost predicate SoleHolder(w: World, t: Thread, v: VarId, x: Obj) {
    w.World? && v in w.vars && w.vars[v] == Ptr(Local(t), x) && PtrsTo(w.vars, x) == {v}
  }

  lemma {:induction false} OneRefIsSoleHolder(w: World, t: Thread, v: VarId)
    requires Inv(w) && v in w.vars && w.vars[v].owner == Local(t)
    ensures w.counts[w.vars[v].target] == 1 <==> SoleHolder(w, t, v, w.vars[v].target)
  {
    var s := PtrsTo(w.vars, w.vars[v].target);
    assert v in s;
    if |s| == 1 {
      assert |s - {v}| == 0;
      assert s == {v};
    }
  }

  // v is untouched and no variable to x appears: x has the same sole holder.
  lemma SoleHolderFrame(w: World, w': World, t: Thread, v: VarId, x: Obj)
    requires SoleHolder(w, t, v, x) && w'.World?
    requires v in w'.vars && w'.vars[v] == w.vars[v]
    requires forall u :: u in w'.vars && w'.vars[u].target == x ==> u in w.vars && w.vars[u].target == x
    ensures SoleHolder(w', t, v, x)
  {
    assert forall u :: u in PtrsTo(w'.vars, x) ==> u in PtrsTo(w.vars, x);
    assert v in PtrsTo(w'.vars, x);
    assert PtrsTo(w'.vars, x) == {v};
  }

  // A variable is new, or keeps its target; the variables of other threads keep their owner.
  lemma StepOnVariables(w: World, a: Action, u: VarId)
    requires Enabled(w, a) && Apply(w, a).World?
    ensures
      var vars := Apply(w, a).vars;
      && (u in vars && u !in w.vars ==>
            (a.FirstRef? && vars[u].target == a.o) ||
            (a.Copy? && a.src in w.vars && vars[u].target == w.vars[a.src].target))
      && (u in vars && u in w.vars ==>
            vars[u].target == w.vars[u].target ||
            (a.Swap? && exists y :: y in {a.u, a.v} && y in w.vars && vars[u].target == w.vars[y].target))
      && (u in w.vars && w.vars[u].owner.Local? && w.vars[u].owner != Local(a.t) ==>
            u in vars && vars[u] == w.vars[u])
  {
  }

  lemma SoleHolderStep(w: World, t: Thread, v: VarId, x: Obj, a: Action)
    requires Inv(w) && Enabled(w, a) && a.t != t && SoleHolder(w, t, v, x)
    ensures SoleHolder(Apply(w, a), t, v, x)
  {
    NoUseAfterDelete(w, a);
    var w' := Apply(w, a);
    forall u | u in w'.vars && w'.vars[u].target == x ensures u in w.vars && w.vars[u].target == x {
      StepOnVariables(w, a, u);
      NoNewPointerToSole(w, t, v, x, a);
    }
    StepOnVariables(w, a, v);
    SoleHolderFrame(w, w', t, v, x);
  }

  lemma NoNewPointerToSole(w: World, t: Thread, v: VarId, x: Obj, a: Action)
    requires Inv(w) && Enabled(w, a) && a.t != t && SoleHolder(w, t, v, x)
    ensures !(a.FirstRef? && a.o == x) && !(a.Copy? && w.vars[a.src].target == x)
    ensures a.Swap? ==> w.vars[a.u].target != x && w.vars[a.v].target != x
  {
    HeldHasCount(w, v);
    if a.FirstRef? {
      assert (a.t, a.o) in w.raw + w.doomed;
    } else if a.Copy? {
      assert a.src in PtrsTo(w.vars, w.vars[a.src].target);
    } else if a.Swap? {
      assert a.u in PtrsTo(w.vars, w.vars[a.u].target) && a.v in PtrsTo(w.vars, w.vars[a.v].target);
    }
  }

  // A holder for which HasOneRef returned true is the only holder, and stays so through any
  // number of steps by other threads.
  lemma {:induction false} HasOneRefIsStable(w: World, t: Thread, v: VarId, run: seq<Action>)
    requires Inv(w) && ValidRun(w, run) && forall a :: a in run ==> a.t != t
    requires v in w.vars && w.vars[v].owner == Local(t) && w.counts[w.vars[v].target] == 1
    ensures SoleHolder(Run(w, run), t, v, w.vars[v].target)
    ensures w.vars[v].target in Run(w, run).counts && Run(w, run).counts[w.vars[v].target] == 1
    decreases |run|
  {
    OneRefIsSoleHolder(w, t, v);
    if run != [] {
      StepKeepsInv(w, run[0]);
      SoleHolderStep(w, t, v, w.vars[v].target, run[0]);
      OneRefIsSoleHolder(Apply(w, run[0]), t, v);
      HasOneRefIsStable(Apply(w, run[0]), t, v, run[1..]);
    }
  }

  // ---------- scoped_refptr::operator= ----------

  lemma CopyAndBack(w: World, t: Thread, v: VarId, tmp: VarId)
    requires Inv(w) && v in w.vars && w.vars[v].owner == Local(t) && tmp !in w.vars
    ensures Enabled(w, Copy(t, v, t, tmp))
    ensures
      var w1 := Apply(w, Copy(t, v, t, tmp));
      && Enabled(w1, Swap(t, v, tmp)) && Apply(w1, Swap(t, v, tmp)) == w1
      && Enabled(w1, Drop(t, tmp)) && Apply(w1, Drop(t, tmp)) == w
  {
    HeldHasCount(w, v);
    NoUseAfterDelete(w, Copy(t, v, t, tmp));
    hide Inv, PtrsTo;
    var w1, x := Apply(w, Copy(t, v, t, tmp)), w.vars[v].target;
    assert w1.counts[x := w1.counts[x] - 1] == w.counts && w1.vars - {tmp} == w.vars;
    assert Swapped(w1.vars, v, tmp) == w1.vars;
  }

  lemma DoomsLast(w: World, t: Thread, v: VarId)
    requires Enabled(w, Drop(t, v)) && w.vars[v].target in w.counts && w.counts[w.vars[v].target] == 1
    ensures (t, w.vars[v].target) in Apply(w, Drop(t, v)).doomed
  {
  }

  // Assigning a pointer to itself leaves the world as it was, because the new reference is taken
  // before the old one is released; the other order dooms an object that has one reference.
  lemma {:induction false} SelfAssignment(w: World, t: Thread, v: VarId, tmp: VarId)
    requires Inv(w) && v in w.vars && w.vars[v].owner == Local(t) && tmp !in w.vars
    ensures ValidRun(w, [Copy(t, v, t, tmp), Swap(t, v, tmp), Drop(t, tmp)])
    ensures Run(w, [Copy(t, v, t, tmp), Swap(t, v, tmp), Drop(t, tmp)]) == w
    ensures Enabled(w, Drop(t, v))
    ensures w.counts[w.vars[v].target] == 1 ==> (t, w.vars[v].target) in Apply(w, Drop(t, v)).doomed
  {
    HeldHasCount(w, v);
    NoUseAfterDelete(w, Drop(t, v));
    CopyAndBack(w, t, v, tmp);
    hide Inv, PtrsTo, Run, ValidRun, Apply;
    var w1 := Apply(w, Copy(t, v, t, tmp));
    NoStep(w);
    RunStep(w1, Drop(t, tmp), w, [], w);
    RunStep(w1, Swap(t, v, tmp), w1, [Drop(t, tmp)] + [], w);
    RunStep(w, Copy(t, v, t, tmp), w1, [Swap(t, v, tmp)] + ([Drop(t, tmp)] + []), w);
    assert [Copy(t, v, t, tmp)] + ([Swap(t, v, tmp)] + ([Drop(t, tmp)] + [])) ==
           [Copy(t, v, t, tmp), Swap(t, v, tmp), Drop(t, tmp)];
    if w.counts[w.vars[v].target] == 1 {
      DoomsLast(w, t, v);
    }
  }
}
