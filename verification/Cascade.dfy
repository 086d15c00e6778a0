/** The delete inside Release: the destructor of a counted object drops the pointers that the
    object holds, which may delete further objects.  */
module Cascade {
  import opened RefCounting

  // ---------- the ownership graph ----------

  predicate Owns(vars: map<VarId, Ptr>, a: Obj, b: Obj) {
    exists v :: v in vars && vars[v] == Ptr(Field(a), b)
  }

  predicate IsRoot(vars: map<VarId, Ptr>, o: Obj) {
    exists v :: v in vars && vars[v].owner.Local? && vars[v].target == o
  }

  // p is a nonempty chain of objects, each owning the next.
  ghost predicate Path(vars: map<VarId, Ptr>, p: seq<Obj>) {
    p != [] && forall i :: 0 <= i < |p| - 1 ==> Owns(vars, p[i], p[i + 1])
  }

  ghost predicate PathTo(vars: map<VarId, Ptr>, p: seq<Obj>, o: Obj) {
    Path(vars, p) && IsRoot(vars, p[0]) && p[|p| - 1] == o
  }

  // o can be reached from a variable of some thread.
  ghost predicate Rooted(vars: map<VarId, Ptr>, o: Obj) {
    exists p :: PathTo(vars, p, o)
  }

  ghost predicate Cycle(vars: map<VarId, Ptr>, p: seq<Obj>) {
    |p| >= 2 && Path(vars, p) && p[0] == p[|p| - 1]
  }

  ghost predicate OnCycle(vars: map<VarId, Ptr>, o: Obj) {
    exists p :: Cycle(vars, p) && p[0] == o
  }

  // An object on an ownership cycle owns its way to o.
  ghost predicate BehindCycle(vars: map<VarId, Ptr>, o: Obj) {
    exists p :: CyclePath(vars, p, o)
  }

  ghost predicate CyclePath(vars: map<VarId, Ptr>, p: seq<Obj>, o: Obj) {
    Path(vars, p) && OnCycle(vars, p[0]) && p[|p| - 1] == o
  }

  // What reference counting keeps alive.
  ghost predicate Kept(vars: map<VarId, Ptr>, o: Obj) {
    Rooted(vars, o) || BehindCycle(vars, o)
  }

  ghost predicate Acyclic(vars: map<VarId, Ptr>) {
    forall p :: !Cycle(vars, p)
  }

  // No new, deletion or destructor is under way.
  ghost predicate Quiet(w: World) {
    w.World? && w.raw == {} && w.doomed == {} && forall v :: v in w.vars ==> !w.vars[v].owner.Owed?
  }

  lemma RootedStep(vars: map<VarId, Ptr>, a: Obj, b: Obj)
    requires Rooted(vars, a) && Owns(vars, a, b)
    ensures Rooted(vars, b)
  {
    var p :| PathTo(vars, p, a);
    assert PathTo(vars, p + [b], b);
  }

  // ---------- what pointer steps do to the graph ----------

  function RootsTo(vars: map<VarId, Ptr>, o: Obj): set<VarId> {
    set v | v in vars && vars[v].target == o && vars[v].owner.Local?
  }

  function FieldsTo(vars: map<VarId, Ptr>, o: Obj): set<VarId> {
    set v | v in vars && vars[v].target == o && vars[v].owner.Field?
  }

  // A variable of a thread becomes a field of o.
  lemma FieldAdded(vars: map<VarId, Ptr>, v: VarId, o: Obj)
    requires v in vars && vars[v].owner.Local?
    ensures
      var vars', x := vars[v := Ptr(Field(o), vars[v].target)], vars[v].target;
      && (forall a, b :: Owns(vars', a, b) <==> Owns(vars, a, b) || (a == o && b == x))
      && (forall y :: RootsTo(vars', y) == RootsTo(vars, y) - {v})
      && (forall y :: FieldsTo(vars', y) == FieldsTo(vars, y) + if y == x then {v} else {})
  {
    var vars', x := vars[v := Ptr(Field(o), vars[v].target)], vars[v].target;
    assert vars'[v] == Ptr(Field(o), x);
    forall a, b ensures Owns(vars', a, b) <==> Owns(vars, a, b) || (a == o && b == x) {
      if Owns(vars, a, b) {
        var u :| u in vars && vars[u] == Ptr(Field(a), b);
        assert vars'[u] == vars[u];
      }
    }
  }

  // A pointer moved into object o makes o, and nothing else, an owner of its target.
  lemma {:induction false} MoveInOwns(w: World, t: Thread, v: VarId, o: Obj)
    requires Inv(w) && Enabled(w, MoveIn(t, v, o))
    ensures
      var w', x := Apply(w, MoveIn(t, v, o)), w.vars[v].target;
      && w'.World?
      && (forall a, b :: Owns(w'.vars, a, b) <==> Owns(w.vars, a, b) || (a == o && b == x))
      && (forall y :: RootsTo(w'.vars, y) == RootsTo(w.vars, y) - {v})
      && (forall y :: FieldsTo(w'.vars, y) == FieldsTo(w.vars, y) + if y == x then {v} else {})
      && (forall d :: Holds(w', d, o) ==> CanUse(w', d, v))
  {
    NoUseAfterDelete(w, MoveIn(t, v, o));
    FieldAdded(w.vars, v, o);
    hide Inv, Owns, RootsTo, FieldsTo, Holds;
  }

  // A pointer moved out of object o leaves o the owner of what its other fields point to, and its
  // target becomes one that the thread holds.
  lemma {:induction false} MoveOutOwns(w: World, t: Thread, v: VarId)
    requires Inv(w) && Enabled(w, MoveOut(t, v))
    ensures
      var w', o, x := Apply(w, MoveOut(t, v)), w.vars[v].owner.o, w.vars[v].target;
      && w'.World?
      && (forall a, b :: Owns(w.vars, a, b) <==> Owns(w'.vars, a, b) || (a == o && b == x))
      && (forall y :: RootsTo(w.vars, y) == RootsTo(w'.vars, y) - {v})
      && (forall y :: FieldsTo(w.vars, y) == FieldsTo(w'.vars, y) + if y == x then {v} else {})
      && (forall d, y :: Holds(w', d, y) <==> Holds(w, d, y) || (d == t && y == x))
  {
    var w', o, x := Apply(w, MoveOut(t, v)), w.vars[v].owner.o, w.vars[v].target;
    NoUseAfterDelete(w, MoveOut(t, v));
    assert w'.World? && w'.vars == w.vars[v := Ptr(Local(t), x)] && w.vars[v] == Ptr(Field(o), x);
    assert w.vars == w'.vars[v := Ptr(Field(o), x)];
    hide Inv, Apply, Enabled, CanUse, Owns, RootsTo, FieldsTo;
    FieldAdded(w'.vars, v, o);
    assert w'.vars[v] == Ptr(Local(t), x);
    forall d, y ensures Holds(w', d, y) <==> Holds(w, d, y) || (d == t && y == x) {
      if Holds(w, d, y) {
        var u :| u in w.vars && w.vars[u] == Ptr(Local(d), y);
        assert w'.vars[u] == w.vars[u];
      }
    }
  }

  // In and out again is the identity, for a thread that holds the object by another variable.
  lemma {:induction false} MoveInAndOut(w: World, t: Thread, v: VarId, o: Obj, u: VarId)
    requires Inv(w) && Enabled(w, MoveIn(t, v, o))
    requires u != v && u in w.vars && w.vars[u] == Ptr(Local(t), o)
    ensures
      var w' := Apply(w, MoveIn(t, v, o));
      Enabled(w', MoveOut(t, v)) && Apply(w', MoveOut(t, v)) == w
  {
    var w' := Apply(w, MoveIn(t, v, o));
    NoUseAfterDelete(w, MoveIn(t, v, o));
    assert w'.vars[u] == Ptr(Local(t), o);
    MoveInOwns(w, t, v, o);
    StepKeepsInv(w, MoveIn(t, v, o));
    NoUseAfterDelete(w', MoveOut(t, v));
    hide Inv;
    assert w'.vars[v := w.vars[v]] == w.vars;
  }

  // A first reference or a copy changes no field; one more thread may hold the target.
  lemma {:induction false} CopyHolds(w: World, a: Action)
    requires Inv(w) && Enabled(w, a) && (a.FirstRef? || a.Copy?)
    ensures
      var w' := Apply(w, a);
      var d', x := if a.Copy? then a.to else a.t, if a.Copy? then w.vars[a.src].target else a.o;
      && w'.World?
      && (forall b, c :: Owns(w'.vars, b, c) <==> Owns(w.vars, b, c))
      && (forall d, y :: Holds(w', d, y) <==> Holds(w, d, y) || (d == d' && y == x))
  {
    var w' := Apply(w, a);
    NoUseAfterDelete(w, a);
    assert a.v !in w.vars && w'.World? && w'.vars == w.vars[a.v := w'.vars[a.v]];
    assert w'.vars[a.v] == Ptr(Local(if a.Copy? then a.to else a.t), if a.Copy? then w.vars[a.src].target else a.o);
    hide Inv, Apply, Enabled, CanUse;
    forall b, c ensures Owns(w'.vars, b, c) <==> Owns(w.vars, b, c) {
      if Owns(w.vars, b, c) {
        var u :| u in w.vars && w.vars[u] == Ptr(Field(b), c);
        assert w'.vars[u] == w.vars[u];
      }
    }
    forall d, y | Holds(w, d, y) ensures Holds(w', d, y) {
      var u :| u in w.vars && w.vars[u] == Ptr(Local(d), y);
      assert w'.vars[u] == w.vars[u];
    }
  }

  // ---------- sets of objects that keep each other alive ----------

  // Variable v keeps its target alive, provided the objects in s are alive.
  predicate Supports(vars: map<VarId, Ptr>, s: set<Obj>, v: VarId) {
    v in vars && (vars[v].owner.Local? || (vars[v].owner.Field? && vars[v].owner.o in s))
  }

  // Every object in s has a pointer to it from a thread or from an object in s.
  ghost predicate Supported(vars: map<VarId, Ptr>, s: set<Obj>) {
    forall o :: o in s ==> exists v :: Supports(vars, s, v) && vars[v].target == o
  }

  lemma SupportedIsAlive(w: World, s: set<Obj>)
    requires Inv(w) && Supported(w.vars, s)
    ensures s <= w.counts.Keys && forall o :: o in s ==> w.counts[o] >= 1
  {
    forall o | o in s ensures o in w.counts && w.counts[o] >= 1 {
      var v :| Supports(w.vars, s, v) && w.vars[v].target == o;
      HeldHasCount(w, v);
    }
  }

  lemma QuietIsSupported(w: World)
    requires Inv(w) && Quiet(w)
    ensures Supported(w.vars, w.counts.Keys)
  {
    forall o | o in w.counts ensures exists v :: Supports(w.vars, w.counts.Keys, v) && w.vars[v].target == o {
      assert w.counts[o] != 0;
      var v :| v in PtrsTo(w.vars, o);
      assert Enclosing(w.vars[v].owner) <= w.counts.Keys;
      assert Supports(w.vars, w.counts.Keys, v);
    }
  }

  // Following supporting pointers backwards from o, for n steps or to a root.
  lemma {:induction false} ChainBack(vars: map<VarId, Ptr>, s: set<Obj>, o: Obj, n: nat) returns (p: seq<Obj>)
    requires Supported(vars, s) && o in s
    ensures Path(vars, p) && p[|p| - 1] == o && forall i :: 0 <= i < |p| ==> p[i] in s
    ensures IsRoot(vars, p[0]) || |p| == n + 1
    decreases n
  {
    if n == 0 {
      return [o];
    }
    p := ChainBack(vars, s, o, n - 1);
    if !IsRoot(vars, p[0]) {
      var v :| Supports(vars, s, v) && vars[v].target == p[0];
      assert vars[v] == Ptr(Field(vars[v].owner.o), p[0]);
      assert Owns(vars, vars[v].owner.o, p[0]);
      p := [vars[v].owner.o] + p;
    }
  }

  lemma {:induction false} Pigeonhole(p: seq<Obj>, s: set<Obj>) returns (i: nat, j: nat)
    requires |p| > |s| && forall k :: 0 <= k < |p| ==> p[k] in s
    ensures i < j < |p| && p[i] == p[j]
  {
    if k :| 1 <= k < |p| && p[k] == p[0] {
      return 0, k;
    }
    i, j := Pigeonhole(p[1..], s - {p[0]});
    return i + 1, j + 1;
  }

  // A chain that returns to an object has an object on a cycle, and so does its rest.
  lemma ReturnIsCycle(vars: map<VarId, Ptr>, p: seq<Obj>, i: nat, j: nat)
    requires Path(vars, p) && i < j < |p| && p[i] == p[j]
    ensures OnCycle(vars, p[i]) && Path(vars, p[i..])
  {
    hide Owns;
    var c := p[i..j + 1];
    forall k | 0 <= k < |c| - 1 ensures Owns(vars, c[k], c[k + 1]) { assert Owns(vars, p[i + k], p[i + k + 1]); }
    assert Cycle(vars, c) && c[0] == p[i];
    forall k | 0 <= k < |p[i..]| - 1 ensures Owns(vars, p[i..][k], p[i..][k + 1]) {
      assert Owns(vars, p[i + k], p[i + k + 1]);
    }
  }

  lemma SupportedIsKept(vars: map<VarId, Ptr>, s: set<Obj>, o: Obj)
    requires Supported(vars, s) && o in s
    ensures Kept(vars, o)
  {
    hide IsRoot, Path, OnCycle, Supported;
    var p := ChainBack(vars, s, o, |s|);
    if IsRoot(vars, p[0]) {
      assert PathTo(vars, p, o);
    } else {
      var i, j := Pigeonhole(p, s);
      ReturnIsCycle(vars, p, i, j);
      assert CyclePath(vars, p[i..], o);
    }
  }

  lemma KeptIsSupported(vars: map<VarId, Ptr>, o: Obj) returns (s: set<Obj>)
    requires Kept(vars, o)
    ensures Supported(vars, s) && o in s
  {
    if Rooted(vars, o) {
      var p :| PathTo(vars, p, o);
      s := PathSupports(vars, p, {});
    } else {
      var p :| CyclePath(vars, p, o);
      var c :| Cycle(vars, c) && c[0] == p[0];
      s := CycleSupports(vars, c);
      s := PathSupports(vars, p, s);
    }
  }

  lemma OwnerSupports(vars: map<VarId, Ptr>, s: set<Obj>, a: Obj, b: Obj)
    requires Owns(vars, a, b) && a in s
    ensures exists v :: Supports(vars, s, v) && vars[v].target == b
  {
    var v :| v in vars && vars[v] == Ptr(Field(a), b);
    assert Supports(vars, s, v);
  }

  lemma CycleSupports(vars: map<VarId, Ptr>, c: seq<Obj>) returns (s: set<Obj>)
    requires Cycle(vars, c)
    ensures Supported(vars, s) && c[0] in s
  {
    s := set x | x in c;
    forall o | o in s ensures exists v :: Supports(vars, s, v) && vars[v].target == o {
      var i :| 0 <= i < |c| && c[i] == o;
      var k := if i == 0 then |c| - 1 else i;
      assert Owns(vars, c[k - 1], c[k - 1 + 1]);
      OwnerSupports(vars, s, c[k - 1], o);
    }
  }

  // A chain that starts at a root or in a supported set adds to that set.
  lemma {:induction false} PathSupports(vars: map<VarId, Ptr>, p: seq<Obj>, t: set<Obj>) returns (s: set<Obj>)
    requires Path(vars, p) && Supported(vars, t) && (IsRoot(vars, p[0]) || p[0] in t)
    ensures Supported(vars, s) && p[|p| - 1] in s
    decreases |p|
  {
    var n := |p| - 1;
    if n == 0 {
      s := t + {p[0]};
      if p[0] !in t {
        var v :| v in vars && vars[v].owner.Local? && vars[v].target == p[0];
        SupportedAdd(vars, t, v);
      } else {
        assert s == t;
      }
    } else {
      s := PathSupports(vars, p[..n], t);
      assert Owns(vars, p[n - 1], p[n - 1 + 1]);
      var v :| v in vars && vars[v] == Ptr(Field(p[n - 1]), p[n]);
      SupportedAdd(vars, s, v);
      s := s + {p[n]};
    }
  }

  lemma SupportedAdd(vars: map<VarId, Ptr>, s: set<Obj>, v: VarId)
    requires Supported(vars, s) && Supports(vars, s, v)
    ensures Supported(vars, s + {vars[v].target})
  {
    var s' := s + {vars[v].target};
    forall o | o in s' ensures exists u :: Supports(vars, s', u) && vars[u].target == o {
      if o in s {
        var u :| Supports(vars, s, u) && vars[u].target == o;
        assert Supports(vars, s', u);
      } else {
        assert Supports(vars, s', v);
      }
    }
  }

  lemma AcyclicKeepsTheRooted(vars: map<VarId, Ptr>)
    requires Acyclic(vars)
    ensures forall o :: Kept(vars, o) <==> Rooted(vars, o)
  {
  }

  // ---------- what a quiet world keeps alive ----------

  ghost predicate Leaked(w: World, o: Obj)
    requires w.World?
  {
    o in w.counts && !Rooted(w.vars, o)
  }

  // In a quiet world the objects that exist are those that reference counting keeps, and an object
  // is leaked exactly when no thread reaches it but some ownership cycle does.
  lemma {:induction false} LeakedIffBehindCycle(w: World, o: Obj)
    requires Inv(w) && Quiet(w)
    ensures o in w.counts <==> Kept(w.vars, o)
    ensures Leaked(w, o) <==> !Rooted(w.vars, o) && BehindCycle(w.vars, o)
  {
    assert w.World?;
    hide Inv, Quiet;
    QuietIsSupported(w);
    if o in w.counts {
      SupportedIsKept(w.vars, w.counts.Keys, o);
    }
    if Kept(w.vars, o) {
      var s := KeptIsSupported(w.vars, o);
      SupportedIsAlive(w, s);
    }
  }

  // So there is a leak exactly when there is a cycle that no thread reaches.
  lemma {:induction false} LeakIffUnreachableCycle(w: World)
    requires Inv(w) && Quiet(w)
    ensures (exists o :: Leaked(w, o)) <==> (exists p :: Cycle(w.vars, p) && !Rooted(w.vars, p[0]))
  {
    assert w.World?;
    hide Inv, Quiet;
    if o :| Leaked(w, o) {
      LeakedIffBehindCycle(w, o);
      var p :| CyclePath(w.vars, p, o);
      var c :| Cycle(w.vars, c) && c[0] == p[0];
      if Rooted(w.vars, c[0]) {
        RootedAlong(w.vars, p);
      }
    }
    if c :| Cycle(w.vars, c) && !Rooted(w.vars, c[0]) {
      assert CyclePath(w.vars, [c[0]], c[0]);
      LeakedIffBehindCycle(w, c[0]);
    }
  }

  lemma {:induction false} RootedAlong(vars: map<VarId, Ptr>, p: seq<Obj>)
    requires Path(vars, p) && Rooted(vars, p[0])
    ensures Rooted(vars, p[|p| - 1])
    decreases |p|
  {
    var n := |p| - 1;
    if n > 0 {
      RootedAlong(vars, p[..n]);
      assert Owns(vars, p[n - 1], p[n - 1 + 1]);
      RootedStep(vars, p[n - 1], p[n]);
    }
  }

  lemma NoRootNoPath(vars: map<VarId, Ptr>, o: Obj)
    requires forall v :: v in vars ==> !vars[v].owner.Local?
    ensures !Rooted(vars, o)
  {
    assert forall x :: !IsRoot(vars, x);
  }

  // One thread creates object 7, stores a pointer to it in it, and drops its own.
  const SHARED: World := World(map[7 := 2], {}, map[1 := Ptr(Local(0), 7), 2 := Ptr(Local(0), 7)], {}, {})
  const LEAKED: World := World(map[7 := 1], {}, map[2 := Ptr(Field(7), 7)], {}, {})

  lemma StoreAndDrop()
    ensures ValidRun(SHARED, [MoveIn(0, 2, 7), Drop(0, 1)]) && Run(SHARED, [MoveIn(0, 2, 7), Drop(0, 1)]) == LEAKED
  {
    var w := World(map[7 := 2], {}, map[1 := Ptr(Local(0), 7), 2 := Ptr(Field(7), 7)], {}, {});
    assert Holds(SHARED, 0, 7) by { assert SHARED.vars[1] == Ptr(Local(0), 7); }
    assert w.vars - {1} == LEAKED.vars;
    NoStep(LEAKED);
    RunStep(w, Drop(0, 1), LEAKED, [], LEAKED);
    RunStep(SHARED, MoveIn(0, 2, 7), w, [Drop(0, 1)] + [], LEAKED);
    assert [MoveIn(0, 2, 7)] + ([Drop(0, 1)] + []) == [MoveIn(0, 2, 7), Drop(0, 1)];
  }

  // Such a world is reachable: an object that stores a pointer to itself outlives its last user.
  lemma {:induction false} SelfOwnerLeaks() returns (run: seq<Action>)
    ensures ValidRun(Init, run) && Quiet(Run(Init, run)) && Leaked(Run(Init, run), 7)
  {
    StoreAndDrop();
    NoRootNoPath(LEAKED.vars, 7);
    hide ValidRun, Run, Rooted;
    var w1 := World(map[7 := 0], {}, map[], {(0, 7)}, {});
    var w2 := World(map[7 := 1], {}, map[1 := Ptr(Local(0), 7)], {}, {});
    run := [MoveIn(0, 2, 7), Drop(0, 1)];
    RunStep(w2, Copy(0, 1, 0, 2), SHARED, run, LEAKED);
    run := [Copy(0, 1, 0, 2)] + run;
    RunStep(w1, FirstRef(0, 7, 1), w2, run, LEAKED);
    run := [FirstRef(0, 7, 1)] + run;
    RunStep(Init, New(0, 7), w1, run, LEAKED);
    run := [New(0, 7)] + run;
  }

  // Everything reachable is alive: no dangling pointer can be followed.
  lemma {:induction false} RootedIsAlive(w: World, o: Obj)
    requires Inv(w) && Rooted(w.vars, o)
    ensures o in w.counts && o !in w.deleted
  {
    var p :| PathTo(w.vars, p, o);
    if |p| > 1 {
      assert Owns(w.vars, p[|p| - 2], p[|p| - 1]);
    }
  }

  // ---------- every cascade ends, whatever the schedule ----------

  predicate IsCleanup(w: World, a: Action) {
    a.Delete? || (a.Drop? && w.World? && a.v in w.vars && w.vars[a.v].owner.Owed?)
  }

  predicate OnlyReleases(run: seq<Action>) {
    forall a :: a in run ==> a.Delete? || a.Drop?
  }

  // Releases and deletions, by any threads in any order, cannot go on for longer than there are
  // variables and objects.
  lemma {:induction false} CleanupIsBounded(w: World, run: seq<Action>)
    requires Inv(w) && ValidRun(w, run) && OnlyReleases(run)
    ensures |run| <= |w.vars| + |w.counts|
    decreases |run|
  {
    if run != [] {
      NoUseAfterDelete(w, run[0]);
      StepKeepsInv(w, run[0]);
      CleanupShrinks(w, run[0]);
      CleanupIsBounded(Apply(w, run[0]), run[1..]);
    }
  }

  lemma CleanupShrinks(w: World, a: Action)
    requires Enabled(w, a) && Apply(w, a).World? && (a.Delete? || a.Drop?)
    ensures |Apply(w, a).vars| + |Apply(w, a).counts| < |w.vars| + |w.counts|
  {
    var w' := Apply(w, a);
    assert |w'.vars| == |w'.vars.Keys| && |w.vars| == |w.vars.Keys|;
    assert |w'.counts| == |w'.counts.Keys| && |w.counts| == |w.counts.Keys|;
    if a.Drop? {
      assert w'.vars.Keys == w.vars.Keys - {a.v} && w'.counts.Keys == w.counts.Keys;
    } else {
      assert w'.vars.Keys == w.vars.Keys && w'.counts.Keys == w.counts.Keys - {a.o};
    }
  }

  // And as long as a cascade is not finished, the thread that owes the next step can take it.
  lemma {:induction false} CleanupCanGoOn(w: World) returns (a: Action)
    requires Inv(w) && (w.doomed != {} || exists v :: v in w.vars && w.vars[v].owner.Owed?)
    ensures Enabled(w, a) && IsCleanup(w, a)
  {
    if p :| p in w.doomed {
      a := Delete(p.0, p.1);
    } else {
      var v :| v in w.vars && w.vars[v].owner.Owed?;
      a := Drop(w.vars[v].owner.d, v);
    }
  }

  // ---------- the heap of counted objects, as the code changes it ----------

  class RefHeap {
    var counts: map<Obj, int>
    var deleted: set<Obj>
    var vars: map<VarId, Ptr>
    var raw: set<(Thread, Obj)>
    var doomed: set<(Thread, Obj)>

    function State(): World
      reads this
    {
      World(counts, deleted, vars, raw, doomed)
    }

    // CefRefCount::AddRef
    method AddRef(o: Obj)
      requires o in counts
      modifies this`counts
      ensures counts == old(counts)[o := old(counts)[o] + 1]
    {
      counts := counts[o := counts[o] + 1];
    }

    // CefRefCount::Release
    method Decrement(o: Obj) returns (zero: bool)
      requires o in counts
      modifies this`counts
      ensures counts == old(counts)[o := old(counts)[o] - 1]
      ensures zero <==> counts[o] == 0
    {
      counts := counts[o := counts[o] - 1];
      zero := !(counts[o] != 0);
    }

    // HasOneRef and HasAtLeastOneRef speak of the pointers there are.
    method HasOneRef(o: Obj) returns (one: bool)
      requires Inv(State()) && o in counts
      ensures one <==> exists v :: PtrsTo(vars, o) == {v}
    {
      one := counts[o] == 1;
      ghost var s := PtrsTo(vars, o);
      if one {
        ghost var v :| v in s;
        assert |s - {v}| == 0;
        assert s == {v};
      }
    }

    method HasAtLeastOneRef(o: Obj) returns (some: bool)
      requires Inv(State()) && o in counts
      ensures some <==> exists v :: v in vars && vars[v].target == o
    {
      some := !(counts[o] == 0);
      ghost var s := PtrsTo(vars, o);
      if some {
        ghost var v :| v in s;
      }
      assert forall v :: v in vars && vars[v].target == o ==> v in s;
    }

    // scoped_refptr(const scoped_refptr&)
    method CopyPointer(t: Thread, src: VarId, to: Thread, v: VarId)
      requires Inv(State()) && Enabled(State(), Copy(t, src, to, v))
      modifies this
      ensures State() == Apply(old(State()), Copy(t, src, to, v)) && Inv(State())
      ensures vars == old(vars)[v := Ptr(Local(to), old(vars)[src].target)]
    {
      hide Inv, Apply, Enabled, CanUse;
      CopyDoes(State(), t, src, to, v);
      var x := vars[src].target;
      AddRef(x);
      vars := vars[v := Ptr(Local(to), x)];
    }

    // scoped_refptr::swap
    method SwapPointers(t: Thread, u: VarId, v: VarId)
      requires Inv(State()) && Enabled(State(), Swap(t, u, v))
      modifies this
      ensures State() == Apply(old(State()), Swap(t, u, v)) && Inv(State())
      ensures u in vars && vars[u] == Ptr(old(vars)[u].owner, old(vars)[v].target)
      ensures v in vars && vars[v] == Ptr(old(vars)[v].owner, old(vars)[u].target)
      ensures counts == old(counts) && vars.Keys == old(vars).Keys
      ensures forall x :: x in vars && x != u && x != v ==> vars[x] == old(vars)[x]
    {
      hide Inv, Apply, Enabled, CanUse;
      SwapDoes(State(), t, u, v);
      var p := vars[u].target;
      vars := vars[u := vars[u].(target := vars[v].target)][v := vars[v].(target := p)];
    }

    // scoped_refptr::operator=: the new reference is taken before the old one is released, so
    // that dst holds the target of src afterwards even if it was the last holder of that target.
    method Assign(t: Thread, dst: VarId, src: VarId, tmp: VarId)
      requires Inv(State()) && CanUse(State(), t, dst) && CanUse(State(), t, src) && tmp !in vars
      modifies this
      ensures Inv(State())
      ensures dst in vars && vars[dst] == Ptr(old(vars)[dst].owner, old(vars)[src].target)
      ensures raw == old(raw) && doomed == old(doomed)
      ensures counts.Keys <= old(counts).Keys && deleted == old(deleted) + (old(counts).Keys - counts.Keys)
      ensures vars == Surviving(old(vars)[dst := Ptr(old(vars)[dst].owner, old(vars)[src].target)], counts.Keys)
    {
      hide Inv;
      ghost var w0 := State();
      ghost var after := vars[dst := Ptr(vars[dst].owner, vars[src].target)];
      CopyPointer(t, src, t, tmp);
      StillUsable(w0, State(), t, dst, tmp);
      SwapPointers(t, dst, tmp);
      assert vars - {tmp} == after;
      var _ := ReleasePointer(t, tmp);
      UsedFieldSurvives(w0, t, dst, after, State());
    }

    // ~scoped_refptr calling Release() of IMPLEMENT_REFCOUNTING: when the count reaches zero the
    // object is deleted, and its destructor releases its fields in turn.
    method ReleasePointer(t: Thread, v: VarId) returns (gone: bool)
      requires Inv(State()) && Enabled(State(), Drop(t, v))
      modifies this
      ensures Inv(State())
      ensures gone <==> old(vars)[v].target in deleted
      ensures raw == old(raw) && doomed == old(doomed)
      ensures counts.Keys <= old(counts).Keys && deleted == old(deleted) + (old(counts).Keys - counts.Keys)
      ensures vars == Surviving(old(vars) - {v}, counts.Keys)
      ensures forall s :: Supported(old(vars) - {v}, s) ==> Supported(vars, s)
      decreases |vars|, 0
    {
      hide Inv;
      ghost var w0 := State();
      var x := vars[v].target;
      NoUseAfterDelete(w0, Drop(t, v));
      StepKeepsInv(w0, Drop(t, v));
      NotYetDoomed(w0, t, v);
      gone := Decrement(x);
      vars := vars - {v};
      if gone {
        doomed := doomed + {(t, x)};
        assert State() == Apply(w0, Drop(t, v));
        DeleteObject(t, x);
      } else {
        assert State() == Apply(w0, Drop(t, v));
        AllSurvive(State());
      }
    }

    // `delete this`: the object goes, then its fields are released one by one.
    method DeleteObject(t: Thread, x: Obj)
      requires Inv(State()) && Enabled(State(), Delete(t, x))
      modifies this
      ensures Inv(State())
      ensures raw == old(raw) && doomed == old(doomed) - {(t, x)}
      ensures x in deleted
      ensures counts.Keys <= old(counts).Keys && deleted == old(deleted) + (old(counts).Keys - counts.Keys)
      ensures vars == Surviving(old(vars), counts.Keys)
      ensures forall s :: Supported(old(vars), s) ==> Supported(vars, s)
      decreases |vars|, 1
    {
      hide Inv, Apply, Surviving, Pending, Touched, Supported;
      ghost var w0 := State();
      DeleteDoes(w0, t, x);
      var fields := set f | f in vars && vars[f].owner == Field(x);
      counts := counts - {x};
      deleted := deleted + {x};
      doomed := doomed - {(t, x)};
      vars := Destruct(vars, t, x);
      DestructIsPending(w0, t, x, fields);
      DeleteKeepsSupport(w0, t, x);
      hide Destruct;
      while fields != {}
        invariant Inv(State())
        invariant raw == w0.raw && doomed == w0.doomed - {(t, x)}
        invariant counts.Keys <= w0.counts.Keys - {x}
        invariant deleted == w0.deleted + (w0.counts.Keys - counts.Keys)
        invariant forall f :: f in fields ==> f in w0.vars && w0.vars[f].owner == Field(x)
        invariant vars == Pending(w0.vars, fields, t, counts.Keys)
        invariant forall s :: Supported(w0.vars, s) ==> Supported(vars, s)
        decreases fields
      {
        var f :| f in fields;
        PendingSize(w0.vars, fields, t, counts.Keys, f);
        ghost var alive := counts.Keys;
        DroppingOwedKeepsSupport(vars, f);
        var _ := ReleasePointer(t, f);
        PendingStep(w0.vars, fields, t, x, alive, counts.Keys, f);
        fields := fields - {f};
      }
      NothingPending(w0.vars, t, counts.Keys);
    }
  }

  lemma SwapDoes(w: World, t: Thread, u: VarId, v: VarId)
    requires Inv(w) && Enabled(w, Swap(t, u, v))
    ensures u in w.vars && v in w.vars && Inv(Apply(w, Swap(t, u, v)))
    ensures Apply(w, Swap(t, u, v)) == w.(vars := Swapped(w.vars, u, v))
  {
    NoUseAfterDelete(w, Swap(t, u, v));
    StepKeepsInv(w, Swap(t, u, v));
    hide Inv, PtrsTo, Swapped;
  }

  lemma CopyDoes(w: World, t: Thread, src: VarId, to: Thread, v: VarId)
    requires Inv(w) && Enabled(w, Copy(t, src, to, v))
    ensures src in w.vars && w.vars[src].target in w.counts && Inv(Apply(w, Copy(t, src, to, v)))
    ensures
      var x := w.vars[src].target;
      Apply(w, Copy(t, src, to, v)) ==
        w.(counts := w.counts[x := w.counts[x] + 1], vars := w.vars[v := Ptr(Local(to), x)])
  {
    PointersAreAlive(w, src);
    NoUseAfterDelete(w, Copy(t, src, to, v));
    StepKeepsInv(w, Copy(t, src, to, v));
    hide Inv, CanUse, PtrsTo;
  }

  lemma DeleteKeepsSupport(w: World, t: Thread, x: Obj)
    requires Inv(w) && Enabled(w, Delete(t, x))
    ensures forall s :: Supported(w.vars, s) ==> Supported(Destruct(w.vars, t, x), s)
  {
    assert (t, x) in w.raw + w.doomed && w.counts[x] == 0;
    forall s | Supported(w.vars, s) ensures Supported(Destruct(w.vars, t, x), s) {
      SupportedIsAlive(w, s);
      DestructKeepsSupport(w.vars, t, x, s);
    }
  }

  lemma DroppingOwedKeepsSupport(vars: map<VarId, Ptr>, f: VarId)
    requires f in vars && vars[f].owner.Owed?
    ensures forall s :: Supported(vars, s) ==> Supported(vars - {f}, s)
  {
    forall s | Supported(vars, s) ensures Supported(vars - {f}, s) { OwedSupportsNothing(vars, f, s); }
  }

  lemma DeleteDoes(w: World, t: Thread, x: Obj)
    requires Inv(w) && Enabled(w, Delete(t, x))
    ensures x in w.counts
    ensures Inv(w.(counts := w.counts - {x}, deleted := w.deleted + {x}, doomed := w.doomed - {(t, x)},
                   vars := Destruct(w.vars, t, x)))
  {
    NoUseAfterDelete(w, Delete(t, x));
    StepKeepsInv(w, Delete(t, x));
    hide Inv;
  }

  // A variable survives unless it is a field of an object that is gone.
  function Surviving(vars: map<VarId, Ptr>, alive: set<Obj>): map<VarId, Ptr> {
    map u | u in vars && Enclosing(vars[u].owner) <= alive :: vars[u]
  }

  // The variables while t still owes a Release to each of `fields`.
  ghost function Pending(vars: map<VarId, Ptr>, fields: set<VarId>, t: Thread, alive: set<Obj>): map<VarId, Ptr> {
    map u | u in vars && (u in fields || Enclosing(vars[u].owner) <= alive) ::
      if u in fields then Ptr(Owed(t), vars[u].target) else vars[u]
  }

  lemma StillUsable(w: World, w': World, t: Thread, v: VarId, tmp: VarId)
    requires w.World? && w'.World? && CanUse(w, t, v) && tmp !in w.vars
    requires tmp in w'.vars && w'.vars == w.vars[tmp := w'.vars[tmp]]
    ensures CanUse(w', t, v)
  {
    if w.vars[v].owner.Field? {
      var u :| u in w.vars && w.vars[u] == Ptr(Local(t), w.vars[v].owner.o);
      assert w'.vars[u] == w.vars[u];
    }
  }

  // A field that the thread can use is part of an object that the thread keeps alive.
  lemma UsedFieldSurvives(w: World, t: Thread, v: VarId, vars: map<VarId, Ptr>, w': World)
    requires w.World? && CanUse(w, t, v) && Inv(w') && w'.vars == Surviving(vars, w'.counts.Keys)
    requires v in vars && vars == w.vars[v := Ptr(w.vars[v].owner, vars[v].target)]
    ensures v in w'.vars
  {
    if w.vars[v].owner.Field? {
      var u :| u in w.vars && w.vars[u] == Ptr(Local(t), w.vars[v].owner.o);
      assert u in w'.vars;
      PointersAreAlive(w', u);
    }
  }

  lemma PointersAreAlive(w: World, v: VarId)
    requires Inv(w) && v in w.vars
    ensures w.vars[v].target in w.counts && w.vars[v].target !in w.deleted
  {
  }

  lemma NotYetDoomed(w: World, t: Thread, v: VarId)
    requires Inv(w) && v in w.vars
    ensures w.vars[v].target in w.counts && w.vars[v].target !in w.deleted
    ensures (t, w.vars[v].target) !in w.doomed
  {
    HeldHasCount(w, v);
    assert forall p :: p in w.doomed ==> p in w.raw + w.doomed;
  }

  lemma AllSurvive(w: World)
    requires Inv(w)
    ensures Surviving(w.vars, w.counts.Keys) == w.vars
  {
  }

  lemma DestructIsPending(w: World, t: Thread, x: Obj, fields: set<VarId>)
    requires Inv(w) && fields == set f | f in w.vars && w.vars[f].owner == Field(x)
    ensures Destruct(w.vars, t, x) == Pending(w.vars, fields, t, w.counts.Keys - {x})
  {
  }

  lemma NothingPending(vars: map<VarId, Ptr>, t: Thread, alive: set<Obj>)
    ensures Pending(vars, {}, t, alive) == Surviving(vars, alive)
  {
  }

  lemma PendingSize(vars: map<VarId, Ptr>, fields: set<VarId>, t: Thread, alive: set<Obj>, f: VarId)
    requires f in fields && f in vars
    ensures f in Pending(vars, fields, t, alive) && Pending(vars, fields, t, alive)[f].owner == Owed(t)
    ensures |Pending(vars, fields, t, alive)| <= |vars|
  {
    var q := Pending(vars, fields, t, alive);
    assert q.Keys <= vars.Keys;
    SubsetSize(q.Keys, vars.Keys);
    assert |q| == |q.Keys| && |vars| == |vars.Keys|;
  }

  lemma SubsetSize<T>(a: set<T>, b: set<T>)
    requires a <= b
    ensures |a| <= |b|
  {
    assert b == a + (b - a);
  }

  lemma PendingStep(vars: map<VarId, Ptr>, fields: set<VarId>, t: Thread, x: Obj, alive: set<Obj>,
                    alive': set<Obj>, f: VarId)
    requires alive' <= alive && x !in alive && f in fields
    requires forall u :: u in fields ==> u in vars && vars[u].owner == Field(x)
    ensures Surviving(Pending(vars, fields, t, alive) - {f}, alive') == Pending(vars, fields - {f}, t, alive')
  {
  }

  // ---------- what the cascade frees ----------

  lemma AcyclicSubset(vars: map<VarId, Ptr>, vars': map<VarId, Ptr>)
    requires Acyclic(vars) && forall u :: u in vars' ==> u in vars && vars[u] == vars'[u]
    ensures Acyclic(vars')
  {
    forall p | Cycle(vars', p) ensures false { CycleSubset(vars', vars, p); }
  }

  lemma CycleSubset(small: map<VarId, Ptr>, large: map<VarId, Ptr>, p: seq<Obj>)
    requires Cycle(small, p) && forall u :: u in small ==> u in large && large[u] == small[u]
    ensures Cycle(large, p)
  {
    OwnsSubset(small, large, p);
  }

  lemma OwnsSubset(small: map<VarId, Ptr>, large: map<VarId, Ptr>, p: seq<Obj>)
    requires Path(small, p) && forall u :: u in small ==> u in large && large[u] == small[u]
    ensures Path(large, p)
  {
    forall i | 0 <= i < |p| - 1 ensures Owns(large, p[i], p[i + 1]) {
      assert Owns(small, p[i], p[i + 1]);
      var v :| v in small && small[v] == Ptr(Field(p[i]), p[i + 1]);
      assert v in large;
    }
  }

  // The variables that remain when only the objects in `alive` do and no destructor is under way.
  function Settled(vars: map<VarId, Ptr>, alive: set<Obj>): map<VarId, Ptr> {
    map u | u in vars && !vars[u].owner.Owed? && Enclosing(vars[u].owner) <= alive :: vars[u]
  }

  // Along a chain from a root, every object is still alive and every link is still there.
  lemma {:induction false} ChainSurvives(w: World, vars: map<VarId, Ptr>, p: seq<Obj>)
    requires Inv(w) && w.vars == Settled(vars, w.counts.Keys)
    requires Path(vars, p) && IsRoot(vars, p[0])
    ensures p[|p| - 1] in w.counts
    decreases |p|
  {
    var n := |p| - 1;
    if n == 0 {
      var v :| v in vars && vars[v].owner.Local? && vars[v].target == p[0];
      assert v in w.vars;
    } else {
      ChainSurvives(w, vars, p[..n]);
      assert Owns(vars, p[n - 1], p[n]);
      var v :| v in vars && vars[v] == Ptr(Field(p[n - 1]), p[n]);
      assert v in w.vars;
    }
  }

  // On an acyclic ownership graph, once all is quiet the objects that are left are exactly those
  // that a thread can reach.
  lemma {:induction false} SurvivorsAreTheRooted(vars: map<VarId, Ptr>, w: World)
    requires Acyclic(vars) && Inv(w) && Quiet(w) && w.vars == Settled(vars, w.counts.Keys)
    ensures forall o :: o in w.counts <==> Rooted(vars, o)
    ensures Acyclic(w.vars)
  {
    hide Inv;
    AcyclicSubset(vars, w.vars);
    LeakIffUnreachableCycle(w);
    forall o ensures o in w.counts <==> Rooted(vars, o) {
      if o in w.counts {
        assert !Leaked(w, o);
        RootedSubset(w.vars, vars, o);
      }
      if Rooted(vars, o) {
        var p :| PathTo(vars, p, o);
        ChainSurvives(w, vars, p);
      }
    }
  }

  lemma RootedSubset(small: map<VarId, Ptr>, large: map<VarId, Ptr>, o: Obj)
    requires Rooted(small, o) && forall u :: u in small ==> u in large && large[u] == small[u]
    ensures Rooted(large, o)
  {
    var p :| PathTo(small, p, o);
    OwnsSubset(small, large, p);
    assert PathTo(large, p, o);
  }

  // Deletions and the releases of destructors only, by any threads.
  predicate CleanupRun(w: World, run: seq<Action>)
    decreases |run|
  {
    run == [] || (Enabled(w, run[0]) && IsCleanup(w, run[0]) && CleanupRun(Apply(w, run[0]), run[1..]))
  }

  lemma OwedDoNotSettle(vars: map<VarId, Ptr>, v: VarId, alive: set<Obj>)
    requires v in vars && vars[v].owner.Owed?
    ensures Settled(vars - {v}, alive) == Settled(vars, alive)
  {
  }

  lemma DestructSettles(vars: map<VarId, Ptr>, t: Thread, o: Obj, alive: set<Obj>)
    requires o !in alive
    ensures Settled(Destruct(vars, t, o), alive) == Settled(vars, alive)
  {
  }

  lemma CleanupStepSettles(w: World, a: Action, alive: set<Obj>)
    requires Enabled(w, a) && IsCleanup(w, a) && Apply(w, a).World?
    ensures Apply(w, a).counts.Keys <= w.counts.Keys
    ensures alive <= Apply(w, a).counts.Keys ==> Settled(Apply(w, a).vars, alive) == Settled(w.vars, alive)
  {
    hide Settled;
    match a
    case Drop(t, v) => OwedDoNotSettle(w.vars, v, alive);
    case Delete(t, o) => if o !in alive { DestructSettles(w.vars, t, o, alive); }
  }

  lemma {:induction false} CleanupSettles(w: World, run: seq<Action>)
    requires Inv(w) && CleanupRun(w, run)
    ensures w.World? && ValidRun(w, run) && Inv(Run(w, run)) && Run(w, run).World?
    ensures Run(w, run).counts.Keys <= w.counts.Keys
    ensures Settled(Run(w, run).vars, Run(w, run).counts.Keys) == Settled(w.vars, Run(w, run).counts.Keys)
    decreases |run|
  {
    assert w.World?;
    hide Inv, Enabled, Apply, IsCleanup, Settled;
    if run != [] {
      var w' := Apply(w, run[0]);
      StepKeepsInv(w, run[0]);
      CleanupSettles(w', run[1..]);
      CleanupStepSettles(w, run[0], Run(w', run[1..]).counts.Keys);
    }
  }

  lemma QuietIsSettled(w: World)
    requires Inv(w) && Quiet(w)
    ensures Settled(w.vars, w.counts.Keys) == w.vars
  {
  }

  // No deletion or release of a cleanup takes away the support of an object.
  lemma CleanupKeepsSupport(w: World, a: Action, s: set<Obj>)
    requires Inv(w) && Enabled(w, a) && IsCleanup(w, a) && Supported(w.vars, s)
    ensures Apply(w, a).World? && Supported(Apply(w, a).vars, s)
  {
    NoUseAfterDelete(w, a);
    SupportedIsAlive(w, s);
    match a
    case Drop(t, v) => OwedSupportsNothing(w.vars, v, s);
    case Delete(t, o) =>
      assert (t, o) in w.raw + w.doomed;
      DestructKeepsSupport(w.vars, t, o, s);
  }

  lemma OwedSupportsNothing(vars: map<VarId, Ptr>, v: VarId, s: set<Obj>)
    requires Supported(vars, s) && v in vars && vars[v].owner.Owed?
    ensures Supported(vars - {v}, s)
  {
    forall o | o in s ensures exists u :: Supports(vars - {v}, s, u) && (vars - {v})[u].target == o {
      var u :| Supports(vars, s, u) && vars[u].target == o;
      assert Supports(vars - {v}, s, u);
    }
  }

  lemma DestructKeepsSupport(vars: map<VarId, Ptr>, t: Thread, x: Obj, s: set<Obj>)
    requires Supported(vars, s) && x !in s
    ensures Supported(Destruct(vars, t, x), s)
  {
    var vars' := Destruct(vars, t, x);
    forall o | o in s ensures exists u :: Supports(vars', s, u) && vars'[u].target == o {
      var u :| Supports(vars, s, u) && vars[u].target == o;
      assert Supports(vars', s, u);
    }
  }

  lemma {:induction false} CleanupRunKeepsSupport(w: World, run: seq<Action>, s: set<Obj>)
    requires Inv(w) && CleanupRun(w, run) && Supported(w.vars, s)
    ensures ValidRun(w, run) && Run(w, run).World? && Supported(Run(w, run).vars, s)
    decreases |run|
  {
    assert w.World?;
    hide Inv, Enabled, Apply, IsCleanup, Supported;
    if run != [] {
      StepKeepsInv(w, run[0]);
      CleanupKeepsSupport(w, run[0], s);
      CleanupRunKeepsSupport(Apply(w, run[0]), run[1..], s);
    }
  }

  lemma SupportGrows(vars: map<VarId, Ptr>, vars': map<VarId, Ptr>, s: set<Obj>)
    requires Supported(vars, s) && forall u :: u in vars ==> u in vars' && vars'[u] == vars[u]
    ensures Supported(vars', s)
  {
    forall o | o in s ensures exists u :: Supports(vars', s, u) && vars'[u].target == o {
      var u :| Supports(vars, s, u) && vars[u].target == o;
      assert Supports(vars', s, u);
    }
  }

  // When all is quiet, and the supported sets of the start are still supported, what is left is
  // what was kept at the start.
  lemma {:induction false} SurvivorsAreTheKept(vars: map<VarId, Ptr>, w: World)
    requires Inv(w) && Quiet(w) && forall u :: u in w.vars ==> u in vars && vars[u] == w.vars[u]
    requires forall s :: Supported(vars, s) ==> Supported(w.vars, s)
    ensures forall o :: o in w.counts <==> Kept(vars, o)
  {
    QuietIsSupported(w);
    SupportGrows(w.vars, vars, w.counts.Keys);
    hide Inv, Quiet, Supported;
    forall o ensures o in w.counts <==> Kept(vars, o) {
      if o in w.counts {
        SupportedIsKept(vars, w.counts.Keys, o);
      }
      if Kept(vars, o) {
        var s := KeptIsSupported(vars, o);
        SupportedIsAlive(w, s);
      }
    }
  }

  // Concurrent cascades: in whatever order the threads perform the deletions and releases that are
  // due, when none is left exactly the objects that a thread or an ownership cycle reached at the
  // start remain, so any two schedules end with the same objects and the same variables.
  lemma {:induction false} EveryScheduleFreesTheSame(w: World, run: seq<Action>, run': seq<Action>)
    requires Inv(w)
    requires CleanupRun(w, run) && ValidRun(w, run) && Quiet(Run(w, run))
    requires CleanupRun(w, run') && ValidRun(w, run') && Quiet(Run(w, run'))
    ensures forall o :: o in Run(w, run).counts <==> Kept(w.vars, o)
    ensures Acyclic(w.vars) ==> forall o :: o in Run(w, run).counts <==> Rooted(w.vars, o)
    ensures Run(w, run).vars == Run(w, run').vars && Run(w, run).counts == Run(w, run').counts
  {
    hide Inv, ValidRun, Run, CleanupRun, Kept, Acyclic;
    ScheduleKeepsTheKept(w, run);
    ScheduleKeepsTheKept(w, run');
    if Acyclic(w.vars) { AcyclicKeepsTheRooted(w.vars); }
    var w1, w2 := Run(w, run), Run(w, run');
    assert w1.counts.Keys == w2.counts.Keys by {
      assert forall o :: o in w1.counts.Keys <==> Kept(w.vars, o);
      assert forall o :: o in w2.counts.Keys <==> Kept(w.vars, o);
    }
    forall o | o in w1.counts ensures w1.counts[o] == w2.counts[o] { CountsAreDetermined(w1, w2, o); }
  }

  lemma {:induction false} ScheduleKeepsTheKept(w: World, run: seq<Action>)
    requires Inv(w) && CleanupRun(w, run) && ValidRun(w, run) && Quiet(Run(w, run))
    ensures w.World? && Inv(Run(w, run)) && Run(w, run).vars == Settled(w.vars, Run(w, run).counts.Keys)
    ensures forall o :: o in Run(w, run).counts <==> Kept(w.vars, o)
  {
    assert w.World?;
    hide Inv, ValidRun, Run, CleanupRun, Supported, Kept;
    CleanupSettles(w, run);
    QuietIsSettled(Run(w, run));
    forall s | Supported(w.vars, s) ensures Supported(Run(w, run).vars, s) { CleanupRunKeepsSupport(w, run, s); }
    SurvivorsAreTheKept(w.vars, Run(w, run));
  }

  lemma CountsAreDetermined(w: World, w': World, o: Obj)
    requires Inv(w) && Inv(w') && w.vars == w'.vars && o in w.counts && o in w'.counts
    ensures w.counts[o] == w'.counts[o]
  {
  }

  lemma CountIsRootsAndFields(w: World, o: Obj)
    requires Inv(w) && Quiet(w) && o in w.counts
    ensures w.counts[o] == |RootsTo(w.vars, o)| + |FieldsTo(w.vars, o)|
  {
    assert PtrsTo(w.vars, o) == RootsTo(w.vars, o) + FieldsTo(w.vars, o);
  }

  // The release of a pointer on a heap at rest: exactly what was not kept without it goes, which on
  // an acyclic graph is what no thread reaches any more.
  method DropAndCollect(heap: RefHeap, t: Thread, v: VarId) returns (gone: bool)
    requires Inv(heap.State()) && Quiet(heap.State())
    requires v in heap.vars && heap.vars[v].owner == Local(t)
    modifies heap
    ensures Inv(heap.State()) && Quiet(heap.State())
    ensures forall o :: o in heap.counts <==> Kept(old(heap.vars) - {v}, o)
    ensures Acyclic(old(heap.vars)) ==>
      Acyclic(heap.vars) && forall o :: o in heap.counts <==> Rooted(old(heap.vars) - {v}, o)
    ensures heap.deleted == old(heap.deleted) + (old(heap.counts).Keys - heap.counts.Keys)
    ensures forall o :: o in heap.counts ==> heap.counts[o] == |RootsTo(heap.vars, o)| + |FieldsTo(heap.vars, o)|
    ensures gone <==> !Kept(old(heap.vars) - {v}, old(heap.vars)[v].target)
  {
    hide Kept, Acyclic, Supported, Rooted;
    ghost var w := heap.State();
    NotYetDoomed(w, t, v);
    gone := heap.ReleasePointer(t, v);
    assert forall u :: u in heap.vars ==> u in w.vars - {v} && heap.vars[u] == w.vars[u];
    SurvivorsAreTheKept(w.vars - {v}, heap.State());
    if Acyclic(w.vars) {
      AcyclicSubset(w.vars, w.vars - {v});
      AcyclicSubset(w.vars, heap.vars);
      AcyclicKeepsTheRooted(w.vars - {v});
    }
    forall o | o in heap.counts ensures heap.counts[o] == |RootsTo(heap.vars, o)| + |FieldsTo(heap.vars, o)| {
      CountIsRootsAndFields(heap.State(), o);
    }
  }
}
