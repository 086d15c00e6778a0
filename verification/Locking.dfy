/** A counter shared by any number of threads, each call to IncrementValue bracketed by an AutoLock
    as in the example of cef_base.h.  The constructor of AutoLock acquires the lock, its destructor
    releases it; the load and the store of value_++ are separate steps.  */
module Locking {

  type Thread = nat

  datatype PC = Outside | Entered | Loaded(tmp: int) | Stored

  datatype World = World(holder: set<Thread>, value: int, pcs: map<Thread, PC>,
                         acquires: map<Thread, nat>, releases: map<Thread, nat>)

  datatype Action = Acquire(t: Thread) | Load(t: Thread) | Store(t: Thread) | Release(t: Thread)

  const Init := World({}, 0, map[], map[], map[])

  function At(w: World, t: Thread): PC {
    if t in w.pcs then w.pcs[t] else Outside
  }

  function Count(m: map<Thread, nat>, t: Thread): nat {
    if t in m then m[t] else 0
  }

  // With `locked` false, the same program without the lock.
  predicate Enabled(w: World, a: Action, locked: bool) {
    match a
    case Acquire(t) => At(w, t) == Outside && (locked ==> w.holder == {})
    case Load(t) => At(w, t) == Entered
    case Store(t) => At(w, t).Loaded?
    case Release(t) => At(w, t) == Stored
  }

  function Apply(w: World, a: Action): World {
    var t := a.t;
    match a
    case Acquire(_) =>
      w.(holder := w.holder + {t}, pcs := w.pcs[t := Entered], acquires := w.acquires[t := Count(w.acquires, t) + 1])
    case Load(_) => w.(pcs := w.pcs[t := Loaded(w.value)])
    case Store(_) => w.(value := if At(w, t).Loaded? then At(w, t).tmp + 1 else w.value, pcs := w.pcs[t := Stored])
    case Release(_) =>
      w.(holder := w.holder - {t}, pcs := w.pcs[t := Outside], releases := w.releases[t := Count(w.releases, t) + 1])
  }

  predicate ValidRun(w: World, run: seq<Action>, locked: bool)
    decreases |run|
  {
    run == [] || (Enabled(w, run[0], locked) && ValidRun(Apply(w, run[0]), run[1..], locked))
  }

  function Run(w: World, run: seq<Action>): World
    decreases |run|
  {
    if run == [] then w else Run(Apply(w, run[0]), run[1..])
  }

  // Completed calls: Release actions, whoever performed them.
  function Completed(run: seq<Action>): nat {
    if run == [] then 0 else (if run[0].Release? then 1 else 0) + Completed(run[1..])
  }

  // Calls that have stored but not returned.
  function Pending(w: World): set<Thread> {
    set t | t in w.pcs && w.pcs[t] == Stored
  }

  ghost predicate Inv(w: World, completed: nat) {
    && (forall t :: t in w.holder <==> At(w, t) != Outside)
    && (forall t, u :: t in w.holder && u in w.holder ==> t == u)
    && (forall t :: At(w, t).Loaded? ==> At(w, t).tmp == w.value)
    && w.value == completed + |Pending(w)|
    && (forall t :: Count(w.acquires, t) == Count(w.releases, t) + if t in w.holder then 1 else 0)
  }

  lemma {:induction false} StepKeepsInv(w: World, a: Action, completed: nat)
    requires Inv(w, completed) && Enabled(w, a, true)
    ensures Inv(Apply(w, a), completed + if a.Release? then 1 else 0)
  {
    var w', t := Apply(w, a), a.t;
    PendingInside(w, completed);
    assert t in w.holder || a.Acquire?;
    match a
    case Acquire(_) => assert Pending(w') == Pending(w);
    case Load(_) => assert Pending(w') == Pending(w);
    case Store(_) => assert Pending(w) == {} && Pending(w') == {t};
    case Release(_) =>
      assert t in Pending(w);
      assert Pending(w) == {t};
      assert forall u :: u in Pending(w') ==> u in Pending(w) && u != t;
  }

  lemma PendingInside(w: World, completed: nat)
    requires Inv(w, completed)
    ensures forall u :: u in Pending(w) ==> u in w.holder && At(w, u) == Stored
  {
    forall u | u in Pending(w) ensures u in w.holder && At(w, u) == Stored {
      assert At(w, u) == Stored;
    }
  }

  // In every run, under any schedule: at most one thread is in the critical section, acquires and
  // releases balance for every thread that is outside, and the counter is the number of calls that
  // have completed or have stored their result.
  lemma {:induction false} MutualExclusion(w: World, run: seq<Action>, completed: nat)
    requires Inv(w, completed) && ValidRun(w, run, true)
    ensures Inv(Run(w, run), completed + Completed(run))
    decreases |run|
  {
    if run != [] {
      StepKeepsInv(w, run[0], completed);
      MutualExclusion(Apply(w, run[0]), run[1..], completed + if run[0].Release? then 1 else 0);
    }
  }

  lemma {:induction false} CounterIsExact(run: seq<Action>, t: Thread, u: Thread)
    requires ValidRun(Init, run, true)
    ensures
      var w := Run(Init, run);
      && (At(w, t) != Outside && At(w, u) != Outside ==> t == u)
      && (w.holder == {} ==> w.value == Completed(run) && Count(w.acquires, t) == Count(w.releases, t))
  {
    assert Pending(Init) == {};
    MutualExclusion(Init, run, 0);
    var w := Run(Init, run);
    PendingInside(w, Completed(run));
    assert w.holder == {} ==> Pending(w) == {};
  }

  // ---------- every call gets through ----------

  // A thread outside waits for the lock exactly as long as another thread is inside, and a thread
  // inside can always take its next step.
  lemma {:induction false} WaitsOnlyForTheHolder(w: World, t: Thread, completed: nat)
    requires Inv(w, completed)
    ensures At(w, t) == Outside ==> (Enabled(w, Acquire(t), true) <==> forall u :: At(w, u) == Outside)
    ensures At(w, t) != Outside ==> exists a: Action :: a.t == t && !a.Acquire? && Enabled(w, a, true)
  {
    if At(w, t) != Outside {
      var a := match At(w, t) { case Entered => Load(t) case Loaded(_) => Store(t) case _ => Release(t) };
      assert a.t == t && !a.Acquire? && Enabled(w, a, true);
    } else if forall u :: At(w, u) == Outside {
      assert forall u :: u !in w.holder;
      assert w.holder == {};
    }
  }

  // One call of IncrementValue.
  function Call(t: Thread): seq<Action> {
    [Acquire(t), Load(t), Store(t), Release(t)]
  }

  function Calls(ts: seq<Thread>): seq<Action> {
    if ts == [] then [] else Call(ts[0]) + Calls(ts[1..])
  }

  lemma StepThenRun(w: World, a: Action, rest: seq<Action>)
    requires Enabled(w, a, true) && ValidRun(Apply(w, a), rest, true)
    ensures ValidRun(w, [a] + rest, true) && Run(w, [a] + rest) == Run(Apply(w, a), rest)
  {
    assert ([a] + rest)[1..] == rest;
  }

  lemma {:induction false} CallThenRun(w: World, t: Thread, rest: seq<Action>)
    requires w.holder == {} && At(w, t) == Outside
    requires ValidRun(AfterCall(w, t), rest, true)
    ensures ValidRun(w, Call(t) + rest, true) && Run(w, Call(t) + rest) == Run(AfterCall(w, t), rest)
    ensures AfterCall(w, t).holder == {} && AfterCall(w, t).value == w.value + 1
    ensures forall u :: At(AfterCall(w, t), u) == At(w, u)
  {
    var w1 := Apply(w, Acquire(t));
    var w2 := Apply(w1, Load(t));
    var w3 := Apply(w2, Store(t));
    assert Enabled(w, Acquire(t), true) && Enabled(w1, Load(t), true) && Enabled(w2, Store(t), true);
    assert Enabled(w3, Release(t), true);
    hide Apply, Enabled, ValidRun, Run;
    StepThenRun(w3, Release(t), rest);
    StepThenRun(w2, Store(t), [Release(t)] + rest);
    StepThenRun(w1, Load(t), [Store(t)] + ([Release(t)] + rest));
    StepThenRun(w, Acquire(t), [Load(t)] + ([Store(t)] + ([Release(t)] + rest)));
    assert Call(t) + rest == [Acquire(t)] + ([Load(t)] + ([Store(t)] + ([Release(t)] + rest)));
  }

  function AfterCall(w: World, t: Thread): World {
    Apply(Apply(Apply(Apply(w, Acquire(t)), Load(t)), Store(t)), Release(t))
  }

  // Calls by any threads, in any order, can be made from any world with nobody inside, and each
  // of them counts.
  lemma {:induction false} CallsGetThrough(w: World, ts: seq<Thread>)
    requires w.holder == {} && forall t :: t in ts ==> At(w, t) == Outside
    ensures ValidRun(w, Calls(ts), true) && Run(w, Calls(ts)).holder == {}
    ensures Run(w, Calls(ts)).value == w.value + |ts| && Completed(Calls(ts)) == |ts|
    decreases |ts|
  {
    if ts != [] {
      CallCompletes(ts[0], Calls(ts[1..]));
      hide Enabled, Apply, AfterCall, ValidRun, Run, Completed;
      var w' := AfterCall(w, ts[0]);
      OneCall(w, ts[0]);
      CallsGetThrough(w', ts[1..]);
      CallThenRun(w, ts[0], Calls(ts[1..]));
    }
  }

  lemma OneCall(w: World, t: Thread)
    requires w.holder == {} && At(w, t) == Outside
    ensures AfterCall(w, t).holder == {} && forall u :: At(AfterCall(w, t), u) == At(w, u)
  {
  }

  lemma CallCompletes(t: Thread, rest: seq<Action>)
    ensures Completed(Call(t) + rest) == 1 + Completed(rest)
  {
    var r3 := [Release(t)] + rest;
    var r2 := [Store(t)] + r3;
    var r1 := [Load(t)] + r2;
    assert Call(t) + rest == [Acquire(t)] + r1;
    assert r3[1..] == rest && r2[1..] == r3 && r1[1..] == r2 && ([Acquire(t)] + r1)[1..] == r1;
    assert Completed(r3) == 1 + Completed(rest) && Completed(r2) == Completed(r3) && Completed(r1) == Completed(r2);
  }

  // The releases of a thread are its completed calls.
  function CompletedBy(run: seq<Action>, t: Thread): nat {
    if run == [] then 0 else (if run[0] == Release(t) then 1 else 0) + CompletedBy(run[1..], t)
  }

  lemma {:induction false} ReleasesAreCompletedCalls(w: World, run: seq<Action>, t: Thread)
    ensures Count(Run(w, run).releases, t) == Count(w.releases, t) + CompletedBy(run, t)
    decreases |run|
  {
    if run != [] {
      ReleasesAreCompletedCalls(Apply(w, run[0]), run[1..], t);
    }
  }

  // Without the lock an increment can be lost.
  lemma {:induction false} LostUpdate() returns (run: seq<Action>)
    ensures ValidRun(Init, run, false)
    ensures Run(Init, run).holder == {} && Completed(run) == 2 && Run(Init, run).value == 1
  {
    var r7 := [Release(1)];
    var r6 := [Release(0)] + r7;
    var r5 := [Store(1)] + r6;
    var r4 := [Store(0)] + r5;
    var r3 := [Load(1)] + r4;
    var r2 := [Load(0)] + r3;
    var r1 := [Acquire(1)] + r2;
    run := [Acquire(0)] + r1;
    var w1 := Apply(Init, Acquire(0));
    var w2 := Apply(w1, Acquire(1));
    var w3 := Apply(w2, Load(0));
    var w4 := Apply(w3, Load(1));
    var w5 := Apply(w4, Store(0));
    var w6 := Apply(w5, Store(1));
    var w7 := Apply(w6, Release(0));
    var w8 := Apply(w7, Release(1));
    assert w8.value == 1 && w8.holder == {};
    assert run[1..] == r1 && r1[1..] == r2 && r2[1..] == r3 && r3[1..] == r4;
    assert r4[1..] == r5 && r5[1..] == r6 && r6[1..] == r7 && r7[1..] == [];
    assert ValidRun(w8, [], false) && Run(w8, []) == w8;
    assert ValidRun(w7, r7, false) && Run(w7, r7) == w8 && Completed(r7) == 1;
    assert ValidRun(w6, r6, false) && Run(w6, r6) == w8 && Completed(r6) == 2;
    assert ValidRun(w5, r5, false) && Run(w5, r5) == w8 && Completed(r5) == 2;
    assert ValidRun(w4, r4, false) && Run(w4, r4) == w8 && Completed(r4) == 2;
    assert ValidRun(w3, r3, false) && Run(w3, r3) == w8 && Completed(r3) == 2;
    assert ValidRun(w2, r2, false) && Run(w2, r2) == w8 && Completed(r2) == 2;
    assert ValidRun(w1, r1, false) && Run(w1, r1) == w8 && Completed(r1) == 2;
  }
}
